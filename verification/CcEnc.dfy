/** Credit card encryption: the Luhn check digit is stripped, the rest is enciphered by a
    format-preserving cipher on [0, 10^15), and a fresh check digit is appended. */
module CcEnc {
  import opened NumberTheory
  import opened Wrappers

  const UINT64: nat := 0x1_0000_0000_0000_0000
  const DOMAIN: nat := 1000000000000000
  const TWO_TO_THE_50: nat := 0x4_0000_0000_0000

  datatype Error = TooLarge

  // ---------- The Luhn formula ----------

  /** What a digit contributes; every second digit from the right is doubled, and the digits of
      the product are added. */
  function Contribution(digit: nat, alt: bool): nat
    requires digit < 10
  {
    if !alt then digit else if 2 * digit > 9 then 2 * digit - 9 else 2 * digit
  }

  /** The sum over all digits (annex B of ISO/IEC 7812-1). */
  function LuhnSum(n: nat, alt: bool): nat {
    if n == 0 then 0 else Contribution(n % 10, alt) + LuhnSum(n / 10, !alt)
  }

  predicate LuhnValid(n: nat) {
    LuhnSum(n, false) % 10 == 0
  }

  function Pow10(k: nat): nat {
    if k == 0 then 1 else 10 * Pow10(k - 1)
  }

  lemma {:induction false} LuhnSumBound(n: nat, alt: bool, k: nat)
    requires n < Pow10(k)
    ensures LuhnSum(n, alt) <= 9 * k
    decreases k
  {
    if n > 0 {
      assert k > 0;
      LuhnSumBound(n / 10, !alt, k - 1);
    }
  }

  /** A 64-bit number has at most 20 digits, so its sum fits a byte with room to spare. */
  lemma LuhnSumFitsByte(n: nat, alt: bool)
    requires n < UINT64
    ensures LuhnSum(n, alt) <= 180
  {
    assert Pow10(5) == 100000;
    assert Pow10(10) == 100000 * Pow10(5);
    assert Pow10(15) == 100000 * Pow10(10);
    assert Pow10(20) == 100000 * Pow10(15);
    LuhnSumBound(n, alt, 20);
  }

  lemma LuhnSumUnfold(n: nat, alt: bool)
    requires n > 0
    ensures LuhnSum(n, alt) == Contribution(n % 10, alt) + LuhnSum(n / 10, !alt)
  {
  }

  lemma LuhnSumOfZero()
    ensures LuhnSum(0, false) == LuhnSum(0, true) == 0
  {
  }

  /** `luhn_checksum`: the arithmetic is on 8 bits, and never wraps. */
  method LuhnChecksum(cc: nat) returns (r: nat)
    requires cc < UINT64
    ensures r == LuhnSum(cc, false) % 10
  {
    LuhnSumFitsByte(cc, false);
    LuhnSumOfZero();
    hide LuhnSum;
    var ccNumber: nat, sum: nat, alt := cc, 0, false;
    while ccNumber > 0
      invariant sum + LuhnSum(ccNumber, alt) == LuhnSum(cc, false) <= 180
    {
      LuhnSumUnfold(ccNumber, alt);
      var digit := ccNumber % 10;
      if alt {
        digit := digit * 2 % 256;
        if digit > 9 {
          digit := digit - 9;
        }
      }
      assert digit == Contribution(ccNumber % 10, alt);
      hide Contribution;
      sum := (sum + digit) % 256;
      ccNumber := ccNumber / 10;
      alt := !alt;
    }
    r := sum % 10;
  }

  method LuhnCheck(cc: nat) returns (ok: bool)
    requires cc < UINT64
    ensures ok == LuhnValid(cc)
  {
    var c := LuhnChecksum(cc);
    ok := c == 0;
  }

  // ---------- Rank and derank ----------

  /** `cc_rank`: drop the check digit. */
  function CcRank(cc: nat): nat {
    cc / 10
  }

  /** The check digit that completes a prefix. */
  function CheckDigit(prefix: nat): nat {
    (10 - LuhnSum(prefix, true) % 10) % 10
  }

  /** The Luhn-valid number with the given prefix. */
  function Completed(prefix: nat): nat {
    prefix * 10 + CheckDigit(prefix)
  }

  lemma LuhnOfCompletion(prefix: nat, i: nat)
    requires i < 10
    ensures LuhnSum(prefix * 10 + i, false) == i + LuhnSum(prefix, true)
  {
    var n := prefix * 10 + i;
    assert n % 10 == i && n / 10 == prefix;
    assert n == 0 ==> prefix == 0 && i == 0;
  }

  /** Exactly one check digit completes a prefix to a valid number. */
  lemma UniqueCheckDigit(prefix: nat, i: nat)
    requires i < 10
    ensures LuhnValid(prefix * 10 + i) <==> i == CheckDigit(prefix)
  {
    LuhnOfCompletion(prefix, i);
    DigitCompletes(LuhnSum(prefix, true), i);
  }

  lemma DigitCompletes(s: nat, i: nat)
    requires i < 10
    ensures (i + s) % 10 == 0 <==> i == (10 - s % 10) % 10
  {
    var d := s % 10;
    assert s == 10 * (s / 10) + d;
    assert i + s == 10 * (s / 10) + (i + d);
    if i + d == 10 {
      ModUnique(10, s / 10 + 1, 0);
    } else if i + d < 10 {
      ModUnique(10, s / 10, i + d);
    } else {
      ModUnique(10, s / 10 + 1, i + d - 10);
    }
  }

  /** A number is valid exactly when it is the completion of its own prefix. */
  lemma ValidIffCompleted(x: nat)
    ensures LuhnValid(x) <==> x == Completed(CcRank(x))
  {
    UniqueCheckDigit(x / 10, x % 10);
  }

  /** `cc_derank`, in 64-bit arithmetic; 0 would mean that no digit completes the prefix. */
  method CcDerank(cc: nat) returns (r: nat)
    requires cc * 10 + 9 < UINT64
    ensures r == Completed(cc) && LuhnValid(r) && CcRank(r) == cc
  {
    hide LuhnSum, LuhnValid, CheckDigit;
    CheckDigitRange(cc);
    r := 0;
    var i := 0;
    while i != 10
      invariant 0 <= i <= CheckDigit(cc)
    {
      UniqueCheckDigit(cc, i);
      var candidate := (cc * 10 % UINT64 + i) % UINT64;
      var ok := LuhnCheck(candidate);
      if ok {
        return candidate;
      }
      i := i + 1;
    }
    assert false;
  }

  lemma CheckDigitRange(prefix: nat)
    ensures CheckDigit(prefix) < 10
  {
  }

  // ---------- Encryption ----------

  function Pow256(k: nat): (p: nat)
    ensures p >= 1
  {
    if k == 0 then 1 else 256 * Pow256(k - 1)
  }

  /** `byte_at`: the k-th least significant byte. */
  function ByteAt(c: nat, k: nat): nat {
    c / Pow256(k) % 256
  }

  /** c without its k low bytes. */
  function HighPart(c: nat, k: nat): nat {
    QuotientAtMost(c, Pow256(k));
    c / Pow256(k)
  }

  lemma ShiftByte(c: nat, k: nat)
    ensures HighPart(c, k) == HighPart(c, k + 1) * 256 + ByteAt(c, k)
  {
    var p := Pow256(k);
    DivideTwice(c, p, 256);
    assert Pow256(k + 1) == 256 * p;
  }

  lemma DivideTwice(c: nat, p: nat, b: nat)
    requires p > 0 && b > 0
    ensures c / p / b == c / (b * p)
  {
    var q, r := c / p, c % p;
    var s, t := q / b, q % b;
    var u := p * t + r;
    RemainderFits(p, b, t, r);
    assert p * (b * s) == b * p * s;
    assert p * q == p * (b * s) + p * t;
    assert c == b * p * s + u;
    ModUnique(b * p, s, u);
  }

  lemma RemainderFits(p: nat, b: nat, t: nat, r: nat)
    requires t < b && r < p
    ensures p * t + r < b * p
  {
    var w := b - t - 1;
    assert b == w + t + 1;
    assert p * b == p * w + p * t + p;
  }

  /** Reading the 7 low bytes of c back into a 64-bit number, most significant first. */
  method Reassemble(c: nat) returns (r: nat)
    requires c < Pow256(7)
    ensures r == c
  {
    r := 0;
    var i := 0;
    ModUnique(Pow256(7), 0, c);
    assert Pow256(0) == 1;
    assert HighPart(c, 7) == 0 && HighPart(c, 0) == c;
    hide Pow256, ByteAt, HighPart;
    while i != 7
      invariant 0 <= i <= 7 && r == HighPart(c, 7 - i)
    {
      ShiftByte(c, 6 - i);
      SmallQuotient(c, 6 - i);
      r := r * 256 % UINT64 + ByteAt(c, 6 - i);
      i := i + 1;
    }
  }

  lemma Pow256Is7()
    ensures Pow256(7) == 0x100_0000_0000_0000
  {
    assert Pow256(3) == 0x100_0000;
    assert Pow256(5) == 0x1_0000 * Pow256(3);
    assert Pow256(7) == 0x1_0000 * Pow256(5);
  }

  lemma SmallQuotient(c: nat, k: nat)
    requires c < Pow256(7)
    ensures HighPart(c, k + 1) * 256 < UINT64
  {
    Pow256Is7();
    QuotientAtMost(c, Pow256(k + 1));
  }

  lemma QuotientAtMost(c: nat, p: nat)
    requires p > 0
    ensures 0 <= c / p <= c
  {
    var q := c / p;
    assert c == p * q + c % p;
    if q > 0 {
      MultipleAtLeast(q, p);
    }
  }

  /** The domain of the cipher fits 50 bits, and 50 bits leave room for one more digit. */
  lemma CardFits(x: nat)
    ensures x < DOMAIN ==> x < TWO_TO_THE_50 && Completed(x) < 10 * DOMAIN
    ensures x < TWO_TO_THE_50 ==> x < Pow256(7) && x * 10 + 9 < UINT64
  {
    Pow256Is7();
    CheckDigitRange(x);
  }

  /** A keyed format-preserving cipher on [0, 10^15) and its inverse. */
  ghost predicate IsCipher(encrypt: nat -> nat, decrypt: nat -> nat) {
    forall x :: 0 <= x < DOMAIN ==>
      encrypt(x) < DOMAIN && decrypt(x) < DOMAIN && decrypt(encrypt(x)) == x && encrypt(decrypt(x)) == x
  }

  /** `encrypt_cc_number`, and `decrypt_cc_number` with the inverse cipher: the two bodies are
      the same.  Nothing is asked of the cipher here, not even on its domain. */
  method Transform(cc: nat, fe1: nat -> nat) returns (r: Result<nat, Error>)
    requires cc < UINT64
    ensures r.Ok? <==> fe1(CcRank(cc)) < TWO_TO_THE_50
    ensures r.Ok? ==> LuhnValid(r.value) && CcRank(r.value) == fe1(CcRank(cc)) && r.value == Encrypted(cc, fe1)
  {
    var c := fe1(CcRank(cc));
    CardFits(c);
    if c >= TWO_TO_THE_50 {  // c.bits() > 50
      return Err(TooLarge);
    }
    var n := Reassemble(c);
    var d := CcDerank(n);
    r := Ok(d);
  }

  /** On card numbers, the prefix of which is in the domain, the 50-bit check never fires. */
  method EncryptCcNumber(cc: nat, encrypt: nat -> nat, ghost decrypt: nat -> nat) returns (r: Result<nat, Error>)
    requires cc < UINT64 && IsCipher(encrypt, decrypt)
    ensures cc < 10 * DOMAIN ==> r == Ok(Encrypted(cc, encrypt))
    ensures r.Ok? ==> r.value == Encrypted(cc, encrypt) && LuhnValid(r.value)
  {
    CardFits(encrypt(CcRank(cc)));
    r := Transform(cc, encrypt);
  }

  method DecryptCcNumber(encCc: nat, ghost encrypt: nat -> nat, decrypt: nat -> nat) returns (r: Result<nat, Error>)
    requires encCc < UINT64 && IsCipher(encrypt, decrypt)
    ensures encCc < 10 * DOMAIN ==> r == Ok(Encrypted(encCc, decrypt))
    ensures r.Ok? ==> r.value == Encrypted(encCc, decrypt) && LuhnValid(r.value)
  {
    CardFits(decrypt(CcRank(encCc)));
    r := Transform(encCc, decrypt);
  }

  /** The number the cipher takes cc to. */
  function Encrypted(cc: nat, fe1: nat -> nat): nat {
    Completed(fe1(CcRank(cc)))
  }

  /** Decryption after encryption gives the valid number with the same prefix: the card number
      itself exactly when that was valid. */
  lemma RoundTrip(x: nat, encrypt: nat -> nat, decrypt: nat -> nat)
    requires x < 10 * DOMAIN && IsCipher(encrypt, decrypt)
    ensures var y := Encrypted(x, encrypt); y < 10 * DOMAIN && LuhnValid(y)
    ensures Encrypted(Encrypted(x, encrypt), decrypt) == Completed(CcRank(x))
    ensures Encrypted(Encrypted(x, encrypt), decrypt) == x <==> LuhnValid(x)
  {
    var c := encrypt(CcRank(x));
    CardFits(c);
    CheckDigitRange(c);
    UniqueCheckDigit(c, CheckDigit(c));
    assert CcRank(Completed(c)) == c;
    assert decrypt(c) == CcRank(x);
    ValidIffCompleted(x);
  }

  /** So encryption permutes the valid card numbers of 16 digits: distinct ones have distinct
      ciphertexts, and each is the ciphertext of one. */
  lemma PermutesValidNumbers(x: nat, y: nat, encrypt: nat -> nat, decrypt: nat -> nat)
    requires x < 10 * DOMAIN && y < 10 * DOMAIN && LuhnValid(x) && LuhnValid(y) && IsCipher(encrypt, decrypt)
    ensures Encrypted(x, encrypt) == y <==> x == Encrypted(y, decrypt)
  {
    RoundTrip(x, encrypt, decrypt);
    RoundTrip(y, decrypt, encrypt);
  }

  // ---------- What the formula is for ----------

  /** A doubled digit contributes the digit sum of its double, any other digit itself. */
  lemma ContributionMeaning(digit: nat)
    requires digit < 10
    ensures Contribution(digit, false) == digit
    ensures Contribution(digit, true) == 2 * digit / 10 + 2 * digit % 10
  {
  }

  /** Whether place k, counted from the right, is doubled. */
  predicate Doubled(k: nat, alt: bool) {
    alt != (k % 2 == 1)
  }

  lemma TenTimes(hi: nat, p: nat, b: nat)
    ensures (hi * (10 * p) + b) % 10 == b % 10
    ensures (hi * (10 * p) + b) / 10 == hi * p + b / 10
  {
    assert hi * (10 * p) == 10 * (hi * p);
    ModUnique(10, hi * p + b / 10, b % 10);
  }

  lemma SumSplitStep(p: nat, hi: nat, b: nat, alt: bool, rest: nat)
    requires LuhnSum(hi * p + b / 10, !alt) == LuhnSum(b / 10, !alt) + rest
    ensures LuhnSum(hi * (10 * p) + b, alt) == LuhnSum(b, alt) + rest
  {
    hide LuhnSum, Contribution;
    TenTimes(hi, p, b);
    SumStep(hi * (10 * p) + b, alt);
    SumStep(b, alt);
  }

  lemma NextPlace(k: nat, alt: bool)
    requires k > 0
    ensures Doubled(k - 1, !alt) == Doubled(k, alt) && Pow10(k) == 10 * Pow10(k - 1)
  {
  }

  /** The sum splits at any place. */
  lemma {:induction false} SumSplit(k: nat, hi: nat, b: nat, alt: bool)
    requires b < Pow10(k)
    ensures LuhnSum(hi * Pow10(k) + b, alt) == LuhnSum(b, alt) + LuhnSum(hi, Doubled(k, alt))
    decreases k
  {
    if k == 0 {
      LuhnSumOfZero();
      assert Pow10(k) == 1 && hi * 1 + b == hi && b == 0 && Doubled(k, alt) == alt;
    } else {
      NextPlace(k, alt);
      hide LuhnSum, Contribution, Pow10, Doubled;
      SumSplit(k - 1, hi, b / 10, !alt);
      SumSplitStep(Pow10(k - 1), hi, b, alt, LuhnSum(hi, Doubled(k, alt)));
    }
  }

  lemma SumStep(n: nat, alt: bool)
    ensures LuhnSum(n, alt) == Contribution(n % 10, alt) + LuhnSum(n / 10, !alt)
  {
    if n > 0 {
      LuhnSumUnfold(n, alt);
    } else {
      LuhnSumOfZero();
    }
  }

  /** The number with the digit d at place k, hi in front of it and b behind it. */
  function WithDigit(k: nat, hi: nat, d: nat, b: nat): nat {
    (hi * 10 + d) * Pow10(k) + b
  }

  lemma SumWithDigit(k: nat, hi: nat, d: nat, b: nat)
    requires d < 10 && b < Pow10(k)
    ensures LuhnSum(WithDigit(k, hi, d, b), false)
         == LuhnSum(b, false) + Contribution(d, Doubled(k, false)) + LuhnSum(hi, !Doubled(k, false))
  {
    hide LuhnSum, Contribution, Pow10, Doubled;
    SumSplit(k, hi * 10 + d, b, false);
    LastDigit(hi, d);
    SumStep(hi * 10 + d, Doubled(k, false));
  }

  lemma LastDigit(hi: nat, d: nat)
    requires d < 10
    ensures (hi * 10 + d) % 10 == d && (hi * 10 + d) / 10 == hi
  {
  }

  lemma ContributionsDiffer(d: nat, e: nat, alt: bool)
    requires d < 10 && e < 10 && d != e
    ensures Contribution(d, alt) % 10 != Contribution(e, alt) % 10
  {
  }

  /** Changing any one digit of a valid number makes it invalid. */
  lemma OneDigitDetected(k: nat, hi: nat, d: nat, e: nat, b: nat)
    requires d < 10 && e < 10 && d != e && b < Pow10(k)
    ensures LuhnValid(WithDigit(k, hi, d, b)) ==> !LuhnValid(WithDigit(k, hi, e, b))
  {
    SumWithDigit(k, hi, d, b);
    SumWithDigit(k, hi, e, b);
    var alt := Doubled(k, false);
    ContributionsDiffer(d, e, alt);
    hide Contribution, LuhnSum, WithDigit;
    NotBoth(LuhnSum(b, false) + LuhnSum(hi, !alt), Contribution(d, alt), Contribution(e, alt));
  }

  lemma NotBoth(s: nat, c: nat, c': nat)
    requires c % 10 != c' % 10
    ensures !((s + c) % 10 == 0 && (s + c') % 10 == 0)
  {
  }

  lemma SumWithTwo(k: nat, hi: nat, d: nat, e: nat, b: nat)
    requires d < 10 && e < 10 && b < Pow10(k)
    ensures LuhnSum(WithDigit(k, hi * 10 + d, e, b), false)
         == LuhnSum(b, false) + Contribution(e, Doubled(k, false)) + Contribution(d, !Doubled(k, false))
            + LuhnSum(hi, Doubled(k, false))
  {
    hide LuhnSum, Contribution, Pow10, Doubled, WithDigit;
    SumWithDigit(k, hi * 10 + d, e, b);
    LastDigit(hi, d);
    SumStep(hi * 10 + d, !Doubled(k, false));
  }

  lemma ExchangedContributions(d: nat, e: nat, alt: bool)
    requires d < 10 && e < 10
    ensures (Contribution(e, alt) + Contribution(d, !alt)) % 10 == (Contribution(d, alt) + Contribution(e, !alt)) % 10
       <==> d == e || {d, e} == {0, 9}
  {
    DoublingGain(d);
    DoublingGain(e);
    hide Contribution;
    ZeroAndNine(d, e);
    var c, c' := Contribution(e, alt) + Contribution(d, !alt), Contribution(d, alt) + Contribution(e, !alt);
    assert c' - c == (if alt then Gain(d) - Gain(e) else Gain(e) - Gain(d));
    CloseTogether(c, c');
  }

  /** What doubling a digit adds to the sum. */
  function Gain(d: nat): int {
    if d < 5 then d else d - 9
  }

  lemma DoublingGain(d: nat)
    requires d < 10
    ensures Contribution(d, false) == d && Contribution(d, true) == d + Gain(d) && -4 <= Gain(d) <= 4
  {
  }

  lemma ZeroAndNine(d: nat, e: nat)
    requires d < 10 && e < 10
    ensures Gain(d) == Gain(e) <==> d == e || {d, e} == {0, 9}
  {
    assert {d, e} == {0, 9} ==> d in {0, 9} && e in {0, 9} && 0 in {d, e} && 9 in {d, e};
  }

  lemma CloseTogether(c: nat, c': nat)
    requires -10 < c' - c < 10
    ensures c % 10 == c' % 10 <==> c == c'
  {
  }

  /** Exchanging two different adjacent digits of a valid number makes it invalid, except when
      they are 0 and 9. */
  lemma ExchangeDetectedIff(k: nat, hi: nat, d: nat, e: nat, b: nat)
    requires d < 10 && e < 10 && d != e && b < Pow10(k)
    requires LuhnValid(WithDigit(k, hi * 10 + d, e, b))
    ensures !LuhnValid(WithDigit(k, hi * 10 + e, d, b)) <==> {d, e} != {0, 9}
  {
    SumWithTwo(k, hi, d, e, b);
    SumWithTwo(k, hi, e, d, b);
    var alt := Doubled(k, false);
    ExchangedContributions(d, e, alt);
    hide Contribution, LuhnSum, WithDigit;
    BothOrNeither(LuhnSum(b, false) + LuhnSum(hi, alt), Contribution(e, alt) + Contribution(d, !alt),
                  Contribution(d, alt) + Contribution(e, !alt));
  }

  lemma BothOrNeither(s: nat, c: nat, c': nat)
    requires (s + c) % 10 == 0
    ensures (s + c') % 10 == 0 <==> c % 10 == c' % 10
  {
  }
}
