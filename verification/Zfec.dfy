/** Forward error correction of files: the share format, encoding, and recovery. */
module Zfec {
  import opened NumberTheory
  import opened Wrappers

  type Byte = x: int | 0 <= x < 256
  type Bytes = seq<Byte>

  /** `OutsideBuffer` is no error of the command: it is the point from which it goes on outside
      its buffer, because an unsigned length has wrapped around. */
  datatype Error =
    | TooShort | BadMagic | ReservedSet | InvalidFields | BadHash
    | InvalidParameters | NoShares | Mismatched | TooFewShares | Undecodable
    | OutsideBuffer | BadDigest | BadPadding

  const FEC_MAGIC: Bytes := [0xFE, 0xCC, 0x0D, 0xEC]
  const HEADER_LEN: nat := 12
  const HASH_LEN: nat := 32

  type HashFunction = Bytes -> Bytes

  ghost predicate IsHash(hash: HashFunction) {
    forall x :: |hash(x)| == HASH_LEN
  }

  // ---------- Shares ----------

  datatype Share = Share(id: nat, k: nat, n: nat, padding: nat, bits: Bytes)

  /** The shares that survive the format: `n` and `k` must leave room for redundancy. */
  predicate WellFormed(s: Share) {
    s.id < s.n <= 255 && s.padding < s.k < s.n
  }

  /** The header; each number is cut to one byte. */
  function Header(s: Share): (h: Bytes)
    ensures |h| == HEADER_LEN
  {
    FEC_MAGIC + [s.id % 256, s.k % 256, s.n % 256, s.padding % 256, 0, 0, 0, 0]
  }

  function Serialized(s: Share, hash: HashFunction): Bytes {
    Header(s) + s.bits + hash(Header(s) + s.bits)
  }

  /** `serialize_to`. */
  method SerializeTo(s: Share, hash: HashFunction) returns (out: Bytes)
    ensures out == Serialized(s, hash)
  {
    var header := new Byte[12](_ => 0);
    header[0], header[1], header[2], header[3] := 0xFE, 0xCC, 0x0D, 0xEC;
    header[4] := s.id % 256;
    header[5] := s.k % 256;
    header[6] := s.n % 256;
    header[7] := s.padding % 256;
    assert header[..] == Header(s);
    out := header[..];
    out := out + s.bits;
    var digest := hash(header[..] + s.bits);
    out := out + digest;
  }

  /** What `deserialize` accepts, and the first thing it objects to otherwise. */
  function Deserialized(file: Bytes, hash: HashFunction): Result<Share, Error> {
    if |file| < HEADER_LEN + HASH_LEN then Err(TooShort)
    else if file[..4] != FEC_MAGIC then Err(BadMagic)
    else if file[8..12] != [0, 0, 0, 0] then Err(ReservedSet)
    else if file[4] >= file[6] || file[5] >= file[6] || file[7] >= file[5] then Err(InvalidFields)
    else if hash(file[..|file| - HASH_LEN]) != file[|file| - HASH_LEN..] then Err(BadHash)
    else Ok(Share(file[4], file[5], file[6], file[7], file[HEADER_LEN..|file| - HASH_LEN]))
  }

  /** `deserialize`, with the loop over the reserved bytes. */
  method Deserialize(file: Bytes, hash: HashFunction) returns (r: Result<Share, Error>)
    ensures r == Deserialized(file, hash)
  {
    if |file| < HEADER_LEN + HASH_LEN {
      return Err(TooShort);
    }
    if file[..4] != FEC_MAGIC {
      return Err(BadMagic);
    }
    for i := 8 to 12
      invariant forall j :: 8 <= j < i ==> file[j] == 0
    {
      if file[i] != 0 {
        assert file[8..12][i - 8] != 0;
        return Err(ReservedSet);
      }
    }
    assert file[8..12] == [0, 0, 0, 0];
    var id, k, n, padding := file[4], file[5], file[6], file[7];
    if id >= n || k >= n || padding >= k {
      return Err(InvalidFields);
    }
    var shareHash := hash(file[..|file| - HASH_LEN]);
    if shareHash != file[|file| - HASH_LEN..] {
      return Err(BadHash);
    }
    return Ok(Share(id, k, n, padding, file[HEADER_LEN..|file| - HASH_LEN]));
  }

  lemma SerializedParts(s: Share, hash: HashFunction)
    requires IsHash(hash)
    ensures var f := Serialized(s, hash);
      && |f| == HEADER_LEN + |s.bits| + HASH_LEN
      && f[..4] == FEC_MAGIC && f[8..12] == [0, 0, 0, 0]
      && f[4] == s.id % 256 && f[5] == s.k % 256 && f[6] == s.n % 256 && f[7] == s.padding % 256
      && f[HEADER_LEN..|f| - HASH_LEN] == s.bits
      && f[..|f| - HASH_LEN] == Header(s) + s.bits
      && f[|f| - HASH_LEN..] == hash(Header(s) + s.bits)
  {
  }

  /** The share with its numbers cut to the bytes they are stored in. */
  function Truncated(s: Share): Share {
    Share(s.id % 256, s.k % 256, s.n % 256, s.padding % 256, s.bits)
  }

  /** Reading back any written share gives the truncated one, or is refused for the fields of
      that; so the share itself comes back exactly when it is well formed. */
  lemma ReadAfterWrite(s: Share, hash: HashFunction)
    requires IsHash(hash)
    ensures Deserialized(Serialized(s, hash), hash)
         == if WellFormed(Truncated(s)) then Ok(Truncated(s)) else Err(InvalidFields)
    ensures Deserialized(Serialized(s, hash), hash) == Ok(s) <==> WellFormed(s)
  {
    SerializedParts(s, hash);
    TruncatedIsSame(s);
    hide Serialized, Header, IsHash;
  }

  lemma TruncatedIsSame(s: Share)
    ensures WellFormed(s) ==> Truncated(s) == s
    ensures WellFormed(Truncated(s)) && Truncated(s) == s ==> WellFormed(s)
  {
  }

  /** Anything that reads as a share is, byte for byte, what writing that share produces. */
  lemma WriteAfterRead(file: Bytes, hash: HashFunction)
    requires IsHash(hash) && Deserialized(file, hash).Ok?
    ensures var s := Deserialized(file, hash).value; WellFormed(s) && Serialized(s, hash) == file
  {
    var s := Deserialized(file, hash).value;
    assert Header(s) == file[..HEADER_LEN];
    assert file[..|file| - HASH_LEN] == file[..HEADER_LEN] + s.bits;
    assert file == file[..|file| - HASH_LEN] + file[|file| - HASH_LEN..];
  }

  // ---------- The erasure code ----------

  type Encoder = (nat, nat, Bytes) -> seq<Bytes>
  type Decoder = (nat, nat, map<nat, Bytes>, nat) -> Option<seq<Bytes>>

  function Concat(blocks: seq<Bytes>): Bytes {
    if blocks == [] then [] else blocks[0] + Concat(blocks[1..])
  }

  predicate Blocks(blocks: seq<Bytes>, count: nat, size: nat) {
    |blocks| == count && forall i :: 0 <= i < count ==> |blocks[i]| == size
  }

  predicate Parameters(k: nat, n: nat) {
    1 <= k <= n <= 256
  }

  /** m holds at least k of the shares, each under its own number. */
  predicate EnoughShares(m: map<nat, Bytes>, shares: seq<Bytes>, k: nat) {
    |m| >= k && forall i :: i in m ==> i < |shares| && m[i] == shares[i]
  }

  /** The contract of the code: n shares of equal size, any k of which give the data back.  A
      decoder that answers at all answers with k blocks of the share size. */
  ghost predicate ErasureCode(encode: Encoder, decode: Decoder) {
    && (forall k, n, data :: Parameters(k, n) && |data| % k == 0 ==>
          Blocks(encode(k, n, data), n, |data| / k))
    && (forall k, n, data, m :: Parameters(k, n) && |data| % k == 0 && EnoughShares(m, encode(k, n, data), k) ==>
          decode(k, n, m, |data| / k).Some? && Concat(decode(k, n, m, |data| / k).value) == data)
    && (forall k, n, m, size :: decode(k, n, m, size).Some? ==> Blocks(decode(k, n, m, size).value, k, size))
  }

  // ---------- Encoding ----------

  function Zeros(count: nat): (z: Bytes)
    ensures |z| == count && forall i :: 0 <= i < count ==> z[i] == 0
  {
    seq(count, _ => 0)
  }

  /** The least padding that makes a length a multiple of k. */
  function PaddingFor(length: nat, k: nat): nat
    requires k > 0
  {
    if length % k == 0 then 0 else k - length % k
  }

  /** What is encoded: the input, its hash, and the padding. */
  function Payload(input: Bytes, k: nat, hash: HashFunction): Bytes
    requires k > 0
  {
    var hashed := input + hash(input);
    hashed + Zeros(PaddingFor(|hashed|, k))
  }

  /** Share number i of an encoded input. */
  function ShareOf(i: nat, k: nat, n: nat, input: Bytes, hash: HashFunction, encode: Encoder): Share
    requires k > 0
  {
    var payload := Payload(input, k, hash);
    var shares := encode(k, n, payload);
    Share(i, k, n, PaddingFor(|input + hash(input)|, k), if i < |shares| then shares[i] else [])
  }

  /** The file written for it. */
  function EncodedFile(i: nat, k: nat, n: nat, input: Bytes, hash: HashFunction, encode: Encoder): Bytes
    requires k > 0
  {
    Serialized(ShareOf(i, k, n, input, hash, encode), hash)
  }

  /** Up to that padding the length is a multiple of k only when the padding is complete. */
  lemma PaddingIsLeast(length: nat, k: nat, q: nat)
    requires k > 0 && q <= PaddingFor(length, k)
    ensures PaddingFor(length, k) < k
    ensures (length + q) % k == 0 <==> q == PaddingFor(length, k)
  {
    var r, d := length % k, length / k;
    assert length == k * d + r;
    if r + q < k {
      ModUnique(k, d, r + q);
    } else {
      assert r + q == k;
      assert k * (d + 1) == k * d + k;
      ModUnique(k, d + 1, 0);
    }
  }

  /** The padding loop. */
  method Pad(hashed: Bytes, k: nat) returns (inputData: Bytes, padding: nat)
    requires k > 0
    ensures padding == PaddingFor(|hashed|, k) < k && inputData == hashed + Zeros(padding) && |inputData| % k == 0
  {
    inputData, padding := hashed, 0;
    PaddingIsLeast(|hashed|, k, 0);
    hide PaddingFor;
    while |inputData| % k != 0
      invariant padding <= PaddingFor(|hashed|, k) && inputData == hashed + Zeros(padding)
      invariant |inputData| % k == 0 <==> padding == PaddingFor(|hashed|, k)
      decreases PaddingFor(|hashed|, k) - padding
    {
      padding := padding + 1;
      inputData := inputData + [0];
      PaddingIsLeast(|hashed|, k, padding);
      assert inputData == hashed + Zeros(padding);
    }
  }

  /** `fec_encode`: one file for each share. */
  method FecEncode(k: nat, n: nat, input: Bytes, hash: HashFunction, encode: Encoder, ghost decode: Decoder)
      returns (r: Result<seq<Bytes>, Error>)
    requires IsHash(hash) && ErasureCode(encode, decode)
    ensures r.Ok? <==> Parameters(k, n)
    ensures r.Ok? ==> |r.value| == n
    ensures r.Ok? ==> forall i :: 0 <= i < n ==> r.value[i] == EncodedFile(i, k, n, input, hash, encode)
  {
    if !(1 <= k <= n <= 256) {
      return Err(InvalidParameters);
    }
    var inputData, padding := Pad(input + hash(input), k);
    var shares := encode(k, n, inputData);
    assert Blocks(shares, n, |inputData| / k);
    hide Serialized, PaddingFor, ErasureCode, IsHash;
    var files: seq<Bytes> := [];
    for share := 0 to n
      invariant |files| == share
      invariant forall i :: 0 <= i < share ==> files[i] == EncodedFile(i, k, n, input, hash, encode)
    {
      var file := SerializeTo(Share(share, k, n, padding, shares[share]), hash);
      files := files + [file];
    }
    r := Ok(files);
  }

  // ---------- Decoding ----------

  /** The shares among the given files; the other files are ignored. */
  function ValidShares(files: seq<Bytes>, hash: HashFunction): seq<Share> {
    if files == [] then []
    else
      (match Deserialized(files[0], hash)
       case Ok(share) => [share]
       case Err(_) => []) + ValidShares(files[1..], hash)
  }

  predicate SameParameters(s: Share, t: Share) {
    s.k == t.k && s.n == t.n && s.padding == t.padding && |s.bits| == |t.bits|
  }

  /** The shares by number; a later share replaces an earlier one. */
  function ShareMap(shares: seq<Share>): map<nat, Bytes> {
    if shares == [] then map[]
    else
      var last := shares[|shares| - 1];
      ShareMap(shares[..|shares| - 1])[last.id := last.bits]
  }

  /** The checks on the recovered data, and its hash and padding removed. */
  function Finished(data: Bytes, padding: nat, hash: HashFunction): Result<Bytes, Error> {
    if |data| < HASH_LEN + padding then Err(OutsideBuffer)
    else
      var end := |data| - (HASH_LEN + padding);
      if hash(data[..end]) != data[end..end + HASH_LEN] then Err(BadDigest)
      else if data[|data| - padding..] != Zeros(padding) then Err(BadPadding)
      else Ok(data[..end])
  }

  function Decoded(files: seq<Bytes>, hash: HashFunction, decode: Decoder): Result<Bytes, Error> {
    var shares := ValidShares(files, hash);
    if shares == [] then Err(NoShares)
    else
      var first := shares[0];
      if exists i :: 0 <= i < |shares| && !SameParameters(first, shares[i]) then Err(Mismatched)
      else if |shares| < first.k then Err(TooFewShares)
      else match decode(first.k, first.n, ShareMap(shares), |first.bits|)
        case None => Err(Undecodable)
        case Some(blocks) => Finished(Concat(blocks), first.padding, hash)
  }

  /** The loop that reads the files. */
  method ReadShares(files: seq<Bytes>, hash: HashFunction) returns (shares: seq<Share>)
    ensures shares == ValidShares(files, hash)
  {
    shares := [];
    hide Deserialized;
    for i := 0 to |files|
      invariant shares + ValidShares(files[i..], hash) == ValidShares(files, hash)
    {
      assert files[i..][1..] == files[i + 1..];
      var r := Deserialize(files[i], hash);
      if r.Ok? {
        shares := shares + [r.value];
      }
    }
    assert files[|files|..] == [];
  }

  /** The loop that compares all shares with the first.  "Nothing seen yet" is recognised by
      all three numbers being zero, which no deserialized share has. */
  method CheckShares(shares: seq<Share>) returns (ok: bool, k: nat, n: nat, padding: nat, size: nat)
    requires shares != [] && forall i :: 0 <= i < |shares| ==> WellFormed(shares[i])
    ensures ok <==> !exists i :: 0 <= i < |shares| && !SameParameters(shares[0], shares[i])
    ensures ok ==> var f := shares[0]; k == f.k && n == f.n && padding == f.padding && size == |f.bits|
  {
    k, n, padding, size := 0, 0, 0, 0;
    for i := 0 to |shares|
      invariant i == 0 ==> k == 0 && n == 0 && padding == 0
      invariant i > 0 ==> var f := shares[0]; k == f.k && n == f.n && padding == f.padding && size == |f.bits|
      invariant forall j :: 0 <= j < i ==> SameParameters(shares[0], shares[j])
    {
      var share := shares[i];
      assert WellFormed(share) && WellFormed(shares[0]);
      if k == 0 && n == 0 && padding == 0 {
        k, n, padding, size := share.k, share.n, share.padding, |share.bits|;
      } else if share.k != k || share.n != n || share.padding != padding || |share.bits| != size {
        assert !SameParameters(shares[0], shares[i]);
        return false, k, n, padding, size;
      }
    }
    ok := true;
  }

  /** The loop that indexes the shares by number. */
  method IndexShares(shares: seq<Share>) returns (m: map<nat, Bytes>)
    ensures m == ShareMap(shares)
  {
    m := map[];
    for i := 0 to |shares|
      invariant m == ShareMap(shares[..i])
    {
      assert shares[..i + 1][..i] == shares[..i];
      m := m[shares[i].id := shares[i].bits];
    }
    assert shares[..|shares|] == shares;
  }

  /** Blocks of equal size laid out one after the other do not overlap. */
  lemma SlotsApart(i: nat, j: nat, size: nat)
    requires i < j
    ensures 0 <= i * size <= i * size + size <= j * size
  {
    assert j * size == (i + 1) * size + (j - i - 1) * size;
    assert (i + 1) * size == i * size + size;
    MultipleNonnegative(j - i - 1, size);
    MultipleNonnegative(i, size);
  }

  lemma MultipleNonnegative(a: nat, b: nat)
    ensures 0 <= a * b
  {
  }

  /** Position i of a buffer holds the block. */
  predicate SlotIs(buffer: Bytes, i: nat, block: Bytes) {
    var at := i * |block|;
    0 <= at <= at + |block| <= |buffer| && buffer[at..at + |block|] == block
  }

  lemma {:induction false} SlotsConcat(buffer: Bytes, blocks: seq<Bytes>, size: nat)
    requires Blocks(blocks, |blocks|, size) && |buffer| == |blocks| * size
    requires forall i :: 0 <= i < |blocks| ==> SlotIs(buffer, i, blocks[i])
    ensures buffer == Concat(blocks)
  {
    if blocks == [] {
      assert |buffer| == 0;
    } else {
      assert SlotIs(buffer, 0, blocks[0]);
      assert |blocks| * size == (|blocks| - 1) * size + size;
      var rest := buffer[size..];
      forall i | 0 <= i < |blocks| - 1
        ensures SlotIs(rest, i, blocks[1..][i])
      {
        assert SlotIs(buffer, i + 1, blocks[i + 1]);
        assert (i + 1) * size == i * size + size;
        MultipleNonnegative(i, size);
      }
      SlotsConcat(rest, blocks[1..], size);
    }
  }

  /** memcpy of a block to its position. */
  function WriteSlot(buffer: Bytes, j: nat, block: Bytes): Bytes
    requires 0 <= j * |block| <= j * |block| + |block| <= |buffer|
  {
    buffer[..j * |block|] + block + buffer[j * |block| + |block|..]
  }

  lemma WriteSlotIs(buffer: Bytes, j: nat, block: Bytes)
    requires 0 <= j * |block| <= j * |block| + |block| <= |buffer|
    ensures |WriteSlot(buffer, j, block)| == |buffer| && SlotIs(WriteSlot(buffer, j, block), j, block)
  {
    var at := j * |block|;
    var after := buffer[..at] + block + buffer[at + |block|..];
    assert after[at..at + |block|] == block;
  }

  /** Writing one block leaves the others as they are. */
  lemma WriteSlotKeeps(buffer: Bytes, j: nat, block: Bytes, i: nat, other: Bytes)
    requires 0 <= j * |block| <= j * |block| + |block| <= |buffer|
    requires i != j && |other| == |block| && SlotIs(buffer, i, other)
    ensures SlotIs(WriteSlot(buffer, j, block), i, other)
  {
    var at, size := j * |block|, |block|;
    var after := buffer[..at] + block + buffer[at + size..];
    var here := i * size;
    if i < j {
      SlotsApart(i, j, size);
      assert after[here..here + size] == buffer[here..here + size];
    } else {
      SlotsApart(j, i, size);
      assert after[here..here + size] == buffer[here..here + size];
    }
  }

  function Below(k: nat): (s: set<nat>)
    ensures forall i: nat :: i in s <==> i < k
    ensures |s| == k
  {
    if k == 0 then {} else Below(k - 1) + {k - 1}
  }

  /** The decoder's callback writes each block at its place in the buffer, in whatever order
      the blocks come. */
  method FillBuffer(blocks: seq<Bytes>, k: nat, size: nat) returns (decoded: Bytes)
    requires Blocks(blocks, k, size)
    ensures decoded == Concat(blocks)
  {
    MultipleNonnegative(k, size);
    decoded := Zeros(k * size);
    var rest := Below(k);
    hide SlotIs, WriteSlot;
    while rest != {}
      invariant |decoded| == k * size && rest <= Below(k)
      invariant forall i :: 0 <= i < k && i !in rest ==> SlotIs(decoded, i, blocks[i])
      decreases rest
    {
      var share :| share in rest;
      SlotsApart(share, k, size);
      ghost var before := decoded;
      decoded := WriteSlot(decoded, share, blocks[share]);
      WriteSlotIs(before, share, blocks[share]);
      forall i | 0 <= i < k && i !in rest
        ensures SlotIs(decoded, i, blocks[i])
      {
        WriteSlotKeeps(before, share, blocks[share], i, blocks[i]);
      }
      rest := rest - {share};
    }
    SlotsConcat(decoded, blocks, size);
  }

  method Finish(data: Bytes, padding: nat, hash: HashFunction) returns (r: Result<Bytes, Error>)
    ensures r == Finished(data, padding, hash)
  {
    if |data| < HASH_LEN + padding {
      return Err(OutsideBuffer);
    }
    var end := |data| - (HASH_LEN + padding);
    var digest := hash(data[..end]);
    if digest != data[end..end + HASH_LEN] {
      return Err(BadDigest);
    }
    var tail := data[|data| - padding..];
    for i := 0 to padding
      invariant forall j :: 0 <= j < i ==> tail[j] == 0
    {
      if tail[i] != 0 {
        assert tail[i] != Zeros(padding)[i];
        return Err(BadPadding);
      }
    }
    assert tail == Zeros(padding);
    r := Ok(data[..end]);
  }

  lemma ValidSharesWellFormed(files: seq<Bytes>, hash: HashFunction)
    requires IsHash(hash)
    ensures forall i :: 0 <= i < |ValidShares(files, hash)| ==> WellFormed(ValidShares(files, hash)[i])
  {
    if files != [] {
      if Deserialized(files[0], hash).Ok? {
        WriteAfterRead(files[0], hash);
      }
      ValidSharesWellFormed(files[1..], hash);
    }
  }

  /** `fec_decode`. */
  method FecDecode(files: seq<Bytes>, hash: HashFunction, ghost encode: Encoder, decode: Decoder)
      returns (r: Result<Bytes, Error>)
    requires IsHash(hash) && ErasureCode(encode, decode)
    ensures r == Decoded(files, hash, decode)
  {
    var shares := ReadShares(files, hash);
    ValidSharesWellFormed(files, hash);
    hide ValidShares, ShareMap, WellFormed, SameParameters, Finished, Concat;
    if shares == [] {
      return Err(NoShares);
    }
    var ok, k, n, padding, size := CheckShares(shares);
    if !ok {
      return Err(Mismatched);
    }
    if |shares| < k {
      return Err(TooFewShares);
    }
    var sharePtrs := IndexShares(shares);
    var blocks := decode(k, n, sharePtrs, size);
    if blocks == None {
      return Err(Undecodable);
    }
    var decoded := FillBuffer(blocks.value, k, size);
    r := Finish(decoded, padding, hash);
  }

  // ---------- Recovery ----------

  lemma FinishPayload(input: Bytes, k: nat, hash: HashFunction)
    requires k > 0 && IsHash(hash)
    ensures Finished(Payload(input, k, hash), PaddingFor(|input + hash(input)|, k), hash) == Ok(input)
  {
    var h := hash(input);
    var padding := PaddingFor(|input + h|, k);
    var data := Payload(input, k, hash);
    assert data == input + h + Zeros(padding);
    var end := |data| - (HASH_LEN + padding);
    assert data[..end] == input && data[end..end + HASH_LEN] == h && data[|data| - padding..] == Zeros(padding);
  }

  /** The file reads back as one of the shares of the encoded input. */
  ghost predicate IsShareOf(s: Share, k: nat, n: nat, input: Bytes, hash: HashFunction, encode: Encoder)
    requires k > 0
  {
    s.id < n && s == ShareOf(s.id, k, n, input, hash, encode)
  }

  lemma EncodedReads(i: nat, k: nat, n: nat, input: Bytes, hash: HashFunction, encode: Encoder)
    requires Parameters(k, n) && i < n && IsHash(hash)
    ensures Deserialized(EncodedFile(i, k, n, input, hash, encode), hash)
         == if k < n <= 255 then Ok(ShareOf(i, k, n, input, hash, encode)) else Err(InvalidFields)
  {
    PaddingIsLeast(|input + hash(input)|, k, 0);
    ReadAfterWrite(ShareOf(i, k, n, input, hash, encode), hash);
  }

  /** A file that is a share of the encoded input, or not a share at all. */
  ghost predicate ShareOrRubbish(f: Bytes, k: nat, n: nat, input: Bytes, hash: HashFunction, encode: Encoder)
    requires k > 0
  {
    Deserialized(f, hash).Err? || exists i :: 0 <= i < n && f == EncodedFile(i, k, n, input, hash, encode)
  }

  lemma {:induction false} OnlyShares(files: seq<Bytes>, k: nat, n: nat, input: Bytes, hash: HashFunction,
                                      encode: Encoder)
    requires 1 <= k < n <= 255 && IsHash(hash)
    requires forall j :: 0 <= j < |files| ==> ShareOrRubbish(files[j], k, n, input, hash, encode)
    ensures forall j :: 0 <= j < |ValidShares(files, hash)| ==>
      IsShareOf(ValidShares(files, hash)[j], k, n, input, hash, encode)
  {
    hide Deserialized, EncodedFile, ShareOf, IsHash;
    if files != [] {
      OnlyShares(files[1..], k, n, input, hash, encode);
      var f := files[0];
      assert ShareOrRubbish(f, k, n, input, hash, encode);
      if Deserialized(f, hash).Ok? {
        var i :| 0 <= i < n && f == EncodedFile(i, k, n, input, hash, encode);
        EncodedReads(i, k, n, input, hash, encode);
        ShareOfId(i, k, n, input, hash, encode);
      }
    }
  }

  lemma ShareOfId(i: nat, k: nat, n: nat, input: Bytes, hash: HashFunction, encode: Encoder)
    requires k > 0
    ensures ShareOf(i, k, n, input, hash, encode).id == i
  {
  }

  lemma {:induction false} SharesFound(files: seq<Bytes>, i: nat, k: nat, n: nat, input: Bytes, hash: HashFunction,
                                       encode: Encoder)
    requires 1 <= k < n <= 255 && IsHash(hash) && i < n && EncodedFile(i, k, n, input, hash, encode) in files
    ensures ShareOf(i, k, n, input, hash, encode) in ValidShares(files, hash)
  {
    hide Deserialized, EncodedFile, ShareOf, IsHash;
    if files[0] == EncodedFile(i, k, n, input, hash, encode) {
      EncodedReads(i, k, n, input, hash, encode);
      assert ValidShares(files, hash)[0] == ShareOf(i, k, n, input, hash, encode);
    } else {
      SharesFound(files[1..], i, k, n, input, hash, encode);
    }
  }

  lemma {:induction false} ShareMapMeaning(shares: seq<Share>)
    ensures forall s :: s in shares ==> s.id in ShareMap(shares)
    ensures forall i :: i in ShareMap(shares) ==> exists s :: s in shares && s.id == i && s.bits == ShareMap(shares)[i]
    decreases |shares|
  {
    if shares != [] {
      var front, last := shares[..|shares| - 1], shares[|shares| - 1];
      ShareMapMeaning(front);
      assert shares == front + [last];
      var m := ShareMap(shares);
      forall i | i in m
        ensures exists s :: s in shares && s.id == i && s.bits == m[i]
      {
        if i == last.id {
          assert last in shares;
        } else {
          var s :| s in front && s.id == i && s.bits == ShareMap(front)[i];
          assert s in shares;
        }
      }
    }
  }

  lemma {:induction false} SubsetSize(a: set<nat>, b: set<nat>)
    requires a <= b
    ensures |a| <= |b|
  {
    if a != {} {
      var x :| x in a;
      SubsetSize(a - {x}, b - {x});
    }
  }

  lemma IndexedCount(shares: seq<Share>, ids: set<nat>)
    requires forall i :: i in ids ==> i in ShareMap(shares)
    ensures |ShareMap(shares)| >= |ids|
  {
    hide ShareMap;
    SubsetSize(ids, ShareMap(shares).Keys);
    assert |ShareMap(shares).Keys| == |ShareMap(shares)|;
  }

  /** The indexed shares satisfy what the erasure code asks for. */
  lemma SharesSuffice(shares: seq<Share>, ids: set<nat>, k: nat, n: nat, input: Bytes, hash: HashFunction,
                      encode: Encoder)
    requires 1 <= k < n <= 255 && |encode(k, n, Payload(input, k, hash))| == n
    requires forall j :: 0 <= j < |shares| ==> IsShareOf(shares[j], k, n, input, hash, encode)
    requires |ids| >= k && forall i :: i in ids ==> i < n && ShareOf(i, k, n, input, hash, encode) in shares
    ensures EnoughShares(ShareMap(shares), encode(k, n, Payload(input, k, hash)), k)
  {
    hide Payload, PaddingFor, ShareMap, IsShareOf, ShareOf;
    ShareMapMeaning(shares);
    var m := ShareMap(shares);
    forall i | i in ids
      ensures i in m
    {
      ShareOfId(i, k, n, input, hash, encode);
    }
    IndexedCount(shares, ids);
    forall i | i in m
      ensures i < n && m[i] == encode(k, n, Payload(input, k, hash))[i]
    {
      var s :| s in shares && s.id == i && s.bits == m[i];
      ShareBits(s, k, n, input, hash, encode);
    }
  }

  lemma ShareBits(s: Share, k: nat, n: nat, input: Bytes, hash: HashFunction, encode: Encoder)
    requires k > 0 && |encode(k, n, Payload(input, k, hash))| == n && IsShareOf(s, k, n, input, hash, encode)
    ensures s.id < n && s.bits == encode(k, n, Payload(input, k, hash))[s.id]
  {
    hide Payload, PaddingFor;
  }

  /** The number of shares is at least the number of distinct ones. */
  lemma {:induction false} EnoughFiles(shares: seq<Share>)
    ensures |ShareMap(shares)| <= |shares|
    decreases |shares|
  {
    if shares != [] {
      var front := shares[..|shares| - 1];
      EnoughFiles(front);
      var last := shares[|shares| - 1];
      assert ShareMap(shares).Keys == ShareMap(front).Keys + {last.id};
    }
  }

  /** Recovery: any k distinct shares, in any order, with repetitions, and mixed with files that
      are no shares, give back exactly the input. */
  lemma Recovery(files: seq<Bytes>, ids: set<nat>, k: nat, n: nat, input: Bytes, hash: HashFunction,
                 encode: Encoder, decode: Decoder)
    requires 1 <= k < n <= 255 && IsHash(hash) && ErasureCode(encode, decode)
    requires forall j :: 0 <= j < |files| ==> ShareOrRubbish(files[j], k, n, input, hash, encode)
    requires |ids| >= k && forall i :: i in ids ==> i < n && EncodedFile(i, k, n, input, hash, encode) in files
    ensures Decoded(files, hash, decode) == Ok(input)
  {
    var shares := ValidShares(files, hash);
    var payload := Payload(input, k, hash);
    PaddingIsLeast(|input + hash(input)|, k, PaddingFor(|input + hash(input)|, k));
    assert |payload| % k == 0;
    assert Blocks(encode(k, n, payload), n, |payload| / k);
    OnlyShares(files, k, n, input, hash, encode);
    forall i | i in ids
      ensures ShareOf(i, k, n, input, hash, encode) in shares
    {
      SharesFound(files, i, k, n, input, hash, encode);
    }
    SharesSuffice(shares, ids, k, n, input, hash, encode);
    EnoughFiles(shares);
    FinishPayload(input, k, hash);
    hide ValidShares, ShareMap, Payload, PaddingFor, Finished, EncodedFile, ShareOrRubbish, IsHash;
    assert shares != [];
    forall j | 0 <= j < |shares|
      ensures SameParameters(shares[0], shares[j])
    {
      assert IsShareOf(shares[j], k, n, input, hash, encode) && IsShareOf(shares[0], k, n, input, hash, encode);
    }
  }

  /** The other parameters the encoder accepts, k = n and n = 256, produce only files that the
      decoder refuses. */
  lemma {:induction false} AllRefused(files: seq<Bytes>, k: nat, n: nat, input: Bytes, hash: HashFunction,
                                      encode: Encoder)
    requires Parameters(k, n) && (k == n || n == 256) && IsHash(hash)
    requires forall j :: 0 <= j < |files| ==> ShareOrRubbish(files[j], k, n, input, hash, encode)
    ensures ValidShares(files, hash) == []
  {
    hide Deserialized, EncodedFile, IsHash;
    if files != [] {
      AllRefused(files[1..], k, n, input, hash, encode);
      var f := files[0];
      if Deserialized(f, hash).Ok? {
        var i :| 0 <= i < n && f == EncodedFile(i, k, n, input, hash, encode);
        EncodedReads(i, k, n, input, hash, encode);
      }
    }
  }

  /** So, of the parameters the encoder accepts, decoding all the files of an encoding gives the
      input back exactly when k < n <= 255. */
  lemma RoundTrip(files: seq<Bytes>, k: nat, n: nat, input: Bytes, hash: HashFunction, encode: Encoder, decode: Decoder)
    requires Parameters(k, n) && IsHash(hash) && ErasureCode(encode, decode)
    requires |files| == n && forall i :: 0 <= i < n ==> files[i] == EncodedFile(i, k, n, input, hash, encode)
    ensures Decoded(files, hash, decode) == Ok(input) <==> k < n <= 255
  {
    forall j | 0 <= j < |files|
      ensures ShareOrRubbish(files[j], k, n, input, hash, encode)
    {
    }
    hide Decoded, EncodedFile, ErasureCode, IsHash;
    if k < n <= 255 {
      forall i | i in Below(n)
        ensures EncodedFile(i, k, n, input, hash, encode) in files
      {
        assert files[i] in files;
      }
      Recovery(files, Below(n), k, n, input, hash, encode, decode);
    } else {
      AllRefused(files, k, n, input, hash, encode);
      DecodedNothing(files, hash, decode);
    }
  }

  lemma DecodedNothing(files: seq<Bytes>, hash: HashFunction, decode: Decoder)
    requires ValidShares(files, hash) == []
    ensures Decoded(files, hash, decode) == Err(NoShares)
  {
  }

  // ---------- What decoding checks ----------

  /** Data split into contents, hash and padding of the right lengths is given out exactly when
      the hash is that of the contents and the padding is zeros; the hash is checked first. */
  lemma FinishedParts(x: Bytes, h: Bytes, t: Bytes, hash: HashFunction)
    requires |h| == HASH_LEN
    ensures Finished(x + h + t, |t|, hash)
         == if h != hash(x) then Err(BadDigest) else if t != Zeros(|t|) then Err(BadPadding) else Ok(x)
  {
    var d := x + h + t;
    var end := |d| - (HASH_LEN + |t|);
    assert d[..end] == x && d[end..end + HASH_LEN] == h && d[|d| - |t|..] == t;
  }

  /** So what is given out is exactly the contents whose hash and padding follow them. */
  lemma FinishedOkIff(d: Bytes, padding: nat, hash: HashFunction, x: Bytes)
    requires IsHash(hash)
    ensures Finished(d, padding, hash) == Ok(x) <==> d == x + hash(x) + Zeros(padding)
  {
    if |d| >= HASH_LEN + padding {
      var end := |d| - (HASH_LEN + padding);
      var y, h, t := d[..end], d[end..end + HASH_LEN], d[|d| - padding..];
      assert d == y + h + t;
      FinishedParts(y, h, t, hash);
      hide Finished;
      if d == x + hash(x) + Zeros(padding) {
        assert x == y && hash(x) == h && Zeros(padding) == t by {
          Apart(x, hash(x), Zeros(padding), y, h, t);
        }
      }
    }
  }

  lemma Apart(x: Bytes, h: Bytes, t: Bytes, x': Bytes, h': Bytes, t': Bytes)
    requires |h| == |h'| && |t| == |t'| && x + h + t == x' + h' + t'
    ensures x == x' && h == h' && t == t'
  {
    var d, d' := x + h + t, x' + h' + t';
    assert |x| == |x'|;
    assert d[..|x|] == x && d'[..|x|] == x';
    assert d[|x|..|x| + |h|] == h && d'[|x|..|x| + |h|] == h';
    assert d[|x| + |h|..] == t && d'[|x| + |h|..] == t';
  }

  /** What decoding gives out, in terms of the data d that the code recovers from the accepted
      shares: x exactly when d is x with its hash and the padding; otherwise, when d is long
      enough, an error for a wrong hash, or else for padding that is not zeros. */
  lemma DecodedMeaning(files: seq<Bytes>, hash: HashFunction, decode: Decoder, d: Bytes, x: Bytes)
    requires IsHash(hash) && Decodable(ValidShares(files, hash), decode)
    requires d == Reassembled(ValidShares(files, hash), decode)
    ensures var padding := ValidShares(files, hash)[0].padding;
      Decoded(files, hash, decode) == Ok(x) <==> d == x + hash(x) + Zeros(padding)
    ensures Decoded(files, hash, decode) == Err(BadDigest) <==>
      exists y, h, t :: d == y + h + t && |h| == HASH_LEN && |t| == ValidShares(files, hash)[0].padding && h != hash(y)
    ensures Decoded(files, hash, decode) == Err(BadPadding) <==>
      exists y, t :: d == y + hash(y) + t && |t| == ValidShares(files, hash)[0].padding && t != Zeros(|t|)
  {
    var padding := ValidShares(files, hash)[0].padding;
    DecodedIsFinished(files, hash, decode);
    hide Decoded, Decodable, ValidShares, Reassembled;
    FinishedOkIff(d, padding, hash, x);
    DigestAndPadding(d, padding, hash);
  }

  lemma DigestAndPadding(d: Bytes, padding: nat, hash: HashFunction)
    requires IsHash(hash)
    ensures Finished(d, padding, hash) == Err(BadDigest) <==>
      exists y, h, t :: d == y + h + t && |h| == HASH_LEN && |t| == padding && h != hash(y)
    ensures Finished(d, padding, hash) == Err(BadPadding) <==>
      exists y, t :: d == y + hash(y) + t && |t| == padding && t != Zeros(|t|)
  {
    if |d| >= HASH_LEN + padding {
      var end := |d| - (HASH_LEN + padding);
      var y, h, t := d[..end], d[end..end + HASH_LEN], d[|d| - padding..];
      assert d == y + h + t;
    }
    hide Finished;
    forall y, h, t | d == y + h + t && |h| == HASH_LEN && |t| == padding
      ensures Finished(d, padding, hash)
           == if h != hash(y) then Err(BadDigest) else if t != Zeros(|t|) then Err(BadPadding) else Ok(y)
    {
      FinishedParts(y, h, t, hash);
    }
    FinishedOutside(d, padding, hash);
  }

  /** The data recovered from the shares. */
  function Reassembled(shares: seq<Share>, decode: Decoder): Bytes
    requires Decodable(shares, decode)
  {
    Concat(decode(shares[0].k, shares[0].n, ShareMap(shares), |shares[0].bits|).value)
  }

  lemma DecodedIsFinished(files: seq<Bytes>, hash: HashFunction, decode: Decoder)
    requires Decodable(ValidShares(files, hash), decode)
    ensures Decoded(files, hash, decode)
         == Finished(Reassembled(ValidShares(files, hash), decode), ValidShares(files, hash)[0].padding, hash)
  {
    hide Finished, ShareMap, ValidShares, SameParameters;
  }

  /** When several accepted shares have one number, the last of them counts. */
  lemma {:induction false} LastShareCounts(shares: seq<Share>, i: nat)
    requires i < |shares| && forall j :: i < j < |shares| ==> shares[j].id != shares[i].id
    ensures shares[i].id in ShareMap(shares) && ShareMap(shares)[shares[i].id] == shares[i].bits
    decreases |shares|
  {
    if i < |shares| - 1 {
      LastShareCounts(shares[..|shares| - 1], i);
    }
  }

  // ---------- When decoding leaves its buffer ----------

  const UINT64: nat := 0x1_0000_0000_0000_0000

  /** The command's unsigned length of the data before hash and padding: it lies within the
      buffer exactly when they fit, and wraps around otherwise. */
  lemma LengthWraps(size: nat, trailer: nat)
    requires size < UINT64 && 0 < trailer < UINT64
    ensures (size + UINT64 - trailer) % UINT64 <= size <==> trailer <= size
  {
  }

  lemma {:induction false} ConcatLength(blocks: seq<Bytes>, size: nat)
    requires Blocks(blocks, |blocks|, size)
    ensures |Concat(blocks)| == |blocks| * size
  {
    if blocks != [] {
      assert forall i :: 0 <= i < |blocks[1..]| ==> blocks[1..][i] == blocks[i + 1];
      ConcatLength(blocks[1..], size);
      assert |blocks| * size == size + (|blocks| - 1) * size;
    }
  }

  lemma FinishedOutside(data: Bytes, padding: nat, hash: HashFunction)
    ensures Finished(data, padding, hash) == Err(OutsideBuffer) <==> |data| < HASH_LEN + padding
  {
  }

  /** The shares decoding gets as far as reassembling: they agree, there are enough of them, and
      the code can decode them. */
  predicate Decodable(shares: seq<Share>, decode: Decoder) {
    && shares != []
    && (forall i :: 0 <= i < |shares| ==> SameParameters(shares[0], shares[i]))
    && |shares| >= shares[0].k
    && decode(shares[0].k, shares[0].n, ShareMap(shares), |shares[0].bits|).Some?
  }

  /** `fec_decode` stays inside its buffer unless the shares it reassembles are too short to
      hold a hash and their padding. */
  lemma LeavesBufferIff(files: seq<Bytes>, hash: HashFunction, encode: Encoder, decode: Decoder)
    requires IsHash(hash) && ErasureCode(encode, decode)
    ensures var shares := ValidShares(files, hash);
      Decoded(files, hash, decode) == Err(OutsideBuffer) <==>
      Decodable(shares, decode) && shares[0].k * |shares[0].bits| < HASH_LEN + shares[0].padding
  {
    var shares := ValidShares(files, hash);
    hide Finished, ShareMap, ValidShares, SameParameters;
    if Decodable(shares, decode) {
      var first := shares[0];
      var blocks := decode(first.k, first.n, ShareMap(shares), |first.bits|).value;
      assert Blocks(blocks, first.k, |first.bits|);
      hide ErasureCode;
      ConcatLength(blocks, |first.bits|);
      FinishedOutside(Concat(blocks), first.padding, hash);
    }
  }

  /** The shares of an encoding hold the hash and the padding. */
  lemma EncodedIsLong(s: Share, k: nat, n: nat, input: Bytes, hash: HashFunction, encode: Encoder, decode: Decoder)
    requires 1 <= k < n <= 255 && IsHash(hash) && ErasureCode(encode, decode)
    requires IsShareOf(s, k, n, input, hash, encode)
    ensures s.k * |s.bits| >= HASH_LEN + s.padding
  {
    var payload := Payload(input, k, hash);
    PaddingIsLeast(|input + hash(input)|, k, PaddingFor(|input + hash(input)|, k));
    assert |payload| == |input| + HASH_LEN + s.padding && |payload| % k == 0;
    assert Blocks(encode(k, n, payload), n, |payload| / k);
    assert |s.bits| == |payload| / k;
  }

  /** When any of the accepted shares was written by `fec_encode`, decoding stays inside its
      buffer. */
  lemma EncodedStaysInBuffer(files: seq<Bytes>, j: nat, k: nat, n: nat, input: Bytes, hash: HashFunction,
                             encode: Encoder, decode: Decoder)
    requires 1 <= k < n <= 255 && IsHash(hash) && ErasureCode(encode, decode)
    requires j < |ValidShares(files, hash)| && IsShareOf(ValidShares(files, hash)[j], k, n, input, hash, encode)
    ensures Decoded(files, hash, decode) != Err(OutsideBuffer)
  {
    hide Decoded, ValidShares, ErasureCode, IsShareOf, IsHash, ShareMap;
    var shares := ValidShares(files, hash);
    LeavesBufferIff(files, hash, encode, decode);
    EncodedIsLong(shares[j], k, n, input, hash, encode, decode);
    assert Decodable(shares, decode) ==> SameParameters(shares[0], shares[j]);
  }

  lemma ValidSharesOne(file: Bytes, hash: HashFunction)
    requires Deserialized(file, hash).Ok?
    ensures ValidShares([file], hash) == [Deserialized(file, hash).value]
  {
    hide Deserialized;
    assert [file][1..] == [];
  }

  /** One file of 44 bytes is enough: the share number 0 of 2, of which 1 is needed, without any
      content.  It is well formed, its own hash is right, and it leaves the buffer. */
  lemma EmptyShareLeavesBuffer(hash: HashFunction, encode: Encoder, decode: Decoder)
    requires IsHash(hash) && ErasureCode(encode, decode)
    ensures var file := Serialized(Share(0, 1, 2, 0, []), hash);
      |file| == 44 && Decoded([file], hash, decode) == Err(OutsideBuffer)
  {
    var s := Share(0, 1, 2, 0, []);
    ReadAfterWrite(s, hash);
    SerializedParts(s, hash);
    var file := Serialized(s, hash);
    ValidSharesOne(file, hash);
    LeavesBufferIff([file], hash, encode, decode);
    EmptyDecodes(s, encode, decode);
  }

  lemma EmptyDecodes(s: Share, encode: Encoder, decode: Decoder)
    requires s == Share(0, 1, 2, 0, []) && ErasureCode(encode, decode)
    ensures Decodable([s], decode)
  {
    var m := ShareMap([s]);
    var none: seq<Share> := [];
    assert [s][..|[s]| - 1] == none && ShareMap(none) == map[];
    assert m == map[0 := []];
    var k, n := 1, 2;
    var data: Bytes := [];
    assert Parameters(k, n) && |data| % k == 0 && |data| / k == 0;
    var shares := encode(k, n, data);
    assert Blocks(shares, n, 0);
    assert |shares[0]| == 0 && shares[0] == [];
    assert |m| == 1 by {
      assert m.Keys == {0};
    }
    assert EnoughShares(m, shares, k);
  }
}
