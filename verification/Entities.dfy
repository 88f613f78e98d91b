/** `escapeHtml` and `decodeEntities`: two chains of replacements, and exactly when the second
    undoes the first. */
module Entities {
  import opened Text

  function EscapeHtml(value: string): string {
    var s1 := ReplaceAll(value, "&", "&amp;");
    var s2 := ReplaceAll(s1, "<", "&lt;");
    var s3 := ReplaceAll(s2, ">", "&gt;");
    var s4 := ReplaceAll(s3, "\"", "&quot;");
    ReplaceAll(s4, "'", "&#039;")
  }

  function DecodeEntities(value: string): string {
    Respelled(ReplaceAll(value, "&amp;", "&"))
  }

  /** The four replacements after the first. */
  function Respelled(value: string): string {
    var s1 := ReplaceAll(value, "&lt;", "<");
    var s2 := ReplaceAll(s1, "&gt;", ">");
    var s3 := ReplaceAll(s2, "&quot;", "\"");
    ReplaceAll(s3, "&#039;", "'")
  }

  // ---------- Escaping character by character ----------

  const SPECIAL: set<char> := {'&', '<', '>', '"', '\''}

  function Entity(c: char): (e: string)
    requires c in SPECIAL
    ensures |e| >= 4 && e[0] == '&' && '&' !in e[1..]
    ensures forall d :: d in SPECIAL && d != '&' ==> d !in e
    ensures '\n' !in e
  {
    if c == '&' then "&amp;"
    else if c == '<' then "&lt;"
    else if c == '>' then "&gt;"
    else if c == '"' then "&quot;"
    else "&#039;"
  }

  /** s with the characters in `which` written as entities. */
  function Mask(s: string, which: set<char>): string
    requires which <= SPECIAL
  {
    if s == "" then ""
    else (if s[0] in which then Entity(s[0]) else [s[0]]) + Mask(s[1..], which)
  }

  /** Characters other than the first of the pattern are passed over. */
  lemma {:induction false} SkipPlain(p: string, t: string, pattern: string, r: string)
    requires pattern != "" && pattern[0] !in p
    ensures ReplaceAll(p + t, pattern, r) == p + ReplaceAll(t, pattern, r)
  {
    if p == "" {
      assert p + t == t;
    } else {
      assert (p + t)[1..] == p[1..] + t;
      SkipPlain(p[1..], t, pattern, r);
      assert [p[0]] + (p[1..] + ReplaceAll(t, pattern, r)) == p + ReplaceAll(t, pattern, r);
    }
  }

  lemma Replaced(pattern: string, t: string, r: string)
    requires pattern != ""
    ensures ReplaceAll(pattern + t, pattern, r) == r + ReplaceAll(t, pattern, r)
  {
    assert (pattern + t)[|pattern|..] == t;
  }

  /** Entities are told apart by their second character. */
  lemma EntitiesDiffer(c: char, d: char, t: string)
    requires c in SPECIAL && d in SPECIAL && c != d
    ensures !(Entity(c) <= Entity(d) + t)
  {
    assert (Entity(d) + t)[1] == Entity(d)[1];
  }

  /** An entity that is not the pattern is passed over. */
  lemma SkipEntity(c: char, d: char, t: string, r: string)
    requires c in SPECIAL && d in SPECIAL && c != d
    ensures ReplaceAll(Entity(d) + t, Entity(c), r) == Entity(d) + ReplaceAll(t, Entity(c), r)
  {
    EntitiesDiffer(c, d, t);
    var e, p := Entity(d), Entity(c);
    hide Entity;
    SkipHead(e, t, p, r);
  }

  lemma SkipHead(e: string, t: string, p: string, r: string)
    requires p != "" && e != "" && p[0] !in e[1..] && !(p <= e + t)
    ensures ReplaceAll(e + t, p, r) == e + ReplaceAll(t, p, r)
  {
    assert (e + t)[1..] == e[1..] + t;
    SkipPlain(e[1..], t, p, r);
    var rest := ReplaceAll(t, p, r);
    assert [e[0]] + (e[1..] + rest) == e + rest;
  }

  /** Escaping one more character. */
  lemma {:induction false} MaskMore(s: string, which: set<char>, c: char)
    requires which + {c} <= SPECIAL && c !in which && (c == '&' ==> which == {})
    ensures ReplaceAll(Mask(s, which), [c], Entity(c)) == Mask(s, which + {c})
  {
    if s != "" {
      MaskMore(s[1..], which, c);
      var t := Mask(s[1..], which);
      if s[0] == c {
        Replaced([c], t, Entity(c));
      } else if s[0] in which {
        SkipPlain(Entity(s[0]), t, [c], Entity(c));
      } else {
        SkipPlain([s[0]], t, [c], Entity(c));
      }
    }
  }

  lemma EscapeBrackets(s: string)
    ensures ReplaceAll(s, "&", "&amp;") == Mask(s, {'&'})
    ensures ReplaceAll(Mask(s, {'&'}), "<", "&lt;") == Mask(s, {'&', '<'})
    ensures ReplaceAll(Mask(s, {'&', '<'}), ">", "&gt;") == Mask(s, {'&', '<', '>'})
  {
    MaskNothing(s);
    assert {} + {'&'} == {'&'} && {'&'} + {'<'} == {'&', '<'} && {'&', '<'} + {'>'} == {'&', '<', '>'};
    assert Entity('&') == "&amp;" && Entity('<') == "&lt;" && Entity('>') == "&gt;";
    hide ReplaceAll, Mask, Entity;
    MaskMore(s, {}, '&');
    MaskMore(s, {'&'}, '<');
    MaskMore(s, {'&', '<'}, '>');
  }

  const BRACKETS: set<char> := {'&', '<', '>'}

  lemma AllSpecial()
    ensures BRACKETS + {'"'} <= SPECIAL && BRACKETS + {'"'} + {'\''} == SPECIAL && '"' !in BRACKETS
  {
  }

  lemma EscapeQuotes(s: string)
    requires BRACKETS + {'"'} <= SPECIAL
    ensures ReplaceAll(Mask(s, BRACKETS), "\"", "&quot;") == Mask(s, BRACKETS + {'"'})
    ensures ReplaceAll(Mask(s, BRACKETS + {'"'}), "'", "&#039;") == Mask(s, SPECIAL)
  {
    AllSpecial();
    assert Entity('"') == "&quot;" && Entity('\'') == "&#039;";
    hide ReplaceAll, Mask, Entity;
    MaskMore(s, BRACKETS, '"');
    MaskMore(s, BRACKETS + {'"'}, '\'');
  }

  /** `escapeHtml` writes each special character as its entity, and nothing else. */
  lemma EscapeIsMask(s: string)
    ensures EscapeHtml(s) == Mask(s, SPECIAL)
  {
    hide ReplaceAll, Mask;
    AllSpecial();
    EscapeBrackets(s);
    EscapeQuotes(s);
  }

  lemma {:induction false} MaskNothing(s: string)
    ensures Mask(s, {}) == s
  {
    if s != "" {
      MaskNothing(s[1..]);
    }
  }

  lemma {:induction false} MaskAppend(s: string, t: string, which: set<char>)
    requires which <= SPECIAL
    ensures Mask(s + t, which) == Mask(s, which) + Mask(t, which)
  {
    if s == "" {
      assert s + t == t;
    } else {
      assert (s + t)[1..] == s[1..] + t;
      MaskAppend(s[1..], t, which);
    }
  }

  lemma {:induction false} MaskPlain(s: string, which: set<char>)
    requires which <= SPECIAL && forall c :: c in s ==> c !in which
    ensures Mask(s, which) == s
  {
    if s != "" {
      MaskPlain(s[1..], which);
    }
  }

  // ---------- Decoding ----------

  /** Decoding the ampersands of a text in which all of them are escaped. */
  lemma {:induction false} UnmaskAmpersand(s: string, which: set<char>)
    requires which <= SPECIAL && '&' !in which
    ensures ReplaceAll(Mask(s, which + {'&'}), "&amp;", "&") == Mask(s, which)
  {
    assert Entity('&') == "&amp;";
    if s != "" {
      UnmaskAmpersand(s[1..], which);
      var t := Mask(s[1..], which + {'&'});
      if s[0] == '&' {
        Replaced("&amp;", t, "&");
      } else if s[0] in which {
        SkipEntity('&', s[0], t, "&");
      } else {
        SkipPlain([s[0]], t, "&amp;", "&");
      }
    }
  }

  /** A text without ampersands can only begin an escaped text that it begins unescaped. */
  lemma {:induction false} PlainPrefix(p: string, s: string, which: set<char>)
    requires which <= SPECIAL && '&' !in p && p <= Mask(s, which)
    ensures p <= s
  {
    if p != "" {
      var m := Mask(s, which);
      assert m != "" && s != "";
      assert p[0] == m[0];
      assert s[0] !in which;
      assert m[1..] == Mask(s[1..], which);
      PlainPrefix(p[1..], s[1..], which);
      assert s == [s[0]] + s[1..] && p == [p[0]] + p[1..];
    }
  }

  lemma AmpersandPrefix(e: string, s: string, which: set<char>)
    requires which <= SPECIAL && '&' !in which && e != "" && '&' !in e[1..]
    requires s != "" && s[0] == e[0] == '&'
    ensures Mask(s, which) == ['&'] + Mask(s[1..], which)
    ensures e <= Mask(s, which) ==> e <= s
  {
    var t := Mask(s[1..], which);
    if e <= Mask(s, which) {
      assert e[1..] <= (['&'] + t)[1..] == t;
      PlainPrefix(e[1..], s[1..], which);
      assert e == ['&'] + e[1..] && s == ['&'] + s[1..];
    }
  }

  /** Decoding one other entity decodes the escaped characters and, alas, the places where the
      entity was spelled out already. */
  lemma {:induction false} UnmaskOne(s: string, which: set<char>, c: char)
    requires which <= SPECIAL && '&' !in which && c in SPECIAL && c != '&' && c !in which
    ensures ReplaceAll(Mask(s, which + {c}), Entity(c), [c]) == Mask(ReplaceAll(s, Entity(c), [c]), which)
    decreases |s|
  {
    var e, all := Entity(c), which + {c};
    if s == "" {
    } else if e <= s {
      var t := s[|e|..];
      assert s == e + t;
      MaskAppend(e, t, all);
      MaskPlain(e, all);
      Replaced(e, Mask(t, all), [c]);
      UnmaskOne(t, which, c);
      assert ([c] + ReplaceAll(t, e, [c]))[1..] == ReplaceAll(t, e, [c]);
    } else {
      UnmaskOne(s[1..], which, c);
      UnmaskHead(s, which, c);
      assert ([s[0]] + ReplaceAll(s[1..], e, [c]))[1..] == ReplaceAll(s[1..], e, [c]);
    }
  }

  /** The step at a character where no spelled-out entity begins. */
  lemma UnmaskHead(s: string, which: set<char>, c: char)
    requires which <= SPECIAL && '&' !in which && c in SPECIAL && c != '&' && c !in which
    requires s != "" && !(Entity(c) <= s)
    ensures ReplaceAll(Mask(s, which + {c}), Entity(c), [c])
         == Mask([s[0]], which) + ReplaceAll(Mask(s[1..], which + {c}), Entity(c), [c])
  {
    var e, all := Entity(c), which + {c};
    var t := Mask(s[1..], all);
    assert Mask([s[0]], which) == if s[0] in which then Entity(s[0]) else [s[0]] by {
      assert [s[0]][1..] == "";
    }
    if s[0] == c {
      Replaced(e, t, [c]);
    } else if s[0] in which {
      SkipEntity(c, s[0], t, [c]);
    } else if s[0] == '&' {
      AmpersandPrefix(e, s, all);
      assert (['&'] + t)[1..] == t;
    } else {
      SkipPlain([s[0]], t, e, [c]);
    }
  }

  const QUOTES: set<char> := {'"', '\''}

  lemma DecodeBrackets(s: string)
    ensures ReplaceAll(Mask(s, SPECIAL), "&amp;", "&") == Mask(s, {'<', '>'} + QUOTES)
    ensures ReplaceAll(Mask(s, {'<', '>'} + QUOTES), "&lt;", "<") == Mask(ReplaceAll(s, "&lt;", "<"), {'>'} + QUOTES)
    ensures ReplaceAll(Mask(s, {'>'} + QUOTES), "&gt;", ">") == Mask(ReplaceAll(s, "&gt;", ">"), QUOTES)
  {
    assert {'<', '>'} + QUOTES + {'&'} == SPECIAL;
    assert {'>'} + QUOTES + {'<'} == {'<', '>'} + QUOTES;
    assert QUOTES + {'>'} == {'>'} + QUOTES;
    assert Entity('<') == "&lt;" && Entity('>') == "&gt;";
    hide ReplaceAll, Mask, Entity;
    UnmaskAmpersand(s, {'<', '>'} + QUOTES);
    UnmaskOne(s, {'>'} + QUOTES, '<');
    UnmaskOne(s, QUOTES, '>');
  }

  lemma DecodeQuotes(s: string)
    ensures ReplaceAll(Mask(s, QUOTES), "&quot;", "\"") == Mask(ReplaceAll(s, "&quot;", "\""), {'\''})
    ensures ReplaceAll(Mask(s, {'\''}), "&#039;", "'") == ReplaceAll(s, "&#039;", "'")
  {
    assert {'\''} + {'"'} == QUOTES;
    assert {} + {'\''} == {'\''};
    assert Entity('"') == "&quot;" && Entity('\'') == "&#039;";
    MaskNothing(ReplaceAll(s, "&#039;", "'"));
    hide ReplaceAll, Mask, Entity;
    UnmaskOne(s, {'\''}, '"');
    UnmaskOne(s, {}, '\'');
  }

  /** What decoding an escaped text gives: the text with the four spellings replaced. */
  lemma DecodeOfEscape(s: string)
    ensures DecodeEntities(EscapeHtml(s)) == Respelled(s)
  {
    EscapeIsMask(s);
    hide ReplaceAll, Mask, EscapeHtml;
    var s1 := ReplaceAll(s, "&lt;", "<");
    var s2 := ReplaceAll(s1, "&gt;", ">");
    var s3 := ReplaceAll(s2, "&quot;", "\"");
    DecodeBrackets(s);
    DecodeBrackets(s1);
    DecodeQuotes(s2);
    DecodeQuotes(s3);
  }

  // ---------- When nothing is lost ----------

  predicate Contains(s: string, pattern: string)
    requires pattern != ""
  {
    Find(s, pattern) < |s|
  }

  /** None of the four spellings that decoding would take for an escape. */
  predicate Clean(s: string) {
    !Contains(s, "&lt;") && !Contains(s, "&gt;") && !Contains(s, "&quot;") && !Contains(s, "&#039;")
  }

  /** Replacing by something shorter shortens a text exactly when there is something to replace. */
  lemma {:induction false} ReplaceShortens(s: string, pattern: string, r: string)
    requires |r| < |pattern|
    ensures Contains(s, pattern) ==> |ReplaceAll(s, pattern, r)| < |s|
    ensures !Contains(s, pattern) ==> ReplaceAll(s, pattern, r) == s
    decreases |s|
  {
    if s != "" {
      if pattern <= s {
        ReplaceShortens(s[|pattern|..], pattern, r);
      } else {
        ReplaceShortens(s[1..], pattern, r);
      }
    }
  }

  lemma RespelledLength(s: string)
    ensures |Respelled(s)| <= |s|
    ensures |Respelled(s)| == |s| <==> Clean(s)
    ensures Clean(s) ==> Respelled(s) == s
  {
    var s1 := ReplaceAll(s, "&lt;", "<");
    var s2 := ReplaceAll(s1, "&gt;", ">");
    var s3 := ReplaceAll(s2, "&quot;", "\"");
    ReplaceShortens(s, "&lt;", "<");
    ReplaceShortens(s1, "&gt;", ">");
    ReplaceShortens(s2, "&quot;", "\"");
    ReplaceShortens(s3, "&#039;", "'");
    hide ReplaceAll, Contains;
  }

  /** Decoding undoes escaping exactly on the texts without those spellings. */
  lemma DecodeUndoesEscape(s: string)
    ensures DecodeEntities(EscapeHtml(s)) == s <==> Clean(s)
  {
    DecodeOfEscape(s);
    RespelledLength(s);
  }

  // ---------- Texts put together ----------

  lemma {:induction false} MaskFacts(s: string, which: set<char>)
    requires which <= SPECIAL
    ensures '<' in which ==> '<' !in Mask(s, which)
    ensures '\n' !in s ==> '\n' !in Mask(s, which)
    ensures s != "" ==> Mask(s, which) != ""
  {
    hide Entity;
    if s != "" {
      MaskFacts(s[1..], which);
    }
  }

  /** Escaped text opens no tag and breaks no line. */
  lemma EscapeFacts(s: string)
    ensures '<' !in EscapeHtml(s)
    ensures '\n' !in s ==> '\n' !in EscapeHtml(s)
    ensures s != "" ==> EscapeHtml(s) != ""
  {
    hide EscapeHtml, Mask;
    EscapeIsMask(s);
    MaskFacts(s, SPECIAL);
  }

  lemma EscapeLines(a: string, b: string)
    ensures EscapeHtml(a + "\n" + b) == EscapeHtml(a) + "\n" + EscapeHtml(b)
  {
    hide EscapeHtml, Mask;
    EscapeIsMask(a);
    EscapeIsMask(b);
    EscapeIsMask(a + "\n" + b);
    MaskPlain("\n", SPECIAL);
    MaskAppend(a + "\n", b, SPECIAL);
    MaskAppend(a, "\n", SPECIAL);
  }

  /** Text without ampersands passes through decoding. */
  lemma DecodePlain(p: string, t: string)
    requires '&' !in p
    ensures DecodeEntities(p + t) == p + DecodeEntities(t)
  {
    var s0 := ReplaceAll(t, "&amp;", "&");
    var s1 := ReplaceAll(s0, "&lt;", "<");
    var s2 := ReplaceAll(s1, "&gt;", ">");
    var s3 := ReplaceAll(s2, "&quot;", "\"");
    hide ReplaceAll;
    SkipPlain(p, t, "&amp;", "&");
    SkipPlain(p, s0, "&lt;", "<");
    SkipPlain(p, s1, "&gt;", ">");
    SkipPlain(p, s2, "&quot;", "\"");
    SkipPlain(p, s3, "&#039;", "'");
  }

  /** A pattern that fits before a newline fits the text before it. */
  lemma FitsBefore(pattern: string, a: string, b: string)
    requires '\n' !in pattern
    ensures pattern <= a + "\n" + b <==> pattern <= a
  {
    var s := a + "\n" + b;
    assert s[|a|] == '\n';
    if pattern <= s {
      assert forall i :: 0 <= i < |pattern| ==> pattern[i] == s[i];
    }
  }

  /** A pattern without a newline is replaced line by line. */
  lemma {:induction false} ReplaceLines(a: string, b: string, pattern: string, r: string)
    requires pattern != "" && '\n' !in pattern
    ensures ReplaceAll(a + "\n" + b, pattern, r) == ReplaceAll(a, pattern, r) + "\n" + ReplaceAll(b, pattern, r)
    decreases |a|
  {
    if a == "" {
      assert a + "\n" + b == "\n" + b;
      SkipPlain("\n", b, pattern, r);
    } else {
      FitsBefore(pattern, a, b);
      var s := a + "\n" + b;
      var k := if pattern <= a then |pattern| else 1;
      assert s[k..] == a[k..] + "\n" + b && s[0] == a[0];
      ReplaceLines(a[k..], b, pattern, r);
      var head := if pattern <= a then r else [a[0]];
      assert ReplaceAll(a, pattern, r) == head + ReplaceAll(a[k..], pattern, r);
      assert ReplaceAll(s, pattern, r) == head + ReplaceAll(s[k..], pattern, r);
      Regrouped(head, ReplaceAll(a[k..], pattern, r), ReplaceAll(b, pattern, r));
    }
  }

  lemma Regrouped(head: string, a: string, b: string)
    ensures head + (a + "\n" + b) == (head + a) + "\n" + b
  {
  }

  lemma RespelledLines(a: string, b: string)
    ensures Respelled(a + "\n" + b) == Respelled(a) + "\n" + Respelled(b)
  {
    var a1, b1 := ReplaceAll(a, "&lt;", "<"), ReplaceAll(b, "&lt;", "<");
    var a2, b2 := ReplaceAll(a1, "&gt;", ">"), ReplaceAll(b1, "&gt;", ">");
    var a3, b3 := ReplaceAll(a2, "&quot;", "\""), ReplaceAll(b2, "&quot;", "\"");
    hide ReplaceAll;
    ReplaceLines(a, b, "&lt;", "<");
    ReplaceLines(a1, b1, "&gt;", ">");
    ReplaceLines(a2, b2, "&quot;", "\"");
    ReplaceLines(a3, b3, "&#039;", "'");
  }

  /** Replacing touches no letter outside the pattern and the replacement. */
  lemma {:induction false} ReplaceKeeps(s: string, pattern: string, r: string, c: char)
    requires pattern != "" && c !in pattern && c !in r
    ensures multiset(ReplaceAll(s, pattern, r))[c] == multiset(s)[c]
    decreases |s|
  {
    if s != "" {
      if pattern <= s {
        ReplaceKeeps(s[|pattern|..], pattern, r, c);
        assert s == pattern + s[|pattern|..];
      } else {
        ReplaceKeeps(s[1..], pattern, r, c);
        assert s == [s[0]] + s[1..];
      }
    }
  }

  lemma NoneSpelledWithS()
    ensures 's' !in "&lt;" && 's' !in "<" && 's' !in "&gt;" && 's' !in ">"
    ensures 's' !in "&quot;" && 's' !in "\"" && 's' !in "&#039;" && 's' !in "'"
  {
  }

  /** No spelling contains an s. */
  lemma RespelledKeeps(s: string)
    ensures multiset(Respelled(s))['s'] == multiset(s)['s']
  {
    var s1 := ReplaceAll(s, "&lt;", "<");
    var s2 := ReplaceAll(s1, "&gt;", ">");
    var s3 := ReplaceAll(s2, "&quot;", "\"");
    hide ReplaceAll;
    NoneSpelledWithS();
    ReplaceKeeps(s, "&lt;", "<", 's');
    ReplaceKeeps(s1, "&gt;", ">", 's');
    ReplaceKeeps(s2, "&quot;", "\"", 's');
    ReplaceKeeps(s3, "&#039;", "'", 's');
  }
}
