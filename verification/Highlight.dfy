/** The highlighter: printing matches as HTML, reading the HTML back line by line into nodes,
    and when the text survives. */
module Highlight {
  import opened Text
  import opened Entities
  import opened Wrappers

  // ---------- Printing ----------

  /** One match of the combined expression: where it is and the token type it was matched as. */
  datatype Match = Match(index: nat, length: nat, kind: string)

  datatype Segment = Gap(text: string) | Token(kind: string, text: string)

  const OPEN := "<span class=\"hl-"
  const MIDDLE := "\">"
  const CLOSE := "</span>"

  /** A word character of a regular expression. */
  predicate WordChar(c: char) {
    'a' <= c <= 'z' || 'A' <= c <= 'Z' || '0' <= c <= '9' || c == '_'
  }

  predicate Kind(k: string) {
    k != "" && forall i :: 0 <= i < |k| ==> WordChar(k[i])
  }

  /** Matches as `matchAll` produces them from position `from` on: in order, without overlap,
      and not empty. */
  predicate Ordered(code: string, from: nat, matches: seq<Match>)
    decreases |matches|
  {
    if matches == [] then from <= |code|
    else
      var m := matches[0];
      from <= m.index && m.length > 0 && m.index + m.length <= |code| && Kind(m.kind)
      && Ordered(code, m.index + m.length, matches[1..])
  }

  /** The code from `from` on, cut into matches and the gaps between them. */
  function Segments(code: string, from: nat, matches: seq<Match>): seq<Segment>
    requires from <= |code| && Ordered(code, from, matches)
    decreases |matches|
  {
    if matches == [] then if from < |code| then [Gap(code[from..])] else []
    else
      var m := matches[0];
      (if m.index > from then [Gap(code[from..m.index])] else [])
      + [Token(m.kind, code[m.index..m.index + m.length])]
      + Segments(code, m.index + m.length, matches[1..])
  }

  function Print(seg: Segment): string {
    match seg
    case Gap(text) => EscapeHtml(text)
    case Token(kind, text) => Tagged(kind, EscapeHtml(text))
  }

  function Tagged(kind: string, html: string): string {
    OPEN + kind + MIDDLE + html + CLOSE
  }

  function PrintAll(segs: seq<Segment>): string {
    if segs == [] then "" else Print(segs[0]) + PrintAll(segs[1..])
  }

  lemma {:induction false} PrintAppend(s: seq<Segment>, t: seq<Segment>)
    ensures PrintAll(s + t) == PrintAll(s) + PrintAll(t)
  {
    if s == [] {
      assert s + t == t;
    } else {
      assert (s + t)[1..] == s[1..] + t;
      PrintAppend(s[1..], t);
      assert Print(s[0]) + (PrintAll(s[1..]) + PrintAll(t)) == PrintAll(s) + PrintAll(t);
    }
  }

  lemma PrintOne(seg: Segment)
    ensures PrintAll([seg]) == Print(seg)
  {
    assert [seg][1..] == [];
  }

  /** `highlight`. */
  method HighlightCode(code: string, matches: seq<Match>) returns (result: string)
    requires Ordered(code, 0, matches)
    ensures result == PrintAll(Segments(code, 0, matches))
  {
    result := "";
    var lastIndex: nat := 0;
    hide EscapeHtml, Segments, Tagged, PrintAll, Ordered;
    OrderedBounds(code, 0, matches);
    ghost var all := PrintAll(Segments(code, 0, matches));
    assert matches[0..] == matches;
    for i := 0 to |matches|
      invariant lastIndex <= |code| && Ordered(code, lastIndex, matches[i..])
      invariant result + PrintAll(Segments(code, lastIndex, matches[i..])) == all
    {
      var m := matches[i];
      var next := m.index + m.length;
      PrintStep(code, lastIndex, matches, i, m, next, result);
      if m.index > lastIndex {
        result := result + EscapeHtml(code[lastIndex..m.index]);
      }
      var tokenText := code[m.index..next];
      result := result + Tagged(m.kind, EscapeHtml(tokenText));
      lastIndex := next;
    }
    PrintEnd(code, lastIndex);
    if lastIndex < |code| {
      result := result + EscapeHtml(code[lastIndex..]);
    }
  }

  lemma DropOne<T>(s: seq<T>, i: nat)
    requires i < |s|
    ensures s[i..] != [] && s[i..][0] == s[i] && s[i..][1..] == s[i + 1..]
  {
  }

  lemma OrderedBounds(code: string, from: nat, matches: seq<Match>)
    requires Ordered(code, from, matches)
    ensures from <= |code|
  {
  }

  function GapBefore(code: string, from: nat, to: nat): (gap: seq<Segment>)
    requires from <= to <= |code|
    ensures |gap| <= 1
    ensures forall i :: 0 <= i < |gap| ==> gap[i].Gap?
  {
    if to > from then [Gap(code[from..to])] else []
  }

  lemma SegmentsStep(code: string, from: nat, matches: seq<Match>)
    requires from <= |code| && Ordered(code, from, matches) && matches != []
    ensures var m := matches[0]; var next := m.index + m.length;
      && from <= m.index < next <= |code| && Kind(m.kind) && Ordered(code, next, matches[1..])
      && Segments(code, from, matches) ==
          GapBefore(code, from, m.index) + ([Token(m.kind, code[m.index..next])] + Segments(code, next, matches[1..]))
  {
    hide Kind;
  }

  lemma PrintGap(code: string, from: nat, to: nat)
    requires from <= to <= |code|
    ensures PrintAll(GapBefore(code, from, to)) == if to > from then EscapeHtml(code[from..to]) else ""
  {
    hide EscapeHtml, Tagged;
    if to > from {
      PrintOne(Gap(code[from..to]));
    }
  }

  lemma PrintTurn(result: string, gap: seq<Segment>, token: Segment, rest: seq<Segment>)
    ensures result + PrintAll(gap + ([token] + rest)) == result + PrintAll(gap) + Print(token) + PrintAll(rest)
  {
    hide Print, PrintAll;
    PrintAppend(gap, [token] + rest);
    PrintAppend([token], rest);
    PrintOne(token);
    Associate(result, PrintAll(gap), Print(token), PrintAll(rest));
  }

  /** What one turn of the loop appends. */
  lemma PrintStep(code: string, from: nat, matches: seq<Match>, i: nat, m: Match, next: nat, result: string)
    requires i < |matches| && m == matches[i] && next == m.index + m.length
    requires from <= |code| && Ordered(code, from, matches[i..])
    ensures from <= m.index < next <= |code| && Ordered(code, next, matches[i + 1..])
    ensures result + PrintAll(Segments(code, from, matches[i..]))
         == WithGap(result, code, from, m.index) + Tagged(m.kind, EscapeHtml(code[m.index..next]))
            + PrintAll(Segments(code, next, matches[i + 1..]))
  {
    DropOne(matches, i);
    hide *;
    PrintFirst(code, from, matches[i..], m, matches[i + 1..], next, result);
  }

  lemma PrintFirst(code: string, from: nat, ms: seq<Match>, m: Match, others: seq<Match>, next: nat, result: string)
    requires ms != [] && m == ms[0] && others == ms[1..] && next == m.index + m.length
    requires from <= |code| && Ordered(code, from, ms)
    ensures from <= m.index < next <= |code| && Ordered(code, next, others)
    ensures result + PrintAll(Segments(code, from, ms))
         == WithGap(result, code, from, m.index) + Tagged(m.kind, EscapeHtml(code[m.index..next]))
            + PrintAll(Segments(code, next, others))
  {
    hide Ordered, Segments, Kind, Print, PrintAll, GapBefore, WithGap, EscapeHtml, Tagged;
    SegmentsStep(code, from, ms);
    var rest := Segments(code, next, others);
    Turned(code, from, m, result);
    PrintTurn(result, GapBefore(code, from, m.index), Token(m.kind, code[m.index..next]), rest);
  }

  /** The text so far and the gap up to the next match, if there is one. */
  function WithGap(result: string, code: string, from: nat, to: nat): string
    requires from <= to <= |code|
  {
    if to > from then result + EscapeHtml(code[from..to]) else result
  }

  lemma Turned(code: string, from: nat, m: Match, result: string)
    requires from <= m.index <= m.index + m.length <= |code|
    ensures result + PrintAll(GapBefore(code, from, m.index)) + Print(Token(m.kind, code[m.index..m.index + m.length]))
         == WithGap(result, code, from, m.index)
            + Tagged(m.kind, EscapeHtml(code[m.index..m.index + m.length]))
  {
    hide PrintAll, GapBefore, EscapeHtml, Tagged;
    PrintGap(code, from, m.index);
    Associate(result, "", "", "");
  }

  lemma Group(a: string, b: string, c: string)
    ensures (a + b) + c == a + (b + c)
  {
  }

  lemma Associate(a: string, b: string, c: string, d: string)
    ensures a + (b + (c + d)) == a + b + c + d
    ensures "" + a == a
    ensures b == "" ==> a + b == a
  {
  }

  lemma PrintEnd(code: string, from: nat)
    requires from <= |code| && Ordered(code, from, [])
    ensures PrintAll(Segments(code, from, [])) == if from < |code| then EscapeHtml(code[from..]) else ""
  {
    hide EscapeHtml, Tagged;
    if from < |code| {
      PrintOne(Gap(code[from..]));
    }
  }

  function TextOf(segs: seq<Segment>): string {
    if segs == [] then "" else segs[0].text + TextOf(segs[1..])
  }

  /** No two gaps in a row, and kinds are words. */
  predicate Alternating(segs: seq<Segment>) {
    && (forall i :: 0 <= i < |segs| && segs[i].Token? ==> Kind(segs[i].kind))
    && (forall i :: 0 < i < |segs| && segs[i].Gap? ==> segs[i - 1].Token?)
  }

  lemma {:induction false} TextAppend(s: seq<Segment>, t: seq<Segment>)
    ensures TextOf(s + t) == TextOf(s) + TextOf(t)
  {
    if s == [] {
      assert s + t == t;
    } else {
      assert (s + t)[1..] == s[1..] + t;
      TextAppend(s[1..], t);
      Associate("", s[0].text, TextOf(s[1..]), TextOf(t));
    }
  }

  lemma TextOne(seg: Segment)
    ensures TextOf([seg]) == seg.text
  {
    assert [seg][1..] == [];
  }

  lemma TextGap(code: string, from: nat, to: nat)
    requires from <= to <= |code|
    ensures TextOf(GapBefore(code, from, to)) == code[from..to]
  {
    if to > from {
      TextOne(Gap(code[from..to]));
    }
  }

  lemma Cut(code: string, a: nat, b: nat, c: nat)
    requires a <= b <= c <= |code|
    ensures code[a..b] + (code[b..c] + code[c..]) == code[a..]
  {
  }

  /** The segments are the code, cut up: nothing is lost, doubled or moved. */
  lemma {:induction false} SegmentsAreCode(code: string, from: nat, matches: seq<Match>)
    requires from <= |code| && Ordered(code, from, matches)
    ensures TextOf(Segments(code, from, matches)) == code[from..]
    decreases |matches|
  {
    if matches == [] {
      if from < |code| {
        TextOne(Gap(code[from..]));
      }
    } else {
      SegmentsStep(code, from, matches);
      hide Segments, Ordered, TextOf, GapBefore, Kind;
      var m := matches[0];
      var next := m.index + m.length;
      SegmentsAreCode(code, next, matches[1..]);
      var token := Token(m.kind, code[m.index..next]);
      var rest := Segments(code, next, matches[1..]);
      var gap := GapBefore(code, from, m.index);
      TextAppend(gap, [token] + rest);
      TextAppend([token], rest);
      TextOne(token);
      TextGap(code, from, m.index);
      Cut(code, from, m.index, next);
    }
  }

  /** No two gaps meet, and the kinds are words. */
  lemma {:induction false} SegmentsAlternate(code: string, from: nat, matches: seq<Match>)
    requires from <= |code| && Ordered(code, from, matches)
    ensures Alternating(Segments(code, from, matches))
    decreases |matches|
  {
    if matches != [] {
      SegmentsStep(code, from, matches);
      hide Segments, Ordered, GapBefore, Kind;
      var m := matches[0];
      var next := m.index + m.length;
      SegmentsAlternate(code, next, matches[1..]);
      Prepend(GapBefore(code, from, m.index), Token(m.kind, code[m.index..next]), Segments(code, next, matches[1..]));
    }
  }

  lemma Prepend(gap: seq<Segment>, token: Segment, rest: seq<Segment>)
    requires |gap| <= 1 && (forall i :: 0 <= i < |gap| ==> gap[i].Gap?)
    requires token.Token? && Kind(token.kind) && Alternating(rest)
    ensures Alternating(gap + ([token] + rest))
  {
    hide Kind;
    var segs := gap + ([token] + rest);
    forall i | 0 <= i < |segs|
      ensures segs[i].Token? ==> Kind(segs[i].kind)
      ensures i > 0 && segs[i].Gap? ==> segs[i - 1].Token?
    {
      if i > |gap| {
        assert segs[i] == rest[i - |gap| - 1];
        assert i - 1 > |gap| ==> segs[i - 1] == rest[i - |gap| - 2];
      }
    }
  }

  // ---------- Reading back ----------

  datatype Node = TextNode(value: string) | SpanNode(kind: string, value: string)

  function WordRun(s: string): (n: nat)
    ensures n <= |s|
  {
    if s == "" || !WordChar(s[0]) then 0 else 1 + WordRun(s[1..])
  }

  function TextRun(s: string): (n: nat)
    ensures n <= |s|
    ensures s != "" && s[0] != '<' ==> n > 0
  {
    if s == "" || s[0] == '<' then 0 else 1 + TextRun(s[1..])
  }

  datatype Span = Span(kind: string, inner: string, rest: string)

  /** The first alternative of the token expression at the start of s: an opening tag, then
      lazily everything up to the first closing tag. */
  function SpanAt(s: string): (r: Option<Span>)
    ensures r.Some? ==> |r.value.rest| < |s|
  {
    if !(OPEN <= s) then None
    else
      var t := s[|OPEN|..];
      var n := WordRun(t);
      if n == 0 || !(MIDDLE <= t[n..]) then None
      else
        var u := t[n..][|MIDDLE|..];
        var k := Find(u, CLOSE);
        if k == |u| then None else Some(Span(t[..n], u[..k], u[k..][|CLOSE|..]))
  }

  /** All matches of the token expression in one line: spans, runs of text without '<', and
      nothing for a '<' that opens no span. */
  function ParseLine(s: string): seq<Node>
    decreases |s|
  {
    if s == "" then []
    else
      var span := SpanAt(s);
      if span.Some? then [SpanNode(span.value.kind, DecodeEntities(span.value.inner))] + ParseLine(span.value.rest)
      else
        var n := TextRun(s);
        if n > 0 then [TextNode(DecodeEntities(s[..n]))] + ParseLine(s[n..])
        else ParseLine(s[1..])
  }

  /** Splitting at newlines. */
  function SplitLines(s: string): (lines: seq<string>)
    ensures lines != []
  {
    if s == "" then [""]
    else
      var rest := SplitLines(s[1..]);
      if s[0] == '\n' then [""] + rest else [[s[0]] + rest[0]] + rest[1..]
  }

  /** The children of one line; an empty line gets an empty text. */
  function LineNodes(html: string): seq<Node> {
    var tokens := ParseLine(html);
    if tokens == [] then [TextNode("")] else tokens
  }

  function AllLines(lines: seq<string>): seq<seq<Node>> {
    if lines == [] then [] else [LineNodes(lines[0])] + AllLines(lines[1..])
  }

  /** The inner loop: one match of the token expression after the other. */
  method ReadLine(lineHtml: string) returns (tokens: seq<Node>)
    ensures tokens == ParseLine(lineHtml)
  {
    tokens := [];
    var rest := lineHtml;
    hide SpanAt, TextRun, DecodeEntities;
    while rest != ""
      invariant tokens + ParseLine(rest) == ParseLine(lineHtml)
      decreases |rest|
    {
      var span := SpanAt(rest);
      if span.Some? {
        tokens := tokens + [SpanNode(span.value.kind, DecodeEntities(span.value.inner))];
        rest := span.value.rest;
      } else {
        var n := TextRun(rest);
        if n > 0 {
          tokens := tokens + [TextNode(DecodeEntities(rest[..n]))];
          rest := rest[n..];
        } else {
          rest := rest[1..];
        }
      }
    }
  }

  /** `getNodeText` of the children of a line. */
  function NodeText(nodes: seq<Node>): string {
    if nodes == [] then "" else nodes[0].value + NodeText(nodes[1..])
  }

  function JoinLines(lines: seq<seq<Node>>): string {
    if lines == [] then ""
    else if |lines| == 1 then NodeText(lines[0])
    else NodeText(lines[0]) + "\n" + JoinLines(lines[1..])
  }

  /** The text of the lines read from some HTML, joined by newlines. */
  function Recovered(html: string): string {
    JoinLines(AllLines(SplitLines(html)))
  }

  // ---------- One line ----------

  /** The text a line of HTML shows. */
  function LineText(html: string): string {
    NodeText(ParseLine(html))
  }

  lemma LineTextOfNodes(html: string)
    ensures NodeText(LineNodes(html)) == LineText(html)
  {
    if ParseLine(html) == [] {
      assert [TextNode("")][1..] == [];
    }
  }

  lemma NodesFirst(node: Node, rest: seq<Node>)
    ensures NodeText([node] + rest) == node.value + NodeText(rest)
  {
    assert ([node] + rest)[1..] == rest;
  }

  lemma {:induction false} TextRunStops(p: string, l: string)
    requires '<' !in p && (l == "" || l[0] == '<')
    ensures TextRun(p + l) == |p|
  {
    if p != "" {
      assert (p + l)[1..] == p[1..] + l;
      TextRunStops(p[1..], l);
    } else {
      assert p + l == l;
    }
  }

  lemma NoSpan(s: string)
    requires s != "" && s[0] != '<'
    ensures SpanAt(s) == None
  {
  }

  /** Text up to the next tag becomes one text node. */
  lemma ParseText(p: string, l: string)
    requires p != "" && '<' !in p && (l == "" || l[0] == '<')
    ensures ParseLine(p + l) == [TextNode(DecodeEntities(p))] + ParseLine(l)
    ensures LineText(p + l) == DecodeEntities(p) + LineText(l)
  {
    TextRunStops(p, l);
    assert (p + l)[0] == p[0] && (p + l)[..|p|] == p && (p + l)[|p|..] == l;
    hide SpanAt, DecodeEntities, TextRun;
    NoSpan(p + l);
    NodesFirst(TextNode(DecodeEntities(p)), ParseLine(l));
  }

  lemma {:induction false} WordRunStops(k: string, t: string)
    requires (forall i :: 0 <= i < |k| ==> WordChar(k[i])) && t != "" && !WordChar(t[0])
    ensures WordRun(k + t) == |k|
  {
    hide WordChar;
    if k == "" {
      assert k + t == t;
    } else {
      assert (k + t)[1..] == k[1..] + t;
      WordRunStops(k[1..], t);
    }
  }

  /** What does not contain a pattern's first character does not hold the pattern. */
  lemma {:induction false} FindAfter(p: string, t: string, pattern: string)
    requires pattern != "" && pattern[0] !in p && (pattern <= t || t == "")
    ensures Find(p + t, pattern) == |p|
  {
    if p == "" {
      assert p + t == t;
    } else {
      assert (p + t)[1..] == p[1..] + t;
      FindAfter(p[1..], t, pattern);
    }
  }

  lemma KindPlain(k: string)
    requires Kind(k)
    ensures '\n' !in k && '&' !in k && '<' !in k
  {
  }

  lemma Tag(k: string, rest: string)
    requires Kind(k)
    ensures var s := OPEN + k + MIDDLE + rest;
      && OPEN <= s && s[|OPEN|..] == k + (MIDDLE + rest) && WordRun(k + (MIDDLE + rest)) == |k|
      && (k + (MIDDLE + rest))[|k|..] == MIDDLE + rest && (MIDDLE + rest)[|MIDDLE|..] == rest
      && MIDDLE <= MIDDLE + rest && (k + (MIDDLE + rest))[..|k|] == k
  {
    var open, middle := OPEN, MIDDLE;
    assert middle != "" && !WordChar(middle[0]);
    WordRunStops(k, middle + rest);
    Slices(open, k, middle, rest);
  }

  lemma Slices(open: string, k: string, middle: string, rest: string)
    ensures var s := open + k + middle + rest;
      open <= s && s[|open|..] == k + (middle + rest)
    ensures (k + (middle + rest))[|k|..] == middle + rest && (k + (middle + rest))[..|k|] == k
    ensures (middle + rest)[|middle|..] == rest && middle <= middle + rest
  {
  }

  /** At an opening tag, the expression asks for the first closing tag. */
  lemma SpanAtTag(k: string, rest: string)
    requires Kind(k)
    ensures var s := OPEN + k + MIDDLE + rest; var c := Find(rest, CLOSE);
      SpanAt(s) == if c == |rest| then None else Some(Span(k, rest[..c], rest[c..][|CLOSE|..]))
  {
    hide WordRun, Find;
    Tag(k, rest);
  }

  /** A printed token is read back as one span of its kind, whatever follows. */
  lemma ParseToken(k: string, e: string, l: string)
    requires Kind(k) && '<' !in e
    ensures ParseLine(Tagged(k, e) + l) == [SpanNode(k, DecodeEntities(e))] + ParseLine(l)
    ensures LineText(Tagged(k, e) + l) == DecodeEntities(e) + LineText(l)
  {
    var rest := e + (CLOSE + l);
    var s := OPEN + k + MIDDLE + rest;
    assert Tagged(k, e) + l == s;
    FindAfter(e, CLOSE + l, CLOSE);
    SpanAtTag(k, rest);
    assert rest[..|e|] == e && rest[|e|..] == CLOSE + l && (CLOSE + l)[|CLOSE|..] == l;
    hide SpanAt, DecodeEntities, Find;
    NodesFirst(SpanNode(k, DecodeEntities(e)), ParseLine(l));
  }

  // ---------- Tags that a line break tears apart ----------

  /** What is left of an opening tag that no tag closes on its line. */
  function OpenText(k: string): string {
    "span class=\"hl-" + k + MIDDLE
  }

  const CLOSETEXT := "/span>"

  lemma OpenTextPlain(k: string)
    requires Kind(k)
    ensures '<' !in OpenText(k) && '&' !in OpenText(k) && OpenText(k) != ""
    ensures OPEN + k + MIDDLE == ['<'] + OpenText(k)
  {
    KindPlain(k);
    hide Kind;
    var start := "span class=\"hl-";
    assert OPEN == ['<'] + start;
    assert '<' !in start && '&' !in start && '<' !in MIDDLE && '&' !in MIDDLE && start != "";
  }

  /** A '<' that opens no span is dropped. */
  lemma DropBracket(s: string)
    requires SpanAt(['<'] + s) == None
    ensures LineText(['<'] + s) == LineText(s)
  {
    hide SpanAt;
    assert (['<'] + s)[1..] == s;
    assert TextRun(['<'] + s) == 0;
  }

  lemma ParseOpenTag(k: string, e: string)
    requires Kind(k) && '<' !in e
    ensures LineText(OPEN + k + MIDDLE + e) == OpenText(k) + DecodeEntities(e)
  {
    assert e + "" == e;
    FindAfter(e, "", CLOSE);
    SpanAtTag(k, e);
    OpenTextPlain(k);
    var p := OpenText(k);
    assert OPEN + k + MIDDLE + e == ['<'] + (p + e);
    assert (p + e) + "" == p + e;
    hide SpanAt, DecodeEntities, OpenText, Kind;
    DropBracket(p + e);
    ParseText(p + e, "");
    DecodePlain(p, e);
    assert LineText("") == "";
  }

  lemma {:induction false} TextRunSplit(l: string)
    ensures '<' !in l[..TextRun(l)] && (l[TextRun(l)..] == "" || l[TextRun(l)..][0] == '<')
  {
    if l != "" && l[0] != '<' {
      TextRunSplit(l[1..]);
      assert l[..TextRun(l)] == [l[0]] + l[1..][..TextRun(l[1..])];
      assert l[TextRun(l)..] == l[1..][TextRun(l[1..])..];
    }
  }

  /** Plain text in front of a line joins the line's text. */
  lemma PlainBefore(p: string, l: string)
    requires p != "" && '<' !in p && '&' !in p
    ensures LineText(p + l) == p + LineText(l)
  {
    hide DecodeEntities, LineText, TextRun;
    TextRunSplit(l);
    PlainBeforeRun(p, l[..TextRun(l)], l[TextRun(l)..]);
    assert l == l[..TextRun(l)] + l[TextRun(l)..];
  }

  lemma PlainBeforeRun(p: string, l1: string, l2: string)
    requires p != "" && '<' !in p && '&' !in p
    requires '<' !in l1 && (l2 == "" || l2[0] == '<')
    ensures LineText(p + (l1 + l2)) == p + LineText(l1 + l2)
  {
    hide DecodeEntities, LineText;
    ParseText(p + l1, l2);
    DecodePlain(p, l1);
    LineOfText(l1, l2);
    Group(p, l1, l2);
    Group(p, DecodeEntities(l1), LineText(l2));
  }

  lemma LineOfText(p: string, l: string)
    requires '<' !in p && (l == "" || l[0] == '<')
    ensures LineText(p + l) == DecodeEntities(p) + LineText(l)
  {
    if p == "" {
      DecodeNothing();
      assert p + l == l;
    } else {
      hide DecodeEntities, LineText;
      ParseText(p, l);
    }
  }

  lemma DecodeNothing()
    ensures DecodeEntities("") == ""
  {
  }

  lemma ParseCloseTag(l: string)
    ensures LineText(CLOSE + l) == CLOSETEXT + LineText(l)
  {
    var s := CLOSETEXT + l;
    assert CLOSE + l == ['<'] + s;
    assert (CLOSE + l)[1] == '/' && OPEN[1] == 's';
    assert SpanAt(['<'] + s) == None;
    hide SpanAt, LineText;
    DropBracket(s);
    PlainBefore(CLOSETEXT, l);
  }

  // ---------- Many lines ----------

  lemma {:induction false} SplitPrefix(p: string, h: string)
    requires '\n' !in p
    ensures SplitLines(p + h) == [p + SplitLines(h)[0]] + SplitLines(h)[1..]
  {
    if p == "" {
      assert p + h == h && p + SplitLines(h)[0] == SplitLines(h)[0];
      assert SplitLines(h) == [SplitLines(h)[0]] + SplitLines(h)[1..];
    } else {
      assert (p + h)[1..] == p[1..] + h && (p + h)[0] == p[0] != '\n';
      SplitPrefix(p[1..], h);
      assert [p[0]] + (p[1..] + SplitLines(h)[0]) == p + SplitLines(h)[0];
    }
  }

  lemma SplitNewline(p: string, h: string)
    requires '\n' !in p
    ensures SplitLines(p + "\n" + h) == [p] + SplitLines(h)
  {
    assert ("\n" + h)[1..] == h;
    assert SplitLines("\n" + h) == [""] + SplitLines(h);
    assert p + ("\n" + h) == p + "\n" + h;
    var rest := SplitLines(h);
    assert ([""] + rest)[0] == "" && ([""] + rest)[1..] == rest && p + "" == p;
    hide SplitLines;
    SplitPrefix(p, "\n" + h);
  }

  function JoinTexts(lines: seq<string>): string {
    JoinLines(AllLines(lines))
  }

  lemma {:induction false} AllLinesLength(lines: seq<string>)
    ensures |AllLines(lines)| == |lines|
  {
    if lines != [] {
      AllLinesLength(lines[1..]);
    }
  }

  lemma JoinStep(first: string, rest: seq<string>)
    ensures JoinTexts([first] + rest)
         == if rest == [] then LineText(first) else LineText(first) + "\n" + JoinTexts(rest)
  {
    var lines := [first] + rest;
    assert lines[0] == first && lines[1..] == rest;
    LineTextOfNodes(first);
    AllLinesLength(rest);
    var nodes := AllLines(lines);
    assert nodes == [LineNodes(first)] + AllLines(rest);
    assert nodes[1..] == AllLines(rest);
  }

  function FirstLine(h: string): string {
    SplitLines(h)[0]
  }

  /** What stands in front of some HTML without breaking its first line. */
  lemma InFront(p: string, v: string, h: string)
    requires '\n' !in p && LineText(p + FirstLine(h)) == v + LineText(FirstLine(h))
    ensures Recovered(p + h) == v + Recovered(h)
  {
    var first := FirstLine(h);
    var rest := SplitLines(h)[1..];
    assert SplitLines(h) == [first] + rest;
    SplitPrefix(p, h);
    hide LineText, SplitLines, JoinTexts, FirstLine;
    JoinStep(first, rest);
    JoinStep(p + first, rest);
    RecoveredTexts(h);
    RecoveredTexts(p + h);
    if rest != [] {
      Group(v, LineText(first), "\n");
      Group(v, LineText(first) + "\n", JoinTexts(rest));
    }
  }

  lemma RecoveredTexts(html: string)
    ensures Recovered(html) == JoinTexts(SplitLines(html))
  {
  }

  lemma AcrossLines(p: string, h: string)
    requires '\n' !in p
    ensures Recovered(p + "\n" + h) == LineText(p) + "\n" + Recovered(h)
  {
    SplitNewline(p, h);
    hide LineText, SplitLines, JoinTexts;
    JoinStep(p, SplitLines(h));
  }

  /** The first line of HTML that begins with a tag begins with that tag's bracket. */
  lemma FirstLineOfTag(h: string)
    requires h == "" || h[0] == '<'
    ensures FirstLine(h) == "" || FirstLine(h)[0] == '<'
  {
  }

  // ---------- What each segment shows ----------

  lemma EscapedLine(g: string, l: string)
    requires l == "" || l[0] == '<'
    ensures LineText(EscapeHtml(g) + l) == Respelled(g) + LineText(l)
  {
    EscapeFacts(g);
    DecodeOfEscape(g);
    if g == "" {
      NothingEscaped();
      assert EscapeHtml(g) + l == l;
    } else {
      hide EscapeHtml, DecodeEntities, Respelled, LineText;
      ParseText(EscapeHtml(g), l);
    }
  }

  lemma NothingEscaped()
    ensures EscapeHtml("") == "" && Respelled("") == ""
  {
  }

  lemma SplitAt(s: string, i: nat)
    requires i < |s|
    ensures s == s[..i] + [s[i]] + s[i + 1..]
  {
  }

  function FirstBreak(s: string): (i: nat)
    requires '\n' in s
    ensures i < |s| && s[i] == '\n' && '\n' !in s[..i]
  {
    if s[0] == '\n' then 0 else
      var i := FirstBreak(s[1..]);
      assert s[..1 + i] == [s[0]] + s[1..][..i];
      1 + i
  }

  /** Escaped text shows respelled, whatever lines it breaks into. */
  lemma {:induction false} GapRecovered(g: string, h: string)
    requires h == "" || h[0] == '<'
    ensures Recovered(EscapeHtml(g) + h) == Respelled(g) + Recovered(h)
    decreases |g|
  {
    EscapeFacts(g);
    if '\n' in g {
      var i := FirstBreak(g);
      var a, b := g[..i], g[i + 1..];
      SplitAt(g, i);
      hide EscapeHtml, Respelled, Recovered, LineText, FirstBreak;
      EscapeFacts(a);
      EscapeLines(a, b);
      RespelledLines(a, b);
      GapRecovered(b, h);
      BrokenText(a, b, h);
    } else {
      hide EscapeHtml, Respelled, Recovered, LineText, FirstLine;
      FirstLineOfTag(h);
      EscapedLine(g, FirstLine(h));
      InFront(EscapeHtml(g), Respelled(g), h);
    }
  }

  lemma BrokenText(a: string, b: string, h: string)
    requires '\n' !in EscapeHtml(a)
    requires Recovered(EscapeHtml(b) + h) == Respelled(b) + Recovered(h)
    ensures Recovered(EscapeHtml(a) + "\n" + EscapeHtml(b) + h) == Respelled(a) + "\n" + Respelled(b) + Recovered(h)
  {
    hide EscapeHtml, Respelled, Recovered, LineText;
    var e := EscapeHtml(a);
    LastOfText(a);
    AcrossLines(e, EscapeHtml(b) + h);
    Group(e + "\n", EscapeHtml(b), h);
    Group(Respelled(a) + "\n", Respelled(b), Recovered(h));
  }

  lemma LastOfText(a: string)
    ensures LineText(EscapeHtml(a)) == Respelled(a)
  {
    assert LineText("") == "";
    hide EscapeHtml, Respelled, LineText;
    EscapedLine(a, "");
    assert EscapeHtml(a) + "" == EscapeHtml(a) && Respelled(a) + "" == Respelled(a);
  }

  /** What a segment shows: its text, respelled; around a token that spans lines, also what is
      left of its torn tags. */
  function Shown(seg: Segment): string {
    match seg
    case Gap(text) => Respelled(text)
    case Token(kind, text) =>
      if '\n' in text then OpenText(kind) + Respelled(text) + CLOSETEXT else Respelled(text)
  }

  function AllShown(segs: seq<Segment>): string {
    if segs == [] then "" else Shown(segs[0]) + AllShown(segs[1..])
  }

  lemma TaggedOnOneLine(k: string, e: string)
    requires Kind(k) && '\n' !in e
    ensures '\n' !in Tagged(k, e)
  {
    KindPlain(k);
    assert '\n' !in OPEN && '\n' !in MIDDLE && '\n' !in CLOSE;
    hide Kind;
  }

  lemma TokenRecovered(k: string, t: string, h: string)
    requires Kind(k) && '\n' !in t
    ensures Recovered(Tagged(k, EscapeHtml(t)) + h) == Respelled(t) + Recovered(h)
  {
    hide EscapeHtml, DecodeEntities, Respelled, LineText, Recovered, FirstLine, Kind, Tagged;
    var e := EscapeHtml(t);
    EscapeFacts(t);
    DecodeOfEscape(t);
    TaggedOnOneLine(k, e);
    ParseToken(k, e, FirstLine(h));
    InFront(Tagged(k, e), Respelled(t), h);
  }

  lemma OpenOnOneLine(k: string, e: string)
    requires Kind(k) && '\n' !in e
    ensures '\n' !in OPEN + k + MIDDLE + e
  {
    KindPlain(k);
    assert '\n' !in OPEN && '\n' !in MIDDLE;
    hide Kind;
  }

  /** The closing tag shows when its opening tag is on another line. */
  lemma CloseRecovered(h: string)
    ensures Recovered(CLOSE + h) == CLOSETEXT + Recovered(h)
  {
    assert '\n' !in CLOSE;
    hide LineText, Recovered, FirstLine;
    ParseCloseTag(FirstLine(h));
    InFront(CLOSE, CLOSETEXT, h);
  }

  lemma BrokenTag(k: string, a: string, b: string, h: string)
    requires Kind(k) && '\n' !in a
    ensures Tagged(k, EscapeHtml(a) + "\n" + EscapeHtml(b)) + h
         == (OPEN + k + MIDDLE + EscapeHtml(a)) + "\n" + (EscapeHtml(b) + (CLOSE + h))
    ensures Recovered((OPEN + k + MIDDLE + EscapeHtml(a)) + "\n" + (EscapeHtml(b) + (CLOSE + h)))
         == (OpenText(k) + Respelled(a)) + "\n" + (Respelled(b) + (CLOSETEXT + Recovered(h)))
  {
    EscapeFacts(a);
    DecodeOfEscape(a);
    hide EscapeHtml, DecodeEntities, Respelled, LineText, Recovered, Kind, OpenText;
    var e := EscapeHtml(a);
    OpenOnOneLine(k, e);
    ParseOpenTag(k, e);
    AcrossLines(OPEN + k + MIDDLE + e, EscapeHtml(b) + (CLOSE + h));
    GapRecovered(b, CLOSE + h);
    CloseRecovered(h);
  }

  /** A token that spans lines shows its torn tags. */
  lemma TornTokenRecovered(k: string, t: string, h: string)
    requires Kind(k) && '\n' in t
    ensures Recovered(Tagged(k, EscapeHtml(t)) + h) == OpenText(k) + Respelled(t) + CLOSETEXT + Recovered(h)
  {
    var i := FirstBreak(t);
    var a, b := t[..i], t[i + 1..];
    SplitAt(t, i);
    hide EscapeHtml, Respelled, Recovered, Kind, OpenText, Tagged, FirstBreak;
    EscapeLines(a, b);
    RespelledLines(a, b);
    BrokenTag(k, a, b, h);
    Regroup(OpenText(k), Respelled(a), Respelled(b), CLOSETEXT, Recovered(h));
  }

  lemma Regroup(o: string, a: string, b: string, c: string, r: string)
    ensures (o + a) + "\n" + (b + (c + r)) == o + (a + "\n" + b) + c + r
  {
  }

  lemma PrintStarts(segs: seq<Segment>)
    requires segs != [] ==> segs[0].Token?
    ensures PrintAll(segs) == "" || PrintAll(segs)[0] == '<'
  {
    if segs != [] {
      assert Print(segs[0])[0] == OPEN[0];
    }
  }

  lemma SegmentRecovered(seg: Segment, h: string)
    requires seg.Token? ==> Kind(seg.kind)
    requires seg.Gap? ==> h == "" || h[0] == '<'
    ensures Recovered(Print(seg) + h) == Shown(seg) + Recovered(h)
  {
    hide EscapeHtml, Respelled, Recovered, Kind, OpenText, Tagged;
    match seg
    case Gap(text) => GapRecovered(text, h);
    case Token(kind, text) =>
      if '\n' in text {
        TornTokenRecovered(kind, text, h);
      } else {
        TokenRecovered(kind, text, h);
      }
  }

  /** Reading the printed segments back, line by line, shows exactly what each of them shows. */
  lemma {:induction false} AllRecovered(segs: seq<Segment>)
    requires Alternating(segs)
    ensures Recovered(PrintAll(segs)) == AllShown(segs)
  {
    if segs == [] {
      NothingRecovered();
    } else {
      var rest := segs[1..];
      assert forall i :: 0 <= i < |rest| ==> rest[i] == segs[i + 1];
      assert Alternating(rest);
      if segs[0].Gap? {
        assert rest != [] ==> segs[1].Token?;
        PrintStarts(rest);
      }
      hide Print, Shown, Recovered, Kind, Alternating;
      AllRecovered(rest);
      SegmentRecovered(segs[0], PrintAll(rest));
    }
  }

  lemma NothingRecovered()
    ensures Recovered("") == ""
  {
    JoinStep("", []);
    assert [""] + [] == [""];
    assert LineText("") == "";
  }

  // ---------- When the text survives ----------

  predicate Faithful(seg: Segment) {
    Clean(seg.text) && (seg.Token? ==> '\n' !in seg.text)
  }

  /** Showing a segment loses no s, and torn tags add some. */
  lemma ShownLetters(seg: Segment)
    ensures multiset(Shown(seg))['s'] >= multiset(seg.text)['s']
    ensures seg.Token? && '\n' in seg.text ==> multiset(Shown(seg))['s'] > multiset(seg.text)['s']
  {
    RespelledKeeps(seg.text);
    hide Respelled;
    if seg.Token? && '\n' in seg.text {
      var start := "span class=\"hl-";
      assert start[0] == 's';
      var kept := Respelled(seg.text);
      assert Shown(seg) == start + (seg.kind + MIDDLE + kept + CLOSETEXT);
      assert 's' in multiset(start);
    }
  }

  lemma ShownLength(seg: Segment)
    requires seg.Token? ==> '\n' !in seg.text
    ensures |Shown(seg)| <= |seg.text|
    ensures |Shown(seg)| == |seg.text| <==> Faithful(seg)
    ensures Faithful(seg) ==> Shown(seg) == seg.text
  {
    RespelledLength(seg.text);
  }

  predicate AllFaithful(segs: seq<Segment>) {
    forall i :: 0 <= i < |segs| ==> Faithful(segs[i])
  }

  /** No token spans lines. */
  predicate TokensOnOneLine(segs: seq<Segment>) {
    forall i :: 0 <= i < |segs| && segs[i].Token? ==> '\n' !in segs[i].text
  }

  lemma FirstAndRest(segs: seq<Segment>)
    requires segs != []
    ensures AllFaithful(segs) <==> Faithful(segs[0]) && AllFaithful(segs[1..])
    ensures TokensOnOneLine(segs) <==> (segs[0].Token? ==> '\n' !in segs[0].text) && TokensOnOneLine(segs[1..])
  {
    hide Faithful;
    assert forall i :: 0 < i < |segs| ==> segs[i] == segs[1..][i - 1];
    assert forall i :: 0 <= i < |segs[1..]| ==> segs[1..][i] == segs[i + 1];
  }

  lemma {:induction false} AllShownLetters(segs: seq<Segment>)
    ensures multiset(AllShown(segs))['s'] >= multiset(TextOf(segs))['s']
    ensures multiset(AllShown(segs))['s'] == multiset(TextOf(segs))['s'] ==> TokensOnOneLine(segs)
  {
    if segs != [] {
      AllShownLetters(segs[1..]);
      ShownLetters(segs[0]);
      assert multiset(AllShown(segs)) == multiset(Shown(segs[0])) + multiset(AllShown(segs[1..]));
      assert multiset(TextOf(segs)) == multiset(segs[0].text) + multiset(TextOf(segs[1..]));
      hide Shown, AllShown, TextOf, TokensOnOneLine;
      FirstAndRest(segs);
    }
  }

  lemma {:induction false} AllShownLength(segs: seq<Segment>)
    requires TokensOnOneLine(segs)
    ensures |AllShown(segs)| <= |TextOf(segs)|
    ensures |AllShown(segs)| == |TextOf(segs)| <==> AllFaithful(segs)
    ensures AllFaithful(segs) ==> AllShown(segs) == TextOf(segs)
  {
    if segs != [] {
      hide Shown, Faithful, TokensOnOneLine, AllFaithful;
      FirstAndRest(segs);
      AllShownLength(segs[1..]);
      ShownLength(segs[0]);
    }
  }

  lemma FaithfulOnOneLine(segs: seq<Segment>)
    ensures AllFaithful(segs) ==> TokensOnOneLine(segs)
  {
  }

  lemma ShownIsText(segs: seq<Segment>)
    ensures AllShown(segs) == TextOf(segs) <==> AllFaithful(segs)
  {
    FaithfulOnOneLine(segs);
    hide AllFaithful, TokensOnOneLine, AllShown, TextOf;
    if AllShown(segs) == TextOf(segs) {
      AllShownLetters(segs);
      AllShownLength(segs);
    }
    if AllFaithful(segs) {
      AllShownLength(segs);
    }
  }

  /** The lines, joined by newlines, are what the pieces of the code show. */
  lemma ShownOfCode(code: string, matches: seq<Match>)
    requires Ordered(code, 0, matches)
    ensures Recovered(PrintAll(Segments(code, 0, matches))) == AllShown(Segments(code, 0, matches))
  {
    SegmentsAlternate(code, 0, matches);
    hide *;
    AllRecovered(Segments(code, 0, matches));
  }

  /** For every code and every list of matches: the lines, joined by newlines, are the code again
      exactly when no token spans lines and no piece spells out an entity. */
  lemma RoundTrip(code: string, matches: seq<Match>)
    requires Ordered(code, 0, matches)
    ensures Recovered(PrintAll(Segments(code, 0, matches))) == code <==> AllFaithful(Segments(code, 0, matches))
  {
    SegmentsAreCode(code, 0, matches);
    ShownOfCode(code, matches);
    assert code[0..] == code;
    hide Segments, Recovered, PrintAll, TextOf, AllShown, AllFaithful, Ordered;
    ShownIsText(Segments(code, 0, matches));
  }

  // ---------- Which nodes there are ----------

  function ParseAll(lines: seq<string>): seq<seq<Node>> {
    if lines == [] then [] else [ParseLine(lines[0])] + ParseAll(lines[1..])
  }

  /** The nodes of each line, before an empty line gets its empty text. */
  function RawLines(html: string): (lines: seq<seq<Node>>)
    ensures lines != []
  {
    ParseAll(SplitLines(html))
  }

  function Filled(lines: seq<seq<Node>>): (r: seq<seq<Node>>)
    ensures |r| == |lines|
    ensures forall i :: 0 <= i < |r| ==> r[i] == if lines[i] == [] then [TextNode("")] else lines[i]
  {
    if lines == [] then [] else [if lines[0] == [] then [TextNode("")] else lines[0]] + Filled(lines[1..])
  }

  lemma {:induction false} FilledLines(lines: seq<string>)
    ensures AllLines(lines) == Filled(ParseAll(lines))
  {
    hide ParseLine;
    if lines != [] {
      FilledLines(lines[1..]);
      assert ([ParseLine(lines[0])] + ParseAll(lines[1..]))[1..] == ParseAll(lines[1..]);
    }
  }

  /** A text of one line as nodes: none when it is empty. */
  function Piece(text: string): seq<Node> {
    if text == "" then [] else [TextNode(Respelled(text))]
  }

  /** A text in front of some lines: its own lines, the last of which joins the first of them. */
  function LayText(text: string, lines: seq<seq<Node>>): (r: seq<seq<Node>>)
    requires lines != []
    ensures r != []
    decreases |text|
  {
    if '\n' in text then
      var i := FirstBreak(text);
      [Piece(text[..i])] + LayText(text[i + 1..], lines)
    else [Piece(text) + lines[0]] + lines[1..]
  }

  /** The lines of nodes that the pieces of the code stand for: a text for each line of a gap, a
      span of its kind for each token. */
  function Lay(segs: seq<Segment>): (lines: seq<seq<Node>>)
    ensures lines != []
  {
    if segs == [] then [[]]
    else
      var rest := Lay(segs[1..]);
      match segs[0]
      case Gap(text) => LayText(text, rest)
      case Token(kind, text) => [[SpanNode(kind, Respelled(text))] + rest[0]] + rest[1..]
  }

  lemma RawStep(first: string, rest: seq<string>)
    ensures ParseAll([first] + rest) == [ParseLine(first)] + ParseAll(rest)
  {
    hide ParseLine;
    assert ([first] + rest)[1..] == rest;
  }

  lemma RawInFront(p: string, v: seq<Node>, h: string)
    requires '\n' !in p && ParseLine(p + FirstLine(h)) == v + ParseLine(FirstLine(h))
    ensures RawLines(p + h) == [v + RawLines(h)[0]] + RawLines(h)[1..]
  {
    var first := FirstLine(h);
    var rest := SplitLines(h)[1..];
    assert SplitLines(h) == [first] + rest;
    SplitPrefix(p, h);
    hide ParseLine, SplitLines, ParseAll, FirstLine;
    RawStep(first, rest);
    RawStep(p + first, rest);
  }

  lemma RawAcross(p: string, h: string)
    requires '\n' !in p
    ensures RawLines(p + "\n" + h) == [ParseLine(p)] + RawLines(h)
  {
    SplitNewline(p, h);
    hide ParseLine, SplitLines, ParseAll;
    RawStep(p, SplitLines(h));
  }

  lemma RawOfText(g: string, l: string)
    requires l == "" || l[0] == '<'
    ensures ParseLine(EscapeHtml(g) + l) == Piece(g) + ParseLine(l)
  {
    EscapeFacts(g);
    DecodeOfEscape(g);
    if g == "" {
      NothingEscaped();
      assert EscapeHtml(g) + l == l;
    } else {
      hide EscapeHtml, DecodeEntities, Respelled, ParseLine;
      ParseText(EscapeHtml(g), l);
    }
  }

  lemma RawOfLastText(g: string)
    ensures ParseLine(EscapeHtml(g)) == Piece(g)
  {
    assert ParseLine("") == [];
    hide EscapeHtml, Piece, ParseLine;
    RawOfText(g, "");
    assert EscapeHtml(g) + "" == EscapeHtml(g) && Piece(g) + [] == Piece(g);
  }

  lemma {:induction false} RawOfGap(g: string, h: string)
    requires h == "" || h[0] == '<'
    ensures RawLines(EscapeHtml(g) + h) == LayText(g, RawLines(h))
    decreases |g|
  {
    EscapeFacts(g);
    if '\n' in g {
      var i := FirstBreak(g);
      var a, b := g[..i], g[i + 1..];
      SplitAt(g, i);
      assert LayText(g, RawLines(h)) == [Piece(a)] + LayText(b, RawLines(h));
      hide EscapeHtml, RawLines, Piece, ParseLine, FirstBreak, LayText;
      EscapeFacts(a);
      EscapeLines(a, b);
      RawOfGap(b, h);
      RawOfLastText(a);
      RawAcross(EscapeHtml(a), EscapeHtml(b) + h);
      Group(EscapeHtml(a) + "\n", EscapeHtml(b), h);
    } else {
      hide EscapeHtml, RawLines, Piece, ParseLine, FirstLine;
      FirstLineOfTag(h);
      RawOfText(g, FirstLine(h));
      RawInFront(EscapeHtml(g), Piece(g), h);
    }
  }

  lemma RawOfToken(k: string, t: string, h: string)
    requires Kind(k) && '\n' !in t
    ensures RawLines(Tagged(k, EscapeHtml(t)) + h)
         == [[SpanNode(k, Respelled(t))] + RawLines(h)[0]] + RawLines(h)[1..]
  {
    hide EscapeHtml, DecodeEntities, Respelled, ParseLine, RawLines, FirstLine, Kind, Tagged;
    var e := EscapeHtml(t);
    EscapeFacts(t);
    DecodeOfEscape(t);
    TaggedOnOneLine(k, e);
    ParseToken(k, e, FirstLine(h));
    RawInFront(Tagged(k, e), [SpanNode(k, Respelled(t))], h);
  }

  lemma RawOfNothing()
    ensures RawLines("") == [[]]
  {
    RawStep("", []);
    assert [""] + [] == [""];
  }

  /** When no token spans lines, the nodes read back are these, line by line. */
  lemma {:induction false} LaidOut(segs: seq<Segment>)
    requires Alternating(segs) && TokensOnOneLine(segs)
    ensures RawLines(PrintAll(segs)) == Lay(segs)
  {
    if segs == [] {
      RawOfNothing();
    } else {
      var rest := segs[1..];
      assert forall i :: 0 <= i < |rest| ==> rest[i] == segs[i + 1];
      assert Alternating(rest) && TokensOnOneLine(rest);
      var h := PrintAll(rest);
      if segs[0].Gap? {
        assert rest != [] ==> segs[1].Token?;
        PrintStarts(rest);
        hide EscapeHtml, RawLines, LayText, Kind, Alternating, TokensOnOneLine;
        LaidOut(rest);
        RawOfGap(segs[0].text, h);
      } else {
        assert Kind(segs[0].kind) && '\n' !in segs[0].text;
        hide EscapeHtml, RawLines, LayText, Kind, Tagged, Respelled, Alternating, TokensOnOneLine;
        LaidOut(rest);
        RawOfToken(segs[0].kind, segs[0].text, h);
      }
    }
  }

  /** The spans of a line, and of all lines. */
  function SpansOf(nodes: seq<Node>): seq<Node> {
    if nodes == [] then [] else (if nodes[0].SpanNode? then [nodes[0]] else []) + SpansOf(nodes[1..])
  }

  function AllSpans(lines: seq<seq<Node>>): seq<Node> {
    if lines == [] then [] else SpansOf(lines[0]) + AllSpans(lines[1..])
  }

  /** The tokens, as the spans they are to become. */
  function TokenNodes(segs: seq<Segment>): seq<Node> {
    if segs == [] then []
    else (if segs[0].Token? then [SpanNode(segs[0].kind, Respelled(segs[0].text))] else []) + TokenNodes(segs[1..])
  }

  /** The matches, as the spans they are to become. */
  function MatchNodes(code: string, from: nat, matches: seq<Match>): (nodes: seq<Node>)
    requires Ordered(code, from, matches)
    ensures |nodes| == |matches|
    decreases |matches|
  {
    if matches == [] then []
    else
      var m := matches[0];
      [SpanNode(m.kind, Respelled(code[m.index..m.index + m.length]))]
      + MatchNodes(code, m.index + m.length, matches[1..])
  }

  lemma TokenNodesAfterGap(gap: seq<Segment>, token: Segment, rest: seq<Segment>)
    requires |gap| <= 1 && (forall i :: 0 <= i < |gap| ==> gap[i].Gap?) && token.Token?
    ensures TokenNodes(gap + ([token] + rest)) == [SpanNode(token.kind, Respelled(token.text))] + TokenNodes(rest)
  {
    hide Respelled;
    var tail := [token] + rest;
    assert tail[1..] == rest;
    assert (gap + tail)[|gap|..] == tail;
    if gap != [] {
      assert gap[0].Gap?;
    } else {
      assert gap + tail == tail;
    }
  }

  /** The tokens are the matches, one for one, with their kinds. */
  lemma {:induction false} TokensAreMatches(code: string, from: nat, matches: seq<Match>)
    requires from <= |code| && Ordered(code, from, matches)
    ensures TokenNodes(Segments(code, from, matches)) == MatchNodes(code, from, matches)
    decreases |matches|
  {
    if matches == [] {
      LastGap(code, from);
    } else {
      SegmentsStep(code, from, matches);
      var m := matches[0];
      var next := m.index + m.length;
      TokensAreMatches(code, next, matches[1..]);
      hide Segments, Ordered, GapBefore, Kind, Respelled, TokenNodes;
      TokenNodesAfterGap(GapBefore(code, from, m.index), Token(m.kind, code[m.index..next]),
                         Segments(code, next, matches[1..]));
    }
  }

  lemma LastGap(code: string, from: nat)
    requires from <= |code|
    ensures TokenNodes(Segments(code, from, [])) == []
  {
    if from < |code| {
      assert [Gap(code[from..])][1..] == [];
    }
  }

  lemma AssociateNodes(a: seq<Node>, b: seq<Node>, c: seq<Node>)
    ensures a + (b + c) == (a + b) + c
  {
  }

  lemma {:induction false} SpansAppend(s: seq<Node>, t: seq<Node>)
    ensures SpansOf(s + t) == SpansOf(s) + SpansOf(t)
  {
    if s == [] {
      assert s + t == t;
    } else {
      assert (s + t)[1..] == s[1..] + t;
      SpansAppend(s[1..], t);
      AssociateNodes(if s[0].SpanNode? then [s[0]] else [], SpansOf(s[1..]), SpansOf(t));
    }
  }

  lemma SpansFirst(first: seq<Node>, rest: seq<seq<Node>>)
    ensures AllSpans([first] + rest) == SpansOf(first) + AllSpans(rest)
  {
    assert ([first] + rest)[1..] == rest;
  }

  lemma SpansUnfold(lines: seq<seq<Node>>)
    requires lines != []
    ensures AllSpans(lines) == SpansOf(lines[0]) + AllSpans(lines[1..])
  {
  }

  lemma SpansInFront(v: seq<Node>, lines: seq<seq<Node>>)
    requires lines != []
    ensures AllSpans([v + lines[0]] + lines[1..]) == SpansOf(v) + AllSpans(lines)
  {
    SpansFirst(v + lines[0], lines[1..]);
    SpansAppend(v, lines[0]);
    AssociateNodes(SpansOf(v), SpansOf(lines[0]), AllSpans(lines[1..]));
    SpansUnfold(lines);
    hide SpansOf, AllSpans;
  }

  lemma SpansOfPiece(text: string)
    ensures SpansOf(Piece(text)) == []
  {
    hide Respelled;
    if text != "" {
      assert Piece(text)[1..] == [];
    }
  }

  /** The first line of a text that has several. */
  lemma LayBroken(text: string, lines: seq<seq<Node>>) returns (a: string, b: string)
    requires lines != [] && '\n' in text
    ensures text == a + "\n" + b && '\n' !in a && |b| < |text|
    ensures LayText(text, lines) == [Piece(a)] + LayText(b, lines)
  {
    hide Piece;
    var i := FirstBreak(text);
    a, b := text[..i], text[i + 1..];
    SplitAt(text, i);
  }

  lemma LayUnbroken(text: string, lines: seq<seq<Node>>)
    requires lines != [] && '\n' !in text
    ensures LayText(text, lines) == [Piece(text) + lines[0]] + lines[1..]
  {
    hide Piece;
  }

  lemma {:induction false} SpansOfText(text: string, lines: seq<seq<Node>>)
    requires lines != []
    ensures AllSpans(LayText(text, lines)) == AllSpans(lines)
    decreases |text|
  {
    hide Piece, SpansOf, LayText, AllSpans;
    if '\n' in text {
      var a, b := LayBroken(text, lines);
      SpansOfPiece(a);
      SpansOfText(b, lines);
      SpansFirst(Piece(a), LayText(b, lines));
    } else {
      LayUnbroken(text, lines);
      SpansOfPiece(text);
      SpansInFront(Piece(text), lines);
    }
    assert [] + AllSpans(lines) == AllSpans(lines);
  }

  lemma {:induction false} SpansAreTokens(segs: seq<Segment>)
    ensures AllSpans(Lay(segs)) == TokenNodes(segs)
  {
    if segs == [] {
      var none: seq<Node> := [];
      assert [none][1..] == [];
    } else {
      SpansAreTokens(segs[1..]);
      var rest := Lay(segs[1..]);
      hide Respelled;
      match segs[0]
      case Gap(text) =>
        SpansOfText(text, rest);
        assert [] + TokenNodes(segs[1..]) == TokenNodes(segs[1..]);
      case Token(kind, text) =>
        var span := SpanNode(kind, Respelled(text));
        assert [span][1..] == [];
        assert SpansOf([span]) == [span];
        SpansInFront([span], rest);
    }
  }

  lemma {:induction false} SpansOfFilled(lines: seq<seq<Node>>)
    ensures AllSpans(Filled(lines)) == AllSpans(lines)
  {
    if lines != [] {
      SpansOfFilled(lines[1..]);
      assert [TextNode("")][1..] == [];
      assert SpansOf([TextNode("")]) == [];
      SpansFirst(if lines[0] == [] then [TextNode("")] else lines[0], Filled(lines[1..]));
    }
  }

  // ---------- How many lines there are ----------

  /** There is one line of nodes for each line of the text, and it has nodes exactly when that
      line is not empty. */
  predicate SameLines(lines: seq<seq<Node>>, texts: seq<string>) {
    |lines| == |texts| && forall i :: 0 <= i < |lines| ==> (lines[i] == [] <==> texts[i] == "")
  }

  lemma SameInFront(v: seq<Node>, p: string, lines: seq<seq<Node>>, texts: seq<string>)
    requires lines != [] && texts != [] && SameLines(lines, texts) && (v == [] <==> p == "")
    ensures SameLines([v + lines[0]] + lines[1..], [p + texts[0]] + texts[1..])
  {
    var l, t := [v + lines[0]] + lines[1..], [p + texts[0]] + texts[1..];
    forall i | 0 <= i < |l|
      ensures l[i] == [] <==> t[i] == ""
    {
      if i > 0 {
        assert l[i] == lines[i] && t[i] == texts[i];
      }
    }
  }

  lemma SameAcross(v: seq<Node>, p: string, lines: seq<seq<Node>>, texts: seq<string>)
    requires SameLines(lines, texts) && (v == [] <==> p == "")
    ensures SameLines([v] + lines, [p] + texts)
  {
    var l, t := [v] + lines, [p] + texts;
    forall i | 0 <= i < |l|
      ensures l[i] == [] <==> t[i] == ""
    {
      if i > 0 {
        assert l[i] == lines[i - 1] && t[i] == texts[i - 1];
      }
    }
  }

  lemma {:induction false} SameOfText(text: string, lines: seq<seq<Node>>, rest: string)
    requires lines != [] && SameLines(lines, SplitLines(rest))
    ensures SameLines(LayText(text, lines), SplitLines(text + rest))
    decreases |text|
  {
    assert forall s :: Piece(s) == [] <==> s == "";
    hide SameLines, SplitLines, LayText, Piece;
    if '\n' in text {
      var a, b := LayBroken(text, lines);
      SameOfText(b, lines, rest);
      SplitNewline(a, b + rest);
      Group(a + "\n", b, rest);
      SameAcross(Piece(a), a, LayText(b, lines), SplitLines(b + rest));
    } else {
      LayUnbroken(text, lines);
      SplitPrefix(text, rest);
      SameInFront(Piece(text), text, lines, SplitLines(rest));
    }
  }

  predicate TokensNotEmpty(segs: seq<Segment>) {
    forall i :: 0 <= i < |segs| && segs[i].Token? ==> segs[i].text != ""
  }

  lemma {:induction false} LaidLines(segs: seq<Segment>)
    requires TokensOnOneLine(segs) && TokensNotEmpty(segs)
    ensures SameLines(Lay(segs), SplitLines(TextOf(segs)))
  {
    if segs == [] {
    } else {
      var rest := segs[1..];
      assert forall i :: 0 <= i < |rest| ==> rest[i] == segs[i + 1];
      LaidLines(rest);
      var text := segs[0].text;
      hide SameLines, SplitLines, LayText, Respelled;
      if segs[0].Gap? {
        SameOfText(text, Lay(rest), TextOf(rest));
      } else {
        assert text != "" && '\n' !in text;
        SplitPrefix(text, TextOf(rest));
        SameInFront([SpanNode(segs[0].kind, Respelled(text))], text, Lay(rest), SplitLines(TextOf(rest)));
      }
    }
  }

  lemma {:induction false} SegmentsNotEmpty(code: string, from: nat, matches: seq<Match>)
    requires from <= |code| && Ordered(code, from, matches)
    ensures TokensNotEmpty(Segments(code, from, matches))
    decreases |matches|
  {
    if matches != [] {
      SegmentsStep(code, from, matches);
      hide Segments, Ordered, GapBefore, Kind;
      var m := matches[0];
      var next := m.index + m.length;
      SegmentsNotEmpty(code, next, matches[1..]);
      NotEmptyAppend(GapBefore(code, from, m.index), Token(m.kind, code[m.index..next]),
                     Segments(code, next, matches[1..]));
    }
  }

  lemma NotEmptyAppend(gap: seq<Segment>, token: Segment, rest: seq<Segment>)
    requires |gap| <= 1 && (forall i :: 0 <= i < |gap| ==> gap[i].Gap?) && token.text != "" && TokensNotEmpty(rest)
    ensures TokensNotEmpty(gap + ([token] + rest))
  {
    var segs := gap + ([token] + rest);
    forall i | 0 <= i < |segs| && segs[i].Token?
      ensures segs[i].text != ""
    {
      if i > |gap| {
        assert segs[i] == rest[i - |gap| - 1];
      }
    }
  }

  /** For every code in which no token spans lines: the lines of nodes are those its pieces stand
      for, one for each line of the code, an empty one holding one empty text; and their spans,
      in order, are exactly the tokens with their kinds. */
  lemma NodesOfCode(code: string, matches: seq<Match>)
    requires Ordered(code, 0, matches) && TokensOnOneLine(Segments(code, 0, matches))
    ensures var segs := Segments(code, 0, matches); var lines := AllLines(SplitLines(PrintAll(segs)));
      && lines == Filled(Lay(segs))
      && AllSpans(lines) == TokenNodes(segs) == MatchNodes(code, 0, matches)
      && |lines| == |SplitLines(code)|
      && forall i :: 0 <= i < |lines| ==> (SplitLines(code)[i] == "" ==> lines[i] == [TextNode("")])
  {
    SegmentsAlternate(code, 0, matches);
    SegmentsNotEmpty(code, 0, matches);
    SegmentsAreCode(code, 0, matches);
    TokensAreMatches(code, 0, matches);
    assert code[0..] == code;
    var segs := Segments(code, 0, matches);
    hide MatchNodes, Segments, Alternating, TokensOnOneLine, TokensNotEmpty, PrintAll, Lay, SplitLines;
    hide ParseAll, AllLines, TextOf;
    hide AllSpans, TokenNodes, Ordered;
    LaidOut(segs);
    FilledLines(SplitLines(PrintAll(segs)));
    SpansAreTokens(segs);
    SpansOfFilled(Lay(segs));
    LaidLines(segs);
  }

  lemma RecoveredLines(html: string)
    ensures JoinLines(AllLines(SplitLines(html))) == Recovered(html)
  {
  }

  /** `highlightZeroxToHast`. */
  method HighlightZeroxToHast(code: string, matches: seq<Match>) returns (lines: seq<seq<Node>>)
    requires Ordered(code, 0, matches)
    ensures lines == AllLines(SplitLines(PrintAll(Segments(code, 0, matches))))
    ensures JoinLines(lines) == AllShown(Segments(code, 0, matches))
    ensures JoinLines(lines) == code <==> AllFaithful(Segments(code, 0, matches))
    ensures TokensOnOneLine(Segments(code, 0, matches)) ==>
      && lines == Filled(Lay(Segments(code, 0, matches)))
      && AllSpans(lines) == MatchNodes(code, 0, matches)
      && |lines| == |SplitLines(code)|
      && forall i :: 0 <= i < |lines| && SplitLines(code)[i] == "" ==> lines[i] == [TextNode("")]
  {
    var html := HighlightCode(code, matches);
    var parts := SplitLines(html);
    hide PrintAll, Segments, SplitLines, ParseLine, Ordered, AllShown, AllFaithful, JoinLines, Recovered;
    hide TokensOnOneLine, Lay, AllSpans, MatchNodes, Filled;
    lines := [];
    assert parts[0..] == parts;
    for li := 0 to |parts|
      invariant lines + AllLines(parts[li..]) == AllLines(parts)
    {
      assert parts[li..][1..] == parts[li + 1..];
      var tokens := ReadLine(parts[li]);
      lines := lines + [if tokens == [] then [TextNode("")] else tokens];
    }
    assert parts[|parts|..] == [];
    assert lines == AllLines(parts);
    RecoveredLines(html);
    ShownOfCode(code, matches);
    RoundTrip(code, matches);
    if TokensOnOneLine(Segments(code, 0, matches)) {
      NodesOfCode(code, matches);
    }
  }
}
