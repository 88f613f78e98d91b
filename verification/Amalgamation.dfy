/** `AmalgamationHeader`: flattening the headers into one, includes first, each line once. */
module Amalgamation {
  import opened Text

  type Name = string
  type Files = map<Name, seq<string>>

  /** Where an emitted line comes from. */
  datatype Origin = Origin(file: Name, index: nat)

  // ---------- What a line is ----------

  const BOTAN_INCLUDE := "#include <botan/"
  const ANY_INCLUDE := "#include <"

  /** The header a line includes from Botan, anywhere in the line; "" when there is none. */
  function BotanIncludeOf(line: string): string {
    var start := Find(line, BOTAN_INCLUDE) + |BOTAN_INCLUDE|;
    var end := FindLast(line, '>');
    if start <= end < |line| then line[start..end] else ""
  }

  /** The length of the longest prefix with neither '/' nor '.'. */
  function PlainRun(s: string): (n: nat)
    ensures n <= |s|
  {
    if s == "" || s[0] == '/' || s[0] == '.' then 0 else 1 + PlainRun(s[1..])
  }

  /** The standard header a line includes unconditionally, that is from its first column. */
  function StdIncludeOf(line: string): string {
    if !(ANY_INCLUDE <= line) then ""
    else
      var tail := line[|ANY_INCLUDE|..];
      var run := tail[..PlainRun(tail)];
      var end := FindLast(run, '>');
      if 0 < end < |run| then run[..end]
      else if |tail| >= 9 && "stddef" <= tail && tail[6] != '\n' && tail[7] == 'h' && tail[8] == '>' then tail[..8]
      else ""
  }

  /** The lines that are emitted: neither kind of include. */
  predicate Kept(line: string) {
    BotanIncludeOf(line) == "" && StdIncludeOf(line) == ""
  }

  function Normalize(name: Name): Name {
    ReplaceAll(name, "internal/", "")
  }

  predicate IsDeprecated(files: Files, name: Name)
    requires name in files
  {
    ("BOTAN_DEPRECATED_HEADER(" + name + ")\n") in files[name]
  }

  /** The headers whose lines go into the amalgamation. */
  predicate Live(files: Files, name: Name) {
    name in files && !IsDeprecated(files, name)
  }

  // ---------- What an include line includes ----------

  /** The first place where the pattern fits is where Find finds it. */
  lemma FindFirst(p: string, t: string, pattern: string)
    requires pattern != "" && pattern <= t
    requires forall j :: 0 <= j < |p| ==> !(pattern <= (p + t)[j..])
    ensures Find(p + t, pattern) == |p|
  {
    assert (p + t)[|p|..] == t;
  }

  lemma LastAt(s: string, c: char, i: nat)
    requires i < |s| && s[i] == c && c !in s[i + 1..]
    ensures FindLast(s, c) == i
  {
    hide FindLast;
    var k := FindLast(s, c);
    assert i <= k < |s| && s[k] == c;
    forall j | i < j < |s|
      ensures s[j] != c
    {
      assert s[i + 1..][j - i - 1] == s[j];
    }
  }

  lemma AtSeam(a: string, c: char, b: string)
    ensures var s := a + [c] + b; |a| < |s| && s[|a|] == c && s[|a| + 1..] == b
  {
  }

  lemma FindLastIs(a: string, c: char, b: string)
    requires c !in b
    ensures FindLast(a + [c] + b, c) == |a|
  {
    hide FindLast;
    AtSeam(a, c, b);
    LastAt(a + [c] + b, c, |a|);
  }

  /** A line that includes a Botan header, wherever in the line it does so, includes the header
      named between "botan/" and the last ">". */
  lemma BotanIncludeIs(p: string, name: string, rest: string)
    requires name != "" && '>' !in rest
    requires forall j :: 0 <= j < |p| ==> !("#include <botan/" <= (p + ("#include <botan/" + name + ">" + rest))[j..])
    ensures BotanIncludeOf(p + ("#include <botan/" + name + ">" + rest)) == name
  {
    var open := "#include <botan/";
    var t := open + name + ">" + rest;
    var line := p + t;
    FindFirst(p, t, open);
    NamedBetween(p, open, name, rest);
  }

  lemma NamedBetween(p: string, open: string, name: string, rest: string)
    requires '>' !in rest
    ensures var line := p + (open + name + ">" + rest);
      FindLast(line, '>') == |p| + |open| + |name| < |line| && line[|p| + |open|..|p| + |open| + |name|] == name
  {
    var line := p + (open + name + ">" + rest);
    assert line == p + open + name + ['>'] + rest;
    FindLastIs(p + open + name, '>', rest);
  }

  /** Any other line includes none. */
  lemma NoBotanInclude(line: string)
    requires forall j :: 0 <= j <= |line| ==> !("#include <botan/" <= line[j..])
    ensures BotanIncludeOf(line) == ""
  {
    var i := Find(line, "#include <botan/");
    assert i == |line|;
  }

  lemma {:induction false} PlainRunIs(s: string, rest: string)
    requires '/' !in s && '.' !in s && (rest == "" || rest[0] == '/' || rest[0] == '.')
    ensures PlainRun(s + rest) == |s|
  {
    if s == "" {
      assert s + rest == rest;
    } else {
      assert (s + rest)[1..] == s[1..] + rest;
      PlainRunIs(s[1..], rest);
    }
  }

  lemma {:induction false} PlainRunSplit(s: string)
    ensures var n := PlainRun(s);
      '/' !in s[..n] && '.' !in s[..n] && (s[n..] == "" || s[n] == '/' || s[n] == '.')
  {
    if s != "" && s[0] != '/' && s[0] != '.' {
      PlainRunSplit(s[1..]);
      assert s[..PlainRun(s)] == [s[0]] + s[1..][..PlainRun(s[1..])];
    }
  }

  /** A line that begins with the include of a plain name includes that standard header. */
  lemma StdIncludeIs(name: string, rest: string)
    requires name != "" && '/' !in name && '.' !in name && '>' !in rest
    ensures StdIncludeOf("#include <" + name + ">" + rest) == name
  {
    var open := "#include <";
    var line := open + name + ">" + rest;
    var tail := name + ">" + rest;
    assert line == open + tail;
    assert line[|open|..] == tail && open <= line;
    var n := PlainRun(rest);
    PlainRunSplit(rest);
    var a := name + ">" + rest[..n];
    assert tail == a + rest[n..];
    PlainRunIs(a, rest[n..]);
    assert tail[..|a|] == a;
    FindLastIs(name, '>', rest[..n]);
    assert a == name + ['>'] + rest[..n];
    assert a[..|name|] == name;
  }

  /** So does one that begins with the include of stddef.h, the one name with a dot; the
      expression takes a slash for the dot as well. */
  lemma StddefIncludeIs(c: char, rest: string)
    requires c == '.' || c == '/'
    ensures StdIncludeOf("#include <stddef" + [c] + "h>" + rest) == "stddef" + [c] + "h"
  {
    var open := "#include <";
    var tail := "stddef" + ([c] + "h>" + rest);
    var line := "#include <stddef" + [c] + "h>" + rest;
    assert line == open + tail;
    assert line[|open|..] == tail && open <= line;
    var name := "stddef";
    PlainRunIs(name, [c] + "h>" + rest);
    assert tail[..6] == name;
    assert '>' !in name;
    assert tail[6] == c && tail[7] == 'h' && tail[8] == '>' && tail[..8] == "stddef" + [c] + "h";
  }

  /** No other name with a slash or a dot is one, and nothing behind the first column is. */
  lemma NoStdInclude(name: string, c: char, rest: string)
    requires '/' !in name && '.' !in name && '>' !in name && (c == '/' || c == '.')
    requires name == "stddef" ==> !("h>" <= rest)
    ensures StdIncludeOf("#include <" + name + [c] + rest) == ""
  {
    var open := "#include <";
    var tail := name + ([c] + rest);
    var line := open + name + [c] + rest;
    assert line == open + tail;
    assert line[|open|..] == tail && open <= line;
    PlainRunIs(name, [c] + rest);
    assert tail[..|name|] == name;
    if "stddef" <= tail && |tail| >= 9 {
      if name == "stddef" {
        assert tail[7..9] == rest[..2];
      } else {
        StddefRun(tail, name);
      }
    }
  }

  lemma StddefRun(tail: string, name: string)
    requires name <= tail && |name| < |tail| && (tail[|name|] == '/' || tail[|name|] == '.')
    requires '/' !in name && '.' !in name && '>' !in name && name != "stddef" && "stddef" <= tail && |tail| >= 9
    ensures !(tail[7] == 'h' && tail[8] == '>')
  {
    var s := "stddef";
    var rest := tail[|name|..];
    assert tail == name + rest && tail == s + tail[6..];
    PlainRunIs(name, rest);
    PlainRunAfter(s, tail[6..]);
    assert name == tail[..|name|];
    assert |name| == 6 ==> name == s;
    assert |name| > 8 ==> tail[8] == name[8] != '>';
  }

  lemma {:induction false} PlainRunAfter(s: string, rest: string)
    requires '/' !in s && '.' !in s
    ensures PlainRun(s + rest) == |s| + PlainRun(rest)
  {
    if s == "" {
      assert s + rest == rest;
    } else {
      assert (s + rest)[1..] == s[1..] + rest;
      PlainRunAfter(s[1..], rest);
    }
  }

  lemma NotInFirstColumn(line: string)
    requires !("#include <" <= line)
    ensures StdIncludeOf(line) == ""
  {
  }

  /** The directory of internal headers is not part of a header's name. */
  lemma NormalizeInternal(name: Name)
    requires forall j :: 0 <= j <= |name| ==> !("internal/" <= name[j..])
    ensures Normalize("internal/" + name) == name && Normalize(name) == name
  {
    var dir := "internal/";
    NothingToReplace(name, dir);
    assert (dir + name)[|dir|..] == name;
  }

  lemma {:induction false} NothingToReplace(s: string, pattern: string)
    requires pattern != "" && forall j :: 0 <= j <= |s| ==> !(pattern <= s[j..])
    ensures ReplaceAll(s, pattern, "") == s
    decreases |s|
  {
    if s != "" {
      assert s[0..] == s;
      assert forall j :: 0 <= j <= |s[1..]| ==> s[1..][j..] == s[j + 1..];
      NothingToReplace(s[1..], pattern);
    }
  }

  // ---------- The expansion ----------

  /** The lines emitted for one header, given the headers included already, and the headers
      included afterwards.  Include cycles end because the header is marked first. */
  function Expand(files: Files, raw: Name, included: set<Name>): (r: (seq<Origin>, set<Name>))
    ensures included <= r.1 && Normalize(raw) in r.1
    decreases files.Keys - included, 0
  {
    var name := Normalize(raw);
    if name in included then ([], included)
    else if !Live(files, name) then ([], included + {name})
    else
      assert name in files.Keys - included;
      ExpandLines(files, name, 0, included + {name})
  }

  function ExpandLines(files: Files, name: Name, i: nat, included: set<Name>): (r: (seq<Origin>, set<Name>))
    requires name in files && i <= |files[name]|
    ensures included <= r.1
    decreases files.Keys - included, 1 + |files[name]| - i
  {
    if i == |files[name]| then ([], included)
    else
      var line := files[name][i];
      var header := BotanIncludeOf(line);
      if header != "" then
        var (before, included') := Expand(files, header, included);
        assert files.Keys - included' <= files.Keys - included;
        var (after, included'') := ExpandLines(files, name, i + 1, included');
        (before + after, included'')
      else
        var (after, included') := ExpandLines(files, name, i + 1, included);
        (if Kept(line) then [Origin(name, i)] + after else after, included')
  }

  /** All headers, one after the other. */
  function ExpandAll(files: Files, names: seq<Name>, included: set<Name>): (r: (seq<Origin>, set<Name>))
    ensures included <= r.1
  {
    if names == [] then ([], included)
    else
      var (first, included') := Expand(files, names[0], included);
      var (rest, included'') := ExpandAll(files, names[1..], included');
      (first + rest, included'')
  }

  // ---------- Conservation: every line of every live header exactly once, in order ----------

  /** The line numbers of f in a trace, in the order they appear. */
  function Restrict(trace: seq<Origin>, f: Name): seq<nat> {
    if trace == [] then []
    else (if trace[0].file == f then [trace[0].index] else []) + Restrict(trace[1..], f)
  }

  /** The numbers of the kept lines of f from line i on, in increasing order. */
  function KeptFrom(files: Files, f: Name, i: nat): seq<nat>
    requires f in files && i <= |files[f]|
    decreases |files[f]| - i
  {
    if i == |files[f]| then []
    else (if Kept(files[f][i]) then [i] else []) + KeptFrom(files, f, i + 1)
  }

  /** All kept lines of a live header; nothing of any other. */
  function AllOf(files: Files, f: Name): seq<nat> {
    if Live(files, f) then KeptFrom(files, f, 0) else []
  }

  lemma {:induction false} RestrictAppend(s: seq<Origin>, t: seq<Origin>, f: Name)
    ensures Restrict(s + t, f) == Restrict(s, f) + Restrict(t, f)
  {
    if s == [] {
      assert s + t == t;
    } else {
      var head := if s[0].file == f then [s[0].index] else [];
      var u := s[1..] + t;
      assert s + t == [s[0]] + u;
      RestrictAppend(s[1..], t, f);
      assert Restrict(s + t, f) == head + Restrict(u, f);
    }
  }

  /** One header: exactly the newly included live headers are emitted, each completely. */
  lemma {:induction false} ExpandConserves(files: Files, raw: Name, included: set<Name>, f: Name)
    ensures var (trace, included') := Expand(files, raw, included);
      Restrict(trace, f) == if f in included' - included then AllOf(files, f) else []
    decreases files.Keys - included, 0
  {
    var name := Normalize(raw);
    if name !in included && Live(files, name) {
      assert name in files.Keys - included;
      ExpandLinesConserves(files, name, 0, included + {name}, f);
    }
  }

  lemma {:induction false} ExpandLinesConserves(files: Files, name: Name, i: nat, included: set<Name>, f: Name)
    requires name in files && i <= |files[name]| && name in included
    ensures var (trace, included') := ExpandLines(files, name, i, included);
      Restrict(trace, f) ==
        if f == name then KeptFrom(files, name, i)
        else if f in included' - included then AllOf(files, f) else []
    decreases files.Keys - included, 1 + |files[name]| - i
  {
    if i < |files[name]| {
      var line := files[name][i];
      var header := BotanIncludeOf(line);
      if header != "" {
        var (before, included') := Expand(files, header, included);
        assert files.Keys - included' <= files.Keys - included;
        var (after, included'') := ExpandLines(files, name, i + 1, included');
        ExpandConserves(files, header, included, f);
        ExpandLinesConserves(files, name, i + 1, included', f);
        RestrictAppend(before, after, f);
      } else {
        ExpandLinesConserves(files, name, i + 1, included, f);
        var after := ExpandLines(files, name, i + 1, included).0;
        assert Kept(line) ==> ([Origin(name, i)] + after)[1..] == after;
      }
    }
  }

  lemma {:induction false} ExpandAllConserves(files: Files, names: seq<Name>, included: set<Name>, f: Name)
    ensures var (trace, included') := ExpandAll(files, names, included);
      && Restrict(trace, f) == (if f in included' - included then AllOf(files, f) else [])
      && forall n :: n in names ==> Normalize(n) in included'
  {
    if names != [] {
      var (first, included') := Expand(files, names[0], included);
      var (rest, included'') := ExpandAll(files, names[1..], included');
      ExpandConserves(files, names[0], included, f);
      ExpandAllConserves(files, names[1..], included', f);
      RestrictAppend(first, rest, f);
    }
  }

  /** Conservation: with every file name listed, the amalgamation contains every kept line of
      every live header exactly once and in order, and nothing else; cycles do not matter. */
  lemma Conservation(files: Files, names: seq<Name>, f: Name)
    requires forall n :: n in files ==> n in names && Normalize(n) == n
    ensures Restrict(ExpandAll(files, names, {}).0, f) == AllOf(files, f)
  {
    ExpandAllConserves(files, names, {}, f);
  }

  /** The reference list read declaratively: strictly increasing, and holding exactly the
      numbers of the kept lines. */
  lemma {:induction false} KeptFromMeaning(files: Files, f: Name, i: nat)
    requires f in files && i <= |files[f]|
    ensures var k := KeptFrom(files, f, i);
      && (forall j :: j in k <==> i <= j < |files[f]| && Kept(files[f][j]))
      && (forall a, b :: 0 <= a < b < |k| ==> k[a] < k[b])
    decreases |files[f]| - i
  {
    hide Kept;
    if i < |files[f]| {
      KeptFromMeaning(files, f, i + 1);
      var rest := KeptFrom(files, f, i + 1);
      forall a | 0 <= a < |rest|
        ensures i < rest[a]
      {
        assert rest[a] in rest;
      }
    }
  }

  // ---------- Order: dependencies first ----------

  /** Line i of header a includes the live header b. */
  predicate Includes(files: Files, a: Name, i: nat, b: Name) {
    && a in files && i < |files[a]| && BotanIncludeOf(files[a][i]) != ""
    && b == Normalize(BotanIncludeOf(files[a][i])) && Live(files, b)
  }

  /** Includes are acyclic: a rank falls along every include. */
  ghost predicate Acyclic(files: Files, rank: map<Name, nat>) {
    forall a, i, b :: Includes(files, a, i, b) && Live(files, a) ==> a in rank && b in rank && rank[b] < rank[a]
  }

  /** Everything header b contributes has been emitted in the trace. */
  predicate Complete(files: Files, trace: seq<Origin>, b: Name) {
    Restrict(trace, b) == AllOf(files, b)
  }

  /** s holds whatever its live members include. */
  ghost predicate IncludeClosed(files: Files, s: set<Name>) {
    forall a, i, b :: a in s && Live(files, a) && Includes(files, a, i, b) ==> b in s
  }

  /** Including b brings in c, directly or through any number of further headers. */
  ghost predicate BringsIn(files: Files, b: Name, c: Name) {
    forall s :: b in s && IncludeClosed(files, s) ==> c in s
  }

  /** It is the reflexive and transitive closure of inclusion through live headers. */
  lemma BringsInFurther(files: Files, b: Name, c: Name, j: nat, d: Name)
    requires BringsIn(files, b, c) && Live(files, c) && Includes(files, c, j, d)
    ensures BringsIn(files, b, b) && BringsIn(files, b, d)
  {
    hide Includes, IsDeprecated;
    forall s | b in s && IncludeClosed(files, s)
      ensures d in s
    {
      assert c in s;
    }
  }

  /** Every header that an include of a before line j brings in is complete in the trace. */
  ghost predicate IncludesComplete(files: Files, trace: seq<Origin>, a: Name, j: nat) {
    forall i, b, c :: 0 <= i < j && Includes(files, a, i, b) && BringsIn(files, b, c) ==> Complete(files, trace, c)
  }

  /** Every header that a includes before line j has been expanded to its end. */
  ghost predicate IncludesDone(files: Files, done: set<Name>, a: Name, j: nat) {
    forall i, b :: 0 <= i < j && Includes(files, a, i, b) ==> b in done
  }

  /** Whenever a line is emitted, all headers that the includes above it bring in are
      complete already. */
  ghost predicate DependenciesFirst(files: Files, trace: seq<Origin>) {
    forall q :: 0 <= q < |trace| ==> IncludesComplete(files, trace[..q], trace[q].file, trace[q].index)
  }

  /** The state of the traversal: `open` are the headers being expanded, everything else that
      is marked is complete. */
  ghost predicate Settled(files: Files, trace: seq<Origin>, included: set<Name>, open: set<Name>) {
    forall f :: f in included - open ==> Complete(files, trace, f)
  }

  /** Complete headers stay complete: nothing more of them is emitted. */
  lemma SettledAfter(files: Files, raw: Name, included: set<Name>, open: set<Name>, prefix: seq<Origin>)
    requires Settled(files, prefix, included, open) && open <= included
    requires forall f :: f !in included ==> Restrict(prefix, f) == []
    ensures var (t, included') := Expand(files, raw, included);
      && Settled(files, prefix + t, included', open)
      && (forall f :: f !in included' ==> Restrict(prefix + t, f) == [])
      && (forall f :: f in included && Complete(files, prefix, f) ==> Complete(files, prefix + t, f))
  {
    var (t, included') := Expand(files, raw, included);
    forall f
      ensures Restrict(prefix + t, f) == Restrict(prefix, f) + if f in included' - included then AllOf(files, f) else []
    {
      RestrictAppend(prefix, t, f);
      ExpandConserves(files, raw, included, f);
    }
    forall f | f in included' - open
      ensures Complete(files, prefix + t, f)
    {
      if f in included {
        assert Complete(files, prefix, f);
      } else {
        assert Restrict(prefix, f) == [];
      }
    }
  }

  lemma DependenciesFirstAppend(files: Files, prefix: seq<Origin>, o: Origin)
    requires DependenciesFirst(files, prefix) && IncludesComplete(files, prefix, o.file, o.index)
    ensures DependenciesFirst(files, prefix + [o])
  {
    var trace := prefix + [o];
    forall q | 0 <= q < |trace|
      ensures IncludesComplete(files, trace[..q], trace[q].file, trace[q].index)
    {
      if q < |prefix| {
        assert trace[..q] == prefix[..q];
      } else {
        assert trace[..q] == prefix;
      }
    }
  }

  /** The ranks of all open headers are above that of the header about to be expanded. */
  ghost predicate Below(rank: map<Name, nat>, name: Name, open: set<Name>) {
    forall o :: o in open ==> o in rank && name in rank && rank[name] < rank[o]
  }

  /** Expanding a header expands, to their ends, all headers it brings in: the headers marked
      and not open stay closed under includes. */
  lemma {:induction false} ExpandCloses(files: Files, rank: map<Name, nat>, raw: Name, included: set<Name>,
                                        open: set<Name>)
    requires Acyclic(files, rank) && open <= included
    requires Live(files, Normalize(raw)) ==> Below(rank, Normalize(raw), open)
    requires IncludeClosed(files, included - open)
    ensures IncludeClosed(files, Expand(files, raw, included).1 - open)
    decreases files.Keys - included, 0
  {
    var name := Normalize(raw);
    ExpandUnfold(files, raw, included);
    if name in included {
    } else if !Live(files, name) {
      hide Expand, Includes;
      assert forall f :: f in included + {name} - open && Live(files, f) ==> f in included - open;
    } else {
      hide Expand, ExpandLines, Acyclic, Below, Includes, IsDeprecated, Normalize;
      assert name in files.Keys - included;
      assert included + {name} - (open + {name}) == included - open;
      BelowOpened(rank, name, open);
      ExpandLinesCloses(files, rank, name, 0, included + {name}, open + {name});
      CloseHeader(files, name, ExpandLines(files, name, 0, included + {name}).1, open);
    }
  }

  lemma BelowOpened(rank: map<Name, nat>, name: Name, open: set<Name>)
    requires Below(rank, name, open)
    ensures Below(rank, name, open + {name} - {name}) && name !in open
  {
  }

  lemma CloseHeader(files: Files, name: Name, marked: set<Name>, open: set<Name>)
    requires name in files && name in marked && name !in open
    requires IncludeClosed(files, marked - (open + {name}))
    requires IncludesDone(files, marked - (open + {name}), name, |files[name]|)
    ensures IncludeClosed(files, marked - open)
  {
    hide BotanIncludeOf, Normalize, IsDeprecated;
    assert marked - open == marked - (open + {name}) + {name};
  }

  lemma {:induction false} ExpandLinesCloses(files: Files, rank: map<Name, nat>, name: Name, i: nat,
                                             included: set<Name>, open: set<Name>)
    requires Acyclic(files, rank) && name in open && open <= included && Live(files, name) && i <= |files[name]|
    requires Below(rank, name, open - {name})
    requires IncludeClosed(files, included - open) && IncludesDone(files, included - open, name, i)
    ensures var marked := ExpandLines(files, name, i, included).1;
      IncludeClosed(files, marked - open) && IncludesDone(files, marked - open, name, |files[name]|)
    decreases files.Keys - included, 1 + |files[name]| - i
  {
    hide Expand, ExpandLines, Acyclic, Below, Includes, IsDeprecated, Normalize, BotanIncludeOf, IncludeClosed,
         IncludesDone;
    if i == |files[name]| {
      ExpandLinesFinish(files, name, included);
    } else {
      var header := BotanIncludeOf(files[name][i]);
      ExpandLinesIncluded(files, name, i, included);
      if header != "" {
        var included' := Expand(files, header, included).1;
        assert files.Keys - included' <= files.Keys - included;
        IncludeBelow(files, rank, name, i, open);
        ExpandCloses(files, rank, header, included, open);
        DoneAtInclude(files, rank, name, i, included, included', open);
        ExpandLinesCloses(files, rank, name, i + 1, included', open);
      } else {
        DoneAtText(files, name, i, included - open);
        ExpandLinesCloses(files, rank, name, i + 1, included, open);
      }
    }
  }

  lemma DoneAtInclude(files: Files, rank: map<Name, nat>, name: Name, i: nat, included: set<Name>,
                      included': set<Name>, open: set<Name>)
    requires Live(files, name) && i < |files[name]| && IncludesDone(files, included - open, name, i)
    requires var b := Normalize(BotanIncludeOf(files[name][i]));
      included <= included' && b in included' && (Live(files, b) ==> Below(rank, b, open))
    ensures IncludesDone(files, included' - open, name, i + 1)
  {
    hide BotanIncludeOf, Normalize, IsDeprecated;
  }

  lemma DoneAtText(files: Files, name: Name, i: nat, done: set<Name>)
    requires Live(files, name) && i < |files[name]| && IncludesDone(files, done, name, i)
    requires BotanIncludeOf(files[name][i]) == ""
    ensures IncludesDone(files, done, name, i + 1)
  {
    hide BotanIncludeOf, Normalize, IsDeprecated;
  }

  /** When the included headers are done, all they bring in is complete. */
  lemma DoneIsComplete(files: Files, prefix: seq<Origin>, included: set<Name>, open: set<Name>, name: Name, i: nat)
    requires Settled(files, prefix, included, open) && IncludeClosed(files, included - open)
    requires IncludesDone(files, included - open, name, i)
    ensures IncludesComplete(files, prefix, name, i)
  {
    hide Includes, Complete, IncludeClosed;
    var done := included - open;
    forall j, b, c | 0 <= j < i && Includes(files, name, j, b) && BringsIn(files, b, c)
      ensures Complete(files, prefix, c)
    {
      assert b in done;
      assert c in done;
    }
  }

  lemma {:induction false} ExpandOrdered(files: Files, rank: map<Name, nat>, raw: Name, included: set<Name>,
                                         open: set<Name>, prefix: seq<Origin>)
    requires Acyclic(files, rank) && open <= included
    requires Live(files, Normalize(raw)) ==> Below(rank, Normalize(raw), open)
    requires Settled(files, prefix, included, open) && IncludeClosed(files, included - open)
    requires DependenciesFirst(files, prefix)
    requires forall f :: f !in included ==> Restrict(prefix, f) == []
    ensures DependenciesFirst(files, prefix + Expand(files, raw, included).0)
    decreases files.Keys - included, 0
  {
    var name := Normalize(raw);
    ExpandUnfold(files, raw, included);
    if name in included || !Live(files, name) {
      assert prefix + [] == prefix;
    } else {
      hide Expand, ExpandLines, Acyclic, Includes, IncludeClosed, DependenciesFirst, IsDeprecated, Normalize;
      assert name in files.Keys - included;
      BelowOpened(rank, name, open);
      assert included + {name} - (open + {name}) == included - open;
      ExpandLinesOrdered(files, rank, name, 0, included + {name}, open + {name}, prefix);
    }
  }

  lemma {:induction false} ExpandLinesOrdered(files: Files, rank: map<Name, nat>, name: Name, i: nat,
                                              included: set<Name>, open: set<Name>, prefix: seq<Origin>)
    requires Acyclic(files, rank) && name in open && open <= included && Live(files, name) && i <= |files[name]|
    requires Below(rank, name, open - {name})
    requires Settled(files, prefix, included, open) && IncludeClosed(files, included - open)
    requires DependenciesFirst(files, prefix) && IncludesDone(files, included - open, name, i)
    requires forall f :: f !in included ==> Restrict(prefix, f) == []
    ensures DependenciesFirst(files, prefix + ExpandLines(files, name, i, included).0)
    decreases files.Keys - included, 1 + |files[name]| - i
  {
    hide Expand, ExpandLines, Settled, DependenciesFirst, IncludesComplete, IncludesDone, IncludeClosed, Acyclic,
         Normalize, BotanIncludeOf, Kept, IsDeprecated, Below, Includes;
    if i == |files[name]| {
      ExpandLinesAtEnd(files, name, included);
      assert prefix + [] == prefix;
    } else {
      var header := BotanIncludeOf(files[name][i]);
      if header != "" {
        ExpandLinesAtInclude(files, name, i, included);
        var (before, included') := Expand(files, header, included);
        assert files.Keys - included' <= files.Keys - included;
        IncludeBelow(files, rank, name, i, open);
        ExpandOrdered(files, rank, header, included, open, prefix);
        SettledAfter(files, header, included, open, prefix);
        ExpandCloses(files, rank, header, included, open);
        DoneAtInclude(files, rank, name, i, included, included', open);
        ExpandLinesOrdered(files, rank, name, i + 1, included', open, prefix + before);
        var after := ExpandLines(files, name, i + 1, included').0;
        assert prefix + (before + after) == prefix + before + after;
      } else {
        ExpandLinesAtText(files, name, i, included);
        var o := Origin(name, i);
        var after := ExpandLines(files, name, i + 1, included).0;
        DoneAtText(files, name, i, included - open);
        if Kept(files[name][i]) {
          DoneIsComplete(files, prefix, included, open, name, i);
          EmitLine(files, name, i, included, open, prefix);
          DependenciesFirstAppend(files, prefix, o);
          ExpandLinesOrdered(files, rank, name, i + 1, included, open, prefix + [o]);
          assert prefix + ([o] + after) == prefix + [o] + after;
        } else {
          ExpandLinesOrdered(files, rank, name, i + 1, included, open, prefix);
          assert [] + after == after;
        }
      }
    }
  }

  lemma IncludeBelow(files: Files, rank: map<Name, nat>, name: Name, i: nat, open: set<Name>)
    requires Acyclic(files, rank) && Below(rank, name, open - {name}) && Live(files, name) && i < |files[name]|
    requires BotanIncludeOf(files[name][i]) != ""
    ensures var b := Normalize(BotanIncludeOf(files[name][i])); Live(files, b) ==> Below(rank, b, open)
  {
    hide BotanIncludeOf, Normalize, IsDeprecated;
    var b := Normalize(BotanIncludeOf(files[name][i]));
    assert Live(files, b) ==> Includes(files, name, i, b);
  }

  lemma ExpandLinesAtInclude(files: Files, name: Name, i: nat, included: set<Name>)
    requires name in files && i < |files[name]| && BotanIncludeOf(files[name][i]) != ""
    ensures var (before, included') := Expand(files, BotanIncludeOf(files[name][i]), included);
      ExpandLines(files, name, i, included).0 == before + ExpandLines(files, name, i + 1, included').0
  {
    hide BotanIncludeOf, StdIncludeOf, Expand, Kept;
  }

  lemma ExpandLinesAtText(files: Files, name: Name, i: nat, included: set<Name>)
    requires name in files && i < |files[name]| && BotanIncludeOf(files[name][i]) == ""
    ensures ExpandLines(files, name, i, included).0 ==
      (if Kept(files[name][i]) then [Origin(name, i)] else []) + ExpandLines(files, name, i + 1, included).0
  {
    hide BotanIncludeOf, StdIncludeOf, Expand, Kept;
  }

  lemma ExpandLinesAtEnd(files: Files, name: Name, included: set<Name>)
    requires name in files
    ensures ExpandLines(files, name, |files[name]|, included).0 == []
  {
  }

  /** Emitting a line of the header being expanded disturbs no other header. */
  lemma EmitLine(files: Files, name: Name, i: nat, included: set<Name>, open: set<Name>, prefix: seq<Origin>)
    requires name in open && open <= included && Settled(files, prefix, included, open)
    requires forall f :: f !in included ==> Restrict(prefix, f) == []
    ensures var t := prefix + [Origin(name, i)];
      Settled(files, t, included, open) && forall f :: f !in included ==> Restrict(t, f) == []
  {
    var o := Origin(name, i);
    forall f | f != name
      ensures Restrict(prefix + [o], f) == Restrict(prefix, f)
    {
      RestrictAppend(prefix, [o], f);
      assert Restrict([o], f) == [];
    }
  }

  lemma {:induction false} ExpandAllOrdered(files: Files, rank: map<Name, nat>, names: seq<Name>,
                                            included: set<Name>, prefix: seq<Origin>)
    requires Acyclic(files, rank)
    requires Settled(files, prefix, included, {}) && IncludeClosed(files, included - {})
    requires DependenciesFirst(files, prefix)
    requires forall f :: f !in included ==> Restrict(prefix, f) == []
    ensures DependenciesFirst(files, prefix + ExpandAll(files, names, included).0)
  {
    hide Acyclic, DependenciesFirst, Settled, Expand, IncludeClosed;
    if names == [] {
      assert prefix + [] == prefix;
    } else {
      var (first, included') := Expand(files, names[0], included);
      var rest := ExpandAll(files, names[1..], included').0;
      ExpandOrdered(files, rank, names[0], included, {}, prefix);
      SettledAfter(files, names[0], included, {}, prefix);
      ExpandCloses(files, rank, names[0], included, {});
      ExpandAllOrdered(files, rank, names[1..], included', prefix + first);
      assert prefix + (first + rest) == prefix + first + rest;
    }
  }

  /** Dependencies first: with acyclic includes, whenever a line of a header is emitted every
      header that the includes above that line bring in, through however many headers, has been
      emitted completely. */
  lemma Order(files: Files, rank: map<Name, nat>, names: seq<Name>)
    requires Acyclic(files, rank)
    ensures DependenciesFirst(files, ExpandAll(files, names, {}).0)
  {
    ExpandAllOrdered(files, rank, names, {}, []);
    var trace := ExpandAll(files, names, {}).0;
    assert [] + trace == trace;
  }

  /** The same read on two positions: a line of a header that an include brings in never comes
      after a line that follows the include. */
  lemma OrderOfLines(files: Files, rank: map<Name, nat>, names: seq<Name>, i: nat, b: Name, p: nat, q: nat)
    requires forall n :: n in files ==> n in names && Normalize(n) == n
    requires Acyclic(files, rank)
    requires var trace := ExpandAll(files, names, {}).0;
      && p < |trace| && q < |trace| && i < trace[q].index
      && Includes(files, trace[q].file, i, b) && BringsIn(files, b, trace[p].file)
    ensures p < q
  {
    hide Expand, ExpandAll, Includes, BringsIn, AllOf, Acyclic;
    var trace := ExpandAll(files, names, {}).0;
    var c := trace[p].file;
    Order(files, rank, names);
    assert IncludesComplete(files, trace[..q], trace[q].file, trace[q].index);
    assert Complete(files, trace[..q], c);
    Conservation(files, names, c);
    if p >= q {
      assert trace == trace[..q] + trace[q..];
      RestrictAppend(trace[..q], trace[q..], c);
      assert Restrict(trace[q..], c) == [];
      Occurs(trace[q..], p - q);
    }
  }

  /** In terms of the text: when line i of a header reads as an include of b, which is a file and
      not deprecated, every line of b, and of whatever b brings in, stands before every later line
      of that header. */
  lemma OrderOfIncludeLines(files: Files, rank: map<Name, nat>, names: seq<Name>, i: nat, b: Name, rest: string,
                            p: nat, q: nat)
    requires forall n :: n in files ==> n in names && Normalize(n) == n
    requires Acyclic(files, rank) && '>' !in rest && b != ""
    requires b in files && ("BOTAN_DEPRECATED_HEADER(" + b + ")\n") !in files[b]
    requires var trace := ExpandAll(files, names, {}).0;
      && p < |trace| && q < |trace| && trace[q].file in files && i < trace[q].index && i < |files[trace[q].file]|
      && (files[trace[q].file][i] == "#include <botan/" + b + ">" + rest
          || files[trace[q].file][i] == "#include <botan/internal/" + b + ">" + rest)
      && BringsIn(files, b, trace[p].file)
    ensures p < q
  {
    hide Expand, ExpandAll, BringsIn, Acyclic, BotanIncludeOf;
    var trace := ExpandAll(files, names, {}).0;
    IncludeLine(b, rest);
    assert Includes(files, trace[q].file, i, b) by {
      NormalizeTwice(b);
    }
    OrderOfLines(files, rank, names, i, b, p, q);
  }

  lemma IncludeLine(b: Name, rest: string)
    requires b != "" && '>' !in rest
    ensures BotanIncludeOf("#include <botan/" + b + ">" + rest) == b
    ensures BotanIncludeOf("#include <botan/internal/" + b + ">" + rest) == "internal/" + b
  {
    var open := "#include <botan/";
    var dir := "internal/";
    var c := dir + b;
    assert "" + (open + b + ">" + rest) == open + b + ">" + rest;
    assert "" + (open + c + ">" + rest) == open + c + ">" + rest;
    assert "#include <botan/internal/" == open + dir;
    assert open + dir + b + ">" + rest == open + c + ">" + rest;
    hide BotanIncludeOf;
    BotanIncludeIs("", b, rest);
    BotanIncludeIs("", c, rest);
  }

  lemma NormalizeTwice(b: Name)
    ensures Normalize("internal/" + b) == Normalize(b)
  {
    var dir := "internal/";
    assert (dir + b)[|dir|..] == b;
    assert "" + Normalize(b) == Normalize(b);
  }

  /** A header with its own deprecation marker among its lines contributes nothing, and one
      without contributes all its kept lines. */
  lemma DeprecatedEmitsNothing(files: Files, names: seq<Name>, f: Name)
    requires forall n :: n in files ==> n in names && Normalize(n) == n
    requires f in files
    ensures Restrict(ExpandAll(files, names, {}).0, f)
         == if ("BOTAN_DEPRECATED_HEADER(" + f + ")\n") in files[f] then [] else KeptFrom(files, f, 0)
  {
    hide ExpandAll;
    Conservation(files, names, f);
  }

  lemma {:induction false} Occurs(trace: seq<Origin>, p: nat)
    requires p < |trace|
    ensures trace[p].index in Restrict(trace, trace[p].file)
  {
    if p > 0 {
      Occurs(trace[1..], p - 1);
    }
  }

  /** Nothing else is emitted: every line in the amalgamation is a line of a live header, and
      no include of a Botan header and no hoisted include survives. */
  lemma OnlyKeptLines(files: Files, names: seq<Name>, p: nat)
    requires forall n :: n in files ==> n in names && Normalize(n) == n
    requires p < |ExpandAll(files, names, {}).0|
    ensures var o := ExpandAll(files, names, {}).0[p];
      && Live(files, o.file) && o.index < |files[o.file]|
      && BotanIncludeOf(files[o.file][o.index]) == "" && StdIncludeOf(files[o.file][o.index]) == ""
  {
    hide Expand, ExpandAll, BotanIncludeOf, StdIncludeOf;
    var trace := ExpandAll(files, names, {}).0;
    var f := trace[p].file;
    Occurs(trace, p);
    Conservation(files, names, f);
    if Live(files, f) {
      KeptFromMeaning(files, f, 0);
    }
  }

  // ---------- The object ----------

  function LineAt(files: Files, o: Origin): string {
    if o.file in files && o.index < |files[o.file]| then files[o.file][o.index] else ""
  }

  /** The text of a trace. */
  function TextOf(files: Files, trace: seq<Origin>): string {
    if trace == [] then "" else LineAt(files, trace[0]) + TextOf(files, trace[1..])
  }

  lemma {:induction false} TextAppend(files: Files, s: seq<Origin>, t: seq<Origin>)
    ensures TextOf(files, s + t) == TextOf(files, s) + TextOf(files, t)
  {
    if s == [] {
      assert s + t == t;
    } else {
      var u := s[1..] + t;
      assert s + t == [s[0]] + u;
      TextAppend(files, s[1..], t);
    }
  }

  /** Line i of f is a standard include that is hoisted out of the text. */
  predicate HoistsAt(files: Files, f: Name, i: nat) {
    Live(files, f) && i < |files[f]| && BotanIncludeOf(files[f][i]) == "" && StdIncludeOf(files[f][i]) != ""
  }

  function HoistedBelow(files: Files, f: Name, n: nat): set<string>
    requires f in files && n <= |files[f]|
  {
    set i: nat | i < n && HoistsAt(files, f, i) :: StdIncludeOf(files[f][i])
  }

  /** The unconditional standard includes of the live headers among fs. */
  function Hoisted(files: Files, fs: set<Name>): set<string> {
    set f, i: nat | f in fs && f in files && i < |files[f]| && HoistsAt(files, f, i) :: StdIncludeOf(files[f][i])
  }

  /** The hoisted set in terms of the text: the include of a plain name, or of stddef.h, at the
      beginning of a line of a live header is hoisted. */
  lemma IncludeIsHoisted(files: Files, f: Name, i: nat, name: string, rest: string)
    requires Live(files, f) && i < |files[f]| && '>' !in rest && name != ""
    requires files[f][i] == "#include <" + name + ">" + rest
    requires ('/' !in name && '.' !in name) || name == "stddef.h"
    requires forall j :: 0 <= j <= |files[f][i]| ==> !("#include <botan/" <= files[f][i][j..])
    ensures name in Hoisted(files, files.Keys)
  {
    var line := files[f][i];
    NoBotanInclude(line);
    if name == "stddef.h" {
      StddefLine(rest);
    } else {
      StdIncludeIs(name, rest);
    }
    hide BotanIncludeOf, StdIncludeOf, IsDeprecated;
    assert HoistsAt(files, f, i);
  }

  lemma StddefLine(rest: string)
    ensures StdIncludeOf("#include <" + "stddef.h" + ">" + rest) == "stddef.h"
  {
    hide StdIncludeOf;
    StddefIncludeIs('.', rest);
    assert "#include <" + "stddef.h" + ">" + rest == "#include <stddef" + ['.'] + "h>" + rest;
    assert "stddef" + ['.'] + "h" == "stddef.h";
  }

  lemma HoistedUnion(files: Files, s: set<Name>, t: set<Name>)
    ensures Hoisted(files, s + t) == Hoisted(files, s) + Hoisted(files, t)
  {
    hide HoistsAt, StdIncludeOf;
  }

  lemma HoistedOne(files: Files, f: Name)
    ensures Hoisted(files, {f}) == if f in files then HoistedBelow(files, f, |files[f]|) else {}
  {
    hide HoistsAt, StdIncludeOf;
  }

  lemma HoistedStep(files: Files, f: Name, i: nat)
    requires f in files && i < |files[f]|
    ensures HoistedBelow(files, f, i + 1)
         == HoistedBelow(files, f, i) + if HoistsAt(files, f, i) then {StdIncludeOf(files[f][i])} else {}
  {
    hide HoistsAt, StdIncludeOf;
  }

  lemma ExpandAllStep(files: Files, names: seq<Name>, i: nat, included: set<Name>)
    requires i < |names|
    ensures var (first, included') := Expand(files, names[i], included);
      && ExpandAll(files, names[i..], included).0 == first + ExpandAll(files, names[i + 1..], included').0
      && ExpandAll(files, names[i..], included).1 == ExpandAll(files, names[i + 1..], included').1
  {
    assert names[i..][1..] == names[i + 1..];
  }

  lemma ExpandAllNone(files: Files, included: set<Name>)
    ensures ExpandAll(files, [], included) == ([], included)
  {
  }

  lemma AllIncluded(files: Files, names: seq<Name>)
    requires forall n :: n in files ==> n in names && Normalize(n) == n
    ensures files.Keys <= ExpandAll(files, names, {}).1
  {
    ExpandAllConserves(files, names, {}, "");
  }

  lemma HoistedFromFiles(files: Files, fs: set<Name>)
    requires files.Keys <= fs
    ensures Hoisted(files, fs) == Hoisted(files, files.Keys)
  {
    hide HoistsAt, StdIncludeOf;
  }

  lemma HoistedMore(files: Files, before: set<Name>, after: set<Name>)
    requires before <= after
    ensures Hoisted(files, after) == Hoisted(files, before) + Hoisted(files, after - before)
  {
    HoistedUnion(files, before, after - before);
    assert before + (after - before) == after;
  }

  lemma ExpandUnfold(files: Files, raw: Name, included: set<Name>)
    ensures var name := Normalize(raw);
      Expand(files, raw, included) ==
        if name in included then ([], included)
        else if !Live(files, name) then ([], included + {name})
        else ExpandLines(files, name, 0, included + {name})
  {
  }

  lemma ExpandLinesIncluded(files: Files, name: Name, i: nat, included: set<Name>)
    requires name in files && i < |files[name]|
    ensures var header := BotanIncludeOf(files[name][i]);
      ExpandLines(files, name, i, included).1 ==
        ExpandLines(files, name, i + 1, if header == "" then included else Expand(files, header, included).1).1
  {
    hide BotanIncludeOf, StdIncludeOf, Expand, Kept;
  }

  /** Headers that are not live contribute nothing to the hoisted includes. */
  lemma HoistedNothing(files: Files, name: Name)
    ensures Hoisted(files, {}) == {}
    ensures !Live(files, name) ==> Hoisted(files, {name}) == {}
    ensures name in files ==> HoistedBelow(files, name, 0) == {}
  {
  }

  class AmalgamationHeader {
    const fileContents: Files
    var includedAlready: set<Name>
    var allStdIncludes: set<string>
    var contents: string

    /** `names` is the sorted list of file names; the proofs need no more of it than that it
        lists every file.  File names are base names, so they contain no directory part. */
    constructor (files: Files, names: seq<Name>)
      requires forall n :: n in files ==> n in names && Normalize(n) == n
      requires forall n :: n in names ==> n in files
      ensures fileContents == files
      ensures contents == TextOf(files, ExpandAll(files, names, {}).0)
      ensures allStdIncludes == Hoisted(files, files.Keys)
    {
      fileContents := files;
      includedAlready, allStdIncludes, contents := {}, {}, "";
      new;
      HoistedNothing(files, "");
      ExpandFiles(names);
      AllIncluded(files, names);
      HoistedFromFiles(files, includedAlready);
    }

    /** The loop over the sorted file names. */
    method ExpandFiles(names: seq<Name>)
      requires includedAlready == {} && contents == "" && allStdIncludes == Hoisted(fileContents, {})
      modifies this
      ensures contents == TextOf(fileContents, ExpandAll(fileContents, names, {}).0)
      ensures includedAlready == ExpandAll(fileContents, names, {}).1
      ensures allStdIncludes == Hoisted(fileContents, includedAlready)
    {
      var files := fileContents;
      ghost var trace: seq<Origin> := [];
      assert TextOf(files, trace) == "" && names[0..] == names;
      hide Expand, ExpandAll, Hoisted, TextOf, Normalize;
      var i := 0;
      while i < |names|
        invariant 0 <= i <= |names|
        invariant contents == TextOf(files, trace)
        invariant ExpandAll(files, names, {}).0 == trace + ExpandAll(files, names[i..], includedAlready).0
        invariant ExpandAll(files, names, {}).1 == ExpandAll(files, names[i..], includedAlready).1
        invariant allStdIncludes == Hoisted(files, includedAlready)
      {
        ghost var t, before := Expand(files, names[i], includedAlready).0, includedAlready;
        ExpandAllStep(files, names, i, before);
        var text := HeaderContents(names[i]);
        TextAppend(files, trace, t);
        HoistedMore(files, before, includedAlready);
        Regroup(trace, t, ExpandAll(files, names[i + 1..], includedAlready).0);
        contents := contents + text;
        trace := trace + t;
        i := i + 1;
      }
      assert names[i..] == [] && trace + [] == trace;
      ExpandAllNone(files, includedAlready);
    }

    /** `header_contents`. */
    method HeaderContents(raw: Name) returns (text: string)
      modifies this`includedAlready, this`allStdIncludes
      ensures text == TextOf(fileContents, Expand(fileContents, raw, old(includedAlready)).0)
      ensures includedAlready == Expand(fileContents, raw, old(includedAlready)).1
      ensures allStdIncludes == old(allStdIncludes) + Hoisted(fileContents, includedAlready - old(includedAlready))
      decreases fileContents.Keys - includedAlready
    {
      var files := fileContents;
      var name := Normalize(raw);
      text := "";
      ghost var before := includedAlready;
      ExpandUnfold(files, raw, before);
      HoistedNothing(files, name);
      assert TextOf(files, []) == "";
      hide Expand, ExpandLines, Hoisted, HoistedBelow, BotanIncludeOf, StdIncludeOf, Normalize, Kept;
      if name in includedAlready {
        assert includedAlready - before == {};
        return;
      }
      includedAlready := includedAlready + {name};
      assert includedAlready - before == {name};
      if name !in files {
        return;
      }
      if IsDeprecated(files, name) {
        return;
      }
      hide IsDeprecated;
      ghost var whole := ExpandLines(files, name, 0, includedAlready);
      ghost var done: seq<Origin> := [];
      assert [] + whole.0 == whole.0;
      HoistedStart(files, allStdIncludes, before, name);
      hide TextOf, LineAt, HoistedSoFar;
      var i := 0;
      while i < |files[name]|
        invariant 0 <= i <= |files[name]| && before + {name} <= includedAlready
        invariant text == TextOf(files, done)
        invariant whole.0 == done + ExpandLines(files, name, i, includedAlready).0
        invariant whole.1 == ExpandLines(files, name, i, includedAlready).1
        invariant allStdIncludes == HoistedSoFar(files, old(allStdIncludes), before, includedAlready, name, i)
      {
        var line := files[name][i];
        var header := BotanIncludeOf(line);
        ghost var now, rest := includedAlready, ExpandLines(files, name, i, includedAlready).0;
        ExpandLinesIncluded(files, name, i, now);
        if header != "" {
          ExpandLinesAtInclude(files, name, i, now);
          ghost var t := Expand(files, header, now).0;
          var part := HeaderContents(header);
          TextAppend(files, done, t);
          HoistedInclude(files, old(allStdIncludes), before, now, includedAlready, name, i);
          Regroup(done, t, ExpandLines(files, name, i + 1, includedAlready).0);
          text := text + part;
          done := done + t;
        } else {
          ExpandLinesAtText(files, name, i, now);
          HoistedText(files, old(allStdIncludes), before, now, name, i);
          ghost var after := ExpandLines(files, name, i + 1, now).0;
          var stdHeader := StdIncludeOf(line);
          if stdHeader != "" {
            allStdIncludes := allStdIncludes + {stdHeader};
            Regroup(done, [], after);
          } else {
            TextOne(files, name, i);
            TextAppend(files, done, [Origin(name, i)]);
            Regroup(done, [Origin(name, i)], after);
            text := text + line;
            done := done + [Origin(name, i)];
          }
        }
        i := i + 1;
      }
      ExpandLinesFinish(files, name, includedAlready);
      assert done + [] == done;
      HoistedFinish(files, old(allStdIncludes), before, includedAlready, name);
    }
  }

  // ---------- Steps of the method's loop ----------

  /** The hoisted includes while lines below i of `name` have been read. */
  function HoistedSoFar(files: Files, start: set<string>, before: set<Name>, now: set<Name>, name: Name,
                        i: nat): set<string>
    requires name in files && i <= |files[name]|
  {
    start + Hoisted(files, now - before - {name}) + HoistedBelow(files, name, i)
  }

  lemma HoistedStart(files: Files, start: set<string>, before: set<Name>, name: Name)
    requires name in files
    ensures HoistedSoFar(files, start, before, before + {name}, name, 0) == start
  {
    assert before + {name} - before - {name} == {};
    HoistedNothing(files, name);
  }

  lemma HoistedInclude(files: Files, start: set<string>, before: set<Name>, now: set<Name>, then': set<Name>,
                       name: Name, i: nat)
    requires name in files && i < |files[name]| && BotanIncludeOf(files[name][i]) != ""
    requires before + {name} <= now <= then'
    ensures HoistedSoFar(files, start, before, now, name, i) + Hoisted(files, then' - now)
         == HoistedSoFar(files, start, before, then', name, i + 1)
  {
    HoistedStep(files, name, i);
    HoistedUnion(files, now - before - {name}, then' - now);
    assert (now - before - {name}) + (then' - now) == then' - before - {name};
    assert !HoistsAt(files, name, i);
    hide Hoisted, HoistedBelow, HoistsAt;
  }

  lemma HoistedText(files: Files, start: set<string>, before: set<Name>, now: set<Name>, name: Name, i: nat)
    requires Live(files, name) && i < |files[name]| && BotanIncludeOf(files[name][i]) == ""
    ensures HoistedSoFar(files, start, before, now, name, i + 1) == HoistedSoFar(files, start, before, now, name, i)
      + if StdIncludeOf(files[name][i]) != "" then {StdIncludeOf(files[name][i])} else {}
    ensures Kept(files[name][i]) <==> StdIncludeOf(files[name][i]) == ""
  {
    HoistedStep(files, name, i);
    assert HoistsAt(files, name, i) <==> StdIncludeOf(files[name][i]) != "";
    hide Hoisted, HoistedBelow, HoistsAt;
  }

  lemma HoistedFinish(files: Files, start: set<string>, before: set<Name>, now: set<Name>, name: Name)
    requires name in files && name in now && name !in before
    ensures HoistedSoFar(files, start, before, now, name, |files[name]|) == start + Hoisted(files, now - before)
  {
    HoistedOne(files, name);
    HoistedUnion(files, now - before - {name}, {name});
    assert now - before - {name} + {name} == now - before;
    hide Hoisted, HoistedBelow;
  }

  lemma ExpandLinesFinish(files: Files, name: Name, included: set<Name>)
    requires name in files
    ensures ExpandLines(files, name, |files[name]|, included) == ([], included)
  {
  }

  lemma Regroup(a: seq<Origin>, b: seq<Origin>, c: seq<Origin>)
    ensures a + (b + c) == a + b + c
    ensures b == [] ==> a + (b + c) == a + c
  {
  }

  lemma TextOne(files: Files, name: Name, i: nat)
    requires name in files && i < |files[name]|
    ensures TextOf(files, [Origin(name, i)]) == files[name][i]
  {
    assert [Origin(name, i)][1..] == [];
  }
}
