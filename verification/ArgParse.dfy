/** `Argument_Parser`: command specifications, and the parsing of command lines against them. */
module ArgParse {
  import opened Text
  import opened Wrappers

  datatype Error =
    | UnableToSplit | InvalidSpec
    | OptionWithoutValue | UnknownFlag | UnknownOption | DuplicatedOption
    | TooFewArguments | TooManyArguments | RepeatedStdin

  // ---------- Splitting ----------

  function Join(parts: seq<string>, delim: char): string {
    if parts == [] then ""
    else if |parts| == 1 then parts[0]
    else parts[0] + [delim] + Join(parts[1..], delim)
  }

  /** The maximal runs of s free of the delimiter, when `run` has been read just before s. */
  function Runs(s: string, delim: char, run: string): seq<string> {
    if s == "" then if run == "" then [] else [run]
    else if s[0] == delim then (if run == "" then [] else [run]) + Runs(s[1..], delim, "")
    else Runs(s[1..], delim, run + [s[0]])
  }

  /** `split_on`: the runs of s, unless s ends with the delimiter, which is an error. */
  method SplitOn(s: string, delim: char) returns (r: Option<seq<string>>)
    ensures r == if s != "" && s[|s| - 1] == delim then None else Some(Runs(s, delim, ""))
  {
    var elems: seq<string> := [];
    if s == "" {
      return Some(elems);
    }
    var substr := "";
    for i := 0 to |s|
      invariant elems + Runs(s[i..], delim, substr) == Runs(s, delim, "")
      invariant i > 0 ==> (substr == "" <==> s[i - 1] == delim)
    {
      var c := s[i];
      assert s[i..][1..] == s[i + 1..];
      if c == delim {
        if substr != "" {
          elems := elems + [substr];
        }
        substr := "";
      } else {
        substr := substr + [c];
      }
    }
    assert s[|s|..] == "";
    if substr == "" {
      return None;
    }
    elems := elems + [substr];
    r := Some(elems);
  }

  predicate Piece(p: string, delim: char) {
    p != "" && delim !in p
  }

  lemma {:induction false} RunsOfPiece(p: string, rest: string, delim: char, run: string)
    requires delim !in p
    ensures Runs(p + rest, delim, run) == Runs(rest, delim, run + p)
    decreases |p|
  {
    if p == "" {
      assert p + rest == rest && run + p == run;
    } else {
      assert (p + rest)[1..] == p[1..] + rest;
      RunsOfPiece(p[1..], rest, delim, run + [p[0]]);
      assert run + [p[0]] + p[1..] == run + p;
    }
  }

  /** Splitting undoes joining: nonempty pieces without the delimiter come back unchanged. */
  lemma {:induction false} SplitOfJoin(parts: seq<string>, delim: char)
    requires forall i :: 0 <= i < |parts| ==> Piece(parts[i], delim)
    ensures Runs(Join(parts, delim), delim, "") == parts
    ensures var s := Join(parts, delim); s != "" ==> s[|s| - 1] != delim
  {
    if |parts| == 1 {
      RunsOfPiece(parts[0], "", delim, "");
      assert parts[0] + "" == parts[0] && "" + parts[0] == parts[0];
      var p := parts[0];
      assert p[|p| - 1] in p;
    } else if |parts| > 1 {
      var tail := [delim] + Join(parts[1..], delim);
      assert Join(parts, delim) == parts[0] + tail;
      RunsOfPiece(parts[0], tail, delim, "");
      assert tail[1..] == Join(parts[1..], delim);
      assert "" + parts[0] == parts[0];
      SplitOfJoin(parts[1..], delim);
      assert Piece(parts[1], delim);
      assert Join(parts[1..], delim) != "";
    }
  }

  /** A delimiter, wherever it stands, separates what is before it from what is after it. */
  lemma {:induction false} RunsAtDelimiter(s: string, t: string, delim: char, run: string)
    ensures Runs(s + [delim] + t, delim, run) == Runs(s, delim, run) + Runs(t, delim, "")
    decreases |s|
  {
    var all := s + [delim] + t;
    if s == "" {
      assert all[1..] == t;
    } else {
      var rest := s[1..];
      assert all[1..] == rest + [delim] + t;
      RunsAtDelimiter(rest, t, delim, if s[0] == delim then "" else run + [s[0]]);
    }
  }

  /** Whatever splitting yields are such pieces. */
  lemma {:induction false} RunsArePieces(s: string, delim: char, run: string)
    requires delim !in run
    ensures forall i :: 0 <= i < |Runs(s, delim, run)| ==> Piece(Runs(s, delim, run)[i], delim)
    decreases |s|
  {
    if s != "" {
      if s[0] == delim {
        RunsArePieces(s[1..], delim, "");
      } else {
        RunsArePieces(s[1..], delim, run + [s[0]]);
      }
    }
  }

  // ---------- Specifications ----------

  /** What a command specification declares: named arguments in order, flags, options with
      their defaults, and the name of the rest argument, empty when there is none. */
  datatype Spec = Spec(args: seq<string>, flags: set<string>, opts: map<string, string>, rest: string)

  const EMPTY := Spec([], {}, map[], "")

  /** One word of a specification or of a command line, classified. */
  datatype Word = Flag(name: string) | Opt(name: string, value: string) | Rest(name: string) | Plain(text: string)

  predicate Dashed(s: string) {
    |s| >= 2 && s[0] == '-' && s[1] == '-'
  }

  /** The word of a specification: `--flag`, `--option=default`, `*rest` or `argument`. */
  function SpecWord(s: string): Word
    requires s != ""
  {
    if |s| > 2 && Dashed(s) then DashedWord(s)
    else if s[0] == '*' then Rest(s[1..])
    else Plain(s)
  }

  function DashedWord(s: string): Word
    requires Dashed(s)
  {
    var eq := Find(s, "=");
    if eq == |s| then Flag(s[2..])
    else
      assert s[eq..][0] == '=';
      Opt(s[2..eq], s[eq + 1..])
  }

  /** A declaration that is already there is kept. */
  function Insert(m: map<string, string>, key: string, value: string): map<string, string> {
    if key in m then m else m[key := value]
  }

  /** Adding one word to a specification; None when the specification is invalid. */
  function Declare(spec: Spec, w: Word): Option<Spec> {
    match w
    case Flag(name) => Some(spec.(flags := spec.flags + {name}))
    case Opt(name, value) => Some(spec.(opts := Insert(spec.opts, name, value)))
    case Rest(name) => if spec.rest == "" && |name| >= 2 then Some(spec.(rest := name)) else None
    case Plain(text) => if spec.rest == "" then Some(spec.(args := spec.args + [text])) else None
  }

  function DeclareAll(spec: Spec, words: seq<Word>): Option<Spec>
    decreases |words|
  {
    if words == [] then Some(spec)
    else match Declare(spec, words[0])
      case None => None
      case Some(next) => DeclareAll(next, words[1..])
  }

  function SpecWords(parts: seq<string>): seq<Word>
    requires forall i :: 0 <= i < |parts| ==> parts[i] != ""
  {
    seq(|parts|, i requires 0 <= i < |parts| => SpecWord(parts[i]))
  }

  /** The flags and options every command has besides its own. */
  function WithExtras(spec: Spec, extraFlags: seq<string>, extraOpts: seq<string>): Spec {
    spec.(flags := spec.flags + (set f | f in extraFlags), opts := InsertAll(spec.opts, extraOpts))
  }

  function InsertAll(opts: map<string, string>, names: seq<string>): map<string, string>
    decreases |names|
  {
    if names == [] then opts else InsertAll(Insert(opts, names[0], ""), names[1..])
  }

  /** What a specification string declares.  Its first word is the name of the command. */
  function SpecOf(text: string, extraFlags: seq<string>, extraOpts: seq<string>): Result<Spec, Error> {
    if text != "" && text[|text| - 1] == ' ' then Err(UnableToSplit)
    else
      var parts := Runs(text, ' ', "");
      RunsArePieces(text, ' ', "");
      if parts == [] then Err(InvalidSpec)
      else match DeclareAll(EMPTY, SpecWords(parts[1..]))
        case None => Err(InvalidSpec)
        case Some(spec) => Ok(WithExtras(spec, extraFlags, extraOpts))
  }

  // ---------- Command lines ----------

  datatype Parsed = Parsed(args: map<string, string>, flags: set<string>, rest: seq<string>)

  const NOTHING := Parsed(map[], {}, [])

  /** The word of a command line: `--flag`, `--option=value` or a positional argument. */
  function LineWord(s: string): Word {
    if Dashed(s) then DashedWord(s) else Plain(s)
  }

  function LineWords(params: seq<string>): seq<Word> {
    seq(|params|, i requires 0 <= i < |params| => LineWord(params[i]))
  }

  /** The positional arguments, in order. */
  function Plains(words: seq<Word>): seq<string> {
    if words == [] then []
    else (if words[0].Plain? then [words[0].text] else []) + Plains(words[1..])
  }

  /** Reading one flag or option. */
  function ReadWord(spec: Spec, p: Parsed, w: Word): Result<Parsed, Error> {
    match w
    case Flag(name) =>
      if name in spec.flags then Ok(p.(flags := p.flags + {name}))
      else if name in spec.opts then Err(OptionWithoutValue) else Err(UnknownFlag)
    case Opt(name, value) =>
      if name !in spec.opts then Err(UnknownOption)
      else if name in p.args then Err(DuplicatedOption)
      else Ok(p.(args := p.args[name := value]))
    case Rest(_) => Ok(p)
    case Plain(_) => Ok(p)
  }

  function ReadWords(spec: Spec, p: Parsed, words: seq<Word>): Result<Parsed, Error>
    decreases |words|
  {
    if words == [] then Ok(p)
    else match ReadWord(spec, p, words[0])
      case Err(e) => Err(e)
      case Ok(next) => ReadWords(spec, next, words[1..])
  }

  /** "-" stands for standard input, which can be read only once. */
  predicate StdinOnce(texts: seq<string>) {
    forall i, j :: 0 <= i < j < |texts| ==> !(texts[i] == "-" && texts[j] == "-")
  }

  /** Binding the named arguments, in order. */
  function Bind(m: map<string, string>, names: seq<string>, texts: seq<string>): map<string, string>
    requires |names| <= |texts|
    decreases |names|
  {
    if names == [] then m else Bind(Insert(m, names[0], texts[0]), names[1..], texts[1..])
  }

  /** Defaults for the options that were not given. */
  function WithDefaults(m: map<string, string>, opts: map<string, string>): map<string, string> {
    map k | k in m.Keys + opts.Keys :: if k in m then m[k] else opts[k]
  }

  /** What a command line means: the options first, then the positional arguments. */
  function Parse(spec: Spec, params: seq<string>): Result<Parsed, Error> {
    var words := LineWords(params);
    match ReadWords(spec, NOTHING, words)
    case Err(e) => Err(e)
    case Ok(p) =>
      var texts := Plains(words);
      var n := |spec.args|;
      if "help" in p.flags then Ok(p)
      else if |texts| < n then Err(TooFewArguments)
      else if !StdinOnce(texts[..n]) then Err(RepeatedStdin)
      else if spec.rest == "" && |texts| > n then Err(TooManyArguments)
      else Ok(Parsed(WithDefaults(Bind(p.args, spec.args, texts), spec.opts), p.flags,
                     if spec.rest == "" then [] else texts[n..]))
  }

  class ArgumentParser {
    var specArgs: seq<string>
    var specFlags: set<string>
    var specOpts: map<string, string>
    var specRest: string
    var userArgs: map<string, string>
    var userFlags: set<string>
    var userRest: seq<string>

    function SpecState(): Spec
      reads this`specArgs, this`specFlags, this`specOpts, this`specRest
    {
      Spec(specArgs, specFlags, specOpts, specRest)
    }

    function UserState(): Parsed
      reads this`userArgs, this`userFlags, this`userRest
    {
      Parsed(userArgs, userFlags, userRest)
    }

    constructor ()
      ensures SpecState() == EMPTY && UserState() == NOTHING
    {
      specArgs, specFlags, specOpts, specRest := [], {}, map[], "";
      userArgs, userFlags, userRest := map[], {}, [];
    }

    /** The body of the constructor, which may throw. */
    method ReadSpec(text: string, extraFlags: seq<string>, extraOpts: seq<string>) returns (error: Option<Error>)
      requires SpecState() == EMPTY
      modifies this`specArgs, this`specFlags, this`specOpts, this`specRest
      ensures error == None ==> SpecOf(text, extraFlags, extraOpts) == Ok(SpecState())
      ensures error.Some? ==> SpecOf(text, extraFlags, extraOpts) == Err(error.value)
    {
      var split := SplitOn(text, ' ');
      if split == None {
        return Some(UnableToSplit);
      }
      var parts := split.value;
      if parts == [] {
        return Some(InvalidSpec);
      }
      RunsArePieces(text, ' ', "");
      ghost var words := SpecWords(parts[1..]);
      assert words[0..] == words;
      hide DeclareAll, SpecWord, Runs;
      for i := 1 to |parts|
        invariant DeclareAll(EMPTY, words) == DeclareAll(SpecState(), words[i - 1..])
      {
        assert words[i - 1] == SpecWord(parts[i]);
        DeclareStep(SpecState(), words, i - 1);
        var ok := DeclareWord(SpecWord(parts[i]));
        if !ok {
          return Some(InvalidSpec);
        }
      }
      DeclareNothing(SpecState(), words);
      AddExtras(extraFlags, extraOpts);
      error := None;
    }

    /** The body of the constructor's loop. */
    method DeclareWord(w: Word) returns (ok: bool)
      modifies this`specArgs, this`specFlags, this`specOpts, this`specRest
      ensures ok ==> Declare(old(SpecState()), w) == Some(SpecState())
      ensures !ok ==> Declare(old(SpecState()), w) == None
    {
      match w {
        case Flag(name) => specFlags := specFlags + {name};
        case Opt(name, value) => specOpts := Insert(specOpts, name, value);
        case Rest(name) =>
          if specRest == "" && |name| >= 2 {
            specRest := name;
          } else {
            return false;
          }
        case Plain(text) =>
          if specRest != "" {
            return false;
          }
          specArgs := specArgs + [text];
      }
      ok := true;
    }

    method AddExtras(extraFlags: seq<string>, extraOpts: seq<string>)
      modifies this`specFlags, this`specOpts
      ensures SpecState() == WithExtras(old(SpecState()), extraFlags, extraOpts)
    {
      for i := 0 to |extraFlags|
        invariant specFlags == old(specFlags) + (set f | f in extraFlags[..i])
        invariant specOpts == old(specOpts)
      {
        specFlags := specFlags + {extraFlags[i]};
      }
      assert extraFlags[..|extraFlags|] == extraFlags && extraOpts[0..] == extraOpts;
      for i := 0 to |extraOpts|
        invariant InsertAll(specOpts, extraOpts[i..]) == InsertAll(old(specOpts), extraOpts)
        invariant specFlags == old(specFlags) + (set f | f in extraFlags)
      {
        assert extraOpts[i..][1..] == extraOpts[i + 1..];
        specOpts := Insert(specOpts, extraOpts[i], "");
      }
    }

    /** One parameter that is a flag or an option. */
    method ReadOption(w: Word) returns (error: Option<Error>)
      modifies this`userArgs, this`userFlags
      ensures error == None ==> ReadWord(SpecState(), old(UserState()), w) == Ok(UserState())
      ensures error.Some? ==> ReadWord(SpecState(), old(UserState()), w) == Err(error.value)
    {
      match w {
        case Flag(name) =>
          if name !in specFlags {
            return Some(if name in specOpts then OptionWithoutValue else UnknownFlag);
          }
          userFlags := userFlags + {name};
        case Opt(name, value) =>
          if name !in specOpts {
            return Some(UnknownOption);
          }
          if name in userArgs {
            return Some(DuplicatedOption);
          }
          userArgs := userArgs[name := value];
        case Plain(_) =>
        case Rest(_) =>
      }
      error := None;
    }

    /** The loop over the parameters: options are recorded, positional arguments collected. */
    method ReadOptions(params: seq<string>) returns (error: Option<Error>, args: seq<string>)
      requires UserState() == NOTHING
      modifies this`userArgs, this`userFlags
      ensures error == None ==> ReadWords(SpecState(), NOTHING, LineWords(params)) == Ok(UserState())
      ensures error.Some? ==> ReadWords(SpecState(), NOTHING, LineWords(params)) == Err(error.value)
      ensures error == None ==> args == Plains(LineWords(params))
    {
      args := [];
      ghost var words, spec := LineWords(params), SpecState();
      assert words[0..] == words && |words| == |params|;
      hide LineWord, LineWords, ReadWord, ReadWords, Plains, SpecState, UserState;
      for i := 0 to |params|
        invariant ReadWords(spec, NOTHING, words) == ReadWords(spec, UserState(), words[i..])
        invariant args + Plains(words[i..]) == Plains(words)
      {
        var w := LineWord(params[i]);
        LineWordsAt(params, i);
        ReadStep(spec, UserState(), words, i);
        PlainsStep(args, words, i);
        error := ReadOption(w);
        if error.Some? {
          return;
        }
        if w.Plain? {
          args := args + [w.text];
        }
      }
      ReadNothing(spec, UserState(), words);
      error := None;
    }

    /** The loop over the named arguments. */
    method BindArguments(args: seq<string>) returns (repeated: bool)
      requires |specArgs| <= |args|
      modifies this`userArgs
      ensures repeated <==> !StdinOnce(args[..|specArgs|])
      ensures !repeated ==> userArgs == Bind(old(userArgs), specArgs, args)
    {
      var seenStdinFlag := false;
      assert specArgs[0..] == specArgs && args[0..] == args;
      hide StdinOnce, Bind, SeenStdin;
      StdinNotSeen(args);
      for i := 0 to |specArgs|
        invariant seenStdinFlag <==> SeenStdin(args, i)
        invariant StdinOnce(args[..i])
        invariant Bind(userArgs, specArgs[i..], args[i..]) == Bind(old(userArgs), specArgs, args)
      {
        BindStep(userArgs, specArgs, args, i);
        StdinStep(args, i, |specArgs|);
        userArgs := Insert(userArgs, specArgs[i], args[i]);
        if args[i] == "-" {
          if seenStdinFlag {
            return true;
          }
          seenStdinFlag := true;
        }
      }
      BindNothing(userArgs, args[|specArgs|..]);
      assert specArgs[|specArgs|..] == [];
      repeated := false;
    }

    /** `parse_args`. */
    method ParseArgs(params: seq<string>) returns (error: Option<Error>)
      requires UserState() == NOTHING
      modifies this`userArgs, this`userFlags, this`userRest
      ensures error == None ==> Parse(SpecState(), params) == Ok(UserState())
      ensures error.Some? ==> Parse(SpecState(), params) == Err(error.value)
    {
      var args: seq<string>;
      error, args := ReadOptions(params);
      hide LineWords, ReadWords, Plains, Bind, StdinOnce;
      if error.Some? {
        return;
      }
      if "help" in userFlags {
        return None;
      }
      if |args| < |specArgs| {
        return Some(TooFewArguments);
      }
      var repeated := BindArguments(args);
      if repeated {
        return Some(RepeatedStdin);
      }
      if specRest == "" {
        if |specArgs| != |args| {
          return Some(TooManyArguments);
        }
      } else {
        userRest := args[|specArgs|..];
      }
      userArgs := WithDefaults(userArgs, specOpts);
      error := None;
    }

    /** `get_arg_list`; None stands for either of its two errors. */
    method GetArgList(what: string) returns (r: Option<seq<string>>)
      ensures r == ListOf(SpecState(), UserState(), what)
    {
      if what == specRest {
        return Some(userRest);
      }
      if what !in userArgs {
        return None;
      }
      r := SplitOn(userArgs[what], ',');
    }
  }

  /** The list a parsed command line holds under a name: the rest, or an argument cut at its
      commas. */
  function ListOf(spec: Spec, p: Parsed, what: string): Option<seq<string>> {
    if what == spec.rest then Some(p.rest)
    else if what !in p.args then None
    else
      var s := p.args[what];
      if s != "" && s[|s| - 1] == ',' then None else Some(Runs(s, ',', ""))
  }

  /** A name other than the rest argument's holds a list unless it has no value or one that ends
      with a comma; and a comma separates the items before it from those after it. */
  lemma ListMeaning(spec: Spec, p: Parsed, what: string, s: string, t: string)
    requires what != spec.rest
    ensures ListOf(spec, p, what) == None <==>
      what !in p.args || (p.args[what] != "" && p.args[what][|p.args[what]| - 1] == ',')
    ensures what in p.args && p.args[what] == s + "," + t && t != "" && t[|t| - 1] != ',' ==>
      ListOf(spec, p, what) == Some(Runs(s, ',', "") + Runs(t, ',', ""))
  {
    hide Runs;
    RunsAtDelimiter(s, t, ',', "");
    var all := s + "," + t;
    assert t != "" ==> all[|all| - 1] == t[|t| - 1];
  }

  predicate SeenStdin(args: seq<string>, i: nat)
    requires i <= |args|
  {
    exists j :: 0 <= j < i && args[j] == "-"
  }

  lemma StdinNotSeen(args: seq<string>)
    ensures !SeenStdin(args, 0) && StdinOnce(args[..0])
  {
  }

  lemma StdinStep(args: seq<string>, i: nat, n: nat)
    requires i < n <= |args| && StdinOnce(args[..i])
    ensures SeenStdin(args, i + 1) <==> SeenStdin(args, i) || args[i] == "-"
    ensures StdinOnce(args[..i + 1]) <==> !(SeenStdin(args, i) && args[i] == "-")
    ensures SeenStdin(args, i) && args[i] == "-" ==> !StdinOnce(args[..n])
  {
    if SeenStdin(args, i) && args[i] == "-" {
      var j :| 0 <= j < i && args[j] == "-";
      assert args[..i + 1][j] == "-" && args[..i + 1][i] == "-";
      assert args[..n][j] == "-" && args[..n][i] == "-";
    } else {
      assert forall j :: 0 <= j < i ==> args[..i + 1][j] == args[..i][j];
    }
  }

  lemma BindStep(m: map<string, string>, names: seq<string>, texts: seq<string>, i: nat)
    requires i < |names| <= |texts|
    ensures Bind(m, names[i..], texts[i..]) == Bind(Insert(m, names[i], texts[i]), names[i + 1..], texts[i + 1..])
  {
    assert names[i..][1..] == names[i + 1..] && texts[i..][1..] == texts[i + 1..];
  }

  lemma BindNothing(m: map<string, string>, texts: seq<string>)
    ensures Bind(m, [], texts) == m
  {
  }

  lemma LineWordsAt(params: seq<string>, i: nat)
    requires i < |params|
    ensures |LineWords(params)| == |params| && LineWords(params)[i] == LineWord(params[i])
  {
  }

  lemma ReadStep(spec: Spec, p: Parsed, words: seq<Word>, i: nat)
    requires i < |words|
    ensures ReadWords(spec, p, words[i..]) ==
      match ReadWord(spec, p, words[i]) case Err(e) => Err(e) case Ok(next) => ReadWords(spec, next, words[i + 1..])
  {
    assert words[i..][1..] == words[i + 1..];
  }

  lemma PlainsStep(args: seq<string>, words: seq<Word>, i: nat)
    requires i < |words|
    ensures args + Plains(words[i..]) ==
      (if words[i].Plain? then args + [words[i].text] else args) + Plains(words[i + 1..])
  {
    assert words[i..][1..] == words[i + 1..];
    var rest := Plains(words[i + 1..]);
    if words[i].Plain? {
      assert args + ([words[i].text] + rest) == args + [words[i].text] + rest;
    } else {
      assert [] + rest == rest;
    }
  }

  lemma ReadNothing(spec: Spec, p: Parsed, words: seq<Word>)
    ensures ReadWords(spec, p, words[|words|..]) == Ok(p) && Plains(words[|words|..]) == []
  {
  }

  lemma DeclareStep(spec: Spec, words: seq<Word>, i: nat)
    requires i < |words|
    ensures DeclareAll(spec, words[i..]) ==
      match Declare(spec, words[i]) case None => None case Some(next) => DeclareAll(next, words[i + 1..])
  {
    assert words[i..][1..] == words[i + 1..];
  }

  lemma DeclareNothing(spec: Spec, words: seq<Word>)
    ensures DeclareAll(spec, words[|words|..]) == Some(spec)
  {
  }

  // ---------- What a list of words says ----------

  function FlagsOf(words: seq<Word>): set<string> {
    set w | w in words && w.Flag? :: w.name
  }

  /** The options given, with their values; the first value of each counts. */
  function Given(words: seq<Word>): map<string, string> {
    if words == [] then map[]
    else
      var m := Given(words[1..]);
      if words[0].Opt? then m[words[0].name := words[0].value] else m
  }

  /** The options named in `words` are new and differ from each other. */
  predicate NewOptions(taken: set<string>, words: seq<Word>) {
    && (forall i :: 0 <= i < |words| && words[i].Opt? ==> words[i].name !in taken)
    && (forall i, j :: 0 <= i < j < |words| && words[i].Opt? && words[j].Opt? ==> words[i].name != words[j].name)
  }

  /** Every flag and option is one the specification declares. */
  predicate KnownWords(spec: Spec, words: seq<Word>) {
    forall i :: 0 <= i < |words| ==>
      (words[i].Flag? ==> words[i].name in spec.flags) && (words[i].Opt? ==> words[i].name in spec.opts)
  }

  lemma FlagsOfCons(words: seq<Word>)
    requires words != []
    ensures FlagsOf(words) == FlagsOf(words[1..]) + if words[0].Flag? then {words[0].name} else {}
  {
    assert words == [words[0]] + words[1..];
  }

  lemma NewOptionsCons(taken: set<string>, words: seq<Word>)
    requires words != []
    ensures NewOptions(taken, words) <==>
      if words[0].Opt? then words[0].name !in taken && NewOptions(taken + {words[0].name}, words[1..])
      else NewOptions(taken, words[1..])
  {
    assert forall i :: 0 <= i < |words[1..]| ==> words[1..][i] == words[i + 1];
    assert words == [words[0]] + words[1..];
    if words[0].Opt? {
      if words[0].name !in taken && NewOptions(taken + {words[0].name}, words[1..]) {
        forall i, j | 0 <= i < j < |words| && words[i].Opt? && words[j].Opt?
          ensures words[i].name != words[j].name
        {
          assert words[j] == words[1..][j - 1];
        }
      }
    }
  }

  lemma KnownWordsCons(spec: Spec, words: seq<Word>)
    requires words != []
    ensures KnownWords(spec, words) <==>
      (words[0].Flag? ==> words[0].name in spec.flags) && (words[0].Opt? ==> words[0].name in spec.opts)
      && KnownWords(spec, words[1..])
  {
    assert forall i :: 0 <= i < |words[1..]| ==> words[1..][i] == words[i + 1];
    assert words == [words[0]] + words[1..];
  }

  /** Reading the options succeeds exactly on known words without repeated options, and records
      exactly the flags and options given. */
  lemma {:induction false} ReadWordsMeaning(spec: Spec, p: Parsed, words: seq<Word>)
    ensures ReadWords(spec, p, words).Ok? <==> KnownWords(spec, words) && NewOptions(p.args.Keys, words)
    ensures ReadWords(spec, p, words).Ok? ==>
      ReadWords(spec, p, words).value == Parsed(p.args + Given(words), p.flags + FlagsOf(words), p.rest)
    decreases |words|
  {
    if words == [] {
      assert p.args + map[] == p.args && p.flags + {} == p.flags;
    } else {
      FlagsOfCons(words);
      NewOptionsCons(p.args.Keys, words);
      KnownWordsCons(spec, words);
      var r := ReadWord(spec, p, words[0]);
      if r.Ok? {
        ReadWordsMeaning(spec, r.value, words[1..]);
        var rest := words[1..];
        if words[0].Opt? {
          var o, v := words[0].name, words[0].value;
          assert p.args[o := v].Keys == p.args.Keys + {o};
          if NewOptions(p.args.Keys + {o}, rest) {
            GivenNames(rest, o, p.args.Keys + {o});
            assert p.args[o := v] + Given(rest) == p.args + Given(rest)[o := v];
          }
        }
      }
    }
  }

  lemma {:induction false} GivenNames(words: seq<Word>, o: string, taken: set<string>)
    requires NewOptions(taken, words) && o in taken
    ensures o !in Given(words)
  {
    if words != [] {
      NewOptionsCons(taken, words);
      GivenNames(words[1..], o, if words[0].Opt? then taken + {words[0].name} else taken);
    }
  }

  predicate DistinctNames(names: seq<string>) {
    forall i, j :: 0 <= i < j < |names| ==> names[i] != names[j]
  }

  /** No two declarations share a name that a command line binds. */
  predicate DistinctSpec(spec: Spec) {
    DistinctNames(spec.args) && forall i :: 0 <= i < |spec.args| ==> spec.args[i] !in spec.opts
  }

  /** Distinct names that are not bound yet are bound to their texts, and nothing else changes. */
  lemma {:induction false} BindMeaning(m: map<string, string>, names: seq<string>, texts: seq<string>)
    requires |names| <= |texts| && DistinctNames(names) && forall i :: 0 <= i < |names| ==> names[i] !in m
    ensures var b := Bind(m, names, texts);
      && (forall i :: 0 <= i < |names| ==> names[i] in b && b[names[i]] == texts[i])
      && (forall k :: k in m ==> k in b && b[k] == m[k])
      && (forall k :: k in b ==> k in m || k in names)
    decreases |names|
  {
    if names != [] {
      var m' := Insert(m, names[0], texts[0]);
      assert m' == m[names[0] := texts[0]];
      forall i | 0 <= i < |names| - 1
        ensures names[1..][i] !in m'
      {
        assert names[i + 1] != names[0];
      }
      BindMeaning(m', names[1..], texts[1..]);
      assert names == [names[0]] + names[1..];
      forall i | 0 <= i < |names|
        ensures var b := Bind(m, names, texts); names[i] in b && b[names[i]] == texts[i]
      {
        if i > 0 {
          assert names[i] == names[1..][i - 1] && texts[i] == texts[1..][i - 1];
        }
      }
    }
  }

  // ---------- Command lines: exactly what is accepted, and what it means ----------

  /** The command lines that are accepted, for words that do not ask for help. */
  predicate Accepted(spec: Spec, words: seq<Word>) {
    var texts := Plains(words);
    && KnownWords(spec, words) && NewOptions({}, words)
    && |spec.args| <= |texts| && StdinOnce(texts[..|spec.args|])
    && (spec.rest == "" ==> |texts| == |spec.args|)
  }

  /** The assignment a command line stands for: each named argument has the text at its
      position, each option its given value or else its default, the flags are those given, and
      the rest argument has the remaining texts. */
  ghost predicate Assigns(spec: Spec, words: seq<Word>, p: Parsed) {
    var texts := Plains(words);
    && |spec.args| <= |texts|
    && (forall i :: 0 <= i < |spec.args| ==> spec.args[i] in p.args && p.args[spec.args[i]] == texts[i])
    && (forall o :: o in spec.opts ==>
          o in p.args && p.args[o] == if o in Given(words) then Given(words)[o] else spec.opts[o])
    && (forall k :: k in p.args ==> k in spec.args || k in spec.opts)
    && p.flags == FlagsOf(words)
    && p.rest == if spec.rest == "" then [] else texts[|spec.args|..]
  }

  lemma {:induction false} GivenKnown(spec: Spec, words: seq<Word>)
    requires KnownWords(spec, words)
    ensures Given(words).Keys <= spec.opts.Keys
  {
    if words != [] {
      KnownWordsCons(spec, words);
      GivenKnown(spec, words[1..]);
    }
  }

  /** For every command line without --help: it is accepted exactly when its words are, and
      then parsed to the assignment they stand for. */
  lemma ParseMeaning(spec: Spec, params: seq<string>)
    requires DistinctSpec(spec) && "help" !in FlagsOf(LineWords(params))
    ensures Parse(spec, params).Ok? <==> Accepted(spec, LineWords(params))
    ensures Parse(spec, params).Ok? ==> Assigns(spec, LineWords(params), Parse(spec, params).value)
  {
    var words := LineWords(params);
    ReadWordsMeaning(spec, NOTHING, words);
    assert NOTHING.args.Keys == {};
    assert NOTHING.args + Given(words) == Given(words) && NOTHING.flags + FlagsOf(words) == FlagsOf(words);
    hide LineWords, ReadWords, NewOptions, KnownWords, FlagsOf, StdinOnce, Bind, Given, Assigns;
    if Accepted(spec, words) {
      AssignsBound(spec, words);
    }
  }

  /** Binding the arguments over the given options and adding the defaults makes the assignment. */
  lemma AssignsBound(spec: Spec, words: seq<Word>)
    requires DistinctSpec(spec) && Accepted(spec, words)
    ensures var texts := Plains(words);
      Assigns(spec, words, Parsed(WithDefaults(Bind(Given(words), spec.args, texts), spec.opts), FlagsOf(words),
                                  if spec.rest == "" then [] else texts[|spec.args|..]))
  {
    GivenKnown(spec, words);
    hide KnownWords, NewOptions, StdinOnce, Plains, FlagsOf, Given, Bind;
    var given, texts := Given(words), Plains(words);
    BindMeaning(given, spec.args, texts);
    BoundWithDefaults(given, Bind(given, spec.args, texts), spec.args, texts, spec.opts);
    hide WithDefaults;
  }

  lemma BoundWithDefaults(given: map<string, string>, b: map<string, string>, names: seq<string>, texts: seq<string>,
                          opts: map<string, string>)
    requires |names| <= |texts| && given.Keys <= opts.Keys && forall i :: 0 <= i < |names| ==> names[i] !in opts
    requires forall i :: 0 <= i < |names| ==> names[i] in b && b[names[i]] == texts[i]
    requires (forall k :: k in given ==> k in b && b[k] == given[k]) && forall k :: k in b ==> k in given || k in names
    ensures var d := WithDefaults(b, opts);
      && (forall i :: 0 <= i < |names| ==> names[i] in d && d[names[i]] == texts[i])
      && (forall o :: o in opts ==> o in d && d[o] == if o in given then given[o] else opts[o])
      && (forall k :: k in d ==> k in names || k in opts)
  {
  }

  /** With --help among the known words the positional arguments are not looked at: the flags
      and the options given are recorded, and nothing else. */
  lemma ParseHelp(spec: Spec, params: seq<string>)
    requires "help" in FlagsOf(LineWords(params))
    ensures Parse(spec, params).Ok? <==> KnownWords(spec, LineWords(params)) && NewOptions({}, LineWords(params))
    ensures Parse(spec, params).Ok? ==>
      Parse(spec, params).value == Parsed(Given(LineWords(params)), FlagsOf(LineWords(params)), [])
  {
    ReadWordsMeaning(spec, NOTHING, LineWords(params));
    assert NOTHING.args.Keys == {};
    assert NOTHING.args + Given(LineWords(params)) == Given(LineWords(params));
    assert NOTHING.flags + FlagsOf(LineWords(params)) == FlagsOf(LineWords(params));
  }

  lemma {:induction false} ReadAppend(spec: Spec, p: Parsed, s: seq<Word>, t: seq<Word>)
    ensures ReadWords(spec, p, s + t) ==
      match ReadWords(spec, p, s) case Err(e) => Err(e) case Ok(next) => ReadWords(spec, next, t)
    decreases |s|
  {
    hide ReadWord;
    if s == [] {
      assert s + t == t;
    } else {
      assert (s + t)[1..] == s[1..] + t;
      var next := ReadWord(spec, p, s[0]);
      if next.Ok? {
        ReadAppend(spec, next.value, s[1..], t);
      }
    }
  }

  /** The first flag or option that is not in order is the one objected to. */
  lemma FirstObjection(spec: Spec, words: seq<Word>, i: nat)
    requires i < |words| && KnownWords(spec, words[..i]) && NewOptions({}, words[..i])
    ensures words[i].Flag? && words[i].name !in spec.flags ==>
      ReadWords(spec, NOTHING, words) == Err(if words[i].name in spec.opts then OptionWithoutValue else UnknownFlag)
    ensures words[i].Opt? && words[i].name !in spec.opts ==> ReadWords(spec, NOTHING, words) == Err(UnknownOption)
    ensures words[i].Opt? && words[i].name in spec.opts && words[i].name in Given(words[..i]) ==>
      ReadWords(spec, NOTHING, words) == Err(DuplicatedOption)
  {
    var before, after := words[..i], words[i..];
    assert words == before + after && after[0] == words[i];
    assert NOTHING.args.Keys == {};
    ReadWordsMeaning(spec, NOTHING, before);
    assert NOTHING.args + Given(before) == Given(before);
    hide Given, KnownWords, NewOptions;
    ReadAppend(spec, NOTHING, before, after);
  }

  /** With the flags and options in order and no --help, the positional arguments are refused for
      being too few, then for naming standard input twice, then for being too many. */
  lemma PositionalObjections(spec: Spec, params: seq<string>)
    requires KnownWords(spec, LineWords(params)) && NewOptions({}, LineWords(params))
    requires "help" !in FlagsOf(LineWords(params))
    ensures var texts := Plains(LineWords(params)); var n := |spec.args|; var r := Parse(spec, params);
      && (r == Err(TooFewArguments) <==> |texts| < n)
      && (r == Err(RepeatedStdin) <==> n <= |texts| && !StdinOnce(texts[..n]))
      && (r == Err(TooManyArguments) <==> n < |texts| && spec.rest == "" && StdinOnce(texts[..n]))
      && (r.Err? ==> r.error in {TooFewArguments, RepeatedStdin, TooManyArguments})
  {
    ReadWordsMeaning(spec, NOTHING, LineWords(params));
    assert NOTHING.args.Keys == {};
    assert NOTHING.flags + FlagsOf(LineWords(params)) == FlagsOf(LineWords(params));
    hide Given, KnownWords, NewOptions, StdinOnce, ReadWords, LineWords, Plains, FlagsOf;
  }

  lemma {:induction false} InsertAllMeaning(opts: map<string, string>, names: seq<string>)
    ensures forall o :: o in InsertAll(opts, names) <==> o in opts || o in names
    ensures forall o :: o in InsertAll(opts, names) ==>
      InsertAll(opts, names)[o] == if o in opts then opts[o] else ""
    decreases |names|
  {
    if names != [] {
      InsertAllMeaning(Insert(opts, names[0], ""), names[1..]);
      assert forall o :: o in names <==> o == names[0] || o in names[1..];
    }
  }

  /** The extra flags are declared, and so are the extra options, with an empty default unless the
      specification has one; nothing else changes. */
  lemma ExtrasMeaning(spec: Spec, extraFlags: seq<string>, extraOpts: seq<string>)
    ensures var s := WithExtras(spec, extraFlags, extraOpts);
      && s.args == spec.args && s.rest == spec.rest
      && (forall f :: f in s.flags <==> f in spec.flags || f in extraFlags)
      && (forall o :: o in s.opts <==> o in spec.opts || o in extraOpts)
      && (forall o :: o in s.opts ==> s.opts[o] == if o in spec.opts then spec.opts[o] else "")
  {
    InsertAllMeaning(spec.opts, extraOpts);
  }

  // ---------- Rendering ----------

  /** The words that can be written on a command line. */
  predicate Renderable(w: Word) {
    match w
    case Flag(name) => '=' !in name
    case Opt(name, _) => '=' !in name
    case Rest(_) => false
    case Plain(text) => !Dashed(text)
  }

  function Render(w: Word): string {
    match w
    case Flag(name) => "--" + name
    case Opt(name, value) => "--" + name + "=" + value
    case Rest(name) => "*" + name
    case Plain(text) => text
  }

  lemma FindEquals(s: string)
    ensures var i := Find(s, "="); (i < |s| ==> s[i] == '=') && forall j :: 0 <= j < i ==> s[j] != '='
  {
    hide Find;
    var i := Find(s, "=");
    assert i < |s| ==> s[i..][0] == s[i];
    forall j | 0 <= j < i
      ensures s[j] != '='
    {
      assert s[j..][0] == s[j];
    }
  }

  /** The first "=" is where it stands after a name without one. */
  lemma FindAfter(name: string, tail: string)
    requires '=' !in name
    ensures Find(name + "=" + tail, "=") == |name|
    ensures Find(name, "=") == |name|
  {
    FindEquals(name + "=" + tail);
    FindEquals(name);
    hide Find;
    assert (name + "=" + tail)[|name|] == '=';
    assert forall j :: 0 <= j < |name| ==> (name + "=" + tail)[j] == name[j] && name[j] in name;
  }

  lemma DashedParts(name: string, rest: string)
    requires '=' !in name
    ensures '=' !in "--" + name
    ensures ("--" + name)[2..] == name
    ensures var s := "--" + name + "=" + rest; s[2..2 + |name|] == name && s[|name| + 3..] == rest
  {
  }

  lemma CutAt(s: string, eq: nat)
    requires 2 <= eq < |s|
    ensures s == s[..2] + s[2..eq] + s[eq..eq + 1] + s[eq + 1..]
  {
    assert s == s[..eq] + s[eq..];
    assert s[..eq] == s[..2] + s[2..eq];
    assert s[eq..] == s[eq..eq + 1] + s[eq + 1..];
  }

  /** Reading a rendered word gives the word ... */
  lemma RenderRead(w: Word)
    requires Renderable(w)
    ensures LineWord(Render(w)) == w
  {
    hide Find;
    match w
    case Flag(name) =>
      DashedParts(name, "");
      FindAfter("--" + name, "");
    case Opt(name, value) =>
      DashedParts(name, value);
      FindAfter("--" + name, value);
    case Plain(_) =>
  }

  /** ... and every parameter is the rendering of the word it reads as. */
  lemma ReadRender(s: string)
    ensures Renderable(LineWord(s)) && Render(LineWord(s)) == s
  {
    if Dashed(s) {
      FindEquals(s);
      var eq := Find(s, "=");
      hide Find;
      if eq == |s| {
        assert s == "--" + s[2..];
      } else {
        var name, value := s[2..eq], s[eq + 1..];
        assert s[..2] == "--" && s[eq..eq + 1] == "=";
        CutAt(s, eq);
      }
    }
  }

  function Rendered(words: seq<Word>): seq<string> {
    seq(|words|, i requires 0 <= i < |words| => Render(words[i]))
  }

  /** Round trip: writing flags, options and positional arguments in any interleaving and
      parsing them gives back exactly that assignment. */
  lemma ParseOfRendered(spec: Spec, words: seq<Word>)
    requires DistinctSpec(spec) && "help" !in FlagsOf(words)
    requires forall i :: 0 <= i < |words| ==> Renderable(words[i])
    ensures LineWords(Rendered(words)) == words
    ensures Parse(spec, Rendered(words)).Ok? <==> Accepted(spec, words)
    ensures Accepted(spec, words) ==> Assigns(spec, words, Parse(spec, Rendered(words)).value)
  {
    forall i | 0 <= i < |words|
      ensures LineWord(Render(words[i])) == words[i]
    {
      RenderRead(words[i]);
    }
    assert LineWords(Rendered(words)) == words;
    ParseMeaning(spec, Rendered(words));
  }

  // ---------- Specification strings ----------

  /** The rest argument comes after all named arguments, is the only one, and has a name of at
      least two characters. */
  predicate RestLast(words: seq<Word>) {
    forall i :: 0 <= i < |words| && words[i].Rest? ==>
      |words[i].name| >= 2 && forall j :: i < j < |words| ==> !words[j].Rest? && !words[j].Plain?
  }

  function RestOf(words: seq<Word>): string {
    if words == [] then ""
    else if words[0].Rest? then words[0].name
    else RestOf(words[1..])
  }

  /** No positional words: all that may follow a rest argument. */
  predicate NoPositionals(words: seq<Word>) {
    forall j :: 0 <= j < |words| ==> !words[j].Rest? && !words[j].Plain?
  }

  lemma RestLastCons(words: seq<Word>)
    requires words != []
    ensures RestLast(words) <==>
      if words[0].Rest? then |words[0].name| >= 2 && NoPositionals(words[1..]) else RestLast(words[1..])
    ensures NoPositionals(words) <==> !words[0].Rest? && !words[0].Plain? && NoPositionals(words[1..])
  {
    var tail := words[1..];
    assert forall i :: 0 <= i < |tail| ==> tail[i] == words[i + 1];
    assert words == [words[0]] + tail;
  }

  /** What may still be declared after `spec`: positional words only while it has no rest. */
  predicate MayFollow(spec: Spec, words: seq<Word>) {
    if spec.rest == "" then RestLast(words) else NoPositionals(words)
  }

  /** `spec` with all that the words declare; an option that is declared already stays. */
  function Extended(spec: Spec, words: seq<Word>): Spec {
    Spec(spec.args + Plains(words), spec.flags + FlagsOf(words), Given(words) + spec.opts,
         if spec.rest == "" then RestOf(words) else spec.rest)
  }

  /** Declaring words succeeds exactly when the rest argument is in order, and declares exactly
      the arguments, flags, options and rest they name. */
  lemma {:induction false} DeclareMeaning(spec: Spec, words: seq<Word>)
    ensures DeclareAll(spec, words) == if MayFollow(spec, words) then Some(Extended(spec, words)) else None
    decreases |words|
  {
    if words == [] {
      assert FlagsOf(words) == {};
      assert spec.args + [] == spec.args && spec.flags + {} == spec.flags && map[] + spec.opts == spec.opts;
    } else {
      DeclareFollows(spec, words);
      var next := Declare(spec, words[0]);
      if next.Some? {
        ExtendedStep(spec, words);
        DeclareMeaning(next.value, words[1..]);
      }
    }
  }

  lemma DeclareFollows(spec: Spec, words: seq<Word>)
    requires words != []
    ensures var next := Declare(spec, words[0]);
      MayFollow(spec, words) <==> next.Some? && MayFollow(next.value, words[1..])
  {
    RestLastCons(words);
    hide RestLast, NoPositionals;
    match words[0]
    case Rest(name) => assert |name| >= 2 ==> name != "";
    case Flag(_) =>
    case Opt(_, _) =>
    case Plain(_) =>
  }

  lemma ExtendedStep(spec: Spec, words: seq<Word>)
    requires words != [] && Declare(spec, words[0]).Some?
    ensures Extended(Declare(spec, words[0]).value, words[1..]) == Extended(spec, words)
  {
    FlagsOfCons(words);
    OptionsStep(spec, words);
    PlainsCons(spec.args, words);
    hide FlagsOf, Given, Plains, Insert;
  }

  lemma PlainsCons(args: seq<string>, words: seq<Word>)
    requires words != []
    ensures args + Plains(words) == (if words[0].Plain? then args + [words[0].text] else args) + Plains(words[1..])
  {
    PlainsStep(args, words, 0);
    assert words[0..] == words;
  }

  lemma OptionsStep(spec: Spec, words: seq<Word>)
    requires words != [] && Declare(spec, words[0]).Some?
    ensures Given(words[1..]) + Declare(spec, words[0]).value.opts == Given(words) + spec.opts
  {
    if words[0].Opt? {
      InsertUnder(Given(words[1..]), spec.opts, words[0].name, words[0].value);
    }
  }

  lemma InsertUnder(given: map<string, string>, opts: map<string, string>, name: string, value: string)
    ensures given + Insert(opts, name, value) == given[name := value] + opts
  {
  }

  /** Among several values for one option the first counts. */
  lemma {:induction false} GivenIsFirst(words: seq<Word>, i: nat)
    requires i < |words| && words[i].Opt?
    requires forall j :: 0 <= j < i && words[j].Opt? ==> words[j].name != words[i].name
    ensures words[i].name in Given(words) && Given(words)[words[i].name] == words[i].value
  {
    if i > 0 {
      assert forall j :: 0 <= j < i - 1 ==> words[1..][j] == words[j + 1];
      GivenIsFirst(words[1..], i - 1);
    }
  }

  /** The words that can be written in a specification. */
  predicate Declarable(w: Word) {
    && ' ' !in Render(w)
    && match w
       case Flag(name) => '=' !in name && name != ""
       case Opt(name, _) => '=' !in name
       case Rest(_) => true
       case Plain(text) => text != "" && text[0] != '*' && (Dashed(text) ==> |text| == 2)
  }

  lemma DeclarableRead(w: Word)
    requires Declarable(w)
    ensures Piece(Render(w), ' ') && SpecWord(Render(w)) == w
  {
    hide Find;
    match w
    case Flag(name) =>
      DashedParts(name, "");
      FindAfter("--" + name, "");
    case Opt(name, value) =>
      DashedParts(name, value);
      FindAfter("--" + name, value);
    case Rest(name) =>
      assert ("*" + name)[1..] == name;
    case Plain(_) =>
  }

  lemma RenderedParts(command: string, words: seq<Word>)
    requires Piece(command, ' ') && forall i :: 0 <= i < |words| ==> Declarable(words[i])
    ensures var parts := [command] + Rendered(words);
      (forall i :: 0 <= i < |parts| ==> Piece(parts[i], ' ')) && parts[1..] == Rendered(words)
    ensures SpecWords(Rendered(words)) == words
  {
    forall i | 0 <= i < |words|
      ensures Piece(Rendered(words)[i], ' ') && SpecWord(Rendered(words)[i]) == words[i]
    {
      DeclarableRead(words[i]);
    }
    hide Declarable, SpecWord;
  }

  /** Round trip for specifications: the string that lists the command name and any declarable
      words declares exactly what the words say, or is rejected for its rest argument. */
  lemma SpecOfRendered(command: string, words: seq<Word>, extraFlags: seq<string>, extraOpts: seq<string>)
    requires Piece(command, ' ') && forall i :: 0 <= i < |words| ==> Declarable(words[i])
    ensures SpecOf(Join([command] + Rendered(words), ' '), extraFlags, extraOpts) ==
      if RestLast(words) then
        Ok(WithExtras(Spec(Plains(words), FlagsOf(words), Given(words), RestOf(words)), extraFlags, extraOpts))
      else Err(InvalidSpec)
  {
    RenderedParts(command, words);
    hide Rendered, Declarable, SpecWords, Join, Runs;
    SplitOfJoin([command] + Rendered(words), ' ');
    DeclareFromNothing(words);
    hide DeclareAll, RestLast, WithExtras, Plains, FlagsOf, Given, RestOf;
  }

  /** The two errors: a blank at the end, and, splitting being possible, no command name or words
      that cannot be declared. */
  lemma SpecErrors(text: string, extraFlags: seq<string>, extraOpts: seq<string>)
    ensures SpecOf(text, extraFlags, extraOpts) == Err(UnableToSplit) <==> text != "" && text[|text| - 1] == ' '
    ensures forall i :: 0 <= i < |Runs(text, ' ', "")| ==> Runs(text, ' ', "")[i] != ""
    ensures SpecOf(text, extraFlags, extraOpts) == Err(InvalidSpec) <==>
      (text != "" ==> text[|text| - 1] != ' ') &&
      (Runs(text, ' ', "") == [] || !RestLast(SpecWords(Runs(text, ' ', "")[1..])))
  {
    RunsArePieces(text, ' ', "");
    if Runs(text, ' ', "") != [] {
      DeclareFromNothing(SpecWords(Runs(text, ' ', "")[1..]));
    }
    hide Runs, DeclareAll, RestLast, SpecWords, WithExtras;
  }

  lemma DeclareFromNothing(words: seq<Word>)
    ensures DeclareAll(EMPTY, words) ==
      if RestLast(words) then Some(Spec(Plains(words), FlagsOf(words), Given(words), RestOf(words))) else None
  {
    DeclareMeaning(EMPTY, words);
    assert [] + Plains(words) == Plains(words) && {} + FlagsOf(words) == FlagsOf(words);
    assert Given(words) + EMPTY.opts == Given(words);
  }

  /** Lists come through a command line: the rest argument is everything after the named ones,
      and an option given as items joined by commas is read back as these items. */
  lemma ListsOfRendered(spec: Spec, words: seq<Word>, o: string, items: seq<string>)
    requires DistinctSpec(spec) && "help" !in FlagsOf(words) && Accepted(spec, words)
    requires forall i :: 0 <= i < |words| ==> Renderable(words[i])
    requires forall i :: 0 <= i < |items| ==> Piece(items[i], ',')
    requires o in Given(words) && Given(words)[o] == Join(items, ',') && o != spec.rest
    ensures Parse(spec, Rendered(words)).Ok?
    ensures var p := Parse(spec, Rendered(words)).value;
      ListOf(spec, p, o) == Some(items)
      && (spec.rest != "" ==> ListOf(spec, p, spec.rest) == Some(Plains(words)[|spec.args|..]))
  {
    hide Parse, Rendered, Plains, Given, Join, Runs, Renderable, DistinctSpec;
    ParseOfRendered(spec, words);
    GivenKnown(spec, words);
    SplitOfJoin(items, ',');
    var p := Parse(spec, Rendered(words)).value;
    assert Assigns(spec, words, p);
  }
}
