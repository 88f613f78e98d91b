/** `ModulesChooser`: which modules a build loads, and why the others are not loaded. */
module ModulesChooser {
  import opened Dependencies
  import opened Wrappers

  datatype LoadOn = Never | Request | Vendor | Dep | Always | Auto | Unknown

  datatype ModuleInfo = ModuleInfo(
    cpuOk: bool, osOk: bool, compilerOk: bool, flagsOk: bool,
    deprecated: bool, experimental: bool, isVirtual: bool,
    loadOn: LoadOn, dependencies: seq<Choices>)

  /** A module that is usable everywhere. */
  function Plain(loadOn: LoadOn, dependencies: seq<Choices>): ModuleInfo {
    ModuleInfo(true, true, true, true, false, false, false, loadOn, dependencies)
  }

  datatype Options = Options(
    enabled: set<Name>, disabled: set<Name>, noAutoload: bool,
    enableDeprecated: bool, enableExperimental: bool, amalgamation: bool, gcc: bool)

  datatype Policy = Policy(required: set<Name>, ifAvailable: set<Name>, prohibited: set<Name>)

  datatype Reason =
    | IncompatibleCPU | IncompatibleOS | IncompatibleCompiler | IncompatibleCompilerFlags
    | Deprecated | Experimental | DisabledByUser | ProhibitedByPolicy | DisabledAsBuggy
    | ByRequestOnly | RequiresExternalDependency | NoCompressionSchemes | CompilerBug
    | DependencyFailure | NotRequested

  /** A logged error ends the program; `InternalError` is the exception of the final check. */
  datatype Failure = LoggedError | InternalError

  /** What the first pass decides about a module on its own. */
  datatype Verdict = Load | MaybeLater | Refuse | Abort

  datatype Outcome = Chosen(loaded: set<Name>) | Stopped(failure: Failure)

  type Record = map<Reason, set<Name>>

  /** The modules recorded under a reason. */
  function At(record: Record, r: Reason): set<Name> {
    if r in record then record[r] else {}
  }

  function Noted(record: Record, r: Reason, names: set<Name>): Record {
    record[r := At(record, r) + names]
  }

  /** n recorded under a reason, if there is one. */
  function NotedIf(record: Record, why: Option<Reason>, n: Name): Record {
    match why
    case Some(r) => Noted(record, r, {n})
    case None => record
  }

  /** All modules recorded under any reason. */
  function Recorded(record: Record): set<Name> {
    set r, n | r in record && n in record[r] :: n
  }

  lemma RecordedNoted(record: Record, r: Reason, names: set<Name>)
    ensures Recorded(Noted(record, r, names)) == Recorded(record) + names
    ensures forall q :: At(Noted(record, r, names), q) == At(record, q) + if q == r then names else {}
  {
    var after := Noted(record, r, names);
    forall x
      ensures x in Recorded(after) <==> x in Recorded(record) + names
    {
      if x in names {
        assert x in after[r];
      }
      if x in Recorded(record) {
        var q :| q in record && x in record[q];
        assert q in after && x in after[q];
      }
    }
  }

  lemma NothingRecorded(record: Record)
    ensures Recorded(record) == {} ==> forall r :: At(record, r) == {}
  {
    forall r | r in record && record[r] != {}
      ensures Recorded(record) != {}
    {
      var n :| n in record[r];
      assert n in Recorded(record);
    }
  }

  lemma RecordedNotedIf(record: Record, why: Option<Reason>, n: Name)
    ensures Recorded(NotedIf(record, why, n)) == Recorded(record) + if why.Some? then {n} else {}
    ensures forall q :: At(NotedIf(record, why, n), q) == At(record, q) + if why == Some(q) then {n} else {}
  {
    hide Recorded, At, Noted;
    if why.Some? {
      RecordedNoted(record, why.value, {n});
    }
  }

  class ModulesChooser {
    const modules: map<Name, ModuleInfo>
    const policy: Option<Policy>
    const options: Options
    /** Python's order of the alternatives of each dependency. */
    const order: Order

    var toLoad: set<Name>
    var maybeDep: set<Name>
    var notUsing: Record

    constructor (modules: map<Name, ModuleInfo>, policy: Option<Policy>, options: Options, order: Order)
      ensures this.modules == modules && this.policy == policy && this.options == options && this.order == order
      ensures toLoad == {} && maybeDep == {} && Refused() == {}
    {
      this.modules, this.policy, this.options, this.order := modules, policy, options, order;
      toLoad, maybeDep, notUsing := {}, {}, map[];
    }

    /** The modules with at least one reason for not being used. */
    function Refused(): set<Name>
      reads this`notUsing
    {
      Recorded(notUsing)
    }

    // ---------- What the configuration says of one module ----------

    predicate Usable(n: Name)
      requires n in modules
    {
      var m := modules[n];
      && m.cpuOk && m.osOk && m.compilerOk && m.flagsOk
      && (m.deprecated ==> options.enableDeprecated || n in options.enabled)
      && (m.experimental ==> options.enableExperimental || n in options.enabled)
    }

    predicate Disabled(n: Name) {
      n in options.disabled
    }

    predicate Required(n: Name) {
      policy.Some? && n in policy.value.required
    }

    predicate IfAvailable(n: Name) {
      policy.Some? && n in policy.value.ifAvailable && !Required(n)
    }

    predicate Prohibited(n: Name) {
      policy.Some? && n in policy.value.prohibited && !Required(n) && n !in policy.value.ifAvailable
    }

    predicate Mentioned(n: Name) {
      Required(n) || IfAvailable(n) || Prohibited(n)
    }

    /** The first pass, as a table: policy first, then the user's choice, then `load_on`. */
    function VerdictOf(n: Name): Verdict
      requires n in modules
    {
      var m := modules[n];
      if Required(n) then
        if Usable(n) && !Disabled(n) && !m.isVirtual then Load else Abort
      else if IfAvailable(n) then
        if Disabled(n) then Refuse
        else if m.isVirtual then Abort
        else if Usable(n) then Load else Refuse
      else if Prohibited(n) then
        if n in options.enabled then Abort else Refuse
      else if Disabled(n) || !Usable(n) then Refuse
      else if n in options.enabled then Load
      else match m.loadOn
        case Never => Refuse
        case Request => Refuse
        case Vendor => Refuse
        case Dep => MaybeLater
        case Always => Load
        case Auto => if options.noAutoload || policy.Some? then MaybeLater else Load
        case Unknown => Abort
    }

    // ---------- Why a module is not used ----------

    /** The first thing that makes a module unusable, in the order of the checks. */
    function WhyUnusable(n: Name): (why: Option<Reason>)
      requires n in modules
      ensures why == None <==> Usable(n)
    {
      var m := modules[n];
      if !m.cpuOk then Some(IncompatibleCPU)
      else if !m.osOk then Some(IncompatibleOS)
      else if !m.compilerOk then Some(IncompatibleCompiler)
      else if !m.flagsOk then Some(IncompatibleCompilerFlags)
      else if m.deprecated && !options.enableDeprecated && n !in options.enabled then Some(Reason.Deprecated)
      else if m.experimental && !options.enableExperimental && n !in options.enabled then Some(Reason.Experimental)
      else None
    }

    /** What the policy, the user's choice or `load_on` adds to that. */
    function WhyLeftOut(n: Name): Option<Reason>
      requires n in modules
    {
      if Required(n) then None
      else if IfAvailable(n) then if Disabled(n) then Some(DisabledByUser) else None
      else if Prohibited(n) then Some(ProhibitedByPolicy)
      else if Disabled(n) then Some(DisabledByUser)
      else if !Usable(n) || n in options.enabled then None
      else WhyByLoadOn(n)
    }

    function WhyByLoadOn(n: Name): Option<Reason>
      requires n in modules
    {
      match modules[n].loadOn
      case Never => Some(DisabledAsBuggy)
      case Request => Some(ByRequestOnly)
      case Vendor => Some(RequiresExternalDependency)
      case Dep => None
      case Always => None
      case Auto => None
      case Unknown => None
    }

    /** The reasons the first pass records for a module. */
    function FirstReasons(n: Name): set<Reason>
      requires n in modules
    {
      (if WhyUnusable(n).Some? then {WhyUnusable(n).value} else {})
      + (if WhyLeftOut(n).Some? then {WhyLeftOut(n).value} else {})
    }

    /** A module is refused exactly when there is a reason. */
    lemma RefusedForReason(n: Name)
      requires n in modules && VerdictOf(n) != Abort
      ensures VerdictOf(n) == Refuse <==> FirstReasons(n) != {}
    {
    }

    /** All reasons recorded for a module in the end. */
    function AllReasons(n: Name, loaded: set<Name>): set<Reason>
      requires n in modules
    {
      FirstReasons(n)
      + (if n == "compression" && DropsCompression() then {NoCompressionSchemes} else {})
      + (if n == "argon2_avx2" && DropsArgon2() then {CompilerBug} else {})
      + (if n in Roots() - loaded then {DependencyFailure} else {})
      + (if n in With(MaybeLater) - loaded then {NotRequested} else {})
    }

    /** The modules recorded under r by the first pass, and in the end. */
    function FirstUnder(r: Reason): set<Name> {
      set n | n in modules && r in FirstReasons(n)
    }

    function Under(r: Reason, loaded: set<Name>): set<Name> {
      set n | n in modules && r in AllReasons(n, loaded)
    }

    function WithDropped(r: Reason): set<Name> {
      FirstUnder(r)
      + (if r == NoCompressionSchemes && DropsCompression() then {"compression"} else {})
      + (if r == CompilerBug && DropsArgon2() then {"argon2_avx2"} else {})
    }

    lemma UnderIs(r: Reason, loaded: set<Name>)
      ensures Under(r, loaded) == WithDropped(r)
        + (if r == DependencyFailure then Roots() - loaded else {})
        + (if r == NotRequested then With(MaybeLater) - loaded else {})
    {
      hide VerdictOf, FirstReasons;
    }

    lemma FirstUnderStep(n: Name, rest: set<Name>, r: Reason)
      requires n in rest && rest <= modules.Keys
      ensures FirstUnder(r) - (rest - {n}) == (FirstUnder(r) - rest)
        + (if WhyUnusable(n) == Some(r) then {n} else {}) + (if WhyLeftOut(n) == Some(r) then {n} else {})
    {
      hide WhyUnusable, WhyLeftOut;
    }

    /** With these records the refused modules are those with the verdict. */
    lemma RefusedAre(record: Record)
      requires With(Abort) == {} && forall r :: At(record, r) == FirstUnder(r)
      ensures Recorded(record) == With(Refuse)
    {
      hide VerdictOf, FirstReasons;
      forall n
        ensures n in Recorded(record) <==> n in With(Refuse)
      {
        if n in Recorded(record) {
          var r :| r in record && n in record[r];
          assert n in At(record, r);
          assert n in With(VerdictOf(n));
          RefusedForReason(n);
        }
        if n in With(Refuse) {
          RefusedForReason(n);
          var r :| r in FirstReasons(n);
          assert n in At(record, r);
        }
      }
    }

    function With(v: Verdict): set<Name> {
      set n | n in modules && VerdictOf(n) == v
    }

    /** The compression support code is dropped when none of its libraries was selected. */
    predicate DropsCompression() {
      "compression" in With(Load) && !("zlib" in With(Load)) && !("bzip2" in With(Load)) && !("lzma" in With(Load))
    }

    predicate DropsArgon2() {
      "argon2_avx2" in With(Load) && options.amalgamation && options.gcc
    }

    function Dropped(): set<Name> {
      (if DropsCompression() then {"compression"} else {}) + (if DropsArgon2() then {"argon2_avx2"} else {})
    }

    /** The modules wanted in their own right, before dependencies are looked at. */
    function Roots(): set<Name> {
      With(Load) - Dropped()
    }

    function Available(): (a: set<Name>)
      ensures a <= DependencyTable().Keys
    {
      Roots() + With(MaybeLater)
    }

    function DependencyTable(): Table {
      map n | n in modules :: modules[n].dependencies
    }

    // ---------- What a finished run means for the configuration ----------

    /** Somebody asked for the module: the policy, or the user. */
    predicate AskedFor(n: Name) {
      || (policy.Some? && (n in policy.value.required || n in policy.value.ifAvailable))
      || n in options.enabled
    }

    /** The policy prohibits the module and says nothing else of it. */
    predicate Barred(n: Name) {
      policy.Some? && n in policy.value.prohibited && n !in policy.value.required && n !in policy.value.ifAvailable
    }

    /** Modules load by themselves only without a policy, and unless the user turned that off. */
    predicate LoadsByItself(n: Name)
      requires n in modules
    {
      modules[n].loadOn == Always || (modules[n].loadOn == Auto && policy.None? && !options.noAutoload)
    }

    /** No check rules the module out. */
    predicate Fit(n: Name)
      requires n in modules
    {
      var m := modules[n];
      && m.cpuOk && m.osOk && m.compilerOk && m.flagsOk && n !in options.disabled && !Barred(n)
      && (!m.deprecated || options.enableDeprecated || n in options.enabled)
      && (!m.experimental || options.enableExperimental || n in options.enabled)
    }

    /** The modules wanted in their own right, and those that may serve as a dependency. */
    predicate Wanted(n: Name) {
      n in modules && Fit(n) && (AskedFor(n) || LoadsByItself(n))
    }

    predicate MayServe(n: Name) {
      && n in modules && Fit(n) && !Wanted(n)
      && (modules[n].loadOn == Dep || modules[n].loadOn == Auto)
    }

    /** The two modules taken back by name. */
    predicate TakenBack(n: Name) {
      || (n == "compression" && !Wanted("zlib") && !Wanted("bzip2") && !Wanted("lzma"))
      || (n == "argon2_avx2" && options.amalgamation && options.gcc)
    }

    /** The configurations that log an error before dependencies are looked at. */
    predicate Misconfigured(n: Name)
      requires n in modules
    {
      var m := modules[n];
      || (policy.Some? && n in policy.value.required && (!Fit(n) || m.isVirtual))
      || (policy.Some? && n in policy.value.ifAvailable && n !in policy.value.required
          && n !in options.disabled && m.isVirtual)
      || (Barred(n) && n in options.enabled)
      || (!AskedFor(n) && Fit(n) && m.loadOn == Unknown)
    }

    lemma AbortMeaning(n: Name)
      requires n in modules
      ensures VerdictOf(n) == Abort <==> Misconfigured(n)
    {
    }

    lemma LoadMeaning(n: Name)
      requires n in modules && VerdictOf(n) != Abort
      ensures VerdictOf(n) == Load <==> Wanted(n)
    {
    }

    lemma MaybeMeaning(n: Name)
      requires n in modules && VerdictOf(n) != Abort
      ensures VerdictOf(n) == MaybeLater <==> MayServe(n)
    {
    }

    /** The first pass stops exactly on a misconfigured module; otherwise these are the modules
        it leaves for the resolution of dependencies. */
    lemma FirstPassMeaning()
      ensures With(Abort) != {} <==> exists n :: n in modules && Misconfigured(n)
      ensures With(Abort) == {} ==> forall n :: n in With(Load) <==> Wanted(n)
      ensures With(Abort) == {} ==> forall n :: n in With(MaybeLater) <==> MayServe(n)
    {
      hide VerdictOf, Wanted, MayServe, Misconfigured;
      forall n | n in modules
        ensures n in With(VerdictOf(n)) && (VerdictOf(n) == Abort <==> Misconfigured(n))
        ensures VerdictOf(n) != Abort ==> (VerdictOf(n) == Load <==> Wanted(n))
        ensures VerdictOf(n) != Abort ==> (VerdictOf(n) == MaybeLater <==> MayServe(n))
      {
        AbortMeaning(n);
        if VerdictOf(n) != Abort {
          LoadMeaning(n);
          MaybeMeaning(n);
        }
      }
      OnlyModules();
    }

    lemma OnlyModules()
      ensures forall n :: (Wanted(n) ==> n in modules) && (MayServe(n) ==> n in modules)
    {
    }

    lemma DroppedMeaning()
      requires With(Abort) == {}
      ensures forall n :: n in Roots() <==> Wanted(n) && !TakenBack(n)
      ensures forall n :: n in Dropped() <==> Wanted(n) && TakenBack(n)
    {
      FirstPassMeaning();
      hide VerdictOf, Wanted, With;
    }

    /** The modules the resolution of dependencies chooses from. */
    ghost predicate Candidates(s: set<Name>) {
      forall n :: n in s <==>
        n in modules && Fit(n) && !(Wanted(n) && TakenBack(n))
        && (AskedFor(n) || modules[n].loadOn in {Always, Auto, Dep})
    }

    lemma AvailableMeaning()
      requires With(Abort) == {}
      ensures Candidates(Available())
    {
      FirstPassMeaning();
      DroppedMeaning();
      hide VerdictOf, With, Dropped, TakenBack, Roots, Fit, AskedFor;
    }

    /** Whatever is loaded is led to, through loaded modules, by one that was asked for or that
        loads by itself: under a policy, or with autoloading turned off, by one that was asked
        for or is always loaded. */
    lemma LoadedForCause(loaded: set<Name>, n: Name)
      requires With(Abort) == {} && LoadedFor(Available(), DependencyTable(), Roots(), loaded) && n in loaded
      ensures exists r :: r in loaded && r in modules && (AskedFor(r) || LoadsByItself(r))
                          && Reachable(loaded, DependencyTable(), r, n)
    {
      DroppedMeaning();
      hide VerdictOf, With, Roots, Dropped, TakenBack, Fit, AskedFor, LoadsByItself;
      hide Reachable, Resolvable, DependencyClosed;
      assert LeadsTo(loaded, DependencyTable(), Roots() * loaded, n);
      var r :| r in Roots() * loaded && Reachable(loaded, DependencyTable(), r, n);
      assert Wanted(r);
    }

    /** Every wanted module that is not taken back is loaded if and only if it can be resolved
        among the candidates. */
    lemma WantedLoaded(loaded: set<Name>, candidates: set<Name>, n: Name)
      requires With(Abort) == {} && LoadedFor(Available(), DependencyTable(), Roots(), loaded)
      requires Candidates(candidates) && candidates <= DependencyTable().Keys && Wanted(n) && !TakenBack(n)
      ensures n in loaded <==> Resolvable(candidates, DependencyTable(), {}, n)
    {
      DroppedMeaning();
      AvailableMeaning();
      SameCandidates(candidates, Available());
      hide VerdictOf, With, Roots, Available, Dropped, TakenBack, Wanted, Resolvable, DependencyClosed, LeadsTo;
      assert n in Roots();
    }

    lemma SameCandidates(s: set<Name>, t: set<Name>)
      requires Candidates(s) && Candidates(t)
      ensures s == t
    {
    }

    /** What is asked of a run that has chosen: the modules, and the reasons for the others. */
    ghost predicate Explained(loaded: set<Name>, record: Record) {
      && (forall n :: n in loaded ==> n in modules && Fit(n))
      && (policy.Some? || options.noAutoload ==> forall n :: n in loaded ==> LedToByRequest(loaded, n))
      && (policy.None? && !options.noAutoload ==> AutoloadedAre(loaded))
      && (forall n :: n in modules && !AskedFor(n) ==> UnaskedIs(n, loaded, record))
    }

    /** Some loaded module that the policy requires or allows, that the user enabled, or that is
        always loaded, leads to n through loaded modules. */
    ghost predicate LedToByRequest(loaded: set<Name>, n: Name) {
      exists r :: r in loaded && r in modules && (AskedFor(r) || modules[r].loadOn == Always)
                  && Reachable(loaded, DependencyTable(), r, n)
    }

    /** The fit modules that are enabled or whose load_on allows it, without those taken back. */
    ghost predicate AreAutoCandidates(s: set<Name>) {
      forall c :: c in s <==>
        && c in modules && Fit(c) && (c in options.enabled || modules[c].loadOn in {Always, Auto, Dep})
        && !(TakenBack(c) && (c in options.enabled || modules[c].loadOn in {Always, Auto}))
    }

    /** The modules with load_on auto or always are loaded if and only if they can be resolved
        among these. */
    ghost predicate AutoloadedAre(loaded: set<Name>) {
      forall candidates, n ::
        AreAutoCandidates(candidates) && candidates <= DependencyTable().Keys &&
        n in candidates && modules[n].loadOn in {Always, Auto}
        ==> (n in loaded <==> Resolvable(candidates, DependencyTable(), {}, n))
    }

    /** A module nobody asked for. */
    ghost predicate UnaskedIs(n: Name, loaded: set<Name>, record: Record)
      requires n in modules
    {
      && (modules[n].loadOn in {Never, Request, Vendor} ==> n !in loaded)
      && (modules[n].loadOn == Dep && n in loaded ==>
            exists r :: r in loaded && r in modules && r != n && Reachable(loaded, DependencyTable(), r, n))
      && (Fit(n) && modules[n].loadOn == Never ==> n in At(record, DisabledAsBuggy))
      && (Fit(n) && modules[n].loadOn == Request ==> n in At(record, ByRequestOnly))
      && (Fit(n) && modules[n].loadOn == Vendor ==> n in At(record, RequiresExternalDependency))
    }

    lemma RequestLeads(loaded: set<Name>, n: Name)
      requires With(Abort) == {} && LoadedFor(Available(), DependencyTable(), Roots(), loaded) && n in loaded
      requires policy.Some? || options.noAutoload
      ensures LedToByRequest(loaded, n)
    {
      hide VerdictOf, With, Roots, Available, LoadedFor, Reachable, AskedFor;
      LoadedForCause(loaded, n);
    }

    lemma AutoCandidatesAre(s: set<Name>)
      requires policy.None? && !options.noAutoload && AreAutoCandidates(s)
      ensures Candidates(s)
      ensures forall n :: n in s && modules[n].loadOn in {Always, Auto} ==> Wanted(n) && !TakenBack(n)
    {
      hide Fit, TakenBack;
    }

    lemma AutoloadedMeaning(loaded: set<Name>)
      requires With(Abort) == {} && LoadedFor(Available(), DependencyTable(), Roots(), loaded)
      requires policy.None? && !options.noAutoload
      ensures AutoloadedAre(loaded)
    {
      hide VerdictOf, With, Roots, Available, LoadedFor, Resolvable, Fit, TakenBack;
      forall candidates, n |
        AreAutoCandidates(candidates) && candidates <= DependencyTable().Keys &&
        n in candidates && modules[n].loadOn in {Always, Auto}
        ensures n in loaded <==> Resolvable(candidates, DependencyTable(), {}, n)
      {
        AutoCandidatesAre(candidates);
        WantedLoaded(loaded, candidates, n);
      }
    }

    lemma LoadedCandidate(loaded: set<Name>, n: Name)
      requires With(Abort) == {} && LoadedFor(Available(), DependencyTable(), Roots(), loaded) && n in loaded
      ensures n in modules && Fit(n) && (AskedFor(n) || modules[n].loadOn in {Always, Auto, Dep})
    {
      LoadedAvailable(Available(), DependencyTable(), Roots(), loaded);
      AvailableMeaning();
      hide VerdictOf, With, Roots, Available, LoadedFor, AskedFor, TakenBack, Fit, Wanted;
      assert n in Available();
    }

    lemma UnaskedLoaded(n: Name, loaded: set<Name>)
      requires With(Abort) == {} && LoadedFor(Available(), DependencyTable(), Roots(), loaded)
      requires n in modules && !AskedFor(n) && n in loaded
      ensures modules[n].loadOn !in {Never, Request, Vendor}
      ensures modules[n].loadOn == Dep ==>
        exists r :: r in loaded && r in modules && r != n && Reachable(loaded, DependencyTable(), r, n)
    {
      LoadedCandidate(loaded, n);
      LoadedForCause(loaded, n);
      hide VerdictOf, With, Roots, Available, LoadedFor, Reachable, AskedFor, Fit;
    }

    lemma UnaskedMeaning(n: Name, loaded: set<Name>, record: Record)
      requires With(Abort) == {} && LoadedFor(Available(), DependencyTable(), Roots(), loaded)
      requires n in modules && !AskedFor(n) && forall r :: At(record, r) == Under(r, loaded)
      ensures UnaskedIs(n, loaded, record)
    {
      UnaskedReasons(n, loaded);
      hide VerdictOf, With, Roots, Available, LoadedFor, Reachable, AskedFor, Under, At, Fit;
      if n in loaded {
        UnaskedLoaded(n, loaded);
      }
    }

    lemma UnaskedReasons(n: Name, loaded: set<Name>)
      requires n in modules && !AskedFor(n)
      ensures Fit(n) && modules[n].loadOn == Never ==> n in Under(DisabledAsBuggy, loaded)
      ensures Fit(n) && modules[n].loadOn == Request ==> n in Under(ByRequestOnly, loaded)
      ensures Fit(n) && modules[n].loadOn == Vendor ==> n in Under(RequiresExternalDependency, loaded)
    {
      hide VerdictOf, With, Roots, Available, Dropped;
    }

    lemma ChosenExplained(loaded: set<Name>, record: Record)
      requires With(Abort) == {} && LoadedFor(Available(), DependencyTable(), Roots(), loaded)
      requires forall r :: At(record, r) == Under(r, loaded)
      ensures Explained(loaded, record)
    {
      hide VerdictOf, With, Roots, Available, LoadedFor, Under, At, LedToByRequest, AutoloadedAre, UnaskedIs, AskedFor;
      hide Fit;
      forall n | n in loaded
        ensures n in modules && Fit(n)
      {
        LoadedCandidate(loaded, n);
      }
      if policy.Some? || options.noAutoload {
        forall n | n in loaded
          ensures LedToByRequest(loaded, n)
        {
          RequestLeads(loaded, n);
        }
      } else {
        AutoloadedMeaning(loaded);
      }
      forall n | n in modules && !AskedFor(n)
        ensures UnaskedIs(n, loaded, record)
      {
        UnaskedMeaning(n, loaded, record);
      }
    }

    // ---------- What each reason means ----------

    /** The compiler, the system and the processor do not rule the module out. */
    predicate Supported(n: Name)
      requires n in modules
    {
      modules[n].cpuOk && modules[n].osOk && modules[n].compilerOk && modules[n].flagsOk
    }

    /** Neither the policy, the user nor a check has settled what becomes of the module. */
    predicate LeftOpen(n: Name)
      requires n in modules
    {
      Fit(n) && !AskedFor(n)
    }

    /** Every reason holds exactly the modules it applies to, in terms of the configuration. */
    ghost predicate ReasonsAre(loaded: set<Name>, record: Record) {
      UnusableAre(record) && LeftOutAre(record) && LaterAre(loaded, record)
    }

    ghost predicate UnusableAre(record: Record) {
      && (forall n :: n in At(record, IncompatibleCPU) <==> n in modules && !modules[n].cpuOk)
      && (forall n :: n in At(record, IncompatibleOS) <==> n in modules && modules[n].cpuOk && !modules[n].osOk)
      && (forall n :: n in At(record, IncompatibleCompiler) <==>
            n in modules && modules[n].cpuOk && modules[n].osOk && !modules[n].compilerOk)
      && (forall n :: n in At(record, IncompatibleCompilerFlags) <==>
            n in modules && modules[n].cpuOk && modules[n].osOk && modules[n].compilerOk && !modules[n].flagsOk)
      && (forall n :: n in At(record, Reason.Deprecated) <==>
            n in modules && Supported(n) && modules[n].deprecated
            && !options.enableDeprecated && n !in options.enabled)
      && (forall n :: n in At(record, Reason.Experimental) <==>
            n in modules && Supported(n) && (modules[n].deprecated ==> options.enableDeprecated)
            && modules[n].experimental && !options.enableExperimental && n !in options.enabled)
    }

    ghost predicate LeftOutAre(record: Record) {
      && (forall n :: n in At(record, DisabledByUser) <==> n in modules && n in options.disabled && !Barred(n))
      && (forall n :: n in At(record, ProhibitedByPolicy) <==> n in modules && Barred(n))
      && (forall n :: n in At(record, DisabledAsBuggy) <==> n in modules && LeftOpen(n) && modules[n].loadOn == Never)
      && (forall n :: n in At(record, ByRequestOnly) <==> n in modules && LeftOpen(n) && modules[n].loadOn == Request)
      && (forall n :: n in At(record, RequiresExternalDependency) <==>
            n in modules && LeftOpen(n) && modules[n].loadOn == Vendor)
    }

    ghost predicate LaterAre(loaded: set<Name>, record: Record) {
      && (forall n :: n in At(record, NoCompressionSchemes) <==> n == "compression" && Wanted(n) && TakenBack(n))
      && (forall n :: n in At(record, CompilerBug) <==> n == "argon2_avx2" && Wanted(n) && TakenBack(n))
      && (forall n :: n in At(record, DependencyFailure) <==> Wanted(n) && !TakenBack(n) && n !in loaded)
      && (forall n :: n in At(record, NotRequested) <==> MayServe(n) && n !in loaded)
    }

    lemma UnusableMeaning(n: Name)
      requires n in modules
      ensures WhyUnusable(n) == Some(IncompatibleCPU) <==> !modules[n].cpuOk
      ensures WhyUnusable(n) == Some(IncompatibleOS) <==> modules[n].cpuOk && !modules[n].osOk
      ensures WhyUnusable(n) == Some(IncompatibleCompiler) <==>
        modules[n].cpuOk && modules[n].osOk && !modules[n].compilerOk
      ensures WhyUnusable(n) == Some(IncompatibleCompilerFlags) <==>
        modules[n].cpuOk && modules[n].osOk && modules[n].compilerOk && !modules[n].flagsOk
      ensures WhyUnusable(n) == Some(Reason.Deprecated) <==>
        Supported(n) && modules[n].deprecated && !options.enableDeprecated && n !in options.enabled
      ensures WhyUnusable(n) == Some(Reason.Experimental) <==>
        Supported(n) && (modules[n].deprecated ==> options.enableDeprecated)
        && modules[n].experimental && !options.enableExperimental && n !in options.enabled
    {
    }

    lemma LeftOutMeaning(n: Name)
      requires n in modules && VerdictOf(n) != Abort
      ensures WhyLeftOut(n) == Some(DisabledByUser) <==> n in options.disabled && !Barred(n)
      ensures WhyLeftOut(n) == Some(ProhibitedByPolicy) <==> Barred(n)
      ensures WhyLeftOut(n) == Some(DisabledAsBuggy) <==> LeftOpen(n) && modules[n].loadOn == Never
      ensures WhyLeftOut(n) == Some(ByRequestOnly) <==> LeftOpen(n) && modules[n].loadOn == Request
      ensures WhyLeftOut(n) == Some(RequiresExternalDependency) <==> LeftOpen(n) && modules[n].loadOn == Vendor
    {
    }

    predicate OfUnusable(r: Reason) {
      || r == IncompatibleCPU || r == IncompatibleOS || r == IncompatibleCompiler || r == IncompatibleCompilerFlags
      || r == Reason.Deprecated || r == Reason.Experimental
    }

    predicate OfLeftOut(r: Reason) {
      || r == DisabledByUser || r == ProhibitedByPolicy || r == DisabledAsBuggy || r == ByRequestOnly
      || r == RequiresExternalDependency
    }

    lemma ReasonKinds(n: Name)
      requires n in modules
      ensures WhyUnusable(n).Some? ==> OfUnusable(WhyUnusable(n).value)
      ensures WhyLeftOut(n).Some? ==> OfLeftOut(WhyLeftOut(n).value)
    {
    }

    lemma NotLater(r: Reason, n: Name, loaded: set<Name>)
      requires n in modules && (OfUnusable(r) || OfLeftOut(r))
      ensures r in AllReasons(n, loaded) <==> r in FirstReasons(n)
    {
      hide VerdictOf, FirstReasons, With, Roots, DropsCompression, DropsArgon2;
    }

    lemma FirstReasonsAre(r: Reason, n: Name)
      requires n in modules
      ensures OfUnusable(r) ==> (r in FirstReasons(n) <==> WhyUnusable(n) == Some(r))
      ensures OfLeftOut(r) ==> (r in FirstReasons(n) <==> WhyLeftOut(n) == Some(r))
    {
      ReasonKinds(n);
      assert !(OfUnusable(r) && OfLeftOut(r));
      hide WhyUnusable, WhyLeftOut, OfUnusable, OfLeftOut;
    }

    /** The reasons of the first pass, one by one. */
    lemma UnderFirst(r: Reason, loaded: set<Name>, n: Name)
      ensures OfUnusable(r) ==> (n in Under(r, loaded) <==> n in modules && WhyUnusable(n) == Some(r))
      ensures OfLeftOut(r) ==> (n in Under(r, loaded) <==> n in modules && WhyLeftOut(n) == Some(r))
    {
      hide VerdictOf, WhyUnusable, WhyLeftOut, OfUnusable, OfLeftOut, AllReasons, FirstReasons;
      if n in modules && (OfUnusable(r) || OfLeftOut(r)) {
        NotLater(r, n, loaded);
        FirstReasonsAre(r, n);
      }
    }

    /** The reasons that later steps add. */
    lemma UnderLater(loaded: set<Name>, n: Name)
      requires With(Abort) == {}
      ensures n in Under(NoCompressionSchemes, loaded) <==> n == "compression" && Wanted(n) && TakenBack(n)
      ensures n in Under(CompilerBug, loaded) <==> n == "argon2_avx2" && Wanted(n) && TakenBack(n)
      ensures n in Under(DependencyFailure, loaded) <==> Wanted(n) && !TakenBack(n) && n !in loaded
      ensures n in Under(NotRequested, loaded) <==> MayServe(n) && n !in loaded
    {
      FirstPassMeaning();
      DroppedMeaning();
      OnlyModules();
      if n in modules {
        ReasonKinds(n);
      }
      hide VerdictOf, WhyUnusable, WhyLeftOut, With, Roots, Wanted, MayServe;
    }

    lemma ReasonsMeaning(loaded: set<Name>, record: Record)
      requires With(Abort) == {} && forall r :: At(record, r) == Under(r, loaded)
      ensures ReasonsAre(loaded, record)
    {
      UnusableReasons(loaded, record);
      LeftOutReasons(loaded, record);
      LaterReasons(loaded, record);
      hide UnusableAre, LeftOutAre, LaterAre;
    }

    lemma UnusableReasons(loaded: set<Name>, record: Record)
      requires forall r :: At(record, r) == Under(r, loaded)
      ensures UnusableAre(record)
    {
      hide VerdictOf, With, Under, At, WhyUnusable, Supported;
      forall n
        ensures forall r :: OfUnusable(r) ==> (n in At(record, r) <==> n in modules && WhyUnusable(n) == Some(r))
      {
        forall r | OfUnusable(r)
          ensures n in At(record, r) <==> n in modules && WhyUnusable(n) == Some(r)
        {
          UnderFirst(r, loaded, n);
        }
      }
      forall n | n in modules
        ensures (WhyUnusable(n) == Some(IncompatibleCPU) <==> !modules[n].cpuOk)
        ensures (WhyUnusable(n) == Some(IncompatibleOS) <==> modules[n].cpuOk && !modules[n].osOk)
        ensures (WhyUnusable(n) == Some(IncompatibleCompiler) <==>
          modules[n].cpuOk && modules[n].osOk && !modules[n].compilerOk)
        ensures (WhyUnusable(n) == Some(IncompatibleCompilerFlags) <==>
          modules[n].cpuOk && modules[n].osOk && modules[n].compilerOk && !modules[n].flagsOk)
        ensures (WhyUnusable(n) == Some(Reason.Deprecated) <==>
          Supported(n) && modules[n].deprecated && !options.enableDeprecated && n !in options.enabled)
        ensures (WhyUnusable(n) == Some(Reason.Experimental) <==>
          Supported(n) && (modules[n].deprecated ==> options.enableDeprecated)
          && modules[n].experimental && !options.enableExperimental && n !in options.enabled)
      {
        UnusableMeaning(n);
      }
    }

    lemma LeftOutReasons(loaded: set<Name>, record: Record)
      requires With(Abort) == {} && forall r :: At(record, r) == Under(r, loaded)
      ensures LeftOutAre(record)
    {
      hide VerdictOf, Under, At, WhyLeftOut, LeftOpen, Barred;
      forall n
        ensures forall r :: OfLeftOut(r) ==> (n in At(record, r) <==> n in modules && WhyLeftOut(n) == Some(r))
      {
        forall r | OfLeftOut(r)
          ensures n in At(record, r) <==> n in modules && WhyLeftOut(n) == Some(r)
        {
          UnderFirst(r, loaded, n);
        }
      }
      forall n | n in modules
        ensures (WhyLeftOut(n) == Some(DisabledByUser) <==> n in options.disabled && !Barred(n))
        ensures (WhyLeftOut(n) == Some(ProhibitedByPolicy) <==> Barred(n))
        ensures (WhyLeftOut(n) == Some(DisabledAsBuggy) <==> LeftOpen(n) && modules[n].loadOn == Never)
        ensures (WhyLeftOut(n) == Some(ByRequestOnly) <==> LeftOpen(n) && modules[n].loadOn == Request)
        ensures (WhyLeftOut(n) == Some(RequiresExternalDependency) <==> LeftOpen(n) && modules[n].loadOn == Vendor)
      {
        assert n in With(VerdictOf(n));
        LeftOutMeaning(n);
      }
    }

    lemma LaterReasons(loaded: set<Name>, record: Record)
      requires With(Abort) == {} && forall r :: At(record, r) == Under(r, loaded)
      ensures LaterAre(loaded, record)
    {
      hide VerdictOf, With, Under, At, Wanted, TakenBack, MayServe;
      forall n
        ensures (n in At(record, NoCompressionSchemes) <==> n == "compression" && Wanted(n) && TakenBack(n))
        ensures (n in At(record, CompilerBug) <==> n == "argon2_avx2" && Wanted(n) && TakenBack(n))
        ensures (n in At(record, DependencyFailure) <==> Wanted(n) && !TakenBack(n) && n !in loaded)
        ensures (n in At(record, NotRequested) <==> MayServe(n) && n !in loaded)
      {
        UnderLater(loaded, n);
      }
    }

    // ---------- The passes ----------

    method AddReason(r: Reason, n: Name)
      modifies this`notUsing
      ensures notUsing == Noted(old(notUsing), r, {n})
    {
      notUsing := notUsing[r := (if r in notUsing then notUsing[r] else {}) + {n}];
    }

    method CheckUsable(n: Name) returns (usable: bool)
      requires n in modules
      modifies this`notUsing
      ensures usable == Usable(n)
      ensures notUsing == NotedIf(old(notUsing), WhyUnusable(n), n)
    {
      var m := modules[n];
      if !m.cpuOk {
        AddReason(IncompatibleCPU, n);
        return false;
      } else if !m.osOk {
        AddReason(IncompatibleOS, n);
        return false;
      } else if !m.compilerOk {
        AddReason(IncompatibleCompiler, n);
        return false;
      } else if !m.flagsOk {
        AddReason(IncompatibleCompilerFlags, n);
        return false;
      } else if m.deprecated && !options.enableDeprecated && n !in options.enabled {
        AddReason(Reason.Deprecated, n);
        return false;
      } else if m.experimental && n !in options.enabled && !options.enableExperimental {
        AddReason(Reason.Experimental, n);
        return false;
      }
      return true;
    }

    method HandleByModulePolicy(n: Name, usable: bool) returns (aborted: bool, handled: bool)
      requires n in modules && usable == Usable(n)
      modifies this`toLoad, this`notUsing
      ensures handled == Mentioned(n)
      ensures aborted <==> handled && VerdictOf(n) == Abort
      ensures !aborted && handled ==> toLoad == old(toLoad) + if VerdictOf(n) == Load then {n} else {}
      ensures !aborted && handled ==> notUsing == NotedIf(old(notUsing), WhyLeftOut(n), n)
      ensures !handled ==> toLoad == old(toLoad) && notUsing == old(notUsing)
    {
      var m := modules[n];
      aborted := false;
      if policy.Some? {
        if n in policy.value.required {
          if !usable {
            return true, true;
          } else if n in options.disabled {
            return true, true;
          } else if m.isVirtual {
            return true, true;
          }
          toLoad := toLoad + {n};
          return false, true;
        } else if n in policy.value.ifAvailable {
          if n in options.disabled {
            AddReason(DisabledByUser, n);
          } else if m.isVirtual {
            return true, true;
          } else if usable {
            toLoad := toLoad + {n};
          }
          return false, true;
        } else if n in policy.value.prohibited {
          if n in options.enabled {
            return true, true;
          }
          AddReason(ProhibitedByPolicy, n);
          return false, true;
        }
      }
      handled := false;
    }

    method HandleByLoadOn(n: Name) returns (aborted: bool)
      requires n in modules && !Mentioned(n) && Usable(n) && !Disabled(n) && n !in options.enabled
      modifies this`toLoad, this`maybeDep, this`notUsing
      ensures aborted <==> VerdictOf(n) == Abort
      ensures toLoad == old(toLoad) + if VerdictOf(n) == Load then {n} else {}
      ensures maybeDep == old(maybeDep) + if VerdictOf(n) == MaybeLater then {n} else {}
      ensures notUsing == NotedIf(old(notUsing), WhyLeftOut(n), n)
    {
      aborted := false;
      match modules[n].loadOn
      case Never => AddReason(DisabledAsBuggy, n);
      case Request => AddReason(ByRequestOnly, n);
      case Vendor => AddReason(RequiresExternalDependency, n);
      case Dep => maybeDep := maybeDep + {n};
      case Always => toLoad := toLoad + {n};
      case Auto =>
        if options.noAutoload || policy.Some? {
          maybeDep := maybeDep + {n};
        } else {
          toLoad := toLoad + {n};
        }
      case Unknown => aborted := true;
    }

    method AddReasons(r: Reason, names: set<Name>)
      modifies this`notUsing
      ensures notUsing == Noted(old(notUsing), r, names)
    {
      notUsing := notUsing[r := (if r in notUsing then notUsing[r] else {}) + names];
    }

    /** `_resolve_dependencies_for_all_modules`. */
    method ResolveDependenciesForAllModules()
      requires toLoad + maybeDep <= modules.Keys && Walks(order, DependencyTable())
      modifies this`toLoad, this`maybeDep, this`notUsing
      ensures LoadedFor(old(toLoad + maybeDep), DependencyTable(), old(toLoad), toLoad)
      ensures toLoad == AllLoaded(old(toLoad + maybeDep), DependencyTable(), order, old(toLoad))
      ensures maybeDep == old(maybeDep) - toLoad
      ensures notUsing == Noted(old(notUsing), DependencyFailure, old(toLoad) - toLoad)
    {
      hide Walks, LoadedFor, AllLoaded;
      var available := toLoad + maybeDep;
      var loaded := ResolveAll(available, DependencyTable(), order, toLoad);
      AddReasons(DependencyFailure, toLoad - loaded);
      toLoad := loaded;
      maybeDep := maybeDep - loaded;
    }

    /** The body of the loop over all modules. */
    method Consider(n: Name) returns (stop: bool)
      requires n in modules
      modifies this
      ensures stop <==> VerdictOf(n) == Abort
      ensures !stop ==> toLoad == old(toLoad) + if VerdictOf(n) == Load then {n} else {}
      ensures !stop ==> maybeDep == old(maybeDep) + if VerdictOf(n) == MaybeLater then {n} else {}
      ensures !stop ==> notUsing == NotedIf(NotedIf(old(notUsing), WhyUnusable(n), n), WhyLeftOut(n), n)
    {
      var usable := CheckUsable(n);
      var handled;
      stop, handled := HandleByModulePolicy(n, usable);
      if stop || handled {
        return;
      }
      if n in options.disabled {
        AddReason(DisabledByUser, n);
      } else if usable {
        if n in options.enabled {
          toLoad := toLoad + {n};  // trust the user
        } else {
          stop := HandleByLoadOn(n);
        }
      }
    }

    lemma Undecided()
      ensures forall v :: With(v) <= modules.Keys
    {
    }

    lemma Decided(n: Name, rest: set<Name>)
      requires n in rest && rest <= modules.Keys
      ensures forall v :: With(v) - (rest - {n}) == (With(v) - rest) + if VerdictOf(n) == v then {n} else {}
    {
    }

    /** The loop over all modules, in any order. */
    method FirstPass() returns (aborted: bool)
      requires toLoad == {} && maybeDep == {} && Refused() == {}
      modifies this
      ensures aborted <==> With(Abort) != {}
      ensures !aborted ==> toLoad == With(Load) && maybeDep == With(MaybeLater) && Refused() == With(Refuse)
      ensures !aborted ==> forall r :: At(notUsing, r) == FirstUnder(r)
    {
      NothingRecorded(notUsing);
      FirstUnderBounds();
      hide VerdictOf, With, WhyUnusable, WhyLeftOut, FirstUnder, At, Recorded, NotedIf;
      var rest := modules.Keys;
      Undecided();
      while rest != {}
        invariant rest <= modules.Keys
        invariant toLoad == With(Load) - rest && maybeDep == With(MaybeLater) - rest
        invariant forall r :: At(notUsing, r) == FirstUnder(r) - rest
        invariant With(Abort) - rest == {}
        decreases rest
      {
        var n :| n in rest;
        ghost var before := notUsing;
        var stop := Consider(n);
        Decided(n, rest);
        if stop {
          return true;
        }
        ConsideredReasons(before, n, rest);
        rest := rest - {n};
      }
      aborted := false;
      RefusedAre(notUsing);
    }

    lemma FirstUnderBounds()
      ensures forall r :: FirstUnder(r) <= modules.Keys
    {
    }

    lemma ConsideredReasons(before: Record, n: Name, rest: set<Name>)
      requires n in rest && rest <= modules.Keys && forall r :: At(before, r) == FirstUnder(r) - rest
      ensures forall r ::
        At(NotedIf(NotedIf(before, WhyUnusable(n), n), WhyLeftOut(n), n), r) == FirstUnder(r) - (rest - {n})
    {
      hide WhyUnusable, WhyLeftOut, FirstUnder, At, NotedIf, Recorded;
      RecordedNotedIf(before, WhyUnusable(n), n);
      RecordedNotedIf(NotedIf(before, WhyUnusable(n), n), WhyLeftOut(n), n);
      forall r
        ensures At(NotedIf(NotedIf(before, WhyUnusable(n), n), WhyLeftOut(n), n), r) == FirstUnder(r) - (rest - {n})
      {
        FirstUnderStep(n, rest, r);
      }
    }

    /** The two modules dropped after the first pass. */
    method DropSpecialCases()
      requires toLoad == With(Load) && Refused() == With(Refuse) && forall r :: At(notUsing, r) == FirstUnder(r)
      modifies this`toLoad, this`notUsing
      ensures toLoad == Roots() && Refused() == With(Refuse) + Dropped()
      ensures forall r :: At(notUsing, r) == WithDropped(r)
    {
      hide VerdictOf, FirstUnder, At, Recorded, Noted;
      if "compression" in toLoad {
        if "zlib" !in toLoad && "bzip2" !in toLoad && "lzma" !in toLoad {
          toLoad := toLoad - {"compression"};
          RecordedNoted(notUsing, NoCompressionSchemes, {"compression"});
          AddReason(NoCompressionSchemes, "compression");
        }
      }
      if "argon2_avx2" in toLoad && options.amalgamation && options.gcc {
        toLoad := toLoad - {"argon2_avx2"};
        RecordedNoted(notUsing, CompilerBug, {"argon2_avx2"});
        AddReason(CompilerBug, "argon2_avx2");
      }
    }

    /** The records of the last two steps. */
    lemma LastReasons(before: Record, loaded: set<Name>)
      requires Recorded(before) == With(Refuse) + Dropped()
      requires forall r :: At(before, r) == WithDropped(r)
      ensures var failed := Noted(before, DependencyFailure, Roots() - loaded);
        var after := Noted(failed, NotRequested, With(MaybeLater) - loaded);
        && (forall r :: At(after, r) == Under(r, loaded))
        && Recorded(after) == With(Refuse) + Dropped() + (Roots() - loaded) + (With(MaybeLater) - loaded)
    {
      hide With, Roots, Dropped, DropsCompression, DropsArgon2, Under, FirstUnder, At, Recorded, Noted;
      RecordedNoted(before, DependencyFailure, Roots() - loaded);
      RecordedNoted(Noted(before, DependencyFailure, Roots() - loaded), NotRequested, With(MaybeLater) - loaded);
      var after := Noted(Noted(before, DependencyFailure, Roots() - loaded), NotRequested, With(MaybeLater) - loaded);
      forall r
        ensures At(after, r) == Under(r, loaded)
      {
        UnderIs(r, loaded);
      }
    }

    predicate OnlyVirtual(loaded: set<Name>) {
      forall n :: n in loaded && n in modules ==> modules[n].isVirtual
    }

    /** `choose`.  A run that is not stopped by a logged error accounts for every module, and
        records exactly the reasons there are. */
    method Choose() returns (outcome: Outcome)
      requires toLoad == {} && maybeDep == {} && Refused() == {} && Walks(order, DependencyTable())
      modifies this
      ensures With(Abort) != {} ==> outcome.Stopped?
      ensures outcome.Stopped? ==> outcome.failure == LoggedError
      ensures outcome.Stopped? && With(Abort) == {} ==> OnlyVirtual(toLoad)
      ensures outcome.Chosen? ==> outcome.loaded == toLoad && toLoad <= modules.Keys
      ensures outcome.Chosen? ==> LoadedFor(Available(), DependencyTable(), Roots(), toLoad)
      ensures outcome.Chosen? ==> toLoad == AllLoaded(Available(), DependencyTable(), order, Roots())
      ensures outcome.Chosen? ==> forall n :: n in modules ==> (n in toLoad <==> n !in Refused())
      ensures outcome.Chosen? ==> forall n :: n in toLoad ==> Usable(n) && !Disabled(n) && !Prohibited(n)
      ensures outcome.Chosen? ==> exists n :: n in toLoad && !modules[n].isVirtual
      ensures outcome.Chosen? ==> forall r :: At(notUsing, r) == Under(r, toLoad)
      ensures outcome.Chosen? ==> forall n :: n in modules && Required(n) && n !in Dropped() ==>
        (n in toLoad <==> Resolvable(Available(), DependencyTable(), {}, n))
      ensures (exists n :: n in modules && Misconfigured(n)) ==> outcome.Stopped?
      ensures outcome.Stopped? ==>
        (exists n :: n in modules && Misconfigured(n)) || OnlyVirtual(toLoad)
      ensures outcome.Chosen? ==> Explained(toLoad, notUsing)
      ensures outcome.Chosen? ==> ReasonsAre(toLoad, notUsing)
    {
      hide VerdictOf, LoadedFor, AllLoaded, Walks, Recorded, At, Noted, FirstUnder, Under;
      hide Explained, ReasonsAre, Misconfigured;
      FirstPassMeaning();
      var aborted := FirstPass();
      if aborted {
        return Stopped(LoggedError);
      }
      DropSpecialCases();
      ghost var before := notUsing;
      ResolveDependenciesForAllModules();
      AddReasons(NotRequested, maybeDep);
      LastReasons(before, toLoad);
      LoadedAvailable(Available(), DependencyTable(), Roots(), toLoad);
      EveryModule(toLoad);
      RequiredFate(toLoad);
      ChosenExplained(toLoad, notUsing);
      ReasonsMeaning(toLoad, notUsing);
      hide With, Refused;
      var valid := ValidateState();
      if !valid {
        return Stopped(InternalError);
      }
      if forall n :: n in toLoad ==> modules[n].isVirtual {
        return Stopped(LoggedError);
      }
      outcome := Chosen(toLoad);
    }

    /** Every module is in exactly one of the parts the first pass and the two special cases make. */
    lemma EveryModule(loaded: set<Name>)
      requires With(Abort) == {} && loaded <= Available()
      ensures forall n :: n in modules ==>
        (n in loaded <==> n !in With(Refuse) + Dropped() + (Roots() - loaded) + (With(MaybeLater) - loaded))
      ensures forall n :: n in loaded ==> n in modules && Usable(n) && !Disabled(n) && !Prohibited(n)
    {
      forall n | n in modules
        ensures n in With(VerdictOf(n))
      {
      }
    }

    /** A module the policy requires is loaded exactly when its dependencies can be resolved: when
        they cannot, it is skipped without an error. */
    lemma RequiredFate(loaded: set<Name>)
      requires With(Abort) == {} && LoadedFor(Available(), DependencyTable(), Roots(), loaded)
      ensures forall n :: n in modules && Required(n) && n !in Dropped() ==>
        (n in loaded <==> Resolvable(Available(), DependencyTable(), {}, n))
    {
      hide Resolvable, LeadsTo, DependencyClosed, Dropped;
      forall n | n in modules && Required(n) && n !in Dropped()
        ensures n in Roots()
      {
        assert n in With(VerdictOf(n));
      }
    }

    /** A root with a dependency of which no alternative is available is not loaded. */
    lemma NotLoaded(n: Name, i: nat, loaded: set<Name>)
      requires n in Roots() && i < |modules[n].dependencies| && modules[n].dependencies[i] * Available() == {}
      requires LoadedFor(Available(), DependencyTable(), Roots(), loaded)
      ensures n !in loaded && DependencyFailure in AllReasons(n, loaded)
    {
      hide LeadsTo, Resolvable, FirstReasons;
      var table := DependencyTable();
      assert table[n][i] * loaded <= table[n][i] * Available() == {};
      assert !Met(table[n][i], loaded);
      assert !AllMet(table, n, loaded);
    }

    /** A configuration whose policy requires a, which needs b, which is never loaded. */
    predicate RequiresMissing(a: Name, b: Name, c: Name) {
      && a != b && b != c && c != a && modules.Keys == {a, b, c} && {"compression", "argon2_avx2"} !! {a, b, c}
      && modules[a] == Plain(Always, [{b}]) && modules[b] == Plain(Never, []) && modules[c] == Plain(Always, [])
      && policy == Some(Policy({a}, {}, {})) && options == Options({}, {}, false, false, false, false, false)
    }

    lemma VerdictsOfMissing(a: Name, b: Name, c: Name)
      requires RequiresMissing(a, b, c)
      ensures VerdictOf(a) == Load && VerdictOf(b) == Refuse && VerdictOf(c) == Load && Required(a)
    {
    }

    lemma RootsOfMissing(a: Name, b: Name, c: Name)
      requires RequiresMissing(a, b, c)
      ensures With(Abort) == {} && a in Roots() && c in Roots() && b !in Available()
    {
      VerdictsOfMissing(a, b, c);
      hide VerdictOf;
      assert forall n :: n in modules ==> n == a || n == b || n == c;
    }

    /** There every run gets past the first pass without an error, and loads c but not a. */
    lemma RequiredCanFail(a: Name, b: Name, c: Name, loaded: set<Name>)
      requires RequiresMissing(a, b, c) && LoadedFor(Available(), DependencyTable(), Roots(), loaded)
      ensures With(Abort) == {} && Required(a) && a !in loaded && DependencyFailure in AllReasons(a, loaded)
      ensures c in loaded && !modules[c].isVirtual
    {
      VerdictsOfMissing(a, b, c);
      RootsOfMissing(a, b, c);
      hide LoadedFor, AllReasons, Roots, Available, Required;
      assert modules[a].dependencies[0] * Available() == {};
      NotLoaded(a, 0, loaded);
      FreeLoaded(c, loaded);
    }

    /** A root without dependencies is loaded. */
    lemma FreeLoaded(n: Name, loaded: set<Name>)
      requires n in Roots() && modules[n].dependencies == []
      requires LoadedFor(Available(), DependencyTable(), Roots(), loaded)
      ensures n in loaded
    {
      assert SelfSupporting(Available(), DependencyTable(), {}, {n});
      assert Resolvable(Available(), DependencyTable(), {}, n);
    }

    /** `_validate_state`. */
    method ValidateState() returns (valid: bool)
      ensures valid <==> toLoad !! Refused()
    {
      var rest := notUsing.Keys;
      while rest != {}
        invariant rest <= notUsing.Keys
        invariant forall r :: r in notUsing.Keys - rest ==> notUsing[r] * toLoad == {}
        decreases rest
      {
        var r :| r in rest;
        if notUsing[r] * toLoad != {} {
          var n :| n in notUsing[r] * toLoad;
          assert n in toLoad * Refused();
          return false;
        }
        rest := rest - {r};
      }
      forall n | n in toLoad
        ensures n !in Refused()
      {
        forall r | r in notUsing
          ensures n !in notUsing[r]
        {
          assert n !in notUsing[r] * toLoad;
        }
      }
      valid := true;
    }
  }
}
