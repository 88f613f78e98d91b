/** Module dependency resolution: what it means for a module to be resolvable, the recursive
    resolver, and the proof that it decides exactly that, in whatever order Python walks its
    sets. */
module Dependencies {
  import opened Wrappers

  type Name = string

  /** One dependency: the alternatives of `a|b|c`, any one of which will do. */
  type Choices = set<Name>

  type Table = map<Name, seq<Choices>>

  predicate Met(choices: Choices, s: set<Name>) {
    choices * s != {}
  }

  /** Every dependency of m is met within s. */
  predicate AllMet(table: Table, m: Name, s: set<Name>)
    requires m in table
  {
    forall i :: 0 <= i < |table[m]| ==> Met(table[m][i], s)
  }

  /** s can be loaded as a whole, given that the modules in `assumed` are loaded already. */
  predicate SelfSupporting(available: set<Name>, table: Table, assumed: set<Name>, s: set<Name>)
    requires available <= table.Keys
  {
    s <= available && forall m :: m in s ==> AllMet(table, m, s + assumed)
  }

  ghost predicate Resolvable(available: set<Name>, table: Table, assumed: set<Name>, m: Name)
    requires available <= table.Keys
  {
    exists s :: m in s && SelfSupporting(available, table, assumed, s)
  }

  /** The resolvable modules, with nothing loaded beforehand. */
  ghost function Greatest(available: set<Name>, table: Table): set<Name>
    requires available <= table.Keys
  {
    set m | m in available && Resolvable(available, table, {}, m)
  }

  /** They form the greatest self-supporting set: itself self-supporting, and containing every
      other. */
  lemma GreatestIsGreatest(available: set<Name>, table: Table)
    requires available <= table.Keys
    ensures SelfSupporting(available, table, {}, Greatest(available, table))
    ensures forall s :: SelfSupporting(available, table, {}, s) ==> s <= Greatest(available, table)
  {
    var g := Greatest(available, table);
    forall s | SelfSupporting(available, table, {}, s)
      ensures s <= g
    {
      forall m | m in s
        ensures Resolvable(available, table, {}, m)
      {
      }
    }
    forall m | m in g
      ensures AllMet(table, m, g + {})
    {
      var s :| m in s && SelfSupporting(available, table, {}, s);
      AllMetMonotone(table, m, s + {}, g + {});
    }
  }

  lemma AllMetMonotone(table: Table, m: Name, s: set<Name>, t: set<Name>)
    requires m in table && s <= t && AllMet(table, m, s)
    ensures AllMet(table, m, t)
  {
    forall i | 0 <= i < |table[m]|
      ensures Met(table[m][i], t)
    {
      var c :| c in table[m][i] * s;
      assert c in table[m][i] * t;
    }
  }

  lemma ResolvableMonotone(available: set<Name>, table: Table, s: set<Name>, t: set<Name>, m: Name)
    requires available <= table.Keys && s <= t && Resolvable(available, table, s, m)
    ensures Resolvable(available, table, t, m)
  {
    var w :| m in w && SelfSupporting(available, table, s, w);
    forall x | x in w
      ensures AllMet(table, x, w + t)
    {
      AllMetMonotone(table, x, w + s, w + t);
    }
    assert SelfSupporting(available, table, t, w);
  }

  /** s contains every alternative in `within` of every dependency of its members. */
  predicate AlternativesClosed(within: set<Name>, table: Table, s: set<Name>) {
    forall m, i, c :: m in s && m in table && 0 <= i < |table[m]| && c in table[m][i] && c in within ==> c in s
  }

  /** x can be reached from m through alternatives in `within`: it is in every closed set
      around m. */
  ghost predicate Reachable(within: set<Name>, table: Table, m: Name, x: Name) {
    forall s :: m in s && AlternativesClosed(within, table, s) ==> x in s
  }

  lemma ReachableMonotone(small: set<Name>, large: set<Name>, table: Table, m: Name, x: Name)
    requires small <= large && Reachable(small, table, m, x)
    ensures Reachable(large, table, m, x)
  {
    forall s | m in s && AlternativesClosed(large, table, s)
      ensures x in s
    {
      assert AlternativesClosed(small, table, s);
    }
  }

  // ---------- The order in which alternatives are tried ----------

  /** The order in which Python walks the set of alternatives of dependency i of a module. */
  type Order = (Name, nat) -> seq<Name>

  predicate NoDuplicates(s: seq<Name>) {
    forall i, j :: 0 <= i < j < |s| ==> s[i] != s[j]
  }

  /** Each set is walked completely, each alternative once. */
  ghost predicate Walks(order: Order, table: Table) {
    forall m, i :: m in table && 0 <= i < |table[m]| ==> WalksOne(order(m, i), table[m][i])
  }

  ghost predicate WalksOne(walk: seq<Name>, choices: Choices) {
    NoDuplicates(walk) && forall c :: c in walk <==> c in choices
  }

  /** The names that are in s, in the same order. */
  function Among(walk: seq<Name>, s: set<Name>): (r: seq<Name>)
    ensures forall c :: c in r <==> c in walk && c in s
  {
    if walk == [] then [] else (if walk[0] in s then [walk[0]] else []) + Among(walk[1..], s)
  }

  // ---------- The resolver as a function of that order ----------

  /** The modules loaded by a call, or None when it fails. */
  ghost function Resolve(available: set<Name>, table: Table, order: Order, m: Name,
                         loadedIn: set<Name>): (r: Option<set<Name>>)
    requires available <= table.Keys && Walks(order, table)
    ensures r.Some? ==> loadedIn + {m} <= r.value
    decreases available - loadedIn - {m}, 2, 0
  {
    if m !in available then None
    else
      assert available - (loadedIn + {m}) == available - loadedIn - {m};
      MeetAll(available, table, order, m, loadedIn + {m}, 0)
  }

  /** Meeting the dependencies of m from number i on. */
  ghost function MeetAll(available: set<Name>, table: Table, order: Order, m: Name, loaded: set<Name>,
                         i: nat): (r: Option<set<Name>>)
    requires available <= table.Keys && Walks(order, table)
    requires m in available && i <= |table[m]|
    ensures r.Some? ==> loaded <= r.value
    decreases available - loaded, 1, |table[m]| - i
  {
    if i == |table[m]| then Some(loaded)
    else if table[m][i] * loaded != {} then MeetAll(available, table, order, m, loaded, i + 1)
    else
      Untried(available, table, order, m, loaded, i);
      var more := FirstToLoad(available, table, order, Among(order(m, i), available), loaded);
      if more.None? then None
      else
        assert available - more.value <= available - loaded;
        MeetAll(available, table, order, m, more.value, i + 1)
  }

  /** What the first alternative that can be loaded adds; the later ones are not tried. */
  ghost function FirstToLoad(available: set<Name>, table: Table, order: Order, possible: seq<Name>,
                             loaded: set<Name>): (r: Option<set<Name>>)
    requires available <= table.Keys && Walks(order, table)
    requires forall c :: c in possible ==> c in available && c !in loaded
    ensures r.Some? ==> loaded <= r.value
    decreases available - loaded, 0, |possible|
  {
    if possible == [] then None
    else
      assert possible[0] in possible;
      var more := Resolve(available, table, order, possible[0], loaded);
      if more.Some? then Some(loaded + {possible[0]} + more.value)
      else FirstToLoad(available, table, order, possible[1..], loaded)
  }

  lemma Untried(available: set<Name>, table: Table, order: Order, m: Name, loaded: set<Name>, i: nat)
    requires Walks(order, table) && m in table && i < |table[m]| && table[m][i] * loaded == {}
    ensures forall c :: c in Among(order(m, i), available) <==> c in table[m][i] * available
    ensures forall c :: c in Among(order(m, i), available) ==> c in available && c !in loaded
  {
    assert WalksOne(order(m, i), table[m][i]);
    forall c | c in Among(order(m, i), available)
      ensures c !in loaded
    {
      assert c !in table[m][i] * loaded;
    }
  }

  // ---------- The resolver ----------

  /** What the resolver knows about `loaded` once the first i dependencies of m are met. */
  ghost predicate Progress(available: set<Name>, table: Table, m: Name, loadedIn: set<Name>, i: nat, loaded: set<Name>)
    requires available <= table.Keys && m in available && i <= |table[m]|
  {
    && loadedIn + {m} <= loaded <= loadedIn + available
    && (forall j :: 0 <= j < i ==> Met(table[m][j], loaded))
    && (forall x :: x in loaded - loadedIn - {m} ==> AllMet(table, x, loaded))
    && (forall x :: x in loaded - loadedIn ==> Reachable(loaded, table, m, x))
  }

  /** What a successful call promises. */
  ghost predicate Resolved(available: set<Name>, table: Table, m: Name, loadedIn: set<Name>, loaded: set<Name>)
    requires available <= table.Keys
  {
    && m in available
    && loadedIn + {m} <= loaded <= loadedIn + available
    && (forall x :: x in loaded - loadedIn + {m} ==> AllMet(table, x, loaded))
    && (forall x :: x in loaded - loadedIn ==> Reachable(loaded, table, m, x))
  }

  lemma ProgressSkip(available: set<Name>, table: Table, order: Order, m: Name, loadedIn: set<Name>, i: nat,
                     loaded: set<Name>)
    requires available <= table.Keys && Walks(order, table) && m in available && i < |table[m]|
    requires Progress(available, table, m, loadedIn, i, loaded) && Met(table[m][i], loaded)
    ensures Progress(available, table, m, loadedIn, i + 1, loaded)
    ensures MeetAll(available, table, order, m, loaded, i) == MeetAll(available, table, order, m, loaded, i + 1)
  {
    hide Walks, FirstToLoad, Reachable;
  }

  lemma ProgressLoad(available: set<Name>, table: Table, m: Name, loadedIn: set<Name>, i: nat,
                     loaded: set<Name>, mod: Name, more: set<Name>)
    requires available <= table.Keys && m in available && i < |table[m]|
    requires Progress(available, table, m, loadedIn, i, loaded)
    requires mod in table[m][i] && Resolved(available, table, mod, loaded, more)
    ensures Progress(available, table, m, loadedIn, i + 1, more)
  {
    forall j | 0 <= j < i + 1
      ensures Met(table[m][j], more)
    {
      if j < i {
        var c :| c in table[m][j] * loaded;
        assert c in table[m][j] * more;
      } else {
        assert mod in table[m][j] * more;
      }
    }
    forall x | x in more - loadedIn - {m}
      ensures AllMet(table, x, more)
    {
      if x in loaded {
        assert x in loaded - loadedIn - {m};
        AllMetMonotone(table, x, loaded, more);
      }
    }
    forall x | x in more - loadedIn
      ensures Reachable(more, table, m, x)
    {
      if x !in loaded {
        ReachableThrough(more, table, m, i, mod, x);
      } else {
        ReachableMonotone(loaded, more, table, m, x);
      }
    }
  }

  lemma ReachableThrough(within: set<Name>, table: Table, m: Name, i: nat, mod: Name, x: Name)
    requires m in table && i < |table[m]| && mod in table[m][i] && mod in within
    requires Reachable(within, table, mod, x)
    ensures Reachable(within, table, m, x)
  {
    forall s | m in s && AlternativesClosed(within, table, s)
      ensures x in s
    {
      assert mod in s;
    }
  }

  lemma ProgressDone(available: set<Name>, table: Table, order: Order, m: Name, loadedIn: set<Name>, loaded: set<Name>)
    requires available <= table.Keys && Walks(order, table) && m in available
    requires Progress(available, table, m, loadedIn, |table[m]|, loaded)
    ensures Resolved(available, table, m, loadedIn, loaded) && Resolvable(available, table, loadedIn, m)
    ensures MeetAll(available, table, order, m, loaded, |table[m]|) == Some(loaded)
  {
    hide Walks, FirstToLoad, Reachable;
    var s := loaded - loadedIn + {m};
    assert s + loadedIn == loaded;
    assert SelfSupporting(available, table, loadedIn, s);
  }

  /** If one dependency has no alternative that can be loaded on top of what is loaded so far,
      then m was not resolvable to begin with. */
  lemma Unresolvable(available: set<Name>, table: Table, m: Name, loadedIn: set<Name>, i: nat, loaded: set<Name>)
    requires available <= table.Keys && m in available && i < |table[m]| && loadedIn <= loaded
    requires table[m][i] * loaded == {}
    requires forall c :: c in table[m][i] * available ==> !Resolvable(available, table, loaded, c)
    ensures !Resolvable(available, table, loadedIn, m)
  {
    if Resolvable(available, table, loadedIn, m) {
      var s :| m in s && SelfSupporting(available, table, loadedIn, s);
      assert Met(table[m][i], s + loadedIn);
      var c :| c in table[m][i] * (s + loadedIn);
      assert c !in loaded by {
        assert c !in table[m][i] * loaded;
      }
      assert c in s;
      assert Resolvable(available, table, loadedIn, c);
      ResolvableMonotone(available, table, loadedIn, loaded, c);
    }
  }

  /** Success is resolvability, in whatever order alternatives are tried; and a success is as
      promised. */
  lemma {:induction false} ResolveMeaning(available: set<Name>, table: Table, order: Order, m: Name,
                                          loadedIn: set<Name>)
    requires available <= table.Keys && Walks(order, table)
    ensures var r := Resolve(available, table, order, m, loadedIn);
      && (r.Some? <==> Resolvable(available, table, loadedIn, m))
      && (r.Some? ==> Resolved(available, table, m, loadedIn, r.value))
    decreases available - loadedIn - {m}, 2, 0
  {
    if m !in available {
      NotAvailable(available, table, order, m, loadedIn);
    } else {
      ProgressStart(available, table, order, m, loadedIn);
      assert available - (loadedIn + {m}) == available - loadedIn - {m};
      hide Progress, Resolved, Resolvable, Walks, Resolve, MeetAll;
      MeetAllMeaning(available, table, order, m, loadedIn, loadedIn + {m}, 0);
    }
  }

  lemma {:induction false} MeetAllMeaning(available: set<Name>, table: Table, order: Order, m: Name,
                                          loadedIn: set<Name>, loaded: set<Name>, i: nat)
    requires available <= table.Keys && Walks(order, table) && m in available && i <= |table[m]|
    requires loadedIn + {m} <= loaded && Progress(available, table, m, loadedIn, i, loaded)
    ensures var r := MeetAll(available, table, order, m, loaded, i);
      && (r.Some? <==> Resolvable(available, table, loadedIn, m))
      && (r.Some? ==> Resolved(available, table, m, loadedIn, r.value))
    decreases available - loaded, 1, |table[m]| - i
  {
    hide Progress, Resolved, Resolvable, Walks, MeetAll, FirstToLoad;
    if i == |table[m]| {
      ProgressDone(available, table, order, m, loadedIn, loaded);
    } else if Met(table[m][i], loaded) {
      ProgressSkip(available, table, order, m, loadedIn, i, loaded);
      MeetAllMeaning(available, table, order, m, loadedIn, loaded, i + 1);
    } else {
      Untried(available, table, order, m, loaded, i);
      var possible := Among(order(m, i), available);
      MeetNext(available, table, order, m, loaded, i);
      var mod := FirstMeaning(available, table, order, possible, loaded);
      var first := FirstToLoad(available, table, order, possible, loaded);
      if first.None? {
        Unresolvable(available, table, m, loadedIn, i, loaded);
      } else {
        assert mod in table[m][i] * available;
        ProgressLoad(available, table, m, loadedIn, i, loaded, mod, first.value);
        assert available - first.value <= available - loaded;
        MeetAllMeaning(available, table, order, m, loadedIn, first.value, i + 1);
      }
    }
  }

  lemma {:induction false} FirstMeaning(available: set<Name>, table: Table, order: Order, possible: seq<Name>,
                                        loaded: set<Name>)
      returns (mod: Name)
    requires available <= table.Keys && Walks(order, table)
    requires forall c :: c in possible ==> c in available && c !in loaded
    ensures var r := FirstToLoad(available, table, order, possible, loaded);
      && (r.None? ==> forall c :: c in possible ==> !Resolvable(available, table, loaded, c))
      && (r.Some? ==> mod in possible && loaded <= r.value && Resolved(available, table, mod, loaded, r.value))
    decreases available - loaded, 0, |possible|
  {
    hide Resolved, Resolvable, Walks, Resolve, FirstToLoad;
    if possible == [] {
      TryNone(available, table, order, loaded);
      mod := "";
    } else {
      mod := possible[0];
      assert mod in possible;
      assert available - loaded - {mod} < available - loaded by {
        assert mod in available - loaded;
      }
      TryNext(available, table, order, possible, loaded);
      ResolveMeaning(available, table, order, mod, loaded);
      var more := Resolve(available, table, order, mod, loaded);
      if more.Some? {
        ResolvedContains(available, table, mod, loaded, more.value);
      } else {
        assert forall c :: c in possible[1..] ==> c in possible;
        assert forall c :: c in possible ==> c == possible[0] || c in possible[1..];
        mod := FirstMeaning(available, table, order, possible[1..], loaded);
      }
    }
  }

  /** `resolve_dependencies`.  The recursion terminates on cycles because every recursive call
      is for a module that is not loaded yet. */
  method ResolveDependencies(available: set<Name>, table: Table, order: Order, m: Name, loadedIn: set<Name>)
      returns (ok: bool, loaded: set<Name>)
    requires available <= table.Keys && Walks(order, table)
    ensures Resolve(available, table, order, m, loadedIn) == if ok then Some(loaded) else None
    ensures ok <==> Resolvable(available, table, loadedIn, m)
    ensures ok ==> Resolved(available, table, m, loadedIn, loaded)
    decreases available - loadedIn - {m}
  {
    hide Resolved, Resolvable, Walks, Resolve, MeetAll, FirstToLoad;
    ResolveMeaning(available, table, order, m, loadedIn);
    loaded := loadedIn;
    if m !in available {
      NotAvailable(available, table, order, m, loadedIn);
      return false, {};
    }
    loaded := loaded + {m};
    ResolveStart(available, table, order, m, loadedIn);
    ghost var outcome := Resolve(available, table, order, m, loadedIn);
    var i := 0;
    while i < |table[m]|
      invariant 0 <= i <= |table[m]| && loadedIn + {m} <= loaded
      invariant outcome == MeetAll(available, table, order, m, loaded, i)
    {
      var choices := table[m][i];
      var met := false;
      if choices * loaded != {} {
        met := true;
        MeetSkip(available, table, order, m, loaded, i);
      } else {
        var possible := Among(order(m, i), available);
        Untried(available, table, order, m, loaded, i);
        MeetNext(available, table, order, m, loaded, i);
        ghost var before := loaded;
        ghost var first := FirstToLoad(available, table, order, possible, loaded);
        while possible != [] && !met
          invariant loadedIn + {m} <= loaded
          invariant forall c :: c in possible ==> c in available && c !in before
          invariant met ==> first == Some(loaded)
          invariant !met ==> loaded == before && first == FirstToLoad(available, table, order, possible, before)
          decreases |possible|
        {
          var mod := possible[0];
          assert mod in possible;
          TryNext(available, table, order, possible, loaded);
          possible := possible[1..];
          Smaller(available, loadedIn, m, loaded, mod);
          var ok', more := ResolveDependencies(available, table, order, mod, loaded);
          if ok' {
            met := true;
            loaded := loaded + {mod};
            loaded := loaded + more;
          }
        }
        if !met {
          TryNone(available, table, order, loaded);
        }
      }
      if !met {
        return false, {};
      }
      i := i + 1;
    }
    MeetDone(available, table, order, m, loaded);
    ok := true;
  }

  lemma ResolveStart(available: set<Name>, table: Table, o: Order, m: Name, loadedIn: set<Name>)
    requires m in available && available <= table.Keys && Walks(o, table)
    ensures Resolve(available, table, o, m, loadedIn) == MeetAll(available, table, o, m, loadedIn + {m}, 0)
  {
    hide Walks, MeetAll;
  }

  lemma MeetSkip(available: set<Name>, table: Table, order: Order, m: Name, loaded: set<Name>, i: nat)
    requires available <= table.Keys && Walks(order, table) && m in available && i < |table[m]|
    requires table[m][i] * loaded != {}
    ensures MeetAll(available, table, order, m, loaded, i) == MeetAll(available, table, order, m, loaded, i + 1)
  {
    hide Walks, FirstToLoad;
  }

  lemma MeetDone(available: set<Name>, table: Table, order: Order, m: Name, loaded: set<Name>)
    requires available <= table.Keys && Walks(order, table) && m in available
    ensures MeetAll(available, table, order, m, loaded, |table[m]|) == Some(loaded)
  {
    hide Walks, FirstToLoad;
  }

  /** The function at a dependency that is not met yet, and at the next alternative. */
  lemma MeetNext(available: set<Name>, table: Table, order: Order, m: Name, loaded: set<Name>, i: nat)
    requires available <= table.Keys && Walks(order, table)
    requires m in available && i < |table[m]| && table[m][i] * loaded == {}
    requires forall c :: c in Among(order(m, i), available) ==> c in available && c !in loaded
    ensures var first := FirstToLoad(available, table, order, Among(order(m, i), available), loaded);
      MeetAll(available, table, order, m, loaded, i)
      == if first.None? then None else MeetAll(available, table, order, m, first.value, i + 1)
  {
    hide Walks, FirstToLoad, Among;
  }

  lemma TryNext(available: set<Name>, table: Table, order: Order, possible: seq<Name>, loaded: set<Name>)
    requires available <= table.Keys && Walks(order, table) && possible != []
    requires forall c :: c in possible ==> c in available && c !in loaded
    ensures var more := Resolve(available, table, order, possible[0], loaded);
      FirstToLoad(available, table, order, possible, loaded)
      == if more.Some? then Some(loaded + {possible[0]} + more.value)
         else FirstToLoad(available, table, order, possible[1..], loaded)
  {
    hide Walks, Resolve;
  }

  lemma TryNone(available: set<Name>, table: Table, order: Order, loaded: set<Name>)
    requires available <= table.Keys && Walks(order, table)
    ensures FirstToLoad(available, table, order, [], loaded) == None
  {
    hide Walks, Resolve;
  }

  lemma Smaller(available: set<Name>, loadedIn: set<Name>, m: Name, loaded: set<Name>, mod: Name)
    requires loadedIn + {m} <= loaded && mod in available && mod !in loaded
    ensures available - loaded - {mod} < available - loadedIn - {m}
  {
    assert mod in available - loadedIn - {m};
  }

  lemma NotAvailable(available: set<Name>, table: Table, order: Order, m: Name, loadedIn: set<Name>)
    requires available <= table.Keys && Walks(order, table) && m !in available
    ensures !Resolvable(available, table, loadedIn, m) && Resolve(available, table, order, m, loadedIn) == None
  {
    hide Walks;
  }

  lemma ProgressStart(available: set<Name>, table: Table, order: Order, m: Name, loadedIn: set<Name>)
    requires available <= table.Keys && Walks(order, table) && m in available
    ensures Progress(available, table, m, loadedIn, 0, loadedIn + {m})
    ensures Resolve(available, table, order, m, loadedIn) == MeetAll(available, table, order, m, loadedIn + {m}, 0)
  {
    hide Walks, MeetAll;
  }

  lemma ResolvedContains(available: set<Name>, table: Table, mod: Name, loaded: set<Name>, more: set<Name>)
    requires available <= table.Keys && Resolved(available, table, mod, loaded, more)
    ensures loaded + {mod} + more == more
  {
  }

  // ---------- Dependencies without alternatives ----------

  ghost predicate NoAlternatives(table: Table) {
    forall m, i :: m in table && 0 <= i < |table[m]| ==> exists c :: table[m][i] == {c}
  }

  /** s contains what its members need. */
  predicate DependencyClosed(table: Table, s: set<Name>) {
    s <= table.Keys && forall m :: m in s ==> AllMet(table, m, s)
  }

  lemma ClosedWithoutAlternatives(available: set<Name>, table: Table, s: set<Name>)
    requires NoAlternatives(table) && DependencyClosed(table, s)
    ensures AlternativesClosed(available, table, s)
  {
    forall m, i, c | m in s && m in table && 0 <= i < |table[m]| && c in table[m][i] && c in available
      ensures c in s
    {
      assert Met(table[m][i], s);
      var d :| table[m][i] == {d};
      assert d == c;
    }
  }

  /** Without alternatives a successful call returns the least closed set around m. */
  lemma LeastClosed(available: set<Name>, table: Table, m: Name, loaded: set<Name>, s: set<Name>)
    requires available <= table.Keys && NoAlternatives(table)
    requires Resolved(available, table, m, {}, loaded)
    requires m in s && DependencyClosed(table, s)
    ensures DependencyClosed(table, loaded) && loaded <= s
  {
    ClosedWithoutAlternatives(available, table, s);
    forall x | x in loaded
      ensures AllMet(table, x, loaded) && x in s
    {
      assert x in loaded - {} + {m};
      assert x in loaded - {};
    }
  }

  // ---------- Resolving a set of roots ----------

  /** The outcome of resolving all roots: a closed set of available modules that holds exactly
      the resolvable roots, and nothing that no loaded root leads to through loaded modules. */
  ghost predicate LoadedFor(available: set<Name>, table: Table, roots: set<Name>, loaded: set<Name>)
    requires available <= table.Keys
  {
    && loaded <= available
    && DependencyClosed(table, loaded)
    && (forall r :: r in roots ==> (r in loaded <==> Resolvable(available, table, {}, r)))
    && (forall x :: x in loaded ==> LeadsTo(loaded, table, roots * loaded, x))
  }

  /** Some root leads to x through modules in `within`. */
  ghost predicate LeadsTo(within: set<Name>, table: Table, roots: set<Name>, x: Name) {
    exists r :: r in roots && Reachable(within, table, r, x)
  }

  /** What the calls for the roots load together. */
  ghost function AllLoaded(available: set<Name>, table: Table, order: Order, roots: set<Name>): set<Name>
    requires available <= table.Keys && Walks(order, table)
  {
    set r, x | r in roots && Resolve(available, table, order, r, {}).Some?
               && x in Resolve(available, table, order, r, {}).value :: x
  }

  lemma AllLoadedStep(available: set<Name>, table: Table, order: Order, roots: set<Name>, r: Name)
    requires available <= table.Keys && Walks(order, table)
    ensures var one := Resolve(available, table, order, r, {});
      AllLoaded(available, table, order, roots + {r})
      == AllLoaded(available, table, order, roots) + if one.Some? then one.value else {}
  {
    hide Resolve, Walks;
  }

  /** What is loaded for the roots, while those in `rest` are still to be resolved. */
  lemma {:induction false} AllLoadedSoFar(available: set<Name>, table: Table, order: Order, roots: set<Name>,
                                          rest: set<Name>)
    requires available <= table.Keys && Walks(order, table) && rest <= roots
    ensures LoadedSoFar(available, table, roots, rest, AllLoaded(available, table, order, roots - rest))
    decreases roots - rest
  {
    hide Resolvable, Resolved, Resolve, Walks, Reachable, DependencyClosed, LeadsTo, AllLoaded, LoadedSoFar;
    if rest == roots {
      ResolveNothing(available, table, order, roots);
    } else {
      assert roots == rest + (roots - rest);
      var r :| r in roots - rest;
      var more := rest + {r};
      assert roots - more + {r} == roots - rest;
      AllLoadedSoFar(available, table, order, roots, more);
      AllLoadedStep(available, table, order, roots - more, r);
      ResolveMeaning(available, table, order, r, {});
      var loaded := AllLoaded(available, table, order, roots - more);
      var one := Resolve(available, table, order, r, {});
      if one.Some? {
        ResolveOne(available, table, roots, rest, loaded, r, one.value);
        ResolvedParts(available, table, r, one.value);
        assert loaded + {r} + one.value == loaded + one.value;
      } else {
        ResolveFailed(available, table, roots, rest, loaded, r);
        assert loaded + {} == loaded;
      }
    }
  }

  lemma ResolveFailed(available: set<Name>, table: Table, roots: set<Name>, rest: set<Name>, loaded: set<Name>, r: Name)
    requires available <= table.Keys && LoadedSoFar(available, table, roots, rest + {r}, loaded)
    requires !Resolvable(available, table, {}, r)
    ensures LoadedSoFar(available, table, roots, rest, loaded)
  {
    hide Resolvable, DependencyClosed, LeadsTo;
  }

  lemma AllLoadedFor(available: set<Name>, table: Table, order: Order, roots: set<Name>)
    requires roots <= available <= table.Keys && Walks(order, table)
    ensures LoadedFor(available, table, roots, AllLoaded(available, table, order, roots))
  {
    hide Walks, AllLoaded, LoadedFor, LoadedSoFar;
    AllLoadedSoFar(available, table, order, roots, {});
    assert roots - {} == roots;
    ResolvedAll(available, table, roots, AllLoaded(available, table, order, roots));
  }

  /** `_resolve_dependencies_for_all_modules`, the loop over the roots, in any order. */
  method ResolveAll(available: set<Name>, table: Table, order: Order, roots: set<Name>) returns (loaded: set<Name>)
    requires available <= table.Keys && Walks(order, table) && roots <= available
    ensures loaded == AllLoaded(available, table, order, roots)
    ensures LoadedFor(available, table, roots, loaded)
  {
    hide Resolvable, Resolved, Resolve, Walks, LoadedFor, AllLoaded;
    loaded := {};
    var rest := roots;
    ResolveNothing(available, table, order, roots);
    while rest != {}
      invariant rest <= roots
      invariant loaded == AllLoaded(available, table, order, roots - rest)
      decreases rest
    {
      var r :| r in rest;
      AllLoadedStep(available, table, order, roots - rest, r);
      assert roots - rest + {r} == roots - (rest - {r});
      rest := rest - {r};
      var ok, modules := ResolveDependencies(available, table, order, r, {});
      if ok {
        ResolvedParts(available, table, r, modules);
        loaded := loaded + {r};
        loaded := loaded + modules;
      }
    }
    assert roots - rest == roots;
    AllLoadedFor(available, table, order, roots);
  }

  /** The same while the roots in `rest` are still to be resolved. */
  ghost predicate LoadedSoFar(available: set<Name>, table: Table, roots: set<Name>, rest: set<Name>, loaded: set<Name>)
    requires available <= table.Keys
  {
    && loaded <= available
    && DependencyClosed(table, loaded)
    && (forall r :: r in roots - rest && Resolvable(available, table, {}, r) ==> r in loaded)
    && (forall x :: x in loaded ==> LeadsTo(loaded, table, roots * loaded, x))
  }

  lemma ResolveNothing(available: set<Name>, table: Table, order: Order, roots: set<Name>)
    requires available <= table.Keys && Walks(order, table)
    ensures LoadedSoFar(available, table, roots, roots, {})
    ensures AllLoaded(available, table, order, roots - roots) == {}
  {
    hide Walks, Resolve;
  }

  lemma ResolveOne(available: set<Name>, table: Table, roots: set<Name>, rest: set<Name>, loaded: set<Name>,
                   r: Name, modules: set<Name>)
    requires available <= table.Keys && r in roots && r !in rest
    requires LoadedSoFar(available, table, roots, rest + {r}, loaded)
    requires Resolved(available, table, r, {}, modules)
    ensures LoadedSoFar(available, table, roots, rest, loaded + {r} + modules)
  {
    ClosedUnion(available, table, loaded, r, modules);
    RootsKept(available, table, roots, rest, loaded, r, modules);
    LeadsKept(available, table, roots, rest, loaded, r, modules);
    ResolvedParts(available, table, r, modules);
    hide Resolved, Resolvable, Reachable, DependencyClosed, LeadsTo, AllMet;
  }

  lemma RootsKept(available: set<Name>, table: Table, roots: set<Name>, rest: set<Name>, loaded: set<Name>,
                  r: Name, modules: set<Name>)
    requires available <= table.Keys
    requires LoadedSoFar(available, table, roots, rest + {r}, loaded)
    ensures forall q :: q in roots - rest && Resolvable(available, table, {}, q) ==> q in loaded + {r} + modules
  {
    hide Resolvable, DependencyClosed, LeadsTo;
    forall q | q in roots - rest && Resolvable(available, table, {}, q)
      ensures q in loaded + {r} + modules
    {
      assert q == r || q in roots - (rest + {r});
    }
  }

  lemma LeadsKept(available: set<Name>, table: Table, roots: set<Name>, rest: set<Name>, loaded: set<Name>,
                  r: Name, modules: set<Name>)
    requires available <= table.Keys && r in roots
    requires LoadedSoFar(available, table, roots, rest + {r}, loaded)
    requires Resolved(available, table, r, {}, modules)
    ensures var all := loaded + {r} + modules; forall x :: x in all ==> LeadsTo(all, table, roots * all, x)
  {
    ResolvedParts(available, table, r, modules);
    hide Resolved, Resolvable, Reachable, DependencyClosed, LeadsTo, AllMet;
    var all := loaded + {r} + modules;
    forall x | x in all
      ensures LeadsTo(all, table, roots * all, x)
    {
      LeadsToMore(table, roots, loaded, r, modules, x);
    }
  }

  lemma ResolvedParts(available: set<Name>, table: Table, r: Name, modules: set<Name>)
    requires available <= table.Keys && Resolved(available, table, r, {}, modules)
    ensures r in modules && modules <= available
    ensures forall x :: x in modules ==> AllMet(table, x, modules) && Reachable(modules, table, r, x)
  {
    assert modules == modules - {} == modules - {} + {r};
  }

  lemma ClosedUnion(available: set<Name>, table: Table, loaded: set<Name>, r: Name, modules: set<Name>)
    requires available <= table.Keys && DependencyClosed(table, loaded)
    requires Resolved(available, table, r, {}, modules)
    ensures DependencyClosed(table, loaded + {r} + modules)
  {
    ResolvedParts(available, table, r, modules);
    hide AllMet, Reachable, Resolved;
    var all := loaded + {r} + modules;
    forall x | x in all
      ensures AllMet(table, x, all)
    {
      if x in loaded {
        AllMetMonotone(table, x, loaded, all);
      } else {
        AllMetMonotone(table, x, modules, all);
      }
    }
  }

  lemma LeadsToMore(table: Table, roots: set<Name>, loaded: set<Name>, r: Name, modules: set<Name>, x: Name)
    requires r in roots
    requires x in loaded ==> LeadsTo(loaded, table, roots * loaded, x)
    requires x !in loaded ==> x == r || (x in modules && Reachable(modules, table, r, x))
    ensures var all := loaded + {r} + modules; LeadsTo(all, table, roots * all, x)
  {
    var all := loaded + {r} + modules;
    if x in loaded {
      var q :| q in roots * loaded && Reachable(loaded, table, q, x);
      ReachableMonotone(loaded, all, table, q, x);
      assert q in roots * all;
    } else {
      if x in modules && Reachable(modules, table, r, x) {
        ReachableMonotone(modules, all, table, r, x);
      }
      assert r in roots * all && Reachable(all, table, r, x);
    }
  }

  lemma LoadedAvailable(available: set<Name>, table: Table, roots: set<Name>, loaded: set<Name>)
    requires available <= table.Keys && LoadedFor(available, table, roots, loaded)
    ensures loaded <= available
  {
  }

  lemma ResolvedAll(available: set<Name>, table: Table, roots: set<Name>, loaded: set<Name>)
    requires available <= table.Keys && LoadedSoFar(available, table, roots, {}, loaded)
    ensures LoadedFor(available, table, roots, loaded)
  {
    forall m | m in loaded
      ensures AllMet(table, m, loaded + {})
    {
      AllMetMonotone(table, m, loaded, loaded + {});
    }
    assert SelfSupporting(available, table, {}, loaded);
  }

  /** Without alternatives the loaded set is the least closed set over the resolvable roots. */
  lemma LeastClosedOverRoots(available: set<Name>, table: Table, roots: set<Name>, loaded: set<Name>, s: set<Name>)
    requires available <= table.Keys && NoAlternatives(table)
    requires LoadedFor(available, table, roots, loaded)
    requires DependencyClosed(table, s) && forall r :: r in roots && Resolvable(available, table, {}, r) ==> r in s
    ensures loaded <= s
  {
    ClosedWithoutAlternatives(loaded, table, s);
    forall x | x in loaded
      ensures x in s
    {
      var r :| r in roots * loaded && Reachable(loaded, table, r, x);
    }
  }

  // ---------- When the order matters ----------

  /** Every module the roots can lead to has one way only to meet each of its dependencies:
      exactly one alternative is resolvable. */
  ghost predicate OneWay(available: set<Name>, table: Table, roots: set<Name>)
    requires available <= table.Keys
  {
    var g := Greatest(available, table);
    forall m, i :: m in g && LeadsTo(g, table, roots * g, m) && 0 <= i < |table[m]| ==> OnlyOne(table[m][i] * g)
  }

  ghost predicate OnlyOne(s: set<Name>) {
    exists c :: s == {c}
  }

  /** What is loaded for the roots can be resolved, and so can all that leads to it. */
  lemma LoadedResolvable(available: set<Name>, table: Table, roots: set<Name>, loaded: set<Name>)
    requires available <= table.Keys && LoadedFor(available, table, roots, loaded)
    ensures loaded <= Greatest(available, table)
  {
    GreatestIsGreatest(available, table);
    assert loaded + {} == loaded;
    assert SelfSupporting(available, table, {}, loaded);
  }

  /** A loaded set that is led to on one way only lies within any other. */
  lemma OneWayWithin(available: set<Name>, table: Table, roots: set<Name>, first: set<Name>, second: set<Name>)
    requires available <= table.Keys && OneWay(available, table, roots)
    requires LoadedFor(available, table, roots, first) && LoadedFor(available, table, roots, second)
    ensures first <= second
  {
    var g := Greatest(available, table);
    LoadedResolvable(available, table, roots, first);
    LoadedResolvable(available, table, roots, second);
    var s := set m | m in second && LeadsTo(g, table, roots * g, m);
    hide LeadsTo, Resolvable, Greatest;
    forall m, i, c | m in s && m in table && 0 <= i < |table[m]| && c in table[m][i] && c in first
      ensures c in s
    {
      OnlyAlternative(available, table, roots, second, m, i, c);
      LeadsFurther(g, table, roots * g, m, i, c);
    }
    forall x | x in first
      ensures x in s
    {
      LedInto(table, roots, first, second, g, s, x);
    }
  }

  lemma OnlyAlternative(available: set<Name>, table: Table, roots: set<Name>, loaded: set<Name>, m: Name, i: nat,
                        c: Name)
    requires available <= table.Keys && OneWay(available, table, roots) && DependencyClosed(table, loaded)
    requires var g := Greatest(available, table);
      loaded <= g && LeadsTo(g, table, roots * g, m) && m in loaded && i < |table[m]| && c in table[m][i] && c in g
    ensures c in loaded
  {
    hide LeadsTo, Greatest;
    var g := Greatest(available, table);
    assert OnlyOne(table[m][i] * g);
    var only :| table[m][i] * g == {only};
    assert c in table[m][i] * g;
    assert AllMet(table, m, loaded);
    assert Met(table[m][i], loaded);
    var d :| d in table[m][i] * loaded;
    assert d in table[m][i] * g;
  }

  lemma LeadsFurther(within: set<Name>, table: Table, roots: set<Name>, m: Name, i: nat, c: Name)
    requires LeadsTo(within, table, roots, m) && m in table && i < |table[m]| && c in table[m][i] && c in within
    ensures LeadsTo(within, table, roots, c)
  {
    var r :| r in roots && Reachable(within, table, r, m);
    forall s | r in s && AlternativesClosed(within, table, s)
      ensures c in s
    {
      assert m in s;
    }
    assert Reachable(within, table, r, c);
  }

  lemma LedInto(table: Table, roots: set<Name>, first: set<Name>, second: set<Name>, g: set<Name>, s: set<Name>,
                x: Name)
    requires LeadsTo(first, table, roots * first, x) && AlternativesClosed(first, table, s)
    requires first <= g && roots * first <= second
    requires forall m :: m in second && LeadsTo(g, table, roots * g, m) ==> m in s
    ensures x in s
  {
    var r :| r in roots * first && Reachable(first, table, r, x);
    assert r in roots * g && Reachable(g, table, r, r);
    assert LeadsTo(g, table, roots * g, r);
  }

  lemma NoAlternativesOneWay(available: set<Name>, table: Table, roots: set<Name>)
    requires available <= table.Keys && NoAlternatives(table)
    ensures OneWay(available, table, roots)
  {
    GreatestIsGreatest(available, table);
    var g := Greatest(available, table);
    hide Greatest, LeadsTo;
    forall m, i | m in g && LeadsTo(g, table, roots * g, m) && 0 <= i < |table[m]|
      ensures OnlyOne(table[m][i] * g)
    {
      var c :| table[m][i] == {c};
      assert AllMet(table, m, g + {});
      assert Met(table[m][i], g + {});
      assert table[m][i] * g == {c};
    }
  }

  /** Two outcomes hold the same roots; when there is one way only, or no alternatives at all,
      they are the same. */
  lemma OutcomesAgree(available: set<Name>, table: Table, roots: set<Name>, first: set<Name>, second: set<Name>)
    requires available <= table.Keys
    requires LoadedFor(available, table, roots, first) && LoadedFor(available, table, roots, second)
    ensures roots * first == roots * second
    ensures OneWay(available, table, roots) || NoAlternatives(table) ==> first == second
  {
    hide OneWay, NoAlternatives, Resolvable, LeadsTo;
    forall r | r in roots
      ensures r in first <==> r in second
    {
    }
    if NoAlternatives(table) {
      NoAlternativesOneWay(available, table, roots);
    }
    if OneWay(available, table, roots) {
      OneWayWithin(available, table, roots, first, second);
      OneWayWithin(available, table, roots, second, first);
    }
  }

  /** So whatever the order of alternatives, the loaded roots are the same; and with one way
      only, or without alternatives, so are all loaded modules. */
  lemma OrderIrrelevant(available: set<Name>, table: Table, roots: set<Name>, first: Order, second: Order)
    requires roots <= available <= table.Keys && Walks(first, table) && Walks(second, table)
    ensures var a, b := AllLoaded(available, table, first, roots), AllLoaded(available, table, second, roots);
      && roots * a == roots * b
      && (OneWay(available, table, roots) || NoAlternatives(table) ==> a == b)
  {
    hide Walks, AllLoaded, OneWay, NoAlternatives, LoadedFor;
    AllLoadedFor(available, table, first, roots);
    AllLoadedFor(available, table, second, roots);
    var a, b := AllLoaded(available, table, first, roots), AllLoaded(available, table, second, roots);
    OutcomesAgree(available, table, roots, a, b);
  }

  /** `order` with x tried first for dependency i of m. */
  ghost function Preferring(order: Order, m: Name, i: nat, x: Name): Order {
    (n: Name, j: nat) => if n == m && j == i then [x] + Without(order(n, j), x) else order(n, j)
  }

  function Without(s: seq<Name>, x: Name): (r: seq<Name>)
    ensures forall c :: c in r <==> c in s && c != x
    ensures NoDuplicates(s) ==> NoDuplicates(r)
  {
    if s == [] then [] else
      var rest := Without(s[1..], x);
      assert forall c :: c in s[1..] ==> c in s;
      assert NoDuplicates(s) ==> NoDuplicates(s[1..]);
      assert NoDuplicates(s) ==> s[0] !in s[1..];
      if s[0] == x then rest else [s[0]] + rest
  }

  lemma PreferringWalks(order: Order, table: Table, m: Name, i: nat, x: Name)
    requires Walks(order, table) && m in table && i < |table[m]| && x in table[m][i]
    ensures Walks(Preferring(order, m, i, x), table)
  {
    var o := Preferring(order, m, i, x);
    forall n, j | n in table && 0 <= j < |table[n]|
      ensures WalksOne(o(n, j), table[n][j])
    {
      assert WalksOne(order(n, j), table[n][j]);
    }
  }

  /** r has one dependency, and a is an alternative of it that needs nothing itself. */
  predicate Offers(available: set<Name>, table: Table, r: Name, a: Name) {
    && r != a && {r, a} <= available <= table.Keys
    && |table[r]| == 1 && a in table[r][0] && r !in table[r][0] && table[a] == []
  }

  /** The resolver loads the alternative that comes first, and no other. */
  lemma PreferredIsLoaded(available: set<Name>, table: Table, order: Order, r: Name, a: Name) returns (o: Order)
    requires Walks(order, table) && Offers(available, table, r, a)
    ensures Walks(o, table) && AllLoaded(available, table, o, {r}) == {r, a}
    ensures Resolve(available, table, o, r, {}) == Some({r, a})
  {
    o := Preferring(order, r, 0, a);
    PreferringWalks(order, table, r, 0, a);
    PreferringAt(order, r, 0, a);
    hide Walks, Preferring;
    FirstPreferred(available, table, o, r, a);
    AllLoadedStep(available, table, o, {}, r);
    hide Resolve;
    assert {} + {r} == {r};
  }

  lemma PreferringAt(order: Order, m: Name, i: nat, x: Name)
    ensures Preferring(order, m, i, x)(m, i) == [x] + Without(order(m, i), x)
  {
  }

  lemma FirstPreferred(available: set<Name>, table: Table, o: Order, r: Name, a: Name)
    requires Offers(available, table, r, a) && Walks(o, table) && o(r, 0) != [] && o(r, 0)[0] == a
    ensures Resolve(available, table, o, r, {}) == Some({r, a})
  {
    hide Walks;
    var loaded := {r};
    assert table[r][0] * loaded == {};
    Untried(available, table, o, r, loaded, 0);
    var possible := Among(o(r, 0), available);
    assert possible[0] == a;
    assert Resolve(available, table, o, a, loaded) == Some(loaded + {a}) by {
      LoadsAlone(available, table, o, a, loaded);
    }
    hide Resolve, Among;
    TryNext(available, table, o, possible, loaded);
    assert loaded + {a} + (loaded + {a}) == {r, a};
    MeetNext(available, table, o, r, loaded, 0);
    hide FirstToLoad;
    assert MeetAll(available, table, o, r, {r, a}, 1) == Some({r, a});
    ResolveStart(available, table, o, r, {});
    assert {} + {r} == loaded;
  }

  lemma LoadsAlone(available: set<Name>, table: Table, o: Order, a: Name, loaded: set<Name>)
    requires a in available && available <= table.Keys && table[a] == [] && Walks(o, table)
    ensures Resolve(available, table, o, a, loaded) == Some(loaded + {a})
  {
    hide Walks;
  }

  lemma PairsDiffer(r: Name, a: Name, b: Name)
    ensures a != b && a != r ==> {r, a} != {r, b}
  {
    if a != b && a != r {
      assert a in {r, a} && a !in {r, b};
    }
  }

  /** So with two such alternatives a and b there are two orders for which the program loads
      different modules: r with a, and r with b. */
  lemma OrderMatters(available: set<Name>, table: Table, order: Order, r: Name, a: Name, b: Name)
      returns (first: Order, second: Order)
    requires Walks(order, table) && a != b && a != r && Offers(available, table, r, a) && Offers(available, table, r, b)
    ensures Walks(first, table) && AllLoaded(available, table, first, {r}) == {r, a}
    ensures Walks(second, table) && AllLoaded(available, table, second, {r}) == {r, b}
    ensures {r, a} != {r, b}
  {
    hide *;
    PairsDiffer(r, a, b);
    first := PreferredIsLoaded(available, table, order, r, a);
    second := PreferredIsLoaded(available, table, order, r, b);
  }

  // ---------- Forced choices ----------

  /** The alternatives that can be loaded on top of what is loaded. */
  ghost function LoadableOf(available: set<Name>, table: Table, loaded: set<Name>, choices: Choices): set<Name>
    requires available <= table.Keys
  {
    set c | c in choices && c in available && Resolvable(available, table, loaded, c)
  }

  /** The alternative the resolver takes: the first one that can be loaded. */
  ghost function Taken(available: set<Name>, table: Table, loaded: set<Name>, walk: seq<Name>): Option<Name>
    requires available <= table.Keys
  {
    if walk == [] then None
    else if walk[0] in available && Resolvable(available, table, loaded, walk[0]) then Some(walk[0])
    else Taken(available, table, loaded, walk[1..])
  }

  lemma {:induction false} TakenIsLoadable(available: set<Name>, table: Table, loaded: set<Name>, walk: seq<Name>)
    requires available <= table.Keys
    ensures var t := Taken(available, table, loaded, walk);
      && (t.Some? ==> t.value in walk && t.value in available && Resolvable(available, table, loaded, t.value))
      && (t.None? ==> forall c :: c in walk && c in available ==> !Resolvable(available, table, loaded, c))
  {
    hide Resolvable;
    if walk != [] {
      TakenIsLoadable(available, table, loaded, walk[1..]);
      assert forall c :: c in walk <==> c == walk[0] || c in walk[1..];
    }
  }

  /** Alternatives that are not available make no difference. */
  lemma {:induction false} TakenAmong(available: set<Name>, table: Table, loaded: set<Name>, walk: seq<Name>)
    requires available <= table.Keys
    ensures Taken(available, table, loaded, Among(walk, available)) == Taken(available, table, loaded, walk)
  {
    hide Resolvable;
    if walk != [] {
      TakenAmong(available, table, loaded, walk[1..]);
      var rest := Among(walk[1..], available);
      if walk[0] in available {
        assert ([walk[0]] + rest)[1..] == rest;
      } else {
        assert [] + rest == rest;
      }
    }
  }

  /** What the resolver does with the alternatives of an unmet dependency. */
  lemma {:induction false} FirstToLoadTakes(available: set<Name>, table: Table, order: Order, walk: seq<Name>,
                                            loaded: set<Name>)
    requires available <= table.Keys && Walks(order, table)
    requires forall c :: c in walk ==> c in available && c !in loaded
    ensures var t := Taken(available, table, loaded, walk);
      && (t.Some? ==> Resolve(available, table, order, t.value, loaded).Some?)
      && FirstToLoad(available, table, order, walk, loaded)
         == if t.Some? then Resolve(available, table, order, t.value, loaded) else None
  {
    hide Walks, Resolve, Resolvable, Resolved, FirstToLoad;
    if walk == [] {
      TryNone(available, table, order, loaded);
    } else {
      assert walk[0] in walk;
      assert forall c :: c in walk[1..] ==> c in walk;
      TryNext(available, table, order, walk, loaded);
      ResolveMeaning(available, table, order, walk[0], loaded);
      FirstToLoadTakes(available, table, order, walk[1..], loaded);
      var one := Resolve(available, table, order, walk[0], loaded);
      if one.Some? {
        ResolvedContains(available, table, walk[0], loaded, one.value);
      }
    }
  }

  /** Any alternative that can be loaded is taken in some order ... */
  lemma AnyCanBeTaken(available: set<Name>, table: Table, order: Order, m: Name, i: nat, loaded: set<Name>, a: Name)
      returns (o: Order)
    requires available <= table.Keys && Walks(order, table) && m in table && i < |table[m]|
    requires a in LoadableOf(available, table, loaded, table[m][i])
    ensures Walks(o, table) && Taken(available, table, loaded, o(m, i)) == Some(a)
  {
    o := Preferring(order, m, i, a);
    PreferringWalks(order, table, m, i, a);
    PreferringAt(order, m, i, a);
    hide Resolvable, Walks;
  }

  /** ... so which one is taken does not depend on the order if and only if there is at most one. */
  lemma TakenForcedIff(available: set<Name>, table: Table, order: Order, m: Name, i: nat, loaded: set<Name>)
    requires available <= table.Keys && Walks(order, table) && m in table && i < |table[m]|
    ensures (forall o: Order :: Walks(o, table) ==>
               Taken(available, table, loaded, o(m, i)) == Taken(available, table, loaded, order(m, i)))
       <==> (forall a, b :: {a, b} <= LoadableOf(available, table, loaded, table[m][i]) ==> a == b)
  {
    hide Resolvable, Taken;
    var l := LoadableOf(available, table, loaded, table[m][i]);
    if forall a, b :: {a, b} <= l ==> a == b {
      forall o: Order | Walks(o, table)
        ensures Taken(available, table, loaded, o(m, i)) == Taken(available, table, loaded, order(m, i))
      {
        SameTaken(available, table, loaded, table[m][i], o(m, i), order(m, i));
      }
    } else {
      var a, b :| {a, b} <= l && a != b;
      var first := AnyCanBeTaken(available, table, order, m, i, loaded, a);
      var second := AnyCanBeTaken(available, table, order, m, i, loaded, b);
    }
  }

  lemma SameTaken(available: set<Name>, table: Table, loaded: set<Name>, choices: Choices, walk: seq<Name>,
                  other: seq<Name>)
    requires available <= table.Keys && WalksOne(walk, choices) && WalksOne(other, choices)
    requires forall a, b :: {a, b} <= LoadableOf(available, table, loaded, choices) ==> a == b
    ensures Taken(available, table, loaded, walk) == Taken(available, table, loaded, other)
  {
    TakenIsLoadable(available, table, loaded, walk);
    TakenIsLoadable(available, table, loaded, other);
    hide Resolvable, Taken;
    var t, u := Taken(available, table, loaded, walk), Taken(available, table, loaded, other);
    var l := LoadableOf(available, table, loaded, choices);
    if t.Some? && u.Some? {
      assert {t.value, u.value} <= l;
    }
  }

  /** In the run of a call, every dependency found unmet has at most one alternative that can be
      loaded at that point. */
  ghost predicate Forced(available: set<Name>, table: Table, order: Order, m: Name, loadedIn: set<Name>)
    requires available <= table.Keys && Walks(order, table)
    decreases available - loadedIn - {m}, 2, 0
  {
    m in available ==>
      assert available - (loadedIn + {m}) == available - loadedIn - {m};
      ForcedFrom(available, table, order, m, loadedIn + {m}, 0)
  }

  ghost predicate ForcedFrom(available: set<Name>, table: Table, order: Order, m: Name, loaded: set<Name>, i: nat)
    requires available <= table.Keys && Walks(order, table) && m in available && i <= |table[m]|
    decreases available - loaded, 1, |table[m]| - i
  {
    if i == |table[m]| then true
    else if table[m][i] * loaded != {} then ForcedFrom(available, table, order, m, loaded, i + 1)
    else
      forall c :: c in LoadableOf(available, table, loaded, table[m][i]) ==>
        ForcedOn(available, table, order, m, loaded, i, c)
  }

  ghost predicate ForcedOn(available: set<Name>, table: Table, order: Order, m: Name, loaded: set<Name>, i: nat,
                           c: Name)
    requires available <= table.Keys && Walks(order, table) && m in available && i < |table[m]|
    requires table[m][i] * loaded == {} && c in LoadableOf(available, table, loaded, table[m][i])
    decreases available - loaded, 0, 0
  {
    assert c !in loaded by {
      assert c !in table[m][i] * loaded;
    }
    assert c in available - loaded;
    var more := Resolve(available, table, order, c, loaded);
    LoadableOf(available, table, loaded, table[m][i]) == {c}
    && Forced(available, table, order, c, loaded)
    && more.Some?
    && (assert available - more.value < available - loaded;
        ForcedFrom(available, table, order, m, more.value, i + 1))
  }

  /** Then every other order loads the same modules. */
  lemma {:induction false} ForcedSame(available: set<Name>, table: Table, order: Order, other: Order, m: Name,
                                      loadedIn: set<Name>)
    requires available <= table.Keys && Walks(order, table) && Walks(other, table)
    requires Forced(available, table, order, m, loadedIn)
    ensures Resolve(available, table, other, m, loadedIn) == Resolve(available, table, order, m, loadedIn)
    decreases available - loadedIn - {m}, 2, 0
  {
    hide Walks, MeetAll, ForcedFrom;
    if m in available {
      assert available - (loadedIn + {m}) == available - loadedIn - {m};
      ForcedFromSame(available, table, order, other, m, loadedIn + {m}, 0);
    }
  }

  lemma {:induction false} ForcedFromSame(available: set<Name>, table: Table, order: Order, other: Order, m: Name,
                                          loaded: set<Name>, i: nat)
    requires available <= table.Keys && Walks(order, table) && Walks(other, table) && m in available && i <= |table[m]|
    requires ForcedFrom(available, table, order, m, loaded, i)
    ensures MeetAll(available, table, other, m, loaded, i) == MeetAll(available, table, order, m, loaded, i)
    decreases available - loaded, 1, |table[m]| - i
  {
    hide Walks, MeetAll, FirstToLoad, Resolve, Taken, Among, Resolvable, Forced, ForcedOn;
    if i == |table[m]| {
      MeetDone(available, table, order, m, loaded);
      MeetDone(available, table, other, m, loaded);
    } else if table[m][i] * loaded != {} {
      MeetSkip(available, table, order, m, loaded, i);
      MeetSkip(available, table, other, m, loaded, i);
      ForcedFromSame(available, table, order, other, m, loaded, i + 1);
    } else {
      var c := MeetTakes(available, table, order, m, loaded, i);
      var d := MeetTakes(available, table, other, m, loaded, i);
      if c.Some? {
        ForcedOnIs(available, table, order, m, loaded, i, c.value);
        ForcedSame(available, table, order, other, c.value, loaded);
        var more := Resolve(available, table, order, c.value, loaded).value;
        ForcedFromSame(available, table, order, other, m, more, i + 1);
      }
    }
  }

  lemma ForcedOnIs(available: set<Name>, table: Table, order: Order, m: Name, loaded: set<Name>, i: nat, c: Name)
    requires available <= table.Keys && Walks(order, table) && m in available && i < |table[m]|
    requires table[m][i] * loaded == {} && c in LoadableOf(available, table, loaded, table[m][i])
    requires ForcedOn(available, table, order, m, loaded, i, c)
    ensures c !in loaded && LoadableOf(available, table, loaded, table[m][i]) == {c}
    ensures Forced(available, table, order, c, loaded)
    ensures var more := Resolve(available, table, order, c, loaded);
      && more.Some? && available - more.value < available - loaded
      && ForcedFrom(available, table, order, m, more.value, i + 1)
    ensures available - loaded - {c} < available - loaded
  {
    hide Walks, Resolve, Resolvable, Forced, ForcedFrom;
    assert c !in table[m][i] * loaded;
    assert c in available - loaded;
  }

  /** The resolver at an unmet dependency, in terms of what can be loaded. */
  lemma MeetTakes(available: set<Name>, table: Table, order: Order, m: Name, loaded: set<Name>, i: nat)
      returns (c: Option<Name>)
    requires available <= table.Keys && Walks(order, table) && m in available && i < |table[m]|
    requires table[m][i] * loaded == {}
    ensures c == Taken(available, table, loaded, order(m, i))
    ensures c.Some? <==> LoadableOf(available, table, loaded, table[m][i]) != {}
    ensures c.Some? ==> c.value in LoadableOf(available, table, loaded, table[m][i])
                        && Resolve(available, table, order, c.value, loaded).Some?
    ensures MeetAll(available, table, order, m, loaded, i)
         == if c.None? then None
            else MeetAll(available, table, order, m, Resolve(available, table, order, c.value, loaded).value, i + 1)
  {
    hide Walks, MeetAll, FirstToLoad, Resolve, Taken, Among, Resolvable;
    Untried(available, table, order, m, loaded, i);
    var possible := Among(order(m, i), available);
    MeetNext(available, table, order, m, loaded, i);
    FirstToLoadTakes(available, table, order, possible, loaded);
    TakenIsLoadable(available, table, loaded, possible);
    TakenAmong(available, table, loaded, order(m, i));
    c := Taken(available, table, loaded, possible);
    var l := LoadableOf(available, table, loaded, table[m][i]);
    if c.Some? {
      assert c.value in l;
    } else {
      assert forall x :: x in l ==> x in possible;
    }
  }
}
