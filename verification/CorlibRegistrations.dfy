/** When a core-library type is still the uncached answer after an assembly is registered under any name. */
module CorlibRegistrations {
  import opened Wrappers
  import opened AssemblyMetadata
  import opened TypeResolution
  import opened TypeCaches
  import opened CorlibResolution

  // ------------------------------------------------------------ answers without fuel

  predicate TryGives(net: Net, reg: Registry, id: nat, full: string, fuel: nat, t: TypeDescription) {
    TryIn(net, reg, id, full, fuel).Some? && TryIn(net, reg, id, full, fuel).value.found == Some(t)
  }

  /** The assembly contributes the type. */
  ghost predicate Contributes(net: Net, reg: Registry, id: nat, full: string, t: TypeDescription) {
    exists fuel :: TryGives(net, reg, id, full, fuel, t)
  }

  predicate SearchGives(net: Net, reg: Registry, full: string, i: nat, tried: bool, fuel: nat, t: TypeDescription) {
    SearchFrom(net, reg, full, i, tried, fuel).Some? && SearchFrom(net, reg, full, i, tried, fuel).value.result == Ok(t)
  }

  /** The search from the i-th core library on ends and finds the type. */
  ghost predicate AnswersFrom(net: Net, reg: Registry, full: string, i: nat, tried: bool, t: TypeDescription) {
    exists fuel :: SearchGives(net, reg, full, i, tried, fuel, t)
  }

  predicate SilentAndGives(net: Net, reg: Registry, id: nat, full: string, i: nat, tried: bool, fuel: nat,
                           t: TypeDescription) {
    && TryIn(net, reg, id, full, fuel).Some? && TryIn(net, reg, id, full, fuel).value.found.None?
    && SearchGives(net, TryIn(net, reg, id, full, fuel).value.reg, full, i, tried, fuel, t)
  }

  /** The assembly is silent, and with what it has loaded on the way the libraries from the i-th on find the type. */
  ghost predicate SilentThenAnswers(net: Net, reg: Registry, id: nat, full: string, i: nat, tried: bool,
                                    t: TypeDescription) {
    exists fuel :: SilentAndGives(net, reg, id, full, i, tried, fuel, t)
  }

  /** An uncached lookup finds the type. */
  ghost predicate IsCorlib(net: Net, reg: Registry, full: string, t: TypeDescription) {
    exists fuel :: CorlibGives(net, reg, full, fuel, t)
  }

  predicate CorlibGives(net: Net, reg: Registry, full: string, fuel: nat, t: TypeDescription) {
    Corlib(net, reg, full, fuel).Some? && Corlib(net, reg, full, fuel).value.result == Ok(t)
  }

  lemma CorlibIsSearch(net: Net, reg: Registry, full: string, t: TypeDescription)
    requires full !in net.stubs
    ensures IsCorlib(net, reg, full, t) <==> AnswersFrom(net, reg, full, 0, false, t)
  {
    forall fuel: nat ensures CorlibGives(net, reg, full, fuel, t) <==> SearchGives(net, reg, full, 0, false, fuel, t) {
    }
  }

  lemma MoreFuelForTry(net: Net, reg: Registry, id: nat, full: string, fuel: nat, more: nat)
    requires TryIn(net, reg, id, full, fuel).Some? && fuel <= more
    ensures TryIn(net, reg, id, full, more) == TryIn(net, reg, id, full, fuel)
  {
    var answer := net.answer(id, full);
    if answer.Forwarded? { MoreFuel(net, reg, answer.reference, answer.name, fuel, more); }
  }

  lemma {:induction false} MoreFuelForSearch(net: Net, reg: Registry, full: string, i: nat, tried: bool, fuel: nat,
                                             more: nat)
    requires SearchFrom(net, reg, full, i, tried, fuel).Some? && fuel <= more
    ensures SearchFrom(net, reg, full, i, tried, more) == SearchFrom(net, reg, full, i, tried, fuel)
    decreases |CORE| - i
  {
    if |CORE| <= i {
      if !tried { MoreFuel(net, reg, AssemblyRef(MSCORLIB, NO_VERSION), full, fuel, more); }
    } else if CORE[i] !in reg {
      MoreFuelForSearch(net, reg, full, i + 1, tried, fuel, more);
    } else {
      var f := Fetch(net, reg, CORE[i]);
      if f.result.Loaded? {
        MoreFuelForTry(net, f.reg, f.result.id, full, fuel, more);
        var here := TryIn(net, f.reg, f.result.id, full, fuel).value;
        if here.found.None? { MoreFuelForSearch(net, here.reg, full, i + 1, tried || i == 0, fuel, more); }
      }
    }
  }

  /** The answer at a loaded library: what it contributes, or, if it is silent, what the later ones answer. */
  lemma AnswersAtPlace(net: Net, reg: Registry, full: string, i: nat, tried: bool, t: TypeDescription)
    requires i < |CORE| && IsLoaded(reg, CORE[i])
    ensures var id := reg[CORE[i]].id;
            AnswersFrom(net, reg, full, i, tried, t) <==>
            Contributes(net, reg, id, full, t) || SilentThenAnswers(net, reg, id, full, i + 1, tried || i == 0, t)
  {
    var id := reg[CORE[i]].id;
    if AnswersFrom(net, reg, full, i, tried, t) {
      var fuel: nat :| SearchGives(net, reg, full, i, tried, fuel, t);
      assert TryGives(net, reg, id, full, fuel, t)
             || SilentAndGives(net, reg, id, full, i + 1, tried || i == 0, fuel, t);
    }
    if Contributes(net, reg, id, full, t) {
      var fuel: nat :| TryGives(net, reg, id, full, fuel, t);
      assert SearchGives(net, reg, full, i, tried, fuel, t);
    }
    if SilentThenAnswers(net, reg, id, full, i + 1, tried || i == 0, t) {
      var fuel: nat :| SilentAndGives(net, reg, id, full, i + 1, tried || i == 0, fuel, t);
      assert SearchGives(net, reg, full, i, tried, fuel, t);
    }
  }

  /** What an assembly contributes, read off what it says about the name. */
  lemma ContributesExactlyWhen(net: Net, reg: Registry, id: nat, full: string, t: TypeDescription)
    ensures Contributes(net, reg, id, full, t) <==>
            match net.answer(id, full)
            case Known(result) => result == Ok(t)
            case Unknown => net.displayed(id, full).Some? && t == TypeDescription(id, net.displayed(id, full).value)
            case Forwarded(r, name) => Reaches(net, reg, r, name, t)
  {
    var answer := net.answer(id, full);
    if answer.Forwarded? {
      forall fuel: nat
        ensures TryGives(net, reg, id, full, fuel, t) <==> Gives(net, reg, answer.reference, answer.name, fuel, t)
      {
      }
    } else {
      forall fuel: nat ensures TryGives(net, reg, id, full, fuel, t) <==> TryGives(net, reg, id, full, 0, t) {
      }
      assert Contributes(net, reg, id, full, t) <==> TryGives(net, reg, id, full, 0, t);
    }
  }

  // ------------------------------------------------------------ the first library that the name concerns

  /** Whether the search from the i-th library on has tried mscorlib. */
  function TriedAt(reg: Registry, i: nat): bool {
    i > 0 && MSCORLIB in reg
  }

  predicate EndsAt(net: Net, reg: Registry, full: string, i: nat, fuel: nat)
    requires i < |CORE|
  {
    IsLoaded(reg, CORE[i]) && TryIn(net, reg, reg[CORE[i]].id, full, fuel).Some?
    && TryIn(net, reg, reg[CORE[i]].id, full, fuel).value.found.Some?
  }

  /** The name is that of the i-th library, or the library is loaded and its answer passes through the name. */
  predicate Concerns(net: Net, reg: Registry, full: string, n: string, i: nat, fuel: nat)
    requires i < |CORE|
  {
    CORE[i] == n || (IsLoaded(reg, CORE[i]) && n in TryNames(net, reg, reg[CORE[i]].id, full, fuel))
  }

  /** The first library, from the i-th to the one that answers, that the name concerns. */
  function Place(net: Net, reg: Registry, full: string, n: string, i: nat, fuel: nat): (p: Option<nat>)
    ensures p.Some? ==> i <= p.value < |CORE| && Concerns(net, reg, full, n, p.value, fuel)
    decreases |CORE| - i
  {
    if |CORE| <= i then None
    else if Concerns(net, reg, full, n, i, fuel) then Some(i)
    else if EndsAt(net, reg, full, i, fuel) then None
    else Place(net, reg, full, n, i + 1, fuel)
  }

  /** The search from the i-th library on ends, through loaded assemblies only. */
  predicate QuietSearch(net: Net, reg: Registry, full: string, i: nat, fuel: nat) {
    && full !in net.stubs && SearchFrom(net, reg, full, i, TriedAt(reg, i), fuel).Some?
    && AllLoaded(reg, DepsFrom(net, reg, full, i, TriedAt(reg, i), fuel).loaded)
  }

  /** The name is one of those that the search depends on. */
  predicate DependsOn(net: Net, reg: Registry, full: string, n: string, i: nat, fuel: nat) {
    var deps := DepsFrom(net, reg, full, i, TriedAt(reg, i), fuel);
    n in deps.loaded || n in deps.absent
  }

  /** A quiet search goes on quietly after a library that is absent or silent. */
  lemma QuietSearchGoesOn(net: Net, reg: Registry, full: string, i: nat, fuel: nat)
    requires i < |CORE| && QuietSearch(net, reg, full, i, fuel) && !EndsAt(net, reg, full, i, fuel)
    ensures QuietSearch(net, reg, full, i + 1, fuel)
    ensures SearchFrom(net, reg, full, i, TriedAt(reg, i), fuel)
            == SearchFrom(net, reg, full, i + 1, TriedAt(reg, i + 1), fuel)
    ensures CORE[i] in reg ==>
              && IsLoaded(reg, CORE[i])
              && TryIn(net, reg, reg[CORE[i]].id, full, fuel) == Some(Tried(None, reg))
              && AllLoaded(reg, TryNames(net, reg, reg[CORE[i]].id, full, fuel))
    ensures forall n :: DependsOn(net, reg, full, n, i, fuel) <==>
                        Concerns(net, reg, full, n, i, fuel) || DependsOn(net, reg, full, n, i + 1, fuel)
  {
    var deps := DepsFrom(net, reg, full, i, TriedAt(reg, i), fuel);
    assert CORE[0] == MSCORLIB;
    if CORE[i] in reg {
      assert CORE[i] in deps.loaded && IsLoaded(reg, CORE[i]);
      var id := reg[CORE[i]].id;
      assert TryNames(net, reg, id, full, fuel) <= deps.loaded;
      TryDependsOnNames(net, reg, reg, id, full, fuel);
    }
  }

  lemma QuietSearchEnds(net: Net, reg: Registry, full: string, i: nat, fuel: nat)
    requires i < |CORE| && QuietSearch(net, reg, full, i, fuel) && EndsAt(net, reg, full, i, fuel)
    ensures forall n :: DependsOn(net, reg, full, n, i, fuel) <==> Concerns(net, reg, full, n, i, fuel)
    ensures AllLoaded(reg, TryNames(net, reg, reg[CORE[i]].id, full, fuel))
  {
    var deps := DepsFrom(net, reg, full, i, TriedAt(reg, i), fuel);
    assert TryNames(net, reg, reg[CORE[i]].id, full, fuel) <= deps.loaded;
  }

  /** A name that the search depends on concerns one of its libraries. */
  lemma {:induction false} PlaceExactlyWhen(net: Net, reg: Registry, full: string, n: string, i: nat, fuel: nat)
    requires i <= |CORE| && QuietSearch(net, reg, full, i, fuel)
    ensures Place(net, reg, full, n, i, fuel).Some? <==> DependsOn(net, reg, full, n, i, fuel)
    decreases |CORE| - i
  {
    if i < |CORE| {
      if EndsAt(net, reg, full, i, fuel) {
        QuietSearchEnds(net, reg, full, i, fuel);
      } else {
        QuietSearchGoesOn(net, reg, full, i, fuel);
        PlaceExactlyWhen(net, reg, full, n, i + 1, fuel);
      }
    } else {
      FallbackIsNotQuiet(net, reg, full, fuel);
    }
  }

  /** The fallback to mscorlib has to load it. */
  lemma FallbackIsNotQuiet(net: Net, reg: Registry, full: string, fuel: nat)
    ensures QuietSearch(net, reg, full, |CORE|, fuel) ==> TriedAt(reg, |CORE|)
  {
    var last := |CORE|;
    if full !in net.stubs && !TriedAt(reg, last) && SearchFrom(net, reg, full, last, false, fuel).Some? {
      assert MSCORLIB in DepsFrom(net, reg, full, last, false, fuel).loaded && !IsLoaded(reg, MSCORLIB);
    }
  }

  /** Up to the first library that the name concerns, the search goes on as before. */
  lemma {:induction false} SearchGetsTo(net: Net, reg: Registry, full: string, n: string, id: nat, i: nat, fuel: nat,
                                        t: TypeDescription)
    requires QuietSearch(net, reg, full, i, fuel) && Place(net, reg, full, n, i, fuel).Some?
    ensures var p, reg' := Place(net, reg, full, n, i, fuel).value, reg[n := Present(id)];
            AnswersFrom(net, reg', full, i, TriedAt(reg, i), t) <==> AnswersFrom(net, reg', full, p, TriedAt(reg, p), t)
    decreases |CORE| - i
  {
    if !Concerns(net, reg, full, n, i, fuel) {
      QuietSearchGoesOn(net, reg, full, i, fuel);
      SearchGetsTo(net, reg, full, n, id, i + 1, fuel, t);
      LibraryIsPassed(net, reg, full, n, id, i, fuel, t);
    }
  }

  lemma LibraryIsPassed(net: Net, reg: Registry, full: string, n: string, id: nat, i: nat, fuel: nat,
                        t: TypeDescription)
    requires i < |CORE| && !Concerns(net, reg, full, n, i, fuel)
    requires CORE[i] in reg ==>
               && IsLoaded(reg, CORE[i])
               && TryIn(net, reg, reg[CORE[i]].id, full, fuel) == Some(Tried(None, reg))
               && AllLoaded(reg, TryNames(net, reg, reg[CORE[i]].id, full, fuel))
    ensures var reg' := reg[n := Present(id)];
            AnswersFrom(net, reg', full, i, TriedAt(reg, i), t) <==>
            AnswersFrom(net, reg', full, i + 1, TriedAt(reg, i + 1), t)
  {
    var reg' := reg[n := Present(id)];
    assert CORE[0] == MSCORLIB;
    if CORE[i] in reg {
      var lib := reg[CORE[i]].id;
      TryDependsOnNames(net, reg, reg', lib, full, fuel);
      AnswersAtPlace(net, reg', full, i, TriedAt(reg, i), t);
      SilentLibraryIsPassed(net, reg', full, lib, i + 1, TriedAt(reg, i + 1), fuel, t);
    } else {
      AbsentLibraryIsPassed(net, reg', full, i, TriedAt(reg, i), t);
    }
  }

  lemma AbsentLibraryIsPassed(net: Net, reg: Registry, full: string, i: nat, tried: bool, t: TypeDescription)
    requires i < |CORE| && CORE[i] !in reg
    ensures AnswersFrom(net, reg, full, i, tried, t) <==> AnswersFrom(net, reg, full, i + 1, tried, t)
  {
    if AnswersFrom(net, reg, full, i, tried, t) {
      var m: nat :| SearchGives(net, reg, full, i, tried, m, t);
      assert SearchGives(net, reg, full, i + 1, tried, m, t);
    }
    if AnswersFrom(net, reg, full, i + 1, tried, t) {
      var m: nat :| SearchGives(net, reg, full, i + 1, tried, m, t);
      assert SearchGives(net, reg, full, i, tried, m, t);
    }
  }

  /** A library that is silent and loads nothing contributes nothing, and leaves the answer to the later ones. */
  lemma SilentLibraryIsPassed(net: Net, reg: Registry, full: string, lib: nat, i: nat, tried: bool, fuel: nat,
                              t: TypeDescription)
    requires TryIn(net, reg, lib, full, fuel) == Some(Tried(None, reg))
    ensures !Contributes(net, reg, lib, full, t)
    ensures SilentThenAnswers(net, reg, lib, full, i, tried, t) <==> AnswersFrom(net, reg, full, i, tried, t)
  {
    forall m: nat ensures !TryGives(net, reg, lib, full, m, t) {
      TryIsOne(net, reg, lib, full, fuel, m);
    }
    SilentThenAnswersOne(net, reg, lib, full, i, tried, fuel, t);
  }

  lemma TryIsOne(net: Net, reg: Registry, id: nat, full: string, fuel: nat, fuel': nat)
    requires TryIn(net, reg, id, full, fuel).Some?
    ensures TryIn(net, reg, id, full, fuel').Some? ==>
        TryIn(net, reg, id, full, fuel') == TryIn(net, reg, id, full, fuel)
  {
    MoreFuelForTry(net, reg, id, full, fuel, fuel + fuel');
    if TryIn(net, reg, id, full, fuel').Some? { MoreFuelForTry(net, reg, id, full, fuel', fuel + fuel'); }
  }

  // ------------------------------------------------------------ the answer after a registration

  /** The library at place `p` once the assembly is registered. */
  function Library(reg: Registry, n: string, id: nat, p: nat): nat
    requires p < |CORE| && (CORE[p] == n || IsLoaded(reg, CORE[p]))
  {
    if CORE[p] == n then id else reg[CORE[p]].id
  }

  /** The library at place `p` contributes the type once the assembly is registered: the assembly itself does, or it
      answers with the type where the forwarder of the library first visits its name. */
  ghost predicate PlaceGives(net: Net, reg: Registry, full: string, n: string, id: nat, p: nat, fuel: nat,
                             t: TypeDescription)
    requires p < |CORE|
  {
    if CORE[p] == n then Contributes(net, reg[n := Present(id)], id, full, t)
    else
      && IsLoaded(reg, CORE[p]) && net.answer(reg[CORE[p]].id, full).Forwarded?
      && var Forwarded(r, name) := net.answer(reg[CORE[p]].id, full);
      && FirstVisit(net, reg, n, r, name, fuel).Some?
      && var v := FirstVisit(net, reg, n, r, name, fuel).value;
      AnswersWith(net, reg[n := Present(id)], id, v.reference, v.name, t)
  }

  lemma {:induction false} PlaceContributesExactlyWhen(net: Net, reg: Registry, full: string, n: string, id: nat,
                                                       p: nat, fuel: nat, t: TypeDescription)
    requires Regular(net) && p < |CORE| && CORE[p] != n && Concerns(net, reg, full, n, p, fuel)
    requires TryIn(net, reg, reg[CORE[p]].id, full, fuel).Some?
             && AllLoaded(reg, TryNames(net, reg, reg[CORE[p]].id, full, fuel))
    ensures Contributes(net, reg[n := Present(id)], reg[CORE[p]].id, full, t) <==>
            PlaceGives(net, reg, full, n, id, p, fuel, t)
  {
    var reg', answer := reg[n := Present(id)], net.answer(reg[CORE[p]].id, full);
    var r, name := answer.reference, answer.name;
    ContributesExactlyWhen(net, reg', reg[CORE[p]].id, full, t);
    FirstVisitExactlyWhen(net, reg, n, r, name, fuel);
    ReachesFromVisit(net, reg, n, id, r, name, fuel, t);
    var v := FirstVisit(net, reg, n, r, name, fuel).value;
    ReachesThroughName(net, reg', v.reference, v.name, t);
  }

  /** A core-library type after an assembly is registered under any name. If the search did not depend on the name, the
      answer is what it was. Otherwise the first library that the name concerns decides: a type is the answer if and
      only if that library now contributes it, or is now silent and the later libraries answer with it. */
  lemma {:induction false} CorlibAfterRegistrationExactly(net: Net, reg: Registry, full: string, n: string, id: nat,
                                                          fuel: nat, t: TypeDescription)
    requires Regular(net) && QuietSearch(net, reg, full, 0, fuel)
    ensures Place(net, reg, full, n, 0, fuel).Some? <==> DependsOn(net, reg, full, n, 0, fuel)
    ensures Place(net, reg, full, n, 0, fuel).None? ==>
        (IsCorlib(net, reg[n := Present(id)], full, t) <==> IsCorlib(net, reg, full, t))
    ensures Place(net, reg, full, n, 0, fuel).Some? ==>
              var p, reg' := Place(net, reg, full, n, 0, fuel).value, reg[n := Present(id)];
              IsCorlib(net, reg', full, t) <==>
              || PlaceGives(net, reg, full, n, id, p, fuel, t)
              || SilentThenAnswers(net, reg', Library(reg, n, id, p), full, p + 1, TriedAt(reg, p) || p == 0, t)
  {
    var reg' := reg[n := Present(id)];
    PlaceExactlyWhen(net, reg, full, n, 0, fuel);
    if Place(net, reg, full, n, 0, fuel).None? {
      IndependentAnswerIsKept(net, reg, full, n, id, fuel, t);
    } else {
      var p := Place(net, reg, full, n, 0, fuel).value;
      CorlibIsSearch(net, reg', full, t);
      SearchGetsTo(net, reg, full, n, id, 0, fuel, t);
      AnswersAtPlace(net, reg', full, p, TriedAt(reg, p), t);
      if CORE[p] != n {
        PlaceIsQuiet(net, reg, full, n, 0, fuel);
        PlaceContributesExactlyWhen(net, reg, full, n, id, p, fuel, t);
      }
    }
  }

  lemma IndependentAnswerIsKept(net: Net, reg: Registry, full: string, n: string, id: nat, fuel: nat,
                                t: TypeDescription)
    requires QuietSearch(net, reg, full, 0, fuel) && !DependsOn(net, reg, full, n, 0, fuel)
    ensures IsCorlib(net, reg[n := Present(id)], full, t) <==> IsCorlib(net, reg, full, t)
  {
    var reg' := reg[n := Present(id)];
    CorlibAnswerIsKept(net, reg, reg', full, fuel);
    CorlibIsOne(net, reg, full, fuel, t);
    CorlibIsOne(net, reg', full, fuel, t);
  }

  lemma CorlibIsOne(net: Net, reg: Registry, full: string, fuel: nat, t: TypeDescription)
    requires full !in net.stubs && Corlib(net, reg, full, fuel).Some?
    ensures IsCorlib(net, reg, full, t) <==> Corlib(net, reg, full, fuel).value.result == Ok(t)
  {
    assert Corlib(net, reg, full, fuel).value.result == Ok(t) ==> CorlibGives(net, reg, full, fuel, t);
    if IsCorlib(net, reg, full, t) {
      var m: nat :| CorlibGives(net, reg, full, m, t);
      MoreFuelForSearch(net, reg, full, 0, false, fuel, fuel + m);
      MoreFuelForSearch(net, reg, full, 0, false, m, fuel + m);
    }
  }

  /** The library that the name concerns has answered through loaded assemblies only. */
  lemma {:induction false} PlaceIsQuiet(net: Net, reg: Registry, full: string, n: string, i: nat, fuel: nat)
    requires QuietSearch(net, reg, full, i, fuel) && Place(net, reg, full, n, i, fuel).Some?
    ensures var p := Place(net, reg, full, n, i, fuel).value;
            IsLoaded(reg, CORE[p]) ==>
              && TryIn(net, reg, reg[CORE[p]].id, full, fuel).Some?
              && AllLoaded(reg, TryNames(net, reg, reg[CORE[p]].id, full, fuel))
    decreases |CORE| - i
  {
    if EndsAt(net, reg, full, i, fuel) {
      QuietSearchEnds(net, reg, full, i, fuel);
    } else {
      QuietSearchGoesOn(net, reg, full, i, fuel);
      if !Concerns(net, reg, full, n, i, fuel) { PlaceIsQuiet(net, reg, full, n, i + 1, fuel); }
    }
  }

  /** A search that gets to a place and finds the library there absent goes on quietly. */
  lemma {:induction false} RestIsQuiet(net: Net, reg: Registry, full: string, i: nat, j: nat, fuel: nat)
    requires j < |CORE| && CORE[j] !in reg && QuietSearch(net, reg, full, i, fuel)
    requires Place(net, reg, full, CORE[j], i, fuel) == Some(j)
    ensures QuietSearch(net, reg, full, j + 1, fuel)
    ensures SearchFrom(net, reg, full, i, TriedAt(reg, i), fuel)
            == SearchFrom(net, reg, full, j + 1, TriedAt(reg, j + 1), fuel)
    decreases j - i
  {
    if EndsAt(net, reg, full, i, fuel) {
      assert false;
    } else {
      QuietSearchGoesOn(net, reg, full, i, fuel);
      if i < j { RestIsQuiet(net, reg, full, i + 1, j, fuel); }
    }
  }

  /** A quiet search does not get to the fallback, so that it does not matter whether mscorlib was tried. */
  lemma {:induction false} TriedIsIdle(net: Net, reg: Registry, full: string, i: nat, fuel: nat)
    requires 0 < i <= |CORE| && QuietSearch(net, reg, full, i, fuel)
    ensures SearchFrom(net, reg, full, i, true, fuel) == SearchFrom(net, reg, full, i, TriedAt(reg, i), fuel)
    ensures DepsFrom(net, reg, full, i, true, fuel) == DepsFrom(net, reg, full, i, TriedAt(reg, i), fuel)
    decreases |CORE| - i
  {
    FallbackIsNotQuiet(net, reg, full, fuel);
    if i < |CORE| && !EndsAt(net, reg, full, i, fuel) {
      QuietSearchGoesOn(net, reg, full, i, fuel);
      TriedIsIdle(net, reg, full, i + 1, fuel);
    }
  }

  /** A type was found beyond a core library that was not registered. Registering the library keeps the answer if and
      only if it answers with the same type, or is silent and, with what it has loaded to be silent, the later
      libraries still find the type. These do if what it loads respects what they depend on. */
  lemma {:induction false} LateRegistrationExactly(net: Net, reg: Registry, full: string, j: nat, id: nat, fuel: nat,
                                                   t: TypeDescription)
    requires Regular(net) && QuietSearch(net, reg, full, 0, fuel) && j < |CORE| && CORE[j] !in reg
    requires Place(net, reg, full, CORE[j], 0, fuel) == Some(j) && IsCorlib(net, reg, full, t)
    requires TryIn(net, reg[CORE[j] := Present(id)], id, full, fuel).Some?
    ensures var Tried(found, reg1) := TryIn(net, reg[CORE[j] := Present(id)], id, full, fuel).value;
            var tried := TriedAt(reg, j) || j == 0;
            && (IsCorlib(net, reg[CORE[j] := Present(id)], full, t) <==>
                found == Some(t) || (found.None? && AnswersFrom(net, reg1, full, j + 1, tried, t)))
            && (Respects(reg, reg1, DepsFrom(net, reg, full, j + 1, TriedAt(reg, j + 1), fuel)) ==>
                AnswersFrom(net, reg1, full, j + 1, tried, t))
  {
    var reg' := reg[CORE[j] := Present(id)];
    var Tried(found, reg1) := TryIn(net, reg', id, full, fuel).value;
    var tried := TriedAt(reg, j) || j == 0;
    CorlibAfterRegistrationExactly(net, reg, full, CORE[j], id, fuel, t);
    ContributesOne(net, reg', id, full, fuel, t);
    SilentThenAnswersOne(net, reg', id, full, j + 1, tried, fuel, t);
    if Respects(reg, reg1, DepsFrom(net, reg, full, j + 1, TriedAt(reg, j + 1), fuel)) {
      RestStillAnswers(net, reg, full, j, fuel, reg1, t);
    }
  }

  /** What was found beyond an absent library is found in every registry that respects the later dependencies. */
  lemma {:induction false} RestStillAnswers(net: Net, reg: Registry, full: string, j: nat, fuel: nat, reg1: Registry,
                                            t: TypeDescription)
    requires QuietSearch(net, reg, full, 0, fuel) && j < |CORE| && CORE[j] !in reg
    requires Place(net, reg, full, CORE[j], 0, fuel) == Some(j) && IsCorlib(net, reg, full, t)
    requires Respects(reg, reg1, DepsFrom(net, reg, full, j + 1, TriedAt(reg, j + 1), fuel))
    ensures AnswersFrom(net, reg1, full, j + 1, TriedAt(reg, j) || j == 0, t)
  {
    RestIsQuiet(net, reg, full, 0, j, fuel);
    CorlibIsOne(net, reg, full, fuel, t);
    TriedIsIdle(net, reg, full, j + 1, fuel);
    assert CORE[0] == MSCORLIB;
    SearchDependsOnDeps(net, reg, reg1, full, j + 1, TriedAt(reg, j) || j == 0, fuel);
    assert SearchGives(net, reg1, full, j + 1, TriedAt(reg, j) || j == 0, fuel, t);
  }

  /** A library that ends its answer is silent with one registry only. */
  lemma SilentThenAnswersOne(net: Net, reg: Registry, id: nat, full: string, i: nat, tried: bool, fuel: nat,
                             t: TypeDescription)
    requires TryIn(net, reg, id, full, fuel).Some?
    ensures var Tried(found, reg1) := TryIn(net, reg, id, full, fuel).value;
            SilentThenAnswers(net, reg, id, full, i, tried, t) <==>
            found.None? && AnswersFrom(net, reg1, full, i, tried, t)
  {
    var Tried(found, reg1) := TryIn(net, reg, id, full, fuel).value;
    if SilentThenAnswers(net, reg, id, full, i, tried, t) {
      var m: nat :| SilentAndGives(net, reg, id, full, i, tried, m, t);
      TryIsOne(net, reg, id, full, fuel, m);
      assert SearchGives(net, reg1, full, i, tried, m, t);
    }
    if found.None? && AnswersFrom(net, reg1, full, i, tried, t) {
      var m: nat :| SearchGives(net, reg1, full, i, tried, m, t);
      MoreFuelForSearch(net, reg1, full, i, tried, m, fuel + m);
      MoreFuelForTry(net, reg, id, full, fuel, fuel + m);
      assert SilentAndGives(net, reg, id, full, i, tried, fuel + m, t);
    }
  }

  lemma ContributesOne(net: Net, reg: Registry, id: nat, full: string, fuel: nat, t: TypeDescription)
    requires TryIn(net, reg, id, full, fuel).Some?
    ensures Contributes(net, reg, id, full, t) <==> TryIn(net, reg, id, full, fuel).value.found == Some(t)
  {
    assert TryIn(net, reg, id, full, fuel).value.found == Some(t) ==> TryGives(net, reg, id, full, fuel, t);
    if Contributes(net, reg, id, full, t) {
      var m: nat :| TryGives(net, reg, id, full, m, t);
      TryIsOne(net, reg, id, full, fuel, m);
    }
  }

  // ------------------------------------------------------------ a forwarded answer

  /** Assembly 0 forwards the type `T` to System.Private.CoreLib; assemblies 1 and 2 define it. */
  function Forwarding(): World {
    World(id => if id == 0
                then Assembly("m", NO_VERSION, [], [ExportedType("", "T", Forwarder(0))],
                              [AssemblyRef(CORE[1], NO_VERSION)], [])
                else Assembly("s", NO_VERSION, [TypeDef("", "T", None, "T")], [], [], []),
          map[], map[], map[], false, _ => ["T"])
  }

  lemma ForwardingAnswers(id: nat)
    requires id > 0
    ensures var net, reg := NetOf(Forwarding()), map[MSCORLIB := Present(0), CORE[1] := Present(id)];
            && QuietSearch(net, reg, "T", 0, 2) && Place(net, reg, "T", CORE[1], 0, 2) == Some(0)
            && Corlib(net, reg, "T", 2) == Some(Found(Ok(TypeDescription(id, 0)), reg))
  {
    var w, net, reg := Forwarding(), NetOf(Forwarding()), map[MSCORLIB := Present(0), CORE[1] := Present(id)];
    CoreNamesDiffer(0, 1);
    assert CORE[0] == MSCORLIB && Split("T") == ("", "T");
    var r := AssemblyRef(CORE[1], NO_VERSION);
    assert AnswerOf(w, 0, "T") == Forwarded(r, "T") && AnswerOf(w, id, "T") == Known(Ok(TypeDescription(id, 0)));
    assert Find(net, reg, r, "T", 2) == Some(Found(Ok(TypeDescription(id, 0)), reg));
    assert Names(net, reg, r, "T", 2) == {CORE[1]};
    assert DepsFrom(net, reg, "T", 0, false, 2).loaded == {MSCORLIB, CORE[1]};
  }

  /** The type was found through the forwarder of mscorlib; registering another System.Private.CoreLib changes it. */
  lemma ForwardedAnswerChanges()
    ensures var net, reg := NetOf(Forwarding()), map[MSCORLIB := Present(0), CORE[1] := Present(1)];
            && IsCorlib(net, reg, "T", TypeDescription(1, 0))
            && !IsCorlib(net, reg[CORE[1] := Present(2)], "T", TypeDescription(1, 0))
            && IsCorlib(net, reg[CORE[1] := Present(2)], "T", TypeDescription(2, 0))
  {
    var net, reg := NetOf(Forwarding()), map[MSCORLIB := Present(0), CORE[1] := Present(1)];
    var reg' := map[MSCORLIB := Present(0), CORE[1] := Present(2)];
    CoreNamesDiffer(0, 1);
    assert CORE[0] == MSCORLIB;
    assert reg[CORE[1] := Present(2)] == reg';
    ForwardingAnswers(1);
    ForwardingAnswers(2);
    CorlibIsOne(net, reg, "T", 2, TypeDescription(1, 0));
    CorlibIsOne(net, reg', "T", 2, TypeDescription(1, 0));
    CorlibIsOne(net, reg', "T", 2, TypeDescription(2, 0));
  }
}
