/** When a cached type is still what an uncached lookup gives: over runs without overwritten names always, and
    after an overwritten name under an exact condition. */
module TypeCaches {
  import opened Wrappers
  import opened AssemblyMetadata
  import opened TypeResolution

  // ------------------------------------------------------------ an overwritten name

  /** The lookup ends and finds `t`. */
  ghost predicate Reaches(net: Net, reg: Registry, r: AssemblyRef, full: string, t: TypeDescription) {
    exists fuel :: Gives(net, reg, r, full, fuel, t)
  }

  predicate Gives(net: Net, reg: Registry, r: AssemblyRef, full: string, fuel: nat, t: TypeDescription) {
    Find(net, reg, r, full, fuel).Some? && Find(net, reg, r, full, fuel).value.result == Ok(t)
  }

  lemma GivesWithMore(net: Net, reg: Registry, r: AssemblyRef, full: string, fuel: nat, more: nat, t: TypeDescription)
    requires Gives(net, reg, r, full, fuel, t) && fuel <= more
    ensures Gives(net, reg, r, full, more, t)
  {
    MoreFuel(net, reg, r, full, fuel, more);
  }

  lemma ReachesOne(net: Net, reg: Registry, r: AssemblyRef, full: string, fuel: nat, t: TypeDescription)
    requires Find(net, reg, r, full, fuel).Some?
    ensures Reaches(net, reg, r, full, t) <==> Find(net, reg, r, full, fuel).value.result == Ok(t)
  {
    if fuel' :| Gives(net, reg, r, full, fuel', t) {
      MoreFuel(net, reg, r, full, fuel, fuel + fuel');
      MoreFuel(net, reg, r, full, fuel', fuel + fuel');
    }
    assert Find(net, reg, r, full, fuel).value.result == Ok(t) ==> Gives(net, reg, r, full, fuel, t);
  }

  /** The lookup ends, through loaded assemblies only. */
  predicate Quiet(net: Net, reg: Registry, r: AssemblyRef, full: string, fuel: nat) {
    && Find(net, reg, r, full, fuel).Some?
    && forall n :: n in Names(net, reg, r, full, fuel) ==> IsLoaded(reg, n)
  }

  /** The first visit of a lookup to a name, and the number of steps before it. */
  datatype Passage = Passage(reference: AssemblyRef, name: string, steps: nat)

  function FirstVisit(net: Net, reg: Registry, n: string, r: AssemblyRef, full: string, fuel: nat): Option<Passage>
    decreases fuel
  {
    if fuel == 0 || full in net.stubs then None
    else if r.name == n then Some(Passage(r, full, 0))
    else
      match Visit(net, reg, r, full)
      case Done(_, _) => None
      case Next(r1, full1, reg1) =>
        match FirstVisit(net, reg1, n, r1, full1, fuel - 1)
        case None => None
        case Some(p) => Some(p.(steps := p.steps + 1))
  }

  lemma NextName(net: Net, reg: Registry, r: AssemblyRef, full: string)
    requires Regular(net) && Visit(net, reg, r, full).Next?
    ensures Visit(net, reg, r, full).name == Rejoined(full)
  {
    assert AnswersAlike(net, Get(net, reg, r).result.id, full);
  }

  /** A lookup visits a name exactly if it passes through it, always under the name asked for. */
  lemma {:induction false} FirstVisitExactlyWhen(net: Net, reg: Registry, n: string, r: AssemblyRef, full: string,
                                                 fuel: nat)
    requires Regular(net)
    ensures FirstVisit(net, reg, n, r, full, fuel).Some? <==> n in Names(net, reg, r, full, fuel)
    ensures FirstVisit(net, reg, n, r, full, fuel).Some? ==>
        VisitsAs(net, n, full, FirstVisit(net, reg, n, r, full, fuel).value)
        && FirstVisit(net, reg, n, r, full, fuel).value.steps < fuel
    decreases fuel
  {
    if fuel > 0 && full !in net.stubs && r.name != n {
      var step := Visit(net, reg, r, full);
      if step.Next? {
        NextName(net, reg, r, full);
        FirstVisitExactlyWhen(net, step.reg, n, step.reference, step.name, fuel - 1);
        RejoinedSplitsAlike(full);
        FirstVisitIsLater(net, reg, n, r, full, fuel);
      }
    }
  }

  /** A first visit that is not at the reference itself is the first visit of the rest of the lookup. */
  lemma FirstVisitIsLater(net: Net, reg: Registry, n: string, r: AssemblyRef, full: string, fuel: nat)
    requires fuel > 0 && full !in net.stubs && r.name != n && Visit(net, reg, r, full).Next?
    ensures var step := Visit(net, reg, r, full);
            var later := FirstVisit(net, step.reg, n, step.reference, step.name, fuel - 1);
            && (n in Names(net, reg, r, full, fuel) <==>
                n in Names(net, step.reg, step.reference, step.name, fuel - 1))
            && FirstVisit(net, reg, n, r, full, fuel)
               == if later.None? then None else Some(later.value.(steps := later.value.steps + 1))
  {
  }

  predicate VisitsAs(net: Net, n: string, full: string, p: Passage) {
    p.reference.name == n && p.name !in net.stubs && (p.name == full || p.name == Rejoined(full))
  }

  /** Up to its first visit to `n` a lookup does not depend on what `n` stands for. */
  lemma {:induction false} LookupGoesOnAtVisit(net: Net, reg: Registry, n: string, id: nat, r: AssemblyRef,
                                               full: string, fuel: nat, more: nat)
    requires Quiet(net, reg, r, full, fuel) && FirstVisit(net, reg, n, r, full, fuel).Some?
    ensures var p := FirstVisit(net, reg, n, r, full, fuel).value;
            Find(net, reg[n := Present(id)], r, full, more + p.steps)
            == Find(net, reg[n := Present(id)], p.reference, p.name, more)
    decreases fuel
  {
    if r.name != n {
      assert r.name in Names(net, reg, r, full, fuel);
      VisitDependsOnName(net, reg, reg[n := Present(id)], r, full);
      var step := Visit(net, reg, r, full);
      assert step.reg == reg;
      LookupGoesOnAtVisit(net, reg, n, id, step.reference, step.name, fuel - 1, more);
    }
  }

  /** Assembly `id`, standing for the reference, answers the name with `t`. */
  ghost predicate AnswersWith(net: Net, reg: Registry, id: nat, r: AssemblyRef, full: string, t: TypeDescription) {
    && net.binds(id, r)
    && match net.answer(id, full)
       case Known(result) => result == Ok(t)
       case Forwarded(r1, full1) => Reaches(net, reg, r1, full1, t)
       case Unknown => false
  }

  lemma ReachesThroughName(net: Net, reg: Registry, r: AssemblyRef, full: string, t: TypeDescription)
    requires IsLoaded(reg, r.name) && full !in net.stubs
    ensures Reaches(net, reg, r, full, t) <==> AnswersWith(net, reg, reg[r.name].id, r, full, t)
  {
    var step := Visit(net, reg, r, full);
    if step.Next? {
      ReachesNext(net, reg, r, full, t);
    } else {
      ReachesOne(net, reg, r, full, 1, t);
    }
  }

  lemma ReachesNext(net: Net, reg: Registry, r: AssemblyRef, full: string, t: TypeDescription)
    requires Visit(net, reg, r, full).Next?
    ensures var step := Visit(net, reg, r, full); Reaches(net, reg, r, full, t) <==>
        Reaches(net, step.reg, step.reference, step.name, t)
  {
    var step := Visit(net, reg, r, full);
    forall fuel: nat ensures Gives(net, reg, r, full, fuel + 1, t) <==>
        Gives(net, step.reg, step.reference, step.name, fuel, t) {
    }
    if Reaches(net, reg, r, full, t) {
      var fuel: nat :| Gives(net, reg, r, full, fuel, t);
      var less: nat := fuel - 1;
      assert Gives(net, reg, r, full, less + 1, t) && Gives(net, step.reg, step.reference, step.name, less, t);
    }
    if Reaches(net, step.reg, step.reference, step.name, t) {
      var fuel: nat :| Gives(net, step.reg, step.reference, step.name, fuel, t);
      assert Gives(net, reg, r, full, fuel + 1, t);
    }
  }

  /** A lookup that does not pass through the overwritten name is unchanged; one that does still finds its type
      if and only if the new assembly answers with it at the first visit. */
  lemma {:induction false} OverwrittenLookupExactly(net: Net, reg: Registry, n: string, id: nat, r: AssemblyRef,
                                                    full: string, fuel: nat, t: TypeDescription)
    requires Regular(net) && Quiet(net, reg, r, full, fuel) && Gives(net, reg, r, full, fuel, t)
    ensures n !in Names(net, reg, r, full, fuel) ==>
        Quiet(net, reg[n := Present(id)], r, full, fuel) && Gives(net, reg[n := Present(id)], r, full, fuel, t)
    ensures n in Names(net, reg, r, full, fuel) ==>
              && FirstVisit(net, reg, n, r, full, fuel).Some?
              && var p := FirstVisit(net, reg, n, r, full, fuel).value;
              (Reaches(net, reg[n := Present(id)], r, full, t) <==>
                  AnswersWith(net, reg[n := Present(id)], id, p.reference, p.name, t))
  {
    var reg' := reg[n := Present(id)];
    FirstVisitExactlyWhen(net, reg, n, r, full, fuel);
    if n !in Names(net, reg, r, full, fuel) {
      FindDependsOnNames(net, reg, reg', r, full, fuel);
    } else {
      var p := FirstVisit(net, reg, n, r, full, fuel).value;
      ReachesFromVisit(net, reg, n, id, r, full, fuel, t);
      ReachesThroughName(net, reg', p.reference, p.name, t);
    }
  }

  lemma {:induction false} ReachesFromVisit(net: Net, reg: Registry, n: string, id: nat, r: AssemblyRef, full: string,
                                            fuel: nat, t: TypeDescription)
    requires Quiet(net, reg, r, full, fuel) && FirstVisit(net, reg, n, r, full, fuel).Some?
    ensures var p, reg' := FirstVisit(net, reg, n, r, full, fuel).value, reg[n := Present(id)];
            Reaches(net, reg', r, full, t) <==> Reaches(net, reg', p.reference, p.name, t)
  {
    var p, reg' := FirstVisit(net, reg, n, r, full, fuel).value, reg[n := Present(id)];
    if Reaches(net, reg', r, full, t) {
      var more: nat :| Gives(net, reg', r, full, more, t);
      GivesWithMore(net, reg', r, full, more, more + p.steps, t);
      GivesFromVisit(net, reg, n, id, r, full, fuel, more, t);
    }
    if Reaches(net, reg', p.reference, p.name, t) {
      var more: nat :| Gives(net, reg', p.reference, p.name, more, t);
      GivesFromVisit(net, reg, n, id, r, full, fuel, more, t);
    }
  }

  lemma {:induction false} GivesFromVisit(net: Net, reg: Registry, n: string, id: nat, r: AssemblyRef, full: string,
                                          fuel: nat, more: nat, t: TypeDescription)
    requires Quiet(net, reg, r, full, fuel) && FirstVisit(net, reg, n, r, full, fuel).Some?
    ensures var p, reg' := FirstVisit(net, reg, n, r, full, fuel).value, reg[n := Present(id)];
            Gives(net, reg', r, full, more + p.steps, t) <==> Gives(net, reg', p.reference, p.name, more, t)
  {
    LookupGoesOnAtVisit(net, reg, n, id, r, full, fuel, more);
  }

  /** A new assembly that forwards the name on: it answers with `t` if and only if, in the old registry, the place
      it forwards to finds `t` without passing through the overwritten name. Otherwise the lookup fails or never
      ends. */
  lemma {:induction false} ForwardingAssemblyExactly(net: Net, reg: Registry, n: string, id: nat, r: AssemblyRef,
                                                     full: string,
                                                     r1: AssemblyRef, full1: string, fuel: nat, t: TypeDescription)
    requires Regular(net) && r.name == n && full !in net.stubs && net.answer(id, full) == Forwarded(r1, full1)
             && Quiet(net, reg, r1, full1, fuel)
    ensures AnswersWith(net, reg[n := Present(id)], id, r, full, t)
            <==> net.binds(id, r) && n !in Names(net, reg, r1, full1, fuel)
                 && Find(net, reg, r1, full1, fuel).value.result == Ok(t)
  {
    var reg' := reg[n := Present(id)];
    if n !in Names(net, reg, r1, full1, fuel) {
      FindDependsOnNames(net, reg, reg', r1, full1, fuel);
      ReachesOne(net, reg', r1, full1, fuel, t);
    } else {
      FirstVisitExactlyWhen(net, reg, n, r1, full1, fuel);
      ReachesFromVisit(net, reg, n, id, r1, full1, fuel, t);
      var p := FirstVisit(net, reg, n, r1, full1, fuel).value;
      assert AnswersAlike(net, id, full);
      RejoinedSplitsAlike(full);
      if net.binds(id, p.reference) {
        forall more: nat ensures !Gives(net, reg', r1, full1, more, t) {
          ForwardLoops(net, reg, n, id, r1, full1, fuel, more);
        }
      } else {
        ReachesThroughName(net, reg', p.reference, p.name, t);
      }
    }
  }

  /** A lookup that comes back to a name that sends it to its start has no result. */
  lemma {:induction false} ForwardLoops(net: Net, reg: Registry, n: string, id: nat, r: AssemblyRef, full: string,
                                        fuel: nat, more: nat)
    requires Quiet(net, reg, r, full, fuel) && FirstVisit(net, reg, n, r, full, fuel).Some?
    requires var p := FirstVisit(net, reg, n, r, full, fuel).value;
             p.reference.name == n && p.name !in net.stubs && net.binds(id, p.reference)
             && net.answer(id, p.name) == Forwarded(r, full)
    ensures Find(net, reg[n := Present(id)], r, full, more).None?
    decreases more
  {
    var p, reg' := FirstVisit(net, reg, n, r, full, fuel).value, reg[n := Present(id)];
    if more <= p.steps {
      NotBeforeVisit(net, reg, n, id, r, full, fuel, more);
    } else {
      LookupGoesOnAtVisit(net, reg, n, id, r, full, fuel, more - p.steps);
      ForwardLoops(net, reg, n, id, r, full, fuel, more - p.steps - 1);
      assert Visit(net, reg', p.reference, p.name) == Next(r, full, reg');
    }
  }

  lemma {:induction false} NotBeforeVisit(net: Net, reg: Registry, n: string, id: nat, r: AssemblyRef, full: string,
                                          fuel: nat, more: nat)
    requires Quiet(net, reg, r, full, fuel) && FirstVisit(net, reg, n, r, full, fuel).Some?
    requires more <= FirstVisit(net, reg, n, r, full, fuel).value.steps
    ensures Find(net, reg[n := Present(id)], r, full, more).None?
  {
    var p, reg' := FirstVisit(net, reg, n, r, full, fuel).value, reg[n := Present(id)];
    LookupGoesOnAtVisit(net, reg, n, id, r, full, fuel, 0);
    if Find(net, reg', r, full, more).Some? {
      MoreFuel(net, reg', r, full, more, p.steps);
    }
  }

  // ------------------------------------------------------------ cached entries

  /** An uncached lookup now finds `t`. */
  ghost predicate Current(net: Net, reg: Registry, key: Key, t: TypeDescription) {
    exists fuel :: Locates(net, reg, key, fuel, t)
  }

  predicate Locates(net: Net, reg: Registry, key: Key, fuel: nat, t: TypeDescription) {
    Locate(net, reg, key, fuel).Some? && Locate(net, reg, key, fuel).value.result == Ok(t)
  }

  /** The assembly names behind a key. */
  function KeyNames(net: Net, reg: Registry, key: Key, fuel: nat): set<string> {
    match key.1
    case Definition(_) => {}
    case Reference(k) =>
      match Root(net, key.0, k, fuel)
      case None => {}
      case Some(start) => Names(net, reg, start.reference, start.name, start.fuel)
  }

  /** An uncached lookup now finds `t`, through loaded assemblies only. */
  predicate SettledBy(net: Net, reg: Registry, key: Key, t: TypeDescription, fuel: nat) {
    Locates(net, reg, key, fuel, t) && forall n :: n in KeyNames(net, reg, key, fuel) ==> IsLoaded(reg, n)
  }

  ghost predicate Settled(net: Net, reg: Registry, key: Key, t: TypeDescription) {
    exists fuel :: SettledBy(net, reg, key, t, fuel)
  }

  /** The outermost owner behind a settled entry. */
  lemma OwnerOf(net: Net, reg: Registry, key: Key, t: TypeDescription, fuel: nat)
    returns (start: Start, o: TypeDescription)
    requires SettledBy(net, reg, key, t, fuel) && key.1.Reference?
    ensures Root(net, key.0, key.1.index, fuel) == Some(start)
    ensures Quiet(net, reg, start.reference, start.name, start.fuel)
            && Gives(net, reg, start.reference, start.name, start.fuel, o)
    ensures Down(net, key.0, key.1.index, o, fuel) == Ok(t)
  {
    RefFollowsRoot(net, reg, key.0, key.1.index, fuel);
    start := Root(net, key.0, key.1.index, fuel).value;
    o := Find(net, reg, start.reference, start.name, start.fuel).value.result.found;
  }

  /** The lookup of the key starts at `start`, and the way down from `o` leads to `t`. */
  predicate Leads(net: Net, key: Key, t: TypeDescription, fuel: nat, start: Start, o: TypeDescription) {
    && key.1.Reference? && Root(net, key.0, key.1.index, fuel) == Some(start)
    && Down(net, key.0, key.1.index, o, fuel) == Ok(t)
  }

  /** In any registry, the entry is current exactly if the lookup of its outermost owner still finds that owner. */
  lemma {:induction false} CurrentExactlyWhenOwnerIs(net: Net, reg: Registry, key: Key, t: TypeDescription, fuel: nat,
                                                     start: Start, o: TypeDescription)
    requires Regular(net) && Leads(net, key, t, fuel, start, o)
    ensures Current(net, reg, key, t) <==> Reaches(net, reg, start.reference, start.name, o)
  {
    if Current(net, reg, key, t) {
      var more: nat :| Locates(net, reg, key, more, t);
      LocatedOwner(net, reg, key, t, fuel, start, o, more);
    }
    if Reaches(net, reg, start.reference, start.name, o) {
      var more: nat :| Gives(net, reg, start.reference, start.name, more, o);
      GivesWithMore(net, reg, start.reference, start.name, more, start.fuel + more, o);
      LocatedFromOwner(net, reg, key, t, fuel, start, o, more);
    }
  }

  /** With given fuel, the entry's type is found exactly if its outermost owner is. */
  lemma {:induction false} LocatesExactlyWhen(net: Net, reg: Registry, key: Key, t: TypeDescription, fuel: nat,
                                              start: Start, o: TypeDescription)
    requires Regular(net) && Leads(net, key, t, fuel, start, o)
    ensures Locates(net, reg, key, fuel, t) <==> Gives(net, reg, start.reference, start.name, start.fuel, o)
  {
    RefFollowsRoot(net, reg, key.0, key.1.index, fuel);
    var found := Find(net, reg, start.reference, start.name, start.fuel);
    if found.Some? && found.value.result.Ok? && Locates(net, reg, key, fuel, t) {
      DownIsInjective(net, key.0, key.1.index, o, found.value.result.found, fuel);
    }
  }

  lemma {:induction false} LeadsWithMore(net: Net, key: Key, t: TypeDescription, fuel: nat, start: Start,
                                         o: TypeDescription, extra: nat)
    requires Leads(net, key, t, fuel, start, o)
    ensures Leads(net, key, t, fuel + extra, Start(start.reference, start.name, start.fuel + extra), o)
  {
    RootWithMoreFuel(net, key.0, key.1.index, o, fuel, extra);
  }

  lemma {:induction false} LocatedOwner(net: Net, reg: Registry, key: Key, t: TypeDescription, fuel: nat, start: Start,
                                        o: TypeDescription, more: nat)
    requires Regular(net) && Leads(net, key, t, fuel, start, o) && Locates(net, reg, key, more, t)
    ensures Reaches(net, reg, start.reference, start.name, o)
  {
    MoreFuelForRef(net, reg, key.0, key.1.index, more, fuel + more);
    LeadsWithMore(net, key, t, fuel, start, o, more);
    LocatesExactlyWhen(net, reg, key, t, fuel + more, Start(start.reference, start.name, start.fuel + more), o);
  }

  lemma {:induction false} LocatedFromOwner(net: Net, reg: Registry, key: Key, t: TypeDescription, fuel: nat,
                                            start: Start, o: TypeDescription, more: nat)
    requires Regular(net) && Leads(net, key, t, fuel, start, o)
             && Gives(net, reg, start.reference, start.name, start.fuel + more, o)
    ensures Locates(net, reg, key, fuel + more, t)
  {
    LeadsWithMore(net, key, t, fuel, start, o, more);
    LocatesExactlyWhen(net, reg, key, t, fuel + more, Start(start.reference, start.name, start.fuel + more), o);
  }

  /** A cached entry after the registration of assembly `id` under `n`. If its lookup did not pass through `n` it
      stays settled. If it did, it is current if and only if the new assembly answers with the entry's outermost
      owner where the lookup first visits `n`; otherwise the cache is stale. */
  lemma {:induction false} EntryAfterRegistrationExactly(net: Net, reg: Registry, key: Key, t: TypeDescription,
                                                         fuel: nat, n: string, id: nat)
    requires Regular(net) && SettledBy(net, reg, key, t, fuel)
    ensures n !in KeyNames(net, reg, key, fuel) ==> SettledBy(net, reg[n := Present(id)], key, t, fuel)
    ensures n in KeyNames(net, reg, key, fuel) ==>
              exists o, p :: IsOwner(net, key, t, fuel, o) && IsFirstVisit(net, reg, key, fuel, n, p)
                             && (Current(net, reg[n := Present(id)], key, t) <==>
                                 AnswersWith(net, reg[n := Present(id)], id, p.reference, p.name, o))
  {
    var reg' := reg[n := Present(id)];
    if key.1.Reference? {
      var start, o := OwnerOf(net, reg, key, t, fuel);
      OverwrittenLookupExactly(net, reg, n, id, start.reference, start.name, start.fuel, o);
      if n in KeyNames(net, reg, key, fuel) {
        var p := FirstVisit(net, reg, n, start.reference, start.name, start.fuel).value;
        CurrentExactlyWhenOwnerIs(net, reg', key, t, fuel, start, o);
        assert IsOwner(net, key, t, fuel, o) && IsFirstVisit(net, reg, key, fuel, n, p);
      } else {
        RefFollowsRoot(net, reg', key.0, key.1.index, fuel);
        FindDependsOnNames(net, reg, reg', start.reference, start.name, start.fuel);
      }
    }
  }

  /** The way down from `o` leads to the type of the entry. */
  predicate IsOwner(net: Net, key: Key, t: TypeDescription, fuel: nat, o: TypeDescription) {
    key.1.Reference? && Root(net, key.0, key.1.index, fuel).Some? && Down(net, key.0, key.1.index, o, fuel) == Ok(t)
  }

  predicate IsFirstVisit(net: Net, reg: Registry, key: Key, fuel: nat, n: string, p: Passage) {
    && key.1.Reference? && Root(net, key.0, key.1.index, fuel).Some?
    && var start := Root(net, key.0, key.1.index, fuel).value;
    FirstVisit(net, reg, n, start.reference, start.name, start.fuel) == Some(p)
  }

  // ------------------------------------------------------------ runs

  /** The registry and the type cache of a loader. */
  datatype State = State(reg: Registry, types: map<Key, TypeDescription>)

  /** A cached lookup: a hit changes nothing; a miss caches its type, and nothing if it fails. */
  function AfterLookup(net: Net, s: State, key: Key, fuel: nat): State
    requires key in s.types || Locate(net, s.reg, key, fuel).Some?
  {
    if key in s.types then s
    else
      match Locate(net, s.reg, key, fuel)
      case Some(Found(Ok(t), reg1)) => State(reg1, s.types[key := t])
      case Some(Found(Err(_), reg1)) => s.(reg := reg1)
  }

  /** Registration of a probing path; a name that is registered keeps its entry. */
  function WithProbe(reg: Registry, n: string, file: File): Registry {
    if n in reg then reg else reg[n := Pending(Some(file))]
  }

  predicate KeyKept(net: Net, reg: Registry, key: Key, fuel: nat) {
    match key.1
    case Definition(_) => true
    case Reference(k) =>
      match Root(net, key.0, k, fuel)
      case None => true
      case Some(start) => Kept(net, reg, start.reference, start.name, start.fuel)
  }

  /** A lookup, a registration or a probing path that gives no loaded name another assembly. */
  ghost predicate SafeStep(net: Net, s: State, s': State) {
    || (exists key, fuel :: LookupStep(net, s, key, fuel, s'))
    || (exists n, id :: (IsLoaded(s.reg, n) ==> s.reg[n].id == id) && s' == s.(reg := s.reg[n := Present(id)]))
    || (exists n, file :: s' == s.(reg := WithProbe(s.reg, n, file)))
  }

  predicate LookupStep(net: Net, s: State, key: Key, fuel: nat, s': State) {
    && (key in s.types || (Locate(net, s.reg, key, fuel).Some? && KeyKept(net, s.reg, key, fuel)))
    && s' == AfterLookup(net, s, key, fuel)
  }

  /** Every cached type is what an uncached lookup gives now. */
  ghost predicate AllSettled(net: Net, s: State) {
    forall key {:trigger s.types[key]} :: key in s.types ==> Settled(net, s.reg, key, s.types[key])
  }

  lemma {:induction false} SettledIsKept(net: Net, reg: Registry, reg': Registry, key: Key, t: TypeDescription)
    requires Settled(net, reg, key, t) && Keeps(reg, reg')
    ensures Settled(net, reg', key, t)
  {
    var fuel :| SettledBy(net, reg, key, t, fuel);
    if key.1.Reference? {
      var start, o := OwnerOf(net, reg, key, t, fuel);
      FindDependsOnNames(net, reg, reg', start.reference, start.name, start.fuel);
      RefFollowsRoot(net, reg', key.0, key.1.index, fuel);
    }
    assert SettledBy(net, reg', key, t, fuel);
  }

  lemma {:induction false} LookupIsSettled(net: Net, reg: Registry, key: Key, fuel: nat)
    requires Locate(net, reg, key, fuel).Some? && KeyKept(net, reg, key, fuel)
    ensures var Found(result, reg1) := Locate(net, reg, key, fuel).value;
            Keeps(reg, reg1) && (result.Ok? ==> Settled(net, reg1, key, result.found))
  {
    var Found(result, reg1) := Locate(net, reg, key, fuel).value;
    match key.1
    case Definition(d) =>
      assert SettledBy(net, reg, key, result.found, fuel);
    case Reference(k) =>
      RefFollowsRoot(net, reg, key.0, k, fuel);
      RefFollowsRoot(net, reg1, key.0, k, fuel);
      match Root(net, key.0, k, fuel) {
        case None => NoRootChangesNothing(net, reg, key.0, k, fuel);
        case Some(start) =>
          KeptLookupKeeps(net, reg, start.reference, start.name, start.fuel);
          if result.Ok? {
            LookupSettles(net, reg, start.reference, start.name, start.fuel);
            assert SettledBy(net, reg1, key, result.found, fuel);
          }
      }
  }

  lemma {:induction false} NoRootChangesNothing(net: Net, reg: Registry, id: nat, k: nat, fuel: nat)
    requires Root(net, id, k, fuel).None? && LocateRef(net, reg, id, k, fuel).Some?
    ensures LocateRef(net, reg, id, k, fuel).value.reg == reg && LocateRef(net, reg, id, k, fuel).value.result.Err?
    decreases fuel
  {
    if net.scope(id, k).Inner? { NoRootChangesNothing(net, reg, id, net.scope(id, k).owner, fuel - 1); }
  }

  lemma {:induction false} KeptLookupKeeps(net: Net, reg: Registry, r: AssemblyRef, full: string, fuel: nat)
    requires Find(net, reg, r, full, fuel).Some? && Kept(net, reg, r, full, fuel)
    ensures Keeps(reg, Find(net, reg, r, full, fuel).value.reg)
    decreases fuel
  {
    var step := Visit(net, reg, r, full);
    if step.Next? { KeptLookupKeeps(net, step.reg, step.reference, step.name, fuel - 1); }
  }

  lemma {:induction false} SafeStepKeepsSettled(net: Net, s: State, s': State)
    requires AllSettled(net, s) && SafeStep(net, s, s')
    ensures AllSettled(net, s') && forall key :: key in s.types ==> key in s'.types && s'.types[key] == s.types[key]
  {
    if key, fuel :| LookupStep(net, s, key, fuel, s') {
      LookupStepKeepsSettled(net, s, key, fuel, s');
    } else {
      assert Keeps(s.reg, s'.reg);
      forall key | key in s'.types ensures Settled(net, s'.reg, key, s'.types[key]) {
        SettledIsKept(net, s.reg, s'.reg, key, s.types[key]);
      }
    }
  }

  lemma {:induction false} LookupStepKeepsSettled(net: Net, s: State, key: Key, fuel: nat, s': State)
    requires AllSettled(net, s) && LookupStep(net, s, key, fuel, s')
    ensures AllSettled(net, s') && forall k :: k in s.types ==> k in s'.types && s'.types[k] == s.types[k]
  {
    if key !in s.types {
      LookupIsSettled(net, s.reg, key, fuel);
      forall k | k in s'.types ensures Settled(net, s'.reg, k, s'.types[k]) {
        if k in s.types { SettledIsKept(net, s.reg, s'.reg, k, s.types[k]); }
      }
    }
  }

  /** Over every run of lookups, registrations and probing paths in which no loaded name gets another assembly,
      every cached type is what an uncached lookup gives now, and no cached type ever changes. */
  lemma {:induction false} CachedTypesStayCurrent(net: Net, run: seq<State>, i: nat, j: nat)
    requires i <= j < |run| && run[0].types == map[]
    requires forall k :: 0 <= k < |run| - 1 ==> SafeStep(net, run[k], run[k + 1])
    ensures AllSettled(net, run[j])
    ensures forall key :: key in run[i].types ==> key in run[j].types && run[j].types[key] == run[i].types[key]
    decreases j
  {
    if i < j {
      CachedTypesStayCurrent(net, run, i, j - 1);
      assert SafeStep(net, run[j - 1], run[j - 1 + 1]);
      SafeStepKeepsSettled(net, run[j - 1], run[j]);
    } else if j > 0 {
      CachedTypesStayCurrent(net, run, j - 1, j - 1);
      assert SafeStep(net, run[j - 1], run[j - 1 + 1]);
      SafeStepKeepsSettled(net, run[j - 1], run[j]);
    }
  }

  // ------------------------------------------------------------ a stale entry

  /** Two assemblies that both define `T`; a third one refers to it as a type of assembly A. */
  function Twins(): World {
    var v := Version(1, 0, 0, 0);
    World(id => if id == 2 then Assembly("C", v, [], [], [AssemblyRef("A", v)], [TypeRef("", "T", InAssembly(0))])
                else Assembly("A", v, [TypeDef("", "T", None, "T")], [], [], []),
          map[], map[], map[], false, _ => [])
  }

  /** The lookup of `T` finds the type of whichever assembly is registered as A. */
  lemma TwinsFind(id: nat)
    requires id < 2
    ensures var reg := map["A" := Present(id)];
            && Find(NetOf(Twins()), reg, AssemblyRef("A", Version(1, 0, 0, 0)), "T", 1)
               == Some(Found(Ok(TypeDescription(id, 0)), reg))
            && Locate(NetOf(Twins()), reg, (2, Reference(0)), 1) == Some(Found(Ok(TypeDescription(id, 0)), reg))
  {
    assert Split("T") == ("", "T");
    var w := Twins();
    assert AnswerOf(w, id, "T") == Known(Ok(TypeDescription(id, 0)));
    assert ScopeOf(w, 2, 0) == Outer(AssemblyRef("A", Version(1, 0, 0, 0)), "T");
  }

  /** The type is cached; then the second assembly is registered as A. The cache keeps the type of the first one,
      and an uncached lookup gives the type of the second. */
  lemma StaleEntry()
    ensures var net, key := NetOf(Twins()), (2, Reference(0));
            var s := State(map["A" := Present(0)], map[key := TypeDescription(0, 0)]);
            var s' := s.(reg := map["A" := Present(1)]);
            && Locate(net, s.reg, key, 1).Some? && AfterLookup(net, s.(types := map[]), key, 1) == s
            && s'.reg == s.reg["A" := Present(1)] && AfterLookup(net, s', key, 1) == s'
            && !Current(net, s'.reg, key, TypeDescription(0, 0)) && Current(net, s'.reg, key, TypeDescription(1, 0))
  {
    var net, key, reg, reg' := NetOf(Twins()), (2, Reference(0)), map["A" := Present(0)], map["A" := Present(1)];
    TwinsFind(0);
    TwinsFind(1);
    assert reg["A" := Present(1)] == reg';
    assert Locates(net, reg', key, 1, TypeDescription(1, 0));
    forall more: nat ensures !Locates(net, reg', key, more, TypeDescription(0, 0)) {
      if Locates(net, reg', key, more, TypeDescription(0, 0)) {
        MoreFuelForRef(net, reg', 2, 0, more, more + 1);
        MoreFuelForRef(net, reg', 2, 0, 1, more + 1);
      }
    }
  }
}
