/** Type resolution without caches. A lookup reads and extends the registry of assemblies: names that are not
    loaded are loaded on demand. `fuel` bounds the number of forwarders and owners followed; a lookup that comes
    back to its start has no result for any fuel, where the loader would recurse without end. */
module TypeResolution {
  import opened Wrappers
  import opened AssemblyMetadata

  /** A registered name: a file that is not loaded yet, with the probing path registered for it, or an assembly. */
  datatype Entry = Pending(probe: Option<File>) | Present(id: nat)

  type Registry = map<string, Entry>

  predicate IsLoaded(reg: Registry, n: string) {
    n in reg && reg[n].Present?
  }

  datatype AssemblyResult = Loaded(id: nat) | Failed(failure: Failure)

  datatype Fetched = Fetched(result: AssemblyResult, reg: Registry)

  /** The file that a name which is not loaded stands for: its probing path, or its file in the root directory. */
  function FileOf(net: Net, reg: Registry, n: string): Option<File> {
    if n in reg && reg[n].Pending? && reg[n].probe.Some? then reg[n].probe
    else if n in net.root then Some(net.root[n]) else None
  }

  /** Loading registers the assembly under the name it declares and under the name it was asked for. */
  function Load(net: Net, reg: Registry, n: string): Fetched {
    match FileOf(net, reg, n)
    case None => Fetched(Failed(NoFile), reg)
    case Some(Unreadable) => Fetched(Failed(BadFile), reg)
    case Some(WithoutManifest) => Fetched(Failed(NoManifest), reg)
    case Some(Holds(id)) => Fetched(Loaded(id), reg[net.manifest(id) := Present(id)][n := Present(id)])
  }

  /** The assembly that a name stands for. */
  function Fetch(net: Net, reg: Registry, n: string): (f: Fetched)
    ensures f.result.Loaded? ==> IsLoaded(f.reg, n) && f.reg[n].id == f.result.id
    ensures IsLoaded(reg, n) ==> f == Fetched(Loaded(reg[n].id), reg)
  {
    if IsLoaded(reg, n) then Fetched(Loaded(reg[n].id), reg) else Load(net, reg, n)
  }

  /** The assembly that a reference denotes; under strict versioning it must bind. */
  function Get(net: Net, reg: Registry, r: AssemblyRef): Fetched {
    var f := Fetch(net, reg, r.name);
    if f.result.Loaded? && !net.binds(f.result.id, r) then Fetched(Failed(VersionMismatch), f.reg) else f
  }

  /** One step of a lookup: it ends, or goes on at another reference. */
  datatype Step = Done(result: Result, reg: Registry) | Next(reference: AssemblyRef, name: string, reg: Registry)

  function Visit(net: Net, reg: Registry, r: AssemblyRef, full: string): Step {
    if full in net.stubs then Done(Ok(net.stubs[full]), reg)
    else
      match Get(net, reg, r)
      case Fetched(Failed(failure), reg1) => Done(Err(failure), reg1)
      case Fetched(Loaded(id), reg1) =>
        match net.answer(id, full)
        case Known(result) => Done(result, reg1)
        case Forwarded(r1, full1) => Next(r1, full1, reg1)
        case Unknown => Done(Err(NoType), reg1)
  }

  datatype Found = Found(result: Result, reg: Registry)

  /** The lookup of a name through a reference. */
  function Find(net: Net, reg: Registry, r: AssemblyRef, full: string, fuel: nat): Option<Found>
    decreases fuel
  {
    if fuel == 0 then None
    else
      match Visit(net, reg, r, full)
      case Done(result, reg1) => Some(Found(result, reg1))
      case Next(r1, full1, reg1) => Find(net, reg1, r1, full1, fuel - 1)
  }

  /** The assembly names that the lookup passes through. */
  function Names(net: Net, reg: Registry, r: AssemblyRef, full: string, fuel: nat): set<string>
    decreases fuel
  {
    if fuel == 0 || full in net.stubs then {}
    else
      {r.name} + match Visit(net, reg, r, full)
                 case Done(_, _) => {}
                 case Next(r1, full1, reg1) => Names(net, reg1, r1, full1, fuel - 1)
  }

  /** The lookup of type reference `k` of assembly `id`. A nested type is looked for in its resolved owner. */
  function LocateRef(net: Net, reg: Registry, id: nat, k: nat, fuel: nat): Option<Found>
    decreases fuel
  {
    if fuel == 0 then None
    else
      match net.scope(id, k)
      case Unresolved(failure) => Some(Found(Err(failure), reg))
      case Outer(r, full) => Find(net, reg, r, full, fuel)
      case Inner(owner, full) =>
        match LocateRef(net, reg, id, owner, fuel - 1)
        case None => None
        case Some(Found(Err(failure), reg1)) => Some(Found(Err(failure), reg1))
        case Some(Found(Ok(found), reg1)) => Some(Found(InOwner(net, found, full), reg1))
  }

  function InOwner(net: Net, owner: TypeDescription, full: string): Result {
    match net.nested(owner, full)
    case Some(i) => Ok(TypeDescription(owner.assembly, i))
    case None => Err(NoType)
  }

  type Key = (nat, Handle)

  /** The uncached lookup. A definition handle is already resolved. */
  function Locate(net: Net, reg: Registry, key: Key, fuel: nat): Option<Found> {
    match key.1
    case Definition(d) => Some(Found(Ok(TypeDescription(key.0, d)), reg))
    case Reference(k) => LocateRef(net, reg, key.0, k, fuel)
  }

  /** Where the lookup of a type reference starts: the scope of its outermost owner. */
  datatype Start = Start(reference: AssemblyRef, name: string, fuel: nat)

  function Root(net: Net, id: nat, k: nat, fuel: nat): Option<Start>
    decreases fuel
  {
    if fuel == 0 then None
    else
      match net.scope(id, k)
      case Unresolved(_) => None
      case Outer(r, full) => Some(Start(r, full, fuel))
      case Inner(owner, _) => Root(net, id, owner, fuel - 1)
  }

  /** From the outermost owner down to the type itself. */
  function Down(net: Net, id: nat, k: nat, outermost: TypeDescription, fuel: nat): Result
    requires Root(net, id, k, fuel).Some?
    decreases fuel
  {
    match net.scope(id, k)
    case Inner(owner, full) =>
      (match Down(net, id, owner, outermost, fuel - 1)
       case Err(failure) => Err(failure)
       case Ok(found) => InOwner(net, found, full))
    case _ => Ok(outermost)
  }

  /** The lookup of a reference is the lookup of its outermost owner, and then the way down. */
  lemma {:induction false} RefFollowsRoot(net: Net, reg: Registry, id: nat, k: nat, fuel: nat)
    ensures Root(net, id, k, fuel).None? ==>
        LocateRef(net, reg, id, k, fuel).None? || LocateRef(net, reg, id, k, fuel).value.result.Err?
    ensures Root(net, id, k, fuel).Some? ==>
              var start := Root(net, id, k, fuel).value;
              var found := Find(net, reg, start.reference, start.name, start.fuel);
              && (found.None? ==> LocateRef(net, reg, id, k, fuel).None?)
              && (found.Some? && found.value.result.Err? ==> LocateRef(net, reg, id, k, fuel) == found)
              && (found.Some? && found.value.result.Ok? ==>
                    LocateRef(net, reg, id, k, fuel)
                    == Some(Found(Down(net, id, k, found.value.result.found, fuel), found.value.reg)))
    decreases fuel
  {
    if fuel > 0 && net.scope(id, k).Inner? { RefFollowsRoot(net, reg, id, net.scope(id, k).owner, fuel - 1); }
  }

  /** Different owners never lead down to the same type. */
  lemma {:induction false} DownIsInjective(net: Net, id: nat, k: nat, o: TypeDescription, o': TypeDescription,
                                           fuel: nat)
    requires Root(net, id, k, fuel).Some?
    requires Regular(net) && Down(net, id, k, o, fuel).Ok? && Down(net, id, k, o', fuel) == Down(net, id, k, o, fuel)
    ensures o == o'
    decreases fuel
  {
    if net.scope(id, k).Inner? {
      var owner, full := net.scope(id, k).owner, net.scope(id, k).name;
      var above, above' := Down(net, id, owner, o, fuel - 1).found, Down(net, id, owner, o', fuel - 1).found;
      assert OneOwner(net, above, above', full);
      DownIsInjective(net, id, owner, o, o', fuel - 1);
    }
  }

  lemma {:induction false} RootWithMoreFuel(net: Net, id: nat, k: nat, o: TypeDescription, fuel: nat, extra: nat)
    requires Root(net, id, k, fuel).Some?
    ensures Root(net, id, k, fuel + extra)
            == Some(Root(net, id, k, fuel).value.(fuel := Root(net, id, k, fuel).value.fuel + extra))
    ensures Down(net, id, k, o, fuel + extra) == Down(net, id, k, o, fuel)
    decreases fuel
  {
    if net.scope(id, k).Inner? { RootWithMoreFuel(net, id, net.scope(id, k).owner, o, fuel - 1, extra); }
  }

  // ------------------------------------------------------------ fuel

  /** More fuel gives the same result. */
  lemma {:induction false} MoreFuel(net: Net, reg: Registry, r: AssemblyRef, full: string, fuel: nat, more: nat)
    requires Find(net, reg, r, full, fuel).Some? && fuel <= more
    ensures Find(net, reg, r, full, more) == Find(net, reg, r, full, fuel)
    ensures Names(net, reg, r, full, more) == Names(net, reg, r, full, fuel)
    decreases fuel
  {
    var step := Visit(net, reg, r, full);
    if step.Next? { MoreFuel(net, step.reg, step.reference, step.name, fuel - 1, more - 1); }
  }

  lemma {:induction false} MoreFuelForRef(net: Net, reg: Registry, id: nat, k: nat, fuel: nat, more: nat)
    requires LocateRef(net, reg, id, k, fuel).Some? && fuel <= more
    ensures LocateRef(net, reg, id, k, more) == LocateRef(net, reg, id, k, fuel)
    decreases fuel
  {
    match net.scope(id, k)
    case Unresolved(_) =>
    case Outer(r, full) => MoreFuel(net, reg, r, full, fuel, more);
    case Inner(owner, _) => MoreFuelForRef(net, reg, id, owner, fuel - 1, more - 1);
  }

  /** The type is a stub for the name, or a definition of the name in a loaded assembly. */
  ghost predicate Defines(w: World, reg: Registry, full: string, t: TypeDescription) {
    || (exists name :: name in w.stubs && t == w.stubs[name] && Split(name) == Split(full))
    || (exists n :: IsLoaded(reg, n) && reg[n].id == t.assembly && t.index < |w.metadata(t.assembly).types|
                    && (w.metadata(t.assembly).types[t.index].namespace, w.metadata(t.assembly).types[t.index].name)
                       == Split(full))
  }

  lemma VisitEndsAtDefinition(w: World, reg: Registry, r: AssemblyRef, full: string)
    requires var step := Visit(NetOf(w), reg, r, full); step.Done? && step.result.Ok?
    ensures Defines(w, Visit(NetOf(w), reg, r, full).reg, full, Visit(NetOf(w), reg, r, full).result.found)
  {
    assert full !in w.stubs ==> IsLoaded(Visit(NetOf(w), reg, r, full).reg, r.name);
  }

  /** Resolution ends at a definition: what is found is a stub, or a type definition of that very name in an
      assembly that is loaded under some name. */
  lemma {:induction false} FindEndsAtDefinition(w: World, reg: Registry, r: AssemblyRef, full: string, fuel: nat)
    requires Find(NetOf(w), reg, r, full, fuel).Some? && Find(NetOf(w), reg, r, full, fuel).value.result.Ok?
    ensures var Found(result, reg1) := Find(NetOf(w), reg, r, full, fuel).value; Defines(w, reg1, full, result.found)
    decreases fuel
  {
    var step := Visit(NetOf(w), reg, r, full);
    if step.Next? {
      RejoinedIsAnsweredAlike(w, Get(NetOf(w), reg, r).result.id, full);
      RejoinedSplitsAlike(full);
      FindEndsAtDefinition(w, step.reg, step.reference, step.name, fuel - 1);
    } else {
      VisitEndsAtDefinition(w, reg, r, full);
    }
  }

  // ------------------------------------------------------------ what a lookup depends on

  /** Both registries give the names the same loaded assemblies. */
  predicate Agree(reg: Registry, reg': Registry, names: set<string>) {
    forall n :: n in names ==> IsLoaded(reg, n) && n in reg' && reg'[n] == reg[n]
  }

  /** The step with another registry. */
  function In(step: Step, reg: Registry): Step {
    match step
    case Done(result, _) => Done(result, reg)
    case Next(r, full, _) => Next(r, full, reg)
  }

  lemma VisitDependsOnName(net: Net, reg: Registry, reg': Registry, r: AssemblyRef, full: string)
    requires full in net.stubs || (IsLoaded(reg, r.name) && r.name in reg' && reg'[r.name] == reg[r.name])
    ensures Visit(net, reg, r, full).reg == reg && Visit(net, reg', r, full) == In(Visit(net, reg, r, full), reg')
  {
  }

  /** A lookup through loaded assemblies changes nothing, and depends only on the names it passes through. */
  lemma {:induction false} FindDependsOnNames(net: Net, reg: Registry, reg': Registry, r: AssemblyRef, full: string,
                                              fuel: nat)
    requires Find(net, reg, r, full, fuel).Some? && Agree(reg, reg', Names(net, reg, r, full, fuel))
    ensures Find(net, reg, r, full, fuel).value.reg == reg
    ensures Find(net, reg', r, full, fuel) == Some(Found(Find(net, reg, r, full, fuel).value.result, reg'))
    ensures Names(net, reg', r, full, fuel) == Names(net, reg, r, full, fuel)
    decreases fuel
  {
    var step := Visit(net, reg, r, full);
    assert full in net.stubs || r.name in Names(net, reg, r, full, fuel);
    VisitDependsOnName(net, reg, reg', r, full);
    if step.Next? { FindDependsOnNames(net, reg, reg', step.reference, step.name, fuel - 1); }
  }

  /** Loaded names keep their assemblies. */
  predicate Keeps(reg: Registry, reg': Registry) {
    forall n :: n in reg && reg[n].Present? ==> n in reg' && reg'[n] == reg[n]
  }

  /** No step of the lookup gives a loaded name another assembly. */
  predicate Kept(net: Net, reg: Registry, r: AssemblyRef, full: string, fuel: nat)
    decreases fuel
  {
    fuel > 0 ==>
      match Visit(net, reg, r, full)
      case Done(_, reg1) => Keeps(reg, reg1)
      case Next(r1, full1, reg1) => Keeps(reg, reg1) && Kept(net, reg1, r1, full1, fuel - 1)
  }

  /** A lookup that kept every loaded name gives the same result again, through loaded assemblies only. */
  lemma {:induction false} LookupSettles(net: Net, reg: Registry, r: AssemblyRef, full: string, fuel: nat)
    requires Find(net, reg, r, full, fuel).Some? && Find(net, reg, r, full, fuel).value.result.Ok?
             && Kept(net, reg, r, full, fuel)
    ensures var Found(result, reg1) := Find(net, reg, r, full, fuel).value;
            && Keeps(reg, reg1) && Find(net, reg1, r, full, fuel) == Some(Found(result, reg1))
            && forall n :: n in Names(net, reg1, r, full, fuel) ==> IsLoaded(reg1, n)
    decreases fuel
  {
    var step, reg1 := Visit(net, reg, r, full), Find(net, reg, r, full, fuel).value.reg;
    VisitLoads(net, reg, r, full);
    if step.Next? {
      LookupSettles(net, step.reg, step.reference, step.name, fuel - 1);
      VisitDependsOnName(net, step.reg, reg1, r, full);
    } else {
      VisitDependsOnName(net, step.reg, reg1, r, full);
    }
  }

  /** A visit that does not fail has loaded the name it visits, and a second visit finds the same. */
  lemma VisitLoads(net: Net, reg: Registry, r: AssemblyRef, full: string)
    requires var step := Visit(net, reg, r, full); step.Next? || step.result.Ok?
    ensures full in net.stubs || IsLoaded(Visit(net, reg, r, full).reg, r.name)
    ensures Visit(net, Visit(net, reg, r, full).reg, r, full) == Visit(net, reg, r, full)
  {
  }

  /** Every file that may still be loaded declares the name it is found under. */
  ghost predicate Tidy(net: Net, reg: Registry) {
    forall n {:trigger FileOf(net, reg, n)} ::
      !IsLoaded(reg, n) && FileOf(net, reg, n).Some? && FileOf(net, reg, n).value.Holds? ==>
          net.manifest(FileOf(net, reg, n).value.id) == n
  }

  /** Where files declare the names they are found under, no lookup gives a loaded name another assembly. */
  lemma {:induction false} TidyLookupsKeep(net: Net, reg: Registry, r: AssemblyRef, full: string, fuel: nat)
    requires Tidy(net, reg)
    ensures Kept(net, reg, r, full, fuel)
    decreases fuel
  {
    if fuel > 0 && full !in net.stubs {
      var f := Fetch(net, reg, r.name);
      FetchIsTidy(net, reg, r.name);
      var step := Visit(net, reg, r, full);
      if step.Next? { TidyLookupsKeep(net, f.reg, step.reference, step.name, fuel - 1); }
    }
  }

  lemma FetchIsTidy(net: Net, reg: Registry, n: string)
    requires Tidy(net, reg)
    ensures Keeps(reg, Fetch(net, reg, n).reg) && Tidy(net, Fetch(net, reg, n).reg)
  {
    var reg1 := Fetch(net, reg, n).reg;
    if !IsLoaded(reg, n) && FileOf(net, reg, n).Some? && FileOf(net, reg, n).value.Holds? {
      assert reg1 == reg[n := Present(FileOf(net, reg, n).value.id)];
      forall m | !IsLoaded(reg1, m) ensures FileOf(net, reg, m) == FileOf(net, reg1, m) && !IsLoaded(reg, m) {
      }
    }
  }
}
