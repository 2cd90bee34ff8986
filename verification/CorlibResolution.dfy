/** Resolution of core-library types by name, and the cells of the well-known types. The core libraries are tried
    in a fixed order, each only if its name is registered, so that later registrations matter. */
module CorlibResolution {
  import opened Wrappers
  import opened AssemblyMetadata
  import opened TypeResolution

  const MSCORLIB := "mscorlib"

  /** The core libraries in the order in which they are tried. */
  const CORE: seq<string> := [MSCORLIB, "System.Private.CoreLib", "__dotnetrs_support"]

  const NO_VERSION := Version(0, 0, 0, 0)

  datatype Tried = Tried(found: Option<TypeDescription>, reg: Registry)

  /** What one assembly contributes: its definition, its forwarder if that leads to a type, or a nested type. */
  function TryIn(net: Net, reg: Registry, id: nat, full: string, fuel: nat): Option<Tried> {
    match net.answer(id, full)
    case Known(Ok(t)) => Some(Tried(Some(t), reg))
    case Known(Err(_)) => Some(Tried(None, reg))
    case Unknown =>
      (match net.displayed(id, full)
       case Some(i) => Some(Tried(Some(TypeDescription(id, i)), reg))
       case None => Some(Tried(None, reg)))
    case Forwarded(r, name) =>
      match Find(net, reg, r, name, fuel)
      case None => None
      case Some(Found(Ok(t), reg1)) => Some(Tried(Some(t), reg1))
      case Some(Found(Err(_), reg1)) => Some(Tried(None, reg1))
  }

  /** The search from the i-th core library on. `tried` tells whether mscorlib has been tried; if not, the search
      ends with an ordinary lookup in it. */
  function SearchFrom(net: Net, reg: Registry, full: string, i: nat, tried: bool, fuel: nat): Option<Found>
    decreases |CORE| - i
  {
    if |CORE| <= i then
      if tried then Some(Found(Err(NoType), reg)) else Find(net, reg, AssemblyRef(MSCORLIB, NO_VERSION), full, fuel)
    else if CORE[i] !in reg then SearchFrom(net, reg, full, i + 1, tried, fuel)
    else
      match Fetch(net, reg, CORE[i])
      case Fetched(Failed(failure), reg1) => Some(Found(Err(failure), reg1))
      case Fetched(Loaded(id), reg1) =>
        match TryIn(net, reg1, id, full, fuel)
        case None => None
        case Some(Tried(Some(t), reg2)) => Some(Found(Ok(t), reg2))
        case Some(Tried(None, reg2)) => SearchFrom(net, reg2, full, i + 1, tried || i == 0, fuel)
  }

  /** The core-library type of that name. */
  function Corlib(net: Net, reg: Registry, full: string, fuel: nat): Option<Found> {
    if full in net.stubs then Some(Found(Ok(net.stubs[full]), reg)) else SearchFrom(net, reg, full, 0, false, fuel)
  }

  /** The first spelling of a well-known type that resolves; the failure of the last one if none does. */
  function Spelled(net: Net, reg: Registry, names: seq<string>, fuel: nat): Option<Found>
    decreases |names|
  {
    if names == [] then Some(Found(Err(NoType), reg))
    else
      match Corlib(net, reg, names[0], fuel)
      case None => None
      case Some(Found(Ok(t), reg1)) => Some(Found(Ok(t), reg1))
      case Some(Found(Err(failure), reg1)) =>
        if |names| == 1 then Some(Found(Err(failure), reg1)) else Spelled(net, reg1, names[1..], fuel)
  }

  // ------------------------------------------------------------ what an answer depends on

  /** The names that have to stay loaded and the core libraries that have to stay unregistered. */
  datatype Deps = Deps(loaded: set<string>, absent: set<string>)

  function TryNames(net: Net, reg: Registry, id: nat, full: string, fuel: nat): set<string> {
    match net.answer(id, full)
    case Forwarded(r, name) => Names(net, reg, r, name, fuel)
    case _ => {}
  }

  /** The dependencies of a search that loads nothing. */
  function DepsFrom(net: Net, reg: Registry, full: string, i: nat, tried: bool, fuel: nat): Deps
    decreases |CORE| - i
  {
    if |CORE| <= i then
      Deps(if tried then {} else Names(net, reg, AssemblyRef(MSCORLIB, NO_VERSION), full, fuel), {})
    else if CORE[i] !in reg then
      var rest := DepsFrom(net, reg, full, i + 1, tried, fuel);
      rest.(absent := rest.absent + {CORE[i]})
    else if !IsLoaded(reg, CORE[i]) then Deps({CORE[i]}, {})
    else
      var id := reg[CORE[i]].id;
      var here := {CORE[i]} + TryNames(net, reg, id, full, fuel);
      match TryIn(net, reg, id, full, fuel)
      case Some(Tried(None, _)) =>
        var rest := DepsFrom(net, reg, full, i + 1, tried || i == 0, fuel);
        rest.(loaded := rest.loaded + here)
      case _ => Deps(here, {})
  }

  predicate AllLoaded(reg: Registry, names: set<string>) {
    forall n :: n in names ==> IsLoaded(reg, n)
  }

  /** The new registry has the same assemblies where the search looked and still lacks what it found absent. */
  predicate Respects(reg: Registry, reg': Registry, deps: Deps) {
    Agree(reg, reg', deps.loaded) && forall n :: n in deps.absent ==> n !in reg'
  }

  lemma {:induction false} TryDependsOnNames(net: Net, reg: Registry, reg': Registry, id: nat, full: string, fuel: nat)
    requires TryIn(net, reg, id, full, fuel).Some? && Agree(reg, reg', TryNames(net, reg, id, full, fuel))
    ensures TryIn(net, reg, id, full, fuel).value.reg == reg
    ensures TryIn(net, reg', id, full, fuel) == Some(TryIn(net, reg, id, full, fuel).value.(reg := reg'))
    ensures TryNames(net, reg', id, full, fuel) == TryNames(net, reg, id, full, fuel)
  {
    var answer := net.answer(id, full);
    if answer.Forwarded? { FindDependsOnNames(net, reg, reg', answer.reference, answer.name, fuel); }
  }

  /** A search through loaded assemblies changes nothing, and any registry that respects its dependencies gives
      the same answer. */
  lemma {:induction false} SearchDependsOnDeps(net: Net, reg: Registry, reg': Registry, full: string, i: nat,
                                               tried: bool, fuel: nat)
    requires SearchFrom(net, reg, full, i, tried, fuel).Some?
             && Respects(reg, reg', DepsFrom(net, reg, full, i, tried, fuel))
    ensures SearchFrom(net, reg, full, i, tried, fuel).value.reg == reg
    ensures SearchFrom(net, reg', full, i, tried, fuel)
            == Some(Found(SearchFrom(net, reg, full, i, tried, fuel).value.result, reg'))
    decreases |CORE| - i
  {
    var deps := DepsFrom(net, reg, full, i, tried, fuel);
    if |CORE| <= i {
      if !tried { FindDependsOnNames(net, reg, reg', AssemblyRef(MSCORLIB, NO_VERSION), full, fuel); }
    } else if CORE[i] !in reg {
      assert CORE[i] in deps.absent;
      SearchDependsOnDeps(net, reg, reg', full, i + 1, tried, fuel);
    } else {
      assert CORE[i] in deps.loaded && IsLoaded(reg, CORE[i]) && reg'[CORE[i]] == reg[CORE[i]];
      SearchDependsOnPlace(net, reg, reg', full, i, tried, fuel);
    }
  }

  lemma {:induction false} SearchDependsOnPlace(net: Net, reg: Registry, reg': Registry, full: string, i: nat,
                                                tried: bool, fuel: nat)
    requires i < |CORE| && IsLoaded(reg, CORE[i]) && CORE[i] in reg' && reg'[CORE[i]] == reg[CORE[i]]
    requires SearchFrom(net, reg, full, i, tried, fuel).Some?
             && Respects(reg, reg', DepsFrom(net, reg, full, i, tried, fuel))
    ensures SearchFrom(net, reg, full, i, tried, fuel).value.reg == reg
    ensures SearchFrom(net, reg', full, i, tried, fuel)
            == Some(Found(SearchFrom(net, reg, full, i, tried, fuel).value.result, reg'))
    decreases |CORE| - i, 0
  {
    var id := reg[CORE[i]].id;
    assert TryNames(net, reg, id, full, fuel) <= DepsFrom(net, reg, full, i, tried, fuel).loaded;
    TryDependsOnNames(net, reg, reg', id, full, fuel);
    if TryIn(net, reg, id, full, fuel).value.found.None? {
      SearchDependsOnDeps(net, reg, reg', full, i + 1, tried || i == 0, fuel);
    }
  }

  /** A well-known type stays the uncached answer as long as its dependencies are respected. */
  lemma CorlibAnswerIsKept(net: Net, reg: Registry, reg': Registry, full: string, fuel: nat)
    requires full in net.stubs || (SearchFrom(net, reg, full, 0, false, fuel).Some?
                                   && Respects(reg, reg', DepsFrom(net, reg, full, 0, false, fuel)))
    ensures Corlib(net, reg, full, fuel).Some?
    ensures Corlib(net, reg', full, fuel) == Some(Found(Corlib(net, reg, full, fuel).value.result, reg'))
  {
    if full !in net.stubs { SearchDependsOnDeps(net, reg, reg', full, 0, false, fuel); }
  }

  lemma CoreNamesDiffer(i: nat, j: nat)
    requires i < j < |CORE|
    ensures CORE[i] != CORE[j]
  {
    assert CORE[0][0] == 'm' && CORE[1][0] == 'S' && CORE[2][0] == '_';
  }

  // ------------------------------------------------------------ cells over runs

  /** The registry and the cells of the well-known types. */
  datatype CellState = CellState(reg: Registry, cells: map<nat, TypeDescription>)

  /** A set cell answers; an open one is resolved, and set if that succeeds. */
  function AfterCell(net: Net, s: CellState, c: nat, fuel: nat): CellState
    requires c in s.cells || Spelled(net, s.reg, net.spellings(c), fuel).Some?
  {
    if c in s.cells then s
    else
      match Spelled(net, s.reg, net.spellings(c), fuel)
      case Some(Found(Ok(t), reg1)) => CellState(reg1, s.cells[c := t])
      case Some(Found(Err(_), reg1)) => s.(reg := reg1)
  }

  predicate ReadsCell(net: Net, s: CellState, c: nat, fuel: nat, s': CellState) {
    (c in s.cells || Spelled(net, s.reg, net.spellings(c), fuel).Some?) && s' == AfterCell(net, s, c, fuel)
  }

  /** Reading a cell, or anything else that may happen to the registry. */
  ghost predicate CellStep(net: Net, s: CellState, s': CellState) {
    s'.cells == s.cells || exists c, fuel :: ReadsCell(net, s, c, fuel, s')
  }

  /** The step from `s` to `s'` set the cell to the uncached answer of that moment. */
  ghost predicate SetBy(net: Net, s: CellState, s': CellState, c: nat, t: TypeDescription) {
    && c !in s.cells && c in s'.cells && s'.cells[c] == t
    && exists fuel :: Spelled(net, s.reg, net.spellings(c), fuel) == Some(Found(Ok(t), s'.reg))
  }

  lemma CellStepSetsOnce(net: Net, s: CellState, s': CellState, c: nat)
    requires CellStep(net, s, s')
    ensures c in s.cells ==> c in s'.cells && s'.cells[c] == s.cells[c]
    ensures c !in s.cells && c in s'.cells ==> SetBy(net, s, s', c, s'.cells[c])
  {
    if s'.cells != s.cells {
      var c', fuel :| ReadsCell(net, s, c', fuel, s');
    }
  }

  /** In every run, whatever is registered meanwhile, a set cell was set by one step to the uncached answer of that
      moment, and has never changed since. */
  lemma {:induction false} CellKeepsFirstSuccess(net: Net, run: seq<CellState>, c: nat, j: nat) returns (i: nat)
    requires j < |run| && run[0].cells == map[] && c in run[j].cells
    requires forall k :: 0 <= k < |run| - 1 ==> CellStep(net, run[k], run[k + 1])
    ensures i < j && SetBy(net, run[i], run[i + 1], c, run[j].cells[c])
    ensures forall k :: 0 <= k <= i ==> c !in run[k].cells
    ensures forall k :: i < k <= j ==> c in run[k].cells && run[k].cells[c] == run[j].cells[c]
    decreases j
  {
    assert CellStep(net, run[j - 1], run[j - 1 + 1]);
    CellStepSetsOnce(net, run[j - 1], run[j], c);
    if c in run[j - 1].cells {
      i := CellKeepsFirstSuccess(net, run, c, j - 1);
    } else {
      i := j - 1;
      NotYetSet(net, run, c, j - 1);
    }
  }

  lemma {:induction false} NotYetSet(net: Net, run: seq<CellState>, c: nat, j: nat)
    requires j < |run| && c !in run[j].cells
    requires forall k :: 0 <= k < |run| - 1 ==> CellStep(net, run[k], run[k + 1])
    ensures forall k :: 0 <= k <= j ==> c !in run[k].cells
    decreases j
  {
    if j > 0 {
      assert CellStep(net, run[j - 1], run[j - 1 + 1]);
      CellStepSetsOnce(net, run[j - 1], run[j], c);
      NotYetSet(net, run, c, j - 1);
    }
  }

  // ------------------------------------------------------------ an outdated cell

  /** Assemblies 0 and 1 both define the type `T`. */
  function TwoCores(): World {
    World(id => Assembly("core", NO_VERSION, [TypeDef("", "T", None, "T")], [], [], []), map[], map[], map[], false,
        _ => ["T"])
  }

  /** The cell was set from System.Private.CoreLib; then mscorlib is registered, and the uncached answer changes. */
  lemma OutdatedCell()
    ensures var net := NetOf(TwoCores());
            var s := CellState(map[CORE[1] := Present(1)], map[]);
            var s' := AfterCell(net, s, 0, 1);
            var s'' := s'.(reg := s'.reg[MSCORLIB := Present(0)]);
            && s'.cells == map[0 := TypeDescription(1, 0)] && AfterCell(net, s'', 0, 1) == s''
            && Spelled(net, s''.reg, net.spellings(0), 1) == Some(Found(Ok(TypeDescription(0, 0)), s''.reg))
  {
    var w, net := TwoCores(), NetOf(TwoCores());
    assert Split("T") == ("", "T");
    assert AnswerOf(w, 0, "T") == Known(Ok(TypeDescription(0, 0)))
           && AnswerOf(w, 1, "T") == Known(Ok(TypeDescription(1, 0)));
    CoreNamesDiffer(0, 1);
    assert CORE[0] == MSCORLIB;
    var reg := map[CORE[1] := Present(1)];
    assert SearchFrom(net, reg, "T", 1, false, 1) == Some(Found(Ok(TypeDescription(1, 0)), reg));
    assert Spelled(net, reg, ["T"], 1) == Some(Found(Ok(TypeDescription(1, 0)), reg));
  }
}
