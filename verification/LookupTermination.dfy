/** When lookups terminate. A lookup follows forwarders from reference to reference, and loads assemblies on the way;
    it comes to an end unless it comes back to a reference that it has already visited. */
module LookupTermination {
  import opened Wrappers
  import opened AssemblyMetadata
  import opened TypeResolution

  /** The assembly that would be loaded for a name. */
  function Loadable(net: Net, reg: Registry, n: string): Option<nat> {
    match FileOf(net, reg, n)
    case Some(Holds(id)) => if IsLoaded(reg, n) then None else Some(id)
    case _ => None
  }

  /** Names and the assemblies they may come to stand for: what is loaded, and what any file would register. */
  function Possible(net: Net, reg: Registry): set<(string, nat)> {
    (set n | n in reg && reg[n].Present? :: (n, reg[n].id))
    + (set n | n in reg.Keys + net.root.Keys && Loadable(net, reg, n).Some? :: (n, Loadable(net, reg, n).value))
    + (set n | n in reg.Keys + net.root.Keys && Loadable(net, reg, n).Some? ::
         (net.manifest(Loadable(net, reg, n).value), Loadable(net, reg, n).value))
  }

  ghost predicate Covered(net: Net, reg: Registry, pairs: set<(string, nat)>) {
    && (forall n {:trigger IsLoaded(reg, n)} :: IsLoaded(reg, n) ==> (n, reg[n].id) in pairs)
    && (forall n {:trigger Loadable(net, reg, n)} :: Loadable(net, reg, n).Some? ==>
          && (n, Loadable(net, reg, n).value) in pairs
          && (net.manifest(Loadable(net, reg, n).value), Loadable(net, reg, n).value) in pairs)
  }

  lemma PossibleCovers(net: Net, reg: Registry)
    ensures Covered(net, reg, Possible(net, reg))
  {
    forall n | Loadable(net, reg, n).Some? ensures n in reg.Keys + net.root.Keys {
    }
  }

  lemma FetchKeepsCovered(net: Net, reg: Registry, pairs: set<(string, nat)>, n: string)
    requires Covered(net, reg, pairs)
    ensures Covered(net, Fetch(net, reg, n).reg, pairs)
    ensures Fetch(net, reg, n).result.Loaded? ==> (n, Fetch(net, reg, n).result.id) in pairs
  {
    var f := Fetch(net, reg, n);
    assert IsLoaded(reg, n) || Loadable(net, reg, n).Some? || f.reg == reg;
    forall m ensures Loadable(net, f.reg, m).Some? ==> Loadable(net, reg, m) == Loadable(net, f.reg, m) {
    }
    forall m | IsLoaded(f.reg, m) ensures (m, f.reg[m].id) in pairs {
      assert IsLoaded(reg, m) || Loadable(net, reg, n).Some?;
    }
  }

  // ------------------------------------------------------------ chains of forwarders

  /** Neither the name nor its forwarded form is a stub, which would end the lookup. */
  predicate Unstubbed(net: Net, full: string) {
    full !in net.stubs && Rejoined(full) !in net.stubs
  }

  predicate HopsBy(net: Net, pairs: set<(string, nat)>, full: string, r: AssemblyRef, id: nat, r': AssemblyRef) {
    && Unstubbed(net, full) && (r.name, id) in pairs && net.binds(id, r)
    && net.answer(id, full).Forwarded? && net.answer(id, full).reference == r'
  }

  /** An assembly that the reference may come to denote forwards the name to `r'`. */
  ghost predicate Hops(net: Net, pairs: set<(string, nat)>, full: string, r: AssemblyRef, r': AssemblyRef) {
    exists id :: HopsBy(net, pairs, full, r, id, r')
  }

  ghost predicate Chain(net: Net, pairs: set<(string, nat)>, full: string, path: seq<AssemblyRef>) {
    |path| > 0 && forall i :: 0 <= i < |path| - 1 ==> Hops(net, pairs, full, path[i], path[i + 1])
  }

  predicate Distinct<T(==)>(s: seq<T>) {
    forall i, j :: 0 <= i < j < |s| ==> s[i] != s[j]
  }

  /** No chain of forwarders from the reference visits a reference twice. */
  ghost predicate NeverReturns(net: Net, pairs: set<(string, nat)>, full: string, r: AssemblyRef) {
    forall path :: Chain(net, pairs, full, path) && path[0] == r ==> Distinct(path)
  }

  /** The references that the name is forwarded to. */
  function Targets(net: Net, pairs: set<(string, nat)>, full: string): set<AssemblyRef> {
    set p | p in pairs && net.answer(p.1, full).Forwarded? :: net.answer(p.1, full).reference
  }

  lemma {:induction false} DistinctIsBounded<T>(s: seq<T>, all: set<T>)
    requires Distinct(s) && forall i :: 0 <= i < |s| ==> s[i] in all
    ensures |s| <= |all|
    decreases |s|
  {
    if s != [] {
      var front, last := s[..|s| - 1], s[|s| - 1];
      forall i | 0 <= i < |front| ensures front[i] in all - {last} {
        assert s[i] != s[|s| - 1];
      }
      DistinctIsBounded(front, all - {last});
    }
  }

  /** The references visited so far, and that the lookup goes on at the last one. */
  ghost predicate Visited(net: Net, pairs: set<(string, nat)>, full: string, path: seq<AssemblyRef>) {
    && Chain(net, pairs, full, path) && NeverReturns(net, pairs, full, path[0])
    && forall i :: 0 < i < |path| ==> path[i] in Targets(net, pairs, full)
  }

  lemma VisitedIsBounded(net: Net, pairs: set<(string, nat)>, full: string, path: seq<AssemblyRef>)
    requires Visited(net, pairs, full, path)
    ensures |path| <= |Targets(net, pairs, full)| + 1
  {
    assert Distinct(path);
    DistinctIsBounded(path[1..], Targets(net, pairs, full));
  }

  lemma VisitedNext(net: Net, pairs: set<(string, nat)>, full: string, path: seq<AssemblyRef>, id: nat, r': AssemblyRef)
    requires Visited(net, pairs, full, path) && HopsBy(net, pairs, full, path[|path| - 1], id, r')
    ensures Visited(net, pairs, full, path + [r'])
  {
    var path' := path + [r'];
    assert Hops(net, pairs, full, path[|path| - 1], r');
    forall i | 0 <= i < |path'| - 1 ensures Hops(net, pairs, full, path'[i], path'[i + 1]) {
      if i < |path| - 1 { assert Hops(net, pairs, full, path[i], path[i + 1]); }
    }
    assert (path[|path| - 1].name, id) in pairs;
  }

  lemma {:induction false} LookupEnds(net: Net, reg: Registry, pairs: set<(string, nat)>, full: string, asked: string,
                                      path: seq<AssemblyRef>, fuel: nat)
    requires Regular(net) && Unstubbed(net, full) && Covered(net, reg, pairs) && Visited(net, pairs, full, path)
    requires (asked == full || asked == Rejoined(full)) && |path| + fuel == |Targets(net, pairs, full)| + 2
    ensures Find(net, reg, path[|path| - 1], asked, fuel).Some?
    ensures Covered(net, Find(net, reg, path[|path| - 1], asked, fuel).value.reg, pairs)
    decreases fuel
  {
    VisitedIsBounded(net, pairs, full, path);
    var r := path[|path| - 1];
    FetchKeepsCovered(net, reg, pairs, r.name);
    var step := Visit(net, reg, r, asked);
    if step.Next? {
      var id := Get(net, reg, r).result.id;
      assert AnswersAlike(net, id, full);
      RejoinedSplitsAlike(full);
      VisitedNext(net, pairs, full, path, id, step.reference);
      LookupEnds(net, step.reg, pairs, full, step.name, path + [step.reference], fuel - 1);
    }
  }

  /** If no chain of forwarders from the reference visits a reference twice, the lookup terminates, whatever is loaded
      on the way and in whatever order. */
  lemma AcyclicLookupsTerminate(net: Net, reg: Registry, r: AssemblyRef, full: string)
    requires Regular(net) && NeverReturns(net, Possible(net, reg), full, r)
    ensures Find(net, reg, r, full, |Targets(net, Possible(net, reg), full)| + 1).Some?
  {
    var pairs, fuel := Possible(net, reg), |Targets(net, Possible(net, reg), full)| + 1;
    PossibleCovers(net, reg);
    if Unstubbed(net, full) {
      LookupEnds(net, reg, pairs, full, full, [r], fuel);
    } else {
      var step := Visit(net, reg, r, full);
      if step.Next? {
        var id := Get(net, reg, r).result.id;
        FetchKeepsCovered(net, reg, pairs, r.name);
        assert AnswersAlike(net, id, full) && (r.name, id) in pairs;
        assert step.reference in Targets(net, pairs, full);
        assert Visit(net, step.reg, step.reference, step.name).Done?;
      }
    }
  }

  // ------------------------------------------------------------ the converse

  ghost predicate NothingToLoad(net: Net, reg: Registry) {
    forall n :: Loadable(net, reg, n).None?
  }

  ghost predicate Terminates(net: Net, reg: Registry, r: AssemblyRef, full: string) {
    exists fuel :: Find(net, reg, r, full, fuel).Some?
  }

  /** A lookup at the first reference goes on at the second. */
  ghost predicate StepsTo(net: Net, reg: Registry, full: string, r: AssemblyRef, r': AssemblyRef) {
    forall asked, fuel: nat {:trigger Find(net, reg, r, asked, fuel)} ::
      (asked == full || asked == Rejoined(full)) && fuel > 0 ==>
        Find(net, reg, r, asked, fuel) == Find(net, reg, r', Rejoined(full), fuel - 1)
  }

  lemma HopIsStep(net: Net, reg: Registry, full: string, r: AssemblyRef, r': AssemblyRef)
    requires Regular(net) && NothingToLoad(net, reg) && Hops(net, Possible(net, reg), full, r, r')
    ensures StepsTo(net, reg, full, r, r')
  {
    var id :| HopsBy(net, Possible(net, reg), full, r, id, r');
    assert forall n :: n in reg.Keys + net.root.Keys ==> Loadable(net, reg, n).None?;
    assert IsLoaded(reg, r.name) && reg[r.name].id == id;
    assert AnswersAlike(net, id, full);
    forall asked, fuel: nat | (asked == full || asked == Rejoined(full)) && fuel > 0
      ensures Find(net, reg, r, asked, fuel) == Find(net, reg, r', Rejoined(full), fuel - 1)
    {
      assert Visit(net, reg, r, asked) == Next(r', Rejoined(full), reg);
    }
  }

  /** A lookup on a chain that comes back to one of its references never ends. */
  lemma {:induction false} ReturningLookupNeverEnds(net: Net, reg: Registry, full: string, asked: string,
                                                    path: seq<AssemblyRef>, i: nat, j: nat, k: nat, fuel: nat)
    requires forall m :: 0 <= m < |path| - 1 ==> StepsTo(net, reg, full, path[m], path[m + 1])
    requires i < j < |path| && path[i] == path[j] && k <= j && (asked == full || asked == Rejoined(full))
    ensures Find(net, reg, path[k], asked, fuel).None?
    decreases fuel
  {
    if fuel > 0 {
      var at := if k < j then k else i;
      assert StepsTo(net, reg, full, path[at], path[at + 1]);
      ReturningLookupNeverEnds(net, reg, full, Rejoined(full), path, i, j, at + 1, fuel - 1);
    }
  }

  /** When all files have been loaded, a lookup terminates if and only if no chain of forwarders from its reference
      visits a reference twice. */
  lemma LoadedLookupTerminatesExactlyWhen(net: Net, reg: Registry, r: AssemblyRef, full: string)
    requires Regular(net) && NothingToLoad(net, reg)
    ensures Terminates(net, reg, r, full) <==> NeverReturns(net, Possible(net, reg), full, r)
  {
    if NeverReturns(net, Possible(net, reg), full, r) {
      AcyclicLookupsTerminate(net, reg, r, full);
    } else {
      var path :| Chain(net, Possible(net, reg), full, path) && path[0] == r && !Distinct(path);
      var i, j :| 0 <= i < j < |path| && path[i] == path[j];
      forall m | 0 <= m < |path| - 1 ensures StepsTo(net, reg, full, path[m], path[m + 1]) {
        HopIsStep(net, reg, full, path[m], path[m + 1]);
      }
      forall fuel: nat ensures Find(net, reg, r, full, fuel).None? {
        ReturningLookupNeverEnds(net, reg, full, full, path, i, j, 0, fuel);
      }
    }
  }

  // ------------------------------------------------------------ chains of owners

  /** Each type reference of the path is nested in the next one. */
  predicate OwnerChain(net: Net, id: nat, path: seq<nat>) {
    && |path| > 0
    && forall i {:trigger net.scope(id, path[i])} :: 0 <= i < |path| - 1 ==>
         net.scope(id, path[i]).Inner? && net.scope(id, path[i]).owner == path[i + 1]
  }

  ghost predicate OwnersNeverReturn(net: Net, id: nat, k: nat) {
    forall path: seq<nat> :: OwnerChain(net, id, path) && path[0] == k ==> Distinct(path)
  }

  /** All references on a chain of owners but the last are in the table. */
  lemma OwnersAreBounded(w: World, id: nat, path: seq<nat>)
    requires OwnerChain(NetOf(w), id, path) && Distinct(path)
    ensures |path| <= |w.metadata(id).typeRefs| + 1
  {
    var size := |w.metadata(id).typeRefs|;
    var front := path[..|path| - 1];
    forall i | 0 <= i < |front| ensures front[i] in UpTo(size) {
      assert NetOf(w).scope(id, path[i]).Inner? && NetOf(w).scope(id, path[i]) == ScopeOf(w, id, path[i]);
    }
    DistinctIsBounded(front, UpTo(size));
  }

  /** The numbers below `n`. */
  function UpTo(n: nat): (s: set<nat>)
    ensures |s| == n && forall i: nat :: i in s <==> i < n
  {
    if n == 0 then {} else UpTo(n - 1) + {n - 1}
  }

  lemma OwnerChainGrows(net: Net, id: nat, path: seq<nat>)
    requires OwnerChain(net, id, path) && net.scope(id, path[|path| - 1]).Inner?
    ensures OwnerChain(net, id, path + [net.scope(id, path[|path| - 1]).owner])
  {
    var path' := path + [net.scope(id, path[|path| - 1]).owner];
    forall i | 0 <= i < |path'| - 1
      ensures net.scope(id, path'[i]).Inner? && net.scope(id, path'[i]).owner == path'[i + 1]
    {
      if i < |path| - 1 { assert net.scope(id, path[i]).Inner?; }
    }
  }

  /** No chain of forwarders from the scope of the outermost owner visits a reference twice. */
  ghost predicate RootNeverReturns(net: Net, reg: Registry, id: nat, k: nat) {
    forall fuel :: Root(net, id, k, fuel).Some? ==>
        var start := Root(net, id, k, fuel).value;
        NeverReturns(net, Possible(net, reg), start.name, start.reference)
  }

  lemma OwnerHasSameRoot(net: Net, reg: Registry, id: nat, k: nat)
    requires net.scope(id, k).Inner? && RootNeverReturns(net, reg, id, k)
    ensures RootNeverReturns(net, reg, id, net.scope(id, k).owner)
  {
    var owner := net.scope(id, k).owner;
    forall fuel: nat ensures Root(net, id, owner, fuel) == Root(net, id, k, fuel + 1) {
    }
  }

  lemma {:induction false} RefEnds(w: World, reg: Registry, id: nat, path: seq<nat>) returns (fuel: nat)
    requires OwnerChain(NetOf(w), id, path) && OwnersNeverReturn(NetOf(w), id, path[0])
    requires RootNeverReturns(NetOf(w), reg, id, path[|path| - 1])
    ensures LocateRef(NetOf(w), reg, id, path[|path| - 1], fuel).Some?
    decreases |w.metadata(id).typeRefs| + 1 - |path|
  {
    var net, k := NetOf(w), path[|path| - 1];
    match net.scope(id, k)
    case Unresolved(_) => fuel := 1;
    case Outer(r, full) =>
      NetIsRegular(w);
      assert Root(net, id, k, 1) == Some(Start(r, full, 1));
      AcyclicLookupsTerminate(net, reg, r, full);
      fuel := |Targets(net, Possible(net, reg), full)| + 1;
    case Inner(owner, _) =>
      OwnerChainGrows(net, id, path);
      OwnersAreBounded(w, id, path + [owner]);
      OwnerHasSameRoot(net, reg, id, k);
      fuel := RefEnds(w, reg, id, path + [owner]);
      fuel := fuel + 1;
  }

  ghost predicate RefTerminates(net: Net, reg: Registry, id: nat, k: nat) {
    exists fuel :: LocateRef(net, reg, id, k, fuel).Some?
  }

  /** The lookup of a type reference terminates, if no chain of its owners visits a reference twice and no chain of
      forwarders from the scope of the outermost one does. */
  lemma AcyclicRefsTerminate(w: World, reg: Registry, id: nat, k: nat)
    requires OwnersNeverReturn(NetOf(w), id, k) && RootNeverReturns(NetOf(w), reg, id, k)
    ensures RefTerminates(NetOf(w), reg, id, k)
  {
    var fuel := RefEnds(w, reg, id, [k]);
  }

  lemma {:induction false} ReturningRefNeverEnds(net: Net, reg: Registry, id: nat, path: seq<nat>, i: nat, j: nat,
                                                 k: nat, fuel: nat)
    requires OwnerChain(net, id, path) && i < j < |path| && path[i] == path[j] && k <= j
    ensures LocateRef(net, reg, id, path[k], fuel).None?
    decreases fuel
  {
    if fuel > 0 {
      var at := if k < j then k else i;
      assert net.scope(id, path[at]).Inner? && net.scope(id, path[at]).owner == path[at + 1];
      ReturningRefNeverEnds(net, reg, id, path, i, j, at + 1, fuel - 1);
    }
  }

  /** When all files have been loaded, the lookup of a type reference terminates if and only if neither chain visits
      a reference twice. */
  lemma LoadedRefTerminatesExactlyWhen(w: World, reg: Registry, id: nat, k: nat)
    requires NothingToLoad(NetOf(w), reg)
    ensures RefTerminates(NetOf(w), reg, id, k) <==>
            OwnersNeverReturn(NetOf(w), id, k) && RootNeverReturns(NetOf(w), reg, id, k)
  {
    var net := NetOf(w);
    if OwnersNeverReturn(net, id, k) && RootNeverReturns(net, reg, id, k) {
      AcyclicRefsTerminate(w, reg, id, k);
    } else if !OwnersNeverReturn(net, id, k) {
      var path: seq<nat> :| OwnerChain(net, id, path) && path[0] == k && !Distinct(path);
      var i, j :| 0 <= i < j < |path| && path[i] == path[j];
      forall fuel: nat ensures LocateRef(net, reg, id, k, fuel).None? {
        ReturningRefNeverEnds(net, reg, id, path, i, j, 0, fuel);
      }
    } else if RefTerminates(net, reg, id, k) {
      RootOfEndingRef(w, reg, id, k);
    }
  }

  /** A lookup that terminates has a root whose lookup terminates. */
  lemma RootOfEndingRef(w: World, reg: Registry, id: nat, k: nat)
    requires NothingToLoad(NetOf(w), reg) && RefTerminates(NetOf(w), reg, id, k)
    ensures RootNeverReturns(NetOf(w), reg, id, k)
  {
    var net := NetOf(w);
    var fuel: nat :| LocateRef(net, reg, id, k, fuel).Some?;
    NetIsRegular(w);
    forall more: nat | Root(net, id, k, more).Some?
      ensures var start := Root(net, id, k, more).value;
              NeverReturns(net, Possible(net, reg), start.name, start.reference)
    {
      var start := Root(net, id, k, more).value;
      MoreFuelForRef(net, reg, id, k, fuel, fuel + more);
      RootWithMoreFuel(net, id, k, TypeDescription(0, 0), more, fuel);
      RefFollowsRoot(net, reg, id, k, more + fuel);
      LoadedLookupTerminatesExactlyWhen(net, reg, start.reference, start.name);
    }
  }
}
