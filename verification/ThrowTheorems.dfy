/** Both passes together: from the throw, through any filters and any finally and fault blocks, to the catch. */
module ThrowTheorems {
  import opened Wrappers
  import opened ExceptionData
  import opened ExceptionSemantics
  import opened Nesting
  import opened UnwindAgenda
  import opened UnwindPass
  import opened UnwindRuns
  import opened OwedHandlers
  import opened UnwindTheorems
  import opened SearchTheorems

  /** Every method on the call stack has well-nested sections in the order of the parser. */
  predicate AllNested(frames: seq<Frame>) {
    forall i {:trigger WellNested(frames[i].sections)} :: 0 <= i < |frames| ==>
        WellNested(frames[i].sections) && Sorted(frames[i].sections)
  }

  /** An unwind that a search starts is at its beginning, and able to make progress. */
  lemma SearchStartsFreshUnwind(vm0: Vm, a: HandlerAddress, vm: Vm)
    requires SearchReady(vm0) && AllNested(vm0.frames) && Covers(vm0.frames, a) && StartsUnwind(vm0, a, vm)
    ensures Fresh(vm)
  {
    forall i | 0 <= i < |vm.frames| ensures Supported(vm.frames[i].sections) {
      assert WellNested(vm0.frames[i].sections);
    }
  }

  /** What a whole throw comes to: `a` is the first handler of the call stack at the throw that accepts, every
      stop of the unwind was at the next handler owed, all owed handlers ran, and control is in `a`. */
  ghost predicate ThrownTo(host: Host, verdict: HandlerAddress -> int, vm0: Vm, a: HandlerAddress, unwind: seq<Vm>)
    requires SearchReady(vm0) && UnwindRun(host, unwind)
  {
    && IsChosen(host, verdict, vm0, a)
    && Fresh(unwind[0]) && unwind[0].frames == vm0.frames && unwind[0].mode.unwind.target == ToHandler(a)
    && |unwind| - 1 == |OwedBy(unwind[0])|
    && (forall k :: 0 <= k < |unwind| - 1 ==> Entered(Pass(host, unwind[k]).vm, vm0.frames, OwedBy(unwind[0])[k]))
    && CaughtIn(unwind[0], Last(unwind), Handle(host, Last(unwind)))
  }

  lemma {:induction false} UnwindOfSearch(host: Host, verdict: HandlerAddress -> int, vm0: Vm, a: HandlerAddress,
                                          unwind: seq<Vm>)
    requires SearchReady(vm0) && AllNested(vm0.frames) && IsChosen(host, verdict, vm0, a)
    requires UnwindRun(host, unwind) && StartsUnwind(vm0, a, unwind[0]) && Pass(host, Last(unwind)).Reached?
    ensures ThrownTo(host, verdict, vm0, a, unwind)
  {
    SearchStartsFreshUnwind(vm0, a, unwind[0]);
    CatchUnwindEndsInHandler(host, unwind);
    forall k | 0 <= k < |unwind| - 1 ensures Entered(Pass(host, unwind[k]).vm, vm0.frames, OwedBy(unwind[0])[k]) {
      assert Resumes(host, unwind[k], unwind[k + 1]);
      RunEntersOwedHandlers(host, unwind, k);
    }
  }

  /** A throw that a catch accepts, after any number of filters that declined. */
  lemma {:induction false} ThrowEndsInFirstAcceptingCatch(host: Host, verdict: HandlerAddress -> int,
                                                          search: seq<Vm>, filters: seq<Vm>, unwind: seq<Vm>)
    requires SearchRun(host, verdict, search, filters)
    requires SearchReady(search[0]) && search[0].mode.search.cursor == Top(search[0]) && AllNested(search[0].frames)
    requires UnwindRun(host, unwind) && unwind[0] == Handle(host, Last(search)).vm && Pass(host, Last(unwind)).Reached?
    ensures exists a :: ThrownTo(host, verdict, search[0], a, unwind)
  {
    SearchChoosesFirstAccepting(host, verdict, search, filters);
    var a :| IsChosen(host, verdict, search[0], a) && StartsUnwind(search[0], a, unwind[0]);
    UnwindOfSearch(host, verdict, search[0], a, unwind);
  }

  /** A throw that a filter accepts, after any number of filters that declined. */
  lemma {:induction false} ThrowEndsInFirstAcceptingFilter(host: Host, verdict: HandlerAddress -> int,
                                                           search: seq<Vm>, filters: seq<Vm>, vm2: Vm, unwind: seq<Vm>)
    requires SearchRun(host, verdict, search, filters)
    requires SearchReady(search[0]) && search[0].mode.search.cursor == Top(search[0]) && AllNested(search[0].frames)
    requires FilterRan(Handle(host, Last(search)).vm, vm2) && verdict(vm2.mode.filter.handler) == 1
    requires UnwindRun(host, unwind) && unwind[0] == EndFilter(vm2, 1).vm && Pass(host, Last(unwind)).Reached?
    ensures ThrownTo(host, verdict, search[0], vm2.mode.filter.handler, unwind)
  {
    SearchChoosesAcceptingFilter(host, verdict, search, filters, vm2);
    UnwindOfSearch(host, verdict, search[0], vm2.mode.filter.handler, unwind);
  }

  /** The search that a state in the throwing mode begins. */
  function SearchOf(vm: Vm): Vm
    requires vm.mode.Throwing? && vm.frames != []
  {
    vm.(suspendedFrames := [], suspendedStack := [], mode := Searching(SearchState(vm.mode.exception, Top(vm), None)))
  }

  lemma ThrowingStartsSearch(host: Host, vm: Vm)
    requires vm.mode.Throwing? && vm.frames != [] && host.hasExceptionType && Layout(vm.frames, |vm.stack|)
    ensures SearchReady(SearchOf(vm)) && Handle(host, vm) == Handle(host, SearchOf(vm))
  {
    assert Handle(host, vm) == BeginThrowing(host, vm, vm.mode.exception);
  }

  /** A throw begins a search that is ready, from the top of the call stack, with no frame suspended. */
  lemma ThrowStartsSearch(host: Host, vm: Vm, exception: ObjectRef)
    requires vm.frames != [] && host.hasExceptionType && Layout(vm.frames, |vm.stack|)
    ensures var started := SearchOf(vm.(mode := Throwing(exception, false)));
            SearchReady(started) && Throw(host, vm, exception) == Handle(host, started)
  {
    ThrowingStartsSearch(host, vm.(mode := Throwing(exception, false)));
  }

  // ------------------------------------------------------------ a type initializer fails on the way

  /** A search from the top of the frames below a type initializer of `vm0`, for the exception that wraps the
      failure of that initializer. */
  predicate StartsOver(host: Host, vm0: Vm, started: Vm)
    requires vm0.mode.Unwinding?
  {
    && SearchReady(started) && started.mode.search.cursor == Top(started)
    && TargetFrame(vm0.mode.unwind) < |started.frames| < |vm0.frames|
    && var failed := vm0.frames[|started.frames|];
    && failed.isCctor && started.frames == vm0.frames[..|started.frames|]
    && vm0.mode.unwind.exception.Some?
    && host.wrap(failed.methodId, vm0.mode.unwind.exception.value) == Some(started.mode.search.exception)
  }

  /** Removing the frame of a type initializer replaces the exception: the handlers run so far are the first of
      those owed, and a search for the new exception starts on the frames that are left, all of them as they
      were at the throw. */
  lemma {:induction false} PreemptedThrowStartsOver(host: Host, unwind: seq<Vm>)
    requires UnwindRun(host, unwind) && Fresh(unwind[0]) && host.hasExceptionType
    requires Pass(host, Last(unwind)).Preempted?
    ensures |unwind| - 1 <= |OwedBy(unwind[0])|
    ensures forall k :: 0 <= k < |unwind| - 1 ==>
        Entered(Pass(host, unwind[k]).vm, unwind[0].frames, OwedBy(unwind[0])[k])
    ensures exists started ::
              StartsOver(host, unwind[0], started) && Handle(host, Last(unwind)) == Handle(host, started)
  {
    RunSoFar(host, unwind, |unwind| - 1);
    forall k | 0 <= k < |unwind| - 1
      ensures Entered(Pass(host, unwind[k]).vm, unwind[0].frames, OwedBy(unwind[0])[k])
    {
      assert Resumes(host, unwind[k], unwind[k + 1]);
      RunEntersOwedHandlers(host, unwind, k);
    }
    var vm0, last := unwind[0], Last(unwind);
    PassMakesProgress(host, last);
    var vm1 := Pass(host, last).vm;
    PreemptedFrames(host, vm0, last, vm1);
    HandleIsPass(host, last);
    ThrowingStartsSearch(host, vm1);
    assert StartsOver(host, vm0, SearchOf(vm1));
  }

  lemma PreemptedFrames(host: Host, vm0: Vm, last: Vm, vm1: Vm)
    requires Since(vm0, last) && PreemptedAt(host, last, last.mode.unwind, |vm1.frames|, vm1)
    ensures |vm1.frames| < |vm0.frames| && vm1.frames == vm0.frames[..|vm1.frames|]
    ensures vm0.frames[|vm1.frames|].isCctor && last.frames[|vm1.frames|].methodId == vm0.frames[|vm1.frames|].methodId
  {
    var g, top := |vm1.frames|, |last.frames| - 1;
    assert last.frames[..g] == last.frames[..top][..g] == vm0.frames[..top][..g] == vm0.frames[..g];
    if g < top {
      assert last.frames[g] == last.frames[..top][g] == vm0.frames[..top][g];
    }
  }
}
