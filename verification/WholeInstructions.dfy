/** Exception instructions from their beginning to their end, with all that the engine and the handlers do on their
    behalf. */
module WholeInstructions {
  import opened ExceptionData
  import opened ExceptionSemantics
  import opened UnwindRuns
  import opened OwedHandlers
  import opened UnwindTheorems
  import opened LeaveTheorems
  import opened ReturnTheorems
  import opened SearchTheorems
  import opened ThrowTheorems

  /** An instruction that is not an exception instruction. */
  predicate Ordinary(vm: Vm, vm': Vm) {
    vm'.mode == vm.mode && vm'.pendingUnwinds == vm.pendingUnwinds
  }

  /** A whole `leave`. */
  predicate Left(host: Host, vm: Vm, t: nat, run: seq<Vm>, vm': Vm) {
    && |vm.frames| > 0 && t != LEAVE_FRAME && UnwindRun(host, run) && run[0] == BeginLeave(vm, t) && Fresh(run[0])
    && Pass(host, Last(run)).Reached? && vm' == Handle(host, Last(run)).vm
  }

  /** A whole `ret` from a try block with a finally or fault block. */
  predicate Returned(host: Host, vm: Vm, run: seq<Vm>, vm': Vm) {
    && |vm.frames| > 0 && ReturnUnwinds(Last(vm.frames)) && WholeReturn(host, vm, run)
    && run[0].mode.unwind.nested.None? && vm' == Handle(host, Last(run)).vm
  }

  /** A filter says yes, and its `endfilter` starts the unwind at `vm0`. */
  ghost predicate Accepted(host: Host, vm: Vm, vm0: Vm) {
    exists vm2 :: FilterRan(Handle(host, vm).vm, vm2) && vm0 == EndFilter(vm2, 1).vm
  }

  /** The search for a handler of an exception thrown at `vm`, through any number of filters that decline, and the
      state `vm0` that it ends in. */
  ghost predicate Finds(host: Host, vm: Vm, thrown: Mode, verdict: HandlerAddress -> int, search: seq<Vm>,
                        filters: seq<Vm>, vm0: Vm) {
    && vm.frames != [] && thrown.Throwing? && SearchRun(host, verdict, search, filters)
    && search[0] == SearchOf(vm.(mode := thrown))
    && (vm0 == Handle(host, Last(search)).vm || Accepted(host, Last(search), vm0))
  }

  /** The unwind at `vm0` is that of an exception thrown at `vm`. */
  ghost predicate ThrownFrom(host: Host, vm: Vm, vm0: Vm) {
    exists thrown, verdict, search, filters :: Finds(host, vm, thrown, verdict, search, filters, vm0)
  }

  /** An exception thrown at `vm` whose unwind ends in a catch. */
  ghost predicate Caught(host: Host, vm: Vm, run: seq<Vm>, vm': Vm) {
    && UnwindRun(host, run) && Fresh(run[0]) && run[0].mode.unwind.target.ToHandler? && ThrownFrom(host, vm, run[0])
    && Pass(host, Last(run)).Reached? && vm' == Handle(host, Last(run)).vm
  }

  // ------------------------------------------------------------ what they do to the unwind in progress

  /** After a whole `leave` the newest unwind set aside is in progress; that of a running handler further down has been
      set aside by the `leave` itself. */
  lemma {:induction false} LeftExactly(host: Host, vm: Vm, t: nat, run: seq<Vm>, vm': Vm)
    requires Left(host, vm, t, run, vm')
    ensures if vm.mode.ExecutingHandler? && vm.mode.unwind.cursor.frame < |vm.frames| - 1 then Ordinary(vm, vm')
            else
              && vm'.mode == (if vm.pendingUnwinds == [] then Idle else ExecutingHandler(Last(vm.pendingUnwinds)))
              && vm'.pendingUnwinds == DropLast(vm.pendingUnwinds, 1)
    ensures |vm'.frames| == |vm.frames|
  {
    LeaveUnwindEndsAtTarget(host, run);
  }

  lemma {:induction false} ReturnedExactly(host: Host, vm: Vm, run: seq<Vm>, vm': Vm)
    requires Returned(host, vm, run, vm')
    ensures vm'.mode == Idle && vm'.pendingUnwinds == vm.pendingUnwinds
  {
    ReturnUnwindEndsInReturn(host, run);
  }

  lemma {:induction false} CaughtExactly(host: Host, vm: Vm, run: seq<Vm>, vm': Vm)
    requires Caught(host, vm, run, vm')
    ensures vm'.mode == Idle && vm'.pendingUnwinds == vm.pendingUnwinds
  {
    CatchUnwindEndsInHandler(host, run);
    ThrowKeepsPending(host, vm, run[0]);
  }

  lemma SearchingKeepsPending(host: Host, vm: Vm)
    requires vm.mode.Searching? && vm.mode.search.nested.None?
    ensures var after := Handle(host, vm).vm;
            && after.pendingUnwinds == vm.pendingUnwinds
            && (after.mode.Filtering? ==> after.mode.filter.handler.frame < |after.frames|)
  {
    assert Handle(host, vm) == Search(host, vm, vm.mode.search.exception, vm.mode.search.cursor);
  }

  lemma {:induction false} FiltersKeepPending(host: Host, verdict: HandlerAddress -> int, search: seq<Vm>,
                                              filters: seq<Vm>, i: nat)
    requires SearchRun(host, verdict, search, filters) && i < |search|
    requires search[0].mode.Searching? && search[0].mode.search.nested.None?
    ensures search[i].pendingUnwinds == search[0].pendingUnwinds
    ensures search[i].mode.Searching? && search[i].mode.search.nested.None?
    decreases i
  {
    if i > 0 {
      FiltersKeepPending(host, verdict, search, filters, i - 1);
      assert Declined(host, verdict, search[i - 1], filters[i - 1], search[i - 1 + 1]);
      SearchingKeepsPending(host, search[i - 1]);
    }
  }

  lemma {:induction false} ThrowKeepsPending(host: Host, vm: Vm, vm0: Vm)
    requires ThrownFrom(host, vm, vm0)
    ensures vm0.pendingUnwinds == vm.pendingUnwinds
  {
    var thrown, verdict, search, filters :| Finds(host, vm, thrown, verdict, search, filters, vm0);
    FiltersKeepPending(host, verdict, search, filters, |search| - 1);
    SearchingKeepsPending(host, Last(search));
  }
}
