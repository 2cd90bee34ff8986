/** What happens inside filters. Exception instructions executed by the methods that a filter calls end the filtering
    mode, so that its `endfilter` fails. The engine also has a path that abandons a filter and goes on with the search
    that was suspended; this module proves what that path restores, and that no instruction leads to it. */
module FilterTheorems {
  import opened Wrappers
  import opened ExceptionData
  import opened ExceptionSemantics
  import opened UnwindPass
  import opened UnwindRuns
  import opened OwedHandlers
  import opened UnwindTheorems
  import opened ReturnTheorems
  import opened SearchTheorems
  import opened WholeInstructions

  // ------------------------------------------------------------ exception instructions inside a filter

  /** A whole `leave` does not give the filtering mode back. */
  lemma {:induction false} LeaveEndsFiltering(host: Host, vm: Vm, t: nat, run: seq<Vm>, vm': Vm)
    requires Left(host, vm, t, run, vm')
    ensures !vm'.mode.Filtering?
  {
    LeftExactly(host, vm, t, run, vm');
  }

  /** A `ret` keeps the filtering mode if and only if no try block with a finally or fault block holds it. */
  lemma {:induction false} ReturnKeepsFilteringExactlyWhen(host: Host, vm: Vm, run: seq<Vm>)
    requires vm.mode.Filtering? && |vm.frames| > 0
    requires ReturnUnwinds(Last(vm.frames)) ==> WholeReturn(host, vm, run)
    ensures var after := if ReturnUnwinds(Last(vm.frames)) then Handle(host, Last(run)) else Ret(host, vm);
            && after.result == Return
            && (after.vm.mode == vm.mode <==> !ReturnUnwinds(Last(vm.frames)))
            && (after.vm.mode.Filtering? <==> !ReturnUnwinds(Last(vm.frames)))
  {
    if ReturnUnwinds(Last(vm.frames)) { ReturnUnwindEndsInReturn(host, run); }
  }

  /** A caught exception does not give the filtering mode back. */
  lemma {:induction false} CatchEndsFiltering(host: Host, vm: Vm, run: seq<Vm>, vm': Vm)
    requires Caught(host, vm, run, vm')
    ensures !vm'.mode.Filtering?
  {
    CaughtExactly(host, vm, run, vm');
  }

  /** One of the three, executed in a filter or in a method that it calls. */
  ghost predicate Interrupted(host: Host, vm: Vm, vm': Vm) {
    || (exists t, run :: Left(host, vm, t, run, vm'))
    || (exists run :: Returned(host, vm, run, vm'))
    || (exists run :: Caught(host, vm, run, vm'))
  }

  lemma InterruptionEndsFiltering(host: Host, vm: Vm, vm': Vm)
    requires Interrupted(host, vm, vm')
    ensures !vm'.mode.Filtering?
  {
    if t, run :| Left(host, vm, t, run, vm') {
      LeaveEndsFiltering(host, vm, t, run, vm');
    } else if run :| Returned(host, vm, run, vm') {
      ReturnedExactly(host, vm, run, vm');
    } else {
      var run :| Caught(host, vm, run, vm');
      CatchEndsFiltering(host, vm, run, vm');
    }
  }

  predicate OrdinaryAt(run: seq<Vm>, i: nat)
    requires i < |run| - 1
  {
    Ordinary(run[i], run[i + 1])
  }

  lemma {:induction false} FilteringExactlyWhen(host: Host, run: seq<Vm>, i: nat)
    requires i < |run| && run[0].mode.Filtering?
    requires forall k :: 0 <= k < |run| - 1 ==> OrdinaryAt(run, k) || Interrupted(host, run[k], run[k + 1])
    ensures run[i].mode.Filtering? <==> forall k :: 0 <= k < i ==> OrdinaryAt(run, k)
    ensures run[i].mode.Filtering? ==> Ordinary(run[0], run[i])
    decreases i
  {
    if i > 0 {
      FilteringExactlyWhen(host, run, i - 1);
      if !OrdinaryAt(run, i - 1) { InterruptionEndsFiltering(host, run[i - 1], run[i - 1 + 1]); }
    }
  }

  /** Over every run of a filter, `endfilter` is an error if and only if a `leave`, a `ret` from a guarded try block
      or a caught exception happened in it. Where it is not, the mode and what is set aside are those in which the
      filter started. */
  lemma {:induction false} EndFilterFailsExactlyWhen(host: Host, run: seq<Vm>, result: int)
    requires |run| > 0 && run[0].mode.Filtering?
    requires forall k :: 0 <= k < |run| - 1 ==> OrdinaryAt(run, k) || Interrupted(host, run[k], run[k + 1])
    ensures EndFilter(Last(run), result) == Outcome(Last(run), Error(InvalidCil)) <==>
            exists k :: 0 <= k < |run| - 1 && !OrdinaryAt(run, k)
    ensures EndFilter(Last(run), result).result != Error(InvalidCil) ==> Ordinary(run[0], Last(run))
  {
    FilteringExactlyWhen(host, run, |run| - 1);
  }

  // ------------------------------------------------------------ abandoning a filter

  /** An unwind that abandons the filter entered by `vm1`: the frames called by the filter are on top of its
      own frame, whose active exceptions are those the filter entry left, and the suspended part is intact. */
  predicate Abandons(vm1: Vm, vmU: Vm) {
    && vm1.mode.Filtering? && vmU.mode.Unwinding?
    && var u, f := vmU.mode.unwind, vm1.mode.filter.handler.frame;
    && u.target == ToInstruction(LEAVE_FRAME) && u.nested == Some(vm1.mode.filter)
    && |vm1.frames| == f + 1 && f < |vmU.frames|
    && vmU.frames[..f] == vm1.frames[..f]
    && vmU.frames[f] == vm1.frames[f].(ip := vmU.frames[f].ip, stackHeight := vmU.frames[f].stackHeight)
    && vmU.suspendedFrames == vm1.suspendedFrames && vmU.suspendedStack == vm1.suspendedStack
    && vmU.pendingUnwinds == vm1.pendingUnwinds
  }

  /** The state in which the suspended search goes on after a whole nested unwind. */
  function Resumption(host: Host, run: seq<Vm>): Vm
    requires |run| > 0 && Last(run).mode.Unwinding? && Last(run).mode.unwind.nested.Some?
    requires var arrived := Pass(host, Last(run)).vm;
             Last(run).mode.unwind.nested.value.handler.frame < |arrived.frames + arrived.suspendedFrames|
  {
    AbandonFilter(Pass(host, Last(run)).vm, Last(run).mode.unwind.nested.value)
  }

  /** The number of catch and filter handlers, of the frame that owns the filter, that hold the instruction
      the filter was abandoned at and whose exceptions the unwind drops. */
  function HandlersAround(vmU: Vm): nat
    requires UnwindReady(vmU)
  {
    var t := TargetFrame(vmU.mode.unwind);
    Pops(vmU.frames[t], t, vmU.mode.unwind, 0)
  }

  /** Where the operands of frame `f` end when the frames above it are gone. */
  function OperandsEnd(vm: Vm, f: nat): nat
    requires f < |vm.frames|
  {
    if f == |vm.frames| - 1 then |vm.stack| else vm.frames[f + 1].base.arguments
  }

  /** Entering a filter and abandoning it, through any nested unwind: the search goes on strictly after the
      filter. The frames are exactly those the search had if and only if no catch or filter handler of the
      owning frame held the abandoned instruction (or there was no active exception to lose). The stack
      has its old height if and only if, when the last pass began, the frame of the filter had no operand below
      the arguments of the frame above it. */
  lemma {:induction false} AbandonedFilterRestores(host: Host, vm: Vm, a: HandlerAddress, exception: ObjectRef,
                                                   clause: nat,
                                                   run: seq<Vm>)
    requires a.frame < |vm.frames| && Layout(vm.frames, |vm.stack|)
    requires vm.suspendedFrames == [] && vm.suspendedStack == []
    requires UnwindRun(host, run) && Fresh(run[0]) && Abandons(EnterFilter(vm, exception, a, clause).vm, run[0])
    requires Pass(host, Last(run)).Reached?
    ensures var arrived := Pass(host, Last(run)).vm;
            && a.frame < |arrived.frames + arrived.suspendedFrames|
            && Last(run).mode.unwind.nested.Some? && Last(run).mode.unwind.nested.value.handler == a
            && var resumed := Resumption(host, run);
            && Handle(host, Last(run)) == Handle(host, resumed)
            && resumed.mode == Searching(SearchState(exception, a.(handler := a.handler + 1), None))
            && resumed.suspendedFrames == [] && resumed.suspendedStack == []
            && (resumed.frames == vm.frames <==> HandlersAround(run[0]) == 0 || vm.frames[a.frame].exceptionStack == [])
            && a.frame < |Last(run).frames|
            && (|resumed.stack| == |vm.stack| <==> OperandsEnd(Last(run), a.frame) == vm.frames[a.frame].base.stack)
            && |resumed.frames| == |vm.frames|
            && (forall i :: 0 <= i < |vm.frames| && i != a.frame ==> resumed.frames[i] == vm.frames[i])
  {
    var last, arrived := Last(run), Pass(host, Last(run)).vm;
    AbandonArrives(host, vm, a, exception, clause, run);
    HandleIsPass(host, last);
    HandleAbandons(host, arrived, last.mode.unwind);
    RestoredFrames(vm, exception, a, run[0], arrived);
  }

  /** Where the nested unwind ends: the frame of the filter is on top, with the exceptions it dropped gone. */
  predicate ArrivedAbove(vm: Vm, exception: ObjectRef, a: HandlerAddress, vmU: Vm, arrived: Vm)
    requires a.frame < |vm.frames| && OnStack(vm.frames[a.frame], |vm.stack|)
    requires UnwindReady(vmU)
  {
    var frame := vm.frames[a.frame];
    && TargetFrame(vmU.mode.unwind) == a.frame
    && |arrived.frames| == a.frame + 1 && arrived.frames[..a.frame] == vm.frames[..a.frame]
    && arrived.frames[a.frame] == frame.(ip := arrived.frames[a.frame].ip,
                                         stackHeight := arrived.frames[a.frame].stackHeight,
                                         exceptionStack := DropLast(frame.exceptionStack + [exception],
                                             HandlersAround(vmU)))
    && arrived.suspendedFrames == vm.frames[a.frame + 1..]
    && arrived.suspendedStack == vm.stack[frame.base.stack..]
  }

  lemma {:induction false} AbandonArrives(host: Host, vm: Vm, a: HandlerAddress, exception: ObjectRef, clause: nat,
                                          run: seq<Vm>)
    requires a.frame < |vm.frames| && Layout(vm.frames, |vm.stack|)
    requires vm.suspendedFrames == [] && vm.suspendedStack == []
    requires UnwindRun(host, run) && Fresh(run[0]) && Abandons(EnterFilter(vm, exception, a, clause).vm, run[0])
    requires Pass(host, Last(run)).Reached?
    ensures OnStack(vm.frames[a.frame], |vm.stack|)
    ensures var last, arrived, frame := Last(run), Pass(host, Last(run)).vm, vm.frames[a.frame];
            && ArrivedAbove(vm, exception, a, run[0], arrived) && arrived.mode == last.mode
            && last.mode.unwind.target == ToInstruction(LEAVE_FRAME)
            && last.mode.unwind.nested
               == Some(FilterState(exception, a, frame.ip, frame.base.stack + frame.stackHeight))
            && a.frame < |last.frames| && |arrived.stack| == OperandsEnd(last, a.frame)
  {
    var vmU, last := run[0], Last(run);
    assert OnStack(vm.frames[a.frame], |vm.stack|);
    EnteredFrames(vm, exception, a, clause);
    ArrivalServedAll(host, run);
    ArrivalFrame(vmU, last, Pass(host, last).vm);
  }

  lemma HandleAbandons(host: Host, arrived: Vm, u: UnwindState)
    requires arrived.mode == Unwinding(u) && u.target == ToInstruction(LEAVE_FRAME) && u.nested.Some?
    requires u.nested.value.handler.frame < |arrived.frames|
    ensures Arrive(host, arrived, u) == Handle(host, AbandonFilter(arrived, u.nested.value))
  {
    assert Arrive(host, arrived, u) == CompleteNestedFilter(host, arrived, u.nested.value);
  }

  lemma {:induction false} RestoredFrames(vm: Vm, exception: ObjectRef, a: HandlerAddress, vmU: Vm, arrived: Vm)
    requires a.frame < |vm.frames| && OnStack(vm.frames[a.frame], |vm.stack|)
    requires UnwindReady(vmU) && ArrivedAbove(vm, exception, a, vmU, arrived)
    ensures var frame := vm.frames[a.frame];
            var resumed := AbandonFilter(arrived,
                FilterState(exception, a, frame.ip, frame.base.stack + frame.stackHeight));
            && |resumed.frames| == |vm.frames|
            && (forall i :: 0 <= i < |vm.frames| && i != a.frame ==> resumed.frames[i] == vm.frames[i])
            && (resumed.frames == vm.frames <==> HandlersAround(vmU) == 0 || frame.exceptionStack == [])
            && (|resumed.stack| == |vm.stack| <==> |arrived.stack| == frame.base.stack)
  {
    var frame, n := vm.frames[a.frame], HandlersAround(vmU);
    var resumed := AbandonFilter(arrived, FilterState(exception, a, frame.ip, frame.base.stack + frame.stackHeight));
    forall i | 0 <= i < |vm.frames| && i != a.frame ensures resumed.frames[i] == vm.frames[i] {
      if i < a.frame {
        assert arrived.frames[i] == arrived.frames[..a.frame][i] == vm.frames[..a.frame][i];
      }
    }
    DropLastAdds(frame.exceptionStack + [exception], n, 1);
    var restored := resumed.frames[a.frame];
    assert restored == frame.(exceptionStack := DropLast(frame.exceptionStack + [exception], n + 1));
    if n == 0 || frame.exceptionStack == [] {
      assert restored.exceptionStack == frame.exceptionStack;
      assert resumed.frames == vm.frames;
    }
  }

  // ------------------------------------------------------------ no instruction starts that path

  predicate NoNestedUnwind(u: UnwindState) {
    u.nested.None?
  }

  predicate NoNestedMode(mode: Mode) {
    match mode
    case Searching(state) => state.nested.None?
    case Unwinding(state) => state.nested.None?
    case ExecutingHandler(state) => state.nested.None?
    case _ => true
  }

  /** Nothing in the state remembers a filter that a nested exception interrupted. */
  predicate NoNested(vm: Vm) {
    && NoNestedMode(vm.mode)
    && forall i {:trigger NoNestedUnwind(vm.pendingUnwinds[i])} :: 0 <= i < |vm.pendingUnwinds| ==>
        NoNestedUnwind(vm.pendingUnwinds[i])
  }

  lemma {:induction false} HandleKeepsNoNested(host: Host, vm: Vm)
    requires NoNested(vm)
    ensures NoNested(Handle(host, vm).vm)
    decreases |vm.frames|, PhaseRank(vm.mode)
  {
    match vm.mode
    case Throwing(exception, _) =>
      assert Handle(host, vm) == BeginThrowing(host, vm, exception);
      if vm.frames != [] && host.hasExceptionType {
        var vm1 := vm.(suspendedFrames := [], suspendedStack := [],
            mode := Searching(SearchState(exception, Top(vm), None)));
        assert Handle(host, vm) == Handle(host, vm1);
        assert forall i :: 0 <= i < |vm1.pendingUnwinds| ==> NoNestedUnwind(vm1.pendingUnwinds[i]);
        HandleKeepsNoNested(host, vm1);
      }
    case Searching(state) =>
      assert Handle(host, vm) == Search(host, vm, state.exception, state.cursor);
      var out := Handle(host, vm);
      assert out.vm.pendingUnwinds == vm.pendingUnwinds;
    case Unwinding(u) =>
      HandleIsPass(host, vm);
      var halt := Pass(host, vm);
      assert forall i :: 0 <= i < |halt.vm.pendingUnwinds| ==> NoNestedUnwind(halt.vm.pendingUnwinds[i]);
      if halt.Preempted? {
        HandleKeepsNoNested(host, halt.vm);
      } else if halt.Reached? {
        ArriveKeepsNoNested(host, halt.vm, u);
      } else if halt.Broken? {
        AdvanceBreaks(host, vm, u, u.cursor.frame, u.cursor.section, u.cursor.handler);
        assert Handle(host, vm) == Unwind(host, vm, u);
      }
    case _ =>
  }

  lemma ArriveKeepsNoNested(host: Host, vm: Vm, u: UnwindState)
    requires vm.mode == Unwinding(u) && NoNested(vm)
    ensures NoNested(Arrive(host, vm, u).vm)
  {
    if vm.pendingUnwinds != [] {
      assert NoNestedUnwind(vm.pendingUnwinds[|vm.pendingUnwinds| - 1]);
      var rest := vm.pendingUnwinds[..|vm.pendingUnwinds| - 1];
      forall i | 0 <= i < |rest| ensures NoNestedUnwind(rest[i]) {
        assert NoNestedUnwind(vm.pendingUnwinds[i]);
      }
    }
  }

  lemma {:induction false} AdvanceBreaks(host: Host, vm: Vm, u: UnwindState, f: nat, s: nat, h: nat)
    requires vm.mode == Unwinding(u)
    ensures Advance(host, vm, u, f, s, h).Broken? ==> Advance(host, vm, u, f, s, h).vm.mode == vm.mode
    decreases |vm.frames|
  {
    if TargetFrame(u) < f < |vm.frames| {
      var frame := vm.frames[f];
      var sweep := SweepFrom(frame.sections, frame.ip, u.target, u.exception.Some?, s, h,
          SectionLimit(frame.sections, f, u.target));
      var vm1 := vm.(frames := vm.frames[f := frame.(exceptionStack := DropLast(frame.exceptionStack, sweep.pops))]);
      var vm2 := UnwindFrame(host, vm1);
      if sweep.stop.None? && !vm2.mode.Throwing? {
        AdvanceBreaks(host, vm2, u, f - 1, 0, 0);
      }
    }
  }

  /** One instruction, or one call of the engine by the dispatch loop. The first case stands for
      everything that is not an exception instruction; it may do anything to frames and stacks. */
  ghost predicate Step(host: Host, vm: Vm, vm': Vm) {
    || (vm'.mode == vm.mode && vm'.pendingUnwinds == vm.pendingUnwinds)
    || (exists exception :: vm' == Throw(host, vm, exception).vm)
    || vm' == Rethrow(host, vm).vm
    || (exists target :: vm' == Leave(host, vm, target).vm)
    || vm' == Ret(host, vm).vm
    || vm' == EndFinally(host, vm).vm
    || (exists result :: vm' == EndFilter(vm, result).vm)
    || vm' == Handle(host, vm).vm
  }

  lemma {:induction false} StepKeepsNoNested(host: Host, vm: Vm, vm': Vm)
    requires NoNested(vm) && Step(host, vm, vm')
    ensures NoNested(vm')
  {
    if exists exception :: vm' == Throw(host, vm, exception).vm {
      var exception :| vm' == Throw(host, vm, exception).vm;
      NoNestedInMode(vm, Throwing(exception, false));
      HandleKeepsNoNested(host, vm.(mode := Throwing(exception, false)));
    } else if vm' == Rethrow(host, vm).vm {
      if vm.frames != [] && Last(vm.frames).exceptionStack != [] {
        NoNestedInMode(vm, Throwing(Last(Last(vm.frames).exceptionStack), true));
        HandleKeepsNoNested(host, vm.(mode := Throwing(Last(Last(vm.frames).exceptionStack), true)));
      }
    } else if exists target :: vm' == Leave(host, vm, target).vm {
      var target :| vm' == Leave(host, vm, target).vm;
      if vm.frames != [] {
        LeaveKeepsNoNested(vm, target);
        HandleKeepsNoNested(host, BeginLeave(vm, target));
      }
    } else if vm' == Ret(host, vm).vm {
      if vm.frames != [] {
        NoNestedInMode(vm, BeginReturn(vm).mode);
        HandleKeepsNoNested(host, BeginReturn(vm));
      }
    } else if vm' == EndFinally(host, vm).vm {
      if vm.mode.ExecutingHandler? {
        NoNestedInMode(vm, Unwinding(vm.mode.unwind));
        HandleKeepsNoNested(host, vm.(mode := Unwinding(vm.mode.unwind)));
      }
    } else if exists result :: vm' == EndFilter(vm, result).vm {
      assert forall i :: 0 <= i < |vm'.pendingUnwinds| ==> NoNestedUnwind(vm.pendingUnwinds[i]);
    } else if vm' == Handle(host, vm).vm {
      HandleKeepsNoNested(host, vm);
    } else {
      assert forall i :: 0 <= i < |vm'.pendingUnwinds| ==> NoNestedUnwind(vm.pendingUnwinds[i]);
    }
  }

  lemma NoNestedInMode(vm: Vm, mode: Mode)
    requires NoNested(vm) && NoNestedMode(mode)
    ensures NoNested(vm.(mode := mode))
  {
    forall i | 0 <= i < |vm.pendingUnwinds| ensures NoNestedUnwind(vm.(mode := mode).pendingUnwinds[i]) {
      assert NoNestedUnwind(vm.pendingUnwinds[i]);
    }
  }

  lemma LeaveKeepsNoNested(vm: Vm, target: nat)
    requires NoNested(vm) && vm.frames != []
    ensures NoNested(BeginLeave(vm, target))
  {
    var vm' := BeginLeave(vm, target);
    forall i | 0 <= i < |vm'.pendingUnwinds| ensures NoNestedUnwind(vm'.pendingUnwinds[i]) {
      if i < |vm.pendingUnwinds| { assert NoNestedUnwind(vm.pendingUnwinds[i]); }
    }
  }

  /** Over every run of instructions from a state without one, no state ever carries a nested filter. The
      documented promise that an exception escaping a filter resumes the suspended search is never met. */
  lemma {:induction false} NestedFilterNeverArises(host: Host, run: seq<Vm>, i: nat)
    requires i < |run| && NoNested(run[0])
    requires forall k :: 0 <= k < |run| - 1 ==> Step(host, run[k], run[k + 1])
    ensures NoNested(run[i])
    decreases i
  {
    if i > 0 {
      NestedFilterNeverArises(host, run, i - 1);
      assert Step(host, run[i - 1], run[i - 1 + 1]);
      StepKeepsNoNested(host, run[i - 1], run[i]);
    }
  }

  /** An exception thrown while a filter runs discards the frames that the filter had suspended: all frames
      known afterwards, live or suspended, are among those that were live in the filter. */
  lemma {:induction false} ThrowInFilterDiscardsSuspendedFrames(host: Host, vm: Vm, exception: ObjectRef)
    requires vm.mode.Filtering? && |vm.frames| > 0 && host.hasExceptionType
    ensures var after := Throw(host, vm, exception).vm;
            && |after.frames| + |after.suspendedFrames| <= |vm.frames|
            && NoNestedMode(after.mode)
  {
    var vm1 := vm.(mode := Throwing(exception, false));
    assert Handle(host, vm1) == BeginThrowing(host, vm1, exception);
    var vm2 := vm1.(suspendedFrames := [], suspendedStack := [],
        mode := Searching(SearchState(exception, Top(vm), None)));
    assert Handle(host, vm1) == Handle(host, vm2);
    SearchAddsNoFrames(host, vm2);
  }

  lemma SearchAddsNoFrames(host: Host, vm: Vm)
    requires vm.mode.Searching? && vm.mode.search.nested.None? && vm.suspendedFrames == []
    ensures var after := Handle(host, vm).vm;
            |after.frames| + |after.suspendedFrames| <= |vm.frames| && NoNestedMode(after.mode)
  {
    assert Handle(host, vm) == Search(host, vm, vm.mode.search.exception, vm.mode.search.cursor);
  }
}
