/** Concrete call stacks on which the engine does not do what its instructions promise, or does so only by chance.
    Each is an input to one side of a theorem. */
module ExceptionWitnesses {
  import opened Wrappers
  import opened ExceptionData
  import opened ExceptionSemantics
  import opened Nesting
  import opened UnwindAgenda
  import opened UnwindPass
  import opened UnwindRuns
  import opened OwedHandlers
  import opened UnwindTheorems
  import opened LeaveTheorems
  import opened ReturnTheorems
  import opened SearchTheorems
  import opened WholeInstructions
  import opened Liveness

  /** Every catch accepts every exception. */
  function Accepting(): Host {
    Host(_ => Some(0), (_, _) => Some(true), true, (_, _) => None)
  }

  function MethodAt(ip: nat, sections: seq<Section>, active: seq<ObjectRef>): Frame {
    Frame(ip, 0, BasePointer(0, 0), sections, active, 0, false)
  }

  lemma TwoSections(inner: Section, outer: Section)
    requires WellFormed(inner) && WellFormed(outer)
    requires KeyBefore(inner.instructions, outer.instructions) && NestedIn(inner, outer)
    ensures Supported([inner, outer])
  {
    var sections := [inner, outer];
    forall i, j | 0 <= i < |sections| && 0 <= j < |sections| && i != j ensures Compatible(sections[i], sections[j]) {
    }
  }

  predicate NoInitializers(frames: seq<Frame>) {
    forall i :: 0 <= i < |frames| ==> !frames[i].isCctor
  }

  /** The unwind starts here and arrives in one pass. */
  predicate OnePass(vm0: Vm) {
    Fresh(vm0) && UnwindRun(Accepting(), [vm0]) && Pass(Accepting(), vm0).Reached?
  }

  /** Where no handler is due, the unwind arrives in one pass. */
  lemma NothingDueIsOnePass(vm0: Vm)
    requires Fresh(vm0) && (forall a :: !Due(vm0, a)) && NoInitializers(vm0.frames)
    ensures OnePass(vm0)
  {
    PassMakesProgress(Accepting(), vm0);
    if OwedBy(vm0) != [] {
      var a := OwedBy(vm0)[0];
      OwedIffTurn(vm0, a);
      assert !Due(vm0, a);
      var handlers := vm0.frames[a.frame].sections[a.section].handlers;
      var m :| 0 <= m < a.handler && Runs(handlers[m], vm0.frames[a.frame].ip, vm0.mode.unwind.exception.Some?);
      assert Due(vm0, a.(handler := m));
    }
  }

  lemma LeavesNothing(vm: Vm, t: nat)
    requires |vm.frames| > 0 && Fresh(BeginLeave(vm, t)) && (forall a :: !LeftFinally(vm, t, a))
    requires NoInitializers(vm.frames)
    ensures OnePass(BeginLeave(vm, t))
  {
    var vm0 := BeginLeave(vm, t);
    PassMakesProgress(Accepting(), vm0);
    if OwedBy(vm0) != [] {
      LeaveOwesExactly(vm, t, OwedBy(vm0)[0]);
      assert false;
    }
  }

  /** Where one handler only is served, the unwind stops at it. */
  lemma OnlyTurnStops(vm0: Vm, a: HandlerAddress)
    requires Fresh(vm0) && Turn(vm0, a) && (forall b :: Turn(vm0, b) ==> b == a) && NoInitializers(vm0.frames)
    ensures Pass(Accepting(), vm0).Stopped? && StopsAt(vm0, vm0.mode.unwind, 0, a, Pass(Accepting(), vm0).vm)
    ensures Handle(Accepting(), vm0) == Outcome(Pass(Accepting(), vm0).vm, Exception)
  {
    OwedIffTurn(vm0, a);
    PassMakesProgress(Accepting(), vm0);
    StopIsHead(Accepting(), vm0);
    OwedIffTurn(vm0, Head(vm0));
    HandleIsPass(Accepting(), vm0);
  }

  /** The search of a throw, where the first handler from the top that covers the throw is a catch. */
  lemma ThrowFinds(vm: Vm, exception: ObjectRef, a: HandlerAddress)
    requires vm.frames != [] && exception.Ref? && vm.suspendedFrames == [] && vm.suspendedStack == []
    requires Covers(vm.frames, a) && HandlerAt(vm.frames, a).kind.Catch?
    requires forall b :: Covers(vm.frames, b) ==> b == a || Before(a, b)
    ensures Throw(Accepting(), vm, exception)
            == Outcome(vm.(mode := Unwinding(UnwindState(Some(exception), ToHandler(a), Top(vm), None))), Exception)
  {
    var vm1 := vm.(mode := Throwing(exception, false));
    var vm2 := vm.(mode := Searching(SearchState(exception, Top(vm), None)));
    assert Handle(Accepting(), vm1) == BeginThrowing(Accepting(), vm1, exception) == Handle(Accepting(), vm2);
    assert Handle(Accepting(), vm2) == Search(Accepting(), vm2, exception, Top(vm));
    ScanFindsFirst(Accepting(), exception, vm.frames, |vm.frames| - 1, 0, 0, 0);
    assert !Passed(Accepting(), exception, vm.frames, a);
  }

  /** An unwind that arrives in a catch of a frame whose operands start at the bottom of the stack. */
  lemma CaughtInTopFrame(vm0: Vm)
    requires OnePass(vm0) && vm0.mode.unwind.target.ToHandler?
    requires vm0.frames[vm0.mode.unwind.target.address.frame].base.stack == 0
    ensures var a, e := vm0.mode.unwind.target.address, vm0.mode.unwind.exception.value;
            var frame, ip := vm0.frames[a.frame], HandlerAt(vm0.frames, a).instructions.start;
            Handle(Accepting(), vm0)
            == Outcome(vm0.(mode := Idle,
                            frames := vm0.frames[..a.frame]
                                      + [frame.(ip := ip, stackHeight := 1,
                                                exceptionStack := frame.exceptionStack + [e])],
                            stack := [ObjectValue(e)]), Exception)
  {
    CatchUnwindEndsInHandler(Accepting(), [vm0]);
    assert vm0.stack[..0] == [];
  }

  lemma CaughtInBottomFrame(vm0: Vm)
    requires OnePass(vm0) && vm0.mode.unwind.target.ToHandler? && vm0.mode.unwind.target.address.frame == 0
    requires vm0.frames[0].base.stack == 0
    ensures var frame, e := vm0.frames[0], vm0.mode.unwind.exception.value;
            var ip := HandlerAt(vm0.frames, vm0.mode.unwind.target.address).instructions.start;
            Handle(Accepting(), vm0)
            == Outcome(vm0.(mode := Idle,
                            frames := [frame.(ip := ip, stackHeight := 1,
                                              exceptionStack := frame.exceptionStack + [e])],
                            stack := [ObjectValue(e)]), Exception)
  {
    CaughtInTopFrame(vm0);
    assert vm0.frames[..0] == [];
  }

  // ------------------------------------------------------------ a handler that contains a try block

  /** A finally block 1..6 of the try block 0..1; inside it the try block 2..3 has a catch 3..4. */
  function FinallyWithTry(): seq<Section> {
    [Section(Range(2, 3), [Handler(Range(3, 4), Catch(0))]), Section(Range(0, 1), [Handler(Range(1, 6), Finally)])]
  }

  /** The unwind of a `leave` to 7 that has started the finally block. */
  function OwnUnwind(): UnwindState {
    UnwindState(None, ToInstruction(7), HandlerAddress(0, 2, 0), None)
  }

  /** Control is in the try block inside the finally block. */
  function InFinally(): Vm {
    Vm([MethodAt(2, FinallyWithTry(), [])], [], [], [], ExecutingHandler(OwnUnwind()), [])
  }

  lemma FinallyWithTryIsSupported()
    ensures Supported(FinallyWithTry())
  {
    var inner, outer := FinallyWithTry()[0], FinallyWithTry()[1];
    assert SectionInside(inner, outer.handlers[0].instructions);
    TwoSections(inner, outer);
    assert FinallyWithTry() == [inner, outer];
  }

  /** A `leave` from that try block to the rest of the finally block makes `endfinally` an error. */
  lemma LeaveInsideFinally()
    ensures OnePass(BeginLeave(InFinally(), 4))
    ensures var after := Leave(Accepting(), InFinally(), 4);
            && after.result == Exception && after.vm.mode == Idle
            && EndFinally(Accepting(), after.vm).result == Error(InvalidCil)
  {
    var vm, vm0 := InFinally(), BeginLeave(InFinally(), 4);
    FinallyWithTryIsSupported();
    assert Fresh(vm0);
    forall a ensures !LeftFinally(vm, 4, a) {
    }
    LeavesNothing(vm, 4);
    LeaveInHandlerBreaksEndFinally(Accepting(), vm, 4, [vm0]);
    LeaveUnwindEndsAtTarget(Accepting(), [vm0]);
  }

  /** The unwind of an exception thrown there, towards the catch of the inner try block. */
  function CaughtInFinally(): Vm {
    InFinally().(mode := Unwinding(UnwindState(Some(Ref(0)), ToHandler(HandlerAddress(0, 0, 0)),
        HandlerAddress(0, 0, 0), None)))
  }

  /** An exception thrown in that try block and caught there makes `endfinally` an error as well. */
  lemma ThrowInsideFinally()
    ensures Throw(Accepting(), InFinally(), Ref(0)) == Outcome(CaughtInFinally(), Exception)
    ensures OnePass(CaughtInFinally())
    ensures var after := Handle(Accepting(), CaughtInFinally());
            && after.result == Exception && after.vm.mode == Idle && after.vm.pendingUnwinds == []
            && after.vm.frames != [] && Last(after.vm.frames).ip == 3
            && EndFinally(Accepting(), after.vm).result == Error(InvalidCil)
  {
    ThrowFinds(InFinally(), Ref(0), HandlerAddress(0, 0, 0));
    var vm0 := CaughtInFinally();
    FinallyWithTryIsSupported();
    assert Fresh(vm0);
    forall a ensures !Due(vm0, a) {
    }
    NothingDueIsOnePass(vm0);
    CatchForgetsHandlerUnwind(Accepting(), [vm0]);
    CatchUnwindEndsInHandler(Accepting(), [vm0]);
  }

  // ------------------------------------------------------------ a handler whose unwind happens to come back

  function Guarded(): Section {
    Section(Range(0, 1), [Handler(Range(1, 6), Finally)])
  }

  /** The try block inside the finally block has called a method that is in a guarded try block of its own. */
  function Called(): Vm {
    InFinally().(frames := InFinally().frames + [MethodAt(0, [Guarded()], [])])
  }

  /** The called method has executed `leave` and is in its finally block; the lower unwind is set aside. */
  function CalledInFinally(): Vm {
    Vm([MethodAt(2, FinallyWithTry(), []), MethodAt(1, [Guarded()], [])], [], [], [],
       ExecutingHandler(UnwindState(None, ToInstruction(7), HandlerAddress(1, 1, 0), None)), [OwnUnwind()])
  }

  /** Its finally block has thrown, and the exception is on its way to the catch in the lower finally block. */
  function ThrownToFinally(): Vm {
    CalledInFinally().(mode := Unwinding(UnwindState(Some(Ref(0)), ToHandler(HandlerAddress(0, 0, 0)),
        HandlerAddress(1, 0, 0), None)))
  }

  /** The catch has started. */
  function InCatchOfFinally(): Vm {
    Vm([MethodAt(3, FinallyWithTry(), [Ref(0)]).(stackHeight := 1)], [], [ObjectValue(Ref(0))], [], Idle, [OwnUnwind()])
  }

  lemma CalledIsSupported(vm: Vm)
    requires vm.frames == Called().frames || vm.frames == CalledInFinally().frames
    ensures AllSupported(vm.frames)
  {
    FinallyWithTryIsSupported();
    OneSection(Guarded());
    assert vm.frames[1].sections == [Guarded()] && vm.frames[0].sections == FinallyWithTry();
  }

  lemma CalledLeaves()
    ensures Leave(Accepting(), Called(), 7) == Outcome(CalledInFinally(), Exception)
  {
    var vm0, a := BeginLeave(Called(), 7), HandlerAddress(1, 0, 0);
    CalledIsSupported(vm0);
    assert vm0.pendingUnwinds == [OwnUnwind()];
    assert Fresh(vm0) && Guarded().handlers[0].kind.Finally?;
    OnlyTurnStops(vm0, a);
    var vm1 := Pass(Accepting(), vm0).vm;
    assert vm1.frames[..1] == vm0.frames[..1] && vm1.frames[0] == vm1.frames[..1][0];
    assert vm1.frames == CalledInFinally().frames;
  }

  lemma CalledThrows()
    ensures Throw(Accepting(), CalledInFinally(), Ref(0)) == Outcome(ThrownToFinally(), Exception)
    ensures OnePass(ThrownToFinally())
  {
    ThrowFinds(CalledInFinally(), Ref(0), HandlerAddress(0, 0, 0));
    var vm0 := ThrownToFinally();
    CalledIsSupported(vm0);
    assert Fresh(vm0);
    forall a ensures !Due(vm0, a) {
    }
    NothingDueIsOnePass(vm0);
  }

  lemma CaughtInLowerFinally()
    ensures OnePass(ThrownToFinally())
    ensures Handle(Accepting(), ThrownToFinally()) == Outcome(InCatchOfFinally(), Exception)
  {
    CalledThrows();
    CaughtInBottomFrame(ThrownToFinally());
    assert [] + [Ref(0)] == [Ref(0)];
  }

  lemma CatchLeavesForFinally()
    ensures OnePass(BeginLeave(InCatchOfFinally(), 4))
  {
    var vm, vm0 := InCatchOfFinally(), BeginLeave(InCatchOfFinally(), 4);
    FinallyWithTryIsSupported();
    assert Fresh(vm0);
    forall a ensures !LeftFinally(vm, 4, a) {
    }
    LeavesNothing(vm, 4);
  }

  /** The exception is caught in the lower finally block. After the `leave` of the catch its `endfinally` resumes its
      own unwind: a `leave` further up had set it aside. */
  lemma OwnUnwindIsResumed()
    ensures Leave(Accepting(), Called(), 7) == Outcome(CalledInFinally(), Exception)
    ensures Throw(Accepting(), CalledInFinally(), Ref(0)) == Outcome(ThrownToFinally(), Exception)
    ensures Handle(Accepting(), ThrownToFinally()) == Outcome(InCatchOfFinally(), Exception)
    ensures OnePass(BeginLeave(InCatchOfFinally(), 4))
    ensures var after := Leave(Accepting(), InCatchOfFinally(), 4).vm;
            && after.mode == ExecutingHandler(OwnUnwind()) && after.pendingUnwinds == []
            && EndFinally(Accepting(), after) == Handle(Accepting(), after.(mode := Unwinding(OwnUnwind())))
  {
    CalledLeaves();
    CalledThrows();
    CaughtInLowerFinally();
    CatchLeavesForFinally();
    var vm0 := BeginLeave(InCatchOfFinally(), 4);
    EndFinallyAfterCatchExactlyWhen(Accepting(), OwnUnwind(), [ThrownToFinally()], InCatchOfFinally(), 4, [vm0]);
    LeaveUnwindEndsAtTarget(Accepting(), [vm0]);
  }

  // ------------------------------------------------------------ a handler that resumes the unwind of another frame

  function LowerUnwind(): UnwindState {
    UnwindState(None, ToInstruction(7), HandlerAddress(0, 1, 0), None)
  }

  /** A finally block of the lower frame has called a method whose finally block contains a try block. */
  function FinallyCalls(): Vm {
    Vm([MethodAt(1, [Guarded()], []), MethodAt(0, FinallyWithTry(), [])], [], [], [],
       ExecutingHandler(LowerUnwind()), [])
  }

  /** The called method has left its try block and is in its finally block. */
  function InUpperFinally(ip: nat): Vm {
    Vm([MethodAt(1, [Guarded()], []), MethodAt(ip, FinallyWithTry(), [])], [], [], [],
       ExecutingHandler(UnwindState(None, ToInstruction(7), HandlerAddress(1, 2, 0), None)), [LowerUnwind()])
  }

  /** The try block inside that finally block has thrown. */
  function ThrownInUpper(): Vm {
    InUpperFinally(2).(mode := Unwinding(UnwindState(Some(Ref(0)), ToHandler(HandlerAddress(1, 0, 0)),
        HandlerAddress(1, 0, 0), None)))
  }

  /** It has caught its exception. */
  function CaughtInUpper(): Vm {
    Vm([MethodAt(1, [Guarded()], []), MethodAt(3, FinallyWithTry(), [Ref(0)]).(stackHeight := 1)], [],
       [ObjectValue(Ref(0))], [], Idle, [LowerUnwind()])
  }

  lemma UpperIsSupported(vm: Vm)
    requires |vm.frames| == 2 && vm.frames[0].sections == [Guarded()] && vm.frames[1].sections == FinallyWithTry()
    ensures AllSupported(vm.frames)
  {
    FinallyWithTryIsSupported();
    OneSection(Guarded());
  }

  lemma UpperLeaves()
    ensures Leave(Accepting(), FinallyCalls(), 7) == Outcome(InUpperFinally(1), Exception)
  {
    var vm0, a := BeginLeave(FinallyCalls(), 7), HandlerAddress(1, 1, 0);
    UpperIsSupported(vm0);
    assert vm0.pendingUnwinds == [LowerUnwind()];
    assert Fresh(vm0) && FinallyWithTry()[1].handlers[0].kind.Finally?;
    OnlyTurnStops(vm0, a);
    var vm1 := Pass(Accepting(), vm0).vm;
    assert vm1.frames[..1] == vm0.frames[..1] && vm1.frames[0] == vm1.frames[..1][0];
    assert vm1.frames == InUpperFinally(1).frames;
  }

  lemma UpperThrows()
    ensures Throw(Accepting(), InUpperFinally(2), Ref(0)) == Outcome(ThrownInUpper(), Exception)
    ensures OnePass(ThrownInUpper())
  {
    ThrowFinds(InUpperFinally(2), Ref(0), HandlerAddress(1, 0, 0));
    var vm0 := ThrownInUpper();
    UpperIsSupported(vm0);
    assert Fresh(vm0);
    forall a ensures !Due(vm0, a) {
    }
    NothingDueIsOnePass(vm0);
  }

  lemma UpperCatches()
    ensures OnePass(ThrownInUpper()) && Handle(Accepting(), ThrownInUpper()) == Outcome(CaughtInUpper(), Exception)
  {
    UpperThrows();
    CaughtInTopFrame(ThrownInUpper());
    assert [] + [Ref(0)] == [Ref(0)];
    assert ThrownInUpper().frames[..1] == CaughtInUpper().frames[..1];
    assert Handle(Accepting(), ThrownInUpper()).vm.frames == CaughtInUpper().frames;
  }

  lemma UpperCatchIsLeft()
    ensures OnePass(BeginLeave(CaughtInUpper(), 4))
    ensures var after := Leave(Accepting(), CaughtInUpper(), 4).vm;
            && after.mode == ExecutingHandler(LowerUnwind()) && after.pendingUnwinds == []
            && |after.frames| == 2 && after.frames[0] == CaughtInUpper().frames[0] && after.frames[1].ip == 4
  {
    var vm, vm0 := CaughtInUpper(), BeginLeave(CaughtInUpper(), 4);
    UpperIsSupported(vm0);
    assert Fresh(vm0);
    forall a ensures !LeftFinally(vm, 4, a) {
    }
    LeavesNothing(vm, 4);
    LeaveUnwindEndsAtTarget(Accepting(), [vm0]);
    var after := Leave(Accepting(), vm, 4).vm;
    assert after.frames[..1] == vm.frames[..1] && after.frames[0] == after.frames[..1][0];
  }

  /** The unwind in progress is now that of the lower frame, and control is at the `endfinally` of the upper one. It
      moves the lower frame to the target of its `leave` and leaves the upper frame where it is; a second `endfinally`
      is an error. */
  lemma EndFinallyMovesLowerFrame()
    ensures Leave(Accepting(), FinallyCalls(), 7) == Outcome(InUpperFinally(1), Exception)
    ensures Throw(Accepting(), InUpperFinally(2), Ref(0)) == Outcome(ThrownInUpper(), Exception)
    ensures Handle(Accepting(), ThrownInUpper()) == Outcome(CaughtInUpper(), Exception)
    ensures var before := Leave(Accepting(), CaughtInUpper(), 4).vm;
            var after := EndFinally(Accepting(), before).vm;
            && before.mode == ExecutingHandler(LowerUnwind()) && |before.frames| == 2 && before.frames[1].ip == 4
            && |after.frames| == 2 && after.frames[0].ip == 7 && after.frames[1] == before.frames[1]
            && EndFinally(Accepting(), after).result == Error(InvalidCil)
  {
    UpperLeaves();
    UpperThrows();
    UpperCatches();
    UpperCatchIsLeft();
    LowerUnwindArrives(Leave(Accepting(), CaughtInUpper(), 4).vm);
  }

  lemma LowerUnwindArrives(vm: Vm)
    requires vm.mode == ExecutingHandler(LowerUnwind()) && vm.pendingUnwinds == []
    requires |vm.frames| == 2 && vm.frames[0].sections == [Guarded()]
    ensures var after := EndFinally(Accepting(), vm).vm;
            && |after.frames| == 2 && after.frames[0].ip == 7 && after.frames[1] == vm.frames[1] && after.mode == Idle
  {
    var vm0 := vm.(mode := Unwinding(LowerUnwind()));
    assert SweepAt(vm0, LowerUnwind(), 0, 1, 0) == Sweep(0, None);
    assert Pass(Accepting(), vm0).Reached?;
    MisplacedEndFinallyStays(Accepting(), vm);
  }

  /** The same with an exception on its way from the middle frame to the catch of the lowest one: its unwind is in
      progress, and control is at the `endfinally` of the upper frame. */
  function EndFinallyTowardsCatch(): Vm {
    Vm([MethodAt(0, [Catching()], []), MethodAt(1, [Guarded()], []), MethodAt(4, FinallyWithTry(), [])], [], [], [],
       ExecutingHandler(UnwindState(Some(Ref(0)), ToHandler(HandlerAddress(0, 0, 0)), HandlerAddress(1, 1, 0), None)),
       [])
  }

  /** The pass finishes the middle frame and pops the upper one. The catch is entered in the lowest frame, and the
      middle frame is on top of it. */
  lemma CatchIsEnteredBelowTop()
    ensures var vm, after := EndFinallyTowardsCatch(), EndFinally(Accepting(), EndFinallyTowardsCatch()).vm;
            |after.frames| == 2 && after.frames[0].ip == 1 && after.frames[1].ip == vm.frames[1].ip
            && after.frames[1].sections == vm.frames[1].sections
  {
    var vm, u := EndFinallyTowardsCatch(), EndFinallyTowardsCatch().mode.unwind;
    var vm0 := vm.(mode := Unwinding(u));
    assert SweepAt(vm0, u, 1, 1, 0) == Sweep(0, None);
    var vm2 := PoppedFrom(Accepting(), vm0, u, 1, 1, 0);
    assert vm2.frames == vm.frames[..2] by {
      assert DropLast(vm.frames[1].exceptionStack, 0) == vm.frames[1].exceptionStack;
    }
    assert SweepAt(vm2, u, 0, 0, 0) == Sweep(0, None);
    assert Pass(Accepting(), vm0).Reached?;
    EndFinallyReachesItsFrameExactlyWhen(Accepting(), vm);
  }

  // ------------------------------------------------------------ ret under a fault block

  /** The lower frame runs a finally block; the method it called executes `ret` in a try block with a fault block. */
  function CalledFromFinally(): Vm {
    var u := UnwindState(None, ToInstruction(7), HandlerAddress(0, 1, 0), None);
    var caller := MethodAt(1, [Section(Range(0, 1), [Handler(Range(1, 6), Finally)])], []);
    var callee := MethodAt(0, [Section(Range(0, 2), [Handler(Range(2, 3), Fault)])], []);
    Vm([caller, callee], [], [], [], ExecutingHandler(u), [])
  }

  /** The `ret` returns, and the unwind of the finally block is gone. */
  lemma ReturnUnderFault()
    ensures ReturnUnwinds(Last(CalledFromFinally().frames)) && OnePass(BeginReturn(CalledFromFinally()))
    ensures var after := Ret(Accepting(), CalledFromFinally()); after.result == Return && after.vm.mode == Idle
  {
    var vm, vm0 := CalledFromFinally(), BeginReturn(CalledFromFinally());
    var section := vm.frames[1].sections[0];
    assert GuardsReturn(section, 0) by { assert section.handlers[0].kind.Fault?; }
    OneSection(vm.frames[0].sections[0]);
    OneSection(section);
    assert vm.frames[0].sections == [vm.frames[0].sections[0]] && vm.frames[1].sections == [section];
    assert Fresh(vm0);
    forall a ensures !Due(vm0, a) {
    }
    NothingDueIsOnePass(vm0);
    ReturnUnwindEndsInReturn(Accepting(), [vm0]);
  }

  /** A catch 2..3 and a finally block 3..4 share the try block 0..2, and `ret` is in the catch. */
  lemma FastReturnSkipsFinally()
    ensures var section := Section(Range(0, 2), [Handler(Range(2, 3), Catch(0)), Handler(Range(3, 4), Finally)]);
            var frame := MethodAt(2, [section], []);
            && !ReturnUnwinds(frame) && BesideFinally(section, 2)
            && HandlerAddress(0, 0, 1) in FrameAgenda([section], 2, ToInstruction(LEAVE_FRAME), false, 0, 0, 0, 1)
  {
    var section := Section(Range(0, 2), [Handler(Range(2, 3), Catch(0)), Handler(Range(3, 4), Finally)]);
    assert section.handlers[0].instructions.Contains(2) && section.handlers[1].kind.Finally?;
    SectionOwes(section, 2);
    assert FirstRunnable(section.handlers, 2, false, 0) == Some(1);
    AgendaMembers([section], 2, ToInstruction(LEAVE_FRAME), false, 0, 0, 1, HandlerAddress(0, 0, 1));
  }

  // ------------------------------------------------------------ a throw out of a catch

  /** Control is in the catch 1..2 of the try block 0..1, and the new exception goes to the catch 2..3 of the
      try block 0..2 around both. */
  function ThrownFromCatch(): Vm {
    var inner, outer := Section(Range(0, 1), [Handler(Range(1, 2), Catch(0))]),
        Section(Range(0, 2), [Handler(Range(2, 3), Catch(0))]);
    var u := UnwindState(Some(Ref(1)), ToHandler(HandlerAddress(0, 1, 0)), HandlerAddress(0, 0, 0), None);
    Vm([MethodAt(1, [inner, outer], [Ref(0)])], [], [], [], Unwinding(u), [])
  }

  /** The exception of the catch that was left stays active below the new one. */
  lemma OldExceptionStaysActive()
    ensures OnePass(ThrownFromCatch()) && ExpectedExceptions(ThrownFromCatch()) == [Ref(1)]
    ensures var after := Handle(Accepting(), ThrownFromCatch());
            after.result == Exception && |after.vm.frames| == 1 && after.vm.frames[0].exceptionStack == [Ref(0), Ref(1)]
  {
    var vm0 := ThrownFromCatch();
    var inner, outer := vm0.frames[0].sections[0], vm0.frames[0].sections[1];
    assert SectionInside(inner, outer.instructions);
    TwoSections(inner, outer);
    assert vm0.frames[0].sections == [inner, outer];
    assert Fresh(vm0);
    forall a ensures !Due(vm0, a) {
    }
    NothingDueIsOnePass(vm0);
    CaughtInBottomFrame(vm0);
    LeftCatchIsInner();
  }

  lemma LeftCatchIsInner()
    ensures CatchesHolding(ThrownFromCatch().frames[0], 1) == {(0, 0)}
  {
    assert HoldsCatch(ThrownFromCatch().frames[0].sections[0].handlers[0], 1);
  }

  // ------------------------------------------------------------ a catch behind a finally block

  /** The try block 0..2 has a finally block 2..3 and behind it a catch 3..4, in which control is. */
  function InLateCatch(): Vm {
    var late := Section(Range(0, 2), [Handler(Range(2, 3), Finally), Handler(Range(3, 4), Catch(0))]);
    Vm([MethodAt(3, [late], [Ref(0)])], [], [], [], Idle, [])
  }

  /** The state in which the finally block ends. */
  function LateFinallyRan(): Vm {
    var late := InLateCatch().frames[0].sections;
    Vm([MethodAt(2, late, [Ref(0)])], [], [], [],
       Unwinding(UnwindState(None, ToInstruction(5), HandlerAddress(0, 0, 1), None)), [])
  }

  lemma OnlyTurnIsOwed(vm0: Vm, a: HandlerAddress)
    requires Fresh(vm0) && Turn(vm0, a) && forall b :: Turn(vm0, b) ==> b == a
    ensures OwedBy(vm0) == [a]
  {
    OwedIsDue(vm0);
    var owed := OwedBy(vm0);
    assert a in owed;
    forall i | 0 <= i < |owed| ensures owed[i] == a { assert owed[i] in owed; }
    assert !(1 < |owed| && !Before(owed[0], owed[1]));
  }

  lemma LateCatchOwes()
    ensures var vm0 := BeginLeave(InLateCatch(), 5);
            && Fresh(vm0) && Turn(vm0, HandlerAddress(0, 0, 0))
            && forall b :: Turn(vm0, b) ==> b == HandlerAddress(0, 0, 0)
  {
    var vm0 := BeginLeave(InLateCatch(), 5);
    var late := vm0.frames[0].sections[0];
    assert Apart(late.handlers[0].instructions, late.handlers[1].instructions);
    OneSection(late);
    assert vm0.frames[0].sections == [late];
    assert late.handlers[1].instructions.Contains(3);
  }

  lemma LateCatchDropsNothing()
    ensures FramePops(InLateCatch().frames[0].sections, 3, ToInstruction(5), false, 0, 1) == 0
  {
    var sections := InLateCatch().frames[0].sections;
    assert Runs(sections[0].handlers[0], 3, false) && LeftCatches(sections[0].handlers, 3, false, 0) == 0;
  }

  lemma LateFinallyIsEntered()
    ensures var halt := Pass(Accepting(), BeginLeave(InLateCatch(), 5));
            halt == Stopped(LateFinallyRan().(mode := ExecutingHandler(LateFinallyRan().mode.unwind)))
  {
    LateCatchOwes();
    OnlyTurnStops(BeginLeave(InLateCatch(), 5), HandlerAddress(0, 0, 0));
    LateFinallyIs(Pass(Accepting(), BeginLeave(InLateCatch(), 5)).vm);
  }

  lemma LateFinallyIs(vm1: Vm)
    requires var vm0 := BeginLeave(InLateCatch(), 5);
             StopsAt(vm0, vm0.mode.unwind, 0, HandlerAddress(0, 0, 0), vm1)
    ensures vm1 == LateFinallyRan().(mode := ExecutingHandler(LateFinallyRan().mode.unwind))
  {
    var vm0 := BeginLeave(InLateCatch(), 5);
    LateCatchDropsNothing();
    assert Pops(vm0.frames[0], 0, vm0.mode.unwind, 0) == 0;
    assert Pops(vm0.frames[0], 0, vm0.mode.unwind, 1) == 0;
    assert DropLast([Ref(0)], 0) == [Ref(0)];
    assert vm1.frames[0] == LateFinallyRan().frames[0];
    assert vm1.frames == [vm1.frames[0]] && vm1.stack == [];
  }

  lemma LateFinallyRuns()
    ensures Resumes(Accepting(), BeginLeave(InLateCatch(), 5), LateFinallyRan())
  {
    LateFinallyIsEntered();
    var vm1 := LateFinallyRan().(mode := ExecutingHandler(LateFinallyRan().mode.unwind));
    assert Predecessor(vm1.frames[0].sections, vm1.mode.unwind.cursor) == HandlerAddress(0, 0, 0);
    assert HandlerRan(vm1, vm1);
  }

  lemma LateCatchArrives()
    ensures Fresh(BeginLeave(InLateCatch(), 5)) && Resumes(Accepting(), BeginLeave(InLateCatch(), 5), LateFinallyRan())
    ensures Pass(Accepting(), LateFinallyRan()).Reached?
  {
    LateCatchOwes();
    OnlyTurnIsOwed(BeginLeave(InLateCatch(), 5), HandlerAddress(0, 0, 0));
    LateFinallyRuns();
    ResumeServesHead(Accepting(), BeginLeave(InLateCatch(), 5), LateFinallyRan());
    PassMakesProgress(Accepting(), LateFinallyRan());
  }

  lemma LateCatchRun()
    ensures var run := [BeginLeave(InLateCatch(), 5), LateFinallyRan()];
            UnwindRun(Accepting(), run) && Fresh(run[0]) && Pass(Accepting(), Last(run)).Reached?
  {
    LateCatchArrives();
  }

  /** The `leave` runs the finally block, and the exception of the catch it left stays active. */
  lemma ExceptionOfLateCatchStays()
    ensures var vm0 := BeginLeave(InLateCatch(), 5);
            && UnwindRun(Accepting(), [vm0, LateFinallyRan()]) && Pass(Accepting(), LateFinallyRan()).Reached?
            && var after := Handle(Accepting(), LateFinallyRan()).vm;
            |after.frames| == 1 && after.frames[0].ip == 5 && after.frames[0].exceptionStack == [Ref(0)]
  {
    LateCatchRun();
    LateCatchDropsNothing();
    LeaveUnwindEndsAtTarget(Accepting(), [BeginLeave(InLateCatch(), 5), LateFinallyRan()]);
  }

  // ------------------------------------------------------------ exception instructions inside a filter

  /** The clause at 2 of the filter of a try block 0..1 has called a method. */
  function InFilter(callee: Frame): Vm {
    var filtered := Section(Range(0, 1), [Handler(Range(3, 5), Filter(2))]);
    Vm([MethodAt(2, [filtered], [Ref(0)]), callee], [], [], [],
       Filtering(FilterState(Ref(0), HandlerAddress(0, 0, 0), 0, 0)), [])
  }

  function Catching(): Section {
    Section(Range(0, 1), [Handler(Range(1, 2), Catch(0))])
  }

  lemma InFilterIsSupported(callee: Frame)
    requires |callee.sections| == 1 && WellFormed(callee.sections[0])
    ensures AllSupported(InFilter(callee).frames)
  {
    var frames := InFilter(callee).frames;
    OneSection(frames[0].sections[0]);
    OneSection(callee.sections[0]);
    assert frames[0].sections == [frames[0].sections[0]] && callee.sections == [callee.sections[0]];
  }

  /** `endfilter` once the called method is gone. */
  function EndedFilter(vm: Vm): StepResult
    requires |vm.frames| > 0
  {
    EndFilter(vm.(frames := vm.frames[..1]), 1).result
  }

  /** The called method leaves a try block, and `endfilter` fails. */
  lemma LeaveInsideFilter()
    ensures var vm := InFilter(MethodAt(0, [Catching()], []));
            && OnePass(BeginLeave(vm, 3)) && Left(Accepting(), vm, 3, [BeginLeave(vm, 3)], Leave(Accepting(), vm, 3).vm)
            && var after := Leave(Accepting(), vm, 3).vm; after.frames != [] && EndedFilter(after) == Error(InvalidCil)
  {
    var vm := InFilter(MethodAt(0, [Catching()], []));
    var vm0 := BeginLeave(vm, 3);
    InFilterIsSupported(Last(vm.frames));
    assert Fresh(vm0);
    forall a ensures !LeftFinally(vm, 3, a) {
    }
    LeavesNothing(vm, 3);
    LeaveUnwindEndsAtTarget(Accepting(), [vm0]);
  }

  /** The called method returns from a try block with a fault block, and `endfilter` fails. */
  lemma ReturnInsideFilter()
    ensures var vm := InFilter(MethodAt(0, [Section(Range(0, 2), [Handler(Range(2, 3), Fault)])], []));
            && ReturnUnwinds(Last(vm.frames)) && OnePass(BeginReturn(vm))
            && var after := Ret(Accepting(), vm);
            after.result == Return && after.vm.frames != [] && EndedFilter(after.vm) == Error(InvalidCil)
  {
    var section := Section(Range(0, 2), [Handler(Range(2, 3), Fault)]);
    var vm := InFilter(MethodAt(0, [section], []));
    var vm0 := BeginReturn(vm);
    assert section.handlers[0].kind.Fault? && GuardsReturn(section, 0);
    assert vm.frames[1].sections[0] == section && ReturnUnwinds(Last(vm.frames));
    InFilterIsSupported(Last(vm.frames));
    assert Fresh(vm0);
    forall a ensures !Due(vm0, a) {
    }
    NothingDueIsOnePass(vm0);
    ReturnUnwindEndsInReturn(Accepting(), [vm0]);
  }

  /** The called method throws and catches, and `endfilter` fails. */
  lemma ThrowInsideFilter()
    ensures var vm := InFilter(MethodAt(0, [Catching()], []));
            var thrown := vm.(mode := Unwinding(UnwindState(Some(Ref(1)), ToHandler(HandlerAddress(1, 0, 0)),
                                                            HandlerAddress(1, 0, 0), None)));
            && Throw(Accepting(), vm, Ref(1)) == Outcome(thrown, Exception) && OnePass(thrown)
            && var after := Handle(Accepting(), thrown).vm;
            after.frames != [] && EndedFilter(after) == Error(InvalidCil)
  {
    var vm := InFilter(MethodAt(0, [Catching()], []));
    ThrowFinds(vm, Ref(1), HandlerAddress(1, 0, 0));
    var vm0 := Throw(Accepting(), vm, Ref(1)).vm;
    InFilterIsSupported(Last(vm.frames));
    assert Fresh(vm0);
    forall a ensures !Due(vm0, a) {
    }
    NothingDueIsOnePass(vm0);
    CatchUnwindEndsInHandler(Accepting(), [vm0]);
  }

  // ------------------------------------------------------------ a stale unwind

  /** The try block 0..1 has a catch 1..3, and both are the try block of the finally block 3..10. Inside that finally
      block the try block 4..5 has a catch 5..6. */
  function Nested(): seq<Section> {
    [Section(Range(4, 5), [Handler(Range(5, 6), Catch(0))]), Section(Range(0, 1), [Handler(Range(1, 3), Catch(0))]),
     Section(Range(0, 3), [Handler(Range(3, 10), Finally)])]
  }

  lemma NestedIsSupported()
    ensures Supported(Nested())
  {
    var a, b, c := Nested()[0], Nested()[1], Nested()[2];
    assert SectionInside(a, c.handlers[0].instructions) && SectionInside(b, c.instructions);
    assert Unrelated(a, b) && Unrelated(b, a);
    var sections := Nested();
    forall i, j | 0 <= i < |sections| && 0 <= j < |sections| && i != j ensures Compatible(sections[i], sections[j]) {
    }
  }

  /** The unwind of a finally block of frame 1. */
  function StaleUnwind(): UnwindState {
    UnwindState(None, ToInstruction(7), HandlerAddress(1, 1, 0), None)
  }

  /** Frame 0 has called frame 1, whose finally block has called frame 2. Frame 2 has left its try block, which set the
      unwind of frame 1 aside, and is in its finally block. */
  function AboveFinally(): Vm {
    Vm([MethodAt(0, Nested(), []), MethodAt(1, [Guarded()], []), MethodAt(1, [Guarded()], [])], [], [], [],
       ExecutingHandler(UnwindState(None, ToInstruction(7), HandlerAddress(2, 1, 0), None)), [StaleUnwind()])
  }

  /** That finally block has thrown, and the exception is on its way to the catch of frame 0. */
  function ThrownPastFinally(): Vm {
    AboveFinally().(mode := Unwinding(UnwindState(Some(Ref(0)), ToHandler(HandlerAddress(0, 1, 0)),
        HandlerAddress(2, 0, 0), None)))
  }

  /** The catch has started; the unwind set aside belongs to a frame that is gone. */
  function CaughtWithStale(): Vm {
    Vm([MethodAt(1, Nested(), [Ref(0)]).(stackHeight := 1)], [], [ObjectValue(Ref(0))], [], Idle, [StaleUnwind()])
  }

  lemma ThrownPast()
    ensures Throw(Accepting(), AboveFinally(), Ref(0)) == Outcome(ThrownPastFinally(), Exception)
    ensures OnePass(ThrownPastFinally())
  {
    ThrowFinds(AboveFinally(), Ref(0), HandlerAddress(0, 1, 0));
    var vm0 := ThrownPastFinally();
    NestedIsSupported();
    OneSection(Guarded());
    assert vm0.frames[1].sections == [Guarded()] && vm0.frames[2].sections == [Guarded()];
    assert Fresh(vm0);
    forall a ensures !Due(vm0, a) {
    }
    NothingDueIsOnePass(vm0);
  }

  lemma CatchLeavesStaleUnwind()
    ensures OnePass(ThrownPastFinally())
    ensures Handle(Accepting(), ThrownPastFinally()) == Outcome(CaughtWithStale(), Exception)
  {
    ThrownPast();
    CaughtInBottomFrame(ThrownPastFinally());
    assert [] + [Ref(0)] == [Ref(0)];
  }

  /** The catch has left for 11, and the finally block of frame 0 has started. */
  function FinallyWithStale(ip: nat): Vm {
    Vm([MethodAt(ip, Nested(), [])], [], [ObjectValue(Ref(0))], [],
       ExecutingHandler(UnwindState(None, ToInstruction(11), HandlerAddress(0, 3, 0), None)), [StaleUnwind()])
  }

  lemma CatchIsLeft()
    ensures Leave(Accepting(), CaughtWithStale(), 11) == Outcome(FinallyWithStale(3), Exception)
  {
    var vm0, a := BeginLeave(CaughtWithStale(), 11), HandlerAddress(0, 2, 0);
    NestedIsSupported();
    assert Fresh(vm0) && Nested()[1].handlers[0].instructions.Contains(1);
    OnlyTurnStops(vm0, a);
    var vm1 := Pass(Accepting(), vm0).vm;
    CatchIsDropped();
    assert DropLast([Ref(0)], 1) == [];
    assert vm1.frames[0] == FinallyWithStale(3).frames[0];
    assert vm1.frames == FinallyWithStale(3).frames && vm1.stack == vm0.stack;
  }

  lemma CatchIsDropped()
    ensures FramePops(Nested(), 1, ToInstruction(11), false, 0, 3) == 1
            && FramePops(Nested(), 1, ToInstruction(11), false, 3, 3) == 0
  {
    var sections := Nested();
    assert sections[1].handlers[0].instructions.Contains(1);
    assert LeftHere(sections[0], 1, ToInstruction(11), false, 0) == 0;
    assert LeftHere(sections[1], 1, ToInstruction(11), false, 0) == 1;
    assert LeftHere(sections[2], 1, ToInstruction(11), false, 0) == 0;
    assert FramePops(sections, 1, ToInstruction(11), false, 2, 3) == 0;
    assert FramePops(sections, 1, ToInstruction(11), false, 1, 3) == 1;
  }

  /** In the try block inside the finally block an exception was thrown. */
  function ThrownInside(): Vm {
    FinallyWithStale(4).(mode := Unwinding(UnwindState(Some(Ref(1)), ToHandler(HandlerAddress(0, 0, 0)),
        HandlerAddress(0, 0, 0), None)))
  }

  /** It was caught there. */
  function CaughtInside(): Vm {
    Vm([MethodAt(5, Nested(), [Ref(1)]).(stackHeight := 1)], [], [ObjectValue(Ref(1))], [], Idle, [StaleUnwind()])
  }

  lemma FinallyThrows()
    ensures Throw(Accepting(), FinallyWithStale(4), Ref(1)) == Outcome(ThrownInside(), Exception)
    ensures OnePass(ThrownInside()) && Handle(Accepting(), ThrownInside()) == Outcome(CaughtInside(), Exception)
  {
    ThrowFinds(FinallyWithStale(4), Ref(1), HandlerAddress(0, 0, 0));
    var vm0 := ThrownInside();
    NestedIsSupported();
    assert Fresh(vm0);
    forall a ensures !Due(vm0, a) {
    }
    NothingDueIsOnePass(vm0);
    CaughtInBottomFrame(vm0);
    assert [] + [Ref(1)] == [Ref(1)];
  }

  lemma InnerCatchIsLeft()
    ensures OnePass(BeginLeave(CaughtInside(), 7))
    ensures var after := Leave(Accepting(), CaughtInside(), 7);
            && after.result == Exception && after.vm.mode == ExecutingHandler(StaleUnwind())
            && |after.vm.frames| == 1 && after.vm.frames[0].ip == 7
  {
    var vm, vm0 := CaughtInside(), BeginLeave(CaughtInside(), 7);
    NestedIsSupported();
    assert Fresh(vm0);
    forall a ensures !LeftFinally(vm, 7, a) {
    }
    LeavesNothing(vm, 7);
    LeaveAfterCatchResumesStaleUnwind(Accepting(), vm, 7, [vm0]);
    LeaveUnwindEndsAtTarget(Accepting(), [vm0]);
  }

  /** The finally block of frame 0 throws and catches an exception of its own. The `leave` of that catch makes the
      stale unwind current, and the `endfinally` at the end of the finally block aborts. */
  lemma StaleUnwindAborts()
    ensures Throw(Accepting(), AboveFinally(), Ref(0)) == Outcome(ThrownPastFinally(), Exception)
    ensures Handle(Accepting(), ThrownPastFinally()) == Outcome(CaughtWithStale(), Exception)
    ensures Leave(Accepting(), CaughtWithStale(), 11) == Outcome(FinallyWithStale(3), Exception)
    ensures Throw(Accepting(), FinallyWithStale(4), Ref(1)) == Outcome(ThrownInside(), Exception)
    ensures Handle(Accepting(), ThrownInside()) == Outcome(CaughtInside(), Exception)
    ensures var after := Leave(Accepting(), CaughtInside(), 7).vm;
            && |after.frames| == 1 && HandlerAt(CaughtInside().frames, HandlerAddress(0, 2, 0)).instructions.Contains(
                after.frames[0].ip)
            && EndFinally(Accepting(), after).result == Panic
  {
    ThrownPast();
    CatchLeavesStaleUnwind();
    CatchIsLeft();
    FinallyThrows();
    InnerCatchIsLeft();
    EndOfGoneFrame(Accepting(), Leave(Accepting(), CaughtInside(), 7).vm, StaleUnwind());
  }

  /** `endfinally` aborts when the frame of its unwind is gone. */
  lemma EndOfGoneFrame(host: Host, vm: Vm, u: UnwindState)
    requires vm.mode == ExecutingHandler(u) && u.cursor.frame >= |vm.frames| && TargetFrame(u) <= u.cursor.frame
    ensures EndFinally(host, vm).result == Panic
  {
    var vm1 := vm.(mode := Unwinding(u));
    assert EndFinally(host, vm) == Handle(host, vm1) == Unwind(host, vm1, u);
  }
}
