/** Which frames an unwind refers to, in every reachable state. */
module Liveness {
  import opened Wrappers
  import opened ExceptionData
  import opened ExceptionSemantics
  import opened UnwindPass
  import opened UnwindRuns
  import opened OwedHandlers
  import opened UnwindTheorems
  import opened LeaveTheorems

  /** The unwind refers only to frames of the call stack. */
  predicate LiveUnwind(frames: seq<Frame>, u: UnwindState) {
    && u.nested.None?
    && u.cursor.frame < |frames| && TargetFrame(u) <= u.cursor.frame
    && (u.target.ToHandler? ==> u.exception.Some? && ValidAddress(frames, u.target.address))
  }

  /** The unwinds set aside are live, and none will remove the frame of an older one. */
  predicate Stacked(frames: seq<Frame>, pending: seq<UnwindState>) {
    && (forall i {:trigger LiveUnwind(frames, pending[i])} :: 0 <= i < |pending| ==> LiveUnwind(frames, pending[i]))
    && (forall i {:trigger Follows(pending, i)} :: 0 < i < |pending| ==> Follows(pending, i))
  }

  predicate Follows(pending: seq<UnwindState>, i: nat)
    requires 0 < i < |pending|
  {
    pending[i - 1].cursor.frame <= TargetFrame(pending[i])
  }

  /** The frame of the newest unwind set aside is not above `f`. */
  predicate NewestBelow(pending: seq<UnwindState>, f: nat) {
    pending != [] ==> Last(pending).cursor.frame <= f
  }

  /** The frames that unwinds refer to. While a filter runs, those above its frame are suspended. */
  function FramesOf(vm: Vm): seq<Frame> {
    if vm.mode.Filtering? && vm.mode.filter.handler.frame < |vm.frames|
    then vm.frames[..vm.mode.filter.handler.frame + 1] + vm.suspendedFrames
    else vm.frames
  }

  predicate LiveMode(vm: Vm) {
    match vm.mode
    case Idle => true
    case Throwing(_, _) => vm.frames != []
    case Searching(state) => state.nested.None? && state.cursor.frame < |vm.frames|
    case Filtering(state) => ValidAddress(vm.frames, state.handler)
    case Unwinding(u) =>
      && LiveUnwind(vm.frames, u) && u.cursor.frame == |vm.frames| - 1
      && NewestBelow(vm.pendingUnwinds, TargetFrame(u))
    case ExecutingHandler(u) => LiveUnwind(vm.frames, u) && NewestBelow(vm.pendingUnwinds, TargetFrame(u))
  }

  /** What the mode and the unwinds set aside refer to is live, and an unwind in progress has its cursor in the top
      frame. */
  predicate Live(vm: Vm) {
    Stacked(FramesOf(vm), vm.pendingUnwinds) && LiveMode(vm)
  }

  /** No exception is on its way to a catch below a frame whose unwind is set aside, and none has escaped while one
      is. */
  predicate Respectful(vm: Vm) {
    && (vm.frames == [] ==> vm.pendingUnwinds == [])
    && (vm.mode.Unwinding? && vm.mode.unwind.target.ToHandler? ==>
          NewestBelow(vm.pendingUnwinds, vm.mode.unwind.target.address.frame))
  }

  /** Two call stacks whose first `n` frames run the same methods. */
  predicate SameMethods(frames: seq<Frame>, frames': seq<Frame>, n: nat) {
    && n <= |frames| && n <= |frames'|
    && forall i {:trigger frames'[i]} :: 0 <= i < n ==> frames'[i].sections == frames[i].sections
  }

  lemma LiveUnwindMoves(frames: seq<Frame>, frames': seq<Frame>, n: nat, u: UnwindState)
    requires LiveUnwind(frames, u) && u.cursor.frame < n && SameMethods(frames, frames', n)
    ensures LiveUnwind(frames', u)
  {
    if u.target.ToHandler? {
      assert frames'[u.target.address.frame].sections == frames[u.target.address.frame].sections;
    }
  }

  /** The newest unwind set aside belongs to the highest frame. */
  lemma {:induction false} NewestIsHighest(frames: seq<Frame>, pending: seq<UnwindState>, i: nat)
    requires Stacked(frames, pending) && i < |pending|
    ensures pending[i].cursor.frame <= Last(pending).cursor.frame
    decreases |pending| - i
  {
    if i + 1 < |pending| {
      assert Follows(pending, i + 1) && LiveUnwind(frames, pending[i + 1]);
      NewestIsHighest(frames, pending, i + 1);
    }
  }

  /** Unwinds set aside survive any change of the frames above the newest of them. */
  lemma StackedMoves(frames: seq<Frame>, frames': seq<Frame>, n: nat, pending: seq<UnwindState>)
    requires Stacked(frames, pending) && SameMethods(frames, frames', n)
    requires pending != [] ==> Last(pending).cursor.frame < n
    ensures Stacked(frames', pending)
  {
    forall i | 0 <= i < |pending| ensures LiveUnwind(frames', pending[i]) {
      assert LiveUnwind(frames, pending[i]);
      NewestIsHighest(frames, pending, i);
      LiveUnwindMoves(frames, frames', n, pending[i]);
    }
  }

  lemma StackedAlike(frames: seq<Frame>, frames': seq<Frame>, pending: seq<UnwindState>)
    requires Stacked(frames, pending) && SameMethods(frames, frames', |frames|)
    ensures Stacked(frames', pending)
  {
    if pending != [] { assert LiveUnwind(frames, pending[|pending| - 1]); }
    StackedMoves(frames, frames', |frames|, pending);
  }

  /** The newest unwind set aside can be taken up again. */
  lemma NewestIsLive(frames: seq<Frame>, pending: seq<UnwindState>)
    requires pending != [] && Stacked(frames, pending)
    ensures LiveUnwind(frames, Last(pending))
    ensures Stacked(frames, pending[..|pending| - 1])
    ensures NewestBelow(pending[..|pending| - 1], TargetFrame(Last(pending)))
  {
    var last := |pending| - 1;
    assert LiveUnwind(frames, pending[last]);
    if last > 0 { assert Follows(pending, last); }
    var rest := pending[..last];
    forall i | 0 <= i < |rest| ensures LiveUnwind(frames, rest[i]) {
      assert LiveUnwind(frames, pending[i]);
    }
    forall i | 0 < i < |rest| ensures Follows(rest, i) {
      assert Follows(pending, i);
    }
  }

  // ------------------------------------------------------------ the engine

  /** The frames outside `low` to `f` that are left are as they were. */
  predicate Untouched(vm: Vm, low: nat, f: nat, vm': Vm) {
    && |vm'.frames| <= |vm.frames|
    && forall i {:trigger vm'.frames[i]} :: 0 <= i < |vm'.frames| && !(low <= i <= f) ==> vm'.frames[i] == vm.frames[i]
  }

  /** How a pass that starts in frame `f` ends. The frame it is in and the top of the call stack move down together. */
  predicate LiveHalt(vm: Vm, u: UnwindState, f: nat, halt: Halt) {
    && !halt.Broken?
    && SameMethods(vm.frames, halt.vm.frames, |halt.vm.frames|) && TargetFrame(u) < |halt.vm.frames|
    && Untouched(vm, TargetFrame(u), f, halt.vm)
    && (halt.Stopped? ==>
          && halt.vm.mode.ExecutingHandler?
          && TargetFrame(u) <= halt.vm.mode.unwind.cursor.frame <= f
          && |halt.vm.frames| - halt.vm.mode.unwind.cursor.frame == |vm.frames| - f)
    && (halt.Reached? ==> |halt.vm.frames| - TargetFrame(u) == |vm.frames| - f)
    && (halt.Preempted? ==> TargetFrame(u) < f)
  }

  /** A pass from any live frame never refers to a frame that is gone. It pops one frame off the top for every frame
      that it finishes, whether or not these are the same. */
  lemma {:induction false} PassKeepsDistance(host: Host, vm: Vm, u: UnwindState, f: nat, s: nat, h: nat)
    requires vm.mode == Unwinding(u) && TargetFrame(u) <= f < |vm.frames|
    ensures LiveHalt(vm, u, f, Advance(host, vm, u, f, s, h))
    decreases f
  {
    if SweepAt(vm, u, f, s, h).stop.None? && TargetFrame(u) < f {
      var vm2 := PoppedFrom(host, vm, u, f, s, h);
      assert SameMethods(vm.frames, vm2.frames, |vm2.frames|) && Untouched(vm, f, f, vm2);
      if !vm2.mode.Throwing? {
        PassKeepsDistance(host, vm2, u, f - 1, 0, 0);
        LiveHaltLifts(vm, vm2, u, f, Advance(host, vm2, u, f - 1, 0, 0));
      }
    }
  }

  function SweepAt(vm: Vm, u: UnwindState, f: nat, s: nat, h: nat): Sweep
    requires f < |vm.frames|
  {
    var frame := vm.frames[f];
    SweepFrom(frame.sections, frame.ip, u.target, u.exception.Some?, s, h, SectionLimit(frame.sections, f, u.target))
  }

  /** The state in which the pass goes on below frame `f`: that frame is swept, and the top frame is popped. */
  function PoppedFrom(host: Host, vm: Vm, u: UnwindState, f: nat, s: nat, h: nat): Vm
    requires f < |vm.frames|
  {
    var pops := SweepAt(vm, u, f, s, h).pops;
    var swept := vm.frames[f].(exceptionStack := DropLast(vm.frames[f].exceptionStack, pops));
    UnwindFrame(host, vm.(frames := vm.frames[f := swept]))
  }

  lemma LiveHaltLifts(vm: Vm, vm2: Vm, u: UnwindState, f: nat, halt: Halt)
    requires 0 < f && |vm2.frames| == |vm.frames| - 1 && LiveHalt(vm2, u, f - 1, halt) && TargetFrame(u) < f
    requires SameMethods(vm.frames, vm2.frames, |vm2.frames|) && Untouched(vm, f, f, vm2)
    ensures LiveHalt(vm, u, f, halt)
  {
    forall i | 0 <= i < |halt.vm.frames| ensures halt.vm.frames[i].sections == vm.frames[i].sections {
      assert vm2.frames[i].sections == vm.frames[i].sections;
    }
    forall i | 0 <= i < |halt.vm.frames| && !(TargetFrame(u) <= i <= f) ensures halt.vm.frames[i] == vm.frames[i] {
      assert vm2.frames[i] == vm.frames[i];
    }
  }

  /** A pass that starts in the top frame pops exactly the frames above the one it stops in. */
  lemma PassIsLive(host: Host, vm: Vm, u: UnwindState, s: nat, h: nat)
    requires vm.mode == Unwinding(u) && |vm.frames| > 0 && TargetFrame(u) < |vm.frames|
    ensures var halt := Advance(host, vm, u, |vm.frames| - 1, s, h);
            && (halt.Stopped? ==> halt.vm.mode.ExecutingHandler?
                                  && halt.vm.mode.unwind.cursor.frame == |halt.vm.frames| - 1)
            && (halt.Reached? ==> |halt.vm.frames| == TargetFrame(u) + 1)
  {
    PassKeepsDistance(host, vm, u, |vm.frames| - 1, s, h);
  }

  lemma {:induction false} ScanIsValid(host: Host, exception: ObjectRef, frames: seq<Frame>, f: nat, s: nat, h: nat,
                                       stop: nat)
    ensures var scan := ScanFrom(host, exception, frames, f, s, h, stop); scan.Found? ==>
        ValidAddress(frames, scan.address)
    decreases f, SectionsLeft(frames, f, s), HandlersLeft(frames, f, s, h)
  {
    if stop <= f < |frames| {
      if |frames[f].sections| <= s {
        if stop < f { ScanIsValid(host, exception, frames, f - 1, 0, 0, stop); }
      } else if !frames[f].sections[s].instructions.Contains(frames[f].ip) || |frames[f].sections[s].handlers| <= h {
        ScanIsValid(host, exception, frames, f, s + 1, 0, stop);
      } else {
        ScanIsValid(host, exception, frames, f, s, h + 1, stop);
      }
    }
  }

  lemma {:induction false} SearchKeepsLive(host: Host, vm: Vm)
    requires Live(vm) && vm.mode.Searching? && Respectful(Handle(host, vm).vm)
    ensures Live(Handle(host, vm).vm)
  {
    var state := vm.mode.search;
    assert Handle(host, vm) == Search(host, vm, state.exception, state.cursor);
    ScanIsValid(host, state.exception, vm.frames, state.cursor.frame, state.cursor.section, state.cursor.handler, 0);
    var after, scan := Handle(host, vm).vm,
                       ScanFrom(host, state.exception, vm.frames, state.cursor.frame, state.cursor.section,
                                state.cursor.handler, 0);
    if scan.Found? && scan.test.Ask? {
      FilterIsLive(vm, state.exception, scan.address, scan.test.clauseOffset);
    } else if after.frames != vm.frames {
      assert after.pendingUnwinds == [];
    }
  }

  lemma FilterIsLive(vm: Vm, exception: ObjectRef, a: HandlerAddress, clause: nat)
    requires Live(vm) && vm.mode.Searching? && ValidAddress(vm.frames, a)
    ensures Live(EnterFilter(vm, exception, a, clause).vm)
  {
    var after := EnterFilter(vm, exception, a, clause).vm;
    if after.mode.Filtering? {
      assert SameMethods(vm.frames, FramesOf(after), |vm.frames|);
      StackedAlike(vm.frames, FramesOf(after), vm.pendingUnwinds);
      assert after.frames[a.frame].sections == vm.frames[a.frame].sections;
    }
  }

  lemma {:induction false} ThrowingKeepsLive(host: Host, vm: Vm)
    requires Live(vm) && vm.mode.Throwing? && Respectful(Handle(host, vm).vm)
    ensures Live(Handle(host, vm).vm)
  {
    assert Handle(host, vm) == BeginThrowing(host, vm, vm.mode.exception);
    if host.hasExceptionType {
      var vm1 := vm.(suspendedFrames := [], suspendedStack := [],
                     mode := Searching(SearchState(vm.mode.exception, Top(vm), None)));
      assert Handle(host, vm) == Handle(host, vm1);
      SearchKeepsLive(host, vm1);
    }
  }

  /** An unwind that can be resumed: what it and the unwinds set aside refer to is live, wherever its cursor is. */
  predicate Resumable(vm: Vm) {
    && vm.mode.Unwinding? && Stacked(vm.frames, vm.pendingUnwinds)
    && LiveUnwind(vm.frames, vm.mode.unwind) && NewestBelow(vm.pendingUnwinds, TargetFrame(vm.mode.unwind))
  }

  lemma {:induction false} UnwindKeepsLive(host: Host, vm: Vm)
    requires Resumable(vm) && Respectful(Handle(host, vm).vm)
    ensures Live(Handle(host, vm).vm)
  {
    HandleIsPass(host, vm);
    PassKeepsStacked(host, vm);
    var halt := Pass(host, vm);
    if halt.Stopped? {
      StopIsLive(vm, halt.vm);
    } else if halt.Preempted? {
      ThrowingKeepsLive(host, halt.vm);
    } else {
      ArriveKeepsLive(host, vm, halt.vm);
    }
  }

  lemma PassKeepsStacked(host: Host, vm: Vm)
    requires Resumable(vm)
    ensures LiveHalt(vm, vm.mode.unwind, vm.mode.unwind.cursor.frame, Pass(host, vm))
    ensures Stacked(Pass(host, vm).vm.frames, vm.pendingUnwinds)
  {
    var u, halt := vm.mode.unwind, Pass(host, vm);
    PassKeepsDistance(host, vm, u, u.cursor.frame, u.cursor.section, u.cursor.handler);
    StackedMoves(vm.frames, halt.vm.frames, |halt.vm.frames|, vm.pendingUnwinds);
  }

  lemma {:induction false} StopIsLive(vm: Vm, vm1: Vm)
    requires Resumable(vm) && Stacked(vm1.frames, vm1.pendingUnwinds) && vm1.pendingUnwinds == vm.pendingUnwinds
    requires vm1.mode.ExecutingHandler? && vm1.mode.unwind == vm.mode.unwind.(cursor := vm1.mode.unwind.cursor)
    requires TargetFrame(vm.mode.unwind) <= vm1.mode.unwind.cursor.frame <= vm.mode.unwind.cursor.frame
    requires vm1.mode.unwind.cursor.frame < |vm1.frames| && SameMethods(vm.frames, vm1.frames, |vm1.frames|)
    ensures Live(vm1)
  {
    var u := vm.mode.unwind;
    if u.target.ToHandler? {
      assert vm1.frames[u.target.address.frame].sections == vm.frames[u.target.address.frame].sections;
    }
  }

  lemma {:induction false} ArriveKeepsLive(host: Host, vm: Vm, vm1: Vm)
    requires Resumable(vm) && vm1.mode == vm.mode && vm1.pendingUnwinds == vm.pendingUnwinds
    requires TargetFrame(vm.mode.unwind) < |vm1.frames| && SameMethods(vm.frames, vm1.frames, |vm1.frames|)
    requires Stacked(vm1.frames, vm1.pendingUnwinds)
    ensures Live(Arrive(host, vm1, vm.mode.unwind).vm)
  {
    var u, pending := vm.mode.unwind, vm.pendingUnwinds;
    var after := Arrive(host, vm1, u).vm;
    if u.target.ToHandler? {
      assert vm1.frames[u.target.address.frame].sections == vm.frames[u.target.address.frame].sections;
    }
    assert SameMethods(vm1.frames, after.frames, |vm1.frames|);
    StackedAlike(vm1.frames, after.frames, pending);
    if pending != [] { NewestIsLive(after.frames, pending); }
  }

  lemma {:induction false} HandleKeepsLive(host: Host, vm: Vm)
    requires Live(vm) && Respectful(Handle(host, vm).vm)
    ensures Live(Handle(host, vm).vm)
  {
    match vm.mode
    case Throwing(_, _) => ThrowingKeepsLive(host, vm);
    case Searching(_) => SearchKeepsLive(host, vm);
    case Unwinding(_) => UnwindKeepsLive(host, vm);
    case _ =>
  }

  // ------------------------------------------------------------ an unwind resumed from another frame

  /** An `endfinally` resumes the unwind in progress. Wherever the pass comes to a stop, and wherever it arrives, the
      frame it is then in is the top frame if and only if the unwind had its cursor in the top frame. If not, each
      frame that the pass has finished has cost a frame from the top instead, and the frames above the cursor that
      are left are untouched. */
  lemma EndFinallyReachesItsFrameExactlyWhen(host: Host, vm: Vm)
    requires vm.mode.ExecutingHandler? && LiveUnwind(vm.frames, vm.mode.unwind)
    ensures var u, halt := vm.mode.unwind, Pass(host, vm.(mode := Unwinding(vm.mode.unwind)));
            && Untouched(vm, TargetFrame(u), u.cursor.frame, halt.vm)
            && (halt.Stopped? ==>
                  && EndFinally(host, vm) == Outcome(halt.vm, Exception)
                  && |vm.frames| - |halt.vm.frames| == u.cursor.frame - halt.vm.mode.unwind.cursor.frame
                  && (halt.vm.mode.unwind.cursor.frame == |halt.vm.frames| - 1 <==> u.cursor.frame == |vm.frames| - 1))
            && (halt.Reached? ==>
                  && EndFinally(host, vm) == Arrive(host, halt.vm, u)
                  && |vm.frames| - |halt.vm.frames| == u.cursor.frame - TargetFrame(u)
                  && (|halt.vm.frames| == TargetFrame(u) + 1 <==> u.cursor.frame == |vm.frames| - 1))
  {
    var u, vm0 := vm.mode.unwind, vm.(mode := Unwinding(vm.mode.unwind));
    HandleIsPass(host, vm0);
    PassKeepsDistance(host, vm0, u, u.cursor.frame, u.cursor.section, u.cursor.handler);
  }

  /** Towards an instruction such a pass moves the frame of the unwind, and the frame that executes the `endfinally`
      stays on top, where it was. */
  lemma MisplacedEndFinallyStays(host: Host, vm: Vm)
    requires vm.mode.ExecutingHandler? && LiveUnwind(vm.frames, vm.mode.unwind)
    requires vm.mode.unwind.target.ToInstruction? && vm.mode.unwind.cursor.frame < |vm.frames| - 1
    requires Pass(host, vm.(mode := Unwinding(vm.mode.unwind))).Reached? && vm.mode.unwind.target.ip != LEAVE_FRAME
    ensures var u, after := vm.mode.unwind, EndFinally(host, vm).vm;
            && |after.frames| == |vm.frames| && after.frames[u.cursor.frame].ip == u.target.ip
            && (forall i :: 0 <= i < |vm.frames| && i != u.cursor.frame ==> after.frames[i] == vm.frames[i])
            && after.mode == if vm.pendingUnwinds == [] then Idle else ExecutingHandler(Last(vm.pendingUnwinds))
  {
    EndFinallyReachesItsFrameExactlyWhen(host, vm);
  }

  // ------------------------------------------------------------ instructions

  /** The number of frames that must not return: those of a running handler or filter and of every handler whose
      unwind is set aside. */
  function Anchor(vm: Vm): nat {
    match vm.mode
    case ExecutingHandler(u) => u.cursor.frame + 1
    case Filtering(state) => state.handler.frame + 1
    case _ => if vm.pendingUnwinds == [] then 0 else Last(vm.pendingUnwinds).cursor.frame + 1
  }

  /** Ordinary instructions, calls and returns: frames come and go above the running handlers. */
  predicate Executes(vm: Vm, vm': Vm) {
    && (vm.mode.Idle? || vm.mode.ExecutingHandler? || vm.mode.Filtering?)
    && vm'.mode == vm.mode && vm'.pendingUnwinds == vm.pendingUnwinds
    && Anchor(vm) <= |vm.frames| && SameMethods(vm.frames, vm'.frames, Anchor(vm))
    && vm'.suspendedFrames == vm.suspendedFrames
  }

  /** An exception instruction may be executed: not in a filter that has suspended a frame whose unwind is set aside. */
  predicate MayInterrupt(vm: Vm) {
    && vm.frames != []
    && (vm.mode.Idle? || vm.mode.ExecutingHandler?
        || (vm.mode.Filtering? && NewestBelow(vm.pendingUnwinds, vm.mode.filter.handler.frame)))
  }

  /** A throw or a `ret`. */
  ghost predicate ThrowsOrReturns(host: Host, vm: Vm, vm': Vm) {
    && MayInterrupt(vm)
    && ((exists exception :: vm' == Throw(host, vm, exception).vm) || vm' == Rethrow(host, vm).vm
        || vm' == Ret(host, vm).vm)
  }

  /** Any other step: an ordinary instruction, `leave`, an `endfinally` whatever unwind it resumes, the end of a filter,
      or a call of the engine. A filter ends in its own frame: while the mode is filtering no other one has started. */
  ghost predicate GoesOn(host: Host, vm: Vm, vm': Vm) {
    || Executes(vm, vm')
    || (MayInterrupt(vm) && exists target :: target != LEAVE_FRAME && vm' == Leave(host, vm, target).vm)
    || vm' == EndFinally(host, vm).vm
    || (vm.mode.Filtering? && vm.mode.filter.handler.frame == |vm.frames| - 1 && exists result ::
        vm' == EndFilter(vm, result).vm)
    || vm' == Handle(host, vm).vm
  }

  /** One step of a program that respects the placement rules of exception instructions. */
  ghost predicate PlacedStep(host: Host, vm: Vm, vm': Vm) {
    ThrowsOrReturns(host, vm, vm') || GoesOn(host, vm, vm')
  }

  lemma {:induction false} ExecutesKeepsLive(vm: Vm, vm': Vm)
    requires Live(vm) && Executes(vm, vm')
    ensures Live(vm')
  {
    match vm.mode
    case ExecutingHandler(u) =>
      LiveUnwindMoves(vm.frames, vm'.frames, u.cursor.frame + 1, u);
      StackedMoves(vm.frames, vm'.frames, u.cursor.frame + 1, vm.pendingUnwinds);
    case Filtering(state) =>
      assert vm'.frames[state.handler.frame].sections == vm.frames[state.handler.frame].sections;
      StackedAlike(FramesOf(vm), FramesOf(vm'), vm.pendingUnwinds);
    case _ =>
      StackedMoves(vm.frames, vm'.frames, Anchor(vm), vm.pendingUnwinds);
  }

  /** Where an exception instruction may be executed, the unwinds set aside belong to the frames that are not
      suspended. */
  lemma InterruptedIsStacked(vm: Vm)
    requires Live(vm) && MayInterrupt(vm)
    ensures Stacked(vm.frames, vm.pendingUnwinds) && NewestBelow(vm.pendingUnwinds, |vm.frames| - 1)
  {
    if vm.mode.Filtering? {
      StackedMoves(FramesOf(vm), vm.frames, vm.mode.filter.handler.frame + 1, vm.pendingUnwinds);
    }
    if vm.pendingUnwinds != [] { assert LiveUnwind(vm.frames, vm.pendingUnwinds[|vm.pendingUnwinds| - 1]); }
  }

  /** An exception thrown in a filter discards the suspended frames. The search that it starts is live if no suspended
      frame has its unwind set aside, and, thrown by the frame of the filter itself, only then. */
  lemma ThrowInFilterIsLiveExactlyWhen(vm: Vm, exception: ObjectRef)
    requires Live(vm) && vm.mode.Filtering?
    ensures var started := vm.(suspendedFrames := [], suspendedStack := [],
                               mode := Searching(SearchState(exception, Top(vm), None)));
            var below := NewestBelow(vm.pendingUnwinds, vm.mode.filter.handler.frame);
            && (below ==> Live(started))
            && (vm.mode.filter.handler.frame == |vm.frames| - 1 ==> (Live(started) <==> below))
  {
    var pending := vm.pendingUnwinds;
    if NewestBelow(pending, vm.mode.filter.handler.frame) {
      InterruptedIsStacked(vm);
    } else {
      assert pending[|pending| - 1] == Last(pending);
      assert vm.mode.filter.handler.frame == |vm.frames| - 1 ==> !LiveUnwind(vm.frames, pending[|pending| - 1]);
    }
  }

  lemma {:induction false} LeaveKeepsLive(vm: Vm, target: nat)
    requires Live(vm) && MayInterrupt(vm) && target != LEAVE_FRAME
    ensures Live(BeginLeave(vm, target))
  {
    InterruptedIsStacked(vm);
    var pending := BeginLeave(vm, target).pendingUnwinds;
    if pending != vm.pendingUnwinds {
      forall i | 0 <= i < |pending| ensures LiveUnwind(vm.frames, pending[i]) {
        if i < |vm.pendingUnwinds| { assert LiveUnwind(vm.frames, vm.pendingUnwinds[i]); }
      }
      forall i | 0 < i < |pending| ensures Follows(pending, i) {
        if i < |vm.pendingUnwinds| { assert Follows(vm.pendingUnwinds, i); }
      }
    }
  }

  lemma {:induction false} EndFilterKeepsLive(vm: Vm, result: int)
    requires Live(vm) && vm.mode.Filtering? && vm.mode.filter.handler.frame == |vm.frames| - 1
    requires Respectful(EndFilter(vm, result).vm)
    ensures Live(EndFilter(vm, result).vm)
  {
    var a, vm' := vm.mode.filter.handler, EndFilter(vm, result).vm;
    assert SameMethods(FramesOf(vm), vm'.frames, |FramesOf(vm)|);
    StackedAlike(FramesOf(vm), vm'.frames, vm.pendingUnwinds);
    assert vm'.frames[a.frame].sections == vm.frames[a.frame].sections;
  }

  lemma {:induction false} StepKeepsLive(host: Host, vm: Vm, vm': Vm)
    requires Live(vm) && PlacedStep(host, vm, vm') && Respectful(vm')
    ensures Live(vm')
  {
    if ThrowsOrReturns(host, vm, vm') {
      InterruptionKeepsLive(host, vm, vm');
    } else if Executes(vm, vm') {
      ExecutesKeepsLive(vm, vm');
    } else if MayInterrupt(vm) && exists target :: target != LEAVE_FRAME && vm' == Leave(host, vm, target).vm {
      var target :| target != LEAVE_FRAME && vm' == Leave(host, vm, target).vm;
      LeaveKeepsLive(vm, target);
      HandleKeepsLive(host, BeginLeave(vm, target));
    } else if vm' == EndFinally(host, vm).vm {
      if vm.mode.ExecutingHandler? { UnwindKeepsLive(host, vm.(mode := Unwinding(vm.mode.unwind))); }
    } else if vm.mode.Filtering? && vm.mode.filter.handler.frame == |vm.frames| - 1
    && exists result :: vm' == EndFilter(vm, result).vm {
      var result :| vm' == EndFilter(vm, result).vm;
      EndFilterKeepsLive(vm, result);
    } else {
      HandleKeepsLive(host, vm);
    }
  }

  lemma {:induction false} InterruptionKeepsLive(host: Host, vm: Vm, vm': Vm)
    requires Live(vm) && ThrowsOrReturns(host, vm, vm') && Respectful(vm')
    ensures Live(vm')
  {
    InterruptedIsStacked(vm);
    if exception :| vm' == Throw(host, vm, exception).vm {
      HandleKeepsLive(host, vm.(mode := Throwing(exception, false)));
    } else if vm' == Rethrow(host, vm).vm {
      if Last(vm.frames).exceptionStack != [] {
        HandleKeepsLive(host, vm.(mode := Throwing(Last(Last(vm.frames).exceptionStack), true)));
      }
    } else {
      ReturnKeepsLive(host, vm);
    }
  }

  lemma {:induction false} ReturnKeepsLive(host: Host, vm: Vm)
    requires Live(vm) && MayInterrupt(vm) && Respectful(Ret(host, vm).vm)
    ensures Live(Ret(host, vm).vm)
  {
    InterruptedIsStacked(vm);
    if Ret(host, vm) == Handle(host, BeginReturn(vm)) { HandleKeepsLive(host, BeginReturn(vm)); }
  }

  /** Every run of a program that respects the placement rules, whatever unwinds its `endfinally` instructions resume:
      every state is live if and only if no exception goes to a catch below a frame whose unwind is set aside, and none
      escapes while one is set aside. */
  lemma {:induction false} EveryStateIsLiveExactlyWhen(host: Host, run: seq<Vm>)
    requires |run| > 0 && Live(run[0])
    requires forall k :: 0 <= k < |run| - 1 ==> PlacedStep(host, run[k], run[k + 1])
    ensures (forall i :: 0 <= i < |run| ==> Live(run[i])) <==> (forall i :: 0 <= i < |run| ==> Respectful(run[i]))
  {
    if forall i :: 0 <= i < |run| ==> Respectful(run[i]) {
      forall i | 0 <= i < |run| ensures Live(run[i]) { RespectfulRunIsLive(host, run, i); }
    }
    forall i | 0 <= i < |run| && Live(run[i]) ensures Respectful(run[i]) { LiveIsRespectful(run[i]); }
  }

  lemma LiveIsRespectful(vm: Vm)
    requires Live(vm)
    ensures Respectful(vm)
  {
    if vm.pendingUnwinds != [] { assert LiveUnwind(FramesOf(vm), vm.pendingUnwinds[0]); }
  }

  lemma {:induction false} RespectfulRunIsLive(host: Host, run: seq<Vm>, i: nat)
    requires i < |run| && Live(run[0])
    requires forall k :: 0 <= k < |run| - 1 ==> PlacedStep(host, run[k], run[k + 1])
    requires forall k :: 0 <= k < |run| ==> Respectful(run[k])
    ensures Live(run[i])
    decreases i
  {
    if i > 0 {
      RespectfulRunIsLive(host, run, i - 1);
      assert PlacedStep(host, run[i - 1], run[i - 1 + 1]);
      StepKeepsLive(host, run[i - 1], run[i]);
    }
  }

  // ------------------------------------------------------------ nothing set aside

  /** An unwind that ends in a catch or in a return, where no unwind set aside is taken up. */
  predicate Final(u: UnwindState) {
    u.target.ToHandler? || u.target == ToInstruction(LEAVE_FRAME)
  }

  predicate CalmMode(mode: Mode, pending: seq<UnwindState>) {
    match mode
    case Unwinding(u) => Final(u) ==> pending == []
    case ExecutingHandler(u) => Final(u) ==> pending == []
    case _ => pending == []
  }

  /** Unwinds are set aside only while another one that ends at an instruction is in progress. */
  predicate Calm(vm: Vm) {
    && CalmMode(vm.mode, vm.pendingUnwinds)
    && forall i {:trigger vm.pendingUnwinds[i]} :: 0 < i < |vm.pendingUnwinds| ==> !Final(vm.pendingUnwinds[i])
  }

  /** Nothing is thrown or returned from while an unwind is set aside. */
  ghost predicate CalmStep(host: Host, vm: Vm, vm': Vm) {
    GoesOn(host, vm, vm') || (vm.pendingUnwinds == [] && ThrowsOrReturns(host, vm, vm'))
  }

  predicate CalmAndRespectful(vm: Vm) {
    Calm(vm) && Respectful(vm)
  }

  lemma {:induction false} HandleKeepsCalm(host: Host, vm: Vm)
    requires Live(vm) && Calm(vm)
    ensures CalmAndRespectful(Handle(host, vm).vm)
  {
    LiveIsRespectful(vm);
    match vm.mode
    case Throwing(exception, _) => ThrowingKeepsPending(host, vm);
    case Searching(state) => assert Handle(host, vm) == Search(host, vm, state.exception, state.cursor);
    case Unwinding(_) => UnwindKeepsCalm(host, vm);
    case _ =>
  }

  lemma ThrowingKeepsPending(host: Host, vm: Vm)
    requires vm.mode.Throwing? && vm.frames != []
    ensures Handle(host, vm).vm.pendingUnwinds == vm.pendingUnwinds
  {
    assert Handle(host, vm) == BeginThrowing(host, vm, vm.mode.exception);
    if host.hasExceptionType {
      var vm1 := vm.(suspendedFrames := [], suspendedStack := [],
                     mode := Searching(SearchState(vm.mode.exception, Top(vm), None)));
      assert Handle(host, vm) == Handle(host, vm1) == Search(host, vm1, vm.mode.exception, Top(vm));
    }
  }

  lemma {:induction false} UnwindKeepsCalm(host: Host, vm: Vm)
    requires Resumable(vm) && Calm(vm)
    ensures CalmAndRespectful(Handle(host, vm).vm)
  {
    var u := vm.mode.unwind;
    HandleIsPass(host, vm);
    PassKeepsDistance(host, vm, u, u.cursor.frame, u.cursor.section, u.cursor.handler);
    var halt := Pass(host, vm);
    if halt.Preempted? {
      assert u.target.ToHandler?;
      ThrowingKeepsPending(host, halt.vm);
    } else if halt.Reached? {
      var rest := DropLast(vm.pendingUnwinds, 1);
      assert forall i {:trigger rest[i]} :: 0 < i < |rest| ==> rest[i] == vm.pendingUnwinds[i];
    }
  }

  lemma {:induction false} StepKeepsCalm(host: Host, vm: Vm, vm': Vm)
    requires Live(vm) && Calm(vm) && CalmStep(host, vm, vm')
    ensures CalmAndRespectful(vm')
  {
    LiveIsRespectful(vm);
    if vm.pendingUnwinds == [] && ThrowsOrReturns(host, vm, vm') {
      CalmInterruption(host, vm, vm');
    } else if Executes(vm, vm') {
      ExecutesKeepsLive(vm, vm');
      LiveIsRespectful(vm');
    } else if MayInterrupt(vm) && exists target :: target != LEAVE_FRAME && vm' == Leave(host, vm, target).vm {
      var target :| target != LEAVE_FRAME && vm' == Leave(host, vm, target).vm;
      LeaveKeepsLive(vm, target);
      HandleKeepsCalm(host, BeginLeave(vm, target));
    } else if vm' == EndFinally(host, vm).vm {
      if vm.mode.ExecutingHandler? { UnwindKeepsCalm(host, vm.(mode := Unwinding(vm.mode.unwind))); }
    } else if vm.mode.Filtering? && exists result :: vm' == EndFilter(vm, result).vm {
      assert vm'.pendingUnwinds == [];
    } else {
      HandleKeepsCalm(host, vm);
    }
  }

  lemma {:induction false} CalmInterruption(host: Host, vm: Vm, vm': Vm)
    requires Live(vm) && vm.pendingUnwinds == [] && ThrowsOrReturns(host, vm, vm')
    ensures CalmAndRespectful(vm')
  {
    InterruptedIsStacked(vm);
    if exception :| vm' == Throw(host, vm, exception).vm {
      HandleKeepsCalm(host, vm.(mode := Throwing(exception, false)));
    } else if vm' == Rethrow(host, vm).vm {
      if Last(vm.frames).exceptionStack != [] {
        HandleKeepsCalm(host, vm.(mode := Throwing(Last(Last(vm.frames).exceptionStack), true)));
      }
    } else if Ret(host, vm) == Handle(host, BeginReturn(vm)) {
      HandleKeepsCalm(host, BeginReturn(vm));
    }
  }

  /** Where nothing is thrown or returned from while an unwind is set aside, every state is live, and in a state with
      nothing in progress nothing is set aside. */
  lemma {:induction false} NothingIsSetAsideWhenIdle(host: Host, run: seq<Vm>, i: nat)
    requires i < |run| && Live(run[0]) && Calm(run[0])
    requires forall k :: 0 <= k < |run| - 1 ==> CalmStep(host, run[k], run[k + 1])
    ensures Live(run[i]) && Calm(run[i])
    ensures run[i].mode.Idle? ==> run[i].pendingUnwinds == []
    decreases i
  {
    if i > 0 {
      NothingIsSetAsideWhenIdle(host, run, i - 1);
      assert CalmStep(host, run[i - 1], run[i - 1 + 1]);
      StepKeepsCalm(host, run[i - 1], run[i]);
      StepKeepsLive(host, run[i - 1], run[i]);
    }
  }

  /** A `leave` with nothing in progress, as after a catch, makes the newest unwind set aside current; it is live
      exactly if its frame has survived. */
  lemma {:induction false} LeaveAfterCatchResumesStaleUnwind(host: Host, vm: Vm, target: nat, run: seq<Vm>)
    requires vm.mode.Idle? && vm.pendingUnwinds != [] && |vm.frames| > 0 && target != LEAVE_FRAME
    requires UnwindRun(host, run) && run[0] == BeginLeave(vm, target) && Fresh(run[0])
    requires Pass(host, Last(run)).Reached?
    ensures var after, stale := Handle(host, Last(run)).vm, Last(vm.pendingUnwinds);
            && after.mode == ExecutingHandler(stale)
            && (stale.cursor.frame < |after.frames| <==> stale.cursor.frame < |vm.frames|)
  {
    LeaveUnwindEndsAtTarget(host, run);
  }

  /** A throw while an unwind is set aside: once caught in frame `a.frame`, what was set aside is still there,
      and it refers to a live frame exactly if its frame is not above the catching one. */
  lemma {:induction false} CatchKeepsPending(host: Host, run: seq<Vm>)
    requires UnwindRun(host, run) && Fresh(run[0]) && run[0].mode.unwind.target.ToHandler?
    requires run[0].pendingUnwinds != [] && Pass(host, Last(run)).Reached?
    ensures var after, stale := Handle(host, Last(run)).vm, Last(run[0].pendingUnwinds);
            && after.mode.Idle? && after.pendingUnwinds == run[0].pendingUnwinds
            && (stale.cursor.frame < |after.frames| <==> stale.cursor.frame <= run[0].mode.unwind.target.address.frame)
  {
    CatchUnwindEndsInHandler(host, run);
  }
}
