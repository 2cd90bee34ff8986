/** One unwind pass over the whole call stack serves the head of the agenda. */
module UnwindPass {
  import opened Wrappers
  import opened ExceptionData
  import opened ExceptionSemantics
  import opened UnwindAgenda

  /** The handlers owed by frame `f` from handler `h` of section `s` on. */
  function OwedHere(frame: Frame, u: UnwindState, f: nat, s: nat, h: nat): seq<HandlerAddress> {
    FrameAgenda(frame.sections, frame.ip, u.target, u.exception.Some?, f, s, h,
                SectionLimit(frame.sections, f, u.target))
  }

  /** The handlers owed by the frames below `f`, down to frame `lowest`. */
  function OwedBelow(frames: seq<Frame>, u: UnwindState, lowest: nat, f: nat): seq<HandlerAddress>
    requires f <= |frames|
    decreases f
  {
    if lowest < f then OwedHere(frames[f - 1], u, f - 1, 0, 0) + OwedBelow(frames, u, lowest, f - 1) else []
  }

  /** The handlers owed from handler `h` of section `s` of frame `f` down to frame `lowest`. */
  function Owed(frames: seq<Frame>, u: UnwindState, lowest: nat, f: nat, s: nat, h: nat): seq<HandlerAddress>
    requires f < |frames|
  {
    OwedHere(frames[f], u, f, s, h) + OwedBelow(frames, u, lowest, f)
  }

  /** The handlers owed once handler `a` has run. */
  function OwedAfter(frames: seq<Frame>, u: UnwindState, lowest: nat, a: HandlerAddress): seq<HandlerAddress>
    requires Passes(frames, u, a)
  {
    var frame := frames[a.frame];
    AgendaAfter(frame.sections, frame.ip, u.target, u.exception.Some?, a.frame, a.section, a.handler,
                SectionLimit(frame.sections, a.frame, u.target))
    + OwedBelow(frames, u, lowest, a.frame)
  }

  /** The handler belongs to a section that the unwind passes. */
  predicate Passes(frames: seq<Frame>, u: UnwindState, a: HandlerAddress) {
    && ValidAddress(frames, a)
    && a.section < SectionLimit(frames[a.frame].sections, a.frame, u.target)
  }

  predicate OnStack(frame: Frame, size: nat) {
    frame.base.arguments <= frame.base.stack <= size
  }

  predicate Below(lower: Frame, upper: Frame) {
    lower.base.stack <= upper.base.arguments
  }

  /** The frames occupy the evaluation stack one above the other. */
  predicate Layout(frames: seq<Frame>, size: nat) {
    && (forall i {:trigger OnStack(frames[i], size)} :: 0 <= i < |frames| ==> OnStack(frames[i], size))
    && (forall i, j {:trigger Below(frames[i], frames[j])} :: 0 <= i < j < |frames| ==> Below(frames[i], frames[j]))
  }

  predicate AllSupported(frames: seq<Frame>) {
    forall i {:trigger Supported(frames[i].sections)} :: 0 <= i < |frames| ==> Supported(frames[i].sections)
  }

  predicate ValidAddress(frames: seq<Frame>, a: HandlerAddress) {
    && a.frame < |frames|
    && a.section < |frames[a.frame].sections|
    && a.handler < |frames[a.frame].sections[a.section].handlers|
  }

  function HandlerAt(frames: seq<Frame>, a: HandlerAddress): Handler
    requires ValidAddress(frames, a)
  {
    frames[a.frame].sections[a.section].handlers[a.handler]
  }

  /** Catches left in the sections of a frame from `s` on. */
  function Pops(frame: Frame, f: nat, u: UnwindState, s: nat): nat {
    FramePops(frame.sections, frame.ip, u.target, u.exception.Some?, s, SectionLimit(frame.sections, f, u.target))
  }

  /** Catches left in the sections of a frame from `s` up to, not including, `s'`. */
  function PopsBetween(frame: Frame, f: nat, u: UnwindState, s: nat, s': nat): int {
    Pops(frame, f, u, s) - Pops(frame, f, u, s')
  }

  /** Control is handed to handler `a`: the frames above it are gone, its frame is on top and at the
      handler's first instruction, and the cursor is just past it. */
  predicate StopsAt(vm: Vm, u: UnwindState, s: nat, a: HandlerAddress, vm1: Vm) {
    && Passes(vm.frames, u, a) && TargetFrame(u) <= a.frame
    && var frame := vm.frames[a.frame];
    && Exits(frame.sections[a.section], frame.ip, u.target)
    && (a.frame == |vm.frames| - 1 ==> s <= a.section + 1)
    && |vm1.frames| == a.frame + 1
    && vm1.frames[..a.frame] == vm.frames[..a.frame]
    && var dropped := PopsBetween(frame, a.frame, u, if a.frame == |vm.frames| - 1 then s else 0, a.section + 1);
    && dropped >= 0
    && vm1.frames[a.frame] == frame.(ip := HandlerAt(vm.frames, a).instructions.start, stackHeight := 0,
                                     exceptionStack := DropLast(frame.exceptionStack, dropped))
    && vm1.stack <= vm.stack && Layout(vm1.frames, |vm1.stack|)
    && vm1 == vm.(frames := vm1.frames, stack := vm1.stack,
                  mode := ExecutingHandler(u.(cursor := NextCursor(frame.sections, a.frame, a.section, a.handler))))
  }

  /** Everything between the cursor and the target is unwound and the target frame is on top. */
  predicate Arrives(vm: Vm, u: UnwindState, s: nat, vm1: Vm) {
    var t := TargetFrame(u);
    && t < |vm.frames| && |vm1.frames| == t + 1
    && vm1.frames[..t] == vm.frames[..t]
    && var frame := vm.frames[t];
    && var dropped := Pops(frame, t, u, if t == |vm.frames| - 1 then s else 0);
    && vm1.frames[t] == frame.(exceptionStack := DropLast(frame.exceptionStack, dropped))
    && vm1.stack <= vm.stack && Layout(vm1.frames, |vm1.stack|)
    && (if t == |vm.frames| - 1 then vm1.stack == vm.stack else |vm1.stack| == vm.frames[t + 1].base.arguments)
    && vm1 == vm.(frames := vm1.frames, stack := vm1.stack)
  }

  /** Removing frame `g`, a type initializer, replaced the exception by the one that wraps it. */
  predicate PreemptedAt(host: Host, vm: Vm, u: UnwindState, g: nat, vm1: Vm) {
    && TargetFrame(u) < g < |vm.frames|
    && vm.frames[g].isCctor && u.exception.Some?
    && host.wrap(vm.frames[g].methodId, u.exception.value).Some?
    && vm1.frames == vm.frames[..g]
    && vm1.stack <= vm.stack && Layout(vm1.frames, |vm1.stack|)
    && vm1 == vm.(frames := vm1.frames, stack := vm1.stack,
                  mode := Throwing(host.wrap(vm.frames[g].methodId, u.exception.value).value, false))
  }

  predicate Progress(host: Host, vm: Vm, u: UnwindState, s: nat, h: nat, halt: Halt)
    requires |vm.frames| > 0
  {
    var owed := Owed(vm.frames, u, TargetFrame(u), |vm.frames| - 1, s, h);
    match halt
    case Stopped(vm1) =>
      && owed != []
      && StopsAt(vm, u, ResumeSection(s, h), owed[0], vm1)
      && owed[1..] == OwedAfter(vm.frames, u, TargetFrame(u), owed[0])
    case Reached(vm1) => owed == [] && Arrives(vm, u, ResumeSection(s, h), vm1)
    case Preempted(vm1) => PreemptedAt(host, vm, u, |vm1.frames|, vm1)
    case Broken(_) => false
  }

  /** What is owed below frame `f` does not depend on the frames above. */
  lemma {:induction false} OwedByPrefix(frames: seq<Frame>, frames': seq<Frame>, u: UnwindState, lowest: nat, f: nat)
    requires f <= |frames| && f <= |frames'| && forall i :: 0 <= i < f ==> frames[i] == frames'[i]
    ensures OwedBelow(frames, u, lowest, f) == OwedBelow(frames', u, lowest, f)
    decreases f
  {
    if lowest < f { OwedByPrefix(frames, frames', u, lowest, f - 1); }
  }

  lemma LayoutUpdated(frames: seq<Frame>, size: nat, f: nat, frame: Frame)
    requires Layout(frames, size) && f < |frames| && frame.base == frames[f].base
    ensures Layout(frames[f := frame], size)
  {
    var frames' := frames[f := frame];
    forall i | 0 <= i < |frames'| ensures OnStack(frames'[i], size) {
      assert OnStack(frames[i], size);
    }
    forall i, j | 0 <= i < j < |frames'| ensures Below(frames'[i], frames'[j]) {
      assert Below(frames[i], frames[j]);
    }
  }

  /** Popping the top frame and truncating the stack to its arguments keeps the layout. */
  lemma LayoutPopped(frames: seq<Frame>, size: nat)
    requires |frames| > 0 && Layout(frames, size)
    ensures OnStack(Last(frames), size)
    ensures Layout(frames[..|frames| - 1], Last(frames).base.arguments)
  {
    var top := |frames| - 1;
    assert OnStack(frames[top], size);
    var below := frames[..top];
    forall i | 0 <= i < top ensures OnStack(below[i], frames[top].base.arguments) {
      assert Below(frames[i], frames[top]) && OnStack(frames[i], size);
    }
    forall i, j | 0 <= i < j < top ensures Below(below[i], below[j]) {
      assert Below(frames[i], frames[j]);
    }
  }

  lemma UnwindFrameKeepsLayout(host: Host, vm: Vm, u: UnwindState)
    requires vm.mode == Unwinding(u) && |vm.frames| > 0 && Layout(vm.frames, |vm.stack|)
    ensures var vm2 := UnwindFrame(host, vm);
            && vm2.frames == vm.frames[..|vm.frames| - 1]
            && vm2.stack <= vm.stack && Layout(vm2.frames, |vm2.stack|)
            && |vm2.stack| == Last(vm.frames).base.arguments
            && vm2 == vm.(frames := vm2.frames, stack := vm2.stack, mode := vm2.mode)
            && (vm2.mode.Throwing? ==>
                  && Last(vm.frames).isCctor && u.exception.Some?
                  && host.wrap(Last(vm.frames).methodId, u.exception.value).Some?
                  && vm2.mode == Throwing(host.wrap(Last(vm.frames).methodId, u.exception.value).value, false))
            && (!vm2.mode.Throwing? ==> vm2.mode == vm.mode)
  {
    LayoutPopped(vm.frames, |vm.stack|);
  }

  /** What the pass does first: sweep the sections of the top frame. */
  function SweepTop(vm: Vm, u: UnwindState, s: nat, h: nat): Sweep
    requires |vm.frames| > 0
  {
    var frame := Last(vm.frames);
    SweepFrom(frame.sections, frame.ip, u.target, u.exception.Some?, s, h,
              SectionLimit(frame.sections, |vm.frames| - 1, u.target))
  }

  predicate ServesTop(vm: Vm, u: UnwindState, s: nat, h: nat)
    requires |vm.frames| > 0
  {
    var frame := Last(vm.frames);
    Serves(SweepTop(vm, u, s, h), frame.sections, frame.ip, u.target, u.exception.Some?,
           |vm.frames| - 1, s, h, SectionLimit(frame.sections, |vm.frames| - 1, u.target))
  }

  /** A pass that starts at a settled cursor of the top frame serves the head of what is owed. */
  lemma {:induction false} PassServesAgenda(host: Host, vm: Vm, u: UnwindState, s: nat, h: nat)
    requires vm.mode == Unwinding(u) && |vm.frames| > 0 && TargetFrame(u) < |vm.frames|
    requires Layout(vm.frames, |vm.stack|) && CursorSettled(Last(vm.frames).sections, Last(vm.frames).ip, s, h)
    ensures Progress(host, vm, u, s, h, Advance(host, vm, u, |vm.frames| - 1, s, h))
    decreases |vm.frames|
  {
    TopIsServed(vm, u, s, h);
    if SweepTop(vm, u, s, h).stop.Some? {
      PassStops(host, vm, u, s, h);
    } else if TargetFrame(u) == |vm.frames| - 1 {
      PassArrives(host, vm, u, s, h);
    } else {
      PassPops(host, vm, u, s, h);
      var vm2 := AfterPop(host, vm, u, s, h);
      if vm2.mode.Throwing? {
        PreemptionIsProgress(host, vm, u, s, h, vm2);
      } else {
        PassServesAgendaBelow(host, vm, u, s, h, vm2);
      }
    }
  }

  /** The top frame is popped; the rest of the pass works on the frames below. */
  lemma {:induction false} PassServesAgendaBelow(host: Host, vm: Vm, u: UnwindState, s: nat, h: nat, vm2: Vm)
    requires vm.mode == Unwinding(u) && PoppedTop(vm, u, s, h, vm2)
    ensures Progress(host, vm, u, s, h, Advance(host, vm2, u, |vm2.frames| - 1, 0, 0))
    decreases |vm.frames|, 0
  {
    PassServesAgenda(host, vm2, u, 0, 0);
    ProgressLifts(host, vm, u, s, h, vm2, Advance(host, vm2, u, |vm2.frames| - 1, 0, 0));
  }

  lemma TopIsServed(vm: Vm, u: UnwindState, s: nat, h: nat)
    requires |vm.frames| > 0 && CursorSettled(Last(vm.frames).sections, Last(vm.frames).ip, s, h)
    ensures ServesTop(vm, u, s, h)
  {
    var f := |vm.frames| - 1;
    SweepServesAgenda(vm.frames[f].sections, vm.frames[f].ip, u.target, u.exception.Some?, f, s, h,
                      SectionLimit(vm.frames[f].sections, f, u.target));
  }

  lemma PreemptionIsProgress(host: Host, vm: Vm, u: UnwindState, s: nat, h: nat, vm2: Vm)
    requires |vm.frames| > 0 && PreemptedAt(host, vm, u, |vm2.frames|, vm2)
    ensures Progress(host, vm, u, s, h, Preempted(vm2))
  {
  }

  function Swept(vm: Vm, u: UnwindState, s: nat, h: nat): Vm
    requires |vm.frames| > 0
  {
    var f := |vm.frames| - 1;
    var swept := vm.frames[f].(exceptionStack := DropLast(vm.frames[f].exceptionStack, SweepTop(vm, u, s, h).pops));
    vm.(frames := vm.frames[f := swept])
  }

  function AfterPop(host: Host, vm: Vm, u: UnwindState, s: nat, h: nat): Vm
    requires |vm.frames| > 0
  {
    UnwindFrame(host, Swept(vm, u, s, h))
  }

  lemma {:induction false} PassPops(host: Host, vm: Vm, u: UnwindState, s: nat, h: nat)
    requires vm.mode == Unwinding(u) && |vm.frames| > 0 && TargetFrame(u) < |vm.frames| - 1
    requires Layout(vm.frames, |vm.stack|) && ServesTop(vm, u, s, h) && SweepTop(vm, u, s, h).stop.None?
    ensures var vm2 := AfterPop(host, vm, u, s, h);
            var halt := Advance(host, vm, u, |vm.frames| - 1, s, h);
            if vm2.mode.Throwing? then halt == Preempted(vm2) && PreemptedAt(host, vm, u, |vm2.frames|, vm2)
            else halt == Advance(host, vm2, u, |vm2.frames| - 1, 0, 0) && PoppedTop(vm, u, s, h, vm2)
  {
    var f := |vm.frames| - 1;
    var vm1 := Swept(vm, u, s, h);
    LayoutUpdated(vm.frames, |vm.stack|, f, vm1.frames[f]);
    UnwindFrameKeepsLayout(host, vm1, u);
    assert AfterPop(host, vm, u, s, h).frames == vm.frames[..f];
  }

  lemma {:induction false} PassArrives(host: Host, vm: Vm, u: UnwindState, s: nat, h: nat)
    requires vm.mode == Unwinding(u) && |vm.frames| > 0 && TargetFrame(u) == |vm.frames| - 1
    requires Layout(vm.frames, |vm.stack|) && ServesTop(vm, u, s, h) && SweepTop(vm, u, s, h).stop.None?
    ensures Progress(host, vm, u, s, h, Advance(host, vm, u, |vm.frames| - 1, s, h))
  {
    var f := |vm.frames| - 1;
    LayoutUpdated(vm.frames, |vm.stack|, f, Swept(vm, u, s, h).frames[f]);
  }

  lemma {:induction false} PassStops(host: Host, vm: Vm, u: UnwindState, s: nat, h: nat)
    requires vm.mode == Unwinding(u) && |vm.frames| > 0 && TargetFrame(u) < |vm.frames|
    requires Layout(vm.frames, |vm.stack|) && ServesTop(vm, u, s, h) && SweepTop(vm, u, s, h).stop.Some?
    ensures Progress(host, vm, u, s, h, Advance(host, vm, u, |vm.frames| - 1, s, h))
  {
    var f := |vm.frames| - 1;
    var (s1, h1) := SweepTop(vm, u, s, h).stop.value;
    var a := HandlerAddress(f, s1, h1);
    OwedHead(vm.frames, u, TargetFrame(u), f, s, h, a);
    PassStopsAt(host, vm, u, s, h, a);
  }

  lemma {:induction false} PassStopsAt(host: Host, vm: Vm, u: UnwindState, s: nat, h: nat, a: HandlerAddress)
    requires vm.mode == Unwinding(u) && |vm.frames| > 0 && TargetFrame(u) < |vm.frames|
    requires Layout(vm.frames, |vm.stack|) && ServesTop(vm, u, s, h)
    requires a.frame == |vm.frames| - 1 && SweepTop(vm, u, s, h).stop == Some((a.section, a.handler))
    ensures var halt := Advance(host, vm, u, |vm.frames| - 1, s, h);
            halt.Stopped? && StopsAt(vm, u, ResumeSection(s, h), a, halt.vm)
  {
    var f := |vm.frames| - 1;
    var vm1 := Advance(host, vm, u, f, s, h).vm;
    LayoutUpdated(vm.frames, |vm.stack|, f, vm1.frames[f]);
  }

  lemma {:induction false} OwedHead(frames: seq<Frame>, u: UnwindState, lowest: nat, f: nat, s: nat, h: nat,
                                    a: HandlerAddress)
    requires f < |frames| && a.frame == f && Passes(frames, u, a)
    requires var frame := frames[f];
             OwedHere(frame, u, f, s, h)
             == [a] + AgendaAfter(frame.sections, frame.ip, u.target, u.exception.Some?, f, a.section, a.handler,
                                  SectionLimit(frame.sections, f, u.target))
    ensures Owed(frames, u, lowest, f, s, h) == [a] + OwedAfter(frames, u, lowest, a)
  {
  }

  /** The top frame owed nothing and was popped; the rest of the pass works on the frames below. */
  predicate PoppedTop(vm: Vm, u: UnwindState, s: nat, h: nat, vm2: Vm) {
    && |vm.frames| > 1 && TargetFrame(u) < |vm.frames| - 1
    && vm2.frames == vm.frames[..|vm.frames| - 1]
    && vm2.stack <= vm.stack && Layout(vm2.frames, |vm2.stack|) && |vm2.stack| == Last(vm.frames).base.arguments
    && vm2 == vm.(frames := vm2.frames, stack := vm2.stack)
    && OwedHere(Last(vm.frames), u, |vm.frames| - 1, s, h) == []
  }

  lemma {:induction false} ProgressLifts(host: Host, vm: Vm, u: UnwindState, s: nat, h: nat, vm2: Vm, halt: Halt)
    requires PoppedTop(vm, u, s, h, vm2) && Progress(host, vm2, u, 0, 0, halt)
    ensures Progress(host, vm, u, s, h, halt)
  {
    if halt.Stopped? {
      StopProgressLifts(host, vm, u, s, h, vm2, halt.vm);
    } else if halt.Reached? {
      OwedBelowTop(vm, u, s, h, vm2);
      ArrivalLifts(vm, u, ResumeSection(s, h), vm2, halt.vm);
    } else if halt.Preempted? {
      assert vm.frames[..|halt.vm.frames|] == vm2.frames[..|halt.vm.frames|];
    }
  }

  lemma {:induction false} OwedBelowTop(vm: Vm, u: UnwindState, s: nat, h: nat, vm2: Vm)
    requires PoppedTop(vm, u, s, h, vm2)
    ensures Owed(vm.frames, u, TargetFrame(u), |vm.frames| - 1, s, h)
            == Owed(vm2.frames, u, TargetFrame(u), |vm2.frames| - 1, 0, 0)
  {
    OwedByPrefix(vm.frames, vm2.frames, u, TargetFrame(u), |vm.frames| - 2);
  }

  lemma {:induction false} StopProgressLifts(host: Host, vm: Vm, u: UnwindState, s: nat, h: nat, vm2: Vm, vm3: Vm)
    requires PoppedTop(vm, u, s, h, vm2) && Progress(host, vm2, u, 0, 0, Stopped(vm3))
    ensures Progress(host, vm, u, s, h, Stopped(vm3))
  {
    var owed := Owed(vm2.frames, u, TargetFrame(u), |vm2.frames| - 1, 0, 0);
    OwedBelowTop(vm, u, s, h, vm2);
    StopLifts(vm, u, ResumeSection(s, h), vm2, owed[0], vm3);
    OwedAfterByPrefix(vm.frames, vm2.frames, u, TargetFrame(u), owed[0]);
  }

  lemma {:induction false} OwedAfterByPrefix(frames: seq<Frame>, frames': seq<Frame>, u: UnwindState, lowest: nat,
                                             a: HandlerAddress)
    requires frames' <= frames && Passes(frames', u, a)
    ensures Passes(frames, u, a) && OwedAfter(frames, u, lowest, a) == OwedAfter(frames', u, lowest, a)
  {
    OwedByPrefix(frames, frames', u, lowest, a.frame);
  }

  lemma {:induction false} ArrivalLifts(vm: Vm, u: UnwindState, s: nat, vm2: Vm, vm3: Vm)
    requires |vm.frames| > 1 && TargetFrame(u) < |vm.frames| - 1 && vm2.frames == vm.frames[..|vm.frames| - 1]
    requires vm2.stack <= vm.stack && |vm2.stack| == Last(vm.frames).base.arguments
    requires vm2 == vm.(frames := vm2.frames, stack := vm2.stack) && Arrives(vm2, u, 0, vm3)
    ensures Arrives(vm, u, s, vm3)
  {
    assert vm.frames[..TargetFrame(u)] == vm2.frames[..TargetFrame(u)];
  }

  lemma {:induction false} StopLifts(vm: Vm, u: UnwindState, s: nat, vm2: Vm, a: HandlerAddress, vm3: Vm)
    requires |vm.frames| > 1 && vm2.frames == vm.frames[..|vm.frames| - 1] && vm2.stack <= vm.stack
    requires vm2 == vm.(frames := vm2.frames, stack := vm2.stack) && StopsAt(vm2, u, 0, a, vm3)
    ensures StopsAt(vm, u, s, a, vm3)
  {
    assert vm.frames[..a.frame] == vm2.frames[..a.frame];
    assert vm.frames[a.frame] == vm2.frames[a.frame];
  }
}
