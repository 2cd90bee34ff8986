/** Whole unwinds: passes of the engine alternate with handlers that the virtual machine executes. */
module UnwindRuns {
  import opened ExceptionData
  import opened ExceptionSemantics
  import opened Nesting
  import opened UnwindAgenda
  import opened UnwindPass

  /** An unwind that can make progress: its cursor is in the top frame, its target frame is live. */
  predicate UnwindReady(vm: Vm) {
    && vm.mode.Unwinding?
    && var u := vm.mode.unwind;
    && |vm.frames| > 0 && u.cursor.frame == |vm.frames| - 1
    && TargetFrame(u) <= u.cursor.frame
    && AllSupported(vm.frames) && Layout(vm.frames, |vm.stack|)
    && CursorSettled(Last(vm.frames).sections, Last(vm.frames).ip, u.cursor.section, u.cursor.handler)
    && (u.target.ToHandler? ==> u.exception.Some? && ValidAddress(vm.frames, u.target.address))
  }

  /** The first section of the top frame of which the unwind has left no catch yet. */
  function At(vm: Vm): nat
    requires vm.mode.Unwinding?
  {
    ResumeSection(vm.mode.unwind.cursor.section, vm.mode.unwind.cursor.handler)
  }

  /** The handlers an unwind still owes. */
  function OwedBy(vm: Vm): seq<HandlerAddress>
    requires UnwindReady(vm)
  {
    var u := vm.mode.unwind;
    Owed(vm.frames, u, TargetFrame(u), |vm.frames| - 1, u.cursor.section, u.cursor.handler)
  }

  function Pass(host: Host, vm: Vm): Halt
    requires vm.mode.Unwinding?
  {
    var u := vm.mode.unwind;
    Advance(host, vm, u, u.cursor.frame, u.cursor.section, u.cursor.handler)
  }

  /** A call of the engine in the unwinding mode is one pass and what it leads to. */
  lemma HandleIsPass(host: Host, vm: Vm)
    requires vm.mode.Unwinding?
    ensures var halt, out := Pass(host, vm), Handle(host, vm);
            && (halt.Stopped? ==> out == Outcome(halt.vm, Exception))
            && (halt.Preempted? ==> out == Handle(host, halt.vm))
            && (halt.Reached? ==> out == Arrive(host, halt.vm, vm.mode.unwind))
  {
    assert Handle(host, vm) == Unwind(host, vm, vm.mode.unwind);
  }

  /** The handler that was entered when the cursor became `c`. */
  function Predecessor(sections: seq<Section>, c: HandlerAddress): HandlerAddress {
    if c.handler > 0 then c.(handler := c.handler - 1)
    else if 0 < c.section <= |sections| && |sections[c.section - 1].handlers| > 0
    then HandlerAddress(c.frame, c.section - 1, |sections[c.section - 1].handlers| - 1)
    else c
  }

  /** What executing a handler may do before its `endfinally`: calls are balanced, the frames below are
      untouched, the frame that runs it has its `ip` somewhere in the handler, and the mode and what is set aside
      are what they were when the handler started. */
  predicate HandlerRan(vm1: Vm, vm2: Vm) {
    && vm1.mode.ExecutingHandler?
    && |vm1.frames| > 0 && |vm2.frames| == |vm1.frames|
    && var f := |vm1.frames| - 1;
    && vm2.frames[..f] == vm1.frames[..f]
    && vm2.frames[f] == vm1.frames[f].(ip := vm2.frames[f].ip, stackHeight := vm2.frames[f].stackHeight)
    && var a := Predecessor(vm1.frames[f].sections, vm1.mode.unwind.cursor);
    && a.frame == f && ValidAddress(vm1.frames, a)
    && HandlerAt(vm1.frames, a).instructions.Contains(vm2.frames[f].ip)
    && Layout(vm2.frames, |vm2.stack|)
    && vm2 == vm1.(frames := vm2.frames, stack := vm2.stack)
  }

  /** A pass stops at a handler, the handler is executed, and `endfinally` resumes the unwind. */
  predicate Resumes(host: Host, vm: Vm, vm': Vm) {
    && vm.mode.Unwinding?
    && var halt := Pass(host, vm);
    && halt.Stopped? && halt.vm.mode.ExecutingHandler?
    && vm'.mode == Unwinding(halt.vm.mode.unwind)
    && HandlerRan(halt.vm, vm'.(mode := halt.vm.mode))
  }

  predicate UnwindRun(host: Host, run: seq<Vm>) {
    && |run| > 0
    && (forall i :: 0 <= i < |run| ==> run[i].mode.Unwinding?)
    && forall i :: 0 <= i < |run| - 1 ==> Resumes(host, run[i], run[i + 1])
  }

  /** The engine stopped in the frame of `a`, at its first instruction. */
  predicate Entered(vm1: Vm, frames: seq<Frame>, a: HandlerAddress) {
    && ValidAddress(frames, a)
    && |vm1.frames| == a.frame + 1
    && Last(vm1.frames).ip == HandlerAt(frames, a).instructions.start
  }

  /** Control moved only inside sections before `s`. */
  predicate MovedBefore(sections: seq<Section>, ip: nat, ip': nat, s: nat) {
    ip == ip' || exists i :: 0 <= i < s && i < |sections| && Touches(sections[i], ip) && Touches(sections[i], ip')
  }

  /** The frame is as it was at the start, except for where control is and for the catches it left. */
  predicate FrameSince(frame0: Frame, frame: Frame, f: nat, u: UnwindState, s: nat) {
    && MovedBefore(frame0.sections, frame0.ip, frame.ip, s)
    && var dropped := Pops(frame0, f, u, 0) - Pops(frame0, f, u, s);
    && dropped >= 0
    && frame == frame0.(ip := frame.ip, stackHeight := frame.stackHeight,
                        exceptionStack := DropLast(frame0.exceptionStack, dropped))
  }

  /** How the state after some handlers relates to the start `vm0` of the unwind. */
  predicate Since(vm0: Vm, vm: Vm) {
    && UnwindReady(vm0) && UnwindReady(vm)
    && var u0, u := vm0.mode.unwind, vm.mode.unwind;
    && u == u0.(cursor := u.cursor) && TargetFrame(u) == TargetFrame(u0)
    && |vm.frames| <= |vm0.frames|
    && var f := |vm.frames| - 1;
    && vm.frames[..f] == vm0.frames[..f]
    && FrameSince(vm0.frames[f], vm.frames[f], f, u0, At(vm))
    && vm == vm0.(frames := vm.frames, stack := vm.stack, mode := Unwinding(u))
  }

  lemma SinceStart(vm: Vm)
    requires UnwindReady(vm) && vm.mode.unwind.cursor == Top(vm)
    ensures Since(vm, vm)
  {
  }

  // ------------------------------------------------------------ one stop

  /** The cursor past a handler is settled, wherever in the handler control ends up. */
  lemma NextCursorSettled(sections: seq<Section>, a: HandlerAddress, ip: nat)
    requires Supported(sections)
    requires a.section < |sections| && a.handler < |sections[a.section].handlers|
    requires sections[a.section].handlers[a.handler].instructions.Contains(ip)
    ensures var next := NextCursor(sections, a.frame, a.section, a.handler);
            && CursorSettled(sections, ip, next.section, next.handler)
            && ResumeSection(next.section, next.handler) == a.section + 1
            && Predecessor(sections, next) == a
  {
    assert WellFormed(sections[a.section]);
    SameHandlerSameBlocks(sections[a.section], a.handler, ip, ip);
  }

  /** The head of what is owed. */
  function Head(vm: Vm): HandlerAddress
    requires UnwindReady(vm) && OwedBy(vm) != []
  {
    OwedBy(vm)[0]
  }

  lemma {:induction false} StopIsHead(host: Host, vm: Vm)
    requires UnwindReady(vm) && Pass(host, vm).Stopped?
    ensures OwedBy(vm) != [] && StopsAt(vm, vm.mode.unwind, At(vm), Head(vm), Pass(host, vm).vm)
    ensures OwedBy(vm)[1..] == OwedAfter(vm.frames, vm.mode.unwind, TargetFrame(vm.mode.unwind), Head(vm))
  {
    var u := vm.mode.unwind;
    PassServesAgenda(host, vm, u, u.cursor.section, u.cursor.handler);
  }

  lemma {:induction false} ReachedOwesNothing(host: Host, vm: Vm)
    requires UnwindReady(vm) && Pass(host, vm).Reached?
    ensures OwedBy(vm) == [] && Arrives(vm, vm.mode.unwind, At(vm), Pass(host, vm).vm)
  {
    var u := vm.mode.unwind;
    PassServesAgenda(host, vm, u, u.cursor.section, u.cursor.handler);
  }

  predicate FrameResumed(frame: Frame, frame': Frame, u: UnwindState, s: nat, a: HandlerAddress) {
    && s - 1 <= a.section < |frame.sections| && a.handler < |frame.sections[a.section].handlers|
    && Exits(frame.sections[a.section], frame.ip, u.target)
    && frame.sections[a.section].handlers[a.handler].instructions.Contains(frame'.ip)
    && var dropped := Pops(frame, a.frame, u, s) - Pops(frame, a.frame, u, a.section + 1);
    && dropped >= 0
    && frame' == frame.(ip := frame'.ip, stackHeight := frame'.stackHeight,
                        exceptionStack := DropLast(frame.exceptionStack, dropped))
  }

  /** How a stop at `a` and the run of its handler change the state. */
  predicate ResumedFrom(vm: Vm, a: HandlerAddress, vm': Vm)
    requires UnwindReady(vm)
  {
    var u, f := vm.mode.unwind, a.frame;
    && Passes(vm.frames, u, a)
    && UnwindReady(vm')
    && vm'.mode.unwind == u.(cursor := NextCursor(vm.frames[f].sections, f, a.section, a.handler))
    && TargetFrame(vm'.mode.unwind) == TargetFrame(u)
    && At(vm') == a.section + 1
    && |vm'.frames| == f + 1 && vm'.frames[..f] == vm.frames[..f]
    && FrameResumed(vm.frames[f], vm'.frames[f], u, if f == |vm.frames| - 1 then At(vm) else 0, a)
    && vm' == vm.(frames := vm'.frames, stack := vm'.stack, mode := vm'.mode)
  }

  lemma {:induction false} ResumeShape(host: Host, vm: Vm, vm': Vm)
    requires UnwindReady(vm) && Resumes(host, vm, vm')
    ensures OwedBy(vm) != [] && ResumedFrom(vm, Head(vm), vm')
  {
    StopIsHead(host, vm);
    StopThenHandler(vm, Head(vm), Pass(host, vm).vm, vm');
  }

  /** A stop at `a` and any run of its handler. */
  lemma {:induction false} StopThenHandler(vm: Vm, a: HandlerAddress, vm1: Vm, vm': Vm)
    requires UnwindReady(vm) && StopsAt(vm, vm.mode.unwind, At(vm), a, vm1)
    requires vm'.mode == Unwinding(vm1.mode.unwind) && HandlerRan(vm1, vm'.(mode := vm1.mode))
    ensures ResumedFrom(vm, a, vm')
  {
    var frame, frame' := vm.frames[a.frame], vm'.frames[a.frame];
    assert Supported(frame.sections);
    assert Predecessor(frame.sections, NextCursor(frame.sections, a.frame, a.section, a.handler)) == a;
    NextCursorSettled(frame.sections, a, frame'.ip);
    forall i | 0 <= i < |vm'.frames| ensures Supported(vm'.frames[i].sections) {
      assert Supported(vm.frames[i].sections);
      if i < a.frame { assert vm'.frames[i] == vm'.frames[..a.frame][i] == vm.frames[..a.frame][i]; }
    }
    StaysReady(vm, a, vm');
  }

  lemma StaysReady(vm: Vm, a: HandlerAddress, vm': Vm)
    requires UnwindReady(vm) && vm'.mode.Unwinding? && Passes(vm.frames, vm.mode.unwind, a)
    requires vm'.mode.unwind == vm.mode.unwind.(cursor := vm'.mode.unwind.cursor)
    requires vm'.mode.unwind.cursor.frame == a.frame && TargetFrame(vm.mode.unwind) <= a.frame
    requires |vm'.frames| == a.frame + 1 && vm'.frames[..a.frame] == vm.frames[..a.frame]
    requires vm'.frames[a.frame].sections == vm.frames[a.frame].sections
    requires AllSupported(vm'.frames) && Layout(vm'.frames, |vm'.stack|)
    requires var next := vm'.mode.unwind.cursor;
             CursorSettled(vm'.frames[a.frame].sections, vm'.frames[a.frame].ip, next.section, next.handler)
    ensures UnwindReady(vm') && TargetFrame(vm'.mode.unwind) == TargetFrame(vm.mode.unwind)
  {
    var u := vm.mode.unwind;
    if u.target.ToHandler? && u.target.address.frame < a.frame {
      assert vm'.frames[u.target.address.frame] == vm'.frames[..a.frame][u.target.address.frame];
    }
  }

  /** What is owed below a frame depends on the target and on whether there is an exception, not on the cursor. */
  lemma {:induction false} OwedAcross(frames: seq<Frame>, frames': seq<Frame>, u: UnwindState, u': UnwindState,
                                      lowest: nat, f: nat)
    requires f <= |frames| && f <= |frames'| && forall i :: 0 <= i < f ==> frames[i] == frames'[i]
    requires u'.target == u.target && u'.exception == u.exception
    ensures OwedBelow(frames, u, lowest, f) == OwedBelow(frames', u', lowest, f)
    decreases f
  {
    if lowest < f { OwedAcross(frames, frames', u, u', lowest, f - 1); }
  }

  // ------------------------------------------------------------ the whole run

  lemma {:induction false} MoveKeepsPops(frame: Frame, ip': nat, f: nat, u: UnwindState, s: nat)
    requires Supported(frame.sections) && MovedBefore(frame.sections, frame.ip, ip', s)
    ensures Pops(frame, f, u, s) == Pops(frame.(ip := ip'), f, u, s)
  {
    if frame.ip != ip' {
      var i :| 0 <= i < s && i < |frame.sections| && Touches(frame.sections[i], frame.ip)
      && Touches(frame.sections[i], ip');
      AgendaSurvivesMove(frame.sections, frame.ip, ip', u.target, u.exception.Some?, f, i, s,
                         SectionLimit(frame.sections, f, u.target));
    }
  }

  /** Moves compose: the section that runs now also held the instruction control started from. */
  lemma {:induction false} MovesCompose(sections: seq<Section>, ip0: nat, ip: nat, ip': nat, s: nat, k: nat)
    requires WellNested(sections) && Sorted(sections) && MovedBefore(sections, ip0, ip, s)
    requires s - 1 <= k < |sections| && Touches(sections[k], ip) && Touches(sections[k], ip')
    ensures MovedBefore(sections, ip0, ip', k + 1)
  {
    if ip0 != ip {
      var i :| 0 <= i < s && i < |sections| && Touches(sections[i], ip0) && Touches(sections[i], ip);
      if i < k { LaterSectionsCannotTell(sections, i, k, ip0, ip); }
    }
    assert Touches(sections[k], ip0);
  }

  lemma DropLastAdds<T>(s: seq<T>, m: nat, n: nat)
    ensures DropLast(DropLast(s, m), n) == DropLast(s, m + n)
  {
  }

  lemma {:induction false} SinceStep(host: Host, vm0: Vm, vm: Vm, vm': Vm)
    requires Since(vm0, vm) && Resumes(host, vm, vm')
    ensures Since(vm0, vm')
  {
    ResumeShape(host, vm, vm');
    SinceResumed(vm0, vm, Head(vm), vm');
  }

  lemma {:induction false} SinceResumed(vm0: Vm, vm: Vm, a: HandlerAddress, vm': Vm)
    requires Since(vm0, vm) && ResumedFrom(vm, a, vm')
    ensures Since(vm0, vm')
  {
    var f, top := a.frame, |vm.frames| - 1;
    FramesBelow(vm0.frames, vm.frames, vm'.frames, f);
    assert Supported(vm0.frames[f].sections);
    FrameSinceStep(vm0.frames[f], vm.frames[f], vm'.frames[f], vm0.mode.unwind, if f == top then At(vm) else 0, a);
  }

  /** Frames below the top are those of the start. */
  lemma FramesBelow(frames0: seq<Frame>, frames: seq<Frame>, frames': seq<Frame>, f: nat)
    requires f < |frames| <= |frames0| && frames[..|frames| - 1] == frames0[..|frames| - 1]
    requires |frames'| == f + 1 && frames'[..f] == frames[..f]
    ensures frames'[..f] == frames0[..f]
    ensures f < |frames| - 1 ==> frames[f] == frames0[f]
  {
    var top := |frames| - 1;
    assert frames'[..f] == frames[..f] == frames[..top][..f] == frames0[..top][..f];
    if f < top { assert frames[f] == frames[..top][f] == frames0[..top][f]; }
  }

  lemma {:induction false} FrameSinceStep(frame0: Frame, frame: Frame, frame': Frame, u: UnwindState, s: nat,
                                          a: HandlerAddress)
    requires Supported(frame0.sections)
    requires FrameSince(frame0, frame, a.frame, u, s) && FrameResumed(frame, frame', u, s, a)
    ensures FrameSince(frame0, frame', a.frame, u, a.section + 1)
  {
    assert Touches(frame.sections[a.section], frame.ip) && Touches(frame.sections[a.section], frame'.ip);
    MovesCompose(frame0.sections, frame0.ip, frame.ip, frame'.ip, s, a.section);
    MovedPops(frame0, frame, a.frame, u, s, s);
    MovedPops(frame0, frame, a.frame, u, s, a.section + 1);
    DropLastAdds(frame0.exceptionStack, Pops(frame0, a.frame, u, 0) - Pops(frame0, a.frame, u, s),
                 Pops(frame0, a.frame, u, s) - Pops(frame0, a.frame, u, a.section + 1));
  }

  lemma {:induction false} MovedPops(frame: Frame, frame': Frame, f: nat, u: UnwindState, s: nat, s': nat)
    requires Supported(frame.sections) && MovedBefore(frame.sections, frame.ip, frame'.ip, s) && s <= s'
    requires frame'.sections == frame.sections
    ensures Pops(frame, f, u, s') == Pops(frame', f, u, s')
  {
    assert MovedBefore(frame.sections, frame.ip, frame'.ip, s');
    MoveKeepsPops(frame, frame'.ip, f, u, s');
  }
}
