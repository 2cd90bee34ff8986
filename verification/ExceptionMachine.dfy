/** The exception engine in its imperative form: one object whose methods are the phases of the two passes
    and the instructions that drive them. Each method is proved against `ExceptionSemantics`. */
module ExceptionMachine {
  import opened Wrappers
  import opened ExceptionData
  import S = ExceptionSemantics

  /** Where the frame loop of the unwind ends. */
  datatype End = AtHandler | AtThrow | AtTarget | OffStack

  class Machine {
    const host: Host
    var frames: seq<Frame>
    var suspendedFrames: seq<Frame>
    var stack: seq<StackValue>
    var suspendedStack: seq<StackValue>
    var mode: Mode
    var pendingUnwinds: seq<UnwindState>

    constructor (host: Host)
      ensures this.host == host && State() == Vm([], [], [], [], Idle, [])
    {
      this.host := host;
      frames, suspendedFrames, stack, suspendedStack, mode, pendingUnwinds := [], [], [], [], Idle, [];
    }

    ghost function State(): Vm
      reads this
    {
      Vm(frames, suspendedFrames, stack, suspendedStack, mode, pendingUnwinds)
    }

    // ---------------------------------------------------------- stacks

    method PushObject(o: ObjectRef)
      modifies this
      ensures State() == S.PushObject(old(State()), o)
    {
      stack := stack + [ObjectValue(o)];
      if |frames| > 0 {
        var top := |frames| - 1;
        frames := frames[top := frames[top].(stackHeight := frames[top].stackHeight + 1)];
      }
    }

    method SuspendAbove(f: nat)
      requires f < |frames| && frames[f].base.stack <= |stack|
      modifies this
      ensures State() == old(State()).(frames := old(frames)[..f + 1], suspendedFrames := old(frames)[f + 1..],
                                       stack := old(stack)[..old(frames)[f].base.stack],
                                       suspendedStack := old(stack)[old(frames)[f].base.stack..])
    {
      var base := frames[f].base.stack;
      suspendedStack := stack[base..];
      stack := stack[..base];
      suspendedFrames := frames[f + 1..];
      frames := frames[..f + 1];
    }

    method RestoreSuspended()
      modifies this
      ensures State() == old(State()).(frames := old(frames) + old(suspendedFrames), suspendedFrames := [],
                                       stack := old(stack) + old(suspendedStack), suspendedStack := [])
    {
      stack := stack + suspendedStack;
      suspendedStack := [];
      frames := frames + suspendedFrames;
      suspendedFrames := [];
    }

    method PopHandlerUnwind() returns (state: Option<UnwindState>)
      modifies this
      ensures state == if old(pendingUnwinds) == [] then None else Some(Last(old(pendingUnwinds)))
      ensures State() == old(State()).(pendingUnwinds := DropLast(old(pendingUnwinds), 1))
    {
      if pendingUnwinds == [] {
        return None;
      }
      state := Some(Last(pendingUnwinds));
      pendingUnwinds := pendingUnwinds[..|pendingUnwinds| - 1];
    }

    method UnwindFrame()
      requires |frames| > 0
      modifies this
      ensures State() == S.UnwindFrame(host, old(State()))
    {
      var frame := Last(frames);
      frames := frames[..|frames| - 1];
      if frame.isCctor {
        var current := S.ActiveException(mode);
        if current.Some? {
          var wrapper := host.wrap(frame.methodId, current.value);
          if wrapper.Some? {
            mode := Throwing(wrapper.value, false);
          }
        }
      }
      stack := Truncate(stack, frame.base.arguments);
    }

    // ---------------------------------------------------------- the two passes

    method HandleException() returns (r: StepResult)
      modifies this
      ensures S.Outcome(State(), r) == S.Handle(host, old(State()))
      decreases S.NestedRank(mode), |frames|, S.PhaseRank(mode)
    {
      match mode {
        case Idle => r := Exception;
        case Throwing(exception, _) => r := BeginThrowing(exception);
        case Searching(state) => r := SearchForHandler(state.exception, state.cursor);
        case Unwinding(state) => r := Unwind(state);
        case Filtering(_) => r := Exception;
        case ExecutingHandler(_) => r := Exception;
      }
    }

    method BeginThrowing(exception: ObjectRef) returns (r: StepResult)
      modifies this
      ensures S.Outcome(State(), r) == S.BeginThrowing(host, old(State()), exception)
      decreases S.NestedRank(mode), |frames|, 8
    {
      if frames == [] {
        return Panic;
      }
      if !host.hasExceptionType {
        return Error(NoExceptionType);
      }
      if mode.Idle? || mode.Throwing? {
        suspendedStack := [];
        suspendedFrames := [];
      }
      var nested := S.NestedFilterOf(mode);
      mode := Searching(SearchState(exception, HandlerAddress(|frames| - 1, 0, 0), nested));
      r := HandleException();
    }

    /** The nested loops of the search: frames downwards, sections and handlers upwards, from the cursor. */
    method Scan(exception: ObjectRef, cursor: HandlerAddress, stop: nat) returns (scan: S.Scan)
      requires cursor.frame < |frames|
      ensures scan == S.ScanFrom(host, exception, frames, cursor.frame, cursor.section, cursor.handler, stop)
    {
      var remaining := cursor.frame + 1;
      var s0: nat, h0: nat := cursor.section, cursor.handler;
      while stop < remaining
        invariant remaining <= cursor.frame + 1
        invariant S.ScanFrom(host, exception, frames, cursor.frame, cursor.section, cursor.handler, stop)
                  == if stop < remaining then S.ScanFrom(host, exception, frames, remaining - 1, s0, h0, stop)
                  else S.Missing
      {
        var f := remaining - 1;
        var s: nat, h: nat := s0, h0;
        while s < |frames[f].sections|
          invariant S.ScanFrom(host, exception, frames, f, s0, h0, stop)
                    == S.ScanFrom(host, exception, frames, f, s, h, stop)
        {
          var section := frames[f].sections[s];
          if section.instructions.Contains(frames[f].ip) {
            while h < |section.handlers|
              invariant S.ScanFrom(host, exception, frames, f, s0, h0, stop)
                        == S.ScanFrom(host, exception, frames, f, s, h, stop)
            {
              var test := S.TestHandler(host, exception, section.handlers[h].kind);
              if !test.Reject? {
                return S.Found(HandlerAddress(f, s, h), test);
              }
              h := h + 1;
            }
          }
          s, h := s + 1, 0;
        }
        remaining := remaining - 1;
        s0, h0 := 0, 0;
      }
      scan := S.Missing;
    }

    method SearchForHandler(exception: ObjectRef, cursor: HandlerAddress) returns (r: StepResult)
      modifies this
      ensures S.Outcome(State(), r) == S.Search(host, old(State()), exception, cursor)
      decreases S.NestedRank(mode), |frames|, 6
    {
      var nested: Option<FilterState> := None;
      if mode.Searching? {
        nested := mode.search.nested;
      }
      var stop := 0;
      if nested.Some? {
        if nested.value.handler.frame == 0 {
          return Panic;
        }
        stop := nested.value.handler.frame;
      }
      if |frames| <= cursor.frame {
        return Panic;
      }
      var scan := Scan(exception, cursor, stop);
      if scan.Found? && scan.test.Accept? {
        mode := Unwinding(UnwindState(Some(exception), ToHandler(scan.address), HandlerAddress(|frames| - 1, 0, 0),
            None));
        return Exception;
      }
      if scan.Found? && scan.test.Ask? {
        r := EnterFilter(exception, scan.address, scan.test.clauseOffset);
        return;
      }
      if scan.Found? && scan.test.Fail? {
        return Error(scan.test.failure);
      }
      if nested.Some? {
        mode := Unwinding(UnwindState(Some(exception), ToInstruction(LEAVE_FRAME), HandlerAddress(|frames| - 1, 0, 0),
            nested));
        r := HandleException();
        return;
      }
      if exception.Null? || host.describe(exception.id).None? || !host.hasExceptionType {
        return Panic;
      }
      mode := Idle;
      frames, suspendedFrames := [], [];
      stack, suspendedStack := [], [];
      r := MethodThrew(exception);
    }

    method EnterFilter(exception: ObjectRef, a: HandlerAddress, clauseOffset: nat) returns (r: StepResult)
      modifies this
      ensures S.Outcome(State(), r) == S.EnterFilter(old(State()), exception, a, clauseOffset)
    {
      if |frames| <= a.frame || |stack| < frames[a.frame].base.stack {
        return Panic;
      }
      var frame := frames[a.frame];
      mode := Filtering(FilterState(exception, a, frame.ip, frame.base.stack + frame.stackHeight));
      SuspendAbove(a.frame);
      frames := frames[a.frame := frames[a.frame].(ip := clauseOffset, stackHeight := 0,
                                                   exceptionStack := frames[a.frame].exceptionStack + [exception])];
      assert frames == old(frames)[..a.frame] + [frames[a.frame]];
      PushObject(exception);
      r := Exception;
    }

    static method IsExitingSection(section: Section, ip: nat, target: UnwindTarget) returns (exits: bool)
      ensures exits == S.Exits(section, ip, target)
    {
      var inTry := section.instructions.Contains(ip);
      match target {
        case ToHandler(_) =>
          return inTry;
        case ToInstruction(t) =>
          var inHandler := false;
          for k := 0 to |section.handlers|
            invariant inHandler <==> exists m :: 0 <= m < k && section.handlers[m].instructions.Contains(ip)
            invariant forall m :: 0 <= m < k ==>
                        !(section.handlers[m].instructions.Contains(ip) && section.handlers[m].instructions.Contains(t))
          {
            if section.handlers[k].instructions.Contains(ip) {
              inHandler := true;
              if section.handlers[k].instructions.Contains(t) {
                return false;
              }
            }
          }
          return (inTry || inHandler) && !section.instructions.Contains(t);
      }
    }

    /** The sweep of a frame, of which `popped` exceptions are done, goes on at (s, h). */
    static ghost predicate Sweeping(sweep: S.Sweep, sections: seq<Section>, ip: nat, u: UnwindState, s: nat, h: nat,
                                    limit: nat, popped: nat)
      requires limit <= |sections|
    {
      sweep == Counted(S.SweepFrom(sections, ip, u.target, u.exception.Some?, s, h, limit), popped)
    }

    static lemma SweepEnds(sweep: S.Sweep, sections: seq<Section>, ip: nat, u: UnwindState, s: nat, h: nat, limit: nat,
                           popped: nat)
      requires limit <= |sections| && limit <= s && Sweeping(sweep, sections, ip, u, s, h, limit, popped)
      ensures sweep == S.Sweep(popped, None)
    {
    }

    static lemma SweepSkips(sweep: S.Sweep, sections: seq<Section>, ip: nat, u: UnwindState, s: nat, h: nat,
                            limit: nat, popped: nat)
      requires s < limit <= |sections| && Sweeping(sweep, sections, ip, u, s, h, limit, popped)
               && !S.Exits(sections[s], ip, u.target)
      ensures Sweeping(sweep, sections, ip, u, s + 1, 0, limit, popped)
    {
    }

    /** The section loop of the unwind in frame `f`. Active exceptions of catches that are left are popped on
        the way; the result is the handler to run, if any. */
    method SweepFrame(u: UnwindState, f: nat, s0: nat, h0: nat) returns (stop: Option<(nat, nat)>)
      requires f < |frames|
      modifies this
      ensures var frame := old(frames)[f];
              var sweep := S.SweepFrom(frame.sections, frame.ip, u.target, u.exception.Some?, s0, h0,
                                       S.SectionLimit(frame.sections, f, u.target));
              stop == sweep.stop && State() == Swept(old(State()), f, sweep.pops)
    {
      var ip, sections := frames[f].ip, frames[f].sections;
      ghost var limit := S.SectionLimit(sections, f, u.target);
      ghost var sweep := S.SweepFrom(sections, ip, u.target, u.exception.Some?, s0, h0, limit);
      ghost var popped: nat := 0;
      SweptNone(State(), f);
      var s: nat, h: nat := s0, h0;
      while s < |sections|
        invariant State() == Swept(old(State()), f, popped)
        invariant Sweeping(sweep, sections, ip, u, s, h, limit, popped)
      {
        if u.target.ToHandler? && f == u.target.address.frame && u.target.address.section <= s {
          break;
        }
        var exiting := IsExitingSection(sections[s], ip, u.target);
        if exiting {
          var k;
          k, popped := SweepSection(u, f, s, h, old(State()), limit, sweep, popped);
          if k.Some? {
            return Some((s, k.value));
          }
        } else {
          SweepSkips(sweep, sections, ip, u, s, h, limit, popped);
        }
        s, h := s + 1, 0;
      }
      SweepEnds(sweep, sections, ip, u, s, h, limit, popped);
      stop := None;
    }

    /** The handler loop of the unwind, for a section that is being exited. `vm` is the state before the frame
        was swept, of which `before` exceptions are popped already. */
    method SweepSection(u: UnwindState, f: nat, s: nat, h0: nat, ghost vm: Vm, ghost limit: nat, ghost sweep: S.Sweep,
                        ghost before: nat)
      returns (k: Option<nat>, ghost popped: nat)
      requires f < |vm.frames| && State() == Swept(vm, f, before)
      requires s < limit <= |vm.frames[f].sections| && S.Exits(vm.frames[f].sections[s], vm.frames[f].ip, u.target)
      requires Sweeping(sweep, vm.frames[f].sections, vm.frames[f].ip, u, s, h0, limit, before)
      modifies this
      ensures State() == Swept(vm, f, popped)
      ensures k.Some? ==> sweep == S.Sweep(popped, Some((s, k.value)))
      ensures k.None? ==> Sweeping(sweep, vm.frames[f].sections, vm.frames[f].ip, u, s + 1, 0, limit, popped)
    {
      var ip, sections := frames[f].ip, frames[f].sections;
      popped := before;
      var h: nat := h0;
      while h < |sections[s].handlers|
        invariant State() == Swept(vm, f, popped)
        invariant Sweeping(sweep, sections, ip, u, s, h, limit, popped)
      {
        var handler := sections[s].handlers[h];
        if handler.instructions.Contains(ip) {
          if handler.kind.Catches() {
            PopException(f);
            SweptAdds(vm, f, popped, 1);
            popped := popped + 1;
          }
        } else if handler.kind.Finally? || (handler.kind.Fault? && u.exception.Some?) {
          k := Some(h);
          return;
        }
        h := h + 1;
      }
      k := None;
    }

    /** `vm` with the last `n` active exceptions of frame `f` removed. */
    static ghost function Swept(vm: Vm, f: nat, n: nat): Vm
      requires f < |vm.frames|
    {
      vm.(frames := vm.frames[f := vm.frames[f].(exceptionStack := DropLast(vm.frames[f].exceptionStack, n))])
    }

    static ghost function Counted(sweep: S.Sweep, n: nat): S.Sweep {
      sweep.(pops := sweep.pops + n)
    }

    static lemma SweptNone(vm: Vm, f: nat)
      requires f < |vm.frames|
      ensures Swept(vm, f, 0) == vm
    {
      assert DropLast(vm.frames[f].exceptionStack, 0) == vm.frames[f].exceptionStack;
    }

    static lemma SweptAdds(vm: Vm, f: nat, m: nat, n: nat)
      requires f < |vm.frames|
      ensures Swept(Swept(vm, f, m), f, n) == Swept(vm, f, m + n)
    {
      assert DropLast(DropLast(vm.frames[f].exceptionStack, m), n) == DropLast(vm.frames[f].exceptionStack, m + n);
    }

    method PopException(f: nat)
      requires f < |frames|
      modifies this
      ensures State() == Swept(old(State()), f, 1)
    {
      frames := frames[f := frames[f].(exceptionStack := DropLast(frames[f].exceptionStack, 1))];
    }

    method Unwind(u: UnwindState) returns (r: StepResult)
      requires mode == Unwinding(u)
      modifies this
      ensures S.Outcome(State(), r) == S.Unwind(host, old(State()), u)
      decreases S.NestedRank(mode), |frames|, 4
    {
      var end := Advance(u);
      match end {
        case AtHandler => r := Exception;
        case AtThrow => r := HandleException();
        case AtTarget => r := Arrive(u);
        case OffStack => r := Panic;
      }
    }

    method Advance(u: UnwindState) returns (end: End)
      requires mode == Unwinding(u)
      modifies this
      ensures Ends(S.Advance(host, old(State()), u, u.cursor.frame, u.cursor.section, u.cursor.handler), end, State())
    {
      CursorIsLeft(host, State(), u);
      end := AdvanceFrames(u, S.Advance(host, State(), u, u.cursor.frame, u.cursor.section, u.cursor.handler));
    }

    /** The frame loop of the unwind: from the cursor's frame down to the target frame. */
    method AdvanceFrames(u: UnwindState, ghost halt: S.Halt) returns (end: End)
      requires Left(halt, host, State(), u, u.cursor.frame + 1, u.cursor.section, u.cursor.handler)
      modifies this
      ensures Ends(halt, end, State())
    {
      var remaining: nat := u.cursor.frame + 1;
      var s0: nat, h0: nat := u.cursor.section, u.cursor.handler;
      while S.TargetFrame(u) < remaining
        invariant Left(halt, host, State(), u, remaining, s0, h0)
        decreases remaining
      {
        var done := AdvanceFrame(u, remaining - 1, s0, h0, halt);
        if done.Some? {
          return done.value;
        }
        remaining := remaining - 1;
        s0, h0 := 0, 0;
      }
      end := AtTarget;
    }

    static ghost predicate Ends(halt: S.Halt, end: End, vm: Vm) {
      match end
      case AtHandler => halt == S.Stopped(vm)
      case AtThrow => halt == S.Preempted(vm)
      case AtTarget => halt == S.Reached(vm)
      case OffStack => halt == S.Broken(vm)
    }

    /** The pass ends in `halt` when `remaining` frames may still be visited, the first from (s, h) on. */
    static ghost predicate Left(halt: S.Halt, host: Host, vm: Vm, u: UnwindState, remaining: nat, s: nat, h: nat) {
      && vm.mode == Unwinding(u)
      && halt == if S.TargetFrame(u) < remaining then S.Advance(host, vm, u, remaining - 1, s, h) else S.Reached(vm)
    }

    static lemma CursorIsLeft(host: Host, vm: Vm, u: UnwindState)
      requires vm.mode == Unwinding(u)
      ensures Left(S.Advance(host, vm, u, u.cursor.frame, u.cursor.section, u.cursor.handler), host, vm, u,
                   u.cursor.frame + 1, u.cursor.section, u.cursor.handler)
    {
    }

    /** One frame of the pass: stops at a handler, or pops the frame when it is above the target. */
    method AdvanceFrame(u: UnwindState, f: nat, s0: nat, h0: nat, ghost halt: S.Halt) returns (done: Option<End>)
      requires Left(halt, host, State(), u, f + 1, s0, h0) && S.TargetFrame(u) <= f
      modifies this
      ensures done.Some? ==> Ends(halt, done.value, State())
      ensures done.None? ==> Left(halt, host, State(), u, f, 0, 0)
    {
      if |frames| <= f {
        return Some(OffStack);
      }
      var stop := SweepFrame(u, f, s0, h0);
      if stop.Some? {
        RunHandler(u, f, stop.value.0, stop.value.1);
        return Some(AtHandler);
      }
      if S.TargetFrame(u) < f {
        UnwindFrame();
        if mode.Throwing? {
          return Some(AtThrow);
        }
      }
      done := None;
    }

    /** Hands control to a handler and saves the cursor past it. */
    method RunHandler(u: UnwindState, f: nat, s: nat, h: nat)
      requires f < |frames| && s < |frames[f].sections| && h < |frames[f].sections[s].handlers|
      modifies this
      ensures var frame := old(frames)[f];
              State() == old(State()).(mode := ExecutingHandler(u.(cursor := S.NextCursor(frame.sections, f, s, h))),
                           frames := old(frames)[f := frame.(ip := frame.sections[s].handlers[h].instructions.start,
                               stackHeight := 0)])
    {
      var handlers := frames[f].sections[s].handlers;
      var next := if h + 1 < |handlers| then HandlerAddress(f, s, h + 1) else HandlerAddress(f, s + 1, 0);
      mode := ExecutingHandler(UnwindState(u.exception, u.target, next, u.nested));
      frames := frames[f := frames[f].(ip := handlers[h].instructions.start, stackHeight := 0)];
    }

    method Arrive(u: UnwindState) returns (r: StepResult)
      requires mode == Unwinding(u)
      modifies this
      ensures S.Outcome(State(), r) == S.Arrive(host, old(State()), u)
      decreases S.NestedRank(mode), |frames|, 3
    {
      match u.target {
        case ToHandler(a) =>
          r := EnterCatch(u, a);
        case ToInstruction(t) =>
          if t == LEAVE_FRAME {
            if u.nested.Some? {
              r := CompleteNestedFilter(u.nested.value);
              return;
            }
            mode := Idle;
            return Return;
          }
          if |frames| <= S.TargetFrame(u) {
            return Panic;
          }
          var resumed := PopHandlerUnwind();
          mode := if resumed.Some? then ExecutingHandler(resumed.value) else Idle;
          frames := frames[S.TargetFrame(u) := frames[S.TargetFrame(u)].(ip := t, stackHeight := 0)];
          return Exception;
      }
    }

    method EnterCatch(u: UnwindState, a: HandlerAddress) returns (r: StepResult)
      requires mode == Unwinding(u) && u.target == ToHandler(a)
      modifies this
      ensures S.Outcome(State(), r) == S.Arrive(host, old(State()), u)
    {
      if !(a.frame < |frames| && a.section < |frames[a.frame].sections|
           && a.handler < |frames[a.frame].sections[a.section].handlers| && u.exception.Some?) {
        return Panic;
      }
      mode := Idle;
      var handler := frames[a.frame].sections[a.section].handlers[a.handler];
      frames := frames[a.frame := frames[a.frame].(ip := handler.instructions.start, stackHeight := 0)];
      stack := Truncate(stack, frames[a.frame].base.stack);
      frames := frames[a.frame := frames[a.frame].(exceptionStack := frames[a.frame].exceptionStack
                                                   + [u.exception.value])];
      PushObject(u.exception.value);
      r := Exception;
    }

    method CompleteNestedFilter(filter: FilterState) returns (r: StepResult)
      requires S.NestedRank(mode) == 1
      modifies this
      ensures S.Outcome(State(), r) == S.CompleteNestedFilter(host, old(State()), filter)
      decreases S.NestedRank(mode), |frames|, 2
    {
      if |frames + suspendedFrames| <= filter.handler.frame {
        return Panic;
      }
      RestoreSuspended();
      RestoreFilterFrame(filter);
      mode := Searching(SearchState(filter.exception,
                                    HandlerAddress(filter.handler.frame, filter.handler.section,
                                        filter.handler.handler + 1), None));
      r := HandleException();
    }

    /** Puts the frame that ran the filter back to where the search found it. */
    method RestoreFilterFrame(filter: FilterState)
      requires filter.handler.frame < |frames|
      modifies this
      ensures var frame := old(frames)[filter.handler.frame];
              var height := if filter.originalStackHeight < frame.base.stack then 0
              else filter.originalStackHeight - frame.base.stack;
              State() == old(State()).(frames := old(frames)[filter.handler.frame :=
                           frame.(ip := filter.originalIp, stackHeight := height,
                               exceptionStack := DropLast(frame.exceptionStack, 1))])
    {
      var f := filter.handler.frame;
      var base := frames[f].base.stack;
      var height := if filter.originalStackHeight < base then 0 else filter.originalStackHeight - base;
      frames := frames[f := frames[f].(ip := filter.originalIp, stackHeight := height,
                                       exceptionStack := DropLast(frames[f].exceptionStack, 1))];
    }

    // ---------------------------------------------------------- instructions

    method Throw(exception: ObjectRef) returns (r: StepResult)
      modifies this
      ensures S.Outcome(State(), r) == S.Throw(host, old(State()), exception)
    {
      mode := Throwing(exception, false);
      r := HandleException();
    }

    method Rethrow() returns (r: StepResult)
      modifies this
      ensures S.Outcome(State(), r) == S.Rethrow(host, old(State()))
    {
      if frames == [] {
        return Panic;
      }
      if Last(frames).exceptionStack == [] {
        return Error(InvalidCil);
      }
      mode := Throwing(Last(Last(frames).exceptionStack), true);
      r := HandleException();
    }

    method Leave(target: nat) returns (r: StepResult)
      modifies this
      ensures S.Outcome(State(), r) == S.Leave(host, old(State()), target)
    {
      if frames == [] {
        return Panic;
      }
      var top := |frames| - 1;
      if mode.ExecutingHandler? && mode.unwind.cursor.frame < top {
        pendingUnwinds := pendingUnwinds + [mode.unwind];
      }
      mode := Unwinding(UnwindState(None, ToInstruction(target), HandlerAddress(top, 0, 0), None));
      r := HandleException();
    }

    method Ret() returns (r: StepResult)
      modifies this
      ensures S.Outcome(State(), r) == S.Ret(host, old(State()))
    {
      if frames == [] {
        return Panic;
      }
      var top := |frames| - 1;
      if mode.ExecutingHandler? && mode.unwind.cursor.frame == top {
        mode := Unwinding(UnwindState(mode.unwind.exception, ToInstruction(LEAVE_FRAME), mode.unwind.cursor,
            mode.unwind.nested));
        r := HandleException();
        return;
      }
      var guarded := HasFinallyBlocks(frames[top]);
      if guarded {
        mode := Unwinding(UnwindState(None, ToInstruction(LEAVE_FRAME), HandlerAddress(top, 0, 0), None));
        r := HandleException();
        return;
      }
      r := Return;
    }

    static method HasFinallyBlocks(frame: Frame) returns (guarded: bool)
      ensures guarded == S.ReturnUnwinds(frame)
    {
      for i := 0 to |frame.sections|
        invariant forall m :: 0 <= m < i ==> !S.GuardsReturn(frame.sections[m], frame.ip)
      {
        var section := frame.sections[i];
        if section.instructions.Contains(frame.ip) {
          for k := 0 to |section.handlers|
            invariant forall m :: 0 <= m < k ==> section.handlers[m].kind.Catches()
          {
            if !section.handlers[k].kind.Catches() {
              return true;
            }
          }
        }
      }
      guarded := false;
    }

    method EndFinally() returns (r: StepResult)
      modifies this
      ensures S.Outcome(State(), r) == S.EndFinally(host, old(State()))
    {
      if !mode.ExecutingHandler? {
        return Error(InvalidCil);
      }
      mode := Unwinding(mode.unwind);
      r := HandleException();
    }

    method EndFilter(result: int) returns (r: StepResult)
      modifies this
      ensures S.Outcome(State(), r) == S.EndFilter(old(State()), result)
    {
      if !mode.Filtering? {
        return Error(InvalidCil);
      }
      var filter := mode.filter;
      if |frames| <= filter.handler.frame {
        return Panic;
      }
      RestoreFilterFrame(filter);
      RestoreSuspended();
      if result == 1 {
        mode := Unwinding(UnwindState(Some(filter.exception), ToHandler(filter.handler),
                                      HandlerAddress(|frames| - 1, 0, 0), None));
      } else {
        mode := Searching(SearchState(filter.exception,
                                      HandlerAddress(filter.handler.frame, filter.handler.section,
                                          filter.handler.handler + 1), None));
      }
      r := Exception;
    }
  }
}
