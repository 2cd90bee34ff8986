/** The search pass: for every run, with any number of filters executed on the way, the handler chosen is
    the first one, in the order of the pass, that accepts the exception. */
module SearchTheorems {
  import opened Wrappers
  import opened ExceptionData
  import opened ExceptionSemantics
  import opened UnwindPass

  /** The handler's try block holds the instruction its frame is at. */
  predicate Covers(frames: seq<Frame>, a: HandlerAddress) {
    ValidAddress(frames, a) && frames[a.frame].sections[a.section].instructions.Contains(frames[a.frame].ip)
  }

  /** The handler is not in the way of the search. */
  predicate Passed(host: Host, exception: ObjectRef, frames: seq<Frame>, a: HandlerAddress) {
    Covers(frames, a) ==> TestHandler(host, exception, HandlerAt(frames, a).kind).Reject?
  }

  /** Every handler from `from` on and before `to` lets the search pass. */
  ghost predicate AllPassed(host: Host, exception: ObjectRef, frames: seq<Frame>, from: HandlerAddress,
                            to: HandlerAddress) {
    forall a {:trigger Passed(host, exception, frames, a)} ::
      !Before(a, from) && Before(a, to) ==> Passed(host, exception, frames, a)
  }

  /** Every handler from `from` on, down to frame `stop`, lets the search pass. */
  ghost predicate AllPassedDown(host: Host, exception: ObjectRef, frames: seq<Frame>, from: HandlerAddress, stop: nat) {
    forall a {:trigger Passed(host, exception, frames, a)} ::
      !Before(a, from) && stop <= a.frame ==> Passed(host, exception, frames, a)
  }

  /** The scan finds the first handler that does not reject, and finds none only if all reject. */
  lemma {:induction false} ScanFindsFirst(host: Host, exception: ObjectRef, frames: seq<Frame>, f: nat, s: nat, h: nat,
                                          stop: nat)
    requires stop <= f < |frames|
    ensures var from := HandlerAddress(f, s, h);
            match ScanFrom(host, exception, frames, f, s, h, stop)
            case Missing => AllPassedDown(host, exception, frames, from, stop)
            case Found(a, test) =>
              && Covers(frames, a) && !Before(a, from) && stop <= a.frame
              && test == TestHandler(host, exception, HandlerAt(frames, a).kind) && !test.Reject?
              && AllPassed(host, exception, frames, from, a)
    decreases f, SectionsLeft(frames, f, s), HandlersLeft(frames, f, s, h)
  {
    var here := HandlerAddress(f, s, h);
    if |frames[f].sections| <= s {
      if stop < f {
        ScanFindsFirst(host, exception, frames, f - 1, 0, 0, stop);
        StepOver(host, exception, frames, here, HandlerAddress(f - 1, 0, 0));
      }
    } else {
      var section := frames[f].sections[s];
      if !section.instructions.Contains(frames[f].ip) || |section.handlers| <= h {
        ScanFindsFirst(host, exception, frames, f, s + 1, 0, stop);
        StepOver(host, exception, frames, here, HandlerAddress(f, s + 1, 0));
      } else if TestHandler(host, exception, section.handlers[h].kind).Reject? {
        ScanFindsFirst(host, exception, frames, f, s, h + 1, stop);
        StepOver(host, exception, frames, here, HandlerAddress(f, s, h + 1));
      }
    }
  }

  /** What holds from a later address on holds from an earlier one if all between lets the search pass. */
  lemma StepOver(host: Host, exception: ObjectRef, frames: seq<Frame>, from: HandlerAddress, next: HandlerAddress)
    requires !Before(next, from)
    requires forall a :: !Before(a, from) && Before(a, next) ==> Passed(host, exception, frames, a)
    ensures forall to :: AllPassed(host, exception, frames, next, to) ==> AllPassed(host, exception, frames, from, to)
    ensures forall stop: nat :: AllPassedDown(host, exception, frames, next, stop) ==>
        AllPassedDown(host, exception, frames, from, stop)
  {
  }

  // ------------------------------------------------------------ filters

  /** What running a filter clause may do before its `endfilter`: calls are balanced, the frames below and
      everything suspended are untouched, the operands of the clause are consumed, and the mode is what it was.
      A filter that executes `leave` or catches an exception does not keep the mode, but then `endfilter` fails; where
      it does not fail, the mode is kept (`FilterTheorems.EndFilterFailsExactlyWhen`). */
  predicate FilterRan(vm1: Vm, vm2: Vm) {
    && vm1.mode.Filtering? && |vm1.frames| > 0 && |vm2.frames| == |vm1.frames|
    && var f := |vm1.frames| - 1;
    && vm2.frames[..f] == vm1.frames[..f]
    && vm2.frames[f] == vm1.frames[f].(ip := vm2.frames[f].ip, stackHeight := vm2.frames[f].stackHeight)
    && |vm2.stack| == vm1.frames[f].base.stack
    && vm2 == vm1.(frames := vm2.frames, stack := vm2.stack)
  }

  /** The search can go on: its cursor is in a live frame and nothing is suspended. */
  predicate SearchReady(vm: Vm) {
    && vm.mode.Searching? && vm.mode.search.nested.None?
    && vm.mode.search.cursor.frame < |vm.frames|
    && vm.suspendedFrames == [] && vm.suspendedStack == []
    && Layout(vm.frames, |vm.stack|)
  }

  /** Where `endfilter` goes on: at the handler, or with the search just past it. */
  function AfterFilter(vm: Vm, exception: ObjectRef, a: HandlerAddress, result: int): Mode
    requires |vm.frames| > 0
  {
    if result == 1 then Unwinding(UnwindState(Some(exception), ToHandler(a), Top(vm), None))
    else Searching(SearchState(exception, a.(handler := a.handler + 1), None))
  }

  /** Entering a filter and finishing it restores every frame and the height of the stack. */
  lemma {:induction false} FilterRoundTrip(vm: Vm, exception: ObjectRef, a: HandlerAddress, clause: nat, vm2: Vm,
                                           result: int)
    requires a.frame < |vm.frames| && Layout(vm.frames, |vm.stack|)
    requires vm.suspendedFrames == [] && vm.suspendedStack == []
    requires FilterRan(EnterFilter(vm, exception, a, clause).vm, vm2)
    ensures vm.frames[a.frame].base.stack <= |vm.stack|
    ensures var out, base := EndFilter(vm2, result), vm.frames[a.frame].base.stack;
            && out.result == Exception && |out.vm.stack| == |vm.stack| && out.vm.stack[base..] == vm.stack[base..]
            && out.vm == vm.(stack := out.vm.stack, mode := AfterFilter(vm, exception, a, result))
  {
    assert OnStack(vm.frames[a.frame], |vm.stack|);
    var vm1, base := EnterFilter(vm, exception, a, clause).vm, vm.frames[a.frame].base.stack;
    EnteredFrames(vm, exception, a, clause);
    FramesRestored(vm, exception, a, vm2);
    assert EndFilter(vm2, result).vm.stack == vm2.stack + vm.stack[base..];
  }

  /** What entering a filter leaves: the frame of the filter on top, and everything else suspended. */
  lemma EnteredFrames(vm: Vm, exception: ObjectRef, a: HandlerAddress, clause: nat)
    requires a.frame < |vm.frames| && OnStack(vm.frames[a.frame], |vm.stack|)
    ensures var vm1, frame := EnterFilter(vm, exception, a, clause).vm, vm.frames[a.frame];
            && vm1 == vm.(mode := Filtering(FilterState(exception, a, frame.ip, frame.base.stack + frame.stackHeight)),
                          frames := vm.frames[..a.frame] + [frame.(ip := clause, stackHeight := 1,
                                                                   exceptionStack := frame.exceptionStack
                                                                   + [exception])],
                          suspendedFrames := vm.frames[a.frame + 1..],
                          stack := vm.stack[..frame.base.stack] + [ObjectValue(exception)],
                          suspendedStack := vm.stack[frame.base.stack..])
  {
  }

  lemma FramesRestored(vm: Vm, exception: ObjectRef, a: HandlerAddress, vm2: Vm)
    requires a.frame < |vm.frames|
    requires var frame := vm.frames[a.frame];
             && |vm2.frames| == a.frame + 1 && vm2.frames[..a.frame] == vm.frames[..a.frame]
             && vm2.frames[a.frame] == frame.(ip := vm2.frames[a.frame].ip,
                 stackHeight := vm2.frames[a.frame].stackHeight,
                                              exceptionStack := frame.exceptionStack + [exception])
             && vm2.suspendedFrames == vm.frames[a.frame + 1..]
             && vm2.mode == Filtering(FilterState(exception, a, frame.ip, frame.base.stack + frame.stackHeight))
    ensures forall result :: EndFilter(vm2, result).vm.frames == vm.frames
  {
    var frame := vm.frames[a.frame];
    assert DropLast(frame.exceptionStack + [exception], 1) == frame.exceptionStack;
    forall result ensures EndFilter(vm2, result).vm.frames == vm.frames {
      assert EndFilter(vm2, result).vm.frames == vm.frames[..a.frame] + [frame] + vm.frames[a.frame + 1..];
    }
  }

  // ------------------------------------------------------------ whole searches

  /** One filter on the way: the search stops at it, it runs, and its verdict is no. */
  predicate Declined(host: Host, verdict: HandlerAddress -> int, vm: Vm, vm2: Vm, vm': Vm) {
    && vm.mode.Searching?
    && FilterRan(Handle(host, vm).vm, vm2)
    && vm2.mode.Filtering?
    && verdict(vm2.mode.filter.handler) != 1
    && vm' == EndFilter(vm2, verdict(vm2.mode.filter.handler)).vm
  }

  /** The searching states of a run, and between them the states in which filters ended with a no. */
  predicate SearchRun(host: Host, verdict: HandlerAddress -> int, run: seq<Vm>, filters: seq<Vm>) {
    && |run| == |filters| + 1
    && forall i :: 0 <= i < |filters| ==> Declined(host, verdict, run[i], filters[i], run[i + 1])
  }

  /** The one-line specification: the handler covers the throw and its type test or filter says yes. */
  predicate Accepts(host: Host, verdict: HandlerAddress -> int, exception: ObjectRef, frames: seq<Frame>,
                    a: HandlerAddress) {
    && Covers(frames, a)
    && match TestHandler(host, exception, HandlerAt(frames, a).kind)
       case Accept => true
       case Ask(_) => verdict(a) == 1
       case Reject => false
       case Fail(_) => false
  }

  /** No handler before the address accepts. */
  ghost predicate NoneAcceptsBefore(host: Host, verdict: HandlerAddress -> int, exception: ObjectRef,
                                    frames: seq<Frame>, to: HandlerAddress) {
    forall a {:trigger Accepts(host, verdict, exception, frames, a)} :: Before(a, to) ==>
        !Accepts(host, verdict, exception, frames, a)
  }

  /** The state of a search some filters after its beginning `vm0`: all frames are as they were, and
      everything before the cursor has declined. */
  ghost predicate SearchSince(host: Host, verdict: HandlerAddress -> int, vm0: Vm, vm: Vm) {
    && SearchReady(vm0) && SearchReady(vm)
    && vm.frames == vm0.frames && |vm.stack| == |vm0.stack|
    && vm.mode.search.exception == vm0.mode.search.exception
    && vm == vm0.(stack := vm.stack, mode := vm.mode)
    && NoneAcceptsBefore(host, verdict, vm0.mode.search.exception, vm0.frames, vm.mode.search.cursor)
  }

  /** What was declined before the cursor and passed over after it covers everything before the find. */
  lemma NoneAcceptsBeforeFind(host: Host, verdict: HandlerAddress -> int, exception: ObjectRef, frames: seq<Frame>,
                              cursor: HandlerAddress, a: HandlerAddress)
    requires NoneAcceptsBefore(host, verdict, exception, frames, cursor)
    requires AllPassed(host, exception, frames, cursor, a)
    ensures NoneAcceptsBefore(host, verdict, exception, frames, a)
  {
    forall b | Before(b, a) ensures !Accepts(host, verdict, exception, frames, b) {
      if !Before(b, cursor) {
        assert Passed(host, exception, frames, b);
      }
    }
  }

  /** The scan that a searching state performs. */
  function ScanOf(host: Host, vm: Vm): Scan
    requires SearchReady(vm)
  {
    var state := vm.mode.search;
    ScanFrom(host, state.exception, vm.frames, state.cursor.frame, state.cursor.section, state.cursor.handler, 0)
  }

  lemma {:induction false} ScanOfFindsFirst(host: Host, verdict: HandlerAddress -> int, vm0: Vm, vm: Vm)
    requires SearchSince(host, verdict, vm0, vm)
    ensures ScanOf(host, vm).Found? ==>
              && Covers(vm.frames, ScanOf(host, vm).address)
              && ScanOf(host, vm).test == TestHandler(host, vm.mode.search.exception,
                  HandlerAt(vm.frames, ScanOf(host, vm).address).kind)
              && !ScanOf(host, vm).test.Reject?
              && NoneAcceptsBefore(host, verdict, vm.mode.search.exception, vm.frames, ScanOf(host, vm).address)
    ensures ScanOf(host, vm).Missing? ==> forall a :: !Accepts(host, verdict, vm.mode.search.exception, vm.frames, a)
  {
    var state := vm.mode.search;
    ScanFindsFirst(host, state.exception, vm.frames, state.cursor.frame, state.cursor.section, state.cursor.handler, 0);
    if ScanOf(host, vm).Found? {
      NoneAcceptsBeforeFind(host, verdict, state.exception, vm.frames,
                            HandlerAddress(state.cursor.frame, state.cursor.section, state.cursor.handler),
                                ScanOf(host, vm).address);
    } else {
      forall a ensures !Accepts(host, verdict, state.exception, vm.frames, a) {
        if !Before(a, state.cursor) { assert Passed(host, state.exception, vm.frames, a); }
      }
    }
  }

  /** A call of the engine in the searching mode is one scan and what it leads to. */
  lemma HandleIsScan(host: Host, vm: Vm)
    requires SearchReady(vm)
    ensures var scan, out, exception := ScanOf(host, vm), Handle(host, vm), vm.mode.search.exception;
            && (scan.Found? && scan.test.Accept? ==>
                  out == Outcome(vm.(mode := Unwinding(UnwindState(Some(exception), ToHandler(scan.address), Top(vm),
                      None))), Exception))
            && (scan.Found? && scan.test.Ask? ==>
                out == EnterFilter(vm, exception, scan.address, scan.test.clauseOffset))
            && (scan.Found? && scan.test.Fail? ==> out == Outcome(vm, Error(scan.test.failure)))
            && (scan.Missing? ==> out.result == Panic || (out.result == MethodThrew(exception) && out.vm.frames == []))
            && (scan.Missing? ==> !out.vm.mode.Filtering? && !out.vm.mode.Unwinding?)
            && (scan.Found? && !scan.test.Reject? ==> !out.result.MethodThrew?)
  {
    assert Handle(host, vm) == Search(host, vm, vm.mode.search.exception, vm.mode.search.cursor);
  }

  /** A filter that ran was the first handler from the cursor on that did not reject; ending it restores the
      call stack of the search. */
  lemma {:induction false} FilterIsFirst(host: Host, verdict: HandlerAddress -> int, vm0: Vm, vm: Vm, vm2: Vm,
                                         result: int)
    requires SearchSince(host, verdict, vm0, vm) && FilterRan(Handle(host, vm).vm, vm2)
    ensures vm2.mode.Filtering?
    ensures var a, exception, out := vm2.mode.filter.handler, vm.mode.search.exception, EndFilter(vm2, result);
            && Covers(vm.frames, a) && TestHandler(host, exception, HandlerAt(vm.frames, a).kind).Ask?
            && NoneAcceptsBefore(host, verdict, exception, vm.frames, a)
            && |out.vm.stack| == |vm.stack|
            && out.vm == vm.(stack := out.vm.stack, mode := AfterFilter(vm, exception, a, result))
  {
    HandleIsScan(host, vm);
    ScanOfFindsFirst(host, verdict, vm0, vm);
    var scan := ScanOf(host, vm);
    if !(scan.Found? && scan.test.Ask?) {
      assert false;
    } else {
      FilterRoundTrip(vm, vm.mode.search.exception, scan.address, scan.test.clauseOffset, vm2, result);
    }
  }

  /** A declined filter restores the frames and puts the cursor just past the filter. */
  lemma {:induction false} DeclineKeepsSearch(host: Host, verdict: HandlerAddress -> int, vm0: Vm, vm: Vm, vm2: Vm,
                                              vm': Vm)
    requires SearchSince(host, verdict, vm0, vm) && Declined(host, verdict, vm, vm2, vm')
    ensures SearchSince(host, verdict, vm0, vm')
  {
    var a, exception := vm2.mode.filter.handler, vm.mode.search.exception;
    FilterIsFirst(host, verdict, vm0, vm, vm2, verdict(a));
    forall b | Before(b, a.(handler := a.handler + 1)) ensures !Accepts(host, verdict, exception, vm0.frames, b) {
      assert b == a || Before(b, a);
    }
  }

  lemma {:induction false} SearchSoFar(host: Host, verdict: HandlerAddress -> int, run: seq<Vm>, filters: seq<Vm>,
                                       i: nat)
    requires SearchRun(host, verdict, run, filters) && i < |run|
    requires SearchReady(run[0]) && run[0].mode.search.cursor == Top(run[0])
    ensures SearchSince(host, verdict, run[0], run[i])
    decreases i
  {
    if i == 0 {
      forall a | Before(a, Top(run[0])) ensures !Accepts(host, verdict, run[0].mode.search.exception, run[0].frames,
          a) {
      }
    } else {
      SearchSoFar(host, verdict, run, filters, i - 1);
      assert Declined(host, verdict, run[i - 1], filters[i - 1], run[i - 1 + 1]);
      DeclineKeepsSearch(host, verdict, run[0], run[i - 1], filters[i - 1], run[i]);
    }
  }

  /** `a` is the first handler, in the order of the search, that accepts the exception. */
  ghost predicate IsChosen(host: Host, verdict: HandlerAddress -> int, vm0: Vm, a: HandlerAddress)
    requires vm0.mode.Searching?
  {
    && Accepts(host, verdict, vm0.mode.search.exception, vm0.frames, a)
    && NoneAcceptsBefore(host, verdict, vm0.mode.search.exception, vm0.frames, a)
  }

  /** The unwind towards `a` starts from the call stack of the search and a stack of the same height. */
  predicate StartsUnwind(vm0: Vm, a: HandlerAddress, vm: Vm)
    requires SearchReady(vm0)
  {
    && |vm.stack| == |vm0.stack|
    && vm == vm0.(stack := vm.stack,
        mode := Unwinding(UnwindState(Some(vm0.mode.search.exception), ToHandler(a), Top(vm0), None)))
  }

  /** Whole search: an unwind starts only towards the first accepting handler and from the untouched call
      stack, and the exception is reported as unhandled only if no handler accepts it. */
  lemma {:induction false} SearchChoosesFirstAccepting(host: Host, verdict: HandlerAddress -> int, run: seq<Vm>,
                                                       filters: seq<Vm>)
    requires SearchRun(host, verdict, run, filters)
    requires SearchReady(run[0]) && run[0].mode.search.cursor == Top(run[0])
    ensures var vm0, out := run[0], Handle(host, Last(run));
            && (out.vm.mode.Unwinding? ==> exists a :: IsChosen(host, verdict, vm0, a) && StartsUnwind(vm0, a, out.vm))
            && (out.result.MethodThrew? ==> forall a ::
                !Accepts(host, verdict, vm0.mode.search.exception, vm0.frames, a))
  {
    SearchSoFar(host, verdict, run, filters, |run| - 1);
    HandleIsScan(host, Last(run));
    ScanOfFindsFirst(host, verdict, run[0], Last(run));
    var scan := ScanOf(host, Last(run));
    if scan.Found? && scan.test.Accept? {
      assert IsChosen(host, verdict, run[0], scan.address)
             && StartsUnwind(run[0], scan.address, Handle(host, Last(run)).vm);
    }
  }

  /** Whole search, ending at a filter that says yes: `endfilter` starts the unwind towards the first
      accepting handler, from the untouched call stack. */
  lemma {:induction false} SearchChoosesAcceptingFilter(host: Host, verdict: HandlerAddress -> int, run: seq<Vm>,
                                                        filters: seq<Vm>, vm2: Vm)
    requires SearchRun(host, verdict, run, filters)
    requires SearchReady(run[0]) && run[0].mode.search.cursor == Top(run[0])
    requires FilterRan(Handle(host, Last(run)).vm, vm2) && verdict(vm2.mode.filter.handler) == 1
    ensures var vm0, a := run[0], vm2.mode.filter.handler;
            && IsChosen(host, verdict, vm0, a)
            && StartsUnwind(vm0, a, EndFilter(vm2, 1).vm)
  {
    SearchSoFar(host, verdict, run, filters, |run| - 1);
    FilterIsFirst(host, verdict, run[0], Last(run), vm2, 1);
  }

  /** At most one handler can be chosen. */
  lemma ChosenIsUnique(host: Host, verdict: HandlerAddress -> int, vm0: Vm, a: HandlerAddress, b: HandlerAddress)
    requires vm0.mode.Searching? && IsChosen(host, verdict, vm0, a) && IsChosen(host, verdict, vm0, b)
    ensures a == b
  {
    assert a == b || Before(a, b) || Before(b, a);
  }
}
