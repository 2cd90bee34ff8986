/** Reference semantics of the two-pass engine on values of type `Vm`. The functions are total: an
    access the engine would abort on yields `Panic`. `ExceptionMachine` carries the imperative form
    and is proved against these definitions; the theorems about whole runs are stated over them. */
module ExceptionSemantics {
  import opened Wrappers
  import opened ExceptionData

  datatype Outcome = Outcome(vm: Vm, result: StepResult)

  /** Order of the two passes: frames downwards, in a frame sections upwards, in a section handlers upwards. */
  predicate Before(a: HandlerAddress, b: HandlerAddress) {
    || b.frame < a.frame
    || (a.frame == b.frame && (a.section < b.section || (a.section == b.section && a.handler < b.handler)))
  }

  // ---------------------------------------------------------------- search pass

  datatype Test = Reject | Accept | Ask(clauseOffset: nat) | Fail(failure: Failure)

  function TestHandler(host: Host, exception: ObjectRef, kind: HandlerKind): Test {
    match kind
    case Catch(t) =>
      if exception.Null? then Fail(InvalidHandle) else
      (match host.describe(exception.id)
       case None => Fail(NoDescription)
       case Some(actual) =>
         match host.isA(actual, t)
         case None => Fail(TypeTestFailed)
         case Some(accepts) => if accepts then Accept else Reject)
    case Filter(offset) => Ask(offset)
    case Finally => Reject
    case Fault => Reject
  }

  datatype Scan = Missing | Found(address: HandlerAddress, test: Test)

  function SectionsLeft(frames: seq<Frame>, f: nat, s: nat): nat {
    if f < |frames| && s <= |frames[f].sections| then |frames[f].sections| - s else 0
  }

  function HandlersLeft(frames: seq<Frame>, f: nat, s: nat, h: nat): nat {
    if f < |frames| && s < |frames[f].sections| && h <= |frames[f].sections[s].handlers|
    then |frames[f].sections[s].handlers| - h else 0
  }

  /** The first handler from (f, s, h) on that does not reject, frames downwards to `stop`. */
  function ScanFrom(host: Host, exception: ObjectRef, frames: seq<Frame>,
                    f: nat, s: nat, h: nat, stop: nat): Scan
    decreases f, SectionsLeft(frames, f, s), HandlersLeft(frames, f, s, h)
  {
    if f < stop || |frames| <= f then Missing
    else if |frames[f].sections| <= s then
      if f == stop then Missing else ScanFrom(host, exception, frames, f - 1, 0, 0, stop)
    else
      var section := frames[f].sections[s];
      if !section.instructions.Contains(frames[f].ip) || |section.handlers| <= h then
        ScanFrom(host, exception, frames, f, s + 1, 0, stop)
      else
        var test := TestHandler(host, exception, section.handlers[h].kind);
        if test.Reject? then ScanFrom(host, exception, frames, f, s, h + 1, stop)
        else Found(HandlerAddress(f, s, h), test)
  }

  function PushObject(vm: Vm, o: ObjectRef): Vm {
    var vm' := vm.(stack := vm.stack + [ObjectValue(o)]);
    if vm.frames == [] then vm'
    else
      var top := |vm.frames| - 1;
      vm'.(frames := vm.frames[top := vm.frames[top].(stackHeight := vm.frames[top].stackHeight + 1)])
  }

  /** Suspends everything above the frame that owns the filter and starts its clause. */
  function EnterFilter(vm: Vm, exception: ObjectRef, a: HandlerAddress, clauseOffset: nat): Outcome {
    if |vm.frames| <= a.frame || |vm.stack| < vm.frames[a.frame].base.stack then Outcome(vm, Panic)
    else
      var frame := vm.frames[a.frame];
      var base := frame.base.stack;
      var state := FilterState(exception, a, frame.ip, base + frame.stackHeight);
      var entered := frame.(ip := clauseOffset, stackHeight := 0, exceptionStack := frame.exceptionStack + [exception]);
      Outcome(PushObject(vm.(mode := Filtering(state),
                             frames := vm.frames[..a.frame] + [entered],
                             suspendedFrames := vm.frames[a.frame + 1..],
                             stack := vm.stack[..base],
                             suspendedStack := vm.stack[base..]), exception),
              Exception)
  }

  function Top(vm: Vm): HandlerAddress
    requires |vm.frames| > 0
  {
    HandlerAddress(|vm.frames| - 1, 0, 0)
  }

  // ---------------------------------------------------------------- unwind pass

  predicate InSomeHandler(section: Section, ip: nat) {
    exists k :: 0 <= k < |section.handlers| && section.handlers[k].instructions.Contains(ip)
  }

  predicate SharesHandler(section: Section, ip: nat, ip': nat) {
    exists k :: 0 <= k < |section.handlers| &&
                section.handlers[k].instructions.Contains(ip) && section.handlers[k].instructions.Contains(ip')
  }

  /** Whether control at `ip` that moves to `target` leaves the section. */
  predicate Exits(section: Section, ip: nat, target: UnwindTarget) {
    match target
    case ToHandler(_) => section.instructions.Contains(ip)
    case ToInstruction(t) =>
      && !SharesHandler(section, ip, t)
      && (section.instructions.Contains(ip) || InSomeHandler(section, ip))
      && !section.instructions.Contains(t)
  }

  /** Whether the unwinder transfers control to the handler. */
  predicate Runs(handler: Handler, ip: nat, thrown: bool) {
    && !handler.instructions.Contains(ip)
    && (handler.kind.Finally? || (handler.kind.Fault? && thrown))
  }

  datatype Sweep = Sweep(pops: nat, stop: Option<(nat, nat)>)

  /** What the unwinder does in one frame from section `s`, handler `h` up to section `limit`: how many
      active exceptions it drops, and the section and handler it stops at. */
  function SweepFrom(sections: seq<Section>, ip: nat, target: UnwindTarget, thrown: bool,
                     s: nat, h: nat, limit: nat): (sweep: Sweep)
    requires limit <= |sections|
    ensures sweep.stop.Some? ==>
              var (s1, h1) := sweep.stop.value;
              s <= s1 < limit && h1 < |sections[s1].handlers|
    decreases limit - s, if s < |sections| then |sections[s].handlers| - h else 0
  {
    if limit <= s then Sweep(0, None)
    else if !Exits(sections[s], ip, target) || |sections[s].handlers| <= h then
      SweepFrom(sections, ip, target, thrown, s + 1, 0, limit)
    else
      var handler := sections[s].handlers[h];
      if Runs(handler, ip, thrown) then Sweep(0, Some((s, h)))
      else
        var rest := SweepFrom(sections, ip, target, thrown, s, h + 1, limit);
        if handler.instructions.Contains(ip) && handler.kind.Catches()
        then rest.(pops := rest.pops + 1) else rest
  }

  function TargetFrame(u: UnwindState): nat {
    match u.target
    case ToHandler(a) => a.frame
    case ToInstruction(_) => if u.nested.Some? then u.nested.value.handler.frame else u.cursor.frame
  }

  /** In the target frame of a catch the unwinder stops before the section of that catch. */
  function SectionLimit(sections: seq<Section>, f: nat, target: UnwindTarget): (limit: nat)
    ensures limit <= |sections|
  {
    match target
    case ToHandler(a) => if a.frame == f && a.section <= |sections| then a.section else |sections|
    case ToInstruction(_) => |sections|
  }

  function NextCursor(sections: seq<Section>, f: nat, s: nat, h: nat): HandlerAddress
    requires s < |sections|
  {
    if h + 1 < |sections[s].handlers| then HandlerAddress(f, s, h + 1) else HandlerAddress(f, s + 1, 0)
  }

  function ActiveException(mode: Mode): Option<ObjectRef> {
    match mode
    case Throwing(e, _) => Some(e)
    case Searching(state) => Some(state.exception)
    case Unwinding(state) => state.exception
    case ExecutingHandler(state) => state.exception
    case Filtering(state) => Some(state.exception)
    case Idle => None
  }

  /** Pops the top frame. A type initializer that is unwound by an exception replaces it by a new one. */
  function UnwindFrame(host: Host, vm: Vm): (r: Vm)
    requires |vm.frames| > 0
    ensures |r.frames| == |vm.frames| - 1
    ensures r.mode == vm.mode || r.mode.Throwing?
  {
    var frame := Last(vm.frames);
    var popped := vm.(frames := vm.frames[..|vm.frames| - 1], stack := Truncate(vm.stack, frame.base.arguments));
    var inner := ActiveException(vm.mode);
    if frame.isCctor && inner.Some? then
      (match host.wrap(frame.methodId, inner.value)
       case None => popped
       case Some(wrapper) => popped.(mode := Throwing(wrapper, false)))
    else popped
  }

  /** How one unwind pass ends: at a handler that must run, at a frame whose removal raised a new
      exception, or with everything between the cursor and the target unwound. */
  datatype Halt = Stopped(vm: Vm) | Preempted(vm: Vm) | Reached(vm: Vm) | Broken(vm: Vm)

  /** Unwinds from section `s`, handler `h` of frame `f`, popping each finished frame above the target. */
  function Advance(host: Host, vm: Vm, u: UnwindState, f: nat, s: nat, h: nat): (halt: Halt)
    requires vm.mode == Unwinding(u)
    ensures |halt.vm.frames| <= |vm.frames|
    ensures halt.Preempted? ==> |halt.vm.frames| < |vm.frames| && halt.vm.mode.Throwing?
    ensures halt.Reached? ==> halt.vm.mode == vm.mode
    ensures halt.Stopped? ==> halt.vm.mode.ExecutingHandler?
                              && halt.vm.mode == ExecutingHandler(u.(cursor := halt.vm.mode.unwind.cursor))
    ensures halt.vm.pendingUnwinds == vm.pendingUnwinds
    decreases |vm.frames|
  {
    if f < TargetFrame(u) then Reached(vm)
    else if |vm.frames| <= f then Broken(vm)
    else
      var frame := vm.frames[f];
      var sweep := SweepFrom(frame.sections, frame.ip, u.target, u.exception.Some?, s, h,
                             SectionLimit(frame.sections, f, u.target));
      var swept := frame.(exceptionStack := DropLast(frame.exceptionStack, sweep.pops));
      match sweep.stop
      case Some((s1, h1)) =>
        var entered := swept.(ip := frame.sections[s1].handlers[h1].instructions.start, stackHeight := 0);
        Stopped(vm.(mode := ExecutingHandler(u.(cursor := NextCursor(frame.sections, f, s1, h1))),
                    frames := vm.frames[f := entered]))
      case None =>
        var vm1 := vm.(frames := vm.frames[f := swept]);
        if TargetFrame(u) < f then
          var vm2 := UnwindFrame(host, vm1);
          if vm2.mode.Throwing? then Preempted(vm2)
          else Advance(host, vm2, u, f - 1, 0, 0)
        else Reached(vm1)
  }

  function NestedRank(mode: Mode): nat {
    match mode
    case Searching(state) => if state.nested.Some? then 1 else 0
    case Unwinding(state) => if state.nested.Some? then 1 else 0
    case Filtering(_) => 1
    case _ => 0
  }

  function PhaseRank(mode: Mode): nat {
    match mode
    case Throwing(_, _) => 9
    case Searching(_) => 7
    case Unwinding(_) => 5
    case _ => 0
  }

  /** One call of the engine. */
  function Handle(host: Host, vm: Vm): (out: Outcome)
    ensures out.result != Continue
    decreases NestedRank(vm.mode), |vm.frames|, PhaseRank(vm.mode)
  {
    match vm.mode
    case Idle => Outcome(vm, Exception)
    case Throwing(exception, _) => BeginThrowing(host, vm, exception)
    case Searching(state) => Search(host, vm, state.exception, state.cursor)
    case Unwinding(state) => Unwind(host, vm, state)
    case Filtering(_) => Outcome(vm, Exception)
    case ExecutingHandler(_) => Outcome(vm, Exception)
  }

  function NestedFilterOf(mode: Mode): Option<FilterState> {
    match mode
    case Filtering(state) => Some(state)
    case Searching(state) => state.nested
    case _ => None
  }

  function BeginThrowing(host: Host, vm: Vm, exception: ObjectRef): (out: Outcome)
    ensures out.result != Continue
    decreases NestedRank(vm.mode), |vm.frames|, 8
  {
    if vm.frames == [] then Outcome(vm, Panic)
    else if !host.hasExceptionType then Outcome(vm, Error(NoExceptionType))
    else
      var cleared := if vm.mode.Idle? || vm.mode.Throwing?
                     then vm.(suspendedFrames := [], suspendedStack := []) else vm;
      Handle(host, cleared.(mode := Searching(SearchState(exception, Top(vm), NestedFilterOf(vm.mode)))))
  }

  function Search(host: Host, vm: Vm, exception: ObjectRef, cursor: HandlerAddress): (out: Outcome)
    ensures out.result != Continue
    decreases NestedRank(vm.mode), |vm.frames|, 6
  {
    var nested := if vm.mode.Searching? then vm.mode.search.nested else None;
    if nested.Some? && nested.value.handler.frame == 0 then Outcome(vm, Panic)
    else if |vm.frames| <= cursor.frame then Outcome(vm, Panic)
    else
      var stop := if nested.Some? then nested.value.handler.frame else 0;
      match ScanFrom(host, exception, vm.frames, cursor.frame, cursor.section, cursor.handler, stop)
      case Found(a, Accept) =>
        Outcome(vm.(mode := Unwinding(UnwindState(Some(exception), ToHandler(a), Top(vm), None))), Exception)
      case Found(a, Ask(offset)) => EnterFilter(vm, exception, a, offset)
      case Found(_, Fail(failure)) => Outcome(vm, Error(failure))
      case _ =>
        if nested.Some? then
          Handle(host, vm.(mode := Unwinding(UnwindState(Some(exception), ToInstruction(LEAVE_FRAME), Top(vm),
              nested))))
        else if exception.Null? || host.describe(exception.id).None? || !host.hasExceptionType then Outcome(vm, Panic)
        else
          Outcome(vm.(mode := Idle, frames := [], suspendedFrames := [], stack := [], suspendedStack := []),
                  MethodThrew(exception))
  }

  function Unwind(host: Host, vm: Vm, u: UnwindState): (out: Outcome)
    requires vm.mode == Unwinding(u)
    ensures out.result != Continue
    decreases NestedRank(vm.mode), |vm.frames|, 4
  {
    match Advance(host, vm, u, u.cursor.frame, u.cursor.section, u.cursor.handler)
    case Stopped(vm1) => Outcome(vm1, Exception)
    case Preempted(vm1) => Handle(host, vm1)
    case Reached(vm1) => Arrive(host, vm1, u)
    case Broken(vm1) => Outcome(vm1, Panic)
  }

  /** The target is reached: enter the catch, or go to the target instruction, or resume the search. */
  function Arrive(host: Host, vm: Vm, u: UnwindState): (out: Outcome)
    requires vm.mode == Unwinding(u)
    ensures out.result != Continue
    decreases NestedRank(vm.mode), |vm.frames|, 3
  {
    match u.target
    case ToHandler(a) =>
      if !(a.frame < |vm.frames| && a.section < |vm.frames[a.frame].sections|
           && a.handler < |vm.frames[a.frame].sections[a.section].handlers| && u.exception.Some?)
      then Outcome(vm, Panic)
      else
        var frame := vm.frames[a.frame];
        var entered := frame.(ip := frame.sections[a.section].handlers[a.handler].instructions.start,
                              stackHeight := 0,
                              exceptionStack := frame.exceptionStack + [u.exception.value]);
        Outcome(PushObject(vm.(mode := Idle, frames := vm.frames[a.frame := entered],
                               stack := Truncate(vm.stack, frame.base.stack)), u.exception.value), Exception)
    case ToInstruction(t) =>
      if t == LEAVE_FRAME then
        if u.nested.Some? then CompleteNestedFilter(host, vm, u.nested.value)
        else Outcome(vm.(mode := Idle), Return)
      else if |vm.frames| <= TargetFrame(u) then Outcome(vm, Panic)
      else
        var landed := vm.frames[TargetFrame(u)].(ip := t, stackHeight := 0);
        var vm1 := vm.(frames := vm.frames[TargetFrame(u) := landed]);
        if vm.pendingUnwinds == [] then Outcome(vm1.(mode := Idle), Exception)
        else Outcome(vm1.(mode := ExecutingHandler(Last(vm.pendingUnwinds)),
                          pendingUnwinds := vm.pendingUnwinds[..|vm.pendingUnwinds| - 1]), Exception)
  }

  /** The state in which the search goes on after a filter was abandoned. */
  function AbandonFilter(vm: Vm, filter: FilterState): Vm
    requires filter.handler.frame < |vm.frames + vm.suspendedFrames|
  {
    var frames := vm.frames + vm.suspendedFrames;
    var frame := frames[filter.handler.frame];
    var height := if filter.originalStackHeight < frame.base.stack then 0
                  else filter.originalStackHeight - frame.base.stack;
    var restored := frame.(ip := filter.originalIp, stackHeight := height,
                           exceptionStack := DropLast(frame.exceptionStack, 1));
    vm.(frames := frames[filter.handler.frame := restored], suspendedFrames := [],
        stack := vm.stack + vm.suspendedStack, suspendedStack := [],
        mode := Searching(SearchState(filter.exception, filter.handler.(handler := filter.handler.handler + 1), None)))
  }

  function CompleteNestedFilter(host: Host, vm: Vm, filter: FilterState): (out: Outcome)
    requires NestedRank(vm.mode) == 1
    ensures out.result != Continue
    decreases NestedRank(vm.mode), |vm.frames|, 2
  {
    if |vm.frames + vm.suspendedFrames| <= filter.handler.frame then Outcome(vm, Panic)
    else Handle(host, AbandonFilter(vm, filter))
  }

  // ---------------------------------------------------------------- instructions

  function Throw(host: Host, vm: Vm, exception: ObjectRef): Outcome {
    Handle(host, vm.(mode := Throwing(exception, false)))
  }

  function Rethrow(host: Host, vm: Vm): Outcome {
    if vm.frames == [] then Outcome(vm, Panic)
    else if Last(vm.frames).exceptionStack == [] then Outcome(vm, Error(InvalidCil))
    else Handle(host, vm.(mode := Throwing(Last(Last(vm.frames).exceptionStack), true)))
  }

  /** The unwind that `leave` starts; the unwind of a handler further down the stack is set aside. */
  function BeginLeave(vm: Vm, target: nat): Vm
    requires |vm.frames| > 0
  {
    var interrupted := vm.mode.ExecutingHandler? && vm.mode.unwind.cursor.frame < |vm.frames| - 1;
    vm.(mode := Unwinding(UnwindState(None, ToInstruction(target), Top(vm), None)),
        pendingUnwinds := if interrupted then vm.pendingUnwinds + [vm.mode.unwind] else vm.pendingUnwinds)
  }

  function Leave(host: Host, vm: Vm, target: nat): Outcome {
    if vm.frames == [] then Outcome(vm, Panic) else Handle(host, BeginLeave(vm, target))
  }

  /** The test of `ret`: some section that holds `ip` in its try block has a finally or fault block. */
  predicate ReturnUnwinds(frame: Frame) {
    exists i :: 0 <= i < |frame.sections| && GuardsReturn(frame.sections[i], frame.ip)
  }

  predicate GuardsReturn(section: Section, ip: nat) {
    section.instructions.Contains(ip) && exists k :: 0 <= k < |section.handlers| && !section.handlers[k].kind.Catches()
  }

  /** The unwind that `ret` starts: from the handler that executes it, or from the top frame. */
  function BeginReturn(vm: Vm): Vm
    requires |vm.frames| > 0
  {
    vm.(mode := Unwinding(
      if vm.mode.ExecutingHandler? && vm.mode.unwind.cursor.frame == |vm.frames| - 1
      then vm.mode.unwind.(target := ToInstruction(LEAVE_FRAME))
      else UnwindState(None, ToInstruction(LEAVE_FRAME), Top(vm), None)))
  }

  function Ret(host: Host, vm: Vm): Outcome {
    if vm.frames == [] then Outcome(vm, Panic)
    else if (vm.mode.ExecutingHandler? && vm.mode.unwind.cursor.frame == |vm.frames| - 1)
         || ReturnUnwinds(Last(vm.frames))
    then Handle(host, BeginReturn(vm))
    else Outcome(vm, Return)
  }

  function EndFinally(host: Host, vm: Vm): Outcome {
    if vm.mode.ExecutingHandler? then Handle(host, vm.(mode := Unwinding(vm.mode.unwind)))
    else Outcome(vm, Error(InvalidCil))
  }

  function EndFilter(vm: Vm, result: int): Outcome {
    if !vm.mode.Filtering? then Outcome(vm, Error(InvalidCil))
    else
      var filter := vm.mode.filter;
      if |vm.frames| <= filter.handler.frame then Outcome(vm, Panic)
      else
        var frame := vm.frames[filter.handler.frame];
        var height := if filter.originalStackHeight < frame.base.stack then 0
                      else filter.originalStackHeight - frame.base.stack;
        var restored := frame.(ip := filter.originalIp, stackHeight := height,
                               exceptionStack := DropLast(frame.exceptionStack, 1));
        var vm1 := vm.(frames := vm.frames[filter.handler.frame := restored] + vm.suspendedFrames,
                       suspendedFrames := [],
                       stack := vm.stack + vm.suspendedStack, suspendedStack := []);
        Outcome(vm1.(mode :=
            if result == 1
            then Unwinding(UnwindState(Some(filter.exception), ToHandler(filter.handler), Top(vm1), None))
            else Searching(SearchState(filter.exception, filter.handler.(handler := filter.handler.handler + 1),
                None))),
          Exception)
  }
}
