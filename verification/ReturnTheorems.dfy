/** The `ret` instruction inside protected blocks. */
module ReturnTheorems {
  import opened ExceptionData
  import opened ExceptionSemantics
  import opened Nesting
  import opened UnwindAgenda
  import opened UnwindRuns
  import opened OwedHandlers
  import opened UnwindTheorems

  /** Block ends are machine words, so that no block holds the largest instruction index. */
  predicate Addressable(section: Section) {
    && section.instructions.end <= LEAVE_FRAME
    && forall k :: 0 <= k < |section.handlers| ==> section.handlers[k].instructions.end <= LEAVE_FRAME
  }

  /** The section owes a finally block to a `ret` at `ip`: `ip` is in its try block or in another handler. */
  predicate OwesToReturn(section: Section, ip: nat) {
    && Touches(section, ip)
    && exists k :: 0 <= k < |section.handlers| && section.handlers[k].kind.Finally?
                   && !section.handlers[k].instructions.Contains(ip)
  }

  lemma SectionOwes(section: Section, ip: nat)
    requires Addressable(section)
    ensures SectionAgenda(section, ip, ToInstruction(LEAVE_FRAME), false, 0) != [] <==> OwesToReturn(section, ip)
  {
    var first := FirstRunnable(section.handlers, ip, false, 0);
    if first.Some? { assert Runs(section.handlers[first.value], ip, false); }
  }

  /** An unwind that leaves the frame owes handlers exactly if some section owes a finally block. */
  lemma {:induction false} ReturnOwesExactlyGuarded(sections: seq<Section>, ip: nat, f: nat, s: nat)
    requires s <= |sections| && forall i :: 0 <= i < |sections| ==> Addressable(sections[i])
    ensures FrameAgenda(sections, ip, ToInstruction(LEAVE_FRAME), false, f, s, 0, |sections|) != []
            <==> exists i :: s <= i < |sections| && OwesToReturn(sections[i], ip)
    decreases |sections| - s
  {
    if s < |sections| {
      ReturnOwesExactlyGuarded(sections, ip, f, s + 1);
      SectionOwes(sections[s], ip);
    }
  }

  /** `ip` is in a handler that shares its section with a finally block. */
  predicate BesideFinally(section: Section, ip: nat) {
    && InSomeHandler(section, ip)
    && exists k :: 0 <= k < |section.handlers| && section.handlers[k].kind.Finally?
                   && !section.handlers[k].instructions.Contains(ip)
  }

  /** The fast path of `ret` tests try blocks only. Where the test finds nothing, the unwind it skips owes no
      handler if and only if `ret` is not in a handler beside a finally block of the same section. */
  lemma FastReturnSkipsNothingExactlyWhen(vm: Vm)
    requires |vm.frames| > 0 && !ReturnUnwinds(Last(vm.frames))
    requires forall i :: 0 <= i < |Last(vm.frames).sections| ==> Addressable(Last(vm.frames).sections[i])
    ensures FrameAgenda(Last(vm.frames).sections, Last(vm.frames).ip, ToInstruction(LEAVE_FRAME), false,
                        |vm.frames| - 1, 0, 0, |Last(vm.frames).sections|) == []
            <==> forall i :: 0 <= i < |Last(vm.frames).sections| ==>
                !BesideFinally(Last(vm.frames).sections[i], Last(vm.frames).ip)
  {
    var frame := Last(vm.frames);
    ReturnOwesExactlyGuarded(frame.sections, frame.ip, |vm.frames| - 1, 0);
    forall i | 0 <= i < |frame.sections|
      ensures OwesToReturn(frame.sections[i], frame.ip) <==> BesideFinally(frame.sections[i], frame.ip)
    {
      assert !GuardsReturn(frame.sections[i], frame.ip);
    }
  }

  /** A whole `ret`: it has run every handler it owed, then the frame returns. The frames below are untouched,
      nothing remembers a handler that was running, and what was set aside stays set aside. */
  lemma {:induction false} ReturnUnwindEndsInReturn(host: Host, run: seq<Vm>)
    requires UnwindRun(host, run) && Fresh(run[0]) && run[0].mode.unwind.target == ToInstruction(LEAVE_FRAME)
    requires run[0].mode.unwind.nested.None? && Pass(host, Last(run)).Reached?
    ensures |run| - 1 == |OwedBy(run[0])|
    ensures var vm0, out := run[0], Handle(host, Last(run));
            && out.result == Return && out.vm.mode == Idle
            && out.vm.pendingUnwinds == vm0.pendingUnwinds
            && |out.vm.frames| == |vm0.frames| && out.vm.frames[..|vm0.frames| - 1] == vm0.frames[..|vm0.frames| - 1]
  {
    ArrivalServedAll(host, run);
    ArrivalFrame(run[0], Last(run), Pass(host, Last(run)).vm);
    HandleIsPass(host, Last(run));
  }

  /** The stops of an unwinding `ret` from its beginning to its end. */
  predicate WholeReturn(host: Host, vm: Vm, run: seq<Vm>)
    requires |vm.frames| > 0
  {
    UnwindRun(host, run) && run[0] == BeginReturn(vm) && Fresh(run[0]) && Pass(host, Last(run)).Reached?
  }

  /** A method called from a handler returns to that handler exactly if no try block with a finally or fault
      block holds the `ret`. Otherwise `ret` forgets the unwind of the handler, unlike `leave`. */
  lemma {:induction false} ReturnKeepsHandlerUnwind(host: Host, vm: Vm, run: seq<Vm>)
    requires vm.mode.ExecutingHandler? && |vm.frames| > 0 && vm.mode.unwind.cursor.frame < |vm.frames| - 1
    requires ReturnUnwinds(Last(vm.frames)) ==> WholeReturn(host, vm, run)
    ensures var after := if ReturnUnwinds(Last(vm.frames)) then Handle(host, Last(run)) else Ret(host, vm);
            && after.result == Return
            && (after.vm.mode == vm.mode <==> !ReturnUnwinds(Last(vm.frames)))
  {
    if ReturnUnwinds(Last(vm.frames)) { ReturnUnwindEndsInReturn(host, run); }
  }
}
