/** What happens while a handler runs, and which unwind its `endfinally` then resumes. */
module HandlerTheorems {
  import opened ExceptionData
  import opened ExceptionSemantics
  import opened WholeInstructions

  /** A method called by the handler of frame `f` executes a `leave`. */
  ghost predicate CalleeLeaves(host: Host, f: nat, vm: Vm, vm': Vm) {
    |vm.frames| - 1 > f && exists t, run :: Left(host, vm, t, run, vm')
  }

  /** The handler of frame `f` executes a `leave` itself, a method that it has called returns from a guarded try block,
      or an exception is thrown and caught. */
  ghost predicate Disturbs(host: Host, f: nat, vm: Vm, vm': Vm) {
    || (|vm.frames| - 1 == f && exists t, run :: Left(host, vm, t, run, vm'))
    || (|vm.frames| - 1 > f && exists run :: Returned(host, vm, run, vm'))
    || (exists run :: Caught(host, vm, run, vm'))
  }

  ghost predicate Act(host: Host, f: nat, vm: Vm, vm': Vm) {
    Ordinary(vm, vm') || CalleeLeaves(host, f, vm, vm') || Disturbs(host, f, vm, vm')
  }

  /** The states of a run of the handler of frame `f` for the unwind `own`. What is set aside when it starts belongs to
      frames further down. */
  ghost predicate HandlerRun(host: Host, f: nat, own: UnwindState, acts: seq<Vm>) {
    && |acts| > 0 && acts[0].mode == ExecutingHandler(own) && own.cursor.frame == f
    && AllBelow(acts[0].pendingUnwinds, f)
    && forall k :: 0 <= k < |acts| - 1 ==> Act(host, f, acts[k], acts[k + 1])
  }

  predicate AllBelow(pending: seq<UnwindState>, f: nat) {
    forall i :: 0 <= i < |pending| ==> pending[i].cursor.frame < f
  }

  /** The unwind of the handler is gone: nothing is in progress, or one of those that were set aside at its start. */
  predicate Lost(pending: seq<UnwindState>, vm: Vm) {
    && vm.pendingUnwinds <= pending
    && (vm.mode.Idle? || (vm.mode.ExecutingHandler? && vm.mode.unwind in pending))
  }

  lemma {:induction false} ActFromOwn(host: Host, f: nat, own: UnwindState, vm: Vm, vm': Vm)
    requires vm.mode == ExecutingHandler(own) && own.cursor.frame == f && Act(host, f, vm, vm')
    ensures if Disturbs(host, f, vm, vm') then Lost(vm.pendingUnwinds, vm') else Ordinary(vm, vm')
  {
    if Disturbs(host, f, vm, vm') {
      if run :| |vm.frames| - 1 > f && Returned(host, vm, run, vm') {
        ReturnedExactly(host, vm, run, vm');
      } else if run :| Caught(host, vm, run, vm') {
        CaughtExactly(host, vm, run, vm');
      } else {
        var t, run :| Left(host, vm, t, run, vm');
        LeftExactly(host, vm, t, run, vm');
      }
    } else if CalleeLeaves(host, f, vm, vm') {
      var t, run :| Left(host, vm, t, run, vm');
      LeftExactly(host, vm, t, run, vm');
    }
  }

  lemma {:induction false} ActFromLost(host: Host, f: nat, pending: seq<UnwindState>, vm: Vm, vm': Vm)
    requires AllBelow(pending, f) && Lost(pending, vm) && Act(host, f, vm, vm')
    ensures Lost(pending, vm')
  {
    if run :| Returned(host, vm, run, vm') {
      ReturnedExactly(host, vm, run, vm');
    } else if run :| Caught(host, vm, run, vm') {
      CaughtExactly(host, vm, run, vm');
    } else if t, run :| |vm.frames| - 1 >= f && Left(host, vm, t, run, vm') {
      LeftExactly(host, vm, t, run, vm');
    }
  }

  /** Nothing has disturbed the handler up to state `i`. */
  ghost predicate Undisturbed(host: Host, f: nat, acts: seq<Vm>, i: nat)
    requires i < |acts|
  {
    forall k :: 0 <= k < i ==> !Disturbs(host, f, acts[k], acts[k + 1])
  }

  lemma {:induction false} HandlerSoFar(host: Host, f: nat, own: UnwindState, acts: seq<Vm>, i: nat)
    requires HandlerRun(host, f, own, acts) && i < |acts|
    ensures if Undisturbed(host, f, acts, i) then Ordinary(acts[0], acts[i]) else Lost(acts[0].pendingUnwinds, acts[i])
    decreases i
  {
    if i > 0 {
      HandlerSoFar(host, f, own, acts, i - 1);
      assert Act(host, f, acts[i - 1], acts[i - 1 + 1]);
      if Undisturbed(host, f, acts, i - 1) {
        ActFromOwn(host, f, own, acts[i - 1], acts[i]);
      } else {
        ActFromLost(host, f, acts[0].pendingUnwinds, acts[i - 1], acts[i]);
      }
    }
  }

  /** Over every run of a handler: its `endfinally`, executed when its frame is on top again, resumes the unwind of the
      handler, and one whose cursor is in the top frame, if and only if nothing has disturbed the handler. Otherwise
      it is an error, or resumes an unwind of a frame further down. */
  lemma {:induction false} EndFinallyResumesOwnExactlyWhen(host: Host, f: nat, own: UnwindState, acts: seq<Vm>)
    requires HandlerRun(host, f, own, acts) && |Last(acts).frames| == f + 1
    ensures var last, quiet := Last(acts), Undisturbed(host, f, acts, |acts| - 1);
            && (last.mode == ExecutingHandler(own) <==> quiet)
            && (last.mode.ExecutingHandler? && last.mode.unwind.cursor.frame == |last.frames| - 1 <==> quiet)
            && (!quiet ==> EndFinally(host, last) == Outcome(last, Error(InvalidCil))
                           || (last.mode.ExecutingHandler? && last.mode.unwind in acts[0].pendingUnwinds))
  {
    HandlerSoFar(host, f, own, acts, |acts| - 1);
  }
}
