/** What a whole unwind does, for every run: which handlers it executes, in which order, and, towards a catch, the
    state it ends in. */
module UnwindTheorems {
  import opened ExceptionData
  import opened ExceptionSemantics
  import opened Nesting
  import opened UnwindAgenda
  import opened UnwindPass
  import opened UnwindRuns
  import opened OwedHandlers

  // ------------------------------------------------------------ the run

  lemma {:induction false} RunSoFar(host: Host, run: seq<Vm>, i: nat)
    requires UnwindRun(host, run) && Fresh(run[0]) && i < |run|
    ensures Since(run[0], run[i])
    ensures i <= |OwedBy(run[0])| && OwedBy(run[i]) == OwedBy(run[0])[i..]
    decreases i
  {
    if i == 0 {
      SinceStart(run[0]);
    } else {
      RunSoFar(host, run, i - 1);
      assert Resumes(host, run[i - 1], run[i - 1 + 1]);
      RunStep(host, run[0], run[i - 1], run[i], i - 1);
    }
  }

  lemma {:induction false} RunStep(host: Host, vm0: Vm, vm: Vm, vm': Vm, i: nat)
    requires Since(vm0, vm) && Resumes(host, vm, vm')
    requires i <= |OwedBy(vm0)| && OwedBy(vm) == OwedBy(vm0)[i..]
    ensures Since(vm0, vm') && i < |OwedBy(vm0)| && OwedBy(vm') == OwedBy(vm0)[i + 1..]
  {
    SinceStep(host, vm0, vm, vm');
    ResumeServesHead(host, vm, vm');
  }

  /** One stop serves the head of what is owed and leaves exactly the rest. */
  lemma {:induction false} ResumeServesHead(host: Host, vm: Vm, vm': Vm)
    requires UnwindReady(vm) && Resumes(host, vm, vm')
    ensures OwedBy(vm) != [] && UnwindReady(vm') && OwedBy(vm') == OwedBy(vm)[1..]
  {
    StopIsHead(host, vm);
    ResumeShape(host, vm, vm');
    ResumedOwesTheRest(vm, Head(vm), vm');
  }

  lemma {:induction false} ResumedOwesTheRest(vm: Vm, a: HandlerAddress, vm': Vm)
    requires UnwindReady(vm) && ResumedFrom(vm, a, vm')
    ensures OwedBy(vm') == OwedAfter(vm.frames, vm.mode.unwind, TargetFrame(vm.mode.unwind), a)
  {
    var u, u', f := vm.mode.unwind, vm'.mode.unwind, a.frame;
    var frame := vm.frames[f];
    assert Supported(frame.sections);
    FrameOwesTheRest(frame, vm'.frames[f], u, u', a);
    forall i | 0 <= i < f ensures vm.frames[i] == vm'.frames[i] {
      assert vm.frames[i] == vm.frames[..f][i] == vm'.frames[..f][i];
    }
    OwedAcross(vm.frames, vm'.frames, u, u', TargetFrame(u), f);
  }

  lemma {:induction false} FrameOwesTheRest(frame: Frame, frame': Frame, u: UnwindState, u': UnwindState,
                                            a: HandlerAddress)
    requires Supported(frame.sections) && frame'.sections == frame.sections
    requires u'.target == u.target && u'.exception == u.exception
    requires a.section < SectionLimit(frame.sections, a.frame, u.target)
             && a.handler < |frame.sections[a.section].handlers|
    requires u'.cursor == NextCursor(frame.sections, a.frame, a.section, a.handler)
    requires Exits(frame.sections[a.section], frame.ip, u.target)
    requires frame.sections[a.section].handlers[a.handler].instructions.Contains(frame'.ip)
    ensures OwedHere(frame', u', a.frame, u'.cursor.section, u'.cursor.handler)
            == AgendaAfter(frame.sections, frame.ip, u.target, u.exception.Some?, a.frame, a.section, a.handler,
                           SectionLimit(frame.sections, a.frame, u.target))
  {
    var sections, limit := frame.sections, SectionLimit(frame.sections, a.frame, u.target);
    assert Touches(sections[a.section], frame.ip);
    AgendaFromHandler(sections, frame.ip, frame'.ip, u.target, u.exception.Some?, a.frame, a.section, a.handler, limit);
    AgendaPastSection(sections, frame'.ip, u.target, u.exception.Some?, a.frame, a.section, limit);
  }

  /** A pass never goes wrong. It stops at the head of what is owed, or arrives owing nothing, or a type
      initializer above the target replaces the exception; without one, it stops exactly if something is owed. */
  lemma {:induction false} PassMakesProgress(host: Host, vm: Vm)
    requires UnwindReady(vm)
    ensures var halt := Pass(host, vm);
            && !halt.Broken?
            && (halt.Preempted? ==> PreemptedAt(host, vm, vm.mode.unwind, |halt.vm.frames|, halt.vm))
            && ((forall g :: TargetFrame(vm.mode.unwind) < g < |vm.frames| ==> !vm.frames[g].isCctor) ==>
                  if OwedBy(vm) != [] then halt.Stopped? else halt.Reached?)
  {
    var u := vm.mode.unwind;
    PassServesAgenda(host, vm, u, u.cursor.section, u.cursor.handler);
  }

  /** In every run the k-th stop is at the k-th handler owed at the beginning, and no frame of a handler
      still owed has been popped. */
  lemma {:induction false} RunEntersOwedHandlers(host: Host, run: seq<Vm>, k: nat)
    requires UnwindRun(host, run) && Fresh(run[0]) && k < |run|
    requires Pass(host, run[k]).Stopped?
    ensures k < |OwedBy(run[0])|
    ensures Entered(Pass(host, run[k]).vm, run[0].frames, OwedBy(run[0])[k])
  {
    RunSoFar(host, run, k);
    StopIsHead(host, run[k]);
    var a := Head(run[k]);
    assert a == OwedBy(run[0])[k];
    if a.frame < |run[k].frames| - 1 {
      assert run[k].frames[a.frame] == run[k].frames[..|run[k].frames| - 1][a.frame] == run[0].frames[a.frame];
    }
  }

  /** The engine call on which the unwind arrives serves nothing more: everything owed has run. */
  lemma {:induction false} ArrivalServedAll(host: Host, run: seq<Vm>)
    requires UnwindRun(host, run) && Fresh(run[0]) && Pass(host, Last(run)).Reached?
    ensures |run| - 1 == |OwedBy(run[0])|
    ensures Since(run[0], Last(run))
            && Arrives(Last(run), Last(run).mode.unwind, At(Last(run)), Pass(host, Last(run)).vm)
  {
    RunSoFar(host, run, |run| - 1);
    ReachedOwesNothing(host, Last(run));
  }

  // ------------------------------------------------------------ arriving at a catch

  /** Towards a catch the engine drops no active exception: no handler of an exited section holds `ip`. */
  lemma {:induction false} NothingLeftTowardsCatch(sections: seq<Section>, ip: nat, target: UnwindTarget, thrown: bool,
                                                   s: nat, limit: nat)
    requires limit <= |sections| && WellNested(sections) && target.ToHandler?
    ensures FramePops(sections, ip, target, thrown, s, limit) == 0
    decreases limit - s
  {
    if s < limit {
      NothingLeftTowardsCatch(sections, ip, target, thrown, s + 1, limit);
      assert WellFormed(sections[s]);
      if sections[s].instructions.Contains(ip) { NoneHoldsLeavesNone(sections[s].handlers, ip, thrown, 0); }
    }
  }

  /** Control is at the first instruction of the catch. The frames above are gone, the frames below are as
      they were, and above the base of the catching frame the stack holds the exception alone. */
  predicate CaughtIn(vm0: Vm, before: Vm, out: Outcome)
    requires UnwindReady(vm0) && vm0.mode.unwind.target.ToHandler?
  {
    var u, a := vm0.mode.unwind, vm0.mode.unwind.target.address;
    var frame0 := vm0.frames[a.frame];
    && out.result == Exception
    && frame0.base.stack <= |before.stack|
    && out.vm == vm0.(mode := Idle,
                      frames := vm0.frames[..a.frame]
                                + [frame0.(ip := HandlerAt(vm0.frames, a).instructions.start, stackHeight := 1,
                                           exceptionStack := frame0.exceptionStack + [u.exception.value])],
                      stack := before.stack[..frame0.base.stack] + [ObjectValue(u.exception.value)])
  }

  /** A whole unwind to a catch: it has run every handler it owed, and it ends in the catch. */
  lemma {:induction false} CatchUnwindEndsInHandler(host: Host, run: seq<Vm>)
    requires UnwindRun(host, run) && Fresh(run[0]) && run[0].mode.unwind.target.ToHandler?
    requires Pass(host, Last(run)).Reached?
    ensures |run| - 1 == |OwedBy(run[0])|
    ensures CaughtIn(run[0], Last(run), Handle(host, Last(run)))
  {
    ArrivalServedAll(host, run);
    ArrivalFrame(run[0], Last(run), Pass(host, Last(run)).vm);
    CatchIsEntered(host, run[0], Last(run), Pass(host, Last(run)).vm);
  }

  /** The target frame on arrival: only control and the active exceptions may differ from the start. */
  lemma {:induction false} ArrivalFrame(vm0: Vm, vm: Vm, vm1: Vm)
    requires Fresh(vm0) && Since(vm0, vm) && Arrives(vm, vm.mode.unwind, At(vm), vm1)
    ensures var t, u := TargetFrame(vm0.mode.unwind), vm0.mode.unwind;
            && |vm1.frames| == t + 1 && vm1.frames[..t] == vm0.frames[..t]
            && vm1.frames[t] == vm0.frames[t].(ip := vm1.frames[t].ip, stackHeight := vm1.frames[t].stackHeight,
                                               exceptionStack := DropLast(vm0.frames[t].exceptionStack,
                                                   Pops(vm0.frames[t], t, u, 0)))
  {
    var t, u, top := TargetFrame(vm0.mode.unwind), vm0.mode.unwind, |vm.frames| - 1;
    assert vm1.frames[..t] == vm.frames[..t] == vm.frames[..top][..t] == vm0.frames[..top][..t];
    if t == top {
      assert Supported(vm0.frames[t].sections);
      MovedPops(vm0.frames[t], vm.frames[t], t, u, At(vm), At(vm));
      DropLastAdds(vm0.frames[t].exceptionStack, Pops(vm0.frames[t], t, u, 0) - Pops(vm0.frames[t], t, u, At(vm)),
                   Pops(vm0.frames[t], t, u, At(vm)));
    } else {
      assert vm.frames[t] == vm.frames[..top][t] == vm0.frames[..top][t] == vm0.frames[t];
    }
  }

  lemma {:induction false} CatchIsEntered(host: Host, vm0: Vm, vm: Vm, vm1: Vm)
    requires Fresh(vm0) && Since(vm0, vm) && vm0.mode.unwind.target.ToHandler?
    requires Pass(host, vm) == Reached(vm1) && Arrives(vm, vm.mode.unwind, At(vm), vm1)
    requires var t, u := TargetFrame(vm0.mode.unwind), vm0.mode.unwind;
             && |vm1.frames| == t + 1 && vm1.frames[..t] == vm0.frames[..t]
             && vm1.frames[t] == vm0.frames[t].(ip := vm1.frames[t].ip, stackHeight := vm1.frames[t].stackHeight,
                                                exceptionStack := DropLast(vm0.frames[t].exceptionStack,
                                                    Pops(vm0.frames[t], t, u, 0)))
    ensures CaughtIn(vm0, vm, Handle(host, vm))
  {
    var u, t := vm0.mode.unwind, TargetFrame(vm0.mode.unwind);
    var frame0 := vm0.frames[t];
    assert Supported(frame0.sections);
    NothingLeftTowardsCatch(frame0.sections, frame0.ip, u.target, u.exception.Some?, 0,
                            SectionLimit(frame0.sections, t, u.target));
    assert OnStack(vm1.frames[t], |vm1.stack|);
    HandleIsPass(host, vm);
    ArriveAtCatch(host, vm1, vm.mode.unwind);
    assert DropLast(frame0.exceptionStack, 0) == frame0.exceptionStack;
    assert vm1.stack[..frame0.base.stack] == vm.stack[..frame0.base.stack];
  }

  lemma {:induction false} ArriveAtCatch(host: Host, vm1: Vm, u: UnwindState)
    requires vm1.mode == Unwinding(u) && u.target.ToHandler? && u.exception.Some?
    requires ValidAddress(vm1.frames, u.target.address) && |vm1.frames| == u.target.address.frame + 1
    requires OnStack(Last(vm1.frames), |vm1.stack|)
    ensures var frame, a := Last(vm1.frames), u.target.address;
            Arrive(host, vm1, u) == Outcome(
              vm1.(mode := Idle,
                   frames := vm1.frames[..a.frame]
                             + [frame.(ip := HandlerAt(vm1.frames, a).instructions.start, stackHeight := 1,
                                       exceptionStack := frame.exceptionStack + [u.exception.value])],
                   stack := vm1.stack[..frame.base.stack] + [ObjectValue(u.exception.value)]), Exception)
  {
    var out, a := Arrive(host, vm1, u), u.target.address;
    assert out.vm.frames == vm1.frames[..a.frame] + [out.vm.frames[a.frame]];
  }

  /** The catch and filter handlers of a frame, in sections before `limit`, that hold its instruction. */
  ghost function CatchesHolding(frame: Frame, limit: nat): set<(nat, nat)>
    requires limit <= |frame.sections|
  {
    set i, k | 0 <= i < limit && 0 <= k < |frame.sections[i].handlers|
    && HoldsCatch(frame.sections[i].handlers[k], frame.ip) :: (i, k)
  }

  predicate HoldsCatch(handler: Handler, ip: nat) {
    handler.kind.Catches() && handler.instructions.Contains(ip)
  }

  /** The active exceptions of the catching frame, were every catch that the throw leaves to drop its own. */
  ghost function ExpectedExceptions(vm0: Vm): seq<ObjectRef>
    requires UnwindReady(vm0) && vm0.mode.unwind.target.ToHandler?
  {
    var a := vm0.mode.unwind.target.address;
    var frame0 := vm0.frames[a.frame];
    DropLast(frame0.exceptionStack, |CatchesHolding(frame0, a.section)|) + [vm0.mode.unwind.exception.value]
  }

  /** The catches that a throw leaves keep their active exceptions. So the catching frame ends with the expected
      ones if and only if the throw leaves no catch of that frame, or none of its exceptions was active. */
  lemma {:induction false} CaughtExceptionsAreExpectedExactlyWhen(host: Host, run: seq<Vm>)
    requires UnwindRun(host, run) && Fresh(run[0]) && run[0].mode.unwind.target.ToHandler?
    requires Pass(host, Last(run)).Reached?
    ensures var a, after := run[0].mode.unwind.target.address, Handle(host, Last(run)).vm;
            && |after.frames| == a.frame + 1
            && (Last(after.frames).exceptionStack == ExpectedExceptions(run[0])
                <==> CatchesHolding(run[0].frames[a.frame], a.section) == {}
                     || run[0].frames[a.frame].exceptionStack == [])
  {
    CatchUnwindEndsInHandler(host, run);
    var a, after := run[0].mode.unwind.target.address, Handle(host, Last(run)).vm;
    var active, left := run[0].frames[a.frame].exceptionStack, CatchesHolding(run[0].frames[a.frame], a.section);
    var kept, exception := DropLast(active, |left|), [run[0].mode.unwind.exception.value];
    assert Last(after.frames).exceptionStack == active + exception;
    assert |active + exception| == |kept + exception| <==> left == {} || active == [];
    if left == {} || active == [] { assert kept == active; }
  }
}
