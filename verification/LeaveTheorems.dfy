/** Whole unwinds towards an instruction: what a `leave` runs, where it ends, and what it and a caught exception do
    to a handler that is running. */
module LeaveTheorems {
  import opened ExceptionData
  import opened ExceptionSemantics
  import opened Nesting
  import opened UnwindAgenda
  import opened UnwindPass
  import opened UnwindRuns
  import opened OwedHandlers
  import opened UnwindTheorems

  /** Control is at the target of `leave`: the operand count of the frame is zero, one active exception is
      gone for every catch that was left, and a handler unwind that was set aside is resumed. */
  predicate LandedAt(vm0: Vm, before: Vm, out: Outcome)
    requires UnwindReady(vm0) && vm0.mode.unwind.target.ToInstruction?
  {
    var u, t := vm0.mode.unwind, TargetFrame(vm0.mode.unwind);
    var frame0 := vm0.frames[t];
    && out.result == Exception
    && out.vm == vm0.(mode := if vm0.pendingUnwinds == [] then Idle else ExecutingHandler(Last(vm0.pendingUnwinds)),
                      pendingUnwinds := DropLast(vm0.pendingUnwinds, 1),
                      frames := vm0.frames[..t]
                                + [frame0.(ip := u.target.ip, stackHeight := 0,
                                           exceptionStack := DropLast(frame0.exceptionStack, Pops(frame0, t, u, 0)))],
                      stack := before.stack)
  }

  /** A whole `leave`: it has run every handler it owed, and it ends at its target. */
  lemma {:induction false} LeaveUnwindEndsAtTarget(host: Host, run: seq<Vm>)
    requires UnwindRun(host, run) && Fresh(run[0])
    requires run[0].mode.unwind.target.ToInstruction? && run[0].mode.unwind.target.ip != LEAVE_FRAME
    requires run[0].mode.unwind.nested.None?
    requires Pass(host, Last(run)).Reached?
    ensures |run| - 1 == |OwedBy(run[0])|
    ensures LandedAt(run[0], Last(run), Handle(host, Last(run)))
  {
    ArrivalServedAll(host, run);
    var vm0, vm, vm1 := run[0], Last(run), Pass(host, Last(run)).vm;
    ArrivalFrame(vm0, vm, vm1);
    var t, out := TargetFrame(vm0.mode.unwind), Handle(host, vm);
    HandleIsPass(host, vm);
    assert out.vm.frames == vm0.frames[..t] + [out.vm.frames[t]];
  }

  /** Control at `ip` that moves to `t` leaves the section: its try block, or one of its handlers. */
  predicate Leaves(section: Section, ip: nat, t: nat) {
    && !section.instructions.Contains(t)
    && (section.instructions.Contains(ip)
        || exists k :: 0 <= k < |section.handlers| && section.handlers[k].instructions.Contains(ip)
                       && !section.handlers[k].instructions.Contains(t))
  }

  lemma ExitsMeansLeaves(section: Section, ip: nat, t: nat)
    requires WellFormed(section)
    ensures Exits(section, ip, ToInstruction(t)) <==> Leaves(section, ip, t)
  {
    forall k, m | 0 <= k < m < |section.handlers|
      ensures !(section.handlers[k].instructions.Contains(ip) && section.handlers[m].instructions.Contains(ip))
    {
      assert Apart(section.handlers[k].instructions, section.handlers[m].instructions);
    }
  }

  /** A finally block of the top frame whose section a `leave` to `t` leaves, from outside the block itself. */
  predicate LeftFinally(vm: Vm, t: nat, a: HandlerAddress) {
    && ValidAddress(vm.frames, a) && a.frame == |vm.frames| - 1
    && var frame := vm.frames[a.frame];
    && Leaves(frame.sections[a.section], frame.ip, t)
    && HandlerAt(vm.frames, a).kind.Finally? && !HandlerAt(vm.frames, a).instructions.Contains(frame.ip)
  }

  /** A finally block that the unwind serves although control is inside it: another one before it was left, and
      none of those holds the target. */
  ghost predicate Reentered(vm: Vm, t: nat, a: HandlerAddress) {
    && ValidAddress(vm.frames, a) && a.frame == |vm.frames| - 1
    && var frame := vm.frames[a.frame];
    && Leaves(frame.sections[a.section], frame.ip, t)
    && HandlerAt(vm.frames, a).kind.Finally? && HandlerAt(vm.frames, a).instructions.Contains(frame.ip)
    && (exists b :: EarlierLeft(vm, t, a, b)) && NoEarlierHolds(vm, t, a)
  }

  predicate EarlierLeft(vm: Vm, t: nat, a: HandlerAddress, b: HandlerAddress) {
    LeftFinally(vm, t, b) && SameSection(a, b) && b.handler < a.handler
  }

  ghost predicate NoEarlierHolds(vm: Vm, t: nat, a: HandlerAddress) {
    forall b :: EarlierLeft(vm, t, a, b) ==> !HandlerAt(vm.frames, b).instructions.Contains(t)
  }

  /** Exactly what a `leave` owes: never a fault block, never another frame's; a finally block that it leaves unless
      an earlier one of the section holds the target, and no other block but one that it stands in itself. */
  lemma LeaveOwesExactly(vm: Vm, t: nat, a: HandlerAddress)
    requires |vm.frames| > 0 && Fresh(BeginLeave(vm, t))
    ensures a in OwedBy(BeginLeave(vm, t)) <==>
            (LeftFinally(vm, t, a) && NoEarlierHolds(vm, t, a)) || Reentered(vm, t, a)
  {
    var vm0 := BeginLeave(vm, t);
    OwedIffTurn(vm0, a);
    if ValidAddress(vm.frames, a) && a.frame == |vm.frames| - 1 {
      var frame := vm.frames[a.frame];
      var section := frame.sections[a.section];
      assert Supported(frame.sections) && WellFormed(section);
      ExitsMeansLeaves(section, frame.ip, t);
      if Leaves(section, frame.ip, t) {
        forall m | 0 <= m < a.handler
          ensures Runs(section.handlers[m], frame.ip, false) <==> EarlierLeft(vm, t, a, a.(handler := m))
        {
        }
        forall b | EarlierLeft(vm, t, a, b)
          ensures b == a.(handler := b.handler) && Runs(section.handlers[b.handler], frame.ip, false)
        {
        }
      }
    }
  }

  /** No finally block that shares its try block with another holds the `leave` or its target. */
  predicate Unambiguous(section: Section, ip: nat, t: nat) {
    forall k, m :: 0 <= k < |section.handlers| && 0 <= m < |section.handlers| && k != m
                   && section.handlers[k].kind.Finally? && section.handlers[m].kind.Finally? ==>
      !section.handlers[k].instructions.Contains(ip) && !section.handlers[k].instructions.Contains(t)
  }

  predicate AllUnambiguous(frame: Frame, t: nat) {
    forall i {:trigger Unambiguous(frame.sections[i], frame.ip, t)} :: 0 <= i < |frame.sections| ==>
        Unambiguous(frame.sections[i], frame.ip, t)
  }

  /** Where no finally block that shares its try block holds the `leave` or its target, exactly the finally blocks left
      are owed. */
  lemma LeaveOwesFinallyBlocksLeft(vm: Vm, t: nat, a: HandlerAddress)
    requires |vm.frames| > 0 && Fresh(BeginLeave(vm, t)) && AllUnambiguous(Last(vm.frames), t)
    ensures a in OwedBy(BeginLeave(vm, t)) <==> LeftFinally(vm, t, a)
  {
    LeaveOwesExactly(vm, t, a);
    if ValidAddress(vm.frames, a) && a.frame == |vm.frames| - 1 {
      var frame := vm.frames[a.frame];
      assert Unambiguous(frame.sections[a.section], frame.ip, t);
      forall b | EarlierLeft(vm, t, a, b) && HandlerAt(vm.frames, a).kind.Finally?
        ensures !HandlerAt(vm.frames, b).instructions.Contains(t)
                && !HandlerAt(vm.frames, a).instructions.Contains(frame.ip)
      {
      }
    }
  }

  /** For a finally block alone in its section: it is owed exactly if its try block holds `ip` and not `t`. */
  lemma LoneFinallyIsLeftExactlyWhen(vm: Vm, t: nat, a: HandlerAddress)
    requires ValidAddress(vm.frames, a) && a.frame == |vm.frames| - 1
    requires WellFormed(vm.frames[a.frame].sections[a.section])
             && |vm.frames[a.frame].sections[a.section].handlers| == 1
    ensures var section, ip := vm.frames[a.frame].sections[a.section], vm.frames[a.frame].ip;
            LeftFinally(vm, t, a) <==> HandlerAt(vm.frames, a).kind.Finally? && section.instructions.Contains(ip)
                                       && !section.instructions.Contains(t)
  {
  }

  /** A whole `leave`: its stops are exactly the finally blocks of the sections it leaves, each once and inner
      before outer, and it ends at its target. */
  lemma {:induction false} LeaveRunsFinallyBlocksLeft(host: Host, vm: Vm, t: nat, run: seq<Vm>)
    requires |vm.frames| > 0 && t != LEAVE_FRAME && AllUnambiguous(Last(vm.frames), t)
    requires UnwindRun(host, run) && run[0] == BeginLeave(vm, t) && Fresh(run[0]) && Pass(host, Last(run)).Reached?
    ensures var owed := OwedBy(run[0]);
            && |run| - 1 == |owed| && Ordered(owed) && (forall a :: a in owed <==> LeftFinally(vm, t, a))
            && (forall k :: 0 <= k < |owed| ==> Entered(Pass(host, run[k]).vm, vm.frames, owed[k]))
    ensures LandedAt(run[0], Last(run), Handle(host, Last(run)))
  {
    LeaveUnwindEndsAtTarget(host, run);
    OwedIsDue(run[0]);
    forall a ensures a in OwedBy(run[0]) <==> LeftFinally(vm, t, a) { LeaveOwesFinallyBlocksLeft(vm, t, a); }
    forall k | 0 <= k < |OwedBy(run[0])| ensures Entered(Pass(host, run[k]).vm, vm.frames, OwedBy(run[0])[k]) {
      assert Resumes(host, run[k], run[k + 1]);
      RunEntersOwedHandlers(host, run, k);
    }
  }

  // ------------------------------------------------------------ active exceptions

  /** The catch and filter handlers of one frame that the unwind leaves and whose exceptions it drops. */
  ghost function CatchesDropped(sections: seq<Section>, ip: nat, target: UnwindTarget, thrown: bool, s: nat,
                                limit: nat): set<(nat, nat)>
    requires limit <= |sections|
  {
    set i, k | s <= i < limit && 0 <= k < |sections[i].handlers| && CatchDropped(sections[i], ip, target, thrown, 0, k)
             :: (i, k)
  }

  /** The handler is left, and none from `h` on and before it runs. */
  predicate CatchDropped(section: Section, ip: nat, target: UnwindTarget, thrown: bool, h: nat, k: nat)
    requires k < |section.handlers|
  {
    Exits(section, ip, target) && HoldsCatch(section.handlers[k], ip) && NoneRuns(section.handlers, ip, thrown, h, k)
  }

  predicate NoneRuns(handlers: seq<Handler>, ip: nat, thrown: bool, h: nat, k: nat)
    requires k <= |handlers|
  {
    forall m :: h <= m < k ==> !Runs(handlers[m], ip, thrown)
  }

  /** One active exception is dropped for each of these handlers. */
  lemma {:induction false} PopsCountCatchesDropped(sections: seq<Section>, ip: nat, target: UnwindTarget, thrown: bool,
                                                   s: nat, limit: nat)
    requires limit <= |sections|
    ensures FramePops(sections, ip, target, thrown, s, limit)
            == |CatchesDropped(sections, ip, target, thrown, s, limit)|
    decreases limit - s
  {
    var all := CatchesDropped(sections, ip, target, thrown, s, limit);
    if s < limit {
      PopsCountCatchesDropped(sections, ip, target, thrown, s + 1, limit);
      DroppedHere(sections[s], ip, target, thrown, s, 0);
      DroppedSplit(sections, ip, target, thrown, s, limit);
    } else {
      assert all == {};
    }
  }

  lemma {:induction false} DroppedSplit(sections: seq<Section>, ip: nat, target: UnwindTarget, thrown: bool, s: nat,
                                        limit: nat)
    requires s < limit <= |sections|
    ensures |CatchesDropped(sections, ip, target, thrown, s, limit)|
            == |DroppedFrom(sections[s], ip, target, thrown, s, 0)|
               + |CatchesDropped(sections, ip, target, thrown, s + 1, limit)|
  {
    var all := CatchesDropped(sections, ip, target, thrown, s, limit);
    var here, later := DroppedFrom(sections[s], ip, target, thrown, s, 0),
                       CatchesDropped(sections, ip, target, thrown, s + 1, limit);
    assert all == here + later && here !! later;
  }

  ghost function DroppedFrom(section: Section, ip: nat, target: UnwindTarget, thrown: bool, s: nat, h: nat)
    : set<(nat, nat)>
  {
    set k | h <= k < |section.handlers| && CatchDropped(section, ip, target, thrown, h, k) :: (s, k)
  }

  lemma {:induction false} DroppedHere(section: Section, ip: nat, target: UnwindTarget, thrown: bool, s: nat, h: nat)
    requires h <= |section.handlers|
    ensures |DroppedFrom(section, ip, target, thrown, s, h)| == LeftHere(section, ip, target, thrown, h)
    decreases |section.handlers| - h
  {
    if h < |section.handlers| && !Runs(section.handlers[h], ip, thrown) {
      DroppedHere(section, ip, target, thrown, s, h + 1);
      DroppedNext(section, ip, target, thrown, s, h);
      assert NoneRuns(section.handlers, ip, thrown, h, h);
    } else {
      NoneDropped(section, ip, target, thrown, s, h);
    }
  }

  lemma NoneDropped(section: Section, ip: nat, target: UnwindTarget, thrown: bool, s: nat, h: nat)
    requires |section.handlers| <= h || Runs(section.handlers[h], ip, thrown)
    ensures DroppedFrom(section, ip, target, thrown, s, h) == {}
  {
    forall k: nat ensures (s, k) !in DroppedFrom(section, ip, target, thrown, s, h) {
      DroppedMembers(section, ip, target, thrown, s, h, k);
    }
  }

  lemma DroppedMembers(section: Section, ip: nat, target: UnwindTarget, thrown: bool, s: nat, h: nat, k: nat)
    ensures (s, k) in DroppedFrom(section, ip, target, thrown, s, h) <==>
            h <= k < |section.handlers| && CatchDropped(section, ip, target, thrown, h, k)
  {
  }

  lemma DroppedNext(section: Section, ip: nat, target: UnwindTarget, thrown: bool, s: nat, h: nat)
    requires h < |section.handlers| && !Runs(section.handlers[h], ip, thrown)
    ensures var first := if CatchDropped(section, ip, target, thrown, h, h) then {(s, h)} else {};
            DroppedFrom(section, ip, target, thrown, s, h)
            == DroppedFrom(section, ip, target, thrown, s, h + 1) + first
    ensures (s, h) !in DroppedFrom(section, ip, target, thrown, s, h + 1)
  {
    var here := DroppedFrom(section, ip, target, thrown, s, h);
    var rest := DroppedFrom(section, ip, target, thrown, s, h + 1);
    var first := if CatchDropped(section, ip, target, thrown, h, h) then {(s, h)} else {};
    forall k: nat ensures (s, k) in here <==> (s, k) in rest || (s, k) in first {
      DroppedMembers(section, ip, target, thrown, s, h, k);
      DroppedMembers(section, ip, target, thrown, s, h + 1, k);
    }
    forall at ensures at in here <==> at in rest || at in first {
      if at.0 == s { assert at == (s, at.1); }
    }
  }

  /** The catch and filter handlers of one frame that the unwind leaves. */
  ghost function CatchesLeft(sections: seq<Section>, ip: nat, target: UnwindTarget, limit: nat): set<(nat, nat)>
    requires limit <= |sections|
  {
    set i, k | 0 <= i < limit && 0 <= k < |sections[i].handlers| && CatchLeft(sections[i], ip, target, k) :: (i, k)
  }

  predicate CatchLeft(section: Section, ip: nat, target: UnwindTarget, k: nat)
    requires k < |section.handlers|
  {
    Exits(section, ip, target) && HoldsCatch(section.handlers[k], ip)
  }

  /** The exception of every catch that is left is dropped if and only if no block that runs comes before such a
      catch in its section. */
  lemma CatchesAreDroppedExactlyWhen(sections: seq<Section>, ip: nat, target: UnwindTarget, thrown: bool, limit: nat)
    requires limit <= |sections|
    ensures FramePops(sections, ip, target, thrown, 0, limit) == |CatchesLeft(sections, ip, target, limit)| <==>
            forall i, k ::
              0 <= i < limit && 0 <= k < |sections[i].handlers| && CatchLeft(sections[i], ip, target, k) ==>
                NoneRuns(sections[i].handlers, ip, thrown, 0, k)
  {
    PopsCountCatchesDropped(sections, ip, target, thrown, 0, limit);
    var left, dropped := CatchesLeft(sections, ip, target, limit),
                         CatchesDropped(sections, ip, target, thrown, 0, limit);
    assert dropped <= left;
    if left <= dropped {
      assert left == dropped;
      forall i, k | 0 <= i < limit && 0 <= k < |sections[i].handlers| && CatchLeft(sections[i], ip, target, k)
        ensures NoneRuns(sections[i].handlers, ip, thrown, 0, k)
      {
        assert (i, k) in left;
        assert CatchDropped(sections[i], ip, target, thrown, 0, k);
      }
    } else {
      ProperSubsetIsSmaller(dropped, left);
      var at :| at in left && at !in dropped;
      assert CatchLeft(sections[at.0], ip, target, at.1);
      assert !CatchDropped(sections[at.0], ip, target, thrown, 0, at.1);
    }
  }

  lemma ProperSubsetIsSmaller<T>(a: set<T>, b: set<T>)
    requires a < b
    ensures |a| < |b|
  {
    assert b == a + (b - a) && a !! (b - a);
    assert b - a != {};
  }

  // ------------------------------------------------------------ interrupted handlers

  /** A `leave` executed while a handler runs gives that handler's unwind back exactly when the handler
      belongs to a frame further down. In the handler's own frame the unwind is lost. */
  lemma {:induction false} LeaveKeepsHandlerUnwind(host: Host, vm: Vm, target: nat, run: seq<Vm>)
    requires vm.mode.ExecutingHandler? && |vm.frames| > 0 && target != LEAVE_FRAME
    requires UnwindRun(host, run) && run[0] == BeginLeave(vm, target) && Fresh(run[0])
    requires Pass(host, Last(run)).Reached?
    ensures var after := Handle(host, Last(run)).vm;
            (after.mode == vm.mode && after.pendingUnwinds == vm.pendingUnwinds)
            <==> vm.mode.unwind.cursor.frame < |vm.frames| - 1
  {
    LeaveUnwindEndsAtTarget(host, run);
  }

  /** After a `leave` in the handler's own frame, with nothing else set aside, the handler's `endfinally`
      is an error: the unwind that started the handler never continues. */
  lemma {:induction false} LeaveInHandlerBreaksEndFinally(host: Host, vm: Vm, target: nat, run: seq<Vm>)
    requires vm.mode.ExecutingHandler? && |vm.frames| > 0 && target != LEAVE_FRAME
    requires vm.mode.unwind.cursor.frame == |vm.frames| - 1 && vm.pendingUnwinds == []
    requires UnwindRun(host, run) && run[0] == BeginLeave(vm, target) && Fresh(run[0])
    requires Pass(host, Last(run)).Reached?
    ensures EndFinally(host, Handle(host, Last(run)).vm).result == Error(InvalidCil)
  {
    LeaveUnwindEndsAtTarget(host, run);
  }

  /** An exception that is thrown while a handler runs, and caught, takes away the unwind of that handler: whatever
      was running before, the catch starts with nothing in progress, and what was set aside stays set aside. */
  lemma {:induction false} CatchForgetsHandlerUnwind(host: Host, run: seq<Vm>)
    requires UnwindRun(host, run) && Fresh(run[0]) && run[0].mode.unwind.target.ToHandler?
    requires Pass(host, Last(run)).Reached?
    ensures var after := Handle(host, Last(run)).vm;
            && after.mode == Idle && after.pendingUnwinds == run[0].pendingUnwinds
            && EndFinally(host, after) == Outcome(after, Error(InvalidCil))
  {
    CatchUnwindEndsInHandler(host, run);
  }

  /** The catch then leaves for the rest of the handler whose unwind was `own`. `endfinally` resumes that unwind if
      and only if it was the newest one set aside when the exception was thrown, which is so when a method called
      by the handler had executed a `leave` that was still running. Otherwise `endfinally` resumes another unwind,
      whose cursor is in the top frame only if that was already its frame, and if none had been set aside it is an
      error. */
  lemma {:induction false} EndFinallyAfterCatchExactlyWhen(host: Host, own: UnwindState, run: seq<Vm>, vm: Vm, t: nat,
                                                           leave: seq<Vm>)
    requires UnwindRun(host, run) && Fresh(run[0]) && run[0].mode.unwind.target.ToHandler?
             && Pass(host, Last(run)).Reached?
    requires vm.mode == Handle(host, Last(run)).vm.mode
             && vm.pendingUnwinds == Handle(host, Last(run)).vm.pendingUnwinds
    requires |vm.frames| > 0 && t != LEAVE_FRAME
    requires UnwindRun(host, leave) && leave[0] == BeginLeave(vm, t) && Fresh(leave[0])
             && Pass(host, Last(leave)).Reached?
    ensures var after, pending := Handle(host, Last(leave)).vm, run[0].pendingUnwinds;
            && (after.mode == ExecutingHandler(own) <==> pending != [] && Last(pending) == own)
            && (after.mode.ExecutingHandler? && after.mode.unwind.cursor.frame == |after.frames| - 1
                <==> pending != [] && Last(pending).cursor.frame == |vm.frames| - 1)
            && (pending == [] ==> EndFinally(host, after) == Outcome(after, Error(InvalidCil)))
            && (pending != [] ==> EndFinally(host, after) == Handle(host, after.(mode := Unwinding(Last(pending)))))
  {
    CatchForgetsHandlerUnwind(host, run);
    LeaveUnwindEndsAtTarget(host, leave);
  }
}
