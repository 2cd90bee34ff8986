/** What an unwind owes at its beginning, read off the call stack: which handlers, and in which order. */
module OwedHandlers {
  import opened Wrappers
  import opened ExceptionData
  import opened ExceptionSemantics
  import opened Nesting
  import opened UnwindAgenda
  import opened UnwindPass
  import opened UnwindRuns

  /** The unwind is at its beginning: nothing of the call stack has been visited. */
  predicate Fresh(vm: Vm) {
    UnwindReady(vm) && vm.mode.unwind.cursor == Top(vm)
  }

  /** The handler has to run when the unwind passes its section: read off the state at its beginning. */
  predicate Due(vm: Vm, a: HandlerAddress)
    requires UnwindReady(vm)
  {
    var u := vm.mode.unwind;
    && ValidAddress(vm.frames, a)
    && TargetFrame(u) <= a.frame
    && var frame := vm.frames[a.frame];
    && a.section < SectionLimit(frame.sections, a.frame, u.target)
    && Exits(frame.sections[a.section], frame.ip, u.target)
    && Runs(HandlerAt(vm.frames, a), frame.ip, u.exception.Some?)
  }

  // ------------------------------------------------------------ what is owed

  /** A finally block, or a fault block while an exception is thrown. */
  predicate Block(handler: Handler, thrown: bool) {
    handler.kind.Finally? || (handler.kind.Fault? && thrown)
  }

  /** Once the handler has run, the rest of its section is not served: control is no longer in the try block, or
      it is in the handler that holds the target. */
  predicate EndsSection(handler: Handler, target: UnwindTarget) {
    target.ToHandler? || handler.instructions.Contains(target.ip)
  }

  /** The section is left, and handler `k` is served: it is a block, no runnable block before it ends the section,
      and a block that holds `ip` itself has a runnable one before it. */
  predicate HasTurn(section: Section, ip: nat, target: UnwindTarget, thrown: bool, k: nat) {
    && Exits(section, ip, target)
    && k < |section.handlers| && Block(section.handlers[k], thrown)
    && (forall m :: 0 <= m < k && Runs(section.handlers[m], ip, thrown) ==> !EndsSection(section.handlers[m], target))
    && (section.handlers[k].instructions.Contains(ip) ==>
          exists m :: 0 <= m < k && Runs(section.handlers[m], ip, thrown))
  }

  /** From inside handler `j`, the section is left exactly if that handler does not end it. */
  lemma ExitsFromHandler(section: Section, j: nat, ip: nat, target: UnwindTarget)
    requires WellFormed(section) && j < |section.handlers| && section.handlers[j].instructions.Contains(ip)
    ensures Exits(section, ip, target) <==>
            !EndsSection(section.handlers[j], target) && !section.instructions.Contains(target.ip)
    ensures forall k :: 0 <= k < |section.handlers| && k != j ==> !section.handlers[k].instructions.Contains(ip)
  {
    SameHandlerSameBlocks(section, j, ip, ip);
  }

  /** Handler `k` is a block, and no block from `h` on and before it ends the section. */
  predicate TurnFrom(section: Section, target: UnwindTarget, thrown: bool, h: nat, k: nat) {
    && h <= k < |section.handlers| && Block(section.handlers[k], thrown)
    && forall m :: h <= m < k && Block(section.handlers[m], thrown) ==> !EndsSection(section.handlers[m], target)
  }

  /** `first` is the first block from `h` on. */
  predicate FirstBlock(handlers: seq<Handler>, thrown: bool, h: nat, first: nat) {
    && h <= first < |handlers| && Block(handlers[first], thrown)
    && forall m :: h <= m < first ==> !Block(handlers[m], thrown)
  }

  lemma TurnIsFirstOrLater(section: Section, target: UnwindTarget, thrown: bool, h: nat, first: nat, k: nat)
    requires FirstBlock(section.handlers, thrown, h, first)
    ensures TurnFrom(section, target, thrown, h, k) <==>
            || k == first
            || (!EndsSection(section.handlers[first], target) && TurnFrom(section, target, thrown, first + 1, k))
  {
  }

  /** From inside an earlier handler, the first handler that runs is the first block. */
  lemma FirstRunnableIsBlock(section: Section, ip: nat, thrown: bool, h: nat)
    requires forall m :: h <= m < |section.handlers| ==> !section.handlers[m].instructions.Contains(ip)
    ensures match FirstRunnable(section.handlers, ip, thrown, h)
            case Some(first) => FirstBlock(section.handlers, thrown, h, first)
            case None => forall m :: h <= m < |section.handlers| ==> !Block(section.handlers[m], thrown)
  {
    forall m | h <= m < |section.handlers|
      ensures Runs(section.handlers[m], ip, thrown) <==> Block(section.handlers[m], thrown)
    {
    }
  }

  lemma {:induction false} TurnsFromHandler(section: Section, j: nat, ip: nat, target: UnwindTarget, thrown: bool,
                                            h: nat, k: nat)
    requires WellFormed(section) && j < h <= |section.handlers| && section.handlers[j].instructions.Contains(ip)
    ensures k in SectionAgenda(section, ip, target, thrown, h) <==>
            Exits(section, ip, target) && TurnFrom(section, target, thrown, h, k)
    decreases |section.handlers| - h
  {
    if Exits(section, ip, target) {
      FirstTurnFromHandler(section, j, ip, target, thrown, h);
      var first := FirstRunnable(section.handlers, ip, thrown, h);
      if first.Some? {
        var start := section.handlers[first.value].instructions.start;
        TurnsFromHandler(section, first.value, start, target, thrown, first.value + 1, k);
        TurnIsFirstOrLater(section, target, thrown, h, first.value, k);
      }
    }
  }

  /** The first handler that runs is the first block, and it goes on from there unless that block ends the section. */
  lemma FirstTurnFromHandler(section: Section, j: nat, ip: nat, target: UnwindTarget, thrown: bool, h: nat)
    requires WellFormed(section) && j < h <= |section.handlers| && section.handlers[j].instructions.Contains(ip)
    requires Exits(section, ip, target)
    ensures match FirstRunnable(section.handlers, ip, thrown, h)
            case None => forall k :: !TurnFrom(section, target, thrown, h, k)
            case Some(first) =>
              && FirstBlock(section.handlers, thrown, h, first)
              && section.handlers[first].instructions.Contains(section.handlers[first].instructions.start)
              && (Exits(section, section.handlers[first].instructions.start, target) <==>
                  !EndsSection(section.handlers[first], target))
  {
    ExitsFromHandler(section, j, ip, target);
    FirstRunnableIsBlock(section, ip, thrown, h);
    var first := FirstRunnable(section.handlers, ip, thrown, h);
    if first.Some? {
      ExitsFromHandler(section, first.value, section.handlers[first.value].instructions.start, target);
    }
  }

  /** What one section owes from its beginning. */
  lemma {:induction false} TurnsExactly(section: Section, ip: nat, target: UnwindTarget, thrown: bool, k: nat)
    requires WellFormed(section)
    ensures k in SectionAgenda(section, ip, target, thrown, 0) <==> HasTurn(section, ip, target, thrown, k)
  {
    var first := FirstRunnable(section.handlers, ip, thrown, 0);
    if Exits(section, ip, target) && first.Some? {
      var start := section.handlers[first.value].instructions.start;
      TurnsFromHandler(section, first.value, start, target, thrown, first.value + 1, k);
      HasTurnExactlyWhen(section, ip, target, thrown, first.value, k);
    }
  }

  lemma HasTurnExactlyWhen(section: Section, ip: nat, target: UnwindTarget, thrown: bool, first: nat, k: nat)
    requires WellFormed(section) && Exits(section, ip, target)
             && FirstRunnable(section.handlers, ip, thrown, 0) == Some(first)
    ensures HasTurn(section, ip, target, thrown, k) <==>
            || k == first
            || (Exits(section, section.handlers[first].instructions.start, target)
                && TurnFrom(section, target, thrown, first + 1, k))
  {
    ExitsFromHandler(section, first, section.handlers[first].instructions.start, target);
  }

  predicate Increasing(turns: seq<nat>, least: nat) {
    && (forall i :: 0 <= i < |turns| ==> least <= turns[i])
    && forall i, j :: 0 <= i < j < |turns| ==> turns[i] < turns[j]
  }

  lemma {:induction false} TurnsIncrease(section: Section, ip: nat, target: UnwindTarget, thrown: bool, h: nat)
    ensures Increasing(SectionAgenda(section, ip, target, thrown, h), h)
    decreases |section.handlers| - h
  {
    var first := FirstRunnable(section.handlers, ip, thrown, h);
    if Exits(section, ip, target) && first.Some? {
      var start := section.handlers[first.value].instructions.start;
      TurnsIncrease(section, start, target, thrown, first.value + 1);
      var rest := SectionAgenda(section, start, target, thrown, first.value + 1);
      assert Increasing([first.value] + rest, h);
    }
  }

  lemma AddressesMembers(f: nat, s: nat, turns: seq<nat>, a: HandlerAddress)
    ensures a in Addresses(f, s, turns) <==> a.frame == f && a.section == s && a.handler in turns
  {
    if a.frame == f && a.section == s && a.handler in turns {
      var i :| 0 <= i < |turns| && turns[i] == a.handler;
      assert Addresses(f, s, turns)[i] == a;
    }
  }

  lemma {:induction false} AgendaMembers(sections: seq<Section>, ip: nat, target: UnwindTarget, thrown: bool,
                                         f: nat, s: nat, limit: nat, a: HandlerAddress)
    requires limit <= |sections|
    ensures a in FrameAgenda(sections, ip, target, thrown, f, s, 0, limit) <==>
            && a.frame == f && s <= a.section < limit
            && a.handler in SectionAgenda(sections[a.section], ip, target, thrown, 0)
    decreases limit - s
  {
    if s < limit {
      AgendaMembers(sections, ip, target, thrown, f, s + 1, limit, a);
      AddressesMembers(f, s, SectionAgenda(sections[s], ip, target, thrown, 0), a);
    }
  }

  /** The handler belongs to a section that the unwind passes in this frame, and is served there. */
  predicate Served(frame: Frame, u: UnwindState, a: HandlerAddress) {
    && a.section < SectionLimit(frame.sections, a.frame, u.target)
    && a.handler in SectionAgenda(frame.sections[a.section], frame.ip, u.target, u.exception.Some?, 0)
  }

  lemma {:induction false} OwedMembers(frames: seq<Frame>, u: UnwindState, lowest: nat, f: nat, a: HandlerAddress)
    requires f <= |frames|
    ensures a in OwedBelow(frames, u, lowest, f) <==> lowest <= a.frame < f && Served(frames[a.frame], u, a)
    decreases f
  {
    if lowest < f {
      var frame := frames[f - 1];
      AgendaMembers(frame.sections, frame.ip, u.target, u.exception.Some?, f - 1, 0,
                    SectionLimit(frame.sections, f - 1, u.target), a);
      OwedMembers(frames, u, lowest, f - 1, a);
    }
  }

  predicate Ordered(list: seq<HandlerAddress>) {
    forall i, j :: 0 <= i < j < |list| ==> Before(list[i], list[j])
  }

  lemma OrderedAppend(a: seq<HandlerAddress>, b: seq<HandlerAddress>)
    requires Ordered(a) && Ordered(b) && forall x, y :: x in a && y in b ==> Before(x, y)
    ensures Ordered(a + b)
  {
  }

  lemma {:induction false} AgendaOrdered(sections: seq<Section>, ip: nat, target: UnwindTarget, thrown: bool,
                                         f: nat, s: nat, limit: nat)
    requires limit <= |sections|
    ensures Ordered(FrameAgenda(sections, ip, target, thrown, f, s, 0, limit))
    decreases limit - s
  {
    if s < limit {
      AgendaOrdered(sections, ip, target, thrown, f, s + 1, limit);
      var turns := SectionAgenda(sections[s], ip, target, thrown, 0);
      var here, later := Addresses(f, s, turns), FrameAgenda(sections, ip, target, thrown, f, s + 1, 0, limit);
      TurnsIncrease(sections[s], ip, target, thrown, 0);
      assert Ordered(here);
      forall x, y | x in here && y in later ensures Before(x, y) {
        AgendaMembers(sections, ip, target, thrown, f, s + 1, limit, y);
      }
      OrderedAppend(here, later);
    }
  }

  lemma {:induction false} OwedOrdered(frames: seq<Frame>, u: UnwindState, lowest: nat, f: nat)
    requires f <= |frames|
    ensures Ordered(OwedBelow(frames, u, lowest, f))
    decreases f
  {
    if lowest < f {
      var frame := frames[f - 1];
      var limit := SectionLimit(frame.sections, f - 1, u.target);
      AgendaOrdered(frame.sections, frame.ip, u.target, u.exception.Some?, f - 1, 0, limit);
      OwedOrdered(frames, u, lowest, f - 1);
      var here, below := OwedHere(frame, u, f - 1, 0, 0), OwedBelow(frames, u, lowest, f - 1);
      forall x, y | x in here && y in below ensures Before(x, y) {
        AgendaMembers(frame.sections, frame.ip, u.target, u.exception.Some?, f - 1, 0, limit, x);
        OwedMembers(frames, u, lowest, f - 1, y);
      }
      OrderedAppend(here, below);
    }
  }

  /** The unwind passes the section of the handler, and serves the handler. */
  predicate Turn(vm: Vm, a: HandlerAddress)
    requires UnwindReady(vm)
  {
    var u := vm.mode.unwind;
    && Passes(vm.frames, u, a) && TargetFrame(u) <= a.frame
    && var frame := vm.frames[a.frame];
    HasTurn(frame.sections[a.section], frame.ip, u.target, u.exception.Some?, a.handler)
  }

  lemma OwedIffTurn(vm: Vm, a: HandlerAddress)
    requires Fresh(vm)
    ensures a in OwedBy(vm) <==> Turn(vm, a)
  {
    var u := vm.mode.unwind;
    assert OwedBy(vm) == OwedBelow(vm.frames, u, TargetFrame(u), |vm.frames|);
    OwedMembers(vm.frames, u, TargetFrame(u), |vm.frames|, a);
    if a.frame < |vm.frames| && a.section < |vm.frames[a.frame].sections| {
      var frame := vm.frames[a.frame];
      assert Supported(frame.sections) && WellFormed(frame.sections[a.section]);
      TurnsExactly(frame.sections[a.section], frame.ip, u.target, u.exception.Some?, a.handler);
    }
  }

  /** What an unwind owes at its beginning, in order. */
  lemma OwedIsDue(vm: Vm)
    requires Fresh(vm)
    ensures Ordered(OwedBy(vm))
    ensures forall a :: a in OwedBy(vm) <==> Turn(vm, a)
  {
    var u := vm.mode.unwind;
    assert OwedBy(vm) == OwedBelow(vm.frames, u, TargetFrame(u), |vm.frames|);
    OwedOrdered(vm.frames, u, TargetFrame(u), |vm.frames|);
    forall a ensures a in OwedBy(vm) <==> Turn(vm, a) {
      OwedIffTurn(vm, a);
    }
  }

  predicate SameSection(a: HandlerAddress, b: HandlerAddress) {
    a.frame == b.frame && a.section == b.section
  }

  /** The handler is due, and no handler before it in its section is. */
  ghost predicate FirstDue(vm: Vm, a: HandlerAddress)
    requires UnwindReady(vm)
  {
    Due(vm, a) && forall b :: Due(vm, b) && SameSection(a, b) ==> a.handler <= b.handler
  }

  /** Towards a catch, an unwind owes of each section it leaves the first handler that is due. */
  lemma TowardsCatchOwesFirstDue(vm: Vm, a: HandlerAddress)
    requires Fresh(vm) && vm.mode.unwind.target.ToHandler?
    ensures a in OwedBy(vm) <==> FirstDue(vm, a)
  {
    OwedIffTurn(vm, a);
    if Passes(vm.frames, vm.mode.unwind, a) {
      if FirstDue(vm, a) {
        forall m | 0 <= m < a.handler
          ensures !Runs(vm.frames[a.frame].sections[a.section].handlers[m], vm.frames[a.frame].ip,
                        vm.mode.unwind.exception.Some?)
        {
          assert !Due(vm, a.(handler := m));
        }
      }
    }
  }

  /** Handler `a` ends its section before the due handler `b` gets its turn. */
  predicate CutsOff(vm: Vm, a: HandlerAddress, b: HandlerAddress)
    requires UnwindReady(vm)
  {
    && Due(vm, a) && Due(vm, b) && SameSection(a, b) && a.handler < b.handler
    && EndsSection(HandlerAt(vm.frames, a), vm.mode.unwind.target)
  }

  /** A due handler is owed exactly if none cuts it off. */
  lemma DueIsOwedExactlyWhen(vm: Vm, b: HandlerAddress)
    requires Fresh(vm) && Due(vm, b)
    ensures b in OwedBy(vm) <==> forall a :: !CutsOff(vm, a, b)
  {
    OwedIffTurn(vm, b);
    var handlers, ip := vm.frames[b.frame].sections[b.section].handlers, vm.frames[b.frame].ip;
    forall m | 0 <= m < b.handler && Runs(handlers[m], ip, vm.mode.unwind.exception.Some?)
      ensures Due(vm, b.(handler := m)) && HandlerAt(vm.frames, b.(handler := m)) == handlers[m]
    {
    }
    if forall a :: !CutsOff(vm, a, b) {
      forall m | 0 <= m < b.handler && Runs(handlers[m], ip, vm.mode.unwind.exception.Some?)
        ensures !EndsSection(handlers[m], vm.mode.unwind.target)
      {
        assert !CutsOff(vm, b.(handler := m), b);
      }
    }
  }

  /** Every handler that is due runs exactly when none cuts off another: towards a catch, when no section has two
      of them; towards an instruction, when none that holds the instruction comes before another. */
  lemma AllDueRunExactlyWhen(vm: Vm)
    requires Fresh(vm)
    ensures (forall a :: Due(vm, a) ==> a in OwedBy(vm)) <==> (forall a, b :: !CutsOff(vm, a, b))
  {
    forall b | Due(vm, b) ensures b in OwedBy(vm) <==> forall a :: !CutsOff(vm, a, b) {
      DueIsOwedExactlyWhen(vm, b);
    }
  }

  // ------------------------------------------------------------ a shared try block

  /** A method whose try block 0..2 has two finally blocks, called from one that catches everything. */
  function TwoFinallyBlocks(): Vm {
    var twice := Section(Range(0, 2), [Handler(Range(2, 3), Finally), Handler(Range(3, 4), Finally)]);
    var caught := Section(Range(0, 2), [Handler(Range(2, 3), Catch(0))]);
    var caller := Frame(0, 0, BasePointer(0, 0), [caught], [], 0, false);
    var callee := Frame(0, 0, BasePointer(0, 0), [twice], [], 1, false);
    var u := UnwindState(Some(Ref(0)), ToHandler(HandlerAddress(0, 0, 0)), HandlerAddress(1, 0, 0), None);
    Vm([caller, callee], [], [], [], Unwinding(u), [])
  }

  lemma OneSection(section: Section)
    requires WellFormed(section)
    ensures Supported([section])
  {
  }

  /** Both finally blocks are due and only the first one runs. */
  lemma SecondFinallyIsSkipped()
    ensures Fresh(TwoFinallyBlocks())
    ensures Due(TwoFinallyBlocks(), HandlerAddress(1, 0, 0)) && Due(TwoFinallyBlocks(), HandlerAddress(1, 0, 1))
    ensures HandlerAddress(1, 0, 1) !in OwedBy(TwoFinallyBlocks())
  {
    var vm := TwoFinallyBlocks();
    OneSection(vm.frames[0].sections[0]);
    OneSection(vm.frames[1].sections[0]);
    assert vm.frames[0].sections == [vm.frames[0].sections[0]] && vm.frames[1].sections == [vm.frames[1].sections[0]];
    assert CutsOff(vm, HandlerAddress(1, 0, 0), HandlerAddress(1, 0, 1));
    DueIsOwedExactlyWhen(vm, HandlerAddress(1, 0, 1));
  }
}
