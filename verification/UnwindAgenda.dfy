/** The agenda of an unwind: which handlers it owes, read off once from the frames. One pass of the
    engine serves the head of the agenda, and running that handler leaves the tail in place. */
module UnwindAgenda {
  import opened Wrappers
  import opened ExceptionData
  import opened ExceptionSemantics
  import opened Nesting

  function FirstRunnable(handlers: seq<Handler>, ip: nat, thrown: bool, h: nat): (k: Option<nat>)
    ensures k.Some? ==> h <= k.value < |handlers| && Runs(handlers[k.value], ip, thrown)
    ensures k.Some? ==> forall m :: h <= m < k.value ==> !Runs(handlers[m], ip, thrown)
    ensures k.None? ==> forall m :: h <= m < |handlers| ==> !Runs(handlers[m], ip, thrown)
    decreases |handlers| - h
  {
    if |handlers| <= h then None
    else if Runs(handlers[h], ip, thrown) then Some(h)
    else FirstRunnable(handlers, ip, thrown, h + 1)
  }

  /** The handlers of one section that get their turn, from handler `h` on. When one of them has run, control is
      inside it, and whether the section is left is decided again from there. */
  function SectionAgenda(section: Section, ip: nat, target: UnwindTarget, thrown: bool, h: nat): seq<nat>
    decreases |section.handlers| - h
  {
    if !Exits(section, ip, target) then []
    else
      match FirstRunnable(section.handlers, ip, thrown, h)
      case None => []
      case Some(k) => [k] + SectionAgenda(section, section.handlers[k].instructions.start, target, thrown, k + 1)
  }

  function Addresses(f: nat, s: nat, turns: seq<nat>): seq<HandlerAddress> {
    seq(|turns|, i requires 0 <= i < |turns| => HandlerAddress(f, s, turns[i]))
  }

  /** The handlers owed by one frame, from handler `h` of section `s` up to section `limit`. */
  function FrameAgenda(sections: seq<Section>, ip: nat, target: UnwindTarget, thrown: bool,
                       f: nat, s: nat, h: nat, limit: nat): (agenda: seq<HandlerAddress>)
    requires limit <= |sections|
    decreases limit - s
  {
    if limit <= s then []
    else
      Addresses(f, s, SectionAgenda(sections[s], ip, target, thrown, h))
      + FrameAgenda(sections, ip, target, thrown, f, s + 1, 0, limit)
  }

  /** What the frame owes once handler `h` of section `s` has run. */
  function AgendaAfter(sections: seq<Section>, ip: nat, target: UnwindTarget, thrown: bool,
                       f: nat, s: nat, h: nat, limit: nat): seq<HandlerAddress>
    requires s < limit <= |sections| && h < |sections[s].handlers|
  {
    Addresses(f, s, SectionAgenda(sections[s], sections[s].handlers[h].instructions.start, target, thrown, h + 1))
    + FrameAgenda(sections, ip, target, thrown, f, s + 1, 0, limit)
  }

  /** The number of catch and filter handlers that hold `ip`, from handler `h` up to the first one that runs. */
  function LeftCatches(handlers: seq<Handler>, ip: nat, thrown: bool, h: nat): nat
    decreases |handlers| - h
  {
    if |handlers| <= h || Runs(handlers[h], ip, thrown) then 0
    else (if handlers[h].instructions.Contains(ip) && handlers[h].kind.Catches() then 1 else 0)
         + LeftCatches(handlers, ip, thrown, h + 1)
  }

  /** The catches of one section whose exceptions are dropped, from handler `h` on. */
  function LeftHere(section: Section, ip: nat, target: UnwindTarget, thrown: bool, h: nat): nat {
    if Exits(section, ip, target) then LeftCatches(section.handlers, ip, thrown, h) else 0
  }

  /** The number of catch and filter handlers whose exception is dropped when `ip` moves to `target`. */
  function FramePops(sections: seq<Section>, ip: nat, target: UnwindTarget, thrown: bool, s: nat, limit: nat): nat
    requires limit <= |sections|
    decreases limit - s
  {
    if limit <= s then 0
    else LeftHere(sections[s], ip, target, thrown, 0) + FramePops(sections, ip, target, thrown, s + 1, limit)
  }

  /** What the unwinder needs of a method's sections. */
  predicate Supported(sections: seq<Section>) {
    WellNested(sections) && Sorted(sections)
  }

  /** From a cursor in the middle of a section on, no handler of that section holds `ip`. */
  predicate CursorSettled(sections: seq<Section>, ip: nat, s: nat, h: nat) {
    h == 0 || s >= |sections| || NoneHolds(sections[s].handlers, ip, h)
  }

  predicate NoneHolds(handlers: seq<Handler>, ip: nat, h: nat) {
    forall k :: h <= k < |handlers| ==> !handlers[k].instructions.Contains(ip)
  }

  /** The first section of which no catch has been left yet. */
  function ResumeSection(s: nat, h: nat): nat {
    if h == 0 then s else s + 1
  }

  // ------------------------------------------------------------ one frame

  lemma {:induction false} SweepWithinSection(sections: seq<Section>, ip: nat, target: UnwindTarget, thrown: bool,
                                              s: nat, h: nat, limit: nat)
    requires limit <= |sections| && s < limit && h <= |sections[s].handlers| && Exits(sections[s], ip, target)
    ensures var sweep, left := SweepFrom(sections, ip, target, thrown, s, h, limit),
                               LeftCatches(sections[s].handlers, ip, thrown, h);
            match FirstRunnable(sections[s].handlers, ip, thrown, h)
            case Some(k) => sweep == Sweep(left, Some((s, k)))
            case None =>
              var rest := SweepFrom(sections, ip, target, thrown, s + 1, 0, limit);
              sweep == rest.(pops := rest.pops + left)
    decreases |sections[s].handlers| - h
  {
    if h < |sections[s].handlers| {
      SweepWithinSection(sections, ip, target, thrown, s, h + 1, limit);
    }
  }

  lemma {:induction false} NoneHoldsLeavesNone(handlers: seq<Handler>, ip: nat, thrown: bool, h: nat)
    requires NoneHolds(handlers, ip, h)
    ensures LeftCatches(handlers, ip, thrown, h) == 0
    decreases |handlers| - h
  {
    if h < |handlers| { NoneHoldsLeavesNone(handlers, ip, thrown, h + 1); }
  }

  /** The sweep stops exactly at the head of the agenda that starts at handler `h` of section `s`. */
  predicate ServesStop(sweep: Sweep, sections: seq<Section>, ip: nat, target: UnwindTarget, thrown: bool,
                       f: nat, s: nat, h: nat, limit: nat)
    requires limit <= |sections|
  {
    var agenda := FrameAgenda(sections, ip, target, thrown, f, s, h, limit);
    match sweep.stop
    case None => agenda == []
    case Some((s1, h1)) =>
      && s <= s1 < limit && h1 < |sections[s1].handlers|
      && Exits(sections[s1], ip, target)
      && agenda == [HandlerAddress(f, s1, h1)] + AgendaAfter(sections, ip, target, thrown, f, s1, h1, limit)
  }

  /** It has dropped exactly the catches that precede it. */
  predicate ServesPops(sweep: Sweep, sections: seq<Section>, ip: nat, target: UnwindTarget, thrown: bool,
                       s: nat, limit: nat)
    requires limit <= |sections|
  {
    FramePops(sections, ip, target, thrown, s, limit)
    == sweep.pops + match sweep.stop
                    case None => 0
                    case Some((s1, _)) => FramePops(sections, ip, target, thrown, s1 + 1, limit)
  }

  /** Where the sweep stops, and what it has dropped, for all sections and from every settled cursor. */
  predicate Serves(sweep: Sweep, sections: seq<Section>, ip: nat, target: UnwindTarget, thrown: bool,
                   f: nat, s: nat, h: nat, limit: nat)
    requires limit <= |sections|
  {
    && ServesStop(sweep, sections, ip, target, thrown, f, s, h, limit)
    && ServesPops(sweep, sections, ip, target, thrown, ResumeSection(s, h), limit)
  }

  /** The sweep of one section: it stops at the first handler of the section's agenda, or goes on after it. */
  lemma SweepOneSection(sections: seq<Section>, ip: nat, target: UnwindTarget, thrown: bool, s: nat, h: nat, limit: nat)
    requires s < limit <= |sections|
    ensures var sweep, rest := SweepFrom(sections, ip, target, thrown, s, h, limit),
                               SweepFrom(sections, ip, target, thrown, s + 1, 0, limit);
            var turns, left := SectionAgenda(sections[s], ip, target, thrown, h),
                               LeftHere(sections[s], ip, target, thrown, h);
            sweep == if turns == [] then rest.(pops := rest.pops + left) else Sweep(left, Some((s, turns[0])))
  {
    if Exits(sections[s], ip, target) && h <= |sections[s].handlers| {
      SweepWithinSection(sections, ip, target, thrown, s, h, limit);
    }
  }

  /** Which handler the sweep stops at needs no assumption about the sections or the cursor. */
  lemma {:induction false} SweepStopsAtHead(sections: seq<Section>, ip: nat, target: UnwindTarget, thrown: bool,
                                            f: nat, s: nat, h: nat, limit: nat)
    requires limit <= |sections|
    ensures ServesStop(SweepFrom(sections, ip, target, thrown, s, h, limit), sections, ip, target, thrown,
                       f, s, h, limit)
    decreases limit - s
  {
    if s < limit {
      SweepOneSection(sections, ip, target, thrown, s, h, limit);
      var turns := SectionAgenda(sections[s], ip, target, thrown, h);
      if turns == [] {
        SweepStopsAtHead(sections, ip, target, thrown, f, s + 1, 0, limit);
        HeadIsLater(sections, ip, target, thrown, f, s, h, limit);
      } else {
        HeadIsHere(sections, ip, target, thrown, f, s, h, limit);
      }
    }
  }

  lemma HeadIsHere(sections: seq<Section>, ip: nat, target: UnwindTarget, thrown: bool, f: nat, s: nat, h: nat,
                   limit: nat)
    requires s < limit <= |sections| && SectionAgenda(sections[s], ip, target, thrown, h) != []
    ensures var k := SectionAgenda(sections[s], ip, target, thrown, h)[0];
            && k < |sections[s].handlers| && Exits(sections[s], ip, target)
            && FrameAgenda(sections, ip, target, thrown, f, s, h, limit)
               == [HandlerAddress(f, s, k)] + AgendaAfter(sections, ip, target, thrown, f, s, k, limit)
  {
    var turns := SectionAgenda(sections[s], ip, target, thrown, h);
    FirstTurn(sections[s], ip, target, thrown, h);
    AgendaSplits(sections, ip, target, thrown, f, s, h, limit);
    FirstAddress(f, s, turns, FrameAgenda(sections, ip, target, thrown, f, s + 1, 0, limit));
  }

  lemma FirstAddress(f: nat, s: nat, turns: seq<nat>, later: seq<HandlerAddress>)
    requires turns != []
    ensures Addresses(f, s, turns) + later == [HandlerAddress(f, s, turns[0])] + (Addresses(f, s, turns[1..]) + later)
  {
  }

  /** A section that owes something is left, and after its first turn owes the rest. */
  lemma FirstTurn(section: Section, ip: nat, target: UnwindTarget, thrown: bool, h: nat)
    requires SectionAgenda(section, ip, target, thrown, h) != []
    ensures var turns := SectionAgenda(section, ip, target, thrown, h);
            && turns[0] < |section.handlers| && Exits(section, ip, target)
            && turns[1..]
               == SectionAgenda(section, section.handlers[turns[0]].instructions.start, target, thrown, turns[0] + 1)
  {
  }

  lemma HeadIsLater(sections: seq<Section>, ip: nat, target: UnwindTarget, thrown: bool, f: nat, s: nat, h: nat,
                    limit: nat)
    requires s < limit <= |sections| && SectionAgenda(sections[s], ip, target, thrown, h) == []
    ensures FrameAgenda(sections, ip, target, thrown, f, s, h, limit)
            == FrameAgenda(sections, ip, target, thrown, f, s + 1, 0, limit)
  {
  }

  lemma PopsFromCursor(sections: seq<Section>, ip: nat, target: UnwindTarget, thrown: bool, s: nat, h: nat, limit: nat)
    requires s < limit <= |sections| && CursorSettled(sections, ip, s, h)
    ensures FramePops(sections, ip, target, thrown, ResumeSection(s, h), limit)
            == LeftHere(sections[s], ip, target, thrown, h) + FramePops(sections, ip, target, thrown, s + 1, limit)
  {
    if h > 0 { NoneHoldsLeavesNone(sections[s].handlers, ip, thrown, h); }
  }

  /** What it has dropped: the catches that hold `ip`, up to the handler it stops at. */
  lemma {:induction false} SweepDropsCatches(sections: seq<Section>, ip: nat, target: UnwindTarget, thrown: bool,
                                             s: nat, h: nat, limit: nat)
    requires limit <= |sections| && CursorSettled(sections, ip, s, h)
    ensures ServesPops(SweepFrom(sections, ip, target, thrown, s, h, limit), sections, ip, target, thrown,
                       ResumeSection(s, h), limit)
    decreases limit - s
  {
    if s < limit {
      SweepOneSection(sections, ip, target, thrown, s, h, limit);
      PopsFromCursor(sections, ip, target, thrown, s, h, limit);
      if SectionAgenda(sections[s], ip, target, thrown, h) == [] {
        SweepDropsCatches(sections, ip, target, thrown, s + 1, 0, limit);
      }
    }
  }

  lemma {:induction false} SweepServesAgenda(sections: seq<Section>, ip: nat, target: UnwindTarget, thrown: bool,
                                             f: nat, s: nat, h: nat, limit: nat)
    requires limit <= |sections| && CursorSettled(sections, ip, s, h)
    ensures Serves(SweepFrom(sections, ip, target, thrown, s, h, limit), sections, ip, target, thrown, f, s, h, limit)
  {
    SweepStopsAtHead(sections, ip, target, thrown, f, s, h, limit);
    SweepDropsCatches(sections, ip, target, thrown, s, h, limit);
  }

  // ------------------------------------------------------------ a moved instruction pointer

  /** The unwinder treats the section in the same way from either instruction. */
  predicate Alike(section: Section, ip: nat, ip': nat, target: UnwindTarget, thrown: bool) {
    && Exits(section, ip, target) == Exits(section, ip', target)
    && SectionAgenda(section, ip, target, thrown, 0) == SectionAgenda(section, ip', target, thrown, 0)
    && LeftHere(section, ip, target, thrown, 0) == LeftHere(section, ip', target, thrown, 0)
  }

  /** Moving `ip` within a section changes nothing about the later sections. */
  lemma {:induction false} AgendaSurvivesMove(sections: seq<Section>, ip: nat, ip': nat, target: UnwindTarget,
                           thrown: bool, f: nat, i: nat, s: nat, limit: nat)
    requires limit <= |sections| && Supported(sections)
    requires i < |sections| && i < s && Touches(sections[i], ip) && Touches(sections[i], ip')
    ensures FrameAgenda(sections, ip, target, thrown, f, s, 0, limit)
            == FrameAgenda(sections, ip', target, thrown, f, s, 0, limit)
    ensures FramePops(sections, ip, target, thrown, s, limit) == FramePops(sections, ip', target, thrown, s, limit)
  {
    forall j | s <= j < limit ensures Alike(sections[j], ip, ip', target, thrown) {
      LaterSectionsCannotTell(sections, i, j, ip, ip');
      SameBlocksAlike(sections[j], ip, ip', target, thrown);
    }
    AlikeAgenda(sections, ip, ip', target, thrown, f, s, limit);
  }

  lemma SameBlocksAlike(section: Section, ip: nat, ip': nat, target: UnwindTarget, thrown: bool)
    requires SameBlocks(section, ip, ip')
    ensures Alike(section, ip, ip', target, thrown)
  {
    SameBlocksExitAlike(section, ip, ip', target);
    SameBlocksRunAlike(section, ip, ip', thrown, 0);
  }

  lemma {:induction false} AlikeAgenda(sections: seq<Section>, ip: nat, ip': nat, target: UnwindTarget,
                                       thrown: bool, f: nat, s: nat, limit: nat)
    requires limit <= |sections|
    requires forall j :: s <= j < limit ==> Alike(sections[j], ip, ip', target, thrown)
    ensures FrameAgenda(sections, ip, target, thrown, f, s, 0, limit)
            == FrameAgenda(sections, ip', target, thrown, f, s, 0, limit)
    ensures FramePops(sections, ip, target, thrown, s, limit) == FramePops(sections, ip', target, thrown, s, limit)
    decreases limit - s
  {
    if s < limit {
      assert Alike(sections[s], ip, ip', target, thrown);
      AlikeAgenda(sections, ip, ip', target, thrown, f, s + 1, limit);
    }
  }

  lemma {:induction false} SameBlocksRunAlike(section: Section, ip: nat, ip': nat, thrown: bool, h: nat)
    requires SameBlocks(section, ip, ip') && h <= |section.handlers|
    ensures FirstRunnable(section.handlers, ip, thrown, h) == FirstRunnable(section.handlers, ip', thrown, h)
    ensures LeftCatches(section.handlers, ip, thrown, h) == LeftCatches(section.handlers, ip', thrown, h)
    decreases |section.handlers| - h
  {
    if h < |section.handlers| { SameBlocksRunAlike(section, ip, ip', thrown, h + 1); }
  }

  /** Two instructions of one handler are in the same blocks of its section. */
  lemma SameHandlerSameBlocks(section: Section, h: nat, ip: nat, ip': nat)
    requires WellFormed(section) && h < |section.handlers|
    requires section.handlers[h].instructions.Contains(ip) && section.handlers[h].instructions.Contains(ip')
    ensures SameBlocks(section, ip, ip')
    ensures forall k :: 0 <= k < |section.handlers| && k != h ==> !section.handlers[k].instructions.Contains(ip)
  {
    forall k | 0 <= k < |section.handlers| && k != h
      ensures !section.handlers[k].instructions.Contains(ip) && !section.handlers[k].instructions.Contains(ip')
    {
      assert k < h ==> Apart(section.handlers[k].instructions, section.handlers[h].instructions);
      assert h < k ==> Apart(section.handlers[h].instructions, section.handlers[k].instructions);
    }
  }

  /** Wherever in handler `h` control ends up, the frame then owes what is left of the agenda. */
  lemma {:induction false} AgendaFromHandler(sections: seq<Section>, ip: nat, ip': nat, target: UnwindTarget,
                                             thrown: bool, f: nat, s: nat, h: nat, limit: nat)
    requires s < limit <= |sections| && h < |sections[s].handlers| && Supported(sections) && Touches(sections[s], ip)
    requires sections[s].handlers[h].instructions.Contains(ip')
    ensures FrameAgenda(sections, ip', target, thrown, f, s, h + 1, limit)
            == AgendaAfter(sections, ip, target, thrown, f, s, h, limit)
  {
    assert WellFormed(sections[s]);
    TurnsFromAnywhere(sections[s], h, ip', target, thrown);
    HandlerTouches(sections[s], h, ip');
    AgendaSurvivesMove(sections, ip, ip', target, thrown, f, s, s + 1, limit);
    AgendaSplits(sections, ip', target, thrown, f, s, h + 1, limit);
  }

  lemma HandlerTouches(section: Section, h: nat, ip: nat)
    requires h < |section.handlers| && section.handlers[h].instructions.Contains(ip)
    ensures Touches(section, ip)
  {
  }

  lemma AgendaSplits(sections: seq<Section>, ip: nat, target: UnwindTarget, thrown: bool, f: nat, s: nat, h: nat,
                     limit: nat)
    requires s < limit <= |sections|
    ensures FrameAgenda(sections, ip, target, thrown, f, s, h, limit)
            == Addresses(f, s, SectionAgenda(sections[s], ip, target, thrown, h))
               + FrameAgenda(sections, ip, target, thrown, f, s + 1, 0, limit)
  {
  }

  /** The section owes the same from every instruction of a handler. */
  lemma TurnsFromAnywhere(section: Section, h: nat, ip: nat, target: UnwindTarget, thrown: bool)
    requires WellFormed(section) && h < |section.handlers| && section.handlers[h].instructions.Contains(ip)
    ensures SectionAgenda(section, ip, target, thrown, h + 1)
            == SectionAgenda(section, section.handlers[h].instructions.start, target, thrown, h + 1)
  {
    var start := section.handlers[h].instructions.start;
    SameHandlerSameBlocks(section, h, ip, start);
    SameBlocksExitAlike(section, ip, start, target);
    SameBlocksRunAlike(section, ip, start, thrown, h + 1);
  }

  /** A section whose handlers are used up owes nothing. */
  lemma AgendaPastSection(sections: seq<Section>, ip: nat, target: UnwindTarget, thrown: bool, f: nat, s: nat,
                          limit: nat)
    requires s < limit <= |sections|
    ensures FrameAgenda(sections, ip, target, thrown, f, s, |sections[s].handlers|, limit)
            == FrameAgenda(sections, ip, target, thrown, f, s + 1, 0, limit)
  {
  }
}
