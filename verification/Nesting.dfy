/** Lexical nesting of protected sections (ECMA-335 Partition I section 12.4.2.7) and what it means for
    the order in which the parser leaves them. */
module Nesting {
  import opened ExceptionData
  import opened ExceptionSemantics

  predicate Inside(inner: Range, outer: Range) {
    outer.start <= inner.start && inner.end <= outer.end
  }

  predicate Apart(a: Range, b: Range) {
    a.end <= b.start || b.end <= a.start
  }

  /** Try block and handlers are non-empty, and no two of them overlap; handlers follow the try block. */
  predicate WellFormed(section: Section) {
    && section.instructions.start < section.instructions.end
    && |section.handlers| > 0
    && (forall k :: 0 <= k < |section.handlers| ==>
          && section.handlers[k].instructions.start < section.handlers[k].instructions.end
          && section.instructions.end <= section.handlers[k].instructions.start)
    && (forall k, m :: 0 <= k < m < |section.handlers| ==>
          Apart(section.handlers[k].instructions, section.handlers[m].instructions))
  }

  /** All blocks of the section lie in one range. */
  predicate SectionInside(section: Section, outer: Range) {
    && Inside(section.instructions, outer)
    && forall k :: 0 <= k < |section.handlers| ==> Inside(section.handlers[k].instructions, outer)
  }

  /** All blocks of the section avoid the range. */
  predicate SectionApart(section: Section, other: Range) {
    && Apart(section.instructions, other)
    && forall k :: 0 <= k < |section.handlers| ==> Apart(section.handlers[k].instructions, other)
  }

  /** All blocks of `a` lie in one block of `b`. */
  predicate NestedIn(a: Section, b: Section) {
    || SectionInside(a, b.instructions)
    || exists k :: 0 <= k < |b.handlers| && SectionInside(a, b.handlers[k].instructions)
  }

  /** No block of `a` meets a block of `b`. */
  predicate Unrelated(a: Section, b: Section) {
    && SectionApart(a, b.instructions)
    && forall k :: 0 <= k < |b.handlers| ==> SectionApart(a, b.handlers[k].instructions)
  }

  predicate Compatible(a: Section, b: Section) {
    NestedIn(a, b) || NestedIn(b, a) || Unrelated(a, b)
  }

  predicate WellNested(sections: seq<Section>) {
    && (forall i {:trigger WellFormed(sections[i])} :: 0 <= i < |sections| ==> WellFormed(sections[i]))
    && (forall i, j {:trigger Compatible(sections[i], sections[j])} ::
          0 <= i < |sections| && 0 <= j < |sections| && i != j ==> Compatible(sections[i], sections[j]))
  }

  /** The sort key: larger start first, then smaller end. */
  predicate KeyBefore(a: Range, b: Range) {
    b.start < a.start || (a.start == b.start && a.end < b.end)
  }

  predicate Sorted(sections: seq<Section>) {
    forall i, j {:trigger KeyBefore(sections[i].instructions, sections[j].instructions)} ::
      0 <= i < j < |sections| ==> KeyBefore(sections[i].instructions, sections[j].instructions)
  }

  /** `ip` is in the try block or in a handler. */
  predicate Touches(section: Section, ip: nat) {
    section.instructions.Contains(ip) || InSomeHandler(section, ip)
  }

  /** The two instructions are in exactly the same blocks of the section. */
  predicate SameBlocks(section: Section, ip: nat, ip': nat) {
    && (section.instructions.Contains(ip) <==> section.instructions.Contains(ip'))
    && forall k :: 0 <= k < |section.handlers| ==>
         (section.handlers[k].instructions.Contains(ip) <==> section.handlers[k].instructions.Contains(ip'))
  }

  /** A section never contains one that comes after it: the order is inner before outer. */
  lemma LaterIsNotNested(a: Section, b: Section)
    requires WellFormed(a) && WellFormed(b)
    requires KeyBefore(a.instructions, b.instructions)
    ensures !NestedIn(b, a)
  {
  }

  /** Two instructions of one section lie in the same blocks of every later section. This is why the
      unwinder may re-test the later sections against an `ip` that moved into a handler it ran. */
  lemma LaterSectionsCannotTell(sections: seq<Section>, i: nat, j: nat, ip: nat, ip': nat)
    requires WellNested(sections) && Sorted(sections)
    requires i < j < |sections|
    requires Touches(sections[i], ip) && Touches(sections[i], ip')
    ensures SameBlocks(sections[j], ip, ip')
  {
    var a, b := sections[i], sections[j];
    assert WellFormed(a) && WellFormed(b) && Compatible(a, b);
    assert KeyBefore(a.instructions, b.instructions);
    LaterIsNotNested(a, b);
    if NestedIn(a, b) {
      if SectionInside(a, b.instructions) {
        InsideContains(a, b.instructions, ip);
        InsideContains(a, b.instructions, ip');
      } else {
        var k :| 0 <= k < |b.handlers| && SectionInside(a, b.handlers[k].instructions);
        InsideContains(a, b.handlers[k].instructions, ip);
        InsideContains(a, b.handlers[k].instructions, ip');
        forall m | 0 <= m < |b.handlers| && m != k
          ensures !b.handlers[m].instructions.Contains(ip) && !b.handlers[m].instructions.Contains(ip')
        {
          assert k < m ==> Apart(b.handlers[k].instructions, b.handlers[m].instructions);
          assert m < k ==> Apart(b.handlers[m].instructions, b.handlers[k].instructions);
        }
      }
    } else {
      assert Unrelated(a, b);
      ApartAvoids(a, b.instructions, ip);
      ApartAvoids(a, b.instructions, ip');
      forall m | 0 <= m < |b.handlers|
        ensures !b.handlers[m].instructions.Contains(ip) && !b.handlers[m].instructions.Contains(ip')
      {
        ApartAvoids(a, b.handlers[m].instructions, ip);
        ApartAvoids(a, b.handlers[m].instructions, ip');
      }
    }
  }

  lemma InsideContains(section: Section, outer: Range, ip: nat)
    requires SectionInside(section, outer) && Touches(section, ip)
    ensures outer.Contains(ip)
  {
  }

  lemma ApartAvoids(section: Section, other: Range, ip: nat)
    requires SectionApart(section, other) && Touches(section, ip)
    ensures !other.Contains(ip)
  {
  }

  /** The exit test depends only on which blocks hold the instruction. */
  lemma SameBlocksExitAlike(section: Section, ip: nat, ip': nat, target: UnwindTarget)
    requires SameBlocks(section, ip, ip')
    ensures Exits(section, ip, target) == Exits(section, ip', target)
  {
  }
}
