/** From the exception clauses of a method body to its protected sections. */
module ClauseParser {
  import opened Wrappers
  import opened ExceptionData
  import opened Nesting

  datatype ClauseKind = TypedClause(t: nat) | FilterClause(offset: nat) | FinallyClause | FaultClause

  datatype Clause = Clause(tryOffset: nat, tryLength: nat, handlerOffset: nat, handlerLength: nat, kind: ClauseKind)

  /** Resolution of a catch type; `None` is a type resolution error. */
  type Resolver = nat -> Option<TypeId>

  function TryRange(c: Clause): Range {
    Range(c.tryOffset, c.tryOffset + c.tryLength)
  }

  function KindOf(resolve: Resolver, kind: ClauseKind): Option<HandlerKind> {
    match kind
    case TypedClause(t) => (match resolve(t) case None => None case Some(id) => Some(Catch(id)))
    case FilterClause(offset) => Some(Filter(offset))
    case FinallyClause => Some(Finally)
    case FaultClause => Some(Fault)
  }

  predicate Resolves(resolve: Resolver, c: Clause) {
    KindOf(resolve, c.kind).Some?
  }

  function HandlerOf(resolve: Resolver, c: Clause): Handler
    requires Resolves(resolve, c)
  {
    Handler(Range(c.handlerOffset, c.handlerOffset + c.handlerLength), KindOf(resolve, c.kind).value)
  }

  predicate AllResolve(resolve: Resolver, clauses: seq<Clause>) {
    forall i {:trigger Resolves(resolve, clauses[i])} :: 0 <= i < |clauses| ==> Resolves(resolve, clauses[i])
  }

  /** The handlers of the clauses that protect exactly `range`, in the order of the clauses. */
  function HandlersFor(resolve: Resolver, clauses: seq<Clause>, range: Range): (handlers: seq<Handler>)
    requires AllResolve(resolve, clauses)
  {
    if clauses == [] then []
    else
      var last := |clauses| - 1;
      assert Resolves(resolve, clauses[last]);
      assert AllResolve(resolve, clauses[..last]) by {
        forall i | 0 <= i < last ensures Resolves(resolve, clauses[..last][i]) { assert Resolves(resolve, clauses[i]); }
      }
      HandlersFor(resolve, clauses[..last], range)
      + if TryRange(clauses[last]) == range then [HandlerOf(resolve, clauses[last])] else []
  }

  ghost predicate HasRange(sections: seq<Section>, range: Range) {
    exists i :: 0 <= i < |sections| && sections[i].instructions == range
  }

  /** What the sections of a method are: one for each protected range, inner before outer, each with the
      handlers of its clauses in clause order. */
  ghost predicate IsParse(resolve: Resolver, clauses: seq<Clause>, sections: seq<Section>)
    requires AllResolve(resolve, clauses)
  {
    && Sorted(sections)
    && (forall i :: 0 <= i < |sections| ==>
          && sections[i].handlers == HandlersFor(resolve, clauses, sections[i].instructions)
          && sections[i].handlers != [])
    && (forall k {:trigger TryRange(clauses[k])} :: 0 <= k < |clauses| ==> HasRange(sections, TryRange(clauses[k])))
  }

  // ------------------------------------------------------------ the parser

  /** The map holds, for every protected range, the handlers of its clauses. */
  ghost predicate Groups(resolve: Resolver, clauses: seq<Clause>, grouped: map<Range, seq<Handler>>) {
    && AllResolve(resolve, clauses)
    && (forall range {:trigger HandlersFor(resolve, clauses, range)} ::
          (if range in grouped then grouped[range] else []) == HandlersFor(resolve, clauses, range))
    && (forall range :: range in grouped ==> grouped[range] != [])
  }

  method Parse(resolve: Resolver, clauses: seq<Clause>) returns (r: Option<seq<Section>>)
    ensures r.Some? <==> AllResolve(resolve, clauses)
    ensures r.Some? ==> IsParse(resolve, clauses, r.value)
  {
    var grouped := Group(resolve, clauses);
    if grouped.None? {
      return None;
    }
    var unordered := Collect(grouped.value);
    var sections := SortByKey(unordered);
    SortedGroupsAreParse(resolve, clauses, grouped.value, unordered, sections);
    r := Some(sections);
  }

  method Group(resolve: Resolver, clauses: seq<Clause>) returns (r: Option<map<Range, seq<Handler>>>)
    ensures r.Some? <==> AllResolve(resolve, clauses)
    ensures r.Some? ==> Groups(resolve, clauses, r.value)
  {
    var grouped: map<Range, seq<Handler>> := map[];
    for i := 0 to |clauses|
      invariant Groups(resolve, clauses[..i], grouped)
    {
      var c := clauses[i];
      var kind := KindOf(resolve, c.kind);
      if kind.None? {
        assert !Resolves(resolve, clauses[i]);
        return None;
      }
      GroupsExtend(resolve, clauses, i, grouped);
      var handler := Handler(Range(c.handlerOffset, c.handlerOffset + c.handlerLength), kind.value);
      var range := TryRange(c);
      grouped := grouped[range := (if range in grouped then grouped[range] else []) + [handler]];
    }
    assert clauses[..|clauses|] == clauses;
    r := Some(grouped);
  }

  lemma GroupsExtend(resolve: Resolver, clauses: seq<Clause>, i: nat, grouped: map<Range, seq<Handler>>)
    requires i < |clauses| && Resolves(resolve, clauses[i]) && Groups(resolve, clauses[..i], grouped)
    ensures var range := TryRange(clauses[i]);
            Groups(resolve, clauses[..i + 1],
                   grouped[range := (if range in grouped then grouped[range] else [])
                           + [HandlerOf(resolve, clauses[i])]])
  {
    ExtendResolved(resolve, clauses, i);
    var range := TryRange(clauses[i]);
    var grouped' := grouped[range := (if range in grouped then grouped[range] else [])
                            + [HandlerOf(resolve, clauses[i])]];
    forall r
      ensures (if r in grouped' then grouped'[r] else []) == HandlersFor(resolve, clauses[..i + 1], r)
    {
      assert (if r in grouped then grouped[r] else []) == HandlersFor(resolve, clauses[..i], r);
    }
  }

  lemma SortedGroupsAreParse(resolve: Resolver, clauses: seq<Clause>, grouped: map<Range, seq<Handler>>,
                             unordered: seq<Section>, sections: seq<Section>)
    requires Groups(resolve, clauses, grouped) && Sorted(sections) && multiset(sections) == multiset(unordered)
    requires forall s :: s in unordered <==> s.instructions in grouped && grouped[s.instructions] == s.handlers
    ensures IsParse(resolve, clauses, sections)
  {
    forall i | 0 <= i < |sections|
      ensures sections[i].handlers == HandlersFor(resolve, clauses, sections[i].instructions)
              && sections[i].handlers != []
    {
      assert sections[i] in multiset(sections);
      assert sections[i] in unordered;
    }
    forall k | 0 <= k < |clauses| ensures HasRange(sections, TryRange(clauses[k])) {
      var range := TryRange(clauses[k]);
      HandlersComeFromClauses(resolve, clauses, range);
      assert HandlersFor(resolve, clauses, range) != [];
      var s := Section(range, grouped[range]);
      assert s in unordered;
      assert s in multiset(sections);
      var i :| 0 <= i < |sections| && sections[i] == s;
    }
  }

  lemma ExtendResolved(resolve: Resolver, clauses: seq<Clause>, i: nat)
    requires i < |clauses| && AllResolve(resolve, clauses[..i]) && Resolves(resolve, clauses[i])
    ensures AllResolve(resolve, clauses[..i + 1])
    ensures forall range :: HandlersFor(resolve, clauses[..i + 1], range)
              == HandlersFor(resolve, clauses[..i], range) + if TryRange(clauses[i]) == range
                  then [HandlerOf(resolve, clauses[i])] else []
  {
    var longer := clauses[..i + 1];
    forall k | 0 <= k < |longer| ensures Resolves(resolve, longer[k]) {
      if k < i { assert Resolves(resolve, clauses[..i][k]); }
    }
    assert longer[..i] == clauses[..i];
  }

  /** Drains the map in whatever order it yields its keys. */
  method Collect(grouped: map<Range, seq<Handler>>) returns (v: seq<Section>)
    ensures forall s :: s in v <==> s.instructions in grouped && grouped[s.instructions] == s.handlers
    ensures forall i, j :: 0 <= i < j < |v| ==> v[i].instructions != v[j].instructions
  {
    v := [];
    var rest := grouped.Keys;
    while rest != {}
      invariant rest <= grouped.Keys
      invariant forall s :: s in v <==> s.instructions in grouped.Keys - rest && grouped[s.instructions] == s.handlers
      invariant forall i, j :: 0 <= i < j < |v| ==> v[i].instructions != v[j].instructions
      decreases |rest|
    {
      var range :| range in rest;
      assert forall s :: s in v ==> s.instructions != range;
      v := v + [Section(range, grouped[range])];
      rest := rest - {range};
    }
  }

  predicate DistinctRanges(v: seq<Section>) {
    forall i, j :: 0 <= i < j < |v| ==> v[i].instructions != v[j].instructions
  }

  /** Sorts sections by descending start, then ascending end. */
  method SortByKey(v: seq<Section>) returns (w: seq<Section>)
    requires DistinctRanges(v)
    ensures Sorted(w) && multiset(w) == multiset(v)
  {
    w := [];
    for n := 0 to |v|
      invariant Sorted(w) && multiset(w) == multiset(v[..n])
    {
      forall k | 0 <= k < |w| ensures w[k].instructions != v[n].instructions {
        assert w[k] in multiset(v[..n]);
      }
      w := Insert(w, v[n]);
      assert v[..n + 1] == v[..n] + [v[n]];
    }
    assert v[..|v|] == v;
  }

  method Insert(w: seq<Section>, s: Section) returns (r: seq<Section>)
    requires Sorted(w) && forall k {:trigger w[k]} :: 0 <= k < |w| ==> w[k].instructions != s.instructions
    ensures Sorted(r) && multiset(r) == multiset(w) + multiset{s}
  {
    var p := 0;
    while p < |w| && KeyBefore(w[p].instructions, s.instructions)
      invariant 0 <= p <= |w|
      invariant forall k {:trigger w[k]} :: 0 <= k < p ==> KeyBefore(w[k].instructions, s.instructions)
    {
      p := p + 1;
    }
    SortedInsert(w, p, s);
    assert w == w[..p] + w[p..];
    r := w[..p] + [s] + w[p..];
  }

  lemma SortedInsert(w: seq<Section>, p: nat, s: Section)
    requires Sorted(w) && p <= |w|
    requires forall k {:trigger w[k]} :: 0 <= k < |w| ==> w[k].instructions != s.instructions
    requires forall k {:trigger w[k]} :: 0 <= k < p ==> KeyBefore(w[k].instructions, s.instructions)
    requires p < |w| ==> !KeyBefore(w[p].instructions, s.instructions)
    ensures Sorted(w[..p] + [s] + w[p..])
  {
    var w' := w[..p] + [s] + w[p..];
    forall i, j | 0 <= i < j < |w'| ensures KeyBefore(w'[i].instructions, w'[j].instructions) {
      var i0, j0 := if i <= p then i else i - 1, if j <= p then j else j - 1;
      if i != p && j != p {
        assert KeyBefore(w[i0].instructions, w[j0].instructions);
      } else if i == p {
        if p < j0 { assert KeyBefore(w[p].instructions, w[j0].instructions); }
      }
    }
  }

  // ------------------------------------------------------------ what the parse means

  /** The clauses determine the sections: the order in which the map was drained leaves no trace. */
  lemma {:induction false} ParseIsUnique(resolve: Resolver, clauses: seq<Clause>, a: seq<Section>, b: seq<Section>)
    requires AllResolve(resolve, clauses) && IsParse(resolve, clauses, a) && IsParse(resolve, clauses, b)
    ensures a == b
  {
    forall range ensures HasRange(a, range) <==> HasRange(b, range) {
      RangesOfParse(resolve, clauses, a, range);
      RangesOfParse(resolve, clauses, b, range);
    }
    SameRangesSameOrder(a, b, 0);
    forall i | 0 <= i < |a| ensures a[i] == b[i] {
    }
  }

  /** A range has a section exactly if some clause protects it. */
  lemma RangesOfParse(resolve: Resolver, clauses: seq<Clause>, sections: seq<Section>, range: Range)
    requires AllResolve(resolve, clauses) && IsParse(resolve, clauses, sections)
    ensures HasRange(sections, range) <==> HandlersFor(resolve, clauses, range) != []
  {
    HandlersComeFromClauses(resolve, clauses, range);
    if HandlersFor(resolve, clauses, range) != [] {
      var k :| 0 <= k < |clauses| && TryRange(clauses[k]) == range;
    }
  }

  lemma {:induction false} HandlersComeFromClauses(resolve: Resolver, clauses: seq<Clause>, range: Range)
    requires AllResolve(resolve, clauses)
    ensures HandlersFor(resolve, clauses, range) != [] <==>
        exists k :: 0 <= k < |clauses| && TryRange(clauses[k]) == range
    decreases |clauses|
  {
    if clauses != [] {
      var last := |clauses| - 1;
      ResolvedPrefix(resolve, clauses, last);
      HandlersComeFromClauses(resolve, clauses[..last], range);
      if HandlersFor(resolve, clauses[..last], range) != [] {
        var k :| 0 <= k < last && TryRange(clauses[..last][k]) == range;
        assert TryRange(clauses[k]) == range;
      } else if TryRange(clauses[last]) != range {
        forall k | 0 <= k < |clauses| ensures TryRange(clauses[k]) != range {
          if k < last { assert TryRange(clauses[..last][k]) != range; }
        }
      }
    }
  }

  lemma ResolvedPrefix(resolve: Resolver, clauses: seq<Clause>, n: nat)
    requires AllResolve(resolve, clauses) && n <= |clauses|
    ensures AllResolve(resolve, clauses[..n])
  {
    forall i | 0 <= i < n ensures Resolves(resolve, clauses[..n][i]) { assert Resolves(resolve, clauses[i]); }
  }

  /** Two strictly sorted lists over the same ranges list them in the same order. */
  lemma {:induction false} SameRangesSameOrder(a: seq<Section>, b: seq<Section>, n: nat)
    requires Sorted(a) && Sorted(b) && n <= |a| && n <= |b|
    requires forall i :: 0 <= i < n ==> a[i].instructions == b[i].instructions
    requires forall range :: HasRange(a, range) <==> HasRange(b, range)
    ensures |a| == |b| && forall i :: 0 <= i < |a| ==> a[i].instructions == b[i].instructions
    decreases |a| - n
  {
    if n < |a| {
      NextRangeIsShared(a, b, n);
      NextRangeIsShared(b, a, n);
      SameRangesSameOrder(a, b, n + 1);
    } else if n < |b| {
      NextRangeIsShared(b, a, n);
    }
  }

  /** The next range of one list is found in the other, not before the same position. */
  lemma NextRangeIsShared(a: seq<Section>, b: seq<Section>, n: nat)
    requires Sorted(a) && Sorted(b) && n < |a| && n <= |b|
    requires forall i :: 0 <= i < n ==> a[i].instructions == b[i].instructions
    requires forall range :: HasRange(a, range) <==> HasRange(b, range)
    ensures n < |b| && (b[n].instructions == a[n].instructions || KeyBefore(b[n].instructions, a[n].instructions))
  {
    assert HasRange(a, a[n].instructions);
    var j :| 0 <= j < |b| && b[j].instructions == a[n].instructions;
    assert j < n ==> KeyBefore(a[j].instructions, a[n].instructions);
    assert n < j ==> KeyBefore(b[n].instructions, b[j].instructions);
  }

  /** Every clause appears exactly once: in the one section of its range, at the place given by the number
      of earlier clauses with the same range. */
  lemma {:induction false} ClauseAppearsOnce(resolve: Resolver, clauses: seq<Clause>, sections: seq<Section>, k: nat)
    requires AllResolve(resolve, clauses) && IsParse(resolve, clauses, sections) && k < |clauses|
    ensures AllResolve(resolve, clauses[..k]) && Resolves(resolve, clauses[k])
    ensures var range := TryRange(clauses[k]);
            var place := |HandlersFor(resolve, clauses[..k], range)|;
            exists i :: 0 <= i < |sections| && sections[i].instructions == range && place < |sections[i].handlers|
                        && sections[i].handlers[place] == HandlerOf(resolve, clauses[k])
    ensures forall i, j :: 0 <= i < j < |sections| ==> sections[i].instructions != sections[j].instructions
  {
    ResolvedPrefix(resolve, clauses, k);
    assert Resolves(resolve, clauses[k]);
    var range := TryRange(clauses[k]);
    var i :| 0 <= i < |sections| && sections[i].instructions == range;
    HandlersGrow(resolve, clauses, range, k, |clauses|);
    assert clauses[..|clauses|] == clauses;
    forall i, j | 0 <= i < j < |sections| ensures sections[i].instructions != sections[j].instructions {
      assert KeyBefore(sections[i].instructions, sections[j].instructions);
    }
  }

  /** The handlers of a longer list of clauses start with those of a shorter one. */
  lemma {:induction false} HandlersGrow(resolve: Resolver, clauses: seq<Clause>, range: Range, k: nat, n: nat)
    requires AllResolve(resolve, clauses) && k < n <= |clauses|
    requires TryRange(clauses[k]) == range
    ensures AllResolve(resolve, clauses[..k]) && AllResolve(resolve, clauses[..n]) && Resolves(resolve, clauses[k])
    ensures HandlersFor(resolve, clauses[..k], range)
            + [HandlerOf(resolve, clauses[k])] <= HandlersFor(resolve, clauses[..n], range)
    decreases n
  {
    ResolvedPrefix(resolve, clauses, k);
    ResolvedPrefix(resolve, clauses, n);
    assert Resolves(resolve, clauses[n - 1]);
    ResolvedPrefix(resolve, clauses, n - 1);
    ExtendResolved(resolve, clauses, n - 1);
    if k < n - 1 { HandlersGrow(resolve, clauses, range, k, n - 1); }
  }

  function TotalHandlers(sections: seq<Section>): nat {
    if sections == [] then 0 else TotalHandlers(sections[..|sections| - 1]) + |Last(sections).handlers|
  }

  /** Conservation: the sections hold as many handlers as there are clauses. */
  lemma {:induction false} ParseConservesClauses(resolve: Resolver, clauses: seq<Clause>, sections: seq<Section>)
    requires AllResolve(resolve, clauses) && IsParse(resolve, clauses, sections)
    ensures TotalHandlers(sections) == |clauses|
  {
    forall i, j | 0 <= i < j < |sections| ensures sections[i].instructions != sections[j].instructions {
      assert KeyBefore(sections[i].instructions, sections[j].instructions);
    }
    assert clauses[..|clauses|] == clauses;
    var ranges := seq(|sections|, i requires 0 <= i < |sections| => sections[i].instructions);
    forall k | 0 <= k < |clauses| ensures TryRange(clauses[k]) in ranges {
      assert HasRange(sections, TryRange(clauses[k]));
      var i :| 0 <= i < |sections| && sections[i].instructions == TryRange(clauses[k]);
      assert ranges[i] == TryRange(clauses[k]);
    }
    SumOverRanges(resolve, clauses, ranges, |clauses|);
    TotalIsSum(resolve, clauses, sections, ranges, |sections|);
  }

  function Sum(resolve: Resolver, clauses: seq<Clause>, ranges: seq<Range>, n: nat): nat
    requires AllResolve(resolve, clauses) && n <= |ranges|
  {
    if n == 0 then 0 else Sum(resolve, clauses, ranges, n - 1) + |HandlersFor(resolve, clauses, ranges[n - 1])|
  }

  lemma {:induction false} TotalIsSum(resolve: Resolver, clauses: seq<Clause>, sections: seq<Section>,
                                      ranges: seq<Range>, n: nat)
    requires AllResolve(resolve, clauses) && IsParse(resolve, clauses, sections) && n <= |sections| == |ranges|
    requires forall i :: 0 <= i < |sections| ==> ranges[i] == sections[i].instructions
    ensures TotalHandlers(sections[..n]) == Sum(resolve, clauses, ranges, n)
    ensures n == |sections| ==> TotalHandlers(sections) == Sum(resolve, clauses, ranges, n)
  {
    if n > 0 {
      TotalIsSum(resolve, clauses, sections, ranges, n - 1);
      assert sections[..n][..n - 1] == sections[..n - 1];
    }
    assert sections[..|sections|] == sections;
  }

  lemma {:induction false} SumOverRanges(resolve: Resolver, clauses: seq<Clause>, ranges: seq<Range>, m: nat)
    requires AllResolve(resolve, clauses) && m <= |clauses|
    requires forall i, j :: 0 <= i < j < |ranges| ==> ranges[i] != ranges[j]
    requires forall k {:trigger TryRange(clauses[k])} :: 0 <= k < |clauses| ==> TryRange(clauses[k]) in ranges
    ensures AllResolve(resolve, clauses[..m]) && Sum(resolve, clauses[..m], ranges, |ranges|) == m
    decreases m
  {
    ResolvedPrefix(resolve, clauses, m);
    if m > 0 {
      SumOverRanges(resolve, clauses, ranges, m - 1);
      assert Resolves(resolve, clauses[m - 1]);
      ExtendResolved(resolve, clauses, m - 1);
      assert TryRange(clauses[m - 1]) in ranges;
      SumGrows(resolve, clauses, ranges, m - 1, |ranges|);
    } else {
      SumOfNone(resolve, clauses[..m], ranges, |ranges|);
    }
  }

  lemma {:induction false} SumOfNone(resolve: Resolver, clauses: seq<Clause>, ranges: seq<Range>, n: nat)
    requires clauses == [] && n <= |ranges|
    ensures Sum(resolve, clauses, ranges, n) == 0
  {
    if n > 0 { SumOfNone(resolve, clauses, ranges, n - 1); }
  }

  /** One more clause adds one handler to the section of its range and none elsewhere. */
  lemma {:induction false} SumGrows(resolve: Resolver, clauses: seq<Clause>, ranges: seq<Range>, m: nat, n: nat)
    requires m < |clauses| && AllResolve(resolve, clauses[..m]) && AllResolve(resolve, clauses[..m + 1])
    requires Resolves(resolve, clauses[m])
    requires forall i, j :: 0 <= i < j < |ranges| ==> ranges[i] != ranges[j]
    requires n <= |ranges|
    ensures Sum(resolve, clauses[..m + 1], ranges, n)
            == Sum(resolve, clauses[..m], ranges, n) + if TryRange(clauses[m]) in ranges[..n] then 1 else 0
    decreases n
  {
    if n > 0 {
      SumGrows(resolve, clauses, ranges, m, n - 1);
      ExtendResolved(resolve, clauses, m);
      assert ranges[..n] == ranges[..n - 1] + [ranges[n - 1]];
      if TryRange(clauses[m]) == ranges[n - 1] {
        forall i | 0 <= i < n - 1 ensures ranges[i] != ranges[n - 1] {
        }
      }
    }
  }

  /** A section strictly inside another comes before it. */
  lemma ContainedComesFirst(sections: seq<Section>, i: nat, j: nat)
    requires Sorted(sections) && i < |sections| && j < |sections|
    requires Inside(sections[i].instructions, sections[j].instructions)
             && sections[i].instructions != sections[j].instructions
    ensures i < j
  {
    assert j < i ==> KeyBefore(sections[j].instructions, sections[i].instructions);
  }
}
