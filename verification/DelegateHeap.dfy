/** Delegates on the managed heap (ECMA-335 Partition II section 14.6): their invocation lists, what
    combining and removing them means, and when two of them are equal. */
module DelegateHeap {
  import opened Wrappers

  datatype ObjRef = Null | At(addr: nat)

  /** A heap object. `targets` of a delegate is null or refers to a vector of delegates. */
  datatype Cell = Delegate(target: ObjRef, methodIndex: nat, targets: ObjRef) | Vector(elements: seq<ObjRef>) | Plain

  type Heap = map<nat, Cell>

  predicate IsDelegate(h: Heap, r: ObjRef) {
    r.At? && r.addr in h && h[r.addr].Delegate?
  }

  /** A value an operation on delegates may be given. */
  predicate Operand(h: Heap, r: ObjRef) {
    r.Null? || IsDelegate(h, r)
  }

  /** The bound object and the method index of a delegate. */
  function Identity(h: Heap, r: ObjRef): (ObjRef, nat)
    requires IsDelegate(h, r)
  {
    (h[r.addr].target, h[r.addr].methodIndex)
  }

  /** The vector of a delegate that has one. */
  function Targets(h: Heap, r: ObjRef): Option<seq<ObjRef>>
    requires IsDelegate(h, r)
  {
    var t := h[r.addr].targets;
    if t.At? && t.addr in h && h[t.addr].Vector? then Some(h[t.addr].elements) else None
  }

  /** The invocation list: the vector, or the delegate itself when it has none. */
  function List(h: Heap, r: ObjRef): seq<ObjRef> {
    if !IsDelegate(h, r) then []
    else if Targets(h, r).Some? then Targets(h, r).value else [r]
  }

  /** A delegate that is its own invocation list. */
  predicate Leaf(h: Heap, r: ObjRef) {
    IsDelegate(h, r) && List(h, r) == [r]
  }

  /** The vector of the delegate exists, the invocation list is a non-empty list of leaves, and a list of
      one entry is the delegate itself. */
  predicate Sound(h: Heap, r: ObjRef)
    requires IsDelegate(h, r)
  {
    && (h[r.addr].targets.At? ==> Targets(h, r).Some?)
    && List(h, r) != []
    && (forall i :: 0 <= i < |List(h, r)| ==> Leaf(h, List(h, r)[i]))
    && (|List(h, r)| == 1 ==> List(h, r) == [r])
  }

  predicate Inv(h: Heap) {
    forall a {:trigger IsDelegate(h, At(a))} :: a in h && IsDelegate(h, At(a)) ==> Sound(h, At(a))
  }

  /** Nothing of the old heap changes. */
  predicate Extends(h: Heap, h': Heap) {
    forall a :: a in h ==> a in h' && h'[a] == h[a]
  }

  lemma ListIsKept(h: Heap, h': Heap, r: ObjRef)
    requires Extends(h, h') && IsDelegate(h, r) && Sound(h, r)
    ensures IsDelegate(h', r) && Identity(h', r) == Identity(h, r)
    ensures Targets(h', r) == Targets(h, r) && List(h', r) == List(h, r)
  {
  }

  lemma LeafIsKept(h: Heap, h': Heap, r: ObjRef)
    requires Extends(h, h') && Inv(h) && Leaf(h, r)
    ensures Leaf(h', r) && Identity(h', r) == Identity(h, r)
  {
    assert Sound(h, At(r.addr));
    ListIsKept(h, h', r);
  }

  lemma SoundIsKept(h: Heap, h': Heap, r: ObjRef)
    requires Extends(h, h') && Inv(h) && IsDelegate(h, r) && Sound(h, r)
    ensures IsDelegate(h', r) && Sound(h', r)
  {
    ListIsKept(h, h', r);
    forall i | 0 <= i < |List(h, r)| ensures Leaf(h', List(h, r)[i]) {
      LeafIsKept(h, h', List(h, r)[i]);
    }
  }

  // ------------------------------------------------------------ allocation

  predicate Unused(h: Heap, p: nat, q: nat) {
    p !in h && q !in h && p != q
  }

  /** The heap with a copy of `source` at `p` whose invocation list is a new vector at `q`. */
  function CloneWithList(h: Heap, source: ObjRef, list: seq<ObjRef>, p: nat, q: nat): Heap
    requires IsDelegate(h, source)
  {
    h[q := Vector(list)][p := h[source.addr].(targets := At(q))]
  }

  lemma CloneIsSound(h: Heap, source: ObjRef, list: seq<ObjRef>, p: nat, q: nat)
    requires Inv(h) && IsDelegate(h, source) && Unused(h, p, q)
    requires |list| > 1 && forall i :: 0 <= i < |list| ==> Leaf(h, list[i])
    ensures var h' := CloneWithList(h, source, list, p, q);
            && Inv(h') && Extends(h, h')
            && IsDelegate(h', At(p)) && List(h', At(p)) == list && Targets(h', At(p)).Some?
            && Identity(h', At(p)) == Identity(h, source)
  {
    var h' := CloneWithList(h, source, list, p, q);
    forall i | 0 <= i < |list| ensures Leaf(h', list[i]) {
      LeafIsKept(h, h', list[i]);
    }
    forall a | a in h' && IsDelegate(h', At(a)) ensures Sound(h', At(a)) {
      if a != p {
        assert IsDelegate(h, At(a));
        SoundIsKept(h, h', At(a));
      }
    }
  }

  // ------------------------------------------------------------ creation

  /** A new delegate for `target` and `methodIndex`, without a vector or with the vector of itself. */
  ghost predicate CreateStep(h: Heap, target: ObjRef, methodIndex: nat, h': Heap, r: ObjRef) {
    || (exists p :: p !in h && r == At(p) && h' == h[p := Delegate(target, methodIndex, Null)])
    || (exists p, q :: Unused(h, p, q) && r == At(p) &&
                       h' == h[q := Vector([At(p)])][p := Delegate(target, methodIndex, At(q))])
  }

  lemma CreateMakesLeaf(h: Heap, target: ObjRef, methodIndex: nat, h': Heap, r: ObjRef)
    requires Inv(h) && CreateStep(h, target, methodIndex, h', r)
    ensures Inv(h') && Extends(h, h') && Leaf(h', r) && Identity(h', r) == (target, methodIndex)
  {
    forall a | a in h' && IsDelegate(h', At(a)) ensures Sound(h', At(a)) {
      if At(a) != r {
        assert IsDelegate(h, At(a));
        SoundIsKept(h, h', At(a));
      }
    }
  }

  // ------------------------------------------------------------ Combine

  /** `Delegate.Combine(a, b)` returns `r` and leaves the heap `h'`. */
  ghost predicate CombineStep(h: Heap, a: ObjRef, b: ObjRef, h': Heap, r: ObjRef) {
    if a.Null? then h' == h && r == b
    else if b.Null? then h' == h && r == a
    else
      && IsDelegate(h, a)
      && exists p, q :: Unused(h, p, q) && r == At(p) && h' == CloneWithList(h, a, List(h, a) + List(h, b), p, q)
  }

  /** Combining concatenates the invocation lists and changes no existing delegate. */
  lemma CombineConcatenates(h: Heap, a: ObjRef, b: ObjRef, h': Heap, r: ObjRef)
    requires Inv(h) && Operand(h, a) && Operand(h, b) && CombineStep(h, a, b, h', r)
    ensures Inv(h') && Extends(h, h') && Operand(h', r)
    ensures List(h', r) == List(h, a) + List(h, b)
    ensures a.At? && b.At? ==> IsDelegate(h', r) && Identity(h', r) == Identity(h, a) && Targets(h', r).Some?
  {
    if a.At? && b.At? {
      var p, q :| Unused(h, p, q) && r == At(p) && h' == CloneWithList(h, a, List(h, a) + List(h, b), p, q);
      assert Sound(h, At(a.addr)) && Sound(h, At(b.addr));
      CloneIsSound(h, a, List(h, a) + List(h, b), p, q);
    }
  }

  lemma OperandIsKept(h: Heap, h': Heap, r: ObjRef)
    requires Inv(h) && Extends(h, h') && Operand(h, r)
    ensures Operand(h', r) && List(h', r) == List(h, r)
  {
    if r.At? {
      assert Sound(h, At(r.addr));
      ListIsKept(h, h', r);
    }
  }

  /** Combining with one operand and then with another, on the left or on the right. */
  lemma CombineTwiceLeft(h: Heap, a: ObjRef, b: ObjRef, c: ObjRef, h1: Heap, ab: ObjRef, h2: Heap, r: ObjRef)
    requires Inv(h) && Operand(h, a) && Operand(h, b) && Operand(h, c)
    requires CombineStep(h, a, b, h1, ab) && CombineStep(h1, ab, c, h2, r)
    ensures Inv(h2) && Extends(h, h2) && Operand(h2, r) && List(h2, r) == List(h, a) + List(h, b) + List(h, c)
  {
    CombineConcatenates(h, a, b, h1, ab);
    OperandIsKept(h, h1, c);
    CombineConcatenates(h1, ab, c, h2, r);
  }

  lemma CombineTwiceRight(h: Heap, a: ObjRef, b: ObjRef, c: ObjRef, h1: Heap, bc: ObjRef, h2: Heap, r: ObjRef)
    requires Inv(h) && Operand(h, a) && Operand(h, b) && Operand(h, c)
    requires CombineStep(h, b, c, h1, bc) && CombineStep(h1, a, bc, h2, r)
    ensures Inv(h2) && Extends(h, h2) && List(h2, r) == List(h, a) + List(h, b) + List(h, c)
  {
    CombineConcatenates(h, b, c, h1, bc);
    OperandIsKept(h, h1, a);
    CombineConcatenates(h1, a, bc, h2, r);
    ConcatIsAssociative(List(h, a), List(h, b), List(h, c));
  }

  lemma ConcatIsAssociative(x: seq<ObjRef>, y: seq<ObjRef>, z: seq<ObjRef>)
    ensures x + (y + z) == x + y + z
  {
  }

  /** Combine is associative on invocation lists. */
  lemma CombineIsAssociative(h: Heap, a: ObjRef, b: ObjRef, c: ObjRef,
                             h1: Heap, ab: ObjRef, h2: Heap, left: ObjRef, h3: Heap, bc: ObjRef, h4: Heap,
                                 right: ObjRef)
    requires Inv(h) && Operand(h, a) && Operand(h, b) && Operand(h, c)
    requires CombineStep(h, a, b, h1, ab) && CombineStep(h1, ab, c, h2, left)
    requires CombineStep(h2, b, c, h3, bc) && CombineStep(h3, a, bc, h4, right)
    ensures List(h4, left) == List(h4, right) == List(h, a) + List(h, b) + List(h, c)
  {
    CombineTwiceLeft(h, a, b, c, h1, ab, h2, left);
    OperandIsKept(h, h2, a);
    OperandIsKept(h, h2, b);
    OperandIsKept(h, h2, c);
    CombineTwiceRight(h2, a, b, c, h3, bc, h4, right);
    OperandIsKept(h2, h4, left);
  }

  // ------------------------------------------------------------ Remove

  /** Entries of invocation lists match when they are the same object or have the same identity. */
  predicate SameEntry(h: Heap, a: ObjRef, b: ObjRef) {
    a == b || (IsDelegate(h, a) && IsDelegate(h, b) && Identity(h, a) == Identity(h, b))
  }

  predicate MatchAt(h: Heap, source: seq<ObjRef>, value: seq<ObjRef>, i: nat) {
    i + |value| <= |source| && forall j :: 0 <= j < |value| ==> SameEntry(h, source[i + j], value[j])
  }

  /** `i` is the last place where `value` occurs in `source`. */
  predicate LastMatch(h: Heap, source: seq<ObjRef>, value: seq<ObjRef>, i: nat) {
    MatchAt(h, source, value, i) && forall k :: i < k <= |source| ==> !MatchAt(h, source, value, k)
  }

  ghost predicate Occurs(h: Heap, source: seq<ObjRef>, value: seq<ObjRef>) {
    exists i :: MatchAt(h, source, value, i)
  }

  function Without(source: seq<ObjRef>, i: nat, n: nat): seq<ObjRef>
    requires i + n <= |source|
  {
    source[..i] + source[i + n..]
  }

  /** `Delegate.Remove(source, value)` returns `r` and leaves the heap `h'`. */
  ghost predicate RemoveStep(h: Heap, source: ObjRef, value: ObjRef, h': Heap, r: ObjRef) {
    if source.Null? || value.Null? || !Occurs(h, List(h, source), List(h, value)) then h' == h && r == source
    else
      && IsDelegate(h, source)
      && exists i :: LastMatch(h, List(h, source), List(h, value), i) && RemoveAt(h, source, List(h, value), i, h', r)
  }

  /** The result when the occurrence at `i` is removed: null, the one remaining entry, or a new delegate. */
  ghost predicate RemoveAt(h: Heap, source: ObjRef, value: seq<ObjRef>, i: nat, h': Heap, r: ObjRef)
    requires IsDelegate(h, source) && i + |value| <= |List(h, source)|
  {
    var rest := Without(List(h, source), i, |value|);
    if rest == [] then h' == h && r == Null
    else if |rest| == 1 then h' == h && r == rest[0]
    else exists p, q :: Unused(h, p, q) && r == At(p) && h' == CloneWithList(h, source, rest, p, q)
  }

  /** Removing deletes exactly the last occurrence of the value's list and changes no existing delegate. */
  lemma RemoveDeletesLastOccurrence(h: Heap, source: ObjRef, value: ObjRef, h': Heap, r: ObjRef)
    requires Inv(h) && Operand(h, source) && Operand(h, value) && RemoveStep(h, source, value, h', r)
    ensures Inv(h') && Extends(h, h') && Operand(h', r)
    ensures source.Null? || value.Null? || !Occurs(h, List(h, source), List(h, value)) ==> r == source
    ensures source.At? && value.At? ==>
              forall i :: LastMatch(h, List(h, source), List(h, value), i) ==>
                List(h', r) == Without(List(h, source), i, |List(h, value)|)
  {
    if source.At? && value.At? && Occurs(h, List(h, source), List(h, value)) {
      var i :| LastMatch(h, List(h, source), List(h, value), i) && RemoveAt(h, source, List(h, value), i, h', r);
      RemoveAtMeans(h, source, List(h, value), i, h', r);
      forall k | LastMatch(h, List(h, source), List(h, value), k) ensures k == i {
      }
    }
  }

  lemma RemoveAtMeans(h: Heap, source: ObjRef, value: seq<ObjRef>, i: nat, h': Heap, r: ObjRef)
    requires Inv(h) && IsDelegate(h, source) && i + |value| <= |List(h, source)| && RemoveAt(h, source, value, i, h', r)
    ensures Inv(h') && Extends(h, h') && Operand(h', r)
    ensures List(h', r) == Without(List(h, source), i, |value|)
    ensures |Without(List(h, source), i, |value|)| > 1 ==>
        IsDelegate(h', r) && Identity(h', r) == Identity(h, source) && Targets(h', r).Some?
  {
    assert Sound(h, At(source.addr));
    var rest := Without(List(h, source), i, |value|);
    forall k | 0 <= k < |rest| ensures Leaf(h, rest[k]) {
      assert rest[k] == List(h, source)[if k < i then k else k + |value|];
    }
    if |rest| > 1 {
      var p, q :| Unused(h, p, q) && r == At(p) && h' == CloneWithList(h, source, rest, p, q);
      CloneIsSound(h, source, rest, p, q);
    } else if |rest| == 1 {
      assert Leaf(h, rest[0]);
      assert rest == [rest[0]];
    }
  }

  lemma SameEntryReflexive(h: Heap, list: seq<ObjRef>, i: nat, value: seq<ObjRef>)
    requires i + |value| <= |list| && list[i..i + |value|] == value
    ensures MatchAt(h, list, value, i)
  {
    forall j | 0 <= j < |value| ensures list[i + j] == value[j] {
      assert list[i..i + |value|][j] == value[j];
    }
  }

  /** Removing what was combined last gives back the first list, for all operands. */
  lemma RemoveUndoesCombine(h: Heap, a: ObjRef, b: ObjRef, h1: Heap, ab: ObjRef, h2: Heap, r: ObjRef)
    requires Inv(h) && Operand(h, a) && Operand(h, b)
    requires CombineStep(h, a, b, h1, ab) && RemoveStep(h1, ab, b, h2, r)
    ensures List(h2, r) == List(h, a)
  {
    CombineConcatenates(h, a, b, h1, ab);
    OperandIsKept(h, h1, b);
    OperandIsKept(h, h1, a);
    RemoveDeletesLastOccurrence(h1, ab, b, h2, r);
    if b.At? {
      var list, value, n := List(h1, ab), List(h1, b), |List(h, a)|;
      assert ab.At?;
      SameEntryReflexive(h1, list, n, value);
      assert Sound(h1, At(b.addr));
      assert LastMatch(h1, list, value, n);
      assert Without(list, n, |value|) == List(h, a);
    } else {
      OperandIsKept(h1, h2, a);
    }
  }

  // ------------------------------------------------------------ reachable heaps

  ghost predicate HeapStep(h: Heap, h': Heap) {
    || (exists target, methodIndex, r :: CreateStep(h, target, methodIndex, h', r))
    || (exists a, b, r :: Operand(h, a) && Operand(h, b) && CombineStep(h, a, b, h', r))
    || (exists a, b, r :: Operand(h, a) && Operand(h, b) && RemoveStep(h, a, b, h', r))
  }

  lemma StepKeepsInv(h: Heap, h': Heap)
    requires Inv(h) && HeapStep(h, h')
    ensures Inv(h') && Extends(h, h')
  {
    if target, methodIndex, r :| CreateStep(h, target, methodIndex, h', r) {
      CreateMakesLeaf(h, target, methodIndex, h', r);
    } else if a, b, r :| Operand(h, a) && Operand(h, b) && CombineStep(h, a, b, h', r) {
      CombineConcatenates(h, a, b, h', r);
    } else {
      var a, b, r :| Operand(h, a) && Operand(h, b) && RemoveStep(h, a, b, h', r);
      RemoveDeletesLastOccurrence(h, a, b, h', r);
    }
  }

  /** In every heap reached by creating, combining and removing delegates, every invocation list is a list of
      leaves, and no step ever changes the list of a delegate that exists. */
  lemma {:induction false} ReachableHeapsAreSound(run: seq<Heap>, i: nat, j: nat)
    requires i <= j < |run| && Inv(run[0])
    requires forall k :: 0 <= k < |run| - 1 ==> HeapStep(run[k], run[k + 1])
    ensures Inv(run[j]) && Inv(run[i])
    ensures forall r :: IsDelegate(run[i], r) ==> IsDelegate(run[j], r) && List(run[j], r) == List(run[i], r)
    decreases j
  {
    if i < j {
      ReachableHeapsAreSound(run, i, j - 1);
      assert HeapStep(run[j - 1], run[j - 1 + 1]);
      StepKeepsInv(run[j - 1], run[j]);
      forall r | IsDelegate(run[i], r) ensures IsDelegate(run[j], r) && List(run[j], r) == List(run[i], r) {
        OperandIsKept(run[j - 1], run[j], r);
        assert IsDelegate(run[j - 1], r);
      }
    } else if j > 0 {
      ReachableHeapsAreSound(run, j - 1, j - 1);
      assert HeapStep(run[j - 1], run[j - 1 + 1]);
      StepKeepsInv(run[j - 1], run[j]);
    }
  }

  // ------------------------------------------------------------ Equals and GetHashCode

  predicate SameIdentities(h: Heap, a: seq<ObjRef>, b: seq<ObjRef>) {
    && |a| == |b|
    && forall i :: 0 <= i < |a| ==> IsDelegate(h, a[i]) && IsDelegate(h, b[i]) && Identity(h, a[i]) == Identity(h, b[i])
  }

  /** `x.Equals(y)` for a delegate `x` and any reference `y`. */
  predicate Equal(h: Heap, x: ObjRef, y: ObjRef)
    requires IsDelegate(h, x)
  {
    || x == y
    || (IsDelegate(h, y) && Identity(h, x) == Identity(h, y)
        && match (Targets(h, x), Targets(h, y))
           case (Some(a), Some(b)) => SameIdentities(h, a, b)
           case (None, None) => true
           case _ => false)
  }

  lemma EqualIsEquivalence(h: Heap, x: ObjRef, y: ObjRef, z: ObjRef)
    requires Inv(h) && IsDelegate(h, x) && IsDelegate(h, y) && IsDelegate(h, z)
    ensures Equal(h, x, x)
    ensures Equal(h, x, y) ==> Equal(h, y, x)
    ensures Equal(h, x, y) && Equal(h, y, z) ==> Equal(h, x, z)
  {
  }

  /** The low 32 bits of a machine word. */
  function Low32(n: nat): bv32 {
    (n % 0x1_0000_0000) as bv32
  }

  /** The hash code; `address` gives the machine address of an object. */
  function HashCode(h: Heap, address: nat -> nat, x: ObjRef): bv32
    requires IsDelegate(h, x)
  {
    var (target, methodIndex) := Identity(h, x);
    Mix(methodIndex, if target.At? then address(target.addr) else 0,
        if Targets(h, x).Some? then |Targets(h, x).value| else 0)
  }

  function Mix(methodIndex: nat, address: nat, length: nat): bv32 {
    Low32(methodIndex) ^ Low32(address) ^ Low32(length)
  }

  lemma EqualDelegatesHashAlike(h: Heap, address: nat -> nat, x: ObjRef, y: ObjRef)
    requires Inv(h) && IsDelegate(h, x) && IsDelegate(h, y) && Equal(h, x, y)
    ensures HashCode(h, address, x) == HashCode(h, address, y)
  {
    if x != y {
      assert Identity(h, x) == Identity(h, y);
      assert Targets(h, x).Some? <==> Targets(h, y).Some?;
    }
  }

  /** The delegate has the identity of the first entry of its list. */
  predicate HeadIdentity(h: Heap, x: ObjRef) {
    IsDelegate(h, x) && |List(h, x)| > 0 && IsDelegate(h, List(h, x)[0]) && Identity(h, x) == Identity(h, List(h, x)[0])
  }

  /** Both leaves carry a vector, or neither does. */
  predicate SameRepresentation(h: Heap, x: ObjRef, y: ObjRef)
    requires IsDelegate(h, x) && IsDelegate(h, y)
  {
    |List(h, x)| == 1 && |List(h, y)| == 1 ==> (Targets(h, x).Some? <==> Targets(h, y).Some?)
  }

  /** For delegates with the identity of their first entry, equality is equality of the lists. */
  lemma EqualMeansSameLists(h: Heap, x: ObjRef, y: ObjRef)
    requires Inv(h) && HeadIdentity(h, x) && HeadIdentity(h, y) && SameRepresentation(h, x, y)
    ensures Equal(h, x, y) <==> SameIdentities(h, List(h, x), List(h, y))
  {
    assert Sound(h, At(x.addr)) && Sound(h, At(y.addr));
    if x == y {
      forall i | 0 <= i < |List(h, x)| ensures IsDelegate(h, List(h, x)[i]) {
        assert Leaf(h, List(h, x)[i]);
      }
    } else if Targets(h, x).None? || Targets(h, y).None? {
      assert Targets(h, x).None? ==> List(h, x) == [x];
      assert Targets(h, y).None? ==> List(h, y) == [y];
    }
  }

  /** Creation and Combine give delegates the identity of their first entry. */
  lemma CombineKeepsHeadIdentity(h: Heap, a: ObjRef, b: ObjRef, h': Heap, r: ObjRef)
    requires Inv(h) && Operand(h, a) && Operand(h, b) && CombineStep(h, a, b, h', r)
    requires (a.At? ==> HeadIdentity(h, a)) && (b.At? ==> HeadIdentity(h, b))
    ensures r.At? ==> HeadIdentity(h', r)
  {
    CombineConcatenates(h, a, b, h', r);
    if a.At? && b.At? {
      assert Sound(h, At(a.addr));
      LeafIsKept(h, h', List(h, a)[0]);
      assert List(h', r)[0] == List(h, a)[0];
    }
  }

  /** Remove keeps that property exactly when the entry that becomes the first has the source's identity. */
  lemma RemoveKeepsHeadIdentityExactly(h: Heap, source: ObjRef, value: seq<ObjRef>, i: nat, h': Heap, r: ObjRef)
    requires Inv(h) && HeadIdentity(h, source) && i + |value| <= |List(h, source)|
             && RemoveAt(h, source, value, i, h', r)
    requires |Without(List(h, source), i, |value|)| > 1
    ensures var first := Without(List(h, source), i, |value|)[0];
            && IsDelegate(h, first)
            && (HeadIdentity(h', r) <==> Identity(h, first) == Identity(h, source))
  {
    RemoveAtMeans(h, source, value, i, h', r);
    assert Sound(h, At(source.addr));
    var rest := Without(List(h, source), i, |value|);
    assert rest[0] == List(h, source)[if 0 < i then 0 else |value|];
    LeafIsKept(h, h', rest[0]);
  }

  /** A removal that changes the identity of the first entry makes `Equals` disagree with the lists: the
      result equals no delegate that has the same list and the identity of its first entry. */
  lemma RemovingTheHeadBreaksEquals(h: Heap, source: ObjRef, value: seq<ObjRef>, i: nat, h': Heap, r: ObjRef, y: ObjRef)
    requires Inv(h) && HeadIdentity(h, source) && i + |value| <= |List(h, source)|
             && RemoveAt(h, source, value, i, h', r)
    requires var rest := Without(List(h, source), i, |value|);
             |rest| > 1 && IsDelegate(h, rest[0]) && Identity(h, rest[0]) != Identity(h, source)
    requires HeadIdentity(h', y) && SameIdentities(h', List(h', r), List(h', y))
    ensures !Equal(h', r, y)
  {
    RemoveAtMeans(h, source, value, i, h', r);
    RemoveKeepsHeadIdentityExactly(h, source, value, i, h', r);
    var first := List(h', r)[0];
    assert Leaf(h, first) by {
      assert Sound(h, At(source.addr));
      assert first == List(h, source)[if 0 < i then 0 else |value|];
    }
    LeafIsKept(h, h', first);
    assert Identity(h', y) == Identity(h', List(h', y)[0]) == Identity(h', first);
  }

  // ------------------------------------------------------------ Equals over whole runs

  /** Every delegate has the identity of its first entry, and all leaves carry a vector or none does. */
  predicate Regular(h: Heap, vectored: bool) {
    && Inv(h)
    && forall a {:trigger IsDelegate(h, At(a))} :: a in h && IsDelegate(h, At(a)) ==> RegularAt(h, At(a), vectored)
  }

  predicate RegularAt(h: Heap, r: ObjRef, vectored: bool) {
    HeadIdentity(h, r) && (|List(h, r)| == 1 ==> (Targets(h, r).Some? <==> vectored))
  }

  /** A step that creates a delegate in the given representation, combines, or removes so that the entry that
      becomes the first has the identity of the source. */
  ghost predicate UniformStep(h: Heap, vectored: bool, h': Heap) {
    || (exists target, methodIndex, r ::
        CreateStep(h, target, methodIndex, h', r) && (Targets(h', r).Some? <==> vectored))
    || (exists a, b, r :: Operand(h, a) && Operand(h, b) && CombineStep(h, a, b, h', r))
    || (exists a, b, i, r :: RemovesWithin(h, a, b, i, h', r))
  }

  /** A removal at `i` that leaves at least two entries, the first with the identity of the source. */
  ghost predicate RemovesWithin(h: Heap, source: ObjRef, value: ObjRef, i: nat, h': Heap, r: ObjRef) {
    && IsDelegate(h, source) && IsDelegate(h, value)
    && LastMatch(h, List(h, source), List(h, value), i) && RemoveAt(h, source, List(h, value), i, h', r)
    && var rest := Without(List(h, source), i, |List(h, value)|);
    && |rest| > 1 && IsDelegate(h, rest[0]) && Identity(h, rest[0]) == Identity(h, source)
  }

  lemma RegularIsKept(h: Heap, h': Heap, r: ObjRef, vectored: bool)
    requires Inv(h) && Extends(h, h') && IsDelegate(h, r) && Sound(h, r) && RegularAt(h, r, vectored)
    ensures RegularAt(h', r, vectored)
  {
    ListIsKept(h, h', r);
    assert Leaf(h, List(h, r)[0]);
    LeafIsKept(h, h', List(h, r)[0]);
  }

  /** A step that adds at most the delegate `r`, itself regular, keeps the heap regular. */
  lemma AddsRegular(h: Heap, h': Heap, r: ObjRef, vectored: bool)
    requires Regular(h, vectored) && Inv(h') && Extends(h, h')
    requires forall a :: IsDelegate(h', At(a)) && !IsDelegate(h, At(a)) ==> At(a) == r
    requires IsDelegate(h', r) && !IsDelegate(h, r) ==> RegularAt(h', r, vectored)
    ensures Regular(h', vectored)
  {
    forall a | a in h' && IsDelegate(h', At(a)) ensures RegularAt(h', At(a), vectored) {
      if IsDelegate(h, At(a)) {
        assert Sound(h, At(a));
        RegularIsKept(h, h', At(a), vectored);
      }
    }
  }

  lemma UniformStepKeepsRegular(h: Heap, vectored: bool, h': Heap)
    requires Regular(h, vectored) && UniformStep(h, vectored, h')
    ensures Regular(h', vectored) && Extends(h, h')
  {
    if target, methodIndex, r :| CreateStep(h, target, methodIndex, h', r) && (Targets(h', r).Some? <==> vectored) {
      CreateStepKeepsRegular(h, vectored, target, methodIndex, h', r);
    } else if a, b, r :| Operand(h, a) && Operand(h, b) && CombineStep(h, a, b, h', r) {
      CombineStepKeepsRegular(h, vectored, a, b, h', r);
    } else {
      var a, b, i, r :| RemovesWithin(h, a, b, i, h', r);
      RemoveStepKeepsRegular(h, vectored, a, b, i, h', r);
    }
  }

  lemma CreateStepKeepsRegular(h: Heap, vectored: bool, target: ObjRef, methodIndex: nat, h': Heap, r: ObjRef)
    requires Regular(h, vectored) && CreateStep(h, target, methodIndex, h', r) && (Targets(h', r).Some? <==> vectored)
    ensures Regular(h', vectored) && Extends(h, h')
  {
    CreateMakesLeaf(h, target, methodIndex, h', r);
    AddsRegular(h, h', r, vectored);
  }

  lemma RemoveStepKeepsRegular(h: Heap, vectored: bool, source: ObjRef, value: ObjRef, i: nat, h': Heap, r: ObjRef)
    requires Regular(h, vectored) && RemovesWithin(h, source, value, i, h', r)
    ensures Regular(h', vectored) && Extends(h, h')
  {
    RemoveAtMeans(h, source, List(h, value), i, h', r);
    assert RegularAt(h, At(source.addr), vectored);
    RemoveKeepsHeadIdentityExactly(h, source, List(h, value), i, h', r);
    AddsRegular(h, h', r, vectored);
  }

  lemma CombineStepKeepsRegular(h: Heap, vectored: bool, a: ObjRef, b: ObjRef, h': Heap, r: ObjRef)
    requires Regular(h, vectored) && Operand(h, a) && Operand(h, b) && CombineStep(h, a, b, h', r)
    ensures Regular(h', vectored) && Extends(h, h')
  {
    CombineConcatenates(h, a, b, h', r);
    if a.At? && b.At? {
      assert HeadIdentity(h, At(a.addr)) && HeadIdentity(h, At(b.addr));
      CombineKeepsHeadIdentity(h, a, b, h', r);
      AddsRegular(h, h', r, vectored);
    }
  }

  /** Over every run of such steps from the empty heap, two delegates are equal if and only if their invocation
      lists agree entry by entry. */
  lemma {:induction false} UniformRunsEqualByLists(vectored: bool, run: seq<Heap>, j: nat)
    requires j < |run| && run[0] == map[]
    requires forall k :: 0 <= k < |run| - 1 ==> UniformStep(run[k], vectored, run[k + 1])
    ensures Regular(run[j], vectored)
    ensures forall x, y :: IsDelegate(run[j], x) && IsDelegate(run[j], y) ==>
              (Equal(run[j], x, y) <==> SameIdentities(run[j], List(run[j], x), List(run[j], y)))
    decreases j
  {
    if j > 0 {
      UniformRunsEqualByLists(vectored, run, j - 1);
      assert UniformStep(run[j - 1], vectored, run[j - 1 + 1]);
      UniformStepKeepsRegular(run[j - 1], vectored, run[j]);
    }
    forall x, y | IsDelegate(run[j], x) && IsDelegate(run[j], y)
      ensures Equal(run[j], x, y) <==> SameIdentities(run[j], List(run[j], x), List(run[j], y))
    {
      assert RegularAt(run[j], At(x.addr), vectored) && RegularAt(run[j], At(y.addr), vectored);
      EqualMeansSameLists(run[j], x, y);
    }
  }

  // ------------------------------------------------------------ a removal that breaks Equals

  /** Three leaves, the combination of all three at 3, and the combination of the last two at 5. */
  function ThreeHandlers(): Heap {
    map[0 := Delegate(Null, 1, Null), 1 := Delegate(Null, 2, Null), 2 := Delegate(Null, 3, Null),
        3 := Delegate(Null, 1, At(4)), 4 := Vector([At(0), At(1), At(2)]),
        5 := Delegate(Null, 2, At(6)), 6 := Vector([At(1), At(2)])]
  }

  lemma ThreeHandlersAreSound()
    ensures Inv(ThreeHandlers())
  {
    var h := ThreeHandlers();
    forall a | a in h && IsDelegate(h, At(a)) ensures Sound(h, At(a)) {
      assert Leaf(h, At(0)) && Leaf(h, At(1)) && Leaf(h, At(2));
    }
  }

  lemma HeadIsLastMatch()
    ensures LastMatch(ThreeHandlers(), [At(0), At(1), At(2)], [At(0)], 0)
  {
    var h, source, value := ThreeHandlers(), [At(0), At(1), At(2)], [At(0)];
    forall k | 0 < k <= |source| ensures !MatchAt(h, source, value, k) {
      if k < |source| { assert !SameEntry(h, source[k + 0], value[0]); }
    }
  }

  /** Removing the first of three entries gives the list of the other two, and a delegate that does not equal
      their combination. */
  lemma RemovedHeadDiffers()
    ensures Inv(ThreeHandlers())
    ensures var h := ThreeHandlers();
            var h' := CloneWithList(h, At(3), [At(1), At(2)], 7, 8);
            && RemoveStep(h, At(3), At(0), h', At(7))
            && List(h', At(7)) == List(h', At(5)) && !Equal(h', At(7), At(5))
  {
    ThreeHandlersAreSound();
    HeadIsLastMatch();
    var h := ThreeHandlers();
    var source, value := List(h, At(3)), List(h, At(0));
    assert source == [At(0), At(1), At(2)] && value == [At(0)];
    assert Without(source, 0, 1) == [At(1), At(2)];
    assert Unused(h, 7, 8);
    assert RemoveAt(h, At(3), value, 0, CloneWithList(h, At(3), [At(1), At(2)], 7, 8), At(7));
  }
}
