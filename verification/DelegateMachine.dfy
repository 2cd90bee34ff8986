/** The delegate intrinsics in their imperative form: they pop and push the evaluation stack and allocate on
    the heap. */
module DelegateMachine {
  import opened Wrappers
  import opened DelegateHeap

  datatype StackValue = Obj(o: ObjRef) | Int32(n: bv32)

  datatype StepResult = Continue | ThrowNullReference

  class Machine {
    var heap: Heap
    var stack: seq<StackValue>
    var next: nat
    const address: nat -> nat

    constructor (address: nat -> nat)
      ensures heap == map[] && stack == [] && Valid() && this.address == address
    {
      heap, stack, next, this.address := map[], [], 0, address;
    }

    /** The heap is one that delegate operations produce, and `next` is beyond every object. */
    ghost predicate Valid()
      reads this
    {
      Inv(heap) && forall a :: a in heap ==> a < next
    }

    /** The object reference `depth` below the top of the stack. */
    function Arg(depth: nat): ObjRef
      reads this
      requires depth < |stack| && stack[|stack| - 1 - depth].Obj?
    {
      stack[|stack| - 1 - depth].o
    }

    /** The top two stack values are delegates or null. */
    predicate TwoOperands()
      reads this
    {
      && |stack| >= 2 && stack[|stack| - 1].Obj? && stack[|stack| - 2].Obj?
      && Operand(heap, Arg(0)) && Operand(heap, Arg(1))
    }

    method GetInvocationList(r: ObjRef) returns (list: seq<ObjRef>)
      requires Valid() && IsDelegate(heap, r)
      ensures list == List(heap, r)
    {
      assert Sound(heap, At(r.addr));
      var targets := heap[r.addr].targets;
      if targets.At? {
        var elements := heap[targets.addr].elements;
        list := [];
        for i := 0 to |elements|
          invariant list == elements[..i]
        {
          list := list + [elements[i]];
        }
      } else {
        list := [r];
      }
    }

    /** Pushes a copy of `source` with its own vector of entries. */
    method PushDelegateWithInvocationList(source: ObjRef, list: seq<ObjRef>)
      requires Valid() && IsDelegate(heap, source)
      requires |list| > 1 && forall i :: 0 <= i < |list| ==> Leaf(heap, list[i])
      modifies this
      ensures Valid()
      ensures stack == old(stack) + [Obj(At(old(next)))] && Unused(old(heap), old(next), old(next) + 1)
      ensures heap == CloneWithList(old(heap), source, list, old(next), old(next) + 1)
    {
      CloneIsSound(heap, source, list, next, next + 1);
      var p, q := next, next + 1;
      next := next + 2;
      heap := heap[p := heap[source.addr]];
      heap := heap[q := Vector(list)];
      heap := heap[p := heap[p].(targets := At(q))];
      assert heap == CloneWithList(old(heap), source, list, p, q);
      stack := stack + [Obj(At(p))];
    }

    method Combine() returns (step: StepResult)
      requires Valid() && TwoOperands()
      modifies this
      ensures Valid() && step == Continue
      ensures |stack| == |old(stack)| - 1 && stack[..|stack| - 1] == old(stack)[..|old(stack)| - 2]
      ensures stack[|stack| - 1].Obj? && CombineStep(old(heap), old(Arg(1)), old(Arg(0)), heap, Arg(0))
    {
      var b, a := Arg(0), Arg(1);
      stack := stack[..|stack| - 2];
      if a.Null? {
        stack := stack + [Obj(b)];
      } else if b.Null? {
        stack := stack + [Obj(a)];
      } else {
        var listA := GetInvocationList(a);
        var listB := GetInvocationList(b);
        assert Sound(heap, At(a.addr)) && Sound(heap, At(b.addr));
        PushDelegateWithInvocationList(a, listA + listB);
      }
      return Continue;
    }

    method DelegatesEqual(a: ObjRef, b: ObjRef) returns (same: bool)
      ensures same == SameEntry(heap, a, b)
    {
      if a == b {
        return true;
      }
      if !IsDelegate(heap, a) || !IsDelegate(heap, b) {
        return false;
      }
      same := heap[a.addr].target == heap[b.addr].target && heap[a.addr].methodIndex == heap[b.addr].methodIndex;
    }

    /** The reverse search for the last place where `value` occurs in `source`. */
    method FindLast(source: seq<ObjRef>, value: seq<ObjRef>) returns (found: Option<nat>)
      requires value != []
      ensures found.Some? ==> LastMatch(heap, source, value, found.value)
      ensures found.None? ==> !Occurs(heap, source, value)
    {
      found := None;
      if |value| <= |source| {
        var i := |source| - |value| + 1;
        while i > 0
          invariant 0 <= i <= |source| - |value| + 1
          invariant forall k: nat :: i <= k ==> !MatchAt(heap, source, value, k)
        {
          i := i - 1;
          var matches := true;
          var j := 0;
          while j < |value|
            invariant 0 <= j <= |value|
            invariant matches && forall m :: 0 <= m < j ==> SameEntry(heap, source[i + m], value[m])
          {
            var same := DelegatesEqual(source[i + j], value[j]);
            if !same {
              matches := false;
              break;
            }
            j := j + 1;
          }
          if matches {
            return Some(i);
          }
          assert !MatchAt(heap, source, value, i);
        }
      }
    }

    method Remove() returns (step: StepResult)
      requires Valid() && TwoOperands()
      modifies this
      ensures Valid() && step == Continue
      ensures |stack| == |old(stack)| - 1 && stack[..|stack| - 1] == old(stack)[..|old(stack)| - 2]
      ensures stack[|stack| - 1].Obj? && RemoveStep(old(heap), old(Arg(1)), old(Arg(0)), heap, Arg(0))
    {
      var value, source := Arg(0), Arg(1);
      stack := stack[..|stack| - 2];
      if source.Null? || value.Null? {
        stack := stack + [Obj(source)];
        return Continue;
      }
      var listSource := GetInvocationList(source);
      var listValue := GetInvocationList(value);
      assert Sound(heap, At(source.addr)) && Sound(heap, At(value.addr));
      // `Valid` rules out an empty value list, for which the intrinsic would return the source.
      var found := FindLast(listSource, listValue);
      if found.None? {
        stack := stack + [Obj(source)];
        return Continue;
      }
      PushRemaining(source, listSource, listValue, found.value);
      RemovedAt(old(heap), source, value, found.value, heap, Arg(0));
      return Continue;
    }

    static lemma RemovedAt(h: Heap, source: ObjRef, value: ObjRef, i: nat, h': Heap, r: ObjRef)
      requires IsDelegate(h, source) && value.At? && LastMatch(h, List(h, source), List(h, value), i)
      requires RemoveAt(h, source, List(h, value), i, h', r)
      ensures RemoveStep(h, source, value, h', r)
    {
      assert Occurs(h, List(h, source), List(h, value));
    }

    /** Pushes what is left of `source` when the occurrence of `value` at `i` is gone. */
    method PushRemaining(source: ObjRef, list: seq<ObjRef>, value: seq<ObjRef>, i: nat)
      requires Valid() && IsDelegate(heap, source) && list == List(heap, source) && i + |value| <= |list|
      modifies this
      ensures Valid()
      ensures |stack| == |old(stack)| + 1 && stack[..|stack| - 1] == old(stack)
      ensures stack[|stack| - 1].Obj? && RemoveAt(old(heap), source, value, i, heap, Arg(0))
    {
      assert Sound(heap, At(source.addr));
      var rest := list[..i] + list[i + |value|..];
      assert rest == Without(list, i, |value|);
      if rest == [] {
        stack := stack + [Obj(Null)];
      } else if |rest| == 1 {
        stack := stack + [Obj(rest[0])];
      } else {
        forall k | 0 <= k < |rest| ensures Leaf(heap, rest[k]) {
          assert rest[k] == list[if k < i then k else k + |value|];
        }
        PushDelegateWithInvocationList(source, rest);
      }
    }

    method Equals() returns (step: StepResult)
      requires Valid() && |stack| >= 2 && stack[|stack| - 2].Obj? && Operand(heap, Arg(1))
      modifies this`stack
      ensures old(Arg(1)).Null? ==> step == ThrowNullReference && stack == old(stack)[..|old(stack)| - 2]
      ensures old(Arg(1)).At? ==>
                && step == Continue
                && stack == old(stack)[..|old(stack)| - 2]
                            + [Int32(if old(stack[|stack| - 1].Obj? && Equal(heap, Arg(1), Arg(0))) then 1 else 0)]
    {
      var other, self := stack[|stack| - 1], Arg(1);
      stack := stack[..|stack| - 2];
      if self.Null? {
        return ThrowNullReference;
      }
      var equal := false;
      if other.Obj? && other.o.At? {
        if self == other.o {
          equal := true;
        } else if IsDelegate(heap, other.o) {
          equal := EqualDelegates(self, other.o);
        }
      }
      stack := stack + [Int32(if equal then 1 else 0)];
      return Continue;
    }

    /** Two different delegates: identities first, then the vectors entry by entry. */
    method EqualDelegates(x: ObjRef, y: ObjRef) returns (equal: bool)
      requires Valid() && IsDelegate(heap, x) && IsDelegate(heap, y) && x != y
      ensures equal == Equal(heap, x, y)
    {
      assert Sound(heap, At(x.addr)) && Sound(heap, At(y.addr));
      if heap[x.addr].methodIndex != heap[y.addr].methodIndex || heap[x.addr].target != heap[y.addr].target {
        return false;
      }
      var tx, ty := heap[x.addr].targets, heap[y.addr].targets;
      if tx.Null? || ty.Null? {
        return tx.Null? && ty.Null?;
      }
      var a, b := heap[tx.addr].elements, heap[ty.addr].elements;
      assert a == List(heap, x) && b == List(heap, y);
      if |a| != |b| {
        return false;
      }
      for i := 0 to |a|
        invariant forall k :: 0 <= k < i ==>
            IsDelegate(heap, a[k]) && IsDelegate(heap, b[k]) && Identity(heap, a[k]) == Identity(heap, b[k])
      {
        assert Leaf(heap, a[i]) && Leaf(heap, b[i]);
        if heap[a[i].addr].target != heap[b[i].addr].target
           || heap[a[i].addr].methodIndex != heap[b[i].addr].methodIndex {
          return false;
        }
      }
      return true;
    }

    method GetHashCode() returns (step: StepResult)
      requires Valid() && |stack| >= 1 && stack[|stack| - 1].Obj? && Operand(heap, Arg(0))
      modifies this`stack
      ensures old(Arg(0)).Null? ==> step == ThrowNullReference && stack == old(stack)[..|old(stack)| - 1]
      ensures old(Arg(0)).At? ==>
                step == Continue && stack == old(stack)[..|old(stack)| - 1]
                + [Int32(HashCode(heap, address, old(Arg(0))))]
    {
      var self := Arg(0);
      stack := stack[..|stack| - 1];
      if self.Null? {
        return ThrowNullReference;
      }
      assert Sound(heap, At(self.addr));
      var cell := heap[self.addr];
      var targetAddress := if cell.target.At? then address(cell.target.addr) else 0;
      var length := if cell.targets.At? then |heap[cell.targets.addr].elements| else 0;
      var hash := Mix(cell.methodIndex, targetAddress, length);
      stack := stack + [Int32(hash)];
      return Continue;
    }
  }
}
