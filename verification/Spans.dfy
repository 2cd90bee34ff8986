/** Spans over managed memory: windows, slicing, bounds-checked access and overlapping copies. */
module Spans {
  import opened Wrappers

  /** A span: byte offset of its first element in the owner's memory, and its 32-bit length field. */
  datatype Span = Span(offset: nat, length: int)

  datatype Failure = OutOfRange | NegativeLength | Bounds | TooShort

  datatype Result<+T> = Ok(value: T) | Err(failure: Failure)

  const TWO31: nat := 0x8000_0000
  const TWO32: nat := 0x1_0000_0000
  const TWO63: nat := 0x8000_0000_0000_0000
  const TWO64: nat := 0x1_0000_0000_0000_0000

  predicate IsInt32(n: int) {
    0 - TWO31 <= n < TWO31
  }

  /** The truncating cast of a machine word to a signed 32-bit integer. */
  function ToInt32(n: nat): int {
    var low := n % TWO32;
    if low < TWO31 then low else low - TWO32
  }

  /** The sign-extending cast of a signed 32-bit integer to an unsigned machine word. */
  function ToWord(n: int): nat
    requires IsInt32(n)
  {
    if n < 0 then n + TWO64 else n
  }

  // ------------------------------------------------------------ building spans

  /** `AsSpan` over a source of `total` elements that begins at byte `base`. */
  function AsSpan(base: nat, total: nat, size: nat, start: int, length: Option<int>): Result<Span> {
    if length.Some? && length.value < 0 then Err(OutOfRange)
    else if start < 0 then Err(OutOfRange)
    else if start > total then Err(OutOfRange)
    else if length.Some? && start + length.value > total then Err(OutOfRange)
    else
      var actual := if length.Some? then length.value else total - start;
      Ok(Span(base + start * size, ToInt32(actual)))
  }

  function Slice(span: Span, size: nat, start: int, length: Option<int>): Result<Span> {
    if length.Some? && length.value < 0 then Err(OutOfRange)
    else if start < 0 then Err(OutOfRange)
    else if span.length < 0 then Err(NegativeLength)
    else if start > span.length then Err(OutOfRange)
    else
      var actual := if length.Some? then length.value else span.length - start;
      if actual > span.length - start then Err(OutOfRange)
      else if start * size >= TWO63 then Err(OutOfRange)
      else if actual >= TWO31 then Err(OutOfRange)
      else Ok(Span(span.offset + start * size, actual))
  }

  /** The span covers elements `first` up to `first + length` of a source of `total` elements at byte `base`. */
  predicate Covers(span: Span, base: nat, total: nat, size: nat, first: nat) {
    0 <= span.length && span.offset == base + first * size && first + span.length <= total
  }

  /** A span made by `AsSpan` is the requested window, and it is made exactly when that window exists. */
  lemma AsSpanIsWindow(base: nat, total: nat, size: nat, start: int, length: Option<int>)
    requires total < TWO31
    ensures AsSpan(base, total, size, start, length).Ok? <==>
            0 <= start <= total && (length.Some? ==> 0 <= length.value <= total - start)
    ensures AsSpan(base, total, size, start, length).Ok? ==>
              var span := AsSpan(base, total, size, start, length).value;
              && Covers(span, base, total, size, start)
              && span.length == if length.Some? then length.value else total - start
  {
  }

  lemma MulAdds(first: nat, start: nat, size: nat)
    ensures first * size + start * size == (first + start) * size
  {
  }

  /** A slice of a window is the window shifted by `start`; it exists exactly when it fits. */
  lemma SliceIsWindow(span: Span, base: nat, total: nat, size: nat, first: nat, start: int, length: Option<int>)
    requires Covers(span, base, total, size, first) && span.length < TWO31 && total * size < TWO63
    ensures Slice(span, size, start, length).Ok? <==>
            0 <= start <= span.length && (length.Some? ==> 0 <= length.value <= span.length - start)
    ensures Slice(span, size, start, length).Ok? ==>
              var r := Slice(span, size, start, length).value;
              && Covers(r, base, total, size, first + start)
              && r.length == if length.Some? then length.value else span.length - start
  {
    if 0 <= start <= span.length {
      MulAdds(first, start, size);
      MulMonotone(start, total, size);
    }
  }

  lemma MulMonotone(a: nat, b: nat, size: nat)
    requires a <= b
    ensures a * size <= b * size
  {
    if a < b { MulAdds(a, b - a, size); }
  }

  /** Slicing a slice is one slice with the starts added. */
  lemma SliceOfSlice(span: Span, base: nat, total: nat, size: nat, first: nat, a: int, la: Option<int>, b: int,
                     lb: Option<int>)
    requires Covers(span, base, total, size, first) && span.length < TWO31 && total * size < TWO63
    requires Slice(span, size, a, la).Ok? && Slice(Slice(span, size, a, la).value, size, b, lb).Ok?
    ensures var r := Slice(Slice(span, size, a, la).value, size, b, lb).value;
            Slice(span, size, a + b, Some(r.length)) == Ok(r)
  {
    SliceIsWindow(span, base, total, size, first, a, la);
    var once := Slice(span, size, a, la).value;
    SliceIsWindow(once, base, total, size, first + a, b, lb);
    var r := Slice(once, size, b, lb).value;
    SliceIsWindow(span, base, total, size, first, a + b, Some(r.length));
  }

  /** Slices taken one after the other; each step is a start and an optional length. */
  function SliceAll(span: Span, size: nat, steps: seq<(int, Option<int>)>): Result<Span>
    decreases |steps|
  {
    if steps == [] then Ok(span)
    else
      match Slice(span, size, steps[0].0, steps[0].1)
      case Err(failure) => Err(failure)
      case Ok(next) => SliceAll(next, size, steps[1..])
  }

  function StartSum(steps: seq<(int, Option<int>)>): int {
    if steps == [] then 0 else steps[0].0 + StartSum(steps[1..])
  }

  /** However many slices are taken, the result is a window of the original source that lies in the first
      span and begins at the sum of the starts. */
  lemma {:induction false} SlicesStayInside(span: Span, base: nat, total: nat, size: nat, first: nat,
                                            steps: seq<(int, Option<int>)>)
    requires Covers(span, base, total, size, first) && span.length < TWO31 && total * size < TWO63
    requires SliceAll(span, size, steps).Ok?
    ensures 0 <= StartSum(steps) <= span.length
    ensures var r := SliceAll(span, size, steps).value;
            Covers(r, base, total, size, first + StartSum(steps)) && StartSum(steps) + r.length <= span.length
    decreases |steps|
  {
    if steps != [] {
      SliceIsWindow(span, base, total, size, first, steps[0].0, steps[0].1);
      var next := Slice(span, size, steps[0].0, steps[0].1).value;
      SlicesStayInside(next, base, total, size, first + steps[0].0, steps[1..]);
    }
  }

  // ------------------------------------------------------------ access to the bytes

  /** Access to the bytes of a span in a heap object's payload. All arithmetic is checked against the width
      of a machine word, so a negative length is an error and never wraps around. */
  method WithSpanData(payload: seq<bv8>, offset: nat, length: int, size: nat) returns (r: Result<seq<bv8>>)
    requires IsInt32(length) && size < TWO64 && offset < TWO64 && |payload| < TWO63
    ensures r.Ok? <==> length == 0 || 0 <= offset + ToWord(length) * size <= |payload|
    ensures length < 0 && size > 0 ==> r.Err?
    ensures r.Ok? && length == 0 ==> r.value == []
    ensures r.Ok? && length > 0 ==> 0 <= length * size && r.value == payload[offset..offset + length * size]
    ensures r.Err? ==> r.failure == Bounds
  {
    var n := ToWord(length);
    if n == 0 {
      return Ok([]);
    }
    var bytes := n * size;
    if size > 0 {
      MulMonotone(1, size, n);
      assert bytes == size * n;
    }
    if bytes >= TWO64 {
      return Err(Bounds);
    }
    var end := offset + bytes;
    if end >= TWO64 || end > |payload| {
      return Err(Bounds);
    }
    r := Ok(payload[offset..end]);
  }

  // ------------------------------------------------------------ CopyTo

  method ReadElement(memory: array<bv8>, at: nat, size: nat) returns (r: Result<seq<bv8>>)
    ensures r.Ok? <==> at + size <= memory.Length
    ensures r.Ok? ==> r.value == memory[at..at + size]
  {
    if at + size > memory.Length {
      return Err(Bounds);
    }
    r := Ok(memory[at..at + size]);
  }

  method WriteElement(memory: array<bv8>, at: nat, element: seq<bv8>) returns (ok: bool)
    modifies memory
    ensures ok <==> at + |element| <= memory.Length
    ensures ok ==> memory[at..at + |element|] == element
    ensures forall k :: 0 <= k < memory.Length && !(ok && at <= k < at + |element|) ==> memory[k] == old(memory[k])
  {
    if at + |element| > memory.Length {
      return false;
    }
    for j := 0 to |element|
      invariant forall k :: 0 <= k < j ==> memory[at + k] == element[k]
      invariant forall k :: 0 <= k < memory.Length && !(at <= k < at + j) ==> memory[k] == old(memory[k])
    {
      memory[at + j] := element[j];
    }
    ok := true;
  }

  /** The bytes of a sequence of elements. */
  function Flat(values: seq<seq<bv8>>): seq<bv8> {
    if values == [] then [] else Flat(values[..|values| - 1]) + values[|values| - 1]
  }

  lemma FlatGrows(values: seq<seq<bv8>>, i: nat)
    requires i < |values|
    ensures Flat(values[..i + 1]) == Flat(values[..i]) + values[i]
  {
    assert values[..i + 1][..i] == values[..i];
  }

  /** Whether a window of `count` elements lies in a memory of `limit` bytes. */
  predicate Fits(offset: nat, count: nat, size: nat, limit: nat) {
    count == 0 || offset + count * size <= limit
  }

  /** Copies the elements of `source` to `destination`; the two memories may be the same object and the
      windows may overlap in any way. All elements are read before the first is written, so the
      destination receives the old source and nothing outside it changes. */
  method CopyTo(source: array<bv8>, from: Span, destination: array<bv8>, to: Span, size: nat) returns (r: Result<()>)
    modifies destination
    ensures from.length < 0 || to.length < 0 ==> r == Err(NegativeLength)
    ensures 0 <= to.length < from.length ==> r == Err(TooShort)
    ensures 0 <= from.length <= to.length ==>
              (r.Ok? <==> Fits(from.offset, from.length, size, source.Length)
                          && Fits(to.offset, from.length, size, destination.Length))
    ensures r.Ok? && from.length > 0 ==>
              && 0 <= from.length * size
              && from.offset + from.length * size <= source.Length
                 && to.offset + from.length * size <= destination.Length
              && destination[to.offset..to.offset + from.length * size]
                 == old(source[from.offset..from.offset + from.length * size])
    ensures forall k :: 0 <= k < destination.Length
                        && !(from.length > 0 && to.offset <= k < to.offset + from.length * size) ==>
              destination[k] == old(destination[k])
  {
    if from.length < 0 || to.length < 0 {
      return Err(NegativeLength);
    }
    if to.length < from.length {
      return Err(TooShort);
    }
    var values := ReadAll(source, from, size);
    if values.Err? {
      return Err(values.failure);
    }
    var ok := WriteAll(destination, to.offset, values.value, size);
    r := if ok then Ok(()) else Err(Bounds);
  }

  method ReadAll(memory: array<bv8>, span: Span, size: nat) returns (r: Result<seq<seq<bv8>>>)
    requires span.length >= 0
    ensures r.Ok? <==> Fits(span.offset, span.length, size, memory.Length)
    ensures r.Ok? ==> |r.value| == span.length && forall i :: 0 <= i < span.length ==> |r.value[i]| == size
    ensures r.Ok? && span.length > 0 ==>
              0 <= span.length * size && Flat(r.value) == memory[span.offset..span.offset + span.length * size]
    ensures r.Err? ==> r.failure == Bounds
  {
    var values: seq<seq<bv8>> := [];
    ghost var done: nat := 0;
    for index := 0 to span.length
      invariant |values| == index && forall i :: 0 <= i < index ==> |values[i]| == size
      invariant done == index * size
      invariant index > 0 ==> span.offset + done <= memory.Length
                              && Flat(values) == memory[span.offset..span.offset + done]
    {
      NextElement(index, span.length, size);
      var value := ReadElement(memory, span.offset + index * size, size);
      if value.Err? {
        return Err(Bounds);
      }
      FlatAppend(values, value.value);
      values := values + [value.value];
      done := done + size;
    }
    r := Ok(values);
  }

  lemma NextElement(index: nat, count: nat, size: nat)
    requires index < count
    ensures (index + 1) * size == index * size + size <= count * size
  {
    MulAdds(index, 1, size);
    MulMonotone(index + 1, count, size);
  }

  lemma FlatAppend(values: seq<seq<bv8>>, element: seq<bv8>)
    ensures Flat(values + [element]) == Flat(values) + element
  {
    assert (values + [element])[..|values|] == values;
  }

  /** A window that kept its first part is that part followed by the new one. */
  lemma Joined(now: seq<bv8>, before: seq<bv8>, at: nat, done: nat, size: nat)
    requires at + done + size <= |now| == |before| && forall k :: at <= k < at + done ==> now[k] == before[k]
    ensures now[at..at + done + size] == before[at..at + done] + now[at + done..at + done + size]
  {
  }

  method WriteAll(memory: array<bv8>, at: nat, values: seq<seq<bv8>>, size: nat) returns (ok: bool)
    requires forall i :: 0 <= i < |values| ==> |values[i]| == size
    modifies memory
    ensures ok <==> Fits(at, |values|, size, memory.Length)
    ensures ok && values != [] ==> 0 <= |values| * size && memory[at..at + |values| * size] == Flat(values)
    ensures forall k :: 0 <= k < memory.Length && !(values != [] && at <= k < at + |values| * size) ==>
        memory[k] == old(memory[k])
  {
    ghost var done: nat := 0;
    for index := 0 to |values|
      invariant done == index * size
      invariant index > 0 ==> at + done <= memory.Length && memory[at..at + done] == Flat(values[..index])
      invariant forall k :: 0 <= k < memory.Length && !(index > 0 && at <= k < at + done) ==>
          memory[k] == old(memory[k])
    {
      NextElement(index, |values|, size);
      ghost var before := memory[..];
      var written := WriteElement(memory, at + index * size, values[index]);
      if !written {
        return false;
      }
      FlatGrows(values, index);
      assert memory[at + done..at + done + size] == values[index];
      forall k | at <= k < at + done ensures memory[k] == before[k] {
      }
      Joined(memory[..], before, at, done, size);
      done := done + size;
    }
    assert values[..|values|] == values;
    ok := true;
  }
}
