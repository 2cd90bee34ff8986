/** The vectorised string probes and the string operations built on them. Vectors are modelled lane by lane
    and the byte mask of a comparison bit by bit; every probe is proved equal to its scalar meaning. */
module StringProbes {
  import opened Wrappers

  const LANES := 8
  const MIN_PROBE := 32
  const CHUNK := 1024

  // ------------------------------------------------------------ scalar meanings

  /** The first index of `needle`, if it occurs. */
  predicate IsFirst(chars: seq<bv16>, needle: bv16, r: Option<nat>) {
    match r
    case Some(i) => i < |chars| && chars[i] == needle && forall k :: 0 <= k < i ==> chars[k] != needle
    case None => forall k :: 0 <= k < |chars| ==> chars[k] != needle
  }

  predicate AsciiWhite(c: bv16) {
    c == 0x20 || (0x09 <= c && c <= 0x0D)
  }

  /** The code points of the Basic Multilingual Plane with the Unicode property White_Space. */
  predicate White(c: bv16) {
    || AsciiWhite(c) || c == 0x85 || c == 0xA0 || c == 0x1680 || (0x2000 <= c && c <= 0x200A)
    || c == 0x2028 || c == 0x2029 || c == 0x202F || c == 0x205F || c == 0x3000
  }

  predicate AllWhite(chars: seq<bv16>) {
    forall k :: 0 <= k < |chars| ==> White(chars[k])
  }

  lemma AsciiDecides(c: bv16)
    requires c <= 0x7F
    ensures White(c) <==> AsciiWhite(c)
  {
  }

  // ------------------------------------------------------------ vectors

  const ONES: bv16 := 0xFFFF

  /** Lane-wise comparison: all ones where it holds, all zeros elsewhere. */
  function CompareEqual(a: seq<bv16>, x: bv16): (r: seq<bv16>)
    ensures |r| == |a| && forall k :: 0 <= k < |a| ==> r[k] == if a[k] == x then ONES else 0
  {
    seq(|a|, k requires 0 <= k < |a| => if a[k] == x then ONES else 0)
  }

  /** Signed comparison of 16-bit lanes. */
  predicate SignedGreater(a: bv16, b: bv16) {
    (a ^ 0x8000) > (b ^ 0x8000)
  }

  /** The lanes of an x86 whitespace test: equal to 0x20, or signed above 8 and below 14. */
  function WhiteLanesX86(a: seq<bv16>): (r: seq<bv16>)
    ensures |r| == |a|
    ensures forall k :: 0 <= k < |a| ==>
              r[k] == if a[k] == 0x20 || (SignedGreater(a[k], 8) && SignedGreater(14, a[k])) then ONES else 0
  {
    seq(|a|, k requires 0 <= k < |a| => if a[k] == 0x20
                                        || (SignedGreater(a[k], 8) && SignedGreater(14, a[k])) then ONES else 0)
  }

  /** The lanes of a NEON whitespace test: equal to 0x20, or unsigned between 9 and 13. */
  function WhiteLanesNeon(a: seq<bv16>): (r: seq<bv16>)
    ensures |r| == |a| && forall k :: 0 <= k < |a| ==> r[k] == if AsciiWhite(a[k]) then ONES else 0
  {
    seq(|a|, k requires 0 <= k < |a| => if a[k] == 0x20 || (a[k] >= 9 && a[k] <= 13) then ONES else 0)
  }

  /** The bits that no ASCII character has. */
  function HighBits(c: bv16): bv16 {
    c & 0xFF80
  }

  function HighLanes(a: seq<bv16>): (r: seq<bv16>)
    ensures |r| == |a| && forall k :: 0 <= k < |a| ==> r[k] == HighBits(a[k])
  {
    seq(|a|, k requires 0 <= k < |a| => HighBits(a[k]))
  }

  /** One bit per byte: the top bits of the low and of the high byte of each lane, lowest lane first. */
  function MoveMask(lanes: seq<bv16>): nat {
    if lanes == [] then 0
    else (if lanes[0] & 0x0080 != 0 then 1 else 0) + (if lanes[0] & 0x8000 != 0 then 2 else 0)
         + 4 * MoveMask(lanes[1..])
  }

  function TrailingZeros(n: nat): nat
    requires n > 0
  {
    if n % 2 == 1 then 0 else 1 + TrailingZeros(n / 2)
  }

  function FullMask(n: nat): nat {
    if n == 0 then 0 else 3 + 4 * FullMask(n - 1)
  }

  lemma FullMaskOfEight()
    ensures FullMask(8) == 0xFFFF
  {
    assert FullMask(2) == 0xF && FullMask(4) == 0xFF && FullMask(6) == 0xFFF;
  }

  predicate Boolean(lanes: seq<bv16>) {
    forall k :: 0 <= k < |lanes| ==> lanes[k] == 0 || lanes[k] == ONES
  }

  lemma OnesHaveTopBits()
    ensures ONES & 0x0080 != 0 && ONES & 0x8000 != 0
  {
  }

  /** The mask is zero exactly if no lane is set; otherwise its trailing zeros, halved, are the first set lane. */
  lemma {:induction false} MaskFindsFirstLane(lanes: seq<bv16>)
    requires Boolean(lanes)
    ensures MoveMask(lanes) == 0 <==> forall k :: 0 <= k < |lanes| ==> lanes[k] == 0
    ensures MoveMask(lanes) > 0 ==> FirstSet(lanes, TrailingZeros(MoveMask(lanes)) / 2)
  {
    if lanes != [] {
      var rest := lanes[1..];
      MaskFindsFirstLane(rest);
      MaskOfCons(lanes);
      assert forall k :: 0 < k < |lanes| ==> lanes[k] == rest[k - 1];
      if lanes[0] == 0 && MoveMask(rest) > 0 {
        ShiftedZeros(MoveMask(rest));
        ShiftedLane(lanes, TrailingZeros(MoveMask(rest)) / 2);
      } else if lanes[0] == ONES {
        OddMask(MoveMask(rest));
      }
    }
  }

  lemma ShiftedLane(lanes: seq<bv16>, lane: nat)
    requires lanes != [] && lanes[0] == 0 && FirstSet(lanes[1..], lane)
    ensures FirstSet(lanes, lane + 1)
  {
    assert forall k :: 0 < k < |lanes| ==> lanes[k] == lanes[1..][k - 1];
  }

  lemma {:induction false} OddMask(n: nat)
    ensures TrailingZeros(3 + 4 * n) == 0
  {
    OddIsOdd(2 * n + 1);
  }

  lemma OddIsOdd(k: nat)
    ensures (2 * k + 1) % 2 == 1
  {
  }

  predicate FirstSet(lanes: seq<bv16>, lane: nat) {
    lane < |lanes| && lanes[lane] == ONES && forall k :: 0 <= k < lane ==> lanes[k] == 0
  }

  /** A lane contributes two equal bits below those of the lanes after it. */
  lemma MaskOfCons(lanes: seq<bv16>)
    requires Boolean(lanes) && lanes != []
    ensures lanes[0] == 0 || lanes[0] == ONES
    ensures MoveMask(lanes) == (if lanes[0] == 0 then 0 else 3) + 4 * MoveMask(lanes[1..])
  {
    OnesHaveTopBits();
    assert lanes[0] == 0 || lanes[0] == ONES;
  }

  lemma {:induction false} ShiftedZeros(n: nat)
    requires n > 0
    ensures TrailingZeros(4 * n) == 2 + TrailingZeros(n)
  {
    assert (4 * n) / 2 == 2 * n && (2 * n) / 2 == n;
    assert TrailingZeros(4 * n) == 1 + TrailingZeros(2 * n);
  }

  /** The mask is full exactly if every lane is set. */
  lemma {:induction false} MaskSeesAllLanes(lanes: seq<bv16>)
    requires Boolean(lanes)
    ensures MoveMask(lanes) <= FullMask(|lanes|)
    ensures MoveMask(lanes) == FullMask(|lanes|) <==> forall k :: 0 <= k < |lanes| ==> lanes[k] == ONES
  {
    if lanes != [] {
      var rest := lanes[1..];
      MaskSeesAllLanes(rest);
      MaskOfCons(lanes);
      if MoveMask(lanes) == FullMask(|lanes|) {
        forall k | 0 <= k < |lanes| ensures lanes[k] == ONES {
          if k > 0 { assert lanes[k] == rest[k - 1]; }
        }
      }
    }
  }

  // ------------------------------------------------------------ IndexOf

  method IndexOfSse2(chars: seq<bv16>, needle: bv16) returns (r: Option<nat>)
    ensures IsFirst(chars, needle, r)
  {
    var offset := 0;
    while offset + LANES <= |chars|
      invariant 0 <= offset <= |chars|
      invariant forall k :: 0 <= k < offset ==> chars[k] != needle
    {
      var chunk := chars[offset..offset + LANES];
      var compared := CompareEqual(chunk, needle);
      var mask := MoveMask(compared);
      MaskFindsFirstLane(compared);
      if mask != 0 {
        var lane := TrailingZeros(mask) / 2;
        assert compared[lane] == ONES && chunk[lane] == chars[offset + lane];
        forall k | offset <= k < offset + lane ensures chars[k] != needle {
          assert compared[k - offset] == 0 && chunk[k - offset] == chars[k];
        }
        return Some(offset + lane);
      }
      forall k | offset <= k < offset + LANES ensures chars[k] != needle {
        assert compared[k - offset] == 0 && chunk[k - offset] == chars[k];
      }
      offset := offset + LANES;
    }
    r := Position(chars, needle, offset);
  }

  /** The scalar search from `from` on. */
  method Position(chars: seq<bv16>, needle: bv16, from: nat) returns (r: Option<nat>)
    requires from <= |chars| && forall k :: 0 <= k < from ==> chars[k] != needle
    ensures IsFirst(chars, needle, r)
  {
    var i := from;
    while i < |chars|
      invariant from <= i <= |chars|
      invariant forall k :: 0 <= k < i ==> chars[k] != needle
    {
      if chars[i] == needle {
        return Some(i);
      }
      i := i + 1;
    }
    r := None;
  }

  method IndexOfNeon(chars: seq<bv16>, needle: bv16) returns (r: Option<nat>)
    ensures IsFirst(chars, needle, r)
  {
    var offset := 0;
    while offset + LANES <= |chars|
      invariant 0 <= offset <= |chars|
      invariant forall k :: 0 <= k < offset ==> chars[k] != needle
    {
      var chunk := chars[offset..offset + LANES];
      var compared := CompareEqual(chunk, needle);
      var lane := 0;
      while lane < LANES
        invariant 0 <= lane <= LANES
        invariant forall k :: offset <= k < offset + lane ==> chars[k] != needle
      {
        assert chunk[lane] == chars[offset + lane];
        if compared[lane] == ONES {
          return Some(offset + lane);
        }
        lane := lane + 1;
      }
      offset := offset + LANES;
    }
    r := Position(chars, needle, offset);
  }

  /** The x86 and the ARM probe give the same answer. */
  lemma FirstIsUnique(chars: seq<bv16>, needle: bv16, a: Option<nat>, b: Option<nat>)
    requires IsFirst(chars, needle, a) && IsFirst(chars, needle, b)
    ensures a == b
  {
    if a.Some? && b.Some? {
      assert !(a.value < b.value) && !(b.value < a.value);
    }
  }

  /** `IndexOf(c, startAt)`: the vector probe for long strings, the scalar loop otherwise. A negative start
      becomes a huge unsigned index and finds nothing. */
  method IndexOf(chars: seq<bv16>, needle: bv16, startAt: int, simd: bool) returns (index: int)
    requires -0x8000_0000 <= startAt < 0x8000_0000 && |chars| < 0x8000_0000
    ensures index == -1 <==> startAt < 0 || forall k :: startAt <= k < |chars| ==> chars[k] != needle
    ensures index != -1 ==> startAt <= index < |chars| && chars[index] == needle
                            && forall k :: startAt <= k < index ==> chars[k] != needle
  {
    var start := if startAt < 0 then startAt + 0x1_0000_0000_0000_0000 else startAt;
    if start >= |chars| {
      return -1;
    }
    var haystack := chars[start..];
    var found: Option<nat>;
    if |haystack| >= MIN_PROBE && simd {
      found := IndexOfSse2(haystack, needle);
    } else {
      found := Position(haystack, needle, 0);
    }
    assert forall k :: startAt <= k < |chars| ==> chars[k] == haystack[k - start];
    match found {
      case None => index := -1;
      case Some(i) => index := i + start;
    }
  }

  // ------------------------------------------------------------ whitespace

  lemma AsciiMask(c: bv16)
    ensures HighBits(c) == 0 <==> c <= 0x7F
  {
  }

  /** Below 0x80 the signed x86 comparisons agree with the unsigned test. */
  lemma SignedAgreesOnAscii(c: bv16)
    requires c <= 0x7F
    ensures (c == 0x20 || (SignedGreater(c, 8) && SignedGreater(14, c))) <==> AsciiWhite(c)
  {
  }

  /** What a decided chunk says about its characters. */
  predicate Decides(chars: seq<bv16>, r: Option<bool>) {
    r.Some? ==> (r.value <==> AllWhite(chars))
  }

  method AllAsciiWhitespaceSse2(chars: seq<bv16>) returns (r: Option<bool>)
    ensures Decides(chars, r)
    ensures r.None? ==> exists k :: 0 <= k < |chars| && chars[k] > 0x7F
  {
    FullMaskOfEight();
    var offset := 0;
    while offset + LANES <= |chars|
      invariant 0 <= offset <= |chars|
      invariant forall k :: 0 <= k < offset ==> White(chars[k])
    {
      var chunk := chars[offset..offset + LANES];
      var ascii := CompareEqual(HighLanes(chunk), 0);
      MaskSeesAllLanes(ascii);
      if MoveMask(ascii) != 0xFFFF {
        ghost var k :| 0 <= k < LANES && ascii[k] != ONES;
        AsciiMask(chunk[k]);
        assert chunk[k] == chars[offset + k];
        return None;
      }
      forall k | 0 <= k < LANES ensures chunk[k] <= 0x7F && chunk[k] == chars[offset + k] {
        assert ascii[k] == ONES;
        AsciiMask(chunk[k]);
      }
      var white := WhiteLanesX86(chunk);
      MaskSeesAllLanes(white);
      forall k | 0 <= k < LANES ensures white[k] == ONES <==> White(chars[offset + k]) {
        SignedAgreesOnAscii(chunk[k]);
        AsciiDecides(chunk[k]);
      }
      if MoveMask(white) != 0xFFFF {
        ghost var k :| 0 <= k < LANES && white[k] != ONES;
        assert !White(chars[offset + k]);
        return Some(false);
      }
      forall k | offset <= k < offset + LANES ensures White(chars[k]) {
        assert white[k - offset] == ONES;
      }
      offset := offset + LANES;
    }
    r := ScalarAsciiWhitespace(chars, offset);
  }

  method AllAsciiWhitespaceNeon(chars: seq<bv16>) returns (r: Option<bool>)
    ensures Decides(chars, r)
    ensures r.None? ==> exists k :: 0 <= k < |chars| && chars[k] > 0x7F
  {
    var offset := 0;
    while offset + LANES <= |chars|
      invariant 0 <= offset <= |chars|
      invariant forall k :: 0 <= k < offset ==> White(chars[k])
    {
      var chunk := chars[offset..offset + LANES];
      var high := HighLanes(chunk);
      if exists k :: 0 <= k < LANES && high[k] != 0 {
        ghost var k :| 0 <= k < LANES && high[k] != 0;
        AsciiMask(chunk[k]);
        assert chunk[k] == chars[offset + k];
        return None;
      }
      forall k | 0 <= k < LANES ensures chunk[k] <= 0x7F && chunk[k] == chars[offset + k]
                 && (White(chunk[k]) <==> AsciiWhite(chunk[k])) {
        AsciiMask(chunk[k]);
        AsciiDecides(chunk[k]);
      }
      var white := WhiteLanesNeon(chunk);
      if exists k :: 0 <= k < LANES && white[k] != ONES {
        ghost var k :| 0 <= k < LANES && white[k] != ONES;
        assert !White(chars[offset + k]);
        return Some(false);
      }
      forall k | offset <= k < offset + LANES ensures White(chars[k]) {
        assert white[k - offset] == ONES;
      }
      offset := offset + LANES;
    }
    r := ScalarAsciiWhitespace(chars, offset);
  }

  method ScalarAsciiWhitespace(chars: seq<bv16>, from: nat) returns (r: Option<bool>)
    requires from <= |chars| && forall k :: 0 <= k < from ==> White(chars[k])
    ensures Decides(chars, r)
    ensures r.None? ==> exists k :: 0 <= k < |chars| && chars[k] > 0x7F
  {
    var i := from;
    while i < |chars|
      invariant from <= i <= |chars|
      invariant forall k :: 0 <= k < i ==> White(chars[k])
    {
      if chars[i] > 0x7F {
        return None;
      }
      AsciiDecides(chars[i]);
      if !AsciiWhite(chars[i]) {
        return Some(false);
      }
      i := i + 1;
    }
    r := Some(true);
  }

  /** The string scan, chunk by chunk: where the probe does not decide, the chunk is scanned with the Unicode
      test. The answer is the one of the whole string. */
  method IsWhiteSpace(chars: seq<bv16>, simd: bool) returns (all: bool)
    ensures all <==> AllWhite(chars)
  {
    var offset := 0;
    all := true;
    while offset < |chars|
      invariant 0 <= offset <= |chars|
      invariant all && forall k :: 0 <= k < offset ==> White(chars[k])
    {
      var size := if |chars| - offset < CHUNK then |chars| - offset else CHUNK;
      var chunk := chars[offset..offset + size];
      var probed: Option<bool> := None;
      if |chunk| >= MIN_PROBE && simd {
        probed := AllAsciiWhitespaceSse2(chunk);
      }
      var white: bool;
      if probed.Some? {
        white := probed.value;
      } else {
        white := ScalarAllWhite(chunk);
      }
      assert forall k :: offset <= k < offset + size ==> chars[k] == chunk[k - offset];
      if !white {
        ghost var k :| 0 <= k < |chunk| && !White(chunk[k]);
        assert !White(chars[offset + k]);
        return false;
      }
      offset := offset + size;
    }
  }

  method ScalarAllWhite(chars: seq<bv16>) returns (all: bool)
    ensures all <==> AllWhite(chars)
  {
    for i := 0 to |chars|
      invariant forall k :: 0 <= k < i ==> White(chars[k])
    {
      if !White(chars[i]) {
        return false;
      }
    }
    all := true;
  }
}
