/** A segment of the light strip: the half-open index range [start, end) of one
    word on the clock face, painted into the strip's pixel buffer. */
module LedStrip {

  /** Number of lights on the strip. */
  const NPixels: nat := 116
  /** The one index that has no light mounted; painting skips it. */
  const UnusedLed: nat := 89

  /** The values a `uint8_t` holds. */
  type Byte = x: nat | x < 256

  /** A packed color, as stored per pixel. */
  type Color = bv32

  lemma UnusedLedIsOnStrip()
    ensures UnusedLed < NPixels
  {
  }

  class LedArray {
    const start: Byte
    const end: Byte

    constructor (s: Byte, e: Byte)
      ensures start == s && end == e
    {
      start := s;
      end := e;
    }

    /** Whether painting this segment writes index `k`. */
    predicate Covers(k: int) {
      start <= k < end && k != UnusedLed
    }

    /** The buffer after the painting loop has run from `i` to `end`; an index
        past the buffer is not written. */
    function PaintFrom(buf: seq<Color>, i: nat, color: Color): (r: seq<Color>)
      ensures |r| == |buf|
      decreases end - i
    {
      if i >= end then buf
      else PaintFrom(if i != UnusedLed && i < |buf| then buf[i := color] else buf, i + 1, color)
    }

    /** The buffer after `paint(color)`. */
    function Painted(buf: seq<Color>, color: Color): (r: seq<Color>)
      ensures |r| == |buf|
    {
      PaintFrom(buf, start, color)
    }

    lemma {:induction false} PaintFromAt(buf: seq<Color>, i: nat, color: Color, k: nat)
      requires start <= i
      requires k < |buf|
      ensures PaintFrom(buf, i, color)[k] == if i <= k && Covers(k) then color else buf[k]
      decreases end - i
    {
      if i < end {
        var next := if i != UnusedLed && i < |buf| then buf[i := color] else buf;
        PaintFromAt(next, i + 1, color, k);
      }
    }

    /** Pointwise meaning of `paint`: covered indices hold the color and
        every other index keeps its value. */
    lemma PaintedAt(buf: seq<Color>, color: Color, k: nat)
      requires k < |buf|
      ensures Painted(buf, color)[k] == if Covers(k) then color else buf[k]
    {
      PaintFromAt(buf, start, color, k);
    }

    /** The missing light is never written. */
    lemma PaintSkipsUnused(buf: seq<Color>, color: Color)
      requires UnusedLed < |buf|
      ensures Painted(buf, color)[UnusedLed] == buf[UnusedLed]
    {
      PaintedAt(buf, color, UnusedLed);
    }

    /** Every index outside [start, end) is left as it was. */
    lemma PaintFramesOutside(buf: seq<Color>, color: Color, k: nat)
      requires k < |buf|
      requires k < start || end <= k
      ensures Painted(buf, color)[k] == buf[k]
    {
      PaintedAt(buf, color, k);
    }

    /** An empty or inverted range paints nothing. */
    lemma PaintEmptyRange(buf: seq<Color>, color: Color)
      requires end <= start
      ensures Painted(buf, color) == buf
    {
      forall k | 0 <= k < |buf|
        ensures Painted(buf, color)[k] == buf[k]
      {
        PaintedAt(buf, color, k);
      }
    }

    /** Painting twice with one color is painting once. */
    lemma PaintIdempotent(buf: seq<Color>, color: Color)
      ensures Painted(Painted(buf, color), color) == Painted(buf, color)
    {
      PaintOverwrites(buf, color, color);
    }

    /** The later paint wins: it erases every trace of the earlier one. */
    lemma PaintOverwrites(buf: seq<Color>, first: Color, second: Color)
      ensures Painted(Painted(buf, first), second) == Painted(buf, second)
    {
      var once := Painted(buf, first);
      forall k | 0 <= k < |buf|
        ensures Painted(once, second)[k] == Painted(buf, second)[k]
      {
        PaintedAt(buf, first, k);
        PaintedAt(once, second, k);
        PaintedAt(buf, second, k);
      }
    }

    /** `paint(color)` on the strip's pixel buffer. */
    method Paint(pixels: array<Color>, color: Color)
      requires pixels.Length == NPixels
      modifies pixels
      ensures pixels[..] == Painted(old(pixels[..]), color)
      ensures forall k :: 0 <= k < pixels.Length ==>
        pixels[k] == if Covers(k) then color else old(pixels[k])
    {
      var i: nat := start;
      while i < end
        invariant start <= i <= end || (i == start && end < start)
        invariant forall k :: 0 <= k < pixels.Length ==>
          pixels[k] == if start <= k < i && k != UnusedLed then color else old(pixels[k])
      {
        if i != UnusedLed && i < pixels.Length {
          pixels[i] := color;
        }
        i := i + 1;
      }
      ghost var before := old(pixels[..]);
      forall k | 0 <= k < pixels.Length
        ensures pixels[..][k] == Painted(before, color)[k]
      {
        PaintedAt(before, color, k);
      }
    }

    /** `operator==`: two segments are equal when their ranges are. */
    predicate Equals(other: LedArray): (r: bool)
      ensures r <==> (start, end) == (other.start, other.end)
      ensures r ==> forall k :: Covers(k) <==> other.Covers(k)
    {
      start == other.start && end == other.end
    }

    /** `operator!=`, written in the source as its own expression. */
    predicate NotEquals(other: LedArray): (r: bool)
      ensures r <==> !Equals(other)
    {
      start != other.start || end != other.end
    }
  }

  /** `operator==` compares ranges, not objects: it holds exactly when the
      two ranges agree, whichever objects carry them. */
  lemma EqualsIsRangeEquality(a: LedArray, b: LedArray)
    ensures a.Equals(b) <==> (a.start, a.end) == (b.start, b.end)
    ensures a.NotEquals(b) <==> !b.Equals(a)
  {
  }

  /** `operator==` is an equivalence on segments. */
  lemma EqualsIsEquivalence(a: LedArray, b: LedArray, c: LedArray)
    ensures a.Equals(a)
    ensures a.Equals(b) <==> b.Equals(a)
    ensures a.Equals(b) && b.Equals(c) ==> a.Equals(c)
  {
  }
}
