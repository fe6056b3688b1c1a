/** What the physical bytes hold after a write history. */
module Image {
  import opened Bytes
  import opened Layout

  /** The bytes after one record: the wrap marker of a gap, if any, then the record. */
  function Written(cap: nat, image: seq<byte>, head: nat, e: Entry): (w: seq<byte>)
    requires cap > 0 && |image| == cap && e.start % cap + |e.bytes| <= cap
    ensures |w| == cap
  {
    var marked := if e.start != head then image[head % cap := 0] else image;
    marked[..e.start % cap] + e.bytes + marked[e.start % cap + |e.bytes|..]
  }

  lemma WrittenAt(cap: nat, image: seq<byte>, head: nat, e: Entry, q: nat)
    requires cap > 0 && |image| == cap && e.start % cap + |e.bytes| <= cap && q < cap
    ensures Written(cap, image, head, e)[q]
            == if e.start % cap <= q < e.start % cap + |e.bytes| then e.bytes[q - e.start % cap]
               else if e.start != head && q == head % cap then 0
               else image[q]
  {
  }

  /** The physical bytes after the whole history, starting from zeros. */
  function ImageOf(cap: nat, h: seq<Entry>): (image: seq<byte>)
    requires Laid(cap, h)
    ensures |image| == cap
    decreases |h|
  {
    if h == [] then Zeros(cap)
    else
      LaidPrefix(cap, h, |h| - 1);
      LaidFits(cap, h, |h| - 1);
      Written(cap, ImageOf(cap, h[..|h| - 1]), HeadAt(h, |h| - 1), h[|h| - 1])
  }

  lemma ImageExtend(cap: nat, h: seq<Entry>, e: Entry)
    requires Laid(cap, h) && Laid(cap, h + [e])
    ensures e.start % cap + |e.bytes| <= cap
    ensures ImageOf(cap, h + [e]) == Written(cap, ImageOf(cap, h), Head(h), e)
  {
    LaidFits(cap, h + [e], |h|);
    assert (h + [e])[..|h|] == h;
    assert HeadAt(h + [e], |h|) == Head(h);
  }

  /** Appending a record does not disturb a position that stays within the last `cap` bytes. */
  lemma Survives(cap: nat, h: seq<Entry>, e: Entry, a: nat, q: nat)
    requires Laid(cap, h) && Laid(cap, h + [e])
    requires Floor(cap, e.End()) <= a < Head(h) && q == a % cap
    ensures q < cap && ImageOf(cap, h + [e])[q] == ImageOf(cap, h)[q]
  {
    ImageExtend(cap, h, e);
    LaidFits(cap, h + [e], |h|);
    assert HeadAt(h + [e], |h|) == Head(h);
    var p := e.start % cap;
    if p <= q < p + |e.bytes| {
      ModAdd(e.start, q - p, cap);
      ModDistinct(a, e.start + (q - p), cap);
      assert false;
    }
    if e.start != Head(h) {
      ModDistinct(a, Head(h), cap);
    }
    WrittenAt(cap, ImageOf(cap, h), Head(h), e, q);
  }

  /** Byte `k` of record `i` is still in place as long as its position is within the last `cap` bytes. */
  lemma {:induction false} ImageByte(cap: nat, h: seq<Entry>, i: nat, k: nat, q: nat)
    requires Laid(cap, h) && i < |h| && k < |h[i].bytes| && Floor(cap, Head(h)) <= h[i].start + k
    requires q == (h[i].start + k) % cap
    ensures q < cap && ImageOf(cap, h)[q] == h[i].bytes[k]
    decreases |h|
  {
    hide ImageOf, Written, Laid, Head, HeadAt;
    var n := |h| - 1;
    var g, e := h[..n], h[n];
    assert h == g + [e];
    LaidPrefix(cap, h, n);
    if i == n {
      LastByte(cap, g, e, k, q);
    } else {
      NotLast(cap, h, i, k);
      Survives(cap, g, e, h[i].start + k, q);
      ImageByte(cap, g, i, k, q);
    }
  }

  /** A byte of the newest record. */
  lemma LastByte(cap: nat, g: seq<Entry>, e: Entry, k: nat, q: nat)
    requires Laid(cap, g) && Laid(cap, g + [e]) && k < |e.bytes| && q == (e.start + k) % cap
    ensures q < cap && ImageOf(cap, g + [e])[q] == e.bytes[k]
  {
    hide ImageOf, Written;
    ImageExtend(cap, g, e);
    ModAdd(e.start, k, cap);
    WrittenAt(cap, ImageOf(cap, g), Head(g), e, q);
  }

  /** A byte of an older record lies below the head before the newest, and as far above the floor. */
  lemma NotLast(cap: nat, h: seq<Entry>, i: nat, k: nat)
    requires Laid(cap, h) && i < |h| - 1 && k < |h[i].bytes| && Floor(cap, Head(h)) <= h[i].start + k
    ensures var g, e := h[..|h| - 1], h[|h| - 1];
            && Floor(cap, e.End()) <= h[i].start + k < Head(g) && Floor(cap, Head(g)) <= h[i].start + k && g[i] == h[i]
  {
    var n := |h| - 1;
    Ordered(cap, h, i, n);
    Ordered(cap, h, n, n + 1);
    LaidFits(cap, h, n);
  }

  /** The wrap marker of the gap before record `i` is still in place as long as it is within the last `cap` bytes. */
  lemma {:induction false} ImageMarker(cap: nat, h: seq<Entry>, i: nat)
    requires Laid(cap, h) && i < |h| && h[i].start != HeadAt(h, i) && Floor(cap, Head(h)) <= HeadAt(h, i)
    ensures ImageOf(cap, h)[HeadAt(h, i) % cap] == 0
    decreases |h|
  {
    var n := |h| - 1;
    var g, e := h[..n], h[n];
    assert h == g + [e];
    LaidPrefix(cap, h, n);
    LaidFits(cap, h, i);
    if i == n {
      ImageExtend(cap, g, e);
      WrittenAt(cap, ImageOf(cap, g), Head(g), e, Head(g) % cap);
    } else {
      Ordered(cap, h, i, n);
      LaidFits(cap, h, n);
      Ordered(cap, h, n, n + 1);
      assert HeadAt(h, i) == HeadAt(g, i) && g[i] == h[i];
      ImageMarker(cap, g, i);
      Survives(cap, g, e, HeadAt(h, i), HeadAt(h, i) % cap);
    }
  }

  /** Every retained record's bytes are, side by side, its exact encoding. */
  lemma RetainedIntact(cap: nat, h: seq<Entry>, i: nat)
    requires Laid(cap, h) && Evicted(cap, h) <= i < |h|
    ensures h[i].start % cap + |h[i].bytes| <= cap
    ensures ImageOf(cap, h)[h[i].start % cap..h[i].start % cap + |h[i].bytes|] == h[i].bytes
  {
    LaidFits(cap, h, i);
    RetainedExactly(cap, h);
    IntactSlice(cap, h, i, ImageOf(cap, h), h[i].start % cap);
  }

  lemma IntactSlice(cap: nat, h: seq<Entry>, i: nat, image: seq<byte>, p: nat)
    requires Laid(cap, h) && i < |h| && Floor(cap, Head(h)) <= h[i].start
    requires image == ImageOf(cap, h) && p == h[i].start % cap && p + |h[i].bytes| <= cap
    ensures image[p..p + |h[i].bytes|] == h[i].bytes
  {
    forall k | 0 <= k < |h[i].bytes|
      ensures image[p + k] == h[i].bytes[k]
    {
      ModAdd(h[i].start, k, cap);
      ImageByte(cap, h, i, k, p + k);
    }
  }
}
