/** Placement of records in a byte ring addressed by ever-increasing absolute offsets.

The write history determines everything: where each record lies, which records are retained, and what every physical
byte holds. */
module Layout {
  import opened Bytes
  import opened Wire

  /** One written record: its absolute start and its wire bytes. */
  datatype Entry = Entry(start: nat, record: Record, bytes: seq<byte>) {
    function End(): nat {
      start + |bytes|
    }
  }

  // ---- Arithmetic modulo the capacity ------------------------------------

  /** Bytes of a record that does not cross the end lie side by side. */
  lemma ModAdd(a: nat, i: nat, c: nat)
    requires c > 0 && a % c + i < c
    ensures (a + i) % c == a % c + i
  {
    DivMod(a, c);
    ModOf(a + i, c, a / c, a % c + i);
  }

  /** Two positions less than a capacity apart never share a physical byte. */
  lemma ModDistinct(a: nat, b: nat, c: nat)
    requires c > 0 && a < b < a + c
    ensures a % c != b % c
  {
    DivMod(a, c);
    if a % c + (b - a) < c {
      ModAdd(a, b - a, c);
    } else {
      ModOf(b, c, a / c + 1, a % c + (b - a) - c);
    }
  }

  /** The next multiple of the capacity. */
  lemma ModNext(a: nat, c: nat)
    requires c > 0
    ensures (a + (c - a % c)) % c == 0
  {
    DivMod(a, c);
    ModOf(a + (c - a % c), c, a / c + 1, 0);
  }

  // ---- Placement ---------------------------------------------------------

  /** Where a record of `len` bytes goes when the next free offset is `head`. */
  function NextStart(cap: nat, head: nat, len: nat): nat
    requires cap > 0
  {
    if head % cap == 0 || head % cap + len <= cap then head else head + (cap - head % cap)
  }

  /** A record placed by `NextStart` does not cross the physical end; any gap before it runs up to a multiple of the
  capacity. */
  lemma NextStartFits(cap: nat, head: nat, len: nat)
    requires cap > 0 && len <= cap
    ensures head <= NextStart(cap, head, len) < head + cap
    ensures NextStart(cap, head, len) % cap + len <= cap
    ensures NextStart(cap, head, len) != head
            ==> NextStart(cap, head, len) % cap == 0 && head % cap > 0
                && NextStart(cap, head, len) == head + (cap - head % cap)
  {
    ModNext(head, cap);
  }

  /** `start` is the first offset at or after `head` where `len` bytes do not cross the physical end. */
  predicate FirstFit(cap: nat, head: nat, len: nat, start: nat)
    requires cap > 0
  {
    && head <= start && start % cap + len <= cap
    && forall a | head <= a < start :: a % cap + len > cap
  }

  /** The placement rule never skips further than it must: it finds the first fit, and there is no other. */
  lemma NextStartLeast(cap: nat, head: nat, len: nat, start: nat)
    requires 0 < len <= cap
    ensures FirstFit(cap, head, len, start) <==> start == NextStart(cap, head, len)
  {
    var next := NextStart(cap, head, len);
    NextStartFits(cap, head, len);
    forall a | head <= a < next
      ensures a % cap + len > cap
    {
      ModAdd(head, a - head, cap);
    }
    assert FirstFit(cap, head, len, next);
  }

  /** The head before entry `i` was written. */
  function HeadAt(h: seq<Entry>, i: nat): nat
    requires i <= |h|
  {
    if i == 0 then 0 else h[i - 1].End()
  }

  function Head(h: seq<Entry>): nat {
    HeadAt(h, |h|)
  }

  predicate LaidAt(cap: nat, h: seq<Entry>, i: nat)
    requires cap > 0 && i < |h|
  {
    0 < |h[i].bytes| <= cap && h[i].start == NextStart(cap, HeadAt(h, i), |h[i].bytes|)
  }

  /** A history written record after record by the placement rule. */
  predicate Laid(cap: nat, h: seq<Entry>) {
    cap > 0 && forall i | 0 <= i < |h| :: LaidAt(cap, h, i)
  }

  lemma LaidFits(cap: nat, h: seq<Entry>, i: nat)
    requires Laid(cap, h) && i < |h|
    ensures HeadAt(h, i) <= h[i].start < HeadAt(h, i) + cap && h[i].start % cap + |h[i].bytes| <= cap
    ensures h[i].start != HeadAt(h, i)
            ==> h[i].start % cap == 0 && HeadAt(h, i) % cap > 0
                && h[i].start == HeadAt(h, i) + (cap - HeadAt(h, i) % cap)
  {
    assert LaidAt(cap, h, i);
    NextStartFits(cap, HeadAt(h, i), |h[i].bytes|);
  }

  /** A history is laid out by the placement rule exactly when every record lies at the first fit behind the one
  before it. */
  lemma LaidIsFirstFit(cap: nat, h: seq<Entry>)
    requires cap > 0
    ensures Laid(cap, h)
            <==> forall i | 0 <= i < |h| ::
                   0 < |h[i].bytes| <= cap && FirstFit(cap, HeadAt(h, i), |h[i].bytes|, h[i].start)
  {
    hide NextStart, FirstFit;
    forall i: nat | i < |h|
      ensures LaidAt(cap, h, i)
              <==> 0 < |h[i].bytes| <= cap && FirstFit(cap, HeadAt(h, i), |h[i].bytes|, h[i].start)
    {
      if 0 < |h[i].bytes| <= cap {
        NextStartLeast(cap, HeadAt(h, i), |h[i].bytes|, h[i].start);
      }
    }
  }

  lemma LaidPrefix(cap: nat, h: seq<Entry>, n: nat)
    requires Laid(cap, h) && n <= |h|
    ensures Laid(cap, h[..n])
    ensures forall i | 0 <= i <= n :: HeadAt(h[..n], i) == HeadAt(h, i)
  {
    forall i | 0 <= i < n
      ensures LaidAt(cap, h[..n], i)
    {
      assert LaidAt(cap, h, i);
    }
  }

  lemma LaidExtend(cap: nat, h: seq<Entry>, e: Entry)
    requires Laid(cap, h) && 0 < |e.bytes| <= cap && e.start == NextStart(cap, Head(h), |e.bytes|)
    ensures Laid(cap, h + [e])
  {
    var h' := h + [e];
    forall i | 0 <= i < |h'|
      ensures LaidAt(cap, h', i)
    {
      if i < |h| {
        assert LaidAt(cap, h, i);
        assert HeadAt(h', i) == HeadAt(h, i);
      }
    }
  }

  /** Later records start at or after the end of earlier ones. */
  lemma {:induction false} Ordered(cap: nat, h: seq<Entry>, i: nat, j: nat)
    requires Laid(cap, h) && i < j <= |h|
    ensures h[i].start < h[i].End() <= HeadAt(h, j)
    ensures j < |h| ==> h[i].End() <= h[j].start
  {
    assert LaidAt(cap, h, i);
    if i + 1 < j {
      Ordered(cap, h, i, j - 1);
      LaidFits(cap, h, j - 1);
    }
    if j < |h| {
      LaidFits(cap, h, j);
    }
  }

  // ---- Retention -----------------------------------------------------------

  /** Lowest offset a record may start at and still be retained. */
  function Floor(cap: nat, head: nat): nat {
    if head > cap then head - cap else 0
  }

  /** The first entry from `k` on that starts at or above `floor`. */
  function FirstFrom(h: seq<Entry>, floor: nat, k: nat): (n: nat)
    requires k <= |h|
    ensures k <= n <= |h|
    ensures forall i | k <= i < n :: h[i].start < floor
    ensures n < |h| ==> h[n].start >= floor
    decreases |h| - k
  {
    if k < |h| && h[k].start < floor then FirstFrom(h, floor, k + 1) else k
  }

  /** How many records have been evicted. */
  function Evicted(cap: nat, h: seq<Entry>): (n: nat)
    ensures n <= |h|
  {
    FirstFrom(h, Floor(cap, Head(h)), 0)
  }

  /** The oldest retained offset. */
  function Oldest(cap: nat, h: seq<Entry>): nat {
    if Evicted(cap, h) < |h| then h[Evicted(cap, h)].start else Head(h)
  }

  /** The newest record is always retained, and exactly the records that start within the last `cap` bytes are. */
  lemma RetainedExactly(cap: nat, h: seq<Entry>)
    requires Laid(cap, h) && h != []
    ensures Evicted(cap, h) < |h| && Oldest(cap, h) == h[Evicted(cap, h)].start
    ensures Floor(cap, Head(h)) <= Oldest(cap, h) < Head(h)
    ensures forall i | 0 <= i < |h| :: (i >= Evicted(cap, h) <==> h[i].start >= Floor(cap, Head(h)))
    ensures forall i | 0 <= i < |h| :: (i >= Evicted(cap, h) <==> h[i].start + cap >= Head(h))
    ensures forall i | 0 <= i < |h| :: (i >= Evicted(cap, h) <==> h[i].start >= Oldest(cap, h))
  {
    var n := |h| - 1;
    assert LaidAt(cap, h, n);
    assert h[n].start >= Floor(cap, Head(h));
    var k := Evicted(cap, h);
    Ordered(cap, h, k, |h|);
    forall i | k < i < |h|
      ensures h[i].start >= h[k].start
    {
      Ordered(cap, h, k, i);
    }
  }

  /** Eviction is permanent: appending only moves the boundary up. */
  lemma EvictedGrows(cap: nat, h: seq<Entry>, e: Entry)
    requires Laid(cap, h) && Laid(cap, h + [e])
    ensures Evicted(cap, h) <= Evicted(cap, h + [e])
    ensures Oldest(cap, h) <= Oldest(cap, h + [e])
    ensures Evicted(cap, h + [e]) == FirstFrom(h + [e], Floor(cap, e.End()), Evicted(cap, h))
  {
    var h' := h + [e];
    Ordered(cap, h', |h|, |h| + 1);
    assert HeadAt(h', |h|) == Head(h);
    LaidFits(cap, h', |h|);
    RetainedExactly(cap, h');
    if h != [] {
      RetainedExactly(cap, h);
      var k, k' := Evicted(cap, h), Evicted(cap, h');
      assert k' < |h| ==> h'[k'] == h[k'];
      if k < k' {
        Ordered(cap, h', k, k');
      }
      FirstFromUnique(h', Floor(cap, e.End()), k, k');
    } else {
      FirstFromUnique(h', Floor(cap, e.End()), 0, Evicted(cap, h'));
    }
  }

  lemma {:induction false} FirstFromUnique(h: seq<Entry>, floor: nat, k: nat, n: nat)
    requires k <= n < |h| && h[n].start >= floor
    requires forall i | k <= i < n :: h[i].start < floor
    ensures FirstFrom(h, floor, k) == n
    decreases n - k
  {
    if k == n {
    } else {
      FirstFromUnique(h, floor, k + 1, n);
    }
  }

  /** Every multiple of the capacity below the head is the start of a record. */
  lemma {:induction false} MultipleIsStart(cap: nat, h: seq<Entry>, n: nat, a: nat) returns (i: nat)
    requires Laid(cap, h) && n <= |h| && a % cap == 0 && a < HeadAt(h, n)
    ensures i < n && h[i].start == a
  {
    var e := h[n - 1];
    LaidFits(cap, h, n - 1);
    if a < HeadAt(h, n - 1) {
      i := MultipleIsStart(cap, h, n - 1, a);
    } else {
      if a < e.start {
        ModDistinct(a, e.start, cap);
      } else if a > e.start {
        ModAdd(e.start, a - e.start, cap);
      }
      i := n - 1;
    }
  }
}
