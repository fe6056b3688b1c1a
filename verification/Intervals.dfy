/** The interval union behind loss accounting. */
module Intervals {
  import opened Bytes

  datatype LossEvent = LossEvent(
    bufferId: u32, runId: u64, sourceId: u32, firstSeq: nat, lastSeq: nat, count: nat, synthetic: bool)

  predicate SameLossStream(a: LossEvent, b: LossEvent) {
    a.bufferId == b.bufferId && a.runId == b.runId && a.sourceId == b.sourceId
  }

  predicate RangesTouchOrOverlap(a: LossEvent, b: LossEvent) {
    b.firstSeq <= a.lastSeq + 1 && a.firstSeq <= b.lastSeq + 1
  }

  /** The two would be merged. */
  predicate Merges(a: LossEvent, b: LossEvent) {
    SameLossStream(a, b) && RangesTouchOrOverlap(a, b)
  }

  predicate Has(e: LossEvent, x: nat) {
    e.firstSeq <= x <= e.lastSeq
  }

  /** Range `i` lies within event `e` of its stream. */
  predicate Holds(e: LossEvent, i: LossEvent) {
    SameLossStream(e, i) && e.firstSeq <= i.firstSeq && i.lastSeq <= e.lastSeq
  }

  predicate Proper(e: LossEvent) {
    e.firstSeq <= e.lastSeq && e.count == e.lastSeq - e.firstSeq + 1
  }

  // ---- What a list of intervals should be ---------------------------------------------------

  /** Sequence number `x` of the stream of `e` is in one of the ranges. */
  ghost predicate Backed(ranges: set<LossEvent>, e: LossEvent, x: nat) {
    exists i :: i in ranges && SameLossStream(e, i) && Has(i, x)
  }

  ghost predicate HeldBy(events: seq<LossEvent>, i: LossEvent) {
    exists e :: e in events && Holds(e, i)
  }

  predicate Apart(events: seq<LossEvent>) {
    forall a, b | 0 <= a < b < |events| :: !Merges(events[a], events[b])
  }

  ghost predicate Covers(events: seq<LossEvent>, ranges: set<LossEvent>) {
    && (forall i | i in ranges :: HeldBy(events, i))
    && (forall e, x: nat | e in events && Has(e, x) :: Backed(ranges, e, x))
  }

  /** Every range within `e` is synthetic. */
  ghost predicate AllSynthetic(e: LossEvent, ranges: set<LossEvent>) {
    forall i | i in ranges && Holds(e, i) :: i.synthetic
  }

  /** The events are the interval union of the ranges: disjoint and non-adjacent within a stream, covering exactly the
  ranges, counted, and synthetic exactly when everything in them is. */
  ghost predicate UnionOf(events: seq<LossEvent>, ranges: set<LossEvent>) {
    && (forall e | e in events :: Proper(e))
    && Apart(events)
    && Covers(events, ranges)
    && (forall e | e in events :: e.synthetic <==> AllSynthetic(e, ranges))
  }

  // ---- There is only one union ------------------------------------------------------------------

  lemma NoneBetween(events: seq<LossEvent>, d: LossEvent, e: LossEvent)
    requires Apart(events) && d in events && e in events && Merges(d, e)
    ensures d == e
  {
    var a :| 0 <= a < |events| && events[a] == d;
    var b :| 0 <= b < |events| && events[b] == e;
  }

  /** The event of another union around the first number of `e`. */
  lemma Around(f: seq<LossEvent>, ranges: set<LossEvent>, e: LossEvent, x: nat) returns (d: LossEvent)
    requires UnionOf(f, ranges) && Backed(ranges, e, x)
    ensures d in f && SameLossStream(d, e) && Has(d, x)
  {
    var i :| i in ranges && SameLossStream(e, i) && Has(i, x);
    assert HeldBy(f, i);
    d :| d in f && Holds(d, i);
  }

  /** A number next to an event of a union is in no range of its stream. */
  lemma Outside(events: seq<LossEvent>, ranges: set<LossEvent>, e: LossEvent, x: nat)
    requires UnionOf(events, ranges) && e in events && (x + 1 == e.firstSeq || x == e.lastSeq + 1)
    ensures !Backed(ranges, e, x)
  {
    if Backed(ranges, e, x) {
      var d := Around(events, ranges, e, x);
      NoneBetween(events, d, e);
    }
  }

  /** Every event of one union is an event of the other. */
  lemma UnionMember(events: seq<LossEvent>, f: seq<LossEvent>, ranges: set<LossEvent>, e: LossEvent)
    requires UnionOf(events, ranges) && UnionOf(f, ranges) && e in events
    ensures e in f
  {
    hide Backed, HeldBy;
    assert Backed(ranges, e, e.firstSeq) by { assert Has(e, e.firstSeq); }
    var d := Around(f, ranges, e, e.firstSeq);
    if d.firstSeq < e.firstSeq {
      assert Has(d, e.firstSeq - 1);
      BackedSame(ranges, d, e, e.firstSeq - 1);
      Outside(events, ranges, e, e.firstSeq - 1);
    }
    if d.lastSeq > e.lastSeq {
      assert Has(d, e.lastSeq + 1);
      BackedSame(ranges, d, e, e.lastSeq + 1);
      Outside(events, ranges, e, e.lastSeq + 1);
    }
    if d.lastSeq < e.lastSeq {
      assert Has(e, d.lastSeq + 1);
      BackedSame(ranges, e, d, d.lastSeq + 1);
      Outside(f, ranges, d, d.lastSeq + 1);
    }
    assert d.firstSeq == e.firstSeq && d.lastSeq == e.lastSeq;
    assert AllSynthetic(e, ranges) == AllSynthetic(d, ranges);
  }

  lemma BackedSame(ranges: set<LossEvent>, d: LossEvent, e: LossEvent, x: nat)
    requires Backed(ranges, d, x) && SameLossStream(d, e)
    ensures Backed(ranges, e, x)
  {
  }

  /** The union does not depend on how it was reached: two unions of the same ranges have the same events. */
  lemma UnionUnique(events: seq<LossEvent>, f: seq<LossEvent>, ranges: set<LossEvent>)
    requires UnionOf(events, ranges) && UnionOf(f, ranges)
    ensures forall e :: e in events <==> e in f
  {
    hide UnionOf;
    forall e
      ensures e in events <==> e in f
    {
      if e in events {
        UnionMember(events, f, ranges, e);
      }
      if e in f {
        UnionMember(f, events, ranges, e);
      }
    }
  }

  // ---- Sorting --------------------------------------------------------------------------------

  type Order = (LossEvent, LossEvent) -> bool

  /** Puts `e` behind everything that does not come after it. */
  function InsertBy(s: seq<LossEvent>, e: LossEvent, le: Order): (r: seq<LossEvent>)
    ensures multiset(r) == multiset(s) + multiset{e}
  {
    if s == [] then [e]
    else
      var n := |s| - 1;
      assert s == s[..n] + [s[n]];
      if le(s[n], e) then s + [e] else InsertBy(s[..n], e, le) + [s[n]]
  }

  /** The stable sort of the standard library. */
  function SortBy(s: seq<LossEvent>, le: Order): (r: seq<LossEvent>)
    ensures multiset(r) == multiset(s)
  {
    if s == [] then []
    else
      var n := |s| - 1;
      assert s == s[..n] + [s[n]];
      InsertBy(SortBy(s[..n], le), s[n], le)
  }

  ghost predicate TotalOrder(le: Order) {
    && (forall a, b :: le(a, b) || le(b, a))
    && (forall a, b, c :: le(a, b) && le(b, c) ==> le(a, c))
  }

  ghost predicate SortedBy(s: seq<LossEvent>, le: Order) {
    forall i, j | 0 <= i < j < |s| :: le(s[i], s[j])
  }

  lemma {:induction false} InsertSorted(s: seq<LossEvent>, e: LossEvent, le: Order)
    requires TotalOrder(le) && SortedBy(s, le)
    ensures SortedBy(InsertBy(s, e, le), le)
  {
    hide TotalOrder;
    if s == [] {
    } else {
      var n := |s| - 1;
      if le(s[n], e) {
        UpTo(s, e, le);
        SortedAppend(s, e, le);
      } else {
        InsertSorted(s[..n], e, le);
        InsertBelow(s, e, le);
        SortedAppend(InsertBy(s[..n], e, le), s[n], le);
      }
    }
  }

  lemma SortedAppend(s: seq<LossEvent>, e: LossEvent, le: Order)
    requires SortedBy(s, le) && forall i | 0 <= i < |s| :: le(s[i], e)
    ensures SortedBy(s + [e], le)
  {
  }

  /** What is not before the last of a sorted list is before none of it. */
  lemma UpTo(s: seq<LossEvent>, e: LossEvent, le: Order)
    requires TotalOrder(le) && SortedBy(s, le) && s != [] && le(s[|s| - 1], e)
    ensures forall i | 0 <= i < |s| :: le(s[i], e)
  {
    var n := |s| - 1;
    forall i | 0 <= i < n
      ensures le(s[i], e)
    {
      assert le(s[i], s[n]);
    }
  }

  /** Nothing that is inserted before the last of a sorted list comes after it. */
  lemma InsertBelow(s: seq<LossEvent>, e: LossEvent, le: Order)
    requires TotalOrder(le) && SortedBy(s, le) && s != [] && !le(s[|s| - 1], e)
    ensures var n := |s| - 1; forall i | 0 <= i < |InsertBy(s[..n], e, le)| :: le(InsertBy(s[..n], e, le)[i], s[n])
  {
    hide InsertBy;
    var n := |s| - 1;
    var r := InsertBy(s[..n], e, le);
    assert le(e, s[n]);
    forall i | 0 <= i < |r|
      ensures le(r[i], s[n])
    {
      assert r[i] in multiset(r);
      assert r[i] in multiset(s[..n]) + multiset{e};
    }
  }

  lemma {:induction false} SortSorted(s: seq<LossEvent>, le: Order)
    requires TotalOrder(le)
    ensures SortedBy(SortBy(s, le), le)
  {
    if s == [] {
    } else {
      SortSorted(s[..|s| - 1], le);
      InsertSorted(SortBy(s[..|s| - 1], le), s[|s| - 1], le);
    }
  }

  lemma SortMembers(s: seq<LossEvent>, le: Order, e: LossEvent)
    ensures e in SortBy(s, le) <==> e in s
  {
    assert e in SortBy(s, le) <==> e in multiset(SortBy(s, le));
    assert e in s <==> e in multiset(s);
  }

  /** Report order: buffer, run, source, first, last. */
  predicate ReportLe(a: LossEvent, b: LossEvent) {
    if a.bufferId != b.bufferId then a.bufferId < b.bufferId
    else if a.runId != b.runId then a.runId < b.runId
    else if a.sourceId != b.sourceId then a.sourceId < b.sourceId
    else if a.firstSeq != b.firstSeq then a.firstSeq < b.firstSeq
    else a.lastSeq <= b.lastSeq
  }

  /** The columns a report is sorted by. */
  function Columns(e: LossEvent): seq<nat> {
    [e.bufferId, e.runId, e.sourceId, e.firstSeq, e.lastSeq]
  }

  /** `a` is not after `b`: they are equal, or `a` is smaller in the first column in which they differ. */
  predicate NotAfter(a: seq<nat>, b: seq<nat>)
    requires |a| == |b|
  {
    a == b || exists i | 0 <= i < |a| :: a[i] < b[i] && forall j | 0 <= j < i :: a[j] == b[j]
  }

  /** Reports are in lexicographic order of buffer, run, source, first and last number. */
  lemma ReportLexicographic(a: LossEvent, b: LossEvent)
    ensures ReportLe(a, b) <==> NotAfter(Columns(a), Columns(b))
  {
    var x, y := Columns(a), Columns(b);
    if ReportLe(a, b) && x != y {
      var i := if x[0] != y[0] then 0 else if x[1] != y[1] then 1 else if x[2] != y[2] then 2
               else if x[3] != y[3] then 3 else 4;
      assert x[i] < y[i] && forall j | 0 <= j < i :: x[j] == y[j];
    }
    if i: nat :| i < |x| && x[i] < y[i] && forall j | 0 <= j < i :: x[j] == y[j] {
      assert i > 0 ==> x[0] == y[0];
      assert i > 1 ==> x[1] == y[1];
      assert i > 2 ==> x[2] == y[2];
      assert i > 3 ==> x[3] == y[3];
    }
  }

  predicate FirstLe(a: LossEvent, b: LossEvent) {
    a.firstSeq <= b.firstSeq
  }

  lemma ReportOrder()
    ensures TotalOrder(ReportLe)
  {
  }

  lemma FirstOrder()
    ensures TotalOrder(FirstLe)
  {
  }

  /** Members of a list that compare both ways are the same member. */
  ghost predicate Strict(s: seq<LossEvent>) {
    && (forall i, j | 0 <= i < j < |s| :: s[i] != s[j])
    && (forall d, e | d in s && e in s && ReportLe(d, e) && ReportLe(e, d) :: d == e)
  }

  /** A list without ties has one sorted order. */
  lemma {:induction false} SortedUnique(a: seq<LossEvent>, b: seq<LossEvent>)
    requires SortedBy(a, ReportLe) && SortedBy(b, ReportLe) && Strict(a) && Strict(b)
    requires forall e :: e in a <==> e in b
    ensures a == b
  {
    assert b != [] ==> b[0] in b;
    if a == [] {
    } else {
      assert a[0] in b;
      assert b[0] in a;
      assert ReportLe(a[0], a[0]) && ReportLe(b[0], b[0]);
      assert a[0] == b[0];
      TailMembers(a, b);
      SortedUnique(a[1..], b[1..]);
      assert a == [a[0]] + a[1..] && b == [b[0]] + b[1..];
    }
  }

  lemma TailMembers(a: seq<LossEvent>, b: seq<LossEvent>)
    requires a != [] && b != [] && a[0] == b[0] && Strict(a) && Strict(b) && forall e :: e in a <==> e in b
    ensures Strict(a[1..]) && Strict(b[1..]) && forall e :: e in a[1..] <==> e in b[1..]
  {
    forall e
      ensures e in a[1..] <==> e in b[1..]
    {
      TailMember(a, e);
      TailMember(b, e);
    }
    StrictTail(a);
    StrictTail(b);
  }

  lemma TailMember(a: seq<LossEvent>, e: LossEvent)
    requires a != [] && Strict(a)
    ensures e in a[1..] <==> e in a && e != a[0]
  {
    if e in a[1..] {
      var i :| 0 <= i < |a| - 1 && a[1..][i] == e;
      assert a[i + 1] == e;
    }
    if e in a && e != a[0] {
      var i :| 0 <= i < |a| && a[i] == e;
      assert a[1..][i - 1] == e;
    }
  }

  lemma StrictTail(a: seq<LossEvent>)
    requires a != [] && Strict(a)
    ensures Strict(a[1..])
  {
    forall d, e | d in a[1..] && e in a[1..] && ReportLe(d, e) && ReportLe(e, d)
      ensures d == e
    {
      TailMember(a, d);
      TailMember(a, e);
    }
  }

  /** A union has no ties. */
  lemma UnionStrict(events: seq<LossEvent>, ranges: set<LossEvent>)
    requires UnionOf(events, ranges)
    ensures Strict(events)
  {
    hide Covers;
    forall a, b | 0 <= a < b < |events|
      ensures events[a] != events[b]
    {
      assert Proper(events[a]);
      assert !Merges(events[a], events[b]);
    }
    forall d, e | d in events && e in events && ReportLe(d, e) && ReportLe(e, d)
      ensures d == e
    {
      assert Proper(d) && Proper(e);
      NoneBetween(events, d, e);
    }
  }

  lemma NoRepeats(s: seq<LossEvent>, r: seq<LossEvent>)
    requires multiset(s) == multiset(r) && forall i, j | 0 <= i < j < |s| :: s[i] != s[j]
    ensures forall i, j | 0 <= i < j < |r| :: r[i] != r[j]
  {
    forall i, j | 0 <= i < j < |r|
      ensures r[i] != r[j]
    {
      if r[i] == r[j] {
        AtLeastTwice(r, i, j);
        AtMostOnce(s, r[i]);
      }
    }
  }

  lemma AtLeastTwice(r: seq<LossEvent>, i: nat, j: nat)
    requires i < j < |r| && r[i] == r[j]
    ensures multiset(r)[r[i]] >= 2
  {
    assert r == r[..j] + [r[j]] + r[j + 1..];
    assert r[..j][i] == r[i];
    assert r[i] in multiset(r[..j]);
  }

  lemma {:induction false} AtMostOnce(s: seq<LossEvent>, e: LossEvent)
    requires forall i, j | 0 <= i < j < |s| :: s[i] != s[j]
    ensures multiset(s)[e] <= 1
  {
    if s == [] {
    } else {
      var n := |s| - 1;
      assert s == s[..n] + [s[n]];
      AtMostOnce(s[..n], e);
      if s[n] == e {
        assert e !in s[..n];
      }
    }
  }

  // ---- Inserting a range --------------------------------------------------------------------------

  /** `h` is the union of the intervals in `s`, all of one stream. */
  ghost predicate Hull(h: LossEvent, s: seq<LossEvent>) {
    && Proper(h)
    && (forall i | i in s :: Holds(h, i))
    && (forall x: nat | Has(h, x) :: SomeHas(s, x))
    && (h.synthetic <==> forall i | i in s :: i.synthetic)
  }

  ghost predicate SomeHas(s: seq<LossEvent>, x: nat) {
    exists i :: i in s && Has(i, x)
  }

  /** Merging one more interval that touches the hull. */
  function Joined(h: LossEvent, i: LossEvent): LossEvent {
    var first, last := Min(h.firstSeq, i.firstSeq), Max(h.lastSeq, i.lastSeq);
    h.(firstSeq := first, lastSeq := last, count := Max(last - first + 1, 0), synthetic := h.synthetic && i.synthetic)
  }

  lemma HullStep(h: LossEvent, s: seq<LossEvent>, j: nat)
    requires j < |s| && Hull(h, s[..j]) && Proper(s[j]) && Merges(h, s[j])
    ensures Hull(Joined(h, s[j]), s[..j + 1])
  {
    var g, t := Joined(h, s[j]), s[..j + 1];
    assert t == s[..j] + [s[j]];
    forall x: nat | Has(g, x)
      ensures SomeHas(t, x)
    {
      if Has(h, x) {
        assert SomeHas(s[..j], x);
        var i :| i in s[..j] && Has(i, x);
        assert i in t;
      } else {
        assert Has(s[j], x) && s[j] in t;
      }
    }
  }

  lemma HullOne(s: seq<LossEvent>)
    requires s != [] && Proper(s[0])
    ensures Hull(s[0], s[..1])
  {
    assert s[..1] == [s[0]];
    forall x: nat | Has(s[0], x)
      ensures SomeHas(s[..1], x)
    {
      assert s[0] in s[..1];
    }
  }

  /** Everything to be merged touches the inserted event, which is among them. */
  ghost predicate Bundle(s: seq<LossEvent>, event: LossEvent) {
    && (forall i | i in s :: Proper(i) && Merges(i, event))
    && event in s
    && SortedBy(s, FirstLe)
  }

  /** In a sorted bundle every interval touches the hull of those before it. */
  lemma Chained(s: seq<LossEvent>, event: LossEvent, h: LossEvent, j: nat)
    requires Bundle(s, event) && 0 < j < |s| && Hull(h, s[..j]) && h.firstSeq == s[0].firstSeq
    ensures Merges(h, s[j])
  {
    var p :| 0 <= p < |s| && s[p] == event;
    assert s[..j][j - 1] in s[..j] && s[j - 1] in s && s[j] in s;
    assert Holds(h, s[j - 1]);
    assert s[0].firstSeq <= s[j].firstSeq;
    if p < j {
      assert s[..j][p] in s[..j];
    } else if p > j {
      assert s[j].firstSeq <= s[p].firstSeq;
    }
  }

  /** The merge loop: a sorted bundle collapses to its hull. */
  method MergeSorted(s: seq<LossEvent>, ghost event: LossEvent) returns (merged: seq<LossEvent>)
    requires Bundle(s, event)
    ensures |merged| == 1 && Hull(merged[0], s)
  {
    hide Hull, Bundle;
    merged := [];
    for j := 0 to |s|
      invariant j == 0 ==> merged == []
      invariant j > 0 ==> |merged| == 1 && Hull(merged[0], s[..j]) && merged[0].firstSeq == s[0].firstSeq
    {
      BundleMember(s, event, j);
      if j == 0 {
        HullOne(s);
      } else {
        Chained(s, event, merged[0], j);
        HullStep(merged[0], s, j);
        FirstStays(s, event, j);
      }
      if |merged| > 0 && RangesTouchOrOverlap(merged[|merged| - 1], s[j]) {
        merged := merged[..|merged| - 1] + [Joined(merged[|merged| - 1], s[j])];
      } else {
        merged := merged + [s[j]];
      }
    }
    assert s[..|s|] == s;
    NotEmpty(s, event);
  }

  lemma BundleMember(s: seq<LossEvent>, event: LossEvent, j: nat)
    requires Bundle(s, event) && j < |s|
    ensures Proper(s[j])
  {
    assert s[j] in s;
  }

  lemma FirstStays(s: seq<LossEvent>, event: LossEvent, j: nat)
    requires Bundle(s, event) && 0 < j < |s|
    ensures s[0].firstSeq <= s[j].firstSeq
  {
  }

  lemma NotEmpty(s: seq<LossEvent>, event: LossEvent)
    requires Bundle(s, event)
    ensures s != []
  {
  }

  /** `s` holds the inserted event and the events it merges with; `kept` holds the others. */
  ghost predicate Split(events: seq<LossEvent>, event: LossEvent, kept: seq<LossEvent>, s: seq<LossEvent>) {
    && Apart(kept)
    && (forall e :: e in kept <==> e in events && !Merges(e, event))
    && (forall e :: e in s <==> e == event || (e in events && Merges(e, event)))
  }

  /** A kept interval does not touch the hull. */
  lemma KeptApart(events: seq<LossEvent>, event: LossEvent, kept: seq<LossEvent>, s: seq<LossEvent>, h: LossEvent,
                  k: LossEvent)
    requires Apart(events) && Split(events, event, kept, s) && Hull(h, s) && k in kept
    requires forall e | e in events :: Proper(e)
    ensures !Merges(k, h)
  {
    if Merges(k, h) {
      var x := Max(h.firstSeq, k.firstSeq - 1);
      assert Has(h, x);
      assert SomeHas(s, x);
      var i :| i in s && Has(i, x);
      assert Holds(h, i) && Merges(k, i);
      if i != event {
        NoneBetween(events, k, i);
        assert false;
      }
    }
  }

  lemma InsertApart(events: seq<LossEvent>, event: LossEvent, kept: seq<LossEvent>, s: seq<LossEvent>, h: LossEvent)
    requires Apart(events) && Split(events, event, kept, s) && Hull(h, s) && forall e | e in events :: Proper(e)
    ensures Apart(kept + [h])
  {
    hide Hull, Split, Merges;
    var f := kept + [h];
    assert Apart(kept) by { SplitApart(events, event, kept, s); }
    forall a, b | 0 <= a < b < |f|
      ensures !Merges(f[a], f[b])
    {
      if b == |kept| {
        KeptApart(events, event, kept, s, h, kept[a]);
      }
    }
  }

  lemma SplitApart(events: seq<LossEvent>, event: LossEvent, kept: seq<LossEvent>, s: seq<LossEvent>)
    requires Split(events, event, kept, s)
    ensures Apart(kept)
  {
  }

  lemma InsertHolds(events: seq<LossEvent>, ranges: set<LossEvent>, event: LossEvent, kept: seq<LossEvent>,
                    s: seq<LossEvent>, h: LossEvent, i: LossEvent)
    requires Covers(events, ranges) && Split(events, event, kept, s) && Hull(h, s) && i in ranges + {event}
    ensures HeldBy(kept + [h], i)
  {
    var f := kept + [h];
    assert h in f;
    if i in ranges {
      assert HeldBy(events, i);
      var e :| e in events && Holds(e, i);
      if e in kept {
        assert e in f;
      } else {
        assert e in s && Holds(h, e) && Holds(h, i);
      }
    } else {
      assert event in s;
    }
  }

  lemma InsertBacked(events: seq<LossEvent>, ranges: set<LossEvent>, event: LossEvent, kept: seq<LossEvent>,
                     s: seq<LossEvent>, h: LossEvent, e: LossEvent, x: nat)
    requires Covers(events, ranges) && Split(events, event, kept, s) && Hull(h, s)
    requires e in kept + [h] && Has(e, x)
    ensures Backed(ranges + {event}, e, x)
  {
    if e in kept {
      assert Backed(ranges, e, x);
      var i :| i in ranges && SameLossStream(e, i) && Has(i, x);
      assert i in ranges + {event};
    } else {
      assert SomeHas(s, x);
      var d :| d in s && Has(d, x);
      assert Holds(h, d);
      if d == event {
        assert d in ranges + {event};
      } else {
        assert Backed(ranges, d, x);
        var i :| i in ranges && SameLossStream(d, i) && Has(i, x);
        assert i in ranges + {event};
      }
    }
  }

  /** The flag of an untouched interval: the inserted range is not within it. */
  lemma KeptFlag(events: seq<LossEvent>, ranges: set<LossEvent>, event: LossEvent, kept: seq<LossEvent>,
                 s: seq<LossEvent>, e: LossEvent)
    requires UnionOf(events, ranges) && Split(events, event, kept, s) && e in kept && Proper(event)
    ensures e.synthetic <==> AllSynthetic(e, ranges + {event})
  {
    assert AllSynthetic(e, ranges + {event}) <==> AllSynthetic(e, ranges) by {
      assert !Holds(e, event);
    }
  }

  /** The flag of the merged interval: exactly the ranges of the merged events and the new one lie within it. */
  lemma HullFlag(events: seq<LossEvent>, ranges: set<LossEvent>, event: LossEvent, kept: seq<LossEvent>,
                 s: seq<LossEvent>, h: LossEvent)
    requires UnionOf(events, ranges) && Split(events, event, kept, s) && Hull(h, s) && Proper(event)
    requires forall i | i in ranges :: Proper(i)
    ensures h.synthetic <==> AllSynthetic(h, ranges + {event})
  {
    if h.synthetic {
      forall i | i in ranges + {event} && Holds(h, i)
        ensures i.synthetic
      {
        if i in ranges {
          HullRange(events, ranges, event, kept, s, h, i);
        } else {
          assert event in s;
        }
      }
    }
    if AllSynthetic(h, ranges + {event}) {
      forall e | e in s
        ensures e.synthetic
      {
        assert Holds(h, e);
        if e != event {
          forall i | i in ranges && Holds(e, i)
            ensures i.synthetic
          {
            assert i in ranges + {event} && Holds(h, i);
          }
          assert AllSynthetic(e, ranges);
        } else {
          assert event in ranges + {event};
        }
      }
    }
  }

  /** A range within the hull is within one of the merged events. */
  lemma HullRange(events: seq<LossEvent>, ranges: set<LossEvent>, event: LossEvent, kept: seq<LossEvent>,
                  s: seq<LossEvent>, h: LossEvent, i: LossEvent)
    requires UnionOf(events, ranges) && Split(events, event, kept, s) && Hull(h, s) && Proper(i)
    requires i in ranges && Holds(h, i) && h.synthetic
    ensures i.synthetic
  {
    assert HeldBy(events, i);
    var e :| e in events && Holds(e, i);
    if e in kept {
      KeptApart(events, event, kept, s, h, e);
      assert false;
    }
    assert e in s && e.synthetic;
    assert AllSynthetic(e, ranges);
  }

  /** Inserting a range into a union gives the union with that range. */
  lemma InsertUnion(events: seq<LossEvent>, ranges: set<LossEvent>, event: LossEvent, kept: seq<LossEvent>,
                    s: seq<LossEvent>, h: LossEvent)
    requires UnionOf(events, ranges) && Split(events, event, kept, s) && Hull(h, s) && Proper(event)
    requires forall i | i in ranges :: Proper(i)
    ensures UnionOf(kept + [h], ranges + {event})
  {
    hide Hull, Split, AllSynthetic, Backed, HeldBy, Apart, Proper, Has;
    var f, all := kept + [h], ranges + {event};
    InsertApart(events, event, kept, s, h);
    forall i | i in all
      ensures HeldBy(f, i)
    {
      InsertHolds(events, ranges, event, kept, s, h, i);
    }
    forall e, x: nat | e in f && Has(e, x)
      ensures Backed(all, e, x)
    {
      InsertBacked(events, ranges, event, kept, s, h, e, x);
    }
    forall e | e in f
      ensures Proper(e) && (e.synthetic <==> AllSynthetic(e, all))
    {
      if e in kept {
        KeptProper(events, event, kept, s, e);
        KeptFlag(events, ranges, event, kept, s, e);
      } else {
        HullProper(h, s);
        HullFlag(events, ranges, event, kept, s, h);
      }
    }
  }

  lemma KeptProper(events: seq<LossEvent>, event: LossEvent, kept: seq<LossEvent>, s: seq<LossEvent>, e: LossEvent)
    requires Split(events, event, kept, s) && e in kept && forall e | e in events :: Proper(e)
    ensures Proper(e)
  {
  }

  lemma HullProper(h: LossEvent, s: seq<LossEvent>)
    requires Hull(h, s)
    ensures Proper(h)
  {
  }
}
