/** The 95th percentile of the acknowledgement latencies in a notification observation. */
module Percentile {
  import opened Sets
  import opened Wrappers

  /** A JSON value; a boolean is kept apart although it is an integer to the modelled language. */
  datatype Json = Integer(n: int) | Boolean(b: bool) | OtherJson

  /** An audit event in scope: whether it is an acknowledgement, its latency, and its time if that parses. */
  datatype Event = Event(isAck: bool, latency: Json, occurredAt: Option<int>)

  datatype Error = AckLatencyInvalid | TimestampInvalid | AckMissing

  function ErrorOf(e: Event): Option<Error> {
    if !e.isAck then None
    else if !e.latency.Integer? || !(1 <= e.latency.n <= 60_000) then Some(AckLatencyInvalid)
    else if e.occurredAt.None? then Some(TimestampInvalid)
    else None
  }

  /** The latencies of acknowledgements without an error, in order. */
  function Acks(es: seq<Event>): seq<int> {
    if es == [] then [] else
      var last := es[|es| - 1];
      Acks(es[..|es| - 1]) + if last.isAck && ErrorOf(last).None? then [last.latency.n] else []
  }

  /** Event `i` is the first with an error. */
  predicate FirstError(es: seq<Event>, i: nat) {
    i < |es| && ErrorOf(es[i]).Some? && forall j | 0 <= j < i :: ErrorOf(es[j]).None?
  }

  predicate AllValid(es: seq<Event>) {
    forall e | e in es :: ErrorOf(e).None?
  }

  // ---- sorting ----

  predicate IsSorted(s: seq<int>) {
    forall i, j | 0 <= i < j < |s| :: s[i] <= s[j]
  }

  function Insert(x: int, s: seq<int>): seq<int> {
    if s == [] || x <= s[0] then [x] + s else [s[0]] + Insert(x, s[1..])
  }

  function Sort(s: seq<int>): seq<int> {
    if s == [] then [] else Insert(s[0], Sort(s[1..]))
  }

  lemma {:induction false} InsertKeepsAll(x: int, s: seq<int>)
    ensures multiset(Insert(x, s)) == multiset{x} + multiset(s)
  {
    if s == [] || x <= s[0] {
    } else {
      InsertKeepsAll(x, s[1..]);
      assert s == [s[0]] + s[1..];
    }
  }

  lemma PrependSorted(x: int, s: seq<int>)
    requires IsSorted(s) && forall y | y in multiset(s) :: x <= y
    ensures IsSorted([x] + s)
  {
    assert forall i | 0 <= i < |s| :: s[i] in multiset(s);
  }

  lemma {:induction false} InsertSorts(x: int, s: seq<int>)
    requires IsSorted(s)
    ensures IsSorted(Insert(x, s))
  {
    if s == [] || x <= s[0] {
      PrependSorted(x, s);
    } else {
      InsertSorts(x, s[1..]);
      InsertKeepsAll(x, s[1..]);
      PrependSorted(s[0], Insert(x, s[1..]));
    }
  }

  lemma {:induction false} SortSorts(s: seq<int>)
    ensures IsSorted(Sort(s)) && multiset(Sort(s)) == multiset(s) && |Sort(s)| == |s|
  {
    if s == [] {
    } else {
      SortSorts(s[1..]);
      InsertSorts(s[0], Sort(s[1..]));
      InsertKeepsAll(s[0], Sort(s[1..]));
      assert s == [s[0]] + s[1..];
    }
    assert |multiset(Sort(s))| == |multiset(s)|;
  }

  lemma HeadIsLeast(a: seq<int>, b: seq<int>)
    requires IsSorted(a) && a != [] && b != [] && multiset(a) == multiset(b)
    ensures a[0] <= b[0]
  {
    assert b[0] in multiset(a);
  }

  lemma TailMultiset(a: seq<int>)
    requires a != []
    ensures multiset(a[1..]) == multiset(a) - multiset{a[0]}
  {
    assert a == [a[0]] + a[1..];
  }

  /** There is one sorted arrangement, so it does not matter how `list.sort` finds it. */
  lemma {:induction false} SortedIsUnique(a: seq<int>, b: seq<int>)
    requires IsSorted(a) && IsSorted(b) && multiset(a) == multiset(b)
    ensures a == b
  {
    assert |multiset(a)| == |a| && |multiset(b)| == |b|;
    if a == [] {
    } else {
      HeadIsLeast(a, b);
      HeadIsLeast(b, a);
      TailMultiset(a);
      TailMultiset(b);
      SortedIsUnique(a[1..], b[1..]);
      assert a == [a[0]] + a[1..] && b == [b[0]] + b[1..];
    }
  }

  // ---- the nearest rank ----

  /** `max(0, (95 * n + 99) // 100 - 1)` */
  function P95Index(n: nat): nat {
    var i := (95 * n + 99) / 100 - 1;
    if i < 0 then 0 else i
  }

  lemma P95IndexBounds(n: nat)
    requires n > 0
    ensures P95Index(n) < n && 100 * P95Index(n) < 95 * n <= 100 * (P95Index(n) + 1)
  {
  }

  function P95(s: seq<int>): int
    requires s != []
  {
    SortSorts(s);
    P95IndexBounds(|s|);
    Sort(s)[P95Index(|s|)]
  }

  function CountAtMost(s: seq<int>, v: int): nat {
    if s == [] then 0 else (if s[0] <= v then 1 else 0) + CountAtMost(s[1..], v)
  }

  function CountBelow(s: seq<int>, v: int): nat {
    if s == [] then 0 else (if s[0] < v then 1 else 0) + CountBelow(s[1..], v)
  }

  /** A value of the list that at least 95% of the list is no greater than, with strictly fewer than 95% below it. */
  predicate IsNearestRank(s: seq<int>, v: int) {
    v in s && 100 * CountAtMost(s, v) >= 95 * |s| && 100 * CountBelow(s, v) < 95 * |s|
  }

  lemma {:induction false} InsertCounts(x: int, s: seq<int>, v: int)
    ensures CountAtMost(Insert(x, s), v) == CountAtMost([x] + s, v)
    ensures CountBelow(Insert(x, s), v) == CountBelow([x] + s, v)
  {
    assert ([x] + s)[1..] == s;
    if s == [] || x <= s[0] {
    } else {
      InsertCounts(x, s[1..], v);
      assert ([x] + s[1..])[1..] == s[1..];
      assert ([s[0]] + Insert(x, s[1..]))[1..] == Insert(x, s[1..]);
    }
  }

  lemma {:induction false} SortCounts(s: seq<int>, v: int)
    ensures CountAtMost(Sort(s), v) == CountAtMost(s, v) && CountBelow(Sort(s), v) == CountBelow(s, v)
  {
    if s == [] {
    } else {
      SortCounts(s[1..], v);
      InsertCounts(s[0], Sort(s[1..]), v);
      assert ([s[0]] + Sort(s[1..]))[1..] == Sort(s[1..]);
    }
  }

  lemma {:induction false} ManyAtMost(s: seq<int>, v: int, k: nat)
    requires k <= |s| && forall j | 0 <= j < k :: s[j] <= v
    ensures CountAtMost(s, v) >= k
  {
    if k == 0 {
    } else {
      ManyAtMost(s[1..], v, k - 1);
    }
  }

  lemma {:induction false} FewBelow(s: seq<int>, v: int, k: nat)
    requires k <= |s| && forall j | k <= j < |s| :: s[j] >= v
    ensures CountBelow(s, v) <= k
  {
    if s == [] {
    } else {
      FewBelow(s[1..], v, if k == 0 then 0 else k - 1);
    }
  }

  lemma {:induction false} BelowCoversAtMost(s: seq<int>, v: int, w: int)
    requires v < w
    ensures CountAtMost(s, v) <= CountBelow(s, w)
  {
    if s == [] {
    } else {
      BelowCoversAtMost(s[1..], v, w);
    }
  }

  lemma RankInSorted(t: seq<int>, k: nat)
    requires IsSorted(t) && k < |t|
    ensures CountAtMost(t, t[k]) >= k + 1 && CountBelow(t, t[k]) <= k
  {
    ManyAtMost(t, t[k], k + 1);
    FewBelow(t, t[k], k);
  }

  lemma P95HasRank(s: seq<int>)
    requires s != []
    ensures IsNearestRank(s, P95(s))
  {
    var t, p, k := Sort(s), P95(s), P95Index(|s|);
    SortSorts(s);
    P95IndexBounds(|s|);
    assert p in multiset(t);
    RankInSorted(t, k);
    SortCounts(s, p);
  }

  lemma RankIsUnique(s: seq<int>, v: int, w: int)
    requires IsNearestRank(s, v) && IsNearestRank(s, w)
    ensures v == w
  {
    if v < w {
      BelowCoversAtMost(s, v, w);
    } else if w < v {
      BelowCoversAtMost(s, w, v);
    }
  }

  /** The reported value is the nearest-rank percentile, and nothing else is. */
  lemma P95IsNearestRank(s: seq<int>, v: int)
    requires s != []
    ensures P95(s) == v <==> IsNearestRank(s, v)
  {
    P95HasRank(s);
    if IsNearestRank(s, v) {
      RankIsUnique(s, P95(s), v);
    }
  }

  // ---- the observation ----

  /** The percentile over the events, or the first error. */
  function Report(es: seq<Event>): Result<int, Error> {
    if exists i: nat | i < |es| :: FirstError(es, i) then
      var i: nat :| i < |es| && FirstError(es, i);
      Err(ErrorOf(es[i]).value)
    else if Acks(es) == [] then Err(AckMissing)
    else Ok(P95(Acks(es)))
  }

  method NotificationP95(es: seq<Event>) returns (result: Result<int, Error>)
    ensures result == Report(es)
  {
    var values: seq<int> := [];
    for i := 0 to |es|
      invariant values == Acks(es[..i])
      invariant forall j | 0 <= j < i :: ErrorOf(es[j]).None?
    {
      assert es[..i + 1][..i] == es[..i];
      if es[i].isAck {
        if !es[i].latency.Integer? || !(1 <= es[i].latency.n <= 60_000) {
          assert FirstError(es, i);
          return Err(AckLatencyInvalid);
        }
        if es[i].occurredAt.None? {
          assert FirstError(es, i);
          return Err(TimestampInvalid);
        }
        values := values + [es[i].latency.n];
      }
    }
    assert es[..|es|] == es;
    if values == [] {
      return Err(AckMissing);
    }
    SortSorts(values);
    P95IndexBounds(|values|);
    var sorted := Sort(values);
    result := Ok(sorted[P95Index(|values|)]);
  }

  lemma {:induction false} FindError(es: seq<Event>) returns (i: nat)
    requires !AllValid(es)
    ensures FirstError(es, i)
  {
    var init := es[..|es| - 1];
    assert es == init + [es[|es| - 1]];
    if AllValid(init) {
      i := |es| - 1;
      assert forall j | 0 <= j < i :: es[j] in init;
    } else {
      i := FindError(init);
      assert forall j | 0 <= j <= i :: es[j] == init[j];
    }
  }

  /** A percentile is reported exactly when no acknowledgement is malformed and there is one. */
  lemma ReportIff(es: seq<Event>)
    ensures Report(es).Ok? <==> AllValid(es) && Acks(es) != []
    ensures Report(es).Ok? ==> IsNearestRank(Acks(es), Report(es).value)
  {
    if !AllValid(es) {
      var i := FindError(es);
    } else if Acks(es) != [] {
      P95IsNearestRank(Acks(es), P95(Acks(es)));
    }
  }

  // ---- the observation, from its events alone ----

  /** An acknowledgement with a latency of `low` to `high` milliseconds. */
  predicate AckIn(e: Event, low: int, high: int) {
    e.isAck && e.latency.Integer? && low <= e.latency.n <= high
  }

  function AckPlaces(es: seq<Event>, low: int, high: int): nat -> bool {
    (i: nat) => i < |es| && AckIn(es[i], low, high)
  }

  /** How many acknowledgements have such a latency. */
  function AckCount(es: seq<Event>, low: int, high: int): nat {
    |set i: nat | i < |es| && AckIn(es[i], low, high)|
  }

  lemma AckCountOfSnoc(es: seq<Event>, low: int, high: int)
    requires es != []
    ensures AckCount(es, low, high) == AckCount(es[..|es| - 1], low, high) + if AckIn(es[|es| - 1], low, high) then 1 else 0
  {
    var n := |es| - 1;
    var now, before := AckPlaces(es, low, high), AckPlaces(es[..n], low, high);
    BelowNext(now, n);
    BelowSame(now, before, n);
    assert (set i: nat | i < |es| && AckIn(es[i], low, high)) == Below(now, n + 1);
    assert (set i: nat | i < n && AckIn(es[..n][i], low, high)) == Below(before, n);
  }

  lemma {:induction false} CountsOfSnoc(s: seq<int>, x: int, v: int)
    ensures CountAtMost(s + [x], v) == CountAtMost(s, v) + if x <= v then 1 else 0
    ensures CountBelow(s + [x], v) == CountBelow(s, v) + if x < v then 1 else 0
  {
    if s == [] {
      assert s + [x] == [x];
    } else {
      assert (s + [x])[1..] == s[1..] + [x];
      CountsOfSnoc(s[1..], x, v);
    }
  }

  lemma {:induction false} AcksCounted(es: seq<Event>, v: int)
    requires AllValid(es)
    ensures |Acks(es)| == AckCount(es, 1, 60_000)
    ensures CountAtMost(Acks(es), v) == AckCount(es, 1, v) && CountBelow(Acks(es), v) == AckCount(es, 1, v - 1)
  {
    if es == [] {
    } else {
      var n := |es| - 1;
      assert es == es[..n] + [es[n]] && es[n] in es;
      AcksCounted(es[..n], v);
      AckCountOfSnoc(es, 1, 60_000);
      AckCountOfSnoc(es, 1, v);
      AckCountOfSnoc(es, 1, v - 1);
      if es[n].isAck {
        CountsOfSnoc(Acks(es[..n]), es[n].latency.n, v);
      } else {
        assert Acks(es) == Acks(es[..n]);
      }
    }
  }

  lemma {:induction false} AckedValues(es: seq<Event>, v: int)
    requires AllValid(es)
    ensures v in Acks(es) <==> exists e | e in es :: AckIn(e, v, v)
  {
    if es == [] {
    } else {
      var n := |es| - 1;
      assert es == es[..n] + [es[n]] && es[n] in es;
      AckedValues(es[..n], v);
    }
  }

  /** An acknowledgement whose latency or time cannot be used. */
  predicate BadLatency(e: Event) {
    e.isAck && !AckIn(e, 1, 60_000)
  }

  predicate BadTime(e: Event) {
    AckIn(e, 1, 60_000) && e.occurredAt.None?
  }

  lemma ValidIff(es: seq<Event>)
    ensures AllValid(es) <==> forall e | e in es :: !BadLatency(e) && !BadTime(e)
  {
  }

  /**
    Exactly when `v` is reported: every acknowledgement is usable, one of them has the latency `v`, at least 95% of them
    are no slower and fewer than 95% are faster.
   */
  lemma ReportedIff(es: seq<Event>, v: int)
    ensures Report(es) == Ok(v)
       <==> && (forall e | e in es :: !BadLatency(e) && !BadTime(e))
            && (exists e | e in es :: AckIn(e, v, v))
            && 100 * AckCount(es, 1, v) >= 95 * AckCount(es, 1, 60_000) && 100 * AckCount(es, 1, v - 1) < 95 * AckCount(es, 1, 60_000)
  {
    ValidIff(es);
    ReportIff(es);
    if AllValid(es) {
      AcksCounted(es, v);
      AckedValues(es, v);
      if Acks(es) != [] {
        P95IsNearestRank(Acks(es), v);
        P95IsNearestRank(Acks(es), P95(Acks(es)));
      }
    }
  }

  lemma {:induction false} NoAcksIff(es: seq<Event>)
    requires AllValid(es)
    ensures Acks(es) == [] <==> forall e | e in es :: !e.isAck
  {
    if es == [] {
    } else {
      var n := |es| - 1;
      assert es == es[..n] + [es[n]];
      NoAcksIff(es[..n]);
    }
  }

  /** The error is that of the first unusable acknowledgement, its latency looked at before its time; without one, that there is none at all. */
  lemma ReportErrorIff(es: seq<Event>, i: nat)
    requires i < |es| && forall j | 0 <= j < i :: !BadLatency(es[j]) && !BadTime(es[j])
    ensures BadLatency(es[i]) ==> Report(es) == Err(AckLatencyInvalid)
    ensures BadTime(es[i]) ==> Report(es) == Err(TimestampInvalid)
  {
    if BadLatency(es[i]) || BadTime(es[i]) {
      assert FirstError(es, i);
    }
  }

  lemma MissingIff(es: seq<Event>)
    ensures Report(es) == Err(AckMissing) <==> forall e | e in es :: !e.isAck
  {
    ReportIff(es);
    if AllValid(es) {
      NoAcksIff(es);
    } else {
      var i := FindError(es);
      assert es[i].isAck && es[i] in es;
    }
  }

  lemma {:induction false} AcksOfConcat(a: seq<Event>, b: seq<Event>)
    ensures Acks(a + b) == Acks(a) + Acks(b)
  {
    if b == [] {
      assert a + b == a;
    } else {
      var n := |b| - 1;
      assert (a + b)[..|a + b| - 1] == a + b[..n];
      AcksOfConcat(a, b[..n]);
    }
  }

  lemma AcksAround(front: seq<Event>, e: Event, back: seq<Event>)
    ensures multiset(Acks(front + [e] + back)) == multiset(Acks(front + back)) + multiset(Acks([e]))
  {
    AcksOfConcat(front + [e], back);
    AcksOfConcat(front, [e]);
    AcksOfConcat(front, back);
  }

  lemma MultisetAround(front: seq<Event>, e: Event, back: seq<Event>)
    ensures multiset(front + back) == multiset(front + [e] + back) - multiset{e}
  {
  }

  lemma SplitAround(b: seq<Event>, e: Event) returns (front: seq<Event>, back: seq<Event>)
    requires e in multiset(b)
    ensures b == front + [e] + back
  {
    var j :| 0 <= j < |b| && b[j] == e;
    front, back := b[..j], b[j + 1..];
  }

  lemma {:induction false} AcksOfPermutation(a: seq<Event>, b: seq<Event>)
    requires multiset(a) == multiset(b)
    ensures multiset(Acks(a)) == multiset(Acks(b))
  {
    assert |multiset(a)| == |a| && |multiset(b)| == |b|;
    if a == [] {
    } else {
      var init, e := a[..|a| - 1], a[|a| - 1];
      assert a == init + [e] + [] && init + [] == init;
      MultisetAround(init, e, []);
      var front, back := SplitAround(b, e);
      MultisetAround(front, e, back);
      AcksOfPermutation(init, front + back);
      AcksAround(init, e, []);
      AcksAround(front, e, back);
    }
  }

  /** The order in which events arrive changes neither whether a percentile is reported nor which. */
  lemma ArrivalOrderIsIrrelevant(a: seq<Event>, b: seq<Event>)
    requires multiset(a) == multiset(b)
    ensures Report(a).Ok? <==> Report(b).Ok?
    ensures Report(a).Ok? ==> Report(a) == Report(b)
  {
    ReportIff(a);
    ReportIff(b);
    AcksOfPermutation(a, b);
    var x, y := Acks(a), Acks(b);
    assert AllValid(a) <==> AllValid(b) by {
      assert forall e :: e in a <==> e in multiset(a);
      assert forall e :: e in b <==> e in multiset(b);
    }
    assert |multiset(x)| == |x| && |multiset(y)| == |y|;
    if x != [] {
      SortSorts(x);
      SortSorts(y);
      SortedIsUnique(Sort(x), Sort(y));
    }
  }
}
