/** `get_unoptimized`: the events bordering each fragment, looked up in the
    calendar's event store within a tolerance around the fragment's ends. */
module Unoptimized {
  import opened Intervals

  datatype Option<T> = None | Some(value: T)

  type EventId = string

  /** Whether a query asks for an event ending in the range (`ends_after`,
      `ends_before`) or starting in it (`starts_after`, `starts_before`). */
  datatype Kind = EndsIn | StartsIn

  datatype Query = Query(kind: Kind, lo: int, hi: int)

  /** The event store: the id of the first event of the calendar matching a query,
      if there is one. */
  type EventStore = Query -> Option<EventId>

  function EndsNear(t: int): Query {
    Query(EndsIn, t - MatchTolerance, t + MatchTolerance)
  }

  function StartsNear(t: int): Query {
    Query(StartsIn, t - MatchTolerance, t + MatchTolerance)
  }

  /** The lookups made for one fragment: the event ending near its start unless
      it starts with the window, then the event starting near its end unless it
      ends with the window. */
  function BoundaryQueries(w: Interval, f: Interval): (qs: seq<Query>)
    ensures |qs| <= 2
    ensures EndsNear(f.start) in qs <==> f.start != w.start
    ensures StartsNear(f.end) in qs <==> f.end != w.end
    ensures forall q :: q in qs ==> q == EndsNear(f.start) || q == StartsNear(f.end)
    ensures |qs| == 2 ==> qs[0] == EndsNear(f.start) && qs[1] == StartsNear(f.end)
  {
    (if f.start != w.start then [EndsNear(f.start)] else [])
    + (if f.end != w.end then [StartsNear(f.end)] else [])
  }

  /** All lookups, fragment by fragment, in call order. */
  function Queries(w: Interval, frags: seq<Interval>): seq<Query> {
    if frags == [] then []
    else Queries(w, frags[..|frags| - 1]) + BoundaryQueries(w, frags[|frags| - 1])
  }

  /** The ids the event store answers, in call order; an empty answer adds nothing. */
  function Found(store: EventStore, qs: seq<Query>): seq<EventId> {
    if qs == [] then []
    else
      var last := store(qs[|qs| - 1]);
      Found(store, qs[..|qs| - 1]) + (if last.Some? then [last.value] else [])
  }

  /** The first occurrence of every id, in order. */
  function Dedup(xs: seq<EventId>): seq<EventId> {
    if xs == [] then []
    else
      var d := Dedup(xs[..|xs| - 1]);
      if xs[|xs| - 1] in d then d else d + [xs[|xs| - 1]]
  }

  predicate NoDuplicates(xs: seq<EventId>) {
    forall i, j :: 0 <= i < j < |xs| ==> xs[i] != xs[j]
  }

  /** The position of the first occurrence of `x` in `xs`. */
  function FirstIndex(xs: seq<EventId>, x: EventId): (k: nat)
    requires x in xs
    ensures k < |xs| && xs[k] == x && x !in xs[..k]
  {
    if xs[0] == x then 0 else 1 + FirstIndex(xs[1..], x)
  }

  method GetUnoptimized(store: EventStore, w: Interval, frags: seq<Interval>)
    returns (ids: seq<EventId>, calls: seq<Query>)
    ensures calls == Queries(w, frags)
    ensures ids == Dedup(Found(store, calls))
    ensures NoDuplicates(ids)
    ensures forall x :: x in ids <==> exists k :: 0 <= k < |calls| && store(calls[k]) == Some(x)
    ensures |calls| <= 2 * |frags|
  {
    ids, calls := [], [];
    for i := 0 to |frags|
      invariant calls == Queries(w, frags[..i])
      invariant ids == Dedup(Found(store, calls))
    {
      var f := frags[i];
      QueriesStep(w, frags, i);
      ghost var startSide := if f.start != w.start then [EndsNear(f.start)] else [];
      ghost var endSide := if f.end != w.end then [StartsNear(f.end)] else [];
      ghost var before := calls;
      if f.start != w.start {
        var q := EndsNear(f.start);
        var event := store(q);
        FoundStep(store, calls, q);
        calls := calls + [q];
        if event.Some? && event.value !in ids {
          ids := ids + [event.value];
        }
      }
      assert calls == before + startSide;
      if f.end != w.end {
        var q := StartsNear(f.end);
        var event := store(q);
        FoundStep(store, calls, q);
        calls := calls + [q];
        if event.Some? && event.value !in ids {
          ids := ids + [event.value];
        }
      }
      assert calls == before + startSide + endSide;
    }
    assert frags[..|frags|] == frags;
    ReportedIds(store, calls);
    QueriesCount(w, frags);
  }

  /** The deduplicated answers hold no id twice, and hold exactly the ids some
      lookup answered. */
  lemma ReportedIds(store: EventStore, qs: seq<Query>)
    ensures NoDuplicates(Dedup(Found(store, qs)))
    ensures forall x :: x in Dedup(Found(store, qs)) <==> exists k :: 0 <= k < |qs| && store(qs[k]) == Some(x)
  {
    DedupDistinct(Found(store, qs));
    forall x
      ensures x in Dedup(Found(store, qs)) <==> exists k :: 0 <= k < |qs| && store(qs[k]) == Some(x)
    {
      DedupMember(Found(store, qs), x);
      FoundMember(store, qs, x);
    }
  }

  lemma QueriesStep(w: Interval, frags: seq<Interval>, i: nat)
    requires i < |frags|
    ensures Queries(w, frags[..i + 1]) == Queries(w, frags[..i])
      + (if frags[i].start != w.start then [EndsNear(frags[i].start)] else [])
      + (if frags[i].end != w.end then [StartsNear(frags[i].end)] else [])
  {
    assert frags[..i + 1][..i] == frags[..i];
  }

  /** One more lookup adds its answer to the ids unless it is empty or already
      there. */
  lemma FoundStep(store: EventStore, qs: seq<Query>, q: Query)
    ensures Dedup(Found(store, qs + [q])) ==
      var d, e := Dedup(Found(store, qs)), store(q);
      if e.Some? && e.value !in d then d + [e.value] else d
  {
    var f := Found(store, qs);
    var e := store(q);
    assert (qs + [q])[..|qs|] == qs;
    assert Found(store, qs + [q]) == f + (if e.Some? then [e.value] else []);
    if e.Some? {
      assert (f + [e.value])[..|f|] == f;
    } else {
      assert f + [] == f;
    }
  }

  /** No id is reported twice, even when it borders several fragments. */
  lemma {:induction false} DedupDistinct(xs: seq<EventId>)
    ensures NoDuplicates(Dedup(xs))
  {
    if xs != [] {
      DedupDistinct(xs[..|xs| - 1]);
    }
  }

  /** Deduplication keeps every id and adds none. */
  lemma {:induction false} DedupMember(xs: seq<EventId>, x: EventId)
    ensures x in Dedup(xs) <==> x in xs
  {
    if xs != [] {
      DedupMember(xs[..|xs| - 1], x);
      assert xs == xs[..|xs| - 1] + [xs[|xs| - 1]];
    }
  }

  /** The ids come out in the order they were first discovered. */
  lemma {:induction false} DedupFirstDiscoveryOrder(xs: seq<EventId>)
    ensures forall i, j :: 0 <= i < j < |Dedup(xs)| ==>
      Dedup(xs)[i] in xs && Dedup(xs)[j] in xs &&
      FirstIndex(xs, Dedup(xs)[i]) < FirstIndex(xs, Dedup(xs)[j])
  {
    if xs != [] {
      var init, last := xs[..|xs| - 1], xs[|xs| - 1];
      var d := Dedup(init);
      DedupFirstDiscoveryOrder(init);
      assert xs == init + [last];
      forall y | y in init
        ensures y in xs && FirstIndex(xs, y) == FirstIndex(init, y) < |init|
      {
        FirstIndexPrefix(init, [last], y);
      }
      forall i | 0 <= i < |d|
        ensures d[i] in init
      {
        DedupMember(init, d[i]);
      }
      var r := Dedup(xs);
      if last !in d {
        DedupMember(init, last);
        FirstIndexAfter(init, last);
        assert r == d + [last];
      } else {
        assert r == d;
      }
      forall i, j | 0 <= i < j < |r|
        ensures r[i] in xs && r[j] in xs && FirstIndex(xs, r[i]) < FirstIndex(xs, r[j])
      {
        assert r[i] == d[i] && d[i] in init;
        if j < |d| {
          assert r[j] == d[j] && d[j] in init;
          assert FirstIndex(init, d[i]) < FirstIndex(init, d[j]);
        } else {
          assert r[j] == last;
        }
      }
    } else {
      assert Dedup(xs) == [];
    }
  }

  lemma {:induction false} FirstIndexPrefix(xs: seq<EventId>, ys: seq<EventId>, y: EventId)
    requires y in xs
    ensures y in xs + ys && FirstIndex(xs + ys, y) == FirstIndex(xs, y)
  {
    if xs[0] != y {
      assert (xs + ys)[1..] == xs[1..] + ys;
      FirstIndexPrefix(xs[1..], ys, y);
    }
  }

  lemma FirstIndexAfter(xs: seq<EventId>, y: EventId)
    requires y !in xs
    ensures FirstIndex(xs + [y], y) == |xs|
  {
  }

  /** An id is found exactly when some lookup answered it. */
  lemma {:induction false} FoundMember(store: EventStore, qs: seq<Query>, x: EventId)
    ensures x in Found(store, qs) <==> exists k :: 0 <= k < |qs| && store(qs[k]) == Some(x)
  {
    if qs != [] {
      var init := qs[..|qs| - 1];
      FoundMember(store, init, x);
      if exists k :: 0 <= k < |qs| && store(qs[k]) == Some(x) {
        var k :| 0 <= k < |qs| && store(qs[k]) == Some(x);
        if k < |init| {
          assert init[k] == qs[k];
        }
      }
      if exists k :: 0 <= k < |init| && store(init[k]) == Some(x) {
        var k :| 0 <= k < |init| && store(init[k]) == Some(x);
        assert qs[k] == init[k];
      }
    }
  }

  /** At most two lookups per fragment. */
  lemma {:induction false} QueriesCount(w: Interval, frags: seq<Interval>)
    ensures |Queries(w, frags)| <= 2 * |frags|
  {
    if frags != [] {
      QueriesCount(w, frags[..|frags| - 1]);
    }
  }

  /** A lookup is made exactly for the inner ends of the fragments: the end time
      near a fragment start other than the window start, the start time near a
      fragment end other than the window end. */
  lemma {:induction false} QueriesMember(w: Interval, frags: seq<Interval>, q: Query)
    ensures q in Queries(w, frags) <==> exists k :: 0 <= k < |frags| && Issues(w, frags[k], q)
  {
    if frags != [] {
      var init := frags[..|frags| - 1];
      QueriesMember(w, init, q);
      IssuedStep(w, frags, init, q);
    }
  }

  /** Fragment f issues lookup q. */
  predicate Issues(w: Interval, f: Interval, q: Query) {
    q in BoundaryQueries(w, f)
  }

  /** Some fragment issues q exactly when one before the last does or the last
      one does. */
  lemma IssuedStep(w: Interval, frags: seq<Interval>, init: seq<Interval>, q: Query)
    requires frags != [] && init == frags[..|frags| - 1]
    ensures (exists k :: 0 <= k < |frags| && Issues(w, frags[k], q)) <==>
      (exists k :: 0 <= k < |init| && Issues(w, init[k], q)) || Issues(w, frags[|frags| - 1], q)
  {
    if exists k :: 0 <= k < |frags| && Issues(w, frags[k], q) {
      var k :| 0 <= k < |frags| && Issues(w, frags[k], q);
      if k < |init| {
        assert init[k] == frags[k];
      }
    }
    if exists k :: 0 <= k < |init| && Issues(w, init[k], q) {
      var k :| 0 <= k < |init| && Issues(w, init[k], q);
      assert frags[k] == init[k];
    }
  }

  /** Two short gaps around one meeting: the meeting is found from both sides
      and reported once. */
  lemma SharedMeetingReportedOnce(store: EventStore, w: Interval, frags: seq<Interval>)
    requires w == Interval(0, 30000)
    requires frags == [Interval(0, 1000), Interval(2000, 3000)]
    requires store(StartsNear(1000)) == Some("m") && store(EndsNear(2000)) == Some("m")
    requires store(StartsNear(3000)) == None
    ensures Queries(w, frags) == [StartsNear(1000), EndsNear(2000), StartsNear(3000)]
    ensures Dedup(Found(store, Queries(w, frags))) == ["m"]
  {
    var qs := [StartsNear(1000), EndsNear(2000), StartsNear(3000)];
    assert BoundaryQueries(w, frags[0]) == [StartsNear(1000)];
    assert BoundaryQueries(w, frags[1]) == [EndsNear(2000), StartsNear(3000)];
    assert frags[..1] == [Interval(0, 1000)];
    assert frags[..1][..0] == [];
    assert Queries(w, frags[..1]) == [StartsNear(1000)];
    assert Queries(w, frags) == qs;
    assert qs[..2] == [StartsNear(1000), EndsNear(2000)];
    assert qs[..2][..1] == [StartsNear(1000)];
    assert qs[..2][..1][..0] == [];
    assert Found(store, qs[..2][..1]) == ["m"];
    assert Found(store, qs[..2]) == ["m", "m"];
    assert Found(store, qs) == ["m", "m"];
    assert ["m", "m"][..1] == ["m"];
    assert ["m"][..0] == [];
  }
}
