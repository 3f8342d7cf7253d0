/** Time intervals in epoch seconds, a work window with its busy slots, and the
    free gaps between those slots. */
module Intervals {

  /** Free time longer than this many seconds is uninterrupted; shorter, non-empty
      free time is a fragment (90 minutes). */
  const FragmentThreshold: int := 90 * 60

  /** Half-width, in seconds, of the range in which an event bordering a fragment
      is looked up (5 minutes). */
  const MatchTolerance: int := 5 * 60

  /** A `{start_time, end_time}` pair of integer epoch seconds. */
  datatype Interval = Interval(start: int, end: int)

  function Length(x: Interval): int {
    x.end - x.start
  }

  predicate WellFormed(x: Interval) {
    x.start <= x.end
  }

  /** The instant `t` lies in the half-open interval [start, end). */
  predicate Covers(x: Interval, t: int) {
    x.start <= t < x.end
  }

  /** The half-open intervals share no instant. */
  predicate Disjoint(x: Interval, y: Interval) {
    x.end <= y.start || y.end <= x.start
  }

  /** Every interval ends no later than any later one in the sequence starts:
      with well-formed intervals, ascending and pairwise disjoint. */
  predicate Separated(s: seq<Interval>) {
    forall i, j :: 0 <= i < j < |s| ==> s[i].end <= s[j].start
  }

  predicate IsUninterrupted(g: Interval) {
    Length(g) > FragmentThreshold
  }

  predicate IsFragment(g: Interval) {
    Length(g) < FragmentThreshold && Length(g) != 0
  }

  /** What the analysis assumes of a day and never checks: the window is well
      formed, and the busy slots are well formed, inside the window, sorted
      ascending and non-overlapping. */
  predicate ValidDay(w: Interval, slots: seq<Interval>) {
    && WellFormed(w)
    && (forall i :: 0 <= i < |slots| ==>
          WellFormed(slots[i]) && w.start <= slots[i].start && slots[i].end <= w.end)
    && Separated(slots)
  }

  /** Gap i runs from the end of slot i - 1 (the window start for i = 0) to the
      start of slot i (the window end for i = |slots|). */
  function GapStart(w: Interval, slots: seq<Interval>, i: nat): int
    requires i <= |slots|
  {
    if i == 0 then w.start else slots[i - 1].end
  }

  function GapEnd(w: Interval, slots: seq<Interval>, i: nat): int
    requires i <= |slots|
  {
    if i < |slots| then slots[i].start else w.end
  }

  function Gap(w: Interval, slots: seq<Interval>, i: nat): Interval
    requires i <= |slots|
  {
    Interval(GapStart(w, slots, i), GapEnd(w, slots, i))
  }

  /** All |slots| + 1 gaps of the day, in order, zero-length ones included. */
  function Gaps(w: Interval, slots: seq<Interval>): seq<Interval> {
    seq(|slots| + 1, i requires 0 <= i <= |slots| => Gap(w, slots, i))
  }

  /** The elements of `s` that satisfy `p`, in their order in `s`. */
  function Filter(s: seq<Interval>, p: Interval -> bool): (r: seq<Interval>)
    ensures |r| <= |s|
    ensures forall k :: 0 <= k < |r| ==> p(r[k])
  {
    if s == [] then []
    else Filter(s[..|s| - 1], p) + (if p(s[|s| - 1]) then [s[|s| - 1]] else [])
  }

  /** Sum of the durations `end - start`. */
  function TotalLength(s: seq<Interval>): int {
    if s == [] then 0 else TotalLength(s[..|s| - 1]) + Length(s[|s| - 1])
  }

  /** Filtering three intervals keeps each one that passes, in order. */
  lemma FilterOfThree(a: Interval, b: Interval, c: Interval, p: Interval -> bool)
    ensures Filter([a, b, c], p) ==
      (if p(a) then [a] else []) + (if p(b) then [b] else []) + (if p(c) then [c] else [])
  {
    assert [a, b, c][..2] == [a, b];
    assert [a, b][..1] == [a];
    assert [a][..0] == [];
    assert Filter([a], p) == if p(a) then [a] else [];
    assert Filter([a, b], p) == Filter([a], p) + (if p(b) then [b] else []);
  }

  lemma {:induction false} FilterMember(s: seq<Interval>, p: Interval -> bool, x: Interval)
    ensures x in Filter(s, p) <==> x in s && p(x)
  {
    if s != [] {
      FilterMember(s[..|s| - 1], p, x);
      assert s == s[..|s| - 1] + [s[|s| - 1]];
    }
  }

  lemma {:induction false} FilterSeparated(s: seq<Interval>, p: Interval -> bool)
    requires Separated(s)
    ensures Separated(Filter(s, p))
  {
    if s != [] {
      var init, last := s[..|s| - 1], s[|s| - 1];
      FilterSeparated(init, p);
      var f := Filter(init, p);
      forall x | x in f
        ensures x.end <= last.start
      {
        FilterMember(init, p, x);
        var i :| 0 <= i < |init| && init[i] == x;
        assert s[i] == x;
      }
      var r := f + (if p(last) then [last] else []);
      forall i, j | 0 <= i < j < |r|
        ensures r[i].end <= r[j].start
      {
        if j == |f| {
          assert r[i] in f;
        }
      }
    }
  }

  /** Under the day's assumptions the gaps are well formed, ascending, pairwise
      disjoint, inside the window and disjoint from every busy slot. */
  lemma GapsAvoidBusy(w: Interval, slots: seq<Interval>)
    requires ValidDay(w, slots)
    ensures Separated(Gaps(w, slots))
    ensures forall i :: 0 <= i <= |slots| ==>
      WellFormed(Gap(w, slots, i)) && w.start <= GapStart(w, slots, i) && GapEnd(w, slots, i) <= w.end
    ensures forall i, j :: 0 <= i <= |slots| && 0 <= j < |slots| ==> Disjoint(Gap(w, slots, i), slots[j])
  {
  }

  /** Every instant of the window lies in a gap or in a busy slot (this needs no
      assumption about the slots). */
  lemma GapsCoverWindow(w: Interval, slots: seq<Interval>, t: int)
    requires Covers(w, t)
    ensures (exists i :: 0 <= i <= |slots| && Covers(Gap(w, slots, i), t))
         || (exists j :: 0 <= j < |slots| && Covers(slots[j], t))
  {
    CoverFrom(w, slots, t, 0);
  }

  lemma {:induction false} CoverFrom(w: Interval, slots: seq<Interval>, t: int, i: nat)
    requires Covers(w, t) && i <= |slots| && GapStart(w, slots, i) <= t
    ensures (exists k :: i <= k <= |slots| && Covers(Gap(w, slots, k), t))
         || (exists j :: i <= j < |slots| && Covers(slots[j], t))
    decreases |slots| - i
  {
    if t < GapEnd(w, slots, i) {
      assert Covers(Gap(w, slots, i), t);
    } else if t < slots[i].end {
      assert Covers(slots[i], t);
    } else {
      CoverFrom(w, slots, t, i + 1);
    }
  }

  /** The gaps and the busy slots together last exactly as long as the window
      (this needs no assumption about the slots). */
  lemma GapsFillWindow(w: Interval, slots: seq<Interval>)
    ensures TotalLength(Gaps(w, slots)) + TotalLength(slots) == Length(w)
  {
    var g := Gaps(w, slots);
    var n := |slots|;
    FillPrefix(w, slots, n);
    assert g[..n + 1] == g && slots[..n] == slots;
  }

  lemma {:induction false} FillPrefix(w: Interval, slots: seq<Interval>, k: nat)
    requires k <= |slots|
    ensures TotalLength(Gaps(w, slots)[..k]) + TotalLength(slots[..k]) == GapStart(w, slots, k) - w.start
    ensures TotalLength(Gaps(w, slots)[..k + 1]) + TotalLength(slots[..k]) == GapEnd(w, slots, k) - w.start
  {
    var g := Gaps(w, slots);
    if k > 0 {
      FillPrefix(w, slots, k - 1);
      assert g[..k][..k - 1] == g[..k - 1];
      assert slots[..k][..k - 1] == slots[..k - 1];
    } else {
      assert slots[..0] == [] && g[..0] == [];
    }
    assert g[..k + 1][..k] == g[..k];
  }

  /** Two filters by predicates that never hold together take no more time than
      the sequence they filter, when no duration is negative. */
  lemma {:induction false} FilterPairLength(s: seq<Interval>, p: Interval -> bool, q: Interval -> bool)
    requires forall x :: x in s ==> Length(x) >= 0 && !(p(x) && q(x))
    ensures TotalLength(Filter(s, p)) + TotalLength(Filter(s, q)) <= TotalLength(s)
  {
    if s != [] {
      var init, last := s[..|s| - 1], s[|s| - 1];
      assert forall x :: x in init ==> x in s;
      FilterPairLength(init, p, q);
      AppendLength(Filter(init, p), if p(last) then [last] else []);
      AppendLength(Filter(init, q), if q(last) then [last] else []);
    }
  }

  lemma {:induction false} AppendLength(s: seq<Interval>, t: seq<Interval>)
    ensures TotalLength(s + t) == TotalLength(s) + TotalLength(t)
    decreases |t|
  {
    if t != [] {
      assert (s + t)[..|s + t| - 1] == s + t[..|t| - 1];
      AppendLength(s, t[..|t| - 1]);
    } else {
      assert s + t == s;
    }
  }

  /** Well-formed intervals have a non-negative total duration. */
  lemma {:induction false} LengthNonNegative(xs: seq<Interval>)
    requires forall k :: 0 <= k < |xs| ==> WellFormed(xs[k])
    ensures TotalLength(xs) >= 0
  {
    if xs != [] {
      LengthNonNegative(xs[..|xs| - 1]);
    }
  }
}
