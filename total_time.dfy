/** `calculate_total_time`: the summed duration of a list of intervals, in
    whole minutes. */
module TotalTime {
  import opened Intervals

  /** Integer division truncating toward zero, as `int(a / b)` does for values
      the float division represents exactly. */
  function TruncDiv(a: int, b: int): int
    requires b > 0
  {
    if a >= 0 then a / b else -((-a) / b)
  }

  /** The durations are summed in seconds first and truncated to minutes once. */
  function TotalMinutes(xs: seq<Interval>): int {
    TruncDiv(TotalLength(xs), 60)
  }

  /** The minutes of each interval truncated separately and then summed. */
  function MinutesEach(xs: seq<Interval>): int {
    if xs == [] then 0 else MinutesEach(xs[..|xs| - 1]) + TruncDiv(Length(xs[|xs| - 1]), 60)
  }

  method CalculateTotalTime(xs: seq<Interval>) returns (minutes: int)
    ensures minutes == TotalMinutes(xs)
    ensures (forall k :: 0 <= k < |xs| ==> WellFormed(xs[k])) ==>
      0 <= minutes && minutes * 60 <= TotalLength(xs) < minutes * 60 + 60
  {
    var total := 0;
    for i := 0 to |xs|
      invariant total == TotalLength(xs[..i])
    {
      assert xs[..i + 1][..i] == xs[..i];
      total := total + (xs[i].end - xs[i].start);
    }
    assert xs[..|xs|] == xs;
    minutes := TruncDiv(total, 60);
    if forall k :: 0 <= k < |xs| ==> WellFormed(xs[k]) {
      LengthNonNegative(xs);
    }
  }

  /** An empty list is 0 minutes, and 5400 s plus 100 s make 91 minutes. */
  lemma TotalTimeExamples()
    ensures TotalMinutes([]) == 0
    ensures TotalMinutes([Interval(0, 5400), Interval(10000, 10100)]) == 91
  {
    var xs := [Interval(0, 5400), Interval(10000, 10100)];
    assert xs[..1] == [Interval(0, 5400)];
    assert xs[..1][..0] == [];
    assert TotalLength(xs) == 5500;
  }

  /** Truncating once never gives fewer minutes than truncating every interval,
      and can give more: two half-minute intervals make one minute, not zero. */
  lemma {:induction false} SingleTruncationDominates(xs: seq<Interval>)
    requires forall k :: 0 <= k < |xs| ==> WellFormed(xs[k])
    ensures MinutesEach(xs) <= TotalMinutes(xs)
  {
    if xs != [] {
      var init := xs[..|xs| - 1];
      SingleTruncationDominates(init);
      LengthNonNegative(init);
      var a, b := TotalLength(init), Length(xs[|xs| - 1]);
      assert a / 60 + b / 60 <= (a + b) / 60 by {
        assert (a / 60) * 60 + (b / 60) * 60 <= a + b;
      }
    }
  }

  lemma SingleTruncationCanGainAMinute(xs: seq<Interval>)
    requires xs == [Interval(0, 30), Interval(100, 130)]
    ensures MinutesEach(xs) == 0 && TotalMinutes(xs) == 1
  {
    assert xs[..1] == [Interval(0, 30)];
    assert xs[..1][..0] == [];
    assert MinutesEach(xs[..1]) == 0;
    assert TotalLength(xs[..1]) == 30;
    assert TotalLength(xs) == 60;
  }
}
