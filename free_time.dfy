/** The two walks over a day's busy slots: `get_uninterrupted`, which keeps the
    long gaps, and `get_fragmented`, which keeps the short non-empty ones. */
module FreeTime {
  import opened Intervals

  /** What `get_uninterrupted` returns: the whole window on a day without busy
      slots, otherwise every gap longer than the threshold, in order. */
  function Uninterrupted(w: Interval, slots: seq<Interval>): seq<Interval> {
    if slots == [] then [w] else Filter(Gaps(w, slots), IsUninterrupted)
  }

  /** The cursor `previous_start_of_free_time` of `get_fragmented` when the walk
      reaches slot i. A slot starting exactly at the cursor is skipped with
      `continue`, so the cursor is not moved to that slot's end. */
  function FragCursor(w: Interval, slots: seq<Interval>, i: nat): int
    requires i <= |slots|
  {
    if i == 0 then w.start
    else
      var c := FragCursor(w, slots, i - 1);
      if slots[i - 1].start == c then c else slots[i - 1].end
  }

  /** The fragments `get_fragmented` has collected after its first i slots:
      each one runs from the cursor to the start of the slot reached. */
  function FragLoop(w: Interval, slots: seq<Interval>, i: nat): (r: seq<Interval>)
    requires i <= |slots|
    ensures forall k :: 0 <= k < |r| ==> IsFragment(r[k])
  {
    if i == 0 then []
    else
      var g := Interval(FragCursor(w, slots, i - 1), slots[i - 1].start);
      FragLoop(w, slots, i - 1) + (if IsFragment(g) then [g] else [])
  }

  /** One step of the walk at slot i: the cursor stays put when the slot starts
      at it and otherwise moves to the slot's end; the interval from the cursor
      to the slot's start is collected when it is a fragment. */
  lemma FragStep(w: Interval, slots: seq<Interval>, i: nat)
    requires i < |slots|
    ensures FragCursor(w, slots, i + 1) ==
      if slots[i].start == FragCursor(w, slots, i) then FragCursor(w, slots, i) else slots[i].end
    ensures var g := Interval(FragCursor(w, slots, i), slots[i].start);
      FragLoop(w, slots, i + 1) == FragLoop(w, slots, i) + (if IsFragment(g) then [g] else [])
  {
  }

  /** What `get_fragmented` returns: nothing on a day without busy slots,
      otherwise the walk's fragments and then the end-of-day gap, measured from
      the end of the last slot, when it is a fragment. */
  function Fragmented(w: Interval, slots: seq<Interval>): seq<Interval> {
    if slots == [] then []
    else
      var tail := Gap(w, slots, |slots|);
      FragLoop(w, slots, |slots|) + (if IsFragment(tail) then [tail] else [])
  }

  /** The walk's fragments followed by the end-of-day gap when it is one. */
  lemma FragmentedEnd(w: Interval, slots: seq<Interval>)
    requires slots != []
    ensures var tail := Interval(slots[|slots| - 1].end, w.end);
      Fragmented(w, slots) == FragLoop(w, slots, |slots|) + (if IsFragment(tail) then [tail] else [])
  {
  }

  /** The fragments as evidently intended: every gap shorter than the threshold
      and not empty. */
  function FragmentedFixed(w: Interval, slots: seq<Interval>): seq<Interval> {
    if slots == [] then [] else Filter(Gaps(w, slots), IsFragment)
  }

  method GetUninterrupted(w: Interval, slots: seq<Interval>) returns (r: seq<Interval>)
    ensures r == Uninterrupted(w, slots)
    ensures slots == [] ==> r == [w]
    ensures slots != [] ==> forall k :: 0 <= k < |r| ==> IsUninterrupted(r[k])
  {
    if slots == [] {
      return [w];
    }
    ghost var gaps := Gaps(w, slots);
    r := [];
    var cursor := w.start;
    for i := 0 to |slots|
      invariant cursor == GapStart(w, slots, i)
      invariant r == Filter(gaps[..i], IsUninterrupted)
    {
      assert gaps[..i + 1][..i] == gaps[..i];
      var freeTime := slots[i].start - cursor;
      if freeTime > FragmentThreshold {
        r := r + [Interval(cursor, slots[i].start)];
      }
      cursor := slots[i].end;
    }
    var lastEnd := slots[|slots| - 1].end;
    assert gaps[..|slots| + 1] == gaps;
    if w.end - lastEnd > FragmentThreshold {
      r := r + [Interval(lastEnd, w.end)];
    }
  }

  method GetFragmented(w: Interval, slots: seq<Interval>) returns (r: seq<Interval>)
    ensures r == Fragmented(w, slots)
    ensures slots == [] ==> r == []
    ensures forall k :: 0 <= k < |r| ==> IsFragment(r[k])
  {
    if slots == [] {
      return [];
    }
    r := [];
    var cursor := w.start;
    for i := 0 to |slots|
      invariant cursor == FragCursor(w, slots, i)
      invariant r == FragLoop(w, slots, i)
    {
      var freeTime := slots[i].start - cursor;
      if freeTime == 0 {
        continue;
      }
      if freeTime < FragmentThreshold {
        r := r + [Interval(cursor, slots[i].start)];
      }
      cursor := slots[i].end;
    }
    var lastEnd := slots[|slots| - 1].end;
    var freeTimeBeforeEod := w.end - lastEnd;
    if freeTimeBeforeEod < FragmentThreshold && freeTimeBeforeEod != 0 {
      r := r + [Interval(lastEnd, w.end)];
    }
  }

  /** `get_fragmented` with the cursor moved to the end of every slot. */
  method GetFragmentedFixed(w: Interval, slots: seq<Interval>) returns (r: seq<Interval>)
    ensures r == FragmentedFixed(w, slots)
    ensures forall k :: 0 <= k < |r| ==> IsFragment(r[k])
  {
    if slots == [] {
      return [];
    }
    ghost var gaps := Gaps(w, slots);
    r := [];
    var cursor := w.start;
    for i := 0 to |slots|
      invariant cursor == GapStart(w, slots, i)
      invariant r == Filter(gaps[..i], IsFragment)
    {
      assert gaps[..i + 1][..i] == gaps[..i];
      var freeTime := slots[i].start - cursor;
      if freeTime < FragmentThreshold && freeTime != 0 {
        r := r + [Interval(cursor, slots[i].start)];
      }
      cursor := slots[i].end;
    }
    var lastEnd := slots[|slots| - 1].end;
    assert gaps[..|slots| + 1] == gaps;
    var freeTimeBeforeEod := w.end - lastEnd;
    if freeTimeBeforeEod < FragmentThreshold && freeTimeBeforeEod != 0 {
      r := r + [Interval(lastEnd, w.end)];
    }
  }

  /** On a day with busy slots, the uninterrupted intervals are exactly the gaps
      longer than the threshold; on any valid day they are ascending, pairwise
      disjoint, inside the window and disjoint from every busy slot. */
  lemma UninterruptedShape(w: Interval, slots: seq<Interval>)
    requires ValidDay(w, slots)
    ensures slots != [] ==> forall g :: g in Uninterrupted(w, slots) <==> g in Gaps(w, slots) && IsUninterrupted(g)
    ensures Separated(Uninterrupted(w, slots))
    ensures forall k :: 0 <= k < |Uninterrupted(w, slots)| ==>
      var u := Uninterrupted(w, slots)[k];
      WellFormed(u) && w.start <= u.start && u.end <= w.end
    ensures forall k, j :: 0 <= k < |Uninterrupted(w, slots)| && 0 <= j < |slots| ==>
      Disjoint(Uninterrupted(w, slots)[k], slots[j])
  {
    if slots != [] {
      var gaps, u := Gaps(w, slots), Uninterrupted(w, slots);
      GapsAvoidBusy(w, slots);
      FilterSeparated(gaps, IsUninterrupted);
      forall g
        ensures g in u <==> g in gaps && IsUninterrupted(g)
      {
        FilterMember(gaps, IsUninterrupted, g);
      }
      forall k | 0 <= k < |u|
        ensures exists i :: 0 <= i <= |slots| && u[k] == Gap(w, slots, i)
      {
        assert u[k] in gaps;
        var i :| 0 <= i < |gaps| && gaps[i] == u[k];
      }
    }
  }

  /** Both thresholds are strict: an uninterrupted interval of a day with busy
      slots is longer than 90 minutes, a fragment is shorter and not empty, and a
      gap of exactly 90 minutes is reported in neither list. */
  lemma ThresholdIsStrict(w: Interval, slots: seq<Interval>, g: Interval)
    requires Length(g) == FragmentThreshold
    ensures slots != [] ==> g !in Uninterrupted(w, slots)
    ensures g !in Fragmented(w, slots)
    ensures g !in FragmentedFixed(w, slots)
  {
  }

  /** Under the day's assumptions no cursor of `get_fragmented` lies past the slot
      it reaches, the cursor never moves backwards, and everything collected ends
      no later than the cursor. */
  lemma {:induction false} FragLoopFacts(w: Interval, slots: seq<Interval>, i: nat)
    requires ValidDay(w, slots) && i <= |slots|
    ensures w.start <= FragCursor(w, slots, i) <= GapStart(w, slots, i)
    ensures i < |slots| ==> FragCursor(w, slots, i) <= slots[i].start
    ensures Separated(FragLoop(w, slots, i))
    ensures forall k :: 0 <= k < |FragLoop(w, slots, i)| ==>
      w.start <= FragLoop(w, slots, i)[k].start && FragLoop(w, slots, i)[k].end <= FragCursor(w, slots, i)
  {
    if i > 0 {
      FragLoopFacts(w, slots, i - 1);
      var c := FragCursor(w, slots, i - 1);
      var prev := FragLoop(w, slots, i - 1);
      var g := Interval(c, slots[i - 1].start);
      var r := prev + (if IsFragment(g) then [g] else []);
      assert r == FragLoop(w, slots, i);
      if i < |slots| {
        assert slots[i - 1].end <= slots[i].start;
      }
      forall a, b | 0 <= a < b < |r|
        ensures r[a].end <= r[b].start
      {
        if b == |prev| {
          assert r[a] == prev[a];
        }
      }
    }
  }

  /** Under the day's assumptions the fragments `get_fragmented` returns are
      non-empty, inside the window, ascending and pairwise disjoint (though,
      unlike the uninterrupted intervals, not necessarily clear of busy slots). */
  lemma FragmentedShape(w: Interval, slots: seq<Interval>)
    requires ValidDay(w, slots)
    ensures forall k :: 0 <= k < |Fragmented(w, slots)| ==>
      var f := Fragmented(w, slots)[k];
      0 < Length(f) < FragmentThreshold && w.start <= f.start && f.end <= w.end
    ensures Separated(Fragmented(w, slots))
  {
    if slots != [] {
      var n := |slots|;
      FragLoopFacts(w, slots, n);
      var loop := FragLoop(w, slots, n);
      var tail := Gap(w, slots, n);
      var r := Fragmented(w, slots);
      assert r == loop + (if IsFragment(tail) then [tail] else []);
      forall k | 0 <= k < |loop|
        ensures loop[k].start < loop[k].end
      {
        FragmentEmitted(w, slots, n, k);
      }
      forall a, b | 0 <= a < b < |r|
        ensures r[a].end <= r[b].start
      {
        if b == |loop| {
          assert r[a] == loop[a];
        }
      }
    }
  }

  /** A collected fragment is never empty or backwards: it ends at a slot start
      that lies after the cursor, under the day's assumptions. */
  lemma {:induction false} FragmentEmitted(w: Interval, slots: seq<Interval>, i: nat, k: nat)
    requires ValidDay(w, slots) && i <= |slots| && k < |FragLoop(w, slots, i)|
    ensures FragLoop(w, slots, i)[k].start < FragLoop(w, slots, i)[k].end
  {
    var prev := FragLoop(w, slots, i - 1);
    if k < |prev| {
      FragmentEmitted(w, slots, i - 1, k);
    } else {
      FragLoopFacts(w, slots, i - 1);
    }
  }

  /** When a slot starts exactly at the cursor, `get_fragmented` leaves the
      cursor at the start of that slot, so the interval it examines at the next
      slot runs from there, contains the whole skipped slot, and is collected
      whenever it is a fragment. */
  lemma SkippedSlotIsSpanned(w: Interval, slots: seq<Interval>, j: nat)
    requires ValidDay(w, slots) && j + 1 < |slots|
    requires slots[j].start == FragCursor(w, slots, j)
    ensures FragCursor(w, slots, j + 1) == slots[j].start
    ensures var g := Interval(slots[j].start, slots[j + 1].start);
      && g.start <= slots[j].start && slots[j].end <= g.end
      && FragLoop(w, slots, j + 2) == FragLoop(w, slots, j + 1) + (if IsFragment(g) then [g] else [])
      && (IsFragment(g) && Length(slots[j]) > 0 ==> !Disjoint(g, slots[j]))
  {
    FragStep(w, slots, j);
    FragStep(w, slots, j + 1);
  }

  /** The walk skips a slot exactly when that slot starts at the cursor. */
  predicate NeverSkips(w: Interval, slots: seq<Interval>) {
    forall i :: 0 <= i < |slots| ==> slots[i].start != FragCursor(w, slots, i)
  }

  /** While no slot has been skipped, the cursor of `get_fragmented` is the start
      of the current gap and the fragments collected are the short gaps so far. */
  lemma {:induction false} CursorTracksGaps(w: Interval, slots: seq<Interval>, k: nat)
    requires k <= |slots|
    requires forall i :: 0 <= i < k ==> slots[i].start != FragCursor(w, slots, i)
    ensures FragCursor(w, slots, k) == GapStart(w, slots, k)
    ensures FragLoop(w, slots, k) == Filter(Gaps(w, slots)[..k], IsFragment)
  {
    var gaps := Gaps(w, slots);
    if k > 0 {
      CursorTracksGaps(w, slots, k - 1);
      assert gaps[..k][..k - 1] == gaps[..k - 1];
    }
  }

  /** The walk never skips a slot exactly when no gap before a slot is empty,
      that is, when no slot starts where the previous one ends (or, for the
      first slot, at the window start). */
  lemma NeverSkipsIffNoEmptyGap(w: Interval, slots: seq<Interval>)
    ensures NeverSkips(w, slots) <==> forall i :: 0 <= i < |slots| ==> Length(Gap(w, slots, i)) != 0
  {
    if NeverSkips(w, slots) {
      forall i | 0 <= i < |slots|
        ensures Length(Gap(w, slots, i)) != 0
      {
        CursorTracksGaps(w, slots, i);
      }
    }
    if forall i :: 0 <= i < |slots| ==> Length(Gap(w, slots, i)) != 0 {
      NoEmptyGapTracks(w, slots, |slots|);
    }
  }

  lemma {:induction false} NoEmptyGapTracks(w: Interval, slots: seq<Interval>, k: nat)
    requires k <= |slots|
    requires forall i :: 0 <= i < |slots| ==> Length(Gap(w, slots, i)) != 0
    ensures FragCursor(w, slots, k) == GapStart(w, slots, k)
    ensures forall i :: 0 <= i < k ==> slots[i].start != FragCursor(w, slots, i)
  {
    if k > 0 {
      NoEmptyGapTracks(w, slots, k - 1);
      assert Length(Gap(w, slots, k - 1)) != 0;
    }
  }

  /** When no slot is skipped, `get_fragmented` returns exactly the short
      non-empty gaps, as the corrected walk does. */
  lemma FragmentedWhenNeverSkips(w: Interval, slots: seq<Interval>)
    requires NeverSkips(w, slots)
    ensures Fragmented(w, slots) == FragmentedFixed(w, slots)
  {
    if slots != [] {
      var n := |slots|;
      var gaps := Gaps(w, slots);
      CursorTracksGaps(w, slots, n);
      assert gaps[..n + 1][..n] == gaps[..n];
      assert gaps[..n + 1] == gaps;
    }
  }

  predicate ExactlyOne(a: bool, b: bool, c: bool) {
    (a && !b && !c) || (!a && b && !c) || (!a && !b && c)
  }

  /** On a day with busy slots where no slot starts at the cursor, every
      non-empty gap is reported as uninterrupted, or as a fragment, or is exactly
      90 minutes long, and exactly one of the three holds; every reported
      interval is a gap. */
  lemma ThreeWayPartition(w: Interval, slots: seq<Interval>)
    requires slots != [] && NeverSkips(w, slots)
    ensures forall g :: g in Gaps(w, slots) && Length(g) > 0 ==>
      ExactlyOne(g in Uninterrupted(w, slots), g in Fragmented(w, slots), Length(g) == FragmentThreshold)
    ensures forall g :: g in Uninterrupted(w, slots) || g in Fragmented(w, slots) ==> g in Gaps(w, slots)
  {
    var gaps := Gaps(w, slots);
    FragmentedWhenNeverSkips(w, slots);
    forall g
      ensures g in Uninterrupted(w, slots) <==> g in gaps && IsUninterrupted(g)
      ensures g in Fragmented(w, slots) <==> g in gaps && IsFragment(g)
    {
      FilterMember(gaps, IsUninterrupted, g);
      FilterMember(gaps, IsFragment, g);
    }
  }

  /** A window of 20000 s with a meeting at its very start and one more later. */
  const SkipWindow := Interval(0, 20000)
  const SkipSlots := [Interval(0, 1000), Interval(2000, 3000)]

  /** The counterexample to the intended partition: the meeting at the very start
      of the window is skipped, so the fragment after it is measured from the
      window start, overlaps that meeting, and the day's free and busy time add up
      to more than the window. The corrected walk reports only the real gap. */
  lemma SkippedMeetingCountedAsFree()
    ensures ValidDay(SkipWindow, SkipSlots)
    ensures Fragmented(SkipWindow, SkipSlots) == [Interval(0, 2000)]
    ensures !Disjoint(Fragmented(SkipWindow, SkipSlots)[0], SkipSlots[0])
    ensures TotalLength(Uninterrupted(SkipWindow, SkipSlots)) + TotalLength(Fragmented(SkipWindow, SkipSlots))
            + TotalLength(SkipSlots) > Length(SkipWindow)
    ensures FragmentedFixed(SkipWindow, SkipSlots) == [Interval(1000, 2000)]
  {
    SkipWalk();
    SkipGaps();
    SkipTotals();
  }

  lemma SkipWalk()
    ensures Fragmented(SkipWindow, SkipSlots) == [Interval(0, 2000)]
  {
    SkipStep2();
    assert |SkipSlots| == 2 && SkipSlots[1] == Interval(2000, 3000);
    FragmentedEnd(SkipWindow, SkipSlots);
  }

  /** The first slot starts at the window start, so it is skipped. */
  lemma SkipStep1()
    ensures FragCursor(SkipWindow, SkipSlots, 1) == 0
    ensures FragLoop(SkipWindow, SkipSlots, 1) == []
  {
    assert |SkipSlots| == 2 && SkipSlots[0] == Interval(0, 1000);
    FragStep(SkipWindow, SkipSlots, 0);
  }

  /** The second slot is measured from the unmoved cursor. */
  lemma SkipStep2()
    ensures FragCursor(SkipWindow, SkipSlots, 2) == 3000
    ensures FragLoop(SkipWindow, SkipSlots, 2) == [Interval(0, 2000)]
  {
    SkipStep1();
    assert |SkipSlots| == 2 && SkipSlots[1] == Interval(2000, 3000);
    FragStep(SkipWindow, SkipSlots, 1);
  }

  lemma SkipTotals()
    ensures TotalLength([Interval(3000, 20000)]) == 17000
    ensures TotalLength([Interval(0, 2000)]) == 2000
    ensures TotalLength(SkipSlots) == 2000
  {
  }

  lemma SkipGaps()
    ensures Uninterrupted(SkipWindow, SkipSlots) == [Interval(3000, 20000)]
    ensures FragmentedFixed(SkipWindow, SkipSlots) == [Interval(1000, 2000)]
  {
    assert |SkipSlots| == 2 && SkipSlots[0] == Interval(0, 1000) && SkipSlots[1] == Interval(2000, 3000);
    GapsOfTwo(SkipWindow, SkipSlots);
    FilterOfThree(Interval(0, 0), Interval(1000, 2000), Interval(3000, 20000), IsUninterrupted);
    FilterOfThree(Interval(0, 0), Interval(1000, 2000), Interval(3000, 20000), IsFragment);
  }

  const TailWindow := Interval(0, 20000)
  const TailSlots := [Interval(0, 19400)]

  /** The end-of-day gap is measured from the end of the last slot, not from the
      cursor: here the only slot is skipped, the cursor stays at the window
      start, and the last ten minutes of the window are still a fragment. */
  lemma TailMeasuredFromLastSlot()
    ensures FragCursor(TailWindow, TailSlots, 1) == TailWindow.start
    ensures Fragmented(TailWindow, TailSlots) == [Interval(19400, 20000)]
    ensures Uninterrupted(TailWindow, TailSlots) == []
  {
    TailWalk();
    TailGaps();
  }

  /** The only slot starts at the cursor and is skipped. */
  lemma TailStep1()
    ensures FragCursor(TailWindow, TailSlots, 1) == 0
    ensures FragLoop(TailWindow, TailSlots, 1) == []
  {
    assert |TailSlots| == 1 && TailSlots[0] == Interval(0, 19400);
    FragStep(TailWindow, TailSlots, 0);
  }

  lemma TailWalk()
    ensures Fragmented(TailWindow, TailSlots) == [Interval(19400, 20000)]
  {
    TailStep1();
    assert |TailSlots| == 1 && TailSlots[0] == Interval(0, 19400);
    FragmentedEnd(TailWindow, TailSlots);
  }

  lemma TailGaps()
    ensures Uninterrupted(TailWindow, TailSlots) == []
  {
    assert |TailSlots| == 1 && TailSlots != [];
    var gaps := Gaps(TailWindow, TailSlots);
    assert gaps[0] == Interval(0, 0) && gaps[1] == Interval(19400, 20000);
    assert gaps[..1] == [Interval(0, 0)];
    assert gaps == gaps[..1] + [Interval(19400, 20000)];
    assert Filter(gaps[..1], IsUninterrupted) == [];
  }

  /** A window of 20000 s whose first meeting starts at the window start and
      leaves a 2000 s gap before the next one. */
  const DropWindow := Interval(0, 20000)
  const DropSlots := [Interval(0, 4000), Interval(6000, 7000)]

  /** The skip can also lose a real fragment: the cursor stays at the window
      start, the interval measured to the second meeting is 6000 s and too long
      to be a fragment, so the gap (4000, 6000) is in neither list, while the
      corrected walk reports it. */
  lemma SkippedGapDropped()
    ensures ValidDay(DropWindow, DropSlots)
    ensures Interval(4000, 6000) in Gaps(DropWindow, DropSlots) && IsFragment(Interval(4000, 6000))
    ensures Fragmented(DropWindow, DropSlots) == []
    ensures Uninterrupted(DropWindow, DropSlots) == [Interval(7000, 20000)]
    ensures FragmentedFixed(DropWindow, DropSlots) == [Interval(4000, 6000)]
  {
    DropWalk();
    DropGaps();
  }

  lemma DropStep1()
    ensures FragCursor(DropWindow, DropSlots, 1) == 0
    ensures FragLoop(DropWindow, DropSlots, 1) == []
  {
    assert |DropSlots| == 2 && DropSlots[0] == Interval(0, 4000);
    FragStep(DropWindow, DropSlots, 0);
  }

  lemma DropStep2()
    ensures FragCursor(DropWindow, DropSlots, 2) == 7000
    ensures FragLoop(DropWindow, DropSlots, 2) == []
  {
    DropStep1();
    assert |DropSlots| == 2 && DropSlots[1] == Interval(6000, 7000);
    FragStep(DropWindow, DropSlots, 1);
  }

  lemma DropWalk()
    ensures Fragmented(DropWindow, DropSlots) == []
  {
    DropStep2();
    assert |DropSlots| == 2 && DropSlots[1] == Interval(6000, 7000);
    FragmentedEnd(DropWindow, DropSlots);
  }

  lemma DropGaps()
    ensures Interval(4000, 6000) in Gaps(DropWindow, DropSlots)
    ensures Uninterrupted(DropWindow, DropSlots) == [Interval(7000, 20000)]
    ensures FragmentedFixed(DropWindow, DropSlots) == [Interval(4000, 6000)]
  {
    assert |DropSlots| == 2 && DropSlots[0] == Interval(0, 4000) && DropSlots[1] == Interval(6000, 7000);
    GapsOfTwo(DropWindow, DropSlots);
    FilterOfThree(Interval(0, 0), Interval(4000, 6000), Interval(7000, 20000), IsUninterrupted);
    FilterOfThree(Interval(0, 0), Interval(4000, 6000), Interval(7000, 20000), IsFragment);
  }

  /** A day with two slots has three gaps. */
  lemma GapsOfTwo(w: Interval, slots: seq<Interval>)
    requires |slots| == 2
    ensures Gaps(w, slots) == [Interval(w.start, slots[0].start), Interval(slots[0].end, slots[1].start), Interval(slots[1].end, w.end)]
  {
  }

  /** With the corrected walk the free time is exactly the one kind of gap or the
      other, so, on a valid day, uninterrupted time, fragmented time and busy time
      together never exceed the window. The as-written walk keeps this only when
      it never skips a slot. */
  lemma FreeTimeWithinWindow(w: Interval, slots: seq<Interval>)
    requires ValidDay(w, slots)
    ensures TotalLength(Uninterrupted(w, slots)) + TotalLength(FragmentedFixed(w, slots)) + TotalLength(slots) <= Length(w)
    ensures NeverSkips(w, slots) ==>
      TotalLength(Uninterrupted(w, slots)) + TotalLength(Fragmented(w, slots)) + TotalLength(slots) <= Length(w)
  {
    if slots != [] {
      var gaps := Gaps(w, slots);
      GapsAvoidBusy(w, slots);
      assert forall x :: x in gaps ==> Length(x) >= 0 && !(IsUninterrupted(x) && IsFragment(x));
      FilterPairLength(gaps, IsUninterrupted, IsFragment);
      GapsFillWindow(w, slots);
      LengthNonNegative(slots);
      if NeverSkips(w, slots) {
        FragmentedWhenNeverSkips(w, slots);
      }
    } else {
      assert TotalLength([w]) == Length(w) by {
        assert [w][..0] == [];
      }
    }
  }
}
