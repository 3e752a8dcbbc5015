/** The spaced-repetition scheduler: the transition applied to a card's ease, interval and
    box when the learner grades a recall, and its application to a whole card record.
    Ease is kept in hundredths (250 stands for 2.5) so the arithmetic is exact. */
module Srs {
  import opened Options
  import opened Rounding
  import opened Cards

  /** A recall grade: 1 Again, 2 Hard, 3 Good, 4 Easy. */
  type Grade = g: int | 1 <= g <= 4 witness 1

  const Again: Grade := 1
  const Hard: Grade := 2
  const Good: Grade := 3
  const Easy: Grade := 4

  /** Bounds of the ease factor, and the ease of a new card, in hundredths. */
  const MinEase := 130
  const MaxEase := 300
  const DefaultEase := 250

  /** The highest box a card can reach. */
  const TopBox := 5

  function Max(a: int, b: int): (r: int)
    ensures r >= a && r >= b && (r == a || r == b)
  {
    if a >= b then a else b
  }

  function Min(a: int, b: int): (r: int)
    ensures r <= a && r <= b && (r == a || r == b)
  {
    if a <= b then a else b
  }

  /** `r` is `x` forced into `[lo, hi]`: `x` itself when it lies inside, otherwise the
      bound it overshoots. */
  predicate ClampedTo(x: int, lo: int, hi: int, r: int)
  {
    && lo <= r <= hi
    && (r == x || (r == lo && x < lo) || (r == hi && x > hi))
  }

  /** `max(lo, min(hi, x))`. */
  function Clamp(x: int, lo: int, hi: int): (r: int)
    ensures lo <= hi ==> ClampedTo(x, lo, hi, r)
    ensures r >= lo
  {
    Max(lo, Min(hi, x))
  }

  /** The numeric scheduling state of a card. */
  datatype Schedule = Schedule(ease: int, interval: int, box: int)

  /** `r` is `max(1, round(n / d))`: the rounded quotient, or 1 when that rounds below 1. */
  predicate RoundedAtLeastOne(n: int, d: int, r: int)
  {
    r >= 1 && (RoundsTo(n, d, r) || (r == 1 && 2 * n < 3 * d))
  }

  /** `r` is the box one stage above `box`, capped at the top box. */
  predicate Advanced(box: int, r: int)
  {
    (box < TopBox ==> r == box + 1) && (box >= TopBox ==> r == TopBox)
  }

  /** A product of two values at least 1 and at least `b` is at least `b`. */
  lemma ProductAtLeast(a: int, b: int)
    requires a >= 1
    requires b >= 1
    ensures a * b >= b
  {
    MulAtLeast(a, b);
    assert a * b == b * a;
  }

  /** The scheduling transition for one grade. The interval grows from `max(1, interval)`;
      Again resets, Hard shrinks the ease and multiplies by 1.2 without moving the box,
      Good multiplies by the unchanged ease and advances the box, Easy raises the ease and
      multiplies by the raised ease plus 0.2. */
  function NextSchedule(ease: int, interval: int, box: int, grade: Grade): (r: Schedule)
    ensures grade == Again ==>
      && ClampedTo(ease - 20, MinEase, MaxEase, r.ease)
      && r.interval == 1
      && r.box == 1
    ensures grade == Hard ==>
      && ClampedTo(ease - 15, MinEase, MaxEase, r.ease)
      && RoundsTo(Max(1, interval) * 120, 100, r.interval)
      && r.interval >= 1
      && r.box == box
    ensures grade == Good ==>
      && r.ease == ease
      && RoundedAtLeastOne(Max(1, interval) * ease, 100, r.interval)
      && Advanced(box, r.box)
    ensures grade == Easy ==>
      && ClampedTo(ease + 15, MinEase, MaxEase, r.ease)
      && RoundsTo(Max(1, interval) * (r.ease + 20), 100, r.interval)
      && r.interval >= 2
      && Advanced(box, r.box)
  {
    var m := Max(1, interval);
    if grade == Again then
      Schedule(Clamp(ease - 20, MinEase, MaxEase), 1, 1)
    else if grade == Hard then
      Schedule(Clamp(ease - 15, MinEase, MaxEase), Max(1, RoundHalfEven(m * 120, 100)), box)
    else if grade == Good then
      var k := RoundHalfEven(m * ease, 100);
      Schedule(ease, Max(1, k), Min(TopBox, box + 1))
    else
      var e := Clamp(ease + 15, MinEase, MaxEase);
      ProductAtLeast(m, e + 20);
      Schedule(e, RoundHalfEven(m * (e + 20), 100), Min(TopBox, box + 1))
  }

  /** The scheduling state of a card as the scheduler reads it: unset or zero fields take
      the defaults (ease 2.5, interval 1, box 1). */
  function ReadSchedule(card: Card): (s: Schedule)
    ensures s.ease != 0 && s.interval != 0 && s.box != 0
    ensures card.ease.Some? && card.ease.value != 0 ==> s.ease == card.ease.value
    ensures card.intervalDays.Some? && card.intervalDays.value != 0 ==> s.interval == card.intervalDays.value
    ensures card.box.Some? && card.box.value != 0 ==> s.box == card.box.value
    ensures card.ease.None? || card.ease.value == 0 ==> s.ease == DefaultEase
    ensures card.intervalDays.None? || card.intervalDays.value == 0 ==> s.interval == 1
    ensures card.box.None? || card.box.value == 0 ==> s.box == 1
  {
    Schedule(IntOr(card.ease, DefaultEase), IntOr(card.intervalDays, 1), IntOr(card.box, 1))
  }

  /** Grading counts as a lapse when the learner answers Again on a card whose box (unset
      counting as 1) was above the first. */
  predicate IsLapse(card: Card, grade: Grade)
    ensures IsLapse(card, grade) <==> grade == Again && card.box.Some? && card.box.value > 1
  {
    grade == Again && IntOr(card.box, 1) > 1
  }

  /** The columns the scheduler writes. */
  predicate IsScheduling(col: Column)
  {
    col in {Box, Ease, IntervalDays, Reps, Lapses, DueDate}
  }

  /** Applies a grade given on day `today` to a card. */
  function GradeCard(card: Card, grade: Grade, today: int): (r: Card)
    ensures
      var s := ReadSchedule(card);
      var n := NextSchedule(s.ease, s.interval, s.box, grade);
      r.ease == Some(n.ease) && r.intervalDays == Some(n.interval) && r.box == Some(n.box)
    ensures r.intervalDays.Some? && r.dueDate == today + r.intervalDays.value
    ensures r.dueDate > today
    ensures r.reps == Some(IntOr(card.reps, 0) + 1)
    ensures r.lapses != card.lapses <==> IsLapse(card, grade)
    ensures IsLapse(card, grade) ==> r.lapses == Some(IntOr(card.lapses, 0) + 1)
    ensures forall col :: !IsScheduling(col) ==> Get(r, col) == Get(card, col)
  {
    var s := ReadSchedule(card);
    var n := NextSchedule(s.ease, s.interval, s.box, grade);
    var lapses := if IsLapse(card, grade) then Some(IntOr(card.lapses, 0) + 1) else card.lapses;
    card.(ease := Some(n.ease), intervalDays := Some(n.interval), box := Some(n.box),
          dueDate := today + n.interval, reps := Some(IntOr(card.reps, 0) + 1), lapses := lapses)
  }

  /** From an ease inside the bounds and a box in 1..5, every grade keeps the ease inside
      the bounds and the box in 1..5, and the new interval is at least one day. */
  lemma ScheduleStaysInRange(ease: int, interval: int, box: int, grade: Grade)
    requires MinEase <= ease <= MaxEase
    requires 1 <= box <= TopBox
    ensures var r := NextSchedule(ease, interval, box, grade);
      MinEase <= r.ease <= MaxEase && 1 <= r.box <= TopBox && r.interval >= 1
  {
  }

  /** Applies the same grade `n` times in a row. */
  function Repeat(s: Schedule, grade: Grade, n: nat): Schedule
    decreases n
  {
    if n == 0 then s
    else Repeat(NextSchedule(s.ease, s.interval, s.box, grade), grade, n - 1)
  }

  /** Answering Again over and over from the lowest ease keeps the ease at the floor. */
  lemma {:induction false} RepeatedAgainStaysAtFloor(s: Schedule, n: nat)
    requires s.ease == MinEase
    ensures Repeat(s, Again, n).ease == MinEase
    ensures n > 0 ==> Repeat(s, Again, n).box == 1 && Repeat(s, Again, n).interval == 1
    decreases n
  {
    if n > 0 {
      var t := NextSchedule(s.ease, s.interval, s.box, Again);
      RepeatedAgainStaysAtFloor(t, n - 1);
    }
  }

  /** Answering Easy over and over from the highest ease keeps the ease at the ceiling,
      and the box climbs one stage per answer until it reaches the top box. */
  lemma {:induction false} RepeatedEasyStaysAtCeiling(s: Schedule, n: nat)
    requires s.ease == MaxEase
    requires 1 <= s.box <= TopBox
    ensures Repeat(s, Easy, n).ease == MaxEase
    ensures Repeat(s, Easy, n).box == Min(TopBox, s.box + n)
    decreases n
  {
    if n > 0 {
      var t := NextSchedule(s.ease, s.interval, s.box, Easy);
      RepeatedEasyStaysAtCeiling(t, n - 1);
    }
  }

  /** Multiplying by a positive `m` preserves `<=`. */
  lemma MulMonotone(m: int, a: int, b: int)
    requires m >= 1
    requires a <= b
    ensures m * a <= m * b
  {
    if a < b {
      MulStep(a, b, m);
      assert a * m == m * a && b * m == m * b;
    }
  }

  /** For the same starting state with an ease inside the bounds, the grades order as the
      learner expects: Easy gives at least the interval and ease of Good, Good at least
      those of Hard, and Again the lowest ease; Good and Easy reach the same box, Hard
      keeps it and Again resets it. */
  lemma GradeOrdering(ease: int, interval: int, box: int)
    requires MinEase <= ease <= MaxEase
    ensures
      var a := NextSchedule(ease, interval, box, Again);
      var h := NextSchedule(ease, interval, box, Hard);
      var g := NextSchedule(ease, interval, box, Good);
      var e := NextSchedule(ease, interval, box, Easy);
      && e.interval >= g.interval >= h.interval >= a.interval
      && e.ease >= g.ease >= h.ease >= a.ease
      && e.box == g.box && h.box == box && a.box == 1
  {
    var m := Max(1, interval);
    var e := NextSchedule(ease, interval, box, Easy);
    MulMonotone(m, 120, ease);
    RoundMonotone(m * 120, m * ease, 100);
    RoundsToUnique(m * 120, 100, RoundHalfEven(m * 120, 100), NextSchedule(ease, interval, box, Hard).interval);
    MulMonotone(m, ease, e.ease + 20);
    RoundMonotone(m * ease, m * (e.ease + 20), 100);
    RoundsToUnique(m * (e.ease + 20), 100, RoundHalfEven(m * (e.ease + 20), 100), e.interval);
  }

  /** The outcomes of each grade on a new card (ease 2.5, interval 1, box 1). With
      round-half-to-even, Good gives round(2.5) = 2, so the intervals order strictly as
      Easy > Good > Hard and so do the eases. */
  lemma NewCardOutcomes()
    ensures NextSchedule(DefaultEase, 1, 1, Again) == Schedule(230, 1, 1)
    ensures NextSchedule(DefaultEase, 1, 1, Hard) == Schedule(235, 1, 1)
    ensures NextSchedule(DefaultEase, 1, 1, Good) == Schedule(250, 2, 2)
    ensures NextSchedule(DefaultEase, 1, 1, Easy) == Schedule(265, 3, 2)
  {
    assert RoundHalfEven(120, 100) == 1;
    assert RoundHalfEven(250, 100) == 2;
    assert RoundHalfEven(285, 100) == 3;
  }

  /** Answering Again twice on a card past the first box counts one lapse: the first
      answer sends the card to box 1 and the second finds it already there. Both answers
      count as repetitions and make the card due the next day. */
  lemma AgainTwiceCountsOneLapse(card: Card, today: int)
    requires IntOr(card.box, 1) > 1
    ensures
      var c1 := GradeCard(card, Again, today);
      var c2 := GradeCard(c1, Again, today);
      && c1.box == Some(1) && c1.intervalDays == Some(1) && c1.dueDate == today + 1
      && c1.lapses == Some(IntOr(card.lapses, 0) + 1)
      && c2.lapses == c1.lapses
      && c2.reps == Some(IntOr(card.reps, 0) + 2)
      && c2.box == Some(1) && c2.dueDate == today + 1
  {
  }
}
