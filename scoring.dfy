/**
 * The disruption score of an accepted slot: how close the nearest
 * appointments before and after it are, and whether it touches the edge of
 * the working day. Lower scores are preferred.
 */
module Scoring {
  import opened Schedule

  /** An integer number of minutes, or +infinity (`Infinity` in recommendSlots). */
  datatype Extended = Fin(value: int) | Inf

  function Min(a: Extended, b: Extended): (m: Extended)
    ensures m == a || m == b
    ensures m.Inf? <==> a.Inf? && b.Inf?
    ensures m.Fin? && a.Fin? ==> m.value <= a.value
    ensures m.Fin? && b.Fin? ==> m.value <= b.value
  {
    if a.Inf? then b
    else if b.Inf? then a
    else if a.value <= b.value then a else b
  }

  /** `a < n`; infinity is below no number. */
  predicate Below(a: Extended, n: int) {
    a.Fin? && a.value < n
  }

  /** Adding a number to infinity leaves infinity. */
  function Plus(a: Extended, n: int): Extended {
    if a.Fin? then Fin(a.value + n) else Inf
  }

  /**
   * The smallest distance from an appointment's end to `slot`, over the
   * appointments that end at or before `slot`; infinity when there is none.
   */
  function MinPrevGap(apps: seq<Span>, slot: int): Extended
    decreases |apps|
  {
    if apps == [] then Inf
    else
      var last := apps[|apps| - 1];
      var rest := MinPrevGap(apps[..|apps| - 1], slot);
      if last.end <= slot then Min(rest, Fin(slot - last.end)) else rest
  }

  /**
   * The smallest distance from `slotEnd` to an appointment's start, over the
   * appointments that start at or after `slotEnd`; infinity when there is none.
   */
  function MinNextGap(apps: seq<Span>, slotEnd: int): Extended
    decreases |apps|
  {
    if apps == [] then Inf
    else
      var last := apps[|apps| - 1];
      var rest := MinNextGap(apps[..|apps| - 1], slotEnd);
      if last.start >= slotEnd then Min(rest, Fin(last.start - slotEnd)) else rest
  }

  /** MinPrevGap is the minimum of `slot - a.end` over the appointments ending by `slot`. */
  lemma {:induction false} MinPrevGapIsMinimum(apps: seq<Span>, slot: int)
    ensures var r := MinPrevGap(apps, slot);
      && (r.Inf? <==> forall a :: a in apps ==> a.end > slot)
      && (r.Fin? ==> exists a :: a in apps && a.end <= slot && r.value == slot - a.end)
      && (r.Fin? ==> forall a :: a in apps && a.end <= slot ==> r.value <= slot - a.end)
    decreases |apps|
  {
    if apps != [] {
      var init := apps[..|apps| - 1];
      MinPrevGapIsMinimum(init, slot);
      assert forall a :: a in apps <==> a in init || a == apps[|apps| - 1];
    }
  }

  /** MinNextGap is the minimum of `a.start - slotEnd` over the appointments starting from `slotEnd`. */
  lemma {:induction false} MinNextGapIsMinimum(apps: seq<Span>, slotEnd: int)
    ensures var r := MinNextGap(apps, slotEnd);
      && (r.Inf? <==> forall a :: a in apps ==> a.start < slotEnd)
      && (r.Fin? ==> exists a :: a in apps && a.start >= slotEnd && r.value == a.start - slotEnd)
      && (r.Fin? ==> forall a :: a in apps && a.start >= slotEnd ==> r.value <= a.start - slotEnd)
    decreases |apps|
  {
    if apps != [] {
      var init := apps[..|apps| - 1];
      MinNextGapIsMinimum(init, slotEnd);
      assert forall a :: a in apps <==> a in init || a == apps[|apps| - 1];
    }
  }

  /**
   * The score of the slot [slot, slotEnd) in the working window
   * [windowStart, windowEnd], against the appointments around it.
   */
  function ScoreAt(apps: seq<Span>, slot: int, slotEnd: int, windowStart: int, windowEnd: int, gap: int): Extended {
    Score(MinPrevGap(apps, slot), MinNextGap(apps, slotEnd), slot == windowStart || slotEnd == windowEnd, gap)
  }

  /**
   * The score of a slot with surrounding gaps `prev` and `next`: -10 when
   * either gap is under twice the rule gap, -5 at the edge of the working
   * day, +10 when both gaps are under 30 minutes, plus the smaller gap.
   * (recommendSlots takes the absolute value of the gaps, which are never negative.)
   */
  function Score(prev: Extended, next: Extended, atDayEdge: bool, gap: int): Extended {
    var tight := if Below(prev, 2 * gap) || Below(next, 2 * gap) then -10 else 0;
    var edge := if atDayEdge then -5 else 0;
    var squeezed := if Below(prev, 30) && Below(next, 30) then 10 else 0;
    Plus(Min(prev, next), tight + edge + squeezed)
  }

  /** The score is infinite exactly when both surrounding gaps are; the penalties never absorb it. */
  lemma ScoreInfiniteIff(prev: Extended, next: Extended, atDayEdge: bool, gap: int)
    ensures Score(prev, next, atDayEdge, gap).Inf? <==> prev.Inf? && next.Inf?
  {
  }

  /** A finite score lies within 15 below and 10 above the smaller surrounding gap. */
  lemma ScoreNearSmallerGap(prev: Extended, next: Extended, atDayEdge: bool, gap: int)
    requires Score(prev, next, atDayEdge, gap).Fin?
    ensures Min(prev, next).Fin?
    ensures Min(prev, next).value - 15 <= Score(prev, next, atDayEdge, gap).value <= Min(prev, next).value + 10
  {
  }

  /** Appointment `a` ends by `slot`, and `score` is within 15 below and 10 above that distance. */
  predicate NearPrevious(a: Span, slot: int, score: int) {
    a.end <= slot && slot - a.end - 15 <= score <= slot - a.end + 10
  }

  /** Appointment `a` starts at or after `slotEnd`, and `score` is within 15 below and 10 above that distance. */
  predicate NearNext(a: Span, slotEnd: int, score: int) {
    a.start >= slotEnd && a.start - slotEnd - 15 <= score <= a.start - slotEnd + 10
  }

  /**
   * A slot scores infinity exactly when no appointment ends by its start and
   * none starts at or after its end; otherwise the score is finite and within
   * 15 below and 10 above the distance to some such appointment.
   */
  lemma ScoreAtInfiniteIff(apps: seq<Span>, slot: int, slotEnd: int, windowStart: int, windowEnd: int, gap: int)
    ensures var r := ScoreAt(apps, slot, slotEnd, windowStart, windowEnd, gap);
      && (r.Inf? <==> forall a :: a in apps ==> a.end > slot && a.start < slotEnd)
      && (r.Fin? ==>
            exists a :: a in apps && (NearPrevious(a, slot, r.value) || NearNext(a, slotEnd, r.value)))
  {
    var prev, next := MinPrevGap(apps, slot), MinNextGap(apps, slotEnd);
    MinPrevGapIsMinimum(apps, slot);
    MinNextGapIsMinimum(apps, slotEnd);
    var atDayEdge := slot == windowStart || slotEnd == windowEnd;
    ScoreInfiniteIff(prev, next, atDayEdge, gap);
    if Score(prev, next, atDayEdge, gap).Fin? {
      ScoreNearSmallerGap(prev, next, atDayEdge, gap);
    }
  }

  /**
   * The scoring pass over the appointments for one accepted slot
   * [slot, slotEnd) of the working window [windowStart, windowEnd].
   */
  method ScoreSlot(apps: seq<Span>, slot: int, slotEnd: int, windowStart: int, windowEnd: int, gap: int)
    returns (score: Extended)
    ensures score == ScoreAt(apps, slot, slotEnd, windowStart, windowEnd, gap)
  {
    var minPrevGap, minNextGap := Inf, Inf;
    for i := 0 to |apps|
      invariant minPrevGap == MinPrevGap(apps[..i], slot)
      invariant minNextGap == MinNextGap(apps[..i], slotEnd)
    {
      var app := apps[i];
      assert apps[..i + 1][..i] == apps[..i];
      if app.end <= slot {
        minPrevGap := Min(minPrevGap, Fin(slot - app.end));
      }
      if app.start >= slotEnd {
        minNextGap := Min(minNextGap, Fin(app.start - slotEnd));
      }
    }
    assert apps[..|apps|] == apps;
    var s := 0;
    if Below(minPrevGap, 2 * gap) || Below(minNextGap, 2 * gap) {
      s := s - 10;
    }
    if slot == windowStart || slotEnd == windowEnd {
      s := s - 5;
    }
    if Below(minPrevGap, 30) && Below(minNextGap, 30) {
      s := s + 10;
    }
    score := Plus(Min(minPrevGap, minNextGap), s);
  }
}
