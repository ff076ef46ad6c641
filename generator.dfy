/**
 * The candidate generator: a cursor walks the working window, finds an
 * available block that holds the candidate slot, tests the slot against every
 * appointment (padded by the buffers, and by the raw minimum gap), and either
 * jumps past the first conflicting appointment or records the slot with its
 * score and steps forward by the gap.
 */
module Generator {
  import opened Wrappers
  import opened Schedule
  import opened Scoring

  /** A recorded slot: its start time and its disruption score. */
  datatype Candidate = Candidate(time: int, score: Extended)

  /**
   * Everything one search works on: the working window, the requested
   * duration, the rule's gap and buffers (all in minutes), the available
   * blocks and the appointments in the order the search visits them.
   */
  datatype Search = Search(
    windowStart: int, windowEnd: int, duration: int,
    gap: int, beforeBuffer: int, afterBuffer: int,
    blocks: seq<Span>, appointments: seq<Span>)
  {
    predicate Valid() {
      duration >= 1 && gap >= 1
    }
  }

  /** Block `b` contains the slot [slot, slotEnd). */
  predicate Fits(b: Span, slot: int, slotEnd: int) {
    b.start <= slot && slotEnd <= b.end
  }

  /**
   * The index the block search stops at: the first block from `from` on that
   * contains [slot, slotEnd), or |blocks| when none does. Every block passed
   * over fails to contain the slot, including a block that starts after the
   * cursor.
   */
  function SkipBlocks(blocks: seq<Span>, slot: int, slotEnd: int, from: nat): (k: nat)
    requires from <= |blocks|
    ensures from <= k <= |blocks|
    ensures k < |blocks| ==> Fits(blocks[k], slot, slotEnd)
    decreases |blocks| - from
  {
    if from < |blocks| && (slot < blocks[from].start || slotEnd > blocks[from].end)
    then SkipBlocks(blocks, slot, slotEnd, from + 1)
    else from
  }

  /** The block search passes over only blocks that do not contain the slot. */
  lemma {:induction false} SkipBlocksPassesNonFitting(blocks: seq<Span>, slot: int, slotEnd: int, from: nat)
    requires from <= |blocks|
    ensures forall i :: from <= i < SkipBlocks(blocks, slot, slotEnd, from) ==> !Fits(blocks[i], slot, slotEnd)
    decreases |blocks| - from
  {
    if from < |blocks| && !Fits(blocks[from], slot, slotEnd) {
      SkipBlocksPassesNonFitting(blocks, slot, slotEnd, from + 1);
    }
  }

  /** A block that contains the slot, at or after `from`, stops the block search. */
  lemma SkipBlocksFindsFitting(blocks: seq<Span>, slot: int, slotEnd: int, from: nat, j: nat)
    requires from <= j < |blocks| && Fits(blocks[j], slot, slotEnd)
    ensures SkipBlocks(blocks, slot, slotEnd, from) <= j
  {
    SkipBlocksPassesNonFitting(blocks, slot, slotEnd, from);
  }

  /**
   * The service's three-way conflict test between the slot [slot, slotEnd)
   * and a padded appointment [padStart, padEnd].
   */
  predicate Overlaps(slot: int, slotEnd: int, padStart: int, padEnd: int) {
    (slot >= padStart && slot < padEnd)
    || (slotEnd > padStart && slotEnd <= padEnd)
    || (slot <= padStart && slotEnd >= padEnd)
  }

  function Abs(x: int): int {
    if x < 0 then -x else x
  }

  /** The slot starts within `gap` of the appointment's end, or ends within `gap` of its start. */
  predicate TooClose(slot: int, slotEnd: int, app: Span, gap: int) {
    Abs(slot - app.end) < gap || Abs(slotEnd - app.start) < gap
  }

  /** The slot starting at `slot` passes both tests against appointment `a`. */
  predicate Clear(s: Search, slot: int, a: Span) {
    && !Overlaps(slot, slot + s.duration, a.start - s.beforeBuffer, a.end + s.afterBuffer)
    && !TooClose(slot, slot + s.duration, a, s.gap)
  }

  function Max(a: int, b: int): int {
    if a >= b then a else b
  }

  /** Where a conflict with appointment `a` sends the cursor. */
  function Jump(s: Search, a: Span, slot: int): int {
    if Overlaps(slot, slot + s.duration, a.start - s.beforeBuffer, a.end + s.afterBuffer)
    then Max(slot + s.gap, a.end + s.afterBuffer)
    else Max(slot + s.gap, a.end + s.afterBuffer + s.gap)
  }

  /**
   * The appointment scan for the slot at `slot`: None when every appointment
   * is clear of it, otherwise where the cursor goes next, decided by the
   * first appointment that conflicts.
   */
  function FirstConflict(s: Search, apps: seq<Span>, slot: int): (r: Option<int>)
    requires s.Valid()
    ensures r.Some? ==> r.value >= slot + s.gap
    decreases |apps|
  {
    if apps == [] then None
    else if Clear(s, slot, apps[0]) then FirstConflict(s, apps[1..], slot)
    else Some(Jump(s, apps[0], slot))
  }

  /**
   * The scan finds a conflict exactly when some appointment is not clear of
   * the slot, and then sends the cursor past that appointment's padded end.
   */
  lemma {:induction false} FirstConflictMeaning(s: Search, apps: seq<Span>, slot: int)
    requires s.Valid()
    ensures var r := FirstConflict(s, apps, slot);
      && (r.None? <==> forall a :: a in apps ==> Clear(s, slot, a))
      && (r.Some? ==> exists a :: a in apps && !Clear(s, slot, a) && r.value >= a.end + s.afterBuffer)
    decreases |apps|
  {
    if apps != [] {
      var a := apps[0];
      assert a in apps;
      assert forall x :: x in apps <==> x == a || x in apps[1..];
      FirstConflictMeaning(s, apps[1..], slot);
    }
  }

  /**
   * The first appointment that is not clear of the slot decides the jump:
   * past its padded end when the padded intervals overlap, and a further gap
   * beyond that when only the raw gap is broken; never less than one gap on.
   */
  lemma {:induction false} FirstConflictJump(s: Search, apps: seq<Span>, slot: int)
    requires s.Valid()
    ensures var r := FirstConflict(s, apps, slot);
      r.Some? ==> exists i :: 0 <= i < |apps| && FirstNotClear(s, apps, slot, i) && r.value == Jump(s, apps[i], slot)
    decreases |apps|
  {
    var r := FirstConflict(s, apps, slot);
    if apps != [] && r.Some? {
      if !Clear(s, slot, apps[0]) {
        assert FirstNotClear(s, apps, slot, 0);
      } else {
        FirstConflictJump(s, apps[1..], slot);
        var i :| 0 <= i < |apps[1..]| && FirstNotClear(s, apps[1..], slot, i)
                 && r.value == Jump(s, apps[1..][i], slot);
        assert FirstNotClear(s, apps, slot, i + 1);
      }
    }
  }

  /** `apps[i]` is the first appointment that is not clear of the slot. */
  predicate FirstNotClear(s: Search, apps: seq<Span>, slot: int, i: int)
    requires 0 <= i < |apps|
  {
    !Clear(s, slot, apps[i]) && forall j :: 0 <= j < i ==> Clear(s, slot, apps[j])
  }

  /** The score the search gives an accepted slot starting at `slot`. */
  function SlotScore(s: Search, slot: int): Extended {
    ScoreAt(s.appointments, slot, slot + s.duration, s.windowStart, s.windowEnd, s.gap)
  }

  /**
   * The slots the search records from cursor position `slot` and block index
   * `blockIdx` on: the reference definition of the generator loop.
   */
  function Scan(s: Search, slot: int, blockIdx: nat): seq<Candidate>
    requires s.Valid() && blockIdx <= |s.blocks|
    decreases s.windowEnd - slot, 1
  {
    if slot + s.duration > s.windowEnd then []
    else
      var k := SkipBlocks(s.blocks, slot, slot + s.duration, blockIdx);
      if k == |s.blocks| then [] else ScanInBlock(s, slot, k)
  }

  /** The rest of one pass of the loop, once block `k` has been found to contain the slot. */
  function ScanInBlock(s: Search, slot: int, k: nat): seq<Candidate>
    requires s.Valid() && k < |s.blocks| && slot + s.duration <= s.windowEnd
    decreases s.windowEnd - slot, 0
  {
    match FirstConflict(s, s.appointments, slot)
    case Some(next) => Scan(s, next, k)
    case None => [Candidate(slot, SlotScore(s, slot))] + Scan(s, slot + s.gap, k)
  }

  /** All the slots the search records, starting at the start of the window and the first block. */
  function Candidates(s: Search): seq<Candidate>
    requires s.Valid()
  {
    Scan(s, s.windowStart, 0)
  }

  /** The reference definition stops once no block is left that contains the slot. */
  lemma ScanStops(s: Search, slot: int, from: nat)
    requires s.Valid() && from <= |s.blocks| && slot + s.duration <= s.windowEnd
    requires SkipBlocks(s.blocks, slot, slot + s.duration, from) == |s.blocks|
    ensures Scan(s, slot, from) == []
  {
  }

  /** The reference definition jumps past a conflicting appointment. */
  lemma ScanJumps(s: Search, slot: int, from: nat, k: nat, next: int)
    requires s.Valid() && from <= |s.blocks| && slot + s.duration <= s.windowEnd
    requires k == SkipBlocks(s.blocks, slot, slot + s.duration, from) < |s.blocks|
    requires FirstConflict(s, s.appointments, slot) == Some(next)
    ensures Scan(s, slot, from) == Scan(s, next, k)
  {
  }

  /** The reference definition records a clear slot and steps by the gap. */
  lemma ScanRecords(s: Search, slot: int, from: nat, k: nat)
    requires s.Valid() && from <= |s.blocks| && slot + s.duration <= s.windowEnd
    requires k == SkipBlocks(s.blocks, slot, slot + s.duration, from) < |s.blocks|
    requires FirstConflict(s, s.appointments, slot) == None
    ensures Scan(s, slot, from) == [Candidate(slot, SlotScore(s, slot))] + Scan(s, slot + s.gap, k)
  {
  }

  /**
   * A bookable slot start: inside the working window, inside one block, and
   * clear of every appointment, padded and by the raw gap.
   */
  ghost predicate Admissible(s: Search, t: int) {
    && s.windowStart <= t && t + s.duration <= s.windowEnd
    && (exists b :: b in s.blocks && Fits(b, t, t + s.duration))
    && forall a :: a in s.appointments ==> Clear(s, t, a)
  }

  /** Every slot in `r` is admissible and carries its own score. */
  ghost predicate Sound(s: Search, r: seq<Candidate>) {
    forall c :: c in r ==> Admissible(s, c.time) && c.score == SlotScore(s, c.time)
  }

  /** A slot inside the window, inside block `k` and clear of every appointment extends a sound list. */
  lemma SoundPrepend(s: Search, t: int, k: nat, rest: seq<Candidate>)
    requires s.windowStart <= t && t + s.duration <= s.windowEnd
    requires k < |s.blocks| && Fits(s.blocks[k], t, t + s.duration)
    requires forall a :: a in s.appointments ==> Clear(s, t, a)
    requires Sound(s, rest)
    ensures Sound(s, [Candidate(t, SlotScore(s, t))] + rest)
  {
    assert s.blocks[k] in s.blocks;
    forall x | x in [Candidate(t, SlotScore(s, t))] + rest
      ensures Admissible(s, x.time) && x.score == SlotScore(s, x.time)
    {
      if x != Candidate(t, SlotScore(s, t)) {
        assert x in rest;
      }
    }
  }

  /** Every recorded slot is admissible and carries its own score. */
  lemma {:induction false} ScanSound(s: Search, slot: int, blockIdx: nat)
    requires s.Valid() && blockIdx <= |s.blocks| && s.windowStart <= slot
    ensures Sound(s, Scan(s, slot, blockIdx))
    decreases s.windowEnd - slot
  {
    if slot + s.duration <= s.windowEnd {
      var k := SkipBlocks(s.blocks, slot, slot + s.duration, blockIdx);
      if k == |s.blocks| {
        ScanStops(s, slot, blockIdx);
      } else {
        match FirstConflict(s, s.appointments, slot)
        case Some(next) =>
          ScanJumps(s, slot, blockIdx, k, next);
          ScanSound(s, next, k);
        case None =>
          ScanRecords(s, slot, blockIdx, k);
          FirstConflictMeaning(s, s.appointments, slot);
          ScanSound(s, slot + s.gap, k);
          SoundPrepend(s, slot, k, Scan(s, slot + s.gap, k));
      }
    }
  }

  /** Times in `r` are at least `from`, and any two are at least `gap` apart in list order. */
  predicate Spaced(r: seq<Candidate>, from: int, gap: int) {
    && (forall i :: 0 <= i < |r| ==> r[i].time >= from)
    && (forall i, j :: 0 <= i < j < |r| ==> r[i].time + gap <= r[j].time)
  }

  lemma SpacedPrepend(c: Candidate, rest: seq<Candidate>, gap: int)
    requires Spaced(rest, c.time + gap, gap) && gap >= 0
    ensures Spaced([c] + rest, c.time, gap)
  {
    var r := [c] + rest;
    forall i, j | 0 <= i < j < |r|
      ensures r[i].time + gap <= r[j].time
    {
      assert r[j] == rest[j - 1];
      if i > 0 {
        assert r[i] == rest[i - 1];
      }
    }
  }

  lemma SpacedWeaken(r: seq<Candidate>, from: int, lower: int, gap: int)
    requires Spaced(r, from, gap) && lower <= from
    ensures Spaced(r, lower, gap)
  {
  }

  /**
   * Recorded slots never start before the cursor and come out in time order,
   * any two at least a gap apart.
   */
  lemma {:induction false} ScanOrdered(s: Search, slot: int, blockIdx: nat)
    requires s.Valid() && blockIdx <= |s.blocks|
    ensures Spaced(Scan(s, slot, blockIdx), slot, s.gap)
    decreases s.windowEnd - slot
  {
    if slot + s.duration <= s.windowEnd {
      var k := SkipBlocks(s.blocks, slot, slot + s.duration, blockIdx);
      if k == |s.blocks| {
        ScanStops(s, slot, blockIdx);
      } else {
        var next := FirstConflict(s, s.appointments, slot);
        if next.Some? {
          ScanJumps(s, slot, blockIdx, k, next.value);
          ScanOrdered(s, next.value, k);
          SpacedWeaken(Scan(s, next.value, k), next.value, slot, s.gap);
        } else {
          ScanRecords(s, slot, blockIdx, k);
          ScanOrdered(s, slot + s.gap, k);
          SpacedPrepend(Candidate(slot, SlotScore(s, slot)), Scan(s, slot + s.gap, k), s.gap);
        }
      }
    }
  }

  /** Every slot the whole search records is admissible, carries its own score, and the slots are a gap apart. */
  lemma CandidatesSoundAndOrdered(s: Search)
    requires s.Valid()
    ensures forall c :: c in Candidates(s) ==> Admissible(s, c.time) && c.score == SlotScore(s, c.time)
    ensures var r := Candidates(s); forall i, j :: 0 <= i < j < |r| ==> r[i].time + s.gap <= r[j].time
    ensures forall c :: c in Candidates(s) ==> c.time >= s.windowStart
  {
    ScanSound(s, s.windowStart, 0);
    ScanOrdered(s, s.windowStart, 0);
  }

  /** For a slot and a padded appointment that are both non-empty, the three-way test is ordinary overlap. */
  lemma OverlapsIsIntervalOverlap(slot: int, slotEnd: int, padStart: int, padEnd: int)
    requires slot < slotEnd && padStart < padEnd
    ensures Overlaps(slot, slotEnd, padStart, padEnd) <==> slot < padEnd && padStart < slotEnd
  {
  }

  /**
   * A cursor that sits before the start of every remaining block records
   * nothing: the block search passes over blocks that start after the cursor
   * instead of moving the cursor up to them.
   */
  lemma CursorBeforeAllBlocks(s: Search, slot: int, blockIdx: nat)
    requires s.Valid() && blockIdx <= |s.blocks|
    requires forall i :: blockIdx <= i < |s.blocks| ==> slot < s.blocks[i].start
    ensures Scan(s, slot, blockIdx) == []
  {
  }

  /**
   * A working day of 08:00-12:00 with one available block 09:00-12:00 and no
   * appointments: 09:00 is bookable, yet the search records no slot at all.
   */
  lemma EarlyWindowSkipsLaterBlock()
    ensures var s := Search(480, 720, 30, 15, 0, 0, [Span(540, 720)], []);
      s.Valid() && Admissible(s, 540) && Candidates(s) == []
  {
    var s := Search(480, 720, 30, 15, 0, 0, [Span(540, 720)], []);
    assert s.blocks[0] in s.blocks;
    CursorBeforeAllBlocks(s, 480, 0);
  }

  /**
   * The block search: advances `blockIdx` past every block that does not
   * contain [slot, slot + duration). It never moves backwards.
   */
  method FindBlock(blocks: seq<Span>, slot: int, duration: int, from: nat) returns (blockIdx: nat)
    requires from <= |blocks|
    ensures blockIdx == SkipBlocks(blocks, slot, slot + duration, from)
  {
    blockIdx := from;
    while blockIdx < |blocks| && (slot < blocks[blockIdx].start || slot + duration > blocks[blockIdx].end)
      invariant from <= blockIdx <= |blocks|
      invariant SkipBlocks(blocks, slot, slot + duration, blockIdx) == SkipBlocks(blocks, slot, slot + duration, from)
    {
      blockIdx := blockIdx + 1;
    }
  }

  /**
   * The appointment pass for the slot [slot, slotEnd): stops at the first
   * appointment whose padded span the slot hits, or whose raw start or end
   * lies within a gap of the slot, and says where the cursor goes next.
   */
  method CheckAppointments(s: Search, slot: int) returns (hasConflict: bool, nextAvailableTime: int)
    requires s.Valid()
    ensures hasConflict <==> FirstConflict(s, s.appointments, slot).Some?
    ensures hasConflict ==> nextAvailableTime == FirstConflict(s, s.appointments, slot).value
  {
    var apps := s.appointments;
    var slotEnd := slot + s.duration;
    hasConflict := false;
    nextAvailableTime := slot + s.gap;
    for i := 0 to |apps|
      invariant !hasConflict ==> nextAvailableTime == slot + s.gap
      invariant !hasConflict ==> FirstConflict(s, apps, slot) == FirstConflict(s, apps[i..], slot)
    {
      var app := apps[i];
      assert apps[i..][1..] == apps[i + 1..];
      var appStart := app.start - s.beforeBuffer;
      var appEnd := app.end + s.afterBuffer;
      if Overlaps(slot, slotEnd, appStart, appEnd) {
        hasConflict := true;
        // Skip to the end of this appointment (plus buffer).
        nextAvailableTime := Max(nextAvailableTime, appEnd);
        break;
      }
      if TooClose(slot, slotEnd, app, s.gap) {
        hasConflict := true;
        // Skip to the end of this appointment (plus buffer and gap).
        nextAvailableTime := Max(nextAvailableTime, appEnd + s.gap);
        break;
      }
    }
    assert !hasConflict ==> apps[|apps|..] == [];
  }

  /** The generator's invariant survives a jump past a conflicting appointment. */
  lemma JumpKeeps(s: Search, slots: seq<Candidate>, slot: int, from: nat, k: nat, next: int, all: seq<Candidate>)
    requires s.Valid() && from <= |s.blocks| && slot + s.duration <= s.windowEnd
    requires k == SkipBlocks(s.blocks, slot, slot + s.duration, from) < |s.blocks|
    requires FirstConflict(s, s.appointments, slot) == Some(next)
    requires slots + Scan(s, slot, from) == all
    ensures slots + Scan(s, next, k) == all
  {
    ScanJumps(s, slot, from, k, next);
  }

  /** The generator's invariant survives recording a clear slot. */
  lemma RecordKeeps(s: Search, slots: seq<Candidate>, slot: int, from: nat, k: nat, score: Extended,
                    all: seq<Candidate>)
    requires s.Valid() && from <= |s.blocks| && slot + s.duration <= s.windowEnd
    requires k == SkipBlocks(s.blocks, slot, slot + s.duration, from) < |s.blocks|
    requires FirstConflict(s, s.appointments, slot) == None
    requires score == ScoreAt(s.appointments, slot, slot + s.duration, s.windowStart, s.windowEnd, s.gap)
    requires slots + Scan(s, slot, from) == all
    ensures (slots + [Candidate(slot, score)]) + Scan(s, slot + s.gap, k) == all
  {
    ScanRecords(s, slot, from, k);
    var rest := Scan(s, slot + s.gap, k);
    assert slots + ([Candidate(slot, score)] + rest) == (slots + [Candidate(slot, score)]) + rest;
  }

  /**
   * The generator loop. `slot` is the cursor and `blockIdx` only moves
   * forward; every pass that does not stop the search moves the cursor
   * forward by at least the gap.
   */
  method GenerateCandidates(s: Search) returns (slots: seq<Candidate>)
    requires s.Valid()
    ensures slots == Candidates(s)
  {
    var blocks := s.blocks;
    slots := [];
    var slot := s.windowStart;
    var blockIdx: nat := 0;
    ghost var all := Candidates(s);
    while slot + s.duration <= s.windowEnd
      invariant blockIdx <= |blocks|
      invariant slots + Scan(s, slot, blockIdx) == all
      decreases s.windowEnd - slot
    {
      ghost var from := blockIdx;
      blockIdx := FindBlock(blocks, slot, s.duration, blockIdx);
      if blockIdx >= |blocks| {
        ScanStops(s, slot, from);
        break;
      }
      // The service's "snap to the block start" and "move to the next block"
      // branches: the search above stopped at a block containing the slot,
      // so neither can be taken.
      if slot < blocks[blockIdx].start {
        assert false;
      }
      var slotEnd := slot + s.duration;
      if slotEnd > blocks[blockIdx].end {
        assert false;
      }
      var hasConflict, nextAvailableTime := CheckAppointments(s, slot);
      if hasConflict {
        JumpKeeps(s, slots, slot, from, blockIdx, nextAvailableTime, all);
        slot := nextAvailableTime;
        continue;
      }
      var score := ScoreSlot(s.appointments, slot, slotEnd, s.windowStart, s.windowEnd, s.gap);
      RecordKeeps(s, slots, slot, from, blockIdx, score, all);
      slots := slots + [Candidate(slot, score)];
      slot := slot + s.gap;
    }
  }

  /**
   * On a day without appointments whose opening minute fits some block, the
   * opening is the first recorded slot, and every slot scores infinity.
   */
  lemma FreeOpeningFirst(s: Search, j: nat)
    requires s.Valid() && s.appointments == []
    requires s.windowStart + s.duration <= s.windowEnd
    requires j < |s.blocks| && Fits(s.blocks[j], s.windowStart, s.windowStart + s.duration)
    ensures var c := Candidates(s);
      |c| > 0 && c[0] == Candidate(s.windowStart, Inf) && forall x :: x in c ==> x.score.Inf?
  {
    var c := Candidates(s);
    SkipBlocksFindsFitting(s.blocks, s.windowStart, s.windowStart + s.duration, 0, j);
    var k := SkipBlocks(s.blocks, s.windowStart, s.windowStart + s.duration, 0);
    assert FirstConflict(s, s.appointments, s.windowStart) == None;
    ScanRecords(s, s.windowStart, 0, k);
    CandidatesSoundAndOrdered(s);
  }

  /**
   * Which slots are recorded depends on where the conflicts move the cursor.
   * In a one-hour window with one block, 10-minute slots and a 15-minute gap,
   * an appointment over [0, 20) sends the cursor to 20 and then to 35, where
   * a slot is recorded ...
   */
  lemma AppointmentShiftsCursor()
    ensures var busy := Search(0, 60, 10, 15, 0, 0, [Span(0, 60)], [Span(0, 20)]);
      busy.Valid() && |Candidates(busy)| > 0 && Candidates(busy)[0].time == 35
  {
    var busy := Search(0, 60, 10, 15, 0, 0, [Span(0, 60)], [Span(0, 20)]);
    ScanJumps(busy, 0, 0, 0, 20);
    ScanJumps(busy, 20, 0, 0, 35);
    ScanRecords(busy, 35, 0, 0);
  }

  /**
   * ... while without the appointment the cursor steps 0, 15, 30, 45 and
   * 35 is never recorded: removing an appointment can take a slot away.
   */
  lemma FreeWindowSteps()
    ensures var free := Search(0, 60, 10, 15, 0, 0, [Span(0, 60)], []);
      free.Valid() && Candidates(free) == [Candidate(0, Inf), Candidate(15, Inf), Candidate(30, Inf), Candidate(45, Inf)]
  {
    var free := Search(0, 60, 10, 15, 0, 0, [Span(0, 60)], []);
    ScanRecords(free, 0, 0, 0);
    ScanRecords(free, 15, 0, 0);
    ScanRecords(free, 30, 0, 0);
    ScanRecords(free, 45, 0, 0);
  }
}
