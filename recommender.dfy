/**
 * The slot recommender as a whole: resolve the working window for the
 * requested date, generate the candidate slots, rank them, and render the
 * best ten as minute-precision timestamps.
 */
module Recommender {
  import opened Wrappers
  import opened Clock
  import opened Rules
  import opened Schedule
  import opened Scoring
  import opened Generator
  import opened Ranking

  datatype Status = Success | Error

  datatype Response = Response(status: Status, recommendedSlots: seq<string>, message: Option<string>)

  const NoWorkingHoursMessage := "No working hours for this day"

  /** The working-hours table: weekday label ("sun" ... "sat") to its list of clock strings. */
  type WorkingHours = map<string, seq<string>>

  /** What the caller guarantees: a real date, a duration of at least one minute, a rule without a negative gap. */
  predicate ValidRequest(date: Date, durationMinutes: int, rule: Option<BillingRule>) {
    ValidDate(date) && durationMinutes >= 1 && WellFormedRule(rule)
  }

  /** The entry for the day is missing or is not a (start, end) pair. */
  predicate NoWorkingHours(workingHours: WorkingHours, date: Date)
    requires 1 <= date.month <= 12
  {
    var day := WeekdayLabel(date);
    day !in workingHours || |workingHours[day]| != 2
  }

  /**
   * The working window a (start, end) entry names, in minutes of the day;
   * None when either string names no time, in which case the window's
   * instants are invalid and no slot can be generated.
   */
  function WorkingWindow(hours: seq<string>): (w: Option<(int, int)>)
    requires |hours| == 2
    ensures w.Some? <==> ParseClock(hours[0]).Some? && ParseClock(hours[1]).Some?
    ensures w.Some? ==> w.value == (ParseClock(hours[0]).value, ParseClock(hours[1]).value)
    ensures w.Some? ==> 0 <= w.value.0 && w.value.1 <= 1440
  {
    var start, end := ParseClock(hours[0]), ParseClock(hours[1]);
    if start.Some? && end.Some? then Some((start.value, end.value)) else None
  }

  /** The search over the window [start, end]: available blocks and appointments each sorted by start. */
  function SearchFor(start: int, end: int, durationMinutes: int, policy: Policy,
                     appointments: seq<Span>, blocks: seq<Block>): Search
  {
    Search(start, end, durationMinutes, policy.gap, policy.beforeBuffer, policy.afterBuffer,
           SortByStart(AvailableSpans(blocks)), SortByStart(appointments))
  }

  /** Each ranked slot as "YYYY-MM-DDTHH:MM:00" on the requested date. */
  function Timestamps(date: Date, ranked: seq<Candidate>): (r: seq<string>)
    requires ValidDate(date) && forall c :: c in ranked ==> 0 <= c.time < 1440
    ensures |r| == |ranked|
    ensures forall i :: 0 <= i < |ranked| ==> r[i] == SlotString(date, ranked[i].time)
  {
    seq(|ranked|, i requires 0 <= i < |ranked| => SlotString(date, ranked[i].time))
  }

  /** Every ranked slot lies inside the window, so on the requested day when the window is. */
  lemma RankedAdmissible(s: Search)
    requires s.Valid()
    ensures forall c :: c in Rank(Candidates(s)) ==> Admissible(s, c.time) && c.score == SlotScore(s, c.time)
  {
    CandidatesSoundAndOrdered(s);
  }

  /** The response for one request, given the already-fetched data. */
  function Recommend(workingHours: WorkingHours, date: Date, durationMinutes: int,
                     appointments: seq<Span>, blocks: seq<Block>, rule: Option<BillingRule>): (r: Response)
    requires ValidRequest(date, durationMinutes, rule)
    ensures r.status == Error <==> NoWorkingHours(workingHours, date)
    ensures r.status == Error ==> r.recommendedSlots == [] && r.message == Some(NoWorkingHoursMessage)
    ensures !NoWorkingHours(workingHours, date) && WorkingWindow(workingHours[WeekdayLabel(date)]).None? ==>
      r == Response(Success, [], None)
    ensures |r.recommendedSlots| <= MaxRecommendations
    ensures forall i :: 0 <= i < |r.recommendedSlots| ==>
      |r.recommendedSlots[i]| == 19 && r.recommendedSlots[i][16..] == ":00"
  {
    var policy := EffectivePolicy(rule);
    var day := WeekdayLabel(date);
    if day !in workingHours || |workingHours[day]| != 2 then
      Response(Error, [], Some(NoWorkingHoursMessage))
    else
      match WorkingWindow(workingHours[day])
      case None => Response(Success, [], None)
      case Some((start, end)) =>
        var s := SearchFor(start, end, durationMinutes, policy, appointments, blocks);
        var ranked := Rank(Candidates(s));
        RankedAdmissible(s);
        Response(Success, Timestamps(date, ranked), None)
  }

  /** recommendSlots after the data has been fetched. */
  method RecommendSlots(workingHours: WorkingHours, date: Date, durationMinutes: int,
                        appointments: seq<Span>, blocks: seq<Block>, rule: Option<BillingRule>)
    returns (response: Response)
    requires ValidRequest(date, durationMinutes, rule)
    ensures response == Recommend(workingHours, date, durationMinutes, appointments, blocks, rule)
  {
    var policy := EffectivePolicy(rule);
    var day := WeekdayLabel(date);
    if day !in workingHours || |workingHours[day]| != 2 {
      return Response(Error, [], Some(NoWorkingHoursMessage));
    }
    var window := WorkingWindow(workingHours[day]);
    if window.None? {
      return Response(Success, [], None);
    }
    var (start, end) := window.value;
    var s := SearchFor(start, end, durationMinutes, policy, appointments, blocks);
    var slots := GenerateCandidates(s);
    var ranked := Rank(slots);
    RankedAdmissible(s);
    response := Response(Success, Timestamps(date, ranked), None);
  }

  /**
   * A slot start that the fetched data allows: inside the window, inside one
   * block of kind "available", clear of every appointment padded by the
   * buffers, and at least a gap from every appointment's raw start and end.
   */
  ghost predicate Bookable(t: int, start: int, end: int, durationMinutes: int, policy: Policy,
                           appointments: seq<Span>, blocks: seq<Block>)
  {
    && start <= t && t + durationMinutes <= end
    && (exists b :: b in blocks && b.kind == Available && Fits(b.span, t, t + durationMinutes))
    && forall a :: a in appointments ==>
         && !Overlaps(t, t + durationMinutes, a.start - policy.beforeBuffer, a.end + policy.afterBuffer)
         && Abs(t - a.end) >= policy.gap
         && Abs(t + durationMinutes - a.start) >= policy.gap
  }

  /** Sorting by start neither adds nor loses a span. */
  lemma InSortedIffIn(spans: seq<Span>, x: Span)
    ensures x in SortByStart(spans) <==> x in spans
  {
    assert x in SortByStart(spans) <==> x in multiset(SortByStart(spans));
    assert x in spans <==> x in multiset(spans);
  }

  /** An admissible slot of the search built from the fetched data is bookable under that data. */
  lemma AdmissibleIsBookable(start: int, end: int, durationMinutes: int, policy: Policy,
                             appointments: seq<Span>, blocks: seq<Block>, t: int)
    requires Admissible(SearchFor(start, end, durationMinutes, policy, appointments, blocks), t)
    ensures Bookable(t, start, end, durationMinutes, policy, appointments, blocks)
  {
    var s := SearchFor(start, end, durationMinutes, policy, appointments, blocks);
    var b :| b in s.blocks && Fits(b, t, t + durationMinutes);
    InSortedIffIn(AvailableSpans(blocks), b);
    var block :| block in blocks && block.kind == Available && block.span == b;
    assert block in blocks && block.kind == Available && Fits(block.span, t, t + durationMinutes);
    forall a | a in appointments
      ensures && !Overlaps(t, t + durationMinutes, a.start - policy.beforeBuffer, a.end + policy.afterBuffer)
              && Abs(t - a.end) >= policy.gap
              && Abs(t + durationMinutes - a.start) >= policy.gap
    {
      InSortedIffIn(appointments, a);
      assert Clear(s, t, a);
    }
  }

  /** Each timestamp renders one of the ranked slots. */
  lemma TimestampOfRankedSlot(date: Date, ranked: seq<Candidate>, ts: string)
    requires ValidDate(date) && forall c :: c in ranked ==> 0 <= c.time < 1440
    requires ts in Timestamps(date, ranked)
    ensures exists c :: c in ranked && ts == SlotString(date, c.time)
  {
    var i :| 0 <= i < |ranked| && Timestamps(date, ranked)[i] == ts;
    assert ranked[i] in ranked;
  }

  /**
   * Every recommended timestamp names, on the requested date, a slot start
   * that the working window, the available blocks, the appointments and the
   * gap rule all allow.
   */
  lemma RecommendSound(workingHours: WorkingHours, date: Date, durationMinutes: int,
                       appointments: seq<Span>, blocks: seq<Block>, rule: Option<BillingRule>,
                       start: int, end: int)
    requires ValidRequest(date, durationMinutes, rule)
    requires !NoWorkingHours(workingHours, date)
    requires WorkingWindow(workingHours[WeekdayLabel(date)]) == Some((start, end))
    ensures forall ts :: ts in Recommend(workingHours, date, durationMinutes, appointments, blocks, rule).recommendedSlots ==>
      exists t :: 0 <= t < 1440 && ts == SlotString(date, t) &&
                  Bookable(t, start, end, durationMinutes, EffectivePolicy(rule), appointments, blocks)
  {
    var policy := EffectivePolicy(rule);
    var s := SearchFor(start, end, durationMinutes, policy, appointments, blocks);
    var ranked := Rank(Candidates(s));
    RankedAdmissible(s);
    assert Recommend(workingHours, date, durationMinutes, appointments, blocks, rule).recommendedSlots
      == Timestamps(date, ranked);
    forall ts | ts in Timestamps(date, ranked)
      ensures exists t :: 0 <= t < 1440 && ts == SlotString(date, t) &&
                          Bookable(t, start, end, durationMinutes, policy, appointments, blocks)
    {
      TimestampOfRankedSlot(date, ranked, ts);
      var c :| c in ranked && ts == SlotString(date, c.time);
      AdmissibleIsBookable(start, end, durationMinutes, policy, appointments, blocks, c.time);
    }
  }

  /** At most ten slots are recommended, and all of them when fewer than ten are generated. */
  lemma RecommendCount(workingHours: WorkingHours, date: Date, durationMinutes: int,
                       appointments: seq<Span>, blocks: seq<Block>, rule: Option<BillingRule>,
                       start: int, end: int)
    requires ValidRequest(date, durationMinutes, rule)
    requires !NoWorkingHours(workingHours, date)
    requires WorkingWindow(workingHours[WeekdayLabel(date)]) == Some((start, end))
    ensures var n := |Candidates(SearchFor(start, end, durationMinutes, EffectivePolicy(rule), appointments, blocks))|;
      |Recommend(workingHours, date, durationMinutes, appointments, blocks, rule).recommendedSlots|
        == if n < MaxRecommendations then n else MaxRecommendations
  {
    var s := SearchFor(start, end, durationMinutes, EffectivePolicy(rule), appointments, blocks);
    RankedAdmissible(s);
    assert Recommend(workingHours, date, durationMinutes, appointments, blocks, rule).recommendedSlots
      == Timestamps(date, Rank(Candidates(s)));
  }

  /**
   * The recommendations are the ranked slots, best first, each rendered on
   * the requested date: the i-th string is the i-th slot of the ranking.
   */
  lemma RecommendRanked(workingHours: WorkingHours, date: Date, durationMinutes: int,
                        appointments: seq<Span>, blocks: seq<Block>, rule: Option<BillingRule>,
                        start: int, end: int)
    requires ValidRequest(date, durationMinutes, rule)
    requires !NoWorkingHours(workingHours, date)
    requires WorkingWindow(workingHours[WeekdayLabel(date)]) == Some((start, end))
    ensures var ranked := Rank(Candidates(SearchFor(start, end, durationMinutes, EffectivePolicy(rule), appointments, blocks)));
      var slots := Recommend(workingHours, date, durationMinutes, appointments, blocks, rule).recommendedSlots;
      && (forall i :: 0 <= i < |ranked| ==> start <= ranked[i].time < 1440)
      && |slots| == |ranked|
      && forall i :: 0 <= i < |ranked| ==> slots[i] == SlotString(date, ranked[i].time)
  {
    var s := SearchFor(start, end, durationMinutes, EffectivePolicy(rule), appointments, blocks);
    var ranked := Rank(Candidates(s));
    RankedAdmissible(s);
    assert Recommend(workingHours, date, durationMinutes, appointments, blocks, rule).recommendedSlots
      == Timestamps(date, ranked);
  }

  /** Recorded slots with equal scores are recommended in time order. */
  lemma RankedTiesChronological(s: Search)
    requires s.Valid()
    ensures var r := Rank(Candidates(s));
      forall i, j :: 0 <= i < j < |r| && r[i].score == r[j].score ==> r[i].time < r[j].time
  {
    CandidatesSoundAndOrdered(s);
    RankTiesChronological(Candidates(s));
  }

  /**
   * When the working day starts before every available block, the cursor
   * passes over all the blocks and the day gets no recommendation at all,
   * however much room the blocks have.
   */
  lemma WindowBeforeEveryBlock(workingHours: WorkingHours, date: Date, durationMinutes: int,
                               appointments: seq<Span>, blocks: seq<Block>, rule: Option<BillingRule>,
                               start: int, end: int)
    requires ValidRequest(date, durationMinutes, rule)
    requires !NoWorkingHours(workingHours, date)
    requires WorkingWindow(workingHours[WeekdayLabel(date)]) == Some((start, end))
    requires forall b :: b in blocks && b.kind == Available ==> start < b.span.start
    ensures Recommend(workingHours, date, durationMinutes, appointments, blocks, rule) == Response(Success, [], None)
  {
    var s := SearchFor(start, end, durationMinutes, EffectivePolicy(rule), appointments, blocks);
    forall i | 0 <= i < |s.blocks|
      ensures start < s.blocks[i].start
    {
      InSortedIffIn(AvailableSpans(blocks), s.blocks[i]);
    }
    CursorBeforeAllBlocks(s, start, 0);
  }

  /**
   * A day without appointments whose opening minute fits an available block:
   * the first recommendation is the opening itself.
   */
  lemma FreeDayStartsAtOpening(workingHours: WorkingHours, date: Date, durationMinutes: int,
                               blocks: seq<Block>, rule: Option<BillingRule>, start: int, end: int, b: Block)
    requires ValidRequest(date, durationMinutes, rule)
    requires !NoWorkingHours(workingHours, date)
    requires WorkingWindow(workingHours[WeekdayLabel(date)]) == Some((start, end))
    requires start + durationMinutes <= end
    requires b in blocks && b.kind == Available && Fits(b.span, start, start + durationMinutes)
    ensures var r := Recommend(workingHours, date, durationMinutes, [], blocks, rule);
      r.status == Success && |r.recommendedSlots| > 0 && r.recommendedSlots[0] == SlotString(date, start)
  {
    var s := SearchFor(start, end, durationMinutes, EffectivePolicy(rule), [], blocks);
    assert s.appointments == [];
    InSortedIffIn(AvailableSpans(blocks), b.span);
    var j :| 0 <= j < |s.blocks| && s.blocks[j] == b.span;
    FreeOpeningFirst(s, j);
    var c := Candidates(s);
    AllInfiniteKeepsOrder(c);
    assert Rank(c)[0] == Candidate(start, Inf);
  }

  /**
   * Wednesday 2025-07-09 worked 09:00-17:00, one available block 09:00-17:00,
   * no appointments, a 15-minute gap and a 30-minute request: the first
   * recommendation is 09:00 that day.
   */
  lemma OpenWednesday()
    ensures var r := Recommend(map["wed" := ["09:00", "17:00"]], Date(2025, 7, 9), 30, [],
                               [Block(Span(540, 1020), Available)], Some(BillingRule(15, Some(0), Some(0))));
      r.status == Success && |r.recommendedSlots| > 0 && r.recommendedSlots[0] == "2025-07-09T09:00:00"
  {
    var hours: WorkingHours := map["wed" := ["09:00", "17:00"]];
    var date := Date(2025, 7, 9);
    var b := Block(Span(540, 1020), Available);
    WeekdayOf20250709();
    NineToFive();
    FreeDayStartsAtOpening(hours, date, 30, [b], Some(BillingRule(15, Some(0), Some(0))), 540, 1020, b);
    NineOnJulyNinth();
  }

  lemma NineToFive()
    ensures WorkingWindow(["09:00", "17:00"]) == Some((540, 1020))
  {
    assert ParseClock("09:00") == Some(540);
    assert ParseClock("17:00") == Some(1020);
  }

  lemma NineOnJulyNinth()
    ensures SlotString(Date(2025, 7, 9), 540) == "2025-07-09T09:00:00"
  {
  }
}
