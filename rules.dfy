/** The regional billing rule and the gap/buffer values the recommender derives from it. */
module Rules {
  import opened Wrappers

  /** A billing rule row; the two buffers are nullable columns. */
  datatype BillingRule = BillingRule(
    gapDurationMinutes: int,
    beforeAppointmentBuffer: Option<int>,
    afterAppointmentBuffer: Option<int>)

  /** The values the slot search uses: minimum gap and the two buffers, in minutes. */
  datatype Policy = Policy(gap: int, beforeBuffer: int, afterBuffer: int)

  const DefaultGap := 15

  /**
   * A negative gap would let the cursor move backwards and the search loop
   * forever, so a rule must not carry one; a missing rule is fine.
   */
  predicate WellFormedRule(rule: Option<BillingRule>) {
    rule.Some? ==> rule.value.gapDurationMinutes >= 0
  }

  /** A missing buffer counts as zero. */
  function BufferOrZero(b: Option<int>): int {
    if b.Some? then b.value else 0
  }

  /**
   * The rule's gap when it is set and non-zero, otherwise 15; the rule's
   * buffers when set, otherwise 0.
   */
  function EffectivePolicy(rule: Option<BillingRule>): (p: Policy)
    requires WellFormedRule(rule)
    ensures p.gap >= 1
    ensures rule.None? ==> p == Policy(DefaultGap, 0, 0)
    ensures rule.Some? && rule.value.gapDurationMinutes == 0 ==> p.gap == DefaultGap
    ensures rule.Some? && rule.value.gapDurationMinutes != 0 ==> p.gap == rule.value.gapDurationMinutes
    ensures rule.Some? ==> p.beforeBuffer == BufferOrZero(rule.value.beforeAppointmentBuffer)
    ensures rule.Some? ==> p.afterBuffer == BufferOrZero(rule.value.afterAppointmentBuffer)
  {
    match rule
    case None => Policy(DefaultGap, 0, 0)
    case Some(r) =>
      Policy(
        if r.gapDurationMinutes != 0 then r.gapDurationMinutes else DefaultGap,
        BufferOrZero(r.beforeAppointmentBuffer),
        BufferOrZero(r.afterAppointmentBuffer))
  }
}
