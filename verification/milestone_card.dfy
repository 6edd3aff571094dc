/** How a single milestone card is highlighted (MilestoneCard.tsx): the
    card is "active" when the milestone is planned for exactly the current
    age and "overdue" when its planned age has passed, and a completed
    milestone is neither. Without a current age nothing is highlighted. */
module MilestoneCard {
  import opened Wrappers
  import opened Types
  import opened MilestoneOrder

  /** `isActive`: the planned age must be present and equal to the
      current age (a missing age never matches). */
  predicate IsActive(m: Milestone, currentAge: Option<int>) {
    currentAge.Some? && m.status != Completed && m.estimatedAge == Some(currentAge.value)
  }

  /** `isOverdue`: a missing planned age counts as 0. */
  predicate IsOverdue(m: Milestone, currentAge: Option<int>) {
    currentAge.Some? && m.status != Completed && Age(m) < currentAge.value
  }

  /** The highlight a card gets. */
  datatype Highlight = ActiveCard | OverdueCard | PlainCard

  function CardHighlight(m: Milestone, currentAge: Option<int>): (h: Highlight)
    ensures h == ActiveCard <==> IsActive(m, currentAge)
    ensures h == OverdueCard <==> IsOverdue(m, currentAge)
    ensures h == PlainCard <==> m.status == Completed || currentAge.None? || Age(m) > currentAge.value
                                 || (m.estimatedAge.None? && currentAge.value == 0)
  {
    if IsActive(m, currentAge) then ActiveCard
    else if IsOverdue(m, currentAge) then OverdueCard
    else PlainCard
  }

  /** Active and overdue exclude each other; a card without a planned age
      is overdue for every positive current age. */
  lemma ActiveAndOverdueExclusive(m: Milestone, currentAge: Option<int>)
    ensures !(IsActive(m, currentAge) && IsOverdue(m, currentAge))
    ensures m.status != Completed && m.estimatedAge.None? && currentAge.Some? && currentAge.value > 0
            ==> IsOverdue(m, currentAge)
  {
  }
}
