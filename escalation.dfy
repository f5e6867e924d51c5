/** The escalation classifier: the background colour of a ticket row from its age and status. */
module Escalation {
  import opened Wrappers

  /** The row tiers, from no colour up to red; green marks completed tickets. */
  datatype Tier = NoColor | Yellow | Orange | Red | Green

  /** The CSS colour the table paints for each tier ("" means the default background). */
  function Css(t: Tier): string {
    match t
    case NoColor => ""
    case Yellow => "#FBEE95"
    case Orange => "#FFD0A7"
    case Red => "#F26665"
    case Green => "#76BC43"
  }

  /** Each tier paints its own colour, and only the uncoloured tier paints the default
      background, so the string `getRowColor` returns determines the tier. */
  lemma CssIdentifiesTier(a: Tier, b: Tier)
    ensures Css(a) == Css(b) <==> a == b
    ensures Css(a) == "" <==> a == NoColor
  {
  }

  const MsPerMinute: int := 60000
  /** Age thresholds, in minutes: past 4 days yellow, past 5 days orange, past 10 days red. */
  const YellowAfterMinutes: int := 5760
  const OrangeAfterMinutes: int := 7200
  const RedAfterMinutes: int := 14400

  /** Tier of a non-completed ticket whose age is `ageMs` milliseconds: the first strict
      threshold exceeded, checked from the highest down. Comparing milliseconds against
      minutes times 60000 is the same test as comparing the fractional minute count. */
  function AgeTier(ageMs: int): Tier {
    if ageMs > RedAfterMinutes * MsPerMinute then Red
    else if ageMs > OrangeAfterMinutes * MsPerMinute then Orange
    else if ageMs > YellowAfterMinutes * MsPerMinute then Yellow
    else NoColor
  }

  /** `getRowColor`: completed tickets are green whatever their age; a ticket without a
      creation time has no colour; otherwise the tier follows the age at `now`. */
  function RowColor(createdAt: Option<int>, status: Option<string>, now: int): (t: Tier)
    ensures status == Some("Completed") ==> t == Green
    ensures t == Green ==> status == Some("Completed")
    ensures status != Some("Completed") && createdAt.None? ==> t == NoColor
  {
    if status == Some("Completed") then Green
    else if createdAt.None? then NoColor
    else AgeTier(now - createdAt.value)
  }

  /** Urgency order of the age tiers (green is outside it). */
  function Severity(t: Tier): nat {
    match t
    case NoColor => 0
    case Yellow => 1
    case Orange => 2
    case Red => 3
    case Green => 4
  }

  /** For a dated, non-completed ticket each tier holds exactly on its band of ages. */
  lemma RowColorBands(createdAt: int, status: Option<string>, now: int)
    requires status != Some("Completed")
    ensures var t := RowColor(Some(createdAt), status, now);
      var age := now - createdAt;
      && (t == Red <==> age > 14400 * 60000)
      && (t == Orange <==> 7200 * 60000 < age <= 14400 * 60000)
      && (t == Yellow <==> 5760 * 60000 < age <= 7200 * 60000)
      && (t == NoColor <==> age <= 5760 * 60000)
  {
  }

  /** As a ticket ages its tier never becomes less urgent. */
  lemma RowColorMonotone(createdAt: int, status: Option<string>, now: int, later: int)
    requires now <= later
    ensures Severity(RowColor(Some(createdAt), status, now)) <= Severity(RowColor(Some(createdAt), status, later))
  {
  }

  /** Ages 10000 and 20000 minutes of a waiting ticket give orange and red. */
  lemma RowColorExamples(now: int)
    ensures RowColor(Some(now - 10000 * 60000), Some("Waiting"), now) == Orange
    ensures RowColor(Some(now - 20000 * 60000), Some("Waiting"), now) == Red
    ensures RowColor(Some(now - 60000), Some("Pending"), now) == NoColor
    ensures RowColor(Some(now), Some("Completed"), now) == Green
  {
  }
}
