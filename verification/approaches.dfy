/**
  The close-approach panel of the result card. The record's approach list is
  searched for the first approach dated strictly after "now"; if there is
  one the card shows it as the next approach with the number of days until
  it, rounded up, otherwise it shows the last approach of the list as the
  last known one. Dates are milliseconds since the epoch and "now" is a
  parameter.
 */
module Approaches {
  import opened JsValues

  /** One entry of `close_approach_data`. The distance and the velocity are
      the decimal strings the catalog sends; they are only formatted. */
  datatype Approach = Approach(date: int, missKm: string, velocityKmh: string)

  /** `1000 * 60 * 60 * 24` */
  const MsPerDay: int := 1000 * 60 * 60 * 24

  /** What the approach section of the card shows. */
  datatype Panel =
    | Hidden                                   // the record has no approach list
    | NextApproach(next: Approach, daysUntil: int)
    | LastKnown(last: Approach)
    | RenderFault                              // an empty list: the card cannot be drawn

  predicate IsFuture(a: Approach, now: int) {
    a.date > now
  }

  /** `close_approach_data.find(approach => approachDate > currentDate)`,
      as the index of the approach found. */
  function FirstFuture(xs: seq<Approach>, now: int): (r: Option<nat>)
    ensures r.Some? ==> r.value < |xs| && IsFuture(xs[r.value], now)
    ensures r.Some? ==> forall j :: 0 <= j < r.value ==> !IsFuture(xs[j], now)
    ensures r.None? <==> forall j :: 0 <= j < |xs| ==> !IsFuture(xs[j], now)
  {
    if xs == [] then None
    else if IsFuture(xs[0], now) then Some(0)
    else
      match FirstFuture(xs[1..], now)
      case None => None
      case Some(i) => Some(i + 1)
  }

  /** `Math.ceil((approachDate - currentDate) / (1000 * 60 * 60 * 24))`: the
      number of whole days that covers the time until `date`. */
  function DaysUntil(date: int, now: int): (d: int)
    ensures MsPerDay * (d - 1) < date - now <= MsPerDay * d
    ensures date > now ==> d >= 1
  {
    -((now - date) / MsPerDay)
  }

  /** The approach section for the stored list `approaches` at time `now`:
      the earliest-listed future approach with the days until it, else the
      last approach of a non-empty list. */
  function ShowApproaches(approaches: Option<seq<Approach>>, now: int): (p: Panel)
    ensures p.Hidden? <==> approaches.None?
    ensures p.RenderFault? <==> approaches == Some([])
    ensures p.NextApproach? <==>
              && approaches.Some?
              && exists j :: 0 <= j < |approaches.value| && IsFuture(approaches.value[j], now)
    ensures p.NextApproach? ==>
              exists i :: && 0 <= i < |approaches.value|
                          && approaches.value[i] == p.next
                          && IsFuture(p.next, now)
                          && forall j :: 0 <= j < i ==> !IsFuture(approaches.value[j], now)
    ensures p.NextApproach? ==> p.daysUntil >= 1 && p.daysUntil == DaysUntil(p.next.date, now)
    ensures p.LastKnown? ==>
              && approaches.Some? && |approaches.value| > 0
              && p.last == approaches.value[|approaches.value| - 1]
  {
    match approaches
    case None => Hidden
    case Some(xs) =>
      match FirstFuture(xs, now)
      case Some(i) => NextApproach(xs[i], DaysUntil(xs[i].date, now))
      case None => if xs == [] then RenderFault else LastKnown(xs[|xs| - 1])
  }
}
