/**
  Whole lookup cycles of the screen, built from the transitions of `Screen`.
  A cycle runs Idle -> Loading -> one of Success, NotFound, TransportError;
  a success also settles the decorative image before the loading flag drops.
  The component can be torn down between any two steps: `Step` lists the
  steps, `Run` applies a sequence of them, and once `Teardown` has happened
  no later step changes anything.
 */
module Cycle {
  import opened JsValues
  import opened History
  import opened Screen

  /** The three ends of a lookup, read off the catalog's reply. */
  datatype Outcome = Success | NotFound(message: string) | TransportError

  function Classify(resp: Response): (o: Outcome)
    ensures o.Success? <==> resp.Json? && !NumberTruthy(resp.code)
    ensures o.TransportError? <==> resp.NotOk? || resp.Threw?
    ensures o.NotFound? ==> o.message == OrElse(resp.errorMessage, NotFoundMessage) && o.message != ""
  {
    match resp
    case Json(code, message, _) =>
      if NumberTruthy(code) then NotFound(OrElse(message, NotFoundMessage)) else Success
    case _ => TransportError
  }

  /** One asynchronous step of the screen, or its teardown. */
  datatype Step =
    | Begin(id: string)                          // fetchAsteroidData(id) starts
    | Reply(id: string, resp: Response)          // its catalog reply settles
    | Image(img: ImageResponse)                  // the picture of the day settles
    | Finally                                    // a `finally` block runs
    | StartRandom                                // handleRandomAsteroid starts
    | Page(page: BrowseResponse, pick: nat)      // the browse reply settles
    | Teardown                                   // the effect cleanup runs

  function Apply(s: State, step: Step): (r: State)
    ensures !s.mounted ==> r == s
    ensures r.mounted ==> s.mounted
  {
    match step
    case Begin(id) => BeginLookup(s, id)
    case Reply(id, resp) => Respond(s, id, resp)
    case Image(img) => ApplyImage(s, img)
    case Finally => Settle(s)
    case StartRandom => BeginRandom(s)
    case Page(page, pick) => RandomPage(s, page, pick).0
    case Teardown => Unmount(s)
  }

  /** A recent-searches list as the screen keeps it: no id twice, at most five. */
  ghost predicate RecentOk(h: seq<string>) {
    NoDup(h) && |h| <= MaxRecent
  }

  /** Applies `steps` in order. An unmounted screen ignores all of them, and
      no sequence of steps breaks the shape of the recent searches. */
  function Run(s: State, steps: seq<Step>): (r: State)
    ensures !s.mounted ==> r == s
    ensures RecentOk(s.recent) ==> RecentOk(r.recent)
    ensures r.mounted ==> s.mounted
    decreases |steps|
  {
    if steps == [] then s else Run(Apply(s, steps[0]), steps[1..])
  }

  lemma {:induction false} RunAppend(s: State, a: seq<Step>, b: seq<Step>)
    ensures Run(s, a + b) == Run(Run(s, a), b)
    decreases |a|
  {
    if a == [] {
      assert a + b == b;
    } else {
      assert (a + b)[0] == a[0];
      assert (a + b)[1..] == a[1..] + b;
      RunAppend(Apply(s, a[0]), a[1..], b);
    }
  }

  /** Whatever completes after the teardown is discarded: the screen stays as
      the teardown left it. */
  lemma TeardownFreezes(s: State, before: seq<Step>, after: seq<Step>)
    ensures Run(s, before + [Teardown] + after) == Unmount(Run(s, before))
  {
    RunAppend(s, before + [Teardown], after);
    RunAppend(s, before, [Teardown]);
    var t := Run(s, before);
    assert Run(t, [Teardown]) == Run(Unmount(t), []);
  }

  /** `fetchAsteroidData(id)` from start to `finally`, with the screen mounted
      throughout (or not mounted at all, in which case nothing happens). */
  function LookupCycle(s: State, id: string, resp: Response, img: ImageResponse): (r: State)
    ensures !LookupStarts(s, id) ==> r == s
    ensures LookupStarts(s, id) ==>
              && !r.loading && r.mounted && r.input == s.input
              && match Classify(resp)
                 case TransportError =>
                   && r.error == Some(FetchFailedMessage) && r.record.None?
                   && r.recent == s.recent
                   && r.imageUrl == s.imageUrl && r.imageInfo == s.imageInfo
                 case NotFound(m) =>
                   && r.error == Some(m) && r.record.None?
                   && r.recent == s.recent
                   && r.imageUrl == s.imageUrl && r.imageInfo == s.imageInfo
                 case Success =>
                   && r.error.None? && r.record == Some(resp.body)
                   && r.recent == UpdateRecent(id, s.recent)
                   && (if img.ImageJson? && img.mediaType == "image"
                       then r.imageUrl == img.url && r.imageInfo.Some?
                       else r.imageUrl == PlaceholderImage && r.imageInfo == s.imageInfo)
  {
    if !LookupStarts(s, id) then s
    else
      var replied := Respond(BeginLookup(s, id), id, resp);
      Settle(if Classify(resp).Success? then ApplyImage(replied, img) else replied)
  }

  /** The steps a lookup takes when nothing interrupts it. */
  function LookupSteps(id: string, resp: Response, img: ImageResponse): seq<Step> {
    [Begin(id), Reply(id, resp)] + (if Classify(resp).Success? then [Image(img)] else []) + [Finally]
  }

  /** The composed cycle is exactly the step machine run over its steps. */
  lemma LookupCycleIsRun(s: State, id: string, resp: Response, img: ImageResponse)
    requires LookupStarts(s, id)
    ensures LookupCycle(s, id, resp, img) == Run(s, LookupSteps(id, resp, img))
  {
    var s1 := BeginLookup(s, id);
    var s2 := Respond(s1, id, resp);
    if Classify(resp).Success? {
      var steps := [Begin(id), Reply(id, resp), Image(img), Finally];
      assert LookupSteps(id, resp, img) == steps;
      assert Run(s, steps) == Run(s1, steps[1..]);
      assert Run(s1, steps[1..]) == Run(s2, steps[2..]);
      assert Run(s2, steps[2..]) == Run(ApplyImage(s2, img), steps[3..]);
      assert Run(ApplyImage(s2, img), steps[3..]) == Run(Settle(ApplyImage(s2, img)), []);
    } else {
      var steps := [Begin(id), Reply(id, resp), Finally];
      assert LookupSteps(id, resp, img) == steps;
      assert Run(s, steps) == Run(s1, steps[1..]);
      assert Run(s1, steps[1..]) == Run(s2, steps[2..]);
      assert Run(s2, steps[2..]) == Run(Settle(s2), []);
    }
  }

  /** `handleRandomAsteroid` from start to `finally`, mounted throughout: the
      browse step, then (when it picked an id) an ordinary lookup of that id,
      then the outer `finally`. */
  function RandomCycle(s: State, page: BrowseResponse, pick: nat, resp: Response, img: ImageResponse)
    : (r: State)
    ensures !s.mounted ==> r == s
    ensures s.mounted ==> !r.loading && r.mounted
    ensures s.mounted && RandomPage(BeginRandom(s), page, pick).1.None? ==>
              && r.error == Some(RandomFailedMessage)
              && r.input == s.input && r.record == s.record && r.recent == s.recent
              && r.imageUrl == s.imageUrl && r.imageInfo == s.imageInfo
    ensures s.mounted && RandomPage(BeginRandom(s), page, pick).1.Some? ==>
              var id := RandomPage(BeginRandom(s), page, pick).1.value;
              && id == page.objects.value[pick]
              && r.input == id
              && (id != "" ==> r == LookupCycle(s.(input := id), id, resp, img))
              && (id == "" ==> r.error.None? && r.record == s.record && r.recent == s.recent)
  {
    if !s.mounted then s
    else
      var (picked, next) := RandomPage(BeginRandom(s), page, pick);
      Settle(if next.Some? then LookupCycle(picked, next.value, resp, img) else picked)
  }

  /** Searching twice in a row for the same id (both succeed) leaves the
      first four entries of the list the first search produced; it is only
      the same list when that list had at most four entries. */
  lemma RepeatLookup(s: State, id: string, resp1: Response, img1: ImageResponse,
                     resp2: Response, img2: ImageResponse)
    requires LookupStarts(s, id) && RecentOk(s.recent)
    requires Classify(resp1).Success? && Classify(resp2).Success?
    ensures var first := LookupCycle(s, id, resp1, img1);
            var second := LookupCycle(first, id, resp2, img2);
            && second.recent == Kept(first.recent)
            && (|first.recent| <= KeptEntries ==> second.recent == first.recent)
  {
    var first := LookupCycle(s, id, resp1, img1);
    assert first.recent == UpdateRecent(id, s.recent);
    RepeatHeadSearch(id, first.recent);
  }
}
