/**
  The Asteroid Explorer screen: its state record and the transitions the
  component's handlers and asynchronous completions apply to it. Network
  replies are inputs (`Response`, `ImageResponse`, `BrowseResponse`), the
  random choice of a browse entry is the index `pick`, and the component's
  `mounted` ref is a field of the state. Every write a completion makes is
  guarded by that field, exactly where the component tests it.
 */
module Screen {
  import opened JsValues
  import opened History
  import opened Approaches

  /** `estimated_diameter.kilometers` */
  datatype Diameter = Diameter(minKm: real, maxKm: real)

  /** A near-Earth object as the catalog returns it. */
  datatype Asteroid = Asteroid(
    id: string,
    name: string,
    hazardous: bool,
    diameter: Option<Diameter>,
    approaches: Option<seq<Approach>>,
    jplUrl: string)

  /** The metadata shown under a picture of the day. */
  datatype ImageInfo = ImageInfo(title: string, explanation: string, date: string, copyright: string)

  /** The component's state hooks, plus its `mounted` ref. */
  datatype State = State(
    input: string,                 // asteroidId
    record: Option<Asteroid>,      // asteroidData
    error: Option<string>,         // error
    loading: bool,                 // loading
    imageUrl: string,              // imageUrl
    imageInfo: Option<ImageInfo>,  // asteroidImageData
    recent: seq<string>,           // recentSearches
    mounted: bool)                 // mounted.current

  /** The reply to `GET /neo/{id}`: a non-ok status, a fetch or JSON parse that
      threw, or a parsed body. A body with a truthy `code` is the catalog's
      "not found" answer; otherwise the body is the record. */
  datatype Response =
    | NotOk
    | Threw
    | Json(code: Option<int>, errorMessage: Option<string>, body: Asteroid)

  /** The reply to `GET /planetary/apod?date=...`. */
  datatype ImageResponse =
    | ImageNotOk
    | ImageThrew
    | ImageJson(mediaType: string, url: string, title: string, explanation: string,
                date: string, copyright: Option<string>)

  /** The reply to `GET /neo/browse`: the ids of `near_earth_objects`, absent
      when the body has no such list. */
  datatype BrowseResponse =
    | BrowseNotOk
    | BrowseThrew
    | BrowseJson(objects: Option<seq<string>>)

  /** What pressing Search does besides changing the state. */
  datatype SubmitOutcome =
    | Alerted(title: string, message: string)  // Alert.alert; no lookup
    | LookingUp(id: string)                    // a lookup of `id` is in flight
    | Dropped                                  // the lookup returned at once: unmounted

  const NotFoundMessage := "Asteroid not found"
  const FetchFailedMessage := "Error fetching data. Please try again."
  const RandomFailedMessage := "Error fetching random asteroid."
  const EmptyIdTitle := "Error"
  const EmptyIdMessage := "Asteroid ID cannot be empty!"
  const PlaceholderImage := "https://source.unsplash.com/featured/?asteroid,space"
  const DefaultCopyright := "NASA"

  /** The state of a freshly rendered screen, before the mount effect runs. */
  const Initial := State("", None, None, false, "", None, [], false)

  /** The mount effect sets the ref. */
  function Mount(s: State): (r: State)
    ensures r.mounted
    ensures r.(mounted := s.mounted) == s
  {
    s.(mounted := true)
  }

  /** The effect's cleanup clears the ref; nothing else changes. */
  function Unmount(s: State): (r: State)
    ensures !r.mounted
    ensures r.(mounted := s.mounted) == s
  {
    s.(mounted := false)
  }

  /** Whether `fetchAsteroidData(id)` gets past its guard: `id` is truthy (a
      non-empty string) and the screen is mounted. */
  predicate LookupStarts(s: State, id: string) {
    id != "" && s.mounted
  }

  /** The synchronous start of `fetchAsteroidData(id)`: raise the loading flag
      and clear the error, or do nothing at all past the guard. */
  function BeginLookup(s: State, id: string): (r: State)
    ensures LookupStarts(s, id) ==> r.loading && r.error.None?
    ensures LookupStarts(s, id) ==> r.(loading := s.loading, error := s.error) == s
    ensures !LookupStarts(s, id) ==> r == s
  {
    if !LookupStarts(s, id) then s else s.(loading := true, error := None)
  }

  /** The catalog's reply to the lookup of `id` has arrived (or the request
      failed). Not found: the error is the server's message, or the fallback
      when it sends none or an empty one, and the record is cleared. Transport
      failure: the fixed retry message and no record. Success: the record is
      stored and `id` goes to the front of the recent searches. Each write is
      dropped when the screen is no longer mounted. The loading flag is left
      to the `finally` step, `Settle`. */
  function Respond(s: State, id: string, resp: Response): (r: State)
    ensures !s.mounted ==> r == s
    ensures r.mounted == s.mounted && r.loading == s.loading && r.input == s.input
    ensures r.imageUrl == s.imageUrl && r.imageInfo == s.imageInfo
    ensures s.mounted && (resp.NotOk? || resp.Threw?) ==>
              r.error == Some(FetchFailedMessage) && r.record.None? && r.recent == s.recent
    ensures s.mounted && resp.Json? && NumberTruthy(resp.code) ==>
              && r.error == Some(OrElse(resp.errorMessage, NotFoundMessage))
              && r.record.None? && r.recent == s.recent
    ensures s.mounted && resp.Json? && !NumberTruthy(resp.code) ==>
              && r.record == Some(resp.body) && r.error == s.error
              && r.recent == UpdateRecent(id, s.recent)
  {
    if !s.mounted then s
    else
      match resp
      case NotOk => s.(error := Some(FetchFailedMessage), record := None)
      case Threw => s.(error := Some(FetchFailedMessage), record := None)
      case Json(code, message, body) =>
        if NumberTruthy(code) then s.(error := Some(OrElse(message, NotFoundMessage)), record := None)
        else s.(record := Some(body), recent := UpdateRecent(id, s.recent))
  }

  /** `fetchAsteroidImage` once its request has settled: an image stores its
      URL and metadata, with the copyright defaulting to "NASA"; any other
      media type, a non-ok status or a thrown request shows the placeholder
      and leaves the old metadata in place. Nothing here touches the error,
      the record, the history or the loading flag. */
  function ApplyImage(s: State, img: ImageResponse): (r: State)
    ensures !s.mounted ==> r == s
    ensures r.(imageUrl := s.imageUrl, imageInfo := s.imageInfo) == s
    ensures s.mounted && img.ImageJson? && img.mediaType == "image" ==>
              && r.imageUrl == img.url
              && r.imageInfo == Some(ImageInfo(img.title, img.explanation, img.date,
                                               OrElse(img.copyright, DefaultCopyright)))
    ensures s.mounted && !(img.ImageJson? && img.mediaType == "image") ==>
              r.imageUrl == PlaceholderImage && r.imageInfo == s.imageInfo
  {
    if !s.mounted then s
    else
      match img
      case ImageJson(mediaType, url, title, explanation, date, copyright) =>
        if mediaType == "image" then
          s.(imageUrl := url,
             imageInfo := Some(ImageInfo(title, explanation, date, OrElse(copyright, DefaultCopyright))))
        else s.(imageUrl := PlaceholderImage)
      case _ => s.(imageUrl := PlaceholderImage)
  }

  /** The `finally` block of a lookup: lower the loading flag if mounted. */
  function Settle(s: State): (r: State)
    ensures s.mounted ==> !r.loading && r.(loading := s.loading) == s
    ensures !s.mounted ==> r == s
  {
    if s.mounted then s.(loading := false) else s
  }

  /** The synchronous start of `handleRandomAsteroid`. */
  function BeginRandom(s: State): (r: State)
    ensures s.mounted ==> r.loading && r.error.None? && r.(loading := s.loading, error := s.error) == s
    ensures !s.mounted ==> r == s
  {
    if s.mounted then s.(loading := true, error := None) else s
  }

  /** The browse page has arrived. The entry at `pick` (the component draws it
      as `Math.floor(Math.random() * length)`) becomes the input and the id to
      look up next. A failed request, a body without a list, or a pick with no
      entry (the list is empty) sets the random-lookup error instead; that
      error, like every other write, needs the screen to be mounted. */
  function RandomPage(s: State, page: BrowseResponse, pick: nat): (result: (State, Option<string>))
    ensures var (r, next) := result;
            && (!s.mounted ==> r == s && next.None?)
            && r.(input := s.input, error := s.error) == s
            && (next.Some? <==>
                  s.mounted && page.BrowseJson? && page.objects.Some? && pick < |page.objects.value|)
            && (next.Some? ==>
                  next.value == page.objects.value[pick] && r.input == next.value && r.error == s.error)
            && (s.mounted && next.None? ==> r.error == Some(RandomFailedMessage) && r.input == s.input)
  {
    if !s.mounted then (s, None)
    else
      match page
      case BrowseJson(Some(ids)) =>
        if pick < |ids| then (s.(input := ids[pick]), Some(ids[pick]))
        else (s.(error := Some(RandomFailedMessage)), None)
      case _ => (s.(error := Some(RandomFailedMessage)), None)
  }

  /** Pressing Search. An input that is blank after `trim` raises the alert
      and changes nothing. Otherwise the record is cleared and a lookup of the
      trimmed input starts (it returns at once if the screen is unmounted). */
  function Submit(s: State): (result: (State, SubmitOutcome))
    ensures var (r, out) := result;
            && (AllSpace(s.input) ==> r == s && out == Alerted(EmptyIdTitle, EmptyIdMessage))
            && (!AllSpace(s.input) ==>
                  && r.record.None?
                  && r.input == s.input && r.recent == s.recent && r.mounted == s.mounted
                  && r.imageUrl == s.imageUrl && r.imageInfo == s.imageInfo
                  && (s.mounted ==> r.loading && r.error.None? && out == LookingUp(Trim(s.input)))
                  && (!s.mounted ==> r.loading == s.loading && r.error == s.error && out == Dropped))
  {
    var id := Trim(s.input);
    if id == "" then (s, Alerted(EmptyIdTitle, EmptyIdMessage))
    else
      var cleared := s.(record := None);
      (BeginLookup(cleared, id), if LookupStarts(cleared, id) then LookingUp(id) else Dropped)
  }

  /** Tapping an entry of the recent searches: the input becomes `id` and a
      lookup of `id` starts as is, without trimming and without clearing the
      record shown. */
  function TapRecent(s: State, id: string): (r: State)
    ensures r.input == id && r.record == s.record && r.recent == s.recent
    ensures r.mounted == s.mounted && r.imageUrl == s.imageUrl && r.imageInfo == s.imageInfo
    ensures LookupStarts(s, id) ==> r.loading && r.error.None?
    ensures !LookupStarts(s, id) ==> r.loading == s.loading && r.error == s.error
  {
    BeginLookup(s.(input := id), id)
  }
}
