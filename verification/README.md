# Asteroid Explorer: the lookup screen as transitions

Asteroid Explorer is a React Native screen. You enter the id of a near-Earth
object, and the screen looks it up in NASA's NeoWs catalog. It shows the
record, the object's next (or last known) close approach, and a decorative
"astronomy picture of the day". It keeps a short list of recent searches, and
it can look up a random object from the catalog's browse page. This project
models the screen's state and the handlers and asynchronous completions that
change it, all in `App.js`, as pure Dafny functions over an immutable `State`.

Modules:

- `JsValues`: the JavaScript value semantics the component relies on:
  - absent JSON fields (`Option`);
  - the truthiness that `||` and `if (data.code)` test;
  - `String.prototype.trim`, with the ECMAScript white-space set given by
    code point.
- `History`: the recent-searches update `[...new Set([id, ...prev.slice(0, 4)])]`:
  - `Dedup` is the `Set` round trip (first occurrences, in insertion order);
  - `Kept` is `slice(0, 4)`;
  - `RecentReference` is an independent description of the result.
- `Approaches`: the close-approach panel of the result card:
  - `Array.find` of the first approach after "now";
  - the `Math.ceil` day count;
  - the last-known fallback.
- `Screen`: the state record and one function per transition:
  - mount and unmount;
  - the start of a lookup;
  - the catalog's reply;
  - the picture's reply;
  - the `finally` blocks;
  - the random lookup's browse reply;
  - pressing Search;
  - tapping a recent search.

  Network replies are inputs. The component's `mounted` ref is a state field,
  and every write is guarded by it exactly where the component tests it.
- `Cycle`: the transitions as steps of a machine:
  - `Run` applies a sequence of steps;
  - once the screen is torn down, no later completion changes anything;
  - the composed lookup and random-lookup cycles, with what each outcome
    leaves on screen.

The model keeps some behaviour of the code that a reader might not expect:

- The history is sliced to four entries *before* duplicates are removed. A
  full list of five that is searched again for one of its first four ids
  shrinks to four entries (`RecentLength`, `RepeatHeadSearch`,
  `Cycle.RepeatLookup`). The list is never longer than five entries and never
  holds an id twice, but it is not "the last five distinct ids".
- A picture of the day that is not an image replaces only the URL, with the
  placeholder. The title, explanation and copyright of the previous picture
  stay in place (`Screen.ApplyImage`).
- Pressing Search clears the shown record before the lookup checks that the
  screen is mounted (`Screen.Submit`).
- Tapping a recent search neither trims the id nor clears the record
  (`Screen.TapRecent`).
- An empty-string error message or copyright counts as absent, because `||`
  treats it as falsy (`JsValues.OrElse`).
- A record whose approach list is present but empty cannot be drawn: the
  last-approach branch reads an element that does not exist
  (`Approaches.ShowApproaches` gives `RenderFault`).

## Model

| member | source | states |
|---|---|---|
| JsValues.OrElse | App.js:135 | a logical-or fallback on a string field gives the field when it is present and non-empty, and the fallback when it is absent or empty |
| JsValues.Trim | App.js:156 | the trimmed input is the infix of the input between its leading and trailing white space: it neither starts nor ends with white space, everything cut off is white space, and it is empty exactly when the input is all white space |
| JsValues.TrimIdempotent | App.js:156 | trimming twice is trimming once, and `trim` leaves a string unchanged exactly when it neither starts nor ends with white space |
| History.Dedup | App.js:139 | the `Set` round trip holds no value twice and holds exactly the values of its input, never more of them |
| History.DedupFirstOrder | App.js:139 | the `Set` spreads its values back out in the order of their first insertion |
| History.Kept | App.js:139 | `prev.slice(0, 4)` is the prefix of `prev` of length four, or all of `prev` when it is shorter |
| History.UpdateRecent | App.js:139 | after a successful lookup of `id`, the list starts with `id` and has no repeated id. It has at most five entries. The other entries are exactly the first four old entries other than `id`, in their old order. |
| History.RecentReference | App.js:139 | over a duplicate-free history, the new list is `id` followed by the first four old entries with `id` removed |
| History.RecentLength | App.js:139 | the new list grows by one entry unless `id` was among the first four old entries. In that case it has as many entries as those four, so a full list of five shrinks to four. |
| History.RepeatHeadSearch | App.js:139 | searching again for the id at the head of the list leaves only the list's first four entries |
| Approaches.FirstFuture | App.js:380-387 | `find` yields the index of the first approach dated after now, and none exactly when no approach is in the future |
| Approaches.DaysUntil | App.js:393-395 | the day count is the ceiling of the time until the approach in days: the least whole number of days that covers it, and at least one for a future approach |
| Approaches.ShowApproaches | App.js:364-428 | the card shows one of four things. With no approach list there is no panel. With an empty list the card cannot be drawn. When some approach is in the future, it shows the first such approach in list order, with its day count. Otherwise it shows the last approach. |
| Screen.Mount | App.js:38-39 | the mount effect sets only the mounted ref |
| Screen.Unmount | App.js:40-42 | the effect's cleanup clears only the mounted ref |
| Screen.BeginLookup | App.js:118-122 | a lookup of a non-empty id on a mounted screen raises the loading flag and clears the error and nothing else; otherwise nothing changes |
| Screen.Respond | App.js:129-147 | the catalog's reply on a mounted screen. A transport failure sets the retry message and clears the record. A truthy `code` sets the server's message (or "Asteroid not found") and clears the record. Otherwise the record is stored and the history updated. Unmounted: nothing changes. |
| Screen.ApplyImage | App.js:78-115 | an image reply stores its URL and metadata, with the copyright defaulting to "NASA". Any other reply shows the placeholder URL and keeps the old metadata. Only these two fields change, and only while mounted. |
| Screen.Settle | App.js:148-152 | the lookup's `finally` lowers only the loading flag, and only while mounted |
| Screen.BeginRandom | App.js:170-174 | the random lookup on a mounted screen raises the loading flag and clears the error; unmounted, nothing changes |
| Screen.RandomPage | App.js:176-195 | a browse reply with an entry at the drawn index makes that entry's id the input and the next lookup. A failed request, a missing list or an empty list sets "Error fetching random asteroid." instead. Unmounted, nothing changes. |
| Screen.Submit | App.js:155-168 | a blank input raises the "Error" / "Asteroid ID cannot be empty!" alert and changes nothing. Otherwise the record is cleared and a lookup of the trimmed input starts on a mounted screen. |
| Screen.TapRecent | App.js:203-207 | tapping a recent id makes it the input and starts its lookup as is, keeping the record and the history |
| Cycle.Classify | App.js:129-137 | a non-ok status or a thrown request is a transport error. A body with a truthy `code` is a not-found with a non-empty message. Any other body is a success. |
| Cycle.Apply | App.js:69-76 | no completion step changes an unmounted screen, and no step mounts it |
| Cycle.Run | App.js:38-43 | a torn-down screen ignores every later step. No sequence of steps gives the history a repeated id or more than five entries. |
| Cycle.TeardownFreezes | App.js:38-43 | whatever completes after the cleanup leaves the screen exactly as the cleanup left it |
| Cycle.LookupCycle | App.js:118-153 | a full lookup on a mounted screen ends with loading off. On success: no error, the record stored, the history updated, and the picture set or replaced by the placeholder. On not-found: the server's message and no record. On a transport failure: the retry message and no record. |
| Cycle.LookupCycleIsRun | App.js:118-153 | the composed lookup is the step machine run over begin, reply, picture (on success only) and `finally` |
| Cycle.RandomCycle | App.js:170-201 | a random lookup ends with loading off. When the browse step fails, the error is "Error fetching random asteroid." and nothing else changes. When it picks an id, the id becomes the input and the result is an ordinary lookup of it. |
| Cycle.RepeatLookup | App.js:139 | two successful lookups of the same id leave the first four entries of the history the first one produced. That is the same history only when it had at most four entries. |

## Left out

- Network requests, JSON parsing, the API key and the request URLs: each reply is an input value.
- The random date of the picture request and the random index into the browse page: both are parameters (`pick`).
- Animations, `setTimeout`, `resetAnimations`/`startAnimations`, `Linking.openURL`, styles and layout: they do not change the modelled state.
- Date parsing and `Intl.DateTimeFormat` formatting: approach dates are given as whole milliseconds since the epoch, and "now" is a parameter.
- `toFixed` and `toLocaleString` number formatting: the diameter, distance and velocity are kept only as data.
- Approaches.DaysUntil: assumes the difference of two millisecond timestamps divided by a day is exact. Floating-point rounding of that quotient is not modelled.
- Interleavings of two lookups in flight at once: a cycle is modelled from start to `finally`. `Run` allows any order of single steps, but it does not tie a reply to the request that caused it.
- React's own handling of state updates after unmount: only the component's `mounted` checks are modelled.
- Malformed replies other than a missing `copyright`, `code`, `error_message` or `near_earth_objects`: every other field is taken to be present. A browse entry without an `id` is modelled as the empty id, which the lookup's guard rejects.
- `Alert.alert` is returned as a value (`SubmitOutcome`), not shown.
- The disabled state of the buttons while loading is not modelled: a handler may run while `loading` is set.
- resize-icon.js is a build helper and is not part of this model.
