# Timeline highlighter, modelled in Dafny

The web viewer of the IRC index ships one script, `resources/public/js/main.js`.
Its handler `highlight()` runs when the page loads and whenever the URL fragment
changes. It highlights the timeline entries that the fragment designates.

- **Unmark.** For every entry in the page-lifetime list `previouslyHighlighted`,
  it removes the first occurrence of `current` from the entry's class name
  (`String.prototype.replace` with a string pattern).
- **Find the start.** If the fragment (`#<id>`) is not empty, it drops the first
  character and looks the rest up with `getElementById`.
- **Mark the run.** If an entry was found, a `do … while` loop appends
  ` current` to that entry's class name and pushes the entry onto the list. It
  then moves to the next sibling and repeats while that sibling's `<time>` text
  equals the start entry's.

The list is assigned once and only ever pushed to. It never shrinks, and it
grows by the run on every call that marks an entry. Each call unmarks every entry
ever marked, once per time it was marked.

The model has four modules, one file each:

- `js_string.dfy` (`JsString`): `indexOf` and the first-match `replace(p, '')`
  on strings.
- `timeline.dfy` (`Timeline`): the entries as a `datatype` (id, time text, class
  name) and one call of `highlight()` as the function `Highlighted` on a `Page`
  value (entries in sibling order, list of marked indices). It also holds the
  properties of one call: what it marks, what it appends to the list, and what
  it leaves alone.
- `highlighter.dfy` (`Highlighting`): the script as it runs. A class
  `Highlighter` holds the document's entries in an `array` (entry `i + 1` is the
  `nextSibling` of entry `i`) and the list `previouslyHighlighted` as a
  `seq<nat>` of indices. Its method `Highlight` runs the `for` loop and the
  `do … while` loop in place. It is proved to leave exactly the state
  `Timeline.Highlighted` describes.
- `marker_state.dfy` (`MarkerState`): what class names look like over many
  calls. If no entry's own class name contains `current`, then after every call
  the entries whose class name contains `current` are exactly the ones that call
  marked. This holds even though the list is never cleared. If an entry's own
  class name contains `current` (for example `currently`), unmarking removes
  that text instead, and the marker survives a call that marks nothing.

The list is never emptied, and a fragment naming no entry leaves it as it was.
Even so, if no entry's own class name contains `current`, the entries carrying
`current` after a call are exactly that call's run (`MarkerState.MarkedAreLastRun`).

## Model

| member | source | states |
|---|---|---|
| `JsString.IndexFrom` | resources/public/js/main.js:10 | The result is -1 exactly when `p` occurs nowhere at or after `from`. Otherwise it is the least such occurrence. |
| `JsString.IndexOf` | resources/public/js/main.js:10 | The result is non-negative exactly when `s` contains `p`, and it is then the first occurrence. |
| `JsString.RemoveFirst` | resources/public/js/main.js:10 | `replace('current', '')` with a string pattern: a string without the pattern is returned unchanged. Otherwise exactly the first occurrence is cut out, and the result is `|p|` shorter. |
| `Timeline.Mark` | resources/public/js/main.js:20 | `className += ' current'` appends ` current` and leaves id and time text alone. |
| `Timeline.Unmark` | resources/public/js/main.js:10 | Keeps id and time text. It is the identity when the class name has no `current`; otherwise the class name loses exactly 7 characters. |
| `Timeline.FindById` | resources/public/js/main.js:16 | `getElementById`: the entry found carries the id and no earlier entry does. None means no entry carries it, or the id is empty. |
| `Timeline.Target` | resources/public/js/main.js:13-16 | The entry the fragment designates: for a fragment other than `""`, the first entry whose id is the fragment without its first character. None exactly when the fragment is empty, that id is empty, or no entry carries it. |
| `Timeline.Run` | resources/public/js/main.js:13-23 | The entries one call marks: empty exactly when the fragment designates no entry. Otherwise consecutive indices from the designated entry, all with its time text, within the siblings, and followed by the end or by a sibling with a different time text. |
| `Timeline.RunEnd` | resources/public/js/main.js:18-23 | The run from `k` is never empty and ends within the siblings. Every entry in it has `k`'s time text, and the sibling after it, if any, has a different one. This bounds the loop by the siblings left. |
| `Timeline.MarkRange` | resources/public/js/main.js:19-22 | Marking entries `lo..hi-1` in turn marks exactly those entries once and leaves every other entry unchanged. |
| `Timeline.Unmarked` | resources/public/js/main.js:9-11 | The unmarking pass keeps every id and time text and leaves entries that are not in the list unchanged. |
| `Timeline.Highlighted` | resources/public/js/main.js:7-26 | One call keeps the list valid, keeps every id and time text, and only appends to the list: the old list is a prefix of the new one. |
| `Timeline.RunSkeleton` | resources/public/js/main.js:13-23 | Which entries a fragment selects depends only on ids and time texts, never on class names. |
| `Timeline.HighlightedIsRunMarked` | resources/public/js/main.js:9-23 | A call appends exactly its run to the list, in document order. Each entry in the run gets ` current` appended to its unmarked class name, and every other entry keeps its unmarked value. |
| `Timeline.NoTargetOnlyUnmarks` | resources/public/js/main.js:13-17 | With the empty fragment, or a fragment whose id (after its first character) no entry carries, nothing is marked and the list gains nothing. Only the unmarking pass runs. |
| `Timeline.MatchMarksMaximalRun` | resources/public/js/main.js:15-23 | When the fragment minus its first character is entry `k`'s id, the marked entries are exactly `k`, `k+1`, …, `end-1`. Entry `k` is always among them. There are at most as many as siblings from `k` on. All share `k`'s time text, and the next sibling (if any) does not. A later matching sibling is therefore not marked. |
| `Timeline.RunIsMaximal` | resources/public/js/main.js:22-23 | No stretch of siblings from `k` that all share `k`'s time text reaches past the run. |
| `Timeline.UnmarkedCounts` | resources/public/js/main.js:9-11 | After the pass, each entry's class name has had its first `current` removed once per appearance of that entry in the list. Nothing else changes. |
| `Timeline.ExampleMarksFirstTwo` | resources/public/js/main.js:13-23 | Entries t1, t2, t3 at 10:00, 10:00, 10:05 with fragment `#t1`: t1 and t2 are marked, t3 is not, and the list becomes `[t1, t2]`. |
| `Highlighting.Highlighter.constructor` | resources/public/js/main.js:7 | The list starts empty. |
| `Highlighting.Highlighter.Highlight` | resources/public/js/main.js:8-26 | Running the handler in place leaves the document and the list exactly as `Timeline.Highlighted` says. |
| `Highlighting.Highlighter.UnmarkAll` | resources/public/js/main.js:9-11 | The `for` loop rewrites the listed entries' class names in list order to the value `Timeline.Unmarked` gives. It leaves the list as it is. |
| `Highlighting.Highlighter.MarkRun` | resources/public/js/main.js:18-23 | The `do … while` loop marks exactly the run `Timeline.RunEnd` delimits. It pushes those indices in document order after the old list. |
| `MarkerState.UnmarkPieces` | resources/public/js/main.js:10 | A class name of the form original (without `current`) + ` current`/` ` pieces contains `current` exactly when some piece is a marker. Unmarking turns the first marker into a lone space. |
| `MarkerState.UnmarkAfterMark` | resources/public/js/main.js:10 | Unmarking right after marking a class name without `current` leaves it with one extra trailing space. |
| `MarkerState.UnmarkAfterMarkCorrupts` | resources/public/js/main.js:10 | If the class name already contains `current`, unmarking after marking removes that occurrence instead of the marker, and the result still contains `current`. |
| `MarkerState.CurrentlyUnmarked` | resources/public/js/main.js:10 | `"currently current"` unmarks to `"ly current"`. |
| `MarkerState.InitiallyConsistent` | resources/public/js/main.js:7 | At page load (empty list, no class name containing `current`) the page has the shape the invariant describes. |
| `MarkerState.UnmarkedClean` | resources/public/js/main.js:9-11 | On a page of that shape, the unmarking pass removes every marker, because no entry holds more markers than its appearances in the list. |
| `MarkerState.CallOnEntry` | resources/public/js/main.js:9-23 | After one call, an entry's class name keeps that shape. It holds one marker if the call marked the entry and none otherwise. |
| `MarkerState.HighlightKeepsConsistent` | resources/public/js/main.js:8-26 | One call keeps the invariant. Afterwards an entry's class name contains `current` exactly when the call marked it. |
| `MarkerState.MarkedAreLastRun` | resources/public/js/main.js:7-26 | After any non-empty sequence of calls from a page of that shape, the entries whose class name contains `current` are exactly the run of the last fragment. |
| `MarkerState.SameFragmentTwice` | resources/public/js/main.js:8-26 | From any page of that shape (page load or any page the calls reach, whatever the list holds), calling twice with the same fragment leaves the same entries marked as calling once. |
| `MarkerState.MarkOnlyEntry` | resources/public/js/main.js:13-23 | A one-entry page called with `#` + that entry's id marks the entry and lists it. |
| `MarkerState.StaleMarkerSurvives` | resources/public/js/main.js:9-23 | Take an entry whose own class name contains `current`. Mark it, then call with the empty fragment, which marks nothing. The entry still contains `current`: its original text lost the occurrence, and the marker stayed. |

## Left out

- The event wiring `window.onload = window.onhashchange = highlight` (main.js line 28). The model is the handler that the browser calls; the fragment `window.location.hash` is a parameter of `Highlight`.
- The DOM itself. The document is the array of timeline entries in sibling order. `getElementById` is a search of that array for the first entry with the id, or none for the empty id. Elements outside the timeline are not modelled: a fragment naming such an element is treated as naming no entry, whereas the script would mark that element and walk its siblings.
- Siblings that are not entries. The code reads `nextSibling` and then that node's first `<time>`. A whitespace text node or an entry without a `<time>` makes the browser throw. The model assumes every sibling is an entry with a time text, so these exceptions are not modelled.
- Percent-decoding and other normalisation of the fragment by the browser. The fragment is taken as the string `location.hash` returns.
- CSS rendering of the `current` class.
- Running time. The list is never cleared, so each call's unmarking pass is longer than the last. The model states what that pass does, not its cost.
