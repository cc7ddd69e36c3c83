/** The page as main.js sees it: the timeline entries in sibling order, each
    with its id, the text of its first <time> element and its class name, and
    the list of entries highlighted so far. This module gives, as functions on
    values, what one call of `highlight()` does to them. */
module Timeline {
  import opened JsString

  datatype Option<T> = None | Some(value: T)

  /** One timeline entry. Its id and time text never change; its class name does. */
  datatype Entry = Entry(id: string, time: string, className: string)

  /** The substring the unmarking pass removes. */
  const Marker: string := "current"

  /** What the marking pass appends to a class name. */
  const MarkSuffix: string := " current"

  /** `entry.className += ' current'` */
  function Mark(e: Entry): (r: Entry)
    ensures r.id == e.id && r.time == e.time && r.className == e.className + MarkSuffix
  {
    e.(className := e.className + MarkSuffix)
  }

  /** `entry.className = entry.className.replace('current', '')` */
  function Unmark(e: Entry): (r: Entry)
    ensures r.id == e.id && r.time == e.time
    ensures !Contains(e.className, Marker) ==> r == e
    ensures Contains(e.className, Marker) ==> |r.className| + |Marker| == |e.className|
  {
    e.(className := RemoveFirst(e.className, Marker))
  }

  /** `document.getElementById(id)` over the entries: the first entry carrying
      that id, and nothing for the empty id, which no element can carry. */
  function FindById(entries: seq<Entry>, id: string): (r: Option<nat>)
    ensures r.Some? ==>
      id != "" && r.value < |entries| && entries[r.value].id == id &&
      forall j :: 0 <= j < r.value ==> entries[j].id != id
    ensures r.None? ==> id == "" || forall j :: 0 <= j < |entries| ==> entries[j].id != id
  {
    if id == "" then None else FindFrom(entries, id, 0)
  }

  /** The first entry at or after `i` carrying `id`. */
  function FindFrom(entries: seq<Entry>, id: string, i: nat): (r: Option<nat>)
    requires i <= |entries|
    decreases |entries| - i
    ensures r.Some? ==>
      i <= r.value < |entries| && entries[r.value].id == id &&
      forall j :: i <= j < r.value ==> entries[j].id != id
    ensures r.None? ==> forall j :: i <= j < |entries| ==> entries[j].id != id
  {
    if i == |entries| then None
    else if entries[i].id == id then Some(i)
    else FindFrom(entries, id, i + 1)
  }

  /** The entry a fragment designates: none for the empty fragment, otherwise the
      entry whose id is the fragment without its first character (the `#`). */
  function Target(entries: seq<Entry>, hash: string): (r: Option<nat>)
    ensures r.Some? ==>
      hash != "" && hash[1..] != "" && r.value < |entries| && entries[r.value].id == hash[1..] &&
      forall j :: 0 <= j < r.value ==> entries[j].id != hash[1..]
    ensures r.None? <==> hash == "" || hash[1..] == "" || forall j :: 0 <= j < |entries| ==> entries[j].id != hash[1..]
  {
    if hash == "" then None else FindById(entries, hash[1..])
  }

  /** One past the end of the run of consecutive siblings, starting at entry
      `k`, whose time text is that of entry `k`: the run is never empty, every
      entry in it has that time text, and the sibling after it (if any) has not. */
  function RunEnd(entries: seq<Entry>, k: nat): (end: nat)
    requires k < |entries|
    ensures k < end <= |entries|
    ensures forall j :: k <= j < end ==> entries[j].time == entries[k].time
    ensures end == |entries| || entries[end].time != entries[k].time
  {
    ScanRun(entries, entries[k].time, k + 1)
  }

  /** The first index at or after `i` whose entry's time text differs from `key`, or the end. */
  function ScanRun(entries: seq<Entry>, key: string, i: nat): (end: nat)
    requires i <= |entries|
    decreases |entries| - i
    ensures i <= end <= |entries|
    ensures forall j :: i <= j < end ==> entries[j].time == key
    ensures end == |entries| || entries[end].time != key
  {
    if i < |entries| && entries[i].time == key then ScanRun(entries, key, i + 1) else i
  }

  /** The indices lo, lo + 1, ..., hi - 1, in document order. */
  function Range(lo: nat, hi: nat): seq<nat>
    requires lo <= hi
  {
    seq(hi - lo, j requires 0 <= j < hi - lo => lo + j)
  }

  /** An index is in a range exactly when it lies between its bounds. */
  lemma InRange(lo: nat, hi: nat, j: nat)
    requires lo <= hi
    ensures j in Range(lo, hi) <==> lo <= j < hi
  {
    if lo <= j < hi {
      assert Range(lo, hi)[j - lo] == j;
    }
  }

  /** The entries after marking entries lo, lo + 1, ..., hi - 1 in that order. */
  function MarkRange(entries: seq<Entry>, lo: nat, hi: nat): (r: seq<Entry>)
    requires lo <= hi <= |entries|
    decreases hi - lo
    ensures |r| == |entries|
    ensures forall j :: 0 <= j < |r| ==> r[j] == if lo <= j < hi then Mark(entries[j]) else entries[j]
  {
    if hi == lo then entries
    else MarkRange(entries, lo, hi - 1)[hi - 1 := Mark(entries[hi - 1])]
  }

  /** The entries after the unmarking pass walks `list` from first to last. */
  function Unmarked(entries: seq<Entry>, list: seq<nat>): (r: seq<Entry>)
    requires forall k :: 0 <= k < |list| ==> list[k] < |entries|
    decreases |list|
    ensures |r| == |entries|
    ensures forall j :: 0 <= j < |entries| ==> r[j].id == entries[j].id && r[j].time == entries[j].time
    ensures forall j :: 0 <= j < |entries| && j !in list ==> r[j] == entries[j]
  {
    if list == [] then entries
    else
      var prev := Unmarked(entries, list[..|list| - 1]);
      var e := list[|list| - 1];
      prev[e := Unmark(prev[e])]
  }

  /** `s` with its first "current" removed `n` times over. */
  function RemoveMarkerTimes(s: string, n: nat): string {
    if n == 0 then s else RemoveFirst(RemoveMarkerTimes(s, n - 1), Marker)
  }

  /** The page: the entries in sibling order and the list `previouslyHighlighted`
      of indices of entries marked so far, oldest first. */
  datatype Page = Page(entries: seq<Entry>, highlighted: seq<nat>) {
    ghost predicate Valid() {
      forall k :: 0 <= k < |highlighted| ==> highlighted[k] < |entries|
    }
  }

  /** The entries one call marks for fragment `hash`, in document order: none when
      the fragment designates no entry, otherwise the run starting at the designated one. */
  function Run(entries: seq<Entry>, hash: string): (r: seq<nat>)
    ensures Target(entries, hash).None? <==> r == []
    ensures r != [] ==>
      r[0] == Target(entries, hash).value && r[0] + |r| <= |entries| &&
      (forall i :: 0 <= i < |r| ==> r[i] == r[0] + i && entries[r[i]].time == entries[r[0]].time) &&
      (r[0] + |r| == |entries| || entries[r[0] + |r|].time != entries[r[0]].time)
  {
    match Target(entries, hash)
    case None => []
    case Some(k) => Range(k, RunEnd(entries, k))
  }

  /** The page after one call of `highlight()` with fragment `hash`: first every
      listed entry is unmarked, then the run of the designated entry is marked
      and appended to the list, which is never emptied. */
  function Highlighted(p: Page, hash: string): (r: Page)
    requires p.Valid()
    ensures r.Valid() && |r.entries| == |p.entries|
    ensures forall j :: 0 <= j < |p.entries| ==> r.entries[j].id == p.entries[j].id && r.entries[j].time == p.entries[j].time
    ensures |p.highlighted| <= |r.highlighted| && r.highlighted[..|p.highlighted|] == p.highlighted
  {
    var cleared := Unmarked(p.entries, p.highlighted);
    match Target(cleared, hash)
    case None => Page(cleared, p.highlighted)
    case Some(k) =>
      var end := RunEnd(cleared, k);
      Page(MarkRange(cleared, k, end), p.highlighted + Range(k, end))
  }

  // ---------------------------------------------------------------------------
  // Properties of one call

  /** Two entry sequences with the same ids and time texts in the same order:
      they differ at most in class names. */
  ghost predicate SameSkeleton(a: seq<Entry>, b: seq<Entry>) {
    |a| == |b| && forall j :: 0 <= j < |a| ==> a[j].id == b[j].id && a[j].time == b[j].time
  }

  /** The run found from an entry depends only on the time texts. */
  lemma {:induction false} ScanRunSkeleton(a: seq<Entry>, b: seq<Entry>, key: string, i: nat)
    requires SameSkeleton(a, b) && i <= |a|
    decreases |a| - i
    ensures ScanRun(a, key, i) == ScanRun(b, key, i)
  {
    if i < |a| && a[i].time == key {
      ScanRunSkeleton(a, b, key, i + 1);
    }
  }

  /** The lookup by id depends only on the ids. */
  lemma {:induction false} FindFromSkeleton(a: seq<Entry>, b: seq<Entry>, id: string, i: nat)
    requires SameSkeleton(a, b) && i <= |a|
    decreases |a| - i
    ensures FindFrom(a, id, i) == FindFrom(b, id, i)
  {
    if i < |a| && a[i].id != id {
      FindFromSkeleton(a, b, id, i + 1);
    }
  }

  /** Which entries a fragment selects depends only on the ids and time texts,
      never on the class names: unmarking and marking cannot change it. */
  lemma RunSkeleton(a: seq<Entry>, b: seq<Entry>, hash: string)
    requires SameSkeleton(a, b)
    ensures Target(a, hash) == Target(b, hash)
    ensures Run(a, hash) == Run(b, hash)
  {
    if hash != "" && hash[1..] != "" {
      FindFromSkeleton(a, b, hash[1..], 0);
    }
    match Target(a, hash)
    case None =>
    case Some(k) =>
      ScanRunSkeleton(a, b, a[k].time, k + 1);
  }

  /** One call appends exactly its run to the list and changes, besides the
      unmarking pass, only the class names of the run's entries, each by
      appending " current". */
  lemma HighlightedIsRunMarked(p: Page, hash: string)
    requires p.Valid()
    ensures Highlighted(p, hash).highlighted == p.highlighted + Run(p.entries, hash)
    ensures forall j :: 0 <= j < |p.entries| ==>
      Highlighted(p, hash).entries[j] ==
        if j in Run(p.entries, hash) then Mark(Unmarked(p.entries, p.highlighted)[j])
        else Unmarked(p.entries, p.highlighted)[j]
  {
    var cleared := Unmarked(p.entries, p.highlighted);
    RunSkeleton(cleared, p.entries, hash);
    match Target(cleared, hash)
    case None =>
    case Some(k) =>
      var end := RunEnd(cleared, k);
      forall j | 0 <= j < |p.entries|
        ensures j in Run(p.entries, hash) <==> k <= j < end
      {
        InRange(k, end, j);
      }
  }

  /** With the empty fragment, or a fragment naming no entry, a call only
      unmarks: nothing is marked and the list gains nothing. */
  lemma NoTargetOnlyUnmarks(p: Page, hash: string)
    requires p.Valid()
    requires hash == "" || forall j :: 0 <= j < |p.entries| ==> p.entries[j].id != hash[1..]
    ensures Run(p.entries, hash) == []
    ensures Highlighted(p, hash) == Page(Unmarked(p.entries, p.highlighted), p.highlighted)
  {
    HighlightedIsRunMarked(p, hash);
  }

  /** When the fragment minus its first character is the id of entry `k`, the
      call marks exactly the maximal run of siblings from `k` sharing its time
      text: `k` itself always (the loop tests only after the first pass), then
      each following sibling up to the first whose time text differs or the
      end, and no later entry even if its time text matches again. */
  lemma MatchMarksMaximalRun(p: Page, hash: string, k: nat)
    requires p.Valid()
    requires hash != "" && FindById(p.entries, hash[1..]) == Some(k)
    ensures k < |p.entries|
    ensures var end := RunEnd(p.entries, k);
      Run(p.entries, hash) == Range(k, end) &&
      Run(p.entries, hash)[0] == k &&
      |Run(p.entries, hash)| <= |p.entries| - k &&
      (forall j :: 0 <= j < |p.entries| ==> (j in Run(p.entries, hash) <==> k <= j < end)) &&
      (forall j :: k <= j < end ==> p.entries[j].time == p.entries[k].time) &&
      (end == |p.entries| || p.entries[end].time != p.entries[k].time)
  {
    var end := RunEnd(p.entries, k);
    forall j | 0 <= j < |p.entries|
      ensures j in Run(p.entries, hash) <==> k <= j < end
    {
      InRange(k, end, j);
    }
  }

  /** The run is the longest stretch from `k` with `k`'s time text: any stretch
      from `k` whose entries all share that text ends within it. */
  lemma RunIsMaximal(entries: seq<Entry>, k: nat, end: nat)
    requires k < end <= |entries|
    requires forall j :: k <= j < end ==> entries[j].time == entries[k].time
    ensures end <= RunEnd(entries, k)
  {
  }

  /** The unmarking pass removes one "current" from an entry's class name per
      appearance of that entry in the list, and touches nothing else. */
  lemma {:induction false} UnmarkedCounts(entries: seq<Entry>, list: seq<nat>, j: nat)
    requires forall k :: 0 <= k < |list| ==> list[k] < |entries|
    requires j < |entries|
    decreases |list|
    ensures Unmarked(entries, list)[j] == entries[j].(className := RemoveMarkerTimes(entries[j].className, multiset(list)[j]))
  {
    if list != [] {
      var front := list[..|list| - 1];
      assert list == front + [list[|list| - 1]];
      assert multiset(list) == multiset(front) + multiset{list[|list| - 1]};
      UnmarkedCounts(entries, front, j);
    }
  }

  /** The example timeline: entries t1, t2, t3 at 10:00, 10:00 and 10:05. */
  function Example(): seq<Entry> {
    [Entry("t1", "10:00", "entry"), Entry("t2", "10:00", "entry"), Entry("t3", "10:05", "entry")]
  }

  /** Fragment `#t1` on the example marks t1 and t2 but not t3. */
  lemma ExampleMarksFirstTwo()
    ensures Highlighted(Page(Example(), []), "#t1") ==
      Page([Entry("t1", "10:00", "entry current"), Entry("t2", "10:00", "entry current"), Entry("t3", "10:05", "entry")], [0, 1])
  {
    var es := Example();
    assert "#t1"[1..] == "t1";
    assert Unmarked(es, []) == es;
    assert FindById(es, "t1") == Some(0);
    assert RunEnd(es, 0) == 2;
    assert Range(0, 2) == [0, 1];
    assert "entry" + MarkSuffix == "entry current";
  }
}
