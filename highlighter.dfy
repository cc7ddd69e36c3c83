/** main.js as it runs in the page: the module-level list
    `previouslyHighlighted` and the handler `highlight()`, which rewrites the
    class names of the document's timeline entries in place. */
module Highlighting {
  import opened Timeline

  /** The page-lifetime state of the script. `doc` holds the timeline entries
      in sibling order (entry `i + 1` is the `nextSibling` of entry `i`); the
      list holds the indices of every entry ever marked, oldest first. */
  class Highlighter {
    const doc: array<Entry>
    var previouslyHighlighted: seq<nat>

    /** Every listed entry is an entry of the document. */
    ghost predicate Valid()
      reads this
    {
      forall k :: 0 <= k < |previouslyHighlighted| ==> previouslyHighlighted[k] < doc.Length
    }

    /** The page as a value. */
    ghost function Snapshot(): (p: Page)
      reads this, doc
      requires Valid()
      ensures p.Valid() && |p.entries| == doc.Length
    {
      Page(doc[..], previouslyHighlighted)
    }

    /** The script is loaded: the list starts empty. */
    constructor (doc: array<Entry>)
      ensures this.doc == doc && previouslyHighlighted == [] && Valid()
    {
      this.doc := doc;
      previouslyHighlighted := [];
    }

    /** `highlight()`, called with the current `window.location.hash`. */
    method Highlight(hash: string)
      requires Valid()
      modifies this, doc
      ensures Valid()
      ensures Snapshot() == Highlighted(old(Snapshot()), hash)
    {
      UnmarkAll();
      if hash != "" {
        var time := hash[1..];
        var found := FindById(doc[..], time);
        if found.Some? {
          MarkRun(found.value);
        }
      }
    }

    /** The `for` loop of `highlight()`: strip the first "current" from the
        class name of every listed entry, in list order. The list itself stays. */
    method UnmarkAll()
      requires Valid()
      modifies doc
      ensures Valid()
      ensures doc[..] == Unmarked(old(doc[..]), previouslyHighlighted)
    {
      var i := 0;
      while i < |previouslyHighlighted|
        invariant 0 <= i <= |previouslyHighlighted|
        invariant doc[..] == Unmarked(old(doc[..]), previouslyHighlighted[..i])
      {
        var e := previouslyHighlighted[i];
        doc[e] := Unmark(doc[e]);
        assert previouslyHighlighted[..i + 1][..i] == previouslyHighlighted[..i];
        i := i + 1;
      }
      assert previouslyHighlighted[..i] == previouslyHighlighted;
    }

    /** The `do ... while` loop of `highlight()`: mark entry `start` and push
        it, then go on with each next sibling while its time text is that of
        `start`. */
    method MarkRun(start: nat)
      requires Valid() && start < doc.Length
      modifies this, doc
      ensures Valid()
      ensures doc[..] == MarkRange(old(doc[..]), start, RunEnd(old(doc[..]), start))
      ensures previouslyHighlighted == old(previouslyHighlighted) + Range(start, RunEnd(old(doc[..]), start))
    {
      ghost var before := doc[..];
      ghost var end := RunEnd(before, start);
      var entry := start;
      var timeText := doc[entry].time;
      var more := true;
      while more
        invariant start <= entry <= end
        invariant more ==> entry < end
        invariant !more ==> entry == end
        invariant doc[..] == MarkRange(before, start, entry)
        invariant previouslyHighlighted == old(previouslyHighlighted) + Range(start, entry)
        invariant Valid()
        decreases doc.Length - entry
      {
        doc[entry] := Mark(doc[entry]);
        previouslyHighlighted := previouslyHighlighted + [entry];
        assert Range(start, entry + 1) == Range(start, entry) + [entry];
        entry := entry + 1;
        more := entry < doc.Length && doc[entry].time == timeText;
      }
    }
  }
}
