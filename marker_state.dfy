/** What the class names look like after any number of calls of `highlight()`.
    Marking appends " current"; unmarking turns the first "current" into
    nothing, leaving its space behind. Starting from class names that do not
    contain "current", each class name is therefore its original value followed
    by a string of pieces " current" and " ". This module proves that, although
    the list of marked entries is never emptied, after every call the entries
    whose class name contains "current" are exactly those the call marked; and
    that with an original class name such as "currently" this fails. */
module MarkerState {
  import opened JsString
  import opened Timeline

  /** A piece a class name gains after its original value: the space that
      unmarking leaves behind, or the " current" that marking appends. */
  datatype Piece = Gap | Current

  /** The characters a piece stands for. */
  function Text(q: Piece): string {
    if q == Gap then " " else MarkSuffix
  }

  /** The pieces written out, first to last. */
  function Render(ps: seq<Piece>): string {
    if ps == [] then "" else Text(ps[0]) + Render(ps[1..])
  }

  /** How many markers the pieces hold. */
  function Marks(ps: seq<Piece>): nat {
    if ps == [] then 0 else (if ps[0] == Current then 1 else 0) + Marks(ps[1..])
  }

  /** The pieces after the first marker becomes a gap. */
  function ClearFirst(ps: seq<Piece>): (r: seq<Piece>)
    ensures |r| == |ps|
    ensures Marks(r) == if Marks(ps) == 0 then 0 else Marks(ps) - 1
  {
    if ps == [] then []
    else if ps[0] == Current then [Gap] + ps[1..]
    else [Gap] + ClearFirst(ps[1..])
  }

  /** The pieces after the first marker has become a gap `n` times over. */
  function ClearTimes(ps: seq<Piece>, n: nat): (r: seq<Piece>)
    ensures Marks(r) == if Marks(ps) <= n then 0 else Marks(ps) - n
  {
    if n == 0 then ps else ClearFirst(ClearTimes(ps, n - 1))
  }

  /** Appending a piece appends its text. */
  lemma {:induction false} RenderAppend(ps: seq<Piece>, q: Piece)
    ensures Render(ps + [q]) == Render(ps) + Text(q)
    ensures Marks(ps + [q]) == Marks(ps) + (if q == Current then 1 else 0)
  {
    if ps != [] {
      assert (ps + [q])[1..] == ps[1..] + [q];
      RenderAppend(ps[1..], q);
    }
  }

  /** A space after a class name without "current" adds none. */
  lemma GapAddsNoMarker(x: string)
    requires !Contains(x, Marker)
    ensures !Contains(x + " ", Marker)
  {
    assert ' ' !in Marker;
    IndexOfAroundSpace(x, "", Marker);
    assert x + " " + "" == x + " ";
  }

  /** After a class name without "current", the first "current" is that of
      the first marker; unmarking leaves its space. */
  lemma UnmarkFirstMarker(x: string, rest: string)
    requires !Contains(x, Marker)
    ensures Contains(x + MarkSuffix + rest, Marker)
    ensures RemoveFirst(x + MarkSuffix + rest, Marker) == x + " " + rest
  {
    assert ' ' !in Marker;
    var y := Marker + rest;
    assert OccursAt(y, Marker, 0);
    IndexOfIs(y, Marker, 0);
    IndexOfAroundSpace(x, y, Marker);
    var s := x + " " + y;
    assert s == x + MarkSuffix + rest;
    assert s[..|x| + 1] == x + " ";
    assert s[|x| + 1 + |Marker|..] == rest;
  }

  /** When the first piece is a gap, both `x + Render(ps)` and
      `x + Render(ClearFirst(ps))` are `x`, a space, then the rendering of the
      tail (cleared, in the second case). */
  lemma RenderLeadingGap(x: string, ps: seq<Piece>)
    requires ps != [] && ps[0] == Gap
    ensures x + Render(ps) == x + " " + Render(ps[1..])
    ensures x + Render(ClearFirst(ps)) == x + " " + Render(ClearFirst(ps[1..]))
  {
    var c := ClearFirst(ps);
    var tail := ClearFirst(ps[1..]);
    assert c[1..] == tail by {
      assert c == [Gap] + tail;
    }
    SpaceThen(x, Render(ps), Render(ps[1..]));
    SpaceThen(x, Render(c), Render(tail));
  }

  /** A string that is a space followed by `rest`, after a prefix `x`. */
  lemma SpaceThen(x: string, s: string, rest: string)
    requires s == " " + rest
    ensures x + s == x + " " + rest
  {
  }

  /** A class name whose first piece is a marker, before and after that
      marker becomes a gap. */
  lemma RenderLeadingCurrent(x: string, ps: seq<Piece>)
    requires ps != [] && ps[0] == Current
    ensures x + Render(ps) == x + MarkSuffix + Render(ps[1..])
    ensures x + Render(ClearFirst(ps)) == x + " " + Render(ps[1..])
  {
    var rest := Render(ps[1..]);
    assert Render(ps) == MarkSuffix + rest;
    assert Render(ClearFirst(ps)) == " " + rest by {
      assert ClearFirst(ps)[1..] == ps[1..];
    }
  }

  /** Marking a class name of that shape appends a marker piece. */
  lemma MarkAppendsPiece(x: string, ps: seq<Piece>)
    ensures x + Render(ps) + MarkSuffix == x + Render(ps + [Current])
    ensures Marks(ps + [Current]) == Marks(ps) + 1
  {
    RenderAppend(ps, Current);
  }

  /** Unmarking a class name made of a prefix without "current" and pieces:
      the first marker among the pieces goes, leaving its space; if there is
      none the class name is unchanged. A class name of this shape contains
      "current" exactly when some piece is a marker. */
  lemma {:induction false} UnmarkPieces(x: string, ps: seq<Piece>)
    requires !Contains(x, Marker)
    decreases |ps|
    ensures Contains(x + Render(ps), Marker) <==> Marks(ps) > 0
    ensures RemoveFirst(x + Render(ps), Marker) == x + Render(ClearFirst(ps))
  {
    if ps == [] {
      assert x + Render(ps) == x;
    } else if ps[0] == Gap {
      GapAddsNoMarker(x);
      UnmarkPieces(x + " ", ps[1..]);
      RenderLeadingGap(x, ps);
    } else {
      UnmarkFirstMarker(x, Render(ps[1..]));
      RenderLeadingCurrent(x, ps);
    }
  }

  /** Unmarking `n` times a class name of that shape. */
  lemma {:induction false} UnmarkPiecesTimes(x: string, ps: seq<Piece>, n: nat)
    requires !Contains(x, Marker)
    ensures RemoveMarkerTimes(x + Render(ps), n) == x + Render(ClearTimes(ps, n))
  {
    if n > 0 {
      UnmarkPiecesTimes(x, ps, n - 1);
      UnmarkPieces(x, ClearTimes(ps, n - 1));
    }
  }

  /** Unmarking right after marking a class name without "current" leaves it
      with one extra trailing space. */
  lemma UnmarkAfterMark(c: string)
    requires !Contains(c, Marker)
    ensures RemoveFirst(c + MarkSuffix, Marker) == c + " "
  {
    UnmarkPieces(c, [Current]);
    assert Render([Current]) == MarkSuffix;
    assert Render([Gap]) == " ";
  }

  /** A class name that ends in the marker contains "current". */
  lemma MarkedContainsMarker(c: string)
    ensures Contains(c + MarkSuffix, Marker)
  {
    var s := c + MarkSuffix;
    assert s[|c| + 1..|c| + 1 + |Marker|] == Marker;
    assert OccursAt(s, Marker, |c| + 1);
  }

  /** Removing a piece of `c` at `k` from `c + t` when the piece lies inside `c`. */
  lemma CutInsidePrefix(c: string, t: string, k: nat, n: nat)
    requires k + n <= |c|
    ensures (c + t)[..k] + (c + t)[k + n..] == c[..k] + c[k + n..] + t
  {
    assert (c + t)[..k] == c[..k];
    assert (c + t)[k + n..] == c[k + n..] + t;
  }

  /** When a class name already contains "current" (as in "currently"),
      unmarking after marking removes that occurrence instead of the marker,
      so the class name still contains "current" afterwards. */
  lemma UnmarkAfterMarkCorrupts(c: string)
    requires Contains(c, Marker)
    ensures RemoveFirst(c + MarkSuffix, Marker) == RemoveFirst(c, Marker) + MarkSuffix
    ensures Contains(RemoveFirst(c + MarkSuffix, Marker), Marker)
  {
    assert ' ' !in Marker;
    assert c + MarkSuffix == c + " " + Marker;
    IndexOfAroundSpace(c, Marker, Marker);
    var k := IndexOf(c, Marker);
    CutInsidePrefix(c, MarkSuffix, k, |Marker|);
    MarkedContainsMarker(RemoveFirst(c, Marker));
  }

  /** The class names of a page are its entries' original class names, none of
      which contains "current", each followed by pieces; and no entry holds
      more markers than the times it appears in the list, so the next
      unmarking pass clears them all. */
  ghost predicate Consistent(p: Page, bases: seq<string>, pieces: seq<seq<Piece>>) {
    p.Valid() && |bases| == |p.entries| && |pieces| == |p.entries| &&
    forall e :: 0 <= e < |p.entries| ==>
      !Contains(bases[e], Marker) &&
      p.entries[e].className == bases[e] + Render(pieces[e]) &&
      Marks(pieces[e]) <= multiset(p.highlighted)[e]
  }

  /** At page load, with no class name containing "current" and the list empty. */
  lemma InitiallyConsistent(entries: seq<Entry>)
    requires forall e :: 0 <= e < |entries| ==> !Contains(entries[e].className, Marker)
    ensures Consistent(Page(entries, []), seq(|entries|, e requires 0 <= e < |entries| => entries[e].className), seq(|entries|, e => []))
  {
    var p := Page(entries, []);
    var bases := seq(|entries|, e requires 0 <= e < |entries| => entries[e].className);
    forall e | 0 <= e < |entries|
      ensures entries[e].className == bases[e] + Render([])
    {
      assert bases[e] + Render([]) == bases[e];
    }
  }

  /** After the unmarking pass of a consistent page no class name contains
      "current": each entry loses as many markers as it appears in the list. */
  lemma UnmarkedClean(p: Page, bases: seq<string>, pieces: seq<seq<Piece>>, e: nat)
    requires Consistent(p, bases, pieces) && e < |p.entries|
    ensures Unmarked(p.entries, p.highlighted)[e].className ==
      bases[e] + Render(ClearTimes(pieces[e], multiset(p.highlighted)[e]))
    ensures Marks(ClearTimes(pieces[e], multiset(p.highlighted)[e])) == 0
  {
    UnmarkedCounts(p.entries, p.highlighted, e);
    UnmarkPiecesTimes(bases[e], pieces[e], multiset(p.highlighted)[e]);
  }

  /** The pieces of entry `e` after one call: its markers are all cleared,
      and a new one follows if the call marks it. */
  function PiecesAfter(p: Page, hash: string, pieces: seq<seq<Piece>>, e: nat): seq<Piece>
    requires e < |pieces|
  {
    var mid := ClearTimes(pieces[e], multiset(p.highlighted)[e]);
    if e in Run(p.entries, hash) then mid + [Current] else mid
  }

  /** One call on one entry of a consistent page: its class name keeps its
      shape and holds a marker exactly when the call marks the entry. */
  lemma CallOnEntry(p: Page, hash: string, bases: seq<string>, pieces: seq<seq<Piece>>, e: nat)
    requires Consistent(p, bases, pieces) && e < |p.entries|
    ensures Highlighted(p, hash).entries[e].className == bases[e] + Render(PiecesAfter(p, hash, pieces, e))
    ensures Marks(PiecesAfter(p, hash, pieces, e)) == if e in Run(p.entries, hash) then 1 else 0
    ensures Contains(Highlighted(p, hash).entries[e].className, Marker) <==> e in Run(p.entries, hash)
  {
    var mid := ClearTimes(pieces[e], multiset(p.highlighted)[e]);
    var after := PiecesAfter(p, hash, pieces, e);
    var c := Unmarked(p.entries, p.highlighted)[e].className;
    var inRun := e in Run(p.entries, hash);
    assert Highlighted(p, hash).entries[e].className == if inRun then c + MarkSuffix else c by {
      HighlightedIsRunMarked(p, hash);
    }
    assert c == bases[e] + Render(mid) && Marks(mid) == 0 by {
      UnmarkedClean(p, bases, pieces, e);
    }
    if inRun {
      assert after == mid + [Current];
      MarkAppendsPiece(bases[e], mid);
    } else {
      assert after == mid;
    }
    UnmarkPieces(bases[e], after);
  }

  /** One call keeps a page consistent, and afterwards an entry's class name
      contains "current" exactly when the call marked it: earlier highlights
      are fully cleared even though the list still names their entries. */
  lemma HighlightKeepsConsistent(p: Page, hash: string, bases: seq<string>, pieces: seq<seq<Piece>>)
    returns (pieces': seq<seq<Piece>>)
    requires Consistent(p, bases, pieces)
    ensures Consistent(Highlighted(p, hash), bases, pieces')
    ensures forall e :: 0 <= e < |p.entries| ==>
      (Contains(Highlighted(p, hash).entries[e].className, Marker) <==> e in Run(p.entries, hash))
  {
    var n := |p.entries|;
    var r := Highlighted(p, hash);
    HighlightedIsRunMarked(p, hash);
    pieces' := seq(n, e requires 0 <= e < n => PiecesAfter(p, hash, pieces, e));
    forall e: nat | e < n
      ensures r.entries[e].className == bases[e] + Render(pieces'[e])
      ensures Marks(pieces'[e]) <= multiset(r.highlighted)[e]
      ensures Contains(r.entries[e].className, Marker) <==> e in Run(p.entries, hash)
    {
      CallOnEntry(p, hash, bases, pieces, e);
      if e in Run(p.entries, hash) {
        assert e in r.highlighted;
      }
    }
  }

  /** The page after calls with each fragment of `hashes` in turn. */
  function AfterCalls(p: Page, hashes: seq<string>): (r: Page)
    requires p.Valid()
    decreases |hashes|
    ensures r.Valid() && SameSkeleton(r.entries, p.entries)
  {
    if hashes == [] then p
    else AfterCalls(Highlighted(p, hashes[0]), hashes[1..])
  }

  /** From any consistent page (page load, or any page the calls reach), after
      any non-empty sequence of calls the entries whose class name contains
      "current" are exactly the run of the last fragment. */
  lemma {:induction false} MarkedAreLastRun(p: Page, hashes: seq<string>, bases: seq<string>, pieces: seq<seq<Piece>>)
    requires Consistent(p, bases, pieces) && hashes != []
    decreases |hashes|
    ensures forall e :: 0 <= e < |p.entries| ==>
      (Contains(AfterCalls(p, hashes).entries[e].className, Marker) <==> e in Run(p.entries, hashes[|hashes| - 1]))
  {
    var pieces' := HighlightKeepsConsistent(p, hashes[0], bases, pieces);
    var q := Highlighted(p, hashes[0]);
    if |hashes| > 1 {
      MarkedAreLastRun(q, hashes[1..], bases, pieces');
      RunSkeleton(q.entries, p.entries, hashes[|hashes| - 1]);
    }
  }

  /** Calling twice with the same fragment leaves the same entries marked as
      calling once, from any page the calls can reach (the list need not be
      empty). */
  lemma SameFragmentTwice(p: Page, hash: string, bases: seq<string>, pieces: seq<seq<Piece>>)
    requires Consistent(p, bases, pieces)
    ensures var once := Highlighted(p, hash);
      var twice := Highlighted(once, hash);
      forall e :: 0 <= e < |p.entries| ==>
        (Contains(twice.entries[e].className, Marker) <==> Contains(once.entries[e].className, Marker))
  {
    var ps := HighlightKeepsConsistent(p, hash, bases, pieces);
    var once := Highlighted(p, hash);
    var _ := HighlightKeepsConsistent(once, hash, bases, ps);
    RunSkeleton(once.entries, p.entries, hash);
  }

  /** A class name that starts with "current" loses exactly that prefix. */
  lemma RemoveLeadingMarker(y: string)
    ensures RemoveFirst(Marker + y, Marker) == y
  {
    var s := Marker + y;
    assert OccursAt(s, Marker, 0);
    IndexOfIs(s, Marker, 0);
    assert s[|Marker|..] == y;
  }

  /** Unmarking "currently current" removes the "current" of "currently". */
  lemma CurrentlyUnmarked()
    ensures RemoveFirst("currently current", Marker) == "ly current"
  {
    assert "currently current" == Marker + "ly current";
    RemoveLeadingMarker("ly current");
  }

  /** A page of one entry, marked through its id. */
  lemma MarkOnlyEntry(e: Entry)
    requires e.id != ""
    ensures Highlighted(Page([e], []), "#" + e.id) == Page([Mark(e)], [0])
  {
    var p := Page([e], []);
    assert ("#" + e.id)[1..] == e.id;
    assert FindById([e], e.id) == Some(0);
    assert Range(0, 1) == [0];
    HighlightedIsRunMarked(p, "#" + e.id);
    InRange(0, 1, 0);
  }

  /** An entry whose own class name contains "current" (such as "currently"):
      after marking it and then calling with the empty fragment, which marks
      nothing, its class name still contains "current", because unmarking
      removed the "current" of its own class name instead of the marker. */
  lemma StaleMarkerSurvives(e: Entry)
    requires e.id != "" && Contains(e.className, Marker)
    ensures var once := Highlighted(Page([e], []), "#" + e.id);
      var twice := Highlighted(once, "");
      Run(once.entries, "") == [] &&
      twice.entries[0].className == RemoveFirst(e.className, Marker) + MarkSuffix &&
      Contains(twice.entries[0].className, Marker)
  {
    var once := Highlighted(Page([e], []), "#" + e.id);
    MarkOnlyEntry(e);
    NoTargetOnlyUnmarks(once, "");
    UnmarkedCounts(once.entries, [0], 0);
    assert multiset([0])[0] == 1;
    UnmarkAfterMarkCorrupts(e.className);
  }
}
