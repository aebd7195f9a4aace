/** Two pieces of the fragment generator of the current crate's peptidoform:
    the enumeration of placements of the modifications of unknown position
    over a stretch of the peptide, and the decision to skip a backbone
    position whose two sides are joined by a cross-link. */
module PeptidoformPatterns {
  import opened Common
  import opened Peptidoform

  /** A placement: for some registry ids, in increasing order, the chosen position. */
  type Path = seq<(nat, SequencePosition)>

  /** The positions of an entry that lie inside the range, in order. */
  function InRange(positions: seq<SequencePosition>, r: Range, len: nat): (res: seq<SequencePosition>)
    ensures |res| <= |positions|
    ensures forall x :: x in res <==> x in positions && RangeContainsPosition(r, len, x)
    ensures |res| < |positions| <==> exists k :: 0 <= k < |positions| && !RangeContainsPosition(r, len, positions[k])
  {
    if |positions| == 0 then []
    else
      var x := positions[|positions| - 1];
      var front := InRange(positions[..|positions| - 1], r, len);
      assert forall k :: 0 <= k < |positions| - 1 ==> positions[..|positions| - 1][k] == positions[k];
      front + (if RangeContainsPosition(r, len, x) then [x] else [])
  }

  /** A position may be added to a path when the entry colocalises or no
      placement of the path already uses that position. */
  predicate Compatible(path: Path, pos: SequencePosition, colocalise: bool)
  {
    colocalise || forall k :: 0 <= k < |path| ==> path[k].1 != pos
  }

  /** Every path that may take `pos`, extended by `(id, pos)`, in path order. */
  function PlaceAt(paths: seq<Path>, id: nat, pos: SequencePosition, colocalise: bool): seq<Path>
  {
    if |paths| == 0 then []
    else
      var q := paths[|paths| - 1];
      PlaceAt(paths[..|paths| - 1], id, pos, colocalise)
        + (if Compatible(q, pos, colocalise) then [q + [(id, pos)]] else [])
  }

  /** The `flat_map` over the in-range positions. */
  function PlaceAll(paths: seq<Path>, id: nat, positions: seq<SequencePosition>, colocalise: bool): seq<Path>
  {
    if |positions| == 0 then []
    else PlaceAll(paths, id, positions[..|positions| - 1], colocalise) + PlaceAt(paths, id, positions[|positions| - 1], colocalise)
  }

  /** One step of the fold: an entry with no position in range keeps the paths;
      otherwise every compatible extension, followed by the unextended paths when
      some of the entry's positions lie outside the range. */
  function Step(paths: seq<Path>, id: nat, e: AmbiguousEntry, r: Range, len: nat): seq<Path>
  {
    var inRange := InRange(e.positions, r, len);
    if |inRange| == 0 then paths
    else PlaceAll(paths, id, inRange, e.colocalise) + (if |inRange| < |e.positions| then paths else [])
  }

  /** The fold over the registry, starting from the single empty path. */
  function Patterns(entries: seq<AmbiguousEntry>, r: Range, len: nat): seq<Path>
  {
    if |entries| == 0 then [[]]
    else Step(Patterns(entries[..|entries| - 1], r, len), |entries| - 1, entries[|entries| - 1], r, len)
  }

  // ---------------------------------------------------------------------------
  // Membership

  lemma {:induction false} PlaceAtMember(paths: seq<Path>, id: nat, pos: SequencePosition, colocalise: bool, x: Path)
    ensures x in PlaceAt(paths, id, pos, colocalise) <==>
      exists q :: q in paths && Compatible(q, pos, colocalise) && x == q + [(id, pos)]
  {
    if |paths| > 0 {
      var front := paths[..|paths| - 1];
      PlaceAtMember(front, id, pos, colocalise, x);
      if exists q :: q in paths && Compatible(q, pos, colocalise) && x == q + [(id, pos)] {
        var q :| q in paths && Compatible(q, pos, colocalise) && x == q + [(id, pos)];
        if q != paths[|paths| - 1] {
          var k :| 0 <= k < |paths| && paths[k] == q;
          assert front[k] == q;
        }
      }
    }
  }

  /** The extensions are exactly the compatible previous paths extended by one
      in-range position. */
  lemma {:induction false} PlaceAllMember(paths: seq<Path>, id: nat, positions: seq<SequencePosition>, colocalise: bool, x: Path)
    ensures x in PlaceAll(paths, id, positions, colocalise) <==>
      exists q, pos :: q in paths && pos in positions && Compatible(q, pos, colocalise) && x == q + [(id, pos)]
  {
    if |positions| > 0 {
      var front := positions[..|positions| - 1];
      var last := positions[|positions| - 1];
      PlaceAllMember(paths, id, front, colocalise, x);
      PlaceAtMember(paths, id, last, colocalise, x);
      if exists q, pos :: q in paths && pos in positions && Compatible(q, pos, colocalise) && x == q + [(id, pos)] {
        var q, pos :| q in paths && pos in positions && Compatible(q, pos, colocalise) && x == q + [(id, pos)];
        if pos != last {
          var k :| 0 <= k < |positions| && positions[k] == pos;
          assert front[k] == pos;
        }
      }
    }
  }

  // ---------------------------------------------------------------------------
  // What every path looks like

  /** A path of the fold over `entries`: ids strictly increasing (so each entry
      is placed at most once), each placement at one of its entry's positions and
      inside the range, and a non-colocalising entry never placed on a position an
      earlier placement of the path uses. */
  predicate WellFormedPath(path: Path, entries: seq<AmbiguousEntry>, r: Range, len: nat)
  {
    (forall a, b :: 0 <= a < b < |path| ==> path[a].0 < path[b].0)
    && (forall k :: 0 <= k < |path| ==>
          path[k].0 < |entries| && path[k].1 in entries[path[k].0].positions
          && RangeContainsPosition(r, len, path[k].1))
    && (forall a, b :: 0 <= a < b < |path| && !entries[path[b].0].colocalise ==> path[a].1 != path[b].1)
  }

  lemma WellFormedPathExtend(q: Path, entries: seq<AmbiguousEntry>, e: AmbiguousEntry, pos: SequencePosition, r: Range, len: nat)
    requires WellFormedPath(q, entries, r, len)
    requires pos in e.positions && RangeContainsPosition(r, len, pos) && Compatible(q, pos, e.colocalise)
    ensures WellFormedPath(q + [(|entries|, pos)], entries + [e], r, len)
  {
    var x := q + [(|entries|, pos)];
    var all := entries + [e];
    forall k | 0 <= k < |x|
      ensures x[k].0 < |all| && x[k].1 in all[x[k].0].positions && RangeContainsPosition(r, len, x[k].1)
    {
      if k < |q| {
        assert x[k] == q[k] && all[q[k].0] == entries[q[k].0];
      }
    }
    forall a, b | 0 <= a < b < |x| && !all[x[b].0].colocalise ensures x[a].1 != x[b].1 {
      if b < |q| {
        assert x[a] == q[a] && x[b] == q[b] && all[q[b].0] == entries[q[b].0];
      } else {
        assert x[a] == q[a];
      }
    }
  }

  lemma WellFormedPathWiden(q: Path, entries: seq<AmbiguousEntry>, e: AmbiguousEntry, r: Range, len: nat)
    requires WellFormedPath(q, entries, r, len)
    ensures WellFormedPath(q, entries + [e], r, len)
  {
    var all := entries + [e];
    forall k | 0 <= k < |q| ensures all[q[k].0] == entries[q[k].0] {
    }
  }

  /** Every path of the fold is well formed. */
  lemma {:induction false} PatternsWellFormed(entries: seq<AmbiguousEntry>, r: Range, len: nat, path: Path)
    requires path in Patterns(entries, r, len)
    ensures WellFormedPath(path, entries, r, len)
  {
    if |entries| > 0 {
      var n := |entries| - 1;
      var front := entries[..n];
      var e := entries[n];
      var prev := Patterns(front, r, len);
      assert entries == front + [e];
      var inRange := InRange(e.positions, r, len);
      if path in prev {
        PatternsWellFormed(front, r, len, path);
        WellFormedPathWiden(path, front, e, r, len);
      } else {
        assert path in PlaceAll(prev, n, inRange, e.colocalise);
        PlaceAllMember(prev, n, inRange, e.colocalise, path);
        var q, pos :| q in prev && pos in inRange && Compatible(q, pos, e.colocalise) && path == q + [(n, pos)];
        PatternsWellFormed(front, r, len, q);
        WellFormedPathExtend(q, front, e, pos, r, len);
      }
    }
  }

  /** With no entries there is one path, the empty one. */
  lemma PatternsEmpty(r: Range, len: nat)
    ensures Patterns([], r, len) == [[]]
  {
  }

  /** An entry with no position inside the range leaves the paths as they were. */
  lemma PatternsSkipEntry(entries: seq<AmbiguousEntry>, e: AmbiguousEntry, r: Range, len: nat)
    requires forall k :: 0 <= k < |e.positions| ==> !RangeContainsPosition(r, len, e.positions[k])
    ensures Patterns(entries + [e], r, len) == Patterns(entries, r, len)
  {
    assert (entries + [e])[..|entries|] == entries;
    InRangeNone(e.positions, r, len);
  }

  lemma {:induction false} InRangeNone(positions: seq<SequencePosition>, r: Range, len: nat)
    requires forall k :: 0 <= k < |positions| ==> !RangeContainsPosition(r, len, positions[k])
    ensures InRange(positions, r, len) == []
  {
    if |positions| > 0 {
      InRangeNone(positions[..|positions| - 1], r, len);
    }
  }

  /** Every compatible in-range placement of a new entry extends every earlier path. */
  lemma PatternsExtend(entries: seq<AmbiguousEntry>, e: AmbiguousEntry, r: Range, len: nat, q: Path, pos: SequencePosition)
    requires q in Patterns(entries, r, len)
    requires pos in e.positions && RangeContainsPosition(r, len, pos) && Compatible(q, pos, e.colocalise)
    ensures q + [(|entries|, pos)] in Patterns(entries + [e], r, len)
  {
    assert (entries + [e])[..|entries|] == entries;
    var inRange := InRange(e.positions, r, len);
    PlaceAllMember(Patterns(entries, r, len), |entries|, inRange, e.colocalise, q + [(|entries|, pos)]);
  }

  /** When some position of a new entry lies outside the range (and some inside),
      every earlier path is kept unextended as well. */
  lemma PatternsKeepUnextended(entries: seq<AmbiguousEntry>, e: AmbiguousEntry, r: Range, len: nat, q: Path)
    requires q in Patterns(entries, r, len)
    requires exists k :: 0 <= k < |e.positions| && !RangeContainsPosition(r, len, e.positions[k])
    ensures q in Patterns(entries + [e], r, len)
  {
    assert (entries + [e])[..|entries|] == entries;
  }

  /** When every position of a new entry lies inside the range, no earlier path
      survives unextended: each resulting path places the new entry last. */
  lemma PatternsPlaceEntry(entries: seq<AmbiguousEntry>, e: AmbiguousEntry, r: Range, len: nat, x: Path)
    requires |e.positions| > 0
    requires forall k :: 0 <= k < |e.positions| ==> RangeContainsPosition(r, len, e.positions[k])
    requires x in Patterns(entries + [e], r, len)
    ensures |x| > 0 && x[|x| - 1].0 == |entries|
  {
    assert (entries + [e])[..|entries|] == entries;
    var inRange := InRange(e.positions, r, len);
    assert e.positions[0] in inRange;
    PlaceAllMember(Patterns(entries, r, len), |entries|, inRange, e.colocalise, x);
  }

  // ---------------------------------------------------------------------------
  // Skipping positions closed by a cross-link loop

  /** The union of a list of cross-link name sets. */
  function UnionOf(sets: seq<set<CrossLinkName>>): set<CrossLinkName>
  {
    if |sets| == 0 then {} else UnionOf(sets[..|sets| - 1]) + sets[|sets| - 1]
  }

  lemma {:induction false} UnionOfMember(sets: seq<set<CrossLinkName>>, x: CrossLinkName)
    ensures x in UnionOf(sets) <==> exists k :: 0 <= k < |sets| && x in sets[k]
  {
    if |sets| > 0 {
      var front := sets[..|sets| - 1];
      UnionOfMember(front, x);
      if x in UnionOf(front) {
        var k :| 0 <= k < |front| && x in front[k];
        assert sets[k] == front[k];
      }
      if exists k :: 0 <= k < |sets| && x in sets[k] {
        var k :| 0 <= k < |sets| && x in sets[k];
        if k < |front| {
          assert front[k] == sets[k];
        }
      }
    }
  }

  /** The names seen on the N-terminal side of residue `i` (residues before it)
      and on the C-terminal side (residues after it). */
  function NSideSeen(seen: seq<set<CrossLinkName>>, i: nat): set<CrossLinkName>
    requires i <= |seen|
  {
    UnionOf(seen[..i])
  }

  function CSideSeen(seen: seq<set<CrossLinkName>>, i: nat): set<CrossLinkName>
    requires i < |seen|
  {
    UnionOf(seen[i + 1..])
  }

  /** A position is skipped when a cross-link is reachable from both of its sides. */
  predicate Skipped(seen: seq<set<CrossLinkName>>, i: nat)
    requires i < |seen|
  {
    NSideSeen(seen, i) * CSideSeen(seen, i) != {}
  }

  /** The backbone positions the fragment loop produces fragments for, given the
      cross-link names each residue's modifications reach: exactly the positions
      that are not skipped, in increasing order. */
  method FragmentedPositions(seen: seq<set<CrossLinkName>>) returns (kept: seq<nat>)
    ensures forall a, b :: 0 <= a < b < |kept| ==> kept[a] < kept[b]
    ensures forall k :: 0 <= k < |kept| ==> kept[k] < |seen| && !Skipped(seen, kept[k])
    ensures forall i :: 0 <= i < |seen| && !Skipped(seen, i) ==> i in kept
  {
    kept := [];
    var nSide: set<CrossLinkName> := {};
    for i := 0 to |seen|
      invariant nSide == NSideSeen(seen, i)
      invariant forall a, b :: 0 <= a < b < |kept| ==> kept[a] < kept[b]
      invariant forall k :: 0 <= k < |kept| ==> kept[k] < i && !Skipped(seen, kept[k])
      invariant forall j :: 0 <= j < i && !Skipped(seen, j) ==> j in kept
    {
      var cSide := UnionOf(seen[i + 1..]);
      if nSide * cSide == {} {
        kept := kept + [i];
      }
      assert seen[..i + 1][..i] == seen[..i];
      nSide := nSide + seen[i];
    }
  }

  /** A position is skipped exactly when some cross-link name is reached both by
      a residue before it and by a residue after it. */
  lemma SkippedIffLoop(seen: seq<set<CrossLinkName>>, i: nat)
    requires i < |seen|
    ensures Skipped(seen, i) <==>
      exists a, b, x :: 0 <= a < i < b < |seen| && x in seen[a] && x in seen[b]
  {
    if Skipped(seen, i) {
      var x :| x in NSideSeen(seen, i) * CSideSeen(seen, i);
      UnionOfMember(seen[..i], x);
      UnionOfMember(seen[i + 1..], x);
      var a :| 0 <= a < i && x in seen[..i][a];
      var c :| 0 <= c < |seen| - i - 1 && x in seen[i + 1..][c];
      assert x in seen[a] && x in seen[i + 1 + c];
    }
    if exists a, b, x :: 0 <= a < i < b < |seen| && x in seen[a] && x in seen[b] {
      var a, b, x :| 0 <= a < i < b < |seen| && x in seen[a] && x in seen[b];
      assert seen[..i][a] == seen[a];
      assert seen[i + 1..][b - i - 1] == seen[b];
      UnionOfMember(seen[..i], x);
      UnionOfMember(seen[i + 1..], x);
      assert x in NSideSeen(seen, i) * CSideSeen(seen, i);
    }
  }
}
