/** The peptidoform of the current crate: a linear peptide with terminal,
    global, labile and unknown-position modifications, tagged with the
    complexity tier it is known to stay within. Everything in this module is
    a value-level operation; the in-place adders live in `PeptidoformEdit`. */
module Peptidoform {
  import opened Common
  import opened Formula

  /** The complexity tiers, from the most permissive to the most restricted. */
  datatype Complexity = Linked | Linear | SimpleLinear | SemiAmbiguous | UnAmbiguous

  /** How much of the model a tier may use; a higher level allows more. */
  function Level(c: Complexity): nat
  {
    match c
    case UnAmbiguous => 0
    case SemiAmbiguous => 1
    case SimpleLinear => 2
    case Linear => 3
    case Linked => 4
  }

  /** The more permissive of two tiers (`HighestOf::HighestLevel`). */
  function HighestOf(a: Complexity, b: Complexity): (r: Complexity)
    ensures r == a || r == b
    ensures Level(r) >= Level(a) && Level(r) >= Level(b)
  {
    if Level(a) >= Level(b) then a else b
  }

  datatype SimpleModification = SimpleModification(name: string)

  /** The name of a cross-link; a branch has no name. */
  datatype CrossLinkName = Branch | Name(name: string)

  datatype CrossLinkSide = Symmetric | Left | Right

  datatype Modification =
    | Simple(modification: SimpleModification)
    | CrossLink(peptide: nat, sequenceIndex: nat, linker: SimpleModification, name: CrossLinkName, side: CrossLinkSide)
    | Ambiguous(id: nat, group: string, modification: SimpleModification, localisationScore: Option<real>, preferred: bool)

  /** One residue: its amino acid, its modifications and, inside `(?AA)`, the ambiguous group. */
  datatype SequenceElement = SequenceElement(aminoAcid: char, modifications: seq<Modification>, ambiguous: Option<nat>)

  /** An entry of the registry of modifications of unknown position, indexed by its id. */
  datatype AmbiguousEntry = AmbiguousEntry(positions: seq<SequencePosition>, limit: Option<nat>, colocalise: bool, group: Option<nat>)

  /** A global isotope modification: the element and the isotope all its atoms become. */
  type GlobalIsotope = (Element, Option<nat>)

  datatype Peptidoform = Peptidoform(
    complexity: Complexity,
    global: seq<GlobalIsotope>,
    labile: seq<SimpleModification>,
    nTerm: seq<Modification>,
    cTerm: seq<Modification>,
    sequence: seq<SequenceElement>,
    unknownPosition: seq<AmbiguousEntry>,
    chargeCarriers: Option<MolecularCharge>)

  /** Equality as the source defines it: every field except the complexity marker. */
  predicate SameContent(a: Peptidoform, b: Peptidoform)
  {
    a.(complexity := b.complexity) == b
  }

  // ---------------------------------------------------------------------------
  // Complexity tiers

  predicate NoCrossLink(mods: seq<Modification>)
  {
    forall k :: 0 <= k < |mods| ==> !mods[k].CrossLink?
  }

  /** No cross-links anywhere: not on a residue and not on a terminus. */
  predicate IsLinear(p: Peptidoform)
  {
    (forall i :: 0 <= i < |p.sequence| ==> NoCrossLink(p.sequence[i].modifications))
    && NoCrossLink(p.nTerm) && NoCrossLink(p.cTerm)
  }

  /** Linear, and no labile or global modifications and no charge carriers. */
  predicate IsSimpleLinear(p: Peptidoform)
  {
    IsLinear(p) && p.labile == [] && p.global == [] && p.chargeCarriers.None?
  }

  /** Simple linear, and no modification of unknown position and no `(?AA)` residue. */
  predicate IsSemiAmbiguous(p: Peptidoform)
  {
    IsSimpleLinear(p) && p.unknownPosition == []
    && forall i :: 0 <= i < |p.sequence| ==> p.sequence[i].ambiguous.None?
  }

  /** Semi-ambiguous, and every amino acid unambiguous; which amino acids are
      ambiguous (B, Z, ...) is decided by `unambiguous`. */
  predicate IsUnAmbiguous(p: Peptidoform, unambiguous: char -> bool)
  {
    IsSemiAmbiguous(p) && forall i :: 0 <= i < |p.sequence| ==> unambiguous(p.sequence[i].aminoAcid)
  }

  /** The predicate belonging to a tier; every peptide fits `Linked`. */
  predicate Fits(p: Peptidoform, c: Complexity, unambiguous: char -> bool)
  {
    match c
    case Linked => true
    case Linear => IsLinear(p)
    case SimpleLinear => IsSimpleLinear(p)
    case SemiAmbiguous => IsSemiAmbiguous(p)
    case UnAmbiguous => IsUnAmbiguous(p, unambiguous)
  }

  /** The tiers are nested: fitting a tier means fitting every more permissive one. */
  lemma TiersNested(p: Peptidoform, a: Complexity, b: Complexity, unambiguous: char -> bool)
    requires Level(a) <= Level(b) && Fits(p, a, unambiguous)
    ensures Fits(p, b, unambiguous)
  {
  }

  /** `mark`: the same peptide under another marker, the tier is not checked. */
  function Mark(p: Peptidoform, c: Complexity): (r: Peptidoform)
    ensures r.complexity == c && SameContent(r, p)
  {
    p.(complexity := c)
  }

  /** `into_linear`, `into_simple_linear`, `into_semi_ambiguous`, `into_unambiguous`:
      the peptide under the tier's marker when it passes the tier's check. */
  function Into(p: Peptidoform, c: Complexity, unambiguous: char -> bool): (r: Option<Peptidoform>)
    ensures r.Some? <==> Fits(p, c, unambiguous)
    ensures r.Some? ==> r.value.complexity == c && SameContent(r.value, p)
  {
    if Fits(p, c, unambiguous) then Some(Mark(p, c)) else None
  }

  /** Converting into a tier succeeds whenever converting into a stricter one does,
      and either way the content is the original peptide's. */
  lemma IntoNested(p: Peptidoform, a: Complexity, b: Complexity, unambiguous: char -> bool)
    requires Level(a) <= Level(b) && Into(p, a, unambiguous).Some?
    ensures Into(p, b, unambiguous).Some?
    ensures SameContent(Into(p, a, unambiguous).value, Into(p, b, unambiguous).value)
  {
    TiersNested(p, a, b, unambiguous);
  }

  // ---------------------------------------------------------------------------
  // The global-isotope builder

  /** `global`: append every isotope modification; `None` as soon as one is
      invalid. The result is marked at least `Linear`. */
  method Global(p: Peptidoform, global: seq<GlobalIsotope>, isValid: GlobalIsotope -> bool) returns (r: Option<Peptidoform>)
    ensures r.None? <==> exists k :: 0 <= k < |global| && !isValid(global[k])
    ensures r.Some? ==> r.value == p.(global := p.global + global, complexity := HighestOf(p.complexity, Linear))
  {
    var appended := AppendAllValid(p.global, global, isValid);
    if appended.None? {
      return None;
    }
    return Some(p.(global := appended.value, complexity := HighestOf(p.complexity, Linear)));
  }

  // ---------------------------------------------------------------------------
  // Reversal

  /** Every registered position names something on the peptide. */
  predicate PositionsValid(p: Peptidoform)
  {
    forall j, k :: 0 <= j < |p.unknownPosition| && 0 <= k < |p.unknownPosition[j].positions| ==>
      ValidPosition(p.unknownPosition[j].positions[k], |p.sequence|)
  }

  function ReverseEntry(e: AmbiguousEntry, len: nat): (r: AmbiguousEntry)
    requires forall k :: 0 <= k < |e.positions| ==> ValidPosition(e.positions[k], len)
    ensures |r.positions| == |e.positions|
    ensures forall k :: 0 <= k < |e.positions| ==> r.positions[k] == ReversePosition(e.positions[k], len)
    ensures r.(positions := e.positions) == e
  {
    e.(positions := seq(|e.positions|, k requires 0 <= k < |e.positions| => ReversePosition(e.positions[k], len)))
  }

  /** `reverse`: the termini swap, the residues come in reverse order and every
      registered position is reversed; everything else is kept. */
  function Reverse(p: Peptidoform): (r: Peptidoform)
    requires PositionsValid(p)
    ensures r.nTerm == p.cTerm && r.cTerm == p.nTerm
    ensures |r.sequence| == |p.sequence|
    ensures forall i :: 0 <= i < |p.sequence| ==> r.sequence[i] == p.sequence[|p.sequence| - 1 - i]
    ensures |r.unknownPosition| == |p.unknownPosition|
    ensures forall j :: 0 <= j < |p.unknownPosition| ==>
      r.unknownPosition[j] == ReverseEntry(p.unknownPosition[j], |p.sequence|)
    ensures r.global == p.global && r.labile == p.labile && r.chargeCarriers == p.chargeCarriers
    ensures r.complexity == p.complexity
    ensures PositionsValid(r)
  {
    var len := |p.sequence|;
    p.(nTerm := p.cTerm, cTerm := p.nTerm, sequence := Reversed(p.sequence),
       unknownPosition := seq(|p.unknownPosition|, j requires 0 <= j < |p.unknownPosition| => ReverseEntry(p.unknownPosition[j], len)))
  }

  /** Reversing twice gives the original peptide. */
  lemma ReverseInvolution(p: Peptidoform)
    requires PositionsValid(p)
    ensures Reverse(Reverse(p)) == p
  {
    var len := |p.sequence|;
    var r := Reverse(Reverse(p));
    forall j | 0 <= j < |p.unknownPosition| ensures r.unknownPosition[j] == p.unknownPosition[j] {
      var e := p.unknownPosition[j];
      forall k | 0 <= k < |e.positions| ensures r.unknownPosition[j].positions[k] == e.positions[k] {
        ReversePositionInvolution(e.positions[k], len);
      }
    }
  }

  /** The residue a position designates (`Index<SequencePosition>`): the N terminus
      is the first residue and the C terminus the last. */
  function ResidueAt(p: Peptidoform, pos: SequencePosition): (r: SequenceElement)
    requires |p.sequence| > 0 && ValidPosition(pos, |p.sequence|)
    ensures pos.NTerm? ==> r == p.sequence[0]
    ensures pos.CTerm? ==> r == p.sequence[|p.sequence| - 1]
    ensures pos.Index? ==> r == p.sequence[pos.i]
  {
    match pos
    case NTerm => p.sequence[0]
    case Index(i) => p.sequence[i]
    case CTerm => p.sequence[|p.sequence| - 1]
  }

  /** After reversal every registered position still designates the residue it
      designated before. */
  lemma ReverseKeepsPlacement(p: Peptidoform, j: nat, k: nat)
    requires PositionsValid(p) && |p.sequence| > 0
    requires j < |p.unknownPosition| && k < |p.unknownPosition[j].positions|
    ensures ResidueAt(Reverse(p), Reverse(p).unknownPosition[j].positions[k])
      == ResidueAt(p, p.unknownPosition[j].positions[k])
  {
  }

  /** Reversal keeps the peptide in every tier it was in, and out of the others. */
  lemma ReverseKeepsTier(p: Peptidoform, c: Complexity, unambiguous: char -> bool)
    requires PositionsValid(p)
    ensures Fits(Reverse(p), c, unambiguous) <==> Fits(p, c, unambiguous)
  {
    var r := Reverse(p);
    var n := |p.sequence|;
    assert IsLinear(r) <==> IsLinear(p) by {
      if IsLinear(p) {
        forall i | 0 <= i < n ensures NoCrossLink(r.sequence[i].modifications) {
          assert r.sequence[i] == p.sequence[n - 1 - i];
        }
      }
      if IsLinear(r) {
        forall i | 0 <= i < n ensures NoCrossLink(p.sequence[i].modifications) {
          assert r.sequence[n - 1 - i] == p.sequence[i];
        }
      }
    }
    assert (forall i :: 0 <= i < n ==> r.sequence[i].ambiguous.None?)
       <==> (forall i :: 0 <= i < n ==> p.sequence[i].ambiguous.None?) by {
      if forall i :: 0 <= i < n ==> r.sequence[i].ambiguous.None? {
        forall i | 0 <= i < n ensures p.sequence[i].ambiguous.None? {
          assert r.sequence[n - 1 - i] == p.sequence[i];
        }
      }
    }
    assert (forall i :: 0 <= i < n ==> unambiguous(r.sequence[i].aminoAcid))
       <==> (forall i :: 0 <= i < n ==> unambiguous(p.sequence[i].aminoAcid)) by {
      if forall i :: 0 <= i < n ==> unambiguous(r.sequence[i].aminoAcid) {
        forall i | 0 <= i < n ensures unambiguous(p.sequence[i].aminoAcid) {
          assert r.sequence[n - 1 - i] == p.sequence[i];
        }
      }
    }
  }

  // ---------------------------------------------------------------------------
  // Sub-peptides, digestion and concatenation

  /** `sub_peptide(start..end)`: the residues of the range; the N-terminal
      modifications only when the range holds residue 0 and the C-terminal ones
      only when it holds the last residue. Everything else is kept. The source
      computes `len - 1` unsigned, so the peptide must not be empty. */
  function SubPeptide(p: Peptidoform, r: Range): (q: Peptidoform)
    requires r.start <= r.end <= |p.sequence| && |p.sequence| > 0
    ensures q.sequence == p.sequence[r.start..r.end]
    ensures q.nTerm == (if r.start == 0 < r.end then p.nTerm else [])
    ensures q.cTerm == (if r.end == |p.sequence| > r.start then p.cTerm else [])
    ensures q.global == p.global && q.labile == p.labile && q.unknownPosition == p.unknownPosition
    ensures q.chargeCarriers == p.chargeCarriers && q.complexity == p.complexity
  {
    p.(nTerm := if r.Contains(0) then p.nTerm else [],
       cTerm := if r.Contains(|p.sequence| - 1) then p.cTerm else [],
       sequence := p.sequence[r.start..r.end])
  }

  /** The whole range gives the peptide back. */
  lemma SubPeptideWhole(p: Peptidoform)
    requires |p.sequence| > 0
    ensures SubPeptide(p, Range(0, |p.sequence|)) == p
  {
  }

  /** `concatenate`: defined exactly when the first has no C-terminal and the
      second no N-terminal modification; the residues are joined, the termini
      taken from the outer ends, the labile lists joined, and the registry of
      unknown positions emptied. Both peptides must be at most `SemiAmbiguous`. */
  function Concatenate(a: Peptidoform, b: Peptidoform): (r: Option<Peptidoform>)
    requires Level(a.complexity) <= Level(SemiAmbiguous) && Level(b.complexity) <= Level(SemiAmbiguous)
    ensures r.Some? <==> a.cTerm == [] && b.nTerm == []
    ensures r.Some? ==> r.value.sequence == a.sequence + b.sequence
    ensures r.Some? ==> r.value.nTerm == a.nTerm && r.value.cTerm == b.cTerm
    ensures r.Some? ==> r.value.labile == a.labile + b.labile && r.value.unknownPosition == []
    ensures r.Some? ==> r.value.global == a.global && r.value.chargeCarriers == a.chargeCarriers
    ensures r.Some? ==> r.value.complexity == HighestOf(a.complexity, b.complexity)
  {
    if a.cTerm == [] && b.nTerm == [] then
      Some(Peptidoform(HighestOf(a.complexity, b.complexity), a.global, a.labile + b.labile,
        a.nTerm, b.cTerm, a.sequence + b.sequence, [], a.chargeCarriers))
    else None
  }

  /** Concatenation is associative where it is defined. */
  lemma ConcatenateAssociative(a: Peptidoform, b: Peptidoform, c: Peptidoform)
    requires Level(a.complexity) <= 1 && Level(b.complexity) <= 1 && Level(c.complexity) <= 1
    requires Concatenate(a, b).Some? && Concatenate(b, c).Some?
    ensures Concatenate(Concatenate(a, b).value, c) == Concatenate(a, Concatenate(b, c).value)
  {
    assert (a.sequence + b.sequence) + c.sequence == a.sequence + (b.sequence + c.sequence);
    assert (a.labile + b.labile) + c.labile == a.labile + (b.labile + c.labile);
  }

  /** Cutting a semi-ambiguous peptide in two and concatenating the pieces gives
      the peptide back. */
  lemma SubPeptideReassemble(p: Peptidoform, k: nat)
    requires 0 < k < |p.sequence| && Level(p.complexity) <= Level(SemiAmbiguous)
    requires IsSemiAmbiguous(p)
    ensures Concatenate(SubPeptide(p, Range(0, k)), SubPeptide(p, Range(k, |p.sequence|))) == Some(p)
  {
    assert p.sequence[0..k] + p.sequence[k..|p.sequence|] == p.sequence;
  }

  /** The cleavage sites of a digestion: 0, the protease's sites, and the length. */
  function Sites(len: nat, cuts: seq<nat>): (s: seq<nat>)
    ensures |s| == |cuts| + 2 && s[0] == 0 && s[|s| - 1] == len
  {
    [0] + cuts + [len]
  }

  /** The protease's sites lie on the peptide in ascending order. */
  predicate CutsOrdered(len: nat, cuts: seq<nat>)
  {
    (forall a :: 0 <= a < |cuts| ==> cuts[a] <= len)
    && forall a, b :: 0 <= a <= b < |cuts| ==> cuts[a] <= cuts[b]
  }

  lemma SitesOrdered(len: nat, cuts: seq<nat>, i: nat, j: nat)
    requires CutsOrdered(len, cuts) && i <= j < |cuts| + 2
    ensures Sites(len, cuts)[i] <= Sites(len, cuts)[j] <= len
  {
    var s := Sites(len, cuts);
    if 0 < j < |s| - 1 {
      assert s[j] == cuts[j - 1];
    }
    if 0 < i < |s| - 1 {
      assert s[i] == cuts[i - 1];
    }
  }

  function Min(a: nat, b: nat): nat
  {
    if a <= b then a else b
  }

  /** The sub-peptide between sites `i` and `j`. */
  function Piece(p: Peptidoform, cuts: seq<nat>, i: nat, j: nat): (q: Peptidoform)
    requires |p.sequence| > 0 && CutsOrdered(|p.sequence|, cuts) && i <= j < |cuts| + 2
  {
    SitesOrdered(|p.sequence|, cuts, i, j);
    SubPeptide(p, Range(Sites(|p.sequence|, cuts)[i], Sites(|p.sequence|, cuts)[j]))
  }

  /** The pieces starting at site `i`: up to `maxMissed + 1` consecutive site
      pairs, the first being the empty stretch `sites[i]..sites[i]`. */
  function DigestRow(p: Peptidoform, cuts: seq<nat>, maxMissed: nat, i: nat): (r: seq<Peptidoform>)
    requires |p.sequence| > 0 && CutsOrdered(|p.sequence|, cuts) && i < |cuts| + 2
    ensures |r| == Min(maxMissed + 1, |cuts| + 2 - i)
  {
    seq(Min(maxMissed + 1, |cuts| + 2 - i), k requires 0 <= k < Min(maxMissed + 1, |cuts| + 2 - i) =>
      Piece(p, cuts, i, i + k))
  }

  /** The digest: the rows of every site, in order. */
  function DigestPieces(p: Peptidoform, cuts: seq<nat>, maxMissed: nat): seq<Peptidoform>
    requires |p.sequence| > 0 && CutsOrdered(|p.sequence|, cuts)
  {
    Flatten(seq(|cuts| + 2, i requires 0 <= i < |cuts| + 2 => DigestRow(p, cuts, maxMissed, i)))
  }

  /** `digest`: for every site and each of the next `maxMissed + 1` sites from it
      on, the sub-peptide between them. */
  method Digest(p: Peptidoform, cuts: seq<nat>, maxMissed: nat) returns (result: seq<Peptidoform>)
    requires Level(p.complexity) <= Level(Linear)
    requires |p.sequence| > 0 && CutsOrdered(|p.sequence|, cuts)
    ensures result == DigestPieces(p, cuts, maxMissed)
  {
    var sites := [0] + cuts + [|p.sequence|];
    assert sites == Sites(|p.sequence|, cuts);
    ghost var rows := seq(|cuts| + 2, i requires 0 <= i < |cuts| + 2 => DigestRow(p, cuts, maxMissed, i));
    result := [];
    for index := 0 to |sites|
      invariant result == Flatten(rows[..index])
    {
      var start := sites[index];
      var taken := 0;
      var stop := Min(maxMissed + 1, |sites| - index);
      while taken < stop
        invariant taken <= stop
        invariant result == Flatten(rows[..index]) + rows[index][..taken]
      {
        SitesOrdered(|p.sequence|, cuts, index, index + taken);
        result := result + [SubPeptide(p, Range(start, sites[index + taken]))];
        assert rows[index] == DigestRow(p, cuts, maxMissed, index);
        assert rows[index][taken] == Piece(p, cuts, index, index + taken);
        taken := taken + 1;
      }
      assert rows[..index + 1][..index] == rows[..index];
      assert rows[index][..taken] == rows[index];
    }
    assert rows[..|sites|] == rows;
  }

  /** The digest holds exactly the sub-peptides between two sites that are at most
      `maxMissed` sites apart, the second not before the first. */
  lemma DigestMember(p: Peptidoform, cuts: seq<nat>, maxMissed: nat, x: Peptidoform)
    requires |p.sequence| > 0 && CutsOrdered(|p.sequence|, cuts)
    ensures x in DigestPieces(p, cuts, maxMissed) <==>
      exists i, j :: 0 <= i <= j < |cuts| + 2 && j - i <= maxMissed && x == Piece(p, cuts, i, j)
  {
    if x in DigestPieces(p, cuts, maxMissed) {
      DigestMemberSound(p, cuts, maxMissed, x);
    }
    if exists i, j :: 0 <= i <= j < |cuts| + 2 && j - i <= maxMissed && x == Piece(p, cuts, i, j) {
      var i, j :| 0 <= i <= j < |cuts| + 2 && j - i <= maxMissed && x == Piece(p, cuts, i, j);
      DigestMemberComplete(p, cuts, maxMissed, i, j);
    }
  }

  lemma DigestMemberSound(p: Peptidoform, cuts: seq<nat>, maxMissed: nat, x: Peptidoform)
    requires |p.sequence| > 0 && CutsOrdered(|p.sequence|, cuts)
    requires x in DigestPieces(p, cuts, maxMissed)
    ensures exists i, j :: 0 <= i <= j < |cuts| + 2 && j - i <= maxMissed && x == Piece(p, cuts, i, j)
  {
    var rows := seq(|cuts| + 2, i requires 0 <= i < |cuts| + 2 => DigestRow(p, cuts, maxMissed, i));
    FlattenMember(rows, x);
    var i :| 0 <= i < |rows| && x in rows[i];
    var k :| 0 <= k < |rows[i]| && rows[i][k] == x;
    assert rows[i] == DigestRow(p, cuts, maxMissed, i);
    assert x == Piece(p, cuts, i, i + k);
  }

  lemma DigestMemberComplete(p: Peptidoform, cuts: seq<nat>, maxMissed: nat, i: nat, j: nat)
    requires |p.sequence| > 0 && CutsOrdered(|p.sequence|, cuts)
    requires i <= j < |cuts| + 2 && j - i <= maxMissed
    ensures Piece(p, cuts, i, j) in DigestPieces(p, cuts, maxMissed)
  {
    var rows := seq(|cuts| + 2, i requires 0 <= i < |cuts| + 2 => DigestRow(p, cuts, maxMissed, i));
    assert rows[i] == DigestRow(p, cuts, maxMissed, i);
    assert rows[i][j - i] == Piece(p, cuts, i, j);
    FlattenMember(rows, Piece(p, cuts, i, j));
  }

  /** The digest has `maxMissed + 1` pieces per site, fewer only for the last sites. */
  lemma DigestCount(p: Peptidoform, cuts: seq<nat>, maxMissed: nat)
    requires |p.sequence| > 0 && CutsOrdered(|p.sequence|, cuts)
    ensures |DigestPieces(p, cuts, maxMissed)| == RowsLength(|cuts| + 2, maxMissed)
  {
    var rows := seq(|cuts| + 2, i requires 0 <= i < |cuts| + 2 => DigestRow(p, cuts, maxMissed, i));
    FlattenLength(rows);
    forall i | 0 <= i < |cuts| + 2 ensures |rows[i]| == Min(maxMissed + 1, |cuts| + 2 - i) {
      assert rows[i] == DigestRow(p, cuts, maxMissed, i);
    }
    RowsTotal(rows, |cuts| + 2, maxMissed, |rows|);
    assert rows[..|rows|] == rows;
  }

  /** The number of pieces of the first `n` rows over `sites` sites. */
  function RowsLength(sites: nat, maxMissed: nat, n: nat := sites): nat
    requires n <= sites
  {
    if n == 0 then 0 else RowsLength(sites, maxMissed, n - 1) + Min(maxMissed + 1, sites - (n - 1))
  }

  lemma {:induction false} RowsTotal<T>(rows: seq<seq<T>>, sites: nat, maxMissed: nat, n: nat)
    requires |rows| == sites && n <= sites
    requires forall i :: 0 <= i < sites ==> |rows[i]| == Min(maxMissed + 1, sites - i)
    ensures TotalLength(rows[..n]) == RowsLength(sites, maxMissed, n)
  {
    if n > 0 {
      RowsTotal(rows, sites, maxMissed, n - 1);
      assert rows[..n][..n - 1] == rows[..n - 1];
    }
  }

  /** As written, a row starts with the empty stretch from a site to itself, so
      without missed cleavages every piece of the digest is empty. */
  lemma DigestAsWrittenEmpty(p: Peptidoform, cuts: seq<nat>, x: Peptidoform)
    requires |p.sequence| > 0 && CutsOrdered(|p.sequence|, cuts)
    requires x in DigestPieces(p, cuts, 0)
    ensures x.sequence == []
  {
    DigestMemberSound(p, cuts, 0, x);
    var i, j :| 0 <= i <= j < |cuts| + 2 && j - i <= 0 && x == Piece(p, cuts, i, j);
    assert i == j;
  }

  /** The pieces starting at site `i` as evidently intended: up to `maxMissed + 1`
      pieces, ending at each of the following sites. */
  function CorrectedDigestRow(p: Peptidoform, cuts: seq<nat>, maxMissed: nat, i: nat): (r: seq<Peptidoform>)
    requires |p.sequence| > 0 && CutsOrdered(|p.sequence|, cuts) && i < |cuts| + 2
    ensures |r| == Min(maxMissed + 1, |cuts| + 1 - i)
  {
    seq(Min(maxMissed + 1, |cuts| + 1 - i), k requires 0 <= k < Min(maxMissed + 1, |cuts| + 1 - i) =>
      Piece(p, cuts, i, i + 1 + k))
  }

  /** The corrected digest: the corrected rows of every site, in order. */
  function CorrectedDigestPieces(p: Peptidoform, cuts: seq<nat>, maxMissed: nat): seq<Peptidoform>
    requires |p.sequence| > 0 && CutsOrdered(|p.sequence|, cuts)
  {
    Flatten(seq(|cuts| + 2, i requires 0 <= i < |cuts| + 2 => CorrectedDigestRow(p, cuts, maxMissed, i)))
  }

  /** The corrected digest holds exactly the sub-peptides between two distinct
      sites with at most `maxMissed` sites skipped between them. */
  lemma CorrectedDigestMember(p: Peptidoform, cuts: seq<nat>, maxMissed: nat, x: Peptidoform)
    requires |p.sequence| > 0 && CutsOrdered(|p.sequence|, cuts)
    ensures x in CorrectedDigestPieces(p, cuts, maxMissed) <==>
      exists i, j :: 0 <= i < j < |cuts| + 2 && j - i <= maxMissed + 1 && x == Piece(p, cuts, i, j)
  {
    if x in CorrectedDigestPieces(p, cuts, maxMissed) {
      CorrectedDigestSound(p, cuts, maxMissed, x);
    }
    if exists i, j :: 0 <= i < j < |cuts| + 2 && j - i <= maxMissed + 1 && x == Piece(p, cuts, i, j) {
      var i, j :| 0 <= i < j < |cuts| + 2 && j - i <= maxMissed + 1 && x == Piece(p, cuts, i, j);
      CorrectedDigestComplete(p, cuts, maxMissed, i, j);
    }
  }

  lemma CorrectedDigestSound(p: Peptidoform, cuts: seq<nat>, maxMissed: nat, x: Peptidoform)
    requires |p.sequence| > 0 && CutsOrdered(|p.sequence|, cuts)
    requires x in CorrectedDigestPieces(p, cuts, maxMissed)
    ensures exists i, j :: 0 <= i < j < |cuts| + 2 && j - i <= maxMissed + 1 && x == Piece(p, cuts, i, j)
  {
    var rows := seq(|cuts| + 2, i requires 0 <= i < |cuts| + 2 => CorrectedDigestRow(p, cuts, maxMissed, i));
    FlattenMember(rows, x);
    var i :| 0 <= i < |rows| && x in rows[i];
    var k :| 0 <= k < |rows[i]| && rows[i][k] == x;
    assert rows[i] == CorrectedDigestRow(p, cuts, maxMissed, i);
    assert x == Piece(p, cuts, i, i + 1 + k);
  }

  lemma CorrectedDigestComplete(p: Peptidoform, cuts: seq<nat>, maxMissed: nat, i: nat, j: nat)
    requires |p.sequence| > 0 && CutsOrdered(|p.sequence|, cuts)
    requires i < j < |cuts| + 2 && j - i <= maxMissed + 1
    ensures Piece(p, cuts, i, j) in CorrectedDigestPieces(p, cuts, maxMissed)
  {
    var rows := seq(|cuts| + 2, i requires 0 <= i < |cuts| + 2 => CorrectedDigestRow(p, cuts, maxMissed, i));
    assert rows[i] == CorrectedDigestRow(p, cuts, maxMissed, i);
    assert rows[i][j - i - 1] == Piece(p, cuts, i, j);
    FlattenMember(rows, Piece(p, cuts, i, j));
  }

  /** With a cut inside the peptide and no missed cleavage, the corrected digest
      yields the non-empty piece up to the first cut, which the digest as written
      never yields. */
  lemma CorrectedDigestFirstPiece(p: Peptidoform, cuts: seq<nat>)
    requires |p.sequence| > 0 && CutsOrdered(|p.sequence|, cuts)
    requires |cuts| > 0 && cuts[0] > 0
    ensures Piece(p, cuts, 0, 1) in CorrectedDigestPieces(p, cuts, 0)
    ensures Piece(p, cuts, 0, 1).sequence != [] && Piece(p, cuts, 0, 1) !in DigestPieces(p, cuts, 0)
  {
    CorrectedDigestMember(p, cuts, 0, Piece(p, cuts, 0, 1));
    assert Sites(|p.sequence|, cuts)[1] == cuts[0];
    if Piece(p, cuts, 0, 1) in DigestPieces(p, cuts, 0) {
      DigestAsWrittenEmpty(p, cuts, Piece(p, cuts, 0, 1));
    }
  }

  // ---------------------------------------------------------------------------
  // Iteration over a range

  /** `iter(start..end)`: the N terminus when the range starts at 0, each residue
      of the range with its index, and the C terminus when the range runs to the
      end; each paired with the residue it designates. */
  function Iter(p: Peptidoform, r: Range): (items: seq<(SequencePosition, SequenceElement)>)
    requires |p.sequence| > 0 && r.start <= r.end <= |p.sequence|
    ensures |items| == (if r.start == 0 then 1 else 0) + (r.end - r.start) + (if r.end == |p.sequence| then 1 else 0)
    ensures forall k :: 0 <= k < |items| ==>
      ValidPosition(items[k].0, |p.sequence|) && items[k].1 == ResidueAt(p, items[k].0)
  {
    var len := |p.sequence|;
    (if r.start == 0 then [(NTerm, p.sequence[0])] else [])
    + seq(r.end - r.start, k requires 0 <= k < r.end - r.start => (Index(k + r.start), p.sequence[k + r.start]))
    + (if r.end == len then [(CTerm, p.sequence[len - 1])] else [])
  }

  /** The positions `iter` visits: the N terminus iff the range starts at 0, a
      residue iff it lies in the range, the C terminus iff the range runs to the
      end. For a non-empty range these are exactly the positions the range contains. */
  lemma IterPositions(p: Peptidoform, r: Range, pos: SequencePosition)
    requires |p.sequence| > 0 && r.start <= r.end <= |p.sequence|
    ensures (exists k :: 0 <= k < |Iter(p, r)| && Iter(p, r)[k].0 == pos) <==>
      match pos
      case NTerm => r.start == 0
      case Index(i) => r.start <= i < r.end
      case CTerm => r.end == |p.sequence|
    ensures r.start < r.end ==>
      ((exists k :: 0 <= k < |Iter(p, r)| && Iter(p, r)[k].0 == pos) <==>
        ValidPosition(pos, |p.sequence|) && RangeContainsPosition(r, |p.sequence|, pos))
  {
    var items := Iter(p, r);
    var front := if r.start == 0 then 1 else 0;
    var len := |p.sequence|;
    match pos
    case NTerm =>
      if r.start == 0 {
        assert items[0].0 == NTerm;
      }
    case CTerm =>
      if r.end == len {
        assert items[|items| - 1].0 == CTerm;
      }
    case Index(i) =>
      if r.start <= i < r.end {
        assert items[front + i - r.start].0 == Index(i);
      }
      if exists k :: 0 <= k < |items| && items[k].0 == pos {
        var k :| 0 <= k < |items| && items[k].0 == pos;
        assert front <= k < front + r.end - r.start;
        assert items[k].0 == Index(k - front + r.start);
      }
  }
}
