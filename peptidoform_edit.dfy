/** The in-place adders of the current crate's peptidoform: a mutable
    peptidoform whose methods push onto its lists, each proved against a
    value-level definition of the peptide it leaves behind. */
module PeptidoformEdit {
  import opened Common
  import opened Formula
  import opened Peptidoform

  /** The modification list a position designates: a terminus' list or a residue's. */
  function ModsAt(p: Peptidoform, pos: SequencePosition): seq<Modification>
    requires ValidPosition(pos, |p.sequence|)
  {
    match pos
    case NTerm => p.nTerm
    case Index(i) => p.sequence[i].modifications
    case CTerm => p.cTerm
  }

  /** `add_modification`: push `m` onto the list at `pos`, nothing else changes. */
  function AddModificationAt(p: Peptidoform, pos: SequencePosition, m: Modification): (r: Peptidoform)
    requires ValidPosition(pos, |p.sequence|)
    ensures |r.sequence| == |p.sequence|
    ensures forall i :: 0 <= i < |p.sequence| ==>
      r.sequence[i].aminoAcid == p.sequence[i].aminoAcid && r.sequence[i].ambiguous == p.sequence[i].ambiguous
    ensures r.(nTerm := p.nTerm, cTerm := p.cTerm, sequence := p.sequence) == p
  {
    match pos
    case NTerm => p.(nTerm := p.nTerm + [m])
    case CTerm => p.(cTerm := p.cTerm + [m])
    case Index(i) =>
      p.(sequence := p.sequence[i := p.sequence[i].(modifications := p.sequence[i].modifications + [m])])
  }

  /** The list at `pos` gains `m` at its end; every other list stays as it was. */
  lemma AddModificationMods(p: Peptidoform, pos: SequencePosition, m: Modification, q: SequencePosition)
    requires ValidPosition(pos, |p.sequence|) && ValidPosition(q, |p.sequence|)
    ensures ModsAt(AddModificationAt(p, pos, m), q) == if q == pos then ModsAt(p, q) + [m] else ModsAt(p, q)
  {
  }

  /** The group name an ambiguous modification gets when none is given: `u` and the id. */
  function DefaultGroup(id: nat): (g: string)
    ensures |g| >= 2 && g[0] == 'u' && g[1..] == Decimal(id) && DigitsValue(g[1..]) == id
  {
    DecimalRoundTrip(id);
    assert ("u" + Decimal(id))[1..] == Decimal(id);
    "u" + Decimal(id)
  }

  /** The `Ambiguous` modification placed at the `k`-th listed position. */
  function AmbiguousAt(id: nat, group: string, m: SimpleModification,
                       positions: seq<(SequencePosition, Option<real>)>, preferred: Option<SequencePosition>, k: nat): Modification
    requires k < |positions|
  {
    Ambiguous(id, group, m, positions[k].1, preferred == Some(positions[k].0))
  }

  predicate AllValid(positions: seq<(SequencePosition, Option<real>)>, len: nat)
  {
    forall k :: 0 <= k < |positions| ==> ValidPosition(positions[k].0, len)
  }

  /** Placing the ambiguous modification at every listed position in turn. */
  function PlaceAmbiguous(p: Peptidoform, id: nat, group: string, m: SimpleModification,
                          positions: seq<(SequencePosition, Option<real>)>, preferred: Option<SequencePosition>): (r: Peptidoform)
    requires AllValid(positions, |p.sequence|)
    ensures |r.sequence| == |p.sequence|
  {
    if |positions| == 0 then p
    else
      var n := |positions| - 1;
      AddModificationAt(PlaceAmbiguous(p, id, group, m, positions[..n], preferred), positions[n].0,
        AmbiguousAt(id, group, m, positions, preferred, n))
  }

  /** The modifications the listed positions put at `q`, in list order. */
  function PlacedAt(id: nat, group: string, m: SimpleModification,
                    positions: seq<(SequencePosition, Option<real>)>, preferred: Option<SequencePosition>, q: SequencePosition): seq<Modification>
  {
    if |positions| == 0 then []
    else
      var n := |positions| - 1;
      PlacedAt(id, group, m, positions[..n], preferred, q)
        + (if positions[n].0 == q then [AmbiguousAt(id, group, m, positions, preferred, n)] else [])
  }

  /** `add_ambiguous_modification`: with no position nothing happens and the
      answer is false; with one, a definite modification is added there and no
      registry entry; with more, every listed position gets an `Ambiguous`
      modification whose id is the registry's length, and one entry listing the
      positions is registered. */
  function AddAmbiguous(p: Peptidoform, m: SimpleModification, group: Option<string>,
                        positions: seq<(SequencePosition, Option<real>)>, preferred: Option<SequencePosition>,
                        limit: Option<nat>, colocalise: bool): (Peptidoform, bool)
    requires AllValid(positions, |p.sequence|)
  {
    if |positions| == 0 then (p, false)
    else if |positions| == 1 then (AddModificationAt(p, positions[0].0, Simple(m)), true)
    else
      var id := |p.unknownPosition|;
      var g := if group.Some? then group.value else DefaultGroup(id);
      var placed := PlaceAmbiguous(p, id, g, m, positions, preferred);
      var entry := AmbiguousEntry(seq(|positions|, k requires 0 <= k < |positions| => positions[k].0), limit, colocalise, None);
      (placed.(unknownPosition := p.unknownPosition + [entry]), true)
  }

  // ---------------------------------------------------------------------------
  // What the adders do

  /** Each list gains exactly the modifications placed at its position, in order;
      amino acids, `(?AA)` groups and every other field stay as they were. */
  lemma {:induction false} PlaceAmbiguousEffect(p: Peptidoform, id: nat, group: string, m: SimpleModification,
                                                positions: seq<(SequencePosition, Option<real>)>, preferred: Option<SequencePosition>,
                                                q: SequencePosition)
    requires AllValid(positions, |p.sequence|) && ValidPosition(q, |p.sequence|)
    ensures ModsAt(PlaceAmbiguous(p, id, group, m, positions, preferred), q)
      == ModsAt(p, q) + PlacedAt(id, group, m, positions, preferred, q)
  {
    if |positions| > 0 {
      var n := |positions| - 1;
      var prev := PlaceAmbiguous(p, id, group, m, positions[..n], preferred);
      var added := AmbiguousAt(id, group, m, positions, preferred, n);
      PlaceAmbiguousEffect(p, id, group, m, positions[..n], preferred, q);
      assert PlaceAmbiguous(p, id, group, m, positions, preferred) == AddModificationAt(prev, positions[n].0, added);
      AddModificationMods(prev, positions[n].0, added, q);
      PlacedAtPrefix(id, group, m, positions, preferred, q);
    }
  }

  lemma PlacedAtPrefix(id: nat, group: string, m: SimpleModification,
                       positions: seq<(SequencePosition, Option<real>)>, preferred: Option<SequencePosition>, q: SequencePosition)
    requires |positions| > 0
    ensures PlacedAt(id, group, m, positions, preferred, q)
      == PlacedAt(id, group, m, positions[..|positions| - 1], preferred, q)
        + (if positions[|positions| - 1].0 == q then [AmbiguousAt(id, group, m, positions, preferred, |positions| - 1)] else [])
  {
  }

  lemma {:induction false} PlaceAmbiguousKeeps(p: Peptidoform, id: nat, group: string, m: SimpleModification,
                                               positions: seq<(SequencePosition, Option<real>)>, preferred: Option<SequencePosition>)
    requires AllValid(positions, |p.sequence|)
    ensures var r := PlaceAmbiguous(p, id, group, m, positions, preferred);
      (forall i :: 0 <= i < |p.sequence| ==>
        r.sequence[i].aminoAcid == p.sequence[i].aminoAcid && r.sequence[i].ambiguous == p.sequence[i].ambiguous)
      && r.global == p.global && r.labile == p.labile && r.unknownPosition == p.unknownPosition
      && r.chargeCarriers == p.chargeCarriers && r.complexity == p.complexity
  {
    if |positions| > 0 {
      PlaceAmbiguousKeeps(p, id, group, m, positions[..|positions| - 1], preferred);
    }
  }

  /** Every modification `PlacedAt` lists is the new `Ambiguous` modification of
      one of the listed positions equal to `q`, and every such position contributes one. */
  lemma {:induction false} PlacedAtMember(id: nat, group: string, m: SimpleModification,
                                          positions: seq<(SequencePosition, Option<real>)>, preferred: Option<SequencePosition>,
                                          q: SequencePosition, k: nat)
    requires k < |positions| && positions[k].0 == q
    ensures Ambiguous(id, group, m, positions[k].1, preferred == Some(q)) in PlacedAt(id, group, m, positions, preferred, q)
  {
    var n := |positions| - 1;
    if k < n {
      PlacedAtMember(id, group, m, positions[..n], preferred, q, k);
    }
  }

  /** No position: nothing happens and the answer is false. */
  lemma AddAmbiguousNoPosition(p: Peptidoform, m: SimpleModification, group: Option<string>,
                               preferred: Option<SequencePosition>, limit: Option<nat>, colocalise: bool)
    ensures AddAmbiguous(p, m, group, [], preferred, limit, colocalise) == (p, false)
  {
  }

  /** One position: a definite (simple) modification there, no registry entry. */
  lemma AddAmbiguousOnePosition(p: Peptidoform, m: SimpleModification, group: Option<string>,
                                pos: (SequencePosition, Option<real>), preferred: Option<SequencePosition>,
                                limit: Option<nat>, colocalise: bool)
    requires ValidPosition(pos.0, |p.sequence|)
    ensures var (r, placed) := AddAmbiguous(p, m, group, [pos], preferred, limit, colocalise);
      placed && r.unknownPosition == p.unknownPosition
      && ModsAt(r, pos.0) == ModsAt(p, pos.0) + [Simple(m)]
      && forall q :: ValidPosition(q, |p.sequence|) && q != pos.0 ==> ModsAt(r, q) == ModsAt(p, q)
  {
  }

  /** Two or more positions: one registry entry is added, with id equal to the
      old registry length, listing the positions with the given limit and
      colocalisation and no group; the earlier entries stay. */
  lemma AddAmbiguousRegisters(p: Peptidoform, m: SimpleModification, group: Option<string>,
                              positions: seq<(SequencePosition, Option<real>)>, preferred: Option<SequencePosition>,
                              limit: Option<nat>, colocalise: bool)
    requires |positions| >= 2 && AllValid(positions, |p.sequence|)
    ensures var (r, placed) := AddAmbiguous(p, m, group, positions, preferred, limit, colocalise);
      var id := |p.unknownPosition|;
      placed
      && |r.unknownPosition| == id + 1 && r.unknownPosition[..id] == p.unknownPosition
      && |r.unknownPosition[id].positions| == |positions|
      && (forall k :: 0 <= k < |positions| ==> r.unknownPosition[id].positions[k] == positions[k].0)
      && r.unknownPosition[id].limit == limit && r.unknownPosition[id].colocalise == colocalise
      && r.unknownPosition[id].group == None
  {
  }

  /** Two or more positions: every listed position carries an `Ambiguous`
      modification with the new id, its own score, and the preferred flag set
      exactly when it is the preferred position. */
  lemma AddAmbiguousPlaces(p: Peptidoform, m: SimpleModification, group: Option<string>,
                           positions: seq<(SequencePosition, Option<real>)>, preferred: Option<SequencePosition>,
                           limit: Option<nat>, colocalise: bool, k: nat)
    requires |positions| >= 2 && AllValid(positions, |p.sequence|) && k < |positions|
    ensures var r := AddAmbiguous(p, m, group, positions, preferred, limit, colocalise).0;
      var id := |p.unknownPosition|;
      var g := if group.Some? then group.value else DefaultGroup(id);
      Ambiguous(id, g, m, positions[k].1, preferred == Some(positions[k].0)) in ModsAt(r, positions[k].0)
  {
    var id := |p.unknownPosition|;
    var g := if group.Some? then group.value else DefaultGroup(id);
    var placed := PlaceAmbiguous(p, id, g, m, positions, preferred);
    var r := AddAmbiguous(p, m, group, positions, preferred, limit, colocalise).0;
    assert r == placed.(unknownPosition := r.unknownPosition);
    PlaceAmbiguousEffect(p, id, g, m, positions, preferred, positions[k].0);
    PlacedAtMember(id, g, m, positions, preferred, positions[k].0, k);
  }

  /** Two or more positions: a position that is not listed keeps its modifications,
      and so do the amino acids and the fields other than the registry. */
  lemma AddAmbiguousUntouched(p: Peptidoform, m: SimpleModification, group: Option<string>,
                              positions: seq<(SequencePosition, Option<real>)>, preferred: Option<SequencePosition>,
                              limit: Option<nat>, colocalise: bool, q: SequencePosition)
    requires |positions| >= 2 && AllValid(positions, |p.sequence|) && ValidPosition(q, |p.sequence|)
    requires forall k :: 0 <= k < |positions| ==> positions[k].0 != q
    ensures var r := AddAmbiguous(p, m, group, positions, preferred, limit, colocalise).0;
      ModsAt(r, q) == ModsAt(p, q)
      && |r.sequence| == |p.sequence|
      && (forall i :: 0 <= i < |p.sequence| ==> r.sequence[i].aminoAcid == p.sequence[i].aminoAcid)
      && r.global == p.global && r.labile == p.labile && r.chargeCarriers == p.chargeCarriers
  {
    var id := |p.unknownPosition|;
    var g := if group.Some? then group.value else DefaultGroup(id);
    var placed := PlaceAmbiguous(p, id, g, m, positions, preferred);
    var r := AddAmbiguous(p, m, group, positions, preferred, limit, colocalise).0;
    PlaceAmbiguousKeeps(p, id, g, m, positions, preferred);
    assert r == placed.(unknownPosition := r.unknownPosition);
    PlaceAmbiguousEffect(p, id, g, m, positions, preferred, q);
    PlacedAtNone(id, g, m, positions, preferred, q);
  }

  lemma {:induction false} PlacedAtNone(id: nat, group: string, m: SimpleModification,
                                        positions: seq<(SequencePosition, Option<real>)>, preferred: Option<SequencePosition>,
                                        q: SequencePosition)
    requires forall k :: 0 <= k < |positions| ==> positions[k].0 != q
    ensures PlacedAt(id, group, m, positions, preferred, q) == []
  {
    if |positions| > 0 {
      PlacedAtNone(id, group, m, positions[..|positions| - 1], preferred, q);
    }
  }

  // ---------------------------------------------------------------------------
  // The mutable peptidoform

  class PeptidoformBuilder {
    var complexity: Complexity
    var global: seq<GlobalIsotope>
    var labile: seq<SimpleModification>
    var nTerm: seq<Modification>
    var cTerm: seq<Modification>
    var sequence: seq<SequenceElement>
    var unknownPosition: seq<AmbiguousEntry>
    var chargeCarriers: Option<MolecularCharge>

    /** The peptidoform the fields hold. */
    function Value(): Peptidoform
      reads this
    {
      Peptidoform(complexity, global, labile, nTerm, cTerm, sequence, unknownPosition, chargeCarriers)
    }

    constructor (p: Peptidoform)
      ensures Value() == p
    {
      complexity := p.complexity;
      global := p.global;
      labile := p.labile;
      nTerm := p.nTerm;
      cTerm := p.cTerm;
      sequence := p.sequence;
      unknownPosition := p.unknownPosition;
      chargeCarriers := p.chargeCarriers;
    }

    /** `add_global`: push the isotope modification when it is valid; report whether it was. */
    method AddGlobal(m: GlobalIsotope, isValid: GlobalIsotope -> bool) returns (ok: bool)
      modifies this
      ensures ok == isValid(m)
      ensures Value() == if ok then old(Value()).(global := old(global) + [m]) else old(Value())
    {
      if isValid(m) {
        global := global + [m];
        return true;
      }
      return false;
    }

    /** `add_modification`: push onto the list at the position (an index past
        the end is out of bounds in the source). */
    method AddModification(position: SequencePosition, m: Modification)
      requires ValidPosition(position, |sequence|)
      modifies this
      ensures Value() == AddModificationAt(old(Value()), position, m)
    {
      match position
      case NTerm => nTerm := nTerm + [m];
      case CTerm => cTerm := cTerm + [m];
      case Index(i) =>
        sequence := sequence[i := sequence[i].(modifications := sequence[i].modifications + [m])];
    }

    /** `add_simple_modification`: a simple modification at the position. */
    method AddSimpleModification(position: SequencePosition, m: SimpleModification)
      requires ValidPosition(position, |sequence|)
      modifies this
      ensures Value() == AddModificationAt(old(Value()), position, Simple(m))
    {
      AddModification(position, Simple(m));
    }

    /** `add_ambiguous_modification`, placing at the listed positions in order. */
    method AddAmbiguousModification(m: SimpleModification, group: Option<string>,
                                    positions: seq<(SequencePosition, Option<real>)>, preferred: Option<SequencePosition>,
                                    limit: Option<nat>, colocalise: bool) returns (placed: bool)
      requires AllValid(positions, |sequence|)
      modifies this
      ensures (Value(), placed) == AddAmbiguous(old(Value()), m, group, positions, preferred, limit, colocalise)
    {
      if |positions| == 0 {
        return false;
      }
      if |positions| == 1 {
        AddModification(positions[0].0, Simple(m));
        return true;
      }
      var id := |unknownPosition|;
      var g := if group.Some? then group.value else DefaultGroup(id);
      var listed: seq<SequencePosition> := [];
      ghost var start := Value();
      for k := 0 to |positions|
        invariant |sequence| == |start.sequence| && unknownPosition == start.unknownPosition
        invariant Value() == PlaceAmbiguous(start, id, g, m, positions[..k], preferred)
        invariant listed == seq(k, j requires 0 <= j < k => positions[j].0)
      {
        var (spos, score) := positions[k];
        assert positions[..k + 1][..k] == positions[..k];
        AddModification(spos, Ambiguous(id, g, m, score, preferred == Some(spos)));
        listed := listed + [spos];
      }
      assert positions[..|positions|] == positions;
      unknownPosition := unknownPosition + [AmbiguousEntry(listed, limit, colocalise, None)];
      placed := true;
    }
  }
}
