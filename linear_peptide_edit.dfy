/** The three in-place operations of the older crate's linear peptide that
    place global, unknown-position and ranged unknown-position modifications,
    first as functions on values, then as a class that updates its fields. */
module LinearPeptideEdit {
  import opened Common
  import opened Formula
  import opened LinearPeptide

  datatype GlobalModification =
    | Fixed(aminoAcid: char, modification: Modification)
    | Free(modification: Modification)
    | Isotope(element: Element, isotope: Option<nat>)

  /** What the parser returns for a ranged unknown-position modification: a
      definition, or a reference (preferred or not) to an ambiguous-lookup entry
      with an optional localisation score. */
  datatype ReturnModification =
    | Defined(definition: Modification)
    | Preferred(index: nat, score: Option<real>)
    | Referenced(index: nat, score: Option<real>)

  /** `is_possible` of a modification on a residue at an index of a peptide of a length. */
  type PlacementRule = (Modification, SequenceElement, nat, nat) -> bool

  // ---------------------------------------------------------------------------
  // Global modifications

  predicate Qualifies(g: GlobalModification, s: SequenceElement, i: nat, len: nat, isPossible: PlacementRule)
  {
    match g
    case Fixed(aa, m) => s.aminoAcid == aa && isPossible(m, s, i, len)
    case Free(m) => isPossible(m, s, i, len)
    case Isotope(_, _) => false
  }

  /** One global modification: a fixed or free one is pushed onto every residue
      it qualifies for; a valid isotope is appended; an invalid one fails. */
  function ApplyGlobal(p: LinearPeptide, g: GlobalModification, isPossible: PlacementRule,
                       isValid: GlobalIsotope -> bool): Option<LinearPeptide>
  {
    if g.Isotope? then
      if isValid((g.element, g.isotope)) then Some(p.(global := p.global + [(g.element, g.isotope)])) else None
    else
      Some(PushGlobal(p, g, isPossible))
  }

  /** A fixed or free modification pushed onto every residue it qualifies for. */
  function PushGlobal(p: LinearPeptide, g: GlobalModification, isPossible: PlacementRule): LinearPeptide
    requires !g.Isotope?
  {
    var len := |p.sequence|;
    p.(sequence := seq(len, i requires 0 <= i < len =>
      if Qualifies(g, p.sequence[i], i, len, isPossible)
      then p.sequence[i].(modifications := p.sequence[i].modifications + [g.modification])
      else p.sequence[i]))
  }

  /** `apply_global_modifications`: the modifications in order; `false` at the
      first invalid isotope, keeping what was applied before it. */
  function ApplyGlobals(p: LinearPeptide, gs: seq<GlobalModification>, isPossible: PlacementRule,
                        isValid: GlobalIsotope -> bool): (LinearPeptide, bool)
    decreases |gs|
  {
    if |gs| == 0 then (p, true)
    else
      match ApplyGlobal(p, gs[0], isPossible, isValid)
      case None => (p, false)
      case Some(q) => ApplyGlobals(q, gs[1..], isPossible, isValid)
  }

  predicate InvalidIsotope(g: GlobalModification, isValid: GlobalIsotope -> bool)
  {
    g.Isotope? && !isValid((g.element, g.isotope))
  }

  /** The isotopes of a list, in order. */
  function Isotopes(gs: seq<GlobalModification>): seq<GlobalIsotope>
  {
    if |gs| == 0 then []
    else (if gs[0].Isotope? then [(gs[0].element, gs[0].isotope)] else []) + Isotopes(gs[1..])
  }

  /** The result is `false` exactly when some isotope is invalid, and when it is
      `true` every isotope was appended, in order. */
  lemma {:induction false} ApplyGlobalsResult(p: LinearPeptide, gs: seq<GlobalModification>, isPossible: PlacementRule,
                                              isValid: GlobalIsotope -> bool)
    decreases |gs|
    ensures !ApplyGlobals(p, gs, isPossible, isValid).1 <==> exists k :: 0 <= k < |gs| && InvalidIsotope(gs[k], isValid)
    ensures ApplyGlobals(p, gs, isPossible, isValid).1 ==> ApplyGlobals(p, gs, isPossible, isValid).0.global == p.global + Isotopes(gs)
  {
    if |gs| > 0 {
      match ApplyGlobal(p, gs[0], isPossible, isValid)
      case None =>
        assert InvalidIsotope(gs[0], isValid);
      case Some(q) =>
        ApplyGlobalsResult(q, gs[1..], isPossible, isValid);
        assert !InvalidIsotope(gs[0], isValid);
        assert forall k :: 1 <= k < |gs| ==> gs[1..][k - 1] == gs[k];
        if (exists k :: 0 <= k < |gs| && InvalidIsotope(gs[k], isValid)) {
          var k :| 0 <= k < |gs| && InvalidIsotope(gs[k], isValid);
          assert InvalidIsotope(gs[1..][k - 1], isValid);
        }
    }
  }

  /** Global modifications leave the residues' amino acids, their possible
      modifications, the registry and the termini alone, and only append to a
      residue's modifications. */
  lemma {:induction false} ApplyGlobalsKeeps(p: LinearPeptide, gs: seq<GlobalModification>, isPossible: PlacementRule,
                                             isValid: GlobalIsotope -> bool)
    decreases |gs|
    ensures var r := ApplyGlobals(p, gs, isPossible, isValid).0;
      |r.sequence| == |p.sequence| && r.ambiguousModifications == p.ambiguousModifications
      && r.nTerm == p.nTerm && r.cTerm == p.cTerm && r.labile == p.labile
      && forall i :: 0 <= i < |p.sequence| ==>
           r.sequence[i].aminoAcid == p.sequence[i].aminoAcid
           && r.sequence[i].possibleModifications == p.sequence[i].possibleModifications
           && r.sequence[i].ambiguous == p.sequence[i].ambiguous
           && p.sequence[i].modifications <= r.sequence[i].modifications
  {
    if |gs| > 0 {
      match ApplyGlobal(p, gs[0], isPossible, isValid)
      case None =>
      case Some(q) =>
        ApplyGlobalsKeeps(q, gs[1..], isPossible, isValid);
    }
  }

  /** Placing global modifications keeps the registry consistent. */
  lemma ApplyGlobalsConsistent(p: LinearPeptide, gs: seq<GlobalModification>, isPossible: PlacementRule,
                               isValid: GlobalIsotope -> bool)
    requires Consistent(p)
    ensures Consistent(ApplyGlobals(p, gs, isPossible, isValid).0)
  {
    ApplyGlobalsKeeps(p, gs, isPossible, isValid);
    var r := ApplyGlobals(p, gs, isPossible, isValid).0;
    forall i | 0 <= i < |p.sequence| ensures IdsOn(r.sequence[i]) == IdsOn(p.sequence[i]) {
    }
  }

  // ---------------------------------------------------------------------------
  // Possible positions

  /** The indices `lo <= i < hi` whose residue the modification may sit on, ascending. */
  function PositionsIn(sequence: seq<SequenceElement>, m: Modification, isPossible: PlacementRule, lo: nat, hi: nat): seq<nat>
    requires hi <= |sequence| || hi <= lo
  {
    if hi <= lo then []
    else PositionsIn(sequence, m, isPossible, lo, hi - 1)
         + (if isPossible(m, sequence[hi - 1], hi - 1, |sequence|) then [hi - 1] else [])
  }

  lemma {:induction false} PositionsInMember(sequence: seq<SequenceElement>, m: Modification, isPossible: PlacementRule,
                                             lo: nat, hi: nat, x: nat)
    requires hi <= |sequence| || hi <= lo
    ensures x in PositionsIn(sequence, m, isPossible, lo, hi) <==> lo <= x < hi && isPossible(m, sequence[x], x, |sequence|)
  {
    if lo < hi {
      PositionsInMember(sequence, m, isPossible, lo, hi - 1, x);
    }
  }

  lemma {:induction false} PositionsInIncreasing(sequence: seq<SequenceElement>, m: Modification, isPossible: PlacementRule,
                                                 lo: nat, hi: nat)
    requires hi <= |sequence| || hi <= lo
    ensures forall a, b :: 0 <= a < b < |PositionsIn(sequence, m, isPossible, lo, hi)| ==>
      PositionsIn(sequence, m, isPossible, lo, hi)[a] < PositionsIn(sequence, m, isPossible, lo, hi)[b]
  {
    if lo < hi {
      var front := PositionsIn(sequence, m, isPossible, lo, hi - 1);
      PositionsInIncreasing(sequence, m, isPossible, lo, hi - 1);
      forall a | 0 <= a < |front| ensures front[a] < hi - 1 {
        PositionsInMember(sequence, m, isPossible, lo, hi - 1, front[a]);
      }
      var ps := PositionsIn(sequence, m, isPossible, lo, hi);
      assert ps == front + (if isPossible(m, sequence[hi - 1], hi - 1, |sequence|) then [hi - 1] else []);
      forall a, b | 0 <= a < b < |ps| ensures ps[a] < ps[b] {
        if b < |front| {
          assert ps[a] == front[a] && ps[b] == front[b];
          assert front[a] < front[b];
        } else {
          assert ps[a] == front[a] && ps[b] == hi - 1;
        }
      }
    }
  }

  /** The residues `lo <= i < hi` that qualify each gain `a` as a possible modification. */
  function Attach(sequence: seq<SequenceElement>, m: Modification, isPossible: PlacementRule, lo: nat, hi: nat,
                  a: AmbiguousModification): seq<SequenceElement>
  {
    seq(|sequence|, i requires 0 <= i < |sequence| =>
      if lo <= i < hi && isPossible(m, sequence[i], i, |sequence|)
      then sequence[i].(possibleModifications := sequence[i].possibleModifications + [a])
      else sequence[i])
  }

  lemma AttachIds(sequence: seq<SequenceElement>, m: Modification, isPossible: PlacementRule, lo: nat, hi: nat,
                  a: AmbiguousModification, i: nat)
    requires i < |sequence|
    ensures IdsOn(Attach(sequence, m, isPossible, lo, hi, a)[i]) ==
      IdsOn(sequence[i]) + (if lo <= i < hi && isPossible(m, sequence[i], i, |sequence|) then {a.id} else {})
  {
  }

  // ---------------------------------------------------------------------------
  // Unknown-position modifications

  /** One unknown-position modification: a new registry entry (id = the old
      registry length) listing every qualifying residue, each of which gains it
      as a possible modification without score or group. */
  function UnknownStep(p: LinearPeptide, m: Modification, isPossible: PlacementRule): LinearPeptide
  {
    var len := |p.sequence|;
    var id := |p.ambiguousModifications|;
    p.(sequence := Attach(p.sequence, m, isPossible, 0, len, AmbiguousModification(id, m, None, None)),
       ambiguousModifications := p.ambiguousModifications + [PositionsIn(p.sequence, m, isPossible, 0, len)])
  }

  /** `apply_unknown_position_modification`: the modifications in order. */
  function ApplyUnknown(p: LinearPeptide, ms: seq<Modification>, isPossible: PlacementRule): LinearPeptide
    decreases |ms|
  {
    if |ms| == 0 then p else ApplyUnknown(UnknownStep(p, ms[0], isPossible), ms[1..], isPossible)
  }

  /** Each step keeps the registry consistent with the residues. */
  lemma UnknownStepConsistent(p: LinearPeptide, m: Modification, isPossible: PlacementRule)
    requires Consistent(p)
    ensures Consistent(UnknownStep(p, m, isPossible))
  {
    var r := UnknownStep(p, m, isPossible);
    var len := |p.sequence|;
    var id := |p.ambiguousModifications|;
    forall j, loc | 0 <= j < |r.ambiguousModifications| && loc in r.ambiguousModifications[j] ensures loc < len {
      if j == id {
        PositionsInMember(p.sequence, m, isPossible, 0, len, loc);
      }
    }
    forall i, j: nat | 0 <= i < len
      ensures j in IdsOn(r.sequence[i]) <==> Registered(r, j, i)
    {
      AttachIds(p.sequence, m, isPossible, 0, len, AmbiguousModification(id, m, None, None), i);
      PositionsInMember(p.sequence, m, isPossible, 0, len, i);
      assert id in IdsOn(p.sequence[i]) <==> Registered(p, id, i);
      assert j in IdsOn(p.sequence[i]) <==> Registered(p, j, i);
    }
  }

  /** Each modification gets the next id, and its entry lists, ascending, exactly
      the residues it may sit on. */
  lemma UnknownStepEntry(p: LinearPeptide, m: Modification, isPossible: PlacementRule, x: nat)
    ensures var r := UnknownStep(p, m, isPossible);
      |r.ambiguousModifications| == |p.ambiguousModifications| + 1
      && r.ambiguousModifications[..|p.ambiguousModifications|] == p.ambiguousModifications
      && (x in r.ambiguousModifications[|p.ambiguousModifications|] <==>
            x < |p.sequence| && isPossible(m, p.sequence[x], x, |p.sequence|))
      && var e := r.ambiguousModifications[|p.ambiguousModifications|];
         forall a, b :: 0 <= a < b < |e| ==> e[a] < e[b]
  {
    PositionsInMember(p.sequence, m, isPossible, 0, |p.sequence|, x);
    PositionsInIncreasing(p.sequence, m, isPossible, 0, |p.sequence|);
  }

  lemma {:induction false} ApplyUnknownConsistent(p: LinearPeptide, ms: seq<Modification>, isPossible: PlacementRule)
    requires Consistent(p)
    decreases |ms|
    ensures Consistent(ApplyUnknown(p, ms, isPossible))
    ensures |ApplyUnknown(p, ms, isPossible).ambiguousModifications| == |p.ambiguousModifications| + |ms|
  {
    if |ms| > 0 {
      UnknownStepConsistent(p, ms[0], isPossible);
      ApplyUnknownConsistent(UnknownStep(p, ms[0], isPossible), ms[1..], isPossible);
    }
  }

  // ---------------------------------------------------------------------------
  // Ranged unknown-position modifications

  /** The registry after the entry is made, the id, the modification, its score
      and its group. */
  datatype Target = Target(registry: seq<seq<nat>>, id: nat, modification: Modification,
                           score: Option<real>, group: Option<(string, bool)>)

  /** A reference: a new empty entry when the index is not yet in the registry;
      `None` where the source panics (no lookup entry, or one without a name or
      a modification). */
  function LookedUp(registry: seq<seq<nat>>, i: nat, score: Option<real>,
                    lookup: seq<(Option<string>, Option<Modification>)>, preferred: bool): (r: Option<Target>)
    ensures r.Some? <==> i < |lookup| && lookup[i].0.Some? && lookup[i].1.Some?
  {
    if i >= |lookup| || lookup[i].1.None? || lookup[i].0.None? then None
    else Some(Target(if i >= |registry| then registry + [[]] else registry, i, lookup[i].1.value, score,
                     Some((lookup[i].0.value, preferred))))
  }

  function RangedTarget(registry: seq<seq<nat>>, ret: ReturnModification,
                        lookup: seq<(Option<string>, Option<Modification>)>): (r: Option<Target>)
    ensures ret.Defined? ==> r == Some(Target(registry + [[]], |registry|, ret.definition, None, None))
    ensures r.Some? ==> (r.value.registry == registry || (r.value.registry == registry + [[]] && r.value.id >= |registry|))
  {
    match ret
    case Defined(def) => Some(Target(registry + [[]], |registry|, def, None, None))
    case Preferred(i, score) => LookedUp(registry, i, score, lookup, true)
    case Referenced(i, score) => LookedUp(registry, i, score, lookup, false)
  }

  /** The end of the scanned range, exclusive: empty when `start > end`. */
  function RangeEnd(start: nat, end: nat): nat
  {
    if start <= end then end + 1 else start
  }

  /** `Attach` part-way through sharing a score: the residues in `done` already
      carry `shared` as their newest possible modification, the others `a`. */
  ghost function Scored(sequence: seq<SequenceElement>, m: Modification, isPossible: PlacementRule, lo: nat, hi: nat,
                        a: AmbiguousModification, shared: AmbiguousModification, done: set<nat>): seq<SequenceElement>
  {
    seq(|sequence|, i requires 0 <= i < |sequence| =>
      if lo <= i < hi && isPossible(m, sequence[i], i, |sequence|)
      then sequence[i].(possibleModifications := sequence[i].possibleModifications + [if i in done then shared else a])
      else sequence[i])
  }

  lemma ScoredNone(sequence: seq<SequenceElement>, m: Modification, isPossible: PlacementRule, lo: nat, hi: nat,
                   a: AmbiguousModification, shared: AmbiguousModification)
    ensures Scored(sequence, m, isPossible, lo, hi, a, shared, {}) == Attach(sequence, m, isPossible, lo, hi, a)
  {
  }

  /** Setting the score of one more found residue's newest modification. */
  lemma ScoredStep(sequence: seq<SequenceElement>, m: Modification, isPossible: PlacementRule, lo: nat, hi: nat,
                   a: AmbiguousModification, shared: AmbiguousModification, done: set<nat>, pos: nat, score: real)
    requires pos < |sequence| && lo <= pos < hi && isPossible(m, sequence[pos], pos, |sequence|)
    requires shared == a.(localisationScore := Some(score))
    ensures var s := Scored(sequence, m, isPossible, lo, hi, a, shared, done);
            var mods := s[pos].possibleModifications;
            |mods| > 0 &&
            s[pos := s[pos].(possibleModifications := mods[|mods| - 1 := mods[|mods| - 1].(localisationScore := Some(score))])]
            == Scored(sequence, m, isPossible, lo, hi, a, shared, done + {pos})
  {
    var s, t := Scored(sequence, m, isPossible, lo, hi, a, shared, done), Scored(sequence, m, isPossible, lo, hi, a, shared, done + {pos});
    var mods := s[pos].possibleModifications;
    var own := sequence[pos].possibleModifications;
    assert mods == own + [if pos in done then shared else a];
    assert mods[|mods| - 1 := mods[|mods| - 1].(localisationScore := Some(score))] == own + [shared];
    forall i | 0 <= i < |sequence| && i != pos ensures s[i] == t[i] {
    }
  }

  lemma ScoredAll(sequence: seq<SequenceElement>, m: Modification, isPossible: PlacementRule, lo: nat, hi: nat,
                  a: AmbiguousModification, shared: AmbiguousModification, done: set<nat>)
    requires forall j :: 0 <= j < |sequence| && lo <= j < hi && isPossible(m, sequence[j], j, |sequence|) ==> j in done
    ensures Scored(sequence, m, isPossible, lo, hi, a, shared, done) == Attach(sequence, m, isPossible, lo, hi, shared)
  {
    var s, t := Scored(sequence, m, isPossible, lo, hi, a, shared, done), Attach(sequence, m, isPossible, lo, hi, shared);
    forall i | 0 <= i < |sequence| ensures s[i] == t[i] {
    }
  }

  function Share(score: Option<real>, found: nat): Option<real>
  {
    if score.Some? && found > 0 then Some(score.value / found as real) else None
  }

  /** One ranged modification: `None` where the source panics (see `LookedUp`,
      a range past the last residue, or an index more than one past the
      registry); otherwise every qualifying residue in `start..=end` gains it
      with the score's share and the group, and the entry lists those residues. */
  function RangedStep(p: LinearPeptide, start: nat, end: nat, ret: ReturnModification,
                      lookup: seq<(Option<string>, Option<Modification>)>, isPossible: PlacementRule): Option<LinearPeptide>
  {
    var t := RangedTarget(p.ambiguousModifications, ret, lookup);
    if t.None? || (start <= end && end >= |p.sequence|) || t.value.id >= |t.value.registry| then None
    else
      var hi := RangeEnd(start, end);
      var positions := PositionsIn(p.sequence, t.value.modification, isPossible, start, hi);
      var a := AmbiguousModification(t.value.id, t.value.modification, Share(t.value.score, |positions|), t.value.group);
      Some(p.(sequence := Attach(p.sequence, t.value.modification, isPossible, start, hi, a),
              ambiguousModifications := t.value.registry[t.value.id := t.value.registry[t.value.id] + positions]))
  }

  /** `apply_ranged_unknown_position_modification`: the ranged modifications in
      order; `None` when any of them panics. */
  function ApplyRanged(p: LinearPeptide, ranged: seq<(nat, nat, ReturnModification)>,
                       lookup: seq<(Option<string>, Option<Modification>)>, isPossible: PlacementRule): Option<LinearPeptide>
    decreases |ranged|
  {
    if |ranged| == 0 then Some(p)
    else
      match RangedStep(p, ranged[0].0, ranged[0].1, ranged[0].2, lookup, isPossible)
      case None => None
      case Some(q) => ApplyRanged(q, ranged[1..], lookup, isPossible)
  }

  /** When the step succeeds, its entry gained exactly the qualifying residues of
      the range and no other entry changed (a defined modification gets a new one). */
  lemma RangedStepEntry(p: LinearPeptide, start: nat, end: nat, ret: ReturnModification,
                        lookup: seq<(Option<string>, Option<Modification>)>, isPossible: PlacementRule, x: nat)
    requires RangedStep(p, start, end, ret, lookup, isPossible).Some?
    ensures var r := RangedStep(p, start, end, ret, lookup, isPossible).value;
      var t := RangedTarget(p.ambiguousModifications, ret, lookup).value;
      (forall j :: 0 <= j < |p.ambiguousModifications| && j != t.id ==> r.ambiguousModifications[j] == p.ambiguousModifications[j])
      && (x in r.ambiguousModifications[t.id] <==>
            (t.id < |p.ambiguousModifications| && x in p.ambiguousModifications[t.id])
            || (start <= x <= end && isPossible(t.modification, p.sequence[x], x, |p.sequence|)))
  {
    var t := RangedTarget(p.ambiguousModifications, ret, lookup).value;
    PositionsInMember(p.sequence, t.modification, isPossible, start, RangeEnd(start, end), x);
    if t.id < |p.ambiguousModifications| {
      assert t.registry[t.id] == p.ambiguousModifications[t.id];
    }
  }

  /** Each ranged step keeps the registry consistent with the residues. */
  lemma RangedStepConsistent(p: LinearPeptide, start: nat, end: nat, ret: ReturnModification,
                             lookup: seq<(Option<string>, Option<Modification>)>, isPossible: PlacementRule)
    requires Consistent(p)
    requires RangedStep(p, start, end, ret, lookup, isPossible).Some?
    ensures Consistent(RangedStep(p, start, end, ret, lookup, isPossible).value)
  {
    var r := RangedStep(p, start, end, ret, lookup, isPossible).value;
    var t := RangedTarget(p.ambiguousModifications, ret, lookup).value;
    var len := |p.sequence|;
    var hi := RangeEnd(start, end);
    var positions := PositionsIn(p.sequence, t.modification, isPossible, start, hi);
    var a := AmbiguousModification(t.id, t.modification, Share(t.score, |positions|), t.group);
    forall j, loc | 0 <= j < |r.ambiguousModifications| && loc in r.ambiguousModifications[j] ensures loc < len {
      RangedStepEntry(p, start, end, ret, lookup, isPossible, loc);
      if j != t.id {
        assert j < |p.ambiguousModifications|;
      }
    }
    forall i, j: nat | 0 <= i < len
      ensures j in IdsOn(r.sequence[i]) <==> Registered(r, j, i)
    {
      AttachIds(p.sequence, t.modification, isPossible, start, hi, a, i);
      RangedStepEntry(p, start, end, ret, lookup, isPossible, i);
      assert j in IdsOn(p.sequence[i]) <==> Registered(p, j, i);
    }
  }

  lemma {:induction false} ApplyRangedConsistent(p: LinearPeptide, ranged: seq<(nat, nat, ReturnModification)>,
                                                 lookup: seq<(Option<string>, Option<Modification>)>, isPossible: PlacementRule)
    requires Consistent(p)
    requires ApplyRanged(p, ranged, lookup, isPossible).Some?
    decreases |ranged|
    ensures Consistent(ApplyRanged(p, ranged, lookup, isPossible).value)
  {
    if |ranged| > 0 {
      RangedStepConsistent(p, ranged[0].0, ranged[0].1, ranged[0].2, lookup, isPossible);
      ApplyRangedConsistent(RangedStep(p, ranged[0].0, ranged[0].1, ranged[0].2, lookup, isPossible).value,
                            ranged[1..], lookup, isPossible);
    }
  }

  /** The shares of a score add back up to it when some position was found. */
  lemma ShareSums(score: real, found: nat)
    requires found > 0
    ensures Share(Some(score), found).Some? && Share(Some(score), found).value * found as real == score
  {
  }

  // ---------------------------------------------------------------------------
  // The peptide as an object updated in place

  class MutableLinearPeptide {
    var global: seq<GlobalIsotope>
    var labile: seq<Modification>
    var nTerm: Option<Modification>
    var cTerm: Option<Modification>
    var sequence: seq<SequenceElement>
    var ambiguousModifications: seq<seq<nat>>
    var chargeCarriers: Option<MolecularCharge>

    function Value(): LinearPeptide
      reads this
    {
      LinearPeptide(global, labile, nTerm, cTerm, sequence, ambiguousModifications, chargeCarriers)
    }

    constructor(p: LinearPeptide)
      ensures Value() == p
    {
      global := p.global;
      labile := p.labile;
      nTerm := p.nTerm;
      cTerm := p.cTerm;
      sequence := p.sequence;
      ambiguousModifications := p.ambiguousModifications;
      chargeCarriers := p.chargeCarriers;
    }

    /** `apply_global_modifications`. */
    method ApplyGlobalModifications(gs: seq<GlobalModification>, isPossible: PlacementRule,
                                    isValid: GlobalIsotope -> bool) returns (ok: bool)
      modifies this
      ensures (Value(), ok) == ApplyGlobals(old(Value()), gs, isPossible, isValid)
    {
      for k := 0 to |gs|
        invariant ApplyGlobals(old(Value()), gs, isPossible, isValid) == ApplyGlobals(Value(), gs[k..], isPossible, isValid)
      {
        assert gs[k..][0] == gs[k] && gs[k..][1..] == gs[k + 1..];
        match gs[k] {
          case Isotope(element, isotope) =>
            if isValid((element, isotope)) {
              global := global + [(element, isotope)];
            } else {
              return false;
            }
          case _ =>
            PushWhereQualifies(gs[k], isPossible);
        }
      }
      assert gs[|gs|..] == [];
      return true;
    }

    /** A fixed or free global modification pushed onto every residue it qualifies for. */
    method PushWhereQualifies(g: GlobalModification, isPossible: PlacementRule)
      requires !g.Isotope?
      modifies this
      ensures Value() == PushGlobal(old(Value()), g, isPossible)
    {
      var length := |sequence|;
      for i := 0 to length
        invariant |sequence| == length
        invariant Value() == old(Value()).(sequence := sequence)
        invariant forall j :: 0 <= j < length ==>
          sequence[j] ==
          (if j < i && Qualifies(g, old(sequence)[j], j, length, isPossible)
           then old(sequence)[j].(modifications := old(sequence)[j].modifications + [g.modification])
           else old(sequence)[j])
      {
        if Qualifies(g, sequence[i], i, length, isPossible) {
          sequence := sequence[i := sequence[i].(modifications := sequence[i].modifications + [g.modification])];
        }
      }
      assert sequence == PushGlobal(old(Value()), g, isPossible).sequence;
    }

    /** The residues `lo <= i < hi` that qualify each gain `a`; the indices found, ascending. */
    method AttachWhereQualifies(m: Modification, isPossible: PlacementRule, lo: nat, hi: nat, a: AmbiguousModification)
      returns (positions: seq<nat>)
      requires hi <= |sequence| || hi <= lo
      modifies this
      ensures positions == PositionsIn(old(sequence), m, isPossible, lo, hi)
      ensures Value() == old(Value()).(sequence := Attach(old(sequence), m, isPossible, lo, hi, a))
    {
      var length := |sequence|;
      positions := [];
      var i := lo;
      while i < hi
        invariant lo <= i && (lo < hi ==> i <= hi) && (hi <= lo ==> i == lo)
        invariant |sequence| == length == |old(sequence)|
        invariant Value() == old(Value()).(sequence := sequence)
        invariant positions == PositionsIn(old(sequence), m, isPossible, lo, i)
        invariant forall j :: 0 <= j < length ==>
          sequence[j] ==
          (if lo <= j < i && isPossible(m, old(sequence)[j], j, length)
           then old(sequence)[j].(possibleModifications := old(sequence)[j].possibleModifications + [a])
           else old(sequence)[j])
        decreases hi - i
      {
        if isPossible(m, sequence[i], i, length) {
          sequence := sequence[i := sequence[i].(possibleModifications := sequence[i].possibleModifications + [a])];
          positions := positions + [i];
        }
        i := i + 1;
      }
      assert sequence == Attach(old(sequence), m, isPossible, lo, hi, a);
    }

    /** `apply_unknown_position_modification`. */
    method ApplyUnknownPositionModification(ms: seq<Modification>, isPossible: PlacementRule)
      modifies this
      ensures Value() == ApplyUnknown(old(Value()), ms, isPossible)
    {
      for k := 0 to |ms|
        invariant ApplyUnknown(old(Value()), ms, isPossible) == ApplyUnknown(Value(), ms[k..], isPossible)
      {
        assert ms[k..][0] == ms[k] && ms[k..][1..] == ms[k + 1..];
        var id := |ambiguousModifications|;
        var length := |sequence|;
        var positions := AttachWhereQualifies(ms[k], isPossible, 0, length, AmbiguousModification(id, ms[k], None, None));
        ambiguousModifications := ambiguousModifications + [positions];
      }
      assert ms[|ms|..] == [];
    }

    /** The found residues' newest possible modification gets the score's share. */
    method ShareScore(positions: seq<nat>, score: real, ghost base: seq<SequenceElement>, m: Modification,
                      isPossible: PlacementRule, lo: nat, hi: nat, a: AmbiguousModification)
      requires hi <= |base| || hi <= lo
      requires |positions| > 0 && positions == PositionsIn(base, m, isPossible, lo, hi)
      requires sequence == Attach(base, m, isPossible, lo, hi, a)
      modifies this
      ensures Value() == old(Value()).(sequence := Attach(base, m, isPossible, lo, hi,
                                                          a.(localisationScore := Share(Some(score), |positions|))))
    {
      var shared := a.(localisationScore := Share(Some(score), |positions|));
      var individualScore := score / |positions| as real;
      ghost var done: set<nat> := {};
      ScoredNone(base, m, isPossible, lo, hi, a, shared);
      for k := 0 to |positions|
        invariant forall i :: 0 <= i < k ==> positions[i] in done
        invariant Value() == old(Value()).(sequence := Scored(base, m, isPossible, lo, hi, a, shared, done))
      {
        var pos := positions[k];
        PositionsInMember(base, m, isPossible, lo, hi, pos);
        ScoredStep(base, m, isPossible, lo, hi, a, shared, done, pos, individualScore);
        var mods := sequence[pos].possibleModifications;
        sequence := sequence[pos := sequence[pos].(possibleModifications :=
          mods[|mods| - 1 := mods[|mods| - 1].(localisationScore := Some(individualScore))])];
        done := done + {pos};
      }
      forall j | 0 <= j < |base| && lo <= j < hi && isPossible(m, base[j], j, |base|) ensures j in done {
        PositionsInMember(base, m, isPossible, lo, hi, j);
      }
      ScoredAll(base, m, isPossible, lo, hi, a, shared, done);
    }

    /** One ranged unknown-position modification (one round of the source's loop). */
    method PlaceRanged(start: nat, end: nat, ret: ReturnModification,
                       lookup: seq<(Option<string>, Option<Modification>)>, isPossible: PlacementRule)
      requires RangedStep(Value(), start, end, ret, lookup, isPossible).Some?
      modifies this
      ensures Value() == RangedStep(old(Value()), start, end, ret, lookup, isPossible).value
    {
      var id: nat, m: Modification, score: Option<real>, group: Option<(string, bool)>;
      match ret {
        case Defined(definition) =>
          ambiguousModifications := ambiguousModifications + [[]];
          id, m, score, group := |ambiguousModifications| - 1, definition, None, None;
        case Preferred(i, s) =>
          if i >= |ambiguousModifications| {
            ambiguousModifications := ambiguousModifications + [[]];
          }
          id, m, score, group := i, lookup[i].1.value, s, Some((lookup[i].0.value, true));
        case Referenced(i, s) =>
          if i >= |ambiguousModifications| {
            ambiguousModifications := ambiguousModifications + [[]];
          }
          id, m, score, group := i, lookup[i].1.value, s, Some((lookup[i].0.value, false));
      }
      assert RangedTarget(old(ambiguousModifications), ret, lookup) == Some(Target(ambiguousModifications, id, m, score, group));
      var hi := RangeEnd(start, end);
      var a := AmbiguousModification(id, m, None, group);
      ghost var base := sequence;
      var positions := AttachWhereQualifies(m, isPossible, start, hi, a);
      if score.Some? && |positions| > 0 {
        ShareScore(positions, score.value, base, m, isPossible, start, hi, a);
      }
      ambiguousModifications := ambiguousModifications[id := ambiguousModifications[id] + positions];
    }

    /** `apply_ranged_unknown_position_modification`, for inputs on which the source does not panic. */
    method ApplyRangedUnknownPositionModification(ranged: seq<(nat, nat, ReturnModification)>,
                                                  lookup: seq<(Option<string>, Option<Modification>)>,
                                                  isPossible: PlacementRule)
      requires ApplyRanged(Value(), ranged, lookup, isPossible).Some?
      modifies this
      ensures Value() == ApplyRanged(old(Value()), ranged, lookup, isPossible).value
    {
      for k := 0 to |ranged|
        invariant ApplyRanged(Value(), ranged[k..], lookup, isPossible).Some?
        invariant ApplyRanged(old(Value()), ranged, lookup, isPossible) == ApplyRanged(Value(), ranged[k..], lookup, isPossible)
      {
        assert ranged[k..][0] == ranged[k] && ranged[k..][1..] == ranged[k + 1..];
        PlaceRanged(ranged[k].0, ranged[k].1, ranged[k].2, lookup, isPossible);
      }
      assert ranged[|ranged|..] == [];
    }
  }
}
