/** The linear peptide of the older crate: optional terminal modifications,
    and a registry that lists, per ambiguous modification id, the residue
    indices it may sit on (the modifications themselves are stored on those
    residues as possible modifications). */
module LinearPeptide {
  import opened Common
  import opened Formula

  /** A modification with the formula its collaborator reports for it. */
  datatype Modification = Modification(name: string, formula: Formula)

  /** A modification that may sit on a residue: its registry id, its
      localisation score and its group (name and whether it is preferred). */
  datatype AmbiguousModification = AmbiguousModification(id: nat, modification: Modification, localisationScore: Option<real>, group: Option<(string, bool)>)

  datatype SequenceElement = SequenceElement(aminoAcid: char, modifications: seq<Modification>,
                                             possibleModifications: seq<AmbiguousModification>, ambiguous: Option<nat>)

  type GlobalIsotope = (Element, Option<nat>)

  datatype LinearPeptide = LinearPeptide(
    global: seq<GlobalIsotope>,
    labile: seq<Modification>,
    nTerm: Option<Modification>,
    cTerm: Option<Modification>,
    sequence: seq<SequenceElement>,
    ambiguousModifications: seq<seq<nat>>,
    chargeCarriers: Option<MolecularCharge>)

  /** `global`: append every isotope modification; `None` as soon as one is invalid. */
  method Global(p: LinearPeptide, global: seq<GlobalIsotope>, isValid: GlobalIsotope -> bool) returns (r: Option<LinearPeptide>)
    ensures r.None? <==> exists k :: 0 <= k < |global| && !isValid(global[k])
    ensures r.Some? ==> r.value == p.(global := p.global + global)
  {
    var appended := AppendAllValid(p.global, global, isValid);
    if appended.None? {
      return None;
    }
    return Some(p.(global := appended.value));
  }

  // ---------------------------------------------------------------------------
  // Terminal formulas

  function TermFormula(m: Option<Modification>): Formula
  {
    if m.Some? then m.value.formula else Zero
  }

  /** `get_n_term`: H1 plus the N-terminal modification's formula, if any. */
  function GetNTerm(p: LinearPeptide): (r: Formula)
    ensures Canonical(r)
    ensures forall e :: Count(r, e) == (if e == H then 1 else 0) + Count(TermFormula(p.nTerm), e)
  {
    match p.nTerm
    case None => H1()
    case Some(m) => Add(H1(), m.formula)
  }

  /** `get_c_term`: H1 O1 plus the C-terminal modification's formula, if any. */
  function GetCTerm(p: LinearPeptide): (r: Formula)
    ensures Canonical(r)
    ensures forall e :: Count(r, e) == (if e == H || e == O then 1 else 0) + Count(TermFormula(p.cTerm), e)
  {
    match p.cTerm
    case None => H1O1()
    case Some(m) => Add(H1O1(), m.formula)
  }

  // ---------------------------------------------------------------------------
  // Reversal

  predicate LocationsBelow(p: LinearPeptide, bound: nat)
  {
    forall j, k :: 0 <= j < |p.ambiguousModifications| && 0 <= k < |p.ambiguousModifications[j]| ==>
      p.ambiguousModifications[j][k] < bound
  }

  /** `reverse` as the source writes it: the termini swap, the residues come in
      reverse order, and every registered location `loc` becomes `len - loc`
      (unsigned, so a location above the length would be out of range). */
  function ReverseAsWritten(p: LinearPeptide): (r: LinearPeptide)
    requires LocationsBelow(p, |p.sequence| + 1)
    ensures |r.ambiguousModifications| == |p.ambiguousModifications|
    ensures forall j :: 0 <= j < |p.ambiguousModifications| ==>
      |r.ambiguousModifications[j]| == |p.ambiguousModifications[j]|
      && forall k :: 0 <= k < |p.ambiguousModifications[j]| ==>
        r.ambiguousModifications[j][k] == |p.sequence| - p.ambiguousModifications[j][k]
    ensures |r.sequence| == |p.sequence| && LocationsBelow(r, |p.sequence| + 1)
  {
    var len := |p.sequence|;
    p.(nTerm := p.cTerm, cTerm := p.nTerm, sequence := Reversed(p.sequence),
       ambiguousModifications := seq(|p.ambiguousModifications|, j requires 0 <= j < |p.ambiguousModifications| =>
         seq(|p.ambiguousModifications[j]|, k requires 0 <= k < |p.ambiguousModifications[j]| =>
           len - p.ambiguousModifications[j][k])))
  }

  /** As written, a registered location no longer names the residue its possible
      modification moved with: a one-residue peptide whose only location is 0
      gets location 1, past the end. */
  lemma ReverseAsWrittenMisplaces()
    ensures var res := SequenceElement('A', [], [], None);
      var p := LinearPeptide([], [], None, None, [res], [[0]], None);
      ReverseAsWritten(p).ambiguousModifications == [[1]]
      && !(ReverseAsWritten(p).ambiguousModifications[0][0] < |ReverseAsWritten(p).sequence|)
  {
    var res := SequenceElement('A', [], [], None);
    var p := LinearPeptide([], [], None, None, [res], [[0]], None);
    var r := ReverseAsWritten(p);
    assert |r.ambiguousModifications| == 1 && |r.ambiguousModifications[0]| == 1;
    assert r.ambiguousModifications[0] == [1];
  }

  /** `reverse` with locations mapped to `len - 1 - loc`, the index the residue
      moves to; everything else as written. */
  function Reverse(p: LinearPeptide): (r: LinearPeptide)
    requires LocationsBelow(p, |p.sequence|)
    ensures r.nTerm == p.cTerm && r.cTerm == p.nTerm
    ensures |r.sequence| == |p.sequence|
    ensures forall i :: 0 <= i < |p.sequence| ==> r.sequence[i] == p.sequence[|p.sequence| - 1 - i]
    ensures |r.ambiguousModifications| == |p.ambiguousModifications|
    ensures forall j :: 0 <= j < |p.ambiguousModifications| ==>
      |r.ambiguousModifications[j]| == |p.ambiguousModifications[j]|
      && forall k :: 0 <= k < |p.ambiguousModifications[j]| ==>
        r.ambiguousModifications[j][k] == |p.sequence| - 1 - p.ambiguousModifications[j][k]
    ensures r.global == p.global && r.labile == p.labile && r.chargeCarriers == p.chargeCarriers
    ensures LocationsBelow(r, |p.sequence|)
  {
    var len := |p.sequence|;
    p.(nTerm := p.cTerm, cTerm := p.nTerm, sequence := Reversed(p.sequence),
       ambiguousModifications := seq(|p.ambiguousModifications|, j requires 0 <= j < |p.ambiguousModifications| =>
         seq(|p.ambiguousModifications[j]|, k requires 0 <= k < |p.ambiguousModifications[j]| =>
           len - 1 - p.ambiguousModifications[j][k])))
  }

  /** Every registered location still names the residue it named before reversal. */
  lemma ReverseKeepsResidue(p: LinearPeptide, j: nat, k: nat)
    requires LocationsBelow(p, |p.sequence|)
    requires j < |p.ambiguousModifications| && k < |p.ambiguousModifications[j]|
    ensures Reverse(p).sequence[Reverse(p).ambiguousModifications[j][k]] == p.sequence[p.ambiguousModifications[j][k]]
  {
  }

  /** As written, each location lands one past the residue it belongs to. */
  lemma ReverseAsWrittenOffByOne(p: LinearPeptide, j: nat, k: nat)
    requires LocationsBelow(p, |p.sequence|)
    requires j < |p.ambiguousModifications| && k < |p.ambiguousModifications[j]|
    ensures ReverseAsWritten(p).ambiguousModifications[j][k] == Reverse(p).ambiguousModifications[j][k] + 1
  {
  }

  /** Reversing twice gives the original peptide. */
  lemma ReverseInvolution(p: LinearPeptide)
    requires LocationsBelow(p, |p.sequence|)
    ensures Reverse(Reverse(p)) == p
  {
    var r := Reverse(Reverse(p));
    assert r.ambiguousModifications == p.ambiguousModifications by {
      forall j | 0 <= j < |p.ambiguousModifications| ensures r.ambiguousModifications[j] == p.ambiguousModifications[j] {
      }
    }
  }

  /** After reversal the terminal formulas trade places. */
  lemma ReverseSwapsTermFormulas(p: LinearPeptide)
    requires LocationsBelow(p, |p.sequence|)
    ensures GetCTerm(p) == Add(GetNTerm(Reverse(p)), Atoms(O, 1))
    ensures GetNTerm(p) == Sub(GetCTerm(Reverse(p)), Atoms(O, 1))
  {
    Extensionality(GetCTerm(p), Add(GetNTerm(Reverse(p)), Atoms(O, 1)));
    Extensionality(GetNTerm(p), Sub(GetCTerm(Reverse(p)), Atoms(O, 1)));
  }

  // ---------------------------------------------------------------------------
  // Registry consistency

  /** The ids of the possible modifications stored on a residue. */
  function IdsOn(s: SequenceElement): (ids: set<nat>)
    ensures forall a :: a in s.possibleModifications ==> a.id in ids
    ensures forall id :: id in ids ==> exists a :: a in s.possibleModifications && a.id == id
  {
    set a | a in s.possibleModifications :: a.id
  }

  /** The registry and the residues agree: every registered location is a
      residue, and a residue carries a possible modification with an id exactly
      when the registry lists it under that id. */
  ghost predicate Consistent(p: LinearPeptide)
  {
    (forall id, loc :: 0 <= id < |p.ambiguousModifications| && loc in p.ambiguousModifications[id] ==> loc < |p.sequence|)
    && (forall i, id: nat :: 0 <= i < |p.sequence| ==> (id in IdsOn(p.sequence[i]) <==> Registered(p, id, i)))
  }

  /** The registry lists location `loc` under `id`. */
  predicate Registered(p: LinearPeptide, id: nat, loc: nat)
  {
    id < |p.ambiguousModifications| && loc in p.ambiguousModifications[id]
  }

  lemma ConsistentLocationsBelow(p: LinearPeptide)
    requires Consistent(p)
    ensures LocationsBelow(p, |p.sequence|)
  {
    forall j, k | 0 <= j < |p.ambiguousModifications| && 0 <= k < |p.ambiguousModifications[j]|
      ensures p.ambiguousModifications[j][k] < |p.sequence|
    {
      assert p.ambiguousModifications[j][k] in p.ambiguousModifications[j];
    }
  }

  /** Reversal keeps the registry consistent with the residues. */
  lemma ReverseKeepsConsistent(p: LinearPeptide)
    requires Consistent(p)
    ensures LocationsBelow(p, |p.sequence|) && Consistent(Reverse(p))
  {
    ConsistentLocationsBelow(p);
    var r := Reverse(p);
    var n := |p.sequence|;
    forall id, loc | 0 <= id < |r.ambiguousModifications| && loc in r.ambiguousModifications[id]
      ensures loc < n
    {
      var k :| 0 <= k < |r.ambiguousModifications[id]| && r.ambiguousModifications[id][k] == loc;
    }
    forall i, id: nat | 0 <= i < n
      ensures id in IdsOn(r.sequence[i]) <==> Registered(r, id, i)
    {
      assert r.sequence[i] == p.sequence[n - 1 - i];
      assert id in IdsOn(p.sequence[n - 1 - i]) <==> Registered(p, id, n - 1 - i);
      if id < |p.ambiguousModifications| {
        var old_ := p.ambiguousModifications[id];
        var new_ := r.ambiguousModifications[id];
        if n - 1 - i in old_ {
          var k :| 0 <= k < |old_| && old_[k] == n - 1 - i;
          assert new_[k] == i;
        }
        if i in new_ {
          var k :| 0 <= k < |new_| && new_[k] == i;
          assert old_[k] == n - 1 - i;
        }
      }
    }
  }

  /** As written, reversal breaks consistency: a one-residue peptide whose
      residue carries possible modification 0, registered at location 0. */
  lemma ReverseAsWrittenBreaksConsistent()
    ensures var a := AmbiguousModification(0, Modification("m", Zero), None, None);
      var p := LinearPeptide([], [], None, None, [SequenceElement('A', [], [a], None)], [[0]], None);
      Consistent(p) && !Consistent(ReverseAsWritten(p))
  {
    var a := AmbiguousModification(0, Modification("m", Zero), None, None);
    var p := LinearPeptide([], [], None, None, [SequenceElement('A', [], [a], None)], [[0]], None);
    assert IdsOn(p.sequence[0]) == {0};
    forall i, id: nat | 0 <= i < |p.sequence|
      ensures id in IdsOn(p.sequence[i]) <==> Registered(p, id, i)
    {
    }
    var r := ReverseAsWritten(p);
    assert |r.ambiguousModifications| == 1 && |r.ambiguousModifications[0]| == 1;
    assert r.ambiguousModifications[0] == [1];
    assert 1 in r.ambiguousModifications[0] && |r.sequence| == 1;
  }

  // ---------------------------------------------------------------------------
  // The assume guards

  /** `assume_simple`: the peptide itself, unless it has labile or global
      modifications, charge carriers, or no residues (a panic, here `None`). */
  function AssumeSimple(p: LinearPeptide): (r: Option<LinearPeptide>)
    ensures r.Some? <==> p.labile == [] && p.global == [] && p.chargeCarriers.None? && |p.sequence| > 0
    ensures r.Some? ==> r.value == p
  {
    if p.labile != [] || p.global != [] || p.chargeCarriers.Some? || |p.sequence| == 0 then None else Some(p)
  }

  /** `assume_very_simple`: as `assume_simple`, and also no ambiguous modification,
      no B or Z residue and no `(?AA)` residue. */
  function AssumeVerySimple(p: LinearPeptide): (r: Option<LinearPeptide>)
    ensures r.Some? <==>
      p.ambiguousModifications == [] && p.labile == [] && p.global == []
      && (forall i :: 0 <= i < |p.sequence| ==> p.sequence[i].aminoAcid != 'B' && p.sequence[i].aminoAcid != 'Z')
      && (forall i :: 0 <= i < |p.sequence| ==> p.sequence[i].ambiguous.None?)
      && p.chargeCarriers.None? && |p.sequence| > 0
    ensures r.Some? ==> r.value == p
  {
    if p.ambiguousModifications != [] || p.labile != [] || p.global != []
       || (exists i :: 0 <= i < |p.sequence| && (p.sequence[i].aminoAcid == 'B' || p.sequence[i].aminoAcid == 'Z'))
       || (exists i :: 0 <= i < |p.sequence| && p.sequence[i].ambiguous.Some?)
       || p.chargeCarriers.Some? || |p.sequence| == 0
    then None
    else Some(p)
  }

  /** The stricter guard implies the weaker one, and both keep passing after reversal. */
  lemma AssumeGuardsNested(p: LinearPeptide)
    requires LocationsBelow(p, |p.sequence|)
    ensures AssumeVerySimple(p).Some? ==> AssumeSimple(p).Some?
    ensures AssumeSimple(Reverse(p)).Some? <==> AssumeSimple(p).Some?
    ensures AssumeVerySimple(Reverse(p)).Some? <==> AssumeVerySimple(p).Some?
  {
    var r := Reverse(p);
    var n := |p.sequence|;
    if AssumeVerySimple(p).Some? {
      forall i | 0 <= i < n ensures r.sequence[i].aminoAcid != 'B' && r.sequence[i].aminoAcid != 'Z' && r.sequence[i].ambiguous.None? {
        assert r.sequence[i] == p.sequence[n - 1 - i];
      }
      assert r.ambiguousModifications == [];
    }
    if AssumeVerySimple(r).Some? {
      forall i | 0 <= i < n ensures p.sequence[i].aminoAcid != 'B' && p.sequence[i].aminoAcid != 'Z' && p.sequence[i].ambiguous.None? {
        assert r.sequence[n - 1 - i] == p.sequence[i];
      }
      assert |p.ambiguousModifications| == 0;
    }
  }

  // ---------------------------------------------------------------------------
  // The ambiguous-pattern fold

  /** A placement: for each registry id in order, the location chosen. */
  type Placement = seq<(nat, nat)>

  /** The locations of an id inside the range, in order. */
  function InsideRange(locations: seq<nat>, r: Range): seq<nat>
  {
    if |locations| == 0 then []
    else
      var x := locations[|locations| - 1];
      InsideRange(locations[..|locations| - 1], r) + (if r.Contains(x) then [x] else [])
  }

  /** A location is kept exactly when it is listed and inside the range. */
  lemma {:induction false} InsideRangeMember(locations: seq<nat>, r: Range, x: nat)
    ensures x in InsideRange(locations, r) <==> x in locations && r.Contains(x)
  {
    if |locations| > 0 {
      var front := locations[..|locations| - 1];
      InsideRangeMember(front, r, x);
      assert locations == front + [locations[|locations| - 1]];
    }
  }

  /** The first location of an id outside the range, if there is one. */
  function FirstOutside(locations: seq<nat>, r: Range): Option<nat>
  {
    if |locations| == 0 then None
    else if !r.Contains(locations[0]) then Some(locations[0])
    else FirstOutside(locations[1..], r)
  }

  /** There is a first location outside the range exactly when some location
      is outside it, and it is one whose predecessors are all inside. */
  lemma {:induction false} FirstOutsideIsFirst(locations: seq<nat>, r: Range)
    ensures FirstOutside(locations, r).Some? <==> exists k :: 0 <= k < |locations| && !r.Contains(locations[k])
    ensures FirstOutside(locations, r).Some? ==>
      exists k :: 0 <= k < |locations| && locations[k] == FirstOutside(locations, r).value
        && !r.Contains(locations[k]) && forall j :: 0 <= j < k ==> r.Contains(locations[j])
  {
    if |locations| > 0 && r.Contains(locations[0]) {
      var rest := locations[1..];
      FirstOutsideIsFirst(rest, r);
      assert forall k :: 1 <= k < |locations| ==> rest[k - 1] == locations[k];
      if FirstOutside(rest, r).Some? {
        var k :| 0 <= k < |rest| && rest[k] == FirstOutside(rest, r).value
          && !r.Contains(rest[k]) && forall j :: 0 <= j < k ==> r.Contains(rest[j]);
        assert locations[k + 1] == rest[k];
        assert forall j :: 0 <= j < k + 1 ==> r.Contains(locations[j]) by {
          forall j | 0 <= j < k + 1 ensures r.Contains(locations[j]) {
            if j > 0 {
              assert locations[j] == rest[j - 1];
            }
          }
        }
      }
    }
  }

  /** The choices for one id: every location in range, then the first outside it. */
  function Choices(locations: seq<nat>, r: Range): seq<nat>
  {
    InsideRange(locations, r) + (if FirstOutside(locations, r).Some? then [FirstOutside(locations, r).value] else [])
  }

  /** One path extended by every choice for `id`. */
  function ExtendPath(path: Placement, id: nat, choices: seq<nat>): (res: seq<Placement>)
    ensures |res| == |choices|
    ensures forall k :: 0 <= k < |choices| ==> res[k] == path + [(id, choices[k])]
  {
    seq(|choices|, k requires 0 <= k < |choices| => path + [(id, choices[k])])
  }

  /** Every path extended by every choice, path by path. */
  function ExtendAll(paths: seq<Placement>, id: nat, choices: seq<nat>): seq<Placement>
  {
    if |paths| == 0 then [] else ExtendAll(paths[..|paths| - 1], id, choices) + ExtendPath(paths[|paths| - 1], id, choices)
  }

  /** The fold over the registry, starting from the single empty placement. */
  function OldPatterns(registry: seq<seq<nat>>, r: Range): seq<Placement>
  {
    if |registry| == 0 then [[]]
    else
      var n := |registry| - 1;
      ExtendAll(OldPatterns(registry[..n], r), n, Choices(registry[n], r))
  }

  /** A placement of the fold: every id in order exactly once, each at one of
      its choices. */
  predicate PlacesEveryId(x: Placement, registry: seq<seq<nat>>, r: Range)
  {
    |x| == |registry| && forall k :: 0 <= k < |x| ==> x[k].0 == k && x[k].1 in Choices(registry[k], r)
  }

  lemma {:induction false} ExtendAllFrom(paths: seq<Placement>, id: nat, choices: seq<nat>, x: Placement)
    requires x in ExtendAll(paths, id, choices)
    ensures |x| > 0 && x[..|x| - 1] in paths && x[|x| - 1].0 == id && x[|x| - 1].1 in choices
  {
    var front := paths[..|paths| - 1];
    var last := paths[|paths| - 1];
    assert ExtendAll(paths, id, choices) == ExtendAll(front, id, choices) + ExtendPath(last, id, choices);
    if x in ExtendAll(front, id, choices) {
      ExtendAllFrom(front, id, choices, x);
      var k :| 0 <= k < |front| && front[k] == x[..|x| - 1];
      assert paths[k] == x[..|x| - 1];
    } else {
      var k :| 0 <= k < |choices| && ExtendPath(last, id, choices)[k] == x;
      assert x == last + [(id, choices[k])];
      assert x[..|x| - 1] == last;
    }
  }

  lemma {:induction false} ExtendAllHas(paths: seq<Placement>, id: nat, choices: seq<nat>, q: Placement, c: nat)
    requires q in paths && c in choices
    ensures q + [(id, c)] in ExtendAll(paths, id, choices)
  {
    var front := paths[..|paths| - 1];
    var last := paths[|paths| - 1];
    assert ExtendAll(paths, id, choices) == ExtendAll(front, id, choices) + ExtendPath(last, id, choices);
    if q != last {
      var k :| 0 <= k < |paths| && paths[k] == q;
      assert front[k] == q;
      ExtendAllHas(front, id, choices, q, c);
    } else {
      var k :| 0 <= k < |choices| && choices[k] == c;
      assert ExtendPath(q, id, choices)[k] == q + [(id, c)];
    }
  }

  /** An id with no choice extends no path. */
  lemma {:induction false} ExtendAllNoChoice(paths: seq<Placement>, id: nat)
    ensures ExtendAll(paths, id, []) == []
  {
    if |paths| > 0 {
      ExtendAllNoChoice(paths[..|paths| - 1], id);
    }
  }

  lemma {:induction false} ExtendAllNoPath(id: nat, choices: seq<nat>)
    ensures ExtendAll([], id, choices) == []
  {
  }

  lemma {:induction false} OldPatternsSound(registry: seq<seq<nat>>, r: Range, x: Placement)
    requires x in OldPatterns(registry, r)
    ensures PlacesEveryId(x, registry, r)
  {
    if |registry| > 0 {
      var n := |registry| - 1;
      var front := registry[..n];
      var choices := Choices(registry[n], r);
      ExtendAllFrom(OldPatterns(front, r), n, choices, x);
      var q := x[..|x| - 1];
      OldPatternsSound(front, r, q);
      assert |x| == n + 1;
      forall k | 0 <= k < n ensures x[k].0 == k && x[k].1 in Choices(registry[k], r) {
        assert x[k] == q[k] && registry[k] == front[k];
        assert q[k].0 == k && q[k].1 in Choices(front[k], r);
      }
    }
  }

  lemma {:induction false} OldPatternsComplete(registry: seq<seq<nat>>, r: Range, x: Placement)
    requires PlacesEveryId(x, registry, r)
    ensures x in OldPatterns(registry, r)
  {
    if |registry| == 0 {
      assert x == [];
    } else {
      var n := |registry| - 1;
      var front := registry[..n];
      var choices := Choices(registry[n], r);
      var q := x[..n];
      forall k | 0 <= k < |q| ensures q[k].0 == k && q[k].1 in Choices(front[k], r) {
        assert q[k] == x[k] && front[k] == registry[k];
      }
      OldPatternsComplete(front, r, q);
      assert x[n] == (n, x[n].1);
      assert x == x[..n] + [x[n]];
      ExtendAllHas(OldPatterns(front, r), n, choices, q, x[n].1);
    }
  }

  /** The placements are exactly those that give every id, in order, one of its
      choices: a location inside the range or the first one outside it. */
  lemma OldPatternsMember(registry: seq<seq<nat>>, r: Range, x: Placement)
    ensures x in OldPatterns(registry, r) <==> PlacesEveryId(x, registry, r)
  {
    if x in OldPatterns(registry, r) {
      OldPatternsSound(registry, r, x);
    }
    if PlacesEveryId(x, registry, r) {
      OldPatternsComplete(registry, r, x);
    }
  }

  /** An id with no location at all leaves no placement. */
  lemma {:induction false} OldPatternsEmptyEntry(registry: seq<seq<nat>>, r: Range, k: nat)
    requires k < |registry| && registry[k] == []
    ensures OldPatterns(registry, r) == []
  {
    var n := |registry| - 1;
    if k == n {
      assert Choices(registry[n], r) == [];
      ExtendAllNoChoice(OldPatterns(registry[..n], r), n);
    } else {
      OldPatternsEmptyEntry(registry[..n], r, k);
      ExtendAllNoPath(n, Choices(registry[n], r));
    }
  }

  /** `flat_map` of a per-placement evaluation. */
  function Evaluate(paths: seq<Placement>, evaluate: Placement -> seq<(Formula, string)>): seq<(Formula, string)>
  {
    if |paths| == 0 then [] else Evaluate(paths[..|paths| - 1], evaluate) + evaluate(paths[|paths| - 1])
  }

  /** The patterns of a stretch: every placement evaluated (its formulas and label
      computed by `evaluate`), or the base formula with an empty label when that
      gives nothing. */
  function AmbiguousPatterns(registry: seq<seq<nat>>, r: Range, base: Formula,
                             evaluate: Placement -> seq<(Formula, string)>): (res: seq<(Formula, string)>)
    ensures |res| > 0
  {
    var all := Evaluate(OldPatterns(registry, r), evaluate);
    if |all| == 0 then [(base, "")] else all
  }

  /** When some id has no location, the only pattern is the base formula. */
  lemma AmbiguousPatternsFallback(registry: seq<seq<nat>>, r: Range, base: Formula,
                                  evaluate: Placement -> seq<(Formula, string)>, k: nat)
    requires k < |registry| && registry[k] == []
    ensures AmbiguousPatterns(registry, r, base, evaluate) == [(base, "")]
  {
    OldPatternsEmptyEntry(registry, r, k);
  }

  // ---------------------------------------------------------------------------
  // Which ids each residue of a stretch is given

  /** The ids a placement puts on location `loc`, in placement order. */
  function IdsAt(pattern: Placement, loc: nat): seq<nat>
  {
    if |pattern| == 0 then []
    else
      var last := pattern[|pattern| - 1];
      IdsAt(pattern[..|pattern| - 1], loc) + (if last.1 == loc then [last.0] else [])
  }

  /** As the source computes them: element `k` of a stretch gets the ids placed
      on location `k`, the index within the stretch, whatever residue the stretch
      starts at. */
  function StretchIdsAsWritten(pattern: Placement, stretchLen: nat): (res: seq<seq<nat>>)
    ensures |res| == stretchLen
  {
    seq(stretchLen, k requires 0 <= k < stretchLen => IdsAt(pattern, k))
  }

  /** Element `k` of a stretch starting at residue `offset` gets the ids placed on
      residue `offset + k`. */
  function StretchIds(pattern: Placement, offset: nat, stretchLen: nat): (res: seq<seq<nat>>)
    ensures |res| == stretchLen
  {
    seq(stretchLen, k requires 0 <= k < stretchLen => IdsAt(pattern, offset + k))
  }

  lemma {:induction false} IdsAtMember(pattern: Placement, loc: nat, id: nat)
    ensures id in IdsAt(pattern, loc) <==> (id, loc) in pattern
  {
    if |pattern| > 0 {
      var front := pattern[..|pattern| - 1];
      IdsAtMember(front, loc, id);
      if (id, loc) in pattern && (id, loc) != pattern[|pattern| - 1] {
        var k :| 0 <= k < |pattern| && pattern[k] == (id, loc);
        assert front[k] == (id, loc);
      }
    }
  }

  /** Each element of the stretch is given exactly the ids placed on its residue. */
  lemma StretchIdsMember(pattern: Placement, offset: nat, stretchLen: nat, k: nat, id: nat)
    requires k < stretchLen
    ensures id in StretchIds(pattern, offset, stretchLen)[k] <==> (id, offset + k) in pattern
  {
    IdsAtMember(pattern, offset + k, id);
  }

  /** For the N-terminal stretch (starting at residue 0) both agree. */
  lemma StretchIdsAtStart(pattern: Placement, stretchLen: nat)
    ensures StretchIdsAsWritten(pattern, stretchLen) == StretchIds(pattern, 0, stretchLen)
  {
  }

  /** For the C-terminal stretch they differ: on a three-residue peptide, at
      position 1 the stretch is residue 2 alone, and a placement on residue 2 is
      given to it only in the intended version. */
  lemma StretchIdsAsWrittenMisses()
    ensures StretchIds([(0, 2)], 2, 1) == [[0]]
    ensures StretchIdsAsWritten([(0, 2)], 1) == [[]]
  {
    assert [(0, 2)][..0] == [];
    assert IdsAt([(0, 2)], 2) == IdsAt([], 2) + [0];
    assert IdsAt([(0, 2)], 2) == [0];
    assert StretchIds([(0, 2)], 2, 1) == [IdsAt([(0, 2)], 2)];
  }
}
