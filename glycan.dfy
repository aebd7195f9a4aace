/** Fragmentation of a positioned glycan structure: a rose tree of
    monosaccharides, each node knowing its depth and branch path.
    Every function here is a recursion over the branches of a node. */
module Glycan {
  import opened Common
  import opened Formula

  /** A monosaccharide with the formula its collaborator reports for it. */
  datatype MonoSaccharide = MonoSaccharide(name: string, composition: Formula)

  /** The residue a glycan hangs on: amino acid and sequence index. */
  datatype Attachment = Attachment(aminoAcid: char, sequenceIndex: nat)

  /** The label of a bond in the tree. */
  datatype GlycanPosition = GlycanPosition(innerDepth: nat, seriesNumber: nat, branch: seq<nat>, attachment: Attachment)

  /** A node of the rose tree with its bookkeeping (`PositionedGlycanStructure`). */
  datatype Structure = Structure(sugar: MonoSaccharide, branches: seq<Structure>, innerDepth: nat, outerDepth: nat, branch: seq<nat>)

  /** Which bond broke and how: a Y break (the part beyond is lost), a B break,
      or the end of the tree (nothing broke there). */
  datatype BreakPos = Y(pos: GlycanPosition) | B(pos: GlycanPosition) | End(pos: GlycanPosition)

  /** One way to break bonds below a node: the formula retained and the bonds. */
  type BreakOption = (Formula, seq<BreakPos>)

  datatype GlycanIon = BIon(position: GlycanPosition) | Oxonium(breaks: seq<BreakPos>) | YIon(positions: seq<GlycanPosition>)

  /** An uncharged glycan fragment: its formula and its ion type. */
  datatype GlycanFragment = GlycanFragment(formula: Formula, ion: GlycanIon)

  /** The label of this node's bond; the series number is one past the outer depth. */
  function Position(g: Structure, attachment: Attachment): (p: GlycanPosition)
    ensures p.seriesNumber == g.outerDepth + 1 && p.innerDepth == g.innerDepth
    ensures p.branch == g.branch && p.attachment == attachment
  {
    GlycanPosition(g.innerDepth, g.outerDepth + 1, g.branch, attachment)
  }

  /** The formula of the whole sub-tree: the sugar plus the sum over the branches. */
  function StructureFormula(g: Structure): (r: Formula)
    ensures Canonical(r)
    decreases g
  {
    Add(g.sugar.composition, Sum(BranchFormulas(g)))
  }

  function BranchFormulas(g: Structure): (r: seq<Formula>)
    ensures |r| == |g.branches|
    decreases g, 0
  {
    seq(|g.branches|, i requires 0 <= i < |g.branches| => StructureFormula(g.branches[i]))
  }

  predicate AllEnd(breaks: seq<BreakPos>)
  {
    forall k :: 0 <= k < |breaks| ==> breaks[k].End?
  }

  predicate NoB(breaks: seq<BreakPos>)
  {
    forall k :: 0 <= k < |breaks| ==> !breaks[k].B?
  }

  /** The options of one branch combined with every option accumulated so far:
      for each accumulated `base`, for each `option`, the formulas are summed
      and the break lists concatenated (option first). */
  function Row(base: BreakOption, options: seq<BreakOption>): (r: seq<BreakOption>)
    ensures |r| == |options|
  {
    if |options| == 0 then []
    else
      var o := options[|options| - 1];
      Row(base, options[..|options| - 1]) + [(Add(o.0, base.0), o.1 + base.1)]
  }

  function Product(acc: seq<BreakOption>, options: seq<BreakOption>): (r: seq<BreakOption>)
    ensures |r| == |acc| * |options|
  {
    if |acc| == 0 then []
    else Product(acc[..|acc| - 1], options) + Row(acc[|acc| - 1], options)
  }

  /** The fold over the branches' options: the first branch's options start the
      accumulator, every later branch multiplies into it. */
  function FoldProduct(all: seq<seq<BreakOption>>): seq<BreakOption>
  {
    if |all| == 0 then []
    else
      var acc := FoldProduct(all[..|all| - 1]);
      if |acc| == 0 then all[|all| - 1] else Product(acc, all[|all| - 1])
  }

  function AddSugar(options: seq<BreakOption>, sugar: Formula): (r: seq<BreakOption>)
    ensures |r| == |options|
    ensures forall k :: 0 <= k < |r| ==> r[k] == (Add(options[k].0, sugar), options[k].1)
  {
    seq(|options|, k requires 0 <= k < |options| => (Add(options[k].0, sugar), options[k].1))
  }

  function BranchOptions(g: Structure, attachment: Attachment): (r: seq<seq<BreakOption>>)
    ensures |r| == |g.branches|
    decreases g, 0
  {
    seq(|g.branches|, i requires 0 <= i < |g.branches| => InternalBreakPoints(g.branches[i], attachment))
  }

  /** Every set of bonds below this node that can break together, with the
      formula that stays when the broken-off parts are lost. */
  function InternalBreakPoints(g: Structure, attachment: Attachment): seq<BreakOption>
    decreases g, 1
  {
    var pos := Position(g, attachment);
    if |g.branches| == 0 then
      [(StructureFormula(g), [End(pos)]), (Zero, [Y(pos)])]
    else
      AddSugar(FoldProduct(BranchOptions(g, attachment)), g.sugar.composition) + [(Zero, [Y(pos)])]
  }

  // ---------------------------------------------------------------------------
  // Counting the options

  function LengthProduct(all: seq<seq<BreakOption>>): nat
  {
    if |all| == 0 then 1 else LengthProduct(all[..|all| - 1]) * |all[|all| - 1]|
  }

  lemma {:induction false} FoldProductLength(all: seq<seq<BreakOption>>)
    requires |all| > 0
    requires forall i :: 0 <= i < |all| ==> |all[i]| > 0
    ensures |FoldProduct(all)| == LengthProduct(all) > 0
  {
    if |all| == 1 {
      assert all[..0] == [];
    } else {
      FoldProductLength(all[..|all| - 1]);
    }
  }

  /** A leaf has two options; an inner node has the product of its branches'
      counts plus the one option of breaking at this node. */
  lemma {:induction false} InternalBreakPointsCount(g: Structure, attachment: Attachment)
    ensures |g.branches| == 0 ==> |InternalBreakPoints(g, attachment)| == 2
    ensures |g.branches| > 0 ==>
      |InternalBreakPoints(g, attachment)| == LengthProduct(BranchOptions(g, attachment)) + 1
    ensures |InternalBreakPoints(g, attachment)| >= 2
    decreases g
  {
    if |g.branches| > 0 {
      var all := BranchOptions(g, attachment);
      forall i | 0 <= i < |all| ensures |all[i]| > 0 {
        InternalBreakPointsCount(g.branches[i], attachment);
      }
      FoldProductLength(all);
    }
  }

  // ---------------------------------------------------------------------------
  // Which break kinds occur

  predicate EndOrYOnly(options: seq<BreakOption>)
  {
    forall k, j :: 0 <= k < |options| && 0 <= j < |options[k].1| ==> !options[k].1[j].B?
  }

  lemma {:induction false} RowEndOrYOnly(base: BreakOption, options: seq<BreakOption>)
    requires NoB(base.1) && EndOrYOnly(options)
    ensures EndOrYOnly(Row(base, options))
  {
    if |options| > 0 {
      RowEndOrYOnly(base, options[..|options| - 1]);
      var r := Row(base, options);
      assert r[|r| - 1].1 == options[|options| - 1].1 + base.1;
    }
  }

  lemma {:induction false} ProductEndOrYOnly(acc: seq<BreakOption>, options: seq<BreakOption>)
    requires EndOrYOnly(acc) && EndOrYOnly(options)
    ensures EndOrYOnly(Product(acc, options))
  {
    if |acc| > 0 {
      ProductEndOrYOnly(acc[..|acc| - 1], options);
      RowEndOrYOnly(acc[|acc| - 1], options);
    }
  }

  lemma {:induction false} FoldProductEndOrYOnly(all: seq<seq<BreakOption>>)
    requires forall i :: 0 <= i < |all| ==> EndOrYOnly(all[i])
    ensures EndOrYOnly(FoldProduct(all))
  {
    if |all| > 0 {
      FoldProductEndOrYOnly(all[..|all| - 1]);
      if |FoldProduct(all[..|all| - 1])| > 0 {
        ProductEndOrYOnly(FoldProduct(all[..|all| - 1]), all[|all| - 1]);
      }
    }
  }

  /** The internal break points never contain a B break: only End and Y. */
  lemma {:induction false} InternalBreakPointsHaveNoB(g: Structure, attachment: Attachment)
    ensures EndOrYOnly(InternalBreakPoints(g, attachment))
    decreases g
  {
    if |g.branches| > 0 {
      var all := BranchOptions(g, attachment);
      forall i | 0 <= i < |all| ensures EndOrYOnly(all[i]) {
        InternalBreakPointsHaveNoB(g.branches[i], attachment);
      }
      FoldProductEndOrYOnly(all);
    }
  }

  // ---------------------------------------------------------------------------
  // The one option in which nothing broke

  /** The formulas of the options whose bonds are all `End`, in order. */
  function AllEndFormulas(options: seq<BreakOption>): seq<Formula>
  {
    if |options| == 0 then []
    else
      var o := options[|options| - 1];
      AllEndFormulas(options[..|options| - 1]) + (if AllEnd(o.1) then [o.0] else [])
  }

  lemma {:induction false} AllEndFormulasAppend(a: seq<BreakOption>, b: seq<BreakOption>)
    ensures AllEndFormulas(a + b) == AllEndFormulas(a) + AllEndFormulas(b)
    decreases |b|
  {
    if |b| == 0 {
      assert a + b == a;
    } else {
      assert (a + b)[..|a + b| - 1] == a + b[..|b| - 1];
      AllEndFormulasAppend(a, b[..|b| - 1]);
    }
  }

  lemma AllEndConcat(x: seq<BreakPos>, y: seq<BreakPos>)
    ensures AllEnd(x + y) <==> AllEnd(x) && AllEnd(y)
  {
    if AllEnd(x) && AllEnd(y) {
      forall k | 0 <= k < |x + y| ensures (x + y)[k].End? {
        if k >= |x| {
          assert (x + y)[k] == y[k - |x|];
        }
      }
    }
    if AllEnd(x + y) {
      forall k | 0 <= k < |x| ensures x[k].End? {
        assert (x + y)[k] == x[k];
      }
      forall k | 0 <= k < |y| ensures y[k].End? {
        assert (x + y)[|x| + k] == y[k];
      }
    }
  }

  /** Each formula of a list with `f` added on the left. */
  function AddEach(f: Formula, fs: seq<Formula>): (r: seq<Formula>)
    ensures |r| == |fs|
  {
    if |fs| == 0 then [] else AddEach(f, fs[..|fs| - 1]) + [Add(f, fs[|fs| - 1])]
  }

  lemma {:induction false} AddEachAppend(f: Formula, a: seq<Formula>, b: seq<Formula>)
    ensures AddEach(f, a + b) == AddEach(f, a) + AddEach(f, b)
    decreases |b|
  {
    if |b| == 0 {
      assert a + b == a;
    } else {
      assert (a + b)[..|a + b| - 1] == a + b[..|b| - 1];
      AddEachAppend(f, a, b[..|b| - 1]);
    }
  }

  lemma {:induction false} RowAllEnd(base: BreakOption, options: seq<BreakOption>, fb: Formula)
    requires AllEndFormulas(options) == [fb]
    ensures AllEndFormulas(Row(base, options)) == if AllEnd(base.1) then [Add(fb, base.0)] else []
  {
    RowAllEndGeneral(base, options);
  }

  lemma {:induction false} RowAllEndGeneral(base: BreakOption, options: seq<BreakOption>)
    ensures AllEndFormulas(Row(base, options)) ==
      if AllEnd(base.1) then SumEach(AllEndFormulas(options), base.0) else []
  {
    if |options| > 0 {
      var o := options[|options| - 1];
      RowAllEndGeneral(base, options[..|options| - 1]);
      var r := Row(base, options);
      assert r[..|r| - 1] == Row(base, options[..|options| - 1]);
      AllEndConcat(o.1, base.1);
      SumEachAppend(AllEndFormulas(options[..|options| - 1]), if AllEnd(o.1) then [o.0] else [], base.0);
    }
  }

  /** Each formula of a list with `f` added on the right. */
  function SumEach(fs: seq<Formula>, f: Formula): (r: seq<Formula>)
    ensures |r| == |fs|
  {
    if |fs| == 0 then [] else SumEach(fs[..|fs| - 1], f) + [Add(fs[|fs| - 1], f)]
  }

  lemma {:induction false} SumEachAppend(a: seq<Formula>, b: seq<Formula>, f: Formula)
    ensures SumEach(a + b, f) == SumEach(a, f) + SumEach(b, f)
    decreases |b|
  {
    if |b| == 0 {
      assert a + b == a;
    } else {
      assert (a + b)[..|a + b| - 1] == a + b[..|b| - 1];
      SumEachAppend(a, b[..|b| - 1], f);
    }
  }

  /** In a product, the all-`End` options are exactly the pairs of all-`End` options. */
  lemma {:induction false} ProductAllEnd(acc: seq<BreakOption>, options: seq<BreakOption>, fb: Formula)
    requires AllEndFormulas(options) == [fb]
    ensures AllEndFormulas(Product(acc, options)) == AddEach(fb, AllEndFormulas(acc))
  {
    if |acc| > 0 {
      var last := acc[|acc| - 1];
      ProductAllEnd(acc[..|acc| - 1], options, fb);
      AllEndFormulasAppend(Product(acc[..|acc| - 1], options), Row(last, options));
      RowAllEnd(last, options, fb);
      AddEachAppend(fb, AllEndFormulas(acc[..|acc| - 1]), if AllEnd(last.1) then [last.0] else []);
    }
  }

  lemma {:induction false} FoldProductAllEnd(all: seq<seq<BreakOption>>, fs: seq<Formula>)
    requires |all| == |fs| > 0
    requires forall i :: 0 <= i < |all| ==> |all[i]| > 0 && AllEndFormulas(all[i]) == [fs[i]] && Canonical(fs[i])
    ensures AllEndFormulas(FoldProduct(all)) == [Sum(fs)]
  {
    var n := |all|;
    if n == 1 {
      assert all[..0] == [];
      assert fs[..0] == [];
      AddZero(fs[0]);
    } else {
      FoldProductAllEnd(all[..n - 1], fs[..n - 1]);
      FoldProductLength(all[..n - 1]);
      ProductAllEnd(FoldProduct(all[..n - 1]), all[n - 1], fs[n - 1]);
      assert AddEach(fs[n - 1], [Sum(fs[..n - 1])]) == [Add(fs[n - 1], Sum(fs[..n - 1]))] by {
        assert [Sum(fs[..n - 1])][..0] == [];
      }
      AddCommutes(fs[n - 1], Sum(fs[..n - 1]));
    }
  }

  /** Appending the option of breaking at this node adds no all-`End` option. */
  lemma AllEndFormulasWithY(options: seq<BreakOption>, pos: GlycanPosition)
    ensures AllEndFormulas(options + [(Zero, [Y(pos)])]) == AllEndFormulas(options)
  {
    var y := [(Zero, [Y(pos)])];
    AllEndFormulasAppend(options, y);
    assert y[..0] == [];
    assert y[0].1[0] == Y(pos);
    assert !AllEnd(y[0].1);
  }

  /** Below an inner node, the one all-`End` option keeps every branch and the sugar. */
  lemma InnerAllEnd(all: seq<seq<BreakOption>>, fs: seq<Formula>, sugar: Formula)
    requires |all| == |fs| > 0
    requires forall i :: 0 <= i < |all| ==> |all[i]| > 0 && AllEndFormulas(all[i]) == [fs[i]] && Canonical(fs[i])
    ensures AllEndFormulas(AddSugar(FoldProduct(all), sugar)) == [Add(sugar, Sum(fs))]
  {
    FoldProductAllEnd(all, fs);
    AddSugarAllEnd(FoldProduct(all), sugar);
    assert SumEach([Sum(fs)], sugar) == [Add(Sum(fs), sugar)] by {
      assert [Sum(fs)][..0] == [];
    }
    AddCommutes(Sum(fs), sugar);
  }

  /** Exactly one option keeps the whole sub-tree (every bond an `End`), and its
      formula is the formula of the sub-tree. */
  lemma {:induction false} UniqueAllEndOption(g: Structure, attachment: Attachment)
    ensures AllEndFormulas(InternalBreakPoints(g, attachment)) == [StructureFormula(g)]
    decreases g
  {
    var pos := Position(g, attachment);
    if |g.branches| == 0 {
      var whole := [(StructureFormula(g), [End(pos)])];
      assert InternalBreakPoints(g, attachment) == whole + [(Zero, [Y(pos)])];
      AllEndFormulasWithY(whole, pos);
      assert whole[..0] == [];
    } else {
      var all := BranchOptions(g, attachment);
      var fs := BranchFormulas(g);
      forall i | 0 <= i < |all| ensures |all[i]| > 0 && AllEndFormulas(all[i]) == [fs[i]] && Canonical(fs[i]) {
        UniqueAllEndOption(g.branches[i], attachment);
        InternalBreakPointsCount(g.branches[i], attachment);
      }
      InnerAllEnd(all, fs, g.sugar.composition);
      AllEndFormulasWithY(AddSugar(FoldProduct(all), g.sugar.composition), pos);
    }
  }

  lemma {:induction false} AddSugarAllEnd(options: seq<BreakOption>, sugar: Formula)
    ensures AllEndFormulas(AddSugar(options, sugar)) == SumEach(AllEndFormulas(options), sugar)
  {
    if |options| > 0 {
      var n := |options|;
      AddSugarAllEnd(options[..n - 1], sugar);
      assert AddSugar(options, sugar)[..n - 1] == AddSugar(options[..n - 1], sugar);
      SumEachAppend(AllEndFormulas(options[..n - 1]), if AllEnd(options[n - 1].1) then [options[n - 1].0] else [], sugar);
    }
  }

  // ---------------------------------------------------------------------------
  // Oxonium (B and internal) fragments

  /** The internal options that become oxonium fragments: not all `End`, not the
      zero formula, with this node's B break appended. */
  function OxoniumOptions(options: seq<BreakOption>, pos: GlycanPosition): (r: seq<GlycanFragment>)
    ensures |r| <= |options|
  {
    if |options| == 0 then []
    else
      var o := options[|options| - 1];
      OxoniumOptions(options[..|options| - 1], pos) +
        (if !AllEnd(o.1) && o.0 != Zero then [GlycanFragment(o.0, Oxonium(o.1 + [B(pos)]))] else [])
  }

  /** All B and oxonium fragments of a sub-tree: first the B fragment of the whole
      node, then its internal fragments, then those of every branch in order. */
  function OxoniumFragments(g: Structure, attachment: Attachment): seq<GlycanFragment>
    decreases g, 1
  {
    var pos := Position(g, attachment);
    [GlycanFragment(StructureFormula(g), BIon(pos))]
      + OxoniumOptions(InternalBreakPoints(g, attachment), pos)
      + Flatten(BranchOxonium(g, attachment))
  }

  function BranchOxonium(g: Structure, attachment: Attachment): (r: seq<seq<GlycanFragment>>)
    ensures |r| == |g.branches|
    decreases g, 0
  {
    seq(|g.branches|, i requires 0 <= i < |g.branches| => OxoniumFragments(g.branches[i], attachment))
  }

  /** What every oxonium fragment looks like: a non-zero formula, and bonds
      that end in exactly one B break, preceded by End and Y breaks that are not all End. */
  predicate WellFormedOxonium(f: GlycanFragment)
  {
    f.ion.Oxonium? ==>
      var b := f.ion.breaks;
      |b| >= 2 && b[|b| - 1].B? && NoB(b[..|b| - 1]) && !AllEnd(b[..|b| - 1]) && f.formula != Zero
  }

  lemma {:induction false} OxoniumOptionsWellFormed(options: seq<BreakOption>, pos: GlycanPosition)
    requires EndOrYOnly(options)
    ensures forall f :: f in OxoniumOptions(options, pos) ==> f.ion.Oxonium? && WellFormedOxonium(f)
  {
    if |options| > 0 {
      var o := options[|options| - 1];
      OxoniumOptionsWellFormed(options[..|options| - 1], pos);
      if !AllEnd(o.1) && o.0 != Zero {
        var b := o.1 + [B(pos)];
        assert b[..|b| - 1] == o.1;
        assert |o.1| > 0;
      }
    }
  }

  /** The first fragment is the B ion of the whole node; every oxonium fragment
      anywhere in the tree carries exactly one B break, as its last bond. */
  lemma {:induction false} OxoniumFragmentsShape(g: Structure, attachment: Attachment)
    ensures var r := OxoniumFragments(g, attachment);
      |r| > 0 && r[0] == GlycanFragment(StructureFormula(g), BIon(Position(g, attachment)))
      && forall f :: f in r ==> WellFormedOxonium(f)
    decreases g
  {
    var pos := Position(g, attachment);
    var r := OxoniumFragments(g, attachment);
    var own := OxoniumOptions(InternalBreakPoints(g, attachment), pos);
    var rest := BranchOxonium(g, attachment);
    InternalBreakPointsHaveNoB(g, attachment);
    OxoniumOptionsWellFormed(InternalBreakPoints(g, attachment), pos);
    forall i | 0 <= i < |rest| ensures forall f :: f in rest[i] ==> WellFormedOxonium(f) {
      OxoniumFragmentsShape(g.branches[i], attachment);
    }
    forall f | f in r ensures WellFormedOxonium(f) {
      if f in Flatten(rest) {
        FlattenMember(rest, f);
      }
    }
  }

  // ---------------------------------------------------------------------------
  // Y fragments

  /** The positions of the bonds that are not `End`, for a Y fragment's label. */
  function BrokenPositions(breaks: seq<BreakPos>): (r: seq<GlycanPosition>)
    ensures |r| <= |breaks|
  {
    if |breaks| == 0 then []
    else
      var b := breaks[|breaks| - 1];
      BrokenPositions(breaks[..|breaks| - 1]) + (if b.End? then [] else [b.pos])
  }

  /** The Y fragments of one break option, one per full (peptide + glycan) formula:
      the full formula minus this sub-tree plus what the option retains. */
  function YOfOption(g: Structure, o: BreakOption, full: seq<Formula>): (r: seq<GlycanFragment>)
    ensures |r| == |full|
  {
    seq(|full|, k requires 0 <= k < |full| =>
      GlycanFragment(Add(Sub(full[k], StructureFormula(g)), o.0), YIon(BrokenPositions(o.1))))
  }

  function YOptions(g: Structure, options: seq<BreakOption>, full: seq<Formula>): seq<GlycanFragment>
  {
    if |options| == 0 then []
    else
      var o := options[|options| - 1];
      YOptions(g, options[..|options| - 1], full) +
        (if NoB(o.1) && !AllEnd(o.1) then YOfOption(g, o, full) else [])
  }

  /** The Y fragments of the whole structure. */
  function YFragments(g: Structure, attachment: Attachment, full: seq<Formula>): seq<GlycanFragment>
  {
    YOptions(g, InternalBreakPoints(g, attachment), full)
  }

  /** `k` copies of `m` added up, for counting without multiplying. */
  function Copies(k: int, m: nat): nat
    decreases k
  {
    if k <= 0 then 0 else Copies(k - 1, m) + m
  }

  lemma {:induction false} CopiesProduct(k: nat, m: nat)
    ensures Copies(k, m) == k * m
  {
    if k > 0 {
      CopiesProduct(k - 1, m);
      MulStep(k - 1, m);
    }
  }

  lemma MulStep(a: int, m: int)
    ensures (a + 1) * m == a * m + m
  {
  }

  lemma {:induction false} YOptionsCount(g: Structure, options: seq<BreakOption>, full: seq<Formula>)
    requires EndOrYOnly(options)
    ensures |AllEndFormulas(options)| <= |options|
    ensures |YOptions(g, options, full)| == Copies(|options| - |AllEndFormulas(options)|, |full|)
    decreases |options|
  {
    if |options| > 0 {
      var prefix := options[..|options| - 1];
      EndOrYOnlyParts(options);
      YOptionsCount(g, prefix, full);
      YOptionsLast(g, options, full);
      var d := |prefix| - |AllEndFormulas(prefix)|;
      if AllEnd(options[|options| - 1].1) {
        assert |options| - |AllEndFormulas(options)| == d;
      } else {
        assert |options| - |AllEndFormulas(options)| == d + 1;
        assert Copies(d + 1, |full|) == Copies(d, |full|) + |full|;
      }
    }
  }

  /** The options before the last carry no `B` either, and neither does the last. */
  lemma EndOrYOnlyParts(options: seq<BreakOption>)
    requires EndOrYOnly(options) && |options| > 0
    ensures EndOrYOnly(options[..|options| - 1]) && NoB(options[|options| - 1].1)
  {
    var prefix := options[..|options| - 1];
    forall k, j | 0 <= k < |prefix| && 0 <= j < |prefix[k].1| ensures !prefix[k].1[j].B? {
      assert prefix[k] == options[k];
    }
  }

  /** What the last option adds to the Y fragments and to the all-`End` formulas. */
  lemma YOptionsLast(g: Structure, options: seq<BreakOption>, full: seq<Formula>)
    requires |options| > 0 && NoB(options[|options| - 1].1)
    ensures var o := options[|options| - 1];
            |YOptions(g, options, full)| ==
              |YOptions(g, options[..|options| - 1], full)| + (if AllEnd(o.1) then 0 else |full|) &&
            |AllEndFormulas(options)| ==
              |AllEndFormulas(options[..|options| - 1])| + (if AllEnd(o.1) then 1 else 0)
  {
  }

  /** Every internal option except the one where nothing broke gives one Y
      fragment per full formula. */
  lemma YFragmentsCount(g: Structure, attachment: Attachment, full: seq<Formula>)
    ensures |YFragments(g, attachment, full)| == (|InternalBreakPoints(g, attachment)| - 1) * |full|
  {
    InternalBreakPointsHaveNoB(g, attachment);
    UniqueAllEndOption(g, attachment);
    YOptionsAllButOne(g, InternalBreakPoints(g, attachment), full);
  }

  /** Options of which exactly one is all-`End` give one Y fragment per full
      formula for each of the others. */
  lemma YOptionsAllButOne(g: Structure, options: seq<BreakOption>, full: seq<Formula>)
    requires EndOrYOnly(options) && |AllEndFormulas(options)| == 1
    ensures |YOptions(g, options, full)| == (|options| - 1) * |full|
  {
    YOptionsCount(g, options, full);
    CopiesProduct(|options| - 1, |full|);
  }

  /** The last Y fragments come from losing the whole sub-tree: the full formula
      minus the sub-tree, labelled with this node's position alone. */
  lemma YFragmentsLoseAll(g: Structure, attachment: Attachment, full: seq<Formula>, k: nat)
    requires k < |full|
    ensures var r := YFragments(g, attachment, full);
      |r| >= |full| &&
      r[|r| - |full| + k] == GlycanFragment(Sub(full[k], StructureFormula(g)), YIon([Position(g, attachment)]))
  {
    var pos := Position(g, attachment);
    var ibp := InternalBreakPoints(g, attachment);
    LastBreakOption(g, attachment);
    assert ibp == ibp[..|ibp| - 1] + [(Zero, [Y(pos)])];
    YOptionsSnoc(g, ibp[..|ibp| - 1], (Zero, [Y(pos)]), full);
    LoseAllFragment(g, full, k, pos);
  }

  /** The option that keeps nothing below the node gives, for each full
      formula, that formula minus the sub-tree, labelled with the node alone. */
  lemma LoseAllFragment(g: Structure, full: seq<Formula>, k: nat, pos: GlycanPosition)
    requires k < |full|
    ensures var b: seq<BreakPos> := [Y(pos)]; NoB(b) && !AllEnd(b)
    ensures YOfOption(g, (Zero, [Y(pos)]), full)[k] == GlycanFragment(Sub(full[k], StructureFormula(g)), YIon([pos]))
  {
    var b: seq<BreakPos> := [Y(pos)];
    assert !b[0].End?;
    assert b[..0] == [];
    assert BrokenPositions(b) == BrokenPositions(b[..0]) + [pos] == [pos];
    var own := YOfOption(g, (Zero, b), full);
    assert own[k] == GlycanFragment(Add(Sub(full[k], StructureFormula(g)), Zero), YIon(BrokenPositions(b)));
    AddZero(Sub(full[k], StructureFormula(g)));
  }

  /** The last internal option is the loss of the whole sub-tree. */
  lemma LastBreakOption(g: Structure, attachment: Attachment)
    ensures var ibp := InternalBreakPoints(g, attachment);
      |ibp| > 0 && ibp[|ibp| - 1] == (Zero, [Y(Position(g, attachment))])
  {
    if |g.branches| > 0 {
      var front := AddSugar(FoldProduct(BranchOptions(g, attachment)), g.sugar.composition);
      assert InternalBreakPoints(g, attachment) == front + [(Zero, [Y(Position(g, attachment))])];
    }
  }

  /** One more option adds its own Y fragments after the others. */
  lemma YOptionsSnoc(g: Structure, options: seq<BreakOption>, o: BreakOption, full: seq<Formula>)
    ensures YOptions(g, options + [o], full) ==
      YOptions(g, options, full) + (if NoB(o.1) && !AllEnd(o.1) then YOfOption(g, o, full) else [])
  {
    assert (options + [o])[..|options|] == options;
  }

  // ---------------------------------------------------------------------------
  // Diagnostic ions and the pre-order walk

  /** The nodes of a sub-tree in pre-order: the node, then each branch's walk. */
  function PreOrder(g: Structure): (r: seq<Structure>)
    ensures |r| > 0 && r[0] == g
    decreases g, 1
  {
    [g] + Flatten(BranchWalks(g))
  }

  function BranchWalks(g: Structure): (r: seq<seq<Structure>>)
    ensures |r| == |g.branches|
    decreases g, 0
  {
    seq(|g.branches|, i requires 0 <= i < |g.branches| => PreOrder(g.branches[i]))
  }

  /** The diagnostic ions of a sub-tree: the node's own, then each branch's in order. */
  function DiagnosticIons<D>(g: Structure, attachment: Attachment, sugarIons: (MonoSaccharide, GlycanPosition) -> seq<D>): seq<D>
    decreases g, 1
  {
    sugarIons(g.sugar, Position(g, attachment)) + Flatten(BranchIons(g, attachment, sugarIons))
  }

  function BranchIons<D>(g: Structure, attachment: Attachment, sugarIons: (MonoSaccharide, GlycanPosition) -> seq<D>): (r: seq<seq<D>>)
    ensures |r| == |g.branches|
    decreases g, 0
  {
    seq(|g.branches|, i requires 0 <= i < |g.branches| => DiagnosticIons(g.branches[i], attachment, sugarIons))
  }

  /** The ions of a list of nodes, each node's own ions in list order. */
  function NodeIons<D>(nodes: seq<Structure>, attachment: Attachment, sugarIons: (MonoSaccharide, GlycanPosition) -> seq<D>): seq<D>
  {
    if |nodes| == 0 then []
    else
      var n := nodes[|nodes| - 1];
      NodeIons(nodes[..|nodes| - 1], attachment, sugarIons) + sugarIons(n.sugar, Position(n, attachment))
  }

  lemma {:induction false} NodeIonsAppend<D>(a: seq<Structure>, b: seq<Structure>, attachment: Attachment, sugarIons: (MonoSaccharide, GlycanPosition) -> seq<D>)
    ensures NodeIons(a + b, attachment, sugarIons) == NodeIons(a, attachment, sugarIons) + NodeIons(b, attachment, sugarIons)
    decreases |b|
  {
    if |b| == 0 {
      assert a + b == a;
    } else {
      assert (a + b)[..|a + b| - 1] == a + b[..|b| - 1];
      NodeIonsAppend(a, b[..|b| - 1], attachment, sugarIons);
    }
  }

  lemma {:induction false} NodeIonsFlatten<D>(walks: seq<seq<Structure>>, ions: seq<seq<D>>, attachment: Attachment, sugarIons: (MonoSaccharide, GlycanPosition) -> seq<D>)
    requires |walks| == |ions|
    requires forall i :: 0 <= i < |walks| ==> NodeIons(walks[i], attachment, sugarIons) == ions[i]
    ensures NodeIons(Flatten(walks), attachment, sugarIons) == Flatten(ions)
  {
    if |walks| > 0 {
      var n := |walks|;
      NodeIonsFlatten(walks[..n - 1], ions[..n - 1], attachment, sugarIons);
      NodeIonsAppend(Flatten(walks[..n - 1]), walks[n - 1], attachment, sugarIons);
    }
  }

  /** The diagnostic ions are listed in pre-order: walking the tree node by node
      and taking each node's own ions gives the same list. */
  lemma {:induction false} DiagnosticIonsPreOrder<D>(g: Structure, attachment: Attachment, sugarIons: (MonoSaccharide, GlycanPosition) -> seq<D>)
    ensures DiagnosticIons(g, attachment, sugarIons) == NodeIons(PreOrder(g), attachment, sugarIons)
    decreases g
  {
    var walks := BranchWalks(g);
    var ions := BranchIons(g, attachment, sugarIons);
    forall i | 0 <= i < |walks| ensures NodeIons(walks[i], attachment, sugarIons) == ions[i] {
      DiagnosticIonsPreOrder(g.branches[i], attachment, sugarIons);
    }
    NodeIonsFlatten(walks, ions, attachment, sugarIons);
    NodeIonsAppend([g], Flatten(walks), attachment, sugarIons);
    assert NodeIons([g], attachment, sugarIons) == sugarIons(g.sugar, Position(g, attachment)) by {
      assert [g][..0] == [];
    }
  }

  // ---------------------------------------------------------------------------
  // Glycan fragmentation as a whole

  /** All fragments of a glycan under a fragmentation model: none when the model
      has no glycan setting; otherwise the oxonium fragments (single charges,
      then neutral losses), the Y fragments (all charges, then neutral losses) and
      the diagnostic ions (single charges). The charge and loss expansions are
      collaborators. */
  function GenerateTheoreticalFragments<L>(
    g: Structure, glycanModel: Option<L>, attachment: Attachment, full: seq<Formula>,
    singleCharges: GlycanFragment -> seq<GlycanFragment>,
    allCharges: GlycanFragment -> seq<GlycanFragment>,
    withLosses: (GlycanFragment, L) -> seq<GlycanFragment>,
    sugarIons: (MonoSaccharide, GlycanPosition) -> seq<GlycanFragment>): (r: seq<GlycanFragment>)
  {
    match glycanModel
    case None => []
    case Some(losses) =>
      Expand(Expand(OxoniumFragments(g, attachment), singleCharges), f => withLosses(f, losses))
      + Expand(Expand(YFragments(g, attachment, full), allCharges), f => withLosses(f, losses))
      + Expand(DiagnosticIons(g, attachment, sugarIons), singleCharges)
  }

  /** `flat_map` over a list. */
  function Expand(fs: seq<GlycanFragment>, f: GlycanFragment -> seq<GlycanFragment>): seq<GlycanFragment>
  {
    if |fs| == 0 then [] else Expand(fs[..|fs| - 1], f) + f(fs[|fs| - 1])
  }

  lemma {:induction false} ExpandIdentity(fs: seq<GlycanFragment>)
    ensures Expand(fs, f => [f]) == fs
  {
    if |fs| > 0 {
      ExpandIdentity(fs[..|fs| - 1]);
    }
  }

  /** With no glycan setting nothing is produced; with one and expansions that
      keep each fragment as it is, the output is the oxonium fragments, then
      the Y fragments, then the diagnostic ions. */
  lemma GenerateTheoreticalFragmentsParts<L>(
    g: Structure, glycanModel: Option<L>, attachment: Attachment, full: seq<Formula>,
    sugarIons: (MonoSaccharide, GlycanPosition) -> seq<GlycanFragment>)
    ensures glycanModel.None? ==>
      GenerateTheoreticalFragments(g, glycanModel, attachment, full, f => [f], f => [f], (f, l) => [f], sugarIons) == []
    ensures glycanModel.Some? ==>
      GenerateTheoreticalFragments(g, glycanModel, attachment, full, f => [f], f => [f], (f, l) => [f], sugarIons)
      == OxoniumFragments(g, attachment) + YFragments(g, attachment, full) + DiagnosticIons(g, attachment, sugarIons)
  {
    if glycanModel.Some? {
      var losses := glycanModel.value;
      var keep: GlycanFragment -> seq<GlycanFragment> := f => [f];
      var withLosses: (GlycanFragment, L) -> seq<GlycanFragment> := (f, l) => [f];
      ExpandIdentity(OxoniumFragments(g, attachment));
      ExpandIdentity(YFragments(g, attachment, full));
      ExpandIdentity(DiagnosticIons(g, attachment, sugarIons));
      ExpandSame(OxoniumFragments(g, attachment), f => withLosses(f, losses), keep);
      ExpandSame(YFragments(g, attachment, full), f => withLosses(f, losses), keep);
    }
  }

  lemma {:induction false} ExpandSame(fs: seq<GlycanFragment>, f1: GlycanFragment -> seq<GlycanFragment>, f2: GlycanFragment -> seq<GlycanFragment>)
    requires forall x :: f1(x) == f2(x)
    ensures Expand(fs, f1) == Expand(fs, f2)
  {
    if |fs| > 0 {
      ExpandSame(fs[..|fs| - 1], f1, f2);
    }
  }
}
