/** The molecular-formula algebra the peptide and glycan code builds on:
    a formula counts atoms per element, and formulas add pointwise.
    A formula is kept canonical (no element with count zero), so that two
    formulas with the same counts are the same value and the empty map is
    the zero formula (`MolecularFormula::default()` in the source). */
module Formula {

  datatype Element = Element(symbol: string)

  type Formula = map<Element, int>

  /** The count of `e` in `f`; absent elements count zero. */
  function Count(f: Formula, e: Element): int
  {
    if e in f then f[e] else 0
  }

  predicate Canonical(f: Formula)
  {
    forall e :: e in f ==> f[e] != 0
  }

  const Zero: Formula := map[]

  /** Pointwise sum of two formulas. */
  function Add(a: Formula, b: Formula): (r: Formula)
    ensures Canonical(r)
    ensures forall e :: Count(r, e) == Count(a, e) + Count(b, e)
  {
    map e | e in a.Keys + b.Keys && Count(a, e) + Count(b, e) != 0 :: Count(a, e) + Count(b, e)
  }

  /** Pointwise negation. */
  function Neg(a: Formula): (r: Formula)
    ensures Canonical(r)
    ensures forall e :: Count(r, e) == -Count(a, e)
  {
    map e | e in a.Keys && a[e] != 0 :: -a[e]
  }

  /** `a - b`, pointwise. */
  function Sub(a: Formula, b: Formula): (r: Formula)
    ensures Canonical(r)
    ensures forall e :: Count(r, e) == Count(a, e) - Count(b, e)
  {
    Add(a, Neg(b))
  }

  /** A single element with a count. */
  function Atoms(e: Element, n: int): (r: Formula)
    ensures Canonical(r)
    ensures Count(r, e) == n
    ensures forall x :: x != e ==> Count(r, x) == 0
  {
    if n == 0 then Zero else map[e := n]
  }

  const H: Element := Element("H")
  const O: Element := Element("O")

  /** H1, the N-terminal hydrogen. */
  function H1(): (r: Formula)
    ensures Count(r, H) == 1 && Canonical(r)
  {
    Atoms(H, 1)
  }

  /** H1 O1, the C-terminal hydroxyl. */
  function H1O1(): (r: Formula)
    ensures Count(r, H) == 1 && Count(r, O) == 1 && Canonical(r)
  {
    Add(Atoms(H, 1), Atoms(O, 1))
  }

  /** Two canonical formulas with equal counts are equal. */
  lemma Extensionality(a: Formula, b: Formula)
    requires Canonical(a) && Canonical(b)
    requires forall e :: Count(a, e) == Count(b, e)
    ensures a == b
  {
    assert a.Keys == b.Keys by {
      forall e | e in a ensures e in b {
        assert Count(a, e) != 0;
      }
      forall e | e in b ensures e in a {
        assert Count(b, e) != 0;
      }
    }
    forall e | e in a ensures a[e] == b[e] {
      assert Count(a, e) == Count(b, e);
    }
  }

  lemma AddCommutes(a: Formula, b: Formula)
    ensures Add(a, b) == Add(b, a)
  {
    Extensionality(Add(a, b), Add(b, a));
  }

  lemma AddAssociates(a: Formula, b: Formula, c: Formula)
    ensures Add(Add(a, b), c) == Add(a, Add(b, c))
  {
    Extensionality(Add(Add(a, b), c), Add(a, Add(b, c)));
  }

  lemma AddZero(a: Formula)
    requires Canonical(a)
    ensures Add(a, Zero) == a && Add(Zero, a) == a
  {
    Extensionality(Add(a, Zero), a);
    Extensionality(Add(Zero, a), a);
  }

  /** `Sub` undoes `Add`. */
  lemma SubAddCancels(a: Formula, b: Formula)
    requires Canonical(a)
    ensures Sub(Add(a, b), b) == a
  {
    Extensionality(Sub(Add(a, b), b), a);
  }

  /** Left-to-right sum of a list of formulas, starting from zero (Rust's `Iterator::sum`). */
  function Sum(fs: seq<Formula>): (r: Formula)
    ensures Canonical(r)
  {
    if |fs| == 0 then Zero else Add(Sum(fs[..|fs| - 1]), fs[|fs| - 1])
  }

  /** Each count of a sum is the sum of the counts. */
  function CountSum(fs: seq<Formula>, e: Element): int
  {
    if |fs| == 0 then 0 else CountSum(fs[..|fs| - 1], e) + Count(fs[|fs| - 1], e)
  }

  lemma {:induction false} SumCounts(fs: seq<Formula>, e: Element)
    ensures Count(Sum(fs), e) == CountSum(fs, e)
  {
    if |fs| > 0 {
      SumCounts(fs[..|fs| - 1], e);
    }
  }

  lemma {:induction false} CountSumAppend(a: seq<Formula>, b: seq<Formula>, e: Element)
    ensures CountSum(a + b, e) == CountSum(a, e) + CountSum(b, e)
    decreases |b|
  {
    if |b| == 0 {
      assert a + b == a;
    } else {
      assert (a + b)[..|a + b| - 1] == a + b[..|b| - 1];
      CountSumAppend(a, b[..|b| - 1], e);
    }
  }

  /** The sum of a concatenation is the sum of the sums. */
  lemma SumAppend(a: seq<Formula>, b: seq<Formula>)
    ensures Sum(a + b) == Add(Sum(a), Sum(b))
  {
    forall e ensures Count(Sum(a + b), e) == Count(Add(Sum(a), Sum(b)), e) {
      SumCounts(a + b, e);
      SumCounts(a, e);
      SumCounts(b, e);
      CountSumAppend(a, b, e);
    }
    Extensionality(Sum(a + b), Add(Sum(a), Sum(b)));
  }

  lemma SumSingleton(f: Formula)
    requires Canonical(f)
    ensures Sum([f]) == f
  {
    assert [f][..0] == [];
    AddZero(f);
  }

  /** The charge carriers of a peptide: each an amount and the formula of the carrier.
      Nothing here computes with them; they are carried along as a value. */
  datatype MolecularCharge = MolecularCharge(carriers: seq<(int, Formula)>)
}
