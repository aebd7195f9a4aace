/** Small shared vocabulary: optional values, positions on a peptide and
    half-open ranges over its residues. */
module Common {

  datatype Option<+T> = None | Some(value: T)

  /** The outcome of an operation that can fail with an error of type `E`. */
  datatype Result<+T, +E> = Ok(value: T) | Err(error: E)
  {
    predicate IsFailure() { Err? }

    function PropagateFailure<U>(): Result<U, E>
      requires Err?
    {
      Err(error)
    }

    function Extract(): T
      requires Ok?
    {
      value
    }
  }

  /** A place on a peptide: the N terminus, a residue index or the C terminus. */
  datatype SequencePosition = NTerm | Index(i: nat) | CTerm

  /** A position names something that exists on a peptide of length `len`. */
  predicate ValidPosition(p: SequencePosition, len: nat)
  {
    p.Index? ==> p.i < len
  }

  /** Reversal of one position on a peptide of length `len`: the termini swap and
      residue `i` moves to `len - 1 - i`. */
  function ReversePosition(p: SequencePosition, len: nat): (r: SequencePosition)
    requires ValidPosition(p, len)
    ensures ValidPosition(r, len)
    ensures r.NTerm? <==> p.CTerm?
    ensures r.CTerm? <==> p.NTerm?
    ensures r.Index? ==> p.i + r.i == len - 1
  {
    match p
    case NTerm => CTerm
    case CTerm => NTerm
    case Index(i) => Index(len - 1 - i)
  }

  lemma ReversePositionInvolution(p: SequencePosition, len: nat)
    requires ValidPosition(p, len)
    ensures ReversePosition(ReversePosition(p, len), len) == p
  {
  }

  /** A half-open range `start..end` of residue indices. */
  datatype Range = Range(start: nat, end: nat)
  {
    predicate Contains(i: nat) { start <= i < end }
    function Len(): nat { if start <= end then end - start else 0 }
  }

  /** Whether a position lies inside a range on a peptide of length `len`:
      the N terminus goes with residue 0 and the C terminus with residue `len - 1`. */
  predicate RangeContainsPosition(r: Range, len: nat, p: SequencePosition)
  {
    match p
    case NTerm => r.Contains(0)
    case Index(i) => r.Contains(i)
    case CTerm => len > 0 && r.Contains(len - 1)
  }

  /** Concatenation of a sequence of sequences. */
  function Flatten<T>(ss: seq<seq<T>>): (r: seq<T>)
    ensures |ss| == 0 ==> r == []
  {
    if |ss| == 0 then [] else Flatten(ss[..|ss| - 1]) + ss[|ss| - 1]
  }

  lemma {:induction false} FlattenAppend<T>(a: seq<seq<T>>, b: seq<seq<T>>)
    ensures Flatten(a + b) == Flatten(a) + Flatten(b)
    decreases |b|
  {
    if |b| == 0 {
      assert a + b == a;
    } else {
      var front := b[..|b| - 1];
      assert (a + b)[..|a + b| - 1] == a + front;
      assert (a + b)[|a + b| - 1] == b[|b| - 1];
      FlattenAppend(a, front);
      assert Flatten(b) == Flatten(front) + b[|b| - 1];
    }
  }

  lemma FlattenCons<T>(x: seq<T>, rest: seq<seq<T>>)
    ensures Flatten([x] + rest) == x + Flatten(rest)
  {
    FlattenAppend([x], rest);
    assert [x][..0] == [];
  }

  /** The number of elements of a flattened sequence. */
  function TotalLength<T>(ss: seq<seq<T>>): nat
  {
    if |ss| == 0 then 0 else TotalLength(ss[..|ss| - 1]) + |ss[|ss| - 1]|
  }

  lemma FlattenLength<T>(ss: seq<seq<T>>)
    ensures |Flatten(ss)| == TotalLength(ss)
  {
  }

  /** Every element of a flattened sequence comes from one of its parts, and back. */
  lemma FlattenMember<T>(ss: seq<seq<T>>, x: T)
    ensures x in Flatten(ss) <==> exists k :: 0 <= k < |ss| && x in ss[k]
  {
    if x in Flatten(ss) {
      var k := FlattenSource(ss, x);
    }
    if exists k :: 0 <= k < |ss| && x in ss[k] {
      var k :| 0 <= k < |ss| && x in ss[k];
      FlattenHas(ss, k, x);
    }
  }

  lemma {:induction false} FlattenSource<T>(ss: seq<seq<T>>, x: T) returns (k: nat)
    requires x in Flatten(ss)
    ensures k < |ss| && x in ss[k]
  {
    var front := ss[..|ss| - 1];
    if x in Flatten(front) {
      k := FlattenSource(front, x);
      assert ss[k] == front[k];
    } else {
      k := |ss| - 1;
    }
  }

  lemma {:induction false} FlattenHas<T>(ss: seq<seq<T>>, k: nat, x: T)
    requires k < |ss| && x in ss[k]
    ensures x in Flatten(ss)
  {
    var front := ss[..|ss| - 1];
    if k < |ss| - 1 {
      assert front[k] == ss[k];
      FlattenHas(front, k, x);
    }
  }

  /** A sequence in reverse order. */
  function Reversed<T>(s: seq<T>): (r: seq<T>)
    ensures |r| == |s|
    ensures forall i :: 0 <= i < |s| ==> r[i] == s[|s| - 1 - i]
  {
    if |s| == 0 then [] else [s[|s| - 1]] + Reversed(s[..|s| - 1])
  }

  lemma ReversedInvolution<T>(s: seq<T>)
    ensures Reversed(Reversed(s)) == s
  {
  }

  lemma ReversedAppend<T>(a: seq<T>, b: seq<T>)
    ensures Reversed(a + b) == Reversed(b) + Reversed(a)
  {
  }

  /** Appending items one at a time and giving up at the first one `valid` rejects
      (the loop of the global-isotope builders): `None` exactly when some item is
      invalid, otherwise every item appended in order. */
  method AppendAllValid<T>(acc: seq<T>, items: seq<T>, valid: T -> bool) returns (r: Option<seq<T>>)
    ensures r.None? <==> exists k :: 0 <= k < |items| && !valid(items[k])
    ensures r.Some? ==> r.value == acc + items
  {
    var out := acc;
    for i := 0 to |items|
      invariant out == acc + items[..i]
      invariant forall k :: 0 <= k < i ==> valid(items[k])
    {
      if !valid(items[i]) {
        return None;
      }
      out := out + [items[i]];
    }
    assert items[..|items|] == items;
    return Some(out);
  }

  /** The decimal digits of a number. */
  function Decimal(n: nat): (s: string)
    ensures |s| > 0 && forall k :: 0 <= k < |s| ==> '0' <= s[k] <= '9'
  {
    if n < 10 then [DigitChar(n)] else Decimal(n / 10) + [DigitChar(n % 10)]
  }

  function DigitChar(d: nat): (c: char)
    requires d < 10
    ensures '0' <= c <= '9'
  {
    '0' + d as char
  }

  /** The value of a string of decimal digits. */
  function DigitsValue(s: string): nat
    requires forall k :: 0 <= k < |s| ==> '0' <= s[k] <= '9'
  {
    if |s| == 0 then 0 else DigitsValue(s[..|s| - 1]) * 10 + (s[|s| - 1] - '0') as nat
  }

  /** Reading the digits back gives the number. */
  lemma {:induction false} DecimalRoundTrip(n: nat)
    ensures DigitsValue(Decimal(n)) == n
  {
    if n >= 10 {
      DecimalRoundTrip(n / 10);
      var s := Decimal(n);
      assert s[..|s| - 1] == Decimal(n / 10);
    }
  }}
