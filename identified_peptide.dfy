/** Identified peptides as read from the result files of identification
    programs: the spectrum identifiers, the charge accessor and the iterator
    that parses a stream of source records, detecting the file format on the
    first record that parses and keeping it for all later ones. */
module IdentifiedPeptide {
  import opened Common

  /** How a spectrum is referred to: by its native identifier or by its index. */
  datatype SpectrumId = Native(name: string) | Index(i: nat)

  /** `SpectrumId::index`: the index, only for an index. */
  function SpectrumIndex(id: SpectrumId): (r: Option<nat>)
    ensures r.Some? <==> id.Index?
    ensures r.Some? ==> r.value == id.i
  {
    match id
    case Index(i) => Some(i)
    case Native(_) => None
  }

  /** `SpectrumId::native`: the native identifier, only for a native identifier. */
  function SpectrumNative(id: SpectrumId): (r: Option<string>)
    ensures r.Some? <==> id.Native?
    ensures r.Some? ==> r.value == id.name
  {
    match id
    case Index(_) => None
    case Native(n) => Some(n)
  }

  /** Exactly one of the two accessors answers, and together they give back the identifier. */
  lemma IndexOrNative(id: SpectrumId)
    ensures SpectrumIndex(id).Some? != SpectrumNative(id).Some?
    ensures SpectrumIndex(id).Some? ==> id == SpectrumId.Index(SpectrumIndex(id).value)
    ensures SpectrumNative(id).Some? ==> id == Native(SpectrumNative(id).value)
  {
    match id
    case Index(i) =>
    case Native(n) =>
  }

  /** The format-specific metadata of an identified peptide, reduced to the
      precursor charge each format records (FASTA records none). */
  datatype MetaData =
    | Fasta
    | MaxQuant(z: nat)
    | MSFragger(z: nat)
    | MZTab(z: nat)
    | Novor(z: nat)
    | Opair(z: nat)
    | Peaks(z: nat)
    | Sage(z: nat)

  datatype IdentifiedPeptide = IdentifiedPeptide(score: Option<real>, metadata: MetaData)

  /** `IdentifiedPeptide::charge`: the recorded charge, unknown only for FASTA. */
  function Charge(p: IdentifiedPeptide): (r: Option<nat>)
    ensures r.None? <==> p.metadata.Fasta?
    ensures r.Some? ==> r.value == p.metadata.z
  {
    match p.metadata
    case Fasta => None
    case MaxQuant(z) => Some(z)
    case MSFragger(z) => Some(z)
    case MZTab(z) => Some(z)
    case Novor(z) => Some(z)
    case Opair(z) => Some(z)
    case Peaks(z) => Some(z)
    case Sage(z) => Some(z)
  }

  /** Reading one record of the source, given the format detected so far: the
      item it yields and the format afterwards. A record the source could not
      produce is passed on as its error. Without a format the record goes
      through `parse`, whose success fixes the format; with one it goes
      through `parseSpecific` and the format stays. */
  function ReadItem<S, R, F, E>(format: Option<F>, item: Result<S, E>,
                                parse: S -> Result<(R, F), E>, parseSpecific: (S, F) -> Result<R, E>): (Result<R, E>, Option<F>)
  {
    if item.Err? then (Err(item.error), format)
    else if format.Some? then (parseSpecific(item.value, format.value), format)
    else match parse(item.value)
      case Ok((pep, f)) => (Ok(pep), Some(f))
      case Err(e) => (Err(e), None)
  }

  /** A record from which `parse` detects a format. */
  predicate Detects<S, R, F, E>(item: Result<S, E>, parse: S -> Result<(R, F), E>)
  {
    item.Ok? && parse(item.value).Ok?
  }

  /** What one read does with a record, format by format: a source error is
      passed on whatever the parsers, a latched format stays and is the one
      `parseSpecific` gets, and without one the format is set exactly when
      `parse` succeeds, to the format it reports. */
  lemma ReadItemCases<S, R, F, E>(format: Option<F>, item: Result<S, E>,
                                  parse: S -> Result<(R, F), E>, parseSpecific: (S, F) -> Result<R, E>)
    ensures var (x, f) := ReadItem(format, item, parse, parseSpecific);
      && (item.Err? ==> x == Err(item.error) && f == format)
      && (format.Some? ==> f == format)
      && (format.Some? && item.Ok? ==> x == parseSpecific(item.value, format.value))
      && (format.None? ==> (f.Some? <==> Detects(item, parse)))
      && (format.None? && Detects(item, parse) ==>
            x == Ok(parse(item.value).value.0) && f == Some(parse(item.value).value.1))
      && (format.None? && item.Ok? && !Detects(item, parse) ==> x == Err(parse(item.value).error))
  {
  }

  /** The items successive reads yield from `items`, starting with `format`. */
  function Drain<S, R, F, E>(format: Option<F>, items: seq<Result<S, E>>,
                             parse: S -> Result<(R, F), E>, parseSpecific: (S, F) -> Result<R, E>): (r: seq<Result<R, E>>)
    ensures |r| == |items|
    decreases |items|
  {
    if |items| == 0 then []
    else
      var (x, f) := ReadItem(format, items[0], parse, parseSpecific);
      [x] + Drain(f, items[1..], parse, parseSpecific)
  }

  /** The format once every record of `items` has been read. */
  function FormatAfter<S, R, F, E>(format: Option<F>, items: seq<Result<S, E>>,
                                   parse: S -> Result<(R, F), E>, parseSpecific: (S, F) -> Result<R, E>): Option<F>
    decreases |items|
  {
    if |items| == 0 then format
    else FormatAfter(ReadItem(format, items[0], parse, parseSpecific).1, items[1..], parse, parseSpecific)
  }

  /** Once a format is latched no read resets it. */
  lemma {:induction false} FormatNeverReset<S, R, F, E>(f: F, items: seq<Result<S, E>>,
                                                     parse: S -> Result<(R, F), E>, parseSpecific: (S, F) -> Result<R, E>)
    ensures FormatAfter(Some(f), items, parse, parseSpecific) == Some(f)
    decreases |items|
  {
    if |items| > 0 {
      FormatNeverReset(f, items[1..], parse, parseSpecific);
    }
  }

  /** With a latched format every record goes through `parseSpecific` with that
      format, and a source error comes out as itself. */
  lemma {:induction false} DrainLatched<S, R, F, E>(f: F, items: seq<Result<S, E>>,
                                                 parse: S -> Result<(R, F), E>, parseSpecific: (S, F) -> Result<R, E>)
    ensures forall k :: 0 <= k < |items| ==>
      Drain(Some(f), items, parse, parseSpecific)[k] ==
        (if items[k].Err? then Err(items[k].error) else parseSpecific(items[k].value, f))
    decreases |items|
  {
    if |items| > 0 {
      DrainLatched(f, items[1..], parse, parseSpecific);
      var d := Drain(Some(f), items, parse, parseSpecific);
      assert d == [d[0]] + Drain(Some(f), items[1..], parse, parseSpecific);
      forall k | 1 <= k < |items| ensures d[k] == Drain(Some(f), items[1..], parse, parseSpecific)[k - 1] {
      }
    }
  }

  /** Starting without a format, none is ever detected exactly when no record
      of `items` parses with `parse`. */
  lemma {:induction false} FormatUndetected<S, R, F, E>(items: seq<Result<S, E>>,
                                                     parse: S -> Result<(R, F), E>, parseSpecific: (S, F) -> Result<R, E>)
    ensures FormatAfter(None, items, parse, parseSpecific).None? <==>
      forall k :: 0 <= k < |items| ==> !Detects(items[k], parse)
    decreases |items|
  {
    if |items| > 0 {
      if Detects(items[0], parse) {
        FormatNeverReset(parse(items[0].value).value.1, items[1..], parse, parseSpecific);
      } else {
        FormatUndetected(items[1..], parse, parseSpecific);
        assert forall k :: 1 <= k < |items| ==> items[k] == items[1..][k - 1];
      }
    }
  }

  /** The format kept is the one `parse` reports for the first record it accepts. */
  lemma {:induction false} FormatFromFirst<S, R, F, E>(items: seq<Result<S, E>>, j: nat,
                                                    parse: S -> Result<(R, F), E>, parseSpecific: (S, F) -> Result<R, E>)
    requires j < |items| && Detects(items[j], parse)
    requires forall k :: 0 <= k < j ==> !Detects(items[k], parse)
    ensures FormatAfter(None, items, parse, parseSpecific) == Some(parse(items[j].value).value.1)
    decreases j
  {
    if j == 0 {
      FormatNeverReset(parse(items[0].value).value.1, items[1..], parse, parseSpecific);
    } else {
      assert !Detects(items[0], parse);
      FormatFromFirst(items[1..], j - 1, parse, parseSpecific);
    }
  }

  /** The iterator over parsed records: `source` holds the records not read yet,
      `format` the format once detected, `peek` an item read ahead by `Peek`. */
  class IdentifiedPeptideIter<S, R, F, E> {
    var source: seq<Result<S, E>>
    var format: Option<F>
    var peek: Option<Result<R, E>>
    const parse: S -> Result<(R, F), E>
    const parseSpecific: (S, F) -> Result<R, E>

    /** `parse_many`: nothing read, no format, nothing cached. */
    constructor (source: seq<Result<S, E>>, parse: S -> Result<(R, F), E>, parseSpecific: (S, F) -> Result<R, E>)
      ensures this.source == source && this.parse == parse && this.parseSpecific == parseSpecific
      ensures format.None? && peek.None?
    {
      this.source := source;
      this.parse := parse;
      this.parseSpecific := parseSpecific;
      format := None;
      peek := None;
    }

    /** Reading the next record from the source, shared by `Peek` and `Next`:
        `None` once the source is exhausted, otherwise the record read through
        `ReadItem` with the format it leaves. The cache is not touched. */
    method Pull() returns (r: Option<Result<R, E>>)
      modifies this
      ensures peek == old(peek)
      ensures old(source) == [] ==> r.None? && source == old(source) && format == old(format)
      ensures old(source) != [] ==>
        var (x, f) := ReadItem(old(format), old(source)[0], parse, parseSpecific);
        r == Some(x) && format == f && source == old(source)[1..]
    {
      if source == [] {
        return None;
      }
      var item := source[0];
      source := source[1..];
      if item.Err? {
        r := Some(Err(item.error));
      } else if format.Some? {
        r := Some(parseSpecific(item.value, format.value));
      } else {
        match parse(item.value)
        case Ok((pep, f)) =>
          format := Some(f);
          r := Some(Ok(pep));
        case Err(e) =>
          r := Some(Err(e));
      }
    }

    /** `peek`: a cached item is returned again and nothing changes; otherwise
        the next record is read and what it yields is cached. */
    method Peek() returns (r: Option<Result<R, E>>)
      modifies this
      ensures old(peek).Some? ==> r == old(peek) && unchanged(this)
      ensures old(peek).None? && old(source) == [] ==> r.None? && peek.None? && source == old(source) && format == old(format)
      ensures old(peek).None? && old(source) != [] ==>
        var (x, f) := ReadItem(old(format), old(source)[0], parse, parseSpecific);
        r == Some(x) && peek == r && format == f && source == old(source)[1..]
    {
      if peek.Some? {
        return peek;
      }
      r := Pull();
      peek := r;
    }

    /** `next`: a cached item is handed out and the cache cleared without
        reading the source; otherwise the next record is read. */
    method Next() returns (r: Option<Result<R, E>>)
      modifies this
      ensures peek.None?
      ensures old(peek).Some? ==> r == old(peek) && source == old(source) && format == old(format)
      ensures old(peek).None? && old(source) == [] ==> r.None? && peek.None? && source == old(source) && format == old(format)
      ensures old(peek).None? && old(source) != [] ==>
        var (x, f) := ReadItem(old(format), old(source)[0], parse, parseSpecific);
        r == Some(x) && format == f && source == old(source)[1..]
    {
      if peek.Some? {
        r := peek;
        peek := None;
        return;
      }
      r := Pull();
    }
  }

  /** Peeking and then taking the next item yields the peeked item once and
      leaves the iterator as a single `Next` would. */
  method PeekThenNext<S, R, F, E>(it: IdentifiedPeptideIter<S, R, F, E>) returns (p: Option<Result<R, E>>, n: Option<Result<R, E>>)
    requires it.peek.None?
    modifies it
    ensures p == n
    ensures it.peek.None?
    ensures old(it.source) == [] ==> n.None? && it.source == [] && it.format == old(it.format)
    ensures old(it.source) != [] ==>
      var (x, f) := ReadItem(old(it.format), old(it.source)[0], it.parse, it.parseSpecific);
      n == Some(x) && it.format == f && it.source == old(it.source)[1..]
  {
    p := it.Peek();
    n := it.Next();
  }
}
