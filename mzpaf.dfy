/** The sub-parsers of an mzPAF peak annotation (the peak annotation format of
    the Proteomics Standards Initiative): an optional `&`, an optional analyte
    number `n@`, the ion, neutral losses, the charge `^z` and the mass
    deviation `/d` or `/dppm`. Each sub-parser reads the start of a range of
    the line and returns how many characters it consumed with what it read, or
    an error. Characters and bytes coincide here (the annotation is ASCII). */
module MzPaf {
  import opened Common
  import opened Formula

  datatype ParseError =
    | AnalyteNumberWithoutAt | AnalyteNumberInvalid
    | EmptyIon | InvalidIonStart | OrdinalInvalid | MainSeriesWithoutOrdinal
    | ImmoniumWithoutAminoAcid | UnknownAminoAcid | UnknownModification
    | InternalWithoutFirstOrdinal | InternalWithoutSeparator | InternalWithoutSecondOrdinal
    | NamedWithoutBraces | ReporterWithoutBrackets | UnknownReporter
    | FormulaWithoutBraces | InvalidFormula
    | NeutralLossInvalid
    | ChargeWithoutNumber | ChargeInvalid
    | DeviationWithoutNumber | DeviationInvalid
    | UnparsedCharacters
    /** The source panics (an `unwrap` on nothing, a `todo!`, or a range moved past its end). */
    | Panics

  /** What a number scanner read: the characters it consumed, and the value, or
      nothing when the digits do not make a valid number of the requested type. */
  datatype Number<T> = Number(consumed: nat, value: Option<T>)

  /** `next_number`: the number at the start of `line[r]`, if there is one. */
  type Scanner<T> = (string, Range) -> Option<Number<T>>

  /** The collaborators the sub-parsers call. */
  datatype Readers = Readers(
    ordinal: Scanner<nat>,                         // unsigned ordinals and analyte numbers
    charge: Scanner<nat>,                          // the charge number
    deviation: Scanner<real>,                      // a signed decimal deviation
    aminoAcid: char -> bool,                       // the character names an amino acid
    unimod: string -> bool,                        // the name is found in Unimod
    reporter: string -> Option<Formula>,           // the table of named molecules
    formula: (string, Range) -> Option<Formula>,   // an mzPAF formula over a range
    losses: (string, Range) -> Option<nat>)        // neutral losses: characters consumed

  datatype Ion =
    | Unknown(unknownOrdinal: Option<nat>)
    | MainSeries(series: char, ordinal: nat)
    | Immonium(aminoAcid: char, modification: Option<string>)
    | Internal(first: nat, last: nat)
    | Named(name: string)
    | Precursor
    | Reporter(reporterFormula: Formula)
    | FormulaIon(formula: Formula)

  datatype Deviation = Ppm(ppm: real) | Absolute(mz: real)

  /** What an annotation holds. */
  datatype Annotation = Annotation(auxiliary: bool, analyte: Option<nat>, ion: Ion, charge: nat, deviation: Option<Deviation>)

  predicate ValidIn(line: string, r: Range)
  {
    r.start <= r.end <= |line|
  }

  function Text(line: string, r: Range): string
    requires ValidIn(line, r)
  {
    line[r.start..r.end]
  }

  /** `add_start`: the range without its first `k` characters; moving past the
      end makes the next slice of the line panic. */
  function Shift(line: string, r: Range, k: nat): (res: Result<Range, ParseError>)
    requires ValidIn(line, r)
    ensures res.Ok? <==> k <= r.end - r.start
    ensures res.Ok? ==> ValidIn(line, res.value) && res.value.start == r.start + k && res.value.end == r.end
  {
    if r.start + k <= r.end then Ok(Range(r.start + k, r.end)) else Err(Panics)
  }

  predicate IsDigit(c: char)
  {
    '0' <= c <= '9'
  }

  predicate IsSeries(c: char)
  {
    c == 'a' || c == 'b' || c == 'c' || c == 'x' || c == 'y' || c == 'z'
  }

  /** The number of characters from index `from` before the first `close`
      (all of them when there is none): what the source's `take_while` walks over. */
  function SpanUntil(text: string, from: nat, close: char): (k: nat)
    requires from <= |text|
    ensures from + k <= |text|
    ensures forall i :: from <= i < from + k ==> text[i] != close
    ensures from + k == |text| || text[from + k] == close
    decreases |text| - from
  {
    if from == |text| || text[from] == close then 0 else 1 + SpanUntil(text, from + 1, close)
  }

  // ---------------------------------------------------------------------------
  // Analyte number

  /** `parse_analyte_number` as written: the `@` is looked for at index
      `consumed` of the whole line, not of the range. */
  function ParseAnalyteNumberAsWritten(line: string, r: Range, rd: Readers): (res: Result<(Range, Option<nat>), ParseError>)
    requires ValidIn(line, r)
    ensures res.Ok? ==> ValidIn(line, res.value.0)
  {
    match rd.ordinal(line, r)
    case None => Ok((r, None))
    case Some(num) =>
      if !(num.consumed < |line| && line[num.consumed] == '@') then Err(AnalyteNumberWithoutAt)
      else if num.value.None? then Err(AnalyteNumberInvalid)
      else
        var rest :- Shift(line, r, num.consumed + 1);
        Ok((rest, num.value))
  }

  /** `parse_analyte_number` with the `@` looked for right after the number. */
  function ParseAnalyteNumber(line: string, r: Range, rd: Readers): (res: Result<(Range, Option<nat>), ParseError>)
    requires ValidIn(line, r)
    ensures res.Ok? ==> ValidIn(line, res.value.0)
  {
    match rd.ordinal(line, r)
    case None => Ok((r, None))
    case Some(num) =>
      if !(r.start + num.consumed < r.end && line[r.start + num.consumed] == '@') then Err(AnalyteNumberWithoutAt)
      else if num.value.None? then Err(AnalyteNumberInvalid)
      else
        var rest :- Shift(line, r, num.consumed + 1);
        Ok((rest, num.value))
  }

  /** Without a leading number the range is left as it is; with one, it must be
      followed by `@`, and the rest of the annotation starts after the `@`. */
  lemma ParseAnalyteNumberCases(line: string, r: Range, rd: Readers)
    requires ValidIn(line, r)
    ensures rd.ordinal(line, r).None? ==> ParseAnalyteNumber(line, r, rd) == Ok((r, None))
    ensures ParseAnalyteNumber(line, r, rd).Ok? && ParseAnalyteNumber(line, r, rd).value.1.Some? ==>
      var num := rd.ordinal(line, r).value;
      ParseAnalyteNumber(line, r, rd).value == (Range(r.start + num.consumed + 1, r.end), num.value)
      && line[r.start + num.consumed] == '@'
    ensures rd.ordinal(line, r).Some? ==>
      var k := r.start + rd.ordinal(line, r).value.consumed;
      !(k < r.end && line[k] == '@') ==> ParseAnalyteNumber(line, r, rd) == Err(AnalyteNumberWithoutAt)
  {
  }

  // ---------------------------------------------------------------------------
  // Ion

  /** `?` with an optional ordinal. */
  function UnknownIon(line: string, r: Range, rd: Readers): Result<(nat, Ion), ParseError>
    requires ValidIn(line, r) && r.start < r.end
  {
    match rd.ordinal(line, Range(r.start + 1, r.end))
    case None => Ok((1, Unknown(None)))
    case Some(n) => if n.value.None? then Err(OrdinalInvalid) else Ok((1 + n.consumed, Unknown(n.value)))
  }

  /** `a`, `b`, `c`, `x`, `y` or `z` with its ordinal. */
  function MainSeriesIon(line: string, r: Range, rd: Readers): Result<(nat, Ion), ParseError>
    requires ValidIn(line, r) && r.start < r.end
  {
    match rd.ordinal(line, Range(r.start + 1, r.end))
    case None => Err(MainSeriesWithoutOrdinal)
    case Some(n) => if n.value.None? then Err(OrdinalInvalid) else Ok((1 + n.consumed, MainSeries(line[r.start], n.value.value)))
  }

  /** `m<first>:<last>` as written: the separator is looked for at index
      `consumed` of the annotation, which is the last digit of the first ordinal. */
  function InternalIonAsWritten(line: string, r: Range, rd: Readers): Result<(nat, Ion), ParseError>
    requires ValidIn(line, r) && r.start < r.end
  {
    var text := Text(line, r);
    match rd.ordinal(line, Range(r.start + 1, r.end))
    case None => Err(InternalWithoutFirstOrdinal)
    case Some(first) =>
      if !(first.consumed < |text| && text[first.consumed] == ':') then Err(InternalWithoutSeparator)
      else
        var rest :- Shift(line, r, 2 + first.consumed);
        match rd.ordinal(line, rest)
        case None => Err(InternalWithoutSecondOrdinal)
        case Some(second) =>
          if first.value.None? || second.value.None? then Err(OrdinalInvalid)
          else Ok((2 + first.consumed + second.consumed, Internal(first.value.value, second.value.value)))
  }

  /** `m<first>:<last>` with the separator looked for right after the first ordinal. */
  function InternalIon(line: string, r: Range, rd: Readers): Result<(nat, Ion), ParseError>
    requires ValidIn(line, r) && r.start < r.end
  {
    var text := Text(line, r);
    match rd.ordinal(line, Range(r.start + 1, r.end))
    case None => Err(InternalWithoutFirstOrdinal)
    case Some(first) =>
      if !(1 + first.consumed < |text| && text[1 + first.consumed] == ':') then Err(InternalWithoutSeparator)
      else
        var rest :- Shift(line, r, 2 + first.consumed);
        match rd.ordinal(line, rest)
        case None => Err(InternalWithoutSecondOrdinal)
        case Some(second) =>
          if first.value.None? || second.value.None? then Err(OrdinalInvalid)
          else Ok((2 + first.consumed + second.consumed, Internal(first.value.value, second.value.value)))
  }

  /** `I<aa>` or `I<aa>[<Unimod name>]`; `bracketed` is what the source counts
      for a modification besides its name (0 as written, where the brackets are
      not counted; 2 when they are). */
  function ImmoniumIonCounting(line: string, r: Range, rd: Readers, bracketed: nat): Result<(nat, Ion), ParseError>
    requires ValidIn(line, r) && r.start < r.end
  {
    var text := Text(line, r);
    if |text| < 2 then Err(ImmoniumWithoutAminoAcid)
    else if |text| > 2 && text[2] == '[' then
      var span := SpanUntil(text, 3, ']');
      if span == 0 then Err(Panics)
      else if !rd.unimod(text[3..3 + span]) then Err(UnknownModification)
      else if !rd.aminoAcid(text[1]) then Err(UnknownAminoAcid)
      else Ok((2 + span + bracketed, Immonium(text[1], Some(text[3..3 + span]))))
    else if !rd.aminoAcid(text[1]) then Err(UnknownAminoAcid)
    else Ok((2, Immonium(text[1], None)))
  }

  /** `_{<name>}`. */
  function NamedIon(line: string, r: Range): Result<(nat, Ion), ParseError>
    requires ValidIn(line, r) && r.start < r.end
  {
    var text := Text(line, r);
    if !(|text| > 1 && text[1] == '{') then Err(NamedWithoutBraces)
    else
      var span := SpanUntil(text, 2, '}');
      if span == 0 then Err(Panics) else Ok((3 + span, Named(text[2..2 + span])))
  }

  /** `r[<name>]`, looked up in the table of named molecules. */
  function ReporterIon(line: string, r: Range, rd: Readers): Result<(nat, Ion), ParseError>
    requires ValidIn(line, r) && r.start < r.end
  {
    var text := Text(line, r);
    if !(|text| > 1 && text[1] == '[') then Err(ReporterWithoutBrackets)
    else
      var span := SpanUntil(text, 2, ']');
      if span == 0 then Err(Panics)
      else match rd.reporter(text[2..2 + span])
        case None => Err(UnknownReporter)
        case Some(f) => Ok((3 + span, Reporter(f)))
  }

  /** `f{<formula>}`. */
  function FormulaIonOf(line: string, r: Range, rd: Readers): Result<(nat, Ion), ParseError>
    requires ValidIn(line, r) && r.start < r.end
  {
    var text := Text(line, r);
    if !(|text| > 1 && text[1] == '{') then Err(FormulaWithoutBraces)
    else
      var span := SpanUntil(text, 2, '}');
      if span == 0 then Err(Panics)
      else match rd.formula(line, Range(r.start + 2, r.start + 2 + span))
        case None => Err(InvalidFormula)
        case Some(f) => Ok((3 + span, FormulaIon(f)))
  }

  /** `parse_ion` without the internal-ion and immonium branches, which differ
      between the source as written and its intended behaviour. */
  function OtherIon(line: string, r: Range, rd: Readers): Result<(nat, Ion), ParseError>
    requires ValidIn(line, r)
  {
    var text := Text(line, r);
    if |text| == 0 then Err(EmptyIon)
    else if text[0] == '?' then UnknownIon(line, r, rd)
    else if IsSeries(text[0]) then MainSeriesIon(line, r, rd)
    else if text[0] == '_' then NamedIon(line, r)
    else if text[0] == 'p' then Ok((1, Precursor))
    else if text[0] == 'r' then ReporterIon(line, r, rd)
    else if text[0] == 'f' then FormulaIonOf(line, r, rd)
    else if text[0] == 's' then Err(Panics)
    else Err(InvalidIonStart)
  }

  predicate HandledStart(c: char)
  {
    c == '?' || IsSeries(c) || c == 'I' || c == 'm' || c == '_' || c == 'p' || c == 'r' || c == 'f' || c == 's'
  }

  /** `parse_ion` as written. */
  function ParseIonAsWritten(line: string, r: Range, rd: Readers): Result<(nat, Ion), ParseError>
    requires ValidIn(line, r)
  {
    if r.start < r.end && line[r.start] == 'm' then InternalIonAsWritten(line, r, rd)
    else if r.start < r.end && line[r.start] == 'I' then ImmoniumIonCounting(line, r, rd, 0)
    else OtherIon(line, r, rd)
  }

  /** `parse_ion` with the internal-ion separator looked for after the first
      ordinal and an immonium modification's brackets counted. */
  function ParseIon(line: string, r: Range, rd: Readers): Result<(nat, Ion), ParseError>
    requires ValidIn(line, r)
  {
    if r.start < r.end && line[r.start] == 'm' then InternalIon(line, r, rd)
    else if r.start < r.end && line[r.start] == 'I' then ImmoniumIonCounting(line, r, rd, 2)
    else OtherIon(line, r, rd)
  }

  /** An empty range and an unknown first character are errors, a main-series
      ion needs its ordinal, `p` is the precursor, `s` (a SMILES ion) is not
      handled, and an ion always consumes at least one character. */
  lemma ParseIonCases(line: string, r: Range, rd: Readers)
    requires ValidIn(line, r)
    ensures r.start == r.end ==> ParseIon(line, r, rd) == Err(EmptyIon)
    ensures r.start < r.end && !HandledStart(line[r.start]) ==> ParseIon(line, r, rd) == Err(InvalidIonStart)
    ensures r.start < r.end && IsSeries(line[r.start]) ==>
      match rd.ordinal(line, Range(r.start + 1, r.end))
      case None => ParseIon(line, r, rd) == Err(MainSeriesWithoutOrdinal)
      case Some(n) => n.value.Some? ==> ParseIon(line, r, rd) == Ok((1 + n.consumed, MainSeries(line[r.start], n.value.value)))
    ensures r.start < r.end && line[r.start] == '?' && rd.ordinal(line, Range(r.start + 1, r.end)).None? ==>
      ParseIon(line, r, rd) == Ok((1, Unknown(None)))
    ensures r.start < r.end && line[r.start] == 'p' ==> ParseIon(line, r, rd) == Ok((1, Precursor))
    ensures r.start < r.end && line[r.start] == 's' ==> ParseIon(line, r, rd) == Err(Panics)
    ensures ParseIon(line, r, rd).Ok? ==> ParseIon(line, r, rd).value.0 >= 1
  {
    if r.start < r.end {
      assert Text(line, r)[0] == line[r.start];
    }
  }

  // ---------------------------------------------------------------------------
  // Charge and deviation

  /** `parse_charge`: `^z` gives `z`, nothing gives charge 1. */
  function ParseCharge(line: string, r: Range, rd: Readers): (res: Result<(nat, nat), ParseError>)
    requires ValidIn(line, r)
    ensures !(r.start < r.end && line[r.start] == '^') ==> res == Ok((0, 1))
    ensures res.Ok? && res.value.0 > 0 ==> line[r.start] == '^' && rd.charge(line, Range(r.start + 1, r.end)).Some?
  {
    if r.start < r.end && line[r.start] == '^' then
      match rd.charge(line, Range(r.start + 1, r.end))
      case None => Err(ChargeWithoutNumber)
      case Some(n) => if n.value.None? then Err(ChargeInvalid) else Ok((n.consumed + 1, n.value.value))
    else Ok((0, 1))
  }

  /** The text starts with `ppm` in any letter case (what the source checks
      after lower-casing the ASCII letters). */
  predicate StartsWithPpm(s: string)
  {
    |s| >= 3 && (s[0] == 'p' || s[0] == 'P') && (s[1] == 'p' || s[1] == 'P') && (s[2] == 'm' || s[2] == 'M')
  }

  /** `parse_deviation`: `/d` is an absolute deviation, `/dppm` (any case) a
      relative one, nothing is no deviation. */
  function ParseDeviation(line: string, r: Range, rd: Readers): Result<(nat, Option<Deviation>), ParseError>
    requires ValidIn(line, r)
  {
    if r.start < r.end && line[r.start] == '/' then
      match rd.deviation(line, Range(r.start + 1, r.end))
      case None => Err(DeviationWithoutNumber)
      case Some(n) =>
        if n.value.None? then Err(DeviationInvalid)
        else
          var rest :- Shift(line, r, 1 + n.consumed);
          if StartsWithPpm(Text(line, rest)) then Ok((1 + n.consumed + 3, Some(Ppm(n.value.value))))
          else Ok((1 + n.consumed, Some(Absolute(n.value.value))))
    else Ok((0, None))
  }

  /** No `/` means no deviation; otherwise a number must follow, and `ppm` in
      any letter case after it makes the deviation relative. */
  lemma ParseDeviationCases(line: string, r: Range, rd: Readers)
    requires ValidIn(line, r)
    ensures !(r.start < r.end && line[r.start] == '/') ==> ParseDeviation(line, r, rd) == Ok((0, None))
    ensures r.start < r.end && line[r.start] == '/' && rd.deviation(line, Range(r.start + 1, r.end)).None? ==>
      ParseDeviation(line, r, rd) == Err(DeviationWithoutNumber)
    ensures ParseDeviation(line, r, rd).Ok? && ParseDeviation(line, r, rd).value.1.Some? ==>
      var n := rd.deviation(line, Range(r.start + 1, r.end)).value;
      r.start + 1 + n.consumed <= r.end && n.value.Some?
      && if StartsWithPpm(line[r.start + 1 + n.consumed..r.end])
         then ParseDeviation(line, r, rd).value == (1 + n.consumed + 3, Some(Ppm(n.value.value)))
         else ParseDeviation(line, r, rd).value == (1 + n.consumed, Some(Absolute(n.value.value)))
  {
  }

  function ReadLosses(line: string, r: Range, rd: Readers): Result<nat, ParseError>
  {
    match rd.losses(line, r)
    case None => Err(NeutralLossInvalid)
    case Some(k) => Ok(k)
  }

  // ---------------------------------------------------------------------------
  // Annotation

  /** `parse_annotation` as written: each later sub-parser starts at the
      annotation's start plus only the previous sub-parser's own count, and
      the final check compares only the deviation's count with the length. */
  function ParseAnnotationAsWritten(line: string, r: Range, rd: Readers): Result<Annotation, ParseError>
    requires ValidIn(line, r)
  {
    var auxiliary := r.start < r.end && line[r.start] == '&';
    var left := if auxiliary then Range(r.start + 1, r.end) else r;
    var analyte :- ParseAnalyteNumberAsWritten(line, left, rd);
    var ion :- ParseIonAsWritten(line, analyte.0, rd);
    var afterIon :- Shift(line, r, ion.0);
    var losses :- ReadLosses(line, afterIon, rd);
    var afterLosses :- Shift(line, r, losses);
    var charge :- ParseCharge(line, afterLosses, rd);
    var afterCharge :- Shift(line, r, charge.0);
    var deviation :- ParseDeviation(line, afterCharge, rd);
    if deviation.0 == r.end - r.start then Ok(Annotation(auxiliary, analyte.1, ion.1, charge.1, deviation.1))
    else Err(UnparsedCharacters)
  }

  /** `parse_annotation` with each sub-parser starting where the previous one
      stopped, accepted when the last one stops at the end. */
  function ParseAnnotation(line: string, r: Range, rd: Readers): Result<Annotation, ParseError>
    requires ValidIn(line, r)
  {
    var auxiliary := r.start < r.end && line[r.start] == '&';
    var left := if auxiliary then Range(r.start + 1, r.end) else r;
    var analyte :- ParseAnalyteNumber(line, left, rd);
    var rest :- ParseIonOnwards(line, analyte.0, rd);
    Ok(Annotation(auxiliary, analyte.1, rest.0, rest.1, rest.2))
  }

  /** The ion, then the neutral losses, the charge and the deviation. */
  function ParseIonOnwards(line: string, r: Range, rd: Readers): Result<(Ion, nat, Option<Deviation>), ParseError>
    requires ValidIn(line, r)
  {
    var ion :- ParseIon(line, r, rd);
    ParseAfterIon(line, r, rd, ion.0, ion.1)
  }

  /** What follows an ion that took `k` characters of the range. */
  function ParseAfterIon(line: string, r: Range, rd: Readers, k: nat, ion: Ion): Result<(Ion, nat, Option<Deviation>), ParseError>
    requires ValidIn(line, r)
  {
    var afterIon :- Shift(line, r, k);
    var rest :- ParseLossesOnwards(line, afterIon, rd);
    Ok((ion, rest.0, rest.1))
  }

  /** The neutral losses, the charge and the deviation, which must end the range. */
  function ParseLossesOnwards(line: string, r: Range, rd: Readers): Result<(nat, Option<Deviation>), ParseError>
    requires ValidIn(line, r)
  {
    var losses :- ReadLosses(line, r, rd);
    var afterLosses :- Shift(line, r, losses);
    var charge :- ParseCharge(line, afterLosses, rd);
    var afterCharge :- Shift(line, afterLosses, charge.0);
    var deviation :- ParseDeviation(line, afterCharge, rd);
    var end :- Shift(line, afterCharge, deviation.0);
    if end.start == r.end then Ok((charge.1, deviation.1)) else Err(UnparsedCharacters)
  }

  // ---------------------------------------------------------------------------
  // Reference readers: decimal digits, no neutral losses

  /** The number of decimal digits from position `i` on, before `e`. */
  function DigitRun(line: string, i: nat, e: nat): (k: nat)
    requires i <= e <= |line|
    ensures i + k <= e
    decreases e - i
  {
    if i == e || !IsDigit(line[i]) then 0 else 1 + DigitRun(line, i + 1, e)
  }

  /** The value of the decimal digits at positions `i` up to (not including) `j`. */
  function DigitValue(line: string, i: nat, j: nat): nat
    requires i <= j <= |line|
    decreases j - i
  {
    if j == i then 0 else DigitValue(line, i, j - 1) * 10 + DigitOf(line[j - 1])
  }

  function DigitOf(c: char): nat
  {
    if IsDigit(c) then (c - '0') as nat else 0
  }

  /** Reads the leading decimal digits of the range as an unbounded number. */
  function ScanDigits(line: string, r: Range): (res: Option<Number<nat>>)
    ensures res.Some? ==> ValidIn(line, r) && 0 < res.value.consumed <= r.end - r.start && res.value.value.Some?
  {
    if !ValidIn(line, r) then None
    else
      var k := DigitRun(line, r.start, r.end);
      if k == 0 then None
      else Some(Number(k, Some(DigitValue(line, r.start, r.start + k))))
  }

  /** Reads the leading decimal digits of the range as a whole-number real. */
  function ScanWhole(line: string, r: Range): Option<Number<real>>
  {
    match ScanDigits(line, r)
    case None => None
    case Some(n) => Some(Number(n.consumed, Some(n.value.value as real)))
  }

  /** Consumes nothing unless a neutral loss starts the range (which it does not read). */
  function NoLosses(line: string, r: Range): Option<nat>
  {
    if ValidIn(line, r) && r.start < r.end && (line[r.start] == '+' || line[r.start] == '-') then None else Some(0)
  }

  /** The scanners read decimal digits and no neutral losses are read; the
      lookups are left free. */
  ghost predicate DecimalReaders(rd: Readers)
  {
    && (forall line, r {:trigger ScanDigits(line, r)} :: rd.ordinal(line, r) == ScanDigits(line, r))
    && (forall line, r {:trigger ScanDigits(line, r)} :: rd.charge(line, r) == ScanDigits(line, r))
    && (forall line, r {:trigger ScanWhole(line, r)} :: rd.deviation(line, r) == ScanWhole(line, r))
    && (forall line, r {:trigger NoLosses(line, r)} :: rd.losses(line, r) == NoLosses(line, r))
  }

  lemma {:induction false} DigitRunOf(line: string, i: nat, j: nat, e: nat)
    requires i <= j <= e <= |line|
    requires forall p :: i <= p < j ==> IsDigit(line[p])
    requires j == e || !IsDigit(line[j])
    ensures DigitRun(line, i, e) == j - i
    decreases j - i
  {
    if i < j {
      DigitRunOf(line, i + 1, j, e);
    }
  }

  lemma {:induction false} DigitValueOf(line: string, i: nat, digits: string)
    requires i + |digits| <= |line|
    requires forall p :: 0 <= p < |digits| ==> '0' <= digits[p] <= '9' && line[i + p] == digits[p]
    ensures DigitValue(line, i, i + |digits|) == DigitsValue(digits)
    decreases |digits|
  {
    if |digits| > 0 {
      var front := digits[..|digits| - 1];
      DigitValueOf(line, i, front);
      assert line[i + |digits| - 1] == digits[|digits| - 1];
    }
  }

  /** The text `t` is spelled out in `line` from position `i` on. */
  predicate Spells(line: string, i: nat, t: string)
  {
    i + |t| <= |line| && SpellsFrom(line, i, t, 0)
  }

  /** The characters of `t` from index `k` on are where `Spells` puts them. */
  predicate SpellsFrom(line: string, i: nat, t: string, k: nat)
    requires i + |t| <= |line|
    decreases |t| - k
  {
    k >= |t| || (line[i + k] == t[k] && SpellsFrom(line, i, t, k + 1))
  }

  /** The range `r` of `line` holds exactly the text `t`. */
  predicate Holds(line: string, r: Range, t: string)
  {
    ValidIn(line, r) && r.start + |t| == r.end && Spells(line, r.start, t)
  }

  lemma SpellsAt(line: string, i: nat, t: string, k: nat)
    requires Spells(line, i, t) && k < |t|
    ensures i + k < |line| && line[i + k] == t[k]
  {
    SpellsFromAt(line, i, t, 0, k);
  }

  lemma {:induction false} SpellsFromAt(line: string, i: nat, t: string, j: nat, k: nat)
    requires i + |t| <= |line| && SpellsFrom(line, i, t, j) && j <= k < |t|
    ensures line[i + k] == t[k]
    decreases k - j
  {
    if j < k {
      SpellsFromAt(line, i, t, j + 1, k);
    }
  }

  /** A text is spelled out where each of its characters is. */
  lemma SpellsOf(line: string, i: nat, t: string)
    requires i + |t| <= |line|
    requires forall p :: 0 <= p < |t| ==> line[i + p] == t[p]
    ensures Spells(line, i, t)
  {
    SpellsFromOf(line, i, t, 0);
  }

  lemma {:induction false} SpellsFromOf(line: string, i: nat, t: string, j: nat)
    requires i + |t| <= |line|
    requires forall p :: j <= p < |t| ==> line[i + p] == t[p]
    ensures SpellsFrom(line, i, t, j)
    decreases |t| - j
  {
    if j < |t| {
      SpellsFromOf(line, i, t, j + 1);
    }
  }

  lemma SpellsSplit(line: string, i: nat, x: string, y: string)
    requires Spells(line, i, x + y)
    ensures Spells(line, i, x) && Spells(line, i + |x|, y)
  {
    forall p | 0 <= p < |x|
      ensures line[i + p] == x[p]
    {
      SpellsAt(line, i, x + y, p);
    }
    forall p | 0 <= p < |y|
      ensures line[i + |x| + p] == y[p]
    {
      SpellsAt(line, i, x + y, |x| + p);
    }
    SpellsOf(line, i, x);
    SpellsOf(line, i + |x|, y);
  }

  lemma SpellsChar(line: string, i: nat, c: char, t: string)
    requires Spells(line, i, [c] + t)
    ensures i < |line| && line[i] == c && Spells(line, i + 1, t)
  {
    SpellsSplit(line, i, [c], t);
    SpellsAt(line, i, [c], 0);
  }

  lemma HoldsText(line: string, r: Range, t: string)
    requires Holds(line, r, t)
    ensures Text(line, r) == t
  {
    forall p | 0 <= p < |t|
      ensures Text(line, r)[p] == t[p]
    {
      SpellsAt(line, r.start, t, p);
    }
  }

  /** The scanner reads back a printed number that is not followed by a digit,
      and the text after the number starts where its digits end. */
  lemma SpellsNumber(line: string, i: nat, e: nat, n: nat, rest: string)
    requires Spells(line, i, Decimal(n) + rest) && i + |Decimal(n)| + |rest| == e
    requires |rest| == 0 || !IsDigit(rest[0])
    ensures ScanDigits(line, Range(i, e)) == Some(Number(|Decimal(n)|, Some(n)))
    ensures Spells(line, i + |Decimal(n)|, rest)
  {
    var digits := Decimal(n);
    SpellsSplit(line, i, digits, rest);
    if |rest| > 0 {
      SpellsAt(line, i + |digits|, rest, 0);
    }
    forall p | 0 <= p < |digits|
      ensures line[i + p] == digits[p]
    {
      SpellsAt(line, i, digits, p);
    }
    forall p | i <= p < i + |digits|
      ensures IsDigit(line[p])
    {
      assert line[i + (p - i)] == digits[p - i];
    }
    DigitRunOf(line, i, i + |digits|, e);
    DigitValueOf(line, i, digits);
    DecimalRoundTrip(n);
  }

  lemma ScanDigitsNone(line: string, r: Range)
    requires ValidIn(line, r) && (r.start == r.end || !IsDigit(line[r.start]))
    ensures ScanDigits(line, r).None?
  {
  }

  // ---------------------------------------------------------------------------
  // Printing and the round trip

  /** An ion the annotation text can carry and the lookups accept. */
  predicate Printable(ion: Ion, rd: Readers)
  {
    match ion
    case Unknown(_) => true
    case MainSeries(c, _) => IsSeries(c)
    case Immonium(aa, m) => rd.aminoAcid(aa) && (m.Some? ==> |m.value| > 0 && ']' !in m.value && rd.unimod(m.value))
    case Internal(_, _) => true
    case Named(name) => |name| > 0 && '}' !in name
    case Precursor => true
    case Reporter(_) => false
    case FormulaIon(_) => false
  }

  /** The text of an ion followed by `rest`. */
  function PrintIonThen(ion: Ion, rest: string): string
  {
    match ion
    case Unknown(None) => "?" + rest
    case Unknown(Some(n)) => "?" + (Decimal(n) + rest)
    case MainSeries(c, n) => [c] + (Decimal(n) + rest)
    case Immonium(aa, None) => ['I', aa] + rest
    case Immonium(aa, Some(m)) => ['I', aa, '['] + (m + ("]" + rest))
    case Internal(a, b) => "m" + (Decimal(a) + (":" + (Decimal(b) + rest)))
    case Named(name) => "_{" + (name + ("}" + rest))
    case Precursor => "p" + rest
    case Reporter(_) => rest
    case FormulaIon(_) => rest
  }

  /** The analyte number `n@`, if any, followed by `rest`. */
  function AnalyteThen(n: Option<nat>, rest: string): string
  {
    if n.Some? then Decimal(n.value) + ("@" + rest) else rest
  }

  /** A deviation whose magnitude is a whole number, printable with decimal digits. */
  predicate WholeDeviation(d: Deviation)
  {
    match d
    case Ppm(v) => v >= 0.0 && v.Floor as real == v
    case Absolute(v) => v >= 0.0 && v.Floor as real == v
  }

  /** The magnitude of a deviation, whichever its unit. */
  function Magnitude(d: Deviation): real
  {
    match d
    case Ppm(v) => v
    case Absolute(v) => v
  }

  /** The unit written after a deviation's number: `ppm` or nothing. */
  function Unit(d: Deviation): string
  {
    if d.Ppm? then "ppm" else ""
  }

  /** The deviation text: `/`, the whole number and the unit. */
  function PrintDeviation(d: Option<Deviation>): string
    requires d.Some? ==> WholeDeviation(d.value)
  {
    if d.None? then "" else "/" + (Decimal(Magnitude(d.value).Floor) + Unit(d.value))
  }

  predicate PrintableAnnotation(a: Annotation, rd: Readers)
  {
    Printable(a.ion, rd) && (a.deviation.Some? ==> WholeDeviation(a.deviation.value))
  }

  /** The annotation text: `&`, `n@`, the ion, `^z` and the deviation. */
  function PrintAnnotation(a: Annotation): string
    requires a.deviation.Some? ==> WholeDeviation(a.deviation.value)
  {
    var analyte := AnalyteThen(a.analyte, PrintIonThen(a.ion, "^" + (Decimal(a.charge) + PrintDeviation(a.deviation))));
    if a.auxiliary then "&" + analyte else analyte
  }

  /** The ion sub-parser reads back a printed ion followed by the charge, and
      stops where the charge begins. */
  lemma ParseIonReads(line: string, r: Range, ion: Ion, rest: string, rd: Readers)
    requires DecimalReaders(rd) && Printable(ion, rd)
    requires Holds(line, r, PrintIonThen(ion, rest)) && |rest| > 0 && rest[0] == '^'
    ensures ParseIon(line, r, rd) == Ok((r.end - r.start - |rest|, ion))
  {
    match ion
    case Unknown(_) => UnknownReads(line, r, ion, rest, rd);
    case MainSeries(_, _) => MainSeriesReads(line, r, ion, rest, rd);
    case Immonium(_, _) => ImmoniumReads(line, r, ion, rest, rd);
    case Internal(_, _) => InternalReads(line, r, ion, rest, rd);
    case Named(_) => NamedReads(line, r, ion, rest);
    case Precursor => SpellsChar(line, r.start, 'p', rest);
    ParseIonDispatch(line, r, rd);
  }

  /** Which branch of the ion sub-parser the first character selects. */
  lemma ParseIonDispatch(line: string, r: Range, rd: Readers)
    requires ValidIn(line, r) && r.start < r.end
    ensures line[r.start] == '?' ==> ParseIon(line, r, rd) == UnknownIon(line, r, rd)
    ensures IsSeries(line[r.start]) ==> ParseIon(line, r, rd) == MainSeriesIon(line, r, rd)
    ensures line[r.start] == 'I' ==> ParseIon(line, r, rd) == ImmoniumIonCounting(line, r, rd, 2)
    ensures line[r.start] == 'm' ==> ParseIon(line, r, rd) == InternalIon(line, r, rd)
    ensures line[r.start] == '_' ==> ParseIon(line, r, rd) == NamedIon(line, r)
    ensures line[r.start] == 'p' ==> ParseIon(line, r, rd) == Ok((1, Precursor))
  {
    assert Text(line, r)[0] == line[r.start];
  }

  lemma UnknownReads(line: string, r: Range, ion: Ion, rest: string, rd: Readers)
    requires DecimalReaders(rd) && ion.Unknown?
    requires Holds(line, r, PrintIonThen(ion, rest)) && |rest| > 0 && rest[0] == '^'
    ensures r.start < r.end && line[r.start] == '?' && UnknownIon(line, r, rd) == Ok((r.end - r.start - |rest|, ion))
  {
    var tail := Range(r.start + 1, r.end);
    match ion.unknownOrdinal
    case None =>
      SpellsChar(line, r.start, '?', rest);
      SpellsAt(line, r.start + 1, rest, 0);
      ScanDigitsNone(line, tail);
      assert rd.ordinal(line, tail) == ScanDigits(line, tail);
    case Some(n) =>
      SpellsChar(line, r.start, '?', Decimal(n) + rest);
      SpellsNumber(line, r.start + 1, r.end, n, rest);
      assert rd.ordinal(line, tail) == ScanDigits(line, tail);
  }

  lemma MainSeriesReads(line: string, r: Range, ion: Ion, rest: string, rd: Readers)
    requires DecimalReaders(rd) && ion.MainSeries? && IsSeries(ion.series)
    requires Holds(line, r, PrintIonThen(ion, rest)) && |rest| > 0 && rest[0] == '^'
    ensures r.start < r.end && IsSeries(line[r.start]) && MainSeriesIon(line, r, rd) == Ok((r.end - r.start - |rest|, ion))
  {
    var tail := Range(r.start + 1, r.end);
    SpellsChar(line, r.start, ion.series, Decimal(ion.ordinal) + rest);
    SpellsNumber(line, r.start + 1, r.end, ion.ordinal, rest);
    assert rd.ordinal(line, tail) == ScanDigits(line, tail);
  }

  lemma ImmoniumReads(line: string, r: Range, ion: Ion, rest: string, rd: Readers)
    requires DecimalReaders(rd) && ion.Immonium? && Printable(ion, rd)
    requires Holds(line, r, PrintIonThen(ion, rest)) && |rest| > 0 && rest[0] == '^'
    ensures r.start < r.end && line[r.start] == 'I' && ImmoniumIonCounting(line, r, rd, 2) == Ok((r.end - r.start - |rest|, ion))
  {
    HoldsText(line, r, PrintIonThen(ion, rest));
    var text := Text(line, r);
    assert line[r.start] == text[0];
    match ion.modification
    case None =>
      assert text[1] == ion.aminoAcid && text[2] == '^';
    case Some(m) =>
      assert text[1] == ion.aminoAcid && text[2] == '[';
      assert text[3..3 + |m|] == m;
      assert text[3 + |m|] == ']';
      assert forall i :: 3 <= i < 3 + |m| ==> text[i] == m[i - 3];
      SpanUntilStops(text, 3, ']', |m|);
  }

  lemma InternalReads(line: string, r: Range, ion: Ion, rest: string, rd: Readers)
    requires DecimalReaders(rd) && ion.Internal?
    requires Holds(line, r, PrintIonThen(ion, rest)) && |rest| > 0 && rest[0] == '^'
    ensures r.start < r.end && line[r.start] == 'm' && InternalIon(line, r, rd) == Ok((r.end - r.start - |rest|, ion))
  {
    InternalLayout(line, r, ion.first, ion.last, rest, rd);
    InternalIonWhen(line, r, rd, ion.first, |Decimal(ion.first)|, ion.last, |Decimal(ion.last)|);
  }

  /** Where the separator and the two ordinals of a printed internal ion are. */
  lemma InternalLayout(line: string, r: Range, a: nat, b: nat, rest: string, rd: Readers)
    requires DecimalReaders(rd)
    requires Holds(line, r, "m" + (Decimal(a) + (":" + (Decimal(b) + rest)))) && |rest| > 0 && rest[0] == '^'
    ensures r.start < r.end && line[r.start] == 'm'
    ensures rd.ordinal(line, Range(r.start + 1, r.end)) == Some(Number(|Decimal(a)|, Some(a)))
    ensures r.start + 1 + |Decimal(a)| < r.end && line[r.start + 1 + |Decimal(a)|] == ':'
    ensures rd.ordinal(line, Range(r.start + 1 + |Decimal(a)| + 1, r.end)) == Some(Number(|Decimal(b)|, Some(b)))
    ensures r.end - r.start - |rest| == 2 + |Decimal(a)| + |Decimal(b)|
  {
    var da, db := Decimal(a), Decimal(b);
    SpellsChar(line, r.start, 'm', da + (":" + (db + rest)));
    SpellsNumber(line, r.start + 1, r.end, a, ":" + (db + rest));
    SpellsChar(line, r.start + 1 + |da|, ':', db + rest);
    SpellsNumber(line, r.start + 1 + |da| + 1, r.end, b, rest);
  }

  /** What the internal-fragment branch returns once both ordinals and the
      separator are where they should be. */
  lemma InternalIonWhen(line: string, r: Range, rd: Readers, a: nat, na: nat, b: nat, nb: nat)
    requires ValidIn(line, r) && r.start < r.end
    requires rd.ordinal(line, Range(r.start + 1, r.end)) == Some(Number(na, Some(a)))
    requires r.start + 1 + na < r.end && line[r.start + 1 + na] == ':'
    requires rd.ordinal(line, Range(r.start + 1 + na + 1, r.end)) == Some(Number(nb, Some(b)))
    ensures InternalIon(line, r, rd) == Ok((2 + na + nb, Internal(a, b)))
  {
    assert Text(line, r)[1 + na] == line[r.start + 1 + na];
    assert Range(r.start + (2 + na), r.end) == Range(r.start + 1 + na + 1, r.end);
  }

  lemma NamedReads(line: string, r: Range, ion: Ion, rest: string)
    requires ion.Named? && |ion.name| > 0 && '}' !in ion.name
    requires Holds(line, r, PrintIonThen(ion, rest)) && |rest| > 0 && rest[0] == '^'
    ensures r.start < r.end && line[r.start] == '_' && NamedIon(line, r) == Ok((r.end - r.start - |rest|, ion))
  {
    HoldsText(line, r, PrintIonThen(ion, rest));
    var text := Text(line, r);
    var name := ion.name;
    assert line[r.start] == text[0];
    assert text[1] == '{' && text[2 + |name|] == '}';
    assert text[2..2 + |name|] == name;
    assert forall i :: 2 <= i < 2 + |name| ==> text[i] == name[i - 2];
    SpanUntilStops(text, 2, '}', |name|);
  }

  lemma {:induction false} SpanUntilStops(text: string, from: nat, close: char, k: nat)
    requires from + k < |text| && text[from + k] == close
    requires forall i :: from <= i < from + k ==> text[i] != close
    ensures SpanUntil(text, from, close) == k
    decreases k
  {
    if k > 0 {
      SpanUntilStops(text, from + 1, close, k - 1);
    }
  }

  /** The analyte sub-parser reads back a printed analyte number (or its
      absence) and stops where the ion begins. */
  lemma AnalyteReads(line: string, r: Range, n: Option<nat>, rest: string, rd: Readers)
    requires DecimalReaders(rd)
    requires Holds(line, r, AnalyteThen(n, rest)) && |rest| > 0 && !IsDigit(rest[0])
    ensures ParseAnalyteNumber(line, r, rd) == Ok((Range(r.end - |rest|, r.end), n))
    ensures Holds(line, Range(r.end - |rest|, r.end), rest)
  {
    if n.None? {
      SpellsAt(line, r.start, rest, 0);
      ScanDigitsNone(line, r);
      assert rd.ordinal(line, r) == ScanDigits(line, r);
    } else {
      var d := Decimal(n.value);
      SpellsNumber(line, r.start, r.end, n.value, "@" + rest);
      SpellsChar(line, r.start + |d|, '@', rest);
      assert rd.ordinal(line, r) == ScanDigits(line, r);
    }
  }

  /** The charge sub-parser reads back `^z` and stops where the deviation begins. */
  lemma ParseChargeReads(line: string, r: Range, z: nat, rest: string, rd: Readers)
    requires DecimalReaders(rd)
    requires Holds(line, r, "^" + (Decimal(z) + rest)) && (|rest| == 0 || rest[0] == '/')
    ensures ParseCharge(line, r, rd) == Ok((r.end - r.start - |rest|, z))
    ensures Holds(line, Range(r.end - |rest|, r.end), rest)
  {
    var tail := Range(r.start + 1, r.end);
    SpellsChar(line, r.start, '^', Decimal(z) + rest);
    SpellsNumber(line, r.start + 1, r.end, z, rest);
    assert rd.charge(line, tail) == ScanDigits(line, tail);
  }

  /** The deviation sub-parser reads back a printed deviation that ends the range. */
  lemma ParseDeviationReads(line: string, r: Range, d: Option<Deviation>, rd: Readers)
    requires DecimalReaders(rd)
    requires d.Some? ==> WholeDeviation(d.value)
    requires Holds(line, r, PrintDeviation(d))
    ensures ParseDeviation(line, r, rd) == Ok((|PrintDeviation(d)|, d))
  {
    if d.Some? {
      var v := Magnitude(d.value);
      var tail := Range(r.start + 1, r.end);
      DeviationLayout(line, r, v.Floor, Unit(d.value));
      assert rd.deviation(line, tail) == ScanWhole(line, tail) == Some(Number(|Decimal(v.Floor)|, Some(v)));
      ParseDeviationWhen(line, r, rd, v, |Decimal(v.Floor)|);
    }
  }

  /** Where the number and the unit of a printed deviation lie. */
  lemma DeviationLayout(line: string, r: Range, n: nat, unit: string)
    requires Holds(line, r, "/" + (Decimal(n) + unit)) && (|unit| == 0 || !IsDigit(unit[0]))
    ensures r.start < r.end && line[r.start] == '/' && r.start + 1 + |Decimal(n)| + |unit| == r.end
    ensures ScanDigits(line, Range(r.start + 1, r.end)) == Some(Number(|Decimal(n)|, Some(n)))
    ensures Text(line, Range(r.start + 1 + |Decimal(n)|, r.end)) == unit
  {
    SpellsChar(line, r.start, '/', Decimal(n) + unit);
    SpellsNumber(line, r.start + 1, r.end, n, unit);
    HoldsText(line, Range(r.start + 1 + |Decimal(n)|, r.end), unit);
  }

  /** What the deviation sub-parser returns once the number after `/` is read. */
  lemma ParseDeviationWhen(line: string, r: Range, rd: Readers, v: real, k: nat)
    requires ValidIn(line, r) && r.start < r.end && line[r.start] == '/' && r.start + 1 + k <= r.end
    requires rd.deviation(line, Range(r.start + 1, r.end)) == Some(Number(k, Some(v)))
    ensures StartsWithPpm(Text(line, Range(r.start + 1 + k, r.end))) ==> ParseDeviation(line, r, rd) == Ok((4 + k, Some(Ppm(v))))
    ensures !StartsWithPpm(Text(line, Range(r.start + 1 + k, r.end))) ==> ParseDeviation(line, r, rd) == Ok((1 + k, Some(Absolute(v))))
  {
  }

  /** A printable ion's text starts with none of the characters that end the
      optional parts before it. */
  lemma PrintIonStart(ion: Ion, rest: string, rd: Readers)
    requires Printable(ion, rd)
    ensures |PrintIonThen(ion, rest)| > |rest|
    ensures !IsDigit(PrintIonThen(ion, rest)[0]) && PrintIonThen(ion, rest)[0] != '&'
  {
  }

  /** The text after a printed ion starts where the ion's own text ends. */
  lemma IonRest(line: string, i: nat, ion: Ion, rest: string, j: nat)
    requires Spells(line, i, PrintIonThen(ion, rest)) && j == i + |PrintIonThen(ion, rest)| - |rest|
    ensures Spells(line, j, rest)
  {
    match ion
    case Unknown(None) => SpellsChar(line, i, '?', rest);
    case Unknown(Some(n)) =>
      SpellsChar(line, i, '?', Decimal(n) + rest);
      SpellsSplit(line, i + 1, Decimal(n), rest);
    case MainSeries(c, n) =>
      SpellsChar(line, i, c, Decimal(n) + rest);
      SpellsSplit(line, i + 1, Decimal(n), rest);
    case Immonium(aa, None) => SpellsSplit(line, i, ['I', aa], rest);
    case Immonium(aa, Some(m)) =>
      SpellsSplit(line, i, ['I', aa, '['], m + ("]" + rest));
      SpellsSplit(line, i + 3, m, "]" + rest);
      SpellsChar(line, i + 3 + |m|, ']', rest);
    case Internal(a, b) =>
      SpellsChar(line, i, 'm', Decimal(a) + (":" + (Decimal(b) + rest)));
      SpellsSplit(line, i + 1, Decimal(a), ":" + (Decimal(b) + rest));
      SpellsChar(line, i + 1 + |Decimal(a)|, ':', Decimal(b) + rest);
      SpellsSplit(line, i + 1 + |Decimal(a)| + 1, Decimal(b), rest);
    case Named(name) =>
      SpellsSplit(line, i, "_{", name + ("}" + rest));
      SpellsSplit(line, i + 2, name, "}" + rest);
      SpellsChar(line, i + 2 + |name|, '}', rest);
    case Precursor => SpellsChar(line, i, 'p', rest);
    case Reporter(_) =>
    case FormulaIon(_) =>
  }

  /** Parsing a printed annotation gives it back: every sub-parser stops
      where the next part of the text begins and the last one at the end. */
  lemma AnnotationRoundTrip(a: Annotation, rd: Readers)
    requires DecimalReaders(rd) && PrintableAnnotation(a, rd)
    ensures ValidIn(PrintAnnotation(a), Range(0, |PrintAnnotation(a)|))
    ensures ParseAnnotation(PrintAnnotation(a), Range(0, |PrintAnnotation(a)|), rd) == Ok(a)
  {
    var line := PrintAnnotation(a);
    var charge := "^" + (Decimal(a.charge) + PrintDeviation(a.deviation));
    var analyte := AnalyteThen(a.analyte, PrintIonThen(a.ion, charge));
    PrintIonStart(a.ion, charge, rd);
    SpellsOf(line, 0, line);
    if a.auxiliary {
      assert line == "&" + analyte;
      SpellsChar(line, 0, '&', analyte);
    } else {
      assert line == analyte;
      assert line[0] != '&' by {
        if a.analyte.Some? {
          assert line[0] == Decimal(a.analyte.value)[0];
        }
      }
    }
    AnnotationReads(line, a, charge, rd);
  }

  /** A line whose text after the optional `&` is the analyte number, the ion,
      the charge and the deviation of `a` parses to `a`. */
  lemma AnnotationReads(line: string, a: Annotation, charge: string, rd: Readers)
    requires DecimalReaders(rd) && PrintableAnnotation(a, rd)
    requires charge == "^" + (Decimal(a.charge) + PrintDeviation(a.deviation))
    requires (0 < |line| && line[0] == '&') == a.auxiliary
    requires Holds(line, Range(if a.auxiliary then 1 else 0, |line|), AnalyteThen(a.analyte, PrintIonThen(a.ion, charge)))
    ensures ParseAnnotation(line, Range(0, |line|), rd) == Ok(a)
  {
    var ion := PrintIonThen(a.ion, charge);
    var left := Range(if a.auxiliary then 1 else 0, |line|);
    var r := Range(|line| - |ion|, |line|);
    PrintIonStart(a.ion, charge, rd);
    AnalyteReads(line, left, a.analyte, ion, rd);
    IonOnwardsReads(line, r, a.ion, charge, a.charge, a.deviation, rd);
    AnnotationWhen(line, rd, a, left, r);
  }

  /** What `ParseAnnotation` returns once the analyte number and what follows it are read. */
  lemma AnnotationWhen(line: string, rd: Readers, a: Annotation, left: Range, r: Range)
    requires (0 < |line| && line[0] == '&') == a.auxiliary
    requires left == Range(if a.auxiliary then 1 else 0, |line|) && ValidIn(line, r)
    requires ParseAnalyteNumber(line, left, rd) == Ok((r, a.analyte))
    requires ParseIonOnwards(line, r, rd) == Ok((a.ion, a.charge, a.deviation))
    ensures ParseAnnotation(line, Range(0, |line|), rd) == Ok(a)
  {
  }

  /** The sub-parsers after the analyte number read back the ion, the charge
      and the deviation, and stop at the end of the range. */
  lemma IonOnwardsReads(line: string, r: Range, ion: Ion, charge: string, z: nat, d: Option<Deviation>, rd: Readers)
    requires DecimalReaders(rd) && Printable(ion, rd) && (d.Some? ==> WholeDeviation(d.value))
    requires charge == "^" + (Decimal(z) + PrintDeviation(d))
    requires Holds(line, r, PrintIonThen(ion, charge))
    ensures ParseIonOnwards(line, r, rd) == Ok((ion, z, d))
  {
    PrintIonStart(ion, charge, rd);
    var k := r.end - r.start - |charge|;
    ParseIonReads(line, r, ion, charge, rd);
    AfterIonReads(line, r, ion, charge, z, d, rd, k);
    IonThenRestWhen(line, r, rd, k, ion, z, d);
  }

  /** The ion and what follows it are read one after the other. */
  lemma IonThenRestWhen(line: string, r: Range, rd: Readers, k: nat, ion: Ion, z: nat, d: Option<Deviation>)
    requires ValidIn(line, r) && ParseIon(line, r, rd) == Ok((k, ion))
    requires ParseAfterIon(line, r, rd, k, ion) == Ok((ion, z, d))
    ensures ParseIonOnwards(line, r, rd) == Ok((ion, z, d))
  {
  }

  /** What follows a printed ion is read back from where the ion ends. */
  lemma AfterIonReads(line: string, r: Range, ion: Ion, charge: string, z: nat, d: Option<Deviation>, rd: Readers, k: nat)
    requires DecimalReaders(rd) && (d.Some? ==> WholeDeviation(d.value))
    requires charge == "^" + (Decimal(z) + PrintDeviation(d))
    requires Holds(line, r, PrintIonThen(ion, charge)) && r.start + k + |charge| == r.end
    ensures ParseAfterIon(line, r, rd, k, ion) == Ok((ion, z, d))
  {
    IonRest(line, r.start, ion, charge, r.start + k);
    LossesOnwardsReads(line, Range(r.start + k, r.end), z, d, rd);
    IonOnwardsWhen(line, r, rd, k, ion, r.start + k, z, d);
  }

  /** What follows an ion is read from where the ion ends. */
  lemma IonOnwardsWhen(line: string, r: Range, rd: Readers, k: nat, ion: Ion, m: nat, z: nat, d: Option<Deviation>)
    requires ValidIn(line, r) && r.start + k == m <= r.end
    requires ParseLossesOnwards(line, Range(m, r.end), rd) == Ok((z, d))
    ensures ParseAfterIon(line, r, rd, k, ion) == Ok((ion, z, d))
  {
  }

  /** No neutral loss is read before the charge, and the charge and deviation
      sub-parsers read back `^z` and the deviation after it. */
  lemma LossesOnwardsReads(line: string, r: Range, z: nat, d: Option<Deviation>, rd: Readers)
    requires DecimalReaders(rd) && (d.Some? ==> WholeDeviation(d.value))
    requires Holds(line, r, "^" + (Decimal(z) + PrintDeviation(d)))
    ensures ParseLossesOnwards(line, r, rd) == Ok((z, d))
  {
    var dev := PrintDeviation(d);
    SpellsAt(line, r.start, "^" + (Decimal(z) + dev), 0);
    assert rd.losses(line, r) == NoLosses(line, r);
    DeviationStart(d);
    ParseChargeReads(line, r, z, dev, rd);
    ParseDeviationReads(line, Range(r.end - |dev|, r.end), d, rd);
    LossesOnwardsWhen(line, r, rd, r.end - r.start - |dev|, z, r.end - |dev|, |dev|, d);
  }

  /** What `ParseLossesOnwards` returns once the charge and the deviation are read. */
  lemma LossesOnwardsWhen(line: string, r: Range, rd: Readers, k: nat, z: nat, m: nat, c: nat, d: Option<Deviation>)
    requires ValidIn(line, r) && rd.losses(line, r) == Some(0)
    requires ParseCharge(line, r, rd) == Ok((k, z)) && r.start + k == m && m + c == r.end
    requires ParseDeviation(line, Range(m, r.end), rd) == Ok((c, d))
    ensures ParseLossesOnwards(line, r, rd) == Ok((z, d))
  {
    assert Shift(line, r, 0) == Ok(r);
  }

  lemma DeviationStart(d: Option<Deviation>)
    requires d.Some? ==> WholeDeviation(d.value)
    ensures |PrintDeviation(d)| == 0 || PrintDeviation(d)[0] == '/'
  {
  }

  // ---------------------------------------------------------------------------
  // The source as written, on inputs where it departs from the format

  /** The digits of `4` in `m4:6` and of `6` after the colon. */
  lemma InternalDigits()
    ensures ScanDigits("m4:6", Range(1, 4)) == Some(Number(1, Some(4)))
    ensures ScanDigits("m4:6", Range(3, 4)) == Some(Number(1, Some(6)))
  {
    var line := "m4:6";
    assert IsDigit(line[1]) && !IsDigit(line[2]) && IsDigit(line[3]);
    assert DigitRun(line, 2, 4) == 0;
    assert DigitRun(line, 1, 4) == 1;
    assert DigitRun(line, 4, 4) == 0;
    assert DigitRun(line, 3, 4) == 1;
    assert DigitValue(line, 1, 2) == DigitValue(line, 1, 1) * 10 + DigitOf(line[1]) == 4;
    assert DigitValue(line, 3, 4) == DigitValue(line, 3, 3) * 10 + DigitOf(line[3]) == 6;
  }

  /** As written, the internal ion `m4:6` is refused: the separator is looked
      for on the last digit of the first ordinal. With the separator looked for
      after the ordinal it reads as the internal ion from 4 to 6. */
  lemma InternalAsWrittenRefuses(rd: Readers)
    requires DecimalReaders(rd)
    ensures InternalIonAsWritten("m4:6", Range(0, 4), rd) == Err(InternalWithoutSeparator)
    ensures InternalIon("m4:6", Range(0, 4), rd) == Ok((4, Internal(4, 6)))
  {
    var line := "m4:6";
    InternalDigits();
    assert rd.ordinal(line, Range(1, 4)) == ScanDigits(line, Range(1, 4));
    assert rd.ordinal(line, Range(3, 4)) == ScanDigits(line, Range(3, 4));
    assert Text(line, Range(0, 4)) == line;
  }

  /** As written, `&1@p` is refused: the `@` after the analyte number is looked
      for at index 1 of the whole line, which is the digit itself. Looked for
      after the number, it is found and the ion starts after it. */
  lemma AnalyteAsWrittenRefuses(rd: Readers)
    requires DecimalReaders(rd)
    ensures ParseAnalyteNumberAsWritten("&1@p", Range(1, 4), rd) == Err(AnalyteNumberWithoutAt)
    ensures ParseAnalyteNumber("&1@p", Range(1, 4), rd) == Ok((Range(3, 4), Some(1)))
  {
    var line := "&1@p";
    assert IsDigit(line[1]) && !IsDigit(line[2]);
    assert DigitRun(line, 2, 4) == 0;
    assert DigitRun(line, 1, 4) == 1;
    assert DigitValue(line, 1, 2) == DigitValue(line, 1, 1) * 10 + DigitOf(line[1]) == 1;
    assert rd.ordinal(line, Range(1, 4)) == ScanDigits(line, Range(1, 4)) == Some(Number(1, Some(1)));
  }

  /** As written, an immonium ion with a modification leaves its closing
      bracket and one more character unread: `IA[x]` counts 3 characters, not 5. */
  lemma ImmoniumAsWrittenShort(rd: Readers)
    requires rd.aminoAcid('A') && rd.unimod("x")
    ensures ImmoniumIonCounting("IA[x]", Range(0, 5), rd, 0) == Ok((3, Immonium('A', Some("x"))))
    ensures ImmoniumIonCounting("IA[x]", Range(0, 5), rd, 2) == Ok((5, Immonium('A', Some("x"))))
  {
    var line := "IA[x]";
    assert Text(line, Range(0, 5)) == line;
    assert SpanUntil(line, 4, ']') == 0;
    assert SpanUntil(line, 3, ']') == 1;
    assert line[3..4] == "x";
  }

  /** As written, the precursor annotation `p^1` is refused: the charge is
      looked for again at the start of the annotation, so the characters are
      counted as unparsed. With each sub-parser starting where the previous
      one stopped, it reads as the precursor at charge 1. */
  lemma AnnotationAsWrittenRefuses(rd: Readers)
    requires DecimalReaders(rd)
    ensures ParseAnnotationAsWritten("p^1", Range(0, 3), rd) == Err(UnparsedCharacters)
    ensures ParseAnnotation("p^1", Range(0, 3), rd) == Ok(Annotation(false, None, Precursor, 1, None))
  {
    var line := "p^1";
    assert !IsDigit(line[0]) && IsDigit(line[2]);
    assert rd.ordinal(line, Range(0, 3)) == ScanDigits(line, Range(0, 3)) == None;
    assert rd.losses(line, Range(1, 3)) == NoLosses(line, Range(1, 3)) == Some(0);
    assert DigitRun(line, 3, 3) == 0;
    assert DigitRun(line, 2, 3) == 1;
    assert DigitValue(line, 2, 3) == DigitValue(line, 2, 2) * 10 + DigitOf(line[2]) == 1;
    assert rd.charge(line, Range(2, 3)) == ScanDigits(line, Range(2, 3)) == Some(Number(1, Some(1)));
    assert ParseCharge(line, Range(1, 3), rd) == Ok((2, 1));
    assert ParseDeviation(line, Range(3, 3), rd) == Ok((0, None));
    assert ParseIon(line, Range(0, 3), rd) == Ok((1, Precursor));
  }
}
