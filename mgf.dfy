/** Reading MGF (Mascot generic format) spectra from the lines of a file:
    `BEGIN IONS`/`END IONS` delimit a spectrum, `KEY=VALUE` lines set its
    header fields and the other lines holding a space are peaks. */
module Mgf {
  import opened Common

  datatype RawPeak = RawPeak(mz: real, intensity: real, charge: real)

  datatype RawSpectrum = RawSpectrum(title: string, numScans: nat, rt: real, charge: real, mass: real,
                                     spectrum: seq<RawPeak>)

  /** The spectrum being filled before any line of it is read. */
  const Blank := RawSpectrum("", 0, 0.0, 0.0, 0.0, [])

  /** The text-to-number conversions the reader relies on: a floating-point
      number and an unsigned count, each `None` when the text is not one. */
  datatype Parsers = Parsers(float: string -> Option<real>, count: string -> Option<nat>)

  /** `s` with every trailing `c` removed. */
  function TrimEnd(s: string, c: char): (r: string)
    ensures |r| <= |s| && r == s[..|r|]
    ensures |r| == 0 || r[|r| - 1] != c
    ensures forall k :: |r| <= k < |s| ==> s[k] == c
  {
    if |s| > 0 && s[|s| - 1] == c then
      var front := s[..|s| - 1];
      var r := TrimEnd(front, c);
      assert forall k :: |r| <= k < |front| ==> s[k] == front[k];
      r
    else s
  }

  /** `n` copies of `c`. */
  function Repeat(c: char, n: nat): (r: string)
    ensures |r| == n && forall k :: 0 <= k < n ==> r[k] == c
  {
    if n == 0 then [] else Repeat(c, n - 1) + [c]
  }

  /** Trimming a run of `c` off text that does not itself end in `c` gives the text back. */
  lemma TrimEndRun(s: string, c: char, n: nat)
    requires |s| == 0 || s[|s| - 1] != c
    ensures TrimEnd(s + Repeat(c, n), c) == s
  {
    var t := s + Repeat(c, n);
    var r := TrimEnd(t, c);
    assert |s| > 0 ==> t[|s| - 1] != c;
    assert forall k :: |s| <= k < |t| ==> t[k] == c;
    assert |r| == 0 || t[|r| - 1] != c;
    assert r == t[..|s|] == s;
  }

  /** `parse_charge`: a trailing run of `+` is dropped and the number is the
      charge, a trailing run of `-` is dropped and the number negated, and
      otherwise the whole text is the number. */
  function ParseCharge(input: string, float: string -> Option<real>): Result<real, ()>
  {
    if |input| > 0 && input[|input| - 1] == '+' then
      var v := float(TrimEnd(input, '+'));
      if v.None? then Err(()) else Ok(v.value)
    else if |input| > 0 && input[|input| - 1] == '-' then
      var v := float(TrimEnd(input, '-'));
      if v.None? then Err(()) else Ok(-v.value)
    else
      var v := float(input);
      if v.None? then Err(()) else Ok(v.value)
  }

  /** The charge of a number followed by one or more signs is the number,
      negated for `-`, and fails exactly when the number does not parse. */
  lemma ParseChargeSigns(number: string, n: nat, float: string -> Option<real>)
    requires |number| == 0 || (number[|number| - 1] != '+' && number[|number| - 1] != '-')
    requires n > 0
    ensures ParseCharge(number + Repeat('+', n), float) ==
      (if float(number).None? then Err(()) else Ok(float(number).value))
    ensures ParseCharge(number + Repeat('-', n), float) ==
      (if float(number).None? then Err(()) else Ok(-float(number).value))
    ensures ParseCharge(number, float) ==
      (if float(number).None? then Err(()) else Ok(float(number).value))
  {
    TrimEndRun(number, '+', n);
    TrimEndRun(number, '-', n);
    assert (number + Repeat('+', n))[|number| + n - 1] == '+';
    assert (number + Repeat('-', n))[|number| + n - 1] == '-';
  }

  /** The index of the first `c` in `s`, as `split_once` finds it. */
  function FirstIndex(s: string, c: char): (k: nat)
    requires c in s
    ensures k < |s| && s[k] == c && c !in s[..k]
  {
    if s[0] == c then 0
    else
      assert s == [s[0]] + s[1..];
      var k := FirstIndex(s[1..], c);
      assert s[..k + 1] == [s[0]] + s[1..][..k];
      k + 1
  }

  /** `split(c)`: the pieces of `s` between occurrences of `c`, empty ones included. */
  function Split(s: string, c: char): (r: seq<string>)
    ensures |r| > 0
    decreases |s|
  {
    if c !in s then [s]
    else
      var k := FirstIndex(s, c);
      [s[..k]] + Split(s[k + 1..], c)
  }

  /** The pieces joined back with `c` between them. */
  function Join(pieces: seq<string>, c: char): string
  {
    if |pieces| == 0 then ""
    else if |pieces| == 1 then pieces[0]
    else pieces[0] + [c] + Join(pieces[1..], c)
  }

  /** Splitting loses nothing: the pieces hold no `c`, and joining them with
      `c` gives the text back. A text holding `c` has at least two pieces. */
  lemma {:induction false} SplitJoin(s: string, c: char)
    ensures Join(Split(s, c), c) == s
    ensures forall k :: 0 <= k < |Split(s, c)| ==> c !in Split(s, c)[k]
    ensures c in s ==> |Split(s, c)| >= 2
    decreases |s|
  {
    if c in s {
      var k := FirstIndex(s, c);
      var rest := Split(s[k + 1..], c);
      SplitJoin(s[k + 1..], c);
      assert Split(s, c) == [s[..k]] + rest;
      assert s == s[..k] + [c] + s[k + 1..];
    }
  }

  /** The reader's state: the spectra closed so far and the one being filled. */
  datatype State = State(output: seq<RawSpectrum>, current: RawSpectrum)

  /** A header line `key=value`: the five known keys set their field, a value
      that does not parse fails the read, and any other key is ignored. */
  function KeyValue(st: State, key: string, value: string, p: Parsers): (r: Result<State, ()>)
    ensures r.Ok? ==> r.value.output == st.output && r.value.current.spectrum == st.current.spectrum
    ensures key !in {"PEPMASS", "CHARGE", "RT", "TITLE", "NUM_SCANS"} ==> r == Ok(st)
    ensures key == "TITLE" ==> r == Ok(st.(current := st.current.(title := value)))
    ensures r.Err? <==>
      ((key == "PEPMASS" || key == "RT") && p.float(value).None?)
      || (key == "CHARGE" && ParseCharge(value, p.float).Err?)
      || (key == "NUM_SCANS" && p.count(value).None?)
    ensures r.Ok? && key == "PEPMASS" ==> r.value.current == st.current.(mass := p.float(value).value)
    ensures r.Ok? && key == "RT" ==> r.value.current == st.current.(rt := p.float(value).value)
    ensures r.Ok? && key == "CHARGE" ==> r.value.current == st.current.(charge := ParseCharge(value, p.float).value)
    ensures r.Ok? && key == "NUM_SCANS" ==> r.value.current == st.current.(numScans := p.count(value).value)
  {
    var c := st.current;
    if key == "PEPMASS" then
      var v := p.float(value);
      if v.None? then Err(()) else Ok(st.(current := c.(mass := v.value)))
    else if key == "CHARGE" then
      var z := ParseCharge(value, p.float);
      if z.Err? then Err(()) else Ok(st.(current := c.(charge := z.value)))
    else if key == "RT" then
      var v := p.float(value);
      if v.None? then Err(()) else Ok(st.(current := c.(rt := v.value)))
    else if key == "TITLE" then Ok(st.(current := c.(title := value)))
    else if key == "NUM_SCANS" then
      var n := p.count(value);
      if n.None? then Err(()) else Ok(st.(current := c.(numScans := n.value)))
    else Ok(st)
  }

  /** A peak line's space-separated fields: m/z, intensity and an optional
      charge that defaults to 1; fewer than two fields or a field that does
      not parse fails. */
  function PeakOf(fields: seq<string>, p: Parsers): (r: Result<RawPeak, ()>)
    ensures r.Ok? <==>
      |fields| >= 2 && p.float(fields[0]).Some? && p.float(fields[1]).Some? &&
      (|fields| >= 3 ==> ParseCharge(fields[2], p.float).Ok?)
    ensures r.Ok? ==>
      r.value.mz == p.float(fields[0]).value && r.value.intensity == p.float(fields[1]).value &&
      r.value.charge == (if |fields| >= 3 then ParseCharge(fields[2], p.float).value else 1.0)
  {
    if |fields| < 2 then Err(())
    else
      var mz := p.float(fields[0]);
      var intensity := p.float(fields[1]);
      var charge := if |fields| >= 3 then ParseCharge(fields[2], p.float) else Ok(1.0);
      if mz.None? || intensity.None? || charge.Err? then Err(())
      else Ok(RawPeak(mz.value, intensity.value, charge.value))
  }

  /** A line holding a space that is neither delimiter nor header. */
  predicate IsPeakLine(line: string)
  {
    line != "BEGIN IONS" && line != "END IONS" && '=' !in line && ' ' in line
  }

  /** What one line does to the state. */
  function Line(st: State, line: string, p: Parsers): Result<State, ()>
  {
    if line == "BEGIN IONS" || line == "" then Ok(st)
    else if line == "END IONS" then Ok(State(st.output + [st.current], Blank))
    else if '=' in line then
      var k := FirstIndex(line, '=');
      KeyValue(st, line[..k], line[k + 1..], p)
    else if ' ' in line then
      var peak := PeakOf(Split(line, ' '), p);
      if peak.Err? then Err(()) else Ok(st.(current := st.current.(spectrum := st.current.spectrum + [peak.value])))
    else Ok(st)
  }

  /** The state after all of `lines`, or the failure of the first line that fails. */
  function Read(lines: seq<string>, p: Parsers): Result<State, ()>
  {
    if |lines| == 0 then Ok(State([], Blank))
    else
      var before := Read(lines[..|lines| - 1], p);
      if before.Err? then before else Line(before.value, lines[|lines| - 1], p)
  }

  /** `open`, on the file's lines: the spectra closed by `END IONS`. */
  function OpenLines(lines: seq<string>, p: Parsers): Result<seq<RawSpectrum>, ()>
  {
    var st := Read(lines, p);
    if st.Err? then Err(()) else Ok(st.value.output)
  }

  /** A line that fails makes the whole read fail, whatever follows. */
  lemma {:induction false} ReadErrSticks(lines: seq<string>, n: nat, p: Parsers)
    requires n <= |lines| && Read(lines[..n], p).Err?
    ensures Read(lines, p).Err?
    decreases |lines|
  {
    if n < |lines| {
      var front := lines[..|lines| - 1];
      assert front[..n] == lines[..n];
      ReadErrSticks(front, n, p);
    } else {
      assert lines[..n] == lines;
    }
  }

  /** The read of `lines` extended by one line is that line applied to the read of `lines`. */
  lemma ReadSnoc(lines: seq<string>, line: string, p: Parsers)
    ensures Read(lines + [line], p) == (if Read(lines, p).Err? then Read(lines, p) else Line(Read(lines, p).value, line, p))
  {
    assert (lines + [line])[..|lines|] == lines;
  }

  /** `END IONS` appends the spectrum being filled and starts a blank one. */
  lemma EndIonsFlushes(lines: seq<string>, p: Parsers)
    requires Read(lines, p).Ok?
    ensures var st := Read(lines, p).value;
      Read(lines + ["END IONS"], p) == Ok(State(st.output + [st.current], Blank))
  {
    ReadSnoc(lines, "END IONS", p);
  }

  /** `BEGIN IONS` and empty lines change nothing. */
  lemma DelimitersIgnored(lines: seq<string>, p: Parsers)
    ensures Read(lines + ["BEGIN IONS"], p) == Read(lines, p)
    ensures Read(lines + [""], p) == Read(lines, p)
  {
    ReadSnoc(lines, "BEGIN IONS", p);
    ReadSnoc(lines, "", p);
  }

  /** A line holding `=` is a header line even when it also holds a space: the
      key is the text before the first `=`, and the line never adds a peak
      nor closes a spectrum. */
  lemma HeaderBeforePeak(st: State, line: string, p: Parsers)
    requires '=' in line
    ensures var k := FirstIndex(line, '=');
      '=' !in line[..k] && Line(st, line, p) == KeyValue(st, line[..k], line[k + 1..], p)
    ensures Line(st, line, p).Ok? ==>
      Line(st, line, p).value.output == st.output &&
      Line(st, line, p).value.current.spectrum == st.current.spectrum
  {
    assert "BEGIN IONS"[5] == ' ' && '=' !in "BEGIN IONS";
    assert '=' !in "END IONS";
  }

  /** The peaks a run of peak lines describes, in order; each line must parse. */
  function PeaksOf(lines: seq<string>, p: Parsers): seq<RawPeak>
    requires forall k :: 0 <= k < |lines| ==> PeakOf(Split(lines[k], ' '), p).Ok?
  {
    if |lines| == 0 then []
    else PeaksOf(lines[..|lines| - 1], p) + [PeakOf(Split(lines[|lines| - 1], ' '), p).value]
  }

  /** Peak lines append their peaks to the spectrum being filled, in input
      order, and change nothing else. */
  lemma {:induction false} PeaksAppended(lines: seq<string>, peaks: seq<string>, p: Parsers)
    requires Read(lines, p).Ok?
    requires forall k :: 0 <= k < |peaks| ==> IsPeakLine(peaks[k]) && PeakOf(Split(peaks[k], ' '), p).Ok?
    ensures var st := Read(lines, p).value;
      Read(lines + peaks, p) ==
        Ok(st.(current := st.current.(spectrum := st.current.spectrum + PeaksOf(peaks, p))))
    decreases |peaks|
  {
    var st := Read(lines, p).value;
    if |peaks| == 0 {
      assert lines + peaks == lines;
      assert st.current.spectrum + PeaksOf(peaks, p) == st.current.spectrum;
    } else {
      var front := peaks[..|peaks| - 1];
      var last := peaks[|peaks| - 1];
      PeaksAppended(lines, front, p);
      assert lines + peaks == (lines + front) + [last];
      ReadSnoc(lines + front, last, p);
      assert last != "" by {
        assert ' ' in last;
      }
      var pk := PeakOf(Split(last, ' '), p).value;
      assert PeaksOf(peaks, p) == PeaksOf(front, p) + [pk];
      assert st.current.spectrum + PeaksOf(front, p) + [pk] == st.current.spectrum + PeaksOf(peaks, p);
    }
  }

  /** Every closed spectrum comes from one `END IONS` line. */
  lemma {:induction false} OutputCount(lines: seq<string>, p: Parsers)
    requires Read(lines, p).Ok?
    ensures |Read(lines, p).value.output| == multiset(lines)["END IONS"]
    decreases |lines|
  {
    if |lines| > 0 {
      var front := lines[..|lines| - 1];
      OutputCount(front, p);
      assert lines == front + [lines[|lines| - 1]];
      ReadSnoc(front, lines[|lines| - 1], p);
    }
  }

  /** A spectrum not closed by `END IONS` before the lines run out is not
      returned: lines holding no `END IONS` leave the output as it was. */
  lemma {:induction false} UnclosedDropped(lines: seq<string>, tail: seq<string>, p: Parsers)
    requires "END IONS" !in tail
    requires Read(lines + tail, p).Ok?
    ensures Read(lines, p).Ok? && Read(lines + tail, p).value.output == Read(lines, p).value.output
    decreases |tail|
  {
    if |tail| == 0 {
      assert lines + tail == lines;
    } else {
      var front := tail[..|tail| - 1];
      var last := tail[|tail| - 1];
      assert lines + tail == (lines + front) + [last];
      ReadSnoc(lines + front, last, p);
      assert last in tail;
      UnclosedDropped(lines, front, p);
    }
  }

  /** One line of `open`'s loop: the delimiters, the header keys and the peak
      lines, each updating the spectrum being filled or the output. */
  method ReadLine(st: State, line: string, p: Parsers) returns (r: Result<State, ()>)
    ensures r == Line(st, line, p)
  {
    var output, current := st.output, st.current;
    if line == "BEGIN IONS" || line == "" {
    } else if line == "END IONS" {
      output := output + [current];
      current := Blank;
    } else if '=' in line {
      var k := FirstIndex(line, '=');
      var key, value := line[..k], line[k + 1..];
      if key == "PEPMASS" {
        var v := p.float(value);
        if v.None? {
          return Err(());
        }
        current := current.(mass := v.value);
      } else if key == "CHARGE" {
        var z := ParseCharge(value, p.float);
        if z.Err? {
          return Err(());
        }
        current := current.(charge := z.value);
      } else if key == "RT" {
        var v := p.float(value);
        if v.None? {
          return Err(());
        }
        current := current.(rt := v.value);
      } else if key == "TITLE" {
        current := current.(title := value);
      } else if key == "NUM_SCANS" {
        var n := p.count(value);
        if n.None? {
          return Err(());
        }
        current := current.(numScans := n.value);
      }
    } else if ' ' in line {
      var peak := PeakOf(Split(line, ' '), p);
      if peak.Err? {
        return Err(());
      }
      current := current.(spectrum := current.spectrum + [peak.value]);
    }
    r := Ok(State(output, current));
  }

  /** `open` over the lines: one pass, filling `current` and pushing closed
      spectra onto `output`, stopping at the first line that fails to parse. */
  method Open(lines: seq<string>, p: Parsers) returns (r: Result<seq<RawSpectrum>, ()>)
    ensures r == OpenLines(lines, p)
  {
    var current := Blank;
    var output := [];
    for i := 0 to |lines|
      invariant Read(lines[..i], p) == Ok(State(output, current))
    {
      ReadSnoc(lines[..i], lines[i], p);
      assert lines[..i + 1] == lines[..i] + [lines[i]];
      var next := ReadLine(State(output, current), lines[i], p);
      if next.Err? {
        ReadErrSticks(lines, i + 1, p);
        return Err(());
      }
      output, current := next.value.output, next.value.current;
    }
    assert lines[..|lines|] == lines;
    r := Ok(output);
  }
}
