/** The numeric input of src/components/control/control.jsx: the handler
    `emitChangeEvent` decides, for the raw text of the field, whether the
    control reports a number to its owner (and which one) or stays silent
    while the number is still being typed. */
module NumericInput {

  datatype Option<T> = None | Some(value: T)

  /** What one input event makes the control report through `onChange`:
      nothing, or one number. */
  datatype Emission = NoEmit | Emit(value: real)

  predicate IsDigit(c: char)
  {
    '0' <= c <= '9'
  }

  /** The two decimal separators the field accepts. */
  predicate IsSeparator(c: char)
  {
    c == ',' || c == '.'
  }

  predicate AllDigits(s: string)
  {
    forall k :: 0 <= k < |s| ==> IsDigit(s[k])
  }

  /** The value of a decimal digit (0 for any other character). */
  function DigitValue(c: char): (d: nat)
    ensures d <= 9
  {
    if IsDigit(c) then c as int - '0' as int else 0
  }

  /** The value of a string of decimal digits, most significant first. */
  function IntValue(w: string): nat
    decreases |w|
  {
    if w == [] then 0 else 10 * IntValue(w[..|w| - 1]) + DigitValue(w[|w| - 1])
  }

  /** The value of the digits after a decimal point. */
  function FracValue(f: string): (r: real)
    ensures 0.0 <= r < 1.0
    decreases |f|
  {
    if f == [] then 0.0 else (DigitValue(f[0]) as real + FracValue(f[1..])) / 10.0
  }

  /** The length of the run of digits at the start of `s`. */
  function DigitRun(s: string): (n: nat)
    ensures n <= |s|
    ensures forall k :: 0 <= k < n ==> IsDigit(s[k])
    ensures n < |s| ==> !IsDigit(s[n])
    decreases |s|
  {
    if s == [] || !IsDigit(s[0]) then 0 else 1 + DigitRun(s[1..])
  }

  /** The digits after a point at the start of `s`; empty when `s` does not
      start with a point. */
  function FractionDigits(s: string): (f: string)
    ensures AllDigits(f) && |f| <= |s|
    ensures |f| > 0 ==> s[0] == '.'
  {
    if |s| > 0 && s[0] == '.' then s[1..][..DigitRun(s[1..])] else []
  }

  /** An unsigned decimal `digits [. digits]` at the start of `s`, with at
      least one digit on either side of the point. */
  function ParseUnsigned(s: string): (r: Option<real>)
    ensures r.Some? ==> r.value >= 0.0
    ensures r.None? <==> DigitRun(s) == 0 && FractionDigits(s) == []
  {
    var n := DigitRun(s);
    DecimalValue(s[..n], s[n..])
  }

  /** The number with whole digits `whole` and the fraction at the start of
      `after`; None when both are empty. */
  function DecimalValue(whole: string, after: string): (r: Option<real>)
    ensures r.Some? ==> r.value >= 0.0
    ensures r.None? <==> whole == [] && FractionDigits(after) == []
  {
    var fraction := FractionDigits(after);
    if whole == [] && fraction == [] then None
    else Some(IntValue(whole) as real + FracValue(fraction))
  }

  /** JavaScript's `parseFloat`, restricted to decimal notation: an optional
      sign, then the longest unsigned decimal prefix; None (NaN) when that
      prefix holds no digit. */
  function ParseFloat(s: string): (r: Option<real>)
    ensures s == [] ==> r == None
    ensures |s| > 0 && IsDigit(s[0]) ==> r.Some? && r.value >= 0.0
    ensures |s| > 0 && !IsDigit(s[0]) && s[0] != '.' && s[0] != '-' && s[0] != '+' ==> r == None
  {
    if |s| > 0 && (s[0] == '-' || s[0] == '+') then
      match ParseUnsigned(s[1..])
      case None => None
      case Some(magnitude) => Some(if s[0] == '-' then -magnitude else magnitude)
    else ParseUnsigned(s)
  }

  /** The digit run of a digit string followed by something else is the
      whole digit string. */
  lemma {:induction false} DigitRunOfDigits(w: string, rest: string)
    requires AllDigits(w)
    requires rest == [] || !IsDigit(rest[0])
    ensures DigitRun(w + rest) == |w|
    decreases |w|
  {
    if w == [] {
      assert w + rest == rest;
    } else {
      assert (w + rest)[1..] == w[1..] + rest;
      DigitRunOfDigits(w[1..], rest);
    }
  }

  /** The fraction after a point followed by digits is those digits. */
  lemma FractionAfterPoint(f: string, tail: string)
    requires AllDigits(f)
    requires tail == [] || !IsDigit(tail[0])
    ensures FractionDigits(['.'] + (f + tail)) == f
  {
    assert (['.'] + (f + tail))[1..] == f + tail;
    DigitRunOfDigits(f, tail);
    assert (f + tail)[..|f|] == f;
  }

  /** The position of the first comma in `s`; `|s|` when there is none. */
  function CommaIndex(s: string): (i: nat)
    ensures i <= |s|
    ensures forall k :: 0 <= k < i ==> s[k] != ','
    ensures i < |s| ==> s[i] == ','
    decreases |s|
  {
    if s == [] || s[0] == ',' then 0 else 1 + CommaIndex(s[1..])
  }

  /** `inputValue.replace(',', '.')`: the first comma, and only that one,
      becomes a point. */
  function ReplaceFirstComma(s: string): (r: string)
    ensures |r| == |s|
    ensures forall k :: 0 <= k < |s| ==> r[k] == if k == CommaIndex(s) then '.' else s[k]
  {
    var i := CommaIndex(s);
    if i < |s| then s[i := '.'] else s
  }

  /** The states of a left-to-right search for a separator, one or more
      digits, then another separator. */
  datatype ScanState =
    | Ready           // no separator pending
    | AfterSeparator  // the last character was a separator
    | InDigits        // a separator and at least one digit were just read

  /** Whether the search, started in `state`, succeeds on `s`. */
  function Scan(s: string, state: ScanState): bool
    decreases |s|
  {
    if s == [] then false
    else
      var c := s[0];
      match state
      case Ready =>
        if IsSeparator(c) then Scan(s[1..], AfterSeparator) else Scan(s[1..], Ready)
      case AfterSeparator =>
        if IsDigit(c) then Scan(s[1..], InDigits)
        else if IsSeparator(c) then Scan(s[1..], AfterSeparator)
        else Scan(s[1..], Ready)
      case InDigits =>
        if IsSeparator(c) then true
        else if IsDigit(c) then Scan(s[1..], InDigits)
        else Scan(s[1..], Ready)
  }

  /** `/[,\.][0-9]+[,\.]/.test(s)`, computed by the search above. */
  predicate HasExtraFloatingPoint(s: string)
  {
    Scan(s, Ready)
  }

  /** The pattern itself: a separator, one or more digits, then another
      separator, somewhere in `s`. */
  ghost predicate SeparatorDigitsSeparator(s: string)
  {
    exists i, j :: 0 <= i && i + 1 < j < |s| && IsSeparator(s[i]) && IsSeparator(s[j]) &&
                   forall k :: i < k < j ==> IsDigit(s[k])
  }

  /** `t` starts with digits followed by a separator. */
  ghost predicate Closes(t: string)
  {
    DigitRun(t) < |t| && IsSeparator(t[DigitRun(t)])
  }

  /** `t` starts with at least one digit followed by a separator. */
  ghost predicate ClosesAfterDigit(t: string)
  {
    DigitRun(t) > 0 && Closes(t)
  }

  /** Some separator of `s` is followed by at least one digit and a separator. */
  ghost predicate Found(s: string)
  {
    exists i :: 0 <= i < |s| && IsSeparator(s[i]) && ClosesAfterDigit(s[i + 1..])
  }

  /** A match in `s` is a match at its first character or a match in its tail. */
  lemma FoundShift(s: string)
    requires |s| > 0
    ensures Found(s) <==> (IsSeparator(s[0]) && ClosesAfterDigit(s[1..])) || Found(s[1..])
  {
    var t := s[1..];
    if Found(s) && !(IsSeparator(s[0]) && ClosesAfterDigit(t)) {
      var i :| 0 <= i < |s| && IsSeparator(s[i]) && ClosesAfterDigit(s[i + 1..]);
      assert i > 0;
      assert t[i - 1] == s[i] && t[i..] == s[i + 1..];
    }
    if Found(t) {
      var i :| 0 <= i < |t| && IsSeparator(t[i]) && ClosesAfterDigit(t[i + 1..]);
      assert s[i + 1] == t[i] && s[i + 2..] == t[i + 1..];
    }
  }

  /** What each state of the search is looking for. */
  lemma {:induction false} ScanFinds(s: string)
    ensures Scan(s, Ready) <==> Found(s)
    ensures Scan(s, AfterSeparator) <==> ClosesAfterDigit(s) || Found(s)
    ensures Scan(s, InDigits) <==> Closes(s) || Found(s)
    decreases |s|
  {
    if s == [] {
      assert !Found(s);
    } else {
      var t := s[1..];
      ScanFinds(t);
      FoundShift(s);
      if IsDigit(s[0]) {
        assert DigitRun(s) == 1 + DigitRun(t);
        assert DigitRun(t) < |t| ==> s[DigitRun(s)] == t[DigitRun(t)];
      } else {
        assert DigitRun(s) == 0;
      }
    }
  }

  /** The digit run of `t` ends at the first non-digit. */
  lemma DigitRunExact(t: string, m: nat)
    requires m <= |t| && forall k :: 0 <= k < m ==> IsDigit(t[k])
    requires m == |t| || !IsDigit(t[m])
    ensures DigitRun(t) == m
  {
    assert t == t[..m] + t[m..];
    DigitRunOfDigits(t[..m], t[m..]);
  }

  /** A match found by the search is an occurrence of the pattern. */
  lemma FoundIsPattern(s: string)
    requires Found(s)
    ensures SeparatorDigitsSeparator(s)
  {
    var i :| 0 <= i < |s| && IsSeparator(s[i]) && ClosesAfterDigit(s[i + 1..]);
    var t := s[i + 1..];
    var j := i + 1 + DigitRun(t);
    assert s[j] == t[DigitRun(t)];
    forall k | i < k < j ensures IsDigit(s[k]) {
      assert s[k] == t[k - i - 1];
    }
  }

  /** An occurrence of the pattern is a match the search finds. */
  lemma PatternIsFound(s: string)
    requires SeparatorDigitsSeparator(s)
    ensures Found(s)
  {
    var i, j :| 0 <= i && i + 1 < j < |s| && IsSeparator(s[i]) && IsSeparator(s[j]) &&
                forall k :: i < k < j ==> IsDigit(s[k]);
    var t := s[i + 1..];
    forall k | 0 <= k < j - i - 1 ensures IsDigit(t[k]) {
      assert t[k] == s[k + i + 1];
    }
    assert t[j - i - 1] == s[j];
    DigitRunExact(t, j - i - 1);
    assert ClosesAfterDigit(t);
  }

  /** The search succeeds exactly when the pattern occurs. */
  lemma ExtraFloatingPointIsPattern(s: string)
    ensures HasExtraFloatingPoint(s) <==> SeparatorDigitsSeparator(s)
  {
    ScanFinds(s);
    if Found(s) {
      FoundIsPattern(s);
    }
    if SeparatorDigitsSeparator(s) {
      PatternIsFound(s);
    }
  }

  /** Digits never start the pattern. */
  lemma {:induction false} DigitsKeepReady(w: string, rest: string)
    requires AllDigits(w)
    ensures Scan(w + rest, Ready) == Scan(rest, Ready)
    decreases |w|
  {
    if w != [] {
      assert (w + rest)[1..] == w[1..] + rest;
      DigitsKeepReady(w[1..], rest);
    } else {
      assert w + rest == rest;
    }
  }

  /** A digit string holds no separator, so the search fails on it from
      any state. */
  lemma {:induction false} DigitsNeverMatch(f: string, state: ScanState)
    requires AllDigits(f)
    ensures !Scan(f, state)
    decreases |f|
  {
    if f != [] {
      DigitsNeverMatch(f[1..], if state == Ready then Ready else InDigits);
    }
  }

  predicate EndsWithSeparator(s: string)
  {
    |s| > 0 && IsSeparator(s[|s| - 1])
  }

  /** The trailing-separator test is a suffix test for "," or ".". */
  lemma EndsWithSeparatorIsSuffix(s: string)
    ensures EndsWithSeparator(s) <==>
              (exists p :: s == p + [',']) || (exists p :: s == p + ['.'])
  {
    if EndsWithSeparator(s) {
      assert s == s[..|s| - 1] + [s[|s| - 1]];
    }
  }

  /** The one leading '0' the handler drops. */
  function StripLeadingZero(s: string): string
  {
    if |s| > 0 && s[0] == '0' then s[1..] else s
  }

  /** A text starting with '0' loses exactly that character, and any other
      text is kept. */
  lemma StripDropsOneZero(s: string)
    ensures |s| > 0 && s[0] == '0' ==> ['0'] + StripLeadingZero(s) == s
    ensures (|s| == 0 || s[0] != '0') ==> StripLeadingZero(s) == s
  {
    if |s| > 0 && s[0] == '0' {
      assert ['0'] + s[1..] == s;
    }
  }

  /** A leading '0' cannot take part in the separator pattern, so dropping
      it does not change the pattern test. */
  lemma StripKeepsExtraFloatingPoint(s: string)
    ensures HasExtraFloatingPoint(StripLeadingZero(s)) <==> HasExtraFloatingPoint(s)
  {
  }

  /** `emitChangeEvent`: drop one leading '0'; report 0 for an empty field;
      stay silent on a second separator after digits or on a trailing
      separator; otherwise report the parse of the text with its first
      comma made a point, unless that parse is NaN. */
  function EmitChangeEvent(input: string): (e: Emission)
    ensures input == "" || input == "0" ==> e == Emit(0.0)
    ensures e.Emit? && StripLeadingZero(input) != [] ==>
              ParseFloat(ReplaceFirstComma(StripLeadingZero(input))) == Some(e.value)
  {
    var inputValue := StripLeadingZero(input);
    if inputValue == [] then Emit(0.0)
    else if HasExtraFloatingPoint(inputValue) then NoEmit
    else if EndsWithSeparator(inputValue) then NoEmit
    else
      match ParseFloat(ReplaceFirstComma(inputValue))
      case None => NoEmit
      case Some(floatValue) => Emit(floatValue)
  }

  /** A text ending in a separator is still being typed: nothing is
      reported. */
  lemma SilentOnTrailingSeparator(input: string)
    requires EndsWithSeparator(input)
    ensures EmitChangeEvent(input) == NoEmit
  {
    var v := StripLeadingZero(input);
    if |input| > 0 && input[0] == '0' {
      assert v[|v| - 1] == input[|input| - 1];
    }
  }

  /** A second separator after digits is refused: nothing is reported. */
  lemma SilentOnExtraFloatingPoint(input: string)
    requires HasExtraFloatingPoint(input)
    ensures EmitChangeEvent(input) == NoEmit
  {
    StripKeepsExtraFloatingPoint(input);
  }

  /** The handler stays silent exactly when the field is neither empty nor
      a lone "0" and the raw text has the separator pattern, ends in a
      separator, or does not parse once its leading zero is dropped and its
      first comma made a point. */
  lemma SilentExactly(input: string)
    ensures EmitChangeEvent(input) == NoEmit <==>
              input != "" && input != "0" &&
              (SeparatorDigitsSeparator(input) || EndsWithSeparator(input) ||
               ParseFloat(ReplaceFirstComma(StripLeadingZero(input))) == None)
  {
    StripKeepsExtraFloatingPoint(input);
    ExtraFloatingPointIsPattern(input);
    var v := StripLeadingZero(input);
    if |input| > 1 && input[0] == '0' {
      assert v[|v| - 1] == input[|input| - 1];
    }
  }

  /** The last branch of the handler: text that passes both separator
      checks is reported as its parse. */
  lemma EmitsParse(input: string, v: string, x: real)
    requires StripLeadingZero(input) == v && v != []
    requires !HasExtraFloatingPoint(v) && !EndsWithSeparator(v)
    requires ParseFloat(ReplaceFirstComma(v)) == Some(x)
    ensures EmitChangeEvent(input) == Emit(x)
  {
  }

  /** A leading zero does not change the value of a digit string. */
  lemma {:induction false} LeadingZeroValue(w: string)
    requires AllDigits(w)
    ensures AllDigits(['0'] + w) && IntValue(['0'] + w) == IntValue(w)
    decreases |w|
  {
    var z := ['0'] + w;
    if w != [] {
      var init := w[..|w| - 1];
      assert z[..|z| - 1] == ['0'] + init;
      assert z[|z| - 1] == w[|w| - 1];
      LeadingZeroValue(init);
    }
  }

  /** `parseFloat` reads the unsigned decimal `w.f` at the start of a
      string and ignores what follows it. */
  lemma ParseDecimal(s: string, w: string, f: string, tail: string)
    requires AllDigits(w) && AllDigits(f) && |w| + |f| > 0
    requires tail == [] || !IsDigit(tail[0])
    requires s == w + (['.'] + (f + tail))
    ensures ParseFloat(s) == Some(IntValue(w) as real + FracValue(f))
  {
    assert s[0] == if |w| > 0 then w[0] else '.';
    UnsignedWhenDigitFirst(s);
    UnsignedDecimal(s, w, f, tail);
  }

  /** The unsigned reading of `w.f` followed by a non-digit. */
  lemma UnsignedDecimal(s: string, w: string, f: string, tail: string)
    requires AllDigits(w) && AllDigits(f) && |w| + |f| > 0
    requires tail == [] || !IsDigit(tail[0])
    requires s == w + (['.'] + (f + tail))
    ensures ParseUnsigned(s) == Some(IntValue(w) as real + FracValue(f))
  {
    var rest := ['.'] + (f + tail);
    DigitRunOfDigits(w, rest);
    assert s[..|w|] == w;
    assert s[|w|..] == rest;
    FractionAfterPoint(f, tail);
  }

  /** `parseFloat` reads digits and a point with no digit after it as the
      whole number. */
  lemma ParseWholeBeforePoint(w: string, tail: string)
    requires AllDigits(w) && |w| > 0
    requires tail == [] || !IsDigit(tail[0])
    ensures ParseFloat(w + (['.'] + tail)) == Some(IntValue(w) as real)
  {
    var rest := ['.'] + tail;
    ParseAfterDigits(w + rest, w, rest);
    assert rest[1..] == tail;
    assert FractionDigits(rest) == [];
    assert IntValue(w) as real + FracValue(FractionDigits(rest)) == IntValue(w) as real;
  }

  /** `parseFloat` on a non-empty digit string `w` followed by a non-digit:
      the value of `w` plus whatever fraction follows it. */
  lemma ParseAfterDigits(s: string, w: string, rest: string)
    requires AllDigits(w) && |w| > 0 && s == w + rest
    requires rest == [] || !IsDigit(rest[0])
    ensures ParseFloat(s) == Some(IntValue(w) as real + FracValue(FractionDigits(rest)))
  {
    UnsignedAfterDigits(s, w, rest);
    UnsignedWhenDigitFirst(s);
    WholeDecimalValue(w, rest);
  }

  lemma UnsignedAfterDigits(s: string, w: string, rest: string)
    requires AllDigits(w) && s == w + rest
    requires rest == [] || !IsDigit(rest[0])
    ensures ParseUnsigned(s) == DecimalValue(w, rest)
  {
    DigitRunOfDigits(w, rest);
    SplitAt(w, rest);
  }

  /** Text starting with a digit or a point has no sign to read. */
  lemma UnsignedWhenDigitFirst(s: string)
    requires |s| > 0 && (IsDigit(s[0]) || s[0] == '.')
    ensures ParseFloat(s) == ParseUnsigned(s)
  {
  }

  lemma WholeDecimalValue(w: string, after: string)
    requires |w| > 0
    ensures DecimalValue(w, after) == Some(IntValue(w) as real + FracValue(FractionDigits(after)))
  {
  }

  /** The two halves of a concatenation. */
  lemma SplitAt(w: string, rest: string)
    ensures (w + rest)[..|w|] == w && (w + rest)[|w|..] == rest
  {
  }

  /** `parseFloat` reads digits, a point and digits as that decimal. */
  lemma ParseFraction(w: string, f: string)
    requires AllDigits(w) && AllDigits(f) && |f| > 0
    ensures ParseFloat(w + (['.'] + f)) == Some(IntValue(w) as real + FracValue(f))
  {
    var empty: string := [];
    assert f + empty == f;
    ParseDecimal(w + (['.'] + f), w, f, empty);
  }

  /** Digits, either separator and digits parse as that decimal once the
      comma is made a point. */
  lemma DecimalParses(w: string, sep: char, f: string)
    requires AllDigits(w) && AllDigits(f) && |f| > 0 && IsSeparator(sep)
    ensures ParseFloat(ReplaceFirstComma(w + ([sep] + f))) == Some(IntValue(w) as real + FracValue(f))
  {
    ReplaceAtSeparator(w, sep, f);
    ParseFraction(w, f);
  }

  /** `parseFloat` reads a whole digit string. */
  lemma ParseInteger(w: string)
    requires AllDigits(w) && |w| > 0
    ensures ParseFloat(w) == Some(IntValue(w) as real)
  {
    var empty: string := [];
    assert w == w + empty;
    ParseAfterDigits(w, w, empty);
    assert FractionDigits(empty) == [];
    assert IntValue(w) as real + FracValue(FractionDigits(empty)) == IntValue(w) as real;
  }

  /** A leading '-' parses the rest unsigned and negates it. */
  lemma ParseNegative(u: string)
    ensures ParseUnsigned(u).None? ==> ParseFloat(['-'] + u) == None
    ensures ParseUnsigned(u).Some? ==> ParseFloat(['-'] + u) == Some(-ParseUnsigned(u).value)
  {
    assert (['-'] + u)[1..] == u;
  }

  /** A leading '+' parses the rest unsigned, unchanged. */
  lemma ParsePositiveSign(u: string)
    ensures ParseFloat(['+'] + u) == ParseUnsigned(u)
  {
    assert (['+'] + u)[1..] == u;
  }

  /** What is left of `w sep f` once the leading zero is dropped, with the
      digit string that remains. */
  lemma StripDecimal(w: string, rest: string) returns (w': string)
    requires AllDigits(w) && |rest| > 0 && IsSeparator(rest[0])
    ensures AllDigits(w') && IntValue(w') == IntValue(w)
    ensures |w'| <= |w| && (|w'| < |w| ==> w == ['0'] + w')
    ensures StripLeadingZero(w + rest) == w' + rest
  {
    if |w| > 0 && w[0] == '0' {
      w' := w[1..];
      assert ['0'] + w' == w;
      LeadingZeroValue(w');
      assert (w + rest)[1..] == w' + rest;
    } else {
      w' := w;
    }
  }

  /** Digits, then one separator, then digits: no second separator for the
      pattern test to find. */
  lemma OneSeparatorNoPattern(w: string, sep: char, f: string)
    requires AllDigits(w) && AllDigits(f) && IsSeparator(sep)
    ensures !HasExtraFloatingPoint(w + ([sep] + f))
  {
    DigitsKeepReady(w, [sep] + f);
    assert ([sep] + f)[1..] == f;
    DigitsNeverMatch(f, AfterSeparator);
  }

  /** Text without a comma is left as it is. */
  lemma NoCommaUnchanged(s: string)
    requires ',' !in s
    ensures ReplaceFirstComma(s) == s
  {
  }

  /** Replacing the first comma of `w sep rest`, where `w` has no comma and
      the separator is the first separator that could be a comma, turns the
      separator into a point and leaves the rest. */
  lemma ReplaceAtSeparator(w: string, sep: char, rest: string)
    requires ',' !in w && IsSeparator(sep)
    requires sep == ',' || ',' !in rest
    ensures ReplaceFirstComma(w + ([sep] + rest)) == w + (['.'] + rest)
  {
    var v := w + ([sep] + rest);
    var t := w + (['.'] + rest);
    var i := CommaIndex(v);
    if sep == ',' {
      assert v[|w|] == ',';
      assert i == |w|;
      assert v[i := '.'] == t;
    } else {
      assert ',' !in v by {
        forall k | 0 <= k < |v| ensures v[k] != ',' {
          if k < |w| { assert v[k] == w[k]; }
          else if k > |w| { assert v[k] == rest[k - |w| - 1]; }
        }
      }
      NoCommaUnchanged(v);
    }
  }

  /** A number typed with either separator is reported with its value once
      a digit follows the separator. */
  lemma DecimalInputEmitsValue(w: string, sep: char, f: string)
    requires AllDigits(w) && AllDigits(f) && |f| > 0 && IsSeparator(sep)
    ensures EmitChangeEvent(w + ([sep] + f)) == Emit(IntValue(w) as real + FracValue(f))
  {
    var w' := StripDecimal(w, [sep] + f);
    StrippedDecimalEmits(w + ([sep] + f), w', sep, f);
  }

  /** The handler on text whose leading zero, if any, is already dropped. */
  lemma StrippedDecimalEmits(input: string, w: string, sep: char, f: string)
    requires AllDigits(w) && AllDigits(f) && |f| > 0 && IsSeparator(sep)
    requires StripLeadingZero(input) == w + ([sep] + f)
    ensures EmitChangeEvent(input) == Emit(IntValue(w) as real + FracValue(f))
  {
    DecimalPassesChecks(w, sep, f);
    EmitsParse(input, w + ([sep] + f), IntValue(w) as real + FracValue(f));
  }

  /** `w sep f` passes both separator checks and parses as its value. */
  lemma DecimalPassesChecks(w: string, sep: char, f: string)
    requires AllDigits(w) && AllDigits(f) && |f| > 0 && IsSeparator(sep)
    ensures !HasExtraFloatingPoint(w + ([sep] + f))
    ensures !EndsWithSeparator(w + ([sep] + f))
    ensures ParseFloat(ReplaceFirstComma(w + ([sep] + f))) == Some(IntValue(w) as real + FracValue(f))
  {
    OneSeparatorNoPattern(w, sep, f);
    EndsLike(w, [sep] + f);
    EndsLike([sep], f);
    DigitsEndNoSeparator(f);
    DecimalParses(w, sep, f);
  }

  /** A whole number typed into the field is reported with its value;
      a lone "0" is reported as 0. */
  lemma IntegerInputEmitsValue(w: string)
    requires AllDigits(w) && |w| > 0
    ensures EmitChangeEvent(w) == Emit(IntValue(w) as real)
  {
    var v := StripLeadingZero(w);
    if w[0] == '0' {
      assert ['0'] + v == w;
      LeadingZeroValue(v);
    }
    assert AllDigits(v) && IntValue(v) == IntValue(w);
    if v != [] {
      DigitsNeverMatch(v, Ready);
      NoCommaUnchanged(v);
      ParseInteger(v);
    }
  }

  /** ',' and '.' are interchangeable as the decimal separator. */
  lemma SeparatorsInterchangeable(w: string, f: string)
    requires AllDigits(w) && AllDigits(f)
    ensures EmitChangeEvent(w + ([','] + f)) == EmitChangeEvent(w + (['.'] + f))
  {
    if |f| > 0 {
      DecimalInputEmitsValue(w, ',', f);
      DecimalInputEmitsValue(w, '.', f);
    } else {
      assert w + ([','] + f) == w + [','] && w + (['.'] + f) == w + ['.'];
      EndsLike(w, [',']);
      EndsLike(w, ['.']);
      SilentOnTrailingSeparator(w + [',']);
      SilentOnTrailingSeparator(w + ['.']);
    }
  }

  /** The pattern test wants a digit between the two separators, so two
      adjacent separators pass it: the whole number before them is
      reported and the digits after them are dropped ("1..5" reports 1).
      The whole number may not be "0": dropping its zero leaves a text that
      starts with the separator pair, and "0..5" becomes "..5", which does
      not parse, so nothing is reported (`ZeroBeforeAdjacentSilent`). */
  lemma AdjacentSeparatorsReportWhole(w: string, s1: char, s2: char, f: string)
    requires AllDigits(w) && |w| > 0 && w != "0"
    requires IsSeparator(s1) && IsSeparator(s2) && AllDigits(f) && |f| > 0
    ensures EmitChangeEvent(w + ([s1] + ([s2] + f))) == Emit(IntValue(w) as real)
  {
    var w' := StripDecimal(w, [s1] + ([s2] + f));
    assert |w'| > 0;
    StrippedAdjacentEmits(w + ([s1] + ([s2] + f)), w', s1, s2, f);
  }

  /** The excluded whole number: "0..5" reports nothing. */
  lemma ZeroBeforeAdjacentSilent()
    ensures EmitChangeEvent("0..5") == NoEmit
  {
    var v := StripLeadingZero("0..5");
    assert v == "..5";
    assert !HasExtraFloatingPoint(v);
    NoCommaUnchanged(v);
    assert DigitRun(v) == 0 && DigitRun(v[1..]) == 0;
  }

  /** The handler on text with two adjacent separators whose leading zero,
      if any, is already dropped. */
  lemma StrippedAdjacentEmits(input: string, w: string, s1: char, s2: char, f: string)
    requires AllDigits(w) && |w| > 0
    requires IsSeparator(s1) && IsSeparator(s2) && AllDigits(f) && |f| > 0
    requires StripLeadingZero(input) == w + ([s1] + ([s2] + f))
    ensures EmitChangeEvent(input) == Emit(IntValue(w) as real)
  {
    AdjacentNoPattern(w, s1, s2, f);
    EndsLike(w, [s1] + ([s2] + f));
    EndsLike([s1], [s2] + f);
    EndsLike([s2], f);
    DigitsEndNoSeparator(f);
    AdjacentParses(w, s1, s2, f);
    EmitsParse(input, w + ([s1] + ([s2] + f)), IntValue(w) as real);
  }

  /** Two adjacent separators have no digit between them for the pattern. */
  lemma AdjacentNoPattern(w: string, s1: char, s2: char, f: string)
    requires AllDigits(w) && IsSeparator(s1) && IsSeparator(s2) && AllDigits(f)
    ensures !HasExtraFloatingPoint(w + ([s1] + ([s2] + f)))
  {
    DigitsKeepReady(w, [s1] + ([s2] + f));
    assert ([s1] + ([s2] + f))[1..] == [s2] + f;
    assert ([s2] + f)[1..] == f;
    DigitsNeverMatch(f, AfterSeparator);
  }

  /** Two adjacent separators: whichever is a comma, the first separator
      ends the number `parseFloat` reads. */
  lemma AdjacentParses(w: string, s1: char, s2: char, f: string)
    requires AllDigits(w) && |w| > 0
    requires IsSeparator(s1) && IsSeparator(s2) && AllDigits(f)
    ensures ParseFloat(ReplaceFirstComma(w + ([s1] + ([s2] + f)))) == Some(IntValue(w) as real)
  {
    AdjacentReplaced(w, s1, s2, f);
    ParseWholeBeforePoint(w, [if s1 == ',' then s2 else '.'] + f);
  }

  /** The first comma of two adjacent separators is the first of them, or
      the second when the first is a point. */
  lemma AdjacentReplaced(w: string, s1: char, s2: char, f: string)
    requires AllDigits(w) && IsSeparator(s1) && IsSeparator(s2) && AllDigits(f)
    ensures ReplaceFirstComma(w + ([s1] + ([s2] + f))) ==
              w + (['.'] + ([if s1 == ',' then s2 else '.'] + f))
  {
    if s1 == ',' {
      ReplaceAtSeparator(w, s1, [s2] + f);
    } else {
      PointThenSeparatorReplaced(w, s2, f);
    }
  }

  lemma PointThenSeparatorReplaced(w: string, s2: char, f: string)
    requires AllDigits(w) && IsSeparator(s2) && AllDigits(f)
    ensures ReplaceFirstComma(w + (['.'] + ([s2] + f))) == w + (['.'] + (['.'] + f))
  {
    var v := w + (['.'] + ([s2] + f));
    assert v == (w + ['.']) + ([s2] + f);
    assert (w + ['.']) + (['.'] + f) == w + (['.'] + (['.'] + f));
    ReplaceAtSeparator(w + ['.'], s2, f);
  }

  /** Whether a text ends with a separator depends only on its last part. */
  lemma EndsLike(p: string, q: string)
    requires |q| > 0
    ensures EndsWithSeparator(p + q) == EndsWithSeparator(q)
  {
    assert (p + q)[|p + q| - 1] == q[|q| - 1];
  }

  lemma DigitsEndNoSeparator(f: string)
    requires AllDigits(f)
    ensures !EndsWithSeparator(f)
  {
    if |f| > 0 {
      assert IsDigit(f[|f| - 1]);
    }
  }

  /** Only one leading '0' is dropped: "0-5" is read as -5, while after
      two zeros the second one is read as the number. */
  lemma OnlyOneLeadingZeroDropped()
    ensures EmitChangeEvent("0-5") == Emit(-5.0)
    ensures EmitChangeEvent("00-5") == Emit(0.0)
  {
    MinusFiveEmitted();
    ZeroBeforeMinusFiveEmitted();
  }

  lemma MinusFiveEmitted()
    ensures EmitChangeEvent("0-5") == Emit(-5.0)
  {
    UnsignedWhenDigitFirst("5");
    ParseInteger("5");
    assert ParseFloat("-5") == Some(-5.0);
    NoCommaUnchanged("-5");
    EmitsParse("0-5", "-5", -5.0);
  }

  lemma ZeroBeforeMinusFiveEmitted()
    ensures EmitChangeEvent("00-5") == Emit(0.0)
  {
    ParseAfterDigits("0-5", "0", "-5");
    assert FractionDigits("-5") == [];
    assert ParseFloat("0-5") == Some(0.0);
    NoCommaUnchanged("0-5");
    EmitsParse("00-5", "0-5", 0.0);
  }
}
