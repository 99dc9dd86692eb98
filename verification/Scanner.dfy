/**
 npf_parse_format_spec: a cursor over a NUL-terminated text that fills in a specification.
 */
module Scanner {
  import opened Wrappers
  import opened FormatSpec

  /** A text with its terminating NUL, so that reading past the NUL would be out of bounds. */
  ghost predicate CString(text: string) {
    |text| > 0 && text[|text|-1] == '\0' && forall i :: 0 <= i < |text| - 1 ==> text[i] != '\0'
  }

  /** The characters from a position up to the NUL. */
  function Rest(text: string, at: nat): string
    requires at < |text|
  {
    text[at..|text|-1]
  }

  lemma RestBehind(text: string, at: nat, t: string)
    requires at < |text| && t <= Rest(text, at)
    ensures at + |t| < |text| && Behind(Rest(text, at), t) == Rest(text, at + |t|)
  {
  }

  lemma {:induction false} SpanIs(s: string, n: nat, p: char -> bool)
    requires n <= |s| && All(s[..n], p) && (n < |s| ==> !p(s[n]))
    ensures Span(s, p) == n
  {
    assert forall i :: 0 <= i < n ==> p(s[..n][i]);
  }

  const BLANK := Spec('\0', false, Absent, 0, false, false, Absent, 0, NoLength, Percent, LOWERCASE)

  /** The fields of a specification that its flags decide. */
  ghost predicate FlagsRead(fs: Spec, flags: string) {
    fs == BLANK.(left := '-' in flags, zeroPad := Zeroed(flags), prepend := Prepend(flags), altForm := '#' in flags)
  }

  lemma FlagRead(fs: Spec, flags: string, c: char, fs': Spec)
    requires FlagsRead(fs, flags) && IsFlag(c)
    requires fs' == match c
                    case '-' => fs.(left := true, zeroPad := false)
                    case '0' => fs.(zeroPad := !fs.left)
                    case '+' => fs.(prepend := '+')
                    case ' ' => if fs.prepend == '\0' then fs.(prepend := ' ') else fs
                    case _ => fs.(altForm := true)
    ensures FlagsRead(fs', flags + [c])
  {
    var more := flags + [c];
    assert forall d :: d in more <==> d in flags || d == c;
  }

  lemma {:induction false} Longer(text: string, start: nat, cur: nat)
    requires start <= cur < |text|
    ensures text[start..cur + 1] == text[start..cur] + [text[cur]]
  {
  }

  /** A '%' at a position, the flags behind it, and the position behind them. */
  ghost predicate FlagsAt(text: string, format: nat, flags: string, start: nat) {
    && format + 1 <= start < |text| && start == format + 1 + |flags|
    && "%" <= Rest(text, format) && Behind(Rest(text, format), "%") == Rest(text, format + 1)
    && flags == Rest(text, format + 1)[..Span(Rest(text, format + 1), IsFlag)]
    && Behind(Rest(text, format + 1), flags) == Rest(text, start)
  }

  /** The flags after the leading '%'. */
  method ReadFlags(text: string, format: nat) returns (cur: nat, fs: Spec)
    requires CString(text) && format < |text| - 1 && text[format] == '%'
    ensures format < cur < |text|
    ensures FlagsRead(fs, text[format + 1..cur])
    ensures FlagsAt(text, format, text[format + 1..cur], cur)
  {
    fs := BLANK;
    cur := format + 1;
    while text[cur] != '\0'
      invariant format + 1 <= cur < |text|
      invariant All(text[format + 1..cur], IsFlag) && FlagsRead(fs, text[format + 1..cur])
      decreases |text| - cur
    {
      var c := text[cur];
      ghost var before := fs;
      if c == '-' {
        fs := fs.(left := true, zeroPad := false);
      } else if c == '0' {
        fs := fs.(zeroPad := !fs.left);
      } else if c == '+' {
        fs := fs.(prepend := '+');
      } else if c == ' ' {
        if fs.prepend == '\0' {
          fs := fs.(prepend := ' ');
        }
      } else if c == '#' {
        fs := fs.(altForm := true);
      } else {
        break;
      }
      FlagRead(before, text[format + 1..cur], c, fs);
      Longer(text, format + 1, cur);
      cur := cur + 1;
    }
    FlagsEnd(text, format, cur);
  }

  lemma {:induction false} FlagsEnd(text: string, format: nat, cur: nat)
    requires CString(text) && format < cur < |text| && text[format] == '%'
    requires All(text[format + 1..cur], IsFlag) && !IsFlag(text[cur])
    ensures FlagsAt(text, format, text[format + 1..cur], cur)
  {
    assert Rest(text, format + 1)[..cur - (format + 1)] == text[format + 1..cur];
    SpanIs(Rest(text, format + 1), cur - (format + 1), IsFlag);
    RestBehind(text, format, "%");
    RestBehind(text, format + 1, text[format + 1..cur]);
  }

  /** The run of digits at a position. */
  function DigitsAt(text: string, start: nat): (ds: string)
    requires start < |text|
    ensures All(ds, IsDigit) && start + |ds| < |text|
  {
    Rest(text, start)[..Span(Rest(text, start), IsDigit)]
  }

  lemma {:induction false} SpanAtLeast(s: string, n: nat, p: char -> bool)
    requires n <= |s| && All(s[..n], p)
    ensures n <= Span(s, p)
  {
    SpanFirst(s[..n], s, p, Span(s, p));
  }

  lemma {:induction false} SpanFirst(t: string, s: string, p: char -> bool, k: nat)
    requires t <= s && All(t, p) && k <= |s| && (k < |s| ==> !p(s[k]))
    ensures |t| <= k
  {
  }

  /** Digits read so far are the beginning of the run. */
  lemma {:induction false} WithinDigits(text: string, start: nat, cur: nat)
    requires start <= cur < |text| && All(text[start..cur], IsDigit)
    ensures cur - start <= |DigitsAt(text, start)| && text[start..cur] == DigitsAt(text, start)[..cur - start]
  {
    assert Rest(text, start)[..cur - start] == text[start..cur];
    SpanAtLeast(Rest(text, start), cur - start, IsDigit);
  }

  /** One more digit: its value is added, and stays within that of the whole run. */
  lemma {:induction false} DigitRead(text: string, start: nat, cur: nat)
    requires start <= cur < |text| - 1 && All(text[start..cur], IsDigit) && IsDigit(text[cur])
    ensures All(text[start..cur + 1], IsDigit)
    ensures Decimal(text[start..cur + 1]) == Decimal(text[start..cur]) * 10 + (text[cur] - '0') as nat
    ensures Decimal(text[start..cur + 1]) <= Decimal(DigitsAt(text, start))
  {
    hide DigitsAt, Decimal;
    Longer(text, start, cur);
    DecimalNext(text[start..cur], text[cur]);
    WithinDigits(text, start, cur + 1);
    DecimalPrefix(DigitsAt(text, start), cur + 1 - start);
  }

  /** A run of decimal digits and its value, which no step of the computation exceeds. */
  method ReadDigits(text: string, start: nat) returns (cur: nat, value: nat)
    requires CString(text) && start < |text| && Decimal(DigitsAt(text, start)) <= INT_MAX
    ensures cur == start + |DigitsAt(text, start)| && value == Decimal(DigitsAt(text, start))
  {
    hide DigitsAt, Decimal;
    cur, value := start, 0;
    DigitsEnd(text, start, start);
    while '0' <= text[cur] <= '9'
      invariant start <= cur < |text| && value <= INT_MAX
      invariant All(text[start..cur], IsDigit) && value == Decimal(text[start..cur])
      decreases |text| - cur
    {
      DigitRead(text, start, cur);
      value := value * 10 + (text[cur] - '0') as nat;
      cur := cur + 1;
    }
    DigitsEnd(text, start, cur);
  }

  lemma {:induction false} DigitsEnd(text: string, start: nat, cur: nat)
    requires start <= cur < |text| && All(text[start..cur], IsDigit)
    ensures cur == start ==> Decimal(text[start..cur]) == 0
    ensures !IsDigit(text[cur]) ==> DigitsAt(text, start) == text[start..cur]
  {
    assert Rest(text, start)[..cur - start] == text[start..cur];
    if !IsDigit(text[cur]) {
      SpanIs(Rest(text, start), cur - start, IsDigit);
    }
  }

  lemma DecimalNext(ds: string, d: char)
    requires All(ds, IsDigit) && IsDigit(d)
    ensures All(ds + [d], IsDigit) && Decimal(ds + [d]) == Decimal(ds) * 10 + (d - '0') as nat
  {
    assert (ds + [d])[..|ds|] == ds;
  }

  /** The width at a position, and the position behind it. */
  ghost predicate WidthAt(text: string, start: nat, w: Width, cur: nat) {
    && start <= cur < |text| && w == ScanWidth(Rest(text, start))
    && Behind(Rest(text, start), SpellWidth(w)) == Rest(text, cur) && cur == start + |SpellWidth(w)|
  }

  /** The precision at a position, and the position behind it. */
  ghost predicate PrecisionAt(text: string, start: nat, p: Precision, cur: nat) {
    && start <= cur < |text| && p == ScanPrecision(Rest(text, start))
    && Behind(Rest(text, start), SpellPrecision(p)) == Rest(text, cur) && cur == start + |SpellPrecision(p)|
  }

  /** The length modifier at a position, and the position behind it. */
  ghost predicate LengthAt(text: string, start: nat, l: LengthModifier, cur: nat) {
    && start <= cur < |text| && l == ScanLength(Rest(text, start))
    && Behind(Rest(text, start), SpellLength(l)) == Rest(text, cur) && cur == start + |SpellLength(l)|
  }

  /** The field width. */
  method ReadWidth(text: string, start: nat, fs0: Spec) returns (cur: nat, fs: Spec, ghost w: Width)
    requires CString(text) && start < |text| && WidthFits(ScanWidth(Rest(text, start)))
    ensures WidthAt(text, start, w, cur)
    ensures w.Wide? ==> All(w.digits, IsDigit)
    ensures fs == fs0.(widthOpt := if w.NoWidth? then Absent else if w.StarWidth? then Star else Literal,
                       width := if w.Wide? then Decimal(w.digits) else 0)
  {
    cur, fs := start, fs0.(widthOpt := Absent, width := 0);
    w := ScanWidth(Rest(text, start));
    if text[cur] == '*' {
      fs := fs.(widthOpt := Star);
      cur := cur + 1;
    } else {
      var value;
      cur, value := ReadDigits(text, start);
      if cur > start {
        fs := fs.(widthOpt := Literal, width := value);
      }
    }
  }

  /** The precision. */
  method ReadPrecision(text: string, start: nat, fs0: Spec) returns (cur: nat, fs: Spec, ghost p: Precision)
    requires CString(text) && start < |text| && PrecisionFits(ScanPrecision(Rest(text, start)))
    ensures PrecisionAt(text, start, p, cur)
    ensures p.Precise? || p.Negative? ==> All(p.digits, IsDigit)
    ensures fs == fs0.(precOpt := PrecisionOpt(p), prec := PrecisionValue(p))
  {
    hide Span, SpellPrecision, PrecisionAt;
    cur, fs := start, fs0.(prec := 0, precOpt := Absent);
    p := ScanPrecision(Rest(text, start));
    if text[cur] == '.' {
      RestBehind(text, start, ".");
      cur := cur + 1;
      if text[cur] == '*' {
        fs := fs.(precOpt := Star);
        cur := cur + 1;
      } else {
        if text[cur] == '-' {
          RestBehind(text, cur, "-");
          cur := cur + 1;
          fs := fs.(precOpt := Absent);
          assert p == Negative(DigitsAt(text, cur));
        } else {
          fs := fs.(precOpt := Literal);
          assert p == Precise(DigitsAt(text, cur));
        }
        var value;
        cur, value := ReadDigits(text, cur);
        fs := fs.(prec := value);
      }
    }
    PrecisionEnds(text, start, p, cur);
  }

  lemma PrecisionEnds(text: string, start: nat, p: Precision, cur: nat)
    requires start < |text| && p == ScanPrecision(Rest(text, start)) && cur == start + PrecisionLength(p)
    ensures PrecisionAt(text, start, p, cur)
  {
    RestBehind(text, start, SpellPrecision(p));
  }

  function PrecisionLength(p: Precision): nat {
    match p
    case NoPrecision => 0
    case StarPrecision => 2
    case Precise(ds) => 1 + |ds|
    case Negative(ds) => 2 + |ds|
  }

  /** The length modifier. */
  method ReadLength(text: string, start: nat, fs0: Spec) returns (cur: nat, fs: Spec, ghost l: LengthModifier)
    requires CString(text) && start < |text|
    ensures LengthAt(text, start, l, cur)
    ensures fs == fs0.(length := l)
  {
    fs := fs0.(length := NoLength);
    l := ScanLength(Rest(text, start));
    var c := text[start];
    cur := start + 1;
    if c == 'h' {
      fs := fs.(length := Short);
      if text[cur] == 'h' {
        fs := fs.(length := Char);
        cur := cur + 1;
      }
    } else if c == 'l' {
      fs := fs.(length := Long);
      if text[cur] == 'l' {
        fs := fs.(length := LongLong);
        cur := cur + 1;
      }
    } else if c == 'j' {
      fs := fs.(length := IntMax);
    } else if c == 'z' {
      fs := fs.(length := SizeT);
    } else if c == 't' {
      fs := fs.(length := PtrDiff);
    } else {
      cur := cur - 1;
    }
  }

  /** The conversion character, which may override the '0' flag or the precision. */
  method ReadConversion(c: char, fs0: Spec) returns (ok: bool, fs: Spec)
    requires fs0.caseAdjust == LOWERCASE
    ensures ok <==> IsConversion(c)
    ensures ok ==> fs == fs0.(conv := ConversionOf(c),
                              zeroPad := fs0.zeroPad && c != 's' && !(IsNumeric(c) && fs0.precOpt != Absent),
                              precOpt := if IsNumeric(c) || c == 's' then fs0.precOpt else Absent,
                              caseAdjust := if c == 'X' then 0 else LOWERCASE)
  {
    ok, fs := true, fs0;
    match c {
      case '%' => fs := fs.(conv := Percent, precOpt := Absent);
      case 'c' => fs := fs.(conv := Character, precOpt := Absent);
      case 's' => fs := fs.(conv := String, zeroPad := false);
      case 'p' => fs := fs.(conv := Pointer, precOpt := Absent);
      case _ =>
        if c == 'i' || c == 'd' {
          fs := fs.(conv := SignedInt);
        } else if c == 'o' {
          fs := fs.(conv := Octal);
        } else if c == 'u' {
          fs := fs.(conv := UnsignedInt);
        } else if c == 'X' {
          fs := fs.(conv := HexInt, caseAdjust := 0);
        } else if c == 'x' {
          fs := fs.(conv := HexInt);
        } else {
          return false, fs;
        }
        if fs.precOpt != Absent {
          fs := fs.(zeroPad := false);
        }
    }
  }

  /** The fields between the flags and the conversion. */
  method ReadFields(text: string, start: nat, fs0: Spec)
    returns (cur: nat, fs: Spec, ghost w: Width, ghost p: Precision, ghost l: LengthModifier, ghost a: nat,
             ghost b: nat)
    requires CString(text) && start < |text| && FieldsFit(Rest(text, start))
    ensures WidthAt(text, start, w, a) && PrecisionAt(text, a, p, b) && LengthAt(text, b, l, cur)
    ensures w.Wide? ==> All(w.digits, IsDigit)
    ensures p.Precise? || p.Negative? ==> All(p.digits, IsDigit)
    ensures fs == fs0.(widthOpt := if w.NoWidth? then Absent else if w.StarWidth? then Star else Literal,
                       width := if w.Wide? then Decimal(w.digits) else 0,
                       precOpt := PrecisionOpt(p), prec := PrecisionValue(p), length := l)
  {
    cur, fs, w := ReadWidth(text, start, fs0);
    a := cur;
    cur, fs, p := ReadPrecision(text, cur, fs);
    b := cur;
    cur, fs, l := ReadLength(text, cur, fs);
  }

  /** The parts found one after the other are those of the scan. */
  lemma {:induction false} ScanSteps(text: string, format: nat, flags: string, start: nat, w: Width, a: nat,
                                     p: Precision, b: nat,
                  l: LengthModifier, cur: nat)
    requires FlagsAt(text, format, flags, start)
    requires WidthAt(text, start, w, a) && PrecisionAt(text, a, p, b) && LengthAt(text, b, l, cur)
    ensures var s4 := Rest(text, cur);
            Scan(Rest(text, format)) ==
            if s4 != "" && IsConversion(s4[0]) then Some(Parts(flags, w, p, l, s4[0])) else None
    ensures Scan(Rest(text, format)).Some? ==>
              && WellFormed(Scan(Rest(text, format)).value)
              && |Spell(Scan(Rest(text, format)).value)| == cur + 1 - format
  {
    ScanParts(Rest(text, format), Rest(text, format + 1), flags, Rest(text, start), w, Rest(text, a), p,
              Rest(text, b), l,
              Rest(text, cur));
  }

  lemma ScanParts(s: string, s0: string, flags: string, s1: string, w: Width, s2: string, p: Precision, s3: string,
                  l: LengthModifier, s4: string)
    requires "%" <= s && s0 == Behind(s, "%")
    requires flags == s0[..Span(s0, IsFlag)] && s1 == Behind(s0, flags)
    requires w == ScanWidth(s1) && s2 == Behind(s1, SpellWidth(w))
    requires p == ScanPrecision(s2) && s3 == Behind(s2, SpellPrecision(p))
    requires l == ScanLength(s3) && s4 == Behind(s3, SpellLength(l))
    ensures Scan(s) == if s4 != "" && IsConversion(s4[0]) then Some(Parts(flags, w, p, l, s4[0])) else None
    ensures Scan(s).Some? ==>
              && WellFormed(Scan(s).value)
              && |Spell(Scan(s).value)| == 2 + |flags| + |SpellWidth(w)| + |SpellPrecision(p)| + |SpellLength(l)|
  {
    ScanSound(s);
  }

  lemma RestFirst(text: string, at: nat)
    requires CString(text) && at < |text|
    ensures if text[at] == '\0' then Rest(text, at) == "" else Rest(text, at) != "" && Rest(text, at)[0] == text[at]
    ensures !IsConversion('\0')
  {
  }

  /**
   npf_parse_format_spec: the length of the specification at a '%' and its meaning, or 0 if the
   text holds none there. The cursor never passes the NUL.
   */
  method ParseFormatSpec(text: string, format: nat) returns (len: nat, fs: Spec)
    requires CString(text) && format < |text| - 1 && text[format] == '%' && NumbersFit(Rest(text, format))
    ensures match Scan(Rest(text, format))
            case None => len == 0
            case Some(p) => WellFormed(p) && len == |Spell(p)| && fs == Meaning(p)
  {
    var cur, ok;
    ghost var w, p, l, a, b;
    cur, fs := ReadFlags(text, format);
    ghost var start := cur;
    cur, fs, w, p, l, a, b := ReadFields(text, cur, fs);
    ScanSteps(text, format, text[format + 1..start], start, w, a, p, b, l, cur);
    RestFirst(text, cur);
    ok, fs := ReadConversion(text[cur], fs);
    cur := cur + 1;
    if !ok {
      return 0, fs;
    }
    len := cur - format;
  }
}
