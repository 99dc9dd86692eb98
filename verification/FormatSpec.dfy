/**
 Format specifications: the language they are written in, what they mean, and the scanner that
 reads them off a NUL-terminated text.
 */
module FormatSpec {
  import opened Wrappers

  datatype Opt = Absent | Literal | Star

  datatype LengthModifier = NoLength | Short | Char | Long | LongLong | IntMax | SizeT | PtrDiff

  datatype Conversion = Percent | Character | String | SignedInt | Octal | HexInt | UnsignedInt | Pointer

  /** npf_format_spec_t; '\0' in prepend is no character. */
  datatype Spec = Spec(prepend: char, altForm: bool, widthOpt: Opt, width: int, left: bool, zeroPad: bool,
                       precOpt: Opt, prec: int, length: LengthModifier, conv: Conversion, caseAdjust: nat)

  const LOWERCASE := 32 // 'a' - 'A'

  // ---------- the grammar ----------

  datatype Width = NoWidth | StarWidth | Wide(digits: string)

  datatype Precision = NoPrecision | StarPrecision | Precise(digits: string) | Negative(digits: string)

  /** A specification by its parts: % flags* width? precision? length? conversion. */
  datatype Parts = Parts(flags: string, width: Width, precision: Precision, length: LengthModifier, conv: char)

  predicate IsFlag(c: char) {
    c == '-' || c == '0' || c == '+' || c == ' ' || c == '#'
  }

  predicate IsDigit(c: char) {
    '0' <= c <= '9'
  }

  predicate IsConversion(c: char) {
    c == '%' || c == 'c' || c == 's' || c == 'p' || IsNumeric(c)
  }

  predicate IsNumeric(c: char) {
    c == 'd' || c == 'i' || c == 'o' || c == 'u' || c == 'x' || c == 'X'
  }

  predicate All(s: string, p: char -> bool) {
    forall i :: 0 <= i < |s| ==> p(s[i])
  }

  predicate WellFormed(p: Parts) {
    && All(p.flags, IsFlag)
    && (p.width.Wide? ==> p.width.digits != "" && All(p.width.digits, IsDigit) && p.width.digits[0] != '0')
    && (p.precision.Precise? || p.precision.Negative? ==> All(p.precision.digits, IsDigit))
    && IsConversion(p.conv)
  }

  function SpellWidth(w: Width): string {
    match w
    case NoWidth => ""
    case StarWidth => "*"
    case Wide(ds) => ds
  }

  function SpellPrecision(p: Precision): string {
    match p
    case NoPrecision => ""
    case StarPrecision => ".*"
    case Precise(ds) => "." + ds
    case Negative(ds) => ".-" + ds
  }

  function SpellLength(l: LengthModifier): string {
    match l
    case NoLength => ""
    case Short => "h"
    case Char => "hh"
    case Long => "l"
    case LongLong => "ll"
    case IntMax => "j"
    case SizeT => "z"
    case PtrDiff => "t"
  }

  function SpellTail(p: Parts): string {
    SpellWidth(p.width) + (SpellPrecision(p.precision) + (SpellLength(p.length) + [p.conv]))
  }

  function Spell(p: Parts): string {
    "%" + (p.flags + SpellTail(p))
  }

  // ---------- what a specification means ----------

  function Decimal(ds: string): nat
    requires All(ds, IsDigit)
  {
    if ds == "" then 0 else Decimal(ds[..|ds|-1]) * 10 + (ds[|ds|-1] - '0') as nat
  }

  /** '+' wins over ' ' whatever their order. */
  function Prepend(flags: string): char {
    if '+' in flags then '+' else if ' ' in flags then ' ' else '\0'
  }

  /** '-' overrides '0' whatever their order. */
  predicate Zeroed(flags: string) {
    '0' in flags && '-' !in flags
  }

  /** A minus sign before the digits drops the precision, but not its number. */
  function PrecisionOpt(p: Precision): Opt {
    match p
    case NoPrecision => Absent
    case StarPrecision => Star
    case Precise(_) => Literal
    case Negative(_) => Absent
  }

  function PrecisionValue(p: Precision): nat
    requires p.Precise? || p.Negative? ==> All(p.digits, IsDigit)
  {
    if p.Precise? || p.Negative? then Decimal(p.digits) else 0
  }

  function ConversionOf(c: char): Conversion
    requires IsConversion(c)
  {
    if c == '%' then Percent
    else if c == 'c' then Character
    else if c == 's' then String
    else if c == 'p' then Pointer
    else if c == 'd' || c == 'i' then SignedInt
    else if c == 'o' then Octal
    else if c == 'u' then UnsignedInt
    else HexInt
  }

  /**
   The precision only counts for strings and numbers; '0' does not count for strings, nor for
   numbers with a precision.
   */
  function Meaning(p: Parts): Spec
    requires WellFormed(p)
  {
    var opt := PrecisionOpt(p.precision);
    Spec(
      Prepend(p.flags),
      '#' in p.flags,
      if p.width.NoWidth? then Absent else if p.width.StarWidth? then Star else Literal,
      if p.width.Wide? then Decimal(p.width.digits) else 0,
      '-' in p.flags,
      Zeroed(p.flags) && p.conv != 's' && !(IsNumeric(p.conv) && opt != Absent),
      if IsNumeric(p.conv) || p.conv == 's' then opt else Absent,
      PrecisionValue(p.precision),
      p.length,
      ConversionOf(p.conv),
      if p.conv == 'X' then 0 else LOWERCASE)
  }

  // ---------- reading one off the front of a text ----------

  /** How many characters at the front are of a kind. */
  function Span(s: string, p: char -> bool): (n: nat)
    ensures n <= |s| && forall i :: 0 <= i < n ==> p(s[i])
    ensures n < |s| ==> !p(s[n])
  {
    if s == "" || !p(s[0]) then 0 else 1 + Span(s[1..], p)
  }

  /** What follows t in a text that begins with t. */
  function Behind(s: string, t: string): string
    requires t <= s
  {
    s[|t|..]
  }

  function ScanWidth(s: string): (w: Width)
    ensures SpellWidth(w) <= s
    ensures w.Wide? ==> w.digits != "" && All(w.digits, IsDigit) && w.digits[0] == s[0]
  {
    if s != "" && s[0] == '*' then StarWidth
    else
      var n := Span(s, IsDigit);
      if n == 0 then NoWidth else Wide(s[..n])
  }

  function ScanPrecision(s: string): (p: Precision)
    ensures SpellPrecision(p) <= s
    ensures p.Precise? || p.Negative? ==> All(p.digits, IsDigit)
  {
    if s == "" || s[0] != '.' then NoPrecision
    else
      var t := Behind(s, ".");
      if t != "" && t[0] == '*' then StarPrecision
      else if t != "" && t[0] == '-' then
        var u := Behind(t, "-");
        Negative(u[..Span(u, IsDigit)])
      else Precise(t[..Span(t, IsDigit)])
  }

  function ScanLength(s: string): (l: LengthModifier)
    ensures SpellLength(l) <= s
  {
    if s == "" then NoLength
    else if s[0] == 'h' then if |s| > 1 && s[1] == 'h' then Char else Short
    else if s[0] == 'l' then if |s| > 1 && s[1] == 'l' then LongLong else Long
    else if s[0] == 'j' then IntMax
    else if s[0] == 'z' then SizeT
    else if s[0] == 't' then PtrDiff
    else NoLength
  }

  /** The longest match of each part in turn. */
  function Scan(s: string): Option<Parts> {
    if s == "" || s[0] != '%' then None
    else
      var s0 := Behind(s, "%");
      var flags := s0[..Span(s0, IsFlag)];
      var s1 := Behind(s0, flags);
      var width := ScanWidth(s1);
      var s2 := Behind(s1, SpellWidth(width));
      var precision := ScanPrecision(s2);
      var s3 := Behind(s2, SpellPrecision(precision));
      var length := ScanLength(s3);
      var s4 := Behind(s3, SpellLength(length));
      if s4 != "" && IsConversion(s4[0]) then Some(Parts(flags, width, precision, length, s4[0])) else None
  }

  // ---------- numbers that fit an int ----------

  const INT_MAX := 0x7fff_ffff
  const INT_MIN := -0x8000_0000

  /** A literal width or precision whose value C can compute. */
  predicate WidthFits(w: Width) {
    w.Wide? ==> All(w.digits, IsDigit) && Decimal(w.digits) <= INT_MAX
  }

  predicate PrecisionFits(p: Precision) {
    p.Precise? || p.Negative? ==> All(p.digits, IsDigit) && Decimal(p.digits) <= INT_MAX
  }

  /** The digits behind the flags, whether or not a conversion follows them. */
  predicate FieldsFit(s: string) {
    var w := ScanWidth(s);
    WidthFits(w) && PrecisionFits(ScanPrecision(Behind(s, SpellWidth(w))))
  }

  predicate NumbersFit(s: string)
    requires "%" <= s
  {
    var s0 := Behind(s, "%");
    FieldsFit(Behind(s0, s0[..Span(s0, IsFlag)]))
  }

  /** The value of some digits is at least that of any of their beginnings. */
  lemma {:induction false} DecimalPrefix(ds: string, k: nat)
    requires All(ds, IsDigit) && k <= |ds|
    ensures All(ds[..k], IsDigit) && Decimal(ds[..k]) <= Decimal(ds)
    decreases |ds|
  {
    if k == |ds| {
      assert ds[..k] == ds;
    } else {
      var front := ds[..|ds|-1];
      DecimalPrefix(front, k);
      assert front[..k] == ds[..k];
    }
  }

  // ---------- the scanner accepts exactly the grammar ----------

  lemma BehindFront(t: string, rest: string)
    ensures t <= t + rest && Behind(t + rest, t) == rest
  {
  }

  lemma FrontBehind(s: string, t: string)
    requires t <= s
    ensures s == t + Behind(s, t)
  {
  }

  lemma SpanConcat(a: string, b: string, p: char -> bool)
    requires All(a, p) && (b == "" || !p(b[0]))
    ensures Span(a + b, p) == |a| && (a + b)[..|a|] == a
  {
    var s := a + b;
    assert forall i :: 0 <= i < |a| ==> s[i] == a[i];
    assert b != "" ==> s[|a|] == b[0];
  }

  lemma WidthScan(w: Width, rest: string)
    requires w.Wide? ==> w.digits != "" && All(w.digits, IsDigit)
    requires rest != "" && !IsDigit(rest[0]) && rest[0] != '*'
    ensures ScanWidth(SpellWidth(w) + rest) == w
  {
    match w
    case NoWidth => assert "" + rest == rest;
    case StarWidth =>
    case Wide(ds) => SpanConcat(ds, rest, IsDigit);
  }

  lemma PrecisionScan(p: Precision, rest: string)
    requires p.Precise? || p.Negative? ==> All(p.digits, IsDigit)
    requires rest != "" && !IsDigit(rest[0]) && rest[0] != '.' && rest[0] != '*' && rest[0] != '-'
    ensures ScanPrecision(SpellPrecision(p) + rest) == p
  {
    match p {
      case NoPrecision => BehindFront("", rest);
      case StarPrecision =>
      case Precise(ds) => PreciseScan(ds, rest);
      case Negative(ds) => NegativeScan(ds, rest);
    }
  }

  lemma PreciseScan(ds: string, rest: string)
    requires All(ds, IsDigit) && rest != "" && !IsDigit(rest[0]) && rest[0] != '*' && rest[0] != '-'
    ensures ScanPrecision(("." + ds) + rest) == Precise(ds)
  {
    Assoc(".", ds, rest);
    BehindFront(".", ds + rest);
    SpanConcat(ds, rest, IsDigit);
  }

  lemma NegativeScan(ds: string, rest: string)
    requires All(ds, IsDigit) && rest != "" && !IsDigit(rest[0])
    ensures ScanPrecision((".-" + ds) + rest) == Negative(ds)
  {
    Assoc(".-", ds, rest);
    assert ".-" == "." + "-";
    Assoc(".", "-", ds + rest);
    BehindFront(".", "-" + (ds + rest));
    BehindFront("-", ds + rest);
    SpanConcat(ds, rest, IsDigit);
  }

  lemma LengthScan(l: LengthModifier, rest: string)
    requires rest != "" && IsConversion(rest[0])
    ensures ScanLength(SpellLength(l) + rest) == l
  {
    match l
    case NoLength => assert "" + rest == rest;
    case _ =>
  }

  /** The longest match finds the parts of a specification whatever follows it. */
  lemma {:induction false} ScanSpelled(p: Parts, rest: string)
    requires WellFormed(p)
    ensures Scan(Spell(p) + rest) == Some(p)
  {
    var s4 := [p.conv] + rest;
    var s3 := SpellLength(p.length) + s4;
    var s2 := SpellPrecision(p.precision) + s3;
    var s1 := SpellWidth(p.width) + s2;
    var s0 := p.flags + s1;
    SpellSplit(p, rest);
    BehindFront("%", s0);
    FirstOfTail(p, s1, s2, s3, s4);
    SpanConcat(p.flags, s1, IsFlag);
    BehindFront(p.flags, s1);
    WidthScan(p.width, s2);
    BehindFront(SpellWidth(p.width), s2);
    PrecisionScan(p.precision, s3);
    BehindFront(SpellPrecision(p.precision), s3);
    LengthScan(p.length, s4);
    BehindFront(SpellLength(p.length), s4);
  }

  lemma SpellSplit(p: Parts, rest: string)
    ensures Spell(p) + rest ==
            "%" + (p.flags + (SpellWidth(p.width) +
                              (SpellPrecision(p.precision) + (SpellLength(p.length) + ([p.conv] + rest)))))
  {
    var w, pr, l, c := SpellWidth(p.width), SpellPrecision(p.precision), SpellLength(p.length), [p.conv];
    Assoc(l, c, rest);
    Assoc(pr, l + c, rest);
    Assoc(w, pr + (l + c), rest);
    Assoc(p.flags, SpellTail(p), rest);
    Assoc("%", p.flags + SpellTail(p), rest);
  }

  lemma Assoc(a: string, b: string, c: string)
    ensures (a + b) + c == a + (b + c)
  {
  }

  /** What each part may be followed by. */
  lemma FirstOfTail(p: Parts, s1: string, s2: string, s3: string, s4: string)
    requires WellFormed(p) && s4 != "" && s4[0] == p.conv && s3 == SpellLength(p.length) + s4
    requires s2 == SpellPrecision(p.precision) + s3 && s1 == SpellWidth(p.width) + s2
    ensures s3 != "" && !IsDigit(s3[0]) && s3[0] != '.' && s3[0] != '*' && s3[0] != '-' && !IsFlag(s3[0])
    ensures s2 != "" && !IsDigit(s2[0]) && s2[0] != '*' && !IsFlag(s2[0])
    ensures s1 != "" && !IsFlag(s1[0])
  {
    assert s3[0] == if p.length.NoLength? then p.conv else SpellLength(p.length)[0];
    assert s2[0] == if p.precision.NoPrecision? then s3[0] else '.';
    assert s1[0] == if p.width.NoWidth? then s2[0] else SpellWidth(p.width)[0];
  }

  lemma {:induction false} ScanSound(s: string)
    ensures Scan(s).Some? ==> WellFormed(Scan(s).value) && Spell(Scan(s).value) <= s
  {
    if Scan(s).Some? {
      var p := Scan(s).value;
      var s0 := Behind(s, "%");
      var s1 := Behind(s0, p.flags);
      var s2 := Behind(s1, SpellWidth(p.width));
      var s3 := Behind(s2, SpellPrecision(p.precision));
      var s4 := Behind(s3, SpellLength(p.length));
      assert WellFormed(p);
      Assemble(p, s, s0, s1, s2, s3, s4);
    }
  }

  lemma Assemble(p: Parts, s: string, s0: string, s1: string, s2: string, s3: string, s4: string)
    requires "%" <= s && s0 == Behind(s, "%")
    requires p.flags <= s0 && s1 == Behind(s0, p.flags)
    requires SpellWidth(p.width) <= s1 && s2 == Behind(s1, SpellWidth(p.width))
    requires SpellPrecision(p.precision) <= s2 && s3 == Behind(s2, SpellPrecision(p.precision))
    requires SpellLength(p.length) <= s3 && s4 == Behind(s3, SpellLength(p.length))
    requires [p.conv] <= s4
    ensures Spell(p) <= s
  {
    var rest := Behind(s4, [p.conv]);
    FrontBehind(s, "%");
    FrontBehind(s0, p.flags);
    FrontBehind(s1, SpellWidth(p.width));
    FrontBehind(s2, SpellPrecision(p.precision));
    FrontBehind(s3, SpellLength(p.length));
    FrontBehind(s4, [p.conv]);
    SpellSplit(p, rest);
    assert s == Spell(p) + rest;
    BehindFront(Spell(p), rest);
  }

  /**
   A text begins with a specification exactly when the scanner finds it; so no text begins with
   two different ones, and what follows a specification never changes how it is read.
   */
  lemma {:induction false} ScanExact(s: string, p: Parts)
    ensures Scan(s) == Some(p) <==> WellFormed(p) && Spell(p) <= s
  {
    ScanSound(s);
    if WellFormed(p) && Spell(p) <= s {
      FrontBehind(s, Spell(p));
      ScanSpelled(p, Behind(s, Spell(p)));
    }
  }
}
