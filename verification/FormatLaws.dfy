/**
 What section 7.21.6.1 of ISO/IEC 9899:2011 asks of the conversions, said from the letters and digits
 of a specification alone, and how far the formatter meets it.
 */
module FormatLaws {
  import opened Arithmetic
  import opened Wrappers
  import opened FormatSpec
  import opened Digits
  import opened Conversion
  import opened FormatText

  // ---------- the letters ----------

  lemma Alphabet(c: char)
    ensures IsConversion(c) <==> c in "%cspdiouxX"
    ensures IsFlag(c) <==> c in "-0+ #"
    ensures IsDigit(c) <==> c in "0123456789"
  {
  }

  predicate NumberLetter(c: char) {
    c in "diouxXp"
  }

  function LetterBase(c: char): (b: nat)
    ensures Base(b)
  {
    if c == 'o' then 8 else if c == 'x' || c == 'X' || c == 'p' then 16 else 10
  }

  /** The distance from upper-case to lower-case letters, or 0 for capitals. */
  function LetterCase(c: char): (a: nat)
    ensures CaseAdjust(a)
  {
    if c == 'X' then 0 else 32
  }

  // ---------- the number an argument carries ----------

  /** How many numbers the C type has that the letter and the length modifier name. */
  function Range(p: Parts): (n: nat)
    ensures n > 0 && n % 2 == 0
  {
    if p.conv == 'p' then 0x1_0000_0000_0000_0000
    else
      match SpellLength(p.length)
      case "hh" => 0x100
      case "h" => 0x1_0000
      case "" => 0x1_0000_0000
      case _ => 0x1_0000_0000_0000_0000
  }

  predicate OfType(p: Parts, x: int) {
    if p.conv == 'd' || p.conv == 'i' then -(Range(p) / 2) <= x < Range(p) / 2 else 0 <= x < Range(p)
  }

  /** The word has the two's complement of x in its low bits; what stands above them does not matter. */
  predicate Carries(p: Parts, x: int, bits: word) {
    bits % Range(p) == x % Range(p)
  }

  /** A star's argument: an int. */
  function IntOf(bits: word): int {
    var u := bits % 0x1_0000_0000;
    if u < 0x8000_0000 then u else u - 0x1_0000_0000
  }

  // ---------- width, precision and side ----------

  /** The value of a run of digits is the number they stand for in base 10. */
  lemma {:induction false} DecimalIs(ds: string)
    requires All(ds, IsDigit)
    ensures Digital(ds, 10) && Decimal(ds) == Number(ds, 10)
  {
    if ds != "" {
      DecimalIs(ds[..|ds|-1]);
    }
  }

  function Digits10(ds: string): nat
    requires All(ds, IsDigit)
  {
    DecimalIs(ds);
    Number(ds, 10)
  }

  function WidthOf(p: Parts, args: seq<Arg>): nat
    requires WellFormed(p) && |args| >= Spelled(p)
  {
    match p.width
    case NoWidth => 0
    case Wide(ds) => Digits10(ds)
    case StarWidth => Abs(IntOf(args[0].bits))
  }

  predicate LeftOf(p: Parts, args: seq<Arg>)
    requires |args| >= Spelled(p)
  {
    '-' in p.flags || (p.width.StarWidth? && IntOf(args[0].bits) < 0)
  }

  /** A negative precision counts as none. */
  function PrecisionOf(p: Parts, args: seq<Arg>): Option<nat>
    requires WellFormed(p) && |args| >= Spelled(p)
  {
    match p.precision
    case NoPrecision => None
    case Precise(ds) => Some(Digits10(ds))
    case StarPrecision =>
      var n := IntOf(args[if p.width.StarWidth? then 1 else 0].bits);
      if n >= 0 then Some(n) else None
    case Negative(_) => None
  }

  /** The argument behind those of the stars. */
  function LastArg(p: Parts, args: seq<Arg>): Arg
    requires |args| >= Spelled(p) && p.conv != '%'
  {
    args[Spelled(p) - 1]
  }

  // ---------- the text of a number ----------

  function SignOf(p: Parts, x: int): string {
    if p.conv != 'd' && p.conv != 'i' then ""
    else if x < 0 then "-"
    else if '+' in p.flags then "+"
    else if ' ' in p.flags then " "
    else ""
  }

  function MarkOf(p: Parts, x: int): string {
    if p.conv == 'p' then "0x"
    else if '#' in p.flags && x != 0 && p.conv == 'x' then "0x"
    else if '#' in p.flags && x != 0 && p.conv == 'X' then "0X"
    else ""
  }

  /** The digits without leading zeros; none for 0 with a precision of 0. */
  function PlainDigits(p: Parts, prec: Option<nat>, x: int): string {
    if x == 0 && prec == Some(0) then "" else Numeral(Abs(x), LetterBase(p.conv), LetterCase(p.conv))
  }

  /** How many digits there must be: the precision, and for '#' octal ones a zero in front. */
  function DigitCount(p: Parts, prec: Option<nat>, x: int): (n: nat)
    ensures n >= |PlainDigits(p, prec, x)|
  {
    var plain := PlainDigits(p, prec, x);
    var least := if p.conv == 'o' && '#' in p.flags && (plain == "" || plain[0] != '0') then |plain| + 1 else |plain|;
    if prec.Some? && prec.value > least then prec.value else least
  }

  function DigitsOf(p: Parts, prec: Option<nat>, x: int): string {
    Repeat('0', DigitCount(p, prec, x) - |PlainDigits(p, prec, x)|) + PlainDigits(p, prec, x)
  }

  function CoreOf(p: Parts, prec: Option<nat>, x: int): string {
    SignOf(p, x) + MarkOf(p, x) + DigitsOf(p, prec, x)
  }

  function Padded(t: string, width: nat, left: bool): string {
    var pad := Repeat(' ', Max(0, width - |t|));
    if left then t + pad else pad + t
  }

  /** '0' pads with zeros behind sign and mark, unless the field is left-justified or has a precision. */
  function NumberOf(p: Parts, width: nat, left: bool, prec: Option<nat>, x: int): string {
    var core := CoreOf(p, prec, x);
    if '0' in p.flags && !left && prec.None? then
      SignOf(p, x) + MarkOf(p, x) + Repeat('0', Max(0, width - |core|)) + DigitsOf(p, prec, x)
    else Padded(core, width, left)
  }

  // ---------- where the standard says something ----------

  /** No minus sign in the precision, and no precision where it has no meaning. */
  predicate Regular(p: Parts) {
    && !p.precision.Negative?
    && (p.conv == 'c' || p.conv == 'p' || p.conv == '%' ==> p.precision.NoPrecision?)
  }

  /**
   The two ways the formatter departs: a negative '*' width with the '0' flag puts zeros behind, and a
   negative '*' precision leaves the '0' flag without effect.
   */
  predicate Departs(p: Parts, args: seq<Arg>, x: int)
    requires WellFormed(p) && |args| >= Spelled(p)
  {
    && '0' in p.flags && '-' !in p.flags
    && |CoreOf(p, PrecisionOf(p, args), x)| < WidthOf(p, args)
    && ((p.precision.NoPrecision? && LeftOf(p, args))
        || (p.precision.StarPrecision? && PrecisionOf(p, args).None? && !LeftOf(p, args)))
  }

  // ---------- the formatter's own terms ----------

  /** What the scanner and the stars make of the fields. */
  lemma {:induction false} FieldsAre(p: Parts, args: seq<Arg>)
    requires WellFormed(p) && Regular(p) && |args| >= Spelled(p)
    ensures Takes(Meaning(p)) == Spelled(p) && Stars(Meaning(p)) <= |args|
    ensures p.conv != '%' ==> args[Stars(Meaning(p))] == LastArg(p, args)
    ensures var fs := Resolved(Meaning(p), args);
            && Usable(fs) && fs.width == WidthOf(p, args) && fs.left == LeftOf(p, args)
            && (fs.widthOpt == if p.width.NoWidth? then Absent else Literal)
            && fs.conv == ConversionOf(p.conv) && fs.length == p.length && fs.altForm == ('#' in p.flags)
            && fs.prepend == (if '+' in p.flags then '+' else if ' ' in p.flags then ' ' else '\0')
            && fs.caseAdjust == LetterCase(p.conv)
  {
    hide Decimal, Number, Digital;
    if p.width.Wide? { DecimalIs(p.width.digits); }
    ResolvedUsable(p, args);
  }

  lemma {:induction false} PrecisionIs(p: Parts, args: seq<Arg>)
    requires WellFormed(p) && Regular(p) && |args| >= Spelled(p) && Stars(Meaning(p)) <= |args|
    ensures var fs, prec := Resolved(Meaning(p), args), PrecisionOf(p, args);
            && (prec.Some? ==> fs.precOpt.Literal? && fs.prec == prec.value)
            && (prec.None? ==> fs.precOpt.Absent? && fs.prec <= 0)
            && (fs.zeroPad <==> '0' in p.flags && '-' !in p.flags && p.conv != 's' && p.precision.NoPrecision?)
  {
    hide Decimal, Number, Digital;
    if p.precision.Precise? { DecimalIs(p.precision.digits); }
  }

  /** A precision that counts as absent keeps its number, which Conversion.AbsentPrecision says the use of. */
  lemma {:induction false} AbsentKeepsNumber(p: Parts, args: seq<Arg>)
    requires WellFormed(p) && |args| >= Stars(Meaning(p))
    requires p.precision.Negative? || (p.precision.Precise? && (p.conv == 'c' || p.conv == 'p' || p.conv == '%'))
    ensures Resolved(Meaning(p), args).precOpt.Absent?
    ensures Resolved(Meaning(p), args).prec == Digits10(p.precision.digits)
  {
    hide Decimal, Number, Digital;
    DecimalIs(p.precision.digits);
  }

  /** The value the formatter converts is the number the argument carries. */
  lemma {:induction false} ValueIs(p: Parts, args: seq<Arg>, x: int)
    requires WellFormed(p) && NumberLetter(p.conv) && |args| >= Takes(Meaning(p))
    requires OfType(p, x) && Carries(p, x, args[Stars(Meaning(p))].bits)
    ensures var fs, arg := Resolved(Meaning(p), args), args[Stars(Meaning(p))];
            && IsNumber(fs.conv) && Value(fs, arg) == x && BaseOf(fs.conv) == LetterBase(p.conv)
  {
    hide Decimal, Resolved, Range;
    var fs := Resolved(Meaning(p), args);
    SameLength(p, args);
    RangeIs(p);
    Wraps(x, Range(p));
  }

  lemma {:induction false} SameLength(p: Parts, args: seq<Arg>)
    requires WellFormed(p) && |args| >= Stars(Meaning(p))
    ensures Resolved(Meaning(p), args).length == p.length && Resolved(Meaning(p), args).conv == ConversionOf(p.conv)
  {
    hide Decimal;
  }

  lemma {:induction false} RangeIs(p: Parts)
    ensures Range(p) == if p.conv == 'p' then WORD else Modulus(p.length)
  {
  }

  lemma {:induction false} Wraps(x: int, n: nat)
    requires n > 0 && n % 2 == 0
    ensures 0 <= x < n ==> x % n == x
    ensures -(n / 2) <= x < n / 2 ==> x == if x % n < n / 2 then x % n else x % n - n
  {
    if 0 <= x < n {
      Remainder(x, n, 0, x);
    } else if -(n / 2) <= x < 0 {
      NegativeRemainder(x, n);
    }
  }

  /** The fields of a resolved specification, as far as they decide the digits, sign and mark of a number. */
  ghost predicate Agrees(fs: Spec, p: Parts, prec: Option<nat>) {
    && NumberLetter(p.conv) && IsConversion(p.conv) && fs.conv == ConversionOf(p.conv)
    && fs.altForm == ('#' in p.flags) && fs.caseAdjust == LetterCase(p.conv)
    && fs.prepend == (if '+' in p.flags then '+' else if ' ' in p.flags then ' ' else '\0')
    && (if prec.Some? then fs.precOpt.Literal? && fs.prec == prec.value else fs.precOpt.Absent? && fs.prec <= 0)
    && (p.conv == 'p' ==> prec.None?)
  }

  lemma {:induction false} SignIs(fs: Spec, arg: Arg, p: Parts, prec: Option<nat>, x: int)
    requires Agrees(fs, p, prec) && Value(fs, arg) == x
    ensures Sign(fs, arg) == SignOf(p, x) && HexMark(fs, arg) == MarkOf(p, x)
  {
    hide Value;
  }

  lemma {:induction false} NumeralCase(v: nat)
    ensures Numeral(v, 10, 0) == Numeral(v, 10, 32)
  {
    if v >= 10 { NumeralCase(v / 10); }
  }

  lemma {:induction false} BodyIs(fs: Spec, arg: Arg, p: Parts, prec: Option<nat>, x: int)
    requires Agrees(fs, p, prec) && Value(fs, arg) == x
    ensures var n := PlainDigits(p, prec, x);
            Body(fs, arg) == if p.conv == 'o' && '#' in p.flags && x != 0 then "0" + n else n
    ensures x != 0 ==> PlainDigits(p, prec, x) != "" && PlainDigits(p, prec, x)[0] != '0'
    ensures x == 0 ==> PlainDigits(p, prec, x) == if prec == Some(0) then "" else "0"
  {
    hide Value, Number, Digital;
    NumeralReads(Abs(x), LetterBase(p.conv), LetterCase(p.conv));
    NumeralCase(Abs(x));
  }

  lemma {:induction false} OneZeroMore(k: nat, n: string)
    ensures Repeat('0', k + 1) + n == Repeat('0', k) + ("0" + n)
    ensures Repeat('0', 0) + n == n
  {
  }

  lemma {:induction false} DigitsAre(fs: Spec, arg: Arg, p: Parts, prec: Option<nat>, x: int)
    requires Agrees(fs, p, prec) && Value(fs, arg) == x
    ensures Repeat('0', PrecPad(fs, arg)) + Body(fs, arg) == DigitsOf(p, prec, x)
  {
    hide Value, Body, PlainDigits, Repeat;
    var n := PlainDigits(p, prec, x);
    BodyIs(fs, arg, p, prec, x);
    OneZeroMore(PrecPad(fs, arg), n);
  }

  lemma {:induction false} CoreIs(fs: Spec, arg: Arg, p: Parts, prec: Option<nat>, x: int)
    requires Agrees(fs, p, prec) && Value(fs, arg) == x
    ensures Core(fs, arg) == CoreOf(p, prec, x)
  {
    hide Value, Body, Sign, HexMark, PrecPad, SignOf, MarkOf, DigitsOf;
    SignIs(fs, arg, p, prec, x);
    DigitsAre(fs, arg, p, prec, x);
    Assoc(Sign(fs, arg) + HexMark(fs, arg), Repeat('0', PrecPad(fs, arg)), Body(fs, arg));
  }

  /** The fields that decide where padding goes. */
  ghost predicate Sides(fs: Spec, p: Parts, width: nat, left: bool) {
    && fs.width == width && fs.left == left
    && fs.widthOpt == (if p.width.NoWidth? then Absent else Literal)
    && (p.width.NoWidth? ==> width == 0)
    && ('-' in p.flags ==> left)
    && (fs.zeroPad <==> '0' in p.flags && '-' !in p.flags && p.precision.NoPrecision?)
  }

  /** A field that is full needs no padding, whichever way it would go. */
  lemma {:induction false} FullField(fs: Spec, arg: Arg, p: Parts, prec: Option<nat>, x: int, width: nat, left: bool)
    requires Agrees(fs, p, prec) && Value(fs, arg) == x && Sides(fs, p, width, left)
    requires |CoreOf(p, prec, x)| >= width || fs.widthOpt.Absent?
    ensures Text(fs, arg) == NumberOf(p, width, left, prec, x)
  {
    hide Value, Body, Sign, HexMark, PrecPad, SignOf, MarkOf, DigitsOf, PadChar;
    SignIs(fs, arg, p, prec, x);
    DigitsAre(fs, arg, p, prec, x);
    CoreIs(fs, arg, p, prec, x);
    PadChars(fs, arg);
    NoPadding(SignOf(p, x) + MarkOf(p, x), Repeat('0', PrecPad(fs, arg)), Body(fs, arg));
    assert Repeat(' ', 0) == "" && Repeat('0', 0) == "";
  }

  lemma {:induction false} NoPadding(front: string, zeros: string, body: string)
    ensures front + "" + zeros + body == front + (zeros + body) == front + "" + (zeros + body)
    ensures (front + (zeros + body)) + "" == "" + (front + (zeros + body)) == front + (zeros + body)
  {
  }

  /** What the formatter pads with when there is room. */
  lemma {:induction false} PadIs(fs: Spec, arg: Arg, p: Parts, prec: Option<nat>)
    requires Agrees(fs, p, prec) && fs.widthOpt.Literal?
    requires fs.zeroPad ==> prec.None?
    ensures PadChar(fs, arg) == if fs.zeroPad then '0' else ' '
  {
    hide Value;
  }

  lemma {:induction false} ZeroField(fs: Spec, arg: Arg, p: Parts, prec: Option<nat>, x: int, width: nat, left: bool)
    requires Agrees(fs, p, prec) && Value(fs, arg) == x && Sides(fs, p, width, left)
    requires |CoreOf(p, prec, x)| < width && fs.widthOpt.Literal? && fs.zeroPad && prec.None?
    ensures Text(fs, arg) == NumberOf(p, width, left, prec, x) <==> !left
  {
    hide Value, Body, Sign, HexMark, PrecPad, SignOf, MarkOf, DigitsOf, PadChar;
    var pad := width - |CoreOf(p, prec, x)|;
    SignIs(fs, arg, p, prec, x);
    DigitsAre(fs, arg, p, prec, x);
    CoreIs(fs, arg, p, prec, x);
    PadIs(fs, arg, p, prec);
    Assoc(Sign(fs, arg) + HexMark(fs, arg) + Repeat('0', pad), Repeat('0', PrecPad(fs, arg)), Body(fs, arg));
    if left {
      LastDiffers(CoreOf(p, prec, x), pad);
    }
  }

  lemma {:induction false} LastDiffers(core: string, pad: nat)
    requires pad > 0
    ensures core + Repeat('0', pad) != core + Repeat(' ', pad)
  {
    assert (core + Repeat('0', pad))[|core|] == '0' && (core + Repeat(' ', pad))[|core|] == ' ';
  }

  lemma {:induction false} SpaceField(fs: Spec, arg: Arg, p: Parts, prec: Option<nat>, x: int, width: nat, left: bool)
    requires Agrees(fs, p, prec) && Value(fs, arg) == x && Sides(fs, p, width, left)
    requires |CoreOf(p, prec, x)| < width && fs.widthOpt.Literal? && !fs.zeroPad
    ensures Text(fs, arg) == NumberOf(p, width, left, prec, x) <==> !('0' in p.flags && !left && prec.None?)
  {
    hide Value, Body, Sign, HexMark, PrecPad, SignOf, MarkOf, DigitsOf, PadChar, Agrees;
    var pad := width - |CoreOf(p, prec, x)|;
    CoreIs(fs, arg, p, prec, x);
    PadIs(fs, arg, p, prec);
    if '0' in p.flags && !left && prec.None? {
      SpacesDiffer(SignOf(p, x) + MarkOf(p, x), DigitsOf(p, prec, x), pad);
    }
  }

  lemma {:induction false} SpacesDiffer(front: string, digits: string, pad: nat)
    requires pad > 0
    ensures Repeat(' ', pad) + (front + digits) != front + Repeat('0', pad) + digits
  {
    hide Spaces;
    SpacesOfRepeat(' ', pad);
    SpacesOfRepeat('0', pad);
    SpacesOfSum(front, digits);
    SpacesOfSum(Repeat(' ', pad), front + digits);
    SpacesOfSum(front, Repeat('0', pad));
    SpacesOfSum(front + Repeat('0', pad), digits);
  }

  /**
   d, i, o, u, x, X and p print what the standard asks for, for every number of the argument's type,
   exactly unless the formatter departs in one of its two ways.
   */
  lemma {:induction false} NumberLaw(p: Parts, args: seq<Arg>, x: int)
    requires WellFormed(p) && Regular(p) && NumberLetter(p.conv) && |args| >= Spelled(p)
    requires OfType(p, x) && Carries(p, x, LastArg(p, args).bits)
    ensures |args| >= Takes(Meaning(p))
    ensures One(p, args) == NumberOf(p, WidthOf(p, args), LeftOf(p, args), PrecisionOf(p, args), x) <==>
            !Departs(p, args, x)
  {
    hide Meaning, Resolved, Text, Decimal, NumberOf, CoreOf, IntOf, Value, OfType, Carries, ConversionOf, Regular;
    FieldsAre(p, args);
    PrecisionIs(p, args);
    ValueIs(p, args, x);
    NumberFields(p, args);
    var fs, arg, prec := Resolved(Meaning(p), args), LastArg(p, args), PrecisionOf(p, args);
    var width, left := WidthOf(p, args), LeftOf(p, args);
    if |CoreOf(p, prec, x)| >= width || fs.widthOpt.Absent? {
      FullField(fs, arg, p, prec, x, width, left);
    } else if fs.zeroPad {
      ZeroField(fs, arg, p, prec, x, width, left);
    } else {
      SpaceField(fs, arg, p, prec, x, width, left);
    }
  }

  lemma {:induction false} NumberFields(p: Parts, args: seq<Arg>)
    requires WellFormed(p) && Regular(p) && NumberLetter(p.conv) && |args| >= Spelled(p)
    ensures |args| >= Stars(Meaning(p)) && !p.precision.Negative?
    ensures Agrees(Resolved(Meaning(p), args), p, PrecisionOf(p, args))
    ensures Sides(Resolved(Meaning(p), args), p, WidthOf(p, args), LeftOf(p, args))
  {
    hide Decimal, IntOf;
    FieldsAre(p, args);
    PrecisionIs(p, args);
  }

  // ---------- texts and characters ----------

  /** Without zeros, a field is its core and spaces on one side. */
  lemma {:induction false} PlainField(fs: Spec, arg: Arg, t: string)
    requires Usable(fs) && !fs.zeroPad && !fs.widthOpt.Star? && Core(fs, arg) == t
    ensures Text(fs, arg) == Padded(t, fs.width, fs.left)
  {
    hide Core;
    assert Repeat(' ', 0) == "";
    assert t + "" == t == "" + t;
  }

  /** The characters of a string, or as many of them as the precision allows. */
  function Cut(t: string, prec: Option<nat>): string {
    if prec.Some? && prec.value < |t| then t[..prec.value] else t
  }

  lemma {:induction false} StringLaw(p: Parts, args: seq<Arg>)
    requires WellFormed(p) && Regular(p) && p.conv == 's' && |args| >= Spelled(p)
    ensures |args| >= Takes(Meaning(p))
    ensures One(p, args) ==
            Padded(Cut(LastArg(p, args).text, PrecisionOf(p, args)), WidthOf(p, args), LeftOf(p, args))
  {
    hide Meaning, Resolved, Decimal, IntOf, Text;
    FieldsAre(p, args);
    PrecisionIs(p, args);
    var fs, arg := Resolved(Meaning(p), args), LastArg(p, args);
    assert Repeat('0', 0) == "";
    assert "" + "" + "" + Body(fs, arg) == Body(fs, arg);
    PlainField(fs, arg, Cut(arg.text, PrecisionOf(p, args)));
  }

  /**
   One character, whose code is the low byte of the argument; or one '%', without an argument. A '0'
   flag that no '-' cancels, on which the standard is silent, leaves both without padding.
   */
  lemma {:induction false} CharacterLaw(p: Parts, args: seq<Arg>)
    requires WellFormed(p) && Regular(p) && (p.conv == 'c' || p.conv == '%') && |args| >= Spelled(p)
    ensures |args| >= Takes(Meaning(p))
    ensures One(p, args) ==
            var t := if p.conv == '%' then "%" else [(LastArg(p, args).bits % 256) as char];
            if '0' in p.flags && '-' !in p.flags then t else Padded(t, WidthOf(p, args), LeftOf(p, args))
  {
    hide Resolved, Decimal, IntOf, Text;
    FieldsAre(p, args);
    PrecisionIs(p, args);
    var fs, arg := Resolved(Meaning(p), args), ArgOf(Meaning(p), args);
    CharacterFields(p, args);
    CharacterCore(fs, arg);
    if '0' in p.flags && '-' !in p.flags {
      BareField(fs, arg);
    } else {
      PlainField(fs, arg, if p.conv == '%' then "%" else [(arg.bits % 256) as char]);
    }
  }

  lemma {:induction false} BareField(fs: Spec, arg: Arg)
    requires Usable(fs) && fs.zeroPad && (fs.conv.Percent? || fs.conv.Character?)
    ensures Text(fs, arg) == Core(fs, arg)
  {
    hide Core;
  }

  lemma {:induction false} CharacterFields(p: Parts, args: seq<Arg>)
    requires WellFormed(p) && Regular(p) && (p.conv == 'c' || p.conv == '%') && |args| >= Spelled(p)
    ensures |args| >= Stars(Meaning(p))
    ensures var fs := Resolved(Meaning(p), args);
            && fs.prec == 0 && !fs.widthOpt.Star? && (fs.conv == if p.conv == '%' then Percent else Character)
            && (fs.zeroPad <==> '0' in p.flags && '-' !in p.flags)
  {
    hide Decimal;
  }

  lemma {:induction false} CharacterCore(fs: Spec, arg: Arg)
    requires CaseAdjust(fs.caseAdjust) && (fs.conv.Percent? || fs.conv.Character?) && fs.prec == 0
    ensures Core(fs, arg) == if fs.conv.Percent? then "%" else [(arg.bits % 256) as char]
  {
    assert Repeat('0', 0) == "";
    assert "" + "" + "" + Body(fs, arg) == Body(fs, arg);
  }

  // ---------- reading back in the base of the letter ----------

  /**
   Whatever number of its type is passed for d, i, o, u, x, X or p, reading the text in the base of the
   letter gives it back, exactly unless no digit is printed or zeros are put behind a number other than 0.
   */
  lemma {:induction false} LetterReadsBack(p: Parts, args: seq<Arg>, x: int)
    requires WellFormed(p) && NumberLetter(p.conv) && |args| >= Takes(Meaning(p))
    requires OfType(p, x) && Carries(p, x, args[Stars(Meaning(p))].bits)
    ensures var fs, arg := Resolved(Meaning(p), args), args[Stars(Meaning(p))];
            ReadField(One(p, args), LetterBase(p.conv)) == Some(x) <==>
              !Empty(fs, arg) && (x == 0 || !PadsBehind(p, args, arg))
  {
    hide Text, ReadField, Empty, PadsBehind, Value, Resolved, Meaning;
    ValueIs(p, args, x);
    PrintedReadsBack(p, args);
    assert !ConversionOf(p.conv).Percent?;
  }

  /** Only capitals, or no capitals, and letters only in base 16. */
  ghost predicate Cased(s: string, c: char) {
    forall i :: 0 <= i < |s| ==>
      && (c != 'X' ==> !('A' <= s[i] <= 'Z'))
      && (c == 'X' ==> !('a' <= s[i] <= 'z'))
      && (c in "diou" ==> !('a' <= s[i] <= 'z'))
  }

  lemma {:induction false} CasedSum(a: string, b: string, c: char)
    ensures Cased(a + b, c) <==> Cased(a, c) && Cased(b, c)
  {
    forall i | 0 <= i < |b| ensures (a + b)[|a| + i] == b[i] {
    }
    forall i | 0 <= i < |a| ensures (a + b)[i] == a[i] {
    }
  }

  lemma {:induction false} CasedNumeral(v: nat, c: char)
    requires NumberLetter(c)
    ensures Cased(Numeral(v, LetterBase(c), LetterCase(c)), c)
  {
    var base := LetterBase(c);
    NumeralSteps(v, base, LetterCase(c));
    if v >= base {
      CasedNumeral(v / base, c);
      CasedSum(Numeral(v / base, base, LetterCase(c)), [Glyph(v % base, LetterCase(c))], c);
    }
  }

  lemma {:induction false} CasedPieces(c: char, x: char, k: nat)
    requires NumberLetter(c) && (x == '0' || x == ' ')
    ensures Cased(Repeat(x, k), c)
  {
  }

  lemma {:induction false} CasedBody(fs: Spec, arg: Arg, c: char)
    requires NumberLetter(c) && IsConversion(c) && fs.conv == ConversionOf(c) && fs.caseAdjust == LetterCase(c)
    ensures Cased(Body(fs, arg), c)
  {
    hide Value;
    var v := Abs(Value(fs, arg));
    CasedNumeral(v, c);
    NumeralCase(v);
    CasedSum("0", Numeral(v, LetterBase(c), LetterCase(c)), c);
  }

  lemma {:induction false} CasedText(fs: Spec, arg: Arg, c: char)
    requires NumberLetter(c) && IsConversion(c) && fs.conv == ConversionOf(c) && fs.caseAdjust == LetterCase(c)
    requires Cased(Sign(fs, arg), c) && Cased(HexMark(fs, arg), c) && Cased(Body(fs, arg), c)
    ensures Cased(Text(fs, arg), c)
  {
    hide Cased, Sign, HexMark, Body, PrecPad, PadChar, Repeat, Value;
    var sign, mark, zeros, body := Sign(fs, arg), HexMark(fs, arg), Repeat('0', PrecPad(fs, arg)), Body(fs, arg);
    var pad := FieldPad(fs, arg);
    CasedPieces(c, '0', PrecPad(fs, arg));
    CasedPieces(c, '0', pad);
    CasedPieces(c, ' ', pad);
    PadChars(fs, arg);
    CasedSum(sign, mark, c);
    CasedSum(sign + mark, zeros, c);
    CasedSum(sign + mark + zeros, body, c);
    CasedSum(Core(fs, arg), Repeat(PadChar(fs, arg), pad), c);
    CasedSum(Repeat(' ', pad), Core(fs, arg), c);
    CasedSum(sign + mark, Repeat('0', pad), c);
    CasedSum(sign + mark + Repeat('0', pad), zeros, c);
    CasedSum(sign + mark + Repeat('0', pad) + zeros, body, c);
  }

  /** No capital is printed for any letter but X, none but capitals for X, and no letter at all for d, i, o and u. */
  lemma {:induction false} LetterGlyphs(p: Parts, args: seq<Arg>)
    requires WellFormed(p) && NumberLetter(p.conv) && |args| >= Takes(Meaning(p))
    ensures Cased(One(p, args), p.conv)
  {
    hide Text, Body, Decimal;
    var fs, arg := Resolved(Meaning(p), args), ArgOf(Meaning(p), args);
    CasedBody(fs, arg, p.conv);
    CasedMarks(fs, arg, p.conv);
    CasedText(fs, arg, p.conv);
  }

  lemma {:induction false} CasedMarks(fs: Spec, arg: Arg, c: char)
    requires NumberLetter(c) && IsConversion(c) && fs.conv == ConversionOf(c) && fs.caseAdjust == LetterCase(c)
    requires fs.prepend == '\0' || fs.prepend == '+' || fs.prepend == ' '
    ensures Cased(Sign(fs, arg), c) && Cased(HexMark(fs, arg), c)
  {
    hide Value;
  }

  // ---------- the second departure happens ----------

  const ZERO_5_STAR_D := Parts("0", Wide("5"), StarPrecision, NoLength, 'd')

  /** "%05.*d" with -1 and 42: the negative precision counts as none, and yet no zeros are printed. */
  lemma {:induction false} ZeroFlagLost(args: seq<Arg>)
    requires args == [Arg(0xffff_ffff, ""), Arg(42, "")]
    ensures WellFormed(ZERO_5_STAR_D) && Spell(ZERO_5_STAR_D) == "%05.*d"
    ensures NumberOf(ZERO_5_STAR_D, 5, false, None, 42) == "00042"
    ensures |args| >= Takes(Meaning(ZERO_5_STAR_D)) && One(ZERO_5_STAR_D, args) != "00042"
  {
    hide One, Meaning, NumberOf, CoreOf, DigitsOf;
    SpellZero5StarD();
    FortyTwo(ZERO_5_STAR_D);
    Zero5StarDFields(args);
    NumberLaw(ZERO_5_STAR_D, args, 42);
  }

  lemma {:induction false} SpellZero5StarD()
    ensures WellFormed(ZERO_5_STAR_D) && Spell(ZERO_5_STAR_D) == "%05.*d"
  {
    assert SpellTail(ZERO_5_STAR_D) == "5.*d";
  }

  lemma {:induction false} Zero5StarDFields(args: seq<Arg>)
    requires args == [Arg(0xffff_ffff, ""), Arg(42, "")] && WellFormed(ZERO_5_STAR_D)
    ensures var p := ZERO_5_STAR_D;
            && Regular(p) && Spelled(p) == 2 && LastArg(p, args) == args[1] && OfType(p, 42) && Carries(p, 42, 42)
            && WidthOf(p, args) == 5 && !LeftOf(p, args) && PrecisionOf(p, args) == None
  {
    assert "5"[..0] == "" && Number("", 10) == 0 && Number("5", 10) == 5;
  }

  lemma {:induction false} FortyTwo(p: Parts)
    requires p == ZERO_5_STAR_D
    ensures CoreOf(p, None, 42) == "42" && NumberOf(p, 5, false, None, 42) == "00042"
  {
    assert Numeral(4, 10, 32) == "4";
    assert Numeral(42, 10, 32) == "42";
    assert Repeat('0', 0) == "" && Repeat('0', 3) == "000";
    assert DigitsOf(p, None, 42) == "42";
  }
}
