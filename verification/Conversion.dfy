/**
 What one conversion prints: the argument it takes, the digits, sign and prefix it gets, and the
 padding around them.
 */
module Conversion {
  import opened Wrappers
  import opened FormatSpec
  import opened Digits

  type word = w: nat | w < WORD

  /** A variadic argument: the register or stack word, and the characters before the NUL it may point to. */
  datatype Arg = Arg(bits: word, text: string)

  // ---------- arguments ----------

  /** The low bits of a word as a two's complement number; m is the number of values. */
  function Signed(bits: nat, m: nat): (i: int)
    requires m > 0 && m % 2 == 0
    ensures -(m / 2) <= i < m / 2
  {
    var u := bits % m;
    if u < m / 2 then u else u - m
  }

  function Modulus(l: LengthModifier): nat {
    match l
    case NoLength => 0x1_0000_0000
    case Short => 0x1_0000
    case Char => 0x100
    case _ => WORD
  }

  function SignedArg(l: LengthModifier, bits: word): (i: int)
    ensures -WORD / 2 <= i < WORD / 2
  {
    Signed(bits, Modulus(l))
  }

  function UnsignedArg(l: LengthModifier, bits: word): (u: nat)
    ensures u < WORD
  {
    bits % Modulus(l)
  }

  /** The number a numeric conversion prints. */
  function Value(fs: Spec, arg: Arg): (v: int)
    ensures -WORD / 2 <= v < WORD
  {
    match fs.conv
    case SignedInt => SignedArg(fs.length, arg.bits)
    case Pointer => arg.bits
    case _ => UnsignedArg(fs.length, arg.bits)
  }

  predicate IsNumber(c: Conversion) {
    c.SignedInt? || c.Octal? || c.HexInt? || c.UnsignedInt? || c.Pointer?
  }

  function BaseOf(c: Conversion): (b: nat)
    ensures Base(b)
  {
    match c
    case Octal => 8
    case HexInt => 16
    case Pointer => 16
    case _ => 10
  }

  // ---------- width and precision from arguments ----------

  const INT := 0x1_0000_0000

  function StarWidthOf(fs: Spec, bits: word): Spec {
    var w := Signed(bits, INT);
    fs.(widthOpt := Literal, width := Abs(w), left := fs.left || w < 0)
  }

  function StarPrecisionOf(fs: Spec, bits: word): Spec {
    var p := Signed(bits, INT);
    fs.(prec := p, precOpt := if p >= 0 then Literal else Absent)
  }

  /** How many arguments the stars take, and the whole conversion. */
  function Stars(fs: Spec): nat {
    (if fs.widthOpt.Star? then 1 else 0) + (if fs.precOpt.Star? then 1 else 0)
  }

  function Takes(fs: Spec): nat {
    Stars(fs) + if fs.conv.Percent? then 0 else 1
  }

  /** The argument a specification converts, behind those its stars take. */
  function ArgOf(fs: Spec, args: seq<Arg>): Arg
    requires |args| >= Takes(fs)
  {
    if fs.conv.Percent? then Arg(0, "") else args[Stars(fs)]
  }

  /** The specification with its stars replaced: a negative width means '-', a negative precision none. */
  function Resolved(fs: Spec, args: seq<Arg>): (r: Spec)
    requires |args| >= Stars(fs)
    ensures r.widthOpt != Star && r.precOpt != Star && r.conv == fs.conv
  {
    var fs1 := if fs.widthOpt.Star? then StarWidthOf(fs, args[0].bits) else fs;
    if fs.precOpt.Star? then StarPrecisionOf(fs1, args[Stars(fs) - 1].bits) else fs1
  }

  /** What resolved specifications look like. */
  predicate Usable(fs: Spec) {
    && CaseAdjust(fs.caseAdjust)
    && (fs.prepend == '\0' || fs.prepend == '+' || fs.prepend == ' ')
    && fs.width >= 0 && (fs.widthOpt.Absent? ==> fs.width == 0)
  }

  // ---------- the text ----------

  function Max(x: int, y: int): int {
    if x > y then x else y
  }

  /** The value is 0 and no digits were asked for. */
  predicate NoDigits(fs: Spec, arg: Arg) {
    Value(fs, arg) == 0 && fs.precOpt.Literal? && fs.prec == 0 && !fs.conv.Pointer?
  }

  /** No digit is printed at all. */
  predicate Empty(fs: Spec, arg: Arg) {
    NoDigits(fs, arg) && !(fs.conv.Octal? && fs.altForm)
  }

  function Sign(fs: Spec, arg: Arg): string {
    if !fs.conv.SignedInt? then ""
    else if Value(fs, arg) < 0 then "-"
    else if fs.prepend == '\0' then "" else [fs.prepend]
  }

  function HexMark(fs: Spec, arg: Arg): string
    requires CaseAdjust(fs.caseAdjust)
  {
    if fs.conv.Pointer? then "0x"
    else if fs.conv.HexInt? && fs.altForm && Value(fs, arg) != 0 then ['0', (88 + fs.caseAdjust) as char]
    else ""
  }

  function CaseOf(fs: Spec): nat {
    match fs.conv
    case Pointer => 32
    case SignedInt => 0
    case _ => fs.caseAdjust
  }

  /** The digits of a number, with the zero '#' puts before octal ones. */
  function NumberText(fs: Spec, v: int, none: bool): string
    requires CaseAdjust(fs.caseAdjust)
  {
    if none then ""
    else if fs.conv.Octal? && fs.altForm && v != 0 then "0" + Numeral(Abs(v), BaseOf(fs.conv), CaseOf(fs))
    else Numeral(Abs(v), BaseOf(fs.conv), CaseOf(fs))
  }

  /** The characters of the argument itself. */
  function Body(fs: Spec, arg: Arg): string
    requires CaseAdjust(fs.caseAdjust)
  {
    match fs.conv
    case Percent => "%"
    case Character => [(arg.bits % 256) as char]
    case String => if fs.precOpt.Absent? || fs.prec >= |arg.text| then arg.text else arg.text[..Max(0, fs.prec)]
    case _ => NumberText(fs, Value(fs, arg), NoDigits(fs, arg))
  }

  /** The smallest number of digits; the lone 0 of %#.0o counts as one. */
  function MinDigits(fs: Spec, arg: Arg): int {
    if fs.conv.Octal? && fs.altForm && NoDigits(fs, arg) then 1 else fs.prec
  }

  /** Zeros put before the body, whether or not a precision was given: strings get none. */
  function PrecPad(fs: Spec, arg: Arg): nat
    requires CaseAdjust(fs.caseAdjust)
  {
    if fs.conv.String? then 0 else Max(0, MinDigits(fs, arg) - |Body(fs, arg)|)
  }

  /** Sign, prefix, zeros and body. */
  function Core(fs: Spec, arg: Arg): string
    requires CaseAdjust(fs.caseAdjust)
  {
    Sign(fs, arg) + HexMark(fs, arg) + Repeat('0', PrecPad(fs, arg)) + Body(fs, arg)
  }

  /** The pad character; none without a width, and none for "%0c", "%0s" and "%0%". */
  function PadChar(fs: Spec, arg: Arg): char {
    if !fs.widthOpt.Literal? then '\0'
    else if !fs.zeroPad then ' '
    else if fs.conv.String? || fs.conv.Character? || fs.conv.Percent? then '\0'
    else if Empty(fs, arg) then ' '
    else '0'
  }

  function FieldPad(fs: Spec, arg: Arg): nat
    requires CaseAdjust(fs.caseAdjust)
  {
    Max(0, fs.width - |Core(fs, arg)|)
  }

  /** What the conversion prints. Zero padding goes between the prefix and the digits. */
  function Text(fs: Spec, arg: Arg): string
    requires CaseAdjust(fs.caseAdjust)
  {
    var c, pad := PadChar(fs, arg), FieldPad(fs, arg);
    if c == '\0' then Core(fs, arg)
    else if fs.left then Core(fs, arg) + Repeat(c, pad)
    else if c == ' ' then Repeat(' ', pad) + Core(fs, arg)
    else Sign(fs, arg) + HexMark(fs, arg) + Repeat('0', pad) + Repeat('0', PrecPad(fs, arg)) + Body(fs, arg)
  }

  /** The exact length: the core, stretched to the width if there is a pad character. */
  lemma TextLength(fs: Spec, arg: Arg)
    requires CaseAdjust(fs.caseAdjust)
    ensures |Text(fs, arg)| ==
            |Core(fs, arg)| + (if PadChar(fs, arg) == '\0' then 0 else Max(0, fs.width - |Core(fs, arg)|))
    ensures |Core(fs, arg)| == |Sign(fs, arg)| + |HexMark(fs, arg)| + |Body(fs, arg)| + PrecPad(fs, arg)
    ensures |Sign(fs, arg)| <= 1 && (Sign(fs, arg) == "" || HexMark(fs, arg) == "")
  {
  }

  /** The digits of any number, with the zero of '#' before octal ones, fit the conversion buffer. */
  lemma BodyFits(fs: Spec, arg: Arg)
    requires Usable(fs) && !fs.conv.String?
    ensures |Body(fs, arg)| <= 23
  {
    if IsNumber(fs.conv) {
      NumeralFits(Abs(Value(fs, arg)), BaseOf(fs.conv), CaseOf(fs));
    }
  }

  /** The precision less the length of the body is an int: not so for a star precision close to INT_MIN. */
  predicate PrecFits(fs: Spec, arg: Arg)
    requires CaseAdjust(fs.caseAdjust)
  {
    !fs.conv.String? ==> fs.prec - |Body(fs, arg)| >= INT_MIN
  }

  /** 23 above INT_MIN is enough for every argument; INT_MIN itself is too little for a body of one character. */
  lemma {:induction false} PrecBounds(fs: Spec, arg: Arg)
    requires Usable(fs)
    ensures fs.prec >= INT_MIN + 23 ==> PrecFits(fs, arg)
    ensures fs.prec == INT_MIN && !fs.conv.String? && Body(fs, arg) != "" ==> !PrecFits(fs, arg)
  {
    hide Body;
    if !fs.conv.String? {
      BodyFits(fs, arg);
    }
  }

  // ---------- reading a number back ----------

  function TrimLeft(s: string): string {
    if s != "" && s[0] == ' ' then TrimLeft(s[1..]) else s
  }

  function TrimRight(s: string): string {
    if s != "" && s[|s|-1] == ' ' then TrimRight(s[..|s|-1]) else s
  }

  /** Digits, behind a 0x or 0X if they are hexadecimal. */
  function ReadDigits(s: string, base: nat): Option<nat> {
    var t := if base == 16 && |s| >= 2 && s[0] == '0' && (s[1] == 'x' || s[1] == 'X') then s[2..] else s;
    if t == "" || !Digital(t, base) then None else Some(Number(t, base))
  }

  function WithSign(negative: bool, n: nat): int {
    var i: int := n;
    if negative then -i else i
  }

  /** A number with or without a sign. */
  function ReadSigned(t: string, base: nat): Option<int> {
    if t != "" && (t[0] == '-' || t[0] == '+') then
      match ReadDigits(t[1..], base)
      case None => None
      case Some(n) => Some(WithSign(t[0] == '-', n))
    else
      match ReadDigits(t, base)
      case None => None
      case Some(n) => Some(n)
  }

  /** A number in a field, with spaces around it. */
  function ReadField(s: string, base: nat): Option<int> {
    ReadSigned(TrimRight(TrimLeft(s)), base)
  }

  lemma {:induction false} TrimLeftSpaces(k: nat, s: string)
    requires s == "" || s[0] != ' '
    ensures TrimLeft(Repeat(' ', k) + s) == s
  {
    if k == 0 {
      assert Repeat(' ', 0) + s == s;
    } else {
      TrimLeftSpaces(k - 1, s);
      RepeatFirst(' ', k);
      assert (Repeat(' ', k) + s)[1..] == Repeat(' ', k - 1) + s;
    }
  }

  lemma RepeatFirst(c: char, k: nat)
    requires k > 0
    ensures Repeat(c, k)[1..] == Repeat(c, k - 1) && Repeat(c, k) == [c] + Repeat(c, k - 1)
  {
  }

  lemma {:induction false} TrimRightSpaces(s: string, k: nat)
    requires s == "" || s[|s|-1] != ' '
    ensures TrimRight(s + Repeat(' ', k)) == s
  {
    if k == 0 {
      assert s + Repeat(' ', 0) == s;
    } else {
      TrimRightSpaces(s, k - 1);
      assert (s + Repeat(' ', k))[..|s| + k - 1] == s + Repeat(' ', k - 1);
    }
  }

  lemma RepeatSum(c: char, j: nat, k: nat)
    ensures Repeat(c, j) + Repeat(c, k) == Repeat(c, j + k)
  {
  }

  lemma {:induction false} TrimsNothing(k: nat)
    ensures TrimLeft(Repeat(' ', k)) == ""
  {
    TrimLeftSpaces(k, "");
    assert Repeat(' ', k) + "" == Repeat(' ', k);
  }

  /** Spaces around a text without spaces at its ends are trimmed. */
  lemma {:induction false} Trims(a: nat, t: string, b: nat)
    requires t == "" || (t[0] != ' ' && t[|t|-1] != ' ')
    ensures TrimRight(TrimLeft(Repeat(' ', a) + (t + Repeat(' ', b)))) == t
  {
    var u := t + Repeat(' ', b);
    if t == "" {
      assert u == Repeat(' ', b);
      RepeatSum(' ', a, b);
      TrimsNothing(a + b);
    } else {
      assert u != "" && u[0] == t[0];
      TrimLeftSpaces(a, u);
      TrimRightSpaces(t, b);
    }
  }

  /** A hexadecimal text of digits alone is not taken for one with a prefix. */
  lemma {:induction false} ReadsPlain(ds: string, base: nat)
    requires Base(base) && Digital(ds, base)
    ensures ReadDigits(ds, base) == if ds == "" then None else Some(Number(ds, base))
  {
    assert |ds| >= 2 ==> DigitValue(ds[1]) < base;
  }

  lemma {:induction false} ReadsMarked(mark: string, ds: string)
    requires Digital(ds, 16) && (mark == "0x" || mark == "0X")
    ensures ReadDigits(mark + ds, 16) == if ds == "" then None else Some(Number(ds, 16))
  {
    var s := mark + ds;
    assert s[2..] == ds && s[0] == '0' && s[1] == mark[1];
  }

  lemma {:induction false} ReadsDigits(mark: string, ds: string, base: nat)
    requires Base(base) && Digital(ds, base) && Mark(mark, base)
    ensures ReadDigits(mark + ds, base) == if ds == "" then None else Some(Number(ds, base))
  {
    if mark == "" {
      assert mark + ds == ds;
      ReadsPlain(ds, base);
    } else {
      ReadsMarked(mark, ds);
    }
  }

  predicate Mark(mark: string, base: nat) {
    mark == "" || (base == 16 && (mark == "0x" || mark == "0X"))
  }

  lemma {:induction false} NoSpaceAtEnds(sign: string, mark: string, ds: string, base: nat)
    requires Base(base) && Digital(ds, base) && Mark(mark, base)
    requires sign == "" || sign == "-" || sign == "+"
    ensures var t := sign + (mark + ds);
            && (t == "" || (t[0] != ' ' && t[|t|-1] != ' '))
            && (if sign == "" then t == mark + ds && (t == "" || (t[0] != '-' && t[0] != '+'))
                else t != "" && t[0] == sign[0] && t[1..] == mark + ds)
  {
    var u := mark + ds;
    var t := sign + u;
    assert ds != "" ==> u[|u|-1] == ds[|ds|-1] && DigitValue(ds[|ds|-1]) < base && DigitValue(ds[0]) < base;
    assert u != "" ==> u[0] == (if mark == "" then ds[0] else '0') && t[|t|-1] == u[|u|-1];
    assert t[|sign|..] == u;
  }

  /** A field of sign, prefix and digits between spaces reads as the number those digits stand for. */
  lemma {:induction false} ReadsField(a: nat, sign: string, mark: string, ds: string, b: nat, base: nat)
    requires Base(base) && Digital(ds, base) && Mark(mark, base)
    requires sign == "" || sign == "-" || sign == "+"
    ensures ReadField(Repeat(' ', a) + ((sign + (mark + ds)) + Repeat(' ', b)), base) ==
            if ds == "" then None else Some(WithSign(sign == "-", Number(ds, base)))
  {
    NoSpaceAtEnds(sign, mark, ds, base);
    Trims(a, sign + (mark + ds), b);
    ReadsSigned(sign, mark, ds, base);
  }

  lemma {:induction false} ReadsSigned(sign: string, mark: string, ds: string, base: nat)
    requires Base(base) && Digital(ds, base) && Mark(mark, base)
    requires sign == "" || sign == "-" || sign == "+"
    ensures ReadSigned(sign + (mark + ds), base) ==
            if ds == "" then None else Some(WithSign(sign == "-", Number(ds, base)))
  {
    NoSpaceAtEnds(sign, mark, ds, base);
    ReadsDigits(mark, ds, base);
  }

  // ---------- what was printed reads back ----------

  /** The zeros that a left-justified field with the '0' flag puts behind the digits. */
  function Misplaced(fs: Spec, arg: Arg): nat
    requires CaseAdjust(fs.caseAdjust)
  {
    if fs.left && PadChar(fs, arg) == '0' then FieldPad(fs, arg) else 0
  }

  /** All digits of the field, and the spaces before and behind. */
  function AllDigits(fs: Spec, arg: Arg): string
    requires CaseAdjust(fs.caseAdjust)
  {
    var ds := Repeat('0', PrecPad(fs, arg)) + Body(fs, arg);
    if PadChar(fs, arg) != '0' then ds
    else if fs.left then ds + Repeat('0', FieldPad(fs, arg))
    else Repeat('0', FieldPad(fs, arg)) + ds
  }

  function SpacesBefore(fs: Spec, arg: Arg): nat
    requires CaseAdjust(fs.caseAdjust)
  {
    (if PadChar(fs, arg) == ' ' && !fs.left then FieldPad(fs, arg) else 0) + (if Sign(fs, arg) == " " then 1 else 0)
  }

  function SpacesBehind(fs: Spec, arg: Arg): nat
    requires CaseAdjust(fs.caseAdjust)
  {
    if PadChar(fs, arg) == ' ' && fs.left then FieldPad(fs, arg) else 0
  }

  function VisibleSign(fs: Spec, arg: Arg): string {
    if Sign(fs, arg) == " " then "" else Sign(fs, arg)
  }

  lemma {:induction false} NoNumber(base: nat)
    ensures Digital("", base) && Number("", base) == 0
  {
  }

  lemma {:induction false} NumberTextReads(fs: Spec, v: int, none: bool)
    requires CaseAdjust(fs.caseAdjust) && (none ==> v == 0)
    ensures var base, s := BaseOf(fs.conv), NumberText(fs, v, none);
            Digital(s, base) && Number(s, base) == Abs(v) && (s == "" <==> none)
  {
    hide Numeral, Repeat, Digital, Number;
    var base, s := BaseOf(fs.conv), Numeral(Abs(v), BaseOf(fs.conv), CaseOf(fs));
    NoNumber(base);
    NumeralReads(Abs(v), base, CaseOf(fs));
    LeadingZeros(1, s, base);
    assert Repeat('0', 1) == "0";
  }

  /** The digits of the value with the zeros a precision puts before them. */
  lemma {:induction false} ZerosRead(fs: Spec, arg: Arg)
    requires Usable(fs) && IsNumber(fs.conv)
    ensures var base, ds := BaseOf(fs.conv), Repeat('0', PrecPad(fs, arg)) + Body(fs, arg);
            Digital(ds, base) && Number(ds, base) == Abs(Value(fs, arg)) && (ds == "" <==> Empty(fs, arg))
  {
    NumberTextReads(fs, Value(fs, arg), NoDigits(fs, arg));
    LeadingZeros(PrecPad(fs, arg), Body(fs, arg), BaseOf(fs.conv));
  }

  lemma {:induction false} PaddedRead(ds: string, k: nat, base: nat)
    requires Base(base) && Digital(ds, base)
    ensures Digital(Repeat('0', k) + ds, base) && Number(Repeat('0', k) + ds, base) == Number(ds, base) * Pow(base, 0)
    ensures Digital(ds + Repeat('0', k), base) && Number(ds + Repeat('0', k), base) == Number(ds, base) * Pow(base, k)
    ensures Number(ds, base) == Number(ds, base) * Pow(base, 0)
  {
    LeadingZeros(k, ds, base);
    TrailingZeros(ds, k, base);
  }

  /** The digits, with all zeros around them, stand for the value times the base for each misplaced zero. */
  lemma {:induction false} DigitsRead(fs: Spec, arg: Arg)
    requires Usable(fs) && IsNumber(fs.conv)
    ensures var base, ds := BaseOf(fs.conv), AllDigits(fs, arg);
            && Digital(ds, base) && Number(ds, base) == Abs(Value(fs, arg)) * Pow(base, Misplaced(fs, arg))
            && (ds == "" <==> Empty(fs, arg))
  {
    ZerosRead(fs, arg);
    PaddedRead(Repeat('0', PrecPad(fs, arg)) + Body(fs, arg), FieldPad(fs, arg), BaseOf(fs.conv));
  }

  /** Regrouping the pieces of a field, s standing for the sign or its space. */
  lemma {:induction false} Regroup(before: string, visible: string, mark: string, zeros: string, body: string,
                                   pad: string)
    ensures (before + visible) + mark + zeros + body == before + ((visible + (mark + (zeros + body))) + "")
    ensures ((before + visible) + mark + zeros + body) + pad == before + ((visible + (mark + (zeros + body))) + pad)
    ensures pad + ((before + visible) + mark + zeros + body) ==
            (pad + before) + ((visible + (mark + (zeros + body))) + "")
  {
  }

  lemma {:induction false} RegroupZeros(before: string, visible: string, mark: string, zeros: string, body: string,
                                        pad: string)
    ensures (before + visible) + mark + pad + zeros + body ==
            before + ((visible + (mark + (pad + (zeros + body)))) + "")
    ensures ((before + visible) + mark + zeros + body) + pad ==
            before + ((visible + (mark + ((zeros + body) + pad))) + "")
  {
  }

  lemma {:induction false} SignShape(fs: Spec, arg: Arg)
    requires Usable(fs)
    ensures Sign(fs, arg) == Repeat(' ', if Sign(fs, arg) == " " then 1 else 0) + VisibleSign(fs, arg)
    ensures Repeat(' ', 0) == ""
    ensures VisibleSign(fs, arg) == "" || VisibleSign(fs, arg) == "-" || VisibleSign(fs, arg) == "+"
    ensures VisibleSign(fs, arg) == "-" <==> fs.conv.SignedInt? && Value(fs, arg) < 0
  {
    assert Repeat(' ', 1) == Repeat(' ', 0) + " ";
  }

  /** The field is spaces, sign, prefix, digits, spaces, in this order. */
  lemma {:induction false} TextShape(fs: Spec, arg: Arg)
    requires Usable(fs) && IsNumber(fs.conv)
    ensures Text(fs, arg) ==
            Repeat(' ', SpacesBefore(fs, arg)) +
            ((VisibleSign(fs, arg) + (HexMark(fs, arg) + AllDigits(fs, arg))) + Repeat(' ', SpacesBehind(fs, arg)))
  {
    var mark, zeros, body := HexMark(fs, arg), Repeat('0', PrecPad(fs, arg)), Body(fs, arg);
    var gap, pad := if Sign(fs, arg) == " " then 1 else 0, Repeat(PadChar(fs, arg), FieldPad(fs, arg));
    SignShape(fs, arg);
    RepeatSum(' ', FieldPad(fs, arg), gap);
    Regroup(Repeat(' ', gap), VisibleSign(fs, arg), mark, zeros, body, pad);
    RegroupZeros(Repeat(' ', gap), VisibleSign(fs, arg), mark, zeros, body, pad);
  }

  lemma {:induction false} SignTimes(v: int, p: nat)
    ensures WithSign(v < 0, Abs(v) * p) == v * p
  {
  }

  /**
   Reading back what a numeric conversion printed gives the value, with one exception (a 0 with
   precision 0 prints no digit, unless octal with '#') and one deviation: '0' padding of a field
   that a negative '*' width made left-justified multiplies the value by the base for every pad.
   */
  lemma {:induction false} RoundTrip(fs: Spec, arg: Arg)
    requires Usable(fs) && IsNumber(fs.conv)
    ensures ReadField(Text(fs, arg), BaseOf(fs.conv)) ==
            if Empty(fs, arg) then None
            else Some(Value(fs, arg) * Pow(BaseOf(fs.conv), Misplaced(fs, arg)))
  {
    var base := BaseOf(fs.conv);
    TextShape(fs, arg);
    DigitsRead(fs, arg);
    SignShape(fs, arg);
    SignTimes(Value(fs, arg), Pow(base, Misplaced(fs, arg)));
    ReadsField(SpacesBefore(fs, arg), VisibleSign(fs, arg), HexMark(fs, arg), AllDigits(fs, arg),
               SpacesBehind(fs, arg), base);
  }

  lemma {:induction false} PowAboveOne(base: nat, k: nat)
    requires Base(base) && k > 0
    ensures Pow(base, k) > 1
  {
    if k > 1 {
      PowAboveOne(base, k - 1);
    } else {
      assert Pow(base, 1) == base * Pow(base, 0);
    }
  }

  lemma {:induction false} TimesOne(v: int, p: nat)
    requires p > 0
    ensures v * p == v <==> v == 0 || p == 1
  {
    if v > 0 && p > 1 {
      assert v * p == v + v * (p - 1);
    } else if v < 0 && p > 1 {
      assert v * p == v + v * (p - 1);
    }
  }

  /** A scanned specification can be used once its stars are replaced. */
  lemma ResolvedUsable(p: Parts, args: seq<Arg>)
    requires WellFormed(p) && |args| >= Stars(Meaning(p))
    ensures Usable(Resolved(Meaning(p), args))
  {
  }

  /** The one way a field loses its number: a negative '*' width, the '0' flag, no precision, and room to pad. */
  predicate PadsBehind(p: Parts, args: seq<Arg>, arg: Arg)
    requires WellFormed(p) && |args| >= Stars(Meaning(p))
  {
    && p.width.StarWidth? && Signed(args[0].bits, INT) < 0
    && Zeroed(p.flags) && (p.conv == 'p' || PrecisionOpt(p.precision).Absent?)
    && |Core(Resolved(Meaning(p), args), arg)| < -Signed(args[0].bits, INT)
  }

  /**
   For every specification of a number or pointer and every argument, what is printed reads back as
   the value exactly when a digit is printed at all and no zeros are put behind a value other than 0.
   */
  lemma {:induction false} PrintedReadsBack(p: Parts, args: seq<Arg>)
    requires WellFormed(p) && IsNumber(ConversionOf(p.conv)) && |args| >= Takes(Meaning(p))
    ensures var fs, arg := Resolved(Meaning(p), args), args[Stars(Meaning(p))];
            ReadField(Text(fs, arg), BaseOf(fs.conv)) == Some(Value(fs, arg) as int) <==>
              !Empty(fs, arg) && (Value(fs, arg) == 0 || !PadsBehind(p, args, arg))
  {
    var fs, arg := Resolved(Meaning(p), args), args[Stars(Meaning(p))];
    var base, k := BaseOf(fs.conv), Misplaced(fs, arg);
    ResolvedUsable(p, args);
    RoundTrip(fs, arg);
    if k > 0 {
      PowAboveOne(base, k);
    }
    TimesOne(Value(fs, arg), Pow(base, k));
  }

  const ZERO_STAR_D := Parts("0", StarWidth, NoPrecision, NoLength, 'd')

  lemma SpellZeroStarD()
    ensures WellFormed(ZERO_STAR_D) && Spell(ZERO_STAR_D) == "%0*d"
  {
    assert SpellTail(ZERO_STAR_D) == "*d";
  }

  lemma {:induction false} ResolveZeroStarD(args: seq<Arg>)
    requires |args| == 2 && args[0].bits == INT - 3
    ensures Resolved(Meaning(ZERO_STAR_D), args) ==
            Spec('\0', false, Literal, 3, true, true, Absent, 0, NoLength, SignedInt, 32)
  {
  }

  /** With a width of -3 from a star and the '0' flag, 5 is printed as 500. */
  lemma {:induction false} NegativeStarWidth()
    ensures WellFormed(ZERO_STAR_D) && Spell(ZERO_STAR_D) == "%0*d"
    ensures Text(Resolved(Meaning(ZERO_STAR_D), [Arg(INT - 3, ""), Arg(5, "")]), Arg(5, "")) == "500"
  {
    SpellZeroStarD();
    ResolveZeroStarD([Arg(INT - 3, ""), Arg(5, "")]);
    ZeroStarDText(Spec('\0', false, Literal, 3, true, true, Absent, 0, NoLength, SignedInt, 32), Arg(5, ""));
  }

  lemma {:induction false} ZeroStarDText(fs: Spec, arg: Arg)
    requires fs == Spec('\0', false, Literal, 3, true, true, Absent, 0, NoLength, SignedInt, 32) && arg.bits == 5
    ensures Text(fs, arg) == "500"
  {
    assert Value(fs, arg) == 5 && Numeral(5, 10, 0) == "5";
    assert Repeat('0', 0) == "" && Repeat('0', 2) == "00";
    assert Core(fs, arg) == "5";
  }

  // ---------- a precision that counts as absent ----------

  /** What the digits of an absent precision change: only the zeros before the body. */
  lemma {:induction false} SamePieces(fs: Spec, arg: Arg)
    requires Usable(fs) && fs.precOpt.Absent?
    ensures var none := fs.(prec := 0);
            && Sign(none, arg) == Sign(fs, arg) && HexMark(none, arg) == HexMark(fs, arg)
            && Body(none, arg) == Body(fs, arg)
            && PadChar(none, arg) == PadChar(fs, arg) && Value(none, arg) == Value(fs, arg) && PrecPad(none, arg) == 0
            && |Core(fs, arg)| == |Core(none, arg)| + PrecPad(fs, arg)
            && Repeat('0', 0) == ""
            && Core(none, arg) == Sign(fs, arg) + HexMark(fs, arg) + "" + Body(fs, arg)
            && (PrecPad(fs, arg) == 0 ==> Core(fs, arg) == Core(none, arg))
  {
  }

  function Spaces(s: string): nat {
    multiset(s)[' ']
  }

  lemma {:induction false} SpacesOfSum(a: string, b: string)
    ensures Spaces(a + b) == Spaces(a) + Spaces(b)
  {
  }

  lemma {:induction false} SpacesOfRepeat(c: char, n: nat)
    ensures Spaces(Repeat(c, n)) == if c == ' ' then n else 0
  {
    if n == 0 {
      assert Repeat(c, n) == "";
    } else {
      SpacesOfRepeat(c, n - 1);
      SpacesOfSum(Repeat(c, n - 1), [c]);
    }
  }

  /** Zeros before the body add no space to the core. */
  lemma {:induction false} SpacesOfCore(fs: Spec, arg: Arg)
    requires Usable(fs) && fs.precOpt.Absent?
    ensures Spaces(Core(fs, arg)) == Spaces(Core(fs.(prec := 0), arg))
  {
    hide PrecPad, Body, HexMark, Sign;
    SamePieces(fs, arg);
    var front, zeros, body := Sign(fs, arg) + HexMark(fs, arg), Repeat('0', PrecPad(fs, arg)), Body(fs, arg);
    SpacesOfRepeat('0', PrecPad(fs, arg));
    SpacesOfSum(front, zeros);
    SpacesOfSum(front + zeros, body);
    SpacesOfSum(front, "");
    SpacesOfSum(front + "", body);
  }

  /** Padded with spaces, a field with more zeros has fewer spaces or is longer. */
  lemma {:induction false} SpacePadded(fs: Spec, arg: Arg)
    requires Usable(fs) && fs.precOpt.Absent? && PrecPad(fs, arg) > 0 && PadChar(fs, arg) == ' '
    ensures Text(fs, arg) != Text(fs.(prec := 0), arg)
  {
    hide PrecPad, Body, HexMark, Sign, Core, PadChar, Spaces;
    var none := fs.(prec := 0);
    SamePieces(fs, arg);
    SpacesOfCore(fs, arg);
    SpacesOfText(fs, arg);
    SpacesOfText(none, arg);
  }

  lemma {:induction false} SpacesOfText(fs: Spec, arg: Arg)
    requires CaseAdjust(fs.caseAdjust) && PadChar(fs, arg) == ' '
    ensures Spaces(Text(fs, arg)) == Spaces(Core(fs, arg)) + FieldPad(fs, arg)
    ensures |Text(fs, arg)| == |Core(fs, arg)| + FieldPad(fs, arg)
  {
    hide Core, FieldPad, PadChar, Spaces;
    SpacesOfRepeat(' ', FieldPad(fs, arg));
    SpacesOfSum(Core(fs, arg), Repeat(' ', FieldPad(fs, arg)));
    SpacesOfSum(Repeat(' ', FieldPad(fs, arg)), Core(fs, arg));
  }

  /** Padded with zeros on the left, the zeros of both kinds merge if the width takes them all. */
  lemma {:induction false} ZeroPadded(fs: Spec, arg: Arg)
    requires Usable(fs) && fs.precOpt.Absent? && PrecPad(fs, arg) > 0 && PadChar(fs, arg) == '0' && !fs.left
    requires |Core(fs, arg)| <= fs.width
    ensures Text(fs, arg) == Text(fs.(prec := 0), arg)
  {
    hide PrecPad, Body, HexMark, Sign, PadChar, Repeat;
    var none := fs.(prec := 0);
    SamePieces(fs, arg);
    var front, body := Sign(fs, arg) + HexMark(fs, arg), Body(fs, arg);
    assert FieldPad(none, arg) == FieldPad(fs, arg) + PrecPad(fs, arg);
    RepeatSum('0', FieldPad(fs, arg), PrecPad(fs, arg));
    MergeZeros(front, Repeat('0', FieldPad(fs, arg)), Repeat('0', PrecPad(fs, arg)), body);
  }

  lemma {:induction false} MergeZeros(front: string, a: string, b: string, body: string)
    ensures front + a + b + body == front + (a + b) + "" + body
  {
  }

  /** Padded with zeros behind, a value other than 0 reads differently for each zero more. */
  lemma {:induction false} ZerosBehind(fs: Spec, arg: Arg)
    requires Usable(fs) && fs.precOpt.Absent? && PrecPad(fs, arg) > 0 && PadChar(fs, arg) == '0' && fs.left
    requires |Core(fs, arg)| <= fs.width && Value(fs, arg) != 0
    ensures Text(fs, arg) != Text(fs.(prec := 0), arg)
  {
    hide PrecPad, Body, HexMark, Sign, Core, Text, ReadField, Value;
    var none := fs.(prec := 0);
    var v, base, a, z := Value(fs, arg), BaseOf(fs.conv), FieldPad(fs, arg), PrecPad(fs, arg);
    SamePieces(fs, arg);
    assert FieldPad(none, arg) == a + z;
    RoundTrip(fs, arg);
    RoundTrip(none, arg);
    PowAdd(base, a, z);
    PowAboveOne(base, z);
    PowPositive(base, a);
    DifferentProducts(v, Pow(base, a), Pow(base, z));
  }

  lemma {:induction false} PowPositive(base: nat, k: nat)
    requires Base(base)
    ensures Pow(base, k) > 0
  {
    if k > 0 { PowAboveOne(base, k); }
  }

  lemma {:induction false} DifferentProducts(v: int, p: nat, q: nat)
    requires v != 0 && p > 0 && q > 1
    ensures v * p != v * (p * q)
  {
    TimesOne(v * p, q);
    assert (v * p) * q == v * (p * q);
    assert v * p != 0;
  }

  /** A zero padded with zeros behind is all zeros, however many of them the precision adds. */
  lemma {:induction false} ZeroBehind(fs: Spec, arg: Arg)
    requires Usable(fs) && fs.precOpt.Absent? && PrecPad(fs, arg) > 0 && PadChar(fs, arg) == '0' && fs.left
    requires |Core(fs, arg)| <= fs.width && Value(fs, arg) == 0
    ensures Text(fs, arg) == Text(fs.(prec := 0), arg)
  {
    hide PrecPad, HexMark, Sign, PadChar, Repeat;
    var none := fs.(prec := 0);
    var front, a, z := Sign(fs, arg) + HexMark(fs, arg), FieldPad(fs, arg), PrecPad(fs, arg);
    SamePieces(fs, arg);
    assert FieldPad(none, arg) == a + z;
    PadChars(fs, arg);
    ZeroBody(fs, arg);
    RepeatSum('0', z, 1);
    RepeatSum('0', z + 1, a);
    RepeatSum('0', 1, a + z);
    GroupZeros(front, Repeat('0', z), "0", Repeat('0', a), Repeat('0', a + z));
  }

  lemma {:induction false} PadChars(fs: Spec, arg: Arg)
    ensures PadChar(fs, arg) == '\0' || PadChar(fs, arg) == ' ' || PadChar(fs, arg) == '0'
    ensures PadChar(fs, arg) == '0' ==> IsNumber(fs.conv)
  {
  }

  lemma {:induction false} ZeroBody(fs: Spec, arg: Arg)
    requires Usable(fs) && fs.precOpt.Absent? && IsNumber(fs.conv) && Value(fs, arg) == 0
    ensures Body(fs, arg) == "0" == Repeat('0', 1)
  {
    assert Numeral(0, BaseOf(fs.conv), CaseOf(fs)) == "0";
    assert Repeat('0', 1) == Repeat('0', 0) + "0";
  }

  lemma {:induction false} GroupZeros(front: string, z: string, o: string, a: string, b: string)
    requires (z + o) + a == o + b
    ensures front + z + o + a == front + "" + o + b
  {
    assert front + z + o + a == front + ((z + o) + a);
  }

  /** The zeros of an absent precision do not show: there are none, or they merge with other zeros. */
  predicate ZerosHidden(fs: Spec, arg: Arg)
    requires CaseAdjust(fs.caseAdjust)
  {
    || PrecPad(fs, arg) == 0
    || (PadChar(fs, arg) == '0' && |Core(fs, arg)| <= fs.width && (!fs.left || Value(fs, arg) == 0))
  }

  /**
   A precision that counts as absent (of a character, a pointer, a '%', or behind a minus sign)
   still prints its zeros, exactly unless the body is that long anyway or zeros of the width take
   their place.
   */
  lemma {:induction false} AbsentPrecision(fs: Spec, arg: Arg)
    requires Usable(fs) && fs.precOpt.Absent?
    ensures Text(fs, arg) == Text(fs.(prec := 0), arg) <==> ZerosHidden(fs, arg)
  {
    hide PrecPad, Body, HexMark, Sign, Core, PadChar, Value;
    var none := fs.(prec := 0);
    SamePieces(fs, arg);
    PadChars(fs, arg);
    TextLength(fs, arg);
    TextLength(none, arg);
    if PrecPad(fs, arg) == 0 {
      SameText(fs, arg);
    } else if PadChar(fs, arg) == ' ' {
      SpacePadded(fs, arg);
    } else if PadChar(fs, arg) == '0' && |Core(fs, arg)| <= fs.width {
      if !fs.left {
        ZeroPadded(fs, arg);
      } else if Value(fs, arg) == 0 {
        ZeroBehind(fs, arg);
      } else {
        ZerosBehind(fs, arg);
      }
    }
  }

  lemma {:induction false} SameText(fs: Spec, arg: Arg)
    requires Usable(fs) && fs.precOpt.Absent? && PrecPad(fs, arg) == 0
    ensures Text(fs, arg) == Text(fs.(prec := 0), arg)
  {
    hide PrecPad, Body, HexMark, Sign, PadChar;
    SamePieces(fs, arg);
  }

  /** A precision pads a character with zeros, although it counts as absent. */
  lemma {:induction false} PrecisionPadsCharacter(fs: Spec)
    requires fs == Meaning(Parts("", NoWidth, Precise("3"), NoLength, 'c'))
    ensures fs.precOpt.Absent? && Text(fs, Arg(65, "")) == "00A"
  {
    assert "3"[..0] == "" && Decimal("") == 0 && Decimal("3") == 3;
    assert Body(fs, Arg(65, "")) == "A";
    assert Repeat('0', 2) == "00";
    assert Core(fs, Arg(65, "")) == "00A";
  }
}
