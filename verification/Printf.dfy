/**
 The formatter: a counting writer into a bounded buffer, the conversion of one argument in a
 23-byte buffer, and the loops over formats.
 */
module Printf {
  import opened Wrappers
  import opened FormatSpec
  import opened Scanner
  import opened Digits
  import opened Conversion
  import opened FormatText

  const CONVERSION_BUFFER_SIZE := 23

  function Min(x: nat, y: nat): nat {
    if x < y then x else y
  }

  /**
   npf_cnt_putc_ctx over npf_bufputc_ctx: n counts the characters of the formatted text, the first
   len of all characters put are kept in dst. discard stands for a NULL buffer.
   */
  class Writer {
    const dst: array<char>
    const len: nat
    const discard: bool
    var cur: nat
    var n: nat
    ghost var out: string
    ghost const initial: string

    ghost predicate Valid()
      reads this, dst
    {
      && |initial| == dst.Length
      && cur <= |out|
      && (if discard then cur == 0 else len <= dst.Length && cur == Min(|out|, len))
      && dst[..] == out[..cur] + initial[cur..]
    }

    constructor (dst: array<char>, len: nat, discard: bool)
      requires !discard ==> len <= dst.Length
      ensures Valid() && this.dst == dst && this.len == len && this.discard == discard
      ensures out == "" && n == 0 && initial == dst[..]
    {
      this.dst, this.len, this.discard := dst, len, discard;
      cur, n := 0, 0;
      out, initial := "", dst[..];
    }

    /** Some text has been put and counted. */
    twostate predicate Wrote(s: string)
      reads this, dst
    {
      Valid() && out == old(out) + s && n == old(n) + |s|
    }

    /** npf_bufputc, or npf_bufputc_nop for a NULL buffer. */
    method PutByte(c: char)
      requires Valid()
      modifies `cur, `out, dst
      ensures Valid() && out == old(out) + [c]
    {
      ghost var before := dst[..];
      if !discard && cur < len {
        dst[cur] := c;
        cur := cur + 1;
        assert dst[..] == before[cur - 1 := c];
      }
      out := out + [c];
      Stored(old(out), c, initial, before, old(cur), cur, dst[..]);
    }

    /** npf_putc_cnt. */
    method Put(c: char)
      requires Valid() && n < INT_MAX
      modifies this, dst
      ensures Wrote([c])
    {
      n := n + 1;
      PutByte(c);
    }

    /** The padding loops. */
    method PutRepeat(c: char, count: int)
      requires Valid() && n + Max(0, count) <= INT_MAX
      modifies this, dst
      ensures Wrote(Repeat(c, if count > 0 then count else 0))
    {
      var left := count;
      ghost var k := 0;
      while left > 0
        invariant k == count - left && (if count > 0 then 0 <= left <= count else left == count)
        invariant Wrote(Repeat(c, k))
      {
        Put(c);
        left := left - 1;
        k := k + 1;
      }
    }

    /** The payload of a number is in the buffer backwards. */
    method PutBackwards(buf: array<char>, count: nat)
      requires Valid() && count <= buf.Length && buf != dst && n + count <= INT_MAX
      modifies this, dst
      ensures Wrote(Backwards(buf[..count]))
    {
      var left := count;
      ghost var done := "";
      while left > 0
        invariant 0 <= left <= count && |done| == count - left
        invariant Backwards(buf[..count]) == done + Backwards(buf[..left])
        invariant Wrote(done)
      {
        BackwardsLast(buf[..left], done);
        assert buf[..left][..left - 1] == buf[..left - 1];
        done := done + [buf[left - 1]];
        left := left - 1;
        Put(buf[left]);
      }
    }

    /** The payload of a string. */
    method PutText(text: string, count: nat)
      requires Valid() && count <= |text| && n + count <= INT_MAX
      modifies this, dst
      ensures Wrote(text[..count])
    {
      var i := 0;
      while i < count
        invariant 0 <= i <= count
        invariant Wrote(text[..i])
      {
        assert text[..i + 1] == text[..i] + [text[i]];
        Put(text[i]);
        i := i + 1;
      }
    }
  }

  lemma {:induction false} Stored(out: string, c: char, initial: string, before: string, cur: nat, cur': nat,
                                  after: string)
    requires cur <= |out| && cur <= |initial| && before == out[..cur] + initial[cur..]
    requires cur' == cur ==> after == before
    requires cur' != cur ==> cur' == cur + 1 && cur == |out| && cur < |before| && after == before[cur := c]
    ensures cur' <= |initial| && after == (out + [c])[..cur'] + initial[cur'..]
  {
  }

  lemma {:induction false} BackwardsLast(s: string, done: string)
    requires s != ""
    ensures done + Backwards(s) == (done + [s[|s|-1]]) + Backwards(s[..|s|-1])
  {
    assert s == s[..|s|-1] + [s[|s|-1]];
    BackwardsNext(s[..|s|-1], s[|s|-1], done);
  }

  // ---------- stars ----------

  /** Take the width and the precision from the arguments where the specification has stars. */
  method TakeStars(fs0: Spec, args: seq<Arg>) returns (fs: Spec, taken: nat)
    requires |args| >= Stars(fs0) && StarFits(fs0, args)
    ensures fs == Resolved(fs0, args) && taken == Stars(fs0)
  {
    fs, taken := fs0, 0;
    if fs.widthOpt == Star {
      fs := fs.(widthOpt := Literal);
      fs := fs.(width := Signed(args[taken].bits, INT));
      taken := taken + 1;
      if fs.width < 0 {
        fs := fs.(width := -fs.width);
        fs := fs.(left := true);
      }
    }
    if fs.precOpt == Star {
      fs := fs.(precOpt := Absent);
      fs := fs.(prec := Signed(args[taken].bits, INT));
      taken := taken + 1;
      if fs.prec >= 0 {
        fs := fs.(precOpt := Literal);
      }
    }
  }

  // ---------- the argument ----------

  /** A sign or mark as a character, '\0' for none. */
  function CharOf(s: string, i: nat): char {
    if i < |s| then s[i] else '\0'
  }

  /** The digits of an argument are in the buffer, and the fields that go with them are known. */
  ghost predicate Converted(fs: Spec, arg: Arg, cbuf: array<char>, len: nat, signC: char, need0x: char, prec: int,
                            zero: bool)
    requires CaseAdjust(fs.caseAdjust)
    reads cbuf
  {
    && len <= cbuf.Length && Backwards(cbuf[..len]) == Body(fs, arg)
    && signC == CharOf(Sign(fs, arg), 0) && need0x == CharOf(HexMark(fs, arg), 1)
    && prec == MinDigits(fs, arg)
    && (zero <==> !fs.conv.Pointer? && IsNumber(fs.conv) && Value(fs, arg) == 0)
  }

  /** Signed decimal. */
  method ConvertSigned(fs: Spec, arg: Arg, cbuf: array<char>)
    returns (len: nat, signC: char, prec: int, zero: bool)
    requires Usable(fs) && fs.conv.SignedInt? && cbuf.Length == CONVERSION_BUFFER_SIZE
    modifies cbuf
    ensures Converted(fs, arg, cbuf, len, signC, '\0', prec, zero)
  {
    BodyFits(fs, arg);
    var val := SignedArg(fs.length, arg.bits);
    signC := if val < 0 then '-' else fs.prepend;
    zero := val == 0;
    prec := fs.prec;
    if val == 0 && fs.precOpt == Literal && fs.prec == 0 {
      len := 0;
    } else {
      len := ItoaRev(cbuf, val);
    }
  }

  /** Octal, decimal and hexadecimal. */
  method ConvertUnsigned(fs: Spec, arg: Arg, cbuf: array<char>)
    returns (len: nat, need0x: char, prec: int, zero: bool)
    requires Usable(fs) && (fs.conv.Octal? || fs.conv.HexInt? || fs.conv.UnsignedInt?)
             && cbuf.Length == CONVERSION_BUFFER_SIZE
    modifies cbuf
    ensures Converted(fs, arg, cbuf, len, '\0', need0x, prec, zero)
  {
    hide Numeral;
    BodyFits(fs, arg);
    var val := UnsignedArg(fs.length, arg.bits);
    len, need0x, prec := 0, '\0', fs.prec;
    zero := val == 0;
    if val == 0 && fs.precOpt == Literal && fs.prec == 0 {
      if fs.conv == Octal && fs.altForm {
        prec := 1;
      }
    } else {
      var base := if fs.conv == Octal then 8 else if fs.conv == HexInt then 16 else 10;
      len := UtoaRev(cbuf, val, base, fs.caseAdjust);
    }
    if val != 0 && fs.altForm && fs.conv == Octal {
      ghost var digits := cbuf[..len];
      BackwardsConcat(digits, "0");
      assert Backwards("0") == "0";
      cbuf[len] := '0';
      assert cbuf[..len + 1] == digits + ['0'];
      len := len + 1;
    }
    if val != 0 && fs.altForm {
      if fs.conv == HexInt {
        need0x := (88 + fs.caseAdjust) as char;
      }
    }
  }

  /** Pointers, always with 0x. */
  method ConvertPointer(fs: Spec, arg: Arg, cbuf: array<char>) returns (len: nat, need0x: char)
    requires Usable(fs) && fs.conv.Pointer? && cbuf.Length == CONVERSION_BUFFER_SIZE
    modifies cbuf
    ensures Converted(fs, arg, cbuf, len, '\0', need0x, fs.prec, false)
  {
    BodyFits(fs, arg);
    len := UtoaRev(cbuf, arg.bits, 16, 32);
    need0x := 'x';
  }

  /** The length of a string, cut at the precision if there is one. */
  method StringLength(fs: Spec, arg: Arg) returns (len: nat)
    requires Usable(fs) && fs.conv.String? && |Body(fs, arg)| <= INT_MAX
    ensures len <= |arg.text| && arg.text[..len] == Body(fs, arg)
  {
    len := 0;
    while (fs.precOpt == Absent || len < fs.prec) && len < |arg.text|
      invariant len <= |arg.text| && (fs.precOpt != Absent ==> len <= Max(0, fs.prec))
    {
      assert len < |Body(fs, arg)| <= INT_MAX;
      len := len + 1;
    }
    assert arg.text[..|arg.text|] == arg.text;
  }

  /** Extract the argument and convert it; only strings leave the buffer alone. */
  method ConvertArgument(fs: Spec, arg: Arg, cbuf: array<char>)
    returns (len: nat, signC: char, need0x: char, prec: int, zero: bool)
    requires Usable(fs) && cbuf.Length == CONVERSION_BUFFER_SIZE && |Body(fs, arg)| <= INT_MAX
    modifies cbuf
    ensures !fs.conv.String? ==> Converted(fs, arg, cbuf, len, signC, need0x, prec, zero)
    ensures fs.conv.String? ==>
              && len <= |arg.text| && arg.text[..len] == Body(fs, arg)
              && signC == need0x == '\0' && prec == fs.prec && !zero
  {
    len, signC, need0x, prec, zero := 0, '\0', '\0', fs.prec, false;
    match fs.conv {
      case Percent =>
        cbuf[0] := '%';
        len := 1;
        assert cbuf[..1] == "%" && Backwards("%") == "%";
      case Character =>
        cbuf[0] := (arg.bits % 256) as char;
        len := 1;
        assert cbuf[..1] == [(arg.bits % 256) as char] && Backwards(cbuf[..1]) == cbuf[..1];
      case String =>
        len := StringLength(fs, arg);
      case SignedInt =>
        len, signC, prec, zero := ConvertSigned(fs, arg, cbuf);
      case Pointer =>
        len, need0x := ConvertPointer(fs, arg, cbuf);
      case _ =>
        len, need0x, prec, zero := ConvertUnsigned(fs, arg, cbuf);
    }
  }

  // ---------- padding ----------

  /** The pad character of the field. */
  method ChoosePad(fs: Spec, prec: int, zero: bool, ghost arg: Arg) returns (padC: char)
    requires prec == MinDigits(fs, arg) || fs.conv.String?
    requires zero <==> !fs.conv.Pointer? && IsNumber(fs.conv) && Value(fs, arg) == 0
    ensures padC == PadChar(fs, arg)
  {
    padC := '\0';
    if fs.widthOpt == Literal {
      if fs.zeroPad {
        if fs.conv != String && fs.conv != Character && fs.conv != Percent {
          if fs.precOpt == Literal && prec == 0 && zero {
            padC := ' ';
          } else {
            padC := '0';
          }
        }
      } else {
        padC := ' ';
      }
    }
  }

  // ---------- the field ----------

  function SignText(c: char): string {
    if c == '\0' then "" else [c]
  }

  function MarkText(c: char): string {
    if c == '\0' then "" else ['0', c]
  }

  /** What goes out before the payload: pads, and what must stand before or behind them. */
  function Lead(left: bool, padC: char, sign: string, mark: string, pad: nat): string {
    if left || padC == '\0' then mark
    else if padC == '0' then sign + mark + Repeat('0', pad)
    else Repeat(padC, pad) + mark
  }

  /** The sign, unless it has gone out before zeros; then zeros and digits. */
  function Payload(left: bool, padC: char, sign: string, zeros: nat, body: string): string {
    (if !left && padC == '0' then "" else sign) + Repeat('0', zeros) + body
  }

  function Trail(left: bool, padC: char, pad: nat): string {
    if left && padC != '\0' then Repeat(padC, pad) else ""
  }

  /** In this order the pieces are those of the text: a sign and a 0x prefix never come together. */
  lemma {:induction false} PiecesAreText(fs: Spec, arg: Arg)
    requires Usable(fs)
    ensures var padC, pad, sign := PadChar(fs, arg), FieldPad(fs, arg), Sign(fs, arg);
            (Lead(fs.left, padC, sign, HexMark(fs, arg), pad) +
             Payload(fs.left, padC, sign, PrecPad(fs, arg), Body(fs, arg))) +
            Trail(fs.left, padC, pad) == Text(fs, arg)
  {
    TextLength(fs, arg);
    Join(Sign(fs, arg), HexMark(fs, arg), Repeat('0', PrecPad(fs, arg)), Body(fs, arg),
         Repeat(PadChar(fs, arg), FieldPad(fs, arg)));
  }

  lemma {:induction false} Join(sign: string, mark: string, zeros: string, body: string, pad: string)
    requires sign == "" || mark == ""
    ensures (mark + (sign + zeros + body)) + "" == sign + mark + zeros + body
    ensures (mark + (sign + zeros + body)) + pad == sign + mark + zeros + body + pad
    ensures ((pad + mark) + (sign + zeros + body)) + "" == pad + (sign + mark + zeros + body)
    ensures ((sign + mark + pad) + ("" + zeros + body)) + "" == sign + mark + pad + zeros + body
  {
  }

  method PutMark(w: Writer, need0x: char)
    requires w.Valid() && w.n + |MarkText(need0x)| <= INT_MAX
    modifies w, w.dst
    ensures w.Wrote(MarkText(need0x))
  {
    if need0x != '\0' {
      w.Put('0');
      w.Put(need0x);
    }
  }

  /** Pads on the left, and the sign and prefix as far as they belong before them. */
  method EmitLead(w: Writer, left: bool, padC: char, signC: char, need0x: char, fieldPad: nat) returns (signLeft: char)
    requires w.Valid() && (padC == '\0' || padC == '0' || padC == ' ')
    requires w.n + |Lead(left, padC, SignText(signC), MarkText(need0x), fieldPad)| <= INT_MAX
    modifies w, w.dst
    ensures w.Wrote(Lead(left, padC, SignText(signC), MarkText(need0x), fieldPad))
    ensures signLeft == if !left && padC == '0' then '\0' else signC
  {
    hide Backwards, Repeat, Min;
    signLeft := signC;
    if !left && padC != '\0' {
      if padC == '0' {
        if signLeft != '\0' {
          w.Put(signLeft);
          signLeft := '\0';
        }
        PutMark(w, need0x);
      }
      w.PutRepeat(padC, fieldPad);
      if padC != '0' {
        PutMark(w, need0x);
      }
    } else {
      PutMark(w, need0x);
    }
  }

  /** The payload: a string as it is, a number behind its sign and its leading zeros. */
  method EmitPayload(w: Writer, fs: Spec, text: string, cbuf: array<char>, len: nat, signC: char, precPad: nat,
                     ghost body: string)
    requires w.Valid() && cbuf != w.dst && w.n + |SignText(signC)| + precPad + |body| <= INT_MAX
    requires if fs.conv.String? then len <= |text| && text[..len] == body && signC == '\0' && precPad == 0
             else len <= cbuf.Length && Backwards(cbuf[..len]) == body
    modifies w, w.dst
    ensures w.Wrote(SignText(signC) + Repeat('0', precPad) + body)
  {
    hide Backwards, Repeat;
    if fs.conv == String {
      w.PutText(text, len);
    } else {
      if signC != '\0' {
        w.Put(signC);
      }
      w.PutRepeat('0', precPad);
      w.PutBackwards(cbuf, len);
    }
  }

  /** The pad character, and how many zeros and pads there are. */
  method ComputePads(fs: Spec, arg: Arg, len: nat, signC: char, need0x: char, prec: int, zero: bool)
    returns (padC: char, precPad: nat, fieldPad: nat)
    requires Usable(fs) && len == |Body(fs, arg)| && (prec == MinDigits(fs, arg) || fs.conv.String?)
    requires PrecFits(fs, arg) && |Text(fs, arg)| <= INT_MAX
    requires signC == CharOf(Sign(fs, arg), 0) && need0x == CharOf(HexMark(fs, arg), 1)
    requires zero <==> !fs.conv.Pointer? && IsNumber(fs.conv) && Value(fs, arg) == 0
    ensures padC == PadChar(fs, arg) && precPad == PrecPad(fs, arg) && fieldPad == FieldPad(fs, arg)
    ensures SignText(signC) == Sign(fs, arg) && MarkText(need0x) == HexMark(fs, arg)
  {
    TextLength(fs, arg);
    padC := ChoosePad(fs, prec, zero, arg);
    precPad := 0;
    if fs.conv != String {
      assert prec - len >= INT_MIN;
      precPad := Max(0, prec - len);
    }
    var pad := fs.width - len - (if signC != '\0' then 1 else 0);
    if need0x != '\0' {
      pad := pad - 2;
    }
    pad := pad - precPad;
    assert pad == fs.width - |Core(fs, arg)| >= INT_MIN;
    fieldPad := Max(0, pad);
  }

  /** Lead, payload and trail, one after the other. */
  method EmitPieces(w: Writer, fs: Spec, text: string, cbuf: array<char>, len: nat, signC: char, need0x: char,
                    padC: char, precPad: nat, fieldPad: nat, ghost body: string)
    requires w.Valid() && cbuf != w.dst && (padC == '\0' || padC == '0' || padC == ' ')
    requires w.n + |Lead(fs.left, padC, SignText(signC), MarkText(need0x), fieldPad)| +
             |Payload(fs.left, padC, SignText(signC), precPad, body)| + |Trail(fs.left, padC, fieldPad)| <= INT_MAX
    requires if fs.conv.String? then len <= |text| && text[..len] == body && signC == '\0' && precPad == 0
             else len <= cbuf.Length && Backwards(cbuf[..len]) == body
    modifies w, w.dst
    ensures w.Wrote((Lead(fs.left, padC, SignText(signC), MarkText(need0x), fieldPad) +
                     Payload(fs.left, padC, SignText(signC), precPad, body)) + Trail(fs.left, padC, fieldPad))
  {
    ghost var lead := Lead(fs.left, padC, SignText(signC), MarkText(need0x), fieldPad);
    ghost var payload := Payload(fs.left, padC, SignText(signC), precPad, body);
    OneAfterTheOther(w.out, lead, payload, Trail(fs.left, padC, fieldPad));
    var signLeft := EmitLead(w, fs.left, padC, signC, need0x, fieldPad);
    EmitPayload(w, fs, text, cbuf, len, signLeft, precPad, body);
    if fs.left && padC != '\0' {
      w.PutRepeat(padC, fieldPad);
    }
  }

  lemma {:induction false} OneAfterTheOther(out: string, a: string, b: string, c: string)
    ensures ((out + a) + b) + c == out + ((a + b) + c)
    ensures c == "" ==> (out + a) + b == out + ((a + b) + c)
    ensures |(a + b) + c| == |a| + |b| + |c|
  {
  }

  /** The padding and output of one converted argument. */
  method EmitField(w: Writer, fs: Spec, arg: Arg, cbuf: array<char>, len: nat, signC: char, need0x: char, prec: int,
                   zero: bool)
    requires w.Valid() && cbuf != w.dst && Usable(fs) && PrecFits(fs, arg) && w.n + |Text(fs, arg)| <= INT_MAX
    requires !fs.conv.String? ==> Converted(fs, arg, cbuf, len, signC, need0x, prec, zero)
    requires fs.conv.String? ==>
               && len <= |arg.text| && arg.text[..len] == Body(fs, arg)
               && signC == need0x == '\0' && prec == fs.prec && !zero
    modifies w, w.dst
    ensures w.Wrote(Text(fs, arg))
  {
    var padC, precPad, fieldPad := ComputePads(fs, arg, len, signC, need0x, prec, zero);
    PiecesAreText(fs, arg);
    EmitPieces(w, fs, arg.text, cbuf, len, signC, need0x, padC, precPad, fieldPad, Body(fs, arg));
  }

  // ---------- formats ----------

  /** One specification: its stars, its argument, its field. */
  method ConvertOne(w: Writer, fs0: Spec, args: seq<Arg>, ghost p: Parts) returns (taken: nat)
    requires w.Valid() && WellFormed(p) && fs0 == Meaning(p) && |args| >= Takes(fs0)
    requires SpecFits(fs0, args) && w.n + |One(p, args)| <= INT_MAX
    modifies w, w.dst
    ensures w.Wrote(One(p, args)) && taken == Takes(fs0)
  {
    var fs;
    ResolvedUsable(p, args);
    fs, taken := TakeStars(fs0, args);
    var arg := Arg(0, "");
    if fs.conv != Percent {
      arg := args[taken];
      taken := taken + 1;
    }
    var cbuf := new char[CONVERSION_BUFFER_SIZE];
    TextLength(fs, arg);
    var len, signC, need0x, prec, zero := ConvertArgument(fs, arg, cbuf);
    EmitField(w, fs, arg, cbuf, len, signC, need0x, prec, zero);
  }

  /** The arguments from taken on suffice for the format from cur on, and its numbers fit. */
  ghost predicate Suffices(format: string, cur: nat, args: seq<Arg>, taken: nat) {
    && CString(format) && cur < |format| && taken <= |args| && |args| - taken >= Needed(Rest(format, cur))
    && Defined(Rest(format, cur), args[taken..])
  }

  /** What the format from cur on prints with the arguments from taken on. */
  ghost function ToCome(format: string, cur: nat, args: seq<Arg>, taken: nat): string
    requires Suffices(format, cur, args, taken)
  {
    Output(Rest(format, cur), args[taken..])
  }

  /** Putting a piece leads from one point of the format and the arguments to another. */
  ghost predicate Leads(format: string, cur: nat, args: seq<Arg>, taken: nat, piece: string, cur': nat, taken': nat) {
    && Suffices(format, cur, args, taken) && Suffices(format, cur', args, taken') && cur' > cur
    && ToCome(format, cur, args, taken) == piece + ToCome(format, cur', args, taken')
  }

  /** A specification to be converted, and the piece it prints. */
  ghost predicate Upcoming(args: seq<Arg>, taken: nat, fs: Spec, p: Parts, piece: string, taken': nat) {
    && WellFormed(p) && fs == Meaning(p)
    && taken <= |args| && |args| - taken >= Takes(fs) && SpecFits(fs, args[taken..])
    && piece == One(p, args[taken..]) && taken' == taken + Takes(fs)
  }

  lemma {:induction false} NextChar(format: string, cur: nat, args: seq<Arg>, taken: nat)
    requires Suffices(format, cur, args, taken) && format[cur] != '\0' && Scan(Rest(format, cur)).None?
    ensures Leads(format, cur, args, taken, [format[cur]], cur + 1, taken)
  {
    hide Scan, NumbersFit, SpecFits, One, Text;
    DefinedStep(Rest(format, cur), args[taken..]);
    assert Rest(format, cur)[1..] == Rest(format, cur + 1);
  }

  lemma {:induction false} NextSpec(format: string, cur: nat, args: seq<Arg>, taken: nat, p: Parts)
    requires Suffices(format, cur, args, taken) && format[cur] != '\0' && Scan(Rest(format, cur)) == Some(p)
    ensures WellFormed(p) && |args| - taken >= Takes(Meaning(p))
    ensures Upcoming(args, taken, Meaning(p), p, One(p, args[taken..]), taken + Takes(Meaning(p)))
    ensures Leads(format, cur, args, taken, One(p, args[taken..]), cur + |Spell(p)|, taken + Takes(Meaning(p)))
  {
    hide Scan, Needed, Output, Defined, NumbersFit, SpecFits, One, Meaning, Takes;
    DefinedStep(Rest(format, cur), args[taken..]);
    OutputStep(Rest(format, cur), p, args[taken..]);
    RestBehind(format, cur, Spell(p));
    DropTwice(args, taken, Takes(Meaning(p)));
  }

  /** The next character or specification of a format, and what is left behind it. */
  lemma {:induction false} NextStep(format: string, cur: nat, args: seq<Arg>, taken: nat)
    returns (piece: string, cur': nat, taken': nat)
    requires Suffices(format, cur, args, taken) && format[cur] != '\0'
    ensures Leads(format, cur, args, taken, piece, cur', taken')
    ensures if format[cur] == '%' then NumbersFit(Rest(format, cur)) else Scan(Rest(format, cur)).None?
    ensures match Scan(Rest(format, cur))
            case None => piece == [format[cur]] && cur' == cur + 1 && taken' == taken
            case Some(p) =>
              WellFormed(p) && cur' == cur + |Spell(p)| && Upcoming(args, taken, Meaning(p), p, piece, taken')
  {
    hide Scan, Needed, Output, Defined, NumbersFit, Leads, Upcoming, Meaning, Takes, One;
    DefinedStep(Rest(format, cur), args[taken..]);
    if format[cur] != '%' {
      NotPercent(Rest(format, cur));
    }
    if Scan(Rest(format, cur)).None? {
      NextChar(format, cur, args, taken);
      piece, cur', taken' := [format[cur]], cur + 1, taken;
    } else {
      var p := Scan(Rest(format, cur)).value;
      NextSpec(format, cur, args, taken, p);
      piece, cur', taken' := One(p, args[taken..]), cur + |Spell(p)|, taken + Takes(Meaning(p));
    }
  }

  /** Read the next character or specification. */
  method Look(format: string, cur: nat, args: seq<Arg>, taken: nat)
    returns (len: nat, fs: Spec, cur': nat, ghost p: Parts, ghost piece: string, ghost taken': nat)
    requires Suffices(format, cur, args, taken) && format[cur] != '\0'
    ensures Leads(format, cur, args, taken, piece, cur', taken')
    ensures len == 0 ==> piece == [format[cur]] && taken' == taken
    ensures len != 0 ==> Upcoming(args, taken, fs, p, piece, taken')
  {
    hide Scan, Needed, Output, One, Meaning, Defined, SpecFits, NumbersFit;
    ghost var next;
    piece, next, taken' := NextStep(format, cur, args, taken);
    len, fs, cur' := 0, BLANK, cur + 1;
    p := Parts("", NoWidth, NoPrecision, NoLength, '%');
    if format[cur] == '%' {
      len, fs := ParseFormatSpec(format, cur);
    }
    if len != 0 {
      p := Scan(Rest(format, cur)).value;
      cur' := cur + len;
    }
  }

  /** Copy the character or convert the specification. */
  method PrintPiece(w: Writer, c: char, len: nat, fs: Spec, args: seq<Arg>, taken: nat,
                    ghost p: Parts, ghost piece: string, ghost end: nat) returns (taken': nat)
    requires w.Valid() && taken <= |args| && w.n + |piece| <= INT_MAX
    requires len == 0 ==> piece == [c] && end == taken
    requires len != 0 ==> Upcoming(args, taken, fs, p, piece, end)
    modifies w, w.dst
    ensures w.Wrote(piece) && taken' == end
  {
    taken' := taken;
    if len == 0 {
      w.Put(c);
    } else {
      var k := ConvertOne(w, fs, args[taken..], p);
      taken' := taken' + k;
    }
  }

  /**
   npf_vpprintf: puts the text of the format and its arguments, and returns how many characters
   that was. Nothing past the NUL of the format is read, and no argument the format does not name.
   */
  method Vpprintf(w: Writer, format: string, args: seq<Arg>) returns (n: nat)
    requires w.Valid() && w.n == 0 && CString(format)
    requires |args| >= Needed(Rest(format, 0)) && Defined(Rest(format, 0), args)
    requires |Output(Rest(format, 0), args)| <= INT_MAX
    modifies w, w.dst
    ensures w.Wrote(Output(Rest(format, 0), args)) && n == |Output(Rest(format, 0), args)|
  {
    hide Scan, Needed, Output, Defined;
    var cur, taken := 0, 0;
    ghost var done, whole := "", Output(Rest(format, 0), args);
    assert args[0..] == args && "" + whole == whole;
    while format[cur] != '\0'
      invariant Suffices(format, cur, args, taken)
      invariant whole == done + ToCome(format, cur, args, taken)
      invariant w.Wrote(done)
      decreases |format| - cur
    {
      ghost var p, piece, end;
      var len, fs, next;
      len, fs, next, p, piece, end := Look(format, cur, args, taken);
      Assoc(done, piece, ToCome(format, next, args, end));
      Assoc(old(w.out), done, piece);
      taken := PrintPiece(w, format[cur], len, fs, args, taken, p, piece, end);
      cur := next;
      done := done + piece;
    }
    EndOfFormat(format, cur, args, taken);
    n := w.n;
  }

  lemma {:induction false} EndOfFormat(format: string, cur: nat, args: seq<Arg>, taken: nat)
    requires Suffices(format, cur, args, taken) && format[cur] == '\0'
    ensures ToCome(format, cur, args, taken) == ""
  {
    assert Rest(format, cur) == "";
  }

  // ---------- bounded output ----------

  /** A buffer after a text was put in its first size bytes: cut if need be, with a NUL behind it and at the end. */
  function Terminated(before: string, size: nat, text: string): (after: string)
    requires size <= |before|
    ensures |after| == |before|
  {
    if size == 0 then before
    else
      var m := Min(|text|, size - 1);
      (text[..m] + ['\0'] + before[m + 1..])[size - 1 := '\0']
  }

  /**
   The buffer holds the first size - 1 characters of the text, or all of it if it is shorter, and a
   NUL behind them; nothing behind the first size bytes has changed.
   */
  lemma {:induction false} TerminatedHolds(before: string, size: nat, text: string)
    requires size <= |before|
    ensures size == 0 ==> Terminated(before, size, text) == before
    ensures size > 0 ==>
              var after, m := Terminated(before, size, text), if |text| < size then |text| else size - 1;
              && after[..m] == text[..m] && after[m] == after[size-1] == '\0' && after[size..] == before[size..]
              && forall k :: m < k < size - 1 ==> after[k] == before[k]
  {
  }

  lemma {:induction false} StoredTerminated(initial: string, text: string, size: nat, cur: nat)
    requires 0 < size <= |initial| && cur == Min(|text| + 1, size)
    ensures cur <= |text + ['\0']|
    ensures ((text + ['\0'])[..cur] + initial[cur..])[size - 1 := '\0'] == Terminated(initial, size, text)
  {
  }

  /**
   npf_vsnprintf: returns the length of the whole text whatever the size of the buffer, and keeps as
   much of it as fits. A NULL buffer is not written, nor is one of size 0.
   */
  method Vsnprintf(buffer: array?<char>, bufsz: nat, format: string, args: seq<Arg>) returns (n: nat)
    requires buffer != null ==> bufsz <= buffer.Length
    requires CString(format) && |args| >= Needed(Rest(format, 0)) && Defined(Rest(format, 0), args)
    requires |Output(Rest(format, 0), args)| <= INT_MAX
    modifies if buffer != null then {buffer} else {}
    ensures n == |Output(Rest(format, 0), args)|
    ensures buffer != null ==> buffer[..] == Terminated(old(buffer[..]), bufsz, Output(Rest(format, 0), args))
  {
    hide Scan, Needed, Output, Terminated, Defined;
    ghost var text := Output(Rest(format, 0), args);
    if buffer == null {
      var nothing := new char[0];
      var w := new Writer(nothing, bufsz, true);
      n := Vpprintf(w, format, args);
      w.PutByte('\0');
      return;
    }
    var w := new Writer(buffer, bufsz, false);
    n := Vpprintf(w, format, args);
    assert "" + text == text;
    w.PutByte('\0');
    if bufsz > 0 {
      StoredTerminated(w.initial, text, bufsz, w.cur);
      ghost var before := buffer[..];
      buffer[bufsz - 1] := '\0';
      assert buffer[..] == before[bufsz - 1 := '\0'];
    } else {
      NothingStored(w.initial, text, buffer[..]);
    }
  }

  lemma {:induction false} NothingStored(initial: string, text: string, after: string)
    requires after == (text + ['\0'])[..0] + initial[0..]
    ensures after == Terminated(initial, 0, text)
  {
  }
}
