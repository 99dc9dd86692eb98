/**
 The text a whole format prints, as a function of the format and the arguments.
 */
module FormatText {
  import opened Wrappers
  import opened FormatSpec
  import opened Digits
  import opened Conversion

  /** What one specification prints with the arguments from its own on. */
  function One(p: Parts, args: seq<Arg>): string
    requires WellFormed(p) && |args| >= Takes(Meaning(p))
  {
    var fs := Meaning(p);
    Text(Resolved(fs, args), ArgOf(fs, args))
  }

  /** The arguments a format takes. */
  function Needed(f: string): nat
    decreases |f|
  {
    if f == "" then 0
    else
      ScanSound(f);
      match Scan(f)
      case None => Needed(f[1..])
      case Some(p) => Takes(Meaning(p)) + Needed(Behind(f, Spell(p)))
  }

  /**
   The text: specifications are converted, anything else is copied, also a '%' that no
   specification follows.
   */
  function Output(f: string, args: seq<Arg>): string
    requires |args| >= Needed(f)
    decreases |f|
  {
    if f == "" then ""
    else
      ScanSound(f);
      match Scan(f)
      case None => [f[0]] + Output(f[1..], args)
      case Some(p) => One(p, args) + Output(Behind(f, Spell(p)), args[Takes(Meaning(p))..])
  }

  /** A width from the arguments that C can negate: INT_MIN has no negation that fits. */
  predicate StarFits(fs: Spec, args: seq<Arg>)
    requires |args| >= Stars(fs)
  {
    fs.widthOpt.Star? ==> Signed(args[0].bits, INT) >= -INT_MAX
  }

  /** The stars of a specification take numbers with which all of its arithmetic is defined. */
  predicate SpecFits(fs: Spec, args: seq<Arg>)
    requires |args| >= Takes(fs) && CaseAdjust(fs.caseAdjust)
  {
    StarFits(fs, args) && PrecFits(Resolved(fs, args), ArgOf(fs, args))
  }

  /** No width or precision on the way leaves the range of an int, where C stops defining the result. */
  predicate Defined(f: string, args: seq<Arg>)
    requires |args| >= Needed(f)
    decreases |f|
  {
    f == "" ||
    (ScanSound(f);
     && (f[0] == '%' ==> NumbersFit(f))
     && match Scan(f)
        case None => Defined(f[1..], args)
        case Some(p) =>
          var k := Takes(Meaning(p));
          SpecFits(Meaning(p), args) && Defined(Behind(f, Spell(p)), args[k..]))
  }

  // ---------- a star that takes nothing ----------

  /** A '*' precision of %c, %p and %% is dropped before its argument is taken. */
  predicate DropsStar(p: Parts) {
    p.precision.StarPrecision? && (p.conv == 'c' || p.conv == 'p' || p.conv == '%')
  }

  /** The arguments a specification spells: one for each star, and the one to convert. */
  function Spelled(p: Parts): nat {
    (if p.width.StarWidth? then 1 else 0) + (if p.precision.StarPrecision? then 1 else 0) +
    if p.conv == '%' then 0 else 1
  }

  /** What follows gets the arguments behind the spelled ones, or from one too early on if a star was dropped. */
  lemma {:induction false} LaterArguments(p: Parts, g: string, args: seq<Arg>)
    requires WellFormed(p) && |args| >= Needed(Spell(p) + g)
    ensures Takes(Meaning(p)) == Spelled(p) <==> !DropsStar(p)
    ensures var k := Spelled(p) - if DropsStar(p) then 1 else 0;
            && 0 <= k == Takes(Meaning(p)) && |args| >= k + Needed(g)
            && Output(Spell(p) + g, args) == One(p, args) + Output(g, args[k..])
  {
    hide One, Needed, Output, Scan;
    ScanSpelled(p, g);
    OutputStep(Spell(p) + g, p, args);
    BehindFront(Spell(p), g);
  }

  // ---------- locality ----------

  /**
   Each % of the format is decided inside it: converted, or past saving. One more '%' behind the
   format is the test, because it completes every specification that can still be completed.
   */
  predicate Settled(f: string)
    decreases |f|
  {
    f == "" ||
    (ScanSound(f);
     match Scan(f)
     case None => (f[0] == '%' ==> Scan(f + "%").None?) && Settled(f[1..])
     case Some(p) => Settled(Behind(f, Spell(p))))
  }

  /** A prefix of a + b ends in a or behind it. */
  lemma {:induction false} PrefixOfSum(f: string, a: string, b: string)
    requires f <= a + b
    ensures f <= a || (a <= f && f == a + Behind(f, a) && Behind(f, a) <= b && Behind(f, a) != "")
  {
    if |f| > |a| {
      assert f[..|a|] == (a + b)[..|a|] == a;
      assert Behind(f, a) == (a + b)[|a|..|f|] == b[..|f| - |a|];
    } else {
      assert f == (a + b)[..|f|] == a[..|f|];
    }
  }

  /** The width a proper beginning of a width spells. */
  lemma {:induction false} CutWidth(w: Width, f: string) returns (q: Width)
    requires w.Wide? ==> w.digits != "" && All(w.digits, IsDigit) && w.digits[0] != '0'
    requires f <= SpellWidth(w) && f != ""
    ensures SpellWidth(q) == f
    ensures q.Wide? ==> q.digits != "" && All(q.digits, IsDigit) && q.digits[0] != '0'
  {
    q := if w.StarWidth? then StarWidth else Wide(f);
  }

  lemma {:induction false} CutPrecision(p: Precision, f: string) returns (q: Precision)
    requires p.Precise? || p.Negative? ==> All(p.digits, IsDigit)
    requires f <= SpellPrecision(p) && f != ""
    ensures SpellPrecision(q) == f
    ensures q.Precise? || q.Negative? ==> All(q.digits, IsDigit)
  {
    assert f[0] == '.' && f == "." + f[1..];
    match p {
      case NoPrecision =>
      case StarPrecision =>
        if f == "." { q := Precise(""); } else { q := StarPrecision; }
      case Precise(ds) =>
        assert f[1..] <= ds;
        q := Precise(f[1..]);
      case Negative(ds) =>
        if f == "." {
          q := Precise("");
        } else {
          assert f[1] == '-' && f[2..] <= ds && f == ".-" + f[2..];
          q := Negative(f[2..]);
        }
    }
  }

  lemma {:induction false} CutLength(l: LengthModifier, f: string) returns (q: LengthModifier)
    requires f <= SpellLength(l)
    ensures SpellLength(q) == f
  {
    q := if f == "" then NoLength else if f == "h" then Short else if f == "l" then Long else l;
  }

  /** The parts that a beginning of a specification, with a '%' behind it, spells. */
  lemma {:induction false} Completed(p: Parts, f: string) returns (q: Parts)
    requires WellFormed(p) && f <= Spell(p) && f != Spell(p) && f != ""
    ensures WellFormed(q) && q.conv == '%' && Spell(q) == f + "%"
  {
    PrefixOfSum(f, "%", p.flags + SpellTail(p));
    if f <= "%" {
      q := Parts("", NoWidth, NoPrecision, NoLength, '%');
      assert SpellTail(q) == "%" && f == "%";
    } else {
      var f0 := Behind(f, "%");
      assert f == "%" + f0;
      PrefixOfSum(f0, p.flags, SpellTail(p));
      if f0 <= p.flags {
        q := Parts(f0, NoWidth, NoPrecision, NoLength, '%');
        assert SpellTail(q) == "%";
        Assoc("%", f0, "%");
      } else {
        var f1 := Behind(f0, p.flags);
        var t := CompletedTail(p, f1);
        q := t;
        Assoc(p.flags, f1, "%");
        Assoc("%", f0, "%");
      }
    }
  }

  lemma {:induction false} CompletedTail(p: Parts, f: string) returns (q: Parts)
    requires WellFormed(p) && f <= SpellTail(p) && f != SpellTail(p) && f != ""
    ensures WellFormed(q) && q.conv == '%' && q.flags == p.flags && SpellTail(q) == f + "%"
  {
    var last := SpellLength(p.length) + [p.conv];
    PrefixOfSum(f, SpellWidth(p.width), SpellPrecision(p.precision) + last);
    if f <= SpellWidth(p.width) {
      var w := CutWidth(p.width, f);
      q := Parts(p.flags, w, NoPrecision, NoLength, '%');
      assert SpellTail(q) == f + "%";
    } else {
      var f2 := Behind(f, SpellWidth(p.width));
      PrefixOfSum(f2, SpellPrecision(p.precision), last);
      if f2 <= SpellPrecision(p.precision) {
        var pr := CutPrecision(p.precision, f2);
        q := Parts(p.flags, p.width, pr, NoLength, '%');
        assert SpellTail(q) == SpellWidth(p.width) + (f2 + "%");
        Assoc(SpellWidth(p.width), f2, "%");
      } else {
        var f3 := Behind(f2, SpellPrecision(p.precision));
        PrefixOfSum(f3, SpellLength(p.length), [p.conv]);
        WholeLength(p, f, f2, f3);
        var l := CutLength(p.length, f3);
        q := Parts(p.flags, p.width, p.precision, l, '%');
        Assoc(SpellPrecision(p.precision), f3, "%");
        Assoc(SpellWidth(p.width), f2, "%");
      }
    }
  }

  lemma {:induction false} WholeLength(p: Parts, f: string, f2: string, f3: string)
    requires f != SpellTail(p) && f == SpellWidth(p.width) + f2 && f2 == SpellPrecision(p.precision) + f3
    requires f3 <= SpellLength(p.length) + [p.conv]
    ensures f3 <= SpellLength(p.length)
  {
    assert f3 != SpellLength(p.length) + [p.conv];
    assert |f3| <= |SpellLength(p.length)|;
  }

  /** If anything completes a specification that f begins, one more '%' does. */
  lemma {:induction false} OneMorePercent(f: string, g: string) returns (q: Parts)
    requires f != "" && Scan(f).None? && Scan(f + g).Some?
    ensures WellFormed(q) && q.conv == '%' && Spell(q) == f + "%" && Scan(f + "%") == Some(q)
  {
    var p := Scan(f + g).value;
    ScanExact(f + g, p);
    ScanExact(f, p);
    PrefixOfSum(Spell(p), f, g);
    assert f <= Spell(p);
    q := Completed(p, f);
    ScanExact(f + "%", q);
  }

  lemma {:induction false} BehindLonger(f: string, g: string, t: string)
    requires t <= f
    ensures t <= f + g && Behind(f + g, t) == Behind(f, t) + g
  {
  }

  lemma {:induction false} ScanLonger(f: string, g: string, p: Parts)
    requires Scan(f) == Some(p)
    ensures WellFormed(p) && Scan(f + g) == Some(p)
    ensures Spell(p) <= f && Spell(p) <= f + g && Behind(f + g, Spell(p)) == Behind(f, Spell(p)) + g
  {
    ScanExact(f, p);
    BehindLonger(f, g, Spell(p));
    ScanExact(f + g, p);
  }

  lemma {:induction false} NeededConcat(f: string, g: string)
    requires Settled(f)
    ensures Needed(f + g) == Needed(f) + Needed(g)
    decreases |f|
  {
    if f == "" {
      assert f + g == g;
    } else {
      match Scan(f) {
        case None =>
          StillNone(f, g);
          NeededConcat(f[1..], g);
        case Some(p) =>
          ScanLonger(f, g, p);
          NeededConcat(Behind(f, Spell(p)), g);
      }
    }
  }

  lemma {:induction false} NotPercent(s: string)
    requires s != "" && s[0] != '%'
    ensures Scan(s).None?
  {
  }

  lemma {:induction false} HeadAndTail(f: string, g: string)
    requires f != ""
    ensures (f + g)[0] == f[0] && (f + g)[1..] == f[1..] + g
  {
  }

  lemma {:induction false} StillNone(f: string, g: string)
    requires f != "" && Scan(f).None? && Settled(f)
    ensures Scan(f + g).None? && (f + g)[0] == f[0] && (f + g)[1..] == f[1..] + g
  {
    hide Scan;
    HeadAndTail(f, g);
    if f[0] != '%' {
      NotPercent(f + g);
    } else if Scan(f + g).Some? {
      var q := OneMorePercent(f, g);
    }
  }

  lemma {:induction false} OutputSplit(a: string, b: string, c: string)
    ensures (a + b) + c == a + (b + c)
  {
  }

  lemma {:induction false} OutputStep(f: string, p: Parts, args: seq<Arg>)
    requires f != "" && Scan(f) == Some(p) && |args| >= Needed(f)
    ensures WellFormed(p) && Spell(p) <= f && |Behind(f, Spell(p))| < |f|
    ensures Needed(f) == Takes(Meaning(p)) + Needed(Behind(f, Spell(p)))
    ensures Output(f, args) == One(p, args) + Output(Behind(f, Spell(p)), args[Takes(Meaning(p))..])
  {
    ScanSound(f);
  }

  lemma {:induction false} DefinedStep(f: string, args: seq<Arg>)
    requires f != "" && |args| >= Needed(f) && Defined(f, args)
    ensures f[0] == '%' ==> NumbersFit(f)
    ensures match Scan(f)
            case None => |args| >= Needed(f[1..]) && Defined(f[1..], args)
            case Some(p) =>
              && WellFormed(p) && Spell(p) <= f && |args| >= Takes(Meaning(p)) + Needed(Behind(f, Spell(p)))
              && SpecFits(Meaning(p), args) && Defined(Behind(f, Spell(p)), args[Takes(Meaning(p))..])
  {
    ScanSound(f);
  }

  lemma {:induction false} DropTwice(args: seq<Arg>, j: nat, k: nat)
    requires j + k <= |args|
    ensures args[j..][k..] == args[j + k..]
  {
  }

  /** Formatting f then g, g with the arguments f left, gives the same text as formatting f + g. */
  lemma {:induction false} Locality(f: string, g: string, args: seq<Arg>)
    requires Settled(f) && |args| >= Needed(f) + Needed(g)
    ensures Needed(f + g) == Needed(f) + Needed(g)
    ensures Output(f + g, args) == Output(f, args) + Output(g, args[Needed(f)..])
    decreases |f|
  {
    NeededConcat(f, g);
    if f == "" {
      assert f + g == g && args[0..] == args;
    } else if Scan(f).None? {
      StillNone(f, g);
      Locality(f[1..], g, args);
      OutputSplit([f[0]], Output(f[1..], args), Output(g, args[Needed(f)..]));
    } else {
      LocalityStep(f, g, args);
    }
  }

  lemma {:induction false} LocalityStep(f: string, g: string, args: seq<Arg>)
    requires Settled(f) && f != "" && Scan(f).Some? && |args| >= Needed(f) + Needed(g)
             && Needed(f + g) == Needed(f) + Needed(g)
    ensures Output(f + g, args) == Output(f, args) + Output(g, args[Needed(f)..])
    decreases |f|, 0
  {
    var p := Scan(f).value;
    ScanLonger(f, g, p);
    OutputStep(f, p, args);
    OutputStep(f + g, p, args);
    var k, rest := Takes(Meaning(p)), Behind(f, Spell(p));
    DropTwice(args, k, Needed(rest));
    Locality(rest, g, args[k..]);
    OutputSplit(One(p, args), Output(rest, args[k..]), Output(g, args[Needed(f)..]));
  }

  // ---------- and only then ----------

  lemma {:induction false} PercentsOfRepeat(c: char, n: nat)
    requires c != '%'
    ensures multiset(Repeat(c, n))['%'] == 0
  {
    assert '%' !in Repeat(c, n);
  }

  lemma {:induction false} PercentsOfSum(a: string, b: string)
    ensures multiset(a + b)['%'] == multiset(a)['%'] + multiset(b)['%']
  {
  }

  /** However it is padded, a converted '%' is one '%'. */
  lemma {:induction false} OnePercent(fs: Spec, arg: Arg)
    requires fs.conv.Percent? && CaseAdjust(fs.caseAdjust)
    ensures multiset(Text(fs, arg))['%'] == 1
  {
    hide *;
    var zeros, pads := Repeat('0', PrecPad(fs, arg)), Repeat(' ', FieldPad(fs, arg));
    PercentsOfRepeat('0', PrecPad(fs, arg));
    PercentsOfRepeat(' ', FieldPad(fs, arg));
    PercentText(fs, arg);
    PercentsOfSum(zeros, "%");
    PercentsOfSum(zeros + "%", pads);
    PercentsOfSum(pads, zeros + "%");
  }

  lemma {:induction false} PercentText(fs: Spec, arg: Arg)
    requires fs.conv.Percent? && CaseAdjust(fs.caseAdjust)
    ensures var core, pads := Repeat('0', PrecPad(fs, arg)) + "%", Repeat(' ', FieldPad(fs, arg));
            Text(fs, arg) == core || Text(fs, arg) == core + pads || Text(fs, arg) == pads + core
  {
    hide Repeat;
    assert Core(fs, arg) == Repeat('0', PrecPad(fs, arg)) + "%";
  }

  /** What stands between the '%' of a specification and its conversion holds no '%'. */
  lemma {:induction false} NoPercentInside(q: Parts, f: string)
    requires WellFormed(q) && q.conv == '%' && Spell(q) == f + "%"
    ensures f != "" && f[0] == '%' && '%' !in f[1..]
  {
    var inside := q.flags + (SpellWidth(q.width) + (SpellPrecision(q.precision) + SpellLength(q.length)));
    assert '%' !in q.flags && '%' !in SpellWidth(q.width) && '%' !in SpellPrecision(q.precision);
    assert '%' !in SpellLength(q.length);
    Assoc(SpellPrecision(q.precision), SpellLength(q.length), "%");
    Assoc(SpellWidth(q.width), SpellPrecision(q.precision) + SpellLength(q.length), "%");
    Assoc(q.flags, SpellWidth(q.width) + (SpellPrecision(q.precision) + SpellLength(q.length)), "%");
    Assoc("%", inside, "%");
    assert Spell(q) == ("%" + inside) + "%";
    assert f == Spell(q)[..|f|] == "%" + inside;
    assert f[1..] == inside;
  }

  /** A text without '%' is printed as it is. */
  lemma {:induction false} PlainOutput(f: string, args: seq<Arg>)
    requires '%' !in f
    ensures Needed(f) == 0 && Output(f, args) == f
  {
    if f != "" {
      NotPercent(f);
      PlainOutput(f[1..], args);
      assert f == [f[0]] + f[1..];
    }
  }

  lemma {:induction false} CompletedOutput(f: string, q: Parts, args: seq<Arg>)
    requires WellFormed(q) && q.conv == '%' && f != "" && Spell(q) == f && Scan(f) == Some(q) && |args| >= Needed(f)
    ensures multiset(Output(f, args))['%'] == 1
  {
    hide Text, Needed;
    OutputStep(f, q, args);
    assert Behind(f, Spell(q)) == "";
    ResolvedUsable(q, args);
    OnePercent(Resolved(Meaning(q), args), Arg(0, ""));
    assert One(q, args) + "" == One(q, args);
  }

  lemma {:induction false} UndecidedOutput(f: string, args: seq<Arg>)
    requires f != "" && Scan(f).None? && '%' !in f[1..]
    ensures Needed(f) == 0 && Output(f, args) == f
  {
    hide Scan;
    PlainOutput(f[1..], args);
    assert f == [f[0]] + f[1..];
  }

  /** An undecided rest and a '%': converted to one '%' together, two '%' one after the other. */
  lemma {:induction false} UndecidedBreaks(f: string, args: seq<Arg>)
    requires f != "" && f[0] == '%' && Scan(f).None? && Scan(f + "%").Some?
    requires |args| >= Needed(f) && |args| >= Needed(f + "%")
    ensures Output(f + "%", args) != Output(f, args) + "%"
  {
    hide Output, Needed, Scan;
    var q := OneMorePercent(f, "%");
    NoPercentInside(q, f);
    UndecidedOutput(f, args);
    CompletedOutput(f + "%", q, args);
    PercentsOfSum(f, "%");
    assert multiset(f)['%'] >= 1;
  }

  lemma {:induction false} CancelFront(a: string, b: string, c: string)
    requires b != c
    ensures a + b != a + c
  {
    assert (a + b)[|a|..] == b;
    assert (a + c)[|a|..] == c;
  }

  /** A difference behind the first piece of a format is a difference of the whole. */
  lemma {:induction false} PieceBreaks(f: string, args: seq<Arg>, p: Parts)
    requires f != "" && Scan(f) == Some(p) && |args| >= Needed(f) && |args| >= Needed(f + "%")
    ensures WellFormed(p) && Spell(p) <= f && |Behind(f, Spell(p))| < |f|
    ensures var k, rest := Takes(Meaning(p)), Behind(f, Spell(p));
            && k <= |args| && |args| - k >= Needed(rest) && |args| - k >= Needed(rest + "%")
            && (Output(rest + "%", args[k..]) != Output(rest, args[k..]) + "%" ==>
                Output(f + "%", args) != Output(f, args) + "%")
  {
    hide Text, One, Scan, Meaning;
    ScanLonger(f, "%", p);
    OutputStep(f, p, args);
    OutputStep(f + "%", p, args);
    var k, rest := Takes(Meaning(p)), Behind(f, Spell(p));
    OutputSplit(One(p, args), Output(rest, args[k..]), "%");
    if Output(rest + "%", args[k..]) != Output(rest, args[k..]) + "%" {
      CancelFront(One(p, args), Output(rest + "%", args[k..]), Output(rest, args[k..]) + "%");
    }
  }

  lemma {:induction false} CharStep(f: string, args: seq<Arg>)
    requires f != "" && Scan(f).None? && |args| >= Needed(f)
    ensures Needed(f) == Needed(f[1..]) && Output(f, args) == [f[0]] + Output(f[1..], args)
  {
  }

  lemma {:induction false} CharBreaks(f: string, args: seq<Arg>)
    requires f != "" && Scan(f).None? && Scan(f + "%").None? && |args| >= Needed(f) && |args| >= Needed(f + "%")
    ensures |args| >= Needed(f[1..]) && |args| >= Needed(f[1..] + "%")
    ensures Output(f[1..] + "%", args) != Output(f[1..], args) + "%" ==> Output(f + "%", args) != Output(f, args) + "%"
  {
    hide Scan, Needed, Output;
    HeadAndTail(f, "%");
    CharStep(f, args);
    CharStep(f + "%", args);
    OutputSplit([f[0]], Output(f[1..], args), "%");
    if Output(f[1..] + "%", args) != Output(f[1..], args) + "%" {
      CancelFront([f[0]], Output(f[1..] + "%", args), Output(f[1..], args) + "%");
    }
  }

  lemma {:induction false} UnsettledBreaks(f: string, args: seq<Arg>)
    requires !Settled(f) && |args| >= Needed(f) && |args| >= Needed(f + "%")
    ensures Output(f + "%", args) != Output(f, args) + "%"
    decreases |f|
  {
    hide Text, One, Scan, Meaning, Needed, Output;
    if Scan(f).Some? {
      var p := Scan(f).value;
      PieceBreaks(f, args, p);
      UnsettledBreaks(Behind(f, Spell(p)), args[Takes(Meaning(p))..]);
    } else if f[0] == '%' && Scan(f + "%").Some? {
      UndecidedBreaks(f, args);
    } else {
      HeadAndTail(f, "%");
      if f[0] != '%' { NotPercent(f + "%"); }
      CharBreaks(f, args);
      UnsettledBreaks(f[1..], args);
    }
  }

  /** Formatting f and then g, with enough arguments for both ways, gives what formatting f + g does. */
  ghost predicate Splits(f: string, g: string, args: seq<Arg>) {
    |args| >= Needed(f) + Needed(g) && |args| >= Needed(f + g) ==>
      Output(f + g, args) == Output(f, args) + Output(g, args[Needed(f)..])
  }

  lemma {:induction false} PercentAlone(args: seq<Arg>)
    ensures Needed("%") == 0 && Output("%", args) == "%"
  {
    assert "%"[1..] == "";
  }

  /**
   A format can be cut behind f, whatever follows and whatever the arguments, exactly if every % of
   f is decided inside it.
   */
  lemma {:induction false} LocalityExact(f: string)
    ensures Settled(f) <==> forall g: string, args: seq<Arg> :: Splits(f, g, args)
  {
    hide Settled, Needed, Output;
    if Settled(f) {
      forall g: string, args: seq<Arg> ensures Splits(f, g, args) {
        if |args| >= Needed(f) + Needed(g) {
          Locality(f, g, args);
        }
      }
    } else {
      var args := seq(Needed(f) + Needed("%") + Needed(f + "%"), _ => Arg(0, ""));
      PercentAlone(args[Needed(f)..]);
      UnsettledBreaks(f, args);
      assert !Splits(f, "%", args);
    }
  }

  /** A '%' at the end of a format is not settled: "%" and "%" print two, "%%" prints one. */
  lemma {:induction false} PercentAtEnd()
    ensures !Settled("%") && Output("%", []) == "%"
    ensures Needed("%%") == 0 && Output("%%", []) == "%" != Output("%", []) + Output("%", [])
  {
    hide Text;
    var q := Parts("", NoWidth, NoPrecision, NoLength, '%');
    assert SpellTail(q) == "%" && Spell(q) == "%%" == "%" + "%";
    ScanSpelled(q, "");
    assert Spell(q) + "" == "%%";
    PercentAlone([]);
    OutputStep("%%", q, []);
    assert Behind("%%", Spell(q)) == "";
    PlainPercent(Meaning(q));
    assert One(q, []) + "" == One(q, []);
  }

  lemma {:induction false} PlainPercent(fs: Spec)
    requires fs == Meaning(Parts("", NoWidth, NoPrecision, NoLength, '%'))
    ensures Stars(fs) == 0 && Takes(fs) == 0 && Resolved(fs, []) == fs && Text(fs, Arg(0, "")) == "%"
  {
    assert Repeat('0', 0) == "";
    assert Core(fs, Arg(0, "")) == "%";
  }
}
