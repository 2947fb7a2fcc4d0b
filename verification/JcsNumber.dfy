/**
 * Number layout of the canonicalizer (jcs_append_number in src/crypto/jcs.c): the shortest
 * `%g` rendering of a double is laid out again in the form of section 3.2.2.3 of RFC 8785.
 */
module JcsNumber {
  import opened Text
  import opened Numbers
  import opened Jcs

  // ------------------------------------------------------- what a text denotes

  predicate AllDigits(s: string)
  {
    forall i :: 0 <= i < |s| ==> '0' <= s[i] <= '9'
  }

  /** The text before the first `c`. */
  function Before(s: string, c: char): (t: string)
    ensures |t| <= |s| && t == s[..|t|]
  {
    s[..Find(s, c)]
  }

  /** The text behind the first `c`; empty when there is none. */
  function Behind(s: string, c: char): (t: string)
  {
    if Find(s, c) < |s| then s[Find(s, c) + 1..] else ""
  }

  function Unsigned(s: string): (t: string)
  {
    if s != "" && (s[0] == '-' || s[0] == '+') then s[1..] else s
  }

  predicate Negative(s: string)
  {
    s != "" && s[0] == '-'
  }

  /** An optional sign and at least one digit. */
  predicate SignedDigits(s: string)
  {
    Unsigned(s) != "" && AllDigits(Unsigned(s))
  }

  function SignedVal(s: string): (n: int)
    requires SignedDigits(s)
  {
    var n: int := NatVal(Unsigned(s));
    if Negative(s) then -n else n
  }

  /** Sign, digits, optional fraction, optional exponent. */
  predicate NumberText(t: string)
  {
    var m := Before(Unsigned(t), 'e');
    && Before(m, '.') != "" && AllDigits(Before(m, '.')) && AllDigits(Behind(m, '.'))
    && (Find(m, '.') < |m| ==> Behind(m, '.') != "")
    && (Find(Unsigned(t), 'e') < |Unsigned(t)| ==> SignedDigits(Behind(Unsigned(t), 'e')))
  }

  /** x times ten to the power of `e`. */
  function TimesTenTo(x: real, e: int): (r: real)
    decreases if e < 0 then -e else e
  {
    if e == 0 then x else if e > 0 then TimesTenTo(x * 10.0, e - 1) else TimesTenTo(x / 10.0, e + 1)
  }

  /** `digits` read as an integer, times a power of ten. */
  function Scaled(digits: string, e: int): (r: real)
    requires AllDigits(digits)
  {
    TimesTenTo(NatVal(digits) as real, e)
  }

  /** The number a text stands for. */
  function Value(t: string): (r: real)
    requires NumberText(t)
  {
    var u := Unsigned(t);
    var m := Before(u, 'e');
    var e := if Find(u, 'e') < |u| then SignedVal(Behind(u, 'e')) else 0;
    var v := Scaled(Before(m, '.') + Behind(m, '.'), e - |Behind(m, '.')|);
    if Negative(t) then -v else v
  }

  // ------------------------------------------------------------------ the layout

  function Zeros(n: nat): (s: string)
    ensures |s| == n && AllDigits(s) && forall i :: 0 <= i < n ==> s[i] == '0'
  {
    if n == 0 then "" else Zeros(n - 1) + "0"
  }

  /** One digit, the others behind a point, and the exponent with its sign. */
  function Exponential(s: string, e: int): (t: string)
    requires s != ""
  {
    s[..1] + (if |s| > 1 then "." + s[1..] else "") + "e" + (if e < 0 then "-" + NatText(-e) else "+" + NatText(e))
  }

  /** The point `n` digits from the left, with zeros where `s` does not reach. */
  function Decimal(s: string, n: int): (t: string)
    requires s != ""
  {
    if n <= 0 then "0." + Zeros(-n) + s
    else if n < |s| then s[..n] + "." + s[n..]
    else s + Zeros(n - |s|)
  }

  /** Digits `s` with the point at `n`, in the form the thresholds select. */
  function Layout(s: string, n: int): (t: string)
    requires s != ""
  {
    if n > 21 || n <= -6 then Exponential(s, n - 1) else Decimal(s, n)
  }

  // ------------------------------------------------------------ value of a layout

  lemma {:induction false} ZerosInFront(n: nat, s: string)
    requires AllDigits(s)
    ensures AllDigits(Zeros(n) + s) && NatVal(Zeros(n) + s) == NatVal(s)
    decreases n + |s|
  {
    if s == "" {
      assert Zeros(n) + s == Zeros(n);
      if n > 0 {
        ZerosInFront(n - 1, "");
        assert Zeros(n)[..n - 1] == Zeros(n - 1) == Zeros(n - 1) + "";
      }
    } else {
      var t := Zeros(n) + s;
      ZerosInFront(n, s[..|s| - 1]);
      assert t[..|t| - 1] == Zeros(n) + s[..|s| - 1];
    }
  }

  lemma {:induction false} ZeroBehind(s: string)
    requires AllDigits(s)
    ensures AllDigits(s + "0") && NatVal(s + "0") == NatVal(s) * 10
  {
    assert (s + "0")[..|s|] == s;
  }

  lemma {:induction false} ZerosBehind(s: string, n: nat)
    requires AllDigits(s)
    ensures AllDigits(s + Zeros(n)) && NatVal(s + Zeros(n)) as real == Scaled(s, n)
    decreases n
  {
    hide NatVal, Zeros, AllDigits;
    if n == 0 {
      assert s + Zeros(0) == s;
    } else {
      ZeroBehind(s);
      ZerosBehind(s + "0", n - 1);
      ZerosFront(n - 1);
      assert s + ("0" + Zeros(n - 1)) == s + "0" + Zeros(n - 1);
    }
  }

  /** Reads a mantissa with a point: the digits around it. */
  lemma {:induction false} ReadPoint(a: string, b: string)
    requires AllDigits(a) && AllDigits(b)
    ensures Find(a + "." + b, '.') == |a|
    ensures Before(a + "." + b, '.') == a && Behind(a + "." + b, '.') == b
  {
    FindIs(a + "." + b, '.', |a|);
  }

  lemma {:induction false} ReadNoPoint(a: string)
    requires AllDigits(a)
    ensures Find(a, '.') == |a| && Before(a, '.') == a && Behind(a, '.') == ""
  {
    FindIs(a, '.', |a|);
  }

  /** A mantissa: digits, with a point among them or not. */
  predicate Mantissa(m: string)
  {
    m != "" && forall i :: 0 <= i < |m| ==> '0' <= m[i] <= '9' || m[i] == '.'
  }

  /** Reads a text without an exponent. */
  lemma {:induction false} ReadPlain(m: string)
    requires Mantissa(m)
    ensures Unsigned(m) == m && !Negative(m) && Find(m, 'e') == |m| && Before(m, 'e') == m
  {
    FindIs(m, 'e', |m|);
  }

  /** Reads a text with an exponent. */
  lemma {:induction false} ReadExponent(m: string, x: string)
    requires Mantissa(m)
    ensures var t := m + "e" + x;
            Unsigned(t) == t && !Negative(t) && Find(t, 'e') == |m| && Before(t, 'e') == m && Behind(t, 'e') == x
  {
    FindIs(m + "e" + x, 'e', |m|);
  }

  /** Digits `a` and `b` around a point and an exponent `x` denote `ab` scaled by both. */
  lemma {:induction false} ScientificValue(a: string, b: string, x: string)
    requires a != "" && AllDigits(a) && AllDigits(b) && SignedDigits(x)
    ensures var t := a + (if b == "" then "" else "." + b) + "e" + x;
            && Unsigned(t) == t && !Negative(t)
            && NumberText(t) && AllDigits(a + b) && Value(t) == Scaled(a + b, SignedVal(x) - |b|)
  {
    var m := a + (if b == "" then "" else "." + b);
    MantissaRead(a, b);
    hide *;
    ReadExponent(m, x);
    ReadParts(m + "e" + x, m, x);
  }

  lemma {:induction false} MantissaRead(a: string, b: string)
    requires a != "" && AllDigits(a) && AllDigits(b)
    ensures var m := a + (if b == "" then "" else "." + b);
            && Mantissa(m) && Before(m, '.') == a && Behind(m, '.') == b && (Find(m, '.') < |m| ==> b != "")
               && AllDigits(a + b)
  {
    if b == "" {
      ReadNoPoint(a);
      assert a + "" == a;
    } else {
      ReadPoint(a, b);
      assert a + ("." + b) == a + "." + b;
    }
    hide Find, Before, Behind;
  }

  /** What a text denotes, once its parts are read off. */
  lemma {:induction false} ReadParts(t: string, m: string, x: string)
    requires Unsigned(t) == t && !Negative(t) && Before(t, 'e') == m && Behind(t, 'e') == x && Find(t, 'e') < |t|
    requires Before(m, '.') != "" && AllDigits(Before(m, '.')) && AllDigits(Behind(m, '.'))
    requires (Find(m, '.') < |m| ==> Behind(m, '.') != "") && SignedDigits(x)
    ensures NumberText(t) && AllDigits(Before(m, '.') + Behind(m, '.'))
    ensures Value(t) == Scaled(Before(m, '.') + Behind(m, '.'), SignedVal(x) - |Behind(m, '.')|)
  {
    hide Find, Unsigned, Negative, Before, Behind, Scaled, SignedVal, SignedDigits;
  }

  lemma {:induction false} ExponentText(e: int)
    ensures var x := if e < 0 then "-" + NatText(-e) else "+" + NatText(e);
            SignedDigits(x) && SignedVal(x) == e
  {
    var n := if e < 0 then -e else e;
    NatTextVal(n);
    hide NatVal, NatText;
    assert ("-" + NatText(n))[1..] == NatText(n) && ("+" + NatText(n))[1..] == NatText(n);
  }

  /** `t` is a number text without a sign that stands for `v`. */
  predicate Denotes(t: string, v: real)
  {
    Unsigned(t) == t && !Negative(t) && NumberText(t) && Value(t) == v
  }

  lemma {:induction false} ExponentialValue(s: string, e: int)
    requires s != "" && AllDigits(s)
    ensures Denotes(Exponential(s, e), Scaled(s, e + 1 - |s|))
  {
    hide *;
    var x := if e < 0 then "-" + NatText(-e) else "+" + NatText(e);
    ExponentText(e);
    FirstAndRest(s);
    ExponentialIs(s, e);
    ScientificValue(s[..1], s[1..], x);
    assert s[..1] + s[1..] == s;
    DenotesIf(Exponential(s, e), Scaled(s, e + 1 - |s|));
  }

  lemma {:induction false} DenotesIf(t: string, v: real)
    requires Unsigned(t) == t && !Negative(t) && NumberText(t) && Value(t) == v
    ensures Denotes(t, v)
  {
    hide NumberText, Value, Unsigned;
  }

  lemma {:induction false} FirstAndRest(s: string)
    requires s != "" && AllDigits(s)
    ensures s[..1] != "" && AllDigits(s[..1]) && AllDigits(s[1..])
  {
  }

  lemma {:induction false} ExponentialIs(s: string, e: int)
    requires s != "" && AllDigits(s)
    ensures var x := if e < 0 then "-" + NatText(-e) else "+" + NatText(e);
            Exponential(s, e) == s[..1] + (if s[1..] == "" then "" else "." + s[1..]) + "e" + x
  {
    hide NatText, AllDigits;
  }

  lemma {:induction false} ZerosFront(n: nat)
    ensures Zeros(n + 1) == "0" + Zeros(n)
  {
    assert forall i :: 0 <= i < n + 1 ==> Zeros(n + 1)[i] == ("0" + Zeros(n))[i];
  }

  lemma {:induction false} PointValue(a: string, b: string)
    requires a != "" && b != "" && AllDigits(a) && AllDigits(b)
    ensures AllDigits(a + b) && Denotes(a + "." + b, Scaled(a + b, -|b|))
  {
    hide Scaled;
    ReadPoint(a, b);
    assert Mantissa(a + "." + b);
    ReadPlain(a + "." + b);
    hide Find, Unsigned, Before, Behind;
  }

  lemma {:induction false} IntegerValue(t: string)
    requires t != "" && AllDigits(t)
    ensures Denotes(t, NatVal(t) as real)
  {
    ReadNoPoint(t);
    ReadPlain(t);
    assert Scaled(t, 0) == NatVal(t) as real;
    assert t + "" == t;
    hide Find, Unsigned, Before, Behind, NatVal;
  }

  lemma {:induction false} FractionScaled(s: string, n: nat, e: int)
    requires AllDigits(s)
    ensures AllDigits("0" + (Zeros(n) + s)) && Scaled("0" + (Zeros(n) + s), e) == Scaled(s, e)
  {
    ZerosInFront(n + 1, s);
    ZerosFront(n);
    assert Zeros(n + 1) + s == "0" + (Zeros(n) + s);
  }

  lemma {:induction false} FractionValue(s: string, n: nat)
    requires s != "" && AllDigits(s)
    ensures Denotes("0." + Zeros(n) + s, Scaled(s, 0 - n - |s|))
  {
    hide Denotes, Scaled;
    FractionScaled(s, n, 0 - n - |s|);
    PointValue("0", Zeros(n) + s);
    assert "0." + Zeros(n) + s == "0" + "." + (Zeros(n) + s);
  }

  lemma {:induction false} WholeValue(s: string, n: nat)
    requires s != "" && AllDigits(s)
    ensures Denotes(s + Zeros(n), Scaled(s, n))
  {
    hide Zeros, NatVal, Denotes;
    ZerosBehind(s, n);
    IntegerValue(s + Zeros(n));
  }

  lemma {:induction false} DecimalValue(s: string, n: int)
    requires s != "" && AllDigits(s)
    ensures Denotes(Decimal(s, n), Scaled(s, n - |s|))
  {
    hide Denotes;
    hide Scaled;
    if n <= 0 {
      FractionValue(s, -n);
    } else if n < |s| {
      PointValue(s[..n], s[n..]);
      assert s[..n] + s[n..] == s;
    } else {
      WholeValue(s, n - |s|);
    }
  }

  lemma {:induction false} LayoutScaled(s: string, n: int)
    requires s != "" && AllDigits(s)
    ensures Denotes(Layout(s, n), Scaled(s, n - |s|))
  {
    hide Denotes, Exponential, Decimal, Scaled;
    if n > 21 || n <= -6 {
      ExponentialValue(s, n - 1);
    } else {
      DecimalValue(s, n);
    }
  }

  /** For every nonempty digit string and every position of the point: digits x 10^(n - k). */
  lemma {:induction false} LayoutValue(s: string, n: int)
    requires s != "" && AllDigits(s)
    ensures Denotes(Layout(s, n), TimesTenTo(NatVal(s) as real, n - |s|))
  {
    LayoutScaled(s, n);
    assert Scaled(s, n - |s|) == TimesTenTo(NatVal(s) as real, n - |s|);
  }

  /** An exponent is written exactly outside the decimal range of the RFC: -6 < n <= 21. */
  lemma {:induction false} LayoutForm(s: string, n: int)
    requires s != "" && AllDigits(s)
    ensures 'e' in Layout(s, n) <==> !(-6 < n <= 21)
  {
    hide NatText, Zeros;
    if n > 21 || n <= -6 {
      var t := Layout(s, n);
      assert t[if |s| > 1 then |s| + 1 else |s|] == 'e';
    }
  }

  // ------------------------------------------------------- re-laying a rendering

  /** A `%g` rendering with an exponent: one digit, perhaps a point and more digits, `e`, sign and digits. */
  predicate Scientific(t: string)
  {
    var u := Unsigned(t);
    var m := Before(u, 'e');
    && (t != "" ==> t[0] != '+')
    && Find(u, 'e') < |u| && SignedDigits(Behind(u, 'e'))
    && m != "" && '0' <= m[0] <= '9'
    && (|m| > 1 ==> |m| > 2 && m[1] == '.' && AllDigits(m[2..]))
  }

  /** The mantissa without its point. */
  function Collapse(m: string): (s: string)
    ensures forall i :: 0 <= i < |s| ==> s[i] in m && s[i] != '.'
  {
    if m == "" then "" else (if m[0] == '.' then "" else m[..1]) + Collapse(m[1..])
  }

  lemma {:induction false} CollapseDigits(s: string)
    requires AllDigits(s)
    ensures Collapse(s) == s
  {
    if s != "" {
      CollapseDigits(s[1..]);
      assert s == s[..1] + s[1..];
    }
  }

  /** A rendering of either kind: with an exponent, or a plain decimal. */
  predicate Rendering(t: string)
  {
    Scientific(t) || 'e' !in t
  }

  /** What is written for the rendering `t` of a number that is not a safe integer. */
  function Relaid(t: string): (r: string)
    requires Rendering(t)
  {
    if 'e' !in t then t
    else
      var u := Unsigned(t);
      assert Collapse(Before(u, 'e')) != "" by { CollapseNonEmpty(Before(u, 'e')); }
      (if Negative(t) then "-" else "") + Layout(Collapse(Before(u, 'e')), SignedVal(Behind(u, 'e')) + 1)
  }

  lemma {:induction false} CollapseNonEmpty(m: string)
    requires m != "" && m[0] != '.'
    ensures Collapse(m) != ""
  {
  }

  lemma {:induction false} SignedRead(t: string, v: real)
    requires Denotes(t, v)
    ensures NumberText("-" + t) && Value("-" + t) == -v
  {
    MinusParts(t);
    DenotesParts(t, v);
    hide *;
    OppositeValue("-" + t, t);
  }

  lemma {:induction false} MinusParts(t: string)
    ensures Unsigned("-" + t) == t && Negative("-" + t)
  {
    assert ("-" + t)[1..] == t;
  }

  lemma {:induction false} DenotesParts(t: string, v: real)
    requires Denotes(t, v)
    ensures Unsigned(t) == t && !Negative(t) && NumberText(t) && Value(t) == v
  {
    hide NumberText, Value, Unsigned, Negative;
  }

  /** Texts that differ in their sign alone. */
  lemma {:induction false} OppositeValue(u: string, t: string)
    requires Unsigned(u) == Unsigned(t) && Negative(u) && !Negative(t) && NumberText(t)
    ensures NumberText(u) && Value(u) == -Value(t)
  {
    hide Find, Before, Behind, Unsigned, Negative, Scaled, SignedVal, AllDigits, SignedDigits;
  }

  lemma {:induction false} UnsignedRead(t: string, v: real)
    requires Denotes(t, v)
    ensures NumberText(t) && Value(t) == v
  {
  }

  /** Digits and exponent of a rendering without its sign. */
  function Digits(u: string): (s: string)
  {
    Collapse(Before(u, 'e'))
  }

  lemma {:induction false} SplitExponent(u: string)
    requires Find(u, 'e') < |u|
    ensures u == Before(u, 'e') + "e" + Behind(u, 'e')
  {
  }

  lemma {:induction false} CollapseMantissa(a: string, b: string)
    requires |a| == 1 && AllDigits(a) && AllDigits(b)
    ensures Collapse(a + "." + b) == a + b && Collapse(a) == a
  {
    CollapseDigits(a);
    CollapseDigits(b);
    var m, r := a + "." + b, "." + b;
    assert r[1..] == b && m[1..] == r;
    assert Collapse(r) == b;
    assert Collapse(m) == m[..1] + Collapse(r);
    hide Collapse;
    assert m[..1] == a;
  }

  lemma {:induction false} ScientificDigits(t: string)
    requires Scientific(t)
    ensures var u := Unsigned(t);
            && SignedDigits(Behind(u, 'e')) && Digits(u) != "" && AllDigits(Digits(u))
            && Denotes(u, Scaled(Digits(u), SignedVal(Behind(u, 'e')) + 1 - |Digits(u)|))
  {
    hide *;
    ScientificParts(t);
    var u := Unsigned(t);
    var m, x := Before(u, 'e'), Behind(u, 'e');
    SplitExponent(u);
    MantissaValue(m, x);
  }

  lemma {:induction false} ScientificParts(t: string)
    requires Scientific(t)
    ensures var u := Unsigned(t); var m := Before(u, 'e');
            && Find(u, 'e') < |u| && SignedDigits(Behind(u, 'e')) && Digits(u) == Collapse(m)
            && m != "" && '0' <= m[0] <= '9' && (|m| > 1 ==> |m| > 2 && m[1] == '.' && AllDigits(m[2..]))
  {
    hide Find, Unsigned, Before, Behind, SignedDigits, AllDigits, Collapse;
  }

  lemma {:induction false} MantissaValue(m: string, x: string)
    requires m != "" && '0' <= m[0] <= '9' && SignedDigits(x)
    requires |m| > 1 ==> |m| > 2 && m[1] == '.' && AllDigits(m[2..])
    ensures Collapse(m) != "" && AllDigits(Collapse(m))
    ensures Denotes(m + "e" + x, Scaled(Collapse(m), SignedVal(x) + 1 - |Collapse(m)|))
  {
    hide Scaled, SignedVal, SignedDigits, NumberText, Value, Collapse, Unsigned;
    var a, b := m[..1], if |m| > 1 then m[2..] else "";
    assert m == a + (if b == "" then "" else "." + b);
    CollapseMantissa(a, b);
    ScientificValue(a, b, x);
    assert b == "" ==> a + b == a && m == a;
    assert b != "" ==> m == a + "." + b;
  }

  /** Re-laying a rendering changes its form and never its value. */
  lemma {:induction false} RelaidKeepsValue(t: string)
    requires Scientific(t)
    ensures Rendering(t)
    ensures NumberText(t) && NumberText(Relaid(t)) && Value(Relaid(t)) == Value(t)
  {
    hide *;
    ScientificDigits(t);
    var u := Unsigned(t);
    var s, e := Digits(u), SignedVal(Behind(u, 'e'));
    var w, v := Layout(s, e + 1), Scaled(s, e + 1 - |s|);
    LayoutScaled(s, e + 1);
    RelaidIs(t);
    if Negative(t) {
      SignedRead(u, v);
      SignedRead(w, v);
    } else {
      UnsignedRead(u, v);
      UnsignedRead(w, v);
    }
  }

  lemma {:induction false} RelaidIs(t: string)
    requires Scientific(t) && SignedDigits(Behind(Unsigned(t), 'e')) && Digits(Unsigned(t)) != ""
    ensures Rendering(t)
    ensures var w := Layout(Digits(Unsigned(t)), SignedVal(Behind(Unsigned(t), 'e')) + 1);
            Relaid(t) == if Negative(t) then "-" + w else w
    ensures if Negative(t) then t == "-" + Unsigned(t) else Unsigned(t) == t
  {
    hide Layout, Find;
    assert Negative(t) ==> t == t[..1] + t[1..];
    var u := Unsigned(t);
    assert u[Find(u, 'e')] == 'e' && 'e' in u;
    assert 'e' in t by { assert u == t || u == t[1..]; }
  }

  // -------------------------------------------------------------------- the loops

  method AppendExponential(s: string, e: int) returns (t: string)
    requires s != ""
    ensures t == Exponential(s, e)
  {
    t := s[..1];
    if |s| > 1 {
      t := t + ".";
      for i := 1 to |s|
        invariant t == s[..1] + "." + s[1..i]
      {
        t := t + [s[i]];
      }
      assert s[1..|s|] == s[1..];
    }
    hide NatText;
    assert t == s[..1] + (if |s| > 1 then "." + s[1..] else "");
    t := t + "e";
    if e < 0 { t := t + ("-" + NatText(-e)); } else { t := t + ("+" + NatText(e)); }
  }

  method AppendDecimal(s: string, n: int) returns (t: string)
    requires s != ""
    ensures t == Decimal(s, n)
  {
    hide Zeros;
    if n <= 0 {
      t := "0.";
      var i := n;
      NoZeros();
      while i < 0
        invariant n <= i <= 0 && t == "0." + Zeros(i - n)
      {
        MoreZeros(i - n);
        t := t + "0";
        i := i + 1;
      }
      t := t + s;
      return;
    }
    t := "";
    var i := 0;
    NoZeros();
    while i < |s| || i < n
      invariant 0 <= i && (i <= |s| || i <= n)
      decreases (if n > |s| then n else |s|) - i
      invariant t == if i <= |s| then (if i <= n then s[..i] else s[..n] + "." + s[n..i]) else s + Zeros(i - |s|)
    {
      if i == n { t := t + "."; }
      if i < |s| {
        t := t + [s[i]];
      } else {
        MoreZeros(i - |s|);
        t := t + "0";
      }
      i := i + 1;
    }
  }

  lemma {:induction false} NoZeros()
    ensures Zeros(0) == ""
  {
  }

  lemma {:induction false} MoreZeros(n: nat)
    ensures Zeros(n + 1) == Zeros(n) + "0"
  {
  }

  lemma {:induction false} CollapseStep(m: string, i: nat)
    requires i < |m|
    ensures Collapse(m[i..]) == (if m[i] == '.' then "" else [m[i]]) + Collapse(m[i + 1..])
  {
    assert m[i..][1..] == m[i + 1..];
  }

  /** Drops the point of a mantissa. */
  method DropPoint(mant: string) returns (digits: string)
    ensures digits == Collapse(mant)
  {
    hide Collapse;
    digits := "";
    assert mant[0..] == mant;
    for i := 0 to |mant|
      invariant Collapse(mant) == digits + Collapse(mant[i..])
    {
      CollapseStep(mant, i);
      ghost var rest := Collapse(mant[i + 1..]);
      assert digits + ([mant[i]] + rest) == digits + [mant[i]] + rest;
      assert digits + ("" + rest) == digits + rest;
      if mant[i] != '.' { digits := digits + [mant[i]]; }
    }
    CollapseDigits("");
    assert mant[|mant|..] == "";
  }

  /** Where the parts of a rendering with an exponent lie. */
  lemma {:induction false} RenderingParts(t: string, p: nat)
    requires Scientific(t) && p == Find(t, 'e') < |t|
    ensures t[0] != '+' && (Negative(t) <==> t[0] == '-')
    ensures Before(Unsigned(t), 'e') == if t[0] == '-' then t[1..p] else t[..p]
    ensures t[p + 1..] == Behind(Unsigned(t), 'e') && SignedDigits(t[p + 1..])
    ensures Collapse(Before(Unsigned(t), 'e')) != ""
  {
    hide SignedDigits, AllDigits;
    var u := Unsigned(t);
    FindIs(u, 'e', if t[0] == '-' then p - 1 else p);
    CollapseNonEmpty(Before(u, 'e'));
  }

  /** Splits the rendering at `e`, drops the point of the mantissa, and lays the digits out. */
  method AppendNumber(t: string) returns (r: string)
    requires Rendering(t)
    ensures r == Relaid(t)
  {
    var p := FindChar(t, 'e');
    if p == |t| { return t; }
    RenderingParts(t, p);
    hide Scientific, Layout, SignedVal, Find, Before, Behind, SignedDigits, Unsigned, Negative, Collapse;
    var digits := DropPoint(if t[0] == '-' then t[1..p] else t[..p]);
    var n := SignedVal(t[p + 1..]) + 1;
    LayoutIs(digits, n);
    var body;
    if n > 21 { body := AppendExponential(digits, n - 1); }
    else if n <= -6 { body := AppendExponential(digits, n - 1); }
    else { body := AppendDecimal(digits, n); }
    r := (if t[0] == '-' then "-" else "") + body;
  }

  lemma {:induction false} LayoutIs(s: string, n: int)
    requires s != ""
    ensures Layout(s, n) == if n > 21 || n <= -6 then Exponential(s, n - 1) else Decimal(s, n)
  {
  }

  method FindChar(s: string, c: char) returns (k: nat)
    ensures k == Find(s, c)
    ensures k == |s| <==> c !in s
  {
    k := 0;
    while k < |s| && s[k] != c
      invariant k <= |s| && forall i :: 0 <= i < k ==> s[i] != c
    {
      k := k + 1;
    }
    FindIs(s, c, k);
  }
}
