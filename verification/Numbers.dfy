/** Decimal numbers in text: what `strtol` and `atoi` read and what `%d` and `%lld` print. */
module Numbers {
  import opened Text

  const LLONG_MAX := 9223372036854775807
  const LLONG_MIN := -9223372036854775808
  const INT_MAX := 2147483647
  const INT_MIN := -2147483648

  // ------------------------------------------------------------------- reading

  function Spaces(s: string): (n: nat)
    ensures n <= |s| && forall i :: 0 <= i < n ==> IsSpace(s[i])
    ensures n < |s| ==> !IsSpace(s[n])
  {
    if s == "" || !IsSpace(s[0]) then 0 else 1 + Spaces(s[1..])
  }

  function DigitRun(s: string): (n: nat)
    ensures n <= |s| && forall i :: 0 <= i < n ==> IsDigit(s[i])
    ensures n < |s| ==> !IsDigit(s[n])
  {
    if s == "" || !IsDigit(s[0]) then 0 else 1 + DigitRun(s[1..])
  }

  /** Index behind an optional sign at `k`. */
  function SignEnd(s: string, k: nat): (j: nat)
    requires k <= |s|
    ensures k <= j <= |s|
  {
    if k < |s| && (s[k] == '-' || s[k] == '+') then k + 1 else k
  }

  /** What strtol reads: the number and where it stops; `end == 0` when there is none. */
  datatype Scan = Scan(value: int, end: nat)

  function ReadNumber(s: string): (r: Scan)
    ensures r.end <= |s|
  {
    var k := Spaces(s);
    var j := SignEnd(s, k);
    var d := DigitRun(s[j..]);
    if d == 0 then Scan(0, 0)
    else
      var n: int := NatVal(s[j..][..d]);
      Scan(if k < j && s[k] == '-' then -n else n, j + d)
  }

  /** The whole text is one number. */
  predicate WholeNumber(s: string)
  {
    s != "" && ReadNumber(s).end == |s|
  }

  /** Blanks, a sign or none, and at least one digit, with nothing behind. */
  ghost predicate SpelledNumber(s: string, blanks: string, sign: string, digits: string)
  {
    && s == blanks + (sign + digits)
    && (forall i :: 0 <= i < |blanks| ==> IsSpace(blanks[i]))
    && (sign == "" || sign == "+" || sign == "-")
    && digits != "" && forall i :: 0 <= i < |digits| ==> IsDigit(digits[i])
  }

  lemma {:induction false} SpacesIs(s: string, k: nat)
    requires k <= |s| && (k < |s| ==> !IsSpace(s[k])) && forall i :: 0 <= i < k ==> IsSpace(s[i])
    ensures Spaces(s) == k
  {
    var n := Spaces(s);
    assert n < |s| ==> !IsSpace(s[n]);
  }

  lemma {:induction false} SpelledReads(s: string, blanks: string, sign: string, digits: string)
    requires SpelledNumber(s, blanks, sign, digits)
    ensures WholeNumber(s) && ReadNumber(s).value == (if sign == "-" then -(NatVal(digits) as int) else NatVal(digits))
  {
    var k, j := |blanks|, |blanks| + |sign|;
    assert s[k] == (sign + digits)[0];
    assert forall i :: 0 <= i < k ==> s[i] == blanks[i];
    SpacesIs(s, k);
    assert SignEnd(s, k) == j;
    assert s[j..] == digits;
    var d := DigitRun(digits);
    assert d == |digits|;
    assert digits[..d] == digits;
    hide Spaces, DigitRun, NatVal;
  }

  /**
   * Accepted texts are exactly the spelled numbers: a number with anything behind it,
   * such as a second number of a comma list, is rejected as a whole.
   */
  lemma {:induction false} WholeNumberExactly(s: string)
    ensures WholeNumber(s) <==> exists blanks, sign, digits :: SpelledNumber(s, blanks, sign, digits)
  {
    hide *;
    if WholeNumber(s) { var blanks, sign, digits := SpellingOf(s); }
    if exists blanks, sign, digits :: SpelledNumber(s, blanks, sign, digits) {
      var blanks, sign, digits :| SpelledNumber(s, blanks, sign, digits);
      SpelledReads(s, blanks, sign, digits);
    }
  }

  lemma {:induction false} WholeIsDigits(s: string)
    requires WholeNumber(s)
    ensures var t := s[SignEnd(s, Spaces(s))..]; DigitRun(t) == |t| > 0
  {
    hide Spaces, SignEnd, DigitRun, NatVal;
  }

  lemma {:induction false} SignText(s: string, k: nat)
    requires k <= |s|
    ensures var t := s[k..SignEnd(s, k)]; t == "" || t == "+" || t == "-"
  {
  }

  lemma {:induction false} SpellingOf(s: string) returns (blanks: string, sign: string, digits: string)
    requires WholeNumber(s)
    ensures SpelledNumber(s, blanks, sign, digits)
  {
    hide ReadNumber, WholeNumber, Spaces, SignEnd, DigitRun, NatVal;
    var k := Spaces(s);
    var j := SignEnd(s, k);
    WholeIsDigits(s);
    SignText(s, k);
    CutTwice(s, k, j);
    blanks, sign, digits := s[..k], s[k..j], s[j..];
    assert forall i :: 0 <= i < |blanks| ==> IsSpace(blanks[i]);
    assert forall i :: 0 <= i < |digits| ==> IsDigit(digits[i]);
  }

  lemma {:induction false} CutTwice(s: string, k: nat, j: nat)
    requires k <= j <= |s|
    ensures s == s[..k] + (s[k..j] + s[j..])
  {
  }

  lemma {:induction false} TrailingJunkRejected(number: string, junk: string)
    requires WholeNumber(number) && junk != "" && !IsDigit(junk[0])
    ensures !WholeNumber(number + junk)
  {
    var s := number + junk;
    var k := Spaces(number);
    var j := SignEnd(number, k);
    assert k < |number| && j < |number|;
    assert forall i :: 0 <= i <= k ==> s[i] == number[i];
    SpacesIs(s, k);
    assert SignEnd(s, k) == j;
    assert s[|number|] == junk[0];
    assert DigitRun(s[j..]) <= |number| - j by {
      assert s[j..][|number| - j] == junk[0];
    }
    hide Spaces, DigitRun, NatVal;
  }

  function Saturated(n: int): (r: int)
  {
    if n > LLONG_MAX then LLONG_MAX else if n < LLONG_MIN then LLONG_MIN else n
  }

  /** The low 32 bits, as a signed number. */
  function AsInt(n: int): (r: int)
    ensures INT_MIN <= r <= INT_MAX
    ensures INT_MIN <= n <= INT_MAX ==> r == n
  {
    (n + 0x8000_0000) % 0x1_0000_0000 - 0x8000_0000
  }

  /** `atoi`: the number at the start of the text, 0 when there is none. */
  function Atoi(s: string): (r: int)
    ensures INT_MIN <= r <= INT_MAX
  {
    AsInt(Saturated(ReadNumber(s).value))
  }

  // ------------------------------------------------------------------ printing

  function Digit(n: nat): (c: char)
    requires n < 10
    ensures '0' <= c <= '9'
  {
    '0' + n as char
  }

  function NatText(n: nat): (s: string)
    ensures s != "" && forall i :: 0 <= i < |s| ==> '0' <= s[i] <= '9'
  {
    if n < 10 then [Digit(n)] else NatText(n / 10) + [Digit(n % 10)]
  }

  /** `%lld`. */
  function IntText(n: int): (s: string)
    ensures s != "" && (s[0] == '-' || '0' <= s[0] <= '9')
  {
    if n < 0 then "-" + NatText(-n) else NatText(n)
  }

  lemma {:induction false} NatTextVal(n: nat)
    ensures NatVal(NatText(n)) == n
  {
    if n >= 10 {
      NatTextVal(n / 10);
      assert NatText(n)[..|NatText(n)| - 1] == NatText(n / 10);
    }
  }

  function TenTo(k: nat): (p: nat)
    ensures p > 0
  {
    if k == 0 then 1 else 10 * TenTo(k - 1)
  }

  lemma {:induction false} NatTextLength(n: nat, k: nat)
    requires k > 0 && n < TenTo(k)
    ensures |NatText(n)| <= k
  {
    if n >= 10 { NatTextLength(n / 10, k - 1); }
  }

  lemma {:induction false} IntTextSpelled(n: int)
    ensures SpelledNumber(IntText(n), "", if n < 0 then "-" else "", NatText(if n < 0 then -n else n))
  {
    hide NatText;
    assert IntText(n) == "" + ((if n < 0 then "-" else "") + NatText(if n < 0 then -n else n));
  }

  lemma {:induction false} IntTextLength(n: int)
    requires INT_MIN <= n <= INT_MAX
    ensures |IntText(n)| <= 11
  {
    assert TenTo(5) == 100_000;
    assert TenTo(10) == 10_000_000_000;
    NatTextLength(if n < 0 then -n else n, 10);
    hide NatText, TenTo;
  }

  lemma {:induction false} IntTextReads(n: int)
    ensures ReadNumber(IntText(n)).value == n
  {
    IntTextSpelled(n);
    var a, sign := if n < 0 then -n else n, if n < 0 then "-" else "";
    NatTextVal(a);
    assert n < 0 <==> sign == "-";
    hide *;
    SpelledReads(IntText(n), "", sign, NatText(a));
  }

  /** Reading what was printed gives the number back, and eleven characters hold any `int`. */
  lemma {:induction false} PrintedIsRead(n: int)
    requires INT_MIN <= n <= INT_MAX
    ensures Atoi(IntText(n)) == n && |IntText(n)| <= 11
  {
    IntTextLength(n);
    IntTextReads(n);
    hide IntText, ReadNumber, AsInt, NatText, NatVal, TenTo;
  }
}
