/**
 * Text shared by the other modules. C strings are modelled as `string` with one
 * `char` per byte, so lengths are byte counts and `strcmp` order is the order of
 * the byte values.
 */
module Text {

  datatype Option<+T> = None | Some(value: T)

  // ------------------------------------------------------- searching and numbers

  /** Index of the first `c`, or the length when there is none. */
  function Find(s: string, c: char): (k: nat)
    ensures k <= |s| && (k < |s| ==> s[k] == c)
    ensures forall i :: 0 <= i < k ==> s[i] != c
  {
    if s == "" || s[0] == c then 0 else 1 + Find(s[1..], c)
  }

  lemma {:induction false} FindIs(s: string, c: char, k: nat)
    requires k <= |s| && (k < |s| ==> s[k] == c) && forall i :: 0 <= i < k ==> s[i] != c
    ensures Find(s, c) == k
  {
    var f := Find(s, c);
    assert k < |s| ==> f <= k;
  }

  predicate IsDigit(c: char)
  {
    '0' <= c <= '9'
  }

  /** Digits read as a decimal number. */
  function NatVal(s: string): (n: nat)
    requires forall i :: 0 <= i < |s| ==> IsDigit(s[i])
  {
    if s == "" then 0
    else
      assert IsDigit(s[|s| - 1]);
      NatVal(s[..|s| - 1]) * 10 + (s[|s| - 1] - '0') as int
  }

  predicate IsBlank(c: char)
  {
    c == ' ' || c == '\t'
  }

  /** `isspace`. */
  predicate IsSpace(c: char)
  {
    c == ' ' || 9 <= c as int <= 13
  }

  /** Length of the blanks a text starts with. */
  function BlankRun(s: string): (n: nat)
    ensures n <= |s| && (n < |s| ==> !IsBlank(s[n]))
    ensures forall i :: 0 <= i < n ==> IsBlank(s[i])
  {
    if s == "" || !IsBlank(s[0]) then 0 else 1 + BlankRun(s[1..])
  }

  /** The text as it arrives in a buffer of `size` bytes, the last of which ends it. */
  function Clip(s: string, size: nat): (r: string)
    requires size > 0
    ensures |r| < size && r <= s
  {
    if |s| < size then s else s[..size - 1]
  }

  // ---------------------------------------------------------------- ordering

  /** `strcmp(a, b) < 0`: lexicographic on byte values, a proper prefix first. */
  predicate Less(a: string, b: string)
  {
    if b == "" then false
    else if a == "" then true
    else a[0] < b[0] || (a[0] == b[0] && Less(a[1..], b[1..]))
  }

  lemma {:induction false} LessTrichotomy(a: string, b: string)
    ensures Less(a, b) || a == b || Less(b, a)
    ensures !(Less(a, b) && Less(b, a))
    ensures a == b ==> !Less(a, b)
  {
    if a != "" && b != "" {
      LessTrichotomy(a[1..], b[1..]);
      if a[0] == b[0] && a[1..] == b[1..] {
        assert a == [a[0]] + a[1..] == [b[0]] + b[1..] == b;
      }
    }
  }

  lemma {:induction false} LessTransitive(a: string, b: string, c: string)
    requires Less(a, b) && Less(b, c)
    ensures Less(a, c)
  {
    if a != "" && a[0] == b[0] && b[0] == c[0] {
      LessTransitive(a[1..], b[1..], c[1..]);
    }
  }

  // ------------------------------------------------------------------- UTF-8

  /** `(c & 0xC0) == 0x80` for a byte `c`. */
  predicate IsContinuation(c: char)
  {
    0x80 <= c as int < 0xC0
  }

  /**
   * Length of the well-formed character `s` starts with (the UTF8-char rule in
   * section 4 of RFC 3629), or 0 when `s` does not start with one.
   */
  function CharLen(s: string): (n: nat)
    ensures n <= |s| && n <= 4
    ensures n > 0 ==> !IsContinuation(s[0])
    ensures forall i :: 0 < i < n ==> IsContinuation(s[i])
  {
    if |s| == 0 then 0
    else
      var b := s[0] as int;
      if b < 0x80 then 1
      else if 0xC2 <= b < 0xE0 && |s| >= 2 && IsContinuation(s[1]) then 2
      else if 0xE0 <= b < 0xF0 && |s| >= 3 && IsContinuation(s[1]) && IsContinuation(s[2])
              && (b == 0xE0 ==> s[1] as int >= 0xA0) && (b == 0xED ==> (s[1] as int) < 0xA0) then 3
      else if 0xF0 <= b < 0xF5 && |s| >= 4 && IsContinuation(s[1]) && IsContinuation(s[2]) && IsContinuation(s[3])
              && (b == 0xF0 ==> s[1] as int >= 0x90) && (b == 0xF4 ==> (s[1] as int) < 0x90) then 4
      else 0
  }

  /** Every byte of `s` belongs to a well-formed UTF-8 character. */
  predicate ValidUtf8(s: string)
  {
    s == "" || (CharLen(s) > 0 && ValidUtf8(s[CharLen(s)..]))
  }

  /** `k` does not fall inside a multibyte character: the byte there, if any, is not a continuation byte. */
  predicate IsBoundary(s: string, k: nat)
  {
    k == 0 || k >= |s| || !IsContinuation(s[k])
  }

  /** Largest boundary at or below `n`. */
  function CutBack(text: string, n: nat): (k: nat)
    ensures k <= n && IsBoundary(text, k)
    ensures forall j :: k < j <= n ==> !IsBoundary(text, j)
  {
    if IsBoundary(text, n) then n else CutBack(text, n - 1)
  }

  /** The first character depends only on its own bytes. */
  lemma {:induction false} CharLenLocal(s: string, t: string)
    requires CharLen(s) > 0 && CharLen(s) <= |t| && t[..CharLen(s)] == s[..CharLen(s)]
    ensures CharLen(t) == CharLen(s)
  {
    assert forall i :: 0 <= i < CharLen(s) ==> t[i] == t[..CharLen(s)][i] == s[i];
  }

  lemma {:induction false} ValidConcat(a: string, b: string)
    requires ValidUtf8(a) && ValidUtf8(b)
    ensures ValidUtf8(a + b)
  {
    if a == "" {
      assert a + b == b;
    } else {
      var n := CharLen(a);
      CharLenLocal(a, a + b);
      assert (a + b)[n..] == a[n..] + b;
      ValidConcat(a[n..], b);
    }
  }

  lemma {:induction false} HeadWithin(s: string, k: nat)
    requires ValidUtf8(s) && 0 < k <= |s| && IsBoundary(s, k)
    ensures 0 < CharLen(s) <= k && ValidUtf8(s[CharLen(s)..])
  {
  }

  lemma {:induction false} HeadIsValid(s: string)
    requires CharLen(s) > 0
    ensures ValidUtf8(s[..CharLen(s)])
  {
    var h := s[..CharLen(s)];
    CharLenLocal(s, h);
    hide CharLen;
    assert h[CharLen(h)..] == "";
  }

  /** Cutting valid text on a boundary leaves two valid pieces. */
  lemma {:induction false} ValidSplit(s: string, k: nat)
    requires ValidUtf8(s) && k <= |s| && IsBoundary(s, k)
    ensures ValidUtf8(s[..k]) && ValidUtf8(s[k..])
  {
    hide CharLen;
    if k == 0 {
      assert s[k..] == s;
    } else {
      HeadWithin(s, k);
      HeadIsValid(s);
      var n := CharLen(s);
      hide ValidUtf8;
      var t := s[n..];
      ValidSplit(t, k - n);
      assert t[k - n..] == s[k..];
      assert s[..k] == s[..n] + t[..k - n];
      ValidConcat(s[..n], t[..k - n]);
    }
  }

  /** A non-empty run of continuation bytes in valid text is at most three long. */
  lemma {:induction false} BoundaryWithinFour(s: string, k: nat)
    requires ValidUtf8(s) && 4 <= k <= |s|
    ensures exists j :: k - 3 <= j <= k && IsBoundary(s, j)
  {
    var n := CharLen(s);
    if k < n + 4 {
      assert n <= 4 <= k;
      if n < |s| { assert CharLen(s[n..]) > 0 && s[n..][0] == s[n]; }
      assert IsBoundary(s, n) && k - 3 <= n <= k;
    } else {
      BoundaryWithinFour(s[n..], k - n);
      var j :| k - n - 3 <= j <= k - n && IsBoundary(s[n..], j);
      assert IsBoundary(s, j + n);
    }
  }

  /** Bytes below 0x80 are valid text on their own. */
  lemma {:induction false} AsciiIsValid(s: string)
    requires forall i :: 0 <= i < |s| ==> (s[i] as int) < 0x80
    ensures ValidUtf8(s)
  {
    if s != "" {
      assert CharLen(s) == 1;
      AsciiIsValid(s[1..]);
    }
  }
}
