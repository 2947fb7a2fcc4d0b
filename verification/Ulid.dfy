/**
 * Identifiers that sort by time: the 80-bit counter, the 26-character encoding and the
 * generator (src/asap/ulid.c).
 */
module Ulid {
  import opened Text

  type Byte = b: int | 0 <= b < 256

  const RAND_LEN := 10
  const TIME_LEN := 6
  const TEXT_LEN := 26
  const TIME_LIMIT := 0x1_0000_0000_0000

  // ------------------------------------------------------------- numbers and order

  /** The number with these digits, most significant first. */
  function Num(ds: seq<int>, base: nat): (n: int)
  {
    if ds == [] then 0 else Num(ds[..|ds| - 1], base) * base + ds[|ds| - 1]
  }

  ghost predicate Digits(ds: seq<int>, base: nat)
  {
    forall i :: 0 <= i < |ds| ==> 0 <= ds[i] < base
  }

  /** The first difference is at `p`, and there `a` is smaller. */
  ghost predicate LessAt(a: seq<int>, b: seq<int>, p: nat)
  {
    p < |a| && p < |b| && a[..p] == b[..p] && a[p] < b[p]
  }

  ghost predicate Lex(a: seq<int>, b: seq<int>)
  {
    exists p: nat :: LessAt(a, b, p)
  }

  lemma {:induction false} DigitsCarry(x: int, d: int, y: int, e: int, base: nat)
    requires x < y && d < base && 0 <= e
    ensures x * base + d < y * base + e
  {
    var k := y - x - 1;
    assert y * base == x * base + base + k * base;
    assert k * base >= 0;
  }

  lemma {:induction false} LessAtIsLess(a: seq<int>, b: seq<int>, p: nat, base: nat)
    requires |a| == |b| && Digits(a, base) && Digits(b, base) && LessAt(a, b, p)
    ensures Num(a, base) < Num(b, base)
  {
    var n := |a| - 1;
    if p < n {
      assert a[..n][..p] == a[..p] && b[..n][..p] == b[..p];
      LessAtIsLess(a[..n], b[..n], p, base);
      DigitsCarry(Num(a[..n], base), a[n], Num(b[..n], base), b[n], base);
    }
  }

  lemma {:induction false} FirstDifference(a: seq<int>, b: seq<int>) returns (p: nat)
    requires |a| == |b| && a != b
    ensures LessAt(a, b, p) || LessAt(b, a, p)
  {
    if a[0] != b[0] {
      p := 0;
    } else {
      assert a == [a[0]] + a[1..] && b == [b[0]] + b[1..];
      var q := FirstDifference(a[1..], b[1..]);
      p := q + 1;
      assert a[..p] == [a[0]] + a[1..][..q] && b[..p] == [b[0]] + b[1..][..q];
    }
  }

  /** Strings of equally many digits are ordered as their numbers. */
  lemma {:induction false} LexIsNumeric(a: seq<int>, b: seq<int>, base: nat)
    requires |a| == |b| && Digits(a, base) && Digits(b, base)
    ensures Lex(a, b) <==> Num(a, base) < Num(b, base)
    ensures a == b <==> Num(a, base) == Num(b, base)
  {
    if a != b {
      var p := FirstDifference(a, b);
      if LessAt(a, b, p) {
        LessAtIsLess(a, b, p, base);
      } else {
        LessAtIsLess(b, a, p, base);
      }
    }
    if Lex(a, b) {
      var p: nat :| LessAt(a, b, p);
      LessAtIsLess(a, b, p, base);
    }
  }

  // ---------------------------------------------------------------- the 80-bit counter

  /** One more in the last place, carried to the left; zeros after all ones. */
  function Inc(bs: seq<Byte>): (r: seq<Byte>)
    ensures |r| == |bs|
  {
    if bs == [] then []
    else if bs[|bs| - 1] < 255 then bs[..|bs| - 1] + [bs[|bs| - 1] + 1]
    else Inc(bs[..|bs| - 1]) + [0]
  }

  predicate AllOnes(bs: seq<Byte>)
  {
    forall i :: 0 <= i < |bs| ==> bs[i] == 255
  }

  function Power256(n: nat): (p: nat)
    ensures p > 0
  {
    if n == 0 then 1 else Power256(n - 1) * 256
  }

  lemma {:induction false} NumBelow(bs: seq<Byte>)
    ensures 0 <= Num(bs, 256) < Power256(|bs|)
    ensures Num(bs, 256) == Power256(|bs|) - 1 <==> AllOnes(bs)
  {
    if bs != [] { NumBelow(bs[..|bs| - 1]); }
  }

  lemma {:induction false} NumSnoc(ds: seq<int>, d: int, base: nat)
    ensures Num(ds + [d], base) == Num(ds, base) * base + d
  {
    assert (ds + [d])[..|ds|] == ds;
  }

  /** The increment is plus one, back to zero exactly after the largest value. */
  lemma {:induction false} IncIsPlusOne(bs: seq<Byte>)
    ensures Num(Inc(bs), 256) == if AllOnes(bs) then 0 else Num(bs, 256) + 1
    ensures AllOnes(bs) ==> Num(bs, 256) + 1 == Power256(|bs|)
  {
    NumBelow(bs);
    if bs != [] {
      var init, last := bs[..|bs| - 1], bs[|bs| - 1];
      IncIsPlusOne(init);
      if last < 255 { NumSnoc(init, last + 1, 256); }
      NumSnoc(Inc(init), 0, 256);
      assert AllOnes(bs) <==> AllOnes(init) && last == 255;
    }
  }

  /** Adds one in place; true when all the bytes went back to zero. */
  method IncInPlace(b: array<Byte>) returns (overflow: bool)
    modifies b
    ensures b[..] == Inc(old(b[..])) && overflow == AllOnes(old(b[..]))
    ensures Num(b[..], 256) == if overflow then 0 else Num(old(b[..]), 256) + 1
  {
    ghost var was := b[..];
    IncIsPlusOne(was);
    hide Inc, AllOnes, Num;
    var i := b.Length;
    while i > 0
      invariant 0 <= i <= b.Length
      invariant forall j :: 0 <= j < i ==> b[j] == was[j]
      invariant forall j :: i <= j < b.Length ==> was[j] == 255 && b[j] == 0
    {
      i := i - 1;
      b[i] := if b[i] == 255 then 0 else b[i] + 1;
      if b[i] != 0 {
        CarryStops(was, i, b[..]);
        return false;
      }
    }
    CarryRunsOut(was, b[..]);
    overflow := true;
  }

  lemma {:induction false} CarryStops(was: seq<Byte>, k: nat, now: seq<Byte>)
    requires k < |was| == |now| && was[k] < 255 && now[k] == was[k] + 1
    requires (forall j :: 0 <= j < k ==> now[j] == was[j]) && forall j :: k < j < |was| ==> was[j] == 255 && now[j] == 0
    ensures now == Inc(was) && !AllOnes(was)
  {
    var n := |was| - 1;
    if k == n {
      assert now == was[..n] + [was[n] + 1];
    } else {
      CarryStops(was[..n], k, now[..n]);
      assert now == now[..n] + [0];
    }
  }

  lemma {:induction false} CarryRunsOut(was: seq<Byte>, now: seq<Byte>)
    requires |was| == |now| && forall j :: 0 <= j < |was| ==> was[j] == 255 && now[j] == 0
    ensures now == Inc(was) && AllOnes(was)
  {
    if was != [] {
      var n := |was| - 1;
      CarryRunsOut(was[..n], now[..n]);
      assert now == now[..n] + [0];
    }
  }

  // -------------------------------------------------------------------- the encoding

  const C32 := "0123456789ABCDEFGHJKMNPQRSTVWXYZ"

  function Symbol(v: nat): (c: char)
    requires v < 32
  {
    C32[v]
  }

  /** Divisor for the shift that brings byte `i` of a 48-bit number to the bottom. */
  function TimeShift(i: nat): (d: nat)
    ensures d > 0
  {
    if i == 0 then 0x100_0000_0000 else if i == 1 then 0x1_0000_0000 else if i == 2 then 0x100_0000
    else if i == 3 then 0x1_0000 else if i == 4 then 0x100 else 1
  }

  /** Divisor for the shift that brings bit `i` of a byte, the most significant first, to the bottom. */
  function BitShift(i: nat): (d: nat)
    ensures d > 0
  {
    if i == 0 then 128 else if i == 1 then 64 else if i == 2 then 32 else if i == 3 then 16
    else if i == 4 then 8 else if i == 5 then 4 else if i == 6 then 2 else 1
  }

  function TimeByte(t: nat, i: nat): (b: Byte)
  {
    (t / TimeShift(i)) % 256
  }

  function TimeBytes(t: nat): (bs: seq<Byte>)
    ensures |bs| == TIME_LEN
  {
    [TimeByte(t, 0), TimeByte(t, 1), TimeByte(t, 2), TimeByte(t, 3), TimeByte(t, 4), TimeByte(t, 5)]
  }

  /** Bit `i` of the stream, zero behind the last byte. */
  function BitAt(bytes: seq<Byte>, i: nat): (b: int)
    ensures 0 <= b <= 1
  {
    if i < 8 * |bytes| then (bytes[i / 8] / BitShift(i % 8)) % 2 else 0
  }

  /** The value of the first `k` bits. */
  function Prefix(bytes: seq<Byte>, k: nat): (n: nat)
  {
    if k == 0 then 0 else 2 * Prefix(bytes, k - 1) + BitAt(bytes, k - 1)
  }

  /** The five bits of character `c`. */
  function Group(bytes: seq<Byte>, c: nat): (v: nat)
    ensures v < 32
  {
    16 * BitAt(bytes, 5 * c) + 8 * BitAt(bytes, 5 * c + 1) + 4 * BitAt(bytes, 5 * c + 2)
    + 2 * BitAt(bytes, 5 * c + 3) + BitAt(bytes, 5 * c + 4)
  }

  function Groups(bytes: seq<Byte>, n: nat): (vs: seq<int>)
    ensures |vs| == n && forall c :: 0 <= c < n ==> vs[c] == Group(bytes, c)
  {
    seq(n, c requires 0 <= c < n => Group(bytes, c))
  }

  function Encoded(bytes: seq<Byte>): (s: string)
    ensures |s| == TEXT_LEN
  {
    seq(TEXT_LEN, c requires 0 <= c < TEXT_LEN => Symbol(Group(bytes, c)))
  }

  lemma {:induction false} HalvingChain(x: nat)
    ensures x / 4 == x / 2 / 2 && x / 8 == x / 4 / 2 && x / 16 == x / 8 / 2 && x / 32 == x / 16 / 2
    ensures x / 64 == x / 32 / 2 && x / 128 == x / 64 / 2
  {
  }

  lemma {:induction false} EightBits(x: Byte)
    ensures x == 128 * ((x / 128) % 2) + 64 * ((x / 64) % 2) + 32 * ((x / 32) % 2) + 16 * ((x / 16) % 2)
              + 8 * ((x / 8) % 2) + 4 * ((x / 4) % 2) + 2 * ((x / 2) % 2) + (x / 1) % 2
  {
    HalvingChain(x);
    var a, b, c, d := x / 2, x / 4, x / 8, x / 16;
    var e, f, g := x / 32, x / 64, x / 128;
    assert x == 2 * a + x % 2 && a == 2 * b + a % 2 && b == 2 * c + b % 2 && c == 2 * d + c % 2;
    assert d == 2 * e + d % 2 && e == 2 * f + e % 2 && f == 2 * g + f % 2 && g % 2 == g;
  }

  lemma {:induction false} FourMore(bytes: seq<Byte>, k: nat)
    ensures Prefix(bytes, k + 4) == 16 * Prefix(bytes, k)
              + 8 * BitAt(bytes, k) + 4 * BitAt(bytes, k + 1) + 2 * BitAt(bytes, k + 2) + BitAt(bytes, k + 3)
  {
    hide BitAt;
    assert Prefix(bytes, k + 3) == 2 * Prefix(bytes, k + 2) + BitAt(bytes, k + 2);
    assert Prefix(bytes, k + 2) == 2 * Prefix(bytes, k + 1) + BitAt(bytes, k + 1);
    assert Prefix(bytes, k + 1) == 2 * Prefix(bytes, k) + BitAt(bytes, k);
  }

  lemma {:induction false} FiveMore(bytes: seq<Byte>, c: nat)
    ensures Prefix(bytes, 5 * c + 5) == 32 * Prefix(bytes, 5 * c) + Group(bytes, c)
  {
    FourMore(bytes, 5 * c);
    hide BitAt;
  }

  lemma {:induction false} BitsOf(bytes: seq<Byte>, m: nat, j: nat)
    requires m < |bytes| && j < 8
    ensures BitAt(bytes, 8 * m + j) == (bytes[m] / BitShift(j)) % 2
  {
    assert (8 * m + j) / 8 == m && (8 * m + j) % 8 == j;
  }

  lemma {:induction false} ByteOfBits(bytes: seq<Byte>, m: nat)
    requires m < |bytes|
    ensures var k := 8 * m;
            bytes[m] == 128 * BitAt(bytes, k) + 64 * BitAt(bytes, k + 1) + 32 * BitAt(bytes, k + 2) +
              16 * BitAt(bytes, k + 3)
              + 8 * BitAt(bytes, k + 4) + 4 * BitAt(bytes, k + 5) + 2 * BitAt(bytes, k + 6) + BitAt(bytes, k + 7)
  {
    hide BitAt;
    BitsOf(bytes, m, 0); BitsOf(bytes, m, 1); BitsOf(bytes, m, 2); BitsOf(bytes, m, 3);
    BitsOf(bytes, m, 4); BitsOf(bytes, m, 5); BitsOf(bytes, m, 6); BitsOf(bytes, m, 7);
    EightBits(bytes[m]);
  }

  lemma {:induction false} EightMore(bytes: seq<Byte>, m: nat)
    requires m < |bytes|
    ensures Prefix(bytes, 8 * m + 8) == 256 * Prefix(bytes, 8 * m) + bytes[m]
  {
    hide *;
    var k := 8 * m;
    ByteOfBits(bytes, m);
    FourMore(bytes, k);
    FourMore(bytes, k + 4);
    assert Prefix(bytes, (k + 4) + 4) == Prefix(bytes, k + 8);
  }

  lemma {:induction false} PrefixOfBytes(bytes: seq<Byte>, m: nat)
    requires m <= |bytes|
    ensures Prefix(bytes, 8 * m) == Num(bytes[..m], 256)
  {
    if m > 0 {
      PrefixOfBytes(bytes, m - 1);
      EightMore(bytes, m - 1);
      assert bytes[..m][..m - 1] == bytes[..m - 1];
      hide Prefix;
    }
  }

  lemma {:induction false} PrefixOfGroups(bytes: seq<Byte>, c: nat)
    ensures Prefix(bytes, 5 * c) == Num(Groups(bytes, c), 32)
  {
    if c == 0 {
      hide Group;
      assert Groups(bytes, c) == [];
    } else {
      hide *;
      var n := c - 1;
      PrefixOfGroups(bytes, n);
      FiveMore(bytes, n);
      GroupsSnoc(bytes, n);
      NumSnoc(Groups(bytes, n), Group(bytes, n), 32);
      assert 5 * c == 5 * n + 5;
      assert Groups(bytes, c) == Groups(bytes, n) + [Group(bytes, n)];
    }
  }

  lemma {:induction false} GroupsSnoc(bytes: seq<Byte>, n: nat)
    ensures Groups(bytes, n + 1) == Groups(bytes, n) + [Group(bytes, n)]
  {
    hide Group;
  }

  /** The characters are the digits in base 32 of four times the number: two bits pad it. */
  lemma {:induction false} GroupsAreDigits(bytes: seq<Byte>)
    requires |bytes| == 16
    ensures Num(Groups(bytes, TEXT_LEN), 32) == 4 * Num(bytes, 256)
  {
    PrefixOfGroups(bytes, TEXT_LEN);
    PrefixOfBytes(bytes, 16);
    assert bytes[..16] == bytes;
    assert Prefix(bytes, 130) == 2 * Prefix(bytes, 129) && Prefix(bytes, 129) == 2 * Prefix(bytes, 128);
  }

  lemma {:induction false} AlphabetAscends(v: nat, w: nat)
    requires v < w < 32
    ensures Symbol(v) < Symbol(w)
  {
    hide Symbol;
    if v + 1 < w {
      AlphabetAscends(v, w - 1);
      AlphabetStep(w - 1);
    } else {
      AlphabetStep(v);
    }
  }

  lemma {:induction false} AlphabetStep(v: nat)
    requires v < 31
    ensures Symbol(v) < Symbol(v + 1)
  {
  }

  lemma {:induction false} TextLessAt(s: string, t: string, p: nat)
    requires p < |s| && p < |t| && s[..p] == t[..p] && s[p] < t[p]
    ensures Less(s, t)
  {
    if p > 0 {
      assert s[0] == s[..p][0] && t[0] == t[..p][0];
      assert s[1..][..p - 1] == s[..p][1..] && t[1..][..p - 1] == t[..p][1..];
      TextLessAt(s[1..], t[1..], p - 1);
    }
  }

  lemma {:induction false} GroupsOrderTexts(a: seq<Byte>, b: seq<Byte>)
    requires Lex(Groups(a, TEXT_LEN), Groups(b, TEXT_LEN))
    ensures Less(Encoded(a), Encoded(b))
  {
    hide Symbol, Group, Encoded;
    var v, w := Groups(a, TEXT_LEN), Groups(b, TEXT_LEN);
    var p: nat :| LessAt(v, w, p);
    var s, t := Encoded(a), Encoded(b);
    forall c | 0 <= c < p ensures s[c] == t[c] {
      assert v[c] == v[..p][c] && w[c] == w[..p][c];
      EncodedAt(a, c);
      EncodedAt(b, c);
    }
    EncodedAt(a, p);
    EncodedAt(b, p);
    AlphabetAscends(v[p], w[p]);
    TextLessAt(s, t, p);
  }

  lemma {:induction false} EncodedAt(bytes: seq<Byte>, c: nat)
    requires c < TEXT_LEN
    ensures Encoded(bytes)[c] == Symbol(Group(bytes, c))
  {
  }

  /** Encoding keeps the order of the bytes in both directions, so it is injective. */
  lemma {:induction false} EncodingKeepsOrder(a: seq<Byte>, b: seq<Byte>)
    requires |a| == |b| == 16
    ensures Less(Encoded(a), Encoded(b)) <==> Lex(a, b)
    ensures Encoded(a) == Encoded(b) ==> a == b
  {
    GroupsAreDigits(a);
    GroupsAreDigits(b);
    var v, w := Groups(a, TEXT_LEN), Groups(b, TEXT_LEN);
    assert Digits(v, 32) && Digits(w, 32) && Digits(a, 256) && Digits(b, 256);
    LexIsNumeric(v, w, 32);
    LexIsNumeric(w, v, 32);
    LexIsNumeric(a, b, 256);
    LessTrichotomy(Encoded(a), Encoded(b));
    if Lex(v, w) { GroupsOrderTexts(a, b); }
    if Lex(w, v) { GroupsOrderTexts(b, a); }
  }

  method EncodeBytes(bytes: seq<Byte>) returns (s: string)
    requires |bytes| == 16
    ensures s == Encoded(bytes)
  {
    s := "";
    for c := 0 to TEXT_LEN
      invariant |s| == c && forall j :: 0 <= j < c ==> s[j] == Symbol(Group(bytes, j))
    {
      hide Group, Symbol, Encoded;
      var v := ReadGroup(bytes, c);
      s := s + [Symbol(v)];
    }
  }

  /** The inner loop: five bits from the stream. */
  method ReadGroup(bytes: seq<Byte>, c: nat) returns (v: nat)
    requires |bytes| == 16
    ensures v == Group(bytes, c)
  {
    v := 0;
    for k := 0 to 5
      invariant v == GroupSoFar(bytes, c, k)
    {
      var bit := c * 5 + k;
      var b := if bit < 128 then (bytes[bit / 8] / BitShift(bit % 8)) % 2 else 0;
      assert b == BitAt(bytes, bit);
      hide BitAt, BitShift;
      v := v * 2 + b;
    }
    WholeGroup(bytes, c);
  }

  /** What the inner loop has gathered after `k` bits. */
  ghost function GroupSoFar(bytes: seq<Byte>, c: nat, k: nat): (v: nat)
  {
    if k == 0 then 0 else 2 * GroupSoFar(bytes, c, k - 1) + BitAt(bytes, 5 * c + k - 1)
  }

  lemma {:induction false} WholeGroup(bytes: seq<Byte>, c: nat)
    ensures GroupSoFar(bytes, c, 5) == Group(bytes, c)
  {
    hide BitAt;
    assert GroupSoFar(bytes, c, 2) == 2 * GroupSoFar(bytes, c, 1) + BitAt(bytes, 5 * c + 1);
    assert GroupSoFar(bytes, c, 3) == 2 * GroupSoFar(bytes, c, 2) + BitAt(bytes, 5 * c + 2);
    assert GroupSoFar(bytes, c, 4) == 2 * GroupSoFar(bytes, c, 3) + BitAt(bytes, 5 * c + 3);
  }

  /** The six bytes are the number, most significant first. */
  lemma {:induction false} TimeBytesValue(t: nat)
    requires t < TIME_LIMIT
    ensures Num(TimeBytes(t), 256) == t
  {
    ByteChain(t);
    var b := TimeBytes(t);
    hide TimeByte;
    assert b[..1][..0] == [] && b[..2][..1] == b[..1] && b[..3][..2] == b[..2] && b[..4][..3] == b[..3]
           && b[..5][..4] == b[..4];
    assert Num(b[..1], 256) == b[0];
    assert Num(b[..2], 256) == Num(b[..1], 256) * 256 + b[1];
    assert Num(b[..3], 256) == Num(b[..2], 256) * 256 + b[2];
    assert Num(b[..4], 256) == Num(b[..3], 256) * 256 + b[3];
    assert Num(b[..5], 256) == Num(b[..4], 256) * 256 + b[4];
  }

  lemma {:induction false} ByteChain(t: nat)
    requires t < TIME_LIMIT
    ensures t == ((((TimeByte(t, 0) * 256 + TimeByte(t, 1)) * 256 + TimeByte(t, 2)) * 256 + TimeByte(t, 3)) * 256
                  + TimeByte(t, 4)) * 256 + TimeByte(t, 5)
  {
    var a, b, c, d, e := t / 0x100, t / 0x1_0000, t / 0x100_0000, t / 0x1_0000_0000, t / 0x100_0000_0000;
    assert b == a / 256 && c == b / 256 && d == c / 256 && e == d / 256;
    assert t == a * 256 + t % 256 && a == b * 256 + a % 256 && b == c * 256 + b % 256;
    assert c == d * 256 + c % 256 && d == e * 256 + d % 256 && e % 256 == e;
  }

  method TimeToBytes(t: nat) returns (dst: seq<Byte>)
    ensures dst == TimeBytes(t)
  {
    dst := [];
    for i := 0 to TIME_LEN
      invariant |dst| == i && forall j :: 0 <= j < i ==> dst[j] == TimeByte(t, j)
    {
      dst := dst + [(t / TimeShift(i)) % 256];
    }
  }

  // ------------------------------------------------------------------- the generator

  type Rand = bs: seq<Byte> | |bs| == RAND_LEN witness [0, 0, 0, 0, 0, 0, 0, 0, 0, 0]

  datatype State = State(lastMs: nat, rand: Rand)

  /** Random bytes; a failed read may leave anything in the buffer. */
  datatype Draw = Draw(ok: bool, bytes: Rand)

  /** Clock readings in milliseconds, none where the clock fails, and the random bytes of one call. */
  datatype Call = Call(clock: Option<nat>, spins: seq<Option<nat>>, draw: Draw)

  datatype Outcome = Outcome(state: State, text: Option<string>)

  function Masked(ms: nat): (m: nat)
    ensures m < TIME_LIMIT
  {
    ms % TIME_LIMIT
  }

  function TextOf(s: State): (t: string)
  {
    Encoded(TimeBytes(s.lastMs) + s.rand)
  }

  /** The first reading past `last`, if the clock does not fail before it. */
  function Later(spins: seq<Option<nat>>, last: nat): (m: Option<nat>)
    ensures m.Some? ==> last < m.value < TIME_LIMIT
  {
    if spins == [] || spins[0].None? then None
    else if Masked(spins[0].value) > last then Some(Masked(spins[0].value))
    else Later(spins[1..], last)
  }

  function Drawn(ms: nat, d: Draw): (r: Outcome)
  {
    var s := State(ms, d.bytes);
    Outcome(s, if d.ok then Some(TextOf(s)) else None)
  }

  function Generated(s: State, c: Call): (r: Outcome)
  {
    if c.clock.None? then Outcome(s, None)
    else if Masked(c.clock.value) != s.lastMs then Drawn(Masked(c.clock.value), c.draw)
    else if !AllOnes(s.rand) then
      var s' := State(s.lastMs, Inc(s.rand));
      Outcome(s', Some(TextOf(s')))
    else if Later(c.spins, s.lastMs).None? then Outcome(State(s.lastMs, Inc(s.rand)), None)
    else Drawn(Later(c.spins, s.lastMs).value, c.draw)
  }

  class Generator {
    var lastMs: nat
    const rand: array<Byte>

    ghost predicate Valid()
    {
      rand.Length == RAND_LEN
    }

    ghost function Now(): (s: State)
      requires Valid()
      reads this, rand
    {
      State(lastMs, rand[..])
    }

    constructor ()
      ensures Valid() && fresh(rand) && lastMs == 0
    {
      lastMs := 0;
      rand := new Byte[RAND_LEN](_ => 0);
    }

    method Fill(d: Draw) returns (ok: bool)
      requires Valid()
      modifies rand
      ensures rand[..] == d.bytes && ok == d.ok
    {
      for i := 0 to RAND_LEN
        invariant forall j :: 0 <= j < i ==> rand[j] == d.bytes[j]
      {
        rand[i] := d.bytes[i];
      }
      ok := d.ok;
    }

    /** Reads the clock until it is past the last time. */
    method Spin(spins: seq<Option<nat>>) returns (m: Option<nat>)
      ensures m == Later(spins, lastMs)
    {
      assert spins[0..] == spins;
      for i := 0 to |spins|
        invariant Later(spins, lastMs) == Later(spins[i..], lastMs)
      {
        assert spins[i..][1..] == spins[i + 1..] && spins[i..][0] == spins[i];
        if spins[i].None? { return None; }
        var ms := Masked(spins[i].value);
        if ms > lastMs { return Some(ms); }
      }
      m := None;
    }

    method Generate(c: Call) returns (text: Option<string>)
      requires Valid()
      modifies this, rand
      ensures Outcome(Now(), text) == Generated(old(Now()), c)
    {
      hide Inc, AllOnes, Num, Later, Encoded, TimeBytes;
      if c.clock.None? { return None; }
      var ms := Masked(c.clock.value);
      if ms < lastMs {
        lastMs := ms;
        var ok := Fill(c.draw);
        if !ok { return None; }
      } else if ms > lastMs {
        lastMs := ms;
        var ok := Fill(c.draw);
        if !ok { return None; }
      } else {
        var overflow := IncInPlace(rand);
        if overflow {
          var later := Spin(c.spins);
          if later.None? { return None; }
          lastMs := later.value;
          var ok := Fill(c.draw);
          if !ok { return None; }
        }
      }
      var raw := TimeToBytes(lastMs);
      var s := EncodeBytes(raw + rand[..]);
      text := Some(s);
    }
  }

  // ----------------------------------------------------------------------- all runs

  /** The second state is later, or has the larger counter in the same millisecond. */
  predicate Ahead(s: State, r: State)
  {
    s.lastMs < r.lastMs || (s.lastMs == r.lastMs && Num(s.rand, 256) < Num(r.rand, 256))
  }

  predicate InRange(s: State)
  {
    s.lastMs < TIME_LIMIT
  }

  lemma {:induction false} LexJoins(a: seq<int>, b: seq<int>, x: seq<int>, y: seq<int>)
    requires |a| == |b|
    ensures Lex(a, b) ==> Lex(a + x, b + y)
    ensures a == b && Lex(x, y) ==> Lex(a + x, b + y)
  {
    if Lex(a, b) {
      var p: nat :| LessAt(a, b, p);
      assert (a + x)[..p] == a[..p] && (b + y)[..p] == b[..p];
      assert LessAt(a + x, b + y, p);
    } else if a == b && Lex(x, y) {
      var p: nat :| LessAt(x, y, p);
      assert (a + x)[..|a| + p] == a + x[..p] && (b + y)[..|a| + p] == b + y[..p];
      assert LessAt(a + x, b + y, |a| + p);
    }
  }

  lemma {:induction false} AheadIsLex(s: State, r: State)
    requires InRange(s) && InRange(r) && Ahead(s, r)
    ensures Lex(TimeBytes(s.lastMs) + s.rand, TimeBytes(r.lastMs) + r.rand)
  {
    var a, b := TimeBytes(s.lastMs), TimeBytes(r.lastMs);
    TimeBytesValue(s.lastMs);
    TimeBytesValue(r.lastMs);
    assert |a| == |b|;
    hide TimeBytes, Num, Lex;
    LexIsNumeric(a, b, 256);
    LexIsNumeric(s.rand, r.rand, 256);
    LexJoins(a, b, s.rand, r.rand);
  }

  /** A state that is ahead emits the larger text. */
  lemma {:induction false} AheadEmitsLarger(s: State, r: State)
    requires InRange(s) && InRange(r) && Ahead(s, r)
    ensures Less(TextOf(s), TextOf(r))
  {
    AheadIsLex(s, r);
    assert |TimeBytes(s.lastMs) + s.rand| == |TimeBytes(r.lastMs) + r.rand| == 16;
    hide TimeBytes, Lex, Encoded;
    EncodingKeepsOrder(TimeBytes(s.lastMs) + s.rand, TimeBytes(r.lastMs) + r.rand);
  }

  /**
   * The two ways to lose ground: a reading older than the last time, or a counter that runs
   * over while the clock fails before it moves on.
   */
  predicate Slips(s: State, c: Call)
  {
    && c.clock.Some?
    && (|| Masked(c.clock.value) < s.lastMs
        || (Masked(c.clock.value) == s.lastMs && AllOnes(s.rand) && Later(c.spins, s.lastMs).None?))
  }

  /** A call emits its own state, and moves ahead exactly when its reading is not older than the last time. */
  lemma {:induction false} EmitsAhead(s: State, c: Call)
    requires InRange(s) && Generated(s, c).text.Some?
    ensures var r := Generated(s, c);
            && r.text == Some(TextOf(r.state)) && InRange(r.state)
            && (Ahead(s, r.state) <==> Masked(c.clock.value) >= s.lastMs)
  {
    IncIsPlusOne(s.rand);
  }

  /** A call, emitting or failing, falls back exactly when it slips. */
  lemma {:induction false} FallsBackExactly(s: State, c: Call)
    requires InRange(s)
    ensures InRange(Generated(s, c).state)
    ensures Ahead(Generated(s, c).state, s) <==> Slips(s, c)
  {
    IncIsPlusOne(s.rand);
    assert Power256(RAND_LEN) > 1 by { assert Power256(RAND_LEN) == Power256(9) * 256; }
  }

  /** Waiting ends with reading `k`: the first that is past the last time, or fails. */
  predicate EndsWait(spins: seq<Option<nat>>, last: nat, k: nat)
    requires k <= |spins|
  {
    && (forall j :: 0 <= j < k ==> spins[j].Some? && spins[j].value % 0x1_0000_0000_0000 <= last)
    && (k < |spins| ==> spins[k].None? || spins[k].value % 0x1_0000_0000_0000 > last)
  }

  lemma {:induction false} LaterExactly(spins: seq<Option<nat>>, last: nat, k: nat)
    requires k <= |spins| && EndsWait(spins, last, k)
    ensures Later(spins, last) ==
              if k < |spins| && spins[k].Some? then Some(spins[k].value % 0x1_0000_0000_0000) else None
  {
    if k > 0 {
      assert spins[0].Some? && spins[0].value % 0x1_0000_0000_0000 <= last;
      LaterExactly(spins[1..], last, k - 1);
    }
  }

  /** A call with time `ms` and the bytes drawn emits exactly when the draw works. */
  predicate Draws(r: Outcome, ms: nat, d: Draw)
  {
    r.state == State(ms, d.bytes) && (r.text.Some? <==> d.ok)
  }

  /**
   * What every call does, `k` being where a wait ends: nothing without a clock; new random bytes at
   * a new time, older ones too; in the same millisecond the counter plus one, and when that runs
   * over, new random bytes at the first later reading, or a counter of zero and a failure.
   */
  lemma {:induction false} GenerateExactly(s: State, c: Call, k: nat)
    requires k <= |c.spins| && EndsWait(c.spins, s.lastMs, k)
    ensures var r := Generated(s, c);
            if c.clock.None? then r == Outcome(s, None)
            else
              var ms := c.clock.value % 0x1_0000_0000_0000;
              if ms != s.lastMs then Draws(r, ms, c.draw)
              else if exists i :: 0 <= i < 10 && s.rand[i] != 255 then
                r.state.lastMs == ms && Num(r.state.rand, 256) == Num(s.rand, 256) + 1 && r.text.Some?
              else if k < |c.spins| && c.spins[k].Some? then
                Draws(r, c.spins[k].value % 0x1_0000_0000_0000, c.draw)
              else
                r.state.lastMs == ms && Num(r.state.rand, 256) == 0 && r.text.None?
  {
    LaterExactly(c.spins, s.lastMs, k);
    IncIsPlusOne(s.rand);
    hide Later, Inc, Num, EndsWait;
  }

  /** The text of a call is its state: 48 bits of time and 80 of the counter, in 26 digits of base 32. */
  lemma {:induction false} TextIsState(s: State, c: Call)
    requires InRange(s) && Generated(s, c).text.Some?
    ensures var r := Generated(s, c);
            var bytes := TimeBytes(r.state.lastMs) + r.state.rand;
            && |bytes| == 16 && Num(bytes[..6], 256) == r.state.lastMs && bytes[6..] == r.state.rand
            && |r.text.value| == 26
            && (forall i :: 0 <= i < 26 ==>
                  r.text.value[i] == "0123456789ABCDEFGHJKMNPQRSTVWXYZ"[Groups(bytes, 26)[i]])
            && Num(Groups(bytes, 26), 32) == 4 * Num(bytes, 256)
  {
    var r := Generated(s, c).state;
    EmitsAhead(s, c);
    TimeBytesValue(r.lastMs);
    hide Generated, Num, TimeBytes, Group;
    GroupsAreDigits(TimeBytes(r.lastMs) + r.rand);
  }

  ghost predicate IsRun(run: seq<State>, cs: seq<Call>)
  {
    && |run| == |cs| + 1 && InRange(run[0])
    && forall i :: 0 <= i < |cs| ==> run[i + 1] == Generated(run[i], cs[i]).state
  }

  lemma {:induction false} RunStaysAhead(run: seq<State>, cs: seq<Call>, i: nat, j: nat)
    requires IsRun(run, cs) && i <= j < |run|
    requires forall k :: 0 <= k < |cs| ==> !Slips(run[k], cs[k])
    ensures InRange(run[i]) && InRange(run[j]) && !Ahead(run[j], run[i])
    decreases j
  {
    hide Generated, Slips;
    if j > 0 {
      RunStaysAhead(run, cs, if i < j then i else i - 1, j - 1);
      FallsBackExactly(run[j - 1], cs[j - 1]);
    }
  }

  /** Over every run in which no call slips, later identifiers are strictly larger strings. */
  lemma {:induction false} RunIncreases(run: seq<State>, cs: seq<Call>, i: nat, j: nat)
    requires IsRun(run, cs) && i < j < |cs|
    requires forall k :: 0 <= k < |cs| ==> !Slips(run[k], cs[k])
    requires Generated(run[i], cs[i]).text.Some? && Generated(run[j], cs[j]).text.Some?
    ensures Less(Generated(run[i], cs[i]).text.value, Generated(run[j], cs[j]).text.value)
  {
    RunStaysAhead(run, cs, i, i);
    RunStaysAhead(run, cs, i + 1, j);
    assert Masked(cs[j].clock.value) >= run[j].lastMs by { assert !Slips(run[j], cs[j]); }
    EmitsAhead(run[i], cs[i]);
    EmitsAhead(run[j], cs[j]);
    hide Generated, Slips;
    assert Ahead(run[i + 1], run[j + 1]);
    AheadEmitsLarger(run[i + 1], run[j + 1]);
  }

  /** No reading of a call is past the reading a later call starts with. */
  ghost predicate ClockNeverGoesBack(cs: seq<Call>)
  {
    && (forall i, j :: 0 <= i < j < |cs| && cs[i].clock.Some? && cs[j].clock.Some?
          ==> Masked(cs[i].clock.value) <= Masked(cs[j].clock.value))
    && (forall i, j, k :: 0 <= i < j < |cs| && 0 <= k < |cs[i].spins| && cs[i].spins[k].Some? && cs[j].clock.Some?
          ==> Masked(cs[i].spins[k].value) <= Masked(cs[j].clock.value))
  }

  lemma {:induction false} LaterIsARead(spins: seq<Option<nat>>, last: nat) returns (k: nat)
    requires Later(spins, last).Some?
    ensures k < |spins| && spins[k].Some? && Later(spins, last) == Some(Masked(spins[k].value))
  {
    if Masked(spins[0].value) > last {
      k := 0;
    } else {
      k := LaterIsARead(spins[1..], last);
      k := k + 1;
    }
  }

  lemma {:induction false} LastTimeWasRead(run: seq<State>, cs: seq<Call>, n: nat, j: nat)
    requires IsRun(run, cs) && run[0].lastMs == 0 && ClockNeverGoesBack(cs)
    requires n <= j < |cs| && cs[j].clock.Some?
    ensures run[n].lastMs <= Masked(cs[j].clock.value)
  {
    if n > 0 {
      LastTimeWasRead(run, cs, n - 1, j);
      var s, c := run[n - 1], cs[n - 1];
      assert run[n] == Generated(s, c).state;
      if Later(c.spins, s.lastMs).Some? {
        var k := LaterIsARead(c.spins, s.lastMs);
      }
      hide Later, Masked, Inc, AllOnes;
    }
  }

  /** The counter is full and the reading is still the last time, so the call spins. */
  predicate Waits(s: State, c: Call)
  {
    c.clock.Some? && Masked(c.clock.value) == s.lastMs && AllOnes(s.rand)
  }

  /**
   * From the start, with a clock that never goes back between calls in lock order and never
   * fails while a full counter waits for it, identifiers strictly increase.
   */
  lemma {:induction false} SteadyClockIncreases(run: seq<State>, cs: seq<Call>, i: nat, j: nat)
    requires IsRun(run, cs) && run[0].lastMs == 0 && ClockNeverGoesBack(cs) && i < j < |cs|
    requires forall k :: 0 <= k < |cs| && Waits(run[k], cs[k]) ==> Later(cs[k].spins, run[k].lastMs).Some?
    requires Generated(run[i], cs[i]).text.Some? && Generated(run[j], cs[j]).text.Some?
    ensures Less(Generated(run[i], cs[i]).text.value, Generated(run[j], cs[j]).text.value)
  {
    forall k | 0 <= k < |cs| ensures !Slips(run[k], cs[k]) {
      if cs[k].clock.Some? { LastTimeWasRead(run, cs, k, k); }
    }
    hide Generated, Slips, ClockNeverGoesBack;
    RunIncreases(run, cs, i, j);
  }
}
