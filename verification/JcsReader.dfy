/**
 * A reader of JSON text, written from the grammar of RFC 8259 without white space, and what it
 * makes of the canonical text of src/crypto/jcs.c: the value with its members in order.
 */
module JcsReader {
  import opened Text
  import opened Numbers
  import opened Jcs

  datatype Read<T> = Read(value: T, rest: string)

  // ------------------------------------------------------------------ the reader

  /** The rest of a string, behind its first quote; control characters must be escaped. */
  function ReadString(t: string): (r: Option<Read<string>>)
    ensures r.Some? ==> |r.value.rest| < |t|
  {
    if t == "" || (t[0] as int) < 32 then None
    else if t[0] == '"' then Some(Read("", t[1..]))
    else
      var n := if t[0] != '\\' then 1 else if |t| > 1 && t[1] == 'u' then 6 else 2;
      if |t| < n then None
      else
        var r := ReadString(t[n..]);
        if r.None? then None else Some(Read([Unescape(t[..n])] + r.value.value, r.value.rest))
  }

  function ReadDigits(t: string): (r: Option<Read<nat>>)
    ensures r.Some? ==> |r.value.rest| < |t|
  {
    var n := DigitRun(t);
    if n == 0 then None else Some(Read(NatVal(t[..n]), t[n..]))
  }

  function ReadInt(t: string): (r: Option<Read<Json>>)
    ensures r.Some? ==> |r.value.rest| < |t|
  {
    var negative := t != "" && t[0] == '-';
    var r := ReadDigits(if negative then t[1..] else t);
    if r.None? || r.value.value > SAFE_MAX then None
    else
      var n: int := r.value.value;
      Some(Read(Num(if negative then -n else n), r.value.rest))
  }

  function ReadValue(t: string): (r: Option<Read<Json>>)
    ensures r.Some? ==> |r.value.rest| < |t|
    decreases |t|, 1
  {
    if t == "" then None
    else match t[0]
      case 'n' => if "null" <= t then Some(Read(Null, t[4..])) else None
      case 't' => if "true" <= t then Some(Read(Bool(true), t[4..])) else None
      case 'f' => if "false" <= t then Some(Read(Bool(false), t[5..])) else None
      case '"' =>
        var r := ReadString(t[1..]);
        if r.None? then None else Some(Read(Str(r.value.value), r.value.rest))
      case '[' =>
        if "[]" <= t then Some(Read(Arr([]), t[2..]))
        else
          var r := ReadItems(t[1..]);
          if r.None? then None else Some(Read(Arr(r.value.value), r.value.rest))
      case '{' =>
        if "{}" <= t then Some(Read(Obj([]), t[2..]))
        else
          var r := ReadMembers(t[1..]);
          if r.None? then None else Some(Read(Obj(r.value.value), r.value.rest))
      case _ => ReadInt(t)
  }

  /** Values with commas between them and a bracket behind the last. */
  function ReadItems(t: string): (r: Option<Read<seq<Json>>>)
    ensures r.Some? ==> |r.value.rest| < |t|
    decreases |t|, 2
  {
    var v := ReadValue(t);
    if v.None? || v.value.rest == "" then None
    else if v.value.rest[0] == ']' then Some(Read([v.value.value], v.value.rest[1..]))
    else if v.value.rest[0] != ',' then None
    else
      var r := ReadItems(v.value.rest[1..]);
      if r.None? then None else Some(Read([v.value.value] + r.value.value, r.value.rest))
  }

  /** A quoted key, a colon and a value. */
  function ReadMember(t: string): (r: Option<Read<Member>>)
    ensures r.Some? ==> |r.value.rest| < |t|
    decreases |t|, 2
  {
    if t == "" || t[0] != '"' then None
    else
      var k := ReadString(t[1..]);
      if k.None? || k.value.rest == "" || k.value.rest[0] != ':' then None
      else
        var v := ReadValue(k.value.rest[1..]);
        if v.None? then None else Some(Read(Member(k.value.value, v.value.value), v.value.rest))
  }

  function ReadMembers(t: string): (r: Option<Read<seq<Member>>>)
    ensures r.Some? ==> |r.value.rest| < |t|
    decreases |t|, 3
  {
    var m := ReadMember(t);
    if m.None? || m.value.rest == "" then None
    else if m.value.rest[0] == '}' then Some(Read([m.value.value], m.value.rest[1..]))
    else if m.value.rest[0] != ',' then None
    else
      var r := ReadMembers(m.value.rest[1..]);
      if r.None? then None else Some(Read([m.value.value] + r.value.value, r.value.rest))
  }

  // ------------------------------------------------------- what is read back

  /** The value with the members of every object in byte order of their keys. */
  function Ordered(v: Json): (r: Json)
    decreases v, 1
  {
    match v
    case Arr(items) => Arr(OrderedItems(items))
    case Obj(ms) => Obj(OrderedMembers(ms, SortKeys(Keys(ms))))
    case _ => v
  }

  function OrderedItems(items: seq<Json>): (r: seq<Json>)
    decreases items, 0
  {
    if items == [] then [] else [Ordered(items[0])] + OrderedItems(items[1..])
  }

  function OrderedMembers(ms: seq<Member>, ks: seq<string>): (r: seq<Member>)
    requires forall k :: k in ks ==> k in Keys(ms)
    decreases ms, |ks|
  {
    if ks == [] then []
    else
      var v := Lookup(ms, ks[0]);
      [Member(ks[0], Ordered(v))] + OrderedMembers(ms, ks[1..])
  }

  lemma {:induction false} StringRead(s: string, x: string)
    ensures ReadString(EscapeBody(s) + "\"" + x) == Some(Read(s, x))
  {
    if s == "" {
      QuoteRead(x);
    } else {
      StringRead(s[1..], x);
      EscapeShape(s[0]);
      EscapeNotQuote(s[0]);
      BodyText(s, x);
      hide *;
      EscapeRead(EscapeChar(s[0]), EscapeBody(s[1..]) + "\"" + x, s[0], s[1..], x);
      assert [s[0]] + s[1..] == s;
    }
  }

  lemma {:induction false} QuoteRead(x: string)
    ensures ReadString(EscapeBody("") + "\"" + x) == Some(Read("", x))
  {
    assert EscapeBody("") + "\"" + x == "\"" + x && ("\"" + x)[1..] == x;
  }

  lemma {:induction false} BodyText(s: string, x: string)
    requires s != ""
    ensures EscapeBody(s) + "\"" + x == EscapeChar(s[0]) + (EscapeBody(s[1..]) + "\"" + x)
  {
    hide EscapeChar;
  }

  /**
   * The escapes are those section 3.2.2.2 of RFC 8785 asks for: two bytes for the quote, the backslash
   * and the five controls with a letter, six with lower-case hex for the other controls, none else.
   */
  lemma {:induction false} EscapesAreCanonical(c: char)
    ensures var e, n := EscapeChar(c), c as int;
            && Unescape(e) == c
            && |e| == (if c == '"' || c == '\\' || n == 8 || n == 9 || n == 10 || n == 12 || n == 13 then 2
                       else if n < 32 then 6 else 1)
            && (|e| > 1 ==> e[0] == '\\')
            && (|e| == 6 ==> e[1] == 'u' && e[2] == '0' && e[3] == '0'
                             && forall k :: 4 <= k < 6 ==> '0' <= e[k] <= '9' || 'a' <= e[k] <= 'f')
  {
  }

  lemma {:induction false} EscapeNotQuote(c: char)
    ensures EscapeChar(c)[0] != '"' && EscapeChar(c)[0] as int >= 32
  {
  }

  lemma {:induction false} EscapeRead(e: string, u: string, c: char, s: string, x: string)
    requires (|e| == 1 || |e| == 2 || |e| == 6) && e[0] != '"' && e[0] as int >= 32 && Unescape(e) == c
    requires (|e| == 1 <==> e[0] != '\\') && (|e| == 6 <==> |e| > 1 && e[1] == 'u')
    requires ReadString(u) == Some(Read(s, x))
    ensures ReadString(e + u) == Some(Read([c] + s, x))
  {
    var t := e + u;
    assert t[..|e|] == e && t[|e|..] == u && t[0] == e[0] && (|e| > 1 ==> t[1] == e[1]);
    hide Unescape;
  }

  lemma {:induction false} DigitRunOver(d: string, x: string)
    requires (forall i :: 0 <= i < |d| ==> IsDigit(d[i])) && (x != "" ==> !IsDigit(x[0]))
    ensures DigitRun(d + x) == |d|
  {
    if d == "" {
      assert d + x == x;
    } else {
      assert (d + x)[1..] == d[1..] + x;
      DigitRunOver(d[1..], x);
    }
  }

  lemma {:induction false} DigitsRead(n: nat, x: string)
    requires Ends(x)
    ensures ReadDigits(NatText(n) + x) == Some(Read(n, x))
  {
    var d, t := NatText(n), NatText(n) + x;
    NatTextVal(n);
    DigitRunOver(d, x);
    hide NatText, NatVal, DigitRun;
    assert t[..|d|] == d && t[|d|..] == x;
  }

  lemma {:induction false} IntRead(n: SafeInt, x: string)
    requires Ends(x)
    ensures ReadInt(IntText(n) + x) == Some(Read(Num(n), x))
  {
    IntHead(n, x);
    DigitsRead(if n < 0 then -n else n, x);
    hide NatText, ReadDigits;
  }

  lemma {:induction false} IntStart(n: int, x: string)
    ensures var t := IntText(n) + x; t != "" && (t[0] == '-' || '0' <= t[0] <= '9')
  {
    hide NatText;
    assert (IntText(n) + x)[0] == IntText(n)[0];
  }

  /** The canonical text, with anything behind it that may follow a value, is read as the ordered value. */
  lemma {:induction false} CanonIsRead(v: Json, x: string)
    requires Supported(v) && Ends(x)
    ensures ReadValue(Canon(v) + x) == Some(Read(Ordered(v), x))
    decreases v, 1
  {
    match v {
      case Null => assert ("null" + x)[4..] == x;
      case Bool(b) => WordRead(b, x);
      case Num(n) => NumRead(n, x);
      case Str(s) => QuotedRead(s, x);
      case Arr(items) =>
        if items != [] { ItemsRead(items, x); }
        ArrRead(items, x);
      case Obj(ms) =>
        var ks := SortKeys(Keys(ms));
        if ks != [] { MembersRead(ms, ks, x); }
        ObjRead(ms, x);
    }
  }

  lemma {:induction false} NumRead(n: SafeInt, x: string)
    requires Ends(x)
    ensures ReadValue(Canon(Num(n)) + x) == Some(Read(Num(n), x))
  {
    IntStart(n, x);
    IntRead(n, x);
    hide ReadInt, IntText;
  }

  lemma {:induction false} WordRead(b: bool, x: string)
    ensures ReadValue(Canon(Bool(b)) + x) == Some(Read(Bool(b), x))
  {
    if b {
      assert ("true" + x)[4..] == x;
    } else {
      assert ("false" + x)[5..] == x;
    }
  }

  lemma {:induction false} QuotedRead(s: string, x: string)
    ensures (Quoted(s) + x)[0] == '"' && ReadString((Quoted(s) + x)[1..]) == Some(Read(s, x))
    ensures ReadValue(Canon(Str(s)) + x) == Some(Read(Str(s), x))
  {
    StringRead(s, x);
    hide EscapeBody, ReadString;
    assert (Quoted(s) + x)[1..] == EscapeBody(s) + "\"" + x;
  }

  lemma {:induction false} ArrRead(items: seq<Json>, x: string)
    requires items != [] ==>
               && ReadItems(CanonItems(items) + "]" + x) == Some(Read(OrderedItems(items), x))
               && CanonItems(items) != "" && CanonItems(items)[0] != ']'
    ensures ReadValue(Canon(Arr(items)) + x) == Some(Read(Ordered(Arr(items)), x))
  {
    ArrText(items, x);
    var t := "[" + (CanonItems(items) + "]" + x);
    if items == [] {
      assert t[2..] == x && "[]" <= t;
    } else {
      assert t[1..] == CanonItems(items) + "]" + x && t[1] == CanonItems(items)[0];
    }
    hide Canon, CanonItems, OrderedItems, ReadItems;
  }

  lemma {:induction false} ItemsRead(items: seq<Json>, x: string)
    requires items != [] && forall i :: 0 <= i < |items| ==> Supported(items[i])
    ensures ReadItems(CanonItems(items) + "]" + x) == Some(Read(OrderedItems(items), x))
    ensures CanonItems(items) != "" && CanonItems(items)[0] != ']'
    decreases items, 0
  {
    ItemsText(items, x);
    var after := AfterItem(items, x);
    CanonIsRead(items[0], after);
    CanonStart(items[0]);
    var t := CanonItems(items) + "]" + x;
    assert CanonItems(items)[0] == Canon(items[0])[0];
    if |items| > 1 { ItemsRead(items[1..], x); }
    hide Canon, CanonItems, Supported, ReadValue;
    if |items| == 1 {
      assert after[1..] == x;
      assert OrderedItems(items) == [Ordered(items[0])] + OrderedItems(items[1..]) == [Ordered(items[0])];
    } else {
      assert after[1..] == CanonItems(items[1..]) + "]" + x;
    }
  }

  /** A value never starts like the end of a list. */
  lemma {:induction false} CanonStart(v: Json)
    ensures Canon(v)[0] != ']'
  {
    if v.Num? { IntStart(v.n, ""); }
  }

  lemma {:induction false} ObjRead(ms: seq<Member>, x: string)
    requires var ks := SortKeys(Keys(ms));
             ks != [] ==>
               && ReadMembers(CanonMembers(ms, ks) + "}" + x) == Some(Read(OrderedMembers(ms, ks), x))
               && CanonMembers(ms, ks) != "" && CanonMembers(ms, ks)[0] == '"'
    ensures ReadValue(Canon(Obj(ms)) + x) == Some(Read(Ordered(Obj(ms)), x))
  {
    ObjText(ms, x);
    BracesRead(ms, SortKeys(Keys(ms)), x);
    assert Ordered(Obj(ms)) == Obj(OrderedMembers(ms, SortKeys(Keys(ms))));
    hide *;
  }

  lemma {:induction false} BracesRead(ms: seq<Member>, ks: seq<string>, x: string)
    requires forall k :: k in ks ==> k in Keys(ms)
    requires ks != [] ==>
               && ReadMembers(CanonMembers(ms, ks) + "}" + x) == Some(Read(OrderedMembers(ms, ks), x))
               && CanonMembers(ms, ks) != "" && CanonMembers(ms, ks)[0] == '"'
    ensures ReadValue("{" + (CanonMembers(ms, ks) + "}" + x)) == Some(Read(Obj(OrderedMembers(ms, ks)), x))
  {
    var t := "{" + (CanonMembers(ms, ks) + "}" + x);
    if ks == [] {
      EmptyBraces(x);
      assert CanonMembers(ms, ks) == "" && OrderedMembers(ms, ks) == [];
    } else {
      assert t[1..] == CanonMembers(ms, ks) + "}" + x && t[1] == CanonMembers(ms, ks)[0];
      hide CanonMembers, OrderedMembers, ReadMembers;
    }
  }

  lemma {:induction false} EmptyBraces(x: string)
    ensures ReadValue("{" + ("" + "}" + x)) == Some(Read(Obj([]), x))
  {
    var t := "{" + ("" + "}" + x);
    assert t[2..] == x && "{}" <= t;
    hide ReadMembers;
  }

  lemma {:induction false} MembersRead(ms: seq<Member>, ks: seq<string>, x: string)
    requires ks != [] && forall k :: k in ks ==> k in Keys(ms) && Supported(Lookup(ms, k))
    ensures ReadMembers(CanonMembers(ms, ks) + "}" + x) == Some(Read(OrderedMembers(ms, ks), x))
    ensures CanonMembers(ms, ks) != "" && CanonMembers(ms, ks)[0] == '"'
    decreases ms, |ks|
  {
    var v, after := Lookup(ms, ks[0]), AfterMember(ms, ks, x);
    MembersStart(ms, ks);
    MembersText(ms, ks, x);
    CanonIsRead(v, after);
    hide Canon, CanonMembers, Supported, Lookup, AfterMember, OrderedMembers;
    MemberRead(ks[0], v, after);
    if |ks| > 1 { MembersRead(ms, ks[1..], x); }
    MembersNext(ms, ks, x, CanonMembers(ms, ks) + "}" + x);
  }

  lemma {:induction false} MembersStart(ms: seq<Member>, ks: seq<string>)
    requires ks != [] && forall k :: k in ks ==> k in Keys(ms)
    ensures CanonMembers(ms, ks) != "" && CanonMembers(ms, ks)[0] == '"'
  {
    hide Canon, Lookup;
    assert CanonMembers(ms, ks)[0] == Quoted(ks[0])[0];
  }

  lemma {:induction false} MembersNext(ms: seq<Member>, ks: seq<string>, x: string, t: string)
    requires ks != [] && forall k :: k in ks ==> k in Keys(ms)
    requires var after := AfterMember(ms, ks, x);
             ReadMember(t) == Some(Read(Member(ks[0], Ordered(Lookup(ms, ks[0]))), after))
    requires |ks| > 1 ==>
               ReadMembers(CanonMembers(ms, ks[1..]) + "}" + x) == Some(Read(OrderedMembers(ms, ks[1..]), x))
    ensures ReadMembers(t) == Some(Read(OrderedMembers(ms, ks), x))
  {
    var after := AfterMember(ms, ks, x);
    assert after[1..] == if |ks| == 1 then x else CanonMembers(ms, ks[1..]) + "}" + x;
    var m := Member(ks[0], Ordered(Lookup(ms, ks[0])));
    assert OrderedMembers(ms, ks) == [m] + OrderedMembers(ms, ks[1..]);
    assert |ks| == 1 ==> OrderedMembers(ms, ks[1..]) == [] && OrderedMembers(ms, ks) == [m];
    hide CanonMembers, ReadMember, Lookup, Ordered, OrderedMembers;
  }

  lemma {:induction false} MemberRead(k: string, v: Json, after: string)
    requires ReadValue(Canon(v) + after) == Some(Read(Ordered(v), after))
    ensures ReadMember(Quoted(k) + (":" + (Canon(v) + after))) == Some(Read(Member(k, Ordered(v)), after))
  {
    QuotedRead(k, ":" + (Canon(v) + after));
    hide Canon, ReadValue, Quoted, ReadString;
    assert (":" + (Canon(v) + after))[1..] == Canon(v) + after;
  }

  /** Reading the canonical text gives the value back, its members in order, with nothing behind. */
  lemma {:induction false} CanonRoundTrip(v: Json)
    requires Supported(v)
    ensures ReadValue(Canon(v)) == Some(Read(Ordered(v), ""))
  {
    CanonIsRead(v, "");
    assert Canon(v) + "" == Canon(v);
  }
}
