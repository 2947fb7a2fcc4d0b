/**
 * RFC 8785 canonicalization of a JSON tree (src/crypto/jcs.c), and what it is for: the
 * canonical bytes do not depend on member order and determine the value.
 */
module Jcs {
  import opened Text
  import opened Numbers

  /**
   * A cJSON tree. Numbers are the safe integers; `Unsupported` is a node the code refuses
   * (a raw or invalid node, or a number that is not finite). Objects keep their members in
   * stored order and may repeat a key.
   */
  datatype Json =
    | Null
    | Bool(b: bool)
    | Num(n: SafeInt)
    | Str(s: string)
    | Arr(items: seq<Json>)
    | Obj(members: seq<Member>)
    | Unsupported

  datatype Member = Member(key: string, value: Json)

  const SAFE_MAX := 9007199254740991

  /** The integers a double holds exactly, which are printed as integers. */
  type SafeInt = n: int | -SAFE_MAX <= n <= SAFE_MAX

  // ------------------------------------------------------------------ scalars

  function HexDigit(n: nat): (c: char)
    requires n < 16
  {
    "0123456789abcdef"[n]
  }

  /** What one byte of a string becomes. */
  function EscapeChar(c: char): (s: string)
    ensures s != ""
  {
    if c == '"' then "\\\""
    else if c == '\\' then "\\\\"
    else if c as int == 8 then "\\b"
    else if c as int == 12 then "\\f"
    else if c == '\n' then "\\n"
    else if c == '\r' then "\\r"
    else if c == '\t' then "\\t"
    else if (c as int) < 32 then ['\\', 'u', '0', '0', HexDigit(c as int / 16), HexDigit(c as int % 16)]
    else [c]
  }

  function EscapeBody(s: string): (r: string)
  {
    if s == "" then "" else EscapeChar(s[0]) + EscapeBody(s[1..])
  }

  function Quoted(s: string): (r: string)
    ensures r != "" && r[0] == '"'
  {
    "\"" + EscapeBody(s) + "\""
  }

  // --------------------------------------------------------------------- keys

  function Keys(ms: seq<Member>): (ks: seq<string>)
    ensures |ks| == |ms|
    ensures forall i :: 0 <= i < |ms| ==> ks[i] == ms[i].key
  {
    if ms == [] then [] else [ms[0].key] + Keys(ms[1..])
  }

  /** Insertion by `strcmp` order; equal keys keep their order. */
  function InsertKey(k: string, ks: seq<string>): (r: seq<string>)
    ensures multiset(r) == multiset(ks) + multiset{k}
  {
    if ks == [] || Less(k, ks[0]) then [k] + ks
    else
      assert ks == [ks[0]] + ks[1..];
      [ks[0]] + InsertKey(k, ks[1..])
  }

  /** The array of keys after `qsort` by `strcmp`. */
  function SortKeys(ks: seq<string>): (r: seq<string>)
    ensures multiset(r) == multiset(ks)
    ensures forall k :: k in r <==> k in ks
  {
    if ks == [] then []
    else
      assert ks == [ks[0]] + ks[1..];
      var r := InsertKey(ks[0], SortKeys(ks[1..]));
      assert multiset(r) == multiset(ks);
      assert forall k :: k in r <==> k in multiset(r);
      r
  }

  /** The first member with the key, as the lookup finds it. */
  function Lookup(ms: seq<Member>, k: string): (v: Json)
    requires k in Keys(ms)
    ensures exists i :: 0 <= i < |ms| && ms[i] == Member(k, v)
  {
    if ms[0].key == k then
      assert ms[0] == Member(k, ms[0].value);
      ms[0].value
    else
      var v := Lookup(ms[1..], k);
      var i :| 0 <= i < |ms[1..]| && ms[1..][i] == Member(k, v);
      assert ms[i + 1] == Member(k, v);
      v
  }

  // -------------------------------------------------------------- serialization

  /** No node that is written is one the code refuses. */
  predicate Supported(v: Json)
  {
    match v
    case Unsupported => false
    case Arr(items) => forall i :: 0 <= i < |items| ==> Supported(items[i])
    case Obj(ms) => forall k :: k in Keys(ms) ==> Supported(Lookup(ms, k))
    case _ => true
  }

  /** The canonical bytes of a tree. */
  function Canon(v: Json): (s: string)
    ensures s != ""
    decreases v, 0
  {
    match v
    case Null => "null"
    case Bool(b) => if b then "true" else "false"
    case Num(n) => IntText(n)
    case Str(s) => Quoted(s)
    case Arr(items) => "[" + CanonItems(items) + "]"
    case Obj(ms) => "{" + CanonMembers(ms, SortKeys(Keys(ms))) + "}"
    case Unsupported => "?"
  }

  function CanonItems(items: seq<Json>): (s: string)
    decreases items, 0
  {
    if items == [] then ""
    else if |items| == 1 then Canon(items[0])
    else Canon(items[0]) + "," + CanonItems(items[1..])
  }

  /** The members looked up by `ks`, in that order. */
  function CanonMembers(ms: seq<Member>, ks: seq<string>): (s: string)
    requires forall k :: k in ks ==> k in Keys(ms)
    decreases ms, |ks|
  {
    if ks == [] then ""
    else
      var v := Lookup(ms, ks[0]);
      var rest := CanonMembers(ms, ks[1..]);
      Quoted(ks[0]) + ":" + Canon(v) + (if |ks| == 1 then "" else "," + rest)
  }

  // ------------------------------------------------------- prefix-free scalars

  /** The byte an escape stands for, read off its length and its significant characters. */
  function Unescape(e: string): (c: char)
    requires |e| == 1 || |e| == 2 || |e| == 6
  {
    if |e| == 1 then e[0]
    else if |e| == 2 then
      match e[1]
      case 'b' => 8 as char
      case 'f' => 12 as char
      case 'n' => '\n'
      case 'r' => '\r'
      case 't' => '\t'
      case x => x
    else (HexValue(e[4]) * 16 + HexValue(e[5])) as char
  }

  function HexValue(c: char): (n: nat)
    ensures n < 16
  {
    if '0' <= c <= '9' then (c - '0') as int else if 'a' <= c <= 'f' then (c - 'a') as int + 10 else 0
  }

  lemma {:induction false} EscapeShape(c: char)
    ensures var e := EscapeChar(c);
            && (|e| == 1 || |e| == 2 || |e| == 6)
            && (|e| == 1 <==> e[0] != '\\')
            && (|e| == 6 <==> |e| > 1 && e[1] == 'u')
            && Unescape(e) == c
  {
  }

  /** The escapes are a prefix code, and none begins with the closing quote. */
  lemma {:induction false} EscapePrefix(c: char, d: char, u: string, v: string)
    requires EscapeChar(c) + u == EscapeChar(d) + v
    ensures c == d && u == v
  {
    var e, f := EscapeChar(c), EscapeChar(d);
    assert e[0] == (e + u)[0] == (f + v)[0] == f[0];
    EscapeShape(c);
    EscapeShape(d);
    hide EscapeChar;
    if |e| > 1 {
      assert e[1] == (e + u)[1] == (f + v)[1] == f[1];
      if |e| > 2 {
        assert e[4] == (e + u)[4] == (f + v)[4] == f[4];
        assert e[5] == (e + u)[5] == (f + v)[5] == f[5];
      }
    }
    assert u == (e + u)[|e|..] && v == (f + v)[|f|..];
  }

  /** Only the end of a string body shows a bare quote. */
  lemma {:induction false} BodyHead(s: string, x: string)
    ensures (EscapeBody(s) + "\"" + x)[0] == '"' <==> s == ""
  {
    if s != "" {
      assert (EscapeBody(s) + "\"" + x)[0] == EscapeChar(s[0])[0];
    }
  }

  lemma {:induction false} BodyPrefix(s: string, t: string, x: string, y: string)
    requires EscapeBody(s) + "\"" + x == EscapeBody(t) + "\"" + y
    ensures s == t && x == y
  {
    var p, q := EscapeBody(s) + "\"" + x, EscapeBody(t) + "\"" + y;
    hide EscapeChar;
    BodyHead(s, x);
    BodyHead(t, y);
    if s == "" {
      assert x == p[1..] && y == q[1..];
    } else {
      var u, v := EscapeBody(s[1..]) + "\"" + x, EscapeBody(t[1..]) + "\"" + y;
      assert p == EscapeChar(s[0]) + u && q == EscapeChar(t[0]) + v;
      EscapePrefix(s[0], t[0], u, v);
      BodyPrefix(s[1..], t[1..], x, y);
      assert s == [s[0]] + s[1..] && t == [t[0]] + t[1..];
    }
  }

  /** Strings delimit themselves. */
  lemma {:induction false} QuotedPrefix(s: string, t: string, x: string, y: string)
    requires Quoted(s) + x == Quoted(t) + y
    ensures s == t && x == y
  {
    hide EscapeBody;
    assert EscapeBody(s) + "\"" + x == (Quoted(s) + x)[1..] == (Quoted(t) + y)[1..] == EscapeBody(t) + "\"" + y;
    BodyPrefix(s, t, x, y);
  }

  /** What may follow a value inside a canonical text. */
  predicate Ends(x: string)
  {
    x == "" || x[0] == ',' || x[0] == ']' || x[0] == '}'
  }

  lemma {:induction false} DigitsPrefix(p: string, q: string, x: string, y: string)
    requires forall i :: 0 <= i < |p| ==> IsDigit(p[i])
    requires forall i :: 0 <= i < |q| ==> IsDigit(q[i])
    requires Ends(x) && Ends(y) && p + x == q + y
    ensures p == q && x == y
  {
    var w := p + x;
    assert forall i :: 0 <= i < |q| ==> (q + y)[i] == q[i];
    assert forall i :: 0 <= i < |p| ==> w[i] == p[i];
    assert x != "" ==> w[|p|] == x[0];
    assert y != "" ==> (q + y)[|q|] == y[0];
    assert |p| == |q|;
    assert p == w[..|p|] && q == w[..|q|] && x == w[|p|..] && y == w[|q|..];
  }

  lemma {:induction false} IntHead(n: int, x: string)
    ensures (IntText(n) + x)[0] == '-' <==> n < 0
    ensures n < 0 ==> (IntText(n) + x)[1..] == NatText(-n) + x
  {
    hide NatText;
    assert (IntText(n) + x)[0] == IntText(n)[0];
  }

  lemma {:induction false} IntPrefix(n: int, m: int, x: string, y: string)
    requires Ends(x) && Ends(y) && IntText(n) + x == IntText(m) + y
    ensures n == m && x == y
  {
    IntHead(n, x);
    IntHead(m, y);
    var a, b := if n < 0 then -n else n, if m < 0 then -m else m;
    assert NatText(a) + x == NatText(b) + y;
    hide NatText, NatVal, IntText;
    DigitsPrefix(NatText(a), NatText(b), x, y);
    NatTextVal(a);
    NatTextVal(b);
  }

  // ------------------------------------------------------------ equal values

  predicate DistinctKeys(ms: seq<Member>)
  {
    forall i, j :: 0 <= i < j < |ms| ==> ms[i].key != ms[j].key
  }

  /** A tree of supported nodes in which no object repeats a key. */
  predicate Good(v: Json)
  {
    match v
    case Unsupported => false
    case Arr(items) => forall i :: 0 <= i < |items| ==> Good(items[i])
    case Obj(ms) => DistinctKeys(ms) && forall i :: 0 <= i < |ms| ==> Good(ms[i].value)
    case _ => true
  }

  /** Equal up to member order at every depth. */
  predicate Same(a: Json, b: Json)
  {
    match a
    case Arr(p) => b.Arr? && |p| == |b.items| && forall i :: 0 <= i < |p| ==> Same(p[i], b.items[i])
    case Obj(ms) => b.Obj? && |ms| == |b.members| && forall i :: 0 <= i < |ms| ==> SameMember(ms[i], b.members)
    case _ => a == b
  }

  predicate SameMember(m: Member, ns: seq<Member>)
    decreases m, 0
  {
    exists j :: 0 <= j < |ns| && ns[j].key == m.key && Same(m.value, ns[j].value)
  }

  lemma {:induction false} LookupAt(ms: seq<Member>, i: nat)
    requires i < |ms| && DistinctKeys(ms)
    ensures ms[i].key in Keys(ms) && Lookup(ms, ms[i].key) == ms[i].value
  {
    assert Keys(ms)[i] == ms[i].key;
    if i > 0 {
      LookupAt(ms[1..], i - 1);
      assert ms[0].key != ms[i].key;
    }
  }

  // ---------------------------------------------------------- the bytes decide

  function HeadKind(c: char): (n: nat)
  {
    match c
    case 'n' => 0
    case 't' => 1
    case 'f' => 2
    case '"' => 3
    case '[' => 4
    case '{' => 5
    case ']' => 7
    case '}' => 7
    case _ => 6
  }

  function Kind(v: Json): (n: nat)
    ensures n < 7
  {
    match v
    case Null => 0
    case Bool(b) => if b then 1 else 2
    case Str(_) => 3
    case Arr(_) => 4
    case Obj(_) => 5
    case Num(_) => 6
    case Unsupported => 6
  }

  /** The first byte tells what kind of value follows. */
  lemma {:induction false} CanonHead(v: Json, x: string)
    ensures HeadKind((Canon(v) + x)[0]) == Kind(v)
  {
    hide CanonItems, CanonMembers, EscapeBody, NatText;
    assert (Canon(v) + x)[0] == Canon(v)[0];
  }

  lemma {:induction false} DropHead(c: string, u: string, v: string)
    requires c + u == c + v
    ensures u == v
  {
    assert u == (c + u)[|c|..] && v == (c + v)[|c|..];
  }

  lemma {:induction false} CanonPrefix(a: Json, b: Json, x: string, y: string)
    requires Good(a) && Good(b) && Ends(x) && Ends(y)
    requires Canon(a) + x == Canon(b) + y
    ensures Same(a, b) && x == y
    decreases a, 1
  {
    CanonHead(a, x);
    CanonHead(b, y);
    assert Kind(a) == Kind(b);
    match a {
      case Num(n) =>
        IntPrefix(n, b.n, x, y);
      case Str(s) =>
        QuotedPrefix(s, b.s, x, y);
      case Arr(p) =>
        ArrText(p, x);
        ArrText(b.items, y);
        DropHead("[", CanonItems(p) + "]" + x, CanonItems(b.items) + "]" + y);
        ItemsPrefix(p, b.items, x, y);
      case Obj(ms) =>
        var ks, ls := SortKeys(Keys(ms)), SortKeys(Keys(b.members));
        ObjText(ms, x);
        ObjText(b.members, y);
        DropHead("{", CanonMembers(ms, ks) + "}" + x, CanonMembers(b.members, ls) + "}" + y);
        MembersPrefix(ms, b.members, ks, ls, x, y);
        SameObjects(ms, b.members);
      case Null =>
        DropHead("null", x, y);
      case Bool(_) =>
        DropHead(Canon(a), x, y);
    }
  }

  lemma {:induction false} ArrText(p: seq<Json>, x: string)
    ensures Canon(Arr(p)) + x == "[" + (CanonItems(p) + "]" + x)
  {
  }

  lemma {:induction false} ObjText(ms: seq<Member>, x: string)
    ensures Canon(Obj(ms)) + x == "{" + (CanonMembers(ms, SortKeys(Keys(ms))) + "}" + x)
  {
  }

  /** What follows the first item, up to and with `x`. */
  function AfterItem(p: seq<Json>, x: string): (s: string)
    requires p != []
    ensures Ends(s)
  {
    if |p| == 1 then "]" + x else "," + (CanonItems(p[1..]) + "]" + x)
  }

  lemma {:induction false} ItemsText(p: seq<Json>, x: string)
    requires p != []
    ensures CanonItems(p) + "]" + x == Canon(p[0]) + AfterItem(p, x)
  {
  }

  lemma {:induction false} ItemsHead(p: seq<Json>, x: string)
    ensures (CanonItems(p) + "]" + x)[0] == ']' <==> p == []
  {
    if p != [] {
      ItemsText(p, x);
      CanonHead(p[0], AfterItem(p, x));
    }
  }

  lemma {:induction false} ItemsPrefix(p: seq<Json>, q: seq<Json>, x: string, y: string)
    requires forall i :: 0 <= i < |p| ==> Good(p[i])
    requires forall i :: 0 <= i < |q| ==> Good(q[i])
    requires Ends(x) && Ends(y)
    requires CanonItems(p) + "]" + x == CanonItems(q) + "]" + y
    ensures |p| == |q| && (forall i :: 0 <= i < |p| ==> Same(p[i], q[i])) && x == y
    decreases p, 0
  {
    ItemsHead(p, x);
    ItemsHead(q, y);
    if p == [] {
      assert CanonItems([]) + "]" + x == "]" + x && CanonItems([]) + "]" + y == "]" + y;
      DropHead("]", x, y);
    } else {
      ItemsText(p, x);
      ItemsText(q, y);
      hide Canon, CanonItems, Good, Same;
      CanonPrefix(p[0], q[0], AfterItem(p, x), AfterItem(q, y));
      if |p| == 1 {
        DropHead("]", x, y);
      } else {
        DropHead(",", CanonItems(p[1..]) + "]" + x, CanonItems(q[1..]) + "]" + y);
        ItemsPrefix(p[1..], q[1..], x, y);
        assert forall i :: 1 <= i < |p| ==> p[i] == p[1..][i - 1] && q[i] == q[1..][i - 1];
      }
    }
  }

  /** What follows the first member, up to and with `x`. */
  function AfterMember(ms: seq<Member>, ks: seq<string>, x: string): (s: string)
    requires ks != [] && forall k :: k in ks ==> k in Keys(ms)
    ensures Ends(s)
  {
    if |ks| == 1 then "}" + x else "," + (CanonMembers(ms, ks[1..]) + "}" + x)
  }

  lemma {:induction false} MembersText(ms: seq<Member>, ks: seq<string>, x: string)
    requires ks != [] && forall k :: k in ks ==> k in Keys(ms)
    ensures CanonMembers(ms, ks) + "}" + x ==
              Quoted(ks[0]) + (":" + (Canon(Lookup(ms, ks[0])) + AfterMember(ms, ks, x)))
  {
    hide Quoted, Canon, Lookup;
  }

  lemma {:induction false} MembersHead(ms: seq<Member>, ks: seq<string>, x: string)
    requires forall k :: k in ks ==> k in Keys(ms)
    ensures (CanonMembers(ms, ks) + "}" + x)[0] == '}' <==> ks == []
  {
    if ks != [] {
      MembersText(ms, ks, x);
      hide Canon, CanonMembers, Lookup, EscapeBody;
    }
  }

  lemma {:induction false} MembersPrefix(ms: seq<Member>, ns: seq<Member>, ks: seq<string>, ls: seq<string>,
                                         x: string, y: string)
    requires forall i :: 0 <= i < |ms| ==> Good(ms[i].value)
    requires forall i :: 0 <= i < |ns| ==> Good(ns[i].value)
    requires forall k :: k in ks ==> k in Keys(ms)
    requires forall k :: k in ls ==> k in Keys(ns)
    requires Ends(x) && Ends(y)
    requires CanonMembers(ms, ks) + "}" + x == CanonMembers(ns, ls) + "}" + y
    ensures ks == ls && x == y
    ensures forall k :: k in ks ==> k in Keys(ms) && k in Keys(ns) && Same(Lookup(ms, k), Lookup(ns, k))
    decreases ms, |ks|, 1
  {
    MembersHead(ms, ks, x);
    MembersHead(ns, ls, y);
    if ks == [] {
      assert CanonMembers(ms, []) + "}" + x == "}" + x && CanonMembers(ns, []) + "}" + y == "}" + y;
      DropHead("}", x, y);
    } else {
      MembersText(ms, ks, x);
      MembersText(ns, ls, y);
      var v, w := Lookup(ms, ks[0]), Lookup(ns, ls[0]);
      hide Canon, CanonMembers, Good, Same, Quoted, Lookup, Keys;
      QuotedPrefix(ks[0], ls[0], ":" + (Canon(v) + AfterMember(ms, ks, x)), ":" + (Canon(w) + AfterMember(ns, ls, y)));
      DropHead(":", Canon(v) + AfterMember(ms, ks, x), Canon(w) + AfterMember(ns, ls, y));
      CanonPrefix(v, w, AfterMember(ms, ks, x), AfterMember(ns, ls, y));
      MembersRest(ms, ns, ks, ls, x, y);
    }
  }

  lemma {:induction false} MembersRest(ms: seq<Member>, ns: seq<Member>, ks: seq<string>, ls: seq<string>, x: string,
                                       y: string)
    requires forall i :: 0 <= i < |ms| ==> Good(ms[i].value)
    requires forall i :: 0 <= i < |ns| ==> Good(ns[i].value)
    requires ks != [] && ls != []
    requires forall k :: k in ks ==> k in Keys(ms)
    requires forall k :: k in ls ==> k in Keys(ns)
    requires Ends(x) && Ends(y) && ks[0] == ls[0]
    requires Same(Lookup(ms, ks[0]), Lookup(ns, ls[0]))
    requires AfterMember(ms, ks, x) == AfterMember(ns, ls, y)
    ensures ks == ls && x == y
    ensures forall k :: k in ks ==> k in Keys(ms) && k in Keys(ns) && Same(Lookup(ms, k), Lookup(ns, k))
    decreases ms, |ks|, 0
  {
    hide Canon, CanonMembers, Good, Same, Lookup, Keys;
    if |ks| == 1 {
      DropHead("}", x, y);
    } else {
      DropHead(",", CanonMembers(ms, ks[1..]) + "}" + x, CanonMembers(ns, ls[1..]) + "}" + y);
      MembersPrefix(ms, ns, ks[1..], ls[1..], x, y);
    }
    assert ks == [ks[0]] + ks[1..] && ls == [ls[0]] + ls[1..];
  }

  lemma {:induction false} SameObjects(ms: seq<Member>, ns: seq<Member>)
    requires DistinctKeys(ms) && DistinctKeys(ns)
    requires SortKeys(Keys(ms)) == SortKeys(Keys(ns))
    requires forall k :: k in SortKeys(Keys(ms)) ==>
               k in Keys(ms) && k in Keys(ns) && Same(Lookup(ms, k), Lookup(ns, k))
    ensures Same(Obj(ms), Obj(ns))
  {
    assert |ms| == |ns| by {
      assert |Keys(ms)| == |multiset(Keys(ms))| == |multiset(Keys(ns))| == |Keys(ns)|;
    }
    forall i | 0 <= i < |ms| ensures SameMember(ms[i], ns) {
      LookupAt(ms, i);
      assert ms[i].key in SortKeys(Keys(ms));
      var j :| 0 <= j < |ns| && ns[j] == Member(ms[i].key, Lookup(ns, ms[i].key));
    }
  }

  // ------------------------------------------------------ the order does not

  predicate StrictlySorted(ks: seq<string>)
  {
    forall i, j :: 0 <= i < j < |ks| ==> Less(ks[i], ks[j])
  }

  lemma {:induction false} InsertSorted(k: string, ks: seq<string>)
    requires StrictlySorted(ks) && k !in ks
    ensures StrictlySorted(InsertKey(k, ks))
  {
    if ks != [] && !Less(k, ks[0]) {
      var rest := InsertKey(k, ks[1..]);
      InsertSorted(k, ks[1..]);
      LessTrichotomy(k, ks[0]);
      assert forall e :: e in multiset(rest) ==> e in ks[1..] || e == k;
      forall j | 0 <= j < |rest| ensures Less(ks[0], rest[j]) {
        assert rest[j] in multiset(rest);
      }
    } else if ks != [] {
      forall j | 0 <= j < |ks| ensures Less(k, ks[j]) {
        if j > 0 { LessTransitive(k, ks[0], ks[j]); }
      }
    }
  }

  lemma {:induction false} SortSorted(ks: seq<string>)
    requires forall i, j :: 0 <= i < j < |ks| ==> ks[i] != ks[j]
    ensures StrictlySorted(SortKeys(ks))
  {
    if ks != [] {
      SortSorted(ks[1..]);
      assert ks[0] !in ks[1..];
      InsertSorted(ks[0], SortKeys(ks[1..]));
    }
  }

  /** There is one way to sort a set of keys. */
  lemma {:induction false} SortedUnique(ks: seq<string>, ls: seq<string>)
    requires StrictlySorted(ks) && StrictlySorted(ls)
    requires forall k :: k in ks <==> k in ls
    ensures ks == ls
  {
    if ls != [] { assert ls[0] in ks; }
    if ks != [] {
      assert ks[0] in ls;
      var i :| 0 <= i < |ls| && ls[i] == ks[0];
      var j :| 0 <= j < |ks| && ks[j] == ls[0];
      LessTrichotomy(ks[0], ls[0]);
      assert ks[0] == ls[0];
      forall k ensures k in ks[1..] <==> k in ls[1..] {
        LessTrichotomy(ks[0], ks[0]);
        assert ks[0] !in ks[1..] && ls[0] !in ls[1..];
        assert k in ks <==> k == ks[0] || k in ks[1..];
        assert k in ls <==> k == ls[0] || k in ls[1..];
      }
      SortedUnique(ks[1..], ls[1..]);
      assert ks == [ks[0]] + ks[1..] && ls == [ls[0]] + ls[1..];
    }
  }

  /** Injecting distinct keys into a list no longer than theirs covers it. */
  lemma {:induction false} KeysCovered(ks: seq<string>, ls: seq<string>)
    requires forall i, j :: 0 <= i < j < |ks| ==> ks[i] != ks[j]
    requires |ls| <= |ks| && forall k :: k in ks ==> k in ls
    ensures forall l :: l in ls ==> l in ks
  {
    if ks != [] {
      assert ks[0] in ks && ks[0] in ls;
      var i :| 0 <= i < |ls| && ls[i] == ks[0];
      var rest := ls[..i] + ls[i + 1..];
      forall k | k in ks[1..] ensures k in rest {
        assert k in ks && k in ls && k != ks[0];
        var j :| 0 <= j < |ls| && ls[j] == k;
        assert rest[if j < i then j else j - 1] == k;
      }
      KeysCovered(ks[1..], rest);
      forall l | l in ls ensures l in ks {
        if l != ks[0] {
          var j :| 0 <= j < |ls| && ls[j] == l;
          assert rest[if j < i then j else j - 1] == l;
          assert l in ks[1..];
        }
      }
    }
  }

  lemma {:induction false} SameKeysSorted(ms: seq<Member>, ns: seq<Member>)
    requires DistinctKeys(ms) && DistinctKeys(ns) && Same(Obj(ms), Obj(ns))
    ensures SortKeys(Keys(ms)) == SortKeys(Keys(ns))
  {
    forall k | k in Keys(ms) ensures k in Keys(ns) {
      var i :| 0 <= i < |ms| && Keys(ms)[i] == k;
      assert SameMember(ms[i], ns);
      var j :| 0 <= j < |ns| && ns[j].key == ms[i].key;
      assert Keys(ns)[j] == k;
    }
    hide Same, Keys, SortKeys;
    KeysCovered(Keys(ms), Keys(ns));
    SortSorted(Keys(ms));
    SortSorted(Keys(ns));
    SortedUnique(SortKeys(Keys(ms)), SortKeys(Keys(ns)));
  }

  lemma {:induction false} SameLookup(ms: seq<Member>, ns: seq<Member>, k: string)
    requires DistinctKeys(ms) && DistinctKeys(ns) && Same(Obj(ms), Obj(ns)) && k in Keys(ms)
    ensures k in Keys(ns) && Same(Lookup(ms, k), Lookup(ns, k))
  {
    var i :| 0 <= i < |ms| && Keys(ms)[i] == k;
    LookupAt(ms, i);
    assert SameMember(ms[i], ns);
    var j :| 0 <= j < |ns| && ns[j].key == ms[i].key && Same(ms[i].value, ns[j].value);
    LookupAt(ns, j);
  }

  lemma {:induction false} SameCanon(a: Json, b: Json)
    requires Good(a) && Good(b) && Same(a, b)
    ensures Canon(a) == Canon(b)
    decreases a, 1
  {
    match a {
      case Arr(p) =>
        hide Canon;
        SameItems(p, b.items);
        ArrText(p, "");
        ArrText(b.items, "");
      case Obj(ms) =>
        SameKeysSorted(ms, b.members);
        var ks := SortKeys(Keys(ms));
        SameMembers(ms, b.members, ks);
      case _ =>
    }
  }

  lemma {:induction false} SameItems(p: seq<Json>, q: seq<Json>)
    requires |p| == |q|
    requires forall i :: 0 <= i < |p| ==> Good(p[i]) && Good(q[i]) && Same(p[i], q[i])
    ensures CanonItems(p) == CanonItems(q)
    decreases p, 0
  {
    hide Canon, Good, Same;
    if p != [] {
      SameCanon(p[0], q[0]);
      SameItems(p[1..], q[1..]);
    }
  }

  lemma {:induction false} SameMembers(ms: seq<Member>, ns: seq<Member>, ks: seq<string>)
    requires Good(Obj(ms)) && Good(Obj(ns)) && Same(Obj(ms), Obj(ns))
    requires forall k :: k in ks ==> k in Keys(ms)
    ensures forall k :: k in ks ==> k in Keys(ns)
    ensures CanonMembers(ms, ks) == CanonMembers(ns, ks)
    decreases ms, |ks|
  {
    if ks != [] {
      SameLookup(ms, ns, ks[0]);
      hide Canon, Same, Quoted, Lookup, Keys;
      SameCanon(Lookup(ms, ks[0]), Lookup(ns, ks[0]));
      SameMembers(ms, ns, ks[1..]);
    }
  }

  /**
   * Two trees have the same canonical bytes if and only if they are equal up to the order
   * of members at every depth.
   */
  lemma {:induction false} CanonicalBytesDetermineValue(a: Json, b: Json)
    requires Good(a) && Good(b)
    ensures Canon(a) == Canon(b) <==> Same(a, b)
  {
    if Same(a, b) {
      SameCanon(a, b);
    } else if Canon(a) == Canon(b) {
      hide Canon, Same, Good;
      CanonPrefix(a, b, "", "");
    }
  }

  // ------------------------------------------------------------------ the writer

  lemma {:induction false} BodyAppend(s: string, c: char)
    ensures EscapeBody(s + [c]) == EscapeBody(s) + EscapeChar(c)
  {
    hide EscapeChar;
    if s == "" {
      assert s + [c] == [c];
      assert EscapeBody([c]) == EscapeChar(c) + EscapeBody([c][1..]);
    } else {
      assert (s + [c])[1..] == s[1..] + [c];
      BodyAppend(s[1..], c);
    }
  }

  /** The first `i` items with a comma before each but the first. */
  function ItemsSoFar(items: seq<Json>, i: nat): (s: string)
    requires i <= |items|
  {
    if i == 0 then "" else ItemsSoFar(items, i - 1) + (if i == 1 then "" else ",") + Canon(items[i - 1])
  }

  lemma {:induction false} NoItems(items: seq<Json>)
    ensures ItemsSoFar(items, 0) == ""
  {
  }

  lemma {:induction false} ItemsSoFarStep(items: seq<Json>, i: nat)
    requires i < |items|
    ensures "[" + ItemsSoFar(items, i + 1) ==
              "[" + ItemsSoFar(items, i) + (if i == 0 then "" else ",") + Canon(items[i])
  {
    hide Canon;
  }

  lemma {:induction false} ItemsSoFarRest(items: seq<Json>, i: nat)
    requires 1 <= i <= |items|
    ensures CanonItems(items) == ItemsSoFar(items, i) + (if i == |items| then "" else "," + CanonItems(items[i..]))
    decreases i
  {
    hide Canon;
    if i == 1 {
      assert ItemsSoFar(items, 0) == "";
      assert ItemsSoFar(items, 1) == Canon(items[0]);
    } else {
      ItemsSoFarRest(items, i - 1);
      assert items[i - 1..][1..] == items[i..];
      assert items[i - 1..][0] == items[i - 1];
    }
  }

  lemma {:induction false} ItemsSoFarAll(items: seq<Json>)
    ensures ItemsSoFar(items, |items|) == CanonItems(items)
  {
    hide Canon;
    if items != [] { ItemsSoFarRest(items, |items|); }
  }

  /** What member `i` adds: a comma unless it is the first, the key, a colon and the value. */
  function MemberPiece(ms: seq<Member>, ks: seq<string>, i: nat): (s: string)
    requires i < |ks| && forall k :: k in ks ==> k in Keys(ms)
  {
    (if i == 0 then "" else ",") + (Quoted(ks[i]) + ":" + Canon(Lookup(ms, ks[i])))
  }

  function MembersSoFar(ms: seq<Member>, ks: seq<string>, i: nat): (s: string)
    requires forall k :: k in ks ==> k in Keys(ms)
    requires i <= |ks|
  {
    if i == 0 then "" else MembersSoFar(ms, ks, i - 1) + MemberPiece(ms, ks, i - 1)
  }

  lemma {:induction false} NoMembers(ms: seq<Member>, ks: seq<string>)
    requires forall k :: k in ks ==> k in Keys(ms)
    ensures MembersSoFar(ms, ks, 0) == ""
  {
  }

  lemma {:induction false} MembersSoFarStep(ms: seq<Member>, ks: seq<string>, i: nat)
    requires i < |ks| && forall k :: k in ks ==> k in Keys(ms)
    ensures "{" + MembersSoFar(ms, ks, i + 1) == "{" + MembersSoFar(ms, ks, i) + MemberPiece(ms, ks, i)
  {
    hide MemberPiece, Keys;
  }

  lemma {:induction false} MembersTail(ms: seq<Member>, ks: seq<string>, i: nat)
    requires forall k :: k in ks ==> k in Keys(ms)
    requires 1 <= i < |ks|
    ensures "," + CanonMembers(ms, ks[i..]) ==
              MemberPiece(ms, ks, i) + (if i + 1 == |ks| then "" else "," + CanonMembers(ms, ks[i + 1..]))
  {
    hide Canon, Quoted, Lookup, Keys;
    assert ks[i..][1..] == ks[i + 1..] && ks[i..][0] == ks[i];
  }

  lemma {:induction false} MembersSoFarRest(ms: seq<Member>, ks: seq<string>, i: nat)
    requires forall k :: k in ks ==> k in Keys(ms)
    requires 1 <= i <= |ks|
    ensures CanonMembers(ms, ks) ==
              MembersSoFar(ms, ks, i) + (if i == |ks| then "" else "," + CanonMembers(ms, ks[i..]))
    decreases i
  {
    hide *;
    if i == 1 {
      FirstMember(ms, ks);
    } else {
      MembersSoFarRest(ms, ks, i - 1);
      MembersTail(ms, ks, i - 1);
      MembersSoFarNext(ms, ks, i - 1);
    }
  }

  lemma {:induction false} FirstMember(ms: seq<Member>, ks: seq<string>)
    requires ks != [] && forall k :: k in ks ==> k in Keys(ms)
    ensures CanonMembers(ms, ks) ==
              MembersSoFar(ms, ks, 1) + (if |ks| == 1 then "" else "," + CanonMembers(ms, ks[1..]))
  {
    hide Canon, Quoted, Lookup, Keys;
    NoMembers(ms, ks);
  }

  lemma {:induction false} MembersSoFarNext(ms: seq<Member>, ks: seq<string>, i: nat)
    requires i < |ks| && forall k :: k in ks ==> k in Keys(ms)
    ensures MembersSoFar(ms, ks, i + 1) == MembersSoFar(ms, ks, i) + MemberPiece(ms, ks, i)
  {
    hide MemberPiece, Keys;
  }

  lemma {:induction false} MembersSoFarAll(ms: seq<Member>, ks: seq<string>)
    requires forall k :: k in ks ==> k in Keys(ms)
    ensures MembersSoFar(ms, ks, |ks|) == CanonMembers(ms, ks)
  {
    hide Canon, Keys;
    if ks != [] { MembersSoFarRest(ms, ks, |ks|); }
  }

  class Writer {
    var buf: string

    constructor ()
      ensures buf == ""
    {
      buf := "";
    }

    /** Every emission of the serializer is an append. */
    method Emit(s: string)
      modifies this
      ensures buf == old(buf) + s
    {
      buf := buf + s;
    }

    method AppendString(s: string)
      modifies this
      ensures buf == old(buf) + Quoted(s)
    {
      ghost var start := buf;
      ghost var out := "\"";
      Emit("\"");
      for i := 0 to |s|
        invariant buf == start + out && out == "\"" + EscapeBody(s[..i])
      {
        OpenBodyAppend(s, i);
        hide EscapeChar, EscapeBody;
        Emit(EscapeChar(s[i]));
        Concat3(start, out, EscapeChar(s[i]));
        out := out + EscapeChar(s[i]);
      }
      assert s[..|s|] == s;
      Emit("\"");
      Concat3(start, out, "\"");
    }

    /** Appends the canonical text of `v`; fails exactly on a tree with an unsupported node. */
    method Serialize(v: Json) returns (ok: bool)
      modifies this
      ensures ok <==> Supported(v)
      ensures ok ==> buf == old(buf) + Canon(v)
      decreases v, 1
    {
      match v {
        case Null => buf := buf + "null"; ok := true;
        case Bool(b) => buf := buf + (if b then "true" else "false"); ok := true;
        case Num(n) => buf := buf + IntText(n); ok := true;
        case Str(s) => AppendString(s); ok := true;
        case Arr(items) => ok := SerializeArray(items);
        case Obj(ms) => ok := SerializeObject(ms);
        case Unsupported => ok := false;
      }
    }

    method SerializeArray(items: seq<Json>) returns (ok: bool)
      modifies this
      ensures ok <==> forall i :: 0 <= i < |items| ==> Supported(items[i])
      ensures ok ==> buf == old(buf) + ("[" + CanonItems(items) + "]")
      decreases items, 0
    {
      hide Canon, Supported, CanonItems, ItemsSoFar;
      ghost var start := buf;
      ghost var out := "[";
      Emit("[");
      assert out == "[" + ItemsSoFar(items, 0) by { NoItems(items); }
      for i := 0 to |items|
        invariant buf == start + out && out == "[" + ItemsSoFar(items, i)
        invariant forall j :: 0 <= j < i ==> Supported(items[j])
      {
        ghost var sep := if i == 0 then "" else ",";
        if i > 0 { Emit(","); }
        assert buf == start + out + sep;
        ok := Serialize(items[i]);
        if !ok { return; }
        ItemsSoFarStep(items, i);
        Concat4(start, out, sep, Canon(items[i]));
        out := out + sep + Canon(items[i]);
      }
      ItemsSoFarAll(items);
      Emit("]");
      Concat3(start, out, "]");
      ok := true;
    }

    method SerializeObject(ms: seq<Member>) returns (ok: bool)
      modifies this
      ensures ok <==> forall k :: k in Keys(ms) ==> Supported(Lookup(ms, k))
      ensures ok ==> buf == old(buf) + ("{" + CanonMembers(ms, SortKeys(Keys(ms))) + "}")
      decreases ms, 0
    {
      hide Canon, Supported, Quoted, Keys, SortKeys, Lookup, CanonMembers, MembersSoFar;
      var ks := SortKeys(Keys(ms));
      ghost var start := buf;
      ghost var out := "{";
      Emit("{");
      assert out == "{" + MembersSoFar(ms, ks, 0) by { NoMembers(ms, ks); }
      for i := 0 to |ks|
        invariant buf == start + out && out == "{" + MembersSoFar(ms, ks, i)
        invariant forall j :: 0 <= j < i ==> Supported(Lookup(ms, ks[j]))
      {
        ok := SerializeMember(ms, ks, i);
        if !ok {
          assert ks[i] in ks;
          return;
        }
        Concat3(start, out, MemberPiece(ms, ks, i));
        MembersSoFarStep(ms, ks, i);
        out := out + MemberPiece(ms, ks, i);
      }
      MembersSoFarAll(ms, ks);
      forall k | k in Keys(ms) ensures Supported(Lookup(ms, k)) {
        assert k in ks;
      }
      Emit("}");
      Concat3(start, out, "}");
      ok := true;
    }

    /** One member: a comma unless it is the first, the key, a colon and the value. */
    method SerializeMember(ms: seq<Member>, ks: seq<string>, i: nat) returns (ok: bool)
      requires i < |ks| && forall k :: k in ks ==> k in Keys(ms)
      modifies this
      ensures ok <==> Supported(Lookup(ms, ks[i]))
      ensures ok ==> buf == old(buf) + MemberPiece(ms, ks, i)
      decreases ms, 0, 0
    {
      hide Canon, Supported, Quoted, Keys, Lookup;
      ghost var start := buf;
      ghost var sep := if i == 0 then "" else ",";
      if i > 0 { Emit(","); }
      AppendString(ks[i]);
      Emit(":");
      ok := Serialize(Lookup(ms, ks[i]));
      if ok {
        assert buf == start + sep + Quoted(ks[i]) + ":" + Canon(Lookup(ms, ks[i]));
        Concat4(start + sep, Quoted(ks[i]), ":", Canon(Lookup(ms, ks[i])));
        Concat3(start, sep, Quoted(ks[i]) + ":" + Canon(Lookup(ms, ks[i])));
      }
    }
  }

  lemma {:induction false} Concat3(a: string, b: string, c: string)
    ensures a + b + c == a + (b + c)
  {
  }

  lemma {:induction false} Concat4(a: string, b: string, c: string, d: string)
    ensures a + b + c + d == a + (b + c + d)
  {
  }

  lemma {:induction false} OpenBodyAppend(s: string, i: nat)
    requires i < |s|
    ensures "\"" + EscapeBody(s[..i + 1]) == "\"" + EscapeBody(s[..i]) + EscapeChar(s[i])
  {
    hide EscapeChar, EscapeBody;
    BodyAppend(s[..i], s[i]);
    assert s[..i + 1] == s[..i] + [s[i]];
  }

  lemma {:induction false} GoodIsSupported(v: Json)
    requires Good(v)
    ensures Supported(v)
  {
    match v {
      case Arr(items) =>
        forall i | 0 <= i < |items| ensures Supported(items[i]) { GoodIsSupported(items[i]); }
      case Obj(ms) =>
        forall k | k in Keys(ms) ensures Supported(Lookup(ms, k)) {
          var i :| 0 <= i < |ms| && ms[i] == Member(k, Lookup(ms, k));
          assert Good(ms[i].value);
          GoodIsSupported(Lookup(ms, k));
        }
      case _ =>
    }
  }
}
