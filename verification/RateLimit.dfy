/**
 * The gateway's request limiter: a fixed table of counted windows, one per address, found
 * by linear probing (src/gateway/rate_limit.c).
 */
module RateLimit {
  import opened Text

  const SLOTS := 64
  const IP_MAX := 63
  const LIMIT := 10
  const WINDOW := 60

  /** A slot of the table, free while its address is empty. */
  datatype Entry = Entry(ip: string, start: int, count: nat)

  datatype Request = Request(ip: string, now: int)

  datatype Outcome = Outcome(table: seq<Entry>, limited: bool)

  /** A place in the table. */
  type Index = k: int | 0 <= k < SLOTS

  function HashFrom(h: bv32, ip: string): (r: bv32)
    decreases |ip|
  {
    if ip == "" then h else HashFrom(Mixed(h, ip[0]), ip[1..])
  }

  function Mixed(h: bv32, c: char): (r: bv32)
  {
    ((h << 5) + h) ^ ((c as int % 256) as bv32)
  }

  function Start(ip: string): (k: Index)
  {
    HashFrom(5381, ip) as int % SLOTS
  }

  /** A missing address is counted under a name of its own. */
  function SafeIp(ip: string): (r: string)
    ensures r != ""
  {
    if ip == "" then "unknown" else ip
  }

  function Clipped(ip: string): (r: string)
    ensures |r| <= IP_MAX && (|ip| <= IP_MAX ==> r == ip)
  {
    if |ip| <= IP_MAX then ip else ip[..IP_MAX]
  }

  function At(start: Index, i: nat): (s: Index)
  {
    (start + i) % SLOTS
  }

  /** First step, from the i-th, at which the probe meets the address, or the table's size. */
  function Probe(table: seq<Entry>, start: Index, ip: string, i: nat): (k: nat)
    requires |table| == SLOTS && i <= SLOTS
    ensures i <= k <= SLOTS && (k < SLOTS ==> table[At(start, k)].ip == ip)
    ensures forall j :: i <= j < k ==> table[At(start, j)].ip != ip
    decreases SLOTS - i
  {
    if i == SLOTS || table[At(start, i)].ip == ip then i else Probe(table, start, ip, i + 1)
  }

  predicate Live(e: Entry, now: int)
  {
    e.ip != "" && now - e.start < WINDOW
  }

  /** First slot, from the i-th, whose window is over, or the table's size. */
  function Expired(table: seq<Entry>, now: int, i: nat): (k: nat)
    requires |table| == SLOTS && i <= SLOTS
    ensures i <= k <= SLOTS && (k < SLOTS ==> table[k].ip != "" && !Live(table[k], now))
    ensures forall j :: i <= j < k ==> table[j].ip == "" || Live(table[j], now)
    decreases SLOTS - i
  {
    if i == SLOTS || (table[i].ip != "" && !Live(table[i], now)) then i else Expired(table, now, i + 1)
  }

  /** The address's slot, or a free one, or one whose window is over. The probe may start anywhere. */
  function SlotOf(table: seq<Entry>, start: Index, ip: string, now: int): (s: Option<nat>)
    requires |table| == SLOTS
    ensures s.Some? ==> s.value < SLOTS
  {
    var k, f, e := Probe(table, start, ip, 0), Probe(table, start, "", 0), Expired(table, now, 0);
    if k < SLOTS then Some(At(start, k))
    else if f < SLOTS then Some(At(start, f))
    else if e < SLOTS then Some(e)
    else None
  }

  /** The slot's entry when it is the address's own, a new window otherwise. */
  function Held(e: Entry, ip: string, now: int): (r: Entry)
  {
    if e.ip == ip then e else Entry(Clipped(ip), now, 0)
  }

  function Renewed(e: Entry, now: int): (r: Entry)
  {
    if now - e.start >= WINDOW then e.(start := now, count := 0) else e
  }

  function Counted(e: Entry): (r: Entry)
  {
    if e.count >= LIMIT then e else e.(count := e.count + 1)
  }

  function Limited(table: seq<Entry>, start: Index, r: Request): (o: Outcome)
    requires |table| == SLOTS
    ensures |o.table| == SLOTS
  {
    var ip := SafeIp(r.ip);
    var s := SlotOf(table, start, ip, r.now);
    if s.None? then Outcome(table, true)
    else
      var e := Renewed(Held(table[s.value], ip, r.now), r.now);
      Outcome(table[s.value := Counted(e)], e.count >= LIMIT)
  }

  lemma {:induction false} ProbeIs(table: seq<Entry>, start: Index, ip: string, k: nat)
    requires |table| == SLOTS && k <= SLOTS && (k < SLOTS ==> table[At(start, k)].ip == ip)
    requires forall j :: 0 <= j < k ==> table[At(start, j)].ip != ip
    ensures Probe(table, start, ip, 0) == k
  {
    var p := Probe(table, start, ip, 0);
    assert p < SLOTS ==> table[At(start, p)].ip == ip;
  }

  lemma {:induction false} ExpiredIs(table: seq<Entry>, now: int, k: nat)
    requires |table| == SLOTS && k <= SLOTS && (k < SLOTS ==> table[k].ip != "" && !Live(table[k], now))
    requires forall j :: 0 <= j < k ==> table[j].ip == "" || Live(table[j], now)
    ensures Expired(table, now, 0) == k
  {
    var p := Expired(table, now, 0);
    assert p < SLOTS ==> table[p].ip != "" && !Live(table[p], now);
  }

  /** A slot found by address holds it; a slot taken does not. */
  lemma {:induction false} HoldsOwn(table: seq<Entry>, start: Index, ip: string, now: int)
    requires |table| == SLOTS && ip != ""
    ensures var k, s := Probe(table, start, ip, 0), SlotOf(table, start, ip, now);
            s.Some? ==> (table[s.value].ip == ip <==> k < SLOTS)
  {
    var k, s := Probe(table, start, ip, 0), SlotOf(table, start, ip, now);
    if k == SLOTS && s.Some? { NotProbed(table, start, ip, s.value); }
  }

  /** The probe reaches every slot. */
  lemma {:induction false} NotProbed(table: seq<Entry>, start: Index, ip: string, s: nat)
    requires |table| == SLOTS && s < SLOTS && Probe(table, start, ip, 0) == SLOTS
    ensures table[s].ip != ip
  {
    hide Probe;
    var j := if s >= start then s - start else s + SLOTS - start;
    AroundTo(start, s, j);
    hide At;
  }

  lemma {:induction false} AroundTo(start: Index, s: nat, j: nat)
    requires s < SLOTS && j == if s >= start then s - start else s + SLOTS - start
    ensures j < SLOTS && At(start, j) == s
  {
  }

  class Limiter {
    const table: array<Entry>

    ghost predicate Valid()
    {
      table.Length == SLOTS
    }

    constructor ()
      ensures Valid() && fresh(table) && table[..] == Fresh()
    {
      table := new Entry[SLOTS](_ => Entry("", 0, 0));
      new;
      assert table[..] == Fresh();
    }

    method FindExpiredSlot(now: int) returns (k: nat)
      requires Valid()
      ensures k == Expired(table[..], now, 0)
    {
      for i := 0 to SLOTS
        invariant forall j :: 0 <= j < i ==> table[j].ip == "" || Live(table[j], now)
      {
        if table[i].ip == "" { continue; }
        if now - table[i].start >= WINDOW {
          ExpiredIs(table[..], now, i);
          return i;
        }
      }
      ExpiredIs(table[..], now, SLOTS);
      k := SLOTS;
    }

    /** The address's slot, or the first free one of the probe, each the table's size if there is none. */
    method Search(start: Index, ip: string) returns (slot: nat, free: nat)
      requires Valid() && ip != ""
      ensures var k, f := Probe(table[..], start, ip, 0), Probe(table[..], start, "", 0);
              && slot == (if k < SLOTS then At(start, k) else SLOTS)
              && (k == SLOTS ==> free == if f < SLOTS then At(start, f) else SLOTS)
    {
      ghost var t := table[..];
      hide Probe, At;
      slot, free := SLOTS, SLOTS;
      for i := 0 to SLOTS
        invariant slot == SLOTS && free <= SLOTS
        invariant forall j :: 0 <= j < i ==> t[At(start, j)].ip != ip
        invariant free == SLOTS ==> forall j :: 0 <= j < i ==> t[At(start, j)].ip != ""
        invariant free < SLOTS ==> Probe(t, start, "", 0) < SLOTS && free == At(start, Probe(t, start, "", 0))
      {
        var s := At(start, i);
        assert table[s] == t[At(start, i)];
        if table[s].ip == "" {
          if free == SLOTS {
            ProbeIs(t, start, "", i);
            free := s;
          }
          continue;
        }
        if table[s].ip == ip {
          ProbeIs(t, start, ip, i);
          slot := s;
          return;
        }
      }
      ProbeIs(t, start, ip, SLOTS);
      if free == SLOTS { ProbeIs(t, start, "", SLOTS); }
    }

    /** Starts the address's window in a slot. */
    method Reset(slot: nat, ip: string, now: int)
      requires Valid() && slot < SLOTS
      modifies table
      ensures table[..] == old(table[..])[slot := Entry(Clipped(ip), now, 0)]
    {
      table[slot] := Entry(Clipped(ip), now, 0);
    }

    method FindOrCreate(start: Index, ip: string, now: int) returns (slot: nat)
      requires Valid() && ip != ""
      modifies table
      ensures var s := SlotOf(old(table[..]), start, ip, now);
              if s.None? then slot == SLOTS && table[..] == old(table[..])
              else slot == s.value && table[..] == old(table[..])[slot := Held(old(table[slot]), ip, now)]
    {
      var free;
      HoldsOwn(table[..], start, ip, now);
      hide Probe, At, Clipped, Expired;
      slot, free := Search(start, ip);
      if slot < SLOTS { return; }
      slot := free;
      if slot == SLOTS { slot := FindExpiredSlot(now); }
      if slot < SLOTS { Reset(slot, ip, now); }
    }

    method LimitAsap(r: Request) returns (limited: bool)
      requires Valid()
      modifies table
      ensures Outcome(table[..], limited) == Limited(old(table[..]), Start(SafeIp(r.ip)), r)
    {
      hide SlotOf, Held, Start;
      var ip := SafeIp(r.ip);
      var s := FindOrCreate(Start(ip), ip, r.now);
      if s == SLOTS { return true; }
      if r.now - table[s].start >= WINDOW {
        table[s] := table[s].(start := r.now, count := 0);
      }
      limited := table[s].count >= LIMIT;
      if !limited { table[s] := table[s].(count := table[s].count + 1); }
    }
  }

  function Fresh(): (t: seq<Entry>)
    ensures |t| == SLOTS && forall i :: 0 <= i < SLOTS ==> t[i] == Entry("", 0, 0)
  {
    seq(SLOTS, _ => Entry("", 0, 0))
  }

  // --------------------------------------------------------------- what a slot means

  ghost predicate Holds(table: seq<Entry>, ip: string)
  {
    exists i :: 0 <= i < |table| && table[i].ip == ip
  }

  /** The chosen slot is the address's own, or the address has none and this one holds no live window. */
  lemma {:induction false} SlotIsFree(table: seq<Entry>, start: Index, ip: string, now: int)
    requires |table| == SLOTS && ip != "" && SlotOf(table, start, ip, now).Some?
    ensures var s := SlotOf(table, start, ip, now).value;
            table[s].ip == ip || (!Holds(table, ip) && !Live(table[s], now))
  {
    HoldsOwn(table, start, ip, now);
    if Probe(table, start, ip, 0) == SLOTS {
      forall i | 0 <= i < SLOTS ensures table[i].ip != ip { NotProbed(table, start, ip, i); }
    }
    hide Probe, Expired, At;
  }

  /** A request finds no slot exactly when it has none and every slot holds another's live window. */
  lemma {:induction false} FullExactly(table: seq<Entry>, start: Index, ip: string, now: int)
    requires |table| == SLOTS && ip != ""
    ensures SlotOf(table, start, ip, now).None? <==>
              forall i :: 0 <= i < 64 ==> table[i].ip != ip && table[i].ip != "" && now - table[i].start < 60
  {
    if SlotOf(table, start, ip, now).None? {
      forall i | 0 <= i < SLOTS ensures table[i].ip != ip && table[i].ip != "" {
        NotProbed(table, start, ip, i);
        NotProbed(table, start, "", i);
      }
    } else {
      SlotIsFree(table, start, ip, now);
    }
    hide Probe, Expired, At;
  }

  /** The probe from `start` comes by slot `i` before slot `s`. */
  predicate Sooner(start: Index, i: nat, s: nat)
  {
    (i - start) % 64 < (s - start) % 64
  }

  lemma {:induction false} SoonerIs(start: Index, i: nat, k: nat)
    requires i < SLOTS && k < SLOTS
    ensures Sooner(start, i, At(start, k)) <==> exists j :: 0 <= j < k && At(start, j) == i
  {
    var j := if i >= start then i - start else i + SLOTS - start;
    AroundTo(start, i, j);
    AroundTo(start, At(start, k), k);
    assert (i - start) % 64 == j && (At(start, k) - start) % 64 == k;
    forall n | 0 <= n < k && At(start, n) == i ensures n == j {
      assert (At(start, n) - start) % 64 == n;
    }
  }

  /**
   * Which slot a request gets: the address's own, wherever it is; else the first free one from where
   * the probe starts; else the first one of the table whose window is over.
   */
  lemma {:induction false} SlotExactly(table: seq<Entry>, start: Index, ip: string, now: int)
    requires |table| == SLOTS && ip != "" && SlotOf(table, start, ip, now).Some?
    ensures var s := SlotOf(table, start, ip, now).value;
            if exists i :: 0 <= i < 64 && table[i].ip == ip then table[s].ip == ip
            else if exists i :: 0 <= i < 64 && table[i].ip == "" then
              table[s].ip == "" && forall i :: 0 <= i < 64 && Sooner(start, i, s) ==> table[i].ip != ""
            else now - table[s].start >= 60 && forall i :: 0 <= i < s ==> now - table[i].start < 60
  {
    var k, f := Probe(table, start, ip, 0), Probe(table, start, "", 0);
    if k == SLOTS {
      forall i | 0 <= i < SLOTS ensures table[i].ip != ip { NotProbed(table, start, ip, i); }
      if f == SLOTS {
        forall i | 0 <= i < SLOTS ensures table[i].ip != "" { NotProbed(table, start, "", i); }
      } else {
        FirstFree(table, start, f);
      }
    }
    hide Probe, Expired, At, Sooner;
  }

  lemma {:induction false} FirstFree(table: seq<Entry>, start: Index, f: nat)
    requires |table| == SLOTS && f < SLOTS && forall j :: 0 <= j < f ==> table[At(start, j)].ip != ""
    ensures forall i :: 0 <= i < 64 && Sooner(start, i, At(start, f)) ==> table[i].ip != ""
  {
    forall i | 0 <= i < 64 && Sooner(start, i, At(start, f)) ensures table[i].ip != "" {
      SoonerIs(start, i, f);
    }
  }

  /** The hash takes in the bytes from the first to the last. */
  lemma {:induction false} HashOfMore(h: bv32, s: string, c: char)
    ensures HashFrom(h, "") == h
    ensures HashFrom(h, s + [c]) == ((HashFrom(h, s) << 5) + HashFrom(h, s)) ^ ((c as int % 256) as bv32)
  {
    MixedLast(h, s, c);
    hide HashFrom;
    assert HashFrom(h, s + [c]) == Mixed(HashFrom(h, s), c);
  }

  lemma {:induction false} MixedLast(h: bv32, s: string, c: char)
    ensures HashFrom(h, "") == h && HashFrom(h, s + [c]) == Mixed(HashFrom(h, s), c)
    decreases |s|
  {
    hide Mixed;
    if s == "" {
      assert s + [c] == [c] && [c][1..] == "";
    } else {
      MixedLast(Mixed(h, s[0]), s[1..], c);
      MoreBehind(s, c);
    }
  }

  lemma {:induction false} MoreBehind(s: string, c: char)
    requires s != ""
    ensures (s + [c])[1..] == s[1..] + [c] && (s + [c])[0] == s[0]
  {
  }

  /** Requests without an address count as one address. */
  lemma {:induction false} MissingAddress(table: seq<Entry>, start: Index, now: int)
    requires |table| == SLOTS
    ensures Limited(table, start, Request("", now)) == Limited(table, start, Request("unknown", now))
  {
    hide SlotOf, Renewed, Held, Counted;
  }

  /** No request touches another address's live window. */
  lemma {:induction false} LiveWindowsStay(table: seq<Entry>, start: Index, r: Request, i: nat)
    requires |table| == SLOTS && i < SLOTS && Live(table[i], r.now) && table[i].ip != SafeIp(r.ip)
    ensures Limited(table, start, r).table[i] == table[i]
  {
    var ip := SafeIp(r.ip);
    hide SlotOf;
    if SlotOf(table, start, ip, r.now).Some? { SlotIsFree(table, start, ip, r.now); }
  }

  // --------------------------------------------------------- the limiter without a table

  datatype Window = Window(start: int, count: nat)

  datatype IdealOutcome = IdealOutcome(windows: map<string, Window>, limited: bool)

  /** One window per address, as many addresses as there are. */
  function Ideal(m: map<string, Window>, ip: string, now: int): (o: IdealOutcome)
  {
    var w := if ip in m && now - m[ip].start < WINDOW then m[ip] else Window(now, 0);
    if w.count < LIMIT then IdealOutcome(m[ip := Window(w.start, w.count + 1)], false)
    else IdealOutcome(m[ip := w], true)
  }

  /** The table holds windows of the map, every live one, and each address once. */
  ghost predicate Mirrors(table: seq<Entry>, m: map<string, Window>, now: int)
  {
    && |table| == SLOTS && "" !in m
    && (forall i, j :: 0 <= i < j < SLOTS && table[i].ip == table[j].ip ==> table[i].ip == "")
    && (forall i :: 0 <= i < SLOTS && table[i].ip != "" ==>
          table[i].ip in m && m[table[i].ip] == Window(table[i].start, table[i].count) && table[i].start <= now)
    && (forall ip :: ip in m && now - m[ip].start < WINDOW ==> Holds(table, ip))
  }

  lemma {:induction false} MirrorsLater(table: seq<Entry>, m: map<string, Window>, now: int, later: int)
    requires Mirrors(table, m, now) && now <= later
    ensures Mirrors(table, m, later)
  {
    hide Holds;
  }

  lemma {:induction false} PlacedMirrors(table: seq<Entry>, m: map<string, Window>, now: int, s: nat, e: Entry)
    requires Mirrors(table, m, now) && s < SLOTS && e.ip != "" && e.start <= now
    requires table[s].ip == e.ip || (!Holds(table, e.ip) && !Live(table[s], now))
    ensures Mirrors(table[s := e], m[e.ip := Window(e.start, e.count)], now)
  {
    var t, n := table[s := e], m[e.ip := Window(e.start, e.count)];
    forall i | 0 <= i < SLOTS && i != s ensures table[i].ip != e.ip {
    }
    forall ip | ip in n && now - n[ip].start < WINDOW ensures Holds(t, ip) {
      if ip == e.ip {
        assert t[s].ip == ip;
      } else {
        assert Holds(table, ip);
        var i :| 0 <= i < |table| && table[i].ip == ip;
        assert t[i].ip == ip;
      }
    }
    hide Holds;
  }

  /**
   * A request that finds a slot gets the answer of the limiter without a table, and keeps the
   * two in step. The address fits an entry, and time does not go back.
   */
  lemma {:induction false} StepRefines(table: seq<Entry>, start: Index, m: map<string, Window>, last: int, r: Request)
    requires Mirrors(table, m, last) && last <= r.now && |SafeIp(r.ip)| <= IP_MAX
    requires SlotOf(table, start, SafeIp(r.ip), r.now).Some?
    ensures var o, i := Limited(table, start, r), Ideal(m, SafeIp(r.ip), r.now);
            o.limited == i.limited && Mirrors(o.table, i.windows, r.now)
  {
    var ip, now := SafeIp(r.ip), r.now;
    MirrorsLater(table, m, last, now);
    SlotIsFree(table, start, ip, now);
    var s := SlotOf(table, start, ip, now).value;
    hide SlotOf, SafeIp;
    var e := Counted(Renewed(Held(table[s], ip, now), now));
    PlacedMirrors(table, m, now, s, e);
    StepAgrees(table, m, now, s, ip);
    hide Mirrors, Holds;
  }

  lemma {:induction false} StepAgrees(table: seq<Entry>, m: map<string, Window>, now: int, s: nat, ip: string)
    requires Mirrors(table, m, now) && s < SLOTS && ip != "" && |ip| <= IP_MAX
    requires table[s].ip == ip || (!Holds(table, ip) && !Live(table[s], now))
    ensures var e, i := Renewed(Held(table[s], ip, now), now), Ideal(m, ip, now);
            && i.limited == (e.count >= LIMIT)
            && i.windows == m[ip := Window(Counted(e).start, Counted(e).count)]
  {
    hide Holds;
  }

  // ------------------------------------------------------------------ how many pass

  /** How many times of the log fall into the span of a window's length from `t`. */
  function InSpan(log: seq<int>, t: int): (n: nat)
    ensures n <= |log|
  {
    if log == [] then 0
    else InSpan(log[..|log| - 1], t) + (if t <= log[|log| - 1] < t + WINDOW then 1 else 0)
  }

  lemma {:induction false} InSpanSnoc(log: seq<int>, x: int, t: int)
    ensures InSpan(log + [x], t) == InSpan(log, t) + (if t <= x < t + WINDOW then 1 else 0)
  {
    assert (log + [x])[..|log|] == log;
  }

  lemma {:induction false} InSpanConcat(a: seq<int>, b: seq<int>, t: int)
    ensures InSpan(a + b, t) == InSpan(a, t) + InSpan(b, t)
  {
    if b == [] {
      assert a + b == a;
    } else {
      var n := |b| - 1;
      assert a + b == (a + b[..n]) + [b[n]];
      InSpanConcat(a, b[..n], t);
      InSpanSnoc(a + b[..n], b[n], t);
    }
  }

  lemma {:induction false} NoneInSpan(log: seq<int>, t: int)
    requires forall i :: 0 <= i < |log| ==> log[i] < t || log[i] >= t + WINDOW
    ensures InSpan(log, t) == 0
  {
    if log != [] { NoneInSpan(log[..|log| - 1], t); }
  }

  /** The times logged before the current window. */
  function Earlier(log: seq<int>, w: Window): (r: seq<int>)
    requires w.count <= |log|
  {
    log[..|log| - w.count]
  }

  function Current(log: seq<int>, w: Window): (r: seq<int>)
    requires w.count <= |log|
  {
    log[|log| - w.count..]
  }

  /**
   * A window's count is the number of passes in it, at most ten; every span has at most
   * twenty, and a span that reaches the window at most ten before it.
   */
  ghost predicate Kept(log: seq<int>, w: Window, now: int)
  {
    && w.count <= LIMIT && w.count <= |log| && w.start <= now
    && (forall i :: 0 <= i < |log| - w.count ==> log[i] < w.start)
    && (forall i :: |log| - w.count <= i < |log| ==> w.start <= log[i] < w.start + WINDOW)
    && (forall t :: InSpan(log, t) <= 2 * LIMIT)
    && (forall t :: t > w.start - WINDOW ==> InSpan(Earlier(log, w), t) <= LIMIT)
  }

  lemma {:induction false} SpanSplits(log: seq<int>, w: Window, t: int)
    requires w.count <= |log|
    ensures InSpan(log, t) == InSpan(Earlier(log, w), t) + InSpan(Current(log, w), t)
  {
    assert log == Earlier(log, w) + Current(log, w);
    InSpanConcat(Earlier(log, w), Current(log, w), t);
  }

  /** One more pass in a window that has room. */
  lemma {:induction false} PassInWindow(log: seq<int>, w: Window, last: int, now: int)
    requires Kept(log, w, last) && last <= now < w.start + WINDOW && w.count < LIMIT
    ensures Kept(log + [now], Window(w.start, w.count + 1), now)
  {
    var log', w' := log + [now], Window(w.start, w.count + 1);
    assert Earlier(log', w') == Earlier(log, w);
    forall t ensures InSpan(log', t) <= 2 * LIMIT {
      InSpanSnoc(log, now, t);
      SpanSplits(log', w', t);
    }
    hide InSpan;
  }

  /** The first pass of a new window. */
  lemma {:induction false} PassOpensWindow(log: seq<int>, w: Window, last: int, now: int)
    requires Kept(log, w, last) && w.start + WINDOW <= now
    ensures Kept(log + [now], Window(now, 1), now)
  {
    var log' := log + [now];
    assert Earlier(log', Window(now, 1)) == log;
    forall t | t > now - WINDOW ensures InSpan(log, t) <= LIMIT {
      SpanSplits(log, w, t);
      NoneInSpan(Earlier(log, w), t);
    }
    forall t ensures InSpan(log', t) <= 2 * LIMIT {
      InSpanSnoc(log, now, t);
    }
    hide InSpan, Earlier;
  }

  lemma {:induction false} FirstPass(now: int)
    ensures Kept([now], Window(now, 1), now)
  {
    assert Earlier([now], Window(now, 1)) == [];
    forall t ensures InSpan([now], t) <= 1 {
      assert [now][..0] == [];
    }
  }

  // ----------------------------------------------------------------------- all runs

  /** The limiter without a table, fed with the requests that find a slot, and one address's passes. */
  datatype Track = Track(windows: map<string, Window>, log: seq<int>)

  function TrackAfter(table: seq<Entry>, start: Index, k: Track, r: Request, who: string): (k': Track)
    requires |table| == SLOTS
  {
    var ip := SafeIp(r.ip);
    if SlotOf(table, start, ip, r.now).None? then k
    else
      Track(Ideal(k.windows, ip, r.now).windows,
            if ip == who && !Limited(table, start, r).limited then k.log + [r.now] else k.log)
  }

  ghost predicate Logged(k: Track, who: string, now: int)
  {
    if who in k.windows then Kept(k.log, k.windows[who], now) else k.log == []
  }

  lemma {:induction false} KeptLater(log: seq<int>, w: Window, now: int, later: int)
    requires Kept(log, w, now) && now <= later
    ensures Kept(log, w, later)
  {
    hide InSpan, Earlier;
  }

  lemma {:induction false} IdealKeepsLog(k: Track, ip: string, now: int, who: string)
    requires Logged(k, who, now)
    ensures var i := Ideal(k.windows, ip, now);
            Logged(Track(i.windows, if ip == who && !i.limited then k.log + [now] else k.log), who, now)
  {
    hide Kept;
    if ip == who {
      if who !in k.windows {
        FirstPass(now);
        assert k.log + [now] == [now];
      } else if now - k.windows[who].start >= WINDOW {
        PassOpensWindow(k.log, k.windows[who], now, now);
      } else if k.windows[who].count < LIMIT {
        PassInWindow(k.log, k.windows[who], now, now);
      }
    }
  }

  lemma {:induction false} StepKeepsLog(table: seq<Entry>, start: Index, k: Track, last: int, r: Request, who: string)
    requires Mirrors(table, k.windows, last) && Logged(k, who, last) && last <= r.now && |SafeIp(r.ip)| <= IP_MAX
    ensures Logged(TrackAfter(table, start, k, r, who), who, r.now)
  {
    if who in k.windows { KeptLater(k.log, k.windows[who], last, r.now); }
    hide Kept, SlotOf, Limited, Mirrors, SafeIp, Ideal;
    if SlotOf(table, start, SafeIp(r.ip), r.now).Some? {
      StepRefines(table, start, k.windows, last, r);
      IdealKeepsLog(k, SafeIp(r.ip), r.now, who);
    }
  }

  /** The tables a list of requests goes through, from the empty one, with a probe start for each request. */
  ghost predicate TableRun(tables: seq<seq<Entry>>, starts: seq<Index>, rs: seq<Request>)
  {
    && |tables| == |rs| + 1 && |starts| == |rs| && (forall i :: 0 <= i < |tables| ==> |tables[i]| == SLOTS)
    && tables[0] == Fresh()
    && forall i :: 0 <= i < |rs| ==> tables[i + 1] == Limited(tables[i], starts[i], rs[i]).table
  }

  ghost predicate IsRun(
    tables: seq<seq<Entry>>, tracks: seq<Track>, starts: seq<Index>, rs: seq<Request>, who: string)
  {
    && TableRun(tables, starts, rs) && |tracks| == |rs| + 1 && tracks[0] == Track(map[], [])
    && forall i :: 0 <= i < |rs| ==> tracks[i + 1] == TrackAfter(tables[i], starts[i], tracks[i], rs[i], who)
  }

  ghost predicate Steady(rs: seq<Request>)
  {
    && (forall i :: 0 <= i < |rs| ==> |SafeIp(rs[i].ip)| <= IP_MAX)
    && (forall i, j :: 0 <= i < j < |rs| ==> rs[i].now <= rs[j].now)
  }

  /** The time of the k-th request, and of the last one behind it. */
  function TimeAt(rs: seq<Request>, k: nat): (now: int)
  {
    if k < |rs| then rs[k].now else if rs == [] then 0 else rs[|rs| - 1].now
  }

  /** In step before the i-th request, and so after it. */
  ghost predicate InStep(table: seq<Entry>, k: Track, who: string, now: int)
  {
    Mirrors(table, k.windows, now) && Logged(k, who, now)
  }

  lemma {:induction false} StepKeepsStep(table: seq<Entry>, start: Index, k: Track, last: int, r: Request, who: string)
    requires InStep(table, k, who, last) && last <= r.now && |SafeIp(r.ip)| <= IP_MAX
    ensures InStep(Limited(table, start, r).table, TrackAfter(table, start, k, r, who), who, r.now)
  {
    StepKeepsLog(table, start, k, last, r, who);
    MirrorsLater(table, k.windows, last, r.now);
    if SlotOf(table, start, SafeIp(r.ip), r.now).Some? { StepRefines(table, start, k.windows, last, r); }
    hide SlotOf, Mirrors, Logged, Ideal, SafeIp;
  }

  lemma {:induction false} RunStaysInStep(
    tables: seq<seq<Entry>>, tracks: seq<Track>, starts: seq<Index>, rs: seq<Request>, who: string, k: nat)
    requires IsRun(tables, tracks, starts, rs, who) && Steady(rs) && k <= |rs|
    ensures InStep(tables[k], tracks[k], who, TimeAt(rs, k))
  {
    hide Limited, TrackAfter, SafeIp;
    if k > 0 {
      RunStaysInStep(tables, tracks, starts, rs, who, k - 1);
      hide InStep;
      StepKeepsStep(tables[k - 1], starts[k - 1], tracks[k - 1], rs[k - 1].now, rs[k - 1], who);
      StepLater(tables[k], tracks[k], who, rs[k - 1].now, TimeAt(rs, k));
    }
  }

  lemma {:induction false} StepLater(table: seq<Entry>, k: Track, who: string, now: int, later: int)
    requires InStep(table, k, who, now) && now <= later
    ensures InStep(table, k, who, later)
  {
    MirrorsLater(table, k.windows, now, later);
    if who in k.windows { KeptLater(k.log, k.windows[who], now, later); }
    hide Mirrors, Kept;
  }

  /**
   * Over every run in time order with addresses that fit an entry: a request is refused exactly
   * when it finds no slot or the limiter without a table refuses it.
   */
  lemma {:induction false} RunRefinesIdeal(
    tables: seq<seq<Entry>>, tracks: seq<Track>, starts: seq<Index>, rs: seq<Request>, who: string, k: nat)
    requires IsRun(tables, tracks, starts, rs, who) && Steady(rs) && k < |rs|
    ensures var ip := SafeIp(rs[k].ip);
            Limited(tables[k], starts[k], rs[k]).limited <==>
              SlotOf(tables[k], starts[k], ip, rs[k].now).None? || Ideal(tracks[k].windows, ip, rs[k].now).limited
  {
    RunStaysInStep(tables, tracks, starts, rs, who, k);
    if SlotOf(tables[k], starts[k], SafeIp(rs[k].ip), rs[k].now).Some? {
      StepRefines(tables[k], starts[k], tracks[k].windows, rs[k].now, rs[k]);
    }
    hide SlotOf, Ideal, Mirrors, SafeIp, IsRun;
  }

  lemma {:induction false} AllInSpan(log: seq<int>, t: int)
    requires forall i :: 0 <= i < |log| ==> t <= log[i] < t + WINDOW
    ensures InSpan(log, t) == |log|
  {
    if log != [] { AllInSpan(log[..|log| - 1], t); }
  }

  /** The passes logged in the current window are as many as its count. */
  lemma {:induction false} CountIsPasses(log: seq<int>, w: Window, now: int)
    requires Kept(log, w, now)
    ensures InSpan(log, w.start) == w.count
  {
    SpanSplits(log, w, w.start);
    NoneInSpan(Earlier(log, w), w.start);
    AllInSpan(Current(log, w), w.start);
  }

  /**
   * After any number of requests of such a run, the passes of an address since its window began
   * are at most ten, counted by the window, and in any span of a window's length at most twenty.
   */
  lemma {:induction false} RunBoundsPasses(
    tables: seq<seq<Entry>>, tracks: seq<Track>, starts: seq<Index>, rs: seq<Request>, who: string, k: nat, t: int)
    requires IsRun(tables, tracks, starts, rs, who) && Steady(rs) && k <= |rs|
    ensures InSpan(tracks[k].log, t) <= 2 * LIMIT
    ensures who in tracks[k].windows ==>
              InSpan(tracks[k].log, tracks[k].windows[who].start) == tracks[k].windows[who].count <= LIMIT
  {
    RunStaysInStep(tables, tracks, starts, rs, who, k);
    hide IsRun, Mirrors, InSpan;
    if who in tracks[k].windows { CountIsPasses(tracks[k].log, tracks[k].windows[who], TimeAt(rs, k)); }
    NoneInSpan([], t);
  }

  // ------------------------------------------------------- fed with every request

  /** The limiter without a table after the first `n` requests, whether they found a slot or not. */
  function FedAll(rs: seq<Request>, n: nat): (m: map<string, Window>)
    requires n <= |rs|
  {
    if n == 0 then map[] else Ideal(FedAll(rs, n - 1), SafeIp(rs[n - 1].ip), rs[n - 1].now).windows
  }

  ghost predicate Agrees(tables: seq<seq<Entry>>, starts: seq<Index>, rs: seq<Request>, i: nat)
    requires TableRun(tables, starts, rs) && i < |rs|
  {
    Limited(tables[i], starts[i], rs[i]).limited == Ideal(FedAll(rs, i), SafeIp(rs[i].ip), rs[i].now).limited
  }

  ghost predicate FindsSlot(tables: seq<seq<Entry>>, starts: seq<Index>, rs: seq<Request>, i: nat)
    requires TableRun(tables, starts, rs) && i < |rs|
  {
    SlotOf(tables[i], starts[i], SafeIp(rs[i].ip), rs[i].now).Some?
  }

  /** A request refused for want of a slot would pass without a table. */
  lemma {:induction false} SlotlessDiffers(table: seq<Entry>, start: Index, m: map<string, Window>, last: int,
                                           r: Request)
    requires Mirrors(table, m, last) && last <= r.now && SlotOf(table, start, SafeIp(r.ip), r.now).None?
    ensures Limited(table, start, r).limited && !Ideal(m, SafeIp(r.ip), r.now).limited
  {
    MirrorsLater(table, m, last, r.now);
    FullExactly(table, start, SafeIp(r.ip), r.now);
    hide SlotOf, Holds, SafeIp;
  }

  lemma {:induction false} FedMirrors(tables: seq<seq<Entry>>, starts: seq<Index>, rs: seq<Request>, n: nat)
    requires TableRun(tables, starts, rs) && Steady(rs) && n <= |rs|
    requires forall i :: 0 <= i < n ==> FindsSlot(tables, starts, rs, i)
    ensures Mirrors(tables[n], FedAll(rs, n), TimeAt(rs, n))
  {
    hide SlotOf, Limited, Ideal, SafeIp;
    if n > 0 {
      FedMirrors(tables, starts, rs, n - 1);
      hide Mirrors;
      assert FindsSlot(tables, starts, rs, n - 1);
      StepRefines(tables[n - 1], starts[n - 1], FedAll(rs, n - 1), rs[n - 1].now, rs[n - 1]);
      MirrorsLater(tables[n], FedAll(rs, n), rs[n - 1].now, TimeAt(rs, n));
    }
  }

  /** While every request before found a slot, the answers agree exactly when this one does too. */
  lemma {:induction false} AgreesNext(tables: seq<seq<Entry>>, starts: seq<Index>, rs: seq<Request>, n: nat)
    requires TableRun(tables, starts, rs) && Steady(rs) && n < |rs|
    requires forall i :: 0 <= i < n ==> FindsSlot(tables, starts, rs, i)
    ensures Agrees(tables, starts, rs, n) <==> FindsSlot(tables, starts, rs, n)
  {
    FedMirrors(tables, starts, rs, n);
    hide SlotOf, Limited, Ideal, SafeIp, Mirrors, TableRun, FedAll;
    if FindsSlot(tables, starts, rs, n) {
      StepRefines(tables[n], starts[n], FedAll(rs, n), rs[n].now, rs[n]);
    } else {
      SlotlessDiffers(tables[n], starts[n], FedAll(rs, n), rs[n].now, rs[n]);
    }
  }

  /**
   * Over every run in time order, and after any number of its requests: all answers so far are
   * those of the limiter without a table, fed with every request, if and only if every request
   * so far found a slot. The first one without a slot is the first to be answered otherwise.
   */
  lemma {:induction false} AgreesExactly(tables: seq<seq<Entry>>, starts: seq<Index>, rs: seq<Request>, n: nat)
    requires TableRun(tables, starts, rs) && Steady(rs) && n <= |rs|
    ensures (forall i :: 0 <= i < n ==> Agrees(tables, starts, rs, i))
            <==> (forall i :: 0 <= i < n ==> FindsSlot(tables, starts, rs, i))
  {
    hide TableRun, Steady, Agrees, FindsSlot;
    if n > 0 {
      AgreesExactly(tables, starts, rs, n - 1);
      if forall i :: 0 <= i < n - 1 ==> FindsSlot(tables, starts, rs, i) {
        AgreesNext(tables, starts, rs, n - 1);
      }
    }
  }

  // ------------------------------------------------------------------- where it ends

  /** An address too long for an entry is never found again, and so refused only by a full table. */
  lemma {:induction false} LongAddressIsUnlimited(table: seq<Entry>, start: Index, r: Request)
    requires |table| == SLOTS && |r.ip| > IP_MAX && forall i :: 0 <= i < SLOTS ==> |table[i].ip| <= IP_MAX
    ensures Limited(table, start, r).limited <==>
              forall i :: 0 <= i < 64 ==> table[i].ip != "" && r.now - table[i].start < 60
    ensures forall i :: 0 <= i < SLOTS ==> |Limited(table, start, r).table[i].ip| <= IP_MAX
  {
    FullExactly(table, start, r.ip, r.now);
    hide SlotOf;
    if SlotOf(table, start, r.ip, r.now).Some? { SlotIsFree(table, start, r.ip, r.now); }
  }

  /** The same request of one address, several times over. */
  function IdealTimes(m: map<string, Window>, ip: string, now: int, n: nat): (r: map<string, Window>)
  {
    if n == 0 then m else Ideal(IdealTimes(m, ip, now, n - 1), ip, now).windows
  }

  lemma {:induction false} IdealCounts(m: map<string, Window>, ip: string, now: int, n: nat)
    requires ip !in m && 0 < n <= LIMIT
    ensures ip in IdealTimes(m, ip, now, n) && IdealTimes(m, ip, now, n)[ip] == Window(now, n)
  {
    if n > 1 { IdealCounts(m, ip, now, n - 1); }
  }

  /**
   * Refusals for want of a slot are not counted: ten of them, and a window that ends while the
   * first of them is fresh, and a request passes that the limiter without a table, fed with
   * every request, refuses.
   */
  lemma {:induction false} FullTableForgets(table: seq<Entry>, start: Index, m: map<string, Window>, ip: string,
                                            now: int, later: int, i: nat)
    requires |table| == SLOTS && ip != "" && !Holds(table, ip) && ip !in m
    requires forall j :: 0 <= j < SLOTS ==> Live(table[j], now)
    requires now <= later < now + WINDOW && i < SLOTS && !Live(table[i], later)
    ensures Limited(table, start, Request(ip, now)) == Outcome(table, true)
    ensures !Limited(table, start, Request(ip, later)).limited
    ensures Ideal(IdealTimes(m, ip, now, LIMIT), ip, later).limited
  {
    IdealCounts(m, ip, now, LIMIT);
    NoRoomNow(table, start, ip, now);
    RoomLater(table, start, ip, later, i);
    NewcomerPasses(table, start, ip, later);
    hide IdealTimes, Holds, Live, Limited;
  }

  lemma {:induction false} NoRoomNow(table: seq<Entry>, start: Index, ip: string, now: int)
    requires |table| == SLOTS && ip != "" && !Holds(table, ip)
    requires forall j :: 0 <= j < SLOTS ==> Live(table[j], now)
    ensures Limited(table, start, Request(ip, now)) == Outcome(table, true)
  {
    assert forall j :: 0 <= j < SLOTS ==> table[j].ip != ip;
    hide SlotOf, Renewed, Held, Counted, Holds;
    FullExactly(table, start, ip, now);
  }

  lemma {:induction false} RoomLater(table: seq<Entry>, start: Index, ip: string, later: int, i: nat)
    requires |table| == SLOTS && ip != "" && i < SLOTS && !Live(table[i], later)
    ensures SlotOf(table, start, ip, later).Some?
  {
    hide SlotOf;
    FullExactly(table, start, ip, later);
  }

  lemma {:induction false} NewcomerPasses(table: seq<Entry>, start: Index, ip: string, now: int)
    requires |table| == SLOTS && ip != "" && !Holds(table, ip) && SlotOf(table, start, ip, now).Some?
    ensures !Limited(table, start, Request(ip, now)).limited
  {
    hide SlotOf;
    assert table[SlotOf(table, start, ip, now).value].ip != ip;
  }
}
