/**
 * The re-offer table of the cron channel (src/tools/cron.c): which due job a poll returns,
 * and for how long a job that was offered and not acknowledged is held back.
 */
module CronOffers {
  import opened Text

  const TRACKED := 16
  const ID_MAX := 127

  // ------------------------------------------------------------------ the clock

  /** A reading of the monotonic clock. */
  datatype Mono = Mono(sec: int, nsec: int)

  predicate ValidMono(t: Mono)
  {
    0 <= t.nsec < 1000000000
  }

  function Ns(t: Mono): (n: int)
  {
    t.sec * 1000000000 + t.nsec
  }

  /** C's `/`: truncates toward zero. */
  function CDiv(a: int, b: int): (q: int)
    requires b > 0
  {
    if a >= 0 then a / b else -((-a) / b)
  }

  function ElapsedMs(start: Mono, now: Mono): (ms: int)
  {
    (now.sec - start.sec) * 1000 + CDiv(now.nsec - start.nsec, 1000000)
  }

  /**
   * The elapsed milliseconds round down, except when the nanoseconds of `now` are below
   * those of `start`: then they round up. So a span counts as `ms` milliseconds exactly
   * when it is that long, or in the second case longer than `ms - 1`.
   */
  lemma {:induction false} ElapsedExactly(start: Mono, now: Mono, ms: int)
    requires ValidMono(start) && ValidMono(now)
    ensures ElapsedMs(start, now) >= ms <==>
              if now.nsec >= start.nsec then Ns(now) - Ns(start) >= ms * 1000000
              else Ns(now) - Ns(start) > (ms - 1) * 1000000
  {
    var d := now.nsec - start.nsec;
    var q := if d >= 0 then d / 1000000 else (-d) / 1000000;
    assert d >= 0 ==> d == 1000000 * q + d % 1000000;
    assert d < 0 ==> -d == 1000000 * q + (-d) % 1000000;
  }

  lemma {:induction false} ElapsedNearly(start: Mono, now: Mono, ms: int)
    requires ValidMono(start) && ValidMono(now)
    ensures Ns(now) - Ns(start) >= ms * 1000000 ==> ElapsedMs(start, now) >= ms
    ensures ElapsedMs(start, now) >= ms ==> Ns(now) - Ns(start) > (ms - 1) * 1000000
  {
    ElapsedExactly(start, now, ms);
  }

  /** The nanoseconds borrow from the seconds, by no whole number of milliseconds. */
  predicate Borrows(start: Mono, now: Mono)
  {
    now.nsec < start.nsec && (start.nsec - now.nsec) % 1000000 != 0
  }

  /**
   * Time that counts as `ms` milliseconds falls short of them exactly when the nanoseconds
   * borrow, the rounded time is just `ms`, and the difference is no whole number of milliseconds.
   */
  lemma {:induction false} ElapsedShortExactly(start: Mono, now: Mono, ms: int)
    requires ValidMono(start) && ValidMono(now) && ElapsedMs(start, now) >= ms
    ensures Ns(now) - Ns(start) < ms * 1000000 <==>
              Borrows(start, now) && ElapsedMs(start, now) == ms
  {
    ElapsedExactly(start, now, ms);
    ElapsedExactly(start, now, ms + 1);
    if now.nsec < start.nsec {
      var d := start.nsec - now.nsec;
      assert d == 1000000 * (d / 1000000) + d % 1000000;
    }
  }

  lemma {:induction false} ElapsedMonotone(start: Mono, now: Mono, later: Mono)
    requires ValidMono(start) && ValidMono(now) && ValidMono(later) && Ns(now) <= Ns(later)
    ensures ElapsedMs(start, now) <= ElapsedMs(start, later)
  {
    var ms := ElapsedMs(start, now);
    ElapsedExactly(start, now, ms);
    ElapsedExactly(start, later, ms);
    var k := now.sec - start.sec;
    assert now.sec <= later.sec;
    if now.nsec < start.nsec <= later.nsec {
      ElapsedNearly(start, later, ms);
      CeilingStep(start, now, later);
    }
  }

  /** Leaving the rounded-up part of a second passes through a whole second. */
  lemma {:induction false} CeilingStep(start: Mono, now: Mono, later: Mono)
    requires ValidMono(start) && ValidMono(now) && ValidMono(later) && Ns(now) <= Ns(later)
    requires now.nsec < start.nsec <= later.nsec
    ensures ElapsedMs(start, now) <= ElapsedMs(start, later)
  {
    var whole := (now.sec - start.sec) * 1000;
    ElapsedExactly(start, now, whole + 1);
    ElapsedExactly(start, later, whole);
  }

  // ------------------------------------------------------------------- the table

  /** An offer on record; the empty id marks a free slot. */
  datatype Slot = Slot(id: string, mono: Mono, timeout: int)

  const FREE := Slot("", Mono(0, 0), 0)

  /** First slot with the id, or the number of slots. */
  function SlotOf(slots: seq<Slot>, id: string): (k: nat)
    ensures k <= |slots| && (k < |slots| ==> slots[k].id == id)
    ensures forall i :: 0 <= i < k ==> slots[i].id != id
  {
    if slots == [] || slots[0].id == id then 0 else 1 + SlotOf(slots[1..], id)
  }

  lemma {:induction false} SlotOfIs(slots: seq<Slot>, id: string, k: nat)
    requires k <= |slots| && (k < |slots| ==> slots[k].id == id)
    requires forall i :: 0 <= i < k ==> slots[i].id != id
    ensures SlotOf(slots, id) == k
  {
    var j := SlotOf(slots, id);
    assert k < |slots| ==> j <= k;
  }

  predicate Tracked(slots: seq<Slot>, id: string)
  {
    SlotOf(slots, id) < |slots|
  }

  predicate Reusable(s: Slot, now: Mono)
  {
    s.id == "" || (s.timeout > 0 && ElapsedMs(s.mono, now) >= s.timeout)
  }

  function FirstReusable(slots: seq<Slot>, now: Mono): (k: nat)
    ensures k <= |slots| && (k < |slots| ==> Reusable(slots[k], now))
    ensures forall i :: 0 <= i < k ==> !Reusable(slots[i], now)
  {
    if slots == [] || Reusable(slots[0], now) then 0 else 1 + FirstReusable(slots[1..], now)
  }

  lemma {:induction false} FirstReusableIs(slots: seq<Slot>, now: Mono, k: nat)
    requires k <= |slots| && (k < |slots| ==> Reusable(slots[k], now))
    requires forall i :: 0 <= i < k ==> !Reusable(slots[i], now)
    ensures FirstReusable(slots, now) == k
  {
    var j := FirstReusable(slots, now);
    assert k < |slots| ==> j <= k;
  }

  predicate HasRoom(slots: seq<Slot>, now: Mono)
  {
    FirstReusable(slots, now) < |slots|
  }

  /** Milliseconds since the job was offered. */
  function Age(slots: seq<Slot>, id: string, now: Mono): (ms: int)
    requires Tracked(slots, id)
  {
    ElapsedMs(slots[SlotOf(slots, id)].mono, now)
  }

  predicate Hot(slots: seq<Slot>, id: string, timeout: int, now: Mono)
  {
    timeout > 0 && Tracked(slots, id) && Age(slots, id, now) < timeout
  }

  /** Not held back, and there is a place to remember the offer. */
  predicate Returnable(slots: seq<Slot>, id: string, timeout: int, now: Mono)
  {
    !Hot(slots, id, timeout, now) && (Tracked(slots, id) || HasRoom(slots, now))
  }

  function StoredId(id: string): (s: string)
  {
    if |id| <= ID_MAX then id else id[..ID_MAX]
  }

  /** The table after an offer: the job's slot, or the first reusable one, or no change. */
  function Marked(slots: seq<Slot>, id: string, timeout: int, now: Mono): (r: seq<Slot>)
    ensures |r| == |slots|
  {
    var k, f := SlotOf(slots, id), FirstReusable(slots, now);
    if id == "" then slots
    else if k < |slots| then slots[k := Slot(id, now, timeout)]
    else if f < |slots| then slots[f := Slot(StoredId(id), now, timeout)]
    else slots
  }

  function Released(slots: seq<Slot>, id: string): (r: seq<Slot>)
    ensures |r| == |slots|
  {
    var k := SlotOf(slots, id);
    if id == "" || k == |slots| then slots else slots[k := FREE]
  }

  predicate UniqueIds(slots: seq<Slot>)
  {
    forall i, j :: 0 <= i < j < |slots| && slots[i].id != "" ==> slots[i].id != slots[j].id
  }

  lemma {:induction false} MarkedUnique(slots: seq<Slot>, id: string, timeout: int, now: Mono)
    requires UniqueIds(slots) && |id| <= ID_MAX
    ensures UniqueIds(Marked(slots, id, timeout, now))
  {
    hide Reusable;
  }

  lemma {:induction false} ReleasedUnique(slots: seq<Slot>, id: string)
    requires UniqueIds(slots)
    ensures UniqueIds(Released(slots, id))
    ensures id != "" ==> !Tracked(Released(slots, id), id)
  {
    if id != "" { SlotOfIs(Released(slots, id), id, |slots|); }
  }

  // ------------------------------------------------------------------ the choice

  /** What a poll does with the due jobs: nothing, return one, or sleep and return one. */
  datatype Pick = NoJob | Offer(id: string) | WaitThenOffer(id: string)

  /** First key that may be returned and whose row can be read. */
  function FirstReturnable(slots: seq<Slot>, keys: seq<string>, readable: set<string>, timeout: int,
                           now: Mono): (k: nat)
    ensures k <= |keys|
    ensures k < |keys| ==> Returnable(slots, keys[k], timeout, now) && keys[k] in readable
    ensures forall i :: 0 <= i < k ==> !(Returnable(slots, keys[i], timeout, now) && keys[i] in readable)
  {
    if keys == [] || (Returnable(slots, keys[0], timeout, now) && keys[0] in readable) then 0
    else 1 + FirstReturnable(slots, keys[1..], readable, timeout, now)
  }

  lemma {:induction false} FirstReturnableIs(slots: seq<Slot>, keys: seq<string>, readable: set<string>, timeout: int,
                                             now: Mono, k: nat)
    requires k <= |keys|
    requires k < |keys| ==> Returnable(slots, keys[k], timeout, now) && keys[k] in readable
    requires forall i :: 0 <= i < k ==> !(Returnable(slots, keys[i], timeout, now) && keys[i] in readable)
    ensures FirstReturnable(slots, keys, readable, timeout, now) == k
  {
    hide Returnable;
    var j := FirstReturnable(slots, keys, readable, timeout, now);
    assert k < |keys| ==> j <= k;
  }

  function PickRow(slots: seq<Slot>, keys: seq<string>, readable: set<string>, timeout: int, now: Mono): (p: Pick)
  {
    var k := FirstReturnable(slots, keys, readable, timeout, now);
    if k < |keys| then Offer(keys[k])
    else if keys != [] && keys[0] in readable then WaitThenOffer(keys[0])
    else NoJob
  }

  /** Whenever some scanned job may be returned, the first such one in due order is, without waiting. */
  lemma {:induction false} FirstReturnableIsPicked(slots: seq<Slot>, keys: seq<string>, readable: set<string>,
                                                   timeout: int, now: Mono, k: nat)
    requires k < |keys| && Returnable(slots, keys[k], timeout, now) && keys[k] in readable
    ensures exists i :: 0 <= i <= k && PickRow(slots, keys, readable, timeout, now) == Offer(keys[i])
                        && Returnable(slots, keys[i], timeout, now)
                        && forall j :: 0 <= j < i ==> !(Returnable(slots, keys[j], timeout, now) && keys[j] in readable)
  {
    hide Returnable;
    assert FirstReturnable(slots, keys, readable, timeout, now) <= k;
  }

  /** The last nanosecond of a second. */
  const LATE := Mono(0, 999999999)

  /** A reading almost a millisecond short of the timeout after that. */
  function Early(timeout: int): (t: Mono)
    requires timeout > 0
    ensures ValidMono(t) && Ns(t) - Ns(LATE) == timeout * 1000000 - 999999 && ElapsedMs(LATE, t) == timeout
  {
    Mono((999 + timeout) / 1000, (999 + timeout) % 1000 * 1000000)
  }

  /** Whatever the timeout, rounding up can free a job almost a millisecond before it is over. */
  lemma {:induction false} ReturnableTooEarly(timeout: int)
    requires timeout > 0
    ensures Returnable([Slot("job", LATE, timeout)], "job", timeout, Early(timeout))
    ensures Ns(Early(timeout)) - Ns(LATE) < timeout * 1000000
  {
    hide Early, Ns;
    SlotOfIs([Slot("job", LATE, timeout)], "job", 0);
  }

  // ------------------------------------------------------------------- recording

  /** The offer of `id` at `at` is on record. */
  predicate OnRecord(slots: seq<Slot>, id: string, at: Mono)
  {
    exists i :: 0 <= i < |slots| && slots[i].id == id && slots[i].mono == at
  }

  lemma {:induction false} MarkedOnRecord(slots: seq<Slot>, id: string, timeout: int, now: Mono)
    requires id != "" && |id| <= ID_MAX && (Tracked(slots, id) || HasRoom(slots, now))
    ensures OnRecord(Marked(slots, id, timeout, now), id, now)
  {
    var k := if Tracked(slots, id) then SlotOf(slots, id) else FirstReusable(slots, now);
    assert Marked(slots, id, timeout, now)[k] == Slot(id, now, timeout);
  }

  /**
   * The corners of the table: a poll without a timeout holds no job back and keeps its slots for
   * good, a job without an id is not marked, and an id too long for a slot is stored cut.
   */
  lemma {:induction false} TableCorners(slots: seq<Slot>, id: string, timeout: int, now: Mono, mono: Mono)
    ensures timeout <= 0 ==> (Returnable(slots, id, timeout, now) <==> Tracked(slots, id) || HasRoom(slots, now))
    ensures timeout <= 0 && id != "" ==> !Reusable(Slot(id, mono, timeout), now)
    ensures Marked(slots, "", timeout, now) == slots
    ensures |id| > 127 && !Tracked(slots, id) && HasRoom(slots, now) ==>
              OnRecord(Marked(slots, id, timeout, now), id[..127], now)
  {
    hide ElapsedMs;
    if |id| > 127 && !Tracked(slots, id) && HasRoom(slots, now) {
      var k := FirstReusable(slots, now);
      assert Marked(slots, id, timeout, now)[k] == Slot(id[..127], now, timeout);
    }
  }

  /** Offers on record at `now` or before, all with the timeout `timeout`. */
  predicate TableAt(slots: seq<Slot>, timeout: int, now: Mono)
  {
    && |slots| == TRACKED && UniqueIds(slots)
    && forall i :: 0 <= i < |slots| && slots[i].id != "" ==>
         slots[i].timeout == timeout && ValidMono(slots[i].mono) && Ns(slots[i].mono) <= Ns(now)
  }

  lemma {:induction false} RoomStays(slots: seq<Slot>, timeout: int, now: Mono, later: Mono)
    requires TableAt(slots, timeout, now) && ValidMono(now) && ValidMono(later) && Ns(now) <= Ns(later)
    requires HasRoom(slots, now)
    ensures HasRoom(slots, later)
  {
    var k := FirstReusable(slots, now);
    hide ElapsedMs;
    if slots[k].id != "" { ElapsedMonotone(slots[k].mono, now, later); }
    assert Reusable(slots[k], later);
  }

  /** After a sleep of the full timeout every slot is free to be reused. */
  lemma {:induction false} RoomAfterTimeout(slots: seq<Slot>, timeout: int, now: Mono, later: Mono)
    requires TableAt(slots, timeout, now) && ValidMono(now) && ValidMono(later) && timeout > 0
    requires Ns(later) >= Ns(now) + timeout * 1000000
    ensures HasRoom(slots, later)
  {
    hide ElapsedMs;
    if slots[0].id != "" { ElapsedNearly(slots[0].mono, later, timeout); }
    assert Reusable(slots[0], later);
  }

  // ------------------------------------------------------------- the table itself

  class OfferTable {
    var slots: array<Slot>

    constructor ()
      ensures fresh(slots) && slots.Length == TRACKED
      ensures forall i :: 0 <= i < TRACKED ==> slots[i] == FREE
    {
      slots := new Slot[TRACKED](_ => FREE);
    }

    method AgeMs(id: string, now: Mono) returns (age: Option<int>)
      ensures age == if Tracked(slots[..], id) then Some(Age(slots[..], id, now)) else None
    {
      for i := 0 to slots.Length
        invariant forall j :: 0 <= j < i ==> slots[j].id != id
      {
        if slots[i].id == id {
          SlotOfIs(slots[..], id, i);
          return Some(ElapsedMs(slots[i].mono, now));
        }
      }
      SlotOfIs(slots[..], id, slots.Length);
      age := None;
    }

    method HasRoomNow(now: Mono) returns (room: bool)
      ensures room == HasRoom(slots[..], now)
    {
      for i := 0 to slots.Length
        invariant forall j :: 0 <= j < i ==> !Reusable(slots[j], now)
      {
        hide Reusable;
        if Reusable(slots[i], now) {
          FirstReusableIs(slots[..], now, i);
          return true;
        }
      }
      hide Reusable;
      FirstReusableIs(slots[..], now, slots.Length);
      room := false;
    }

    /** One pass: looks for the id while remembering the first reusable slot. */
    method MarkOffered(id: string, timeout: int, now: Mono)
      modifies slots
      ensures slots[..] == Marked(old(slots[..]), id, timeout, now)
    {
      if id == "" { return; }
      hide Reusable;
      ghost var before := slots[..];
      var slot: nat := slots.Length;
      for i := 0 to slots.Length
        invariant slots[..] == before
        invariant forall j :: 0 <= j < i ==> slots[j].id != id
        invariant slot == slots.Length || (slot < i && Reusable(slots[slot], now))
        invariant forall j :: 0 <= j < i && j < slot ==> !Reusable(slots[j], now)
      {
        if slots[i].id == id {
          SlotOfIs(before, id, i);
          slots[i] := Slot(id, now, timeout);
          return;
        }
        if slot == slots.Length && Reusable(slots[i], now) { slot := i; }
      }
      SlotOfIs(before, id, |before|);
      FirstReusableIs(before, now, slot);
      if slot < slots.Length { slots[slot] := Slot(StoredId(id), now, timeout); }
    }

    method Release(id: string)
      modifies slots
      ensures slots[..] == Released(old(slots[..]), id)
    {
      if id == "" { return; }
      ghost var before := slots[..];
      for i := 0 to slots.Length
        invariant slots[..] == before
        invariant forall j :: 0 <= j < i ==> slots[j].id != id
      {
        if slots[i].id == id {
          SlotOfIs(before, id, i);
          slots[i] := FREE;
          return;
        }
      }
      SlotOfIs(before, id, |before|);
    }

    method IsReturnable(id: string, timeout: int, now: Mono) returns (r: bool)
      ensures r == Returnable(slots[..], id, timeout, now)
    {
      hide HasRoom;
      var age := AgeMs(id, now);
      if timeout > 0 && age.Some? && age.value < timeout { return false; }
      if age.None? {
        var room := HasRoomNow(now);
        return room;
      }
      r := true;
    }

    /** Scans the due keys in order; `readable` are the ids whose row can be loaded. */
    method PickDueRow(keys: seq<string>, readable: set<string>, timeout: int, now: Mono) returns (p: Pick)
      ensures p == PickRow(slots[..], keys, readable, timeout, now)
    {
      hide Returnable;
      for i := 0 to |keys|
        invariant forall j :: 0 <= j < i ==> !(Returnable(slots[..], keys[j], timeout, now) && keys[j] in readable)
      {
        var r := IsReturnable(keys[i], timeout, now);
        if r && keys[i] in readable {
          FirstReturnableIs(slots[..], keys, readable, timeout, now, i);
          return Offer(keys[i]);
        }
      }
      FirstReturnableIs(slots[..], keys, readable, timeout, now, |keys|);
      p := if |keys| > 0 && keys[0] in readable then WaitThenOffer(keys[0]) else NoJob;
    }
  }
}
