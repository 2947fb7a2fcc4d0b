/**
 * Key backups: the listing sorted as it is read, and the pruning that keeps the newest
 * (src/asap/manifest_keys.c).
 */
module ManifestBackups {
  import opened Text

  const BACKUPS_KEEP := 5
  const BACKUPS_CAP := 64

  // ------------------------------------------------------------ sorting the backups

  /**
   * What follows the key file's name in a backup's name: the decimal stamp that rotation
   * writes, or any other text with the time it reads as, if it reads as one.
   */
  datatype Name = Stamp(ts: int) | Alias(id: nat, time: Option<int>)

  datatype Bak = Bak(name: Name, ts: int)

  function TimeOf(name: Name): (t: Option<int>)
  {
    match name
    case Stamp(ts) => Some(ts)
    case Alias(_, time) => time
  }

  /** The first `cap` names of a listing that read as a time. */
  function Stamped(order: seq<Name>, cap: nat): (bs: seq<Bak>)
    ensures |bs| <= cap && |bs| <= |order|
  {
    if order == [] || cap == 0 then []
    else if TimeOf(order[0]).None? then Stamped(order[1..], cap)
    else [Bak(order[0], TimeOf(order[0]).value)] + Stamped(order[1..], cap - 1)
  }

  predicate Newest(bs: seq<Bak>)
  {
    forall i, j :: 0 <= i < j < |bs| ==> bs[i].ts >= bs[j].ts
  }

  /** How many entries are not older than a time. */
  function CountAtLeast(bs: seq<Bak>, t: int): (n: nat)
    ensures n <= |bs|
  {
    if bs == [] then 0 else CountAtLeast(bs[..|bs| - 1], t) + (if bs[|bs| - 1].ts >= t then 1 else 0)
  }

  /** Where an entry of a time goes: behind the entries that are not older. */
  function PlaceOf(bs: seq<Bak>, t: int): (k: nat)
    ensures k <= |bs|
    ensures forall i :: k <= i < |bs| ==> bs[i].ts < t
    ensures k > 0 ==> bs[k - 1].ts >= t
  {
    if bs == [] || bs[|bs| - 1].ts >= t then |bs| else PlaceOf(bs[..|bs| - 1], t)
  }

  function Inserted(bs: seq<Bak>, b: Bak): (r: seq<Bak>)
  {
    Put(bs, PlaceOf(bs, b.ts), b)
  }

  function Put(bs: seq<Bak>, k: nat, b: Bak): (r: seq<Bak>)
    requires k <= |bs|
    ensures |r| == |bs| + 1
  {
    bs[..k] + [b] + bs[k..]
  }

  lemma {:induction false} PutAt(bs: seq<Bak>, k: nat, b: Bak, i: nat)
    requires k <= |bs| && i <= |bs|
    ensures Put(bs, k, b)[i] == if i < k then bs[i] else if i == k then b else bs[i - 1]
  {
  }

  lemma {:induction false} PutShifts(bs: seq<Bak>, k: nat, b: Bak, i: nat)
    requires k <= |bs| && i < |bs|
    ensures Put(bs, k, b)[if i < k then i else i + 1] == bs[i]
  {
  }

  lemma {:induction false} PutMultiset(bs: seq<Bak>, k: nat, b: Bak)
    requires k <= |bs|
    ensures multiset(Put(bs, k, b)) == multiset(bs) + multiset{b}
  {
    assert bs == bs[..k] + bs[k..];
  }

  function Sorted(bs: seq<Bak>): (r: seq<Bak>)
    ensures |r| == |bs|
  {
    if bs == [] then [] else Inserted(Sorted(bs[..|bs| - 1]), bs[|bs| - 1])
  }

  lemma {:induction false} PlaceDivides(bs: seq<Bak>, t: int)
    requires Newest(bs)
    ensures forall i :: 0 <= i < PlaceOf(bs, t) ==> bs[i].ts >= t
    ensures forall i :: PlaceOf(bs, t) <= i < |bs| ==> bs[i].ts < t
  {
  }

  lemma {:induction false} InsertedIsNewest(bs: seq<Bak>, b: Bak)
    requires Newest(bs)
    ensures Newest(Inserted(bs, b)) && multiset(Inserted(bs, b)) == multiset(bs) + multiset{b}
  {
    var k := PlaceOf(bs, b.ts);
    PlaceDivides(bs, b.ts);
    PutMultiset(bs, k, b);
    hide Put, PlaceOf;
    var r := Put(bs, k, b);
    forall i, j | 0 <= i < j < |r| ensures r[i].ts >= r[j].ts {
      PutAt(bs, k, b, i);
      PutAt(bs, k, b, j);
    }
  }

  /** The result is a permutation with the newest first. */
  lemma {:induction false} SortedIsNewest(bs: seq<Bak>)
    ensures Newest(Sorted(bs)) && multiset(Sorted(bs)) == multiset(bs)
  {
    if bs != [] {
      var n := |bs| - 1;
      SortedIsNewest(bs[..n]);
      InsertedIsNewest(Sorted(bs[..n]), bs[n]);
      assert bs == bs[..n] + [bs[n]];
    }
  }

  lemma {:induction false} PlaceIs(bs: seq<Bak>, t: int, k: nat)
    requires k <= |bs|
    requires (forall i :: 0 <= i < k ==> bs[i].ts >= t) && forall i :: k <= i < |bs| ==> bs[i].ts < t
    ensures PlaceOf(bs, t) == k
  {
    var j := PlaceOf(bs, t);
    assert j < |bs| ==> bs[j].ts < t;
  }

  /** Placing into the sorted entries counts the ones that are not older. */
  lemma {:induction false} PlaceCounts(bs: seq<Bak>, t: int)
    ensures PlaceOf(Sorted(bs), t) == CountAtLeast(bs, t)
  {
    if bs != [] {
      var n := |bs| - 1;
      PlaceCounts(bs[..n], t);
      SortedIsNewest(bs[..n]);
      SortedIsNewest(bs);
      InsertedShifts(Sorted(bs[..n]), bs[n], t);
    }
  }

  lemma {:induction false} InsertedShifts(bs: seq<Bak>, b: Bak, t: int)
    requires Newest(bs)
    ensures PlaceOf(Inserted(bs, b), t) == PlaceOf(bs, t) + (if b.ts >= t then 1 else 0)
  {
    var k, p := PlaceOf(bs, b.ts), PlaceOf(bs, t);
    PlaceDivides(bs, b.ts);
    PlaceDivides(bs, t);
    var r := Inserted(bs, b);
    var q := if b.ts >= t then p + 1 else p;
    assert r == Put(bs, k, b);
    hide Put, PlaceOf, Inserted;
    forall i | 0 <= i < |r| ensures if i < q then r[i].ts >= t else r[i].ts < t {
      PutAt(bs, k, b, i);
    }
    PlaceIs(r, t, q);
  }

  /** How many entries stand before the i-th: newer ones, and equally old ones listed earlier. */
  function Rank(bs: seq<Bak>, i: nat): (n: nat)
    requires i < |bs|
  {
    CountAtLeast(bs[..i], bs[i].ts) + CountAtLeast(bs[i + 1..], bs[i].ts + 1)
  }

  lemma {:induction false} RankOfLast(bs: seq<Bak>)
    requires bs != []
    ensures Rank(bs, |bs| - 1) == CountAtLeast(bs[..|bs| - 1], bs[|bs| - 1].ts)
  {
  }

  lemma {:induction false} RankBehind(bs: seq<Bak>, i: nat)
    requires i < |bs| - 1
    ensures Rank(bs, i) == Rank(bs[..|bs| - 1], i) + (if bs[|bs| - 1].ts > bs[i].ts then 1 else 0)
  {
    var n := |bs| - 1;
    assert bs[..n][..i] == bs[..i];
    assert bs[..n][i + 1..] == bs[i + 1..][..n - i - 1];
  }

  /** The sort is stable: each entry ends at its rank. */
  lemma {:induction false} SortedAtRank(bs: seq<Bak>, i: nat)
    requires i < |bs|
    ensures Rank(bs, i) < |bs| && Sorted(bs)[Rank(bs, i)] == bs[i]
  {
    if i == |bs| - 1 {
      LastAtRank(bs);
    } else {
      SortedAtRank(bs[..|bs| - 1], i);
      hide Sorted, Rank;
      EarlierAtRank(bs, i);
    }
  }

  lemma {:induction false} LastAtRank(bs: seq<Bak>)
    requires bs != []
    ensures Rank(bs, |bs| - 1) < |bs| && Sorted(bs)[Rank(bs, |bs| - 1)] == bs[|bs| - 1]
  {
    var n := |bs| - 1;
    var before := Sorted(bs[..n]);
    var k := PlaceOf(before, bs[n].ts);
    assert Sorted(bs) == Put(before, k, bs[n]);
    hide Sorted, Put, PlaceOf, Rank;
    PutAt(before, k, bs[n], k);
    PlaceCounts(bs[..n], bs[n].ts);
    RankOfLast(bs);
  }

  /** An insertion leaves an entry in its place, or one behind if the new one is newer. */
  lemma {:induction false} InsertedKeeps(bs: seq<Bak>, b: Bak, q: nat)
    requires Newest(bs) && q < |bs|
    ensures |Inserted(bs, b)| == |bs| + 1
    ensures Inserted(bs, b)[if b.ts > bs[q].ts then q + 1 else q] == bs[q]
  {
    PlaceDivides(bs, b.ts);
    PutShifts(bs, PlaceOf(bs, b.ts), b, q);
  }

  /** Inserting the last entry moves an earlier one exactly as it moves its rank. */
  lemma {:induction false} EarlierAtRank(bs: seq<Bak>, i: nat)
    requires i < |bs| - 1
    requires var rest := bs[..|bs| - 1]; Rank(rest, i) < |rest| && Sorted(rest)[Rank(rest, i)] == bs[i]
    ensures Rank(bs, i) < |bs| && Sorted(bs)[Rank(bs, i)] == bs[i]
  {
    var rest, b := bs[..|bs| - 1], bs[|bs| - 1];
    assert Sorted(bs) == Inserted(Sorted(rest), b);
    hide *;
    RankBehind(bs, i);
    SortedIsNewest(rest);
    InsertedKeeps(Sorted(rest), b, Rank(rest, i));
  }

  // ---------------------------------------------------------------------- pruning

  ghost predicate DistinctNames(order: seq<Name>)
  {
    forall i, j :: 0 <= i < j < |order| ==> order[i] != order[j]
  }

  function NamesOf(bs: seq<Bak>): (ns: set<Name>)
  {
    set i | 0 <= i < |bs| :: bs[i].name
  }

  /** The entries pruning removes: all but the newest of the collected ones. */
  function Stale(order: seq<Name>): (ns: set<Name>)
  {
    var bs := Sorted(Stamped(order, BACKUPS_CAP));
    if |bs| <= BACKUPS_KEEP then {} else NamesOf(bs[BACKUPS_KEEP..])
  }

  lemma {:induction false} StampedAreListed(order: seq<Name>, cap: nat, i: nat)
    requires i < |Stamped(order, cap)|
    ensures Stamped(order, cap)[i].name in order
  {
    if TimeOf(order[0]).None? {
      StampedAreListed(order[1..], cap, i);
    } else if i > 0 {
      StampedAreListed(order[1..], cap - 1, i - 1);
    }
  }

  lemma {:induction false} StampedDistinct(order: seq<Name>, cap: nat, i: nat, j: nat)
    requires DistinctNames(order) && i < j < |Stamped(order, cap)|
    ensures Stamped(order, cap)[i].name != Stamped(order, cap)[j].name
  {
    assert DistinctNames(order[1..]);
    if TimeOf(order[0]).None? {
      StampedDistinct(order[1..], cap, i, j);
    } else if i > 0 {
      StampedDistinct(order[1..], cap - 1, i - 1, j - 1);
    } else {
      StampedAreListed(order[1..], cap - 1, j - 1);
    }
  }

  /** Every position of the sorted entries is some entry's rank. */
  lemma {:induction false} SomeHasRank(bs: seq<Bak>, k: nat) returns (i: nat)
    requires k < |bs|
    ensures i < |bs| && Sorted(bs)[k] == bs[i]
  {
    SortedIsNewest(bs);
    assert Sorted(bs)[k] in multiset(Sorted(bs));
    assert Sorted(bs)[k] in bs;
    i :| 0 <= i < |bs| && bs[i] == Sorted(bs)[k];
  }

  /** The sorted entries carry one name once. */
  lemma {:induction false} SortedNamesDistinct(bs: seq<Bak>)
    requires forall i, j :: 0 <= i < j < |bs| ==> bs[i].name != bs[j].name
    ensures forall i, j :: 0 <= i < j < |bs| ==> Sorted(bs)[i].name != Sorted(bs)[j].name
  {
    if bs != [] {
      var n := |bs| - 1;
      SortedNamesDistinct(bs[..n]);
      var before := Sorted(bs[..n]);
      var k := PlaceOf(before, bs[n].ts);
      assert Sorted(bs) == Put(before, k, bs[n]);
      hide Sorted, PlaceOf;
      forall k | 0 <= k < n ensures before[k].name != bs[n].name {
        var i := SomeHasRank(bs[..n], k);
      }
      hide Put;
      forall i, j | 0 <= i < j < n + 1 ensures Sorted(bs)[i].name != Sorted(bs)[j].name {
        PutAt(before, k, bs[n], i);
        PutAt(before, k, bs[n], j);
      }
    }
  }

  /** Pruning removes a collected backup exactly when five of the collected ones stand before it. */
  lemma {:induction false} PruneKeepsFiveNewest(order: seq<Name>, i: nat)
    requires DistinctNames(order) && i < |Stamped(order, BACKUPS_CAP)|
    ensures var bs := Stamped(order, BACKUPS_CAP);
            bs[i].name in Stale(order) <==> Rank(bs, i) >= BACKUPS_KEEP
  {
    var bs := Stamped(order, BACKUPS_CAP);
    forall i, j | 0 <= i < j < |bs| ensures bs[i].name != bs[j].name {
      StampedDistinct(order, BACKUPS_CAP, i, j);
    }
    SortedNamesDistinct(bs);
    SortedAtRank(bs, i);
    var ss, r := Sorted(bs), Rank(bs, i);
    assert Stale(order) == if |ss| <= BACKUPS_KEEP then {} else NamesOf(ss[BACKUPS_KEEP..]);
    hide Sorted, Rank, Stamped, Stale;
    if r >= BACKUPS_KEEP {
      assert ss[BACKUPS_KEEP..][r - BACKUPS_KEEP] == ss[r];
    } else if |ss| > BACKUPS_KEEP {
      var rest := ss[BACKUPS_KEEP..];
      forall j | 0 <= j < |rest| ensures rest[j].name != bs[i].name {
        assert rest[j] == ss[BACKUPS_KEEP + j];
      }
    }
  }

  /** Names that do not read as a time, and those beyond the cap, are left alone. */
  lemma {:induction false} PruneLeavesTheRest(order: seq<Name>, name: Name)
    requires name in Stale(order)
    ensures exists i :: 0 <= i < |Stamped(order, BACKUPS_CAP)| && Stamped(order, BACKUPS_CAP)[i].name == name
  {
    var bs := Stamped(order, BACKUPS_CAP);
    var k :| 0 <= k < |Sorted(bs)[BACKUPS_KEEP..]| && Sorted(bs)[BACKUPS_KEEP..][k].name == name;
    var i := SomeHasRank(bs, BACKUPS_KEEP + k);
  }

  /** Fewer than five collected entries stand before the name's, if it was collected. */
  ghost predicate AmongNewest(order: seq<Name>, name: Name)
  {
    var bs := Stamped(order, BACKUPS_CAP);
    forall i :: 0 <= i < |bs| && bs[i].name == name ==> Rank(bs, i) < BACKUPS_KEEP
  }

  /** What pruning removes, name by name. */
  lemma {:induction false} StaleExactly(order: seq<Name>, name: Name)
    requires DistinctNames(order)
    ensures name in Stale(order) <==> !AmongNewest(order, name)
  {
    var bs := Stamped(order, BACKUPS_CAP);
    hide Stale, Stamped, Rank, DistinctNames;
    forall i | 0 <= i < |bs| ensures bs[i].name in Stale(order) <==> Rank(bs, i) >= BACKUPS_KEEP {
      PruneKeepsFiveNewest(order, i);
    }
    if name in Stale(order) { PruneLeavesTheRest(order, name); }
  }

  lemma {:induction false} NoneAsOld(bs: seq<Bak>, t: int)
    requires forall i :: 0 <= i < |bs| ==> bs[i].ts < t
    ensures CountAtLeast(bs, t) == 0
  {
    if bs != [] { NoneAsOld(bs[..|bs| - 1], t); }
  }

  /** A backup newer than every other one is kept. */
  lemma {:induction false} NewestIsKept(order: seq<Name>, i: nat)
    requires DistinctNames(order) && i < |Stamped(order, BACKUPS_CAP)|
    requires var bs := Stamped(order, BACKUPS_CAP);
             forall j :: 0 <= j < |bs| && j != i ==> bs[j].ts < bs[i].ts
    ensures Stamped(order, BACKUPS_CAP)[i].name !in Stale(order)
  {
    var bs := Stamped(order, BACKUPS_CAP);
    NoneAsOld(bs[..i], bs[i].ts);
    NoneAsOld(bs[i + 1..], bs[i].ts + 1);
    PruneKeepsFiveNewest(order, i);
  }

  /**
   * Reads a listing into the array, each entry slid forward past the older ones, until the
   * array is full.
   */
  method CollectBaks(order: seq<Name>, out: array<Bak>) returns (count: nat)
    modifies out
    ensures count <= out.Length && out[..count] == Sorted(Stamped(order, out.Length))
  {
    count := 0;
    var i := 0;
    ghost var taken: seq<Bak> := [];
    CollectingStart(order, out.Length);
    hide Stamped, Sorted, Inserted, TimeOf;
    while i < |order| && count < out.Length
      invariant i <= |order| && count <= out.Length
      invariant out[..count] == Sorted(taken) && Collecting(order, out.Length, i, taken)
    {
      CollectingStep(order, out.Length, i, taken);
      hide Collecting;
      var t := TimeOf(order[i]);
      i := i + 1;
      if t.None? { continue; }
      var e := Bak(order[i - 1], t.value);
      InsertEntry(out, count, e);
      SortedSnoc(taken, e);
      taken := taken + [e];
      count := count + 1;
    }
    CollectingEnd(order, out.Length, i, taken);
  }

  /** The first `i` names of the listing held the entries taken. */
  ghost predicate Collecting(order: seq<Name>, cap: nat, i: nat, taken: seq<Bak>)
    requires i <= |order|
  {
    |taken| <= cap && taken + Stamped(order[i..], cap - |taken|) == Stamped(order, cap)
  }

  lemma {:induction false} CollectingStart(order: seq<Name>, cap: nat)
    ensures Collecting(order, cap, 0, []) && Sorted([]) == []
  {
    assert order[0..] == order;
  }

  lemma {:induction false} CollectingStep(order: seq<Name>, cap: nat, i: nat, taken: seq<Bak>)
    requires i < |order| && Collecting(order, cap, i, taken) && |taken| < cap
    ensures var t := TimeOf(order[i]);
            Collecting(order, cap, i + 1, if t.None? then taken else taken + [Bak(order[i], t.value)])
  {
    StampedStep(order[i..], cap - |taken|);
    hide Stamped, TimeOf;
    assert order[i..][1..] == order[i + 1..];
    if TimeOf(order[i]).Some? {
      var e := Bak(order[i], TimeOf(order[i]).value);
      var rest := Stamped(order[i + 1..], cap - |taken| - 1);
      assert (taken + [e]) + rest == taken + ([e] + rest);
    }
  }

  lemma {:induction false} CollectingEnd(order: seq<Name>, cap: nat, i: nat, taken: seq<Bak>)
    requires i <= |order| && Collecting(order, cap, i, taken) && (i == |order| || |taken| == cap)
    ensures taken == Stamped(order, cap)
  {
    StampedNone(order[i..], cap - |taken|);
    assert taken + [] == taken;
  }

  lemma {:induction false} StampedStep(order: seq<Name>, cap: nat)
    requires order != [] && cap > 0
    ensures var t := TimeOf(order[0]);
            Stamped(order, cap) ==
              if t.None? then Stamped(order[1..], cap) else [Bak(order[0], t.value)] + Stamped(order[1..], cap - 1)
  {
  }

  lemma {:induction false} StampedNone(order: seq<Name>, cap: nat)
    ensures order == [] || cap == 0 ==> Stamped(order, cap) == []
  {
  }

  lemma {:induction false} SortedSnoc(bs: seq<Bak>, b: Bak)
    ensures Sorted(bs + [b]) == Inserted(Sorted(bs), b)
  {
    assert (bs + [b])[..|bs|] == bs;
  }

  /** Slides the older entries one place back and puts the new one in the gap. */
  method InsertEntry(out: array<Bak>, count: nat, e: Bak)
    requires count < out.Length
    modifies out
    ensures out[..count + 1] == Inserted(old(out[..count]), e)
  {
    ghost var was := out[..count];
    var i := count;
    while i > 0 && out[i - 1].ts < e.ts
      invariant i <= count
      invariant forall j :: 0 <= j < i ==> out[j] == was[j]
      invariant forall j :: i < j <= count ==> out[j] == was[j - 1]
      invariant forall j :: i <= j < count ==> was[j].ts < e.ts
    {
      out[i] := out[i - 1];
      i := i - 1;
    }
    out[i] := e;
    SlidIn(was, i, e, out[..count + 1]);
  }

  lemma {:induction false} SlidIn(was: seq<Bak>, k: nat, e: Bak, now: seq<Bak>)
    requires k <= |was| && |now| == |was| + 1 && now[k] == e
    requires (forall j :: 0 <= j < k ==> now[j] == was[j]) && forall j :: k < j < |now| ==> now[j] == was[j - 1]
    requires (k > 0 ==> was[k - 1].ts >= e.ts) && forall j :: k <= j < |was| ==> was[j].ts < e.ts
    ensures now == Inserted(was, e)
  {
    PlaceFound(was, e.ts, k);
    hide PlaceOf, Put;
    forall j | 0 <= j < |now| ensures now[j] == Put(was, k, e)[j] {
      PutAt(was, k, e, j);
    }
  }

  lemma {:induction false} PlaceFound(bs: seq<Bak>, t: int, k: nat)
    requires k <= |bs| && (k > 0 ==> bs[k - 1].ts >= t) && forall j :: k <= j < |bs| ==> bs[j].ts < t
    ensures PlaceOf(bs, t) == k
  {
    if k < |bs| { PlaceFound(bs[..|bs| - 1], t, k); }
  }

  /** Unlinks the entries behind the newest ones. */
  method PrunePrefix<T>(baks: map<Name, T>, order: seq<Name>) returns (left: map<Name, T>)
    ensures left == baks - Stale(order)
  {
    var out := new Bak[BACKUPS_CAP](_ => Bak(Stamp(0), 0));
    var count := CollectBaks(order, out);
    ghost var bs := Sorted(Stamped(order, BACKUPS_CAP));
    hide Stale, Stamped, Sorted;
    left := baks;
    ghost var gone := {};
    var i := BACKUPS_KEEP;
    while i < count
      invariant BACKUPS_KEEP <= i && (i <= count || i == BACKUPS_KEEP)
      invariant out[..count] == bs && left == baks - gone && gone == NamesFrom(bs, i)
    {
      assert out[..count][i] == bs[i];
      gone := gone + {out[i].name};
      left := left - {out[i].name};
      NamesFromNext(bs, i);
      assert left == baks - gone;
      i := i + 1;
    }
    StaleIs(order);
  }

  /** Names of the entries from the sixth up to a position. */
  ghost function NamesFrom(bs: seq<Bak>, i: nat): (ns: set<Name>)
  {
    set j | BACKUPS_KEEP <= j < i && j < |bs| :: bs[j].name
  }

  lemma {:induction false} NamesFromNext(bs: seq<Bak>, i: nat)
    requires BACKUPS_KEEP <= i < |bs|
    ensures NamesFrom(bs, i + 1) == NamesFrom(bs, i) + {bs[i].name}
  {
  }

  lemma {:induction false} StaleIs(order: seq<Name>)
    ensures var bs := Sorted(Stamped(order, BACKUPS_CAP));
            Stale(order) == NamesFrom(bs, |bs|)
              && (|bs| <= BACKUPS_KEEP ==> NamesFrom(bs, BACKUPS_KEEP) == NamesFrom(bs, |bs|))
    ensures NamesFrom(Sorted(Stamped(order, BACKUPS_CAP)), BACKUPS_KEEP) == {}
  {
    var bs := Sorted(Stamped(order, BACKUPS_CAP));
    hide Sorted, Stamped;
    if |bs| > BACKUPS_KEEP {
      assert forall j :: BACKUPS_KEEP <= j < |bs| ==> bs[j] == bs[BACKUPS_KEEP..][j - BACKUPS_KEEP];
    }
  }
}
