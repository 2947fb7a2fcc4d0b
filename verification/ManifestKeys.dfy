/**
 * Loading, first creation and rotation of the agent's signing keys under write faults
 * (src/asap/manifest_keys.c). Every write has an outcome of its own, chosen from outside.
 */
module ManifestKeys {
  import opened ManifestBackups
  import opened Text

  // -------------------------------------------------------------------- the state

  /** A secret key: the seed followed by the public key it belongs to. */
  datatype Secret = Secret(seed: int, pub: int)

  /** A key file; `content` is the key when the file reads as one of the right size. */
  datatype KeyFile<T> = Absent | Present(private: bool, content: Option<T>)

  datatype Disk = Disk(
    priv: KeyFile<Secret>, pub: KeyFile<int>,
    privBaks: map<Name, Secret>, pubBaks: map<Name, int>)

  /** The key files, and the buffers with their loaded flag. */
  datatype State = State(loaded: bool, pub: int, priv: Secret, disk: Disk)

  /** A backup write fails before it opens the file, or after, and then it unlinks the file. */
  datatype Write = Written | NotOpened | Aborted

  /** What the surroundings decide during one call. */
  datatype World = World(
    now: Option<int>, dirOk: bool, newKey: Option<Secret>,
    bakPriv: Write, bakPub: Write, priv: bool, pub: bool, restore: bool,
    privOrder: seq<Name>, pubOrder: seq<Name>)

  datatype Outcome = Outcome(state: State, ok: bool)

  const ZERO := Secret(0, 0)

  function ContentOf<T>(f: KeyFile<T>): (c: Option<T>)
  {
    if f.Present? then f.content else None
  }

  function KeyIn<T>(key: T): (f: KeyFile<T>)
  {
    Present(true, Some(key))
  }

  predicate PermissionsOk<T>(f: KeyFile<T>)
  {
    f.Present? ==> f.private
  }

  predicate HasPair(d: Disk)
  {
    ContentOf(d.priv).Some? && ContentOf(d.pub).Some?
  }

  function BackedUp<T>(baks: map<Name, T>, name: Name, key: T, w: Write): (r: map<Name, T>)
  {
    match w
    case Written => baks[name := key]
    case NotOpened => baks
    case Aborted => baks - {name}
  }

  // ------------------------------------------------------------------ what calls do

  function Cleared(s: State): (r: State)
  {
    State(false, 0, ZERO, s.disk)
  }

  function Loaded(s: State, w: World): (r: Outcome)
  {
    if s.loaded then Outcome(s, true)
    else if s.disk.priv.Present? then
      if !PermissionsOk(s.disk.priv) || ContentOf(s.disk.priv).None? then Outcome(s, false)
      else
        var s1 := s.(priv := ContentOf(s.disk.priv).value);
        if ContentOf(s.disk.pub).None? then Outcome(s1, false)
        else
          var s2 := s1.(pub := ContentOf(s.disk.pub).value);
          Outcome(s2.(loaded := s2.pub == s2.priv.pub), s2.pub == s2.priv.pub)
    else Created(s, w)
  }

  function Created(s: State, w: World): (r: Outcome)
  {
    if !w.dirOk || w.newKey.None? then Outcome(s, false)
    else
      var s1 := s.(pub := w.newKey.value.pub, priv := w.newKey.value);
      if !w.priv then Outcome(s1, false)
      else if !w.pub then Outcome(s1.(disk := s1.disk.(priv := Absent)), false)
      else Outcome(s1.(loaded := true, disk := s1.disk.(priv := KeyIn(s1.priv), pub := KeyIn(s1.pub))), true)
  }

  /** Backups in the order they are written; the second is tried only after the first. */
  function WithBackups(d: Disk, w: World, name: Name): (r: Disk)
    requires HasPair(d)
  {
    var d1 := d.(privBaks := BackedUp(d.privBaks, name, ContentOf(d.priv).value, w.bakPriv));
    if w.bakPriv != Written then d1
    else d1.(pubBaks := BackedUp(d.pubBaks, name, ContentOf(d.pub).value, w.bakPub))
  }

  function Rotated(s: State, w: World): (r: Outcome)
  {
    var s0 := Cleared(s);
    if !PermissionsOk(s.disk.priv) || w.now.None? || !w.dirOk || w.newKey.None? then Outcome(s0, false)
    else
      var s1 := s0.(pub := w.newKey.value.pub, priv := w.newKey.value);
      var had := HasPair(s.disk);
      var s2 := if had then s1.(disk := WithBackups(s.disk, w, Stamp(w.now.value))) else s1;
      if had && !(w.bakPriv == w.bakPub == Written) then Outcome(s2, false)
      else Replaced(s2, w, had)
  }

  /** The two live files are replaced, or put back. */
  function Replaced(s: State, w: World, had: bool): (r: Outcome)
    requires had ==> HasPair(s.disk)
  {
    if !w.priv then Outcome(s, false)
    else if w.pub then
      var d := s.disk.(priv := KeyIn(s.priv), pub := KeyIn(s.pub));
      Outcome(s.(loaded := true, disk := if had then Pruned(d, w) else d), true)
    else if had then
      var oldPriv := ContentOf(s.disk.priv).value;
      var d := s.disk.(priv := KeyIn(if w.restore then oldPriv else s.priv));
      Outcome(State(true, ContentOf(s.disk.pub).value, oldPriv, d), false)
    else
      Outcome(Cleared(s.(disk := s.disk.(priv := Absent))), false)
  }

  function Pruned(d: Disk, w: World): (r: Disk)
  {
    d.(privBaks := d.privBaks - Stale(w.privOrder), pubBaks := d.pubBaks - Stale(w.pubOrder))
  }

  class KeyStore {
    var loaded: bool
    var pub: int
    var priv: Secret
    var disk: Disk

    ghost function Now(): (s: State)
      reads this
    {
      State(loaded, pub, priv, disk)
    }

    constructor (disk: Disk)
      ensures Now() == State(false, 0, ZERO, disk)
    {
      this.loaded, this.pub, this.priv, this.disk := false, 0, ZERO, disk;
    }

    method ClearLoaded()
      modifies this
      ensures Now() == Cleared(old(Now()))
    {
      loaded, pub, priv := false, 0, ZERO;
    }

    method WritePriv(key: Secret, works: bool) returns (ok: bool)
      modifies this`disk
      ensures ok == works && disk == if works then old(disk).(priv := KeyIn(key)) else old(disk)
    {
      if works { disk := disk.(priv := KeyIn(key)); }
      ok := works;
    }

    method WritePub(key: int, works: bool) returns (ok: bool)
      modifies this`disk
      ensures ok == works && disk == if works then old(disk).(pub := KeyIn(key)) else old(disk)
    {
      if works { disk := disk.(pub := KeyIn(key)); }
      ok := works;
    }

    method CreateAndPersist(w: World) returns (ok: bool)
      requires !loaded && disk.priv.Absent?
      modifies this
      ensures Outcome(Now().(loaded := ok), ok) == Created(old(Now()), w) && !loaded
    {
      if !w.dirOk || w.newKey.None? { return false; }
      pub, priv := w.newKey.value.pub, w.newKey.value;
      ok := WritePriv(priv, w.priv);
      if !ok { return false; }
      ok := WritePub(pub, w.pub);
      if !ok { disk := disk.(priv := Absent); }
    }

    method LoadFromDisk() returns (ok: bool)
      requires !loaded && disk.priv.Present?
      modifies this
      ensures forall w :: Outcome(Now().(loaded := ok), ok) == Loaded(old(Now()), w)
      ensures !loaded
    {
      if !PermissionsOk(disk.priv) || ContentOf(disk.priv).None? { return false; }
      priv := ContentOf(disk.priv).value;
      if ContentOf(disk.pub).None? { return false; }
      pub := ContentOf(disk.pub).value;
      ok := pub == priv.pub;
    }

    method Load(w: World) returns (ok: bool)
      modifies this
      ensures Outcome(Now(), ok) == Loaded(old(Now()), w)
    {
      if loaded { return true; }
      if disk.priv.Present? {
        ok := LoadFromDisk();
      } else {
        ok := CreateAndPersist(w);
      }
      if ok { loaded := true; }
    }

    method Rotate(w: World) returns (ok: bool)
      modifies this
      ensures Outcome(Now(), ok) == Rotated(old(Now()), w)
    {
      hide Stale;
      ClearLoaded();
      if !PermissionsOk(disk.priv) { return false; }
      var had := HasPair(disk);
      var oldPriv, oldPub := ZERO, 0;
      if had { oldPriv, oldPub := ContentOf(disk.priv).value, ContentOf(disk.pub).value; }
      if w.now.None? || !w.dirOk || w.newKey.None? { return false; }
      pub, priv := w.newKey.value.pub, w.newKey.value;
      if had {
        var name := Stamp(w.now.value);
        disk := disk.(privBaks := BackedUp(disk.privBaks, name, oldPriv, w.bakPriv));
        if w.bakPriv != Written { return false; }
        disk := disk.(pubBaks := BackedUp(disk.pubBaks, name, oldPub, w.bakPub));
        if w.bakPub != Written { return false; }
      }
      ok := WritePriv(priv, w.priv);
      if !ok { return false; }
      ok := WritePub(pub, w.pub);
      if !ok {
        if had {
          var restored := WritePriv(oldPriv, w.restore);
          loaded, pub, priv := true, oldPub, oldPriv;
        } else {
          disk := disk.(priv := Absent);
          ClearLoaded();
        }
        return false;
      }
      loaded := true;
      if had {
        var privBaks := PrunePrefix(disk.privBaks, w.privOrder);
        var pubBaks := PrunePrefix(disk.pubBaks, w.pubOrder);
        disk := disk.(privBaks := privBaks, pubBaks := pubBaks);
      }
    }
  }

  // ------------------------------------------------------------------ what they keep

  /** No secret key, or a private one with its own public key beside it. */
  predicate Whole(d: Disk)
  {
    d.priv.Absent? || (d.priv.Present? && d.priv.private && HasPair(d)
      && d.priv.content.value.pub == ContentOf(d.pub).value)
  }

  /** The disk is whole, and loaded keys are the ones on it. */
  predicate Consistent(s: State)
  {
    && Whole(s.disk)
    && (s.loaded ==>
         s.disk.priv.Present? && ContentOf(s.disk.priv) == Some(s.priv) && ContentOf(s.disk.pub) == Some(s.pub))
  }

  /** The one way to tear a pair: its public key cannot be replaced, nor its secret key put back. */
  predicate Torn(s: State, w: World)
  {
    && HasPair(s.disk) && w.now.Some? && w.dirOk && w.newKey.Some?
    && w.bakPriv == w.bakPub == Written && w.priv && !w.pub && !w.restore
    && Some(w.newKey.value) != ContentOf(s.disk.priv)
  }

  predicate SameLive(d: Disk, e: Disk)
  {
    d.priv == e.priv && d.pub == e.pub
  }

  /** Rotation leaves a consistent store exactly when it does not tear the pair, whatever fails. */
  lemma {:induction false} RotationTearsExactly(s: State, w: World)
    requires Whole(s.disk)
    ensures Consistent(Rotated(s, w).state) <==> !Torn(s, w)
  {
    hide Stale;
  }

  /**
   * Exactly when loading succeeds, and what it leaves: loaded keys stay; a private key file must be
   * readable, closed to others, and match a readable public one; with no private key file a new
   * pair must be generated and both files written, and a failed public write takes the other back.
   */
  lemma {:induction false} LoadsExactly(s: State, w: World)
    ensures var r, d := Loaded(s, w), s.disk;
            if s.loaded then r == Outcome(s, true)
            else if d.priv.Present? then
              && (r.ok <==> d.priv.private && d.priv.content.Some? && d.pub.Present?
                            && d.pub.content == Some(d.priv.content.value.pub))
              && r.state.disk == d && r.state.loaded == r.ok
              && (r.ok ==> Some(r.state.priv) == d.priv.content && Some(r.state.pub) == d.pub.content)
            else
              && (r.ok <==> w.dirOk && w.newKey.Some? && w.priv && w.pub)
              && r.state.loaded == r.ok
              && (!r.ok ==> r.state.disk == d)
              && (r.ok ==>
                    var key := w.newKey.value;
                    && r.state.priv == key && r.state.pub == key.pub
                    && r.state.disk == d.(priv := Present(true, Some(key)), pub := Present(true, Some(key.pub))))
  {
  }

  /** The rotation gets past its checks, to the point where it writes. */
  predicate Reaches(s: State, w: World)
  {
    (s.disk.priv.Absent? || s.disk.priv.private) && w.now.Some? && w.dirOk && w.newKey.Some?
  }

  /** There is a pair to back up: both files are there and can be read. */
  predicate Had(d: Disk)
  {
    d.priv.Present? && d.priv.content.Some? && d.pub.Present? && d.pub.content.Some?
  }

  /**
   * Exactly when a rotation succeeds, which keys are loaded after it, and what the live files are:
   * the new pair after success; after a failed public write the old public key with the old secret
   * key put back, if that works, and the old pair loaded; otherwise the old files, and nothing loaded.
   */
  lemma {:induction false} RotatesExactly(s: State, w: World)
    ensures var r, d := Rotated(s, w), s.disk;
            var writes := Reaches(s, w) && (Had(d) ==> w.bakPriv == Written && w.bakPub == Written);
            var halfway := writes && w.priv && !w.pub;
            && (r.ok <==> writes && w.priv && w.pub)
            && (r.state.loaded <==> r.ok || (halfway && Had(d)))
            && (r.ok ==>
                  var key := w.newKey.value;
                  && r.state.priv == key && r.state.pub == key.pub
                  && r.state.disk.priv == Present(true, Some(key)) && r.state.disk.pub == Present(true, Some(key.pub)))
            && (halfway && Had(d) ==>
                  && Some(r.state.priv) == d.priv.content && Some(r.state.pub) == d.pub.content
                  && r.state.disk.priv == Present(true, if w.restore then d.priv.content else w.newKey)
                  && r.state.disk.pub == d.pub)
            && (halfway && !Had(d) ==> r.state.disk == d.(priv := Absent))
            && (!Reaches(s, w) || (halfway && !Had(d)) ==> r.state.pub == 0 && r.state.priv == Secret(0, 0))
            && (!r.ok && !halfway ==> r.state.disk.priv == d.priv && r.state.disk.pub == d.pub)
  {
    hide Stale;
  }

  /** The backups a rotation leaves: as the two writes went, and pruned after success alone. */
  lemma {:induction false} RotationBacksUpExactly(s: State, w: World)
    ensures var r, d := Rotated(s, w), s.disk;
            if !Reaches(s, w) || !Had(d)
            then r.state.disk.privBaks == d.privBaks && r.state.disk.pubBaks == d.pubBaks
            else
              var name := Stamp(w.now.value);
              var privBaks := match w.bakPriv
                case Written => d.privBaks[name := d.priv.content.value]
                case NotOpened => d.privBaks
                case Aborted => d.privBaks - {name};
              var pubBaks := match (if w.bakPriv == Written then w.bakPub else NotOpened)
                case Written => d.pubBaks[name := d.pub.content.value]
                case NotOpened => d.pubBaks
                case Aborted => d.pubBaks - {name};
              && r.state.disk.privBaks == (if r.ok then privBaks - Stale(w.privOrder) else privBaks)
              && r.state.disk.pubBaks == (if r.ok then pubBaks - Stale(w.pubOrder) else pubBaks)
  {
    hide Stale;
  }

  /** Unless torn, the live files are the fresh pair after success and the old ones after failure. */
  lemma {:induction false} RotationIsOldOrNew(s: State, w: World)
    requires Whole(s.disk) && !Torn(s, w)
    ensures var r := Rotated(s, w);
            && (r.ok ==> w.newKey.Some? && r.state.loaded && r.state.disk.priv == KeyIn(w.newKey.value)
                         && r.state.disk.pub == KeyIn(w.newKey.value.pub))
            && (!r.ok ==> SameLive(r.state.disk, s.disk))
  {
    hide Stale;
  }

  function Faults(w: World): (n: nat)
  {
    (if w.bakPriv == Written then 0 else 1) + (if w.bakPub == Written then 0 else 1) + (if w.priv then 0 else 1)
    + (if w.pub then 0 else 1) + (if w.restore then 0 else 1)
  }

  lemma {:induction false} LoadKeepsConsistent(s: State, w: World)
    requires Consistent(s)
    ensures Consistent(Loaded(s, w).state)
    ensures Loaded(s, w).ok == Loaded(s, w).state.loaded
  {
  }

  /** Whatever is on the disk, keys that load are a private, matching pair from it. */
  lemma {:induction false} LoadRefusesMismatch(s: State, w: World)
    requires !s.loaded
    ensures Loaded(s, w).ok ==> Consistent(Loaded(s, w).state) && Loaded(s, w).state.loaded
  {
  }

  /** A failed rotation loses no key: the old pair is live still, or torn with both halves backed up. */
  lemma {:induction false} FailureLosesNothing(s: State, w: World)
    requires Whole(s.disk) && HasPair(s.disk) && !Rotated(s, w).ok
    ensures var d := Rotated(s, w).state.disk;
            || SameLive(d, s.disk)
            || (&& Stamp(w.now.value) in d.privBaks && Some(d.privBaks[Stamp(w.now.value)]) == ContentOf(s.disk.priv)
                && Stamp(w.now.value) in d.pubBaks && Some(d.pubBaks[Stamp(w.now.value)]) == ContentOf(s.disk.pub))
  {
    hide Stale;
  }

  /** A successful rotation keeps its own backup of a half exactly when pruning does not reach it. */
  lemma {:induction false} SuccessBacksUp(s: State, w: World)
    requires Whole(s.disk) && HasPair(s.disk) && Rotated(s, w).ok
    ensures var d := Rotated(s, w).state.disk; var name := Stamp(w.now.value);
            && (name in d.privBaks <==> name !in Stale(w.privOrder))
            && (name in d.privBaks ==> Some(d.privBaks[name]) == ContentOf(s.disk.priv))
            && (name in d.pubBaks <==> name !in Stale(w.pubOrder))
            && (name in d.pubBaks ==> Some(d.pubBaks[name]) == ContentOf(s.disk.pub))
  {
    hide Stale;
  }

  /** The listing reads each name of the directory once. */
  ghost predicate Lists(order: seq<Name>, names: set<Name>)
  {
    DistinctNames(order) && forall name :: name in order <==> name in names
  }

  /** The listings read when pruning are those of the backups on disk, the new ones among them. */
  ghost predicate ListsBackups(s: State, w: World)
    requires w.now.Some?
  {
    && Lists(w.privOrder, s.disk.privBaks.Keys + {Stamp(w.now.value)})
    && Lists(w.pubOrder, s.disk.pubBaks.Keys + {Stamp(w.now.value)})
  }

  /**
   * After a successful rotation the backups of either half are, of those on disk and the new one,
   * exactly the ones with fewer than five collected backups before them: newer ones, or as old
   * and listed earlier. That holds for the new one too.
   */
  lemma {:induction false} OwnBackupKept(s: State, w: World, name: Name)
    requires Whole(s.disk) && HasPair(s.disk) && Rotated(s, w).ok && w.now.Some? && ListsBackups(s, w)
    ensures var d := Rotated(s, w).state.disk;
            && (name in d.privBaks <==>
                  (name in s.disk.privBaks || name == Stamp(w.now.value)) && AmongNewest(w.privOrder, name))
            && (name in d.pubBaks <==>
                  (name in s.disk.pubBaks || name == Stamp(w.now.value)) && AmongNewest(w.pubOrder, name))
  {
    KeptBackups(s, w, name);
    hide *;
    StaleExactly(w.privOrder, name);
    StaleExactly(w.pubOrder, name);
  }

  lemma {:induction false} KeptBackups(s: State, w: World, name: Name)
    requires Whole(s.disk) && HasPair(s.disk) && Rotated(s, w).ok && w.now.Some? && ListsBackups(s, w)
    ensures DistinctNames(w.privOrder) && DistinctNames(w.pubOrder)
    ensures var d := Rotated(s, w).state.disk;
            && (name in d.privBaks <==>
                 (name in s.disk.privBaks || name == Stamp(w.now.value)) && name !in Stale(w.privOrder))
            && (name in d.pubBaks <==>
                 (name in s.disk.pubBaks || name == Stamp(w.now.value)) && name !in Stale(w.pubOrder))
  {
    hide Stale, DistinctNames;
  }

  /** With the clock set back behind five backups, a successful rotation removes its own, both halves. */
  lemma {:induction false} SlowClockLosesBackup(s: State, w: World)
    requires Whole(s.disk) && HasPair(s.disk) && Rotated(s, w).ok && w.now == Some(100) && ListsBackups(s, w)
    requires w.privOrder == w.pubOrder == [Stamp(101), Stamp(102), Stamp(103), Stamp(104), Stamp(105), Stamp(100)]
    ensures Stamp(100) !in Rotated(s, w).state.disk.privBaks && Stamp(100) !in Rotated(s, w).state.disk.pubBaks
  {
    OldestOfSix(w.privOrder);
    hide *;
    OwnBackupKept(s, w, Stamp(100));
  }

  lemma {:induction false} OldestOfSix(o: seq<Name>)
    requires o == [Stamp(101), Stamp(102), Stamp(103), Stamp(104), Stamp(105), Stamp(100)]
    ensures !AmongNewest(o, Stamp(100))
  {
    hide Stamped, Rank, CountAtLeast;
    var bs := [Bak(o[0], 101), Bak(o[1], 102), Bak(o[2], 103), Bak(o[3], 104), Bak(o[4], 105), Bak(o[5], 100)];
    StampsAreTheirTimes(o, BACKUPS_CAP);
    assert Stamped(o, BACKUPS_CAP) == bs;
    AllAsNew(bs[..5], 100);
    RankOfLast(bs);
    assert bs[5].name == Stamp(100) && Rank(bs, 5) >= BACKUPS_KEEP;
  }

  lemma {:induction false} StampsAreTheirTimes(order: seq<Name>, cap: nat)
    requires |order| <= cap && forall i :: 0 <= i < |order| ==> order[i].Stamp?
    ensures |Stamped(order, cap)| == |order|
    ensures forall i :: 0 <= i < |order| ==> Stamped(order, cap)[i] == Bak(order[i], order[i].ts)
  {
    if order != [] { StampsAreTheirTimes(order[1..], cap - 1); }
  }

  lemma {:induction false} AllAsNew(bs: seq<Bak>, t: int)
    requires forall i :: 0 <= i < |bs| ==> bs[i].ts >= t
    ensures CountAtLeast(bs, t) == |bs|
  {
    if bs != [] { AllAsNew(bs[..|bs| - 1], t); }
  }

  // -------------------------------------------------------------------- all runs

  datatype Event = DoLoad(w: World) | DoRotate(w: World) | Reset

  function After(s: State, e: Event): (r: State)
  {
    match e
    case DoLoad(w) => Loaded(s, w).state
    case DoRotate(w) => Rotated(s, w).state
    case Reset => Cleared(s)
  }

  /** When keys are loaded after an event of a run, whatever the surroundings do. */
  lemma {:induction false} LoadedAfter(s: State, w: World)
    ensures var d := s.disk;
            After(s, DoLoad(w)).loaded <==>
              || s.loaded
              || (d.priv.Present? && d.priv.private && d.priv.content.Some? && d.pub.Present?
                  && d.pub.content == Some(d.priv.content.value.pub))
              || (d.priv.Absent? && w.dirOk && w.newKey.Some? && w.priv && w.pub)
    ensures After(s, DoRotate(w)).loaded <==>
              && Reaches(s, w) && (Had(s.disk) ==> w.bakPriv == Written && w.bakPub == Written) && w.priv
              && (w.pub || Had(s.disk))
    ensures After(s, Reset) == State(false, 0, Secret(0, 0), s.disk)
  {
    LoadsExactly(s, w);
    RotatesExactly(s, w);
    hide Loaded, Rotated;
  }

  predicate FewFaults(e: Event)
  {
    e.DoRotate? ==> Faults(e.w) <= 1
  }

  lemma {:induction false} StepKeepsConsistent(s: State, e: Event)
    requires Consistent(s) && FewFaults(e)
    ensures Consistent(After(s, e))
  {
    match e {
      case DoLoad(w) =>
        LoadKeepsConsistent(s, w);
      case DoRotate(w) =>
        hide Rotated;
        RotationTearsExactly(s, w);
      case Reset =>
    }
  }

  ghost predicate IsRun(run: seq<State>, es: seq<Event>)
  {
    |run| == |es| + 1 && forall i :: 0 <= i < |es| ==> run[i + 1] == After(run[i], es[i])
  }

  /** With at most one failing write per rotation, every reachable store is consistent. */
  lemma {:induction false} RunKeepsConsistent(run: seq<State>, es: seq<Event>, k: nat)
    requires IsRun(run, es) && k < |run| && Consistent(run[0])
    requires forall i :: 0 <= i < |es| ==> FewFaults(es[i])
    ensures Consistent(run[k])
    decreases k
  {
    hide After, Consistent;
    if k > 0 {
      RunKeepsConsistent(run, es, k - 1);
      StepKeepsConsistent(run[k - 1], es[k - 1]);
    }
  }

  /** Loaded keys change only where a rotation succeeds or the store is cleared. */
  lemma {:induction false} KeysChangeOnlyByRotation(s: State, e: Event)
    requires Consistent(s) && s.loaded && After(s, e).loaded && !(e.DoRotate? && Rotated(s, e.w).ok)
    ensures After(s, e).pub == s.pub && After(s, e).priv == s.priv
  {
    hide Stale;
  }
}
