/**
 * Whole runs of the cron channel: poll, handle, send and acknowledge (src/tools/cron.c,
 * src/core/dispatch.c) over the job table of src/core/memory.c, with edits by users and
 * tools in between.
 */
module CronRun {
  import opened Text
  import opened Numbers
  import opened CronSchedule
  import opened CronOffers

  const JOB_TEXT_MAX := 32768
  const SNOOZE := 365 * 24 * 3600

  // ---------------------------------------------------------------- the job table

  datatype Job = Job(schedule: string, message: string, nextRun: int, enabled: bool)

  type Jobs = map<string, Job>

  /** A row too long to be copied cannot be read. */
  predicate Readable(job: Job)
  {
    |job.schedule| <= JOB_TEXT_MAX && |job.message| <= JOB_TEXT_MAX
  }

  /** Ids that fit the row buffer, as creation demands. */
  predicate ValidIds(jobs: Jobs)
  {
    forall id :: id in jobs ==> id != "" && |id| <= ID_MAX
  }

  /** The order of the due query: next run, then id. */
  predicate DueBefore(jobs: Jobs, a: string, b: string)
    requires a in jobs && b in jobs
  {
    jobs[a].nextRun < jobs[b].nextRun || (jobs[a].nextRun == jobs[b].nextRun && Less(a, b))
  }

  /** `keys` are the first `max` due jobs in due order. */
  ghost predicate IsDueList(jobs: Jobs, now: int, max: nat, keys: seq<string>)
  {
    && |keys| <= max
    && (forall i :: 0 <= i < |keys| ==> keys[i] in jobs && jobs[keys[i]].enabled && jobs[keys[i]].nextRun <= now)
    && (forall i, j :: 0 <= i < j < |keys| ==> DueBefore(jobs, keys[i], keys[j]))
    && (forall id :: id in jobs && jobs[id].enabled && jobs[id].nextRun <= now && id !in keys ==>
          |keys| == max && forall i :: 0 <= i < |keys| ==> DueBefore(jobs, keys[i], id))
  }

  lemma {:induction false} DueBeforeTotal(jobs: Jobs, a: string, b: string)
    requires a in jobs && b in jobs
    ensures DueBefore(jobs, a, b) || a == b || DueBefore(jobs, b, a)
    ensures !(DueBefore(jobs, a, b) && DueBefore(jobs, b, a)) && (a == b ==> !DueBefore(jobs, a, b))
  {
    LessTrichotomy(a, b);
  }

  lemma {:induction false} DueBeforeTransitive(jobs: Jobs, a: string, b: string, c: string)
    requires a in jobs && b in jobs && c in jobs && DueBefore(jobs, a, b) && DueBefore(jobs, b, c)
    ensures DueBefore(jobs, a, c)
  {
    if jobs[a].nextRun == jobs[b].nextRun == jobs[c].nextRun { LessTransitive(a, b, c); }
  }

  lemma {:induction false} EarliestExists(jobs: Jobs, ids: set<string>) returns (first: string)
    requires ids != {} && forall id :: id in ids ==> id in jobs
    ensures first in ids && forall id :: id in ids && id != first ==> DueBefore(jobs, first, id)
    decreases |ids|
  {
    hide Less, DueBefore;
    var x :| x in ids;
    if ids == {x} {
      first := x;
    } else {
      var rest := ids - {x};
      assert ids == {x} + rest;
      var y := EarliestExists(jobs, rest);
      DueBeforeTotal(jobs, x, y);
      first := if DueBefore(jobs, x, y) then x else y;
      forall id | id in ids && id != first ensures DueBefore(jobs, first, id) {
        if id != x && id != y && first == x { DueBeforeTransitive(jobs, x, y, id); }
      }
    }
  }

  /** The due query of the database: repeatedly the earliest of the remaining due jobs. */
  method ListDue(jobs: Jobs, now: int, max: nat) returns (keys: seq<string>)
    ensures IsDueList(jobs, now, max, keys)
  {
    keys := [];
    var rest := set id | id in jobs && jobs[id].enabled && jobs[id].nextRun <= now;
    while rest != {} && |keys| < max
      invariant |keys| <= max
      invariant forall id :: id in jobs && jobs[id].enabled && jobs[id].nextRun <= now <==> id in rest || id in keys
      invariant forall i :: 0 <= i < |keys| ==> keys[i] in jobs
      invariant forall id :: id in rest ==> id in jobs
      invariant forall i, j :: 0 <= i < j < |keys| ==> DueBefore(jobs, keys[i], keys[j])
      invariant forall i, id :: 0 <= i < |keys| && id in rest ==> DueBefore(jobs, keys[i], id)
      decreases rest
    {
      hide Less, DueBefore;
      ghost var e := EarliestExists(jobs, rest);
      var first :| first in rest && forall id :: id in rest && id != first ==> DueBefore(jobs, first, id);
      keys := keys + [first];
      rest := rest - {first};
    }
  }

  // ------------------------------------------------------------ acknowledgement

  /** The row after an acknowledgement at `now`; a schedule the parser rejects is put off a year. */
  function AckedRow(job: Job, now: int, local: map<int, LocalTime>): (row: Option<Job>)
  {
    if OneShot(job.schedule) then None
    else
      var next := NextRun(job.schedule, now, local);
      Some(job.(nextRun := if next.Some? then next.value else now + SNOOZE))
  }

  predicate CanAck(jobs: Jobs, id: string)
  {
    id != "" && id in jobs && Readable(jobs[id])
  }

  function Acked(jobs: Jobs, id: string, now: int, local: map<int, LocalTime>): (r: Jobs)
  {
    if !CanAck(jobs, id) then jobs
    else
      var row := AckedRow(jobs[id], now, local);
      if row.None? then jobs - {id} else jobs[id := row.value]
  }

  /** After an acknowledgement the job is gone or due strictly later, rejected schedules included. */
  lemma {:induction false} AckedIsNotDue(jobs: Jobs, id: string, now: int, local: map<int, LocalTime>)
    requires CanAck(jobs, id)
    ensures var r := Acked(jobs, id, now, local);
            && (id in r ==> r[id].nextRun > now)
            && (id !in r <==> OneShot(jobs[id].schedule))
            && forall other :: other != id ==>
                 (other in r <==> other in jobs) && (other in jobs ==> r[other] == jobs[other])
  {
    hide NextRun;
    var job := jobs[id];
    if !OneShot(job.schedule) && NextRun(job.schedule, now, local).Some? {
      NextRunIsLater(job.schedule, now, local);
    }
  }

  /** A job can be acknowledged when there is a row with its id and its texts fit the row buffer. */
  lemma {:induction false} CanAckExactly(jobs: Jobs, id: string, now: int, local: map<int, LocalTime>)
    ensures CanAck(jobs, id) <==>
              id != "" && id in jobs && |jobs[id].schedule| <= 32768 && |jobs[id].message| <= 32768
    ensures !CanAck(jobs, id) ==> Acked(jobs, id, now, local) == jobs
  {
  }

  /**
   * What an acknowledgement leaves of a job: nothing of a one-shot; otherwise the row with its next
   * run moved on as the schedule asks, or by a year exactly when the schedule asks for nothing.
   */
  lemma {:induction false} AckedExactly(jobs: Jobs, id: string, now: int, local: map<int, LocalTime>)
    requires CanAck(jobs, id)
    ensures var r, job := Acked(jobs, id, now, local), jobs[id];
            if "at:" <= job.schedule then r == jobs - {id}
            else
              && id in r && r == jobs[id := r[id]]
              && r[id].schedule == job.schedule && r[id].message == job.message && r[id].enabled == job.enabled
              && if "interval:" <= job.schedule then
                   var num := job.schedule[9..];
                   r[id].nextRun ==
                     if WholeNumber(num) && ReadNumber(num).value > 0 && now >= 0
                        && now + ReadNumber(num).value <= 9223372036854775807
                     then now + ReadNumber(num).value else now + 365 * 24 * 3600
                 else
                   var text := if "cron:" <= job.schedule then job.schedule[5..] else job.schedule;
                   && (forall m :: NextMatch(text, now, local, m) ==> r[id].nextRun == m)
                   && ((forall m :: !NextMatch(text, now, local, m)) ==> r[id].nextRun == now + 365 * 24 * 3600)
  {
    var job := jobs[id];
    hide NextRun, NextMatch, WholeNumber, ReadNumber;
    forall m {
      ScheduleExactly(job.schedule, now, local, m);
    }
  }

  // ---------------------------------------------------------------- the scheduler

  /** A message the main loop holds between poll and acknowledgement. */
  datatype Incoming = Incoming(id: string, text: string)

  /** How handling ended: the agent's verdict and the channel's. */
  datatype Handling = Handling(agentOk: bool, sendOk: bool)

  /** Slash commands are answered without the agent and count as handled. */
  predicate Handled(text: string, h: Handling)
  {
    text == "/reset" || text == "/status" || h.agentOk
  }

  predicate Delivered(msg: Incoming, h: Handling)
  {
    h.sendOk && Handled(msg.text, h)
  }

  class Scheduler {
    var jobs: Jobs
    var table: OfferTable

    constructor ()
      ensures jobs == map[] && fresh(table) && fresh(table.slots) && table.slots.Length == TRACKED
    {
      jobs := map[];
      table := new OfferTable();
    }

    /** Deletes a one-shot job or moves a repeating one on, and then frees its slot. */
    method AckDelivery(id: string, now: int, local: map<int, LocalTime>) returns (ok: bool)
      modifies this`jobs, table.slots
      ensures ok <==> CanAck(old(jobs), id)
      ensures jobs == Acked(old(jobs), id, now, local)
      ensures table.slots[..] == if ok then Released(old(table.slots[..]), id) else old(table.slots[..])
    {
      if id == "" || id !in jobs || !Readable(jobs[id]) { return false; }
      hide NextRun, OneShot;
      var job := jobs[id];
      if OneShot(job.schedule) {
        jobs := jobs - {id};
      } else {
        var next := ParseNextRun(job.schedule, now, local);
        var run := if next.None? then now + SNOOZE else next.value;
        jobs := jobs[id := job.(nextRun := run)];
      }
      table.Release(id);
      ok := true;
    }

    /** handle_message for the cron channel: the acknowledgement follows the agent and the send. */
    method HandleMessage(msg: Incoming, h: Handling, now: int, local: map<int, LocalTime>) returns (ok: bool)
      modifies this`jobs, table.slots
      ensures jobs == if Delivered(msg, h) then Acked(old(jobs), msg.id, now, local) else old(jobs)
      ensures table.slots[..] ==
                if Delivered(msg, h) && CanAck(old(jobs), msg.id) then Released(old(table.slots[..]), msg.id)
                                 else old(table.slots[..])
    {
      hide Acked;
      var agentErr := !(msg.text == "/reset" || msg.text == "/status") && !h.agentOk;
      if !h.sendOk { return false; }
      if agentErr { return true; }
      ok := AckDelivery(msg.id, now, local);
    }

    /**
     * Picks a due job, sleeps for `wait` milliseconds, and records the offer. `asleep` is the
     * clock when the sleep is computed, and `after` the clock when the offer is recorded.
     */
    method Poll(now: int, timeout: int, mono: Mono, asleep: Mono, after: Mono)
      returns (msg: Option<Incoming>, wait: int, ghost keys: seq<string>)
      modifies table.slots
      ensures IsDueList(jobs, now, 64, keys)
      ensures var p := PickRow(old(table.slots[..]), keys, ReadableIds(jobs), timeout, mono);
              && (msg.None? <==> p.NoJob?)
              && (msg.Some? ==> msg.value.id == p.id && p.id in jobs && msg.value.text == jobs[p.id].message)
              && wait == (if p.WaitThenOffer? then WaitMs(old(table.slots[..]), p.id, timeout, asleep) else 0)
              && table.slots[..] == if p.NoJob? then old(table.slots[..])
                                    else Marked(old(table.slots[..]), p.id, timeout, after)
    {
      hide IsDueList, PickRow, Marked;
      wait := 0;
      var due := ListDue(jobs, now, 64);
      keys := due;
      var p := table.PickDueRow(due, ReadableIds(jobs), timeout, mono);
      PickedIsReadable(table.slots[..], due, ReadableIds(jobs), timeout, mono);
      if p.NoJob? { return None, wait, keys; }
      if p.WaitThenOffer? {
        var age := table.AgeMs(p.id, asleep);
        wait := if age.None? then timeout else timeout - age.value;
        if timeout <= 0 || wait < 0 { wait := 0; }
      }
      table.MarkOffered(p.id, timeout, after);
      msg := Some(Incoming(p.id, jobs[p.id].message));
    }
  }

  /** How long a poll sleeps for a job it waits for: what is left of its timeout, all of it if it is not tracked. */
  function WaitMs(slots: seq<Slot>, id: string, timeout: int, asleep: Mono): (ms: int)
    ensures ms >= 0
  {
    if timeout <= 0 then 0
    else if !Tracked(slots, id) then timeout
    else if Age(slots, id, asleep) >= timeout then 0
    else timeout - Age(slots, id, asleep)
  }

  function ReadableIds(jobs: Jobs): (ids: set<string>)
    ensures forall id :: id in ids <==> id in jobs && Readable(jobs[id])
  {
    set id | id in jobs && Readable(jobs[id])
  }

  lemma {:induction false} PickedIsReadable(slots: seq<Slot>, keys: seq<string>, readable: set<string>, timeout: int,
                                            now: Mono)
    ensures var p := PickRow(slots, keys, readable, timeout, now); !p.NoJob? ==> p.id in readable
  {
    hide Returnable;
  }

  // ------------------------------------------------------------------------ runs

  /**
   * What has happened, in order: offers, deliveries, and rows acknowledged. `used` is the reading
   * that decided how long the job had been held back, and `cut` the nanoseconds that were missing
   * from the sleep before the offer.
   */
  datatype Entry =
    | Offered(id: string, at: Mono, used: Mono, cut: nat)
    | Sent(id: string, text: string)
    | Closed(id: string)

  datatype State = State(jobs: Jobs, slots: seq<Slot>, clock: Mono, pending: Option<Incoming>, log: seq<Entry>)

  /**
   * A step of the main loop, or an edit from outside. A poll reads the clock when it picks,
   * when it computes how long to sleep, and when it records the offer; the runs below allow
   * it any list of keys, of which the due query's is one, and a sleep of any length, as a signal
   * can end it at any time.
   */
  datatype Event =
    | Poll(now: int, keys: seq<string>, picked: Mono, asleep: Mono, awake: Mono)
    | Handle(h: Handling, now: int, local: map<int, LocalTime>)
    | Edit(id: string, row: Option<Job>)

  function PickOf(s: State, e: Event, timeout: int): (p: Pick)
    requires e.Poll?
  {
    PickRow(s.slots, e.keys, ReadableIds(s.jobs), timeout, e.picked)
  }

  /** The reading a job's age is taken from: before the sleep that waits for it, or else at the offer. */
  function Deciding(s: State, e: Event, timeout: int): (t: Mono)
    requires e.Poll?
  {
    var p := PickOf(s, e, timeout);
    if p.WaitThenOffer? && Tracked(s.slots, p.id) then e.asleep else e.awake
  }

  /** When the sleep before an offer should end, counted from the last reading before it. */
  function SleepEnd(slots: seq<Slot>, id: string, timeout: int, e: Event): (ns: int)
    requires e.Poll?
  {
    Ns(if Tracked(slots, id) then e.asleep else e.picked) + WaitMs(slots, id, timeout, e.asleep) * 1000000
  }

  /** Nanoseconds missing from the sleep of a poll; none when it slept as long as it asked, or not at all. */
  function Cut(s: State, e: Event, timeout: int): (ns: nat)
    requires e.Poll?
  {
    var p := PickOf(s, e, timeout);
    if !p.WaitThenOffer? then 0 else Missing(SleepEnd(s.slots, p.id, timeout, e), e.awake)
  }

  /** What is missing at `awake` from a sleep until `end`. */
  function Missing(end: int, awake: Mono): (ns: nat)
  {
    if Ns(awake) >= end then 0 else end - Ns(awake)
  }

  /** No signal cuts the sleep of this step short. */
  predicate SleepsThrough(s: State, e: Event, timeout: int)
  {
    e.Poll? ==> Cut(s, e, timeout) == 0
  }

  /** The job a poll returns has a slot, or there is one for it, when the offer is recorded. */
  predicate FindsRoom(s: State, e: Event, timeout: int)
  {
    e.Poll? ==>
      var p := PickOf(s, e, timeout);
      p.NoJob? || Tracked(s.slots, p.id) || HasRoom(s.slots, e.awake)
  }

  ghost predicate CanHappen(s: State, e: Event, timeout: int)
  {
    match e
    case Poll(now, keys, picked, asleep, awake) =>
      && s.pending.None?
      && ValidMono(picked) && ValidMono(asleep) && ValidMono(awake)
      && Ns(s.clock) <= Ns(picked) <= Ns(asleep) <= Ns(awake)
    case Handle(h, now, local) => s.pending.Some?
    case Edit(id, row) => id != "" && |id| <= ID_MAX
  }

  function Step(s: State, e: Event, timeout: int): (r: State)
    requires ValidIds(s.jobs)
  {
    match e
    case Poll(now, keys, picked, asleep, awake) =>
      var p := PickOf(s, e, timeout);
      if p.NoJob? then s.(clock := awake)
      else
        assert p.id in s.jobs by { PickedIsReadable(s.slots, keys, ReadableIds(s.jobs), timeout, picked); }
        s.(slots := Marked(s.slots, p.id, timeout, awake), clock := awake,
           pending := Some(Incoming(p.id, s.jobs[p.id].message)),
           log := s.log + [Offered(p.id, awake, Deciding(s, e, timeout), Cut(s, e, timeout))])
    case Handle(h, now, local) =>
      if s.pending.None? then s
      else
        var msg := s.pending.value;
        if !Delivered(msg, h) then s.(pending := None)
        else if !CanAck(s.jobs, msg.id) then s.(pending := None, log := s.log + [Sent(msg.id, msg.text)])
        else s.(jobs := Acked(s.jobs, msg.id, now, local), slots := Released(s.slots, msg.id), pending := None,
                log := s.log + [Sent(msg.id, msg.text), Closed(msg.id)])
    case Edit(id, row) =>
      s.(jobs := if row.None? then s.jobs - {id} else s.jobs[id := row.value])
  }

  /** When the job was last offered, if that offer is not closed. */
  function OpenSince(log: seq<Entry>, id: string): (at: Option<Mono>)
    decreases |log|
  {
    if log == [] then None
    else
      var e := log[|log| - 1];
      if e == Closed(id) then None
      else if e.Offered? && e.id == id then Some(e.at)
      else OpenSince(log[..|log| - 1], id)
  }

  lemma {:induction false} OpenSinceAppend(log: seq<Entry>, e: Entry, id: string)
    ensures OpenSince(log + [e], id) ==
              if e == Closed(id) then None else if e.Offered? && e.id == id then Some(e.at) else OpenSince(log, id)
  {
    assert (log + [e])[..|log|] == log;
  }

  /** The table holds exactly offers that are still open, and every open offer it does not hold is cold. */
  ghost predicate OpenMatchesTable(s: State, timeout: int)
  {
    && (forall i :: 0 <= i < |s.slots| && s.slots[i].id != "" ==>
         OpenSince(s.log, s.slots[i].id) == Some(s.slots[i].mono))
    && (forall id :: id != "" && OpenSince(s.log, id).Some? ==>
          var at := OpenSince(s.log, id).value;
          && ValidMono(at) && Ns(at) <= Ns(s.clock)
          && (OnRecord(s.slots, id, at) || ElapsedMs(at, s.clock) >= timeout))
  }

  ghost predicate Consistent(s: State, timeout: int)
  {
    && timeout > 0 && ValidIds(s.jobs) && ValidMono(s.clock)
    && TableAt(s.slots, timeout, s.clock)
    && OpenMatchesTable(s, timeout)
    && (s.pending.Some? ==> s.pending.value.id != "")
  }

  lemma {:induction false} ClockAdvances(s: State, timeout: int, later: Mono)
    requires Consistent(s, timeout) && ValidMono(later) && Ns(s.clock) <= Ns(later)
    ensures Consistent(s.(clock := later), timeout)
  {
    hide ElapsedMs, UniqueIds, OnRecord, OpenSince, Ns, ValidMono;
    forall id | id != "" && OpenSince(s.log, id).Some? && ElapsedMs(OpenSince(s.log, id).value, s.clock) >= timeout
      ensures ElapsedMs(OpenSince(s.log, id).value, later) >= timeout
    {
      ElapsedMonotone(OpenSince(s.log, id).value, s.clock, later);
    }
  }

  /** A poll that sleeps as long as it asked finds its job on record, or room for it. */
  lemma {:induction false} WholeSleepFindsRoom(s: State, e: Event, timeout: int)
    requires Consistent(s, timeout) && CanHappen(s, e, timeout) && SleepsThrough(s, e, timeout)
    ensures FindsRoom(s, e, timeout)
  {
    if e.Poll? && !PickOf(s, e, timeout).NoJob? && !Tracked(s.slots, PickOf(s, e, timeout).id) {
      ClockAdvances(s, timeout, e.picked);
      hide HasRoom, ElapsedMs, OpenMatchesTable, FirstReturnable;
      if PickOf(s, e, timeout).Offer? {
        RoomStays(s.slots, timeout, e.picked, e.awake);
      } else {
        RoomAfterTimeout(s.slots, timeout, e.picked, e.awake);
      }
    }
  }

  /** A job a poll returns is on record afterwards exactly when it had a slot or there was one for it. */
  lemma {:induction false} RecordedExactly(s: State, e: Event, timeout: int)
    requires ValidIds(s.jobs) && e.Poll? && !PickOf(s, e, timeout).NoJob?
    ensures OnRecord(Step(s, e, timeout).slots, PickOf(s, e, timeout).id, e.awake) <==> FindsRoom(s, e, timeout)
  {
    var p := PickOf(s, e, timeout);
    PickedIsReadable(s.slots, e.keys, ReadableIds(s.jobs), timeout, e.picked);
    MarkedExactly(s.slots, p.id, timeout, e.awake);
    hide Tracked, HasRoom, OnRecord, Marked, PickRow;
  }

  lemma {:induction false} MarkedExactly(slots: seq<Slot>, id: string, timeout: int, now: Mono)
    requires id != "" && |id| <= ID_MAX
    ensures OnRecord(Marked(slots, id, timeout, now), id, now) <==> Tracked(slots, id) || HasRoom(slots, now)
  {
    if Tracked(slots, id) || HasRoom(slots, now) {
      MarkedOnRecord(slots, id, timeout, now);
    } else {
      NotOnRecord(slots, id, now);
    }
  }

  /** Every job is on record after a poll that slept as long as it asked, even when the table was full. */
  lemma {:induction false} PolledIsRecorded(s: State, e: Event, timeout: int)
    requires Consistent(s, timeout) && e.Poll? && CanHappen(s, e, timeout) && !PickOf(s, e, timeout).NoJob?
    requires SleepsThrough(s, e, timeout)
    ensures OnRecord(Step(s, e, timeout).slots, PickOf(s, e, timeout).id, e.awake)
  {
    WholeSleepFindsRoom(s, e, timeout);
    ConsistentIs(s, timeout);
    hide *;
    RecordedExactly(s, e, timeout);
  }

  /** A job that is offered at once has been held back, by the clock's rounded count, for the timeout. */
  lemma {:induction false} OfferedIsAged(s: State, e: Event, timeout: int)
    requires Consistent(s, timeout) && e.Poll? && CanHappen(s, e, timeout) && PickOf(s, e, timeout).Offer?
    requires OpenSince(s.log, PickOf(s, e, timeout).id).Some?
    ensures var at := OpenSince(s.log, PickOf(s, e, timeout).id).value;
            ValidMono(at) && ElapsedMs(at, e.awake) >= timeout
  {
    var p := PickOf(s, e, timeout);
    var id, at := p.id, OpenSince(s.log, p.id).value;
    PickedIsReadable(s.slots, e.keys, ReadableIds(s.jobs), timeout, e.picked);
    assert id != "";
    ClockAdvances(s, timeout, e.picked);
    hide ElapsedMs, FirstReturnable, FirstReusable, OpenSince;
    if Tracked(s.slots, id) {
      assert s.slots[SlotOf(s.slots, id)].mono == at;
    } else {
      NotOnRecord(s.slots, id, at);
    }
    ElapsedMonotone(at, e.picked, e.awake);
  }

  /** When a sleep for the rest of a timeout that began at `at` should end. */
  function WaitEnd(at: Mono, asleep: Mono, timeout: int): (ns: int)
  {
    Ns(asleep) + (if ElapsedMs(at, asleep) >= timeout then 0 else timeout - ElapsedMs(at, asleep)) * 1000000
  }

  /** A job that is waited for sleeps for the rest of its timeout, or for the whole of it. */
  lemma {:induction false} WaitedFor(s: State, e: Event, timeout: int)
    requires Consistent(s, timeout) && e.Poll? && CanHappen(s, e, timeout) && PickOf(s, e, timeout).WaitThenOffer?
    requires OpenSince(s.log, PickOf(s, e, timeout).id).Some?
    ensures var id := PickOf(s, e, timeout).id; var at := OpenSince(s.log, id).value;
            && ValidMono(at)
            && if Tracked(s.slots, id) then SleepEnd(s.slots, id, timeout, e) == WaitEnd(at, e.asleep, timeout)
               else SleepEnd(s.slots, id, timeout, e) >= Ns(at) + timeout * 1000000
  {
    var p := PickOf(s, e, timeout);
    var id, at := p.id, OpenSince(s.log, p.id).value;
    PickedIsReadable(s.slots, e.keys, ReadableIds(s.jobs), timeout, e.picked);
    assert id != "";
    hide ElapsedMs, FirstReturnable, FirstReusable, OpenSince;
    if Tracked(s.slots, id) { assert s.slots[SlotOf(s.slots, id)].mono == at; }
  }

  /**
   * A job offered again without an acknowledgement in between is offered more than `timeout - 1`
   * milliseconds after the last time, and at least `timeout` when the reading that decided does
   * not borrow nanoseconds, each less what was cut from the sleep. The `timeout` less the cut is
   * missed exactly when that reading borrows and counts just the timeout; and by a job with a slot
   * that slept no longer than it asked, exactly when it borrows and counts no more than the timeout.
   */
  lemma {:induction false} OffersApart(s: State, e: Event, timeout: int)
    requires Consistent(s, timeout) && e.Poll? && CanHappen(s, e, timeout) && !PickOf(s, e, timeout).NoJob?
    requires OpenSince(s.log, PickOf(s, e, timeout).id).Some?
    ensures var p := PickOf(s, e, timeout); var at := OpenSince(s.log, p.id).value;
            var used, cut := Deciding(s, e, timeout), Cut(s, e, timeout);
            var short := Ns(e.awake) - Ns(at) < timeout * 1000000 - cut;
            && Apart(at, e.awake, cut, timeout) && FullyApart(at, e.awake, used, cut, timeout)
            && (p.Offer? ==> (short <==> Borrows(at, used) && ElapsedMs(at, used) == timeout))
            && (p.WaitThenOffer? && Tracked(s.slots, p.id) && Ns(e.awake) <= SleepEnd(s.slots, p.id, timeout, e) ==>
                  (short <==> Borrows(at, used) && ElapsedMs(at, used) <= timeout))
  {
    var p := PickOf(s, e, timeout);
    var at := OpenSince(s.log, p.id).value;
    PollsInOrder(s, e, timeout);
    if p.Offer? {
      OfferedIsAged(s, e, timeout);
      hide *;
      AgedIsLong(at, e.awake, timeout);
    } else {
      WaitedFor(s, e, timeout);
      hide *;
      var end := SleepEnd(s.slots, p.id, timeout, e);
      if Tracked(s.slots, p.id) {
        WaitIsLong(at, e.asleep, e.awake, end, Cut(s, e, timeout), timeout);
      } else {
        LateIsLong(at, e.awake, end, Cut(s, e, timeout), timeout);
      }
    }
  }

  lemma {:induction false} PollsInOrder(s: State, e: Event, timeout: int)
    requires e.Poll? && CanHappen(s, e, timeout)
    ensures ValidMono(e.asleep) && ValidMono(e.awake) && Ns(e.asleep) <= Ns(e.awake)
    ensures var p := PickOf(s, e, timeout);
            && Deciding(s, e, timeout) == (if p.WaitThenOffer? && Tracked(s.slots, p.id) then e.asleep else e.awake)
            && Cut(s, e, timeout) ==
                 if p.WaitThenOffer? then Missing(SleepEnd(s.slots, p.id, timeout, e), e.awake) else 0
  {
    hide PickOf, Tracked, SleepEnd;
  }

  lemma {:induction false} AgedIsLong(at: Mono, awake: Mono, timeout: int)
    requires ValidMono(at) && ValidMono(awake) && ElapsedMs(at, awake) >= timeout
    ensures Apart(at, awake, 0, timeout) && FullyApart(at, awake, awake, 0, timeout)
    ensures Ns(awake) - Ns(at) < timeout * 1000000 <==> Borrows(at, awake) && ElapsedMs(at, awake) == timeout
  {
    hide ElapsedMs, Ns;
    ElapsedExactly(at, awake, timeout);
    ElapsedShortExactly(at, awake, timeout);
  }

  /** A sleep for the rest of the timeout, measured before it, falls short at most by the rounding and the cut. */
  lemma {:induction false} WaitIsLong(at: Mono, asleep: Mono, awake: Mono, end: int, cut: nat, timeout: int)
    requires ValidMono(at) && ValidMono(asleep) && Ns(asleep) <= Ns(awake)
    requires end == WaitEnd(at, asleep, timeout) && cut == Missing(end, awake)
    ensures Apart(at, awake, cut, timeout) && FullyApart(at, awake, asleep, cut, timeout)
    ensures Ns(awake) <= end ==>
              (Ns(awake) - Ns(at) < timeout * 1000000 - cut <==>
                  Borrows(at, asleep) && ElapsedMs(at, asleep) <= timeout)
  {
    hide ElapsedMs, Ns, Borrows;
    var ms := ElapsedMs(at, asleep);
    ElapsedExactly(at, asleep, timeout);
    ElapsedExactly(at, asleep, ms);
    ElapsedShortExactly(at, asleep, if ms >= timeout then timeout else ms);
  }

  lemma {:induction false} LateIsLong(at: Mono, awake: Mono, end: int, cut: nat, timeout: int)
    requires end >= Ns(at) + timeout * 1000000 && cut == Missing(end, awake)
    ensures Apart(at, awake, cut, timeout) && FullyApart(at, awake, awake, cut, timeout)
  {
    hide Ns;
  }

  lemma {:induction false} NotOnRecord(slots: seq<Slot>, id: string, at: Mono)
    requires !Tracked(slots, id)
    ensures !OnRecord(slots, id, at)
  {
  }

  lemma {:induction false} PollKeepsConsistent(s: State, e: Event, timeout: int)
    requires Consistent(s, timeout) && e.Poll? && CanHappen(s, e, timeout)
    ensures Consistent(Step(s, e, timeout), timeout) <==> FindsRoom(s, e, timeout)
  {
    ClockAdvances(s, timeout, e.awake);
    var p := PickOf(s, e, timeout);
    if !p.NoJob? {
      PickedIsReadable(s.slots, e.keys, ReadableIds(s.jobs), timeout, e.picked);
      var t, used, cut := s.(clock := e.awake), Deciding(s, e, timeout), Cut(s, e, timeout);
      assert Step(s, e, timeout) == OfferedIn(t, p.id, used, cut, timeout);
      hide OfferedIn, PickOf, Deciding, Cut, Step, Consistent;
      if Tracked(s.slots, p.id) || HasRoom(s.slots, e.awake) {
        OfferKeepsConsistent(t, p.id, used, cut, timeout);
      } else {
        OfferUnrecorded(t, p.id, used, cut, timeout);
      }
    }
  }

  /** The state after an offer at the current clock. */
  function OfferedIn(s: State, id: string, used: Mono, cut: nat, timeout: int): (t: State)
    requires id in s.jobs
  {
    s.(slots := Marked(s.slots, id, timeout, s.clock), pending := Some(Incoming(id, s.jobs[id].message)),
       log := s.log + [Offered(id, s.clock, used, cut)])
  }

  /** An offer for which there is no slot is open, not on record, and has just been made. */
  lemma {:induction false} OfferUnrecorded(s: State, id: string, used: Mono, cut: nat, timeout: int)
    requires Consistent(s, timeout) && id in s.jobs
    requires !Tracked(s.slots, id) && !HasRoom(s.slots, s.clock)
    ensures !Consistent(OfferedIn(s, id, used, cut, timeout), timeout)
  {
    OpenSinceAppend(s.log, Offered(id, s.clock, used, cut), id);
    NotOnRecord(s.slots, id, s.clock);
    assert ElapsedMs(s.clock, s.clock) == 0;
    hide OpenSince, SlotOf, FirstReusable, ElapsedMs;
    assert OpenSince(OfferedIn(s, id, used, cut, timeout).log, id) == Some(s.clock);
  }

  /** Recording an offer at the current clock. */
  lemma {:induction false} OfferKeepsConsistent(s: State, id: string, used: Mono, cut: nat, timeout: int)
    requires Consistent(s, timeout) && id in s.jobs
    requires Tracked(s.slots, id) || HasRoom(s.slots, s.clock)
    ensures Consistent(OfferedIn(s, id, used, cut, timeout), timeout)
  {
    var k := if Tracked(s.slots, id) then SlotOf(s.slots, id) else FirstReusable(s.slots, s.clock);
    var slots := Marked(s.slots, id, timeout, s.clock);
    assert slots == s.slots[k := Slot(id, s.clock, timeout)];
    MarkedUnique(s.slots, id, timeout, s.clock);
    MarkedMatches(s, id, used, cut, timeout, k);
    hide UniqueIds, OpenMatchesTable, Marked, SlotOf, FirstReusable, Ns, ValidMono;
  }

  lemma {:induction false} MarkedMatches(s: State, id: string, used: Mono, cut: nat, timeout: int, k: nat)
    requires Consistent(s, timeout) && id != "" && k < |s.slots|
    requires if Tracked(s.slots, id) then k == SlotOf(s.slots, id) else Reusable(s.slots[k], s.clock)
    ensures OpenMatchesTable(s.(slots := s.slots[k := Slot(id, s.clock, timeout)],
                                log := s.log + [Offered(id, s.clock, used, cut)]), timeout)
  {
    var slots, log := s.slots[k := Slot(id, s.clock, timeout)], s.log + [Offered(id, s.clock, used, cut)];
    forall x ensures OpenSince(log, x) == if x == id then Some(s.clock) else OpenSince(s.log, x) {
      OpenSinceAppend(s.log, Offered(id, s.clock, used, cut), x);
    }
    hide OpenSince, ElapsedMs, Ns;
    assert OnRecord(slots, id, s.clock) by { assert slots[k] == Slot(id, s.clock, timeout); }
    forall i | 0 <= i < |slots| && slots[i].id != "" ensures OpenSince(log, slots[i].id) == Some(slots[i].mono) {
      if !Tracked(s.slots, id) { NotTracked(s.slots, id); }
    }
    forall x | x != id && x != "" && OpenSince(log, x).Some?
      ensures var at := OpenSince(log, x).value; OnRecord(slots, x, at) || ElapsedMs(at, s.clock) >= timeout
    {
      var at := OpenSince(log, x).value;
      if OnRecord(s.slots, x, at) {
        var i :| 0 <= i < |s.slots| && s.slots[i].id == x && s.slots[i].mono == at;
        if i != k { assert slots[i] == s.slots[i]; }
      }
    }
  }

  lemma {:induction false} NotTracked(slots: seq<Slot>, id: string)
    requires !Tracked(slots, id)
    ensures forall i :: 0 <= i < |slots| ==> slots[i].id != id
  {
  }

  lemma {:induction false} HandleKeepsConsistent(s: State, e: Event, timeout: int)
    requires Consistent(s, timeout) && e.Handle? && CanHappen(s, e, timeout)
    ensures Consistent(Step(s, e, timeout), timeout)
  {
    var msg := s.pending.value;
    hide Acked, NextRun;
    if Delivered(msg, e.h) {
      forall id ensures OpenSince(s.log + [Sent(msg.id, msg.text)], id) == OpenSince(s.log, id) {
        OpenSinceAppend(s.log, Sent(msg.id, msg.text), id);
      }
      hide OpenSince, ElapsedMs, OnRecord, UniqueIds, Ns, ValidMono;
      if CanAck(s.jobs, msg.id) {
        AckedKeys(s.jobs, msg.id, e.now, e.local);
        assert s.log + [Sent(msg.id, msg.text), Closed(msg.id)] == s.log + [Sent(msg.id, msg.text)] + [Closed(msg.id)];
        ReleaseKeepsConsistent(s.(log := s.log + [Sent(msg.id, msg.text)]), msg.id, timeout);
      }
    }
  }

  lemma {:induction false} AckedKeys(jobs: Jobs, id: string, now: int, local: map<int, LocalTime>)
    requires CanAck(jobs, id) && ValidIds(jobs)
    ensures ValidIds(Acked(jobs, id, now, local))
  {
    hide NextRun;
  }

  lemma {:induction false} ReleasedSlots(slots: seq<Slot>, id: string)
    requires UniqueIds(slots) && id != ""
    ensures UniqueIds(Released(slots, id))
    ensures forall i :: 0 <= i < |slots| && Released(slots, id)[i].id != "" ==>
              Released(slots, id)[i] == slots[i] && slots[i].id != id
    ensures forall i :: 0 <= i < |slots| && slots[i].id != id ==> Released(slots, id)[i] == slots[i]
  {
    ReleasedUnique(slots, id);
    NotTracked(Released(slots, id), id);
  }

  lemma {:induction false} ReleaseKeepsConsistent(s: State, id: string, timeout: int)
    requires Consistent(s, timeout) && id != ""
    ensures TableAt(Released(s.slots, id), timeout, s.clock)
    ensures OpenMatchesTable(s.(slots := Released(s.slots, id), log := s.log + [Closed(id)]), timeout)
  {
    var slots, log := Released(s.slots, id), s.log + [Closed(id)];
    ReleasedSlots(s.slots, id);
    forall x ensures OpenSince(log, x) == if x == id then None else OpenSince(s.log, x) {
      OpenSinceAppend(s.log, Closed(id), x);
    }
    hide OpenSince, ElapsedMs, Ns, UniqueIds, Released, ValidMono, ValidIds;
    forall x | x != id && x != "" && OpenSince(log, x).Some?
      ensures var at := OpenSince(log, x).value; OnRecord(slots, x, at) || ElapsedMs(at, s.clock) >= timeout
    {
      var at := OpenSince(log, x).value;
      if OnRecord(s.slots, x, at) {
        var i :| 0 <= i < |s.slots| && s.slots[i].id == x && s.slots[i].mono == at;
        assert slots[i] == s.slots[i];
      }
    }
  }

  /** Every step keeps the table in step with the open offers, unless a poll finds no room for its job. */
  lemma {:induction false} StepKeepsConsistent(s: State, e: Event, timeout: int)
    requires Consistent(s, timeout) && CanHappen(s, e, timeout)
    ensures Consistent(Step(s, e, timeout), timeout) <==> FindsRoom(s, e, timeout)
  {
    match e {
      case Poll(_, _, _, _, _) => PollKeepsConsistent(s, e, timeout);
      case Handle(_, _, _) => HandleKeepsConsistent(s, e, timeout);
      case Edit(_, _) => hide TableAt, OpenSince, OnRecord;
    }
  }

  // ------------------------------------------------------------------- all runs

  /** The states of a run: each event can happen where it does. */
  ghost predicate IsRun(run: seq<State>, es: seq<Event>, timeout: int)
  {
    && |run| == |es| + 1
    && forall i :: 0 <= i < |es| ==>
         ValidIds(run[i].jobs) && CanHappen(run[i], es[i], timeout) && run[i + 1] == Step(run[i], es[i], timeout)
  }

  /** In all states of a run the table matches the open offers exactly when every poll finds room for its job. */
  lemma {:induction false} RunConsistentExactly(run: seq<State>, es: seq<Event>, timeout: int, n: nat)
    requires IsRun(run, es, timeout) && Consistent(run[0], timeout) && n < |run|
    ensures (forall k :: 0 <= k <= n ==> Consistent(run[k], timeout)) <==>
            (forall i :: 0 <= i < n ==> FindsRoom(run[i], es[i], timeout))
    decreases n
  {
    hide CanHappen, Step, Consistent, FindsRoom;
    if n > 0 {
      RunConsistentExactly(run, es, timeout, n - 1);
      assert run[n] == Step(run[n - 1], es[n - 1], timeout);
      if Consistent(run[n - 1], timeout) { StepKeepsConsistent(run[n - 1], es[n - 1], timeout); }
    }
  }

  /** When no sleep is cut short every poll finds room, and no offer carries a cut. */
  lemma {:induction false} WholeSleepsFindRoom(run: seq<State>, es: seq<Event>, timeout: int, k: nat)
    requires IsRun(run, es, timeout) && Consistent(run[0], timeout) && k < |run|
    requires forall i :: 0 <= i < |es| ==> SleepsThrough(run[i], es[i], timeout)
    ensures Consistent(run[k], timeout) && forall i :: 0 <= i < k ==> FindsRoom(run[i], es[i], timeout)
    decreases k
  {
    hide CanHappen, Step, Consistent, FindsRoom, SleepsThrough;
    if k > 0 {
      WholeSleepsFindRoom(run, es, timeout, k - 1);
      WholeSleepFindsRoom(run[k - 1], es[k - 1], timeout);
      StepKeepsConsistent(run[k - 1], es[k - 1], timeout);
    }
  }

  /** How far apart two offers of one job must be, without a `Closed` in between. */
  predicate Apart(first: Mono, second: Mono, cut: nat, timeout: int)
  {
    Ns(second) - Ns(first) > (timeout - 1) * 1000000 - cut
  }

  /** The full timeout, unless the reading that decided borrows nanoseconds. */
  predicate FullyApart(first: Mono, second: Mono, used: Mono, cut: nat, timeout: int)
  {
    used.nsec >= first.nsec ==> Ns(second) - Ns(first) >= timeout * 1000000 - cut
  }

  ghost predicate OffersAreApart(log: seq<Entry>, timeout: int)
  {
    && (forall i, j :: 0 <= i < j < |log| && Reoffer(log, i, j) ==>
         Apart(log[i].at, log[j].at, log[j].cut, timeout))
    && (forall i, j :: 0 <= i < j < |log| && NextOffer(log, i, j) ==>
         FullyApart(log[i].at, log[j].at, log[j].used, log[j].cut, timeout))
  }

  /** Offers are logged in the order of their times, none after `clock`. */
  ghost predicate InTime(log: seq<Entry>, clock: Mono)
  {
    && (forall i :: 0 <= i < |log| && log[i].Offered? ==> Ns(log[i].at) <= Ns(clock))
    && (forall i, j :: 0 <= i < j < |log| && log[i].Offered? && log[j].Offered? ==> Ns(log[i].at) <= Ns(log[j].at))
  }

  /** Entry `j` offers again the job entry `i` offered, and it was not acknowledged in between. */
  predicate Reoffer(log: seq<Entry>, i: nat, j: nat)
    requires i < j < |log|
  {
    && log[i].Offered? && log[j].Offered? && log[i].id == log[j].id
    && forall k :: i < k < j ==> log[k] != Closed(log[i].id)
  }

  /** Entry `j` is the first to do so. */
  predicate NextOffer(log: seq<Entry>, i: nat, j: nat)
    requires i < j < |log|
  {
    Reoffer(log, i, j) && forall k :: i < k < j ==> !(log[k].Offered? && log[k].id == log[i].id)
  }

  lemma {:induction false} OpenIndex(log: seq<Entry>, id: string, i: nat) returns (j: nat)
    requires i < |log| && log[i].Offered? && log[i].id == id && forall k :: i < k < |log| ==> log[k] != Closed(id)
    ensures i <= j < |log| && log[j].Offered? && log[j].id == id && OpenSince(log, id) == Some(log[j].at)
    decreases |log|
  {
    var n := |log| - 1;
    if log[n].Offered? && log[n].id == id {
      j := n;
    } else {
      j := OpenIndex(log[..n], id, i);
    }
  }

  lemma {:induction false} AppendKeepsApart(log: seq<Entry>, e: Entry, clock: Mono, timeout: int)
    requires OffersAreApart(log, timeout) && InTime(log, clock)
    requires e.Offered? && OpenSince(log, e.id).Some? ==>
               Apart(OpenSince(log, e.id).value, e.at, e.cut, timeout)
                 && FullyApart(OpenSince(log, e.id).value, e.at, e.used, e.cut, timeout)
    ensures OffersAreApart(log + [e], timeout)
  {
    hide OpenSince, FullyApart, Ns;
    var l := log + [e];
    forall i, j | 0 <= i < j < |l| && Reoffer(l, i, j) ensures Apart(l[i].at, l[j].at, l[j].cut, timeout) {
      assert forall k :: i < k < j ==> l[k] == log[k];
      if j < |log| {
        assert Reoffer(log, i, j);
      } else {
        var o := OpenIndex(log, e.id, i);
      }
    }
    forall i, j | 0 <= i < j < |l| && NextOffer(l, i, j)
      ensures FullyApart(l[i].at, l[j].at, l[j].used, l[j].cut, timeout)
    {
      assert forall k :: i < k < j ==> l[k] == log[k];
      if j < |log| {
        assert NextOffer(log, i, j);
      } else {
        var o := OpenIndex(log, e.id, i);
      }
    }
  }

  lemma {:induction false} StepKeepsApart(s: State, e: Event, timeout: int)
    requires Consistent(s, timeout) && CanHappen(s, e, timeout)
    requires OffersAreApart(s.log, timeout) && InTime(s.log, s.clock)
    ensures OffersAreApart(Step(s, e, timeout).log, timeout)
  {
    match e {
      case Poll(_, _, _, _, _) =>
        var p := PickOf(s, e, timeout);
        if !p.NoJob? {
          if OpenSince(s.log, p.id).Some? { OffersApart(s, e, timeout); }
          hide OffersAreApart, OpenSince, Marked, InTime, Apart, FullyApart, PickOf, Deciding, Cut;
          var offer := Offered(p.id, e.awake, Deciding(s, e, timeout), Cut(s, e, timeout));
          AppendKeepsApart(s.log, offer, s.clock, timeout);
        }
      case Handle(h, _, _) =>
        var msg := s.pending.value;
        StepKeepsInTime(s, Handle(h, 0, map[]), timeout);
        hide OffersAreApart, OpenSince, Acked;
        AppendKeepsApart(s.log, Sent(msg.id, msg.text), s.clock, timeout);
        AppendKeepsApart(s.log + [Sent(msg.id, msg.text)], Closed(msg.id), s.clock, timeout);
        assert s.log + [Sent(msg.id, msg.text)] + [Closed(msg.id)] == s.log + [Sent(msg.id, msg.text), Closed(msg.id)];
      case Edit(_, _) =>
    }
  }

  lemma {:induction false} StepKeepsInTime(s: State, e: Event, timeout: int)
    requires ValidIds(s.jobs) && CanHappen(s, e, timeout) && InTime(s.log, s.clock)
    ensures InTime(Step(s, e, timeout).log, Step(s, e, timeout).clock)
  {
    hide PickOf, Marked, Acked, Deciding, Cut, Ns, Delivered, CanAck;
  }

  lemma {:induction false} RunIsInTime(run: seq<State>, es: seq<Event>, timeout: int, k: nat)
    requires IsRun(run, es, timeout) && run[0].log == [] && k < |run|
    ensures InTime(run[k].log, run[k].clock)
    decreases k
  {
    if k > 0 {
      RunIsInTime(run, es, timeout, k - 1);
      hide CanHappen, Step, InTime, ValidIds;
      StepKeepsInTime(run[k - 1], es[k - 1], timeout);
    }
  }

  /**
   * Over every run from a fresh scheduler in which every poll finds room for its job, sleeps cut
   * short or not: two offers of one job without an acknowledgement in between are more than
   * `timeout - 1` milliseconds apart, less the cut of the later one's sleep, and one and the next
   * are at least `timeout` apart, less that cut, unless the reading that decided borrows nanoseconds.
   */
  lemma {:induction false} RunOffersApart(run: seq<State>, es: seq<Event>, timeout: int, k: nat)
    requires IsRun(run, es, timeout) && Consistent(run[0], timeout) && run[0].log == [] && k < |run|
    requires forall i :: 0 <= i < k ==> FindsRoom(run[i], es[i], timeout)
    ensures OffersAreApart(run[k].log, timeout)
    decreases k
  {
    hide CanHappen, Step, Consistent, OffersAreApart, FindsRoom, InTime;
    if k > 0 {
      RunOffersApart(run, es, timeout, k - 1);
      RunConsistentExactly(run, es, timeout, k - 1);
      RunIsInTime(run, es, timeout, k - 1);
      StepKeepsApart(run[k - 1], es[k - 1], timeout);
    } else {
      assert OffersAreApart([], timeout) by { NothingApart(timeout); }
    }
  }

  ghost predicate NothingCut(log: seq<Entry>)
  {
    forall i :: 0 <= i < |log| && log[i].Offered? ==> log[i].cut == 0
  }

  lemma {:induction false} WholeSleepsCutNothing(run: seq<State>, es: seq<Event>, timeout: int, k: nat)
    requires IsRun(run, es, timeout) && run[0].log == [] && k < |run|
    requires forall i :: 0 <= i < |es| ==> SleepsThrough(run[i], es[i], timeout)
    ensures NothingCut(run[k].log)
    decreases k
  {
    if k > 0 {
      WholeSleepsCutNothing(run, es, timeout, k - 1);
      hide PickOf, Marked, Acked, Deciding, Cut, CanHappen, Delivered, CanAck;
    }
  }

  /**
   * Over every run from a fresh scheduler in which no sleep is cut short, offers of one job are
   * that far apart with no cut, so offers within a shorter span are of different jobs.
   */
  lemma {:induction false} WholeSleepsApart(run: seq<State>, es: seq<Event>, timeout: int, k: nat)
    requires IsRun(run, es, timeout) && Consistent(run[0], timeout) && run[0].log == [] && k < |run|
    requires forall i :: 0 <= i < |es| ==> SleepsThrough(run[i], es[i], timeout)
    ensures OffersAreApart(run[k].log, timeout) && NothingCut(run[k].log)
  {
    WholeSleepsFindRoom(run, es, timeout, k);
    WholeSleepsCutNothing(run, es, timeout, k);
    hide *;
    RunOffersApart(run, es, timeout, k);
  }

  lemma {:induction false} NothingApart(timeout: int)
    ensures OffersAreApart([], timeout)
  {
  }

  lemma {:induction false} ConsistentIs(s: State, timeout: int)
    requires Consistent(s, timeout)
    ensures ValidIds(s.jobs) && timeout > 0
  {
  }

  lemma {:induction false} FreshIsConsistent(jobs: Jobs, clock: Mono, timeout: int)
    requires ValidIds(jobs) && ValidMono(clock) && timeout > 0
    ensures Consistent(State(jobs, seq(TRACKED, _ => FREE), clock, None, []), timeout)
  {
    var s := State(jobs, seq(TRACKED, _ => FREE), clock, None, []);
    assert forall i :: 0 <= i < TRACKED ==> s.slots[i] == FREE;
  }

  // ------------------------------------------------------ offers that come too soon

  /** The clock `d` nanoseconds later. */
  function Later(at: Mono, d: nat): (t: Mono)
    ensures ValidMono(t) && Ns(t) == Ns(at) + d
  {
    Mono((Ns(at) + d) / 1000000000, (Ns(at) + d) % 1000000000)
  }

  /** The state of a fresh scheduler once a job was offered and its delivery failed. */
  function OfferedOnce(job: Job, at: Mono, timeout: int): (s: State)
  {
    var slots := seq(TRACKED, _ => FREE)[0 := Slot("job", at, timeout)];
    State(map["job" := job], slots, at, None, [Offered("job", at, at, 0)])
  }

  /**
   * For every timeout and length of sleep: a run of a fresh scheduler in which a job is offered,
   * its delivery fails, and it is offered again just that much later. The reading that decided
   * does not borrow, and what is missing from the timeout is what was cut from the sleep.
   */
  lemma {:induction false} CutSleepRepeats(job: Job, h: Handling, at: Mono, timeout: int, d: nat)
    returns (run: seq<State>, es: seq<Event>)
    requires timeout > 0 && Readable(job) && !h.sendOk && ValidMono(at)
    ensures IsRun(run, es, timeout) && |run| == 4
    ensures run[0] == State(map["job" := job], seq(TRACKED, _ => FREE), at, None, [])
    ensures var cut := if d >= timeout * 1000000 then 0 else timeout * 1000000 - d;
            run[3].log == [Offered("job", at, at, 0), Offered("job", Later(at, d), at, cut)]
  {
    var awake := Later(at, d);
    var s0, s2 := State(map["job" := job], seq(TRACKED, _ => FREE), at, None, []), OfferedOnce(job, at, timeout);
    var first, again := Poll(0, ["job"], at, at, at), Poll(0, ["job"], at, at, awake);
    assert Missing(Ns(at) + timeout * 1000000, awake) == if d >= timeout * 1000000 then 0 else timeout * 1000000 - d;
    hide *;
    OnceOffered(job, h, at, timeout);
    HeldBack(job, at, timeout, awake);
    RunOfThree(s0, first, Handle(h, 0, map[]), again, timeout);
    run := [s0, Step(s0, first, timeout), s2, Step(s2, again, timeout)];
    es := [first, Handle(h, 0, map[]), again];
  }

  lemma {:induction false} RunOfThree(s: State, a: Event, b: Event, c: Event, timeout: int)
    requires ValidIds(s.jobs) && CanHappen(s, a, timeout)
    requires var s1 := Step(s, a, timeout); ValidIds(s1.jobs) && CanHappen(s1, b, timeout)
    requires var s2 := Step(Step(s, a, timeout), b, timeout); ValidIds(s2.jobs) && CanHappen(s2, c, timeout)
    ensures var s1 := Step(s, a, timeout); var s2 := Step(s1, b, timeout);
            IsRun([s, s1, s2, Step(s2, c, timeout)], [a, b, c], timeout)
  {
    hide Step, CanHappen;
  }

  /** A first offer and its failed delivery. */
  lemma {:induction false} OnceOffered(job: Job, h: Handling, at: Mono, timeout: int)
    requires timeout > 0 && Readable(job) && ValidMono(at) && !h.sendOk
    ensures var s := State(map["job" := job], seq(TRACKED, _ => FREE), at, None, []);
            var first, fails := Poll(0, ["job"], at, at, at), Handle(h, 0, map[]);
            && ValidIds(s.jobs) && CanHappen(s, first, timeout)
            && ValidIds(Step(s, first, timeout).jobs) && CanHappen(Step(s, first, timeout), fails, timeout)
            && Step(Step(s, first, timeout), fails, timeout) == OfferedOnce(job, at, timeout)
            && ValidIds(OfferedOnce(job, at, timeout).jobs)
  {
    FirstOffer(job, at, timeout);
    hide PickOf, Marked, Ns, ValidMono;
  }

  lemma {:induction false} FirstOffer(job: Job, at: Mono, timeout: int)
    requires timeout > 0 && Readable(job) && ValidMono(at)
    ensures var s := State(map["job" := job], seq(TRACKED, _ => FREE), at, None, []);
            var e := Poll(0, ["job"], at, at, at);
            && ValidIds(s.jobs) && CanHappen(s, e, timeout)
            && Step(s, e, timeout) == State(s.jobs, s.slots[0 := Slot("job", at, timeout)], at,
                                            Some(Incoming("job", job.message)), [Offered("job", at, at, 0)])
  {
    var slots := seq(TRACKED, _ => FREE);
    SlotOfIs(slots, "job", TRACKED);
    FirstReusableIs(slots, at, 0);
    FirstReturnableIs(slots, ["job"], ReadableIds(map["job" := job]), timeout, at, 0);
    hide SlotOf, FirstReusable, FirstReturnable;
    assert PickRow(slots, ["job"], ReadableIds(map["job" := job]), timeout, at) == Offer("job");
  }

  /** A job still held back is waited for, and offered whenever the sleep ends. */
  lemma {:induction false} HeldBack(job: Job, at: Mono, timeout: int, awake: Mono)
    requires timeout > 0 && Readable(job) && ValidMono(at) && ValidMono(awake) && Ns(at) <= Ns(awake)
    ensures var s, e := OfferedOnce(job, at, timeout), Poll(0, ["job"], at, at, awake);
            && ValidIds(s.jobs) && CanHappen(s, e, timeout)
            && Step(s, e, timeout).log ==
                 [Offered("job", at, at, 0), Offered("job", awake, at, Missing(Ns(at) + timeout * 1000000, awake))]
  {
    var s, e := OfferedOnce(job, at, timeout), Poll(0, ["job"], at, at, awake);
    hide *;
    OnceFacts(job, at, timeout);
    HeldBackStep(s, 0, "job", timeout, awake);
    TwoEntries(s.log, Offered("job", at, at, 0), Offered("job", awake, at, Missing(Ns(at) + timeout * 1000000, awake)));
  }

  lemma {:induction false} TwoEntries(log: seq<Entry>, a: Entry, b: Entry)
    requires log == [a]
    ensures log + [b] == [a, b]
  {
  }

  lemma {:induction false} OnceFacts(job: Job, at: Mono, timeout: int)
    ensures var s := OfferedOnce(job, at, timeout);
            && ValidIds(s.jobs) && "job" in s.jobs && s.jobs["job"] == job
            && s.clock == at && s.pending.None? && s.log == [Offered("job", at, at, 0)]
            && |s.slots| > 0 && s.slots[0] == Slot("job", at, timeout)
  {
  }

  lemma {:induction false} HeldBackStep(s: State, k: nat, id: string, timeout: int, awake: Mono)
    requires ValidIds(s.jobs) && id in s.jobs && Readable(s.jobs[id]) && s.pending.None? && timeout > 0
    requires k < |s.slots| && s.slots[k] == Slot(id, s.clock, timeout) && forall i :: 0 <= i < k ==> s.slots[i].id != id
    requires ValidMono(s.clock) && ValidMono(awake) && Ns(s.clock) <= Ns(awake)
    ensures var e := Poll(0, [id], s.clock, s.clock, awake);
            && CanHappen(s, e, timeout)
            && Step(s, e, timeout).log ==
                 s.log + [Offered(id, awake, s.clock, Missing(Ns(s.clock) + timeout * 1000000, awake))]
  {
    var e := Poll(0, [id], s.clock, s.clock, awake);
    JustOffered(s.slots, k, id, timeout, s.clock);
    assert id in ReadableIds(s.jobs);
    assert CanHappen(s, e, timeout);
    assert WaitMs(s.slots, id, timeout, s.clock) == timeout by { hide Age, Tracked; }
    hide *;
    OneKey(s.slots, id, ReadableIds(s.jobs), timeout, s.clock);
    OfferLogged(s, e, id, timeout);
  }

  /** What a poll that waits for a job with a slot adds to the log. */
  lemma {:induction false} OfferLogged(s: State, e: Event, id: string, timeout: int)
    requires ValidIds(s.jobs) && id in s.jobs && e.Poll?
    requires PickRow(s.slots, e.keys, ReadableIds(s.jobs), timeout, e.picked) == WaitThenOffer(id)
    requires Tracked(s.slots, id)
    ensures var end := Ns(e.asleep) + WaitMs(s.slots, id, timeout, e.asleep) * 1000000;
            Step(s, e, timeout).log == s.log + [Offered(id, e.awake, e.asleep, Missing(end, e.awake))]
  {
    hide PickRow, Marked, WaitMs, Ns, Missing, Tracked, ReadableIds;
  }

  /** A job whose offer was just recorded is held back. */
  lemma {:induction false} JustOffered(slots: seq<Slot>, k: nat, id: string, timeout: int, at: Mono)
    requires timeout > 0 && k < |slots| && slots[k] == Slot(id, at, timeout)
    requires forall i :: 0 <= i < k ==> slots[i].id != id
    ensures Tracked(slots, id) && Age(slots, id, at) == 0 && !Returnable(slots, id, timeout, at)
  {
    SlotOfIs(slots, id, k);
    assert ElapsedMs(at, at) == 0;
    hide SlotOf, ElapsedMs, HasRoom;
  }

  lemma {:induction false} OneKey(slots: seq<Slot>, id: string, readable: set<string>, timeout: int, now: Mono)
    requires id in readable
    ensures PickRow(slots, [id], readable, timeout, now) ==
              if Returnable(slots, id, timeout, now) then Offer(id) else WaitThenOffer(id)
  {
    hide Returnable, FirstReturnable;
    FirstReturnableIs(slots, [id], readable, timeout, now, if Returnable(slots, id, timeout, now) then 0 else 1);
  }

  /**
   * And the full timeout can be missed when it does borrow: for every timeout, a run of a fresh
   * scheduler in which a job is offered, its delivery fails, and it is offered again sooner.
   */
  lemma {:induction false} OffersTooClose(job: Job, h: Handling, timeout: int) returns (run: seq<State>, es: seq<Event>)
    requires timeout > 0 && Readable(job) && !h.sendOk
    ensures IsRun(run, es, timeout) && |run| == 4
    ensures run[0] == State(map["job" := job], seq(TRACKED, _ => FREE), LATE, None, [])
    ensures run[3].log == [Offered("job", LATE, LATE, 0), Offered("job", Early(timeout), Early(timeout), 0)]
    ensures Ns(Early(timeout)) - Ns(LATE) < timeout * 1000000
  {
    var s0, s2 := State(map["job" := job], seq(TRACKED, _ => FREE), LATE, None, []), OfferedOnce(job, LATE, timeout);
    var t := Early(timeout);
    var first, again := Poll(0, ["job"], LATE, LATE, LATE), Poll(0, ["job"], t, t, t);
    OnceOffered(job, h, LATE, timeout);
    OfferAgain(job, timeout);
    hide *;
    RunOfThree(s0, first, Handle(h, 0, map[]), again, timeout);
    run := [s0, Step(s0, first, timeout), s2, Step(s2, again, timeout)];
    es := [first, Handle(h, 0, map[]), again];
  }

  lemma {:induction false} OfferAgain(job: Job, timeout: int)
    requires timeout > 0 && Readable(job)
    ensures var t := Early(timeout);
            var s, e := OfferedOnce(job, LATE, timeout), Poll(0, ["job"], t, t, t);
            && ValidIds(s.jobs) && CanHappen(s, e, timeout)
            && Step(s, e, timeout).log == [Offered("job", LATE, LATE, 0), Offered("job", t, t, 0)]
  {
    var t, slots := Early(timeout), OfferedOnce(job, LATE, timeout).slots;
    SlotOfIs(slots, "job", 0);
    hide Early;
    FirstReturnableIs(slots, ["job"], ReadableIds(map["job" := job]), timeout, t, 0);
    hide SlotOf, FirstReusable, FirstReturnable, ElapsedMs;
    assert PickRow(slots, ["job"], ReadableIds(map["job" := job]), timeout, t) == Offer("job");
    assert [Offered("job", LATE, LATE, 0)] + [Offered("job", t, t, 0)] ==
      [Offered("job", LATE, LATE, 0), Offered("job", t, t, 0)];
  }

  /** A job without a slot is offered at once when there is room. */
  lemma {:induction false} RoomStep(s: State, id: string, timeout: int, now: Mono)
    requires ValidIds(s.jobs) && id in s.jobs && Readable(s.jobs[id]) && s.pending.None?
    requires !Tracked(s.slots, id) && HasRoom(s.slots, now) && ValidMono(now) && Ns(s.clock) <= Ns(now)
    ensures var e, msg := Poll(0, [id], now, now, now), Incoming(id, s.jobs[id].message);
            && CanHappen(s, e, timeout)
            && Step(s, e, timeout) ==
                 s.(slots := s.slots[FirstReusable(s.slots, now) := Slot(id, now, timeout)], clock := now,
                    pending := Some(msg), log := s.log + [Offered(id, now, now, 0)])
  {
    hide PickRow, Ns, SlotOf, FirstReusable, ReadableIds, WaitMs, Missing, SleepEnd;
    OnlyKey(s, id, timeout, now);
  }

  /** A job for which there is no room before or after the sleep is offered and leaves no trace in the table. */
  lemma {:induction false} LostStep(s: State, id: string, timeout: int, awake: Mono)
    requires ValidIds(s.jobs) && id in s.jobs && Readable(s.jobs[id]) && s.pending.None? && timeout > 0
    requires !Tracked(s.slots, id) && !HasRoom(s.slots, s.clock) && !HasRoom(s.slots, awake)
    requires ValidMono(s.clock) && ValidMono(awake) && Ns(s.clock) <= Ns(awake)
    ensures var e, msg := Poll(0, [id], s.clock, s.clock, awake), Incoming(id, s.jobs[id].message);
            && CanHappen(s, e, timeout)
            && Step(s, e, timeout) ==
                 s.(clock := awake, pending := Some(msg),
                    log := s.log + [Offered(id, awake, awake, Missing(Ns(s.clock) + timeout * 1000000, awake))])
  {
    var e := Poll(0, [id], s.clock, s.clock, awake);
    hide PickRow, Ns, SlotOf, FirstReusable, ReadableIds, Missing;
    OnlyKey(s, id, timeout, s.clock);
    assert SleepEnd(s.slots, id, timeout, e) == Ns(s.clock) + timeout * 1000000;
    hide SleepEnd, WaitMs;
    assert Marked(s.slots, id, timeout, awake) == s.slots;
  }

  /** What a poll does with the only due job, when it has no slot. */
  lemma {:induction false} OnlyKey(s: State, id: string, timeout: int, now: Mono)
    requires id in s.jobs && Readable(s.jobs[id]) && !Tracked(s.slots, id)
    ensures PickRow(s.slots, [id], ReadableIds(s.jobs), timeout, now) ==
              if HasRoom(s.slots, now) then Offer(id) else WaitThenOffer(id)
  {
    assert id in ReadableIds(s.jobs);
    hide PickRow, HasRoom, Tracked, ReadableIds;
    OneKey(s.slots, id, ReadableIds(s.jobs), timeout, now);
  }

  lemma {:induction false} FailStep(s: State, h: Handling, timeout: int)
    requires ValidIds(s.jobs) && s.pending.Some? && !h.sendOk
    ensures CanHappen(s, Handle(h, 0, map[]), timeout)
    ensures Step(s, Handle(h, 0, map[]), timeout) == s.(pending := None)
  {
  }

  lemma {:induction false} RunSnoc(run: seq<State>, es: seq<Event>, e: Event, timeout: int)
    requires IsRun(run, es, timeout)
    requires ValidIds(run[|es|].jobs) && CanHappen(run[|es|], e, timeout)
    ensures IsRun(run + [Step(run[|es|], e, timeout)], es + [e], timeout)
  {
    hide CanHappen, Step;
    var r, fs := run + [Step(run[|es|], e, timeout)], es + [e];
    forall i | 0 <= i < |fs|
      ensures ValidIds(r[i].jobs) && CanHappen(r[i], fs[i], timeout) && r[i + 1] == Step(r[i], fs[i], timeout)
    {
      assert r[i] == run[i];
      if i < |es| { assert r[i + 1] == run[i + 1] && fs[i] == es[i]; }
    }
  }

  /** More different jobs than the table has slots, all readable. */
  ghost predicate ManyJobs(jobs: Jobs, ids: seq<string>)
  {
    && ValidIds(jobs) && |ids| > TRACKED
    && (forall i, j :: 0 <= i < j < |ids| ==> ids[i] != ids[j])
    && (forall i :: 0 <= i < |ids| ==> ids[i] in jobs && Readable(jobs[ids[i]]))
  }

  /** The first `n` jobs were offered at once, and none was delivered. */
  ghost function Filled(jobs: Jobs, ids: seq<string>, at: Mono, timeout: int, n: nat): (s: State)
    requires n <= TRACKED < |ids|
  {
    var slots := seq(TRACKED, i requires 0 <= i < TRACKED => if i < n then Slot(ids[i], at, timeout) else FREE);
    State(jobs, slots, at, None, seq(n, i requires 0 <= i < n => Offered(ids[i], at, at, 0)))
  }

  lemma {:induction false} FilledSlots(jobs: Jobs, ids: seq<string>, at: Mono, timeout: int, n: nat, k: nat, now: Mono)
    requires ManyJobs(jobs, ids) && n <= TRACKED && n <= k < |ids| && timeout > 0 && ElapsedMs(at, now) < timeout
    ensures var slots := Filled(jobs, ids, at, timeout, n).slots;
            !Tracked(slots, ids[k]) && FirstReusable(slots, now) == n
  {
    var slots := Filled(jobs, ids, at, timeout, n).slots;
    hide ElapsedMs;
    forall i | 0 <= i < TRACKED ensures slots[i].id != ids[k] && (Reusable(slots[i], now) <==> i >= n) {
      assert i < n ==> ids[i] in jobs;
    }
    SlotOfIs(slots, ids[k], TRACKED);
    FirstReusableIs(slots, now, n);
  }

  lemma {:induction false} FilledNext(jobs: Jobs, ids: seq<string>, at: Mono, timeout: int, n: nat)
    requires n < TRACKED < |ids|
    ensures var s, t := Filled(jobs, ids, at, timeout, n), Filled(jobs, ids, at, timeout, n + 1);
            t == s.(slots := s.slots[n := Slot(ids[n], at, timeout)], log := s.log + [Offered(ids[n], at, at, 0)])
  {
  }

  /** A run of a fresh scheduler that fills the table. */
  lemma {:induction false} FillRun(jobs: Jobs, ids: seq<string>, h: Handling, at: Mono, timeout: int, n: nat)
    returns (run: seq<State>, es: seq<Event>)
    requires ManyJobs(jobs, ids) && n <= TRACKED && timeout > 0 && ValidMono(at) && !h.sendOk
    ensures IsRun(run, es, timeout) && |es| == 2 * n
    ensures run[0] == State(jobs, seq(TRACKED, _ => FREE), at, None, [])
            && run[2 * n] == Filled(jobs, ids, at, timeout, n)
  {
    if n == 0 {
      run, es := [State(jobs, seq(TRACKED, _ => FREE), at, None, [])], [];
      hide CanHappen, Step;
    } else {
      assert ElapsedMs(at, at) == 0;
      hide *;
      run, es := FillRun(jobs, ids, h, at, timeout, n - 1);
      run, es := FillMore(run, es, jobs, ids, h, at, timeout, n - 1);
    }
  }

  lemma {:induction false} FillMore(r: seq<State>, fs: seq<Event>, jobs: Jobs, ids: seq<string>, h: Handling, at: Mono,
                                    timeout: int, n: nat) returns (run: seq<State>, es: seq<Event>)
    requires ManyJobs(jobs, ids) && n < TRACKED && timeout > 0 && ValidMono(at) && !h.sendOk && ElapsedMs(at, at) == 0
    requires IsRun(r, fs, timeout) && |fs| == 2 * n && r[2 * n] == Filled(jobs, ids, at, timeout, n)
    ensures IsRun(run, es, timeout) && |es| == 2 * n + 2
    ensures run[0] == r[0] && run[2 * n + 2] == Filled(jobs, ids, at, timeout, n + 1)
  {
    var s, id := r[2 * n], ids[n];
    assert s.jobs == jobs && s.clock == at && s.pending.None? && id in jobs && Readable(jobs[id]) && ValidIds(jobs);
    assert |r| == |fs| + 1;
    FilledSlots(jobs, ids, at, timeout, n, n, at);
    FilledNext(jobs, ids, at, timeout, n);
    assert HasRoom(s.slots, at);
    hide *;
    RoomStep(s, id, timeout, at);
    run, es := AddFailed(r, fs, Poll(0, [id], at, at, at), h, timeout);
  }

  /** Appends a poll and the failed delivery of what it returns. */
  lemma {:induction false} AddFailed(r: seq<State>, fs: seq<Event>, e: Event, h: Handling, timeout: int)
    returns (run: seq<State>, es: seq<Event>)
    requires IsRun(r, fs, timeout) && !h.sendOk && ValidIds(r[|fs|].jobs) && CanHappen(r[|fs|], e, timeout)
    requires var t := Step(r[|fs|], e, timeout); ValidIds(t.jobs) && t.pending.Some?
    ensures IsRun(run, es, timeout) && |es| == |fs| + 2
    ensures run[0] == r[0] && run[|es|] == Step(r[|fs|], e, timeout).(pending := None)
  {
    var t, fails := Step(r[|fs|], e, timeout), Handle(h, 0, map[]);
    assert |r| == |fs| + 1;
    hide *;
    RunSnoc(r, fs, e, timeout);
    FailStep(t, h, timeout);
    RunSnoc(r + [t], fs + [e], fails, timeout);
    run, es := r + [t] + [t.(pending := None)], fs + [e] + [fails];
  }

  /**
   * With more jobs than slots a cut sleep also breaks the offers behind it: a run of a fresh
   * scheduler in which the table is full, the sleep for a job without a slot is cut after `d`
   * nanoseconds, and the job, which is not on record, is offered again without any sleep once
   * the slots have aged, less than the timeout later.
   */
  lemma {:induction false} LostOfferRepeats(jobs: Jobs, ids: seq<string>, h: Handling, at: Mono, timeout: int, d: nat)
    returns (run: seq<State>, es: seq<Event>)
    requires ManyJobs(jobs, ids) && timeout > 0 && ValidMono(at) && !h.sendOk && d <= (timeout - 1) * 1000000
    ensures IsRun(run, es, timeout) && |run| == 36
    ensures run[0] == State(jobs, seq(TRACKED, _ => FREE), at, None, [])
    ensures var id, cut, end := ids[TRACKED], timeout * 1000000 - d, Later(at, timeout * 1000000);
            run[35].log == Filled(jobs, ids, at, timeout, TRACKED).log +
              [Offered(id, Later(at, d), Later(at, d), cut), Offered(id, end, end, 0)]
  {
    var id, awake, end := ids[TRACKED], Later(at, d), Later(at, timeout * 1000000);
    var s := Filled(jobs, ids, at, timeout, TRACKED);
    assert s.jobs == jobs && s.clock == at && s.pending.None? && id in jobs && Readable(jobs[id]) && ValidIds(jobs);
    FullUntil(jobs, ids, at, timeout, d);
    assert Missing(Ns(at) + timeout * 1000000, awake) == timeout * 1000000 - d;
    hide *;
    run, es := FillRun(jobs, ids, h, at, timeout, TRACKED);
    run, es := LostThenOffered(run, es, h, id, timeout, awake, end);
    RunLength(run, es, timeout);
  }

  /** An offer that leaves no trace, its failed delivery, and the next offer of the same job. */
  lemma {:induction false} LostThenOffered(r: seq<State>, fs: seq<Event>, h: Handling, id: string, timeout: int,
                                           awake: Mono, end: Mono) returns (run: seq<State>, es: seq<Event>)
    requires IsRun(r, fs, timeout) && !h.sendOk && timeout > 0
    requires var s := r[|fs|];
             && ValidIds(s.jobs) && id in s.jobs && Readable(s.jobs[id]) && s.pending.None?
             && !Tracked(s.slots, id) && !HasRoom(s.slots, s.clock) && !HasRoom(s.slots, awake) && HasRoom(s.slots, end)
             && ValidMono(s.clock) && ValidMono(awake) && ValidMono(end) && Ns(s.clock) <= Ns(awake) <= Ns(end)
    ensures IsRun(run, es, timeout) && |es| == |fs| + 3 && run[0] == r[0]
    ensures var s := r[|fs|]; var cut := Missing(Ns(s.clock) + timeout * 1000000, awake);
            run[|es|].log == s.log + [Offered(id, awake, awake, cut), Offered(id, end, end, 0)]
  {
    var s, cut := r[|fs|], Missing(Ns(r[|fs|].clock) + timeout * 1000000, awake);
    hide *;
    run, es := AddLost(r, fs, h, id, timeout, awake);
    run, es := AddRoomed(run, es, id, timeout, end);
    PairBehind(s.log, Offered(id, awake, awake, cut), Offered(id, end, end, 0));
  }

  lemma {:induction false} AddLost(r: seq<State>, fs: seq<Event>, h: Handling, id: string, timeout: int, awake: Mono)
    returns (run: seq<State>, es: seq<Event>)
    requires IsRun(r, fs, timeout) && !h.sendOk && timeout > 0
    requires var s := r[|fs|];
             && ValidIds(s.jobs) && id in s.jobs && Readable(s.jobs[id]) && s.pending.None?
             && !Tracked(s.slots, id) && !HasRoom(s.slots, s.clock) && !HasRoom(s.slots, awake)
             && ValidMono(s.clock) && ValidMono(awake) && Ns(s.clock) <= Ns(awake)
    ensures IsRun(run, es, timeout) && |es| == |fs| + 2 && run[0] == r[0]
    ensures var s := r[|fs|]; var cut := Missing(Ns(s.clock) + timeout * 1000000, awake);
            run[|es|] == s.(clock := awake, log := s.log + [Offered(id, awake, awake, cut)])
  {
    var s := r[|fs|];
    hide *;
    LostStep(s, id, timeout, awake);
    run, es := AddFailed(r, fs, Poll(0, [id], s.clock, s.clock, awake), h, timeout);
  }

  lemma {:induction false} AddRoomed(r: seq<State>, fs: seq<Event>, id: string, timeout: int, now: Mono)
    returns (run: seq<State>, es: seq<Event>)
    requires IsRun(r, fs, timeout)
    requires var s := r[|fs|];
             && ValidIds(s.jobs) && id in s.jobs && Readable(s.jobs[id]) && s.pending.None?
             && !Tracked(s.slots, id) && HasRoom(s.slots, now) && ValidMono(now) && Ns(s.clock) <= Ns(now)
    ensures IsRun(run, es, timeout) && |es| == |fs| + 1 && run[0] == r[0]
    ensures run[|es|].log == r[|fs|].log + [Offered(id, now, now, 0)]
  {
    var s, e := r[|fs|], Poll(0, [id], now, now, now);
    assert |r| == |fs| + 1;
    hide *;
    RoomStep(s, id, timeout, now);
    RunSnoc(r, fs, e, timeout);
    run, es := r + [Step(s, e, timeout)], fs + [e];
  }

  lemma {:induction false} PairBehind(log: seq<Entry>, a: Entry, b: Entry)
    ensures log + [a] + [b] == log + [a, b]
  {
  }

  lemma {:induction false} RunLength(run: seq<State>, es: seq<Event>, timeout: int)
    requires IsRun(run, es, timeout)
    ensures |run| == |es| + 1
  {
  }

  /** The full table has no room until the timeout is over, and then it has. */
  lemma {:induction false} FullUntil(jobs: Jobs, ids: seq<string>, at: Mono, timeout: int, d: nat)
    requires ManyJobs(jobs, ids) && timeout > 0 && ValidMono(at) && d <= (timeout - 1) * 1000000
    ensures var slots := Filled(jobs, ids, at, timeout, TRACKED).slots;
            && !Tracked(slots, ids[TRACKED]) && !HasRoom(slots, at) && !HasRoom(slots, Later(at, d))
            && HasRoom(slots, Later(at, timeout * 1000000))
  {
    var slots, end := Filled(jobs, ids, at, timeout, TRACKED).slots, Later(at, timeout * 1000000);
    ElapsedExactly(at, at, timeout);
    ElapsedExactly(at, Later(at, d), timeout);
    ElapsedExactly(at, end, timeout);
    hide ElapsedMs, Later;
    FilledSlots(jobs, ids, at, timeout, TRACKED, TRACKED, at);
    FilledSlots(jobs, ids, at, timeout, TRACKED, TRACKED, Later(at, d));
    assert Reusable(slots[0], end);
  }

  // -------------------------------------------------------- at-least-once delivery

  function Row(jobs: Jobs, id: string): (r: Option<Job>)
  {
    if id in jobs then Some(jobs[id]) else None
  }

  /**
   * What handling a message does: the reply must be sent, and the agent must have succeeded unless
   * the text is a slash command; then, and only then, the job is acknowledged and its slot is freed.
   */
  lemma {:induction false} HandleExactly(s: State, e: Event, timeout: int)
    requires ValidIds(s.jobs) && e.Handle? && s.pending.Some?
    ensures var t, msg := Step(s, e, timeout), s.pending.value;
            var delivered := e.h.sendOk && (e.h.agentOk || msg.text == "/reset" || msg.text == "/status");
            && t.pending.None? && t.clock == s.clock
            && t.jobs == (if delivered then Acked(s.jobs, msg.id, e.now, e.local) else s.jobs)
            && t.slots == (if delivered && CanAck(s.jobs, msg.id) then Released(s.slots, msg.id) else s.slots)
            && t.log == s.log + if !delivered then [] else if !CanAck(s.jobs, msg.id) then [Sent(msg.id, msg.text)]
                                else [Sent(msg.id, msg.text), Closed(msg.id)]
  {
    hide AckedRow, Released;
    assert !CanAck(s.jobs, s.pending.value.id) ==> Acked(s.jobs, s.pending.value.id, e.now, e.local) == s.jobs;
    assert s.log + [] == s.log;
  }

  /** What a poll does: the picked job is handed over and marked, and nothing else of the jobs changes. */
  lemma {:induction false} PollExactly(s: State, e: Event, timeout: int)
    requires ValidIds(s.jobs) && e.Poll?
    ensures var t, p := Step(s, e, timeout), PickRow(s.slots, e.keys, ReadableIds(s.jobs), timeout, e.picked);
            && t.jobs == s.jobs && t.clock == e.awake
            && (p.NoJob? ==> t.slots == s.slots && t.pending == s.pending && t.log == s.log)
            && (!p.NoJob? ==>
                  && p.id in s.jobs && t.pending == Some(Incoming(p.id, s.jobs[p.id].message))
                  && t.slots == Marked(s.slots, p.id, timeout, e.awake)
                  && |t.log| == |s.log| + 1 && t.log[..|s.log|] == s.log
                  && t.log[|s.log|].Offered? && t.log[|s.log|].id == p.id && t.log[|s.log|].at == e.awake)
  {
    PickedIsReadable(s.slots, e.keys, ReadableIds(s.jobs), timeout, e.picked);
    hide PickRow, Marked;
  }

  /** An edit replaces or removes its own row and touches nothing else. */
  lemma {:induction false} EditExactly(s: State, id: string, row: Option<Job>, timeout: int, other: string)
    requires ValidIds(s.jobs)
    ensures var t := Step(s, Edit(id, row), timeout);
            && t == s.(jobs := t.jobs)
            && Row(t.jobs, other) == if other == id then row else Row(s.jobs, other)
  {
  }

  /** Only an edit of the job, or a delivery that was handled and sent, changes its row. */
  lemma {:induction false} OnlyDeliveryAdvances(s: State, e: Event, timeout: int, id: string)
    requires ValidIds(s.jobs) && CanHappen(s, e, timeout)
    requires Row(Step(s, e, timeout).jobs, id) != Row(s.jobs, id)
    ensures (e.Edit? && e.id == id)
         || (e.Handle? && s.pending.value.id == id && Delivered(s.pending.value, e.h)
             && id in s.jobs && Row(Step(s, e, timeout).jobs, id) == AckedRow(s.jobs[id], e.now, e.local))
  {
    hide AckedRow, PickRow;
  }

  /** The message in hand, when it is for `id`, carries the text of the job's row. */
  predicate CarriesMessage(s: State, id: string)
  {
    s.pending.Some? && s.pending.value.id == id && id in s.jobs ==> s.pending.value.text == s.jobs[id].message
  }

  /** One step: the row is as it was, or its message has just been sent and handled. */
  lemma {:induction false} StepDelivers(s: State, e: Event, timeout: int, id: string)
    requires ValidIds(s.jobs) && CanHappen(s, e, timeout) && CarriesMessage(s, id)
    requires e.Edit? ==> e.id != id
    ensures var t := Step(s, e, timeout);
            && CarriesMessage(t, id)
            && s.log <= t.log
            && (id in t.jobs ==> id in s.jobs && t.jobs[id].message == s.jobs[id].message)
            && (Row(t.jobs, id) != Row(s.jobs, id) ==> id in s.jobs && Sent(id, s.jobs[id].message) in t.log[|s.log|..])
  {
    hide PickRow, Marked, NextRun, Handled;
    if e.Handle? && Delivered(s.pending.value, e.h) && CanAck(s.jobs, s.pending.value.id) {
      var t, msg := Step(s, e, timeout), s.pending.value;
      assert t.log[|s.log|..] == [Sent(msg.id, msg.text), Closed(msg.id)];
      assert t.log[|s.log|..][0] == Sent(msg.id, msg.text);
      if msg.id != id { AckedIsNotDue(s.jobs, msg.id, e.now, e.local); }
    }
  }

  /**
   * Over every run in which no edit touches the job, its row can have been deleted or moved
   * on only if its message was sent, after being handled, at some point of the run.
   */
  lemma {:induction false} RunDelivers(run: seq<State>, es: seq<Event>, timeout: int, id: string, k: nat)
    requires IsRun(run, es, timeout) && run[0].pending.None? && k < |run|
    requires forall i :: 0 <= i < |es| && es[i].Edit? ==> es[i].id != id
    ensures CarriesMessage(run[k], id) && run[0].log <= run[k].log
    ensures id in run[k].jobs ==> id in run[0].jobs && run[k].jobs[id].message == run[0].jobs[id].message
    ensures Row(run[k].jobs, id) != Row(run[0].jobs, id) ==>
              id in run[0].jobs && Sent(id, run[0].jobs[id].message) in run[k].log[|run[0].log|..]
    decreases k
  {
    if k > 0 {
      RunDelivers(run, es, timeout, id, k - 1);
      hide CanHappen, Step, ValidIds, CarriesMessage;
      StepDelivers(run[k - 1], es[k - 1], timeout, id);
      StillLogged(run[0].log, run[k - 1].log, run[k].log);
    }
  }

  /** What the later part of a log holds, the longer one holds. */
  lemma {:induction false} StillLogged(a: seq<Entry>, b: seq<Entry>, c: seq<Entry>)
    requires a <= b <= c
    ensures a <= c
    ensures forall e :: e in b[|a|..] || e in c[|b|..] ==> e in c[|a|..]
  {
    assert c[|a|..] == b[|a|..] + c[|b|..];
  }
}
