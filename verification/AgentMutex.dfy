/**
 * The agent mutex (src/core/dispatch.c, src/asap/server.c, src/tools/cron.c): the main loop
 * and the HTTP threads share one session table under one non-recursive lock. Threads are
 * lists of atomic operations, interleaved in any order the lock allows.
 */
module AgentMutex {
  import opened Text
  import opened Compaction
  import opened Session

  type Store = map<string, seq<Item>>

  /** `Inside` works on other tables under the lock; `Outside` is I/O without it. */
  datatype Op =
    | Lock
    | Unlock
    | Load(sid: string)
    | Save(sid: string, input: Input)
    | Remove(sid: string)
    | Inside
    | Outside

  /**
   * A request a thread handles. `acks` says whether a cron message goes on to be acknowledged.
   * `Dashboard` is a route that lists sessions or jobs, recalls memories or edits jobs.
   */
  datatype Request =
    | Message(sid: string, text: string, input: Input, acks: bool)
    | TaskRequest(sid: string, input: Input)
    | StateQuery
    | ToolCall
    | DeleteSession(sid: string)
    | CronPoll
    | Dashboard
    | Reload

  function AckOps(acks: bool): (ops: seq<Op>)
  {
    if acks then [Lock, Inside, Unlock] else []
  }

  /** The operations of each handler, in order. */
  function Handler(r: Request): (ops: seq<Op>)
  {
    match r
    case Message(sid, text, input, acks) =>
      if text == "/reset" then [Lock, Remove(sid), Unlock, Outside] + AckOps(acks)
      else if text == "/status" then [Outside] + AckOps(acks)
      else [Lock, Load(sid), Save(sid, input), Unlock, Outside] + AckOps(acks)
    case TaskRequest(sid, input) => [Lock, Load(sid), Save(sid, input), Unlock]
    case StateQuery => [Lock, Inside, Unlock]
    case ToolCall => [Lock, Inside, Unlock]
    case DeleteSession(sid) => [Lock, Remove(sid), Unlock]
    case CronPoll => [Lock, Inside, Unlock, Outside]
    case Dashboard => [Lock, Inside, Unlock, Outside]
    case Reload => [Lock, Inside, Unlock]
  }

  predicate ValidRequest(r: Request)
  {
    match r
    case Message(_, _, input, _) => ValidInput(input)
    case TaskRequest(_, input) => ValidInput(input)
    case _ => true
  }

  // ------------------------------------------------------------- the discipline

  /** What a critical section does to the session table; None when it leaves it alone. */
  function Effect(ops: seq<Op>): (e: Option<Event>)
  {
    if |ops| >= 2 && ops[0].Load? && ops[1].Save? then Some(Turn(ops[0].sid, ops[1].input))
    else if |ops| >= 1 && ops[0].Remove? then Some(Session.Event.Delete(ops[0].sid))
    else None
  }

  /** `ops` start inside a section, at its beginning. */
  predicate OpensSection(ops: seq<Op>)
  {
    || (|ops| >= 3 && ops[0].Load? && ops[1].Save? && ops[1].sid == ops[0].sid && ValidInput(ops[1].input)
       && ops[2].Unlock?)
    || (|ops| >= 2 && (ops[0].Remove? || ops[0].Inside?) && ops[1].Unlock?)
  }

  function SectionLength(ops: seq<Op>): (n: nat)
    requires OpensSection(ops)
    ensures 2 <= n <= |ops|
  {
    if ops[0].Load? then 3 else 2
  }

  /** Outside the lock: table operations only in sections, and every section is closed. */
  predicate Disciplined(ops: seq<Op>)
    decreases |ops|
  {
    if ops == [] then true
    else if ops[0].Outside? then Disciplined(ops[1..])
    else ops[0].Lock? && OpensSection(ops[1..]) && Disciplined(ops[1..][SectionLength(ops[1..])..])
  }

  /** No handler takes the lock while it holds it, or touches the table without it. */
  lemma {:induction false} HandlersAreDisciplined(r: Request)
    requires ValidRequest(r)
    ensures Disciplined(Handler(r))
  {
    assert Disciplined([Outside]);
    var ack: seq<Op> := [Lock, Inside, Unlock];
    assert ack[1..][2..] == [] && Disciplined(ack);
    match r {
      case Message(sid, text, input, acks) =>
        var rest := AckOps(acks);
        assert ([Outside] + rest)[1..] == rest && Disciplined([Outside] + rest);
        var ops := Handler(r);
        if text != "/status" {
          assert ops[1..][SectionLength(ops[1..])..] == [Outside] + rest;
        }
      case TaskRequest(sid, input) =>
        assert Handler(r)[1..][3..] == [];
      case CronPoll =>
        assert Handler(r)[1..][2..] == [Outside];
      case Dashboard =>
        assert Handler(r)[1..][2..] == [Outside];
      case DeleteSession(sid) =>
        assert Handler(r)[1..][2..] == [];
      case _ =>
    }
  }

  // ---------------------------------------------------------------- interleaving

  /** A thread's remaining operations and the row it last loaded. */
  datatype Thread = Thread(ops: seq<Op>, loaded: Option<seq<Item>>)

  /** `order` lists what the sections that took the lock do to the table, in lock order. */
  datatype System = System(store: Store, holder: Option<nat>, threads: seq<Thread>, order: seq<Event>)

  /** Thread `t` runs its next operation, or takes up a request if it has none left. */
  ghost predicate Next(s: System, t: nat, r: Request, s': System)
  {
    && t < |s.threads| && ValidRequest(r)
    && var th := s.threads[t];
       if th.ops == [] then s' == s.(threads := s.threads[t := th.(ops := Handler(r))])
       else
         var rest := th.ops[1..];
         var moved := s.threads[t := th.(ops := rest)];
         match th.ops[0]
         case Lock =>
           s.holder.None? && s' == s.(holder := Some(t), threads := moved,
             order := s.order + (if Effect(rest).Some? then [Effect(rest).value] else []))
         case Unlock => s' == s.(holder := None, threads := moved)
         case Load(sid) => s' == s.(threads := s.threads[t := Thread(rest, Row(s.store, sid))])
         case Save(sid, input) =>
           ValidInput(input) && s' == s.(store := WithRow(s.store, sid, RowAfter(th.loaded, input)), threads := moved)
         case Remove(sid) => s' == s.(store := s.store - {sid}, threads := moved)
         case Inside => s' == s.(threads := moved)
         case Outside => s' == s.(threads := moved)
  }

  ghost predicate ValidOrder(es: seq<Event>)
  {
    forall i :: 0 <= i < |es| ==> ValidEvent(es[i])
  }

  /** The thread stands before, within or at the end of its section; `base` is the table the section found. */
  ghost predicate InSection(s: System, t: nat, base: Store)
    requires t < |s.threads|
  {
    var ops := s.threads[t].ops;
    var es := s.order;
    || (OpensSection(ops) && Disciplined(ops[SectionLength(ops)..]) && s.store == base
        && (Effect(ops).Some? ==> es != [] && es[|es| - 1] == Effect(ops).value))
    || (|ops| >= 2 && ops[0].Save? && ops[1].Unlock? && Disciplined(ops[2..]) && s.store == base
        && s.threads[t].loaded == Row(base, ops[0].sid) && ValidInput(ops[0].input)
        && es != [] && es[|es| - 1] == Turn(ops[0].sid, ops[0].input))
    || (|ops| >= 1 && ops[0].Unlock? && Disciplined(ops[1..]))
  }

  /**
   * With the lock free the table is the sections applied in lock order. While a thread
   * holds it, the other threads are outside, and the table is on its way from the sections
   * before to the sections with this one.
   */
  ghost predicate Serial(s: System, init: Store)
  {
    && ValidOrder(s.order)
    && (forall i :: 0 <= i < |s.threads| && s.holder != Some(i) ==> Disciplined(s.threads[i].ops))
    && (s.holder.None? ==> s.store == AfterAll(init, s.order))
    && (s.holder.Some? ==>
          var t := s.holder.value;
          && t < |s.threads|
          && InSection(s, t, Before(s, t, init))
          && (s.threads[t].ops[0].Unlock? ==> s.store == AfterAll(init, s.order)))
  }

  /** The table the running section found: its own entry, if it made one, is not applied yet. */
  ghost function Before(s: System, t: nat, init: Store): (base: Store)
    requires t < |s.threads| && ValidOrder(s.order)
  {
    var ops := s.threads[t].ops;
    if ops != [] && (ops[0].Load? || ops[0].Save? || ops[0].Remove?) && s.order != []
    then AfterAll(init, s.order[..|s.order| - 1])
    else AfterAll(init, s.order)
  }

  lemma {:induction false} AppendEvent(init: Store, es: seq<Event>, e: Event)
    requires ValidOrder(es) && ValidEvent(e)
    ensures ValidOrder(es + [e]) && AfterAll(init, es + [e]) == After(AfterAll(init, es), e)
    ensures (es + [e])[..|es|] == es
  {
    assert (es + [e])[..|es|] == es;
  }

  lemma {:induction false} LockKeepsSerial(s: System, t: nat, r: Request, s': System, init: Store)
    requires Serial(s, init) && Next(s, t, r, s')
    requires s.threads[t].ops != [] && s.threads[t].ops[0].Lock?
    ensures Serial(s', init)
  {
    var ops := s.threads[t].ops;
    hide AfterAll, RowAfter;
    assert Disciplined(ops) && s'.threads[t].ops == ops[1..];
    if Effect(ops[1..]).Some? {
      var e := Effect(ops[1..]).value;
      assert ValidEvent(e);
      AppendEvent(init, s.order, e);
      hide After;
      assert s'.order == s.order + [e];
    } else {
      assert s'.order == s.order;
    }
  }

  /** What a step of the section leaves alone, and how the table it found relates to the order. */
  lemma {:induction false} SectionStep(s: System, t: nat, r: Request, s': System, init: Store)
    requires Serial(s, init) && Next(s, t, r, s') && s.holder == Some(t)
    requires s.threads[t].ops != [] && !s.threads[t].ops[0].Lock? && !s.threads[t].ops[0].Unlock?
    ensures var ops, es := s.threads[t].ops, s.order;
            && s'.holder == Some(t) && s'.order == es && |s'.threads| == |s.threads| && s'.threads[t].ops == ops[1..]
            && (forall i :: 0 <= i < |s.threads| && i != t ==> s'.threads[i] == s.threads[i])
            && InSection(s, t, Before(s, t, init))
            && ((ops[0].Load? || ops[0].Save? || ops[0].Remove?) && es != [] && ValidEvent(es[|es| - 1]) ==>
                  AfterAll(init, es) == After(Before(s, t, init), es[|es| - 1]))
  {
    hide RowAfter, InSection, Disciplined;
  }

  lemma {:induction false} LoadKeepsSerial(s: System, t: nat, r: Request, s': System, init: Store)
    requires Serial(s, init) && Next(s, t, r, s') && s.holder == Some(t)
    requires s.threads[t].ops != [] && s.threads[t].ops[0].Load?
    ensures Serial(s', init)
  {
    SectionStep(s, t, r, s', init);
    var ops := s.threads[t].ops;
    hide RowAfter, AfterAll, After;
    assert ops[1..][2..] == ops[3..];
  }

  lemma {:induction false} SaveKeepsSerial(s: System, t: nat, r: Request, s': System, init: Store)
    requires Serial(s, init) && Next(s, t, r, s') && s.holder == Some(t)
    requires s.threads[t].ops != [] && s.threads[t].ops[0].Save?
    ensures Serial(s', init)
  {
    SectionStep(s, t, r, s', init);
    hide RowAfter, AfterAll, Disciplined;
  }

  lemma {:induction false} RemoveKeepsSerial(s: System, t: nat, r: Request, s': System, init: Store)
    requires Serial(s, init) && Next(s, t, r, s') && s.holder == Some(t)
    requires s.threads[t].ops != [] && s.threads[t].ops[0].Remove?
    ensures Serial(s', init)
  {
    SectionStep(s, t, r, s', init);
    hide RowAfter, AfterAll, Disciplined;
  }

  lemma {:induction false} InsideKeepsSerial(s: System, t: nat, r: Request, s': System, init: Store)
    requires Serial(s, init) && Next(s, t, r, s') && s.holder == Some(t)
    requires s.threads[t].ops != [] && (s.threads[t].ops[0].Inside? || s.threads[t].ops[0].Outside?)
    ensures Serial(s', init)
  {
    SectionStep(s, t, r, s', init);
    hide RowAfter, AfterAll, After;
  }

  lemma {:induction false} SectionKeepsSerial(s: System, t: nat, r: Request, s': System, init: Store)
    requires Serial(s, init) && Next(s, t, r, s') && s.holder == Some(t)
    requires s.threads[t].ops != [] && !s.threads[t].ops[0].Lock? && !s.threads[t].ops[0].Unlock?
    ensures Serial(s', init)
  {
    assert t < |s.threads|;
    hide *;
    match s.threads[t].ops[0] {
      case Load(sid) => LoadKeepsSerial(s, t, r, s', init);
      case Inside => InsideKeepsSerial(s, t, r, s', init);
      case Outside => InsideKeepsSerial(s, t, r, s', init);
      case Save(sid, input) => SaveKeepsSerial(s, t, r, s', init);
      case Remove(sid) => RemoveKeepsSerial(s, t, r, s', init);
      case _ => assert false;
    }
  }

  lemma {:induction false} FreshKeepsSerial(s: System, t: nat, r: Request, s': System, init: Store)
    requires Serial(s, init) && Next(s, t, r, s') && s.threads[t].ops == []
    ensures Serial(s', init)
  {
    HandlersAreDisciplined(r);
    hide AfterAll, RowAfter, Handler, Disciplined;
    assert s.holder != Some(t);
    assert s.holder.Some? ==> s'.threads[s.holder.value] == s.threads[s.holder.value];
  }

  /** An unlock, or a step outside of any section. */
  lemma {:induction false} OpenKeepsSerial(s: System, t: nat, r: Request, s': System, init: Store)
    requires Serial(s, init) && Next(s, t, r, s') && s.threads[t].ops != [] && !s.threads[t].ops[0].Lock?
    requires s.threads[t].ops[0].Unlock? || s.holder != Some(t)
    ensures Serial(s', init)
  {
    hide AfterAll, RowAfter;
    assert s'.threads[t].ops == s.threads[t].ops[1..];
    if s.holder.Some? && s.holder != Some(t) {
      assert s'.threads[s.holder.value] == s.threads[s.holder.value];
    }
  }

  /** Every step of every thread keeps the discipline and the serial meaning of the table. */
  lemma {:induction false} NextKeepsSerial(s: System, t: nat, r: Request, s': System, init: Store)
    requires Serial(s, init) && Next(s, t, r, s')
    ensures Serial(s', init)
  {
    assert t < |s.threads|;
    var ops := s.threads[t].ops;
    hide *;
    if ops == [] {
      FreshKeepsSerial(s, t, r, s', init);
    } else if ops[0].Lock? {
      LockKeepsSerial(s, t, r, s', init);
    } else if s.holder == Some(t) && !ops[0].Unlock? {
      SectionKeepsSerial(s, t, r, s', init);
    } else {
      OpenKeepsSerial(s, t, r, s', init);
    }
  }

  // ------------------------------------------------------------------- all runs

  /** An interleaving: at each step some thread moves. */
  ghost predicate IsRun(run: seq<System>, movers: seq<nat>, requests: seq<Request>)
  {
    && |run| == |movers| + 1 && |requests| == |movers|
    && forall i :: 0 <= i < |movers| ==> Next(run[i], movers[i], requests[i], run[i + 1])
  }

  ghost predicate Initial(s: System)
  {
    s.holder.None? && s.order == [] && forall i :: 0 <= i < |s.threads| ==> s.threads[i].ops == []
  }

  /** In every interleaving the table is the critical sections applied in lock order. */
  lemma {:induction false} RunIsSerial(run: seq<System>, movers: seq<nat>, requests: seq<Request>, k: nat)
    requires IsRun(run, movers, requests) && Initial(run[0]) && k < |run|
    ensures Serial(run[k], run[0].store)
    decreases k
  {
    if k > 0 {
      RunIsSerial(run, movers, requests, k - 1);
      hide Next, Serial;
      NextKeepsSerial(run[k - 1], movers[k - 1], requests[k - 1], run[k], run[0].store);
    }
  }

  lemma {:induction false} UnlockedTableIsSerial(run: seq<System>, movers: seq<nat>, requests: seq<Request>, k: nat)
    requires IsRun(run, movers, requests) && Initial(run[0]) && k < |run| && run[k].holder.None?
    ensures ValidOrder(run[k].order) && run[k].store == AfterAll(run[0].store, run[k].order)
  {
    hide IsRun;
    RunIsSerial(run, movers, requests, k);
  }

  /** In every interleaving, whenever the lock is free, every stored session alternates and ends on the assistant. */
  lemma {:induction false} UnlockedTableIsProper(run: seq<System>, movers: seq<nat>, requests: seq<Request>, k: nat)
    requires IsRun(run, movers, requests) && Initial(run[0]) && k < |run| && run[k].holder.None?
    requires ProperStore(run[0].store)
    ensures ProperStore(run[k].store)
  {
    UnlockedTableIsSerial(run, movers, requests, k);
    RunKeepsProper(run[0].store, run[k].order);
  }

  /** The holder never asks for the lock again, and can always go on until it gives it up. */
  lemma {:induction false} HolderNeverRelocks(s: System, init: Store, r: Request)
    requires Serial(s, init) && s.holder.Some? && ValidRequest(r)
    ensures var t := s.holder.value;
            && t < |s.threads| && s.threads[t].ops != [] && !s.threads[t].ops[0].Lock?
            && exists s' :: Next(s, t, r, s')
  {
    hide AfterAll, RowAfter;
    var t := s.holder.value;
    var th := s.threads[t];
    var rest := th.ops[1..];
    var moved := s.threads[t := th.(ops := rest)];
    match th.ops[0] {
      case Load(sid) =>
        assert Next(s, t, r, s.(threads := s.threads[t := Thread(rest, Row(s.store, sid))]));
      case Save(sid, input) =>
        assert Next(s, t, r, s.(store := WithRow(s.store, sid, RowAfter(th.loaded, input)), threads := moved));
      case Remove(sid) =>
        assert Next(s, t, r, s.(store := s.store - {sid}, threads := moved));
      case Inside =>
        assert Next(s, t, r, s.(threads := moved));
      case Unlock =>
        assert Next(s, t, r, s.(holder := None, threads := moved));
    }
  }

  /** Only the holder of the lock changes the table. */
  lemma {:induction false} OnlyHolderWrites(s: System, t: nat, r: Request, s': System, init: Store)
    requires Serial(s, init) && Next(s, t, r, s') && s'.store != s.store
    ensures s.holder == Some(t)
  {
    hide AfterAll, RowAfter;
  }

  // ------------------------------------------------ that requests are executed

  /** What a request asks of the session table. */
  function Asked(r: Request): (es: seq<Event>)
  {
    match r
    case Message(sid, text, input, _) =>
      if text == "/reset" then [Session.Event.Delete(sid)] else if text == "/status" then [] else [Turn(sid, input)]
    case TaskRequest(sid, input) => [Turn(sid, input)]
    case DeleteSession(sid) => [Session.Event.Delete(sid)]
    case StateQuery => []
    case ToolCall => []
    case CronPoll => []
    case Dashboard => []
    case Reload => []
  }

  /** What the operations still to run will do to the table, section by section. */
  function Pending(ops: seq<Op>): (es: seq<Event>)
  {
    if ops == [] then []
    else
      var rest := ops[1..];
      (if !ops[0].Lock? then []
       else if |rest| >= 2 && rest[0].Load? && rest[1].Save? then [Turn(rest[0].sid, rest[1].input)]
       else if |rest| >= 1 && rest[0].Remove? then [Session.Event.Delete(rest[0].sid)]
       else []) + Pending(rest)
  }

  /** A handler does to the table exactly what its request asks, once. */
  lemma {:induction false} HandlerDoesAsked(r: Request)
    ensures Pending(Handler(r)) == Asked(r)
  {
    var ops := Handler(r);
    PendingTail([Lock, Inside, Unlock]);
    PendingTail([Outside]);
    match r {
      case Message(sid, text, input, acks) =>
        MessageDoesAsked(sid, text, input, acks);
      case TaskRequest(sid, input) =>
        TurnPending(sid, input, []);
        assert ops == [Lock, Load(sid), Save(sid, input), Unlock] + [];
      case DeleteSession(sid) =>
        RemovePending(sid, []);
        assert ops == [Lock, Remove(sid), Unlock] + [];
      case CronPoll => PendingTail(ops);
      case Dashboard => PendingTail(ops);
      case _ =>
    }
  }

  lemma {:induction false} MessageDoesAsked(sid: string, text: string, input: Input, acks: bool)
    ensures Pending(Handler(Message(sid, text, input, acks))) == Asked(Message(sid, text, input, acks))
  {
    var ops, tail := Handler(Message(sid, text, input, acks)), AckOps(acks);
    var rest := [Outside] + tail;
    PendingTail(tail);
    OutsidePending(tail);
    hide Pending;
    if text == "/reset" {
      RemovePending(sid, rest);
      assert ops == [Lock, Remove(sid), Unlock] + rest;
    } else if text != "/status" {
      TurnPending(sid, input, rest);
      assert ops == [Lock, Load(sid), Save(sid, input), Unlock] + rest;
    }
  }

  lemma {:induction false} PendingTail(ops: seq<Op>)
    requires forall i :: 0 <= i < |ops| ==> ops[i].Lock? || ops[i].Inside? || ops[i].Unlock? || ops[i].Outside?
    ensures Pending(ops) == []
  {
    if ops != [] { PendingTail(ops[1..]); }
  }

  lemma {:induction false} OutsidePending(rest: seq<Op>)
    ensures Pending([Outside] + rest) == Pending(rest)
  {
    assert ([Outside] + rest)[1..] == rest;
  }

  lemma {:induction false} RemovePending(sid: string, rest: seq<Op>)
    ensures Pending([Lock, Remove(sid), Unlock] + rest) == [Session.Event.Delete(sid)] + Pending(rest)
  {
    var ops := [Lock, Remove(sid), Unlock] + rest;
    assert ops[1..] == [Remove(sid), Unlock] + rest && ops[1..][1..] == [Unlock] + rest;
    assert ([Unlock] + rest)[1..] == rest;
    assert Pending([Unlock] + rest) == [] + Pending(rest);
    assert Pending(ops[1..]) == [] + Pending(ops[1..][1..]);
  }

  lemma {:induction false} TurnPending(sid: string, input: Input, rest: seq<Op>)
    ensures Pending([Lock, Load(sid), Save(sid, input), Unlock] + rest) == [Turn(sid, input)] + Pending(rest)
  {
    var ops := [Lock, Load(sid), Save(sid, input), Unlock] + rest;
    var a, b, c := ops[1..], ops[2..], ops[3..];
    assert a[1..] == b && b[1..] == c && c[1..] == rest;
    assert Pending(c) == [] + Pending(rest);
    assert Pending(b) == [] + Pending(c);
    assert Pending(a) == [] + Pending(b);
  }

  function CountLocks(ops: seq<Op>): (n: nat)
  {
    if ops == [] then 0 else (if ops[0].Lock? then 1 else 0) + CountLocks(ops[1..])
  }

  lemma {:induction false} CountLocksAppend(a: seq<Op>, b: seq<Op>)
    ensures CountLocks(a + b) == CountLocks(a) + CountLocks(b)
  {
    if a == [] {
      assert a + b == b;
    } else {
      assert (a + b)[1..] == a[1..] + b;
      CountLocksAppend(a[1..], b);
    }
  }

  lemma {:induction false} FewLocks(ops: seq<Op>)
    requires |ops| <= 5
    ensures CountLocks(ops) ==
              (if |ops| > 0 && ops[0].Lock? then 1 else 0) + (if |ops| > 1 && ops[1].Lock? then 1 else 0)
              + (if |ops| > 2 && ops[2].Lock? then 1 else 0) + (if |ops| > 3 && ops[3].Lock? then 1 else 0)
              + (if |ops| > 4 && ops[4].Lock? then 1 else 0)
    decreases |ops|
  {
    if ops != [] { FewLocks(ops[1..]); }
  }

  /**
   * How often a handler takes the lock: a message once, and once more for the acknowledgement of a
   * cron job, a status command not at all, everything else once; and sending is outside of it.
   */
  lemma {:induction false} LocksTaken(r: Request)
    ensures CountLocks(Handler(r)) ==
              match r
              case Message(_, text, _, acks) => (if text == "/status" then 0 else 1) + (if acks then 1 else 0)
              case _ => 1
    ensures r.Message? || r.CronPoll? || r.Dashboard? ==> Outside in Handler(r)
  {
    match r {
      case Message(sid, text, input, acks) =>
        MessageLocks([Lock, Remove(sid), Unlock, Outside], acks);
        MessageLocks([Outside], acks);
        MessageLocks([Lock, Load(sid), Save(sid, input), Unlock, Outside], acks);
        hide CountLocks;
      case _ =>
        FewLocks(Handler(r));
        hide CountLocks;
    }
  }

  lemma {:induction false} MessageLocks(head: seq<Op>, acks: bool)
    requires 1 <= |head| <= 5 && head[|head| - 1].Outside? && forall i :: 1 <= i < |head| ==> !head[i].Lock?
    ensures CountLocks(head + AckOps(acks)) == (if head[0].Lock? then 1 else 0) + (if acks then 1 else 0)
    ensures Outside in head + AckOps(acks)
  {
    CountLocksAppend(head, AckOps(acks));
    FewLocks(head);
    FewLocks(AckOps(acks));
    hide CountLocks;
    assert (head + AckOps(acks))[|head| - 1] == Outside;
  }

  /**
   * Nothing asked for gets lost or done twice: what a thread has pending is what its request asks
   * when it takes it up, and each step moves what it does to the table from there to the order.
   */
  lemma {:induction false} StepAccounts(s: System, t: nat, r: Request, s': System)
    requires Next(s, t, r, s')
    ensures |s'.threads| == |s.threads|
    ensures forall i :: 0 <= i < |s.threads| && i != t ==> s'.threads[i] == s.threads[i]
    ensures var before, after := Pending(s.threads[t].ops), Pending(s'.threads[t].ops);
            if s.threads[t].ops == [] then s'.order == s.order && after == Asked(r)
            else exists done :: s'.order == s.order + done && before == done + after
  {
    HandlerDoesAsked(r);
    hide Asked, Handler, RowAfter;
    var ops := s.threads[t].ops;
    if ops != [] {
      assert s'.threads[t].ops == ops[1..];
      var done := if ops[0].Lock? && Effect(ops[1..]).Some? then [Effect(ops[1..]).value] else [];
      assert Pending(ops) == done + Pending(ops[1..]);
      assert s'.order == s.order + done;
    }
  }

  // -------------------------------------------- what the serial order guarantees

  lemma {:induction false} OtherEventsKeepRow(init: Store, es: seq<Event>, sid: string, p: nat)
    requires ValidOrder(es) && p <= |es|
    requires forall i :: p <= i < |es| ==> es[i].sid != sid
    ensures ValidOrder(es[..p])
    ensures Row(AfterAll(init, es), sid) == Row(AfterAll(init, es[..p]), sid)
    decreases |es|
  {
    hide RowAfter;
    if p < |es| {
      OtherEventsKeepRow(init, es[..|es| - 1], sid, p);
      assert es[..|es| - 1][..p] == es[..p];
    } else {
      assert es[..p] == es;
    }
  }

  /** In the serial order a deleted session stays deleted until a later turn on it. */
  lemma {:induction false} DeleteStaysInOrder(init: Store, es: seq<Event>, sid: string, p: nat)
    requires ValidOrder(es) && p < |es| && es[p] == Session.Event.Delete(sid)
    requires forall i :: p < i < |es| && es[i].sid == sid ==> !es[i].Turn?
    ensures sid !in AfterAll(init, es)
    decreases |es|
  {
    hide RowAfter;
    var n := |es| - 1;
    if p < n {
      DeleteStaysInOrder(init, es[..n], sid, p);
    }
  }

  /** In the serial order a turn starts from exactly the row the last turn on its session stored. */
  lemma {:induction false} NextTurnInOrder(init: Store, es: seq<Event>, sid: string, p: nat, q: nat)
    requires ValidOrder(es) && p < q <= |es| && es[p].Turn? && es[p].sid == sid
    requires forall i :: p < i < q ==> es[i].sid != sid
    ensures ValidOrder(es[..p]) && ValidOrder(es[..q])
    ensures var before, after := Row(AfterAll(init, es[..p]), sid), Row(AfterAll(init, es[..q]), sid);
            after == (if RowAfter(before, es[p].input).Some? then RowAfter(before, es[p].input) else before)
  {
    var qs := es[..q];
    OtherEventsKeepRow(init, qs, sid, p + 1);
    assert qs[..p + 1] == es[..p + 1];
    assert es[..p + 1][..p] == es[..p];
    hide RowAfter;
  }

  // ------------------------------------------------- what every interleaving keeps

  /** Thread `t` is about to run an operation of this kind on the session. */
  predicate Saves(s: System, t: nat, sid: string)
  {
    t < |s.threads| && s.threads[t].ops != [] && s.threads[t].ops[0].Save? && s.threads[t].ops[0].sid == sid
  }

  predicate Removes(s: System, t: nat, sid: string)
  {
    t < |s.threads| && s.threads[t].ops != [] && s.threads[t].ops[0] == Remove(sid)
  }

  /** Thread `t` is about to take the lock for a turn on the session. */
  predicate LocksForTurn(s: System, t: nat, sid: string)
  {
    t < |s.threads| && |s.threads[t].ops| >= 2 && s.threads[t].ops[0].Lock? && s.threads[t].ops[1] == Load(sid)
  }

  /** The holder of the lock is in a turn on the session that has still to store its row. */
  predicate TurnUnderWay(s: System, sid: string)
  {
    && s.holder.Some? && s.holder.value < |s.threads|
    && var ops := s.threads[s.holder.value].ops;
       ops != [] && ((ops[0].Load? && ops[0].sid == sid) || (ops[0].Save? && ops[0].sid == sid))
  }

  /** A thread that stores a row holds the lock, and the row it loaded is still the row of the table. */
  lemma {:induction false} LoadedIsCurrent(s: System, t: nat, r: Request, s': System, init: Store, sid: string)
    requires Serial(s, init) && Next(s, t, r, s') && Saves(s, t, sid)
    ensures s.holder == Some(t) && s.threads[t].loaded == Row(s.store, sid)
  {
    hide AfterAll, RowAfter;
  }

  lemma {:induction false} SaveStores(s: System, t: nat, r: Request, s': System, sid: string)
    requires Next(s, t, r, s') && Saves(s, t, sid)
    ensures var th := s.threads[t];
            ValidInput(th.ops[0].input) && s'.store == WithRow(s.store, sid, RowAfter(th.loaded, th.ops[0].input))
  {
    hide RowAfter, WithRow;
  }

  lemma {:induction false} RunLength(run: seq<System>, movers: seq<nat>, requests: seq<Request>)
    requires IsRun(run, movers, requests)
    ensures |run| == |movers| + 1 == |requests| + 1
  {
    hide Next;
  }

  lemma {:induction false} RunStep(run: seq<System>, movers: seq<nat>, requests: seq<Request>, k: nat)
    requires IsRun(run, movers, requests) && k < |movers|
    ensures |run| == |movers| + 1 == |requests| + 1 && Next(run[k], movers[k], requests[k], run[k + 1])
  {
    hide Next;
  }

  lemma {:induction false} OnlySavesAndRemoves(s: System, t: nat, r: Request, s': System, sid: string)
    requires Next(s, t, r, s') && !Saves(s, t, sid) && !Removes(s, t, sid)
    ensures Row(s'.store, sid) == Row(s.store, sid)
  {
    hide RowAfter;
  }

  lemma {:induction false} RowUntouched(
    run: seq<System>, movers: seq<nat>, requests: seq<Request>, i: nat, k: nat, sid: string)
    requires IsRun(run, movers, requests) && i <= k < |run|
    requires forall j :: i <= j < k ==> !Saves(run[j], movers[j], sid) && !Removes(run[j], movers[j], sid)
    ensures Row(run[k].store, sid) == Row(run[i].store, sid)
    decreases k
  {
    hide Next, Row, Saves, Removes;
    if i < k {
      RowUntouched(run, movers, requests, i, k - 1, sid);
      OnlySavesAndRemoves(run[k - 1], movers[k - 1], requests[k - 1], run[k], sid);
    }
  }

  /**
   * In every interleaving: when a thread stores its row, the row it works from is exactly what
   * the last turn on the session stored, so no exchange is lost.
   */
  lemma {:induction false} NextTurnSeesExchange(
    run: seq<System>, movers: seq<nat>, requests: seq<Request>, i: nat, k: nat, sid: string)
    requires IsRun(run, movers, requests) && Initial(run[0]) && i < k < |movers|
    requires Saves(run[i], movers[i], sid) && Saves(run[k], movers[k], sid)
    requires forall j :: i < j < k ==> !Saves(run[j], movers[j], sid) && !Removes(run[j], movers[j], sid)
    ensures run[k].threads[movers[k]].loaded == Row(run[i + 1].store, sid)
    ensures var input := run[k].threads[movers[k]].ops[0].input;
            ValidInput(input)
            && run[k + 1].store == WithRow(run[k].store, sid, RowAfter(Row(run[i + 1].store, sid), input))
  {
    RunStep(run, movers, requests, k);
    SaveStores(run[k], movers[k], requests[k], run[k + 1], sid);
    hide *;
    RunIsSerial(run, movers, requests, k);
    RowUntouched(run, movers, requests, i + 1, k, sid);
    LoadedIsCurrent(run[k], movers[k], requests[k], run[k + 1], run[0].store, sid);
  }

  lemma {:induction false} RemoveEndsTurn(s: System, t: nat, r: Request, s': System, init: Store, sid: string)
    requires Serial(s, init) && Next(s, t, r, s') && Removes(s, t, sid)
    ensures sid !in s'.store && !TurnUnderWay(s', sid)
  {
    hide AfterAll, RowAfter;
  }

  lemma {:induction false} DeletedNext(s: System, t: nat, r: Request, s': System, init: Store, sid: string)
    requires Serial(s, init) && Next(s, t, r, s') && sid !in s.store
    requires !TurnUnderWay(s, sid) && !LocksForTurn(s, t, sid)
    ensures sid !in s'.store && !TurnUnderWay(s', sid)
  {
    hide AfterAll, RowAfter;
    assert Saves(s, t, sid) ==> TurnUnderWay(s, sid);
  }

  /**
   * In every interleaving: a deleted session stays deleted as long as no thread takes the lock
   * for a turn on it, so a turn that took it before the delete never undoes the delete.
   */
  lemma {:induction false} DeleteStays(
    run: seq<System>, movers: seq<nat>, requests: seq<Request>, i: nat, k: nat, sid: string)
    requires IsRun(run, movers, requests) && Initial(run[0]) && i < k < |run|
    requires Removes(run[i], movers[i], sid)
    requires forall j :: i < j < k ==> !LocksForTurn(run[j], movers[j], sid)
    ensures sid !in run[k].store && !TurnUnderWay(run[k], sid)
    decreases k
  {
    hide *;
    RunLength(run, movers, requests);
    RunStep(run, movers, requests, k - 1);
    RunIsSerial(run, movers, requests, k - 1);
    if k == i + 1 {
      RemoveEndsTurn(run[i], movers[i], requests[i], run[k], run[0].store, sid);
    } else {
      DeleteStays(run, movers, requests, i, k - 1, sid);
      DeletedNext(run[k - 1], movers[k - 1], requests[k - 1], run[k], run[0].store, sid);
    }
  }
}
