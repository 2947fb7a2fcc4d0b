/**
 * WebSocket frame queues and the connection table (src/gateway/ws.c). The queues are
 * singly linked lists with a tail pointer and a counter, shared by all connections.
 */
module WsQueue {
  import opened Text
  import opened Numbers

  const MAX_CONNECTIONS := 16
  const MAX_QUEUE := 64
  const TEXT_MAX := 32768

  // ---------------------------------------------------------------- the meaning

  datatype Frame = Frame(connId: int, text: string)

  /** A slot of the connection table. */
  datatype Conn = Conn(live: bool, connId: int)

  const CLOSED := Conn(false, 0)

  predicate TextOk(text: string)
  {
    0 < |text| <= TEXT_MAX
  }

  /** Frames of other connections, in order. */
  function Without(fs: seq<Frame>, id: int): (r: seq<Frame>)
    ensures |r| <= |fs|
    ensures forall f :: f in r ==> f in fs && f.connId != id
  {
    if fs == [] then []
    else Without(fs[..|fs| - 1], id) + (if fs[|fs| - 1].connId == id then [] else [fs[|fs| - 1]])
  }

  /** Texts queued for one connection, in order. */
  function TextsOf(fs: seq<Frame>, id: int): (ts: seq<string>)
  {
    if fs == [] then []
    else TextsOf(fs[..|fs| - 1], id) + (if fs[|fs| - 1].connId == id then [fs[|fs| - 1].text] else [])
  }

  /** Index of the connection's first frame, or the length. */
  function FirstOf(fs: seq<Frame>, id: int): (k: nat)
    ensures k <= |fs| && (k < |fs| ==> fs[k].connId == id)
    ensures forall i :: 0 <= i < k ==> fs[i].connId != id
  {
    if fs == [] || fs[0].connId == id then 0 else 1 + FirstOf(fs[1..], id)
  }

  lemma {:induction false} FirstOfIs(fs: seq<Frame>, id: int, k: nat)
    requires k <= |fs| && (k < |fs| ==> fs[k].connId == id) && forall i :: 0 <= i < k ==> fs[i].connId != id
    ensures FirstOf(fs, id) == k
  {
    var j := FirstOf(fs, id);
    assert j < |fs| ==> fs[j].connId == id;
  }

  function RemoveAt(fs: seq<Frame>, k: nat): (r: seq<Frame>)
    requires k < |fs|
  {
    fs[..k] + fs[k + 1..]
  }

  predicate Registered(conns: seq<Conn>, id: int)
  {
    exists i :: 0 <= i < |conns| && conns[i] == Conn(true, id)
  }

  function FreeSlot(conns: seq<Conn>): (k: nat)
    ensures k <= |conns| && (k < |conns| ==> !conns[k].live)
    ensures forall i :: 0 <= i < k ==> conns[i].live
  {
    if conns == [] || !conns[0].live then 0 else 1 + FreeSlot(conns[1..])
  }

  lemma {:induction false} FreeSlotIs(conns: seq<Conn>, k: nat)
    requires k <= |conns| && (k < |conns| ==> !conns[k].live) && forall i :: 0 <= i < k ==> conns[i].live
    ensures FreeSlot(conns) == k
  {
    var j := FreeSlot(conns);
    assert j < |conns| ==> !conns[j].live;
  }

  function SlotOf(conns: seq<Conn>, id: int): (k: nat)
    ensures k <= |conns| && (k < |conns| ==> conns[k] == Conn(true, id))
    ensures forall i :: 0 <= i < k ==> conns[i] != Conn(true, id)
  {
    if conns == [] || conns[0] == Conn(true, id) then 0 else 1 + SlotOf(conns[1..], id)
  }

  lemma {:induction false} SlotOfIs(conns: seq<Conn>, id: int, k: nat)
    requires k <= |conns| && (k < |conns| ==> conns[k] == Conn(true, id))
    requires forall i :: 0 <= i < k ==> conns[i] != Conn(true, id)
    ensures SlotOf(conns, id) == k
    ensures Registered(conns, id) <==> k < |conns|
  {
    var j := SlotOf(conns, id);
    assert j < |conns| ==> conns[j] == Conn(true, id);
  }

  function Opened(conns: seq<Conn>, id: int): (r: seq<Conn>)
  {
    var k := FreeSlot(conns);
    if k < |conns| then conns[k := Conn(true, id)] else conns
  }

  function Unregistered(conns: seq<Conn>, id: int): (r: seq<Conn>)
    ensures |r| == |conns|
  {
    var k := SlotOf(conns, id);
    if k < |conns| then conns[k := CLOSED] else conns
  }

  /** Frames a broadcast queues: one per open slot, until the queue is full. */
  function Broadcasted(conns: seq<Conn>, fs: seq<Frame>, text: string): (r: seq<Frame>)
  {
    if conns == [] then fs
    else if !conns[0].live then Broadcasted(conns[1..], fs, text)
    else if |fs| >= MAX_QUEUE then fs
    else Broadcasted(conns[1..], fs + [Frame(conns[0].connId, text)], text)
  }

  // --------------------------------------------------------------- the linked list

  class Msg {
    const connId: int
    const text: string
    var next: Msg?

    constructor (connId: int, text: string)
      ensures this.connId == connId && this.text == text && next == null
    {
      this.connId, this.text, next := connId, text, null;
    }
  }

  ghost function FrameOf(m: Msg): (f: Frame)
  {
    Frame(m.connId, m.text)
  }

  ghost function FramesOf(ms: seq<Msg>): (fs: seq<Frame>)
    ensures |fs| == |ms| && forall i :: 0 <= i < |ms| ==> fs[i] == FrameOf(ms[i])
  {
    seq(|ms|, i requires 0 <= i < |ms| => FrameOf(ms[i]))
  }

  /** Each node points to the next one, and the last one to `last`. */
  ghost predicate Chained(ms: seq<Msg>, last: Msg?)
    reads ms
  {
    forall i :: 0 <= i < |ms| ==> ms[i].next == NodeAt(ms, i + 1, last)
  }

  ghost function NodeAt(ms: seq<Msg>, i: nat, last: Msg?): (m: Msg?)
  {
    if i < |ms| then ms[i] else last
  }

  ghost function FirstNode(ms: seq<Msg>, last: Msg?): (m: Msg?)
  {
    if ms == [] then last else ms[0]
  }

  ghost function LastNode(ms: seq<Msg>): (m: Msg?)
  {
    if ms == [] then null else ms[|ms| - 1]
  }

  ghost predicate Distinct(ms: seq<Msg>)
  {
    forall i, j :: 0 <= i < j < |ms| ==> ms[i] != ms[j]
  }

  lemma {:induction false} RemovedDistinct(ms: seq<Msg>, k: nat, repr: set<Msg>)
    requires k < |ms| && Distinct(ms) && forall i :: 0 <= i < |ms| ==> ms[i] in repr
    ensures var ns := ms[..k] + ms[k + 1..];
            && |ns| == |ms| - 1 && Distinct(ns) && forall i :: 0 <= i < |ns| ==> ns[i] in repr
  {
  }

  lemma {:induction false} RemovedNodes(ms: seq<Msg>, k: nat)
    requires k < |ms|
    ensures var ns := ms[..k] + ms[k + 1..];
            && |ns| == |ms| - 1
            && (forall i :: 0 <= i < k ==> ns[i] == ms[i])
            && (forall i :: k <= i < |ns| ==> ns[i] == ms[i + 1])
            && FirstNode(ns, null) == (if k == 0 then NodeAt(ms, 1, null) else ms[0])
            && LastNode(ns) == (if k + 1 < |ms| then ms[|ms| - 1] else if k > 0 then ms[k - 1] else null)
  {
  }

  /** Skipping the k-th node leaves a chain. */
  lemma {:induction false} RemovedChained(ms: seq<Msg>, k: nat)
    requires k < |ms|
    requires forall i :: 0 <= i < |ms| && i != k - 1 && i != k ==> ms[i].next == NodeAt(ms, i + 1, null)
    requires k > 0 ==> ms[k - 1].next == NodeAt(ms, k + 1, null)
    ensures Chained(ms[..k] + ms[k + 1..], null)
  {
    RemovedNodes(ms, k);
    var ns := ms[..k] + ms[k + 1..];
    forall i | 0 <= i < |ns| ensures ns[i].next == NodeAt(ns, i + 1, null) {
      assert ns[i] == ms[if i < k then i else i + 1];
    }
  }

  lemma {:induction false} FramesAppend(ms: seq<Msg>, m: Msg)
    ensures FramesOf(ms + [m]) == FramesOf(ms) + [FrameOf(m)]
  {
  }

  lemma {:induction false} OthersDiffer(ms: seq<Msg>, k: nat)
    requires k < |ms| && Distinct(ms)
    ensures forall i :: 0 <= i < |ms| && i != k ==> ms[i] != ms[k]
  {
  }

  /** The pass of `Drop` at node `k`: the list is the kept nodes and the unvisited ones. */
  ghost predicate Dropping(ns: seq<Msg>, id: int, before: seq<Msg>, k: nat, kept: seq<Msg>, prev: Msg?, p: Msg?)
    requires k <= |before|
  {
    && ns == kept + before[k..]
    && prev == LastNode(kept) && p == NodeAt(before, k, null)
    && FramesOf(kept) == Without(FramesOf(before[..k]), id)
  }

  /** Where the pass stands after keeping, or after unlinking, node `k`. */
  lemma {:induction false} DroppingStep(ns: seq<Msg>, id: int, before: seq<Msg>, k: nat, kept: seq<Msg>, prev: Msg?)
    requires k < |before| && Dropping(ns, id, before, k, kept, prev, before[k])
    ensures |ns| > |kept| && ns[|kept|] == before[k] && prev == (if |kept| == 0 then null else ns[|kept| - 1])
    ensures var next := NodeAt(ns, |kept| + 1, null);
            if before[k].connId != id
            then Dropping(ns, id, before, k + 1, kept + [before[k]], before[k], next)
            else Dropping(ns[..|kept|] + ns[|kept| + 1..], id, before, k + 1, kept, prev, next)
  {
    CutAt(kept, before, k);
    WithoutStep(before, k, id);
    FramesAppend(kept, before[k]);
    hide FramesOf, Without;
  }

  class MsgList {
    var head: Msg?
    var tail: Msg?
    var count: int
    ghost var nodes: seq<Msg>
    ghost var repr: set<Msg>

    /** List, tail and counter agree. */
    ghost predicate Valid()
      reads this, repr
    {
      && (forall i :: 0 <= i < |nodes| ==> nodes[i] in repr)
      && Distinct(nodes) && Chained(nodes, null)
      && head == FirstNode(nodes, null) && tail == LastNode(nodes) && count == |nodes|
    }

    ghost function Frames(): (fs: seq<Frame>)
      reads this
    {
      FramesOf(nodes)
    }

    constructor ()
      ensures Valid() && nodes == [] && Frames() == [] && repr == {}
    {
      head, tail, count, nodes, repr := null, null, 0, [], {};
    }

    method Enqueue(m: Msg)
      requires Valid() && m !in repr && m.next == null
      modifies this, repr
      ensures Valid() && repr == old(repr) + {m}
      ensures Frames() == old(Frames()) + [FrameOf(m)]
    {
      if |nodes| > 0 { OthersDiffer(nodes, |nodes| - 1); }
      assert Distinct(nodes + [m]);
      FramesAppend(nodes, m);
      hide Distinct, FramesOf;
      if tail == null {
        head, tail := m, m;
      } else {
        tail.next := m;
        tail := m;
      }
      nodes := nodes + [m];
      repr := repr + {m};
      count := count + 1;
    }

    method HasPending(id: int) returns (found: bool)
      requires Valid()
      ensures found <==> FirstOf(Frames(), id) < |Frames()|
    {
      ghost var k := 0;
      var p := head;
      while p != null
        invariant k <= |nodes| && p == NodeAt(nodes, k, null)
        invariant forall i :: 0 <= i < k ==> nodes[i].connId != id
        decreases |nodes| - k
      {
        if p.connId == id {
          FirstOfIs(Frames(), id, k);
          return true;
        }
        p := p.next;
        k := k + 1;
      }
      FirstOfIs(Frames(), id, |nodes|);
      found := false;
    }

    /** Links around the node `p` behind `prev`, the k-th of the list. */
    method Bypass(prev: Msg?, p: Msg, ghost k: nat)
      requires Valid() && k < |nodes| && p == nodes[k]
      requires prev == if k == 0 then null else nodes[k - 1]
      modifies this`head, prev
      ensures Chained(nodes[..k] + nodes[k + 1..], null)
      ensures head == FirstNode(nodes[..k] + nodes[k + 1..], null)
    {
      assert head == nodes[0] && p.next == NodeAt(nodes, k + 1, null);
      if k > 0 { OthersDiffer(nodes, k - 1); }
      hide Distinct;
      if prev != null { prev.next := p.next; } else { head := p.next; }
      RemovedChained(nodes, k);
      RemovedNodes(nodes, k);
    }

    /** Takes the node `p` behind `prev`, the k-th of the list, out of it. */
    method Unlink(prev: Msg?, p: Msg, ghost k: nat)
      requires Valid() && k < |nodes| && p == nodes[k]
      requires prev == if k == 0 then null else nodes[k - 1]
      modifies this, repr
      ensures Valid() && repr == old(repr)
      ensures nodes == old(nodes)[..k] + old(nodes)[k + 1..]
    {
      hide Chained, FirstNode, LastNode, Distinct, NodeAt;
      ghost var rest := nodes[..k] + nodes[k + 1..];
      var last := NewTail(prev, p, k);
      RemovedDistinct(nodes, k, repr);
      Bypass(prev, p, k);
      tail := last;
      count := count - 1;
      nodes := rest;
    }

    /** The tail once the k-th node is gone. */
    method NewTail(prev: Msg?, p: Msg, ghost k: nat) returns (last: Msg?)
      requires Valid() && k < |nodes| && p == nodes[k]
      requires prev == if k == 0 then null else nodes[k - 1]
      ensures last == LastNode(nodes[..k] + nodes[k + 1..])
    {
      OthersDiffer(nodes, k);
      RemovedNodes(nodes, k);
      hide Distinct, Chained;
      last := if tail == p then prev else tail;
    }

    /** Unlinks the first node, if there is one. */
    method PopFront() returns (m: Msg?)
      requires Valid()
      modifies this
      ensures Valid() && repr == old(repr)
      ensures old(nodes) == [] ==> m == null && nodes == []
      ensures old(nodes) != [] ==> m == old(nodes)[0] && nodes == old(nodes)[1..]
    {
      m := head;
      if m == null { return; }
      assert m == nodes[0] && m.next == NodeAt(nodes, 1, null);
      assert forall i :: 1 <= i < |nodes| ==> nodes[i] == nodes[1..][i - 1];
      head := m.next;
      if head == null { tail := null; }
      count := count - 1;
      nodes := nodes[1..];
    }

    /** Unlinks the connection's first node, wherever it is in the list. */
    method Dequeue(id: int) returns (m: Msg?)
      requires Valid()
      modifies this, repr
      ensures Valid() && repr == old(repr)
      ensures var k := FirstOf(old(Frames()), id);
              if k < |old(nodes)|
              then m == old(nodes)[k] && nodes == old(nodes)[..k] + old(nodes)[k + 1..]
              else m == null && nodes == old(nodes)
    {
      ghost var k := 0;
      ghost var before := nodes;
      var prev: Msg? := null;
      m := null;
      var p := head;
      while p != null
        invariant Valid() && nodes == before && repr == old(repr)
        invariant k <= |nodes| && p == NodeAt(nodes, k, null)
        invariant prev == (if k == 0 then null else nodes[k - 1])
        invariant forall i :: 0 <= i < k ==> nodes[i].connId != id
        decreases |nodes| - k
      {
        if p.connId == id {
          FirstOfIs(Frames(), id, k);
          m := p;
          Unlink(prev, p, k);
          return;
        }
        prev := p;
        p := p.next;
        k := k + 1;
      }
      FirstOfIs(Frames(), id, |nodes|);
    }

    /** Keeps or unlinks one node. */
    method Visit(id: int, ghost before: seq<Msg>, ghost k: nat, ghost kept: seq<Msg>, prev: Msg?, p: Msg)
      returns (last: Msg?, next: Msg?, ghost kept': seq<Msg>)
      requires Valid() && k < |before| && Dropping(nodes, id, before, k, kept, prev, p)
      modifies this, repr
      ensures Valid() && repr == old(repr)
      ensures Dropping(nodes, id, before, k + 1, kept', last, next)
    {
      DroppingStep(nodes, id, before, k, kept, prev);
      next := p.next;
      assert next == NodeAt(nodes, |kept| + 1, null);
      hide Valid, Dropping;
      if p.connId != id {
        kept' := kept + [before[k]];
        last := p;
      } else {
        kept' := kept;
        last := prev;
        Unlink(prev, p, |kept|);
      }
    }

    /** Unlinks every node of the connection in one pass. */
    method Drop(id: int)
      requires Valid()
      modifies this, repr
      ensures Valid() && repr == old(repr)
      ensures Frames() == Without(old(Frames()), id)
    {
      ghost var before := nodes;
      ghost var k := 0;
      ghost var kept: seq<Msg> := [];
      var prev: Msg? := null;
      var p := head;
      assert p == FirstNode(nodes, null);
      hide Valid, Dropping, Without, FramesOf, FirstNode;
      DroppingStarts(nodes, id);
      while p != null
        invariant Valid() && repr == old(repr)
        invariant k <= |before| && Dropping(nodes, id, before, k, kept, prev, p)
        decreases |before| - k
      {
        DroppingAt(nodes, id, before, k, kept, prev, p);
        prev, p, kept := Visit(id, before, k, kept, prev, p);
        k := k + 1;
      }
      DroppingEnds(nodes, id, before, k, kept, prev);
    }
  }

  lemma {:induction false} DroppingStarts(ns: seq<Msg>, id: int)
    ensures Dropping(ns, id, ns, 0, [], null, FirstNode(ns, null))
  {
    WithoutNone(ns, id);
    assert [] + ns[0..] == ns;
  }

  lemma {:induction false} DroppingAt(ns: seq<Msg>, id: int, before: seq<Msg>, k: nat, kept: seq<Msg>, prev: Msg?,
                                      p: Msg?)
    requires k <= |before| && Dropping(ns, id, before, k, kept, prev, p)
    ensures p != null ==> k < |before|
  {
    hide FramesOf, Without;
  }

  lemma {:induction false} DroppingEnds(ns: seq<Msg>, id: int, before: seq<Msg>, k: nat, kept: seq<Msg>, prev: Msg?)
    requires k <= |before| && Dropping(ns, id, before, k, kept, prev, null)
    ensures FramesOf(ns) == Without(FramesOf(before), id)
  {
    hide FramesOf, Without;
    assert before[..|before|] == before && kept + before[|before|..] == kept;
  }

  /** The node behind the kept ones, and the list with and without it. */
  lemma {:induction false} CutAt(kept: seq<Msg>, before: seq<Msg>, k: nat)
    requires k < |before|
    ensures var ns := kept + before[k..];
            && |ns| > |kept| && ns[|kept|] == before[k]
            && NodeAt(ns, |kept| + 1, null) == FirstNode(before[k + 1..], null)
            && ns == (kept + [before[k]]) + before[k + 1..]
            && ns[..|kept|] + ns[|kept| + 1..] == kept + before[k + 1..]
            && (|kept| > 0 ==> ns[|kept| - 1] == kept[|kept| - 1])
  {
  }

  lemma {:induction false} WithoutNone(ms: seq<Msg>, id: int)
    ensures FramesOf([]) == Without(FramesOf(ms[..0]), id)
  {
    assert FramesOf(ms[..0]) == [];
  }

  lemma {:induction false} WithoutStep(ms: seq<Msg>, k: nat, id: int)
    requires k < |ms|
    ensures FramesOf(ms[..k + 1]) == FramesOf(ms[..k]) + [FrameOf(ms[k])]
    ensures Without(FramesOf(ms[..k + 1]), id) ==
              Without(FramesOf(ms[..k]), id) + (if ms[k].connId == id then [] else [FrameOf(ms[k])])
  {
    var fs := FramesOf(ms[..k + 1]);
    assert fs[..k] == FramesOf(ms[..k]);
  }

  // -------------------------------------------------------------- whole operations

  /** The gateway's state: the connection table and the two queues. */
  datatype State = State(conns: seq<Conn>, outgoing: seq<Frame>, incoming: seq<Frame>)

  datatype Event =
    | Register(id: int)
    | Unregister(id: int)
    | SendTo(id: int, text: string)
    | Broadcast(text: string)
    | Dequeue(id: int)
    | PushIncoming(id: int, text: string)
    | PopIncoming

  /** A frame is queued only for an open connection and while there is room. */
  predicate Accepts(s: State, id: int, text: string)
  {
    TextOk(text) && id >= 0 && Registered(s.conns, id) && |s.outgoing| < MAX_QUEUE
  }

  function After(s: State, e: Event): (r: State)
  {
    match e
    case Register(id) => s.(conns := Opened(s.conns, id))
    case Unregister(id) => s.(conns := Unregistered(s.conns, id), outgoing := Without(s.outgoing, id))
    case SendTo(id, text) => if Accepts(s, id, text) then s.(outgoing := s.outgoing + [Frame(id, text)]) else s
    case Broadcast(text) => if TextOk(text) then s.(outgoing := Broadcasted(s.conns, s.outgoing, text)) else s
    case Dequeue(id) =>
      var k := FirstOf(s.outgoing, id);
      if k < |s.outgoing| then s.(outgoing := RemoveAt(s.outgoing, k)) else s
    case PushIncoming(id, text) =>
      if TextOk(text) && |s.incoming| < MAX_QUEUE then s.(incoming := s.incoming + [Frame(id, text)]) else s
    case PopIncoming => if s.incoming == [] then s else s.(incoming := s.incoming[1..])
  }

  /** What a call to the sender returns: refused, or accepted, or dropped for want of a connection. */
  function SendResult(s: State, id: int, text: string): (rc: int)
  {
    if !TextOk(text) || id < 0 then -1
    else if Registered(s.conns, id) && |s.outgoing| >= MAX_QUEUE then -1 else 0
  }

  const SESSION_PREFIX := "webchat:"

  /** The session text of a connection. */
  function SessionText(id: int): (s: string)
  {
    SESSION_PREFIX + IntText(id)
  }

  /** The connection a session text names, -1 for other sessions. */
  function ConnIdOf(session: string): (id: int)
  {
    if SESSION_PREFIX <= session then Atoi(session[|SESSION_PREFIX|..]) else -1
  }

  /** What happens while a reader waits: the wait ends, or other threads push or shut down. */
  datatype Wake = TimedOut | Spurious | Arrived(id: int, text: string) | ShutDown

  /** The state after the wait, and whether the gateway is shut down by then. */
  function Waited(s: State, down: bool, wakes: seq<Wake>): (r: (State, bool))
    decreases |wakes|
  {
    if s.incoming != [] || down || wakes == [] then (s, down)
    else match wakes[0]
      case TimedOut => (s, down)
      case Spurious => Waited(s, down, wakes[1..])
      case Arrived(id, text) => Waited(After(s, PushIncoming(id, text)), down, wakes[1..])
      case ShutDown => Waited(s, true, wakes[1..])
  }

  datatype Popped = BadBuffer | Nothing | Message(session: string, text: string)

  /** What a reader gets: the oldest frame after the wait, nothing after shutdown. */
  function PopOutcome(s: State, down: bool, wakes: seq<Wake>, sessionSize: nat, size: nat): (r: (State, Popped))
  {
    if sessionSize == 0 || size == 0 then (s, BadBuffer)
    else
      var (t, off) := Waited(s, down, wakes);
      if off || t.incoming == [] then (t, Nothing)
      else (After(t, PopIncoming), MessageOf(t.incoming[0], sessionSize, size))
  }

  function MessageOf(f: Frame, sessionSize: nat, size: nat): (m: Popped)
    requires sessionSize > 0 && size > 0
  {
    Message(Clip(SessionText(f.connId), sessionSize), Clip(f.text, size))
  }

  /** A wake-up that ends no wait: none at all, or a text that is not accepted. */
  predicate Idle(w: Wake)
  {
    w.Spurious? || (w.Arrived? && !TextOk(w.text))
  }

  /**
   * The wait on an empty queue is decided by its first event: an accepted text is what is
   * taken, whole as far as the buffers go, and a timeout or a shutdown gives nothing.
   */
  lemma {:induction false} FirstEventDecides(s: State, wakes: seq<Wake>, k: nat, sessionSize: nat, size: nat)
    requires s.incoming == [] && sessionSize > 0 && size > 0
    requires k < |wakes| && !Idle(wakes[k]) && forall i :: 0 <= i < k ==> Idle(wakes[i])
    ensures var w := wakes[k];
            PopOutcome(s, false, wakes, sessionSize, size) ==
            if w.Arrived?
            then (s, MessageOf(Frame(w.id, w.text), sessionSize, size))
            else (s, Nothing)
    decreases k
  {
    hide MessageOf;
    if k > 0 {
      assert Idle(wakes[0]);
      FirstEventDecides(s, wakes[1..], k - 1, sessionSize, size);
    } else if wakes[0].Arrived? {
      var f := Frame(wakes[0].id, wakes[0].text);
      var t := s.(incoming := [f]);
      assert s.incoming + [f] == [f] && [f][1..] == s.incoming;
      assert Waited(t, false, wakes[1..]) == (t, false);
      assert After(t, PopIncoming) == s;
    } else if wakes[0].ShutDown? {
      assert Waited(s, true, wakes[1..]) == (s, true);
    }
  }

  /** A session names the number behind its prefix, none at all included; no other session names one. */
  lemma {:induction false} SessionExactly(session: string, t: string)
    ensures ConnIdOf("webchat:" + t) == Atoi(t)
    ensures (forall u :: session != "webchat:" + u) ==> ConnIdOf(session) == -1
  {
    hide Atoi;
    assert ("webchat:" + t)[8..] == t;
    if "webchat:" <= session { assert session == "webchat:" + session[8..]; }
  }

  /** A reply sent to the session of a popped message goes to the connection it came from. */
  lemma {:induction false} ReplyGoesBack(id: int, sessionSize: nat)
    requires INT_MIN <= id <= INT_MAX && sessionSize >= 20
    ensures ConnIdOf(Clip(SessionText(id), sessionSize)) == id
  {
    PrintedIsRead(id);
    hide Atoi, IntText;
    assert (SESSION_PREFIX + IntText(id))[|SESSION_PREFIX|..] == IntText(id);
  }

  class Gateway {
    const conns: array<Conn>
    const outgoing: MsgList
    const incoming: MsgList

    ghost predicate Valid()
      reads conns, outgoing, outgoing.repr, incoming, incoming.repr
    {
      && conns.Length == MAX_CONNECTIONS && outgoing != incoming
      && outgoing.repr !! incoming.repr
      && outgoing.Valid() && incoming.Valid()
    }

    ghost function Now(): (s: State)
      reads conns, outgoing, incoming
    {
      State(conns[..], outgoing.Frames(), incoming.Frames())
    }

    constructor ()
      ensures Valid() && fresh(conns) && fresh(outgoing) && fresh(incoming)
      ensures Now() == State(seq(MAX_CONNECTIONS, _ => CLOSED), [], [])
    {
      conns := new Conn[MAX_CONNECTIONS](_ => CLOSED);
      outgoing := new MsgList();
      incoming := new MsgList();
      new;
      assert conns[..] == seq(MAX_CONNECTIONS, _ => CLOSED);
    }

    method RegisterConn(id: int) returns (rc: int)
      requires Valid()
      modifies conns
      ensures Valid() && Now() == After(old(Now()), Register(id))
      ensures rc == if FreeSlot(old(conns[..])) < MAX_CONNECTIONS then 0 else -1
    {
      for i := 0 to conns.Length
        invariant conns[..] == old(conns[..])
        invariant forall j :: 0 <= j < i ==> conns[j].live
      {
        if !conns[i].live {
          FreeSlotIs(conns[..], i);
          conns[i] := Conn(true, id);
          return 0;
        }
      }
      FreeSlotIs(conns[..], conns.Length);
      rc := -1;
    }

    /** Index of the open slot with the id, or the table's length. */
    method FindConn(id: int) returns (k: nat)
      requires Valid()
      ensures k == SlotOf(conns[..], id) <= conns.Length
      ensures k < conns.Length <==> Registered(conns[..], id)
    {
      for i := 0 to conns.Length
        invariant forall j :: 0 <= j < i ==> conns[j] != Conn(true, id)
      {
        if conns[i].live && conns[i].connId == id {
          SlotOfIs(conns[..], id, i);
          return i;
        }
      }
      SlotOfIs(conns[..], id, conns.Length);
      k := conns.Length;
    }

    method UnregisterConn(id: int)
      requires Valid()
      modifies conns, outgoing, outgoing.repr
      ensures Valid() && outgoing.repr == old(outgoing.repr)
      ensures Now() == After(old(Now()), Unregister(id))
    {
      var k := FindConn(id);
      if k < conns.Length { conns[k] := CLOSED; }
      assert conns[..] == Unregistered(old(conns[..]), id);
      outgoing.Drop(id);
    }

    /** The session names the connection; other sessions and negative ids are refused. */
    method Send(session: string, text: string) returns (rc: int)
      requires Valid()
      modifies outgoing, outgoing.repr
      ensures Valid() && fresh(outgoing.repr - old(outgoing.repr))
      ensures Now() == After(old(Now()), SendTo(ConnIdOf(session), text))
      ensures rc == SendResult(old(Now()), ConnIdOf(session), text)
    {
      hide ConnIdOf, SlotOf, MsgList.Valid, MsgList.Frames;
      if !TextOk(text) { return -1; }
      var id := ConnIdOf(session);
      if id < 0 { return -1; }
      var k := FindConn(id);
      if k == conns.Length { return 0; }
      var room := Append(id, text);
      rc := if room then 0 else -1;
    }

    /** Queues a frame behind the others, unless the queue is full. */
    method Append(id: int, text: string) returns (room: bool)
      requires Valid()
      modifies outgoing, outgoing.repr
      ensures Valid() && fresh(outgoing.repr - old(outgoing.repr)) && incoming.Frames() == old(incoming.Frames())
      ensures room == (|old(outgoing.Frames())| < MAX_QUEUE)
      ensures outgoing.Frames() == if room then old(outgoing.Frames()) + [Frame(id, text)] else old(outgoing.Frames())
    {
      room := outgoing.count < MAX_QUEUE;
      if room {
        var m := new Msg(id, text);
        outgoing.Enqueue(m);
      }
    }

    /** Queues the text for the connection in slot `i`, if it is open; false when the queue is full. */
    method Offer(i: nat, text: string) returns (go: bool)
      requires Valid() && i < conns.Length
      modifies outgoing, outgoing.repr
      ensures Valid() && fresh(outgoing.repr - old(outgoing.repr))
      ensures var c, fs := old(conns[i]), old(Now()).outgoing;
              && Now() == old(Now()).(outgoing :=
                            if c.live && |fs| < MAX_QUEUE then fs + [Frame(c.connId, text)] else fs)
              && go == (!c.live || |fs| < MAX_QUEUE)
    {
      hide MsgList.Valid, MsgList.Frames;
      go := true;
      if conns[i].live { go := Append(conns[i].connId, text); }
    }

    method BroadcastText(text: string)
      requires Valid()
      modifies outgoing, outgoing.repr
      ensures Valid() && fresh(outgoing.repr - old(outgoing.repr))
      ensures Now() == After(old(Now()), Broadcast(text))
    {
      BroadcastAfter(Now(), text);
      if !TextOk(text) { return; }
      ghost var s := Now();
      ghost var table := s.conns;
      assert table == conns[..] && table[0..] == table;
      hide *;
      for i := 0 to conns.Length
        invariant Valid() && fresh(outgoing.repr - old(outgoing.repr))
        invariant Now() == s.(outgoing := Now().outgoing)
        invariant Broadcasted(table, s.outgoing, text) == Broadcasted(table[i..], Now().outgoing, text)
      {
        BroadcastNext(table, i, Now().outgoing, text);
        var go := Offer(i, text);
        if !go { return; }
      }
      BroadcastOver(table[|table|..], Now().outgoing, text);
    }

    /** The connection's next frame, clipped to the caller's buffer. */
    method DequeueOutgoing(id: int, size: nat) returns (text: Option<string>)
      requires Valid()
      modifies outgoing, outgoing.repr
      ensures Valid() && outgoing.repr == old(outgoing.repr)
      ensures Now() == if size == 0 then old(Now()) else After(old(Now()), Dequeue(id))
      ensures var fs, k := old(outgoing.Frames()), FirstOf(old(outgoing.Frames()), id);
              text == if size > 0 && k < |fs| then Some(Clip(fs[k].text, size)) else None
    {
      if size == 0 { return None; }
      hide *;
      var t := TakeFor(id);
      text := if t.None? then None else Some(Clip(t.value, size));
    }

    /** Unlinks the connection's oldest outgoing frame. */
    method TakeFor(id: int) returns (text: Option<string>)
      requires Valid()
      modifies outgoing, outgoing.repr
      ensures Valid() && outgoing.repr == old(outgoing.repr)
      ensures Now() == After(old(Now()), Dequeue(id))
      ensures var fs, k := old(outgoing.Frames()), FirstOf(old(outgoing.Frames()), id);
              text == if k < |fs| then Some(fs[k].text) else None
    {
      ghost var before := outgoing.nodes;
      DequeuedFrames(before, id);
      var m := outgoing.Dequeue(id);
      hide FirstOf, RemoveAt;
      text := if m == null then None else Some(m.text);
    }

    method Push(id: int, text: string)
      requires Valid()
      modifies incoming, incoming.repr
      ensures Valid() && fresh(incoming.repr - old(incoming.repr))
      ensures Now() == After(old(Now()), PushIncoming(id, text))
    {
      if !TextOk(text) { return; }
      var m := new Msg(id, text);
      if incoming.count >= MAX_QUEUE { return; }
      incoming.Enqueue(m);
    }

    /** Waits for a frame, a shutdown or the timeout, and takes the oldest frame, if any. */
    method Pop(shutdown: bool, wakes: seq<Wake>, sessionSize: nat, size: nat) returns (r: Popped)
      requires Valid()
      modifies incoming, incoming.repr
      ensures Valid() && fresh(incoming.repr - old(incoming.repr))
      ensures (Now(), r) == PopOutcome(old(Now()), shutdown, wakes, sessionSize, size)
    {
      if sessionSize == 0 || size == 0 { return BadBuffer; }
      var down := Wait(shutdown, wakes);
      hide Waited;
      if down || incoming.head == null { return Nothing; }
      var f := Take();
      r := MessageOf(f, sessionSize, size);
    }

    /** Unlinks the oldest incoming frame. */
    method Take() returns (f: Frame)
      requires Valid() && incoming.head != null
      modifies incoming
      ensures Valid() && incoming.repr == old(incoming.repr)
      ensures old(Now()).incoming != [] && f == old(Now()).incoming[0]
      ensures Now() == After(old(Now()), PopIncoming)
    {
      ghost var before := incoming.nodes;
      var m := incoming.PopFront();
      PoppedFrames(before);
      f := Frame(m.connId, m.text);
    }

    /** The wait for a frame; the queue stays empty when it is given up. */
    method Wait(shutdown: bool, wakes: seq<Wake>) returns (down: bool)
      requires Valid()
      modifies incoming, incoming.repr
      ensures Valid() && fresh(incoming.repr - old(incoming.repr))
      ensures (Now(), down) == Waited(old(Now()), shutdown, wakes)
    {
      down := shutdown;
      var i := 0;
      while incoming.head == null && !down
        invariant i <= |wakes| && Valid() && fresh(incoming.repr - old(incoming.repr))
        invariant Waited(Now(), down, wakes[i..]) == Waited(old(Now()), shutdown, wakes)
        decreases |wakes| - i
      {
        if i == |wakes| { return; }
        match wakes[i] {
          case TimedOut => return;
          case Spurious =>
          case Arrived(id, text) => Push(id, text);
          case ShutDown => down := true;
        }
        i := i + 1;
      }
    }
  }

  /** An open slot of the table belongs to the connection. */
  predicate IsOpen(conns: seq<Conn>, id: int)
  {
    exists i :: 0 <= i < |conns| && conns[i].live && conns[i].connId == id
  }

  /** A text the gateway passes on: not empty, and of at most 32768 bytes. */
  predicate Passes(text: string)
  {
    1 <= |text| <= 32768
  }

  /**
   * What sending and pushing do, and what a sender is told: a frame goes behind the others while
   * there are fewer than 64; without an open connection the text is dropped and the call succeeds.
   */
  lemma {:induction false} QueuesExactly(s: State, id: int, text: string)
    ensures After(s, SendTo(id, text)) ==
              if Passes(text) && id >= 0 && IsOpen(s.conns, id) && |s.outgoing| < 64
              then s.(outgoing := s.outgoing + [Frame(id, text)]) else s
    ensures SendResult(s, id, text) ==
              if !Passes(text) || id < 0 then -1 else if IsOpen(s.conns, id) && |s.outgoing| >= 64 then -1 else 0
    ensures After(s, PushIncoming(id, text)) ==
              if Passes(text) && |s.incoming| < 64 then s.(incoming := s.incoming + [Frame(id, text)]) else s
    ensures After(s, PopIncoming) == if s.incoming == [] then s else s.(incoming := s.incoming[1..])
    ensures !Passes(text) ==> After(s, Broadcast(text)) == s
  {
    hide Broadcasted;
    assert Registered(s.conns, id) <==> IsOpen(s.conns, id);
  }

  /**
   * What opening and closing a connection does to the table: the first free slot is taken, and the
   * first slot of the connection is freed; every other slot stays, and so does a full table.
   */
  lemma {:induction false} TableExactly(s: State, id: int, i: nat)
    requires i < |s.conns|
    ensures var t := After(s, Register(id));
            && |t.conns| == |s.conns| && t.outgoing == s.outgoing && t.incoming == s.incoming
            && t.conns[i] == if !s.conns[i].live && forall j :: 0 <= j < i ==> s.conns[j].live
                             then Conn(true, id) else s.conns[i]
    ensures var t := After(s, Unregister(id));
            && |t.conns| == |s.conns| && t.incoming == s.incoming
            && if s.conns[i] == Conn(true, id) && forall j :: 0 <= j < i ==> s.conns[j] != Conn(true, id)
               then !t.conns[i].live else t.conns[i] == s.conns[i]
  {
    hide Without;
    if !s.conns[i].live && forall j :: 0 <= j < i ==> s.conns[j].live { FreeSlotIs(s.conns, i); }
    if s.conns[i] == Conn(true, id) && forall j :: 0 <= j < i ==> s.conns[j] != Conn(true, id) {
      SlotOfIs(s.conns, id, i);
    }
  }

  lemma {:induction false} BroadcastNext(table: seq<Conn>, i: nat, fs: seq<Frame>, text: string)
    requires i < |table|
    ensures Broadcasted(table[i..], fs, text) ==
              if !table[i].live then Broadcasted(table[i + 1..], fs, text)
              else if |fs| >= MAX_QUEUE then fs
              else Broadcasted(table[i + 1..], fs + [Frame(table[i].connId, text)], text)
  {
    assert table[i..][1..] == table[i + 1..] && table[i..][0] == table[i];
  }

  lemma {:induction false} BroadcastAfter(s: State, text: string)
    ensures After(s, Broadcast(text)) ==
              if TextOk(text) then s.(outgoing := Broadcasted(s.conns, s.outgoing, text)) else s
  {
    hide Broadcasted;
  }

  lemma {:induction false} BroadcastOver(conns: seq<Conn>, fs: seq<Frame>, text: string)
    ensures conns == [] ==> Broadcasted(conns, fs, text) == fs
  {
  }

  lemma {:induction false} DequeuedFrames(ms: seq<Msg>, id: int)
    ensures var k := FirstOf(FramesOf(ms), id);
            k < |ms| ==> FramesOf(ms[..k] + ms[k + 1..]) == RemoveAt(FramesOf(ms), k)
  {
  }

  lemma {:induction false} PoppedFrames(ms: seq<Msg>)
    ensures ms != [] ==> FramesOf(ms[1..]) == FramesOf(ms)[1..]
  {
  }

  // -------------------------------------------------------------------- all runs

  /** The queues are bounded and every outgoing frame has an open connection to go to. */
  ghost predicate Sound(s: State)
  {
    && |s.conns| == MAX_CONNECTIONS && |s.outgoing| <= MAX_QUEUE && |s.incoming| <= MAX_QUEUE
    && forall i :: 0 <= i < |s.outgoing| ==> Registered(s.conns, s.outgoing[i].connId)
  }

  lemma {:induction false} OpenedKeeps(conns: seq<Conn>, id: int, other: int)
    requires Registered(conns, other)
    ensures Registered(Opened(conns, id), other) && |Opened(conns, id)| == |conns|
  {
    var i :| 0 <= i < |conns| && conns[i] == Conn(true, other);
    assert Opened(conns, id)[i] == Conn(true, other);
  }

  lemma {:induction false} UnregisteredKeeps(conns: seq<Conn>, id: int, other: int)
    requires Registered(conns, other) && other != id
    ensures Registered(Unregistered(conns, id), other)
  {
    var i :| 0 <= i < |conns| && conns[i] == Conn(true, other);
    assert Unregistered(conns, id)[i] == Conn(true, other);
  }

  /** Ids of the open connections, in the order of the table. */
  function OpenIds(conns: seq<Conn>): (ids: seq<int>)
  {
    if conns == [] then [] else (if conns[0].live then [conns[0].connId] else []) + OpenIds(conns[1..])
  }

  /** A broadcast reaches the open connections in the order of the table, as many as there is room for. */
  lemma {:induction false} BroadcastExactly(conns: seq<Conn>, fs: seq<Frame>, text: string)
    requires |fs| <= MAX_QUEUE
    ensures var r, ids, room := Broadcasted(conns, fs, text), OpenIds(conns), 64 - |fs|;
            && |r| == |fs| + (if |ids| < room then |ids| else room)
            && r[..|fs|] == fs
            && forall i :: |fs| <= i < |r| ==> r[i] == Frame(ids[i - |fs|], text)
    decreases |conns|
  {
    if conns != [] {
      if !conns[0].live {
        BroadcastExactly(conns[1..], fs, text);
      } else if |fs| < MAX_QUEUE {
        var more := fs + [Frame(conns[0].connId, text)];
        BroadcastExactly(conns[1..], more, text);
        var r, ids := Broadcasted(conns, fs, text), OpenIds(conns);
        assert r == Broadcasted(conns[1..], more, text) && ids == [conns[0].connId] + OpenIds(conns[1..]);
        hide Broadcasted, OpenIds;
        assert r[..|fs|] == r[..|more|][..|fs|] == fs && r[|fs|] == r[..|more|][|fs|];
        assert forall i :: |more| <= i < |r| ==> r[i] == Frame(OpenIds(conns[1..])[i - |more|], text);
        forall i | |more| <= i < |r| ensures r[i] == Frame(ids[i - |fs|], text) {
          assert ids[i - |fs|] == OpenIds(conns[1..])[i - |more|];
        }
      }
    }
  }

  /** A broadcast queues frames of one text for open connections, behind the others, within the bound. */
  lemma {:induction false} BroadcastBounded(conns: seq<Conn>, fs: seq<Frame>, text: string)
    requires |fs| <= MAX_QUEUE
    ensures var r := Broadcasted(conns, fs, text);
            && fs <= r && |r| <= MAX_QUEUE
            && forall i :: |fs| <= i < |r| ==> r[i].text == text && Registered(conns, r[i].connId)
    decreases |conns|
  {
    if conns != [] {
      var rest := if conns[0].live && |fs| < MAX_QUEUE then fs + [Frame(conns[0].connId, text)] else fs;
      if !conns[0].live || |fs| < MAX_QUEUE {
        BroadcastBounded(conns[1..], rest, text);
        var r := Broadcasted(conns, fs, text);
        assert r == Broadcasted(conns[1..], rest, text);
        hide Broadcasted;
        forall i | |fs| <= i < |r| ensures r[i].text == text && Registered(conns, r[i].connId) {
          if i < |rest| {
            assert r[i] == rest[i] && conns[0] == Conn(true, r[i].connId);
          } else {
            var j :| 0 <= j < |conns[1..]| && conns[1..][j] == Conn(true, r[i].connId);
            assert conns[j + 1] == Conn(true, r[i].connId);
          }
        }
      }
    }
  }

  lemma {:induction false} StepKeepsSound(s: State, e: Event)
    requires Sound(s)
    ensures Sound(After(s, e))
  {
    hide Registered;
    match e {
      case Register(id) =>
        hide Opened;
        assert |Opened(s.conns, id)| == |s.conns| by { OpenedLength(s.conns, id); }
        forall i | 0 <= i < |s.outgoing| ensures Registered(Opened(s.conns, id), s.outgoing[i].connId) {
          OpenedKeeps(s.conns, id, s.outgoing[i].connId);
        }
      case Unregister(id) =>
        hide Unregistered;
        var r := Without(s.outgoing, id);
        forall i | 0 <= i < |r| ensures Registered(Unregistered(s.conns, id), r[i].connId) {
          assert r[i] in r && r[i] in s.outgoing;
          UnregisteredKeeps(s.conns, id, r[i].connId);
        }
      case Broadcast(text) =>
        hide Broadcasted;
        BroadcastBounded(s.conns, s.outgoing, text);
      case _ =>
    }
  }

  lemma {:induction false} OpenedLength(conns: seq<Conn>, id: int)
    ensures |Opened(conns, id)| == |conns|
  {
  }

  /** Texts queued for one connection and texts taken from it, since it was last closed. */
  datatype Track = Track(queued: seq<string>, taken: seq<string>)

  /** The frames an event adds to the outgoing queue. */
  function Added(s: State, e: Event): (fs: seq<Frame>)
  {
    match e
    case SendTo(id, text) => if Accepts(s, id, text) then [Frame(id, text)] else []
    case Broadcast(text) =>
      if TextOk(text) && |s.outgoing| <= |Broadcasted(s.conns, s.outgoing, text)|
      then Broadcasted(s.conns, s.outgoing, text)[|s.outgoing|..] else []
    case _ => []
  }

  function TrackAfter(s: State, e: Event, id: int, t: Track): (r: Track)
  {
    match e
    case Unregister(other) => if other == id then Track([], []) else t
    case Dequeue(other) =>
      var k := FirstOf(s.outgoing, id);
      if other == id && k < |s.outgoing| then t.(taken := t.taken + [s.outgoing[k].text]) else t
    case _ => t.(queued := t.queued + TextsOf(Added(s, e), id))
  }

  lemma {:induction false} TextsConcat(fs: seq<Frame>, gs: seq<Frame>, id: int)
    ensures TextsOf(fs + gs, id) == TextsOf(fs, id) + TextsOf(gs, id)
    decreases |gs|
  {
    if gs == [] {
      assert fs + gs == fs;
    } else {
      var n := |gs| - 1;
      TextsConcat(fs, gs[..n], id);
      assert (fs + gs)[..|fs + gs| - 1] == fs + gs[..n] && (fs + gs)[|fs + gs| - 1] == gs[n];
    }
  }

  lemma {:induction false} LastUnfolded(fs: seq<Frame>, id: int)
    requires fs != []
    ensures Without(fs, id) == Without(fs[..|fs| - 1], id) + (if fs[|fs| - 1].connId == id then [] else [fs[|fs| - 1]])
    ensures TextsOf(fs, id) ==
              TextsOf(fs[..|fs| - 1], id) + (if fs[|fs| - 1].connId == id then [fs[|fs| - 1].text] else [])
  {
  }

  lemma {:induction false} LastKept(fs: seq<Frame>, id: int, other: int)
    requires fs != []
    ensures var n := |fs| - 1;
            TextsOf(Without(fs, id), other) ==
              TextsOf(Without(fs[..n], id), other) + (if fs[n].connId == other && other != id then [fs[n].text] else [])
  {
    hide *;
    LastUnfolded(fs, id);
    var n := |fs| - 1;
    if fs[n].connId == id {
      assert Without(fs, id) == Without(fs[..n], id);
    } else {
      TextsConcat(Without(fs[..n], id), [fs[n]], other);
      SingleText(fs[n], other);
    }
  }

  /** Closing a connection removes its frames and no others. */
  lemma {:induction false} CloseDropsOnlyOwn(fs: seq<Frame>, id: int, other: int)
    ensures TextsOf(Without(fs, id), other) == if other == id then [] else TextsOf(fs, other)
  {
    if fs == [] {
      NoTexts(fs, other);
      NoTexts(Without(fs, id), other);
    } else {
      hide *;
      CloseDropsOnlyOwn(fs[..|fs| - 1], id, other);
      LastKept(fs, id, other);
      LastUnfolded(fs, other);
    }
  }

  lemma {:induction false} SingleText(f: Frame, id: int)
    ensures TextsOf([f], id) == if f.connId == id then [f.text] else []
  {
    assert [f][..0] == [];
  }

  lemma {:induction false} NoTexts(fs: seq<Frame>, id: int)
    requires forall i :: 0 <= i < |fs| ==> fs[i].connId != id
    ensures TextsOf(fs, id) == []
  {
    if fs != [] { NoTexts(fs[..|fs| - 1], id); }
  }

  /** The texts of a queue around its k-th frame. */
  lemma {:induction false} TextsAround(fs: seq<Frame>, k: nat, id: int)
    requires k < |fs|
    ensures TextsOf(fs, id) ==
              TextsOf(fs[..k], id) + ((if fs[k].connId == id then [fs[k].text] else []) + TextsOf(fs[k + 1..], id))
    ensures TextsOf(RemoveAt(fs, k), id) == TextsOf(fs[..k], id) + TextsOf(fs[k + 1..], id)
  {
    hide TextsOf;
    var a, f, b := fs[..k], fs[k], fs[k + 1..];
    assert fs == a + ([f] + b);
    TextsConcat(a, [f] + b, id);
    TextsConcat([f], b, id);
    TextsConcat(a, b, id);
    SingleText(f, id);
  }

  /** Dequeueing takes the oldest text of its connection and leaves every other queue as it was. */
  lemma {:induction false} DequeueTakesFirst(fs: seq<Frame>, id: int, other: int)
    requires FirstOf(fs, id) < |fs|
    ensures var k := FirstOf(fs, id);
            TextsOf(fs, other) == (if other == id then [fs[k].text] else []) + TextsOf(RemoveAt(fs, k), other)
  {
    var k := FirstOf(fs, id);
    hide FirstOf, TextsOf, RemoveAt;
    TextsAround(fs, k, other);
    if other == id { NoTexts(fs[..k], id); }
  }

  /** What was queued for the connection is what was taken followed by what is pending. */
  ghost predicate Accounted(s: State, id: int, t: Track)
  {
    t.queued == t.taken + TextsOf(s.outgoing, id)
  }

  lemma {:induction false} StepKeepsAccounts(s: State, e: Event, id: int, t: Track)
    requires Sound(s) && Accounted(s, id, t)
    ensures Accounted(After(s, e), id, TrackAfter(s, e, id, t))
  {
    hide Registered, TextsOf, Without, FirstOf, Broadcasted;
    match e {
      case Unregister(other) =>
        CloseDropsOnlyOwn(s.outgoing, other, id);
      case Dequeue(other) =>
        if FirstOf(s.outgoing, other) < |s.outgoing| { DequeueTakesFirst(s.outgoing, other, id); }
      case Broadcast(text) =>
        BroadcastBounded(s.conns, s.outgoing, text);
        var added := Added(s, e);
        assert After(s, e).outgoing == s.outgoing + added;
        hide Added;
        TextsConcat(s.outgoing, added, id);
      case _ =>
        var added := Added(s, e);
        assert After(s, e).outgoing == s.outgoing + added;
        hide Added;
        TextsConcat(s.outgoing, added, id);
    }
  }

  /** States and tracks along a run. */
  ghost predicate IsRun(run: seq<State>, tracks: seq<Track>, es: seq<Event>, id: int)
  {
    && |run| == |tracks| == |es| + 1
    && forall i :: 0 <= i < |es| ==>
         run[i + 1] == After(run[i], es[i]) && tracks[i + 1] == TrackAfter(run[i], es[i], id, tracks[i])
  }

  /**
   * Over every run, for every connection: the queues stay bounded, every queued frame has an
   * open connection, and the texts queued since the last close are those taken, then those
   * still pending, in order.
   */
  lemma {:induction false} RunKeepsQueues(run: seq<State>, tracks: seq<Track>, es: seq<Event>, id: int, k: nat)
    requires IsRun(run, tracks, es, id) && k < |run|
    requires Sound(run[0]) && Accounted(run[0], id, tracks[0])
    ensures Sound(run[k]) && Accounted(run[k], id, tracks[k])
    decreases k
  {
    hide After, TrackAfter, Sound, Accounted;
    if k > 0 {
      RunKeepsQueues(run, tracks, es, id, k - 1);
      StepKeepsSound(run[k - 1], es[k - 1]);
      StepKeepsAccounts(run[k - 1], es[k - 1], id, tracks[k - 1]);
    }
  }
}
