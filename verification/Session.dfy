/**
 * One agent turn over the stored session (agent_run in src/core/agent.c): load, compact,
 * build the request, run tool rounds, and store the exchange.
 */
module Session {
  import opened Text
  import opened Compaction
  import opened Anthropic

  const SESSION_JSON_MAX := 131072
  const HISTORY_CONTENT_MAX := 131072
  const MAX_HISTORY_MESSAGES := 40
  const ROLE_LEN := 16
  const MAX_TOOL_CALLS := 16
  const TOOL_RESULT_SIZE := 4096

  // -------------------------------------------------------- the stored session

  /** Alternating user and assistant messages, ending on the assistant; or empty. */
  ghost predicate Proper(session: seq<Item>)
  {
    && (forall i :: 0 <= i < |session| ==> ProperItem(session[i]))
    && (forall i :: 0 <= i < |session| - 1 ==> session[i].role != session[i + 1].role)
    && (session != [] ==> session[|session| - 1].role == Some("assistant"))
  }

  ghost predicate ProperItem(it: Item)
  {
    it.Object? && it.content.Some? && (it.role == Some("user") || it.role == Some("assistant"))
  }

  lemma {:induction false} FoldedKeepsRole(it: Item, summary: string)
    requires ProperItem(it)
    ensures ProperItem(Folded(it, summary)) && Folded(it, summary).role == it.role
  {
  }

  /** A kept tail behind a new first message that alternates with it. */
  lemma {:induction false} ReplacedHeadProper(session: seq<Item>, t: seq<Item>, k: nat)
    requires Proper(session) && k <= |session| && |t| == |session| - k + 1
    requires t[1..] == session[k..] && ProperItem(t[0])
    requires if k < |session| then t[0].role != session[k].role else t[0].role == Some("assistant")
    ensures Proper(t)
  {
    hide ProperItem;
    assert forall i :: 1 <= i < |t| ==> t[i] == t[1..][i - 1] == session[k..][i - 1] == session[i - 1 + k];
  }

  lemma {:induction false} RewrittenProper(session: seq<Item>, maxCtx: int, summary: string)
    requires 2 <= maxCtx < |session| && Proper(session)
    ensures Proper(Rewritten(session, maxCtx, summary))
  {
    hide Source, StopFrom, Folded;
    var t, stop := Rewritten(session, maxCtx, summary), Stop(session, maxCtx);
    if Folds(session, Limit(session, maxCtx), stop) {
      FoldedKeepsRole(session[stop], summary);
      ReplacedHeadProper(session, t, stop + 1);
    } else {
      ReplacedHeadProper(session, t, stop);
    }
  }

  lemma {:induction false} PassProper(session: seq<Item>, maxCtx: int, reply: Option<string>, cap: nat)
    requires Proper(session) && Pass(session, maxCtx, reply, cap).Replaced?
    ensures Proper(Pass(session, maxCtx, reply, cap).session)
  {
    hide Source, PrintedSize, Rewritten, Truncated, Proper;
    RewrittenProper(session, maxCtx, Truncated(reply.value));
  }

  // ---------------------------------------------------------------- the history

  /** Content bytes, with terminators, of the messages in `items`. */
  function ContentBytes(items: seq<Item>): (n: nat)
  {
    if items == [] then 0 else |ContentOf(items[0])| + 1 + ContentBytes(items[1..])
  }

  lemma {:induction false} ContentBytesAppend(items: seq<Item>, it: Item)
    ensures ContentBytes(items + [it]) == ContentBytes(items) + |ContentOf(it)| + 1
  {
    hide ContentOf;
    if items == [] {
      assert items + [it] == [it];
      assert ContentBytes([it]) == |ContentOf(it)| + 1 + ContentBytes([it][1..]);
    } else {
      ContentBytesAppend(items[1..], it);
      assert (items + [it])[1..] == items[1..] + [it];
    }
  }

  lemma {:induction false} ContentBytesSuffix(items: seq<Item>, k: nat)
    requires k <= |items|
    ensures ContentBytes(items[k..]) <= ContentBytes(items)
  {
    hide ContentOf;
    if k > 0 {
      ContentBytesSuffix(items[1..], k - 1);
      assert items[1..][k - 1..] == items[k..];
    } else {
      assert items[k..] == items;
    }
  }

  /** JSON text is never shorter than the contents it holds. */
  lemma {:induction false} ContentFitsPrinted(items: seq<Item>)
    requires forall i :: 0 <= i < |items| ==> ProperItem(items[i])
    ensures ContentBytes(items) <= PrintedSize(items)
    decreases |items|
  {
    if items != [] {
      var n := |items| - 1;
      hide ContentBytes, EscapedSize;
      ContentFitsPrinted(items[..n]);
      ContentBytesAppend(items[..n], items[n]);
      assert items == items[..n] + [items[n]];
    } else {
      assert ContentBytes(items) == 0;
    }
  }

  function HistoryMessage(it: Item): (m: Message)
  {
    Message(RoleOf(it), ContentOf(it), [], None)
  }

  /** The copy loop: stops at a role or content that does not fit its buffer. */
  function ParseFrom(items: seq<Item>, room: nat): (ms: seq<Message>)
    ensures |ms| <= |items|
  {
    if items == [] then []
    else if items[0].NonObject? then ParseFrom(items[1..], room)
    else if |RoleOf(items[0])| >= ROLE_LEN || |ContentOf(items[0])| + 1 > room then []
    else [HistoryMessage(items[0])] + ParseFrom(items[1..], room - |ContentOf(items[0])| - 1)
  }

  function Recent(session: seq<Item>, max: nat): (items: seq<Item>)
    ensures |items| <= max
  {
    if |session| > max then session[|session| - max..] else session
  }

  /** Copies the last `max` messages of the session into the history buffers. */
  method ParseSession(session: seq<Item>, max: nat) returns (out: seq<Message>)
    requires max <= MAX_HISTORY_MESSAGES
    ensures out == ParseFrom(Recent(session, max), HISTORY_CONTENT_MAX)
  {
    out := [];
    var skip := if |session| > max then |session| - max else 0;
    var used: nat := 0;
    var i := skip;
    ghost var recent := Recent(session, max);
    assert session[skip..] == recent && |recent| <= max;
    hide Recent, ParseFrom, ContentOf, RoleOf, HistoryMessage;
    while i < |session| && |out| < max
      invariant skip <= i <= |session| && |out| <= i - skip && used <= HISTORY_CONTENT_MAX
      invariant Parsing(session, recent, i, out, used)
    {
      ParsingStep(session, recent, i, out, used);
      hide Parsing;
      var it := session[i];
      if it.Object? {
        if |RoleOf(it)| >= ROLE_LEN || |out| * ROLE_LEN + ROLE_LEN > MAX_HISTORY_MESSAGES * ROLE_LEN { return; }
        if used + |ContentOf(it)| + 1 > HISTORY_CONTENT_MAX { return; }
        out := out + [HistoryMessage(it)];
        used := used + |ContentOf(it)| + 1;
      }
      i := i + 1;
    }
    ParsingEnds(session, recent, out, used);
  }

  /** The rest of the session parses to what is still missing. */
  ghost predicate Parsing(session: seq<Item>, recent: seq<Item>, i: nat, out: seq<Message>, used: nat)
    requires i <= |session| && used <= HISTORY_CONTENT_MAX
  {
    out + ParseFrom(session[i..], HISTORY_CONTENT_MAX - used) == ParseFrom(recent, HISTORY_CONTENT_MAX)
  }

  lemma {:induction false} ParsingStep(session: seq<Item>, recent: seq<Item>, i: nat, out: seq<Message>, used: nat)
    requires i < |session| && used <= HISTORY_CONTENT_MAX && Parsing(session, recent, i, out, used)
    ensures var it := session[i];
            if it.NonObject? then Parsing(session, recent, i + 1, out, used)
            else if |RoleOf(it)| >= ROLE_LEN || |ContentOf(it)| + 1 > HISTORY_CONTENT_MAX - used
            then out == ParseFrom(recent, HISTORY_CONTENT_MAX)
            else Parsing(session, recent, i + 1, out + [HistoryMessage(it)], used + |ContentOf(it)| + 1)
  {
    var it, room := session[i], HISTORY_CONTENT_MAX - used;
    ParseNext(session, i, room);
    hide ParseFrom, RoleOf, ContentOf, HistoryMessage;
    if it.Object? && |RoleOf(it)| < ROLE_LEN && |ContentOf(it)| + 1 <= room {
      var rest := ParseFrom(session[i + 1..], room - |ContentOf(it)| - 1);
      assert (out + [HistoryMessage(it)]) + rest == out + ([HistoryMessage(it)] + rest);
    }
  }

  lemma {:induction false} ParsingEnds(session: seq<Item>, recent: seq<Item>, out: seq<Message>, used: nat)
    requires used <= HISTORY_CONTENT_MAX && Parsing(session, recent, |session|, out, used)
    ensures out == ParseFrom(recent, HISTORY_CONTENT_MAX)
  {
    assert out + [] == out;
  }

  lemma {:induction false} ParseNext(session: seq<Item>, i: nat, room: nat)
    requires i < |session|
    ensures var it := session[i];
            ParseFrom(session[i..], room) ==
              if it.NonObject? then ParseFrom(session[i + 1..], room)
              else if |RoleOf(it)| >= ROLE_LEN || |ContentOf(it)| + 1 > room then []
              else [HistoryMessage(it)] + ParseFrom(session[i + 1..], room - |ContentOf(it)| - 1)
  {
    hide ContentOf, RoleOf, HistoryMessage;
    assert session[i..][1..] == session[i + 1..] && session[i..][0] == session[i];
  }

  lemma {:induction false} ParseWhole(items: seq<Item>, room: nat)
    requires forall i :: 0 <= i < |items| ==> ProperItem(items[i])
    requires ContentBytes(items) <= room
    ensures var ms := ParseFrom(items, room);
            |ms| == |items| && forall i :: 0 <= i < |items| ==> ms[i] == HistoryMessage(items[i])
  {
    if items != [] {
      ProperFits(items[0]);
      hide ContentOf, RoleOf, HistoryMessage, ProperItem;
      ParseWhole(items[1..], room - |ContentOf(items[0])| - 1);
    }
  }

  lemma {:induction false} ProperFits(it: Item)
    requires ProperItem(it)
    ensures it.Object? && |RoleOf(it)| < ROLE_LEN
  {
  }

  /** A stored session under the JSON cap always fits the history buffers, so its tail arrives whole. */
  lemma {:induction false} HistoryWhole(session: seq<Item>, max: nat)
    requires Proper(session) && PrintedSize(session) < SESSION_JSON_MAX
    ensures var h := ParseFrom(Recent(session, max), HISTORY_CONTENT_MAX);
            var skip := if |session| > max then |session| - max else 0;
            && |h| == |session| - skip
            && (forall i :: 0 <= i < |h| ==> SentAs(session[skip + i], h[i]))
            && ProperHistory(h)
  {
    var h := ParseFrom(Recent(session, max), HISTORY_CONTENT_MAX);
    var skip := if |session| > max then |session| - max else 0;
    hide *;
    HistoryCopied(session, max);
    HistoryText(session, skip, h);
    TailIsProperHistory(session, skip, h);
  }

  lemma {:induction false} HistoryCopied(session: seq<Item>, max: nat)
    requires Proper(session) && PrintedSize(session) < SESSION_JSON_MAX
    ensures var h := ParseFrom(Recent(session, max), HISTORY_CONTENT_MAX);
            var skip := if |session| > max then |session| - max else 0;
            |h| == |session| - skip && forall i :: 0 <= i < |h| ==> h[i] == HistoryMessage(session[skip..][i])
  {
    var skip := if |session| > max then |session| - max else 0;
    var items := Recent(session, max);
    assert items == session[skip..];
    ContentFitsPrinted(session);
    ContentBytesSuffix(session, skip);
    hide ParseFrom, PrintedSize, ContentBytes, Recent, HistoryMessage;
    ParseWhole(items, HISTORY_CONTENT_MAX);
  }

  /** The message carries the role and the content of the stored one, and nothing else. */
  predicate SentAs(it: Item, m: Message)
  {
    it.Object? && it.role == Some(m.role) && it.content == Some(m.content) && m.calls == [] && m.toolUseId.None?
  }

  lemma {:induction false} HistoryText(session: seq<Item>, skip: nat, h: seq<Message>)
    requires Proper(session) && skip <= |session| && |h| == |session| - skip
    requires forall i :: 0 <= i < |h| ==> h[i] == HistoryMessage(session[skip..][i])
    ensures forall i :: 0 <= i < |h| ==> SentAs(session[skip + i], h[i])
  {
    forall i | 0 <= i < |h| ensures SentAs(session[skip + i], h[i]) {
      assert session[skip..][i] == session[skip + i];
      assert ProperItem(session[skip + i]);
    }
  }

  lemma {:induction false} TailIsProperHistory(session: seq<Item>, skip: nat, h: seq<Message>)
    requires Proper(session) && skip <= |session| && |h| == |session| - skip
    requires forall i :: 0 <= i < |h| ==> h[i] == HistoryMessage(session[skip..][i])
    ensures ProperHistory(h)
  {
    forall i | 0 <= i < |h|
      ensures PlainMessage(h[i]) && Some(h[i].role) == session[skip + i].role
    {
      assert session[skip..][i] == session[skip + i];
      assert ProperItem(session[skip + i]);
    }
    hide PlainMessage, HistoryMessage;
  }

  /** What is sent of the objects among `items`: missing members read as "user" and as nothing. */
  function MessagesOf(items: seq<Item>): (ms: seq<Message>)
  {
    if items == [] then []
    else
      var n := |items| - 1;
      MessagesOf(items[..n]) +
        match items[n]
        case NonObject => []
        case Object(role, content) =>
          [Message(if role.Some? then role.value else "user", if content.Some? then content.value else "", [], None)]
  }

  /** Bytes, with terminators, of the contents of the objects among `items`. */
  function BytesOf(items: seq<Item>): (n: nat)
  {
    if items == [] then 0
    else
      var n := |items| - 1;
      BytesOf(items[..n]) +
        match items[n]
        case NonObject => 0
        case Object(_, content) => if content.Some? then |content.value| + 1 else 1
  }

  /** Element `k` is a message whose role or content no longer fits. */
  predicate StopsAt(items: seq<Item>, room: nat, k: nat)
    requires k < |items|
  {
    match items[k]
    case NonObject => false
    case Object(role, content) =>
      || (role.Some? && |role.value| >= 16)
      || BytesOf(items[..k]) + (if content.Some? then |content.value| else 0) + 1 > room
  }

  /** The copy takes the messages up to the first that does not fit, for sessions of any shape. */
  lemma {:induction false} ParseExactly(items: seq<Item>, room: nat, k: nat)
    requires k <= |items| && (k < |items| ==> StopsAt(items, room, k))
    requires forall j :: 0 <= j < k ==> !StopsAt(items, room, j)
    ensures ParseFrom(items, room) == MessagesOf(items[..k])
  {
    assert items[..0] == [] && items[0..] == items;
    ParseSuffix(items, room, 0, k);
    hide ParseFrom;
  }

  /** With the first `i` elements taken, the rest parses to what is missing. */
  lemma {:induction false} ParseSuffix(items: seq<Item>, room: nat, i: nat, k: nat)
    requires i <= k <= |items| && (k < |items| ==> StopsAt(items, room, k))
    requires forall j :: 0 <= j < k ==> !StopsAt(items, room, j)
    requires BytesOf(items[..i]) <= room
    ensures MessagesOf(items[..i]) + ParseFrom(items[i..], room - BytesOf(items[..i])) == MessagesOf(items[..k])
    decreases k - i
  {
    if i < |items| {
      TakenStep(items, room, i);
    } else {
      assert ParseFrom([], room - BytesOf(items[..i])) == [] && items[i..] == [];
    }
    hide *;
    if i < k {
      ParseSuffix(items, room, i + 1, k);
    } else {
      assert MessagesOf(items[..i]) + [] == MessagesOf(items[..i]);
    }
  }

  lemma {:induction false} TakenStep(items: seq<Item>, room: nat, i: nat)
    requires i < |items| && BytesOf(items[..i]) <= room
    ensures StopsAt(items, room, i) ==> ParseFrom(items[i..], room - BytesOf(items[..i])) == []
    ensures !StopsAt(items, room, i) ==>
              && BytesOf(items[..i + 1]) <= room
              && MessagesOf(items[..i]) + ParseFrom(items[i..], room - BytesOf(items[..i]))
                 == MessagesOf(items[..i + 1]) + ParseFrom(items[i + 1..], room - BytesOf(items[..i + 1]))
  {
    ParseNext(items, i, room - BytesOf(items[..i]));
    TakenNext(items, i);
    hide ParseFrom, MessagesOf, BytesOf, HistoryMessage;
  }

  lemma {:induction false} TakenNext(items: seq<Item>, i: nat)
    requires i < |items|
    ensures MessagesOf(items[..i + 1]) ==
              MessagesOf(items[..i]) + (if items[i].NonObject? then [] else [HistoryMessage(items[i])])
    ensures BytesOf(items[..i + 1]) ==
              BytesOf(items[..i]) + (if items[i].NonObject? then 0 else |ContentOf(items[i])| + 1)
  {
    assert items[..i + 1][..i] == items[..i];
  }

  // ------------------------------------------------------------ the ReAct loop

  /**
   * One answer of the provider. `outputs[k]` is what the tool named by call k would
   * write; the model's text and calls, and the tools, are otherwise unconstrained.
   */
  datatype Response = ChatFailed | Reply(text: string, calls: seq<ToolCall>, outputs: seq<string>)

  predicate ValidResponse(r: Response)
  {
    r.Reply? ==> |r.outputs| == |r.calls|
  }

  function ToolOutput(tools: set<string>, call: ToolCall, output: string): (s: string)
  {
    Clip(if call.name in tools then output else "error: unknown tool \"" + call.name + "\"", TOOL_RESULT_SIZE)
  }

  function ToolOutputs(tools: set<string>, calls: seq<ToolCall>, outputs: seq<string>): (r: seq<string>)
    requires |outputs| >= |calls|
    ensures |r| == |calls|
    ensures forall k :: 0 <= k < |r| ==> r[k] == ToolOutput(tools, calls[k], outputs[k])
  {
    seq(|calls|, k requires 0 <= k < |calls| => ToolOutput(tools, calls[k], outputs[k]))
  }

  /** The tool round a reply starts; calls past the sixteenth are dropped. */
  function RoundOf(tools: set<string>, r: Response): (d: Round)
    requires r.Reply? && ValidResponse(r) && r.calls != []
    ensures ValidRound(d)
  {
    var calls := if |r.calls| > MAX_TOOL_CALLS then r.calls[..MAX_TOOL_CALLS] else r.calls;
    Round(r.text, calls, ToolOutputs(tools, calls, r.outputs))
  }

  /** How a turn ends: the rounds it ran and the final text, if the provider gave one. */
  datatype Reaction = Reaction(rounds: seq<Round>, answer: Option<string>)

  /** `left` rounds may still run. A script that ends has no further answer. */
  function React(tools: set<string>, script: seq<Response>, left: nat): (r: Reaction)
    requires forall i :: 0 <= i < |script| ==> ValidResponse(script[i])
    ensures |r.rounds| <= left
    ensures forall d :: d in r.rounds ==> ValidRound(d)
  {
    if script == [] || script[0].ChatFailed? then Reaction([], None)
    else if script[0].calls == [] || left == 0 then Reaction([], Some(script[0].text))
    else
      var rest := React(tools, script[1..], left - 1);
      Reaction([RoundOf(tools, script[0])] + rest.rounds, rest.answer)
  }

  lemma {:induction false} TranscriptAppend(ds: seq<Round>, d: Round)
    requires forall e :: e in ds + [d] ==> ValidRound(e)
    ensures forall e :: e in ds ==> ValidRound(e)
    ensures Transcript(ds + [d]) == Transcript(ds) + ([CallMessage(d)] + ResultMessages(d))
  {
    assert forall e :: e in ds ==> e in ds + [d];
    hide ValidRound, ResultMessages, CallMessage;
    if ds == [] {
      assert ds + [d] == [d];
      assert Transcript([d]) == [CallMessage(d)] + ResultMessages(d) + Transcript([]);
    } else {
      assert (ds + [d])[1..] == ds[1..] + [d];
      TranscriptAppend(ds[1..], d);
    }
  }

  lemma {:induction false} RequestAppend(system: string, h: seq<Message>, user: string, ds: seq<Round>, d: Round)
    requires forall e :: e in ds ==> ValidRound(e)
    requires ValidRound(d)
    ensures forall e :: e in ds + [d] ==> ValidRound(e)
    ensures Request(system, h, user, ds + [d]) == Request(system, h, user, ds) + ([CallMessage(d)] + ResultMessages(d))
  {
    assert forall e :: e in ds + [d] ==> e in ds || e == d;
    TranscriptAppend(ds, d);
    hide Transcript, ResultMessages, CallMessage, ValidRound;
  }

  /** Runs the calls one by one; the message with a call's output carries the call's id. */
  method RunCalls(tools: set<string>, calls: seq<ToolCall>, outputs: seq<string>) returns (answers: seq<Message>)
    requires |outputs| >= |calls|
    ensures |answers| == |calls|
    ensures forall k :: 0 <= k < |calls| ==>
              answers[k] == Message("user", ToolOutput(tools, calls[k], outputs[k]), [], calls[k].id)
  {
    hide ToolOutput;
    answers := [];
    for k := 0 to |calls|
      invariant |answers| == k
      invariant forall j :: 0 <= j < k ==>
                  answers[j] == Message("user", ToolOutput(tools, calls[j], outputs[j]), [], calls[j].id)
    {
      answers := answers + [Message("user", ToolOutput(tools, calls[k], outputs[k]), [], calls[k].id)];
    }
  }

  /** Runs the calls of one reply and extends the transcript. */
  method RunRound(ms: seq<Message>, tools: set<string>, r: Response) returns (grown: seq<Message>)
    requires r.Reply? && ValidResponse(r) && r.calls != []
    ensures var d := RoundOf(tools, r); grown == ms + ([CallMessage(d)] + ResultMessages(d))
  {
    var calls := if |r.calls| > MAX_TOOL_CALLS then r.calls[..MAX_TOOL_CALLS] else r.calls;
    var answers := RunCalls(tools, calls, r.outputs);
    AnswersOfRound(tools, r, answers);
    hide *;
    grown := ms + ([Message("assistant", r.text, calls, None)] + answers);
  }

  lemma {:induction false} AnswersOfRound(tools: set<string>, r: Response, answers: seq<Message>)
    requires r.Reply? && ValidResponse(r) && r.calls != []
    requires var calls := RoundOf(tools, r).calls;
             && |answers| == |calls| <= |r.outputs|
             && forall k :: 0 <= k < |calls| ==>
                  answers[k] == Message("user", ToolOutput(tools, calls[k], r.outputs[k]), [], calls[k].id)
    ensures var d := RoundOf(tools, r);
            answers == ResultMessages(d) && CallMessage(d) == Message("assistant", r.text, d.calls, None)
  {
    hide ToolOutput;
  }

  /** `ds` are the first rounds of the reaction; the rest of the script decides what follows. */
  ghost predicate Reacted(tools: set<string>, script: seq<Response>, left: nat, ds: seq<Round>)
    requires forall i :: 0 <= i < |script| ==> ValidResponse(script[i])
  {
    && |ds| <= left && |ds| <= |script|
    && (forall d :: d in ds ==> ValidRound(d))
    && React(tools, script, left).rounds == ds + React(tools, script[|ds|..], left - |ds|).rounds
    && React(tools, script, left).answer == React(tools, script[|ds|..], left - |ds|).answer
  }

  lemma {:induction false} ReactionEnds(tools: set<string>, script: seq<Response>, left: nat, ds: seq<Round>)
    requires forall i :: 0 <= i < |script| ==> ValidResponse(script[i])
    requires Reacted(tools, script, left, ds)
    requires |ds| < |script| ==> script[|ds|].ChatFailed? || script[|ds|].calls == [] || |ds| == left
    ensures React(tools, script, left)
         == Reaction(ds, if |ds| < |script| && script[|ds|].Reply? then Some(script[|ds|].text) else None)
  {
    hide RoundOf;
    assert |ds| < |script| ==> script[|ds|..][0] == script[|ds|];
    assert React(tools, script[|ds|..], left - |ds|).rounds == [];
    assert ds + [] == ds;
  }

  lemma {:induction false} ReactionContinues(tools: set<string>, script: seq<Response>, left: nat, ds: seq<Round>)
    requires forall i :: 0 <= i < |script| ==> ValidResponse(script[i])
    requires Reacted(tools, script, left, ds)
    requires |ds| < |script| && script[|ds|].Reply? && script[|ds|].calls != [] && |ds| < left
    ensures Reacted(tools, script, left, ds + [RoundOf(tools, script[|ds|])])
    ensures |ds| < |React(tools, script, left).rounds|
            && React(tools, script, left).rounds[|ds|] == RoundOf(tools, script[|ds|])
  {
    hide RoundOf;
    var rest := script[|ds|..];
    var d := RoundOf(tools, script[|ds|]);
    assert rest[0] == script[|ds|] && rest[1..] == script[|ds| + 1..];
    var next := React(tools, rest[1..], left - |ds| - 1);
    assert React(tools, rest, left - |ds|) == Reaction([d] + next.rounds, next.answer);
    assert ds + ([d] + next.rounds) == ds + [d] + next.rounds;
    hide *;
    assert ValidRound(d);
  }

  /** The request put to the provider after the first `j` of the rounds `ds`. */
  function RequestAfter(system: string, h: seq<Message>, user: string, ds: seq<Round>, j: nat): (ms: seq<Message>)
    requires j <= |ds|
    requires forall d :: d in ds ==> ValidRound(d)
  {
    assert forall d :: d in ds[..j] ==> d in ds;
    Request(system, h, user, ds[..j])
  }

  lemma {:induction false} LastRequest(system: string, h: seq<Message>, user: string, ds: seq<Round>)
    requires forall e :: e in ds ==> ValidRound(e)
    ensures RequestAfter(system, h, user, ds, |ds|) == Request(system, h, user, ds)
  {
    assert ds[..|ds|] == ds;
  }

  lemma {:induction false} RequestsKept(system: string, h: seq<Message>, user: string, ds: seq<Round>, d: Round)
    requires forall e :: e in ds ==> ValidRound(e)
    requires ValidRound(d)
    ensures forall e :: e in ds + [d] ==> ValidRound(e)
    ensures forall j :: 0 <= j <= |ds| ==>
              RequestAfter(system, h, user, ds + [d], j) == RequestAfter(system, h, user, ds, j)
  {
    hide Request, ValidRound;
    assert forall e :: e in ds + [d] ==> e in ds || e == d;
    forall j | 0 <= j <= |ds|
      ensures RequestAfter(system, h, user, ds + [d], j) == RequestAfter(system, h, user, ds, j)
    {
      assert (ds + [d])[..j] == ds[..j];
    }
  }

  lemma {:induction false} NothingReacted(system: string, h: seq<Message>, user: string, tools: set<string>,
                                         script: seq<Response>, left: nat)
    requires forall i :: 0 <= i < |script| ==> ValidResponse(script[i])
    ensures Reacted(tools, script, left, [])
    ensures Request(system, h, user, []) ==
              [Message("system", system, [], None)] + (h + ([Message("user", user, [], None)] + []))
  {
    assert script[0..] == script;
  }

  /** One more round: the requests before it stay, and the next one has the round behind the last. */
  lemma {:induction false} RoundTaken(system: string, h: seq<Message>, user: string, tools: set<string>,
                                     script: seq<Response>, left: nat, ds: seq<Round>)
    requires forall i :: 0 <= i < |script| ==> ValidResponse(script[i])
    requires forall e :: e in ds ==> ValidRound(e)
    requires Reacted(tools, script, left, ds)
    requires |ds| < |script| && script[|ds|].Reply? && script[|ds|].calls != [] && |ds| < left
    ensures var d := RoundOf(tools, script[|ds|]);
            && Reacted(tools, script, left, ds + [d])
            && (forall e :: e in ds + [d] ==> ValidRound(e))
            && Request(system, h, user, ds + [d]) ==
                 Request(system, h, user, ds) + ([CallMessage(d)] + ResultMessages(d))
            && RequestAfter(system, h, user, ds + [d], |ds|) == Request(system, h, user, ds)
            && forall j :: 0 <= j <= |ds| ==>
                 RequestAfter(system, h, user, ds + [d], j) == RequestAfter(system, h, user, ds, j)
  {
    ReactionContinues(tools, script, left, ds);
    hide *;
    RequestAppend(system, h, user, ds, RoundOf(tools, script[|ds|]));
    RequestsKept(system, h, user, ds, RoundOf(tools, script[|ds|]));
    LastRequest(system, h, user, ds);
  }

  /**
   * The loop of chats and tool rounds. `sent` lists the requests put to the provider: the
   * transcript before each chat.
   */
  method ReactLoop(system: string, h: seq<Message>, user: string, tools: set<string>, maxIter: nat,
                   script: seq<Response>)
    returns (answer: Option<string>, sent: seq<seq<Message>>)
    requires forall i :: 0 <= i < |script| ==> ValidResponse(script[i])
    ensures var r := React(tools, script, maxIter);
            && answer == r.answer && |sent| == |r.rounds| + 1
            && forall j :: 0 <= j < |sent| ==> sent[j] == RequestAfter(system, h, user, r.rounds, j)
  {
    hide *;
    var messages := [Message("system", system, [], None)] + (h + ([Message("user", user, [], None)] + []));
    sent := [];
    var rounds := 0;
    ghost var ds: seq<Round> := [];
    NothingReacted(system, h, user, tools, script, maxIter);
    while rounds < |script|
      invariant rounds == |ds| == |sent| && rounds <= maxIter
      invariant forall e :: e in ds ==> ValidRound(e)
      invariant Reacted(tools, script, maxIter, ds)
      invariant messages == Request(system, h, user, ds)
      invariant forall j :: 0 <= j < |sent| ==> sent[j] == RequestAfter(system, h, user, ds, j)
    {
      var r := script[rounds];
      if r.ChatFailed? { break; }
      if r.calls == [] || rounds >= maxIter { break; }
      RoundTaken(system, h, user, tools, script, maxIter, ds);
      sent := sent + [messages];
      messages := RunRound(messages, tools, r);
      ds := ds + [RoundOf(tools, r)];
      rounds := rounds + 1;
    }
    ReactionEnds(tools, script, maxIter, ds);
    LastRequest(system, h, user, ds);
    sent := sent + [messages];
    answer := if rounds < |script| && script[rounds].Reply? then Some(script[rounds].text) else None;
  }

  // -------------------------------------------------------------------- a turn

  /** All a turn depends on besides the stored session. `summary` answers the compaction request. */
  datatype Input = Input(system: string, user: string, maxCtx: int, maxIter: int, summary: Option<string>,
                         tools: set<string>, script: seq<Response>, responseSize: nat)

  predicate ValidInput(t: Input)
  {
    t.responseSize > 0 && forall i :: 0 <= i < |t.script| ==> ValidResponse(t.script[i])
  }

  function ContextLimit(t: Input): (n: nat)
    ensures 1 <= n <= MAX_HISTORY_MESSAGES
  {
    if t.maxCtx <= 0 || t.maxCtx > MAX_HISTORY_MESSAGES then MAX_HISTORY_MESSAGES else t.maxCtx
  }

  function IterationLimit(t: Input): (n: nat)
    ensures n > 0
  {
    if t.maxIter <= 0 then 20 else t.maxIter
  }

  predicate TooLarge(stored: Option<seq<Item>>)
  {
    stored.Some? && PrintedSize(stored.value) >= SESSION_JSON_MAX
  }

  /** The session buffer after loading: empty when there is no row or it does not fit. */
  function LoadedSession(stored: Option<seq<Item>>): (s: seq<Item>)
  {
    if stored.None? || TooLarge(stored) then [] else stored.value
  }

  /** The session buffer the turn works with: compacted if the pass succeeded, as loaded otherwise. */
  function Prepared(stored: Option<seq<Item>>, t: Input): (s: seq<Item>)
  {
    var loaded := LoadedSession(stored);
    var r := Pass(loaded, ContextLimit(t), t.summary, SESSION_JSON_MAX);
    if r.Replaced? then r.session else loaded
  }

  function History(stored: Option<seq<Item>>, t: Input): (h: seq<Message>)
  {
    ParseFrom(Recent(Prepared(stored, t), ContextLimit(t)), HISTORY_CONTENT_MAX)
  }

  function Reacts(t: Input): (r: Reaction)
    requires ValidInput(t)
    ensures forall d :: d in r.rounds ==> ValidRound(d)
  {
    React(t.tools, t.script, IterationLimit(t))
  }

  function Exchange(user: string, answer: string): (items: seq<Item>)
  {
    [Object(Some("user"), Some(user)), Object(Some("assistant"), Some(answer))]
  }

  /** The row after the turn. It changes only when the provider answered and the result fits. */
  function RowAfter(stored: Option<seq<Item>>, t: Input): (row: Option<seq<Item>>)
    requires ValidInput(t)
  {
    var answer := Reacts(t).answer;
    if answer.None? || TooLarge(stored) then stored
    else
      var updated := Prepared(stored, t) + Exchange(t.user, Clip(answer.value, t.responseSize));
      if PrintedSize(updated) >= SESSION_JSON_MAX then stored else Some(updated)
  }

  function Row(store: map<string, seq<Item>>, sid: string): (row: Option<seq<Item>>)
  {
    if sid in store then Some(store[sid]) else None
  }

  /** The session table with the row of `sid` set; a missing row stays missing. */
  function WithRow(store: map<string, seq<Item>>, sid: string, row: Option<seq<Item>>): (r: map<string, seq<Item>>)
    ensures Row(r, sid) == if row.Some? then row else Row(store, sid)
    ensures forall other :: other != sid ==> Row(r, other) == Row(store, other)
  {
    if row.None? then store else store[sid := row.value]
  }

  class Agent {
    var store: map<string, seq<Item>>

    constructor ()
      ensures store == map[]
    {
      store := map[];
    }

    /** One turn on session `sid`; `sent` lists the requests put to the provider. */
    method Run(sid: string, t: Input) returns (response: Option<string>, sent: seq<seq<Message>>)
      requires ValidInput(t)
      modifies this
      ensures store == WithRow(old(store), sid, RowAfter(Row(old(store), sid), t))
      ensures response == if Reacts(t).answer.None? then None else Some(Clip(Reacts(t).answer.value, t.responseSize))
      ensures var saved := Prepared(Row(old(store), sid), t) +
                             [Object(Some("user"), Some(t.user)), Object(Some("assistant"), response)];
              store == if response.Some? && (sid in old(store) ==> PrintedSize(old(store)[sid]) < 131072)
                          && PrintedSize(saved) < 131072
                       then old(store)[sid := saved] else old(store)
      ensures |sent| == |Reacts(t).rounds| + 1
      ensures forall j :: 0 <= j < |sent| ==>
                sent[j] == RequestAfter(t.system, History(Row(old(store), sid), t), t.user, Reacts(t).rounds, j)
    {
      hide React, Pass, ParseFrom, PrintedSize, Recent, RequestAfter;
      ghost var stored := Row(store, sid);
      var skipPersist := sid in store && PrintedSize(store[sid]) >= SESSION_JSON_MAX;
      var session := if sid in store && !skipPersist then store[sid] else [];
      var maxCtx := ContextLimit(t);
      if |session| > maxCtx {
        var r, _ := Compact(session, maxCtx, t.summary, SESSION_JSON_MAX);
        if r.Replaced? { session := r.session; }
      } else {
        PassNotNeeded(session, maxCtx, t.summary, SESSION_JSON_MAX);
      }
      assert session == Prepared(stored, t);
      var history := ParseSession(session, maxCtx);
      var answer;
      answer, sent := ReactLoop(t.system, history, t.user, t.tools, IterationLimit(t), t.script);
      if answer.None? { return None, sent; }
      response := Some(Clip(answer.value, t.responseSize));
      if !skipPersist {
        var updated := session + Exchange(t.user, response.value);
        if PrintedSize(updated) < SESSION_JSON_MAX { store := store[sid := updated]; }
      }
    }

    /** Removes the session's row; the result says whether there was one. */
    method Delete(sid: string) returns (found: bool)
      modifies this
      ensures store == old(store) - {sid}
      ensures found <==> sid in old(store)
    {
      found := sid in store;
      store := store - {sid};
    }
  }

  lemma {:induction false} PassNotNeeded(session: seq<Item>, maxCtx: int, reply: Option<string>, cap: nat)
    requires |session| <= maxCtx
    ensures Pass(session, maxCtx, reply, cap).NotNeeded?
  {
  }

  // ------------------------------------------------------- what a turn leaves

  /** The session a turn works with: the stored one if it can be read, after the pass if that succeeds. */
  lemma {:induction false} PreparedExactly(stored: Option<seq<Item>>, t: Input)
    ensures var limit := if 1 <= t.maxCtx <= 40 then t.maxCtx else 40;
            var loaded := if stored.Some? && PrintedSize(stored.value) < 131072 then stored.value else [];
            var r := Pass(loaded, limit, t.summary, 131072);
            && ContextLimit(t) == limit && IterationLimit(t) == (if t.maxIter > 0 then t.maxIter else 20)
            && Prepared(stored, t) == if r.Replaced? then r.session else loaded
  {
    hide PrintedSize, Pass;
  }

  /**
   * Exactly when a turn changes its row: the provider answered, the stored session could be read,
   * and the result fits. The row is then the session the turn worked with, the user's text, and
   * the answer as far as it fits its buffer.
   */
  lemma {:induction false} TurnStoresExactly(stored: Option<seq<Item>>, t: Input)
    requires ValidInput(t)
    ensures var answer := Reacts(t).answer;
            var text := if answer.None? then ""
                        else answer.value[..if |answer.value| < t.responseSize then |answer.value|
                             else t.responseSize - 1];
            var saved := Prepared(stored, t) +
                           [Object(Some("user"), Some(t.user)), Object(Some("assistant"), Some(text))];
            RowAfter(stored, t) ==
              if answer.Some? && (stored.Some? ==> PrintedSize(stored.value) < 131072) && PrintedSize(saved) < 131072
              then Some(saved) else stored
  {
    hide PrintedSize, Prepared, Reacts;
    var answer := Reacts(t).answer;
    if answer.Some? {
      assert |answer.value| < t.responseSize ==> answer.value[..|answer.value|] == answer.value;
    }
  }

  /** The first turn of a session stores the question and the answer, if they fit. */
  lemma {:induction false} FirstTurnStored(t: Input, text: string, rest: seq<Response>)
    requires ValidInput(t) && t.script == [Reply(text, [], [])] + rest && |text| < t.responseSize
    requires PrintedSize([Object(Some("user"), Some(t.user)), Object(Some("assistant"), Some(text))]) < 131072
    ensures RowAfter(None, t) == Some([Object(Some("user"), Some(t.user)), Object(Some("assistant"), Some(text))])
  {
    hide PrintedSize;
    TurnStoresExactly(None, t);
    PreparedExactly(None, t);
    hide RowAfter, Prepared;
    assert text[..|text|] == text;
    var saved := [Object(Some("user"), Some(t.user)), Object(Some("assistant"), Some(text))];
    assert [] + saved == saved;
  }

  /**
   * How a turn runs its rounds: one per reply that calls tools, until a reply that does not, a
   * failed chat, the end of the script or the limit; with at most sixteen calls each, the output of
   * every known tool, and an error for every other, both cut to their buffer.
   */
  lemma {:induction false} ReactExactly(tools: set<string>, script: seq<Response>, left: nat)
    requires forall i :: 0 <= i < |script| ==> ValidResponse(script[i])
    ensures var r := React(tools, script, left);
            var n := |r.rounds|;
            && n <= left && n <= |script|
            && (forall i :: 0 <= i < n ==> RoundFrom(tools, script[i], r.rounds[i]))
            && (n == |script| || n == left || script[n].ChatFailed? || script[n].calls == [])
            && r.answer == if n < |script| && script[n].Reply? then Some(script[n].text) else None
  {
    hide RoundFrom, RoundOf;
    if script != [] && script[0].Reply? && script[0].calls != [] && left > 0 {
      RoundFromReply(tools, script[0]);
      ReactExactly(tools, script[1..], left - 1);
      var rest, r := React(tools, script[1..], left - 1), React(tools, script, left);
      assert r == Reaction([RoundOf(tools, script[0])] + rest.rounds, rest.answer);
      hide React;
    }
  }

  predicate RoundFrom(tools: set<string>, reply: Response, d: Round)
  {
    && reply.Reply? && reply.calls != [] && |reply.outputs| == |reply.calls|
    && var n := if |reply.calls| < 16 then |reply.calls| else 16;
       && d.text == reply.text && d.calls == reply.calls[..n] && |d.outputs| == n
       && forall k :: 0 <= k < n ==>
            var name := reply.calls[k].name;
            var output := if name in tools then reply.outputs[k] else "error: unknown tool \"" + name + "\"";
            d.outputs[k] == output[..if |output| < 4096 then |output| else 4095]
  }

  lemma {:induction false} RoundFromReply(tools: set<string>, reply: Response)
    requires reply.Reply? && ValidResponse(reply) && reply.calls != []
    ensures RoundFrom(tools, reply, RoundOf(tools, reply))
  {
    var d := RoundOf(tools, reply);
    forall k | 0 <= k < |d.outputs|
      ensures var name := reply.calls[k].name;
              var output := if name in tools then reply.outputs[k] else "error: unknown tool \"" + name + "\"";
              d.outputs[k] == output[..if |output| < 4096 then |output| else 4095]
    {
      var name := reply.calls[k].name;
      var output := if name in tools then reply.outputs[k] else "error: unknown tool \"" + name + "\"";
      assert d.calls[k] == reply.calls[k];
      assert |output| < 4096 ==> output[..|output|] == output;
    }
    assert reply.calls[..|reply.calls|] == reply.calls;
  }

  // ------------------------------------------------------------------ all runs

  ghost predicate ProperRow(row: Option<seq<Item>>)
  {
    row.Some? ==> Proper(row.value)
  }

  lemma {:induction false} PreparedProper(stored: Option<seq<Item>>, t: Input)
    requires ProperRow(stored)
    ensures Proper(Prepared(stored, t)) && PrintedSize(Prepared(stored, t)) < SESSION_JSON_MAX
  {
    LoadedProper(stored);
    hide Pass, PrintedSize, LoadedSession, Proper, ContextLimit;
    var loaded := LoadedSession(stored);
    if Pass(loaded, ContextLimit(t), t.summary, SESSION_JSON_MAX).Replaced? {
      PassProper(loaded, ContextLimit(t), t.summary, SESSION_JSON_MAX);
      PassFits(loaded, ContextLimit(t), t.summary, SESSION_JSON_MAX);
    }
  }

  lemma {:induction false} LoadedProper(stored: Option<seq<Item>>)
    requires ProperRow(stored)
    ensures Proper(LoadedSession(stored)) && PrintedSize(LoadedSession(stored)) < SESSION_JSON_MAX
  {
    assert PrintedSize([]) == 2;
    hide PrintedSize;
  }

  lemma {:induction false} PassFits(session: seq<Item>, maxCtx: int, reply: Option<string>, cap: nat)
    ensures var r := Pass(session, maxCtx, reply, cap); r.Replaced? ==> PrintedSize(r.session) < cap
  {
    hide PrintedSize, Rewritten, Truncated, Source;
  }

  /** Whatever the provider, the tools and the configuration do, a turn leaves a proper row proper. */
  lemma {:induction false} TurnKeepsProper(stored: Option<seq<Item>>, t: Input)
    requires ValidInput(t) && ProperRow(stored)
    ensures ProperRow(RowAfter(stored, t))
  {
    PreparedProper(stored, t);
    var s := Prepared(stored, t);
    hide Prepared, PrintedSize, Reacts, TooLarge;
    if Reacts(t).answer.Some? {
      ExchangeProper(s, t.user, Clip(Reacts(t).answer.value, t.responseSize));
    }
  }

  lemma {:induction false} ExchangeProper(s: seq<Item>, user: string, answer: string)
    requires Proper(s)
    ensures Proper(s + Exchange(user, answer))
  {
    var u := s + Exchange(user, answer);
    assert forall i :: 0 <= i < |s| ==> u[i] == s[i];
    assert u[|s|] == Exchange(user, answer)[0] && u[|s| + 1] == Exchange(user, answer)[1];
    assert ProperItem(u[|s|]) && ProperItem(u[|s| + 1]);
  }

  /** Every request of a turn on a proper row is paired exactly when all calls carry ids, and then alternates. */
  lemma {:induction false} TurnRequestsWellFormed(stored: Option<seq<Item>>, t: Input, j: nat)
    requires ValidInput(t) && ProperRow(stored) && j <= |Reacts(t).rounds|
    ensures var r := Encode(RequestAfter(t.system, History(stored, t), t.user, Reacts(t).rounds, j));
            && (Paired(r) <==> AllHaveIds(Reacts(t).rounds[..j]))
            && (AllHaveIds(Reacts(t).rounds[..j]) ==> Alternates(r))
  {
    PreparedProper(stored, t);
    hide Prepared, PrintedSize, ProperHistory, ParseFrom, Recent;
    HistoryWhole(Prepared(stored, t), ContextLimit(t));
    var ds := Reacts(t).rounds;
    assert forall d :: d in ds[..j] ==> d in ds;
    hide Reacts, Request, Encode, Paired, Alternates, AllHaveIds, History;
    RequestWellFormed(t.system, History(stored, t), t.user, ds[..j]);
    HistoryIs(stored, t);
  }

  lemma {:induction false} HistoryIs(stored: Option<seq<Item>>, t: Input)
    ensures History(stored, t) == ParseFrom(Recent(Prepared(stored, t), ContextLimit(t)), HISTORY_CONTENT_MAX)
  {
  }

  datatype Event = Turn(sid: string, input: Input) | Delete(sid: string)

  predicate ValidEvent(e: Event)
  {
    e.Turn? ==> ValidInput(e.input)
  }

  function After(store: map<string, seq<Item>>, e: Event): (r: map<string, seq<Item>>)
    requires ValidEvent(e)
  {
    if e.Turn? then WithRow(store, e.sid, RowAfter(Row(store, e.sid), e.input)) else store - {e.sid}
  }

  function AfterAll(store: map<string, seq<Item>>, es: seq<Event>): (r: map<string, seq<Item>>)
    requires forall i :: 0 <= i < |es| ==> ValidEvent(es[i])
  {
    if es == [] then store else After(AfterAll(store, es[..|es| - 1]), es[|es| - 1])
  }

  ghost predicate ProperStore(store: map<string, seq<Item>>)
  {
    forall sid :: sid in store ==> Proper(store[sid])
  }

  /** Every stored session stays proper over every run of turns and deletes. */
  lemma {:induction false} RunKeepsProper(store: map<string, seq<Item>>, es: seq<Event>)
    requires forall i :: 0 <= i < |es| ==> ValidEvent(es[i])
    requires ProperStore(store)
    ensures ProperStore(AfterAll(store, es))
    decreases |es|
  {
    if es != [] {
      var e, before := es[|es| - 1], AfterAll(store, es[..|es| - 1]);
      RunKeepsProper(store, es[..|es| - 1]);
      hide Proper, RowAfter;
      if e.Turn? {
        TurnKeepsProper(Row(before, e.sid), e.input);
        forall sid | sid in After(before, e) ensures Proper(After(before, e)[sid]) {
          assert Row(After(before, e), sid).Some?;
        }
      }
    }
  }

  /** The turn finds its session within the limit, or its pass replaces everything down to it. */
  predicate Compacts(stored: Option<seq<Item>>, t: Input)
  {
    var loaded, limit := LoadedSession(stored), ContextLimit(t);
    |loaded| <= limit
    || (2 <= limit && Pass(loaded, limit, t.summary, SESSION_JSON_MAX).Replaced?
        && Stop(loaded, limit) == Limit(loaded, limit))
  }

  /** A turn changes nothing or adds two messages to the prepared session, which is within the limit if it compacts. */
  lemma {:induction false} TurnCount(stored: Option<seq<Item>>, t: Input)
    requires ValidInput(t)
    ensures RowAfter(stored, t) == stored
         || (RowAfter(stored, t).Some? && |RowAfter(stored, t).value| == |Prepared(stored, t)| + 2)
    ensures Compacts(stored, t) ==> |Prepared(stored, t)| <= ContextLimit(t)
  {
    var loaded, limit := LoadedSession(stored), ContextLimit(t);
    hide PrintedSize, Reacts, Proper, Rewritten, LoadedSession, Stop, Limit;
    var r := Pass(loaded, limit, t.summary, SESSION_JSON_MAX);
    if |loaded| <= limit {
      PassNotNeeded(loaded, limit, t.summary, SESSION_JSON_MAX);
    } else if r.Replaced? && limit >= 2 {
      ReplacedHasReply(loaded, limit, t.summary, SESSION_JSON_MAX);
      hide Pass;
      CountAfterPass(loaded, limit, t.summary.value, SESSION_JSON_MAX);
    }
  }

  lemma {:induction false} ReplacedHasReply(session: seq<Item>, maxCtx: int, reply: Option<string>, cap: nat)
    requires Pass(session, maxCtx, reply, cap).Replaced?
    ensures reply.Some? && reply == Some(reply.value)
  {
    hide PrintedSize, Rewritten, Truncated, SourceSent;
  }

  /** Over every run whose turns have one limit and compact, no stored session grows past limit + 2 messages. */
  lemma {:induction false} RunKeepsShort(store: map<string, seq<Item>>, es: seq<Event>, limit: nat)
    requires forall i :: 0 <= i < |es| ==> ValidEvent(es[i])
    requires forall i :: 0 <= i < |es| && es[i].Turn? ==>
               && ContextLimit(es[i].input) == limit
               && Compacts(Row(AfterAll(store, es[..i]), es[i].sid), es[i].input)
    requires forall sid :: sid in store ==> |store[sid]| <= limit + 2
    ensures forall sid :: sid in AfterAll(store, es) ==> |AfterAll(store, es)[sid]| <= limit + 2
    decreases |es|
  {
    if es != [] {
      var n := |es| - 1;
      var e, before := es[n], AfterAll(store, es[..n]);
      assert forall i :: 0 <= i < n ==> es[..n][..i] == es[..i];
      hide Proper, RowAfter, Compacts, ContextLimit;
      RunKeepsShort(store, es[..n], limit);
      if e.Turn? {
        TurnCount(Row(before, e.sid), e.input);
        forall sid | sid in After(before, e) ensures |After(before, e)[sid]| <= limit + 2 {
          assert Row(After(before, e), sid).Some?;
        }
      }
    }
  }

  /** Every request of the last turn of every run is well formed, given ids. */
  lemma {:induction false} RunRequestsWellFormed(store: map<string, seq<Item>>, es: seq<Event>, sid: string, t: Input,
                                                 j: nat)
    requires forall i :: 0 <= i < |es| ==> ValidEvent(es[i])
    requires ProperStore(store) && ValidInput(t) && j <= |Reacts(t).rounds|
    ensures var h := History(Row(AfterAll(store, es), sid), t);
            var r := Encode(RequestAfter(t.system, h, t.user, Reacts(t).rounds, j));
            && (Paired(r) <==> AllHaveIds(Reacts(t).rounds[..j]))
            && (AllHaveIds(Reacts(t).rounds[..j]) ==> Alternates(r))
  {
    RunKeepsProper(store, es);
    hide Proper, AfterAll, Encode, Paired, Alternates, AllHaveIds, History, Reacts;
    TurnRequestsWellFormed(Row(AfterAll(store, es), sid), t, j);
  }
}
