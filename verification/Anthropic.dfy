/**
 * The Anthropic request encoder (append_anthropic_messages in src/providers/anthropic.c):
 * the agent's flat message list becomes the API's list, in which one user message carries
 * all results of the tool calls of the assistant turn before it.
 */
module Anthropic {
  import opened Text

  /** A tool call of the model; the id is missing when the reply carried none. */
  datatype ToolCall = ToolCall(id: Option<string>, name: string, arguments: string)

  /** A message of the agent's transcript (provider_message_t). */
  datatype Message = Message(role: string, content: string, calls: seq<ToolCall>, toolUseId: Option<string>)

  datatype Block =
    | TextBlock(text: string)
    | ToolUse(id: string, name: string, arguments: string)
    | ToolResult(toolUseId: string, content: string)

  datatype Content = Plain(text: string) | Blocks(blocks: seq<Block>)

  datatype ApiMessage = ApiMessage(role: string, content: Content)

  function OrEmpty(id: Option<string>): (s: string)
  {
    if id.Some? then id.value else ""
  }

  function Use(call: ToolCall): (b: Block)
  {
    ToolUse(OrEmpty(call.id), call.name, call.arguments)
  }

  function Uses(calls: seq<ToolCall>): (bs: seq<Block>)
    ensures |bs| == |calls|
    ensures forall k :: 0 <= k < |calls| ==> bs[k] == Use(calls[k])
  {
    if calls == [] then [] else [Use(calls[0])] + Uses(calls[1..])
  }

  function Result(m: Message): (b: Block)
  {
    ToolResult(OrEmpty(m.toolUseId), m.content)
  }

  function Results(ms: seq<Message>): (bs: seq<Block>)
    ensures |bs| == |ms|
    ensures forall k :: 0 <= k < |ms| ==> bs[k] == Result(ms[k])
  {
    if ms == [] then [] else [Result(ms[0])] + Results(ms[1..])
  }

  /** A message that answers no tool call. */
  function Single(m: Message): (a: ApiMessage)
  {
    if m.calls != [] && m.role == "assistant"
    then ApiMessage(m.role, Blocks((if m.content == "" then [] else [TextBlock(m.content)]) + Uses(m.calls)))
    else ApiMessage(m.role, Plain(m.content))
  }

  /** How many messages in a row, from the first, answer a tool call. */
  function AnswerRun(ms: seq<Message>): (n: nat)
    ensures n <= |ms|
    ensures forall i :: 0 <= i < n ==> ms[i].toolUseId.Some?
    ensures n < |ms| ==> ms[n].toolUseId.None?
  {
    if ms == [] || ms[0].toolUseId.None? then 0 else 1 + AnswerRun(ms[1..])
  }

  function Encode(ms: seq<Message>): (r: seq<ApiMessage>)
    decreases |ms|
  {
    if ms == [] then []
    else if ms[0].role == "system" then Encode(ms[1..])
    else if ms[0].toolUseId.Some? then
      var n := AnswerRun(ms);
      [ApiMessage("user", Blocks(Results(ms[..n])))] + Encode(ms[n..])
    else [Single(ms[0])] + Encode(ms[1..])
  }

  /** Collects the results of one assistant turn; `next` is the index behind them. */
  method AppendToolResults(ms: seq<Message>, index: nat) returns (a: ApiMessage, next: nat)
    requires index < |ms| && ms[index].toolUseId.Some?
    ensures next == index + AnswerRun(ms[index..]) && index < next <= |ms|
    ensures a == ApiMessage("user", Blocks(Results(ms[index..next])))
  {
    var blocks := [Result(ms[index])];
    next := index + 1;
    ResultsSnoc(ms, index, index);
    while next < |ms| && ms[next].toolUseId.Some?
      invariant index < next <= |ms|
      invariant forall i :: index <= i < next ==> ms[i].toolUseId.Some?
      invariant blocks == Results(ms[index..next])
    {
      hide Result, Results, AnswerRun;
      ResultsSnoc(ms, index, next);
      blocks := blocks + [Result(ms[next])];
      next := next + 1;
    }
    AnswerRunIs(ms, index, next);
    a := ApiMessage("user", Blocks(blocks));
  }

  lemma {:induction false} ResultsSnoc(ms: seq<Message>, index: nat, next: nat)
    requires index <= next < |ms|
    ensures Results(ms[index..next + 1]) == Results(ms[index..next]) + [Result(ms[next])]
  {
    assert ms[index..next + 1] == ms[index..next] + [ms[next]];
    ResultsAppend(ms[index..next], ms[next]);
    hide Result, Results;
  }

  lemma {:induction false} ResultsAppend(ms: seq<Message>, m: Message)
    ensures Results(ms + [m]) == Results(ms) + [Result(m)]
  {
    hide Result;
    if ms == [] {
      assert ms + [m] == [m];
    } else {
      assert (ms + [m])[1..] == ms[1..] + [m];
      ResultsAppend(ms[1..], m);
    }
  }

  lemma {:induction false} AnswerRunIs(ms: seq<Message>, index: nat, next: nat)
    requires index <= next <= |ms| && (next < |ms| ==> ms[next].toolUseId.None?)
    requires forall i :: index <= i < next ==> ms[i].toolUseId.Some?
    ensures next == index + AnswerRun(ms[index..])
  {
    var n := AnswerRun(ms[index..]);
    hide AnswerRun;
    assert index + n < |ms| ==> ms[index..][n] == ms[index + n];
    assert next < |ms| ==> ms[index..][next - index] == ms[next];
  }

  method AppendMessages(ms: seq<Message>) returns (r: seq<ApiMessage>)
    ensures r == Encode(ms)
  {
    hide Single, Results, Encode;
    r := [];
    var i := 0;
    EncodeEnds(ms);
    while i < |ms|
      invariant 0 <= i <= |ms|
      invariant r + Encode(ms[i..]) == Encode(ms)
    {
      if ms[i].role == "system" {
        EncodeNext(ms, i);
        i := i + 1;
      } else if ms[i].toolUseId.Some? {
        var a, next := AppendToolResults(ms, i);
        EncodeResults(ms, i, next);
        r := r + [a];
        i := next;
      } else {
        EncodeNext(ms, i);
        r := r + [Single(ms[i])];
        i := i + 1;
      }
    }
  }

  lemma {:induction false} EncodeEnds(ms: seq<Message>)
    ensures [] + Encode(ms[0..]) == Encode(ms) && Encode(ms[|ms|..]) == []
  {
    assert ms[0..] == ms;
  }

  lemma {:induction false} EncodeNext(ms: seq<Message>, i: nat)
    requires i < |ms| && (ms[i].role == "system" || ms[i].toolUseId.None?)
    ensures Encode(ms[i..]) ==
              if ms[i].role == "system" then Encode(ms[i + 1..]) else [Single(ms[i])] + Encode(ms[i + 1..])
  {
    hide Single;
    assert ms[i..][1..] == ms[i + 1..];
  }

  lemma {:induction false} EncodeResults(ms: seq<Message>, i: nat, next: nat)
    requires i < |ms| && ms[i].role != "system" && ms[i].toolUseId.Some?
    requires next == i + AnswerRun(ms[i..])
    ensures Encode(ms[i..]) == [ApiMessage("user", Blocks(Results(ms[i..next])))] + Encode(ms[next..])
  {
    hide Results;
    assert ms[i..][..next - i] == ms[i..next];
    assert ms[i..][next - i..] == ms[next..];
  }

  // ------------------------------------------------------ well-formed requests

  predicate Alternates(r: seq<ApiMessage>)
  {
    forall i :: 0 <= i < |r| - 1 ==> r[i].role != r[i + 1].role
  }

  /** Ids of the tool calls a message makes, in order. */
  function UseIds(bs: seq<Block>): (ids: seq<string>)
  {
    if bs == [] then []
    else (if bs[0].ToolUse? then [bs[0].id] else []) + UseIds(bs[1..])
  }

  predicate AnswersExactly(a: ApiMessage, ids: seq<string>)
  {
    && a.role == "user" && a.content.Blocks?
    && |a.content.blocks| == |ids|
    && forall k :: 0 <= k < |ids| ==> a.content.blocks[k].ToolResult? && a.content.blocks[k].toolUseId == ids[k]
  }

  /** An assistant turn that calls tools is followed by one user message with exactly its results. */
  predicate PairedAt(r: seq<ApiMessage>, i: nat)
    requires i < |r|
  {
    (r[i].content.Blocks? && UseIds(r[i].content.blocks) != []) ==>
      i + 1 < |r| && AnswersExactly(r[i + 1], UseIds(r[i].content.blocks))
  }

  predicate Paired(r: seq<ApiMessage>)
  {
    forall i :: 0 <= i < |r| ==> PairedAt(r, i)
  }

  // ------------------------------------------------------- the agent's rounds

  /** One tool round: the assistant's calls and, per call, what the tool returned. */
  datatype Round = Round(text: string, calls: seq<ToolCall>, outputs: seq<string>)

  predicate ValidRound(d: Round)
  {
    d.calls != [] && |d.outputs| == |d.calls|
  }

  function CallMessage(d: Round): (m: Message)
  {
    Message("assistant", d.text, d.calls, None)
  }

  function ResultMessages(d: Round): (ms: seq<Message>)
    requires ValidRound(d)
    ensures |ms| == |d.calls|
    ensures forall k :: 0 <= k < |ms| ==> ms[k] == Message("user", d.outputs[k], [], d.calls[k].id)
  {
    seq(|d.calls|, k requires 0 <= k < |d.calls| => Message("user", d.outputs[k], [], d.calls[k].id))
  }

  function CallIds(calls: seq<ToolCall>): (ids: seq<string>)
    ensures |ids| == |calls|
    ensures forall k :: 0 <= k < |ids| ==> ids[k] == OrEmpty(calls[k].id)
  {
    if calls == [] then [] else [OrEmpty(calls[0].id)] + CallIds(calls[1..])
  }

  function Transcript(ds: seq<Round>): (ms: seq<Message>)
    requires forall d :: d in ds ==> ValidRound(d)
    ensures ms != [] ==> ms[0].toolUseId.None?
  {
    if ds == [] then [] else [CallMessage(ds[0])] + ResultMessages(ds[0]) + Transcript(ds[1..])
  }

  predicate HasIds(d: Round)
  {
    forall k :: 0 <= k < |d.calls| ==> d.calls[k].id.Some?
  }

  lemma {:induction false} UseIdsOfUses(calls: seq<ToolCall>)
    ensures UseIds(Uses(calls)) == CallIds(calls)
  {
    if calls != [] {
      UseIdsOfUses(calls[1..]);
      assert Uses(calls)[1..] == Uses(calls[1..]);
    }
  }

  /** The call message asks for exactly the ids of its calls, text block or not. */
  lemma {:induction false} CallMessageIds(d: Round)
    requires ValidRound(d)
    ensures Single(CallMessage(d)).role == "assistant" && Single(CallMessage(d)).content.Blocks?
    ensures UseIds(Single(CallMessage(d)).content.blocks) == CallIds(d.calls)
  {
    UseIdsOfUses(d.calls);
    var bs := Single(CallMessage(d)).content.blocks;
    if d.text == "" {
      assert bs == Uses(d.calls);
    } else {
      assert bs[1..] == Uses(d.calls) && bs[0] == TextBlock(d.text);
    }
  }

  lemma {:induction false} AnswerRunWhole(a: seq<Message>, b: seq<Message>)
    requires forall i :: 0 <= i < |a| ==> a[i].toolUseId.Some?
    requires b != [] ==> b[0].toolUseId.None?
    ensures AnswerRun(a + b) == |a|
  {
    if a == [] {
      assert a + b == b;
    } else {
      assert (a + b)[1..] == a[1..] + b;
      AnswerRunWhole(a[1..], b);
    }
  }

  /** A round with ids becomes two API messages: the calls, and one message with all results. */
  lemma {:induction false} RoundWithIds(d: Round, rest: seq<Message>)
    requires ValidRound(d) && HasIds(d)
    requires rest != [] ==> rest[0].toolUseId.None?
    ensures Encode([CallMessage(d)] + ResultMessages(d) + rest)
         == [Single(CallMessage(d)), ApiMessage("user", Blocks(Results(ResultMessages(d))))] + Encode(rest)
    ensures AnswersExactly(ApiMessage("user", Blocks(Results(ResultMessages(d)))),
                           UseIds(Single(CallMessage(d)).content.blocks))
  {
    hide *;
    CallMessageIds(d);
    AnswersHaveIds(d);
    var rs := ResultMessages(d);
    EncodeAnswers(rs, rest);
    assert [CallMessage(d)] + rs + rest == [CallMessage(d)] + (rs + rest);
    EncodeFirstCall(d, rs + rest);
  }

  lemma {:induction false} AnswersHaveIds(d: Round)
    requires ValidRound(d) && HasIds(d)
    ensures var rs := ResultMessages(d);
            && rs != [] && (forall i :: 0 <= i < |rs| ==> rs[i].toolUseId.Some? && rs[i].role != "system")
            && AnswersExactly(ApiMessage("user", Blocks(Results(rs))), CallIds(d.calls))
  {
    hide Results, CallIds;
  }

  lemma {:induction false} EncodeAnswers(rs: seq<Message>, rest: seq<Message>)
    requires rs != [] && forall i :: 0 <= i < |rs| ==> rs[i].toolUseId.Some? && rs[i].role != "system"
    requires rest != [] ==> rest[0].toolUseId.None?
    ensures Encode(rs + rest) == [ApiMessage("user", Blocks(Results(rs)))] + Encode(rest)
  {
    AnswerRunWhole(rs, rest);
    hide AnswerRun, Results, Single;
    assert (rs + rest)[..|rs|] == rs && (rs + rest)[|rs|..] == rest;
    assert (rs + rest)[0] == rs[0];
  }

  lemma {:induction false} EncodeSingle(m: Message, rest: seq<Message>)
    requires m.role != "system" && m.toolUseId.None?
    ensures Encode([m] + rest) == [Single(m)] + Encode(rest)
  {
    hide Single;
    assert ([m] + rest)[1..] == rest;
  }

  /** Behind a call without an id no message holds the results of the whole turn. */
  lemma {:induction false} AnswersCutShort(rs: seq<Message>, rest: seq<Message>, ids: seq<string>, k: nat)
    requires k < |rs| == |ids| && rs[k].toolUseId.None?
    requires forall i :: 0 <= i < |rs| ==> rs[i].role == "user" && rs[i].calls == []
    ensures var r := Encode(rs + rest); r != [] && !AnswersExactly(r[0], ids)
  {
    var n := AnswerRun(rs + rest);
    assert (rs + rest)[k] == rs[k] && (rs + rest)[0] == rs[0];
    hide AnswerRun, Results;
  }

  lemma {:induction false} MissingId(d: Round) returns (k: nat)
    requires ValidRound(d) && !HasIds(d)
    ensures k < |d.calls| == |d.outputs| && d.calls[k].id.None?
  {
    k :| 0 <= k < |d.calls| && d.calls[k].id.None?;
  }

  /** A call without an id is answered by a plain message, so its turn is not paired. */
  lemma {:induction false} RoundWithoutIds(d: Round, rest: seq<Message>)
    requires ValidRound(d) && !HasIds(d)
    ensures !Paired(Encode([CallMessage(d)] + ResultMessages(d) + rest))
  {
    hide *;
    var rs := ResultMessages(d);
    var k := MissingId(d);
    CallMessageIds(d);
    AnswersCutShort(rs, rest, CallIds(d.calls), k);
    EncodeFirstCall(d, rs + rest);
    assert [CallMessage(d)] + rs + rest == [CallMessage(d)] + (rs + rest);
    UnpairedFirst(Single(CallMessage(d)), Encode(rs + rest));
  }

  lemma {:induction false} EncodeFirstCall(d: Round, rest: seq<Message>)
    ensures Encode([CallMessage(d)] + rest) == [Single(CallMessage(d))] + Encode(rest)
  {
    EncodeSingle(CallMessage(d), rest);
  }

  lemma {:induction false} UnpairedFirst(a: ApiMessage, r: seq<ApiMessage>)
    requires a.content.Blocks? && UseIds(a.content.blocks) != [] && r != []
    requires !AnswersExactly(r[0], UseIds(a.content.blocks))
    ensures !Paired([a] + r)
  {
    hide AnswersExactly, UseIds;
    assert !PairedAt([a] + r, 0);
  }

  predicate AllHaveIds(ds: seq<Round>)
  {
    forall i :: 0 <= i < |ds| ==> HasIds(ds[i])
  }

  lemma {:induction false} PairedCons(a: ApiMessage, b: ApiMessage, r: seq<ApiMessage>)
    requires b.content.Blocks? && UseIds(b.content.blocks) == []
    requires a.content.Blocks? && AnswersExactly(b, UseIds(a.content.blocks))
    ensures Paired([a, b] + r) <==> Paired(r)
  {
    hide UseIds, AnswersExactly;
    var w := [a, b] + r;
    assert PairedAt(w, 0) && PairedAt(w, 1);
    forall i | 0 <= i < |r| ensures PairedAt(w, i + 2) <==> PairedAt(r, i) {
      assert w[i + 2] == r[i];
      assert i + 1 < |r| ==> w[i + 3] == r[i + 1];
    }
    if Paired(r) {
      forall i | 0 <= i < |w| ensures PairedAt(w, i) {
        if i >= 2 { assert PairedAt(r, i - 2); }
      }
    } else {
      var i :| 0 <= i < |r| && !PairedAt(r, i);
      assert !PairedAt(w, i + 2);
    }
  }

  lemma {:induction false} ResultsUseNothing(ms: seq<Message>)
    ensures UseIds(Results(ms)) == []
  {
    if ms != [] {
      ResultsUseNothing(ms[1..]);
      assert Results(ms)[1..] == Results(ms[1..]);
    }
  }

  /**
   * Any number of tool rounds: paired exactly when every call has an id, and then alternating from
   * assistant to user.
   */
  lemma {:induction false} RoundsWellFormed(ds: seq<Round>)
    requires forall d :: d in ds ==> ValidRound(d)
    ensures Paired(Encode(Transcript(ds))) <==> AllHaveIds(ds)
    ensures AllHaveIds(ds) ==>
              var r := Encode(Transcript(ds));
              Alternates(r) && (r != [] ==> r[0].role == "assistant")
  {
    if ds != [] {
      var d, rest := ds[0], Transcript(ds[1..]);
      RoundsWellFormed(ds[1..]);
      assert Transcript(ds) == [CallMessage(d)] + ResultMessages(d) + rest;
      assert AllHaveIds(ds) <==> HasIds(d) && AllHaveIds(ds[1..]);
      hide *;
      if HasIds(d) {
        RoundAhead(d, rest);
      } else {
        RoundWithoutIds(d, rest);
      }
    }
  }

  /** A round with ids ahead of other rounds. */
  lemma {:induction false} RoundAhead(d: Round, rest: seq<Message>)
    requires ValidRound(d) && HasIds(d) && (rest != [] ==> rest[0].toolUseId.None?)
    ensures var r, tail := Encode([CallMessage(d)] + ResultMessages(d) + rest), Encode(rest);
            && (Paired(r) <==> Paired(tail)) && r != [] && r[0].role == "assistant"
            && (Alternates(tail) && (tail != [] ==> tail[0].role == "assistant") ==> Alternates(r))
  {
    RoundWithIds(d, rest);
    CallMessageIds(d);
    ResultsUseNothing(ResultMessages(d));
    var a, b := Single(CallMessage(d)), ApiMessage("user", Blocks(Results(ResultMessages(d))));
    hide *;
    PairedCons(a, b, Encode(rest));
    AlternatesCons(a, b, Encode(rest));
  }

  lemma {:induction false} AlternatesCons(a: ApiMessage, b: ApiMessage, r: seq<ApiMessage>)
    requires a.role == "assistant" && b.role == "user"
    ensures Alternates(r) && (r != [] ==> r[0].role == "assistant") ==> Alternates([a, b] + r)
  {
    var w := [a, b] + r;
    assert forall i :: 2 <= i < |w| ==> w[i] == r[i - 2];
  }

  // ---------------------------------------------------------- nothing is lost

  /** What the API reads out of the blocks of a message. */
  function TextIn(bs: seq<Block>): (t: string)
  {
    if bs == [] then "" else (if bs[0].TextBlock? then bs[0].text else "") + TextIn(bs[1..])
  }

  function CallsIn(bs: seq<Block>): (calls: seq<ToolCall>)
  {
    if bs == [] then []
    else (if bs[0].ToolUse? then [ToolCall(Some(bs[0].id), bs[0].name, bs[0].arguments)] else []) + CallsIn(bs[1..])
  }

  function AnswersIn(bs: seq<Block>): (ms: seq<Message>)
  {
    if bs == [] then []
    else (if bs[0].ToolResult? then [Message("user", bs[0].content, [], Some(bs[0].toolUseId))] else []) +
         AnswersIn(bs[1..])
  }

  /** The transcript an API list stands for. */
  function Decode(r: seq<ApiMessage>): (ms: seq<Message>)
  {
    if r == [] then []
    else
      var first := match r[0].content {
        case Plain(text) => [Message(r[0].role, text, [], None)]
        case Blocks(bs) =>
          if r[0].role == "assistant" then [Message("assistant", TextIn(bs), CallsIn(bs), None)] else AnswersIn(bs)
      };
      first + Decode(r[1..])
  }

  /** The calls as they arrive: a missing id is empty. */
  function CallsSent(calls: seq<ToolCall>): (r: seq<ToolCall>)
    ensures |r| == |calls|
    ensures forall k :: 0 <= k < |calls| ==>
              r[k] == ToolCall(Some(match calls[k].id { case Some(id) => id case None => "" }), calls[k].name,
                calls[k].arguments)
  {
    if calls == [] then []
    else [ToolCall(Some(if calls[0].id.Some? then calls[0].id.value else ""), calls[0].name, calls[0].arguments)] +
         CallsSent(calls[1..])
  }

  /** The messages that are sent: all but the system's. */
  function MessagesSent(ms: seq<Message>): (r: seq<Message>)
  {
    if ms == [] then []
    else (if ms[0].role == "system" then [] else [ms[0].(calls := CallsSent(ms[0].calls))]) + MessagesSent(ms[1..])
  }

  /** The kinds of messages an agent makes: only the assistant calls tools, and results are the user's. */
  predicate Regular(m: Message)
  {
    (m.calls != [] ==> m.role == "assistant" && m.toolUseId.None?) && (m.toolUseId.Some? ==> m.role == "user")
  }

  lemma {:induction false} UsesDecoded(calls: seq<ToolCall>)
    ensures CallsIn(Uses(calls)) == CallsSent(calls) && TextIn(Uses(calls)) == ""
  {
    if calls != [] {
      UsesDecoded(calls[1..]);
      assert Uses(calls)[1..] == Uses(calls[1..]);
    }
  }

  lemma {:induction false} SingleDecoded(m: Message)
    requires Regular(m) && m.toolUseId.None?
    ensures Decode([Single(m)]) == [m.(calls := CallsSent(m.calls))]
  {
    assert [Single(m)][1..] == [];
    if m.calls != [] {
      UsesDecoded(m.calls);
      var bs := Single(m).content.blocks;
      hide CallsSent, Uses;
      if m.content == "" {
        assert bs == Uses(m.calls);
      } else {
        assert bs[1..] == Uses(m.calls) && bs[0] == TextBlock(m.content);
        assert TextIn(bs) == m.content + "" == m.content;
        assert CallsIn(bs) == [] + CallsIn(bs[1..]) == CallsSent(m.calls);
      }
    }
  }

  lemma {:induction false} ResultsDecoded(ms: seq<Message>)
    requires forall m :: m in ms ==> Regular(m) && m.toolUseId.Some?
    ensures AnswersIn(Results(ms)) == ms == MessagesSent(ms)
  {
    if ms != [] {
      assert forall m :: m in ms[1..] ==> m in ms;
      ResultsDecoded(ms[1..]);
      assert Results(ms)[1..] == Results(ms[1..]);
      assert ms[0] in ms && CallsSent([]) == [];
      assert ms == [ms[0]] + ms[1..];
    }
  }

  lemma {:induction false} SentAppend(a: seq<Message>, b: seq<Message>)
    ensures MessagesSent(a + b) == MessagesSent(a) + MessagesSent(b)
  {
    hide CallsSent;
    if a == [] {
      assert a + b == b;
    } else {
      assert (a + b)[1..] == a[1..] + b;
      SentAppend(a[1..], b);
    }
  }

  lemma {:induction false} DecodeCons(a: ApiMessage, r: seq<ApiMessage>)
    ensures Decode([a] + r) == Decode([a]) + Decode(r)
  {
    assert ([a] + r)[1..] == r && [a][1..] == [];
    hide TextIn, CallsIn, AnswersIn;
  }

  /**
   * The API list says all that the transcript does, in order: every text, every call with its name
   * and arguments, every result with its id; a missing id of a call is sent as an empty one.
   */
  lemma {:induction false} EncodeLosesNothing(ms: seq<Message>)
    requires forall m :: m in ms ==> Regular(m)
    ensures Decode(Encode(ms)) == MessagesSent(ms)
    decreases |ms|
  {
    if ms != [] {
      var m := ms[0];
      assert m in ms;
      var n := if m.role != "system" && m.toolUseId.Some? then AnswerRun(ms) else 1;
      assert 1 <= n;
      var run, rest := ms[..n], ms[n..];
      assert ms == run + rest && forall x :: x in rest ==> x in ms;
      assert forall x :: x in run ==> x in ms;
      EncodeLosesNothing(rest);
      SentAppend(run, rest);
      if m.role == "system" {
        SystemDropped(ms);
      } else if m.toolUseId.Some? {
        assert forall x :: x in run ==> x.toolUseId.Some?;
        ResultsDecoded(run);
        hide Results, AnswerRun, MessagesSent, AnswersIn;
        DecodeCons(ApiMessage("user", Blocks(Results(run))), Encode(rest));
        AnswersDecoded(Results(run));
      } else {
        SingleDecoded(m);
        SingleSent(m);
        assert run == [m];
        hide Single, MessagesSent, Decode;
        DecodeCons(Single(m), Encode(rest));
      }
    }
  }

  lemma {:induction false} AnswersDecoded(bs: seq<Block>)
    ensures Decode([ApiMessage("user", Blocks(bs))]) == AnswersIn(bs)
  {
    var r := [ApiMessage("user", Blocks(bs))];
    assert r[1..] == [] && AnswersIn(bs) + [] == AnswersIn(bs);
  }

  lemma {:induction false} SingleSent(m: Message)
    requires m.role != "system"
    ensures MessagesSent([m]) == [m.(calls := CallsSent(m.calls))]
  {
    assert [m][1..] == [];
  }

  lemma {:induction false} SystemDropped(ms: seq<Message>)
    requires ms != [] && ms[0].role == "system"
    ensures Encode(ms) == Encode(ms[1..]) && MessagesSent(ms[..1]) == []
  {
    assert ms[..1][1..] == [];
  }

  // ---------------------------------------------------------- a whole request

  /** A stored message as the agent sends it back. */
  predicate PlainMessage(m: Message)
  {
    (m.role == "user" || m.role == "assistant") && m.calls == [] && m.toolUseId.None?
  }

  /** A history the agent may prepend to a user turn: alternating, and ending on the assistant. */
  predicate ProperHistory(h: seq<Message>)
  {
    && (forall i :: 0 <= i < |h| ==> PlainMessage(h[i]))
    && (forall i :: 0 <= i < |h| - 1 ==> h[i].role != h[i + 1].role)
    && (h != [] ==> h[|h| - 1].role == "assistant")
  }

  /** The transcript sent after the tool rounds `ds`. */
  function Request(system: string, h: seq<Message>, user: string, ds: seq<Round>): (ms: seq<Message>)
    requires forall d :: d in ds ==> ValidRound(d)
  {
    [Message("system", system, [], None)] + (h + ([Message("user", user, [], None)] + Transcript(ds)))
  }

  lemma {:induction false} EncodePlain(h: seq<Message>, rest: seq<Message>)
    requires forall i :: 0 <= i < |h| ==> PlainMessage(h[i])
    ensures var r := Encode(h + rest);
            && |r| == |h| + |Encode(rest)| && r[|h|..] == Encode(rest)
            && forall i :: 0 <= i < |h| ==> r[i] == ApiMessage(h[i].role, Plain(h[i].content))
  {
    if h == [] {
      assert h + rest == rest;
    } else {
      EncodePlain(h[1..], rest);
      assert (h + rest)[1..] == h[1..] + rest;
      var r, r' := Encode(h + rest), Encode(h[1..] + rest);
      assert r == [Single(h[0])] + r';
      hide Encode;
      assert r[|h|..] == r'[|h| - 1..];
    }
  }

  /**
   * Every request built on a proper history pairs each list of tool calls with exactly one
   * message of results if and only if all calls carry ids, and then its roles alternate.
   */
  lemma {:induction false} RequestWellFormed(system: string, h: seq<Message>, user: string, ds: seq<Round>)
    requires forall d :: d in ds ==> ValidRound(d)
    requires ProperHistory(h)
    ensures Paired(Encode(Request(system, h, user, ds))) <==> AllHaveIds(ds)
    ensures AllHaveIds(ds) ==> Alternates(Encode(Request(system, h, user, ds)))
  {
    var plain := h + [Message("user", user, [], None)];
    RequestEncodes(system, h, user, ds);
    hide *;
    var t := Encode(Transcript(ds));
    RoundsWellFormed(ds);
    PlainAhead(plain, Encode(Request(system, h, user, ds)), t);
    if AllHaveIds(ds) { PlainAlternates(plain, Encode(Request(system, h, user, ds)), t); }
  }

  /** The history and the user's turn ahead of the rounds, message for message. */
  ghost predicate Leads(plain: seq<Message>, r: seq<ApiMessage>, t: seq<ApiMessage>)
  {
    && |r| == |plain| + |t| && r[|plain|..] == t
    && forall i :: 0 <= i < |plain| ==> r[i] == ApiMessage(plain[i].role, Plain(plain[i].content))
  }

  lemma {:induction false} RequestEncodes(system: string, h: seq<Message>, user: string, ds: seq<Round>)
    requires (forall d :: d in ds ==> ValidRound(d)) && ProperHistory(h)
    ensures var plain := h + [Message("user", user, [], None)];
            && Leads(plain, Encode(Request(system, h, user, ds)), Encode(Transcript(ds)))
            && plain[|h|].role == "user"
            && forall i :: 0 <= i < |plain| - 1 ==> plain[i].role != plain[i + 1].role
  {
    var plain := h + [Message("user", user, [], None)];
    assert Request(system, h, user, ds)[1..] == plain + Transcript(ds);
    hide Transcript, Single;
    EncodePlain(plain, Transcript(ds));
  }

  lemma {:induction false} PlainAhead(plain: seq<Message>, r: seq<ApiMessage>, t: seq<ApiMessage>)
    requires Leads(plain, r, t)
    ensures Paired(r) <==> Paired(t)
  {
    hide UseIds, AnswersExactly;
    forall i | 0 <= i < |plain| ensures PairedAt(r, i) {
    }
    hide PairedAt, Paired;
    PairedSuffix(r, |plain|);
  }

  lemma {:induction false} PlainAlternates(plain: seq<Message>, r: seq<ApiMessage>, t: seq<ApiMessage>)
    requires Leads(plain, r, t) && plain != [] && plain[|plain| - 1].role == "user"
    requires forall i :: 0 <= i < |plain| - 1 ==> plain[i].role != plain[i + 1].role
    requires Alternates(t) && (t != [] ==> t[0].role == "assistant")
    ensures Alternates(r)
  {
    forall i | 0 <= i < |r| - 1 ensures r[i].role != r[i + 1].role {
      if i >= |plain| {
        assert r[i] == t[i - |plain|] && r[i + 1] == t[i + 1 - |plain|];
      } else if i == |plain| - 1 {
        assert r[i + 1] == t[0];
      }
    }
  }

  lemma {:induction false} PairedSuffix(r: seq<ApiMessage>, n: nat)
    requires n <= |r|
    requires forall i :: 0 <= i < n ==> PairedAt(r, i)
    ensures Paired(r) <==> Paired(r[n..])
  {
    hide UseIds, AnswersExactly;
    var t := r[n..];
    forall i | 0 <= i < |t| ensures PairedAt(r, n + i) <==> PairedAt(t, i) {
      assert r[n + i] == t[i];
    }
    if Paired(t) {
      forall i | 0 <= i < |r| ensures PairedAt(r, i) {
        if i >= n { assert PairedAt(t, i - n); }
      }
    } else {
      var i :| 0 <= i < |t| && !PairedAt(t, i);
      assert !PairedAt(r, n + i);
    }
  }

  /** What a transcript is made of: per round the calls with the text, then one message per output. */
  lemma {:induction false} TranscriptIs(ds: seq<Round>)
    requires ds != [] && forall d :: d in ds ==> ValidRound(d)
    ensures var ms, d := Transcript(ds), ds[0];
            && ValidRound(d) && |ms| > |d.calls| && ms[0] == Message("assistant", d.text, d.calls, None)
            && (forall k :: 0 <= k < |d.calls| ==> ms[1 + k] == Message("user", d.outputs[k], [], d.calls[k].id))
            && ms[1 + |d.calls|..] == Transcript(ds[1..])
  {
    var d := ds[0];
    assert ValidRound(d);
    var rest := Transcript(ds[1..]);
    assert Transcript(ds) == [CallMessage(d)] + ResultMessages(d) + rest;
    assert CallMessage(d) == Message("assistant", d.text, d.calls, None);
    hide *;
    ThreeParts(CallMessage(d), ResultMessages(d), rest);
  }

  lemma {:induction false} ThreeParts(a: Message, b: seq<Message>, c: seq<Message>)
    ensures var ms := [a] + b + c;
            ms[0] == a && (forall k :: 0 <= k < |b| ==> ms[1 + k] == b[k]) && ms[1 + |b|..] == c
  {
  }

  /** What a request is made of, and that the API list says all of it but the system text. */
  lemma {:induction false} RequestLosesNothing(system: string, h: seq<Message>, user: string, ds: seq<Round>)
    requires (forall d :: d in ds ==> ValidRound(d)) && ProperHistory(h)
    ensures var ms := Request(system, h, user, ds);
            && ms == [Message("system", system, [], None)] + h + [Message("user", user, [], None)] + Transcript(ds)
            && Decode(Encode(ms)) == MessagesSent(ms)
  {
    var ms := Request(system, h, user, ds);
    RoundsRegular(ds);
    assert ms == [Message("system", system, [], None)] + h + [Message("user", user, [], None)] + Transcript(ds);
    assert forall m :: m in h ==> Regular(m);
    hide Transcript, Encode, Decode, MessagesSent;
    assert forall m :: m in ms ==> m in h || m in Transcript(ds)
                                   || m == Message("system", system, [], None) || m == Message("user", user, [], None);
    EncodeLosesNothing(ms);
  }

  lemma {:induction false} RoundsRegular(ds: seq<Round>)
    requires forall d :: d in ds ==> ValidRound(d)
    ensures forall m :: m in Transcript(ds) ==> Regular(m)
  {
    if ds != [] {
      RoundsRegular(ds[1..]);
      var d := ds[0];
      assert forall m :: m in [CallMessage(d)] + ResultMessages(d) ==> Regular(m);
    }
  }
}
