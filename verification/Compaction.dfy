/**
 * Session compaction (compact_session_via_llm in src/core/agent.c). The oldest messages
 * of a long session are sent to the model as one "role: content" line each, under a byte
 * cap, and are replaced by the summary that comes back.
 */
module Compaction {
  import opened Text

  const SUMMARY_SOURCE_MAX := 65536
  const SUMMARY_RESULT_MAX := 4096
  const MARKER := "[truncated]"

  /**
   * An element of the session array. `None` is a member that is absent or is not a
   * string; the code reads both alike.
   */
  datatype Item = NonObject | Object(role: Option<string>, content: Option<string>)

  function RoleOf(it: Item): (r: string)
  {
    if it.Object? && it.role.Some? then it.role.value else "user"
  }

  function ContentOf(it: Item): (c: string)
  {
    if it.Object? && it.content.Some? then it.content.value else ""
  }

  // ------------------------------------------------------ the summarizer source

  function Line(it: Item): (l: string)
  {
    RoleOf(it) + ": " + ContentOf(it) + "\n"
  }

  /** The line, with its terminator, fits `room` bytes. */
  predicate LineFits(it: Item, room: int)
  {
    |Line(it)| < room
  }

  /** Even a stub needs room for the role and the marker. */
  predicate CanStub(it: Item)
  {
    |RoleOf(it)| + 15 < SUMMARY_SOURCE_MAX
  }

  /** Content bytes a stub keeps: as many as fit, cut on a UTF-8 boundary. */
  function StubCut(it: Item): (k: nat)
    requires CanStub(it)
    ensures k <= |ContentOf(it)| && IsBoundary(ContentOf(it), k)
  {
    var room := SUMMARY_SOURCE_MAX - |RoleOf(it)| - 15;
    CutBack(ContentOf(it), if room < |ContentOf(it)| then room else |ContentOf(it)|)
  }

  function Stub(it: Item): (l: string)
    requires CanStub(it)
    ensures |l| < SUMMARY_SOURCE_MAX
  {
    RoleOf(it) + ": " + ContentOf(it)[..StubCut(it)] + MARKER + "\n"
  }

  /** No message precedes index `i`, so the source is still empty there. */
  predicate IsFirstMessage(session: seq<Item>, i: nat)
    requires i <= |session|
  {
    forall j :: 0 <= j < i ==> session[j].NonObject?
  }

  /** What the summarizer is shown for element `i`. */
  function Entry(session: seq<Item>, i: nat): (e: string)
    requires i < |session|
  {
    if session[i].NonObject? then ""
    else if IsFirstMessage(session, i) && !LineFits(session[i], SUMMARY_SOURCE_MAX) && CanStub(session[i])
    then Stub(session[i])
    else Line(session[i])
  }

  /** Entries of the first `k` elements, in order. */
  function Source(session: seq<Item>, k: nat): (s: string)
    requires k <= |session|
    ensures s == "" <==> IsFirstMessage(session, k)
  {
    if k == 0 then ""
    else
      assert IsFirstMessage(session, k) <==> IsFirstMessage(session, k - 1) && session[k - 1].NonObject?;
      Source(session, k - 1) + Entry(session, k - 1)
  }

  /** Element `i` cannot be added to the entries before it. */
  predicate Overflows(session: seq<Item>, i: nat)
    requires i < |session|
  {
    && session[i].Object?
    && !LineFits(session[i], SUMMARY_SOURCE_MAX - |Source(session, i)|)
    && !(IsFirstMessage(session, i) && CanStub(session[i]))
  }

  /** First element at or after `i`, below `limit`, that does not fit; `limit` if none. */
  function StopFrom(session: seq<Item>, i: nat, limit: nat): (k: nat)
    requires i <= limit <= |session|
    ensures i <= k <= limit
    ensures k < limit ==> Overflows(session, k)
    ensures forall j :: i <= j < k ==> !Overflows(session, j)
    decreases limit - i
  {
    if i == limit || Overflows(session, i) then i else StopFrom(session, i + 1, limit)
  }

  method BuildSource(session: seq<Item>, limit: nat) returns (source: string, stop: nat, foldIntoOversized: bool)
    requires limit <= |session|
    ensures stop == StopFrom(session, 0, limit)
    ensures source == Source(session, stop)
    ensures foldIntoOversized <==> stop < limit && stop == 1 && RoleOf(session[1]) != "user"
  {
    source, foldIntoOversized := "", false;
    var i := 0;
    while i < limit
      invariant i <= limit
      invariant source == Source(session, i)
      invariant StopFrom(session, 0, limit) == StopFrom(session, i, limit)
    {
      var it := session[i];
      if it.Object? {
        if LineFits(it, SUMMARY_SOURCE_MAX - |source|) {
          source := source + Line(it);
        } else if source == "" && CanStub(it) {
          source := Stub(it);
        } else {
          return source, i, i == 1 && RoleOf(it) != "user";
        }
      }
      i := i + 1;
    }
    stop := limit;
  }

  // ---------------------------------------------------------- the new session

  function Truncated(reply: string): (s: string)
    ensures s <= reply && |s| == if |reply| < SUMMARY_RESULT_MAX then |reply| else SUMMARY_RESULT_MAX - 1
  {
    if |reply| < SUMMARY_RESULT_MAX then reply else reply[..SUMMARY_RESULT_MAX - 1]
  }

  function SummaryMessage(summary: string): (it: Item)
  {
    Object(Some("user"), Some(summary))
  }

  function Folded(it: Item, summary: string): (r: Item)
    requires it.Object?
  {
    it.(content := Some(summary + "\n\n" + ContentOf(it)))
  }

  /** The summary joins the first kept message instead of becoming a message of its own. */
  predicate Folds(session: seq<Item>, limit: nat, stop: nat)
    requires stop <= limit && stop < |session|
  {
    || (session[stop].Object? && session[stop].role == Some("user"))
    || (stop < limit && stop == 1 && RoleOf(session[1]) != "user" && session[1].Object?)
  }

  /** How many of the oldest messages a pass tries to summarize. */
  function Limit(session: seq<Item>, maxCtx: int): (n: nat)
    requires 2 <= maxCtx < |session|
    ensures 2 <= n < |session|
  {
    |session| - maxCtx + 1
  }

  function Stop(session: seq<Item>, maxCtx: int): (n: nat)
    requires 2 <= maxCtx < |session|
    ensures n <= Limit(session, maxCtx)
  {
    StopFrom(session, 0, Limit(session, maxCtx))
  }

  function SourceSent(session: seq<Item>, maxCtx: int): (s: string)
    requires 2 <= maxCtx < |session|
  {
    Source(session, Stop(session, maxCtx))
  }

  /** The session with everything before `Stop` replaced by `summary`. */
  function Rewritten(session: seq<Item>, maxCtx: int, summary: string): (t: seq<Item>)
    requires 2 <= maxCtx < |session|
  {
    var stop := Stop(session, maxCtx);
    if Folds(session, Limit(session, maxCtx), stop)
    then [Folded(session[stop], summary)] + session[stop + 1..]
    else [SummaryMessage(summary)] + session[stop..]
  }

  // ----------------------------------------------------- printed session size

  function EscapedLen(c: char): (n: nat)
  {
    if c == '\"' || c == '\\' || c == '\n' || c == '\r' || c == '\t' || c as int == 8 || c as int == 12 then 2
    else if (c as int) < 32 then 6 else 1
  }

  function EscapedSize(s: string): (n: nat)
    ensures n >= |s|
  {
    if s == "" then 0 else EscapedLen(s[0]) + EscapedSize(s[1..])
  }

  /** Bytes of `"name":"value"`, nothing when the member is missing. */
  function MemberSize(name: nat, value: Option<string>): (n: nat)
  {
    if value.None? then 0 else name + 5 + EscapedSize(value.value)
  }

  function ItemSize(it: Item): (n: nat)
  {
    if it.NonObject? then 1
    else 2 + MemberSize(4, it.role) + MemberSize(7, it.content)
         + (if it.role.Some? && it.content.Some? then 1 else 0)
  }

  /** Length of the session as unformatted JSON; an element that is not an object is one digit. */
  function PrintedSize(session: seq<Item>): (n: nat)
  {
    if session == [] then 2
    else PrintedSize(session[..|session| - 1]) + ItemSize(session[|session| - 1]) + (if |session| > 1 then 1 else 0)
  }

  /** How a byte is printed inside a JSON string. */
  function PrintedByte(c: char): (t: string)
  {
    match c
    case '\"' => "\\\""
    case '\\' => "\\\\"
    case '\n' => "\\n"
    case '\r' => "\\r"
    case '\t' => "\\t"
    case _ =>
      if c as int == 8 then "\\b"
      else if c as int == 12 then "\\f"
      else if (c as int) < 32 then "\\u00" + [HexDigit(c as int / 16), HexDigit(c as int % 16)]
      else [c]
  }

  function HexDigit(d: nat): (c: char)
    requires d < 16
  {
    "0123456789abcdef"[d]
  }

  function PrintedBytes(s: string): (t: string)
  {
    if s == "" then "" else PrintedByte(s[0]) + PrintedBytes(s[1..])
  }

  function PrintedString(s: string): (t: string)
  {
    "\"" + PrintedBytes(s) + "\""
  }

  function PrintedItem(it: Item): (t: string)
  {
    match it
    case NonObject => "0"
    case Object(None, None) => "{}"
    case Object(Some(role), None) => "{\"role\":" + PrintedString(role) + "}"
    case Object(None, Some(content)) => "{\"content\":" + PrintedString(content) + "}"
    case Object(Some(role), Some(content)) =>
      "{\"role\":" + PrintedString(role) + ",\"content\":" + PrintedString(content) + "}"
  }

  function PrintedItems(session: seq<Item>): (t: string)
  {
    if session == [] then ""
    else
      var n := |session| - 1;
      PrintedItems(session[..n]) + (if n > 0 then "," else "") + PrintedItem(session[n])
  }

  /** The printed size is the length of the session printed without white space. */
  lemma {:induction false} PrintedSizeExactly(session: seq<Item>)
    ensures PrintedSize(session) == |"[" + PrintedItems(session) + "]"|
  {
    if session != [] {
      var n := |session| - 1;
      PrintedSizeExactly(session[..n]);
      ItemSizeIs(session[n]);
      hide PrintedItem, ItemSize;
    }
  }

  lemma {:induction false} ItemSizeIs(it: Item)
    ensures ItemSize(it) == |PrintedItem(it)|
  {
    if it.Object? {
      if it.role.Some? { EscapedSizeIs(it.role.value); }
      if it.content.Some? { EscapedSizeIs(it.content.value); }
    }
    hide EscapedSize, PrintedBytes;
  }

  lemma {:induction false} EscapedSizeIs(s: string)
    ensures EscapedSize(s) == |PrintedBytes(s)|
  {
    if s != "" {
      EscapedLenIs(s[0]);
      hide PrintedByte, EscapedLen;
      EscapedSizeIs(s[1..]);
    }
  }

  lemma {:induction false} EscapedLenIs(c: char)
    ensures EscapedLen(c) == |PrintedByte(c)|
  {
  }

  // ------------------------------------------------------------------ a pass

  /** `Failed` and `NotNeeded` leave the session buffer as it was; `Replaced` is the buffer after a pass. */
  datatype Outcome = NotNeeded | Failed | Replaced(session: seq<Item>)

  /** What one pass does to the session buffer; `reply` is the model's answer, if any. */
  function Pass(session: seq<Item>, maxCtx: int, reply: Option<string>, cap: nat): (r: Outcome)
  {
    if |session| <= maxCtx || maxCtx < 2 then NotNeeded
    else if SourceSent(session, maxCtx) == "" || reply.None? then Failed
    else
      var t := Rewritten(session, maxCtx, Truncated(reply.value));
      if PrintedSize(t) >= cap then Failed else Replaced(t)
  }

  /** Copies the kept tail behind the summary, or folds the summary into its first message. */
  method CopyTail(session: seq<Item>, stop: nat, fold: bool, summary: string) returns (t: seq<Item>)
    requires stop < |session| && (fold ==> session[stop].Object?)
    ensures t == if fold then [Folded(session[stop], summary)] + session[stop + 1..]
                 else [SummaryMessage(summary)] + session[stop..]
  {
    t := if fold then [] else [SummaryMessage(summary)];
    var i := stop;
    while i < |session|
      invariant stop <= i <= |session|
      invariant !fold ==> t == [SummaryMessage(summary)] + session[stop..i]
      invariant fold ==> t == if i == stop then [] else [Folded(session[stop], summary)] + session[stop + 1..i]
    {
      t := t + [if fold && i == stop then Folded(session[i], summary) else session[i]];
      i := i + 1;
    }
  }

  /** The pass, with the loops of the source. `sent` is the text the model was asked to summarize. */
  method Compact(session: seq<Item>, maxCtx: int, reply: Option<string>, cap: nat)
    returns (r: Outcome, sent: Option<string>)
    ensures r == Pass(session, maxCtx, reply, cap)
    ensures r.Replaced? ==> sent == Some(SourceSent(session, maxCtx))
  {
    hide Source, StopFrom, PrintedSize, Truncated, Folded, SummaryMessage;
    sent := None;
    if |session| <= maxCtx || maxCtx < 2 { return NotNeeded, sent; }
    var source, stop, foldIntoOversized := BuildSource(session, |session| - maxCtx + 1);
    if source == "" { return Failed, sent; }
    sent := Some(source);
    if reply.None? { return Failed, sent; }
    var merge := session[stop].Object? && session[stop].role == Some("user");
    var t := CopyTail(session, stop, merge || foldIntoOversized, Truncated(reply.value));
    if PrintedSize(t) >= cap { return Failed, sent; }
    r := Replaced(t);
  }

  // -------------------------------------------------------------- nothing lost

  lemma {:induction false} SourceGrows(session: seq<Item>, i: nat, k: nat)
    requires i <= k <= |session|
    ensures Source(session, i) <= Source(session, k)
    decreases k
  {
    hide Entry;
    if i < k {
      SourceGrows(session, i, k - 1);
    }
  }

  /** What stands for a message in text: its members, "user" for a missing role and nothing for a missing content. */
  lemma {:induction false} MembersRead(role: Option<string>, content: Option<string>)
    ensures RoleOf(Object(role, content)) == if role.Some? then role.value else "user"
    ensures ContentOf(Object(role, content)) == if content.Some? then content.value else ""
  {
  }

  /** Element `i` adds its whole line, and nothing else, to what the summarizer is shown. */
  predicate ReadWhole(session: seq<Item>, source: string, i: nat)
    requires i < |session|
  {
    && Source(session, i + 1) == Source(session, i) + (RoleOf(session[i]) + ": " + ContentOf(session[i]) + "\n")
    && Source(session, i + 1) <= source
  }

  /** What the summarizer is shown begins with a stub of element `i`: its role and a marked prefix of its content. */
  predicate ReadAsStub(session: seq<Item>, source: string, i: nat)
    requires i < |session|
  {
    var role, content, line := RoleOf(session[i]), ContentOf(session[i]), Source(session, i + 1);
    var cut := |line| - |role| - 2 - |"[truncated]"| - 1;
    && (forall j :: 0 <= j < i ==> session[j].NonObject?)
    && |role| + 2 + |content| + 1 >= SUMMARY_SOURCE_MAX
    && 0 <= cut <= |content| && LongestCut(role, content, cut)
    && line == role + ": " + content[..cut] + "[truncated]" + "\n"
    && line <= source
  }

  /** A prefix on a character boundary that fits with role, marker and terminator, and none longer does. */
  predicate LongestCut(role: string, content: string, cut: nat)
  {
    && cut <= |content| && IsBoundary(content, cut) && |role| + 2 + cut + 11 + 1 < SUMMARY_SOURCE_MAX
    && forall k :: cut < k <= |content| && IsBoundary(content, k) ==> |role| + 2 + k + 11 + 1 >= SUMMARY_SOURCE_MAX
  }

  /**
   * Element `i` of the old session is in the new one: verbatim or, if it is the first one kept,
   * with its role and with the summary and a blank line before its content.
   */
  ghost predicate StillStored(session: seq<Item>, t: seq<Item>, summary: string, i: nat)
    requires i < |session|
  {
    var j := i + |t| - |session|;
    && 0 <= j < |t|
    && (t[j] == session[i]
        || (j == 0 && session[i].Object?
            && t[j] == Object(session[i].role, Some(summary + "\n\n" + ContentOf(session[i])))))
  }

  /**
   * No message is lost by a pass that replaces the session: each one was shown to the
   * summarizer, or is still stored. An element that is not an object is lost exactly
   * when it precedes the stop.
   */
  lemma {:induction false} CompactionLosesNothing(session: seq<Item>, maxCtx: int, reply: string, cap: nat, i: nat)
    requires i < |session|
    requires Pass(session, maxCtx, Some(reply), cap).Replaced?
    ensures var t := Pass(session, maxCtx, Some(reply), cap).session;
            var source, summary := SourceSent(session, maxCtx), Truncated(reply);
            if i >= Stop(session, maxCtx) then StillStored(session, t, summary, i)
            else session[i].Object? ==> ReadWhole(session, source, i) || ReadAsStub(session, source, i)
  {
    var stop := Stop(session, maxCtx);
    if i < stop && session[i].Object? {
      EntryShown(session, i, stop);
    }
  }

  lemma {:induction false} StubIsLongest(it: Item)
    requires CanStub(it) && !LineFits(it, SUMMARY_SOURCE_MAX)
    ensures forall k :: StubCut(it) < k <= |ContentOf(it)| && IsBoundary(ContentOf(it), k)
              ==> |RoleOf(it)| + 2 + k + |MARKER| + 1 >= SUMMARY_SOURCE_MAX
  {
    var c, room := ContentOf(it), SUMMARY_SOURCE_MAX - |RoleOf(it)| - 15;
    assert StubCut(it) == CutBack(c, room) by { assert |Line(it)| == |RoleOf(it)| + 2 + |c| + 1; }
    hide CutBack, StubCut;
  }

  lemma {:induction false} EntryShown(session: seq<Item>, i: nat, k: nat)
    requires i < k <= |session| && session[i].Object?
    requires !Overflows(session, i)
    ensures ReadWhole(session, Source(session, k), i) || ReadAsStub(session, Source(session, k), i)
  {
    hide *;
    SourceGrows(session, i + 1, k);
    EntryIs(session, i);
    if Entry(session, i) == Line(session[i]) {
      WholeShown(session, Source(session, k), i);
    } else {
      StubShown(session, Source(session, k), i);
    }
  }

  lemma {:induction false} EntryIs(session: seq<Item>, i: nat)
    requires i < |session| && session[i].Object? && !Overflows(session, i)
    ensures Source(session, i + 1) == Source(session, i) + Entry(session, i)
    ensures Entry(session, i) != Line(session[i]) ==>
              && CanStub(session[i]) && !LineFits(session[i], SUMMARY_SOURCE_MAX)
              && IsFirstMessage(session, i) && Source(session, i) == ""
              && Entry(session, i) == Stub(session[i])
  {
    hide Line, Stub, CanStub, ContentOf, RoleOf;
  }

  lemma {:induction false} WholeShown(session: seq<Item>, source: string, i: nat)
    requires i < |session| && Source(session, i + 1) == Source(session, i) + Line(session[i])
    requires Source(session, i + 1) <= source
    ensures ReadWhole(session, source, i)
  {
    hide Line, Source, ContentOf, RoleOf;
    LineText(session[i]);
  }

  lemma {:induction false} StubShown(session: seq<Item>, source: string, i: nat)
    requires i < |session| && CanStub(session[i]) && !LineFits(session[i], SUMMARY_SOURCE_MAX)
    requires IsFirstMessage(session, i) && Source(session, i) == ""
    requires Source(session, i + 1) == Source(session, i) + Stub(session[i]) <= source
    ensures ReadAsStub(session, source, i)
  {
    hide Line, Stub, StubCut, ContentOf, RoleOf, CanStub, Source, LongestCut;
    StubText(session[i]);
    LineText(session[i]);
    Nothing(Stub(session[i]));
  }

  lemma {:induction false} Nothing(s: string)
    ensures "" + s == s
  {
  }

  lemma {:induction false} LineText(it: Item)
    ensures Line(it) == RoleOf(it) + ": " + ContentOf(it) + "\n"
    ensures |Line(it)| == |RoleOf(it)| + 2 + |ContentOf(it)| + 1
  {
  }

  lemma {:induction false} StubText(it: Item)
    requires CanStub(it) && !LineFits(it, SUMMARY_SOURCE_MAX)
    ensures var cut := StubCut(it);
            && Stub(it) == RoleOf(it) + ": " + ContentOf(it)[..cut] + "[truncated]" + "\n"
            && |Stub(it)| == |RoleOf(it)| + 2 + cut + |"[truncated]"| + 1
            && LongestCut(RoleOf(it), ContentOf(it), cut)
  {
    StubIsLongest(it);
    hide StubCut, RoleOf, ContentOf;
  }

  // ------------------------------------------------------- what a pass leaves

  /** The line of element `j` is too long for what is left of the source, and it cannot be cut either. */
  predicate DoesNotFit(session: seq<Item>, j: nat)
    requires j < |session|
  {
    && session[j].Object?
    && |Source(session, j)| + |RoleOf(session[j])| + 2 + |ContentOf(session[j])| + 1 >= 65536
    && ((exists i :: 0 <= i < j && session[i].Object?) || |RoleOf(session[j])| + 15 >= 65536)
  }

  /** The pass stops at the first element that does not fit, at the latest where the kept tail begins. */
  lemma {:induction false} StopExactly(session: seq<Item>, maxCtx: int)
    requires 2 <= maxCtx < |session|
    ensures var k, tail := Stop(session, maxCtx), |session| - (maxCtx - 1);
            && k <= tail && (k < tail ==> DoesNotFit(session, k))
            && forall j :: 0 <= j < k ==> !DoesNotFit(session, j)
  {
    hide Source, RoleOf, ContentOf;
    forall j | 0 <= j < |session| ensures Overflows(session, j) <==> DoesNotFit(session, j) {
      LineText(session[j]);
      hide Line;
    }
    hide Overflows, DoesNotFit;
  }

  /** What the summarizer is shown, with its terminator, fits its buffer. */
  lemma {:induction false} SourceFits(session: seq<Item>, maxCtx: int)
    requires 2 <= maxCtx < |session|
    ensures |SourceSent(session, maxCtx)| < 65536
  {
    hide Overflows, Source;
    FittingFits(session, Stop(session, maxCtx));
  }

  lemma {:induction false} FittingFits(session: seq<Item>, k: nat)
    requires k <= |session| && forall j :: 0 <= j < k ==> !Overflows(session, j)
    ensures |Source(session, k)| < 65536
    decreases k
  {
    hide *;
    if k == 0 {
      NothingShown(session);
    } else {
      FittingFits(session, k - 1);
      EntryFits(session, k - 1);
    }
  }

  lemma {:induction false} NothingShown(session: seq<Item>)
    ensures |Source(session, 0)| == 0
  {
  }

  lemma {:induction false} EntryFits(session: seq<Item>, i: nat)
    requires i < |session| && !Overflows(session, i) && |Source(session, i)| < 65536
    ensures |Source(session, i + 1)| < 65536
  {
    assert Source(session, i + 1) == Source(session, i) + Entry(session, i);
    hide Source, Line, Stub, CanStub;
    if session[i].Object? {
      EntryIs(session, i);
      if Entry(session, i) == Line(session[i]) && !LineFits(session[i], SUMMARY_SOURCE_MAX - |Source(session, i)|) {
        assert IsFirstMessage(session, i) && CanStub(session[i]);
        assert !LineFits(session[i], SUMMARY_SOURCE_MAX);
      }
    }
  }

  /** The summary becomes part of the first kept message, a user's or the one the pass stopped on. */
  predicate TakesSummary(session: seq<Item>, maxCtx: int, k: nat)
  {
    && k < |session| && session[k].Object?
    && (session[k].role == Some("user")
        || (k == 1 && k < |session| - (maxCtx - 1) && session[k].role.Some?))
  }

  /**
   * Exactly when a pass does nothing, fails or replaces the session, and what the new session is:
   * the first kept message with the summary and a blank line before its content, or a user's
   * message of the summary before the kept ones; the others as they were.
   */
  lemma {:induction false} PassExactly(session: seq<Item>, maxCtx: int, reply: Option<string>, cap: nat)
    ensures Pass(session, maxCtx, reply, cap).NotNeeded? <==> |session| <= maxCtx || maxCtx < 2
    ensures 2 <= maxCtx < |session| ==>
              var r, k := Pass(session, maxCtx, reply, cap), Stop(session, maxCtx);
              var shown := exists i :: 0 <= i < k && session[i].Object?;
              var text := if reply.Some? then reply.value[..if |reply.value| < 4096 then |reply.value| else 4095]
                          else "";
              var session' := if TakesSummary(session, maxCtx, k)
                then [Object(session[k].role, Some(text + "\n\n" + ContentOf(session[k])))] + session[k + 1..]
                else [Object(Some("user"), Some(text))] + session[k..];
              && (r.Failed? <==> !shown || reply.None? || PrintedSize(session') >= cap)
              && (r.Replaced? ==> r.session == session')
  {
    hide Source, ContentOf, PrintedSize, StopFrom, Rewritten;
    if 2 <= maxCtx < |session| {
      assert SourceSent(session, maxCtx) == "" <==> IsFirstMessage(session, Stop(session, maxCtx));
      if reply.Some? { TruncatedIs(reply.value); }
      hide Truncated, TakesSummary;
      RewrittenIs(session, maxCtx, if reply.Some? then Truncated(reply.value) else "");
    }
  }

  lemma {:induction false} TruncatedIs(reply: string)
    ensures Truncated(reply) == reply[..if |reply| < 4096 then |reply| else 4095]
  {
  }

  lemma {:induction false} RewrittenIs(session: seq<Item>, maxCtx: int, summary: string)
    requires 2 <= maxCtx < |session|
    ensures var k := Stop(session, maxCtx);
            Rewritten(session, maxCtx, summary) ==
              if TakesSummary(session, maxCtx, k)
              then [Object(session[k].role, Some(summary + "\n\n" + ContentOf(session[k])))] + session[k + 1..]
              else [Object(Some("user"), Some(summary))] + session[k..]
  {
    hide Source, StopFrom, ContentOf;
  }

  // ------------------------------------------------------------------ progress

  /** The oldest message is consumed exactly when its line fits or its role leaves room for a stub. */
  lemma {:induction false} FirstMessageConsumed(session: seq<Item>, maxCtx: int)
    requires 2 <= maxCtx < |session| && session[0].Object?
    ensures Stop(session, maxCtx) >= 1 <==> LineFits(session[0], SUMMARY_SOURCE_MAX) || CanStub(session[0])
  {
    assert Source(session, 0) == "";
    assert Stop(session, maxCtx) >= 1 <==> !Overflows(session, 0);
  }

  /** A role just under the cap, with any content, blocks its session: neither line nor stub fits. */
  lemma {:induction false} LongRoleBlocks(it: Item, rest: seq<Item>, maxCtx: int, reply: string, cap: nat)
    requires it.Object? && |RoleOf(it)| == SUMMARY_SOURCE_MAX - 15 && |ContentOf(it)| >= 12
    requires 2 <= maxCtx <= |rest|
    ensures |RoleOf(it)| < SUMMARY_SOURCE_MAX && Pass([it] + rest, maxCtx, Some(reply), cap).Failed?
  {
    FirstMessageConsumed([it] + rest, maxCtx);
    assert !LineFits(it, SUMMARY_SOURCE_MAX);
  }

  /**
   * What a pass does to the message count. It never grows, stays put only when the pass
   * stops at index 1 on an element without a string role, never drops below maxCtx - 1,
   * and reaches the limit at once when no line overflows.
   */
  lemma {:induction false} CountAfterPass(session: seq<Item>, maxCtx: int, reply: string, cap: nat)
    requires Pass(session, maxCtx, Some(reply), cap).Replaced?
    ensures var n, stop := |Pass(session, maxCtx, Some(reply), cap).session|, Stop(session, maxCtx);
            && 1 <= stop
            && maxCtx - 1 <= n <= |session|
            && (n == |session| <==> stop == 1 && session[1].role.None?)
            && (stop == Limit(session, maxCtx) ==> n <= maxCtx)
  {
    hide RoleOf, Truncated, Folded, SummaryMessage, PrintedSize;
    var stop := Stop(session, maxCtx);
    assert stop > 0 by { assert Source(session, 0) == ""; }
    assert stop == 1 ==> stop < Limit(session, maxCtx) && Overflows(session, 1);
    if stop == 1 { RoleOfSome(session[1]); }
  }

  /** A second message without a string role and too long to be shown leaves the count as it was. */
  lemma {:induction false} RolelessMessageStalls(first: Item, second: Item, rest: seq<Item>, maxCtx: int, reply: string)
    requires first.Object? && LineFits(first, SUMMARY_SOURCE_MAX)
    requires second.Object? && second.role.None? && |ContentOf(second)| >= SUMMARY_SOURCE_MAX
    requires 2 <= maxCtx <= |rest|
    ensures var session := [first, second] + rest;
            |Rewritten(session, maxCtx, Truncated(reply))| == |session|
  {
    var session := [first, second] + rest;
    FirstMessageConsumed(session, maxCtx);
    assert !LineFits(second, SUMMARY_SOURCE_MAX - |Source(session, 1)|) && !IsFirstMessage(session, 1) by {
      assert session[0].Object? && session[1] == second;
    }
    assert Overflows(session, 1);
    assert Stop(session, maxCtx) == 1;
    hide RoleOf, Truncated, Source, StopFrom;
    RoleOfSome(second);
  }

  lemma {:induction false} RoleOfSome(it: Item)
    requires it.Object?
    ensures RoleOf(it) == if it.role.Some? then it.role.value else "user"
  {
  }

  /** Every element is a message with a string role that leaves room for a stub. */
  predicate ShortRoles(session: seq<Item>)
  {
    forall i :: 0 <= i < |session| ==> session[i].Object? && session[i].role.Some? && CanStub(session[i])
  }

  /** On such sessions a pass fails only for want of a reply or of room, and otherwise shrinks the session. */
  lemma {:induction false} PassMakesProgress(session: seq<Item>, maxCtx: int, reply: string, cap: nat)
    requires 2 <= maxCtx < |session| && ShortRoles(session)
    ensures var t := Rewritten(session, maxCtx, Truncated(reply));
            && Pass(session, maxCtx, Some(reply), cap) == (if PrintedSize(t) < cap then Replaced(t) else Failed)
            && maxCtx - 1 <= |t| < |session|
            && ShortRoles(t)
  {
    FirstMessageConsumed(session, maxCtx);
    var t := Rewritten(session, maxCtx, Truncated(reply));
    hide PrintedSize, Rewritten, StopFrom, Source;
    assert !IsFirstMessage(session, Stop(session, maxCtx)) by { assert session[0].Object?; }
    CountAfterPass(session, maxCtx, reply, PrintedSize(t) + 1);
    RolesStayShort(session, maxCtx, Truncated(reply));
    hide *;
  }

  lemma {:induction false} RolesStayShort(session: seq<Item>, maxCtx: int, summary: string)
    requires 2 <= maxCtx < |session| && ShortRoles(session)
    ensures ShortRoles(Rewritten(session, maxCtx, summary))
  {
    hide Source, StopFrom;
    var t := Rewritten(session, maxCtx, summary);
    forall i | 0 <= i < |t| ensures t[i].Object? && t[i].role.Some? && CanStub(t[i]) {
      if i > 0 {
        var j := i + |session| - |t|;
        assert t[i] == session[j];
      }
    }
  }

  /** Where a chain of passes ends: with the session it left, or on a pass that failed with its reply. */
  datatype Chain = Ended(session: seq<Item>) | Stuck(session: seq<Item>, reply: string)

  /** Passes with the given replies, one after the other, until the session fits or a pass fails. */
  function Passes(session: seq<Item>, maxCtx: int, replies: seq<string>, cap: nat): (r: Chain)
    decreases replies
  {
    if |session| <= maxCtx || replies == [] then Ended(session)
    else
      var p := Pass(session, maxCtx, Some(replies[0]), cap);
      if p.Replaced? then Passes(p.session, maxCtx, replies[1..], cap) else Stuck(session, replies[0])
  }

  /**
   * One reply per excess message ends at the limit, never below maxCtx - 1, or else on a pass
   * whose result does not fit the buffer.
   */
  lemma {:induction false} PassesReachLimit(session: seq<Item>, maxCtx: int, replies: seq<string>, cap: nat)
    requires 2 <= maxCtx < |session| && ShortRoles(session)
    requires |replies| >= |session| - maxCtx
    ensures var r := Passes(session, maxCtx, replies, cap);
            if r.Ended? then maxCtx - 1 <= |r.session| <= maxCtx
            else |r.session| > maxCtx && PrintedSize(Rewritten(r.session, maxCtx, Truncated(r.reply))) >= cap
    decreases |replies|
  {
    PassMakesProgress(session, maxCtx, replies[0], cap);
    var p := Pass(session, maxCtx, Some(replies[0]), cap);
    hide Rewritten, Truncated, ShortRoles, PrintedSize, Pass;
    if p.Replaced? && |p.session| > maxCtx {
      PassesReachLimit(p.session, maxCtx, replies[1..], cap);
    }
  }

  predicate ControlBytes(s: string)
  {
    forall i :: 0 <= i < |s| ==> s[i] as int == 1
  }

  lemma {:induction false} ControlBytesPrint(s: string)
    requires ControlBytes(s)
    ensures EscapedSize(s) == 6 * |s|
  {
    if s != "" { ControlBytesPrint(s[1..]); }
  }

  function Short(role: string): (it: Item)
  {
    Object(Some(role), Some("x"))
  }

  /** Nothing overflows in short messages, so all but the kept one are summarized. */
  lemma {:induction false} ShortOnesConsumed(last: Item)
    requires last.Object? && last.role == Some("assistant")
    ensures var session := [Short("user"), Short("assistant"), Short("user"), last];
            SourceSent(session, 2) != "" && forall s :: Rewritten(session, 2, s) == [SummaryMessage(s), last]
  {
    var session := [Short("user"), Short("assistant"), Short("user"), last];
    hide StopFrom, CanStub;
    var a, b, c := Entry(session, 0), Entry(session, 1), Entry(session, 2);
    assert |a| + |b| + |c| < 100 by { hide Source; }
    assert Source(session, 1) == Source(session, 0) + a && Source(session, 2) == Source(session, 1) + b;
    assert Source(session, 0) == "";
    hide Source, Entry;
    assert !Overflows(session, 0) && !Overflows(session, 1) && !Overflows(session, 2);
    hide Overflows;
    assert Stop(session, 2) == 3;
    assert session[3..] == [last];
  }

  /**
   * A summary of control bytes prints at six bytes each: it replaces three short messages of a
   * session that fits its buffer by text that does not, and the pass fails.
   */
  lemma {:induction false} ControlSummaryFails(last: Item, reply: string, cap: nat)
    requires last.Object? && last.role == Some("assistant") && ControlBytes(reply)
    requires |reply| >= SUMMARY_RESULT_MAX - 1
    requires var session := [Short("user"), Short("assistant"), Short("user"), last];
             PrintedSize(session) < cap <= PrintedSize(session) + 24000
    ensures Pass([Short("user"), Short("assistant"), Short("user"), last], 2, Some(reply), cap).Failed?
  {
    var session := [Short("user"), Short("assistant"), Short("user"), last];
    var s := Truncated(reply);
    ShortOnesConsumed(last);
    ControlBytesPrint(s);
    FourShort(last);
    TwoPrinted(last, s);
    hide PrintedSize, Rewritten, SourceSent, EscapedSize;
  }

  lemma {:induction false} PrintedSnoc(session: seq<Item>, it: Item)
    ensures PrintedSize(session + [it]) == PrintedSize(session) + ItemSize(it) + (if session == [] then 0 else 1)
  {
    hide ItemSize;
    assert (session + [it])[..|session|] == session;
  }

  lemma {:induction false} FourShort(last: Item)
    ensures PrintedSize([Short("user"), Short("assistant"), Short("user"), last]) <= ItemSize(last) + 400
  {
    ShortItems("");
    var u, a := Short("user"), Short("assistant");
    NothingPrints();
    hide *;
    PrintedSnoc([], u);
    PrintedSnoc([u], a);
    PrintedSnoc([u, a], u);
    PrintedSnoc([u, a, u], last);
    assert [] + [u] == [u] && [u] + [a] == [u, a] && [u, a] + [u] == [u, a, u] && [u, a, u] + [last] == [u, a, u, last];
  }

  lemma {:induction false} NothingPrints()
    ensures PrintedSize([]) == 2
  {
  }

  lemma {:induction false} TwoPrinted(last: Item, s: string)
    ensures PrintedSize([SummaryMessage(s), last]) >= ItemSize(last) + EscapedSize(s)
  {
    ShortItems(s);
    hide *;
    var m := SummaryMessage(s);
    PrintedSnoc([], m);
    PrintedSnoc([m], last);
    assert [] + [m] == [m] && [m] + [last] == [m, last];
  }

  lemma {:induction false} ShortItems(s: string)
    ensures ItemSize(Short("user")) <= 100 && ItemSize(Short("assistant")) <= 100
    ensures ItemSize(SummaryMessage(s)) >= EscapedSize(s)
  {
    EscapedBound("user");
    EscapedBound("assistant");
    EscapedBound("x");
    hide EscapedSize;
  }

  lemma {:induction false} EscapedBound(s: string)
    ensures EscapedSize(s) <= 6 * |s|
  {
    if s != "" { EscapedBound(s[1..]); }
  }

  // --------------------------------------------------------------------- UTF-8

  predicate ValidItem(it: Item)
  {
    ValidUtf8(RoleOf(it)) && ValidUtf8(ContentOf(it))
  }

  lemma {:induction false} EntryValid(session: seq<Item>, i: nat)
    requires i < |session| && ValidItem(session[i])
    ensures ValidUtf8(Entry(session, i))
  {
    var it := session[i];
    AsciiIsValid(": ");
    AsciiIsValid("\n");
    AsciiIsValid(MARKER);
    hide ValidUtf8, CutBack;
    ValidConcat(RoleOf(it), ": ");
    ValidConcat(RoleOf(it) + ": ", ContentOf(it));
    ValidConcat(RoleOf(it) + ": " + ContentOf(it), "\n");
    if CanStub(it) {
      var kept := ContentOf(it)[..StubCut(it)];
      ValidSplit(ContentOf(it), StubCut(it));
      ValidConcat(RoleOf(it) + ": ", kept);
      ValidConcat(RoleOf(it) + ": " + kept, MARKER);
      ValidConcat(RoleOf(it) + ": " + kept + MARKER, "\n");
    }
  }

  /** Valid messages make a valid summarizer request, stub included. */
  lemma {:induction false} SourceValid(session: seq<Item>, k: nat)
    requires k <= |session|
    requires forall i :: 0 <= i < k ==> ValidItem(session[i])
    ensures ValidUtf8(Source(session, k))
    decreases k
  {
    hide Entry, ValidItem;
    if k > 0 {
      SourceValid(session, k - 1);
      EntryValid(session, k - 1);
      ValidConcat(Source(session, k - 1), Entry(session, k - 1));
    }
  }
}
