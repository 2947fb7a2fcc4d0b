/**
 * Chunked outbound send (src/channels/channel_common.c). A text longer than a
 * platform's message cap is posted as several pieces, each cut on a UTF-8 boundary.
 */
module Chunks {
  import opened Text

  /** Length of the first piece of a non-empty text. */
  function PieceLen(text: string, max: nat): (n: nat)
    requires text != "" && max > 0
    ensures 0 < n <= max && n <= |text|
  {
    if |text| <= max then |text|
    else if CutBack(text, max) > 0 then CutBack(text, max) else max
  }

  /** The pieces in which `text` is sent when no post fails. */
  function Pieces(text: string, max: nat): (ps: seq<string>)
    requires max > 0
    decreases |text|
  {
    if text == "" then []
    else [text[..PieceLen(text, max)]] + Pieces(text[PieceLen(text, max)..], max)
  }

  function Concat(ps: seq<string>): (s: string)
  {
    if ps == [] then "" else ps[0] + Concat(ps[1..])
  }

  lemma {:induction false} ConcatAppend(ps: seq<string>, p: string)
    ensures Concat(ps + [p]) == Concat(ps) + p
  {
    if ps == [] {
      assert ps + [p] == [p];
      assert Concat([p]) == p + Concat([]);
    } else {
      assert (ps + [p])[1..] == ps[1..] + [p];
      ConcatAppend(ps[1..], p);
    }
  }

  /** Nothing is lost or reordered, and no piece is empty or over the cap. */
  lemma {:induction false} PiecesLossless(text: string, max: nat)
    requires max > 0
    ensures Concat(Pieces(text, max)) == text
    ensures forall p :: p in Pieces(text, max) ==> 0 < |p| <= max
    decreases |text|
  {
    if text != "" {
      var n := PieceLen(text, max);
      PiecesLossless(text[n..], max);
      assert Pieces(text, max)[1..] == Pieces(text[n..], max);
      assert text == text[..n] + text[n..];
    }
  }

  lemma {:induction false} PiecesValid(text: string, max: nat)
    requires max >= 4 && ValidUtf8(text)
    ensures forall p :: p in Pieces(text, max) ==> ValidUtf8(p)
    decreases |text|
  {
    if text != "" {
      var n := PieceLen(text, max);
      if n < |text| {
        BoundaryWithinFour(text, max);
      }
      ValidSplit(text, n);
      PiecesValid(text[n..], max);
    }
  }

  /** A four-byte character is torn by every smaller cap. */
  lemma {:induction false} FourByteCharTorn(max: nat)
    requires 0 < max < 4
    ensures ValidUtf8("\U{F0}\U{9F}\U{98}\U{80}")
    ensures exists p :: p in Pieces("\U{F0}\U{9F}\U{98}\U{80}", max) && !ValidUtf8(p)
  {
    var t := "\U{F0}\U{9F}\U{98}\U{80}";
    assert CharLen(t) == 4 && t[4..] == "";
    assert !IsBoundary(t, 1) && !IsBoundary(t, 2) && !IsBoundary(t, 3);
    assert CutBack(t, max) == 0;
    var p := t[..max];
    assert PieceLen(t, max) == max;
    assert Pieces(t, max) == [p] + Pieces(t[max..], max);
    assert p in Pieces(t, max);
    assert CharLen(p) == 0 && p != "";
  }

  /** Pieces of valid text are all valid exactly for the caps that hold the longest character. */
  lemma {:induction false} PiecesValidExactly(max: nat)
    requires max > 0
    ensures (forall text, p :: ValidUtf8(text) && p in Pieces(text, max) ==> ValidUtf8(p)) <==> max >= 4
  {
    if max >= 4 {
      forall text, p | ValidUtf8(text) && p in Pieces(text, max) ensures ValidUtf8(p) {
        PiecesValid(text, max);
      }
    } else {
      FourByteCharTorn(max);
    }
  }

  method OutboundChunkLen(text: string, max: nat) returns (n: nat)
    ensures n == if text == "" || max == 0 then 0 else PieceLen(text, max)
  {
    if max == 0 { return 0; }
    if |text| <= max { return |text|; }
    n := max;
    while n > 0 && IsContinuation(text[n])
      invariant n <= max
      invariant CutBack(text, max) == CutBack(text, n)
    {
      n := n - 1;
    }
    if n == 0 { n := max; }
  }

  /** What a failed send reports: pieces and bytes already delivered. */
  datatype Failure = Failure(index: nat, offset: nat)

  /** `posted` are the pieces of what precedes `cursor`, the unsent suffix of `text`. */
  ghost predicate Sent(text: string, max: nat, cursor: string, posted: seq<string>)
    requires max > 0
  {
    && Pieces(text, max) == posted + Pieces(cursor, max)
    && text == Concat(posted) + cursor
  }

  lemma {:induction false} SentIsPrefix(text: string, max: nat, cursor: string, posted: seq<string>)
    requires max > 0 && Sent(text, max, cursor, posted)
    ensures posted <= Pieces(text, max) && Concat(posted) <= text
    ensures |Concat(posted)| == |text| - |cursor|
    ensures cursor == "" ==> posted == Pieces(text, max)
  {
  }

  lemma {:induction false} SentAdvances(text: string, max: nat, cursor: string, posted: seq<string>)
    requires max > 0 && Sent(text, max, cursor, posted) && cursor != ""
    ensures var n := PieceLen(cursor, max);
            && Sent(text, max, cursor[n..], posted + [cursor[..n]])
            && |posted| < |Pieces(text, max)| && Pieces(text, max)[|posted|] == cursor[..n]
  {
    var n := PieceLen(cursor, max);
    var piece, rest := cursor[..n], cursor[n..];
    ConcatAppend(posted, piece);
    assert cursor == piece + rest;
    assert Concat(posted) + (piece + rest) == Concat(posted) + piece + rest;
    var tail := Pieces(rest, max);
    assert Pieces(cursor, max) == [piece] + tail;
    assert posted + ([piece] + tail) == posted + [piece] + tail;
  }

  /**
   * The platform accepts `accepts` posts and refuses the next one; a run of any callback
   * is one of these. The pieces posted are the pieces of the text up to the refused one,
   * and a failure reports how many pieces and how many bytes went out before it.
   */
  method SendChunked(text: string, max: nat, accepts: nat)
    returns (ok: bool, posted: seq<string>, fail: Failure)
    ensures max == 0 ==> !ok && posted == [] && fail == Failure(0, 0)
    ensures max > 0 ==> (ok <==> |Pieces(text, max)| <= accepts)
    ensures ok ==> posted == Pieces(text, max) && fail == Failure(0, 0)
    ensures max > 0 && !ok ==> posted == Pieces(text, max)[..accepts] && fail == Failure(accepts, |Concat(posted)|)
    ensures Concat(posted) <= text
  {
    fail := Failure(0, 0);
    posted := [];
    if max == 0 { return false, posted, fail; }
    var cursor := text;
    while cursor != ""
      invariant Sent(text, max, cursor, posted) && |posted| <= accepts
      decreases |cursor|
    {
      var n := OutboundChunkLen(cursor, max);
      SentAdvances(text, max, cursor, posted);
      SentIsPrefix(text, max, cursor, posted);
      if |posted| == accepts {
        return false, posted, Failure(|posted|, |text| - |cursor|);
      }
      posted := posted + [cursor[..n]];
      cursor := cursor[n..];
    }
    SentIsPrefix(text, max, cursor, posted);
    ok := true;
  }
}
