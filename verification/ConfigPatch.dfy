/**
 * In-place patching of a TOML file (src/core/config_patch.c): find the section, find the
 * key's line in it, and splice the new line in.
 */
module ConfigPatch {
  import opened Text

  // --------------------------------------------------------------------- lines

  /** Length of the first line, its newline included. */
  function LineLen(s: string): (n: nat)
    ensures n <= |s| && (s != "" ==> n > 0)
  {
    if Find(s, '\n') < |s| then Find(s, '\n') + 1 else |s|
  }

  function FirstLine(s: string): (l: string)
  {
    s[..LineLen(s)]
  }

  function Rest(s: string): (t: string)
    ensures s != "" ==> |t| < |s|
  {
    s[LineLen(s)..]
  }

  /** Text made of whole lines. */
  predicate WholeLines(s: string)
  {
    s == "" || s[|s| - 1] == '\n'
  }

  /** One line with its newline. */
  predicate OneLine(l: string)
  {
    l != "" && Find(l, '\n') == |l| - 1
  }

  lemma {:induction false} LineConcat(l: string, s: string)
    requires OneLine(l)
    ensures FirstLine(l + s) == l && Rest(l + s) == s && LineLen(l + s) == |l|
  {
    assert forall i :: 0 <= i < |l| ==> (l + s)[i] == l[i];
    FindIs(l + s, '\n', |l| - 1);
  }

  lemma {:induction false} WholeLinesSplit(s: string)
    requires WholeLines(s) && s != ""
    ensures OneLine(FirstLine(s)) && WholeLines(Rest(s))
  {
    var k := Find(s, '\n');
    FindIs(FirstLine(s), '\n', k);
  }

  lemma {:induction false} WholeLinesConcat(a: string, b: string)
    requires WholeLines(a) && WholeLines(b)
    ensures WholeLines(a + b)
  {
    if b == "" { assert a + b == a; }
  }

  /** A last line without its newline. */
  predicate Unterminated(b: string)
  {
    b != "" && forall i :: 0 <= i < |b| ==> b[i] != '\n'
  }

  /** The first line of a text with a newline in it, and the rest. */
  lemma {:induction false} SplitAny(a: string, s: string)
    requires a != "" && !Unterminated(a)
    ensures var l, r := FirstLine(a), Rest(a);
            && OneLine(l) && |r| == |a| - |l| && a == l + r && a + s == l + (r + s)
            && (WholeLines(a) <==> WholeLines(r))
  {
    var k := Find(a, '\n');
    assert k < |a|;
    FindIs(FirstLine(a), '\n', k);
    hide Find;
    var r := Rest(a);
    if r != "" { assert r[|r| - 1] == a[|a| - 1]; }
  }

  lemma {:induction false} LoneLine(b: string)
    requires Unterminated(b)
    ensures FirstLine(b) == b && Rest(b) == "" && LineLen(b) == |b|
    ensures OneLine(b + "\n")
  {
    FindIs(b, '\n', |b|);
    FindIs(b + "\n", '\n', |b|);
  }

  /** A line put behind an unterminated one makes one line of both. */
  lemma {:induction false} GluedLine(b: string, line: string)
    requires Unterminated(b) && OneLine(line)
    ensures OneLine(b + line)
  {
    FindIs(b + line, '\n', |b| + |line| - 1);
  }

  // ------------------------------------------------------------ sections and keys

  /** Length without trailing white space. */
  function TrimmedLen(s: string): (n: nat)
    ensures n <= |s| && (n > 0 ==> !IsSpace(s[n - 1]))
    ensures forall i :: n <= i < |s| ==> IsSpace(s[i])
  {
    if s == "" || !IsSpace(s[|s| - 1]) then |s| else TrimmedLen(s[..|s| - 1])
  }

  const MARKER_MAX := 127

  /** The header searched for, cut to its buffer. */
  function Marker(section: string): (m: string)
    ensures m != "" && m[0] == '[' && |m| <= MARKER_MAX
  {
    var m := "[" + section + "]";
    if |m| <= MARKER_MAX then m else m[..MARKER_MAX]
  }

  /** Behind the closing bracket only blanks, a comment or the end of the line may follow. */
  predicate HeaderClosed(t: string)
  {
    var k := BlankRun(t);
    k == |t| || t[k] == '#' || t[k] == '\r' || t[k] == '\n'
  }

  /** The text at a line start opens the section. */
  predicate OpensWith(s: string, section: string)
  {
    Marker(section) <= s && HeaderClosed(s[|Marker(section)|..])
  }

  /** The line assigns the key: blanks, the key, blanks, an equals sign. */
  predicate Assigns(line: string, key: string)
  {
    var body := line[BlankRun(line)..];
    && TrimmedLen(body) > |key| && key <= body
    && var rest := body[|key|..];
       BlankRun(rest) < |rest| && rest[BlankRun(rest)] == '='
  }

  function Chop(l: string): (s: string)
  {
    if l != "" && l[|l| - 1] == '\n' then l[..|l| - 1] else l
  }

  /** Offset of the first section header. */
  function SectionAt(s: string, section: string): (k: Option<nat>)
    ensures k.Some? ==> k.value < |s|
    decreases |s|
  {
    if s == "" then None
    else if OpensWith(s, section) then Some(0)
    else
      var r := SectionAt(Rest(s), section);
      if r.None? then None else Some(LineLen(s) + r.value)
  }

  /** Length of the lines before the first that begins with a bracket. */
  function BodyLen(s: string): (n: nat)
    ensures n <= |s| && (n < |s| ==> s[n] == '[')
    decreases |s|
  {
    hide Find;
    if s == "" || s[0] == '[' then 0
    else
      var t := Rest(s);
      assert forall i :: 0 <= i < |t| ==> t[i] == s[LineLen(s) + i];
      LineLen(s) + BodyLen(t)
  }

  /** Offset and length of the first line that assigns the key. */
  datatype Span = Span(off: nat, len: nat)

  function KeyLineAt(s: string, key: string): (r: Option<Span>)
    ensures r.Some? ==> r.value.off + r.value.len <= |s|
    decreases |s|
  {
    if s == "" then None
    else if Assigns(Chop(FirstLine(s)), key) then Some(Span(0, LineLen(s)))
    else
      var r := KeyLineAt(Rest(s), key);
      if r.None? then None else Some(Span(LineLen(s) + r.value.off, r.value.len))
  }

  /** The section's text, from its header to the next line that begins with a bracket. */
  function SectionText(s: string, section: string): (r: Option<string>)
  {
    var k := SectionAt(s, section);
    if k.None? then None else Some(HeadText(s[k.value..]))
  }

  /** The first line and the lines behind it that do not begin with a bracket. */
  function HeadText(t: string): (r: string)
    ensures |r| <= |t|
  {
    t[..LineLen(t) + BodyLen(Rest(t))]
  }

  /** The line found for a key in a section's text, without its newline. */
  function KeyLine(t: string, key: string): (line: Option<string>)
  {
    var k := KeyLineAt(t, key);
    if k.None? then None else Some(Chop(t[k.value.off..k.value.off + k.value.len]))
  }

  /** The line the code finds for a key. */
  function Lookup(s: string, section: string, key: string): (line: Option<string>)
  {
    var t := SectionText(s, section);
    if t.None? then None else KeyLine(t.value, key)
  }

  // --------------------------------------------------------------------- the patch

  function Assignment(key: string, value: string): (l: string)
  {
    key + " = " + value + "\n"
  }

  function Appended(section: string, key: string, value: string): (t: string)
  {
    "\n" + ("[" + section + "]\n") + Assignment(key, value)
  }

  function Spliced(s: string, off: nat, len: nat, insert: string): (r: string)
    requires off + len <= |s|
  {
    s[..off] + insert + s[off + len..]
  }

  /** The patched text; None when a line is too long for its buffer. */
  function Patch(s: string, section: string, key: string, value: string): (r: Option<string>)
  {
    var l := Assignment(key, value);
    if |l| >= 512 then None
    else
      var k := SectionAt(s, section);
      if k.None? then
        if |Appended(section, key, value)| >= 768 then None else Some(s + Appended(section, key, value))
      else
        var t := SectionText(s, section).value;
        var at := KeyLineAt(t, key);
        if at.None? then Some(Spliced(s, k.value + |t|, 0, l))
        else Some(Spliced(s, k.value + at.value.off, at.value.len, l))
  }

  /**
   * Exactly when a patch fits its buffers, and what it changes: a new section at the end, or one line
   * of the section replaced, or one put behind its text; everything before and behind stays.
   */
  lemma {:induction false} PatchExactly(s: string, section: string, key: string, value: string)
    ensures var r, line, at := Patch(s, section, key, value), key + " = " + value + "\n", SectionAt(s, section);
            && (r.Some? <==> |key| + |value| + 4 < 512
                             && (at.Some? || |section| + |key| + |value| + 8 < 768))
            && (r.Some? && at.None? ==> r.value == s + ("\n[" + section + "]\n" + line))
            && (r.Some? && at.Some? ==>
                  var t := SectionText(s, section).value;
                  var k := KeyLineAt(t, key);
                  var off := at.value + if k.Some? then k.value.off else |t|;
                  var len := if k.Some? then k.value.len else 0;
                  r.value == s[..off] + line + s[off + len..])
  {
    hide SectionAt, KeyLineAt, SectionText;
    assert "\n" + ("[" + section + "]\n") + Assignment(key, value) ==
      "\n[" + section + "]\n" + (key + " = " + value + "\n");
  }

  // ------------------------------------------------------------------- the scans

  /** `q` is a line start or the end, and no line starts between `p` and it. */
  ghost predicate NextLineStart(content: string, p: nat, q: nat)
  {
    && p <= q <= |content|
    && (p < q ==> p > 0 && forall i :: p - 1 <= i < q - 1 ==> content[i] != '\n')
    && (q < |content| && q > 0 ==> content[q - 1] == '\n')
  }

  lemma {:induction false} NextLine(content: string, q: nat)
    requires q < |content|
    ensures var n := LineLen(content[q..]);
            && n > 0 && NextLineStart(content, q + 1, q + n)
            && Rest(content[q..]) == content[q + n..]
  {
    var s := content[q..];
    assert forall i :: 0 <= i < |s| ==> s[i] == content[q + i];
    assert forall i :: q <= i < q + LineLen(s) - 1 ==> content[i] == s[i - q];
  }

  function Shifted(r: Option<nat>, dist: nat): (t: Option<nat>)
  {
    if r.None? then None else Some(dist + r.value)
  }

  lemma {:induction false} SectionStep(content: string, q: nat, section: string)
    requires q < |content| && !OpensWith(content[q..], section)
    ensures Shifted(SectionAt(content[q..], section), q)
         == Shifted(SectionAt(content[q + LineLen(content[q..])..], section), q + LineLen(content[q..]))
  {
    hide OpensWith, LineLen;
    NextLine(content, q);
  }

  /** Tests every position, and line starts by the byte before. */
  method FindSection(content: string, section: string) returns (off: Option<nat>)
    ensures off == SectionAt(content, section)
  {
    hide OpensWith, LineLen;
    var p := 0;
    ghost var q: nat := 0;
    assert content[0..] == content;
    while p < |content|
      invariant NextLineStart(content, p, q)
      invariant SectionAt(content, section) == Shifted(SectionAt(content[q..], section), q)
    {
      if OpensWith(content[p..], section) && (p == 0 || content[p - 1] == '\n') { return Some(p); }
      if p == q {
        NextLine(content, q);
        SectionStep(content, q, section);
        q := q + LineLen(content[q..]);
      }
      p := p + 1;
    }
    off := None;
  }

  lemma {:induction false} BodyStep(content: string, q: nat)
    requires q < |content| && content[q] != '['
    ensures q + BodyLen(content[q..]) == q + LineLen(content[q..]) + BodyLen(content[q + LineLen(content[q..])..])
  {
    hide LineLen;
    NextLine(content, q);
  }

  /** From the end of the header line, the next line start that holds a bracket. */
  method SectionEnd(content: string, start: nat) returns (end: nat)
    requires start < |content|
    ensures end == start + LineLen(content[start..]) + BodyLen(content[start + LineLen(content[start..])..])
  {
    hide LineLen, BodyLen;
    NextLine(content, start);
    ghost var first: nat := start + LineLen(content[start..]);
    ghost var q: nat := first;
    var p := start + 1;
    while p < |content|
      invariant p > 0 && NextLineStart(content, p, q)
      invariant q + BodyLen(content[q..]) == first + BodyLen(content[first..])
    {
      if content[p] == '[' && content[p - 1] == '\n' {
        BodyHere(content, p);
        return p;
      }
      if p == q {
        BodyStep(content, q);
        NextLine(content, q);
        q := q + LineLen(content[q..]);
      }
      p := p + 1;
    }
    end := |content|;
    BodyAtEnd(content);
  }

  lemma {:induction false} BodyHere(content: string, p: nat)
    requires p < |content| && content[p] == '['
    ensures BodyLen(content[p..]) == 0
  {
  }

  lemma {:induction false} BodyAtEnd(content: string)
    ensures BodyLen(content[|content|..]) == 0
  {
  }

  function ShiftedSpan(r: Option<Span>, dist: nat): (t: Option<Span>)
  {
    if r.None? then None else Some(Span(dist + r.value.off, r.value.len))
  }

  /** Line by line through the section. */
  method FindKeyLine(text: string, key: string) returns (r: Option<Span>)
    ensures r == KeyLineAt(text, key)
  {
    hide Assigns, LineLen, Chop;
    var p := 0;
    assert text[0..] == text;
    while p < |text|
      invariant p <= |text|
      invariant KeyLineAt(text, key) == ShiftedSpan(KeyLineAt(text[p..], key), p)
      decreases |text| - p
    {
      var n := LineLen(text[p..]);
      NextLine(text, p);
      if Assigns(Chop(FirstLine(text[p..])), key) { return Some(Span(p, n)); }
      p := p + n;
    }
    r := None;
  }

  /** The source's order: build the line, find section, end and key, then splice. */
  method PatchKeyLine(content: string, section: string, key: string, value: string) returns (r: Option<string>)
    ensures r == Patch(content, section, key, value)
  {
    hide OpensWith, LineLen, BodyLen, KeyLineAt, Assignment, Appended;
    var l := Assignment(key, value);
    if |l| >= 512 { return None; }
    var sec := FindSection(content, section);
    if sec.None? {
      var extra := Appended(section, key, value);
      if |extra| >= 768 { return None; }
      return Some(content + extra);
    }
    var end := SectionEnd(content, sec.value);
    var t := content[sec.value..];
    NextLine(content, sec.value);
    var text := content[sec.value..end];
    assert text == HeadText(t);
    hide SectionAt;
    var at := FindKeyLine(text, key);
    if at.None? { return Some(Spliced(content, end, 0, l)); }
    r := Some(Spliced(content, sec.value + at.value.off, at.value.len, l));
  }

  // ------------------------------------------------------------- plain arguments

  /** A section name that cannot close its own bracket or its line. */
  predicate PlainName(section: string)
  {
    forall i :: 0 <= i < |section| ==> section[i] != ']' && section[i] != '\n'
  }

  /** The name's header fits the buffer it is searched with. */
  predicate Fits(section: string)
  {
    |section| + 2 <= MARKER_MAX
  }

  /** A bare key: no blanks, no equals sign, and not a section header. */
  predicate PlainKey(key: string)
  {
    key != "" && key[0] != '[' && forall i :: 0 <= i < |key| ==> !IsSpace(key[i]) && key[i] != '='
  }

  predicate PlainValue(value: string)
  {
    forall i :: 0 <= i < |value| ==> value[i] != '\n'
  }

  lemma {:induction false} BlankRunIs(s: string, k: nat)
    requires k <= |s| && (k < |s| ==> !IsBlank(s[k])) && forall i :: 0 <= i < k ==> IsBlank(s[i])
    ensures BlankRun(s) == k
  {
    var n := BlankRun(s);
    assert n < |s| ==> !IsBlank(s[n]);
  }

  /** The new line assigns its key, is one line, and is no header. */
  lemma {:induction false} AssignmentAssigns(key: string, value: string)
    requires PlainKey(key) && PlainValue(value)
    ensures var l := Assignment(key, value);
            OneLine(l) && l[0] != '[' && Assigns(Chop(l), key) && Chop(l) == key + " = " + value
  {
    var l := Assignment(key, value);
    var c := key + " = " + value;
    assert l == c + "\n";
    assert Chop(l) == c;
    FindIs(l, '\n', |c|);
    BlankRunIs(c, 0);
    assert c[0..] == c;
    assert c[|key| + 1] == '=' && TrimmedLen(c) > |key|;
    var rest := c[|key|..];
    assert rest[0] == ' ' && rest[1] == '=';
    BlankRunIs(rest, 1);
  }

  /** A line assigns at most one plain key. */
  lemma {:induction false} AssignsOne(line: string, key: string, other: string)
    requires PlainKey(key) && PlainKey(other) && Assigns(line, key) && Assigns(line, other)
    ensures key == other
  {
    var body := line[BlankRun(line)..];
    hide TrimmedLen;
    if |key| < |other| {
      AssignsShorter(body, key, other);
    } else if |other| < |key| {
      AssignsShorter(body, other, key);
    }
  }

  lemma {:induction false} AssignsShorter(body: string, key: string, other: string)
    requires PlainKey(other) && |key| < |other| && key <= body && other <= body
    requires BlankRun(body[|key|..]) < |body| - |key|
    ensures body[|key|..][BlankRun(body[|key|..])] != '='
  {
    var rest := body[|key|..];
    assert rest[0] == body[|key|] == other[|key|];
    BlankRunIs(rest, 0);
  }

  /** A header line assigns no plain key. */
  lemma {:induction false} HeaderAssignsNothing(line: string, key: string)
    requires PlainKey(key) && line != "" && line[0] == '['
    ensures !Assigns(line, key)
  {
    BlankRunIs(line, 0);
    hide TrimmedLen;
  }

  ghost predicate Blanks(s: string)
  {
    forall i :: 0 <= i < |s| ==> s[i] == ' ' || s[i] == '\t'
  }

  /** What may stand behind a header and its blanks: nothing, a comment, or the end of the line. */
  predicate Closes(rest: string)
  {
    rest == "" || rest[0] == '#' || rest[0] == '\r' || rest[0] == '\n'
  }

  /** The text begins with the header, blanks, and what may stand behind them. */
  ghost predicate HeaderText(s: string, section: string, blanks: string, rest: string)
  {
    s == "[" + section + "]" + (blanks + rest) && Blanks(blanks) && Closes(rest)
  }

  /** A text opens a section whose name fits exactly when it begins with its header and a proper end. */
  lemma {:induction false} OpensExactly(s: string, section: string)
    requires Fits(section)
    ensures OpensWith(s, section) <==> exists blanks, rest :: HeaderText(s, section, blanks, rest)
  {
    var m := "[" + section + "]";
    assert Marker(section) == m;
    if OpensWith(s, section) {
      var t := s[|m|..];
      var k := BlankRun(t);
      assert s == m + t && t == t[..k] + t[k..];
      assert HeaderText(s, section, t[..k], t[k..]);
    }
    forall blanks, rest | HeaderText(s, section, blanks, rest) ensures OpensWith(s, section) {
      var t := blanks + rest;
      assert s[|m|..] == t;
      assert |blanks| < |t| ==> t[|blanks|] == rest[0];
      BlankRunIs(t, |blanks|);
    }
  }

  /** The line is blanks, the key, blanks, an equals sign, and the rest. */
  ghost predicate AssignmentText(line: string, a: string, key: string, b: string, rest: string)
  {
    line == a + (key + (b + ("=" + rest))) && Blanks(a) && Blanks(b)
  }

  /** A line assigns a plain key exactly when it reads so. */
  lemma {:induction false} AssignsExactly(line: string, key: string)
    requires PlainKey(key)
    ensures Assigns(line, key) <==> exists a, b, rest :: AssignmentText(line, a, key, b, rest)
  {
    if Assigns(line, key) { AssignsReads(line, key); }
    forall a, b, rest | AssignmentText(line, a, key, b, rest) ensures Assigns(line, key) {
      ReadsAssigns(line, a, key, b, rest);
    }
  }

  lemma {:induction false} AssignsReads(line: string, key: string)
    requires Assigns(line, key)
    ensures exists a, b, rest :: AssignmentText(line, a, key, b, rest)
  {
    var k, t, n := AssignsParts(line, key);
    hide Assigns, Blanks;
    CutLine(line, k, key, t, n);
    assert AssignmentText(line, line[..k], key, t[..n], t[n + 1..]);
  }

  lemma {:induction false} AssignsParts(line: string, key: string) returns (k: nat, t: string, n: nat)
    requires Assigns(line, key)
    ensures k <= |line| && line[k..] == key + t && n < |t| && t[n] == '=' && Blanks(line[..k]) && Blanks(t[..n])
  {
    k := BlankRun(line);
    var body := line[k..];
    t := body[|key|..];
    n := BlankRun(t);
    hide TrimmedLen, BlankRun;
    assert body == body[..|key|] + t;
  }

  lemma {:induction false} CutLine(line: string, k: nat, key: string, t: string, n: nat)
    requires k <= |line| && line[k..] == key + t && n < |t| && t[n] == '='
    ensures line == line[..k] + (key + (t[..n] + ("=" + t[n + 1..])))
  {
    assert t == t[..n] + ("=" + t[n + 1..]);
    assert line == line[..k] + line[k..];
  }

  lemma {:induction false} ReadsAssigns(line: string, a: string, key: string, b: string, rest: string)
    requires PlainKey(key) && AssignmentText(line, a, key, b, rest)
    ensures Assigns(line, key)
  {
    var t := b + ("=" + rest);
    var body := key + t;
    assert t[|b|] == '=' && body[|key|..] == t && body[|key| + |b|] == '=';
    assert line == a + body && line[|a|..] == body && line[|a|] == key[0];
    hide TrimmedLen, AssignmentText;
    BlankRunIs(line, |a|);
    BlankRunIs(t, |b|);
    TrimmedKeeps(body, |key| + |b|);
  }

  lemma {:induction false} TrimmedKeeps(s: string, k: nat)
    requires k < |s| && !IsSpace(s[k])
    ensures TrimmedLen(s) > k
  {
    var n := TrimmedLen(s);
  }

  // ---------------------------------------------------------- line by line

  lemma {:induction false} PrefixStopsBefore(m: string, w: string, k: nat)
    requires m <= w && k < |w| && w[k] == '\n' && forall i :: 0 <= i < |m| ==> m[i] != '\n'
    ensures |m| <= k
  {
    assert forall i :: 0 <= i < |m| ==> m[i] == w[i];
  }

  /** Whether a line opens a section depends on that line alone. */
  lemma {:induction false} OpensLocally(l: string, s: string, section: string)
    requires OneLine(l) && PlainName(section)
    ensures OpensWith(l + s, section) <==> OpensWith(l, section)
    ensures OpensWith(l, section) ==> l[0] == '['
  {
    var m, w := Marker(section), l + s;
    assert forall i :: 0 <= i < |l| ==> w[i] == l[i];
    assert forall i :: 0 <= i < |m| ==> m[i] != '\n';
    assert w[|l| - 1] == '\n';
    if m <= w { PrefixStopsBefore(m, w, |l| - 1); }
    if m <= l {
      PrefixStopsBefore(m, l, |l| - 1);
      var t, u := l[|m|..], w[|m|..];
      assert t[|t| - 1] == '\n' && !IsBlank('\n');
      var k := BlankRun(t);
      assert k < |t|;
      assert forall i :: 0 <= i < |t| ==> u[i] == t[i];
      BlankRunIs(u, k);
    }
    if m <= w { assert m <= l by { assert l == w[..|l|]; } }
  }

  lemma {:induction false} OpensOne(l: string, a: string, b: string)
    requires PlainName(a) && PlainName(b) && Fits(a) && Fits(b) && OpensWith(l, a) && OpensWith(l, b)
    ensures a == b
  {
    NameRead(l, a);
    NameRead(l, b);
  }

  /** The name can be read back from the line it opens. */
  lemma {:induction false} NameRead(l: string, name: string)
    requires PlainName(name) && Fits(name) && OpensWith(l, name)
    ensures Find(l, ']') == |name| + 1 && l[1..Find(l, ']')] == name
  {
    var m := Marker(name);
    assert forall i :: 0 <= i < |m| ==> l[i] == m[i];
    FindIs(l, ']', |name| + 1);
  }

  lemma {:induction false} SectionAtNext(w: string, section: string)
    requires w != ""
    ensures SectionAt(w, section) ==
              if OpensWith(w, section) then Some(0) else Shifted(SectionAt(Rest(w), section), LineLen(w))
  {
    hide OpensWith, LineLen, Rest;
  }

  lemma {:induction false} SectionAtLine(l: string, s: string, section: string)
    requires OneLine(l) && PlainName(section)
    ensures SectionAt(l + s, section) == if OpensWith(l, section) then Some(0) else Shifted(SectionAt(s, section), |l|)
  {
    assert l + s != "";
    hide *;
    LineConcat(l, s);
    OpensLocally(l, s, section);
    SectionAtNext(l + s, section);
  }

  lemma {:induction false} HeadTextLine(l: string, s: string)
    requires OneLine(l)
    ensures HeadText(l + s) == l + s[..BodyLen(s)]
  {
    LineConcat(l, s);
    hide LineLen, BodyLen;
  }

  /** Text of a section in a file that begins with the line `l`. */
  lemma {:induction false} SectionTextLine(l: string, s: string, section: string)
    requires OneLine(l) && PlainName(section)
    ensures SectionText(l + s, section) ==
              if OpensWith(l, section) then Some(l + s[..BodyLen(s)]) else SectionText(s, section)
  {
    hide OpensWith, LineLen, BodyLen, SectionAt, HeadText;
    SectionAtLine(l, s, section);
    HeadTextLine(l, s);
    var w := l + s;
    if OpensWith(l, section) {
      assert w[0..] == w;
    } else if SectionAt(s, section).Some? {
      var k := SectionAt(s, section).value;
      assert w[|l| + k..] == s[k..];
    }
  }

  lemma {:induction false} SplitLine(a: string, s: string)
    requires WholeLines(a) && a != ""
    ensures OneLine(FirstLine(a)) && WholeLines(Rest(a)) && |Rest(a)| == |a| - |FirstLine(a)|
    ensures a == FirstLine(a) + Rest(a) && a + s == FirstLine(a) + (Rest(a) + s)
  {
    WholeLinesSplit(a);
    hide Find;
  }

  /** The lines of a text before another: no header among them, so the search goes on behind. */
  lemma {:induction false} SectionBehind(a: string, s: string, section: string)
    requires WholeLines(a) && PlainName(section) && SectionAt(a, section).None?
    ensures SectionAt(a + s, section) == Shifted(SectionAt(s, section), |a|)
    ensures SectionText(a + s, section) == SectionText(s, section)
    decreases |a|
  {
    hide OpensWith, LineLen, SectionAt, SectionText, FirstLine, Rest, OneLine, WholeLines, PlainName;
    if a == "" {
      assert a + s == s;
    } else {
      SplitLine(a, s);
      var l, r := FirstLine(a), Rest(a);
      SectionAtLine(l, r, section);
      SectionAtLine(l, r + s, section);
      SectionTextLine(l, r + s, section);
      SectionBehind(r, s, section);
    }
  }

  lemma {:induction false} BodyLine(l: string, s: string)
    requires OneLine(l) && l[0] != '['
    ensures BodyLen(l + s) == |l| + BodyLen(s)
  {
    LineConcat(l, s);
    hide LineLen;
  }

  /** `a` holds no line that begins with a bracket. */
  predicate NoBrackets(a: string)
  {
    BodyLen(a) == |a|
  }

  lemma {:induction false} BodyConcat(a: string, s: string)
    requires WholeLines(a)
    ensures BodyLen(a + s) == if NoBrackets(a) then |a| + BodyLen(s) else BodyLen(a)
    ensures !NoBrackets(a) ==> BodyLen(a) < |a|
    decreases |a|
  {
    if a == "" {
      assert a + s == s;
    } else {
      WholeLinesSplit(a);
      var l, r := FirstLine(a), Rest(a);
      assert a == l + r && a + s == l + (r + s);
      if l[0] != '[' {
        BodyLine(l, r);
        BodyLine(l, r + s);
        hide LineLen, BodyLen;
        BodyConcat(r, s);
      } else {
        assert (a + s)[0] == '[';
      }
    }
  }

  /** Lines without brackets open no section. */
  lemma {:induction false} NoBracketsNoSection(a: string, section: string)
    requires NoBrackets(a) && PlainName(section)
    ensures SectionAt(a, section).None?
    decreases |a|
  {
    if Unterminated(a) {
      LoneLineScans(a, section, "");
      OpensUnterminated(a, section);
    } else if a != "" {
      SplitAny(a, "");
      var l, r := FirstLine(a), Rest(a);
      assert a == l + r;
      BodyConcat(l, r);
      assert l[0] == a[0] != '[';
      BodyLine(l, r);
      SectionAtLine(l, r, section);
      OpensLocally(l, r, section);
      hide OpensWith, LineLen, BodyLen, SectionAt;
      NoBracketsNoSection(r, section);
    }
  }

  /** A section that lies in the lines before a bracket ends before it. */
  lemma {:induction false} SectionBefore(a: string, s: string, section: string)
    requires WholeLines(a) && PlainName(section) && SectionAt(a, section).Some?
    requires s == "" || s[0] == '['
    ensures SectionText(a + s, section) == SectionText(a, section)
    decreases |a|
  {
    hide LineLen, SectionText, FirstLine, Rest, OneLine, OpensWith, PlainName;
    assert a != "";
    SplitLine(a, s);
    var l, r := FirstLine(a), Rest(a);
    SectionAtLine(l, r, section);
    SectionTextLine(l, r, section);
    SectionTextLine(l, r + s, section);
    hide SectionAt;
    if OpensWith(l, section) {
      assert BodyLen(s) == 0;
      hide BodyLen, WholeLines;
      BodyConcat(r, s);
      assert (r + s)[..BodyLen(r)] == r[..BodyLen(r)];
    } else {
      hide BodyLen, WholeLines;
      SectionBefore(r, s, section);
    }
  }

  // ------------------------------------------------------------- keys in a section

  lemma {:induction false} KeyLineAtLine(l: string, s: string, key: string)
    requires OneLine(l)
    ensures KeyLineAt(l + s, key) ==
              if Assigns(Chop(l), key) then Some(Span(0, |l|)) else ShiftedSpan(KeyLineAt(s, key), |l|)
  {
    LineConcat(l, s);
    hide Assigns, LineLen, Chop;
  }

  lemma {:induction false} SliceShift(l: string, s: string, i: nat, j: nat)
    requires i <= j <= |s|
    ensures (l + s)[|l| + i..|l| + j] == s[i..j]
  {
  }

  lemma {:induction false} KeyLineFirst(l: string, s: string, key: string)
    requires OneLine(l)
    ensures KeyLine(l + s, key) == if Assigns(Chop(l), key) then Some(Chop(l)) else KeyLine(s, key)
  {
    hide Assigns, KeyLineAt, OneLine, Chop;
    KeyLineAtLine(l, s, key);
    if Assigns(Chop(l), key) {
      assert (l + s)[0..|l|] == l;
    } else if KeyLineAt(s, key).Some? {
      var k := KeyLineAt(s, key).value;
      SliceShift(l, s, k.off, k.off + k.len);
    }
  }

  /** A single line as a text of its own. */
  lemma {:induction false} LineAlone(line: string, key: string)
    requires OneLine(line)
    ensures KeyLine(line, key) == if Assigns(Chop(line), key) then Some(Chop(line)) else None
  {
    assert KeyLine("", key).None?;
    hide Assigns, Chop, KeyLine;
    KeyLineFirst(line, "", key);
    assert line + "" == line;
  }

  lemma {:induction false} LineHasNoBracket(line: string)
    requires OneLine(line) && line[0] != '['
    ensures NoBrackets(line) && WholeLines(line)
  {
    BodyLine(line, "");
    assert line + "" == line;
  }

  /** The first line that assigns the key, in `a` or else in what follows. */
  lemma {:induction false} KeyLineConcat(a: string, s: string, key: string)
    requires WholeLines(a)
    ensures KeyLine(a + s, key) == if KeyLine(a, key).Some? then KeyLine(a, key) else KeyLine(s, key)
    decreases |a|
  {
    if a == "" {
      assert a + s == s;
      assert KeyLine("", key).None?;
    } else {
      hide Assigns, LineLen, KeyLine, OneLine, FirstLine, Rest, Chop, WholeLines;
      SplitLine(a, s);
      var l, r := FirstLine(a), Rest(a);
      KeyLineFirst(l, r, key);
      KeyLineFirst(l, r + s, key);
      KeyLineConcat(r, s, key);
    }
  }

  /** A line that is replaced: a whole one, or the last one without its newline. */
  predicate OldLine(old_: string, c: string)
  {
    OneLine(old_) || (Unterminated(old_) && c == "")
  }

  /** The key's line cuts a text in three, and nothing before it assigns the key. */
  lemma {:induction false} KeyLineCut(t: string, key: string) returns (a: string, old_: string, c: string)
    requires KeyLineAt(t, key).Some?
    ensures t == a + old_ + c && KeyLineAt(t, key) == Some(Span(|a|, |old_|))
    ensures WholeLines(a) && OldLine(old_, c) && (WholeLines(t) ==> WholeLines(c))
    ensures KeyLine(a, key).None? && Assigns(Chop(old_), key)
    decreases |t|
  {
    hide Assigns, LineLen, FirstLine, Rest, OneLine, WholeLines, OldLine, KeyLine, Unterminated;
    NothingFound(key);
    NothingAtAll("");
    if Unterminated(t) {
      LoneLineScans(t, "", key);
      LastIsOld(t);
      a, old_, c := "", t, "";
    } else {
      assert t != "";
      SplitAny(t, "");
      var l, r := FirstLine(t), Rest(t);
      hide Chop;
      KeyLineAtLine(l, r, key);
      if Assigns(Chop(l), key) {
        WholeIsOld(l, r);
        a, old_, c := "", l, r;
      } else {
        hide KeyLineAt;
        var a';
        a', old_, c := KeyLineCut(r, key);
        a := l + a';
        KeyLineFirst(l, a', key);
        LineIsWhole(l);
        WholeLinesConcat(l, a');
        assert l + (a' + old_ + c) == a + old_ + c;
      }
    }
  }

  /** The old line and what follows it. */
  lemma {:induction false} OldLineFirst(old_: string, c: string, key: string)
    requires OldLine(old_, c)
    ensures KeyLine(old_ + c, key) == if Assigns(Chop(old_), key) then Some(Chop(old_)) else KeyLine(c, key)
  {
    hide Assigns, KeyLine;
    if OneLine(old_) {
      KeyLineFirst(old_, c, key);
    } else {
      hide OneLine;
      LoneLineScans(old_, "", key);
      NothingFound(key);
      assert old_ + c == old_ && Chop(old_) == old_;
    }
  }

  lemma {:induction false} NothingFound(key: string)
    ensures KeyLine("", key).None?
  {
  }

  lemma {:induction false} OldLineBody(old_: string, c: string)
    requires OldLine(old_, c) && NoBrackets(old_ + c)
    ensures NoBrackets(c)
  {
    if OneLine(old_) {
      WholeIfOne(old_);
      BodyConcat(old_, c);
    }
  }

  /** The section's body with the line put in: in place of the key's line, or at the end. */
  function PutLine(t: string, key: string, line: string): (r: string)
  {
    var at := KeyLineAt(t, key);
    if at.None? then t + line else Spliced(t, at.value.off, at.value.len, line)
  }

  /** The line does not end up behind one without a newline. */
  predicate CanPut(t: string, key: string)
  {
    WholeLines(t) || KeyLineAt(t, key).Some?
  }

  /** What putting the line in does to lookups in the same section. */
  lemma {:induction false} PutLineLooksUp(t: string, key: string, line: string)
    requires CanPut(t, key) && NoBrackets(t) && PlainKey(key)
    requires OneLine(line) && line[0] != '[' && Assigns(Chop(line), key)
    ensures var r := PutLine(t, key, line);
            && (WholeLines(t) ==> WholeLines(r)) && NoBrackets(r)
            && KeyLine(r, key) == Some(Chop(line))
            && forall other :: PlainKey(other) && other != key ==> KeyLine(r, other) == KeyLine(t, other)
  {
    hide KeyLine, BodyLen, Chop, OneLine, Assigns, PlainKey, WholeLines, NoBrackets, OldLine;
    LineHasNoBracket(line);
    if KeyLineAt(t, key).None? {
      forall k ensures KeyLine(line, k) == if Assigns(Chop(line), k) then Some(Chop(line)) else None {
        LineAlone(line, k);
      }
      PutAtEnd(t, key, line);
    } else {
      var a, old_, c := KeyLineCut(t, key);
      assert PutLine(t, key, line) == a + line + c;
      PutInPlace(a, old_, c, key, line);
    }
  }

  lemma {:induction false} PutAtEnd(t: string, key: string, line: string)
    requires WholeLines(t) && NoBrackets(t) && PlainKey(key) && KeyLineAt(t, key).None?
    requires WholeLines(line) && NoBrackets(line) && Assigns(Chop(line), key)
    requires forall k :: KeyLine(line, k) == if Assigns(Chop(line), k) then Some(Chop(line)) else None
    ensures WholeLines(t + line) && NoBrackets(t + line)
    ensures KeyLine(t + line, key) == Some(Chop(line))
    ensures forall other :: PlainKey(other) && other != key ==> KeyLine(t + line, other) == KeyLine(t, other)
  {
    assert KeyLine(t, key).None?;
    hide KeyLine, Chop, Assigns, PlainKey;
    WholeLinesConcat(t, line);
    BodyConcat(t, line);
    KeyLineConcat(t, line, key);
    forall other | PlainKey(other) && other != key ensures KeyLine(t + line, other) == KeyLine(t, other) {
      KeyLineConcat(t, line, other);
      if Assigns(Chop(line), other) { AssignsOne(Chop(line), key, other); }
    }
  }

  lemma {:induction false} PutInPlace(a: string, old_: string, c: string, key: string, line: string)
    requires WholeLines(a) && OldLine(old_, c) && NoBrackets(a + old_ + c) && PlainKey(key)
    requires KeyLine(a, key).None? && Assigns(Chop(old_), key)
    requires OneLine(line) && WholeLines(line) && NoBrackets(line) && Assigns(Chop(line), key)
    ensures (WholeLines(c) ==> WholeLines(a + line + c)) && NoBrackets(a + line + c)
    ensures KeyLine(a + line + c, key) == Some(Chop(line))
    ensures forall other :: PlainKey(other) && other != key ==>
              KeyLine(a + line + c, other) == KeyLine(a + old_ + c, other)
  {
    hide KeyLine, Chop, Assigns, PlainKey, BodyLen, OldLine;
    assert a + line + c == a + (line + c) && a + old_ + c == a + (old_ + c);
    if WholeLines(c) {
      WholeLinesConcat(line, c);
      WholeLinesConcat(a, line + c);
    }
    BodyConcat(a, old_ + c);
    OldLineBody(old_, c);
    BodyConcat(a, line + c);
    BodyConcat(line, c);
    KeyLineConcat(a, line + c, key);
    KeyLineFirst(line, c, key);
    hide WholeLines, NoBrackets, OneLine;
    forall other | PlainKey(other) && other != key
      ensures KeyLine(a + line + c, other) == KeyLine(a + old_ + c, other)
    {
      KeyLineConcat(a, line + c, other);
      KeyLineConcat(a, old_ + c, other);
      KeyLineFirst(line, c, other);
      OldLineFirst(old_, c, other);
      if Assigns(Chop(line), other) { AssignsOne(Chop(line), key, other); }
      if Assigns(Chop(old_), other) { AssignsOne(Chop(old_), key, other); }
    }
  }

  /** A line that is in place already is put over itself. */
  lemma {:induction false} PutTwice(t: string, key: string, line: string)
    requires CanPut(t, key) && OneLine(line) && Assigns(Chop(line), key)
    ensures PutLine(PutLine(t, key, line), key, line) == PutLine(t, key, line)
  {
    hide Assigns, Chop, OneLine, OldLine, WholeLines, KeyLineAt;
    var a, c;
    if KeyLineAt(t, key).None? {
      a, c := t, "";
      assert KeyLine(t, key).None?;
      assert PutLine(t, key, line) == a + line + c;
    } else {
      var old_;
      a, old_, c := KeyLineCut(t, key);
      assert PutLine(t, key, line) == a + line + c;
    }
    hide KeyLine;
    KeyLineAtPut(a, c, key, line);
    assert (a + line + c)[..|a|] == a && (a + line + c)[|a| + |line|..] == c;
  }

  lemma {:induction false} KeyLineAtPut(a: string, c: string, key: string, line: string)
    requires WholeLines(a) && KeyLine(a, key).None? && OneLine(line) && Assigns(Chop(line), key)
    ensures KeyLineAt(a + line + c, key) == Some(Span(|a|, |line|))
    decreases |a|
  {
    hide Assigns, LineLen, Chop, FirstLine, Rest;
    if a == "" {
      assert a + line + c == line + c;
      KeyLineAtLine(line, c, key);
    } else {
      SplitLine(a, line + c);
      var l, r := FirstLine(a), Rest(a);
      assert a + line + c == l + (r + line + c);
      KeyLineAtLine(l, r + line + c, key);
      KeyLineFirst(l, r, key);
      hide KeyLine;
      KeyLineAtPut(r, c, key, line);
    }
  }

  // ------------------------------------------------------------ the whole file

  /** The parts of a file around a section; only the last of them may lack its newline. */
  ghost predicate Sits(a: string, h: string, t: string, z: string, section: string)
  {
    && WholeLines(a) && SectionAt(a, section).None? && OpensWith(h, section) && OldLine(h, t + z)
    && NoBrackets(t) && (z == "" || z[0] == '[') && (WholeLines(t) || z == "")
  }

  /** Where a section sits: lines without its header, the header, its body, and the next bracket. */
  lemma {:induction false} SectionCut(s: string, section: string) returns (a: string, h: string, t: string, z: string)
    requires PlainName(section) && SectionAt(s, section).Some?
    ensures s == a + (h + (t + z)) && SectionAt(s, section) == Some(|a|) && Sits(a, h, t, z, section)
    decreases |s|
  {
    hide OpensWith, LineLen, FirstLine, Rest, OneLine, OldLine, NoBrackets, WholeLines, Unterminated;
    if Unterminated(s) {
      LoneLineScans(s, section, "");
      NothingAtAll(section);
      a, h, t, z := "", s, "", "";
      LastIsOld(s);
      assert s == a + (h + (t + z)) && t + z == "";
    } else {
      assert s != "";
      SplitAny(s, "");
      var l, r := FirstLine(s), Rest(s);
      SectionAtLine(l, r, section);
      LineIsWhole(l);
      if OpensWith(l, section) {
        NothingAtAll(section);
        a, h := "", l;
        t, z := BodyCut(r);
        WholeIsOld(l, r);
      } else {
        hide SectionAt;
        var a';
        a', h, t, z := SectionCut(r, section);
        a := l + a';
        SectionAtLine(l, a', section);
        WholeLinesConcat(l, a');
        assert l + (a' + (h + (t + z))) == a + (h + (t + z));
      }
    }
  }

  lemma {:induction false} NothingAtAll(section: string)
    ensures WholeLines("") && NoBrackets("") && SectionAt("", section).None?
  {
  }

  lemma {:induction false} LineIsWhole(l: string)
    requires OneLine(l)
    ensures WholeLines(l)
  {
  }

  lemma {:induction false} LastIsOld(b: string)
    requires Unterminated(b)
    ensures OldLine(b, "")
  {
  }

  lemma {:induction false} WholeIsOld(l: string, c: string)
    requires OneLine(l)
    ensures OldLine(l, c)
  {
  }

  lemma {:induction false} WholeIfOne(l: string)
    requires OneLine(l)
    ensures WholeLines(l)
  {
  }

  /** The lines before the first that begins with a bracket, and the rest. */
  lemma {:induction false} BodyCut(r: string) returns (t: string, z: string)
    ensures r == t + z && BodyLen(r) == |t|
    ensures NoBrackets(t) && (z == "" || z[0] == '[') && (WholeLines(t) || z == "")
    decreases |r|
  {
    if r == "" || r[0] == '[' {
      t, z := "", r;
    } else if Unterminated(r) {
      LoneLineScans(r, "", "");
      t, z := r, "";
    } else {
      SplitAny(r, "");
      var l, s := FirstLine(r), Rest(r);
      assert r == l + s && l[0] == r[0];
      var t';
      t', z := BodyCut(s);
      t := l + t';
      hide *;
      BodyBehind(l, t', z);
    }
  }

  lemma {:induction false} BodyBehind(l: string, t: string, z: string)
    requires OneLine(l) && l[0] != '[' && NoBrackets(t) && BodyLen(t + z) == |t| && (WholeLines(t) || z == "")
    ensures l + (t + z) == (l + t) + z && BodyLen(l + (t + z)) == |l + t|
    ensures NoBrackets(l + t) && (WholeLines(l + t) || z == "")
  {
    hide *;
    BodyLine(l, t);
    BodyLine(l, t + z);
    NoBracketsIs(t);
    NoBracketsIs(l + t);
    LineIsWhole(l);
    if WholeLines(t) { WholeLinesConcat(l, t); }
    assert l + (t + z) == (l + t) + z;
  }

  lemma {:induction false} NoBracketsIs(a: string)
    ensures NoBrackets(a) <==> BodyLen(a) == |a|
  {
    hide BodyLen;
  }

  /** The section's text after whatever body without brackets. */
  lemma {:induction false} SectionTextAround(a: string, h: string, t: string, z: string, section: string)
    requires PlainName(section) && WholeLines(a) && SectionAt(a, section).None?
    requires OneLine(h) && OpensWith(h, section) && NoBrackets(t)
    requires (z == "" || z[0] == '[') && (WholeLines(t) || z == "")
    ensures SectionAt(a + (h + (t + z)), section) == Some(|a|)
    ensures SectionText(a + (h + (t + z)), section) == Some(h + t)
  {
    BodyEnds(t, z);
    hide BodyLen, SectionText, SectionAt, OpensWith, OneLine, WholeLines, NoBrackets;
    SectionBehind(a, h + (t + z), section);
    SectionAtLine(h, t + z, section);
    SectionTextLine(h, t + z, section);
    assert (t + z)[..|t|] == t;
  }

  lemma {:induction false} BodyEnds(t: string, z: string)
    requires NoBrackets(t) && (z == "" || z[0] == '[') && (WholeLines(t) || z == "")
    ensures BodyLen(t + z) == |t|
  {
    assert BodyLen(z) == 0;
    if z == "" {
      assert t + z == t;
    } else {
      BodyConcat(t, z);
    }
  }

  /** The body of one section does not matter to the text of another. */
  lemma {:induction false} OtherSectionText(a: string, h: string, t: string, z: string, section: string, other: string)
    requires PlainName(section) && PlainName(other) && Fits(section) && Fits(other) && other != section
    requires WholeLines(a) && OneLine(h) && OpensWith(h, section) && NoBrackets(t) && (WholeLines(t) || z == "")
    ensures SectionText(a + (h + (t + z)), other) ==
              if SectionAt(a, other).Some? then SectionText(a, other) else SectionText(z, other)
  {
    OpensLocally(h, "", section);
    assert h[0] == '[';
    hide SectionText, SectionAt, OneLine, WholeLines, BodyLen, PlainName, NoBrackets;
    if SectionAt(a, other).Some? {
      SectionBefore(a, h + (t + z), other);
    } else {
      SectionBehind(a, h + (t + z), other);
      if OpensWith(h, other) { OpensOne(h, section, other); }
      hide OpensWith;
      SectionTextLine(h, t + z, other);
      BodyOpensNothing(t, z, other);
    }
  }

  lemma {:induction false} BodyOpensNothing(t: string, z: string, section: string)
    requires PlainName(section) && NoBrackets(t) && (WholeLines(t) || z == "")
    ensures SectionText(t + z, section) == SectionText(z, section)
  {
    hide SectionText, SectionAt, BodyLen, PlainName;
    NoBracketsNoSection(t, section);
    if WholeLines(t) {
      SectionBehind(t, z, section);
    } else {
      NothingAtAll(section);
      NoSectionNoText(t, section);
      NoSectionNoText("", section);
      assert t + z == t;
    }
  }

  lemma {:induction false} PatchIs(s: string, section: string, key: string, value: string, k: nat, t: string)
    requires SectionAt(s, section) == Some(k) && SectionText(s, section) == Some(t)
    requires |Assignment(key, value)| < 512
    ensures k + |t| <= |s|
    ensures Patch(s, section, key, value) ==
              var at := KeyLineAt(t, key);
              Some(if at.None? then Spliced(s, k + |t|, 0, Assignment(key, value))
                   else Spliced(s, k + at.value.off, at.value.len, Assignment(key, value)))
  {
    hide SectionAt, HeadText, KeyLineAt, Assignment;
  }

  /** A patch of an existing section rewrites its body and nothing else. */
  lemma {:induction false} PatchInSection(a: string, h: string, t: string, z: string, section: string, key: string,
                                          value: string)
    requires PlainName(section) && PlainKey(key) && WholeLines(a) && SectionAt(a, section).None?
    requires OneLine(h) && OpensWith(h, section) && NoBrackets(t)
    requires (z == "" || z[0] == '[') && (WholeLines(t) || z == "")
    requires |Assignment(key, value)| < 512
    ensures Patch(a + (h + (t + z)), section, key, value)
         == Some(a + (h + (PutLine(t, key, Assignment(key, value)) + z)))
  {
    hide SectionText, SectionAt, OneLine, WholeLines, NoBrackets, PlainName, OpensWith, Assignment, KeyLineAt;
    hide Assigns, Chop, PlainKey, Patch, Spliced;
    var l, s := Assignment(key, value), a + (h + (t + z));
    SectionTextAround(a, h, t, z, section);
    HeaderChop(h, section);
    HeaderAssignsNothing(Chop(h), key);
    KeyLineAtLine(h, t, key);
    PatchIs(s, section, key, value, |a|, h + t);
    assert s == a + h + t + z;
    var at := KeyLineAt(t, key);
    var put := PutLine(t, key, l);
    if at.None? {
      SpliceAround(a + h, t, z, |t|, 0, l);
      SpliceAtEnd(t, l);
    } else {
      SpliceAround(a + h, t, z, at.value.off, at.value.len, l);
    }
    assert a + h + put + z == a + (h + (put + z));
  }

  lemma {:induction false} SpliceAtEnd(t: string, line: string)
    ensures Spliced(t, |t|, 0, line) == t + line
  {
  }

  lemma {:induction false} SpliceAround(p: string, t: string, z: string, off: nat, len: nat, line: string)
    requires off + len <= |t|
    ensures Spliced(p + t + z, |p| + off, len, line) == p + Spliced(t, off, len, line) + z
  {
    var s := p + t + z;
    assert s[..|p| + off] == p + t[..off];
    assert s[|p| + off + len..] == t[off + len..] + z;
  }

  /** A pair of section and key. */
  predicate PlainPair(section: string, key: string)
  {
    PlainName(section) && Fits(section) && PlainKey(key)
  }

  /** Lookups after a patch of an existing section, and after the same patch again. */
  lemma {:induction false} PatchedSectionLookups(a: string, h: string, t: string, z: string, section: string,
                                                 key: string, value: string)
    requires PlainPair(section, key) && PlainValue(value) && CanPut(t, key)
    requires WholeLines(a) && SectionAt(a, section).None?
    requires OneLine(h) && OpensWith(h, section) && NoBrackets(t)
    requires (z == "" || z[0] == '[') && (WholeLines(t) || z == "")
    ensures var s, r := a + (h + (t + z)), a + (h + (PutLine(t, key, Assignment(key, value)) + z));
            && Lookup(r, section, key) == Some(key + " = " + value)
            && forall sec, k :: PlainPair(sec, k) && (sec != section || k != key) ==>
                 Lookup(r, sec, k) == Lookup(s, sec, k)
  {
    var line := Assignment(key, value);
    AssignmentAssigns(key, value);
    PutLineLooksUp(t, key, line);
    var u := PutLine(t, key, line);
    var s, r := a + (h + (t + z)), a + (h + (u + z));
    HeaderChop(h, section);
    hide SectionText, SectionAt, OneLine, WholeLines, NoBrackets, OpensWith, Assignment, KeyLine, PutLine, Assigns;
    hide Chop, PlainKey, PlainName, CanPut, Fits;
    SectionTextAround(a, h, t, z, section);
    SectionTextAround(a, h, u, z, section);
    forall sec, k | PlainPair(sec, k)
      ensures if sec == section then Lookup(r, sec, k) == KeyLine(u, k) && Lookup(s, sec, k) == KeyLine(t, k)
              else Lookup(r, sec, k) == Lookup(s, sec, k)
    {
      if sec == section {
        HeaderAssignsNothing(Chop(h), k);
        KeyLineFirst(h, t, k);
        KeyLineFirst(h, u, k);
      } else {
        OtherSectionText(a, h, t, z, section, sec);
        OtherSectionText(a, h, u, z, section, sec);
      }
    }
  }

  /** The same patch again changes nothing. */
  lemma {:induction false} PatchTwice(a: string, h: string, t: string, z: string, section: string, key: string,
                                      value: string)
    requires PlainPair(section, key) && PlainValue(value) && CanPut(t, key) && |Assignment(key, value)| < 512
    requires WholeLines(a) && SectionAt(a, section).None?
    requires OneLine(h) && OpensWith(h, section) && NoBrackets(t)
    requires (z == "" || z[0] == '[') && (WholeLines(t) || z == "")
    ensures var r := a + (h + (PutLine(t, key, Assignment(key, value)) + z)); Patch(r, section, key, value) == Some(r)
  {
    var line := Assignment(key, value);
    AssignmentAssigns(key, value);
    PutLineLooksUp(t, key, line);
    PutTwice(t, key, line);
    hide SectionAt, OneLine, WholeLines, NoBrackets, OpensWith, Assignment, KeyLine, PutLine, Assigns, Chop, PlainKey;
    hide PlainName, CanPut, Fits, Patch;
    PatchInSection(a, h, PutLine(t, key, line), z, section, key, value);
  }

  lemma {:induction false} HeaderChop(h: string, section: string)
    requires OneLine(h) && OpensWith(h, section) && PlainName(section)
    ensures h[0] == '[' && Chop(h) != "" && Chop(h)[0] == '['
  {
    OpensLocally(h, "", section);
  }

  // ------------------------------------------------------------ a new section

  /** Whether a last line opens a section does not depend on its newline. */
  lemma {:induction false} OpensUnterminated(b: string, section: string)
    requires Unterminated(b) && PlainName(section)
    ensures OpensWith(b + "\n", section) <==> OpensWith(b, section)
    ensures OpensWith(b, section) ==> b[0] == '['
  {
    var m, w := Marker(section), b + "\n";
    assert forall i :: 0 <= i < |m| ==> m[i] != '\n';
    assert w[|b|] == '\n' && w[..|b|] == b;
    if m <= w { PrefixStopsBefore(m, w, |b|); }
    if m <= b {
      assert m <= w;
      var t, u := b[|m|..], w[|m|..];
      assert u == t + "\n" && !IsBlank('\n');
      var k := BlankRun(t);
      assert forall i :: 0 <= i < |t| ==> u[i] == t[i];
      BlankRunIs(u, k);
    }
    if m <= w { assert m == w[..|m|] == b[..|m|]; }
  }

  /** What the scans find in a last line. */
  lemma {:induction false} LoneLineScans(b: string, section: string, key: string)
    requires Unterminated(b)
    ensures SectionAt(b, section) == if OpensWith(b, section) then Some(0) else None
    ensures SectionText(b, section) == if OpensWith(b, section) then Some(b) else None
    ensures KeyLineAt(b, key) == if Assigns(b, key) then Some(Span(0, |b|)) else None
    ensures KeyLine(b, key) == if Assigns(b, key) then Some(b) else None
    ensures BodyLen(b) == (if b[0] == '[' then 0 else |b|) && Chop(b) == b
  {
    LoneLine(b);
    hide LineLen, OpensWith, Assigns;
    assert Chop(b) == b && b[0..] == b && b[0..|b|] == b && SectionAt("", section).None? && KeyLineAt("", key).None?;
  }

  lemma {:induction false} NewlineScans(b: string, section: string, key: string)
    requires Unterminated(b) && PlainName(section)
    ensures SectionAt(b + "\n", section) == if OpensWith(b, section) then Some(0) else None
    ensures SectionText(b + "\n", section) == if OpensWith(b, section) then Some(b + "\n") else None
    ensures KeyLine(b + "\n", key) == if Assigns(b, key) then Some(b) else None
    ensures BodyLen(b + "\n") == if b[0] == '[' then 0 else |b| + 1
  {
    LoneLine(b);
    OpensUnterminated(b, section);
    var l := b + "\n";
    assert Chop(l) == b && l + "" == l;
    LineAlone(l, key);
    BlankLine(section, key);
    if b[0] != '[' { BodyLine(l, ""); }
    hide OpensWith, Assigns, LineLen, KeyLine;
    SectionAtLine(l, "", section);
    SectionTextLine(l, "", section);
    assert SectionText("", section).None?;
  }

  lemma {:induction false} BodyNewline(r: string)
    ensures BodyLen(r + "\n") == if NoBrackets(r) then |r| + 1 else BodyLen(r)
    decreases |r|
  {
    if r == "" {
      BlankLine("", "");
      assert r + "\n" == "\n";
    } else if r[0] == '[' {
      assert (r + "\n")[0] == '[';
    } else if Unterminated(r) {
      LoneLineScans(r, "", "");
      NewlineScans(r, "", "");
    } else {
      SplitAny(r, "\n");
      var l, q := FirstLine(r), Rest(r);
      assert l[0] == r[0];
      hide LineLen, OneLine, FirstLine, Rest, BodyLen;
      BodyLine(l, q);
      BodyLine(l, q + "\n");
      BodyNewline(q);
    }
  }

  lemma {:induction false} KeyLineNewline(r: string, key: string)
    ensures KeyLine(r + "\n", key) == KeyLine(r, key)
    decreases |r|
  {
    if r == "" {
      BlankLine("", key);
      assert r + "\n" == "\n";
    } else if Unterminated(r) {
      LoneLineScans(r, "", key);
      NewlineScans(r, "", key);
    } else {
      SplitAny(r, "\n");
      hide KeyLine, LineLen, OneLine, FirstLine, Rest, Assigns, Chop;
      KeyLineFirst(FirstLine(r), Rest(r), key);
      KeyLineFirst(FirstLine(r), Rest(r) + "\n", key);
      KeyLineNewline(Rest(r), key);
    }
  }

  /** A newline behind a file changes no lookup, whether or not the last line has one. */
  lemma {:induction false} BlankLineBehind(s: string, section: string, key: string)
    requires PlainName(section) && PlainKey(key)
    ensures SectionAt(s, section).None? <==> SectionAt(s + "\n", section).None?
    ensures Lookup(s + "\n", section, key) == Lookup(s, section, key)
    decreases |s|
  {
    BlankLine(section, key);
    if s == "" {
      assert s + "\n" == "\n";
    } else if Unterminated(s) {
      LoneLineScans(s, section, key);
      NewlineScans(s, section, key);
    } else {
      hide OpensWith, LineLen, FirstLine, Rest, SectionText, KeyLine, PlainName, PlainKey, Unterminated;
      SplitAny(s, "\n");
      var l, r := FirstLine(s), Rest(s);
      SectionAtLine(l, r, section);
      SectionAtLine(l, r + "\n", section);
      SectionTextLine(l, r, section);
      SectionTextLine(l, r + "\n", section);
      hide SectionAt;
      if OpensWith(l, section) {
        BodyBlankBehind(l, r, key);
      } else {
        BlankLineBehind(r, section, key);
      }
    }
  }

  lemma {:induction false} BodyBlankBehind(l: string, r: string, key: string)
    requires OneLine(l)
    ensures KeyLine(l + (r + "\n")[..BodyLen(r + "\n")], key) == KeyLine(l + r[..BodyLen(r)], key)
  {
    BodyNewline(r);
    hide KeyLine, OneLine, Assigns;
    if NoBrackets(r) {
      hide BodyLen;
      assert (r + "\n")[..|r| + 1] == r + "\n" && r[..|r|] == r;
      KeyLineFirst(l, r + "\n", key);
      KeyLineFirst(l, r, key);
      KeyLineNewline(r, key);
    } else {
      hide BodyLen;
      assert (r + "\n")[..BodyLen(r)] == r[..BodyLen(r)];
    }
  }

  lemma {:induction false} BlankLine(section: string, key: string)
    ensures SectionAt("\n", section).None? && SectionAt("", section).None? && KeyLine("\n", key).None?
    ensures BodyLen("\n") == 1
    ensures OneLine("\n")
  {
    assert OneLine("\n");
    assert FirstLine("\n") == "\n" && Rest("\n") == "" && Chop("\n") == "";
    assert !Assigns("", key);
    assert !OpensWith("\n", section);
  }

  /** Lookups after a section was appended. */
  lemma {:induction false} AppendedLookups(s: string, section: string, key: string, value: string)
    requires PlainPair(section, key) && PlainValue(value) && SectionAt(s, section).None?
    ensures var r := s + Appended(section, key, value);
            && Lookup(r, section, key) == Some(key + " = " + value)
            && forall sec, k :: PlainPair(sec, k) && (sec != section || k != key) ==>
                 Lookup(r, sec, k) == Lookup(s, sec, k)
  {
    AppendedShape(s, section, key, value);
    hide *;
    var line, r := Assignment(key, value), s + Appended(section, key, value);
    forall sec, k | PlainPair(sec, k)
      ensures if sec == section then Lookup(r, sec, k) == KeyLine(line, k) && Lookup(s, sec, k).None?
              else Lookup(r, sec, k) == Lookup(s, sec, k)
    {
      if sec == section {
        AppendedOwn(s, section, key, value, k);
      } else {
        AppendedOther(s, section, key, value, sec, k);
      }
    }
    forall k | PlainPair(section, k) ensures KeyLine(line, k) == if k == key then Some(key + " = " + value) else None {
      PlainParts(section, k);
      PlainParts(section, key);
      AssignmentFound(key, value, k);
    }
  }

  /** What appending a section adds: a blank line, the header and the assignment. */
  lemma {:induction false} AppendedShape(s: string, section: string, key: string, value: string)
    requires PlainPair(section, key) && PlainValue(value) && SectionAt(s, section).None?
    ensures var line, h, a := Assignment(key, value), "[" + section + "]\n", s + "\n";
            && s + Appended(section, key, value) == a + (h + (line + ""))
            && WholeLines(a) && SectionAt(a, section).None? && OneLine(h) && OpensWith(h, section)
            && h[0] == '[' && Chop(h) != "" && Chop(h)[0] == '['
            && OneLine(line) && WholeLines(line) && NoBrackets(line) && PlainName(section)
  {
    LineShape(section, key, value);
    NewHeader(section);
    AppendedIs(s, section, key, value);
    BlankBehindIsWhole(s);
    BlankLineBehind(s, section, key);
    hide *;
    var line, h, a := Assignment(key, value), "[" + section + "]\n", s + "\n";
    HeaderChop(h, section);
    assert line + "" == line;
  }

  lemma {:induction false} AppendedIs(s: string, section: string, key: string, value: string)
    ensures s + Appended(section, key, value) == (s + "\n") + (("[" + section + "]\n") + Assignment(key, value))
  {
    hide Assignment;
  }

  lemma {:induction false} BlankBehindIsWhole(s: string)
    ensures WholeLines(s + "\n")
  {
  }

  lemma {:induction false} LineShape(section: string, key: string, value: string)
    requires PlainPair(section, key) && PlainValue(value)
    ensures var line := Assignment(key, value);
            OneLine(line) && WholeLines(line) && NoBrackets(line) && PlainName(section)
  {
    AssignmentAssigns(key, value);
    hide PlainKey, PlainValue, PlainName, Assignment, Assigns, OneLine, Chop;
    WholeIfOne(Assignment(key, value));
    LineHasNoBracket(Assignment(key, value));
  }

  lemma {:induction false} PlainParts(section: string, key: string)
    ensures PlainPair(section, key) ==> PlainName(section) && Fits(section) && PlainKey(key)
  {
  }

  lemma {:induction false} AssignmentFound(key: string, value: string, k: string)
    requires PlainKey(key) && PlainKey(k) && PlainValue(value)
    ensures KeyLine(Assignment(key, value), k) == if k == key then Some(key + " = " + value) else None
  {
    var line := Assignment(key, value);
    AssignmentAssigns(key, value);
    hide PlainKey, PlainValue;
    LineAlone(line, k);
    if k != key && Assigns(Chop(line), k) { AssignsOne(Chop(line), key, k); }
  }

  lemma {:induction false} AppendedOwn(s: string, section: string, key: string, value: string, k: string)
    requires PlainPair(section, key) && PlainValue(value) && SectionAt(s, section).None? && PlainPair(section, k)
    ensures Lookup(s + Appended(section, key, value), section, k) == KeyLine(Assignment(key, value), k)
    ensures Lookup(s, section, k).None?
  {
    AppendedShape(s, section, key, value);
    PlainParts(section, k);
    hide SectionText, SectionAt, OneLine, WholeLines, NoBrackets, OpensWith, Assignment, KeyLine, Chop, PlainPair;
    hide PlainKey, PlainName, PlainValue, Appended;
    var line, h, a := Assignment(key, value), "[" + section + "]\n", s + "\n";
    SectionTextAround(a, h, line, "", section);
    HeaderAssignsNothing(Chop(h), k);
    KeyLineFirst(h, line, k);
    NoSectionNoText(s, section);
  }

  lemma {:induction false} AppendedOther(s: string, section: string, key: string, value: string, sec: string, k: string)
    requires PlainPair(section, key) && PlainValue(value) && SectionAt(s, section).None?
    requires PlainPair(sec, k) && sec != section
    ensures Lookup(s + Appended(section, key, value), sec, k) == Lookup(s, sec, k)
  {
    AppendedShape(s, section, key, value);
    PlainParts(sec, k);
    hide SectionText, SectionAt, OneLine, WholeLines, NoBrackets, OpensWith, Assignment, KeyLine, Chop, PlainPair;
    hide PlainKey, PlainName, PlainValue, Appended;
    var line, h, a := Assignment(key, value), "[" + section + "]\n", s + "\n";
    BlankLineBehind(s, sec, k);
    OtherSectionText(a, h, line, "", section, sec);
    BlankLine(sec, k);
    NoSectionNoText("", sec);
    NoSectionNoText(a, sec);
  }

  lemma {:induction false} NoSectionNoText(s: string, section: string)
    ensures SectionAt(s, section).None? ==> SectionText(s, section).None?
  {
  }

  lemma {:induction false} NewHeader(section: string)
    requires PlainName(section) && Fits(section)
    ensures var h := "[" + section + "]\n"; OneLine(h) && OpensWith(h, section)
  {
    var h := "[" + section + "]\n";
    FindIs(h, '\n', |section| + 2);
    assert Marker(section) == h[..|section| + 2] && h[|section| + 2..] == "\n";
  }

  // ------------------------------------------------------------------- the laws

  /** A value already in place is spliced over itself. */
  lemma {:induction false} PatchAgain(s: string, section: string, key: string, value: string)
    requires WholeLines(s) && PlainPair(section, key) && PlainValue(value) && |Assignment(key, value)| < 512
    requires Lookup(s, section, key) == Some(key + " = " + value)
    ensures Patch(s, section, key, value) == Some(s)
  {
    hide SectionText, SectionAt, OpensWith, Assigns, NoBrackets, Patch, PlainKey, PlainName, WholeLines, OneLine;
    hide KeyLine, Assignment, PutLine, Chop, OldLine;
    NoSectionNoText(s, section);
    var line := Assignment(key, value);
    var a, h, t, z := SectionCut(s, section);
    WholeParts(a, h, t, z);
    PatchInSection(a, h, t, z, section, key, value);
    HeaderChop(h, section);
    HeaderAssignsNothing(Chop(h), key);
    SectionTextAround(a, h, t, z, section);
    KeyLineFirst(h, t, key);
    assert KeyLine(t, key) == Some(key + " = " + value);
    PutSameLine(t, key, value);
  }

  lemma {:induction false} WholeParts(a: string, h: string, t: string, z: string)
    requires OldLine(h, t + z) && (WholeLines(t) || z == "") && WholeLines(a + (h + (t + z)))
    ensures OneLine(h) && WholeLines(t)
  {
    var s := a + (h + (t + z));
    if z == "" {
      assert s == a + (h + t);
      if t != "" {
        assert s[|s| - 1] == t[|t| - 1];
      } else {
        assert s[|s| - 1] == h[|h| - 1];
      }
    }
  }

  lemma {:induction false} PutSameLine(t: string, key: string, value: string)
    requires WholeLines(t) && KeyLine(t, key) == Some(key + " = " + value)
    ensures PutLine(t, key, Assignment(key, value)) == t
  {
    hide Assigns, KeyLineAt, Chop, OneLine;
    var b, o, c := KeyLineCut(t, key);
    assert (b + o + c)[|b|..|b| + |o|] == o;
    ChopIs(o, key + " = " + value);
    assert (b + o + c)[..|b|] == b && (b + o + c)[|b| + |o|..] == c;
  }

  lemma {:induction false} ChopIs(o: string, c: string)
    requires OneLine(o) && Chop(o) == c
    ensures o == c + "\n"
  {
  }

  /**
   * The patch would splice its line in at the end of the file, behind a line without a newline:
   * the section is there and reaches the end, and none of its lines assigns the key.
   */
  predicate Glued(s: string, section: string, key: string)
  {
    && SectionAt(s, section).Some? && !WholeLines(s)
    && var t := SectionText(s, section).value;
       SectionAt(s, section).value + |t| == |s| && KeyLineAt(t, key).None?
  }

  lemma {:induction false} GluedIs(a: string, h: string, t: string, z: string, section: string, key: string)
    requires PlainName(section) && PlainKey(key) && Sits(a, h, t, z, section) && OneLine(h)
    ensures Glued(a + (h + (t + z)), section, key) <==> !CanPut(t, key)
  {
    var s := a + (h + (t + z));
    hide SectionText, SectionAt, OneLine, NoBrackets, OpensWith, KeyLineAt, Assigns, Chop, PlainKey, PlainName;
    SectionTextAround(a, h, t, z, section);
    HeaderChop(h, section);
    HeaderAssignsNothing(Chop(h), key);
    KeyLineAtLine(h, t, key);
    if z == "" { WholeIfLast(a, h, t); }
    assert z == "" ==> s == a + (h + t);
  }

  lemma {:induction false} WholeIfLast(a: string, h: string, t: string)
    requires OneLine(h)
    ensures WholeLines(a + (h + t)) <==> WholeLines(t)
  {
    var s := a + (h + t);
    if t != "" {
      assert s[|s| - 1] == t[|t| - 1];
    } else {
      assert s[|s| - 1] == h[|h| - 1];
    }
  }

  /** Behind an unterminated body the new line is part of another one. */
  lemma {:induction false} GluedKeyLine(t: string, key: string, line: string)
    requires !WholeLines(t) && NoBrackets(t) && KeyLineAt(t, key).None? && OneLine(line)
    ensures WholeLines(t + line) && NoBrackets(t + line) && KeyLine(t + line, key) != Some(Chop(line))
    decreases |t|
  {
    if Unterminated(t) {
      GluedLine(t, line);
      LoneLineScans(t, "", key);
      LineHasNoBracket(t + line);
      hide KeyLine, Assigns, OneLine, BodyLen;
      LineAlone(t + line, key);
      assert |Chop(t + line)| > |Chop(line)|;
    } else {
      SplitAny(t, line);
      var l, r := FirstLine(t), Rest(t);
      assert l[0] == t[0];
      KeyLineAtLine(l, r, key);
      BodyLine(l, r);
      BodyLine(l, r + line);
      LineIsWhole(l);
      hide KeyLine, KeyLineAt, Assigns, OneLine, BodyLen, Chop, LineLen, FirstLine, Rest;
      GluedKeyLine(r, key, line);
      KeyLineFirst(l, r + line, key);
      WholeLinesConcat(l, r + line);
    }
  }

  /** Empty parts and the grouping of a file's text. */
  lemma {:induction false} Regroup(a: string, h: string, t: string, line: string)
    ensures a + (h + ((t + line) + "")) == a + (h + (t + "")) + line
    ensures a + (h + (t + "")) == a + (h + t)
    ensures a + h + line == a + (h + line)
    ensures (h + line) + "" == h + line && (h + line) + ""[..0] == h + line
    ensures "" + (h + (t + "")) == h + t && "" + (h + ((t + line) + "")) == h + (t + line)
  {
  }

  lemma {:induction false} SitsParts(a: string, h: string, t: string, z: string, section: string)
    requires Sits(a, h, t, z, section)
    ensures WholeLines(a) && SectionAt(a, section).None? && OpensWith(h, section) && OldLine(h, t + z)
    ensures NoBrackets(t) && (z == "" || z[0] == '[') && (WholeLines(t) || z == "")
  {
  }

  lemma {:induction false} CannotPut(t: string, key: string, line: string)
    requires !CanPut(t, key)
    ensures !WholeLines(t) && KeyLineAt(t, key).None? && PutLine(t, key, line) == t + line
  {
  }

  lemma {:induction false} LookupIs(s: string, section: string, key: string, t: string)
    requires SectionText(s, section) == Some(t)
    ensures Lookup(s, section, key) == KeyLine(t, key)
  {
  }

  lemma {:induction false} GluedBody(a: string, h: string, t: string, section: string, key: string, value: string)
    requires PlainPair(section, key) && PlainValue(value) && |Assignment(key, value)| < 512
    requires Sits(a, h, t, "", section) && OneLine(h) && !CanPut(t, key)
    ensures var line, s := Assignment(key, value), a + (h + (t + ""));
            && Patch(s, section, key, value) == Some(s + line)
            && Lookup(s + line, section, key) != Some(key + " = " + value)
  {
    var line, s := Assignment(key, value), a + (h + (t + ""));
    SitsParts(a, h, t, "", section);
    PlainParts(section, key);
    CannotPut(t, key, line);
    hide *;
    PatchInSection(a, h, t, "", section, key, value);
    AssignmentAssigns(key, value);
    Regroup(a, h, t, line);
    GluedKeyLine(t, key, line);
    HeaderChop(h, section);
    HeaderAssignsNothing(Chop(h), key);
    SectionTextAround(a, h, t + line, "", section);
    KeyLineFirst(h, t + line, key);
    LookupIs(s + line, section, key, h + (t + line));
  }

  lemma {:induction false} EndsAs(a: string, b: string)
    requires Unterminated(b)
    ensures !WholeLines(a + b)
  {
    var s := a + b;
    assert s[|s| - 1] == b[|b| - 1];
  }

  lemma {:induction false} GluedChop(b: string, line: string)
    requires b != "" && line != "" && line[|line| - 1] == '\n'
    ensures Chop(b + line) == b + Chop(line) && Chop(b + line) != "" && Chop(b + line)[0] == b[0]
  {
    assert (b + line)[..|b + line| - 1] == b + line[..|line| - 1];
  }

  lemma {:induction false} GluedAt(s: string, section: string, key: string, k: nat, t: string)
    requires SectionAt(s, section) == Some(k) && SectionText(s, section) == Some(t)
    requires k + |t| == |s| && !WholeLines(s) && KeyLineAt(t, key).None?
    ensures Glued(s, section, key)
  {
    hide SectionAt, SectionText, KeyLineAt;
  }

  lemma {:induction false} GluedHeaderLookup(s: string, section: string, key: string, l: string)
    requires SectionText(s, section).Some? ==> SectionText(s, section) == Some(l)
    requires KeyLine(l, key).None?
    ensures Lookup(s, section, key).None?
  {
    hide SectionText, KeyLine;
  }

  /** A header that ends the file without a newline is spoilt by the line behind it. */
  lemma {:induction false} GluedHeader(a: string, h: string, section: string, key: string, value: string)
    requires PlainPair(section, key) && PlainValue(value) && |Assignment(key, value)| < 512
    requires WholeLines(a) && SectionAt(a, section).None? && OpensWith(h, section) && Unterminated(h)
    ensures var line, s := Assignment(key, value), a + h;
            && Glued(s, section, key) && Patch(s, section, key, value) == Some(s + line)
            && Lookup(s + line, section, key) != Some(key + " = " + value)
  {
    hide *;
    HeaderAtEnd(a, h, section, key);
    PatchIs(a + h, section, key, value, |a|, h);
    SpliceAtEnd(a + h, Assignment(key, value));
    GluedAt(a + h, section, key, |a|, h);
    HeaderLost(a, h, section, key, value);
  }

  lemma {:induction false} HeaderAtEnd(a: string, h: string, section: string, key: string)
    requires PlainPair(section, key)
    requires WholeLines(a) && SectionAt(a, section).None? && OpensWith(h, section) && Unterminated(h)
    ensures SectionAt(a + h, section) == Some(|a|) && SectionText(a + h, section) == Some(h)
    ensures !WholeLines(a + h) && KeyLineAt(h, key).None?
  {
    PlainParts(section, key);
    OpensUnterminated(h, section);
    assert h != "" && Shifted(Some(0), |a|) == Some(|a|);
    hide *;
    EndsAs(a, h);
    HeaderAssignsNothing(h, key);
    LoneLineScans(h, section, key);
    SectionBehind(a, h, section);
  }

  lemma {:induction false} HeaderLost(a: string, h: string, section: string, key: string, value: string)
    requires PlainPair(section, key) && PlainValue(value)
    requires WholeLines(a) && SectionAt(a, section).None? && OpensWith(h, section) && Unterminated(h)
    ensures Lookup(a + h + Assignment(key, value), section, key).None?
  {
    var line := Assignment(key, value);
    PlainParts(section, key);
    AssignmentAssigns(key, value);
    OpensUnterminated(h, section);
    assert h != "" && line[|line| - 1] == '\n';
    GluedChop(h, line);
    EmptyScans(section);
    hide *;
    GluedLine(h, line);
    HeaderAssignsNothing(Chop(h + line), key);
    Regroup(a, h, "", line);
    SectionBehind(a, h + line, section);
    SectionTextLine(h + line, "", section);
    LineAlone(h + line, key);
    GluedHeaderLookup(a + (h + line), section, key, h + line);
  }

  lemma {:induction false} EmptyScans(section: string)
    ensures SectionText("", section).None? && BodyLen("") == 0
  {
  }

  lemma {:induction false} AbsentReadsBack(s: string, section: string, key: string, value: string)
    requires PlainPair(section, key) && PlainValue(value) && |Assignment(key, value)| < 512
             && SectionAt(s, section).None?
    ensures var r := s + Appended(section, key, value);
            && Lookup(r, section, key) == Some(key + " = " + value)
            && (forall sec, k :: PlainPair(sec, k) && (sec != section || k != key) ==>
                 Lookup(r, sec, k) == Lookup(s, sec, k))
            && Patch(r, section, key, value) == Some(r)
  {
    var line, h, a := Assignment(key, value), "[" + section + "]\n", s + "\n";
    assert PutLine("", key, line) == line && WholeLines("") && NoBrackets("");
    hide *;
    AppendedLookups(s, section, key, value);
    AppendedShape(s, section, key, value);
    CanPutFirst(key);
    PatchTwice(a, h, "", "", section, key, value);
  }

  lemma {:induction false} CanPutFirst(key: string)
    ensures CanPut("", key) && NoBrackets("")
  {
  }

  /**
   * For any file and a plain section, key and value: after a patch the code's own lookup finds
   * the new line if and only if the line was not glued to an unterminated one. When it is found,
   * every other pair is looked up as before, and the same patch again changes nothing.
   */
  lemma {:induction false} PatchIsReadBack(s: string, section: string, key: string, value: string)
    requires PlainPair(section, key) && PlainValue(value)
    requires Patch(s, section, key, value).Some?
    ensures var r := Patch(s, section, key, value).value;
            && (Lookup(r, section, key) == Some(key + " = " + value) <==> !Glued(s, section, key))
            && (!Glued(s, section, key) ==>
                  && (forall sec, k :: PlainPair(sec, k) && (sec != section || k != key) ==>
                       Lookup(r, sec, k) == Lookup(s, sec, k))
                  && Patch(r, section, key, value) == Some(r))
            && (Glued(s, section, key) ==> r == s + Assignment(key, value))
  {
    var r := Patch(s, section, key, value).value;
    assert |Assignment(key, value)| < 512;
    if SectionAt(s, section).None? {
      assert r == s + Appended(section, key, value);
      hide Lookup, PlainValue, Patch, Assignment, SectionAt, PlainKey, PlainPair, SectionText, KeyLineAt;
      AbsentReadsBack(s, section, key, value);
    } else {
      hide Lookup, PlainValue, OneLine, WholeLines, OpensWith, NoBrackets, Patch, PutLine, Assignment, SectionAt;
      hide PlainKey, CanPut, Glued, Unterminated, Fits;
      var a, h, t, z := SectionCut(s, section);
      if !OneLine(h) {
        assert s == a + h;
        GluedHeader(a, h, section, key, value);
      } else {
        hide OldLine;
        GluedIs(a, h, t, z, section, key);
        if CanPut(t, key) {
          PatchInSection(a, h, t, z, section, key, value);
          PatchedSectionLookups(a, h, t, z, section, key, value);
          PatchTwice(a, h, t, z, section, key, value);
        } else {
          LastBody(t, z, key);
          GluedBody(a, h, t, section, key, value);
        }
      }
    }
  }

  lemma {:induction false} LastBody(t: string, z: string, key: string)
    requires (WholeLines(t) || z == "") && !CanPut(t, key)
    ensures z == ""
  {
  }

  /** A file whose section ends in a comment without a newline: the comment swallows the assignment. */
  lemma {:induction false} UnterminatedLineSwallows(h: string, b: string, section: string, key: string, value: string)
    requires PlainPair(section, key) && PlainValue(value) && |Assignment(key, value)| < 512
    requires OneLine(h) && OpensWith(h, section) && Unterminated(b) && b[0] == '#' && key[0] != '#'
    ensures var r := h + (b + Assignment(key, value));
            Patch(h + b, section, key, value) == Some(r) && Lookup(r, section, key).None?
  {
    var line := Assignment(key, value);
    PlainParts(section, key);
    AssignmentAssigns(key, value);
    CommentAssignsNothing(b, key);
    GluedChop(b, line);
    CommentAssignsNothing(Chop(b + line), key);
    LoneLineScans(b, section, key);
    CommentBody(b, key, line);
    NothingAtAll(section);
    hide *;
    GluedLine(b, line);
    HeaderChop(h, section);
    HeaderAssignsNothing(Chop(h), key);
    PatchInSection("", h, b, "", section, key, value);
    Regroup("", h, b, line);
    LineHasNoBracket(b + line);
    SectionTextAround("", h, b + line, "", section);
    KeyLineFirst(h, b + line, key);
    LineAlone(b + line, key);
    LookupIs(h + (b + line), section, key, h + (b + line));
  }

  lemma {:induction false} CommentBody(b: string, key: string, line: string)
    requires BodyLen(b) == |b| && KeyLineAt(b, key).None?
    ensures NoBrackets(b) && PutLine(b, key, line) == b + line
  {
    hide BodyLen, KeyLineAt;
  }

  lemma {:induction false} CommentAssignsNothing(line: string, key: string)
    requires line != "" && line[0] == '#' && key != "" && key[0] != '#'
    ensures !Assigns(line, key)
  {
    BlankRunIs(line, 0);
    hide TrimmedLen;
  }

  /** So the law fails on such a file: a comment is valid TOML with or without a newline behind it. */
  lemma {:induction false} UnterminatedFileBreaks()
    ensures Patch("[a]\n" + "# x", "a", "y", "2") == Some("[a]\n" + "# xy = 2\n")
    ensures Lookup("[a]\n" + "# xy = 2\n", "a", "y").None?
  {
    HeaderOfA();
    YIsTwo();
    assert Unterminated("# x") && PlainPair("a", "y") && PlainValue("2");
    hide *;
    UnterminatedLineSwallows("[a]\n", "# x", "a", "y", "2");
  }

  lemma {:induction false} YIsTwo()
    ensures "# x" + Assignment("y", "2") == "# xy = 2\n" && |Assignment("y", "2")| == 6
  {
    assert Assignment("y", "2") == "y = 2\n";
  }

  lemma {:induction false} HeaderOfA()
    ensures OneLine("[a]\n") && OpensWith("[a]\n", "a")
  {
    NewHeader("a");
    assert "[" + "a" + "]\n" == "[a]\n";
  }

  // -------------------------------------------------------------- long section names

  /** A name without brackets, blanks, comment signs or line ends. */
  predicate BareName(section: string)
  {
    && PlainName(section)
    && forall i :: 0 <= i < |section| ==> !IsBlank(section[i]) && section[i] != '#' && section[i] != '\r'
  }

  lemma {:induction false} LongHeaderNotFound(section: string)
    requires BareName(section) && !Fits(section)
    ensures var h := "[" + section + "]\n"; OneLine(h) && !OpensWith(h, section)
  {
    var h := "[" + section + "]\n";
    FindIs(h, '\n', |section| + 2);
    var t := h[MARKER_MAX..];
    assert t[0] == h[MARKER_MAX];
    BlankRunIs(t, 0);
  }

  /**
   * A file without the section reads back what is patched into it exactly when the section's name
   * fits the search buffer; a longer bare name is never found, so the same patch appends again.
   */
  lemma {:induction false} LongNameExactly(s: string, section: string, key: string, value: string)
    requires BareName(section) && PlainKey(key) && PlainValue(value)
    requires SectionAt(s, section).None? && Patch(s, section, key, value).Some?
    ensures var r := Patch(s, section, key, value).value;
            && (Lookup(r, section, key) == Some(key + " = " + value) <==> Fits(section))
            && (!Fits(section) ==> SectionAt(r, section).None?)
  {
    var r := Patch(s, section, key, value).value;
    assert r == s + Appended(section, key, value);
    hide SectionAt, Patch, PlainKey, PlainName, Assignment, OneLine, OpensWith, SectionText, KeyLineAt;
    if Fits(section) {
      PatchIsReadBack(s, section, key, value);
    } else {
      var line, h, a := Assignment(key, value), "[" + section + "]\n", s + "\n";
      LongHeaderNotFound(section);
      AssignmentAssigns(key, value);
      OpensLocally(line, "", section);
      AppendedIs(s, section, key, value);
      BlankLineBehind(s, section, key);
      NothingAtAll(section);
      assert line + "" == line && WholeLines(a);
      hide Fits, BareName, Appended;
      SectionBehind(a, h + line, section);
      SectionAtLine(h, line, section);
      SectionAtLine(line, "", section);
      NoSectionNoText(r, section);
    }
  }

  // -------------------------------------------------------------------- strings

  function EscapeChar(c: char): (s: string)
  {
    match c
    case '"' => "\\\""
    case '\\' => "\\\\"
    case '\n' => "\\n"
    case '\r' => "\\r"
    case '\t' => "\\t"
    case _ => [c]
  }

  function EscapeBody(s: string): (r: string)
  {
    if s == "" then "" else EscapeChar(s[0]) + EscapeBody(s[1..])
  }

  function Escaped(s: string): (r: string)
  {
    "\"" + EscapeBody(s) + "\""
  }

  /** Reads an escaped body back. */
  function UnescapeBody(r: string): (s: string)
  {
    if r == "" then ""
    else if r[0] != '\\' || |r| == 1 then [r[0]] + UnescapeBody(r[1..])
    else
      var c := match r[1] case 'n' => '\n' case 'r' => '\r' case 't' => '\t' case x => x;
      [c] + UnescapeBody(r[2..])
  }

  /** Escaping is invertible, and an escaped string is a plain value. */
  lemma {:induction false} EscapeInverts(s: string)
    ensures UnescapeBody(EscapeBody(s)) == s
    ensures PlainValue(Escaped(s))
  {
    EscapeBodyInverts(s);
  }

  lemma {:induction false} EscapeCharInverts(c: char, r: string)
    ensures UnescapeBody(EscapeChar(c) + r) == [c] + UnescapeBody(r)
    ensures PlainValue(EscapeChar(c))
  {
    var e := EscapeChar(c);
    assert (e + r)[|e|..] == r;
  }

  lemma {:induction false} EscapeBodyInverts(s: string)
    ensures UnescapeBody(EscapeBody(s)) == s && PlainValue(EscapeBody(s))
  {
    if s != "" {
      hide EscapeChar, UnescapeBody;
      EscapeBodyInverts(s[1..]);
      EscapeCharInverts(s[0], EscapeBody(s[1..]));
      assert s == [s[0]] + s[1..];
    } else {
      assert UnescapeBody("") == "";
    }
  }

  method EscapeTomlString(s: string) returns (r: string)
    ensures r == Escaped(s)
  {
    r := "\"";
    assert s[0..] == s;
    for i := 0 to |s|
      invariant r + EscapeBody(s[i..]) == "\"" + EscapeBody(s)
    {
      assert s[i..][1..] == s[i + 1..];
      ghost var rest := EscapeBody(s[i + 1..]);
      assert EscapeBody(s[i..]) == EscapeChar(s[i]) + rest;
      hide EscapeChar, EscapeBody;
      assert r + (EscapeChar(s[i]) + rest) == r + EscapeChar(s[i]) + rest;
      r := r + EscapeChar(s[i]);
    }
    r := r + "\"";
  }

  /** Patching a string value: the line found afterwards holds the escaped value, which reads back. */
  method PatchStringField(content: string, section: string, key: string, value: string) returns (r: Option<string>)
    requires PlainPair(section, key)
    ensures r == Patch(content, section, key, Escaped(value))
    ensures r.Some? ==>
              (Lookup(r.value, section, key) == Some(key + " = \"" + EscapeBody(value) + "\"") <==>
                  !Glued(content, section, key))
  {
    hide PlainPair, Patch, Lookup, Glued;
    var escaped := EscapeTomlString(value);
    r := PatchKeyLine(content, section, key, escaped);
    EscapeInverts(value);
    if r.Some? {
      PatchIsReadBack(content, section, key, escaped);
      hide EscapeBody;
      assert key + " = " + Escaped(value) == key + " = \"" + EscapeBody(value) + "\"";
    }
  }
}
