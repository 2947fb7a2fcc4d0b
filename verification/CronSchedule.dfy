/**
 * Schedules and next-run times (src/tools/cron.c). Local time is a map from instants to
 * broken-down times; an instant outside the map is one localtime_r fails on.
 */
module CronSchedule {
  import opened Text
  import opened Numbers

  /** Minutes searched for a match: 366 days. */
  const SEARCH_MINUTES := 366 * 24 * 60

  // ----------------------------------------------------------- cron expressions

  /** `lo == -1` matches anything; `hi == -1` makes `lo` the only match. */
  datatype Range = Range(lo: int, hi: int)

  datatype Fields = Fields(minute: Range, hour: Range, mday: Range, month: Range, wday: Range)

  datatype LocalTime = LocalTime(minute: int, hour: int, mday: int, month: int, wday: int)

  predicate FieldMatches(v: int, r: Range)
  {
    if r.lo == -1 then true else if r.hi == -1 then v == r.lo else r.lo <= v <= r.hi
  }

  predicate Matches(f: Fields, t: LocalTime)
  {
    && FieldMatches(t.minute, f.minute) && FieldMatches(t.hour, f.hour) && FieldMatches(t.mday, f.mday)
    && FieldMatches(t.month, f.month) && FieldMatches(t.wday, f.wday)
  }

  function ParseField(s: string, min: int, max: int): (r: Option<int>)
    ensures r.Some? ==> (s == "*" && r.value == -1) || (WholeNumber(s) && min <= r.value <= max)
  {
    if s == "*" then Some(-1)
    else if !WholeNumber(s) || ReadNumber(s).value < min || ReadNumber(s).value > max then None
    else Some(ReadNumber(s).value)
  }

  function ParseRange(s: string, min: int, max: int): (r: Option<Range>)
  {
    var dash := Find(s, '-');
    if dash == |s| then
      var lo := ParseField(s, min, max);
      if lo.None? then None else Some(Range(lo.value, -1))
    else if dash >= 32 then None
    else
      var lo, hi := ParseField(s[..dash], min, max), ParseField(s[dash + 1..], min, max);
      if lo.None? || hi.None? then None
      else Some(Range(lo.value, if hi.value == -1 then lo.value else hi.value))
  }

  function WordRun(s: string): (n: nat)
    ensures n <= |s| && (s != "" && !IsBlank(s[0]) ==> n > 0)
  {
    if s == "" || IsBlank(s[0]) then 0 else 1 + WordRun(s[1..])
  }

  /** The first `max` words of `s`. */
  function Words(s: string, max: nat): (ws: seq<string>)
    ensures |ws| <= max
    decreases max
  {
    var rest := s[BlankRun(s)..];
    if max == 0 || rest == "" then [] else [rest[..WordRun(rest)]] + Words(rest[WordRun(rest)..], max - 1)
  }

  function SundayIsZero(v: int): (r: int)
  {
    if v == 7 then 0 else v
  }

  /** Five ranges; words behind the fifth are not looked at. */
  function ParseExpr(s: string): (r: Option<Fields>)
  {
    var ws := Words(s, 5);
    if |s| >= 256 || |ws| != 5 then None
    else
      var a, b, c := ParseRange(ws[0], 0, 59), ParseRange(ws[1], 0, 23), ParseRange(ws[2], 1, 31);
      var d, e := ParseRange(ws[3], 1, 12), ParseRange(ws[4], 0, 7);
      if a.None? || b.None? || c.None? || d.None? || e.None? then None
      else Some(Fields(a.value, b.value, c.value, d.value, Range(SundayIsZero(e.value.lo), SundayIsZero(e.value.hi))))
  }

  // ------------------------------------------------- what an expression means

  /** A field that is a star or a number between the bounds. */
  predicate FieldOk(s: string, min: int, max: int)
  {
    s == "*" || (WholeNumber(s) && min <= ReadNumber(s).value <= max)
  }

  /** The parts before and behind the first dash. */
  predicate Split(s: string, a: string, b: string)
  {
    s == a + "-" + b && '-' !in a
  }

  /** The field lets the value pass; a range is two such parts with the first dash between them. */
  ghost predicate Lets(s: string, v: int)
  {
    if '-' !in s then s == "*" || v == ReadNumber(s).value
    else exists a, b :: Split(s, a, b) && LetsBetween(a, b, v)
  }

  predicate LetsBetween(a: string, b: string, v: int)
  {
    if a == "*" then true
    else if b == "*" then v == ReadNumber(a).value
    else ReadNumber(a).value <= v <= ReadNumber(b).value
  }

  ghost predicate RangeOk(s: string, min: int, max: int)
  {
    if '-' !in s then FieldOk(s, min, max)
    else exists a, b :: Split(s, a, b) && |a| < 32 && FieldOk(a, min, max) && FieldOk(b, min, max)
  }

  lemma {:induction false} DashAt(s: string, a: string, b: string)
    requires Split(s, a, b)
    ensures Find(s, '-') == |a| < |s| && s[..|a|] == a && s[|a| + 1..] == b
  {
    FindIs(s, '-', |a|);
  }

  /** A range is accepted exactly when its parts are, and then lets pass what they say. */
  lemma {:induction false} RangeMeans(s: string, min: int, max: int, v: int)
    requires min >= 0
    ensures ParseRange(s, min, max).Some? <==> RangeOk(s, min, max)
    ensures ParseRange(s, min, max).Some? ==> (FieldMatches(v, ParseRange(s, min, max).value) <==> Lets(s, v))
  {
    hide WholeNumber, ReadNumber;
    var k := Find(s, '-');
    if k < |s| {
      assert Split(s, s[..k], s[k + 1..]);
      forall a, b | Split(s, a, b) ensures a == s[..k] && b == s[k + 1..] {
        DashAt(s, a, b);
      }
      hide Find, Split;
    }
  }

  lemma {:induction false} BlankRunOver(blanks: string, rest: string)
    requires (forall i :: 0 <= i < |blanks| ==> IsBlank(blanks[i])) && (rest != "" ==> !IsBlank(rest[0]))
    ensures BlankRun(blanks + rest) == |blanks|
  {
    if blanks == "" {
      assert blanks + rest == rest;
    } else {
      assert (blanks + rest)[1..] == blanks[1..] + rest;
      BlankRunOver(blanks[1..], rest);
    }
  }

  lemma {:induction false} WordRunOver(word: string, rest: string)
    requires (forall i :: 0 <= i < |word| ==> !IsBlank(word[i])) && (rest != "" ==> IsBlank(rest[0]))
    ensures WordRun(word + rest) == |word|
  {
    if word == "" {
      assert word + rest == rest;
    } else {
      assert (word + rest)[1..] == word[1..] + rest;
      WordRunOver(word[1..], rest);
    }
  }

  /** Words are what stands between blanks. */
  lemma {:induction false} WordsAre(blanks: string, word: string, rest: string, max: nat)
    requires forall i :: 0 <= i < |blanks| ==> IsBlank(blanks[i])
    requires forall i :: 0 <= i < |word| ==> !IsBlank(word[i])
    requires rest != "" ==> IsBlank(rest[0])
    ensures Words(blanks, max) == []
    ensures word != "" && max > 0 ==> Words(blanks + (word + rest), max) == [word] + Words(rest, max - 1)
  {
    BlankRunOver(blanks, "");
    assert blanks + "" == blanks;
    if word != "" && max > 0 {
      var s := blanks + (word + rest);
      BlankRunOver(blanks, word + rest);
      WordRunOver(word, rest);
      assert s[|blanks|..] == word + rest;
      assert (word + rest)[..|word|] == word && (word + rest)[|word|..] == rest;
      hide BlankRun, WordRun;
    }
  }

  /** The part of the day-of-week range with 7, another name for Sunday, taken as 0. */
  ghost predicate LetsDay(s: string, v: int)
  {
    if '-' !in s then s == "*" || v == ReadNumber(s).value || (ReadNumber(s).value == 7 && v == 0)
    else exists a, b :: Split(s, a, b) && LetsDays(a, b, v)
  }

  predicate LetsDays(a: string, b: string, v: int)
  {
    if a == "*" then true
    else if b == "*" then v == ReadNumber(a).value % 7
    else ReadNumber(a).value % 7 <= v <= ReadNumber(b).value % 7
  }

  /** What an expression accepts: at least five words, each a range within its bounds. */
  ghost predicate ExprOk(s: string)
  {
    var ws := Words(s, 5);
    && |s| < 256 && |ws| == 5
    && RangeOk(ws[0], 0, 59) && RangeOk(ws[1], 0, 23) && RangeOk(ws[2], 1, 31) && RangeOk(ws[3], 1, 12)
    && RangeOk(ws[4], 0, 7)
  }

  /** The words are minute, hour, day of the month, month and day of the week. */
  ghost predicate ExprLets(s: string, t: LocalTime)
  {
    var ws := Words(s, 5);
    && |ws| == 5
    && Lets(ws[0], t.minute) && Lets(ws[1], t.hour) && Lets(ws[2], t.mday) && Lets(ws[3], t.month)
    && LetsDay(ws[4], t.wday)
  }

  lemma {:induction false} ExprMeans(s: string, t: LocalTime)
    requires 0 <= t.wday <= 6
    ensures ParseExpr(s).Some? <==> ExprOk(s)
    ensures ParseExpr(s).Some? ==> (Matches(ParseExpr(s).value, t) <==> ExprLets(s, t))
  {
    hide ParseRange, RangeOk, FieldMatches, Lets, LetsDay, Words, SundayIsZero;
    var ws := Words(s, 5);
    if |ws| == 5 {
      RangeMeans(ws[0], 0, 59, t.minute);
      RangeMeans(ws[1], 0, 23, t.hour);
      RangeMeans(ws[2], 1, 31, t.mday);
      RangeMeans(ws[3], 1, 12, t.month);
      RangeMeans(ws[4], 0, 7, t.wday);
      if ParseRange(ws[4], 0, 7).Some? { DayMeans(ws[4], t.wday); }
    }
  }

  lemma {:induction false} DayMeans(s: string, v: int)
    requires ParseRange(s, 0, 7).Some? && 0 <= v <= 6
    ensures var r := ParseRange(s, 0, 7).value;
            FieldMatches(v, Range(SundayIsZero(r.lo), SundayIsZero(r.hi))) <==> LetsDay(s, v)
  {
    hide WholeNumber, ReadNumber;
    var k := Find(s, '-');
    if k < |s| {
      assert Split(s, s[..k], s[k + 1..]);
      forall a, b | Split(s, a, b) ensures a == s[..k] && b == s[k + 1..] {
        DashAt(s, a, b);
      }
      hide Find, Split;
    }
  }

  // ----------------------------------------------------------------- the search

  /** C's `%`: the remainder has the sign of the dividend. */
  function CMod(a: int, b: int): (r: int)
    requires b > 0
    ensures -b < r < b && (a >= 0 ==> 0 <= r) && (a <= 0 ==> r <= 0)
  {
    if a >= 0 then a % b else -((-a) % b)
  }

  /** Where the search starts. */
  function FirstMinute(now: int): (t: int)
  {
    now - CMod(now, 60) + 60
  }

  /** `t` is the least whole minute strictly after `now`. */
  predicate NextMinute(now: int, t: int)
  {
    t % 60 == 0 && now < t <= now + 60
  }

  /**
   * The search starts on the next whole minute exactly for instants since the epoch and
   * whole minutes before it; from any other instant before the epoch it skips that minute.
   */
  lemma {:induction false} SearchStart(now: int)
    ensures FirstMinute(now) % 60 == 0 && FirstMinute(now) > now
    ensures NextMinute(now, FirstMinute(now)) <==> now >= 0 || now % 60 == 0
    ensures !NextMinute(now, FirstMinute(now)) ==> NextMinute(now, FirstMinute(now) - 60)
  {
    if now < 0 {
      var m := -now;
      assert m == 60 * (m / 60) + m % 60;
      assert FirstMinute(now) == 60 * (1 - m / 60);
      MinuteMultiple(1 - m / 60);
      MinuteMultiple(-(m / 60));
      if now % 60 == 0 { assert now == 60 * (now / 60); }
    } else {
      assert now == 60 * (now / 60) + now % 60;
      MinuteMultiple(now / 60 + 1);
    }
  }

  lemma {:induction false} MinuteMultiple(q: int)
    ensures (60 * q) % 60 == 0
  {
  }

  /** First match among `n` minutes from `t`; a failing localtime_r ends the search. */
  function FirstMatch(f: Fields, t: int, n: nat, local: map<int, LocalTime>): (r: Option<int>)
    decreases n
  {
    if n == 0 || t !in local then None
    else if Matches(f, local[t]) then Some(t)
    else FirstMatch(f, t + 60, n - 1, local)
  }

  /** Minute `i` of the search matches and every earlier one was read and did not. */
  ghost predicate LeastMatch(f: Fields, t: int, n: nat, local: map<int, LocalTime>, i: nat)
  {
    && i < n
    && t + 60 * i in local && Matches(f, local[t + 60 * i])
    && forall j :: 0 <= j < i ==> Missed(f, t + 60 * j, local)
  }

  ghost predicate Missed(f: Fields, t: int, local: map<int, LocalTime>)
  {
    t in local && !Matches(f, local[t])
  }

  lemma {:induction false} FirstMatchFound(f: Fields, t: int, n: nat, local: map<int, LocalTime>, i: nat)
    requires LeastMatch(f, t, n, local, i)
    ensures FirstMatch(f, t, n, local) == Some(t + 60 * i)
    decreases i
  {
    if i > 0 {
      assert Missed(f, t + 60 * 0, local);
      forall j | 0 <= j < i - 1 ensures Missed(f, t + 60 + 60 * j, local) {
        assert Missed(f, t + 60 * (j + 1), local);
      }
      FirstMatchFound(f, t + 60, n - 1, local, i - 1);
    }
  }

  lemma {:induction false} FirstMatchIndex(f: Fields, t: int, n: nat, local: map<int, LocalTime>) returns (i: nat)
    requires FirstMatch(f, t, n, local).Some?
    ensures LeastMatch(f, t, n, local, i) && FirstMatch(f, t, n, local) == Some(t + 60 * i)
    decreases n
  {
    if Matches(f, local[t]) {
      i := 0;
    } else {
      var k := FirstMatchIndex(f, t + 60, n - 1, local);
      i := k + 1;
      forall j | 0 <= j < i ensures Missed(f, t + 60 * j, local) {
        if j > 0 { assert Missed(f, t + 60 + 60 * (j - 1), local); }
      }
    }
  }

  /**
   * `m` is the least whole minute strictly after `after` that matches, within the window of the
   * search from `now`, and the local time of every minute before it can be read.
   */
  ghost predicate LeastMinute(f: Fields, now: int, after: int, local: map<int, LocalTime>, m: int)
  {
    && m % 60 == 0 && after < m < FirstMinute(now) + 60 * SEARCH_MINUTES
    && m in local && Matches(f, local[m])
    && forall x :: x % 60 == 0 && after < x < m ==> Missed(f, x, local)
  }

  /**
   * For any local-time function, also one that fails: the search yields `m` if and only if `m` is
   * the least matching minute behind the one it starts after. That one is `now` itself for every
   * instant since the epoch and every whole minute before it.
   */
  lemma {:induction false} SearchExact(f: Fields, now: int, local: map<int, LocalTime>, m: int)
    ensures var r := FirstMatch(f, FirstMinute(now), SEARCH_MINUTES, local);
            && (r == Some(m) <==> LeastMinute(f, now, FirstMinute(now) - 60, local, m))
            && (now >= 0 || now % 60 == 0 ==> (r == Some(m) <==> LeastMinute(f, now, now, local, m)))
  {
    SearchStart(now);
    var t := FirstMinute(now);
    if FirstMatch(f, t, SEARCH_MINUTES, local) == Some(m) {
      var i := FirstMatchIndex(f, t, SEARCH_MINUTES, local);
      hide FirstMatch, FirstMinute, Matches;
      LeastByIndex(f, t, local, m, i);
      assert LeastMinute(f, now, t - 60, local, m);
    }
    if LeastMinute(f, now, t - 60, local, m) {
      hide FirstMatch, FirstMinute, Matches;
      var i := IndexOfLeast(f, t, local, m);
      FirstMatchFound(f, t, SEARCH_MINUTES, local, i);
    }
    if now >= 0 || now % 60 == 0 { SameMinutes(f, now, local, m); }
  }

  lemma {:induction false} LeastByIndex(f: Fields, t: int, local: map<int, LocalTime>, m: int, i: nat)
    requires t % 60 == 0 && LeastMatch(f, t, SEARCH_MINUTES, local, i) && m == t + 60 * i
    ensures m % 60 == 0 && t - 60 < m < t + 60 * SEARCH_MINUTES && m in local && Matches(f, local[m])
    ensures forall x :: x % 60 == 0 && t - 60 < x < m ==> Missed(f, x, local)
  {
    hide Matches, Missed;
    assert t == 60 * (t / 60);
    MinuteMultiple(t / 60 + i);
    assert m == 60 * (t / 60 + i);
    forall x | x % 60 == 0 && t - 60 < x < m ensures Missed(f, x, local) {
      var j := x / 60 - t / 60;
      assert x == t + 60 * j && 0 <= j < i;
    }
  }

  lemma {:induction false} IndexOfLeast(f: Fields, t: int, local: map<int, LocalTime>, m: int) returns (i: nat)
    requires t % 60 == 0 && m % 60 == 0 && t - 60 < m < t + 60 * SEARCH_MINUTES && m in local && Matches(f, local[m])
    requires forall x :: x % 60 == 0 && t - 60 < x < m ==> Missed(f, x, local)
    ensures LeastMatch(f, t, SEARCH_MINUTES, local, i) && m == t + 60 * i
  {
    hide Matches, Missed;
    i := m / 60 - t / 60;
    assert m == t + 60 * i;
    forall j | 0 <= j < i ensures Missed(f, t + 60 * j, local) {
      MinuteMultiple(t / 60 + j);
      assert t + 60 * j == 60 * (t / 60 + j);
    }
  }

  /** No whole minute lies between `now` and the minute the search starts after. */
  lemma {:induction false} SameMinutes(f: Fields, now: int, local: map<int, LocalTime>, m: int)
    requires NextMinute(now, FirstMinute(now))
    ensures LeastMinute(f, now, FirstMinute(now) - 60, local, m) <==> LeastMinute(f, now, now, local, m)
  {
    hide Matches, Missed, FirstMinute;
  }

  /** A whole minute among those the search from `now` may try. */
  predicate InWindow(now: int, m: int)
  {
    m % 60 == 0 && FirstMinute(now) <= m < FirstMinute(now) + 60 * SEARCH_MINUTES
  }

  /** Among the minutes of the window before `m` there is one whose local time cannot be read. */
  ghost predicate BehindGap(now: int, m: int, local: map<int, LocalTime>)
  {
    exists x :: InWindow(now, x) && x < m && x !in local
  }

  /**
   * The search fails if and only if every matching minute of its window stands behind one whose
   * local time cannot be read; with all of them readable, if and only if none matches.
   */
  lemma {:induction false} SearchFailsExactly(f: Fields, now: int, local: map<int, LocalTime>)
    ensures FirstMatch(f, FirstMinute(now), SEARCH_MINUTES, local).None? <==>
              forall m :: InWindow(now, m) && m in local && Matches(f, local[m]) ==> BehindGap(now, m, local)
    ensures (forall m :: InWindow(now, m) ==> m in local) ==>
              (FirstMatch(f, FirstMinute(now), SEARCH_MINUTES, local).None? <==>
                 forall m :: InWindow(now, m) ==> !Matches(f, local[m]))
  {
    SearchStart(now);
    var r := FirstMatch(f, FirstMinute(now), SEARCH_MINUTES, local);
    hide FirstMatch, FirstMinute, Matches;
    if r.Some? {
      SearchExact(f, now, local, r.value);
      LeastIsReadable(f, now, local, r.value);
    } else {
      forall m | InWindow(now, m) && m in local && Matches(f, local[m]) ensures BehindGap(now, m, local) {
        if !BehindGap(now, m, local) { MinuteFound(f, now, local, m); }
      }
    }
  }

  lemma {:induction false} LeastIsReadable(f: Fields, now: int, local: map<int, LocalTime>, m: int)
    requires LeastMinute(f, now, FirstMinute(now) - 60, local, m)
    ensures InWindow(now, m) && m in local && Matches(f, local[m]) && !BehindGap(now, m, local)
  {
    SearchStart(now);
    hide FirstMinute, Matches;
    assert m >= FirstMinute(now) by {
      assert m == 60 * (m / 60) && FirstMinute(now) == 60 * (FirstMinute(now) / 60);
    }
    forall x | InWindow(now, x) && x < m ensures x in local {
      assert Missed(f, x, local);
    }
  }

  lemma {:induction false} MinuteFound(f: Fields, now: int, local: map<int, LocalTime>, m: int)
    requires InWindow(now, m) && m in local && Matches(f, local[m]) && !BehindGap(now, m, local)
    ensures FirstMatch(f, FirstMinute(now), SEARCH_MINUTES, local).Some?
  {
    SearchStart(now);
    var t := FirstMinute(now);
    hide FirstMatch, FirstMinute, Matches;
    var i := m / 60 - t / 60;
    assert m == t + 60 * i;
    forall j | 0 <= j <= i ensures t + 60 * j in local {
      MinuteMultiple(t / 60 + j);
      assert t + 60 * j == 60 * (t / 60 + j);
      assert InWindow(now, t + 60 * j);
    }
    ReadableMatchFound(f, t, SEARCH_MINUTES, local, i);
  }

  lemma {:induction false} ReadableMatchFound(f: Fields, t: int, n: nat, local: map<int, LocalTime>, i: nat)
    requires i < n && (forall j :: 0 <= j <= i ==> t + 60 * j in local) && Matches(f, local[t + 60 * i])
    ensures FirstMatch(f, t, n, local).Some?
    decreases i
  {
    hide Matches;
    assert t + 60 * 0 in local;
    if i > 0 {
      forall j | 0 <= j <= i - 1 ensures t + 60 + 60 * j in local {
        assert t + 60 * (j + 1) in local;
      }
      ReadableMatchFound(f, t + 60, n - 1, local, i - 1);
    }
  }

  method NextFromExpr(f: Fields, now: int, local: map<int, LocalTime>) returns (r: Option<int>)
    ensures r == FirstMatch(f, FirstMinute(now), SEARCH_MINUTES, local)
  {
    var t := FirstMinute(now);
    ghost var start := t;
    if t !in local { return None; }
    var i := 0;
    while i < SEARCH_MINUTES
      invariant 0 <= i <= SEARCH_MINUTES && t in local
      invariant FirstMatch(f, start, SEARCH_MINUTES, local) == FirstMatch(f, t, SEARCH_MINUTES - i, local)
    {
      hide Matches;
      if Matches(f, local[t]) { return Some(t); }
      t := t + 60;
      if t !in local { return None; }
      i := i + 1;
    }
    r := None;
  }

  // ------------------------------------------------------------------ schedules

  /** `now` plus the interval, unless the text, its sign or the sum is out of range. */
  function IntervalNext(num: string, now: int): (r: Option<int>)
    ensures r.Some? ==> now < r.value <= LLONG_MAX && WholeNumber(num) && r.value == now + ReadNumber(num).value
  {
    if !WholeNumber(num) then None
    else
      var sec := ReadNumber(num).value;
      if sec > LLONG_MAX || sec <= 0 || now < 0 || sec > LLONG_MAX - now then None else Some(now + sec)
  }

  predicate OneShot(schedule: string)
  {
    "at:" <= schedule
  }

  function ExprNext(text: string, now: int, local: map<int, LocalTime>): (r: Option<int>)
  {
    var f := ParseExpr(text);
    if f.None? then None
    else
      var t := FirstMatch(f.value, FirstMinute(now), SEARCH_MINUTES, local);
      if t.None? || t.value < 0 then None else t
  }

  /** The run after `now` that a schedule asks for. */
  function NextRun(schedule: string, now: int, local: map<int, LocalTime>): (r: Option<int>)
  {
    if "interval:" <= schedule then IntervalNext(schedule[9..], now)
    else if OneShot(schedule) then
      if WholeNumber(schedule[3..]) then Some(Saturated(ReadNumber(schedule[3..]).value)) else None
    else ExprNext(if "cron:" <= schedule then schedule[5..] else schedule, now, local)
  }

  /** A repeating schedule never asks for a run that is already due. */
  lemma {:induction false} NextRunIsLater(schedule: string, now: int, local: map<int, LocalTime>)
    requires !OneShot(schedule) && NextRun(schedule, now, local).Some?
    ensures NextRun(schedule, now, local).value > now
  {
    hide ParseExpr, WholeNumber;
    if !("interval:" <= schedule) {
      var text := if "cron:" <= schedule then schedule[5..] else schedule;
      var f := ParseExpr(text).value;
      var i := FirstMatchIndex(f, FirstMinute(now), SEARCH_MINUTES, local);
      SearchStart(now);
      hide FirstMatch, FirstMinute;
    }
  }

  method ParseNextRun(schedule: string, now: int, local: map<int, LocalTime>) returns (r: Option<int>)
    ensures r == NextRun(schedule, now, local)
  {
    hide ParseExpr, WholeNumber, ReadNumber, FirstMatch;
    if "interval:" <= schedule { return IntervalNext(schedule[9..], now); }
    if OneShot(schedule) {
      if !WholeNumber(schedule[3..]) { return None; }
      return Some(Saturated(ReadNumber(schedule[3..]).value));
    }
    var text := if "cron:" <= schedule then schedule[5..] else schedule;
    var f := ParseExpr(text);
    if f.None? { return None; }
    var t := NextFromExpr(f.value, now, local);
    if t.None? || t.value < 0 { return None; }
    r := t;
  }

  /** The least matching minute behind the one the search starts after, and since the epoch. */
  ghost predicate NextMatch(text: string, now: int, local: map<int, LocalTime>, m: int)
  {
    ParseExpr(text).Some? && m >= 0 && LeastMinute(ParseExpr(text).value, now, FirstMinute(now) - 60, local, m)
  }

  /**
   * What a schedule asks for: an interval, `now` plus its positive number, if that is in range; a
   * time, that number; anything else, with its prefix or without, the least match of an expression.
   */
  lemma {:induction false} ScheduleExactly(schedule: string, now: int, local: map<int, LocalTime>, m: int)
    ensures var r := NextRun(schedule, now, local);
            if "interval:" <= schedule then
              var num := schedule[9..];
              r == Some(m) <==> WholeNumber(num) && ReadNumber(num).value > 0 && now >= 0
                                && m == now + ReadNumber(num).value <= 9223372036854775807
            else if "at:" <= schedule then
              var num := schedule[3..];
              var n := ReadNumber(num).value;
              r == Some(m) <==> WholeNumber(num)
                                && m == if n > 9223372036854775807 then 9223372036854775807
                                        else if n < -9223372036854775808 then -9223372036854775808 else n
            else
              r == Some(m) <==> NextMatch(if "cron:" <= schedule then schedule[5..] else schedule, now, local, m)
  {
    hide WholeNumber, ReadNumber, ParseExpr, FirstMatch, FirstMinute;
    if !("interval:" <= schedule) && !("at:" <= schedule) {
      var f := ParseExpr(if "cron:" <= schedule then schedule[5..] else schedule);
      if f.Some? {
        SearchExact(f.value, now, local, m);
        hide LeastMinute;
      }
    }
  }

  /** A range of days from one to six up to 7 ends on Sunday taken as 0, so no day is in it. */
  lemma {:induction false} RangeToSevenIsEmpty(a: string, v: int)
    requires '-' !in a && |a| < 32 && WholeNumber(a) && 1 <= ReadNumber(a).value <= 6 && 0 <= v <= 6
    ensures RangeOk(a + "-" + "7", 0, 7) && !LetsDay(a + "-" + "7", v)
  {
    SevenReads();
    OnlySplit(a, "7");
    hide WholeNumber, ReadNumber, Split;
    EmptyDays(a + "-" + "7", a, "7", v);
  }

  /** So an expression with such a range never has a next run. */
  lemma {:induction false} RangeToSevenHasNoRun(text: string, a: string, now: int, local: map<int, LocalTime>)
    requires !("interval:" <= text) && !("at:" <= text) && !("cron:" <= text)
    requires |Words(text, 5)| == 5 && Words(text, 5)[4] == a + "-" + "7"
    requires '-' !in a && |a| < 32 && WholeNumber(a) && 1 <= ReadNumber(a).value <= 6
    requires forall t :: t in local ==> 0 <= local[t].wday <= 6
    ensures NextRun(text, now, local).None?
  {
    var r := NextRun(text, now, local);
    if r.Some? {
      ScheduleExactly(text, now, local, r.value);
      var t := local[r.value];
      assert Matches(ParseExpr(text).value, t);
      hide *;
      ExprMeans(text, t);
      RangeToSevenIsEmpty(a, t.wday);
      FifthWordLets(text, t);
    }
  }

  lemma {:induction false} FifthWordLets(s: string, t: LocalTime)
    requires ExprLets(s, t)
    ensures |Words(s, 5)| == 5 && LetsDay(Words(s, 5)[4], t.wday)
  {
    hide Words, Lets, LetsDay;
  }

  lemma {:induction false} EmptyDays(s: string, a: string, b: string, v: int)
    requires '-' in s && Split(s, a, b) && forall x, y :: Split(s, x, y) ==> x == a && y == b
    requires |a| < 32 && WholeNumber(a) && 1 <= ReadNumber(a).value <= 6 && 0 <= v <= 6 && a != "*"
    requires WholeNumber(b) && ReadNumber(b).value == 7 && b != "*"
    ensures RangeOk(s, 0, 7) && !LetsDay(s, v)
  {
    hide WholeNumber, ReadNumber, Split;
  }

  lemma {:induction false} SevenReads()
    ensures WholeNumber("7") && ReadNumber("7").value == 7 && !WholeNumber("*")
  {
    assert !WholeNumber("*") by { assert "*"[0..] == "*"; }
    assert "7"[..0] == "";
    SpelledReads("7", "", "", "7");
    hide WholeNumber, ReadNumber;
  }

  lemma {:induction false} OnlySplit(a: string, b: string)
    requires '-' !in a
    ensures '-' in a + "-" + b && Split(a + "-" + b, a, b)
    ensures forall x, y :: Split(a + "-" + b, x, y) ==> x == a && y == b
  {
    var s := a + "-" + b;
    assert s[|a|] == '-';
    DashAt(s, a, b);
    forall x, y | Split(s, x, y) ensures x == a && y == b {
      DashAt(s, x, y);
    }
  }
}
