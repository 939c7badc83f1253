/**
 * The open-tasks banner: the day/month read out of a task's start-date
 * text, the rule that decides whether a task is open now, and the list of
 * open tasks the banner shows.
 */
module OpenTasksBanner {
  import opened Wrappers
  import opened Markup
  import opened TimeUnits

  /** The year the start date is taken to fall in. */
  const ASSUMED_YEAR: int := 2026

  /** The text between two entries of the banner. */
  const SEPARATOR: string := "   ✦   "

  /** The days after which a task without a start date is no longer flagged. */
  const HORIZON_DAYS: int := 5

  /** A day and a month as read from the start-date text; `month` is zero-based, as `new Date` takes it. */
  datatype DayMonth = DayMonth(day: int, month: int)

  // ---------------------------------------------------------------------
  // String.prototype.trim

  /** The characters JavaScript's trim removes: white space and line terminators. */
  predicate IsTrimmable(c: char) {
    // tab, line feed, vertical tab, form feed, carriage return, space
    c == '\t' || c == '\n' || c == '\U{000B}' || c == '\U{000C}' || c == '\r' || c == ' '
    // no-break space, Ogham space mark, the spaces U+2000..U+200A
    || c == '\U{00A0}' || c == '\U{1680}' || ('\U{2000}' <= c <= '\U{200A}')
    // line and paragraph separators
    || c == '\U{2028}' || c == '\U{2029}'
    // narrow no-break, medium mathematical and ideographic spaces, byte order mark
    || c == '\U{202F}' || c == '\U{205F}' || c == '\U{3000}' || c == '\U{FEFF}'
  }

  /** String.prototype.trimStart. */
  function TrimStart(s: string): string {
    if s != [] && IsTrimmable(s[0]) then TrimStart(s[1..]) else s
  }

  /** String.prototype.trimEnd. */
  function TrimEnd(s: string): string {
    if s != [] && IsTrimmable(s[|s| - 1]) then TrimEnd(s[..|s| - 1]) else s
  }

  /** String.prototype.trim. */
  function Trim(s: string): string {
    TrimEnd(TrimStart(s))
  }

  /** trimStart keeps a suffix that does not start with a trimmable character, and cuts off only trimmable ones. */
  lemma {:induction false} TrimStartCuts(s: string)
    ensures var r := TrimStart(s);
            && |r| <= |s| && r == s[|s| - |r|..]
            && (forall i :: 0 <= i < |s| - |r| ==> IsTrimmable(s[i]))
            && (r == [] || !IsTrimmable(r[0]))
  {
    if s != [] && IsTrimmable(s[0]) {
      TrimStartCuts(s[1..]);
      var r := TrimStart(s);
      assert s[1..][|s| - 1 - |r|..] == s[|s| - |r|..];
      forall i | 1 <= i < |s| - |r|
        ensures IsTrimmable(s[i])
      {
        assert s[i] == s[1..][i - 1];
      }
    }
  }

  /** trimEnd keeps a prefix that does not end with a trimmable character, and cuts off only trimmable ones. */
  lemma {:induction false} TrimEndCuts(s: string)
    ensures var r := TrimEnd(s);
            && |r| <= |s| && r == s[..|r|]
            && (forall i :: |r| <= i < |s| ==> IsTrimmable(s[i]))
            && (r == [] || !IsTrimmable(r[|r| - 1]))
  {
    if s != [] && IsTrimmable(s[|s| - 1]) {
      TrimEndCuts(s[..|s| - 1]);
      var r := TrimEnd(s);
      assert s[..|s| - 1][..|r|] == s[..|r|];
      forall i | |r| <= i < |s| - 1
        ensures IsTrimmable(s[i])
      {
        assert s[i] == s[..|s| - 1][i];
      }
    }
  }

  /**
   * Trim keeps the contiguous slice `s[a..b]`, which neither starts nor ends
   * with a trimmable character, and cuts off only trimmable characters
   * before `a` and from `b` on.
   */
  lemma TrimCuts(s: string) returns (a: nat, b: nat)
    ensures a <= b <= |s| && Trim(s) == s[a..b]
    ensures forall i :: 0 <= i < a ==> IsTrimmable(s[i])
    ensures forall i :: b <= i < |s| ==> IsTrimmable(s[i])
    ensures Trim(s) == [] || (!IsTrimmable(Trim(s)[0]) && !IsTrimmable(Trim(s)[|Trim(s)| - 1]))
  {
    var t := TrimStart(s);
    TrimStartCuts(s);
    TrimEndCuts(t);
    var r := TrimEnd(t);
    a := |s| - |t|;
    b := a + |r|;
    assert r == s[a..b] by {
      assert t == s[a..] && r == t[..|r|];
    }
    forall i | b <= i < |s|
      ensures IsTrimmable(s[i])
    {
      assert s[i] == t[i - a];
    }
    if r != [] {
      assert r[0] == t[0];
    }
  }

  // ---------------------------------------------------------------------
  // The search /(\d{1,2})\/(\d{1,2})/

  predicate IsDigit(c: char) {
    '0' <= c <= '9'
  }

  predicate DigitAt(s: string, i: nat) {
    i < |s| && IsDigit(s[i])
  }

  predicate SlashAt(s: string, i: nat) {
    i < |s| && s[i] == '/'
  }

  function DigitValue(c: char): int {
    c as int - '0' as int
  }

  /** The month group read greedily from position `i` (one or two digits), made zero-based. */
  function MonthAt(s: string, i: nat): int
    requires DigitAt(s, i)
  {
    (if DigitAt(s, i + 1) then 10 * DigitValue(s[i]) + DigitValue(s[i + 1]) else DigitValue(s[i])) - 1
  }

  /**
   * A match anchored at the start of `s`. The day group tries two digits
   * first and falls back to one; the month group takes two digits when it
   * can.
   */
  function MatchPrefix(s: string): Option<DayMonth> {
    if DigitAt(s, 0) && DigitAt(s, 1) && SlashAt(s, 2) && DigitAt(s, 3) then
      Some(DayMonth(10 * DigitValue(s[0]) + DigitValue(s[1]), MonthAt(s, 3)))
    else if DigitAt(s, 0) && SlashAt(s, 1) && DigitAt(s, 2) then
      Some(DayMonth(DigitValue(s[0]), MonthAt(s, 2)))
    else
      None
  }

  /** The unanchored search: the match at the leftmost position where one starts. */
  function FindDayMonth(s: string): Option<DayMonth> {
    if s == [] then None
    else if MatchPrefix(s).Some? then MatchPrefix(s)
    else FindDayMonth(s[1..])
  }

  /** The start day/month of a task: from its trimmed start-date text, when it has one and the search finds a match. */
  function StartDay(task: Task): Option<DayMonth> {
    match task.startText
    case None => None
    case Some(text) => FindDayMonth(Trim(text))
  }

  /**
   * The search finds the first match: it fails exactly when no position
   * starts a match, and otherwise returns the match at a position before
   * which none starts.
   */
  lemma {:induction false} FindIsFirstMatch(s: string)
    ensures FindDayMonth(s).None? <==> forall i :: 0 <= i < |s| ==> MatchPrefix(s[i..]).None?
    ensures FindDayMonth(s).Some? ==>
              exists i :: 0 <= i < |s| && MatchPrefix(s[i..]) == FindDayMonth(s)
                          && forall j :: 0 <= j < i ==> MatchPrefix(s[j..]).None?
  {
    if s != [] {
      FindIsFirstMatch(s[1..]);
      assert s[0..] == s;
      assert forall i :: 0 <= i < |s| - 1 ==> s[1..][i..] == s[i + 1..];
      if MatchPrefix(s).None? && FindDayMonth(s[1..]).Some? {
        var i :| 0 <= i < |s| - 1 && MatchPrefix(s[1..][i..]) == FindDayMonth(s[1..])
                 && forall j :: 0 <= j < i ==> MatchPrefix(s[1..][j..]).None?;
        assert MatchPrefix(s[i + 1..]) == FindDayMonth(s);
        forall j | 0 <= j < i + 1
          ensures MatchPrefix(s[j..]).None?
        {
          if j > 0 {
            assert s[j..] == s[1..][j - 1..];
          }
        }
      }
      if FindDayMonth(s).None? {
        forall i | 0 <= i < |s|
          ensures MatchPrefix(s[i..]).None?
        {
          if i > 0 {
            assert s[i..] == s[1..][i - 1..];
          }
        }
      }
    }
  }

  /** A character that is neither a digit nor a slash cannot take part in a match. */
  predicate Inert(c: char) {
    !IsDigit(c) && c != '/'
  }

  /** Dropping a final inert character changes no match. */
  lemma MatchPrefixDropLast(s: string)
    requires s != [] && Inert(s[|s| - 1])
    ensures MatchPrefix(s[..|s| - 1]) == MatchPrefix(s)
  {
    var t := s[..|s| - 1];
    assert forall i: nat :: DigitAt(t, i) == DigitAt(s, i) && SlashAt(t, i) == SlashAt(s, i);
  }

  /** Dropping a final inert character does not change what the search finds. */
  lemma {:induction false} FindDropLast(s: string)
    requires s != [] && Inert(s[|s| - 1])
    ensures FindDayMonth(s[..|s| - 1]) == FindDayMonth(s)
  {
    MatchPrefixDropLast(s);
    if |s| > 1 {
      assert s[..|s| - 1][1..] == s[1..][..|s[1..]| - 1];
      FindDropLast(s[1..]);
    }
  }

  lemma {:induction false} FindIgnoresTrimStart(s: string)
    ensures FindDayMonth(TrimStart(s)) == FindDayMonth(s)
  {
    if s != [] && IsTrimmable(s[0]) {
      FindIgnoresTrimStart(s[1..]);
    }
  }

  lemma {:induction false} FindIgnoresTrimEnd(s: string)
    ensures FindDayMonth(TrimEnd(s)) == FindDayMonth(s)
  {
    if s != [] && IsTrimmable(s[|s| - 1]) {
      FindDropLast(s);
      FindIgnoresTrimEnd(s[..|s| - 1]);
    }
  }

  /** Trimming the start-date text never changes the day/month found in it. */
  lemma FindIgnoresTrim(s: string)
    ensures FindDayMonth(Trim(s)) == FindDayMonth(s)
  {
    FindIgnoresTrimStart(s);
    FindIgnoresTrimEnd(TrimStart(s));
  }

  /** The character of a decimal digit. */
  function DigitChar(d: nat): (c: char)
    requires d < 10
    ensures IsDigit(c) && DigitValue(c) == d
  {
    ('0' as int + d) as char
  }

  /** The decimal text of a number below 100: one digit, or two when it is 10 or more or `padded` asks for it. */
  function Written(n: nat, padded: bool): string
    requires n < 100
  {
    if n < 10 && !padded then [DigitChar(n)] else [DigitChar(n / 10), DigitChar(n % 10)]
  }

  lemma {:induction false} FindSkipsDigitFree(prefix: string, rest: string)
    requires forall i :: 0 <= i < |prefix| ==> !IsDigit(prefix[i])
    ensures FindDayMonth(prefix + rest) == FindDayMonth(rest)
  {
    if prefix != [] {
      var s := prefix + rest;
      assert s[0] == prefix[0];
      assert MatchPrefix(s).None?;
      assert s[1..] == prefix[1..] + rest;
      FindSkipsDigitFree(prefix[1..], rest);
    } else {
      assert prefix + rest == rest;
    }
  }

  /**
   * A start-date text holding a written day and month, preceded by text
   * without digits and followed by text that does not continue the month,
   * reads back as that day and the month made zero-based.
   */
  lemma StartTextRoundTrip(prefix: string, day: nat, dayPadded: bool, month: nat, monthPadded: bool, suffix: string)
    requires day < 100 && month < 100
    requires forall i :: 0 <= i < |prefix| ==> !IsDigit(prefix[i])
    requires suffix == [] || !IsDigit(suffix[0])
    ensures FindDayMonth(prefix + Written(day, dayPadded) + "/" + Written(month, monthPadded) + suffix)
            == Some(DayMonth(day, month - 1))
  {
    var d, m := Written(day, dayPadded), Written(month, monthPadded);
    var marker := d + "/" + m + suffix;
    assert prefix + d + "/" + m + suffix == prefix + marker;
    FindSkipsDigitFree(prefix, marker);
    MatchWritten(day, dayPadded, month, monthPadded, suffix);
    FindAtMatch(marker);
  }

  /** The search stops at a match that starts at the first position. */
  lemma FindAtMatch(s: string)
    requires MatchPrefix(s).Some?
    ensures FindDayMonth(s) == MatchPrefix(s)
  {
    assert s != [] by { assert DigitAt(s, 0); }
  }

  /** The anchored match reads a written day and month back. */
  lemma MatchWritten(day: nat, dayPadded: bool, month: nat, monthPadded: bool, suffix: string)
    requires day < 100 && month < 100
    requires suffix == [] || !IsDigit(suffix[0])
    ensures MatchPrefix(Written(day, dayPadded) + "/" + Written(month, monthPadded) + suffix)
            == Some(DayMonth(day, month - 1))
  {
    var d, m := Written(day, dayPadded), Written(month, monthPadded);
    var s := d + "/" + m + suffix;
    assert s[|d|] == '/';
    assert forall k :: 0 <= k < |d| ==> s[k] == d[k];
    assert forall k :: 0 <= k < |m| ==> s[|d| + 1 + k] == m[k];
    assert !DigitAt(s, |d| + 1 + |m|) by {
      if |d| + 1 + |m| < |s| {
        assert s[|d| + 1 + |m|] == suffix[0];
      }
    }
    assert MonthAt(s, |d| + 1) == month - 1;
  }

  // ---------------------------------------------------------------------
  // The open-window rule

  /** Whole days until `diff` milliseconds have passed, rounded up (Math.ceil of the quotient). */
  function CeilDays(diff: int): (r: int)
    ensures (r - 1) * DAY_MS < diff <= r * DAY_MS
  {
    -((-diff) / DAY_MS)
  }

  /**
   * Whether a task is open at `now`. Completed tasks never are. With a start
   * day the task is open from the start instant to its due instant, both
   * included; without one it is open while the rounded-up days until it is
   * due lie in 0..5. An invalid due date makes every comparison false.
   * `localDate(year, month, day)` stands for `new Date(year, month, day)`.
   */
  predicate IsOpen(task: Task, isCompleted: bool, now: int, localDate: (int, int, int) -> int) {
    && !isCompleted
    && task.due.Some?
    && match StartDay(task)
       case Some(dm) => localDate(ASSUMED_YEAR, dm.month, dm.day) <= now <= task.due.value
       case None => 0 <= CeilDays(task.due.value - now) <= HORIZON_DAYS
  }

  /**
   * A task whose start-date text holds a written day and month (after text
   * without digits, before text that does not continue the month) starts on
   * that day: it is open exactly when it is not completed, its due date is
   * valid and `now` lies between `new Date(2026, month - 1, day)` and the
   * due instant, both included.
   */
  lemma StartWindow(task: Task, isCompleted: bool, now: int, localDate: (int, int, int) -> int,
                    prefix: string, day: nat, dayPadded: bool, month: nat, monthPadded: bool, suffix: string)
    requires day < 100 && month < 100
    requires forall i :: 0 <= i < |prefix| ==> !IsDigit(prefix[i])
    requires suffix == [] || !IsDigit(suffix[0])
    requires task.startText == Some(prefix + Written(day, dayPadded) + "/" + Written(month, monthPadded) + suffix)
    ensures StartDay(task) == Some(DayMonth(day, month - 1))
    ensures IsOpen(task, isCompleted, now, localDate) <==>
            !isCompleted && task.due.Some? && localDate(ASSUMED_YEAR, month - 1, day) <= now <= task.due.value
  {
    FindIgnoresTrim(task.startText.value);
    StartTextRoundTrip(prefix, day, dayPadded, month, monthPadded, suffix);
  }

  /**
   * Without a start day, the 0..5 rule on rounded-up days is the window
   * from one day overdue (excluded) to five days ahead (included).
   */
  lemma HorizonWindow(task: Task, isCompleted: bool, now: int, localDate: (int, int, int) -> int)
    requires StartDay(task).None?
    ensures IsOpen(task, isCompleted, now, localDate) <==>
            !isCompleted && task.due.Some? && -DAY_MS < task.due.value - now <= HORIZON_DAYS * DAY_MS
  {
    if task.due.Some? {
      var diff := task.due.value - now;
      var r := CeilDays(diff);
      if 0 <= r <= HORIZON_DAYS {
        assert -DAY_MS <= (r - 1) * DAY_MS;
        assert r * DAY_MS <= HORIZON_DAYS * DAY_MS;
      }
      if -DAY_MS < diff <= HORIZON_DAYS * DAY_MS {
        assert -DAY_MS < r * DAY_MS;
        assert (r - 1) * DAY_MS < HORIZON_DAYS * DAY_MS;
      }
    }
  }

  // ---------------------------------------------------------------------
  // The list of open tasks

  /** The indices of the first `n` tasks that are open, in document order. */
  function OpenIndices(tasks: seq<Task>, completed: seq<bool>, now: int, localDate: (int, int, int) -> int, n: nat): (r: seq<nat>)
    requires n <= |tasks| == |completed|
    ensures forall k :: 0 <= k < |r| ==> r[k] < n
  {
    if n == 0 then []
    else
      OpenIndices(tasks, completed, now, localDate, n - 1)
      + (if IsOpen(tasks[n - 1], completed[n - 1], now, localDate) then [n - 1] else [])
  }

  /** The open indices are strictly increasing and are exactly the open tasks. */
  lemma {:induction false} OpenIndicesExact(tasks: seq<Task>, completed: seq<bool>, now: int, localDate: (int, int, int) -> int, n: nat)
    requires n <= |tasks| == |completed|
    ensures var r := OpenIndices(tasks, completed, now, localDate, n);
            && (forall a, b :: 0 <= a < b < |r| ==> r[a] < r[b])
            && (forall t :: 0 <= t < n ==> (t in r <==> IsOpen(tasks[t], completed[t], now, localDate)))
  {
    if n > 0 {
      var prev := OpenIndices(tasks, completed, now, localDate, n - 1);
      OpenIndicesExact(tasks, completed, now, localDate, n - 1);
      if IsOpen(tasks[n - 1], completed[n - 1], now, localDate) {
        var r := prev + [n - 1];
        assert forall k :: 0 <= k < |prev| ==> r[k] == prev[k] < n - 1;
        assert forall t :: 0 <= t < n - 1 ==> (t in r <==> t in prev);
      } else {
        assert n - 1 !in prev;
      }
    }
  }

  /** The banner entry of a task: its card's course code and its name. */
  function BannerLabel(tasks: seq<Task>, cards: seq<Card>, t: nat): string
    requires CardsWithin(tasks, |cards|) && t < |tasks|
  {
    var code := match cards[tasks[t].card].course case Some(c) => c case None => "undefined";
    code + ": " + tasks[t].name
  }

  function LabelsOf(tasks: seq<Task>, cards: seq<Card>, indices: seq<nat>): seq<string>
    requires CardsWithin(tasks, |cards|)
    requires forall k :: 0 <= k < |indices| ==> indices[k] < |tasks|
  {
    seq(|indices|, k requires 0 <= k < |indices| => BannerLabel(tasks, cards, indices[k]))
  }

  /** The banner entries: the labels of the open tasks, in document order. */
  function OpenLabels(tasks: seq<Task>, cards: seq<Card>, completed: seq<bool>, now: int, localDate: (int, int, int) -> int): seq<string>
    requires CardsWithin(tasks, |cards|) && |completed| == |tasks|
  {
    LabelsOf(tasks, cards, OpenIndices(tasks, completed, now, localDate, |tasks|))
  }

  /**
   * The banner lists one entry per open task, in document order: entry `k`
   * is the label of the `k`-th open task, every open task has an entry,
   * and the list is empty exactly when no task is open.
   */
  lemma OpenLabelsMeaning(tasks: seq<Task>, cards: seq<Card>, completed: seq<bool>, now: int, localDate: (int, int, int) -> int)
    requires CardsWithin(tasks, |cards|) && |completed| == |tasks|
    ensures var labels := OpenLabels(tasks, cards, completed, now, localDate);
            var idx := OpenIndices(tasks, completed, now, localDate, |tasks|);
            && |labels| == |idx| <= |tasks|
            && (forall k :: 0 <= k < |idx| ==> labels[k] == BannerLabel(tasks, cards, idx[k])
                                               && IsOpen(tasks[idx[k]], completed[idx[k]], now, localDate))
            && (forall a, b :: 0 <= a < b < |idx| ==> idx[a] < idx[b])
            && (forall t :: 0 <= t < |tasks| && IsOpen(tasks[t], completed[t], now, localDate) ==>
                  BannerLabel(tasks, cards, t) in labels)
            && (labels == [] <==> forall t :: 0 <= t < |tasks| ==> !IsOpen(tasks[t], completed[t], now, localDate))
  {
    var idx := OpenIndices(tasks, completed, now, localDate, |tasks|);
    var labels := OpenLabels(tasks, cards, completed, now, localDate);
    OpenIndicesExact(tasks, completed, now, localDate, |tasks|);
    IncreasingIsBounded(idx, |tasks|);
    if idx != [] {
      assert idx[0] in idx;
    }
    forall t | 0 <= t < |tasks| && IsOpen(tasks[t], completed[t], now, localDate)
      ensures BannerLabel(tasks, cards, t) in labels
    {
      var k :| 0 <= k < |idx| && idx[k] == t;
      assert labels[k] == BannerLabel(tasks, cards, t);
    }
  }

  /** A strictly increasing sequence of numbers below `n` has at most `n` elements. */
  lemma {:induction false} IncreasingIsBounded(r: seq<nat>, n: nat)
    requires forall k :: 0 <= k < |r| ==> r[k] < n
    requires forall a, b :: 0 <= a < b < |r| ==> r[a] < r[b]
    ensures |r| <= n
  {
    if r != [] {
      var init := r[..|r| - 1];
      assert forall k :: 0 <= k < |init| ==> init[k] < r[|r| - 1];
      IncreasingIsBounded(init, r[|r| - 1]);
    }
  }

  /**
   * The scan of updateActiveTasksBanner: completed tasks are skipped and
   * every open task's label is pushed in document order.
   */
  method CollectOpenTasks(tasks: seq<Task>, cards: seq<Card>, completed: seq<bool>, now: int, localDate: (int, int, int) -> int)
    returns (activeTasks: seq<string>)
    requires CardsWithin(tasks, |cards|) && |completed| == |tasks|
    ensures activeTasks == OpenLabels(tasks, cards, completed, now, localDate)
  {
    activeTasks := [];
    for t := 0 to |tasks|
      invariant activeTasks == LabelsOf(tasks, cards, OpenIndices(tasks, completed, now, localDate, t))
    {
      if completed[t] {
        continue;
      }
      if IsOpen(tasks[t], completed[t], now, localDate) {
        activeTasks := activeTasks + [BannerLabel(tasks, cards, t)];
      }
    }
  }

  /** Array.prototype.join: the entries with `sep` between each two. */
  function Join(parts: seq<string>, sep: string): string {
    if |parts| == 0 then ""
    else if |parts| == 1 then parts[0]
    else Join(parts[..|parts| - 1], sep) + sep + parts[|parts| - 1]
  }
}
