/**
 * The countdown engine: which task the next-event panel shows, and how the
 * time left until it is split into days, hours, minutes and seconds.
 */
module CountdownEngine {
  import opened Wrappers
  import opened Markup
  import opened TimeUnits

  /** The label shown when no task is upcoming ("no upcoming tasks"). */
  const NO_UPCOMING_LABEL: string := "لا توجد مهام قادمة"

  /** A duration in whole days, hours, minutes and seconds. */
  datatype Duration = Duration(days: nat, hours: nat, minutes: nat, seconds: nat)

  /** The milliseconds a duration stands for. */
  function TotalMs(d: Duration): int {
    d.days * DAY_MS + d.hours * HOUR_MS + d.minutes * MINUTE_MS + d.seconds * SECOND_MS
  }

  /** The hours, minutes and seconds of a duration are within a day, an hour and a minute. */
  predicate InRange(d: Duration) {
    d.hours < 24 && d.minutes < 60 && d.seconds < 60
  }

  /**
   * The countdown split of `ms` milliseconds by floor division: the parts
   * are in range and add up to `ms` with the leftover milliseconds dropped.
   */
  function Decompose(ms: nat): (d: Duration)
    ensures InRange(d)
    ensures TotalMs(d) <= ms < TotalMs(d) + SECOND_MS
  {
    var days := ms / DAY_MS;
    var inDay := ms % DAY_MS;
    var hours := inDay / HOUR_MS;
    assert inDay % HOUR_MS == ms % HOUR_MS by { HourOfDay(ms); }
    var inHour := ms % HOUR_MS;
    var minutes := inHour / MINUTE_MS;
    assert inHour % MINUTE_MS == ms % MINUTE_MS by { MinuteOfHour(ms); }
    var inMinute := ms % MINUTE_MS;
    var seconds := inMinute / SECOND_MS;
    Duration(days, hours, minutes, seconds)
  }

  /** The remainder within a day, taken by the hour, is the remainder by the hour. */
  lemma HourOfDay(x: nat)
    ensures (x % DAY_MS) % HOUR_MS == x % HOUR_MS
  {
    var q, s := x / HOUR_MS, x % HOUR_MS;
    var h := q % 24;
    DivModUnique(x, DAY_MS, q / 24, h * HOUR_MS + s);
    DivModUnique(h * HOUR_MS + s, HOUR_MS, h, s);
  }

  /** The remainder within an hour, taken by the minute, is the remainder by the minute. */
  lemma MinuteOfHour(x: nat)
    ensures (x % HOUR_MS) % MINUTE_MS == x % MINUTE_MS
  {
    var q, s := x / MINUTE_MS, x % MINUTE_MS;
    var m := q % 60;
    DivModUnique(x, HOUR_MS, q / 60, m * MINUTE_MS + s);
    DivModUnique(m * MINUTE_MS + s, MINUTE_MS, m, s);
  }

  /** Decompose inverts TotalMs: a duration in range, plus less than a second, splits back into itself. */
  lemma DecomposeInverts(d: Duration, extra: nat)
    requires InRange(d) && extra < SECOND_MS
    ensures Decompose(TotalMs(d) + extra) == d
  {
    var ms := TotalMs(d) + extra;
    var inMinute := d.seconds * SECOND_MS + extra;
    var inHour := d.minutes * MINUTE_MS + inMinute;
    var inDay := d.hours * HOUR_MS + inHour;
    DivModUnique(ms, DAY_MS, d.days, inDay);
    DivModUnique(inDay, HOUR_MS, d.hours, inHour);
    DivModUnique(ms, HOUR_MS, d.days * 24 + d.hours, inHour);
    DivModUnique(inHour, MINUTE_MS, d.minutes, inMinute);
    DivModUnique(ms, MINUTE_MS, (d.days * 24 + d.hours) * 60 + d.minutes, inMinute);
    DivModUnique(inMinute, SECOND_MS, d.seconds, extra);
  }

  /** Division with remainder is unique: `q * m + r` with `0 <= r < m` divides into `q` and `r`. */
  lemma DivModUnique(x: int, m: int, q: int, r: int)
    requires m > 0 && 0 <= r < m && x == q * m + r
    ensures x / m == q && x % m == r
  {
    var q0, r0 := x / m, x % m;
    var k := q0 - q;
    assert k * m == r - r0 by {
      assert x == q0 * m + r0;
      assert k * m == q0 * m - q * m;
    }
    if k > 0 {
      MultipleAtLeast(k, m);
    } else if k < 0 {
      MultipleAtLeast(-k, m);
    }
  }

  /** A positive multiple of a positive number is at least that number. */
  lemma {:induction false} MultipleAtLeast(k: int, m: int)
    requires k > 0 && m > 0
    ensures k * m >= m
  {
    if k > 1 {
      MultipleAtLeast(k - 1, m);
      assert k * m == (k - 1) * m + m;
    }
  }

  /** A task counts toward the countdown when it is not completed and its due instant is strictly after `now`. */
  predicate Upcoming(task: Task, isCompleted: bool, now: int) {
    !isCompleted && task.due.Some? && task.due.value - now > 0
  }

  /** The positive time left until an upcoming task is due. */
  function TimeLeft(task: Task, now: int): int
    requires task.due.Some?
  {
    task.due.value - now
  }

  /**
   * Task `k` is the one the next-event panel shows: it is upcoming, no
   * upcoming task has less time left, and every upcoming task before it in
   * document order has strictly more.
   */
  ghost predicate IsNext(tasks: seq<Task>, completed: seq<bool>, now: int, k: nat)
    requires |completed| == |tasks|
  {
    && k < |tasks|
    && Upcoming(tasks[k], completed[k], now)
    && (forall j :: 0 <= j < |tasks| && Upcoming(tasks[j], completed[j], now) ==>
          TimeLeft(tasks[k], now) <= TimeLeft(tasks[j], now))
    && (forall j :: 0 <= j < k && Upcoming(tasks[j], completed[j], now) ==>
          TimeLeft(tasks[k], now) < TimeLeft(tasks[j], now))
  }

  /** At most one task is the next event. */
  lemma NextIsUnique(tasks: seq<Task>, completed: seq<bool>, now: int, k1: nat, k2: nat)
    requires |completed| == |tasks|
    requires IsNext(tasks, completed, now, k1) && IsNext(tasks, completed, now, k2)
    ensures k1 == k2
  {
  }

  /**
   * The scan of updateNextEvent: completed tasks and tasks whose date is
   * invalid are skipped, and a task replaces the current choice only when
   * its time left is positive and strictly smaller. There is no choice
   * exactly when no task is upcoming; otherwise the choice is the next
   * event and `minDiff` is its time left.
   */
  method SelectNextTask(tasks: seq<Task>, completed: seq<bool>, now: int) returns (next: Option<nat>, minDiff: Option<int>)
    requires |completed| == |tasks|
    ensures next.None? <==> forall t :: 0 <= t < |tasks| ==> !Upcoming(tasks[t], completed[t], now)
    ensures next.Some? ==> IsNext(tasks, completed, now, next.value)
    ensures next.Some? ==> minDiff == Some(TimeLeft(tasks[next.value], now))
    ensures next.None? ==> minDiff.None?
  {
    next, minDiff := None, None;
    for t := 0 to |tasks|
      invariant next.None? <==> forall j :: 0 <= j < t ==> !Upcoming(tasks[j], completed[j], now)
      invariant next.None? ==> minDiff.None?
      invariant next.Some? ==>
        && next.value < t
        && Upcoming(tasks[next.value], completed[next.value], now)
        && minDiff == Some(TimeLeft(tasks[next.value], now))
        && (forall j :: 0 <= j < t && Upcoming(tasks[j], completed[j], now) ==> minDiff.value <= TimeLeft(tasks[j], now))
        && (forall j :: 0 <= j < next.value && Upcoming(tasks[j], completed[j], now) ==> minDiff.value < TimeLeft(tasks[j], now))
    {
      if completed[t] {
        continue;
      }
      match tasks[t].due {
        case None =>
        case Some(due) =>
          var diff := due - now;
          if diff > 0 && (minDiff.None? || diff < minDiff.value) {
            minDiff := Some(diff);
            next := Some(t);
          }
      }
    }
  }

  /** The next-event label: the card's heading and the task's name. */
  function EventLabel(tasks: seq<Task>, cards: seq<Card>, k: nat): string
    requires CardsWithin(tasks, |cards|) && k < |tasks|
  {
    cards[tasks[k].card].heading + ": " + tasks[k].name
  }
}
