/**
 * The dashboard page as the script sees it: the static task items, course
 * cards and filter buttons, the marker classes the script toggles on them,
 * the `localStorage` entries and the texts of the next-event panel and the
 * open-tasks banner. Each handler and timer callback of the script is a
 * method; a timer tick is a call that is given the current instant `now`.
 */
module Dashboard {
  import opened Wrappers
  import opened Markup
  import opened CompletionStore
  import opened FilterEngine
  import opened CountdownEngine
  import opened OpenTasksBanner

  /** What the countdown shows: the split time left, or the fixed text "00:00:00:00". */
  datatype CountdownText = Ticking(left: Duration) | Zeroed

  class Board {
    const tasks: seq<Task>
    const cards: seq<Card>
    const buttons: seq<FilterButton>

    /** The 'completed' class of each task item; its checkbox is always set along with it. */
    const completed: array<bool>
    /** The 'hidden' class of each task item. */
    const taskHidden: array<bool>
    /** The 'hidden' class of each course card. */
    const cardHidden: array<bool>
    /** The 'active' class of each filter button. */
    const active: array<bool>

    /** The 'hidden' class of the empty-state box. */
    var emptyStateHidden: bool
    /** The `localStorage` entries. */
    var storage: map<string, string>
    /** The text of the next-event name. */
    var nextEventName: string
    /** The text of the countdown timer. */
    var countdown: CountdownText
    /** The 'hidden' class of the open-tasks banner. */
    var bannerHidden: bool
    /** The text inside the banner's list. */
    var bannerText: string

    ghost predicate Valid()
      reads this
    {
      && CardsWithin(tasks, |cards|)
      && completed.Length == |tasks| && taskHidden.Length == |tasks|
      && cardHidden.Length == |cards| && active.Length == |buttons|
      && completed != taskHidden && completed != cardHidden && completed != active
      && taskHidden != cardHidden && taskHidden != active && cardHidden != active
    }

    /** The page as rendered, before the script runs: no marker class set, empty state and banner hidden. */
    constructor (tasks: seq<Task>, cards: seq<Card>, buttons: seq<FilterButton>, storage: map<string, string>)
      requires CardsWithin(tasks, |cards|)
      ensures Valid()
      ensures this.tasks == tasks && this.cards == cards && this.buttons == buttons && this.storage == storage
      ensures fresh(completed) && fresh(taskHidden) && fresh(cardHidden) && fresh(active)
      ensures forall t :: 0 <= t < |tasks| ==> !completed[t] && !taskHidden[t]
      ensures forall c :: 0 <= c < |cards| ==> !cardHidden[c]
      ensures forall b :: 0 <= b < |buttons| ==> !active[b]
      ensures emptyStateHidden && bannerHidden
    {
      this.tasks, this.cards, this.buttons := tasks, cards, buttons;
      completed := new bool[|tasks|](_ => false);
      taskHidden := new bool[|tasks|](_ => false);
      cardHidden := new bool[|cards|](_ => false);
      active := new bool[|buttons|](_ => false);
      emptyStateHidden := true;
      this.storage := storage;
      nextEventName := "";
      countdown := Zeroed;
      bannerHidden := true;
      bannerText := "";
    }

    // -------------------------------------------------------------------
    // Completion store

    /** toggleTaskCompletion: sets or clears the 'completed' class of one task. */
    method ToggleTaskCompletion(t: nat, isCompleted: bool)
      requires Valid() && t < |tasks|
      modifies completed
      ensures Valid()
      ensures completed[..] == old(completed[..])[t := isCompleted]
    {
      completed[t] := isCompleted;
    }

    /** The load loop: every task's 'completed' class is set from its stored entry. */
    method LoadSavedStates()
      requires Valid()
      modifies completed
      ensures Valid()
      ensures forall t :: 0 <= t < |tasks| ==> completed[t] == Load(storage, tasks[t].id)
    {
      for t := 0 to |tasks|
        invariant forall j :: 0 <= j < t ==> completed[j] == Load(storage, tasks[j].id)
      {
        var isChecked := Load(storage, tasks[t].id);
        ToggleTaskCompletion(t, isChecked);
      }
    }

    /**
     * The checkbox change handler: the new state is stored under the task's
     * id, the 'completed' class follows it, and the next event is recomputed.
     */
    method OnCheckboxChange(t: nat, checked: bool, now: int)
      requires Valid() && t < |tasks|
      modifies this`storage, completed, this`nextEventName, this`countdown
      ensures Valid()
      ensures storage == Save(old(storage), tasks[t].id, checked)
      ensures completed[..] == old(completed[..])[t := checked]
      ensures Load(storage, tasks[t].id) == checked
      ensures ShowsNextEvent(now)
    {
      storage := Save(storage, tasks[t].id, checked);
      LoadAfterSave(old(storage), tasks[t].id, checked);
      ToggleTaskCompletion(t, checked);
      UpdateNextEvent(now);
    }

    // -------------------------------------------------------------------
    // Filter engine

    /** The filter outcome ApplyFilter gives for these starting flags is what the page shows. */
    ghost predicate ShowsFilter(taskHidden0: seq<bool>, cardHidden0: seq<bool>,
                                courseFilter: Option<string>, statusFilter: Option<string>)
      requires Valid() && |taskHidden0| == |tasks| && |cardHidden0| == |cards|
      reads this, completed, taskHidden, cardHidden
    {
      var v := ApplyFilter(tasks, cards, completed[..], taskHidden0, cardHidden0, courseFilter, statusFilter);
      taskHidden[..] == v.taskHidden && cardHidden[..] == v.cardHidden && emptyStateHidden == !v.emptyShown
    }

    /** Unhides every task item inside card `c`. */
    method ShowTasksIn(c: nat)
      requires Valid()
      modifies taskHidden
      ensures Valid()
      ensures forall t :: 0 <= t < |tasks| ==> taskHidden[t] == (if tasks[t].card == c then false else old(taskHidden[t]))
    {
      for t := 0 to |tasks|
        invariant forall j :: 0 <= j < |tasks| ==>
                    taskHidden[j] == (if j < t && tasks[j].card == c then false else old(taskHidden[j]))
      {
        if tasks[t].card == c {
          taskHidden[t] := false;
        }
      }
    }

    /** The course phase: kept cards and their tasks are unhidden, the other cards hidden. */
    method ApplyCourseFilter(courseFilter: string)
      requires Valid()
      modifies taskHidden, cardHidden
      ensures Valid()
      ensures cardHidden[..] == CourseCardHidden(cards, courseFilter)
      ensures taskHidden[..] == CourseTaskHidden(tasks, cards, courseFilter, old(taskHidden[..]))
    {
      for c := 0 to |cards|
        invariant forall k :: 0 <= k < c ==> cardHidden[k] == !CardMatches(courseFilter, cards[k])
        invariant forall t :: 0 <= t < |tasks| ==>
                    taskHidden[t] == (if tasks[t].card < c && CardMatches(courseFilter, cards[tasks[t].card]) then false
                                      else old(taskHidden[t]))
      {
        if courseFilter == "all" || cards[c].course == Some(courseFilter) {
          cardHidden[c] := false;
          ShowTasksIn(c);
        } else {
          cardHidden[c] := true;
        }
      }
    }

    /**
     * The status phase: every card is unhidden, every task is shown or
     * hidden by the status test and the shown ones are counted, then each
     * card without a shown task is hidden.
     */
    method ApplyStatusFilter(statusFilter: string) returns (visibleCount: nat)
      requires Valid()
      modifies taskHidden, cardHidden
      ensures Valid()
      ensures taskHidden[..] == StatusTaskHidden(completed[..], statusFilter)
      ensures cardHidden[..] == CardsWithoutShownTasks(tasks, taskHidden[..], |cards|)
      ensures visibleCount == CountShown(taskHidden[..])
    {
      for c := 0 to |cards|
        invariant forall k :: 0 <= k < c ==> !cardHidden[k]
      {
        cardHidden[c] := false;
      }
      visibleCount := 0;
      for t := 0 to |tasks|
        modifies taskHidden
        invariant forall j :: 0 <= j < t ==> taskHidden[j] == !ShouldShow(statusFilter, completed[j])
        invariant visibleCount == CountShown(taskHidden[..t])
      {
        var isCompleted := completed[t];
        var shouldShow := false;
        if statusFilter == "pending" && !isCompleted {
          shouldShow := true;
        }
        if statusFilter == "completed" && isCompleted {
          shouldShow := true;
        }
        ghost var before := taskHidden[..t];
        if shouldShow {
          taskHidden[t] := false;
          visibleCount := visibleCount + 1;
        } else {
          taskHidden[t] := true;
        }
        assert taskHidden[..t + 1][..t] == before;
      }
      assert taskHidden[..|tasks|] == taskHidden[..];
      HideCardsWithoutShownTasks();
    }

    /** The last status loop: every unhidden card without an unhidden task is hidden. */
    method HideCardsWithoutShownTasks()
      requires Valid()
      requires forall c :: 0 <= c < |cards| ==> !cardHidden[c]
      modifies cardHidden
      ensures Valid()
      ensures cardHidden[..] == CardsWithoutShownTasks(tasks, taskHidden[..], |cards|)
    {
      for c := 0 to |cards|
        invariant forall k :: 0 <= k < c ==> cardHidden[k] == (CountShownInCard(tasks, taskHidden[..], k) == 0)
        invariant forall k :: c <= k < |cards| ==> !cardHidden[k]
      {
        if CountShownInCard(tasks, taskHidden[..], c) == 0 {
          cardHidden[c] := true;
        }
      }
    }

    /** Without a status filter: add up the task items of every unhidden card. */
    method CountTasksInShownCards() returns (visibleCount: nat)
      requires Valid()
      ensures visibleCount == SumOverShownCards(tasks, cardHidden[..], |cards|)
      ensures visibleCount == CountInShownCards(tasks, cardHidden[..])
    {
      visibleCount := 0;
      for c := 0 to |cards|
        invariant visibleCount == SumOverShownCards(tasks, cardHidden[..], c)
      {
        if !cardHidden[c] {
          visibleCount := visibleCount + CountInCard(tasks, c);
        }
      }
      SumOverShownCardsCounts(tasks, cardHidden[..]);
    }

    /** filterTasks: the course phase, the status phase, the count and the empty state. */
    method FilterTasks(courseFilter: Option<string>, statusFilter: Option<string>) returns (visibleCount: nat)
      requires Valid()
      modifies taskHidden, cardHidden, this`emptyStateHidden
      ensures Valid()
      ensures ShowsFilter(old(taskHidden[..]), old(cardHidden[..]), courseFilter, statusFilter)
      ensures visibleCount == ApplyFilter(tasks, cards, completed[..], old(taskHidden[..]), old(cardHidden[..]),
                                          courseFilter, statusFilter).visibleCount
    {
      if courseFilter.Some? && courseFilter.value != "" {
        ApplyCourseFilter(courseFilter.value);
      }
      if statusFilter.Some? && statusFilter.value != "" {
        visibleCount := ApplyStatusFilter(statusFilter.value);
      } else {
        visibleCount := CountTasksInShownCards();
      }
      if visibleCount == 0 {
        emptyStateHidden := false;
      } else {
        emptyStateHidden := true;
      }
    }

    /**
     * The filter-button click handler: 'active' is cleared on every button
     * and set on the clicked one, then the filter runs with that button's
     * own course and status values.
     */
    method OnFilterClick(b: nat)
      requires Valid() && b < |buttons|
      modifies active, taskHidden, cardHidden, this`emptyStateHidden
      ensures Valid()
      ensures forall j :: 0 <= j < |buttons| ==> active[j] == (j == b)
      ensures ShowsFilter(old(taskHidden[..]), old(cardHidden[..]), buttons[b].filter, buttons[b].status)
    {
      for j := 0 to |buttons|
        modifies active
        invariant forall k :: 0 <= k < j ==> !active[k]
      {
        active[j] := false;
      }
      active[b] := true;
      var _ := FilterTasks(buttons[b].filter, buttons[b].status);
    }

    // -------------------------------------------------------------------
    // Countdown engine

    /**
     * The next-event panel shows the next event: its label and the split of
     * its time left, or the no-upcoming label and the zeroed countdown when
     * no task is upcoming. When some task is upcoming, a next event exists.
     */
    ghost predicate ShowsNextEvent(now: int)
      requires Valid()
      reads this, completed
    {
      && ((forall t :: 0 <= t < |tasks| ==> !Upcoming(tasks[t], completed[t], now)) ==>
            nextEventName == NO_UPCOMING_LABEL && countdown == Zeroed)
      && ((exists t :: 0 <= t < |tasks| && Upcoming(tasks[t], completed[t], now)) ==>
            exists k: nat :: IsNext(tasks, completed[..], now, k))
      && (forall k: nat :: IsNext(tasks, completed[..], now, k) ==>
            nextEventName == EventLabel(tasks, cards, k) && countdown == Ticking(Decompose(TimeLeft(tasks[k], now))))
    }

    /** updateNextEvent, run at load, every second and after each checkbox change. */
    method UpdateNextEvent(now: int)
      requires Valid()
      modifies this`nextEventName, this`countdown
      ensures Valid()
      ensures ShowsNextEvent(now)
    {
      var next, minDiff := SelectNextTask(tasks, completed[..], now);
      if next.Some? {
        nextEventName := EventLabel(tasks, cards, next.value);
        countdown := Ticking(Decompose(minDiff.value));
        forall k: nat | IsNext(tasks, completed[..], now, k)
          ensures k == next.value
        {
          NextIsUnique(tasks, completed[..], now, k, next.value);
        }
      } else {
        nextEventName := NO_UPCOMING_LABEL;
        countdown := Zeroed;
      }
    }

    // -------------------------------------------------------------------
    // Open-tasks banner

    /** The banner is hidden exactly when no task is open, and otherwise shows the joined labels. */
    ghost predicate ShowsBanner(now: int, localDate: (int, int, int) -> int, bannerText0: string)
      requires Valid()
      reads this, completed
    {
      var labels := OpenLabels(tasks, cards, completed[..], now, localDate);
      && (bannerHidden <==> labels == [])
      && bannerText == (if labels == [] then bannerText0 else Join(labels, SEPARATOR))
    }

    /** updateActiveTasksBanner, run at load and every minute. */
    method UpdateActiveTasksBanner(now: int, localDate: (int, int, int) -> int)
      requires Valid()
      modifies this`bannerHidden, this`bannerText
      ensures Valid()
      ensures ShowsBanner(now, localDate, old(bannerText))
    {
      var activeTasks := CollectOpenTasks(tasks, cards, completed[..], now, localDate);
      if |activeTasks| > 0 {
        bannerHidden := false;
        bannerText := Join(activeTasks, SEPARATOR);
      } else {
        bannerHidden := true;
      }
    }

    // -------------------------------------------------------------------
    // Start-up

    /** The load-time sequence: restore completion, then compute the next event and the banner. */
    method Init(now: int, localDate: (int, int, int) -> int)
      requires Valid()
      modifies completed, this`nextEventName, this`countdown, this`bannerHidden, this`bannerText
      ensures Valid()
      ensures forall t :: 0 <= t < |tasks| ==> completed[t] == Load(storage, tasks[t].id)
      ensures ShowsNextEvent(now)
      ensures ShowsBanner(now, localDate, old(bannerText))
    {
      LoadSavedStates();
      UpdateNextEvent(now);
      UpdateActiveTasksBanner(now, localDate);
    }
  }
}
