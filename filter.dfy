/**
 * The filter engine: which course cards and task items end 'hidden' after a
 * course filter and a status filter are applied, how many tasks it counts
 * as visible, and whether the empty-state box is shown.
 *
 * ApplyFilter follows the script's three phases step by step; the lemmas at
 * the end state what the outcome means.
 */
module FilterEngine {
  import opened Wrappers
  import opened Markup

  /** JavaScript truthiness of a `data-*` attribute: present and not the empty string. */
  predicate Truthy(attr: Option<string>) {
    attr.Some? && attr.value != ""
  }

  /** The course phase keeps a card when the filter is 'all' or names the card's course. */
  predicate CardMatches(courseFilter: string, card: Card) {
    courseFilter == "all" || card.course == Some(courseFilter)
  }

  /** The status phase shows a task when the filter is 'pending' and it is not completed, or 'completed' and it is. */
  predicate ShouldShow(statusFilter: string, isCompleted: bool) {
    (statusFilter == "pending" && !isCompleted) || (statusFilter == "completed" && isCompleted)
  }

  /** Number of false entries of `hidden`. */
  function CountShown(hidden: seq<bool>): nat {
    if hidden == [] then 0
    else CountShown(hidden[..|hidden| - 1]) + (if hidden[|hidden| - 1] then 0 else 1)
  }

  /** Number of task items inside card `c`. */
  function CountInCard(tasks: seq<Task>, c: nat): nat {
    if tasks == [] then 0
    else CountInCard(tasks[..|tasks| - 1], c) + (if tasks[|tasks| - 1].card == c then 1 else 0)
  }

  /** Number of task items inside card `c` that are not hidden. */
  function CountShownInCard(tasks: seq<Task>, hidden: seq<bool>, c: nat): nat
    requires |hidden| == |tasks|
  {
    if tasks == [] then 0
    else
      CountShownInCard(tasks[..|tasks| - 1], hidden[..|hidden| - 1], c)
      + (if tasks[|tasks| - 1].card == c && !hidden[|hidden| - 1] then 1 else 0)
  }

  /** Number of task items whose card is not hidden. */
  function CountInShownCards(tasks: seq<Task>, cardHidden: seq<bool>): nat
    requires CardsWithin(tasks, |cardHidden|)
  {
    if tasks == [] then 0
    else
      CountInShownCards(tasks[..|tasks| - 1], cardHidden)
      + (if cardHidden[tasks[|tasks| - 1].card] then 0 else 1)
  }

  /** The sum, over the first `n` cards that are not hidden, of the number of tasks in each. */
  function SumOverShownCards(tasks: seq<Task>, cardHidden: seq<bool>, n: nat): nat
    requires n <= |cardHidden|
  {
    if n == 0 then 0
    else SumOverShownCards(tasks, cardHidden, n - 1) + (if cardHidden[n - 1] then 0 else CountInCard(tasks, n - 1))
  }

  /** The outcome of one call of the filter: the new 'hidden' flags, the visible count and the empty state. */
  datatype FilterView = FilterView(taskHidden: seq<bool>, cardHidden: seq<bool>, visibleCount: nat, emptyShown: bool)

  /** Card flags after the course phase. */
  function CourseCardHidden(cards: seq<Card>, courseFilter: string): seq<bool> {
    seq(|cards|, c requires 0 <= c < |cards| => !CardMatches(courseFilter, cards[c]))
  }

  /** Task flags after the course phase: the tasks of kept cards are unhidden, the others keep their flag. */
  function CourseTaskHidden(tasks: seq<Task>, cards: seq<Card>, courseFilter: string, taskHidden: seq<bool>): seq<bool>
    requires CardsWithin(tasks, |cards|) && |taskHidden| == |tasks|
  {
    seq(|tasks|, t requires 0 <= t < |tasks| =>
      if CardMatches(courseFilter, cards[tasks[t].card]) then false else taskHidden[t])
  }

  /** Task flags after the status phase. */
  function StatusTaskHidden(completed: seq<bool>, statusFilter: string): seq<bool> {
    seq(|completed|, t requires 0 <= t < |completed| => !ShouldShow(statusFilter, completed[t]))
  }

  /** Card flags after the status phase: a card is hidden when none of its tasks is unhidden. */
  function CardsWithoutShownTasks(tasks: seq<Task>, taskHidden: seq<bool>, n: nat): seq<bool>
    requires |taskHidden| == |tasks|
  {
    seq(n, c requires 0 <= c < n => CountShownInCard(tasks, taskHidden, c) == 0)
  }

  /** The state the page may be in when the filter runs. */
  predicate Fits(tasks: seq<Task>, cards: seq<Card>, completed: seq<bool>, taskHidden: seq<bool>, cardHidden: seq<bool>) {
    CardsWithin(tasks, |cards|) && |completed| == |tasks| && |taskHidden| == |tasks| && |cardHidden| == |cards|
  }

  /**
   * filterTasks, phase by phase: the course phase runs when the course
   * filter is truthy; the status phase, when the status filter is truthy,
   * then decides every task and card afresh and counts the shown tasks;
   * otherwise the count adds up the tasks of the cards left unhidden.
   */
  function ApplyFilter(tasks: seq<Task>, cards: seq<Card>, completed: seq<bool>,
                       taskHidden: seq<bool>, cardHidden: seq<bool>,
                       courseFilter: Option<string>, statusFilter: Option<string>): FilterView
    requires Fits(tasks, cards, completed, taskHidden, cardHidden)
  {
    var courseTasks := if Truthy(courseFilter) then CourseTaskHidden(tasks, cards, courseFilter.value, taskHidden) else taskHidden;
    var courseCards := if Truthy(courseFilter) then CourseCardHidden(cards, courseFilter.value) else cardHidden;
    if Truthy(statusFilter) then
      var statusTasks := StatusTaskHidden(completed, statusFilter.value);
      var count := CountShown(statusTasks);
      FilterView(statusTasks, CardsWithoutShownTasks(tasks, statusTasks, |cards|), count, count == 0)
    else
      var count := SumOverShownCards(tasks, courseCards, |cards|);
      FilterView(courseTasks, courseCards, count, count == 0)
  }

  // ---------------------------------------------------------------------
  // Counting lemmas

  /** No task is shown exactly when the count of shown tasks is zero. */
  lemma {:induction false} CountShownZero(hidden: seq<bool>)
    ensures CountShown(hidden) == 0 <==> forall t :: 0 <= t < |hidden| ==> hidden[t]
  {
    if hidden != [] {
      var init := hidden[..|hidden| - 1];
      CountShownZero(init);
      assert forall t :: 0 <= t < |init| ==> init[t] == hidden[t];
    }
  }

  /** A card has no shown task exactly when each of its tasks is hidden. */
  lemma {:induction false} CountShownInCardZero(tasks: seq<Task>, hidden: seq<bool>, c: nat)
    requires |hidden| == |tasks|
    ensures CountShownInCard(tasks, hidden, c) == 0 <==>
            forall t :: 0 <= t < |tasks| && tasks[t].card == c ==> hidden[t]
  {
    if tasks != [] {
      var initTasks, initHidden := tasks[..|tasks| - 1], hidden[..|hidden| - 1];
      CountShownInCardZero(initTasks, initHidden, c);
      assert forall t :: 0 <= t < |initTasks| ==> initTasks[t] == tasks[t] && initHidden[t] == hidden[t];
    }
  }

  /** No task lies in an unhidden card exactly when every task's card is hidden. */
  lemma {:induction false} CountInShownCardsZero(tasks: seq<Task>, cardHidden: seq<bool>)
    requires CardsWithin(tasks, |cardHidden|)
    ensures CountInShownCards(tasks, cardHidden) == 0 <==>
            forall t :: 0 <= t < |tasks| ==> cardHidden[tasks[t].card]
  {
    if tasks != [] {
      var init := tasks[..|tasks| - 1];
      CountInShownCardsZero(init, cardHidden);
      assert forall t :: 0 <= t < |init| ==> init[t] == tasks[t];
    }
  }

  /** When no card is hidden, every task lies in an unhidden card. */
  lemma {:induction false} CountInShownCardsAll(tasks: seq<Task>, cardHidden: seq<bool>)
    requires CardsWithin(tasks, |cardHidden|)
    requires forall c :: 0 <= c < |cardHidden| ==> !cardHidden[c]
    ensures CountInShownCards(tasks, cardHidden) == |tasks|
  {
    if tasks != [] {
      CountInShownCardsAll(tasks[..|tasks| - 1], cardHidden);
    }
  }

  /** Adding one more task to the page adds one to the per-card sum exactly when its card is counted. */
  lemma {:induction false} SumOverShownCardsAppend(tasks: seq<Task>, x: Task, cardHidden: seq<bool>, n: nat)
    requires n <= |cardHidden|
    ensures SumOverShownCards(tasks + [x], cardHidden, n)
            == SumOverShownCards(tasks, cardHidden, n) + (if x.card < n && !cardHidden[x.card] then 1 else 0)
  {
    if n > 0 {
      SumOverShownCardsAppend(tasks, x, cardHidden, n - 1);
      assert (tasks + [x])[..|tasks|] == tasks;
      assert CountInCard(tasks + [x], n - 1) == CountInCard(tasks, n - 1) + (if x.card == n - 1 then 1 else 0);
    }
  }

  /**
   * Adding up the tasks card by card, over the unhidden cards, gives the
   * number of tasks that lie in an unhidden card.
   */
  lemma {:induction false} SumOverShownCardsCounts(tasks: seq<Task>, cardHidden: seq<bool>)
    requires CardsWithin(tasks, |cardHidden|)
    ensures SumOverShownCards(tasks, cardHidden, |cardHidden|) == CountInShownCards(tasks, cardHidden)
  {
    if tasks == [] {
      SumOverNoTasks(cardHidden, |cardHidden|);
    } else {
      var init, last := tasks[..|tasks| - 1], tasks[|tasks| - 1];
      assert tasks == init + [last];
      SumOverShownCardsCounts(init, cardHidden);
      SumOverShownCardsAppend(init, last, cardHidden, |cardHidden|);
    }
  }

  /** With no tasks on the page, the per-card sum is zero. */
  lemma {:induction false} SumOverNoTasks(cardHidden: seq<bool>, n: nat)
    requires n <= |cardHidden|
    ensures SumOverShownCards([], cardHidden, n) == 0
  {
    if n > 0 {
      SumOverNoTasks(cardHidden, n - 1);
    }
  }

  // ---------------------------------------------------------------------
  // What a filter call means

  /**
   * A course filter with no status filter: the cards of that course (every
   * card for 'all') are unhidden together with all their tasks, every other
   * card is hidden and its tasks keep their flag; the visible count is the
   * number of tasks in unhidden cards, and the empty state is shown exactly
   * when no task lies in a kept card.
   */
  lemma CourseOnlyFilter(tasks: seq<Task>, cards: seq<Card>, completed: seq<bool>,
                         taskHidden: seq<bool>, cardHidden: seq<bool>,
                         courseFilter: string, statusFilter: Option<string>)
    requires Fits(tasks, cards, completed, taskHidden, cardHidden)
    requires courseFilter != "" && !Truthy(statusFilter)
    ensures var v := ApplyFilter(tasks, cards, completed, taskHidden, cardHidden, Some(courseFilter), statusFilter);
            && |v.taskHidden| == |tasks| && |v.cardHidden| == |cards|
            && (forall c :: 0 <= c < |cards| ==> v.cardHidden[c] == !CardMatches(courseFilter, cards[c]))
            && (forall t :: 0 <= t < |tasks| && CardMatches(courseFilter, cards[tasks[t].card]) ==> !v.taskHidden[t])
            && (forall t :: 0 <= t < |tasks| && !CardMatches(courseFilter, cards[tasks[t].card]) ==> v.taskHidden[t] == taskHidden[t])
            && v.visibleCount == CountInShownCards(tasks, v.cardHidden)
            && (v.emptyShown <==> forall t :: 0 <= t < |tasks| ==> !CardMatches(courseFilter, cards[tasks[t].card]))
  {
    var v := ApplyFilter(tasks, cards, completed, taskHidden, cardHidden, Some(courseFilter), statusFilter);
    SumOverShownCardsCounts(tasks, v.cardHidden);
    CountInShownCardsZero(tasks, v.cardHidden);
  }

  /**
   * A status filter, whatever the course filter: a task ends unhidden
   * exactly when it passes the status test ('pending': not completed,
   * 'completed': completed, any other value: never); the visible count is
   * the number of unhidden tasks; a card ends hidden exactly when none of
   * its tasks is unhidden; the empty state is shown exactly when every task
   * is hidden.
   */
  lemma StatusFilter(tasks: seq<Task>, cards: seq<Card>, completed: seq<bool>,
                     taskHidden: seq<bool>, cardHidden: seq<bool>,
                     courseFilter: Option<string>, statusFilter: string)
    requires Fits(tasks, cards, completed, taskHidden, cardHidden)
    requires statusFilter != ""
    ensures var v := ApplyFilter(tasks, cards, completed, taskHidden, cardHidden, courseFilter, Some(statusFilter));
            && |v.taskHidden| == |tasks| && |v.cardHidden| == |cards|
            && (statusFilter == "pending" ==> forall t :: 0 <= t < |tasks| ==> (!v.taskHidden[t] <==> !completed[t]))
            && (statusFilter == "completed" ==> forall t :: 0 <= t < |tasks| ==> (!v.taskHidden[t] <==> completed[t]))
            && (statusFilter != "pending" && statusFilter != "completed" ==> forall t :: 0 <= t < |tasks| ==> v.taskHidden[t])
            && v.visibleCount == CountShown(v.taskHidden)
            && (forall c :: 0 <= c < |cards| ==>
                  (v.cardHidden[c] <==> forall t :: 0 <= t < |tasks| && tasks[t].card == c ==> v.taskHidden[t]))
            && (v.emptyShown <==> forall t :: 0 <= t < |tasks| ==> v.taskHidden[t])
  {
    var v := ApplyFilter(tasks, cards, completed, taskHidden, cardHidden, courseFilter, Some(statusFilter));
    forall c | 0 <= c < |cards|
      ensures v.cardHidden[c] <==> forall t :: 0 <= t < |tasks| && tasks[t].card == c ==> v.taskHidden[t]
    {
      CountShownInCardZero(tasks, v.taskHidden, c);
    }
    CountShownZero(v.taskHidden);
  }

  /**
   * A button with neither filter leaves every flag as it was; the visible
   * count is still the number of tasks in unhidden cards, hidden tasks
   * included.
   */
  lemma NoFilter(tasks: seq<Task>, cards: seq<Card>, completed: seq<bool>,
                 taskHidden: seq<bool>, cardHidden: seq<bool>,
                 courseFilter: Option<string>, statusFilter: Option<string>)
    requires Fits(tasks, cards, completed, taskHidden, cardHidden)
    requires !Truthy(courseFilter) && !Truthy(statusFilter)
    ensures var v := ApplyFilter(tasks, cards, completed, taskHidden, cardHidden, courseFilter, statusFilter);
            && v.taskHidden == taskHidden && v.cardHidden == cardHidden
            && v.visibleCount == CountInShownCards(tasks, cardHidden)
            && (v.emptyShown <==> forall t :: 0 <= t < |tasks| ==> cardHidden[tasks[t].card])
  {
    SumOverShownCardsCounts(tasks, cardHidden);
    CountInShownCardsZero(tasks, cardHidden);
  }

  /**
   * The 'all' course filter without a status filter shows every card and
   * every task; the empty state is shown exactly when the page has no task.
   */
  lemma ShowAll(tasks: seq<Task>, cards: seq<Card>, completed: seq<bool>,
                taskHidden: seq<bool>, cardHidden: seq<bool>, statusFilter: Option<string>)
    requires Fits(tasks, cards, completed, taskHidden, cardHidden)
    requires !Truthy(statusFilter)
    ensures var v := ApplyFilter(tasks, cards, completed, taskHidden, cardHidden, Some("all"), statusFilter);
            && v.taskHidden == seq(|tasks|, _ => false)
            && v.cardHidden == seq(|cards|, _ => false)
            && v.visibleCount == |tasks|
            && (v.emptyShown <==> tasks == [])
  {
    var v := ApplyFilter(tasks, cards, completed, taskHidden, cardHidden, Some("all"), statusFilter);
    SumOverShownCardsCounts(tasks, v.cardHidden);
    CountInShownCardsAll(tasks, v.cardHidden);
  }
}
