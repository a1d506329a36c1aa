/** The browser's sorted, duplicate-free list of task events. */
module EventList {
  import opened Prelude
  import opened TaskEvents

  // ---------------------------------------------------------------------
  // The order of events
  // ---------------------------------------------------------------------

  /** Lexicographic order of texts by code point. */
  predicate TextLess(a: string, b: string) {
    b != "" && (a == "" || a[0] < b[0] || (a[0] == b[0] && TextLess(a[1..], b[1..])))
  }

  lemma {:induction false} TextTrichotomy(a: string, b: string)
    ensures TextLess(a, b) || a == b || TextLess(b, a)
    ensures !(TextLess(a, b) && TextLess(b, a)) && !TextLess(a, a)
  {
    if a != "" && b != "" && a[0] == b[0] {
      TextTrichotomy(a[1..], b[1..]);
      assert a == [a[0]] + a[1..] && b == [b[0]] + b[1..];
    }
    if a != "" {
      TextTrichotomy(a[1..], a[1..]);
    }
  }

  lemma {:induction false} TextTransitive(a: string, b: string, c: string)
    requires TextLess(a, b) && TextLess(b, c)
    ensures TextLess(a, c)
  {
    if a != "" && a[0] == b[0] == c[0] {
      TextTransitive(a[1..], b[1..], c[1..]);
    }
  }

  /** `compare_task_events` answers Less: by creation time, task, sequence number. */
  predicate Less(a: TaskEvent, b: TaskEvent) {
    || a.createdAt < b.createdAt
    || (a.createdAt == b.createdAt && TextLess(a.taskId, b.taskId))
    || (a.createdAt == b.createdAt && a.taskId == b.taskId && a.seqNo < b.seqNo)
  }

  predicate SameId(a: TaskEvent, b: TaskEvent) {
    a.taskId == b.taskId && a.seqNo == b.seqNo
  }

  lemma LessIsAnOrder(a: TaskEvent, b: TaskEvent)
    ensures !(Less(a, b) && Less(b, a)) && !Less(a, a)
    ensures !SameId(a, b) ==> Less(a, b) || Less(b, a)
  {
    TextTrichotomy(a.taskId, b.taskId);
  }

  lemma LessTransitive(a: TaskEvent, b: TaskEvent, c: TaskEvent)
    requires Less(a, b) && Less(b, c)
    ensures Less(a, c)
  {
    if TextLess(a.taskId, b.taskId) && TextLess(b.taskId, c.taskId) {
      TextTransitive(a.taskId, b.taskId, c.taskId);
    }
  }

  // ---------------------------------------------------------------------
  // Lists
  // ---------------------------------------------------------------------

  predicate Holds(items: seq<TaskEvent>, event: TaskEvent) {
    exists i :: 0 <= i < |items| && SameId(items[i], event)
  }

  ghost predicate DistinctIds(items: seq<TaskEvent>) {
    forall i, j :: 0 <= i < j < |items| ==> !SameId(items[i], items[j])
  }

  ghost predicate Ascending(items: seq<TaskEvent>) {
    forall i, j :: 0 <= i < j < |items| ==> Less(items[i], items[j])
  }

  /** Equal ids mean equal events. */
  ghost predicate Coherent(events: set<TaskEvent>) {
    forall a <- events, b <- events :: SameId(a, b) ==> a == b
  }

  function Elements(items: seq<TaskEvent>): set<TaskEvent> {
    set e | e in items
  }

  /** Sorted and without two events of one id: the shape the list always has. */
  ghost predicate Canonical(items: seq<TaskEvent>) {
    Ascending(items) && Coherent(Elements(items))
  }

  /** `sort_by`: a stable insertion into what is sorted so far. */
  function InsertSorted(items: seq<TaskEvent>, event: TaskEvent): seq<TaskEvent> {
    if items == [] then [event]
    else if Less(event, items[|items| - 1]) then InsertSorted(items[..|items| - 1], event) + [items[|items| - 1]]
    else items + [event]
  }

  function SortEvents(items: seq<TaskEvent>): seq<TaskEvent> {
    if items == [] then [] else InsertSorted(SortEvents(items[..|items| - 1]), items[|items| - 1])
  }

  function AppendUnique(items: seq<TaskEvent>, event: TaskEvent): seq<TaskEvent> {
    if Holds(items, event) then items
    else if items != [] && Less(event, items[|items| - 1]) then SortEvents(items + [event])
    else items + [event]
  }

  function AppendAll(items: seq<TaskEvent>, events: seq<TaskEvent>): seq<TaskEvent>
    decreases |events|
  {
    if events == [] then items else AppendAll(AppendUnique(items, events[0]), events[1..])
  }

  // ---------------------------------------------------------------------
  // Sorting
  // ---------------------------------------------------------------------

  lemma {:induction false} InsertKeepsItems(items: seq<TaskEvent>, event: TaskEvent)
    ensures multiset(InsertSorted(items, event)) == multiset(items) + multiset{event}
  {
    if items != [] && Less(event, items[|items| - 1]) {
      InsertKeepsItems(items[..|items| - 1], event);
      assert items == items[..|items| - 1] + [items[|items| - 1]];
    }
  }

  lemma {:induction false} SortKeepsItems(items: seq<TaskEvent>)
    ensures multiset(SortEvents(items)) == multiset(items)
  {
    hide InsertSorted;
    if items != [] {
      var n := |items| - 1;
      SortKeepsItems(items[..n]);
      InsertKeepsItems(SortEvents(items[..n]), items[n]);
      assert items == items[..n] + [items[n]];
    }
  }

  lemma {:induction false} InsertAscending(items: seq<TaskEvent>, event: TaskEvent)
    requires Ascending(items) && !Holds(items, event)
    ensures Ascending(InsertSorted(items, event))
  {
    if items != [] {
      var n := |items| - 1;
      var front, last := items[..n], items[n];
      LessIsAnOrder(event, last);
      if Less(event, last) {
        forall i | 0 <= i < n
          ensures !SameId(front[i], event)
        {
          assert !SameId(items[i], event);
        }
        InsertAscending(front, event);
        InsertKeepsItems(front, event);
        AppendLast(InsertSorted(front, event), last);
      } else {
        AppendLast(items, event);
      }
    }
  }

  /** Something greater than every item may go to the end. */
  lemma AppendLast(items: seq<TaskEvent>, event: TaskEvent)
    requires Ascending(items)
    requires items == [] || Less(items[|items| - 1], event) || forall e <- items :: Less(e, event)
    ensures Ascending(items + [event])
  {
    var r := items + [event];
    forall i | 0 <= i < |items|
      ensures Less(items[i], event)
    {
      if !(forall e <- items :: Less(e, event)) && i < |items| - 1 {
        LessTransitive(items[i], items[|items| - 1], event);
      }
    }
  }

  lemma HoldsElement(items: seq<TaskEvent>, event: TaskEvent)
    ensures Holds(items, event) <==> exists e <- items :: SameId(e, event)
  {
  }

  lemma SameElements(a: seq<TaskEvent>, b: seq<TaskEvent>)
    requires multiset(a) == multiset(b)
    ensures Elements(a) == Elements(b)
  {
    assert forall e :: e in a <==> e in multiset(a);
  }

  /** Sorting distinct events gives a canonical list of the same events. */
  lemma {:induction false} SortIsCanonical(items: seq<TaskEvent>)
    requires DistinctIds(items)
    ensures Canonical(SortEvents(items)) && Elements(SortEvents(items)) == Elements(items)
  {
    SortKeepsItems(items);
    SameElements(items, SortEvents(items));
    SortAscends(items);
    DistinctIsCoherent(items);
  }

  lemma DistinctIsCoherent(items: seq<TaskEvent>)
    requires DistinctIds(items)
    ensures Coherent(Elements(items))
  {
    forall a, b | a in items && b in items && SameId(a, b)
      ensures a == b
    {
      var i :| 0 <= i < |items| && items[i] == a;
      var j :| 0 <= j < |items| && items[j] == b;
    }
  }

  lemma {:induction false} SortAscends(items: seq<TaskEvent>)
    requires DistinctIds(items)
    ensures Ascending(SortEvents(items))
  {
    hide InsertSorted, Less;
    if items != [] {
      var n := |items| - 1;
      var front, last := items[..n], items[n];
      SortAscends(front);
      SortKeepsItems(front);
      SameElements(front, SortEvents(front));
      LastIsNew(items);
      HoldsElement(SortEvents(front), last);
      HoldsElement(front, last);
      assert forall e :: e in SortEvents(front) <==> e in Elements(front);
      InsertAscending(SortEvents(front), last);
    }
  }

  lemma LastIsNew(items: seq<TaskEvent>)
    requires items != [] && DistinctIds(items)
    ensures !Holds(items[..|items| - 1], items[|items| - 1])
  {
  }

  /** A canonical list is determined by its set of events. */
  lemma {:induction false} CanonicalIsUnique(a: seq<TaskEvent>, b: seq<TaskEvent>)
    requires Ascending(a) && Ascending(b) && Elements(a) == Elements(b)
    ensures a == b
  {
    hide Less;
    if a == [] {
      NoElements(b);
    } else if b == [] {
      NoElements(a);
    } else {
      var n, m := |a| - 1, |b| - 1;
      assert a[n] in Elements(b) && b[m] in Elements(a);
      LastIsGreatest(a, b[m]);
      LastIsGreatest(b, a[n]);
      LessIsAnOrder(a[n], b[m]);
      FrontElements(a);
      FrontElements(b);
      CanonicalIsUnique(a[..n], b[..m]);
      assert a == a[..n] + [a[n]] && b == b[..m] + [b[m]];
    }
  }

  lemma NoElements(items: seq<TaskEvent>)
    requires Elements(items) == {}
    ensures items == []
  {
    if items != [] {
      FirstIsElement(items);
    }
  }

  lemma FirstIsElement(items: seq<TaskEvent>)
    requires items != []
    ensures items[0] in Elements(items)
  {
  }

  lemma LastIsGreatest(items: seq<TaskEvent>, event: TaskEvent)
    requires Ascending(items) && event in items
    ensures items[|items| - 1] == event || Less(event, items[|items| - 1])
  {
    var i :| 0 <= i < |items| && items[i] == event;
  }

  lemma FrontElements(items: seq<TaskEvent>)
    requires items != [] && Ascending(items)
    ensures var n := |items| - 1;
      Ascending(items[..n]) && Elements(items[..n]) == Elements(items) - {items[n]}
  {
    hide Less;
    var n := |items| - 1;
    forall e | e in items[..n]
      ensures e != items[n]
    {
      var i :| 0 <= i < n && items[i] == e;
      assert Less(items[i], items[n]);
      LessIsAnOrder(items[n], items[n]);
    }
    assert items == items[..n] + [items[n]];
  }

  /** Texts compare at the first position where they differ; a prefix comes first. */
  lemma {:induction false} TextLessExactly(a: string, b: string)
    ensures TextLess(a, b) <==>
      exists k: nat :: k <= |a| && k < |b| && a[..k] == b[..k] && (k == |a| || a[k] < b[k])
  {
    if b != "" && a != "" && a[0] == b[0] {
      TextLessExactly(a[1..], b[1..]);
      if k: nat :| k <= |a| && k < |b| && a[..k] == b[..k] && (k == |a| || a[k] < b[k]) {
        assert a[1..][..k - 1] == a[..k][1..] && b[1..][..k - 1] == b[..k][1..];
        assert a[1..][..k - 1] == b[1..][..k - 1];
      }
      if k: nat :| k <= |a[1..]| && k < |b[1..]| && a[1..][..k] == b[1..][..k] && (k == |a[1..]| || a[1..][k] < b[1..][k]) {
        assert a[..k + 1] == [a[0]] + a[1..][..k] && b[..k + 1] == [b[0]] + b[1..][..k];
        assert a[..k + 1] == b[..k + 1];
      }
    } else if b != "" {
      assert a[..0] == b[..0];
      if k: nat :| k <= |a| && k < |b| && a[..k] == b[..k] && (k == |a| || a[k] < b[k]) {
        assert k > 0 ==> a[..k][0] == b[..k][0];
      }
    }
  }

  // ---------------------------------------------------------------------
  // Appending
  // ---------------------------------------------------------------------

  /** Appending keeps the list canonical, whatever is appended, and adds the event unless its id is there. */
  lemma AppendKeepsCanonical(items: seq<TaskEvent>, event: TaskEvent)
    requires Canonical(items)
    ensures Canonical(AppendUnique(items, event))
    ensures Elements(AppendUnique(items, event))
         == if Holds(items, event) then Elements(items) else Elements(items) + {event}
  {
    hide Less, SortEvents;
    if !Holds(items, event) {
      AppendedIsDistinct(items, event);
      assert Elements(items + [event]) == Elements(items) + {event};
      if items != [] && Less(event, items[|items| - 1]) {
        SortIsCanonical(items + [event]);
      } else {
        DistinctIsCoherent(items + [event]);
        if items != [] {
          assert !SameId(items[|items| - 1], event);
          LessIsAnOrder(items[|items| - 1], event);
        }
        AppendLast(items, event);
      }
    }
  }

  lemma AppendedIsDistinct(items: seq<TaskEvent>, event: TaskEvent)
    requires Canonical(items) && !Holds(items, event)
    ensures DistinctIds(items + [event])
  {
    hide Less;
    var r := items + [event];
    forall i, j | 0 <= i < j < |r|
      ensures !SameId(r[i], r[j])
    {
      if j < |items| {
        assert items[i] in Elements(items) && items[j] in Elements(items);
        assert Less(items[i], items[j]);
        LessIsAnOrder(items[i], items[i]);
      }
    }
  }

  lemma {:induction false} AppendAllIsCanonical(items: seq<TaskEvent>, events: seq<TaskEvent>)
    requires Canonical(items)
    ensures Canonical(AppendAll(items, events))
    decreases |events|
  {
    hide Canonical, AppendUnique;
    if events != [] {
      AppendKeepsCanonical(items, events[0]);
      AppendAllIsCanonical(AppendUnique(items, events[0]), events[1..]);
    }
  }

  /**
   What a user sees after any arrivals: the oldest event first, events of one
   moment by task and then by number, no id twice.
   */
  lemma ShownInOrder(events: seq<TaskEvent>, i: nat, j: nat)
    requires i < j < |AppendAll([], events)|
    ensures var a, b := AppendAll([], events)[i], AppendAll([], events)[j];
      && (a.taskId != b.taskId || a.seqNo != b.seqNo)
      && (a.createdAt < b.createdAt
          || (a.createdAt == b.createdAt && a.taskId == b.taskId && a.seqNo < b.seqNo)
          || (a.createdAt == b.createdAt
              && exists k: nat :: k <= |a.taskId| && k < |b.taskId| && a.taskId[..k] == b.taskId[..k]
                   && (k == |a.taskId| || a.taskId[k] < b.taskId[k])))
  {
    hide AppendAll, TextLess;
    AppendAllIsCanonical([], events);
    var a, b := AppendAll([], events)[i], AppendAll([], events)[j];
    TextLessExactly(a.taskId, b.taskId);
    assert Less(a, b);
    assert a in Elements(AppendAll([], events)) && b in Elements(AppendAll([], events));
    LessIsAnOrder(a, a);
  }

  /** Every arrived event is shown, or another one with its task and number; nothing else is. */
  lemma {:induction false} EveryIdIsShown(items: seq<TaskEvent>, events: seq<TaskEvent>)
    requires Canonical(items)
    ensures forall e :: e in items || e in events ==> IdIsShown(AppendAll(items, events), e.taskId, e.seqNo)
    ensures forall s <- AppendAll(items, events) :: s in items || s in events
    decreases |events|
  {
    hide AppendUnique, Canonical;
    if events == [] {
      assert forall e <- items :: IdIsShown(items, e.taskId, e.seqNo);
    } else {
      var first, next := events[0], AppendUnique(items, events[0]);
      AppendKeepsCanonical(items, first);
      EveryIdIsShown(next, events[1..]);
      HoldsElement(items, first);
      assert forall e :: e in items <==> e in Elements(items);
      assert forall e :: e in next <==> e in Elements(next);
      assert events == [first] + events[1..];
    }
  }

  ghost predicate IdIsShown(items: seq<TaskEvent>, taskId: string, seqNo: nat) {
    exists s <- items :: s.taskId == taskId && s.seqNo == seqNo
  }

  /** The events whose ids the list does not hold yet. */
  function Fresh(items: seq<TaskEvent>, events: set<TaskEvent>): set<TaskEvent> {
    set e <- events | !Holds(items, e)
  }

  /** Where equal ids mean equal events among those not held yet, the list gains exactly these. */
  lemma {:induction false} AppendAllFresh(items: seq<TaskEvent>, events: seq<TaskEvent>)
    requires Canonical(items) && Coherent(Fresh(items, Elements(events)))
    ensures Elements(AppendAll(items, events)) == Elements(items) + Fresh(items, Elements(events))
    decreases |events|
  {
    hide AppendUnique, Canonical, Less;
    if events == [] {
    } else {
      var first, rest := events[0], events[1..];
      var next := AppendUnique(items, first);
      AppendKeepsCanonical(items, first);
      assert Elements(events) == {first} + Elements(rest);
      HoldsOneMore(items, first, next, Elements(rest));
      AppendAllFresh(next, rest);
    }
  }

  lemma HoldsOneMore(items: seq<TaskEvent>, first: TaskEvent, next: seq<TaskEvent>, rest: set<TaskEvent>)
    requires Elements(next) == if Holds(items, first) then Elements(items) else Elements(items) + {first}
    requires Coherent(Fresh(items, {first} + rest))
    ensures Coherent(Fresh(next, rest))
    ensures Elements(next) + Fresh(next, rest) == Elements(items) + Fresh(items, {first} + rest)
  {
    assert forall e :: e in next <==> e in Elements(next);
    assert forall e :: e in items <==> e in Elements(items);
    forall e: TaskEvent
      ensures Holds(next, e) <==> Holds(items, e) || (!Holds(items, first) && SameId(first, e))
    {
      HoldsElement(items, e);
      HoldsElement(next, e);
    }
  }

  /** Where equal ids mean equal events, the list ends up with exactly the events that were there or appended. */
  lemma AppendAllElements(items: seq<TaskEvent>, events: seq<TaskEvent>)
    requires Canonical(items) && Coherent(Elements(items) + Elements(events))
    ensures Elements(AppendAll(items, events)) == Elements(items) + Elements(events)
  {
    hide Ascending, AppendAll;
    AppendAllFresh(items, events);
    forall e | e in events
      ensures Holds(items, e) ==> e in Elements(items)
    {
      HeldIsElement(items, e, Elements(items) + Elements(events));
    }
  }

  lemma HeldIsElement(items: seq<TaskEvent>, event: TaskEvent, all: set<TaskEvent>)
    requires Coherent(all) && Elements(items) <= all && event in all
    ensures Holds(items, event) ==> event in Elements(items)
  {
    if Holds(items, event) {
      var i :| 0 <= i < |items| && SameId(items[i], event);
      assert items[i] in Elements(items);
    }
  }

  /**
   Whatever the order of arrival and however two streams interleave, the same
   events give one and the same list, as long as the events not held yet do
   not contradict each other.
   */
  lemma OrderOfArrivalIsIrrelevant(items: seq<TaskEvent>, events: seq<TaskEvent>, others: seq<TaskEvent>)
    requires Canonical(items) && Elements(events) == Elements(others)
    requires Coherent(Fresh(items, Elements(events)))
    ensures AppendAll(items, events) == AppendAll(items, others)
  {
    hide AppendAll;
    AppendAllIsCanonical(items, events);
    AppendAllIsCanonical(items, others);
    AppendAllFresh(items, events);
    AppendAllFresh(items, others);
    CanonicalIsUnique(AppendAll(items, events), AppendAll(items, others));
  }

  lemma {:induction false} AppendAllKeeps(items: seq<TaskEvent>, events: seq<TaskEvent>, event: TaskEvent)
    requires Canonical(items) && event in items
    ensures event in AppendAll(items, events)
    decreases |events|
  {
    hide AppendUnique, Canonical;
    if events != [] {
      AppendKeepsCanonical(items, events[0]);
      assert event in Elements(AppendUnique(items, events[0]));
      AppendAllKeeps(AppendUnique(items, events[0]), events[1..], event);
    }
  }

  /** Of two different events with one id the first to arrive stays, whatever follows. */
  lemma FirstOfConflictingStays(items: seq<TaskEvent>, a: TaskEvent, b: TaskEvent, events: seq<TaskEvent>)
    requires Canonical(items) && SameId(a, b) && a != b && !Holds(items, a)
    ensures a in AppendAll(items, [a] + events) && b !in AppendAll(items, [a] + events)
  {
    hide AppendAll, AppendUnique, Ascending, Holds;
    var next := AppendUnique(items, a);
    AppendKeepsCanonical(items, a);
    AppendFirst(items, a, events);
    assert a in Elements(next);
    AppendAllKeeps(next, events, a);
    AppendAllIsCanonical(next, events);
    OnlyOneOfAnId(AppendAll(next, events), a, b);
  }

  lemma AppendFirst(items: seq<TaskEvent>, first: TaskEvent, rest: seq<TaskEvent>)
    ensures AppendAll(items, [first] + rest) == AppendAll(AppendUnique(items, first), rest)
  {
    hide AppendUnique;
    assert ([first] + rest)[1..] == rest;
  }

  lemma OnlyOneOfAnId(items: seq<TaskEvent>, a: TaskEvent, b: TaskEvent)
    requires Canonical(items) && a in items && SameId(a, b) && a != b
    ensures b !in items
  {
    assert a in Elements(items);
    assert b in items ==> b in Elements(items);
  }

  function ToFront(events: seq<TaskEvent>, i: nat): (r: seq<TaskEvent>)
    requires i < |events|
    ensures multiset(r) == multiset(events)
  {
    assert events == events[..i] + [events[i]] + events[i + 1..];
    [events[i]] + (events[..i] + events[i + 1..])
  }

  /**
   All arrival orders of the same events give one list if and only if equal
   ids mean equal events among those whose ids the list does not hold yet.
   */
  lemma ArrivalOrdersAgreeExactly(items: seq<TaskEvent>, events: seq<TaskEvent>)
    requires Canonical(items)
    ensures (forall order: seq<TaskEvent> :: multiset(order) == multiset(events) ==>
               AppendAll(items, order) == AppendAll(items, events))
       <==> Coherent(Fresh(items, Elements(events)))
  {
    hide AppendAll, Canonical;
    if Coherent(Fresh(items, Elements(events))) {
      forall order: seq<TaskEvent> | multiset(order) == multiset(events)
        ensures AppendAll(items, order) == AppendAll(items, events)
      {
        SameElements(order, events);
        OrderOfArrivalIsIrrelevant(items, order, events);
      }
    } else {
      var a, b :| a in Fresh(items, Elements(events)) && b in Fresh(items, Elements(events)) && SameId(a, b) && a != b;
      var i :| 0 <= i < |events| && events[i] == a;
      var j :| 0 <= j < |events| && events[j] == b;
      FirstOfConflictingStays(items, a, b, events[..i] + events[i + 1..]);
      FirstOfConflictingStays(items, b, a, events[..j] + events[j + 1..]);
      assert AppendAll(items, ToFront(events, i)) != AppendAll(items, ToFront(events, j));
    }
  }

  /** Leaving out the sort when the event belongs at the end changes nothing. */
  lemma SkippedSortIsHarmless(items: seq<TaskEvent>, event: TaskEvent)
    requires Canonical(items)
    ensures AppendUnique(items, event) == if Holds(items, event) then items else SortEvents(items + [event])
  {
    hide Less, SortEvents;
    if !Holds(items, event) {
      AppendKeepsCanonical(items, event);
      AppendedIsDistinct(items, event);
      SortIsCanonical(items + [event]);
      assert Elements(items + [event]) == Elements(items) + {event};
      CanonicalIsUnique(AppendUnique(items, event), SortEvents(items + [event]));
    }
  }

  // ---------------------------------------------------------------------
  // The list as a signal, and merging a whole page
  // ---------------------------------------------------------------------

  class EventSignal {
    var items: seq<TaskEvent>

    constructor ()
      ensures items == []
    {
      items := [];
    }

    method AppendUniqueEvent(event: TaskEvent)
      modifies this
      ensures items == AppendUnique(old(items), event)
    {
      if !Holds(items, event) {
        var needsSort := items != [] && Less(event, items[|items| - 1]);
        items := items + [event];
        if needsSort {
          items := SortEvents(items);
        }
      }
    }

    /** Merging a page: one sort at the end, if any event came out of order. */
    method MergeTaskEvents(newEvents: seq<TaskEvent>)
      requires Canonical(items)
      modifies this
      ensures items == AppendAll(old(items), newEvents)
    {
      hide Less, Canonical, Ascending, AppendUnique, AppendAll, SortEvents, Holds, DistinctIds;
      var needsSort := false;
      ghost var model := items;
      MergeStarts(items);
      AppendNothing(items);
      for i := 0 to |newEvents|
        invariant Merging(items, model, needsSort)
        invariant AppendAll(model, newEvents[i..]) == AppendAll(old(items), newEvents)
      {
        var event := newEvents[i];
        AppendStep(model, newEvents, i);
        MergeStep(items, model, needsSort, event);
        model := AppendUnique(model, event);
        if !Holds(items, event) {
          needsSort := needsSort || (items != [] && Less(event, items[|items| - 1]));
          items := items + [event];
        }
      }
      MergeEnds(items, model, needsSort);
      AppendNothing(model);
      assert newEvents[|newEvents|..] == [];
      if needsSort {
        items := SortEvents(items);
      }
    }
  }

  /** The unsorted list under construction against the list that is kept sorted. */
  ghost predicate Merging(items: seq<TaskEvent>, model: seq<TaskEvent>, needsSort: bool) {
    && Canonical(model) && DistinctIds(items) && Elements(items) == Elements(model)
    && (!needsSort ==> Ascending(items))
  }

  lemma MergeStarts(items: seq<TaskEvent>)
    requires Canonical(items)
    ensures Merging(items, items, false)
    ensures items[0..] == items
  {
    hide Less;
    forall i, j | 0 <= i < j < |items|
      ensures !SameId(items[i], items[j])
    {
      assert items[i] in Elements(items) && items[j] in Elements(items);
      assert Less(items[i], items[j]);
      LessIsAnOrder(items[i], items[i]);
    }
  }

  lemma AppendNothing(items: seq<TaskEvent>)
    ensures AppendAll(items, []) == items
  {
  }

  lemma AppendStep(model: seq<TaskEvent>, events: seq<TaskEvent>, i: nat)
    requires i < |events|
    ensures AppendAll(model, events[i..]) == AppendAll(AppendUnique(model, events[i]), events[i + 1..])
  {
    hide AppendUnique;
    assert events[i..][1..] == events[i + 1..];
  }

  lemma MergeStep(items: seq<TaskEvent>, model: seq<TaskEvent>, needsSort: bool, event: TaskEvent)
    requires Merging(items, model, needsSort)
    ensures if Holds(items, event) then Merging(items, AppendUnique(model, event), needsSort)
      else Merging(items + [event], AppendUnique(model, event),
        needsSort || (items != [] && Less(event, items[|items| - 1])))
  {
    hide Less, SortEvents, AppendUnique;
    AppendKeepsCanonical(model, event);
    HoldsElement(items, event);
    HoldsElement(model, event);
    assert forall e :: e in Elements(items) <==> e in items;
    assert forall e :: e in Elements(model) <==> e in model;
    if !Holds(items, event) {
      assert Elements(items + [event]) == Elements(items) + {event};
      if !needsSort && items != [] && !Less(event, items[|items| - 1]) {
        LessIsAnOrder(items[|items| - 1], event);
        assert !SameId(items[|items| - 1], event);
        AppendLast(items, event);
      }
    }
  }

  lemma MergeEnds(items: seq<TaskEvent>, model: seq<TaskEvent>, needsSort: bool)
    requires Merging(items, model, needsSort)
    ensures (if needsSort then SortEvents(items) else items) == model
  {
    hide Less, SortEvents;
    SortIsCanonical(items);
    CanonicalIsUnique(if needsSort then SortEvents(items) else items, model);
  }
}
