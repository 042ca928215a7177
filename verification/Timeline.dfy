/** The board as it was at a time (models/view_rows.c, `wena_view_timeline`): what happened to a
    card after that time is undone, newest first. Times are integers. */
module Timelines {
  import opened BitStreams
  import opened MergeSorting

  type Text = seq<Byte>

  const TITLE: nat := 129
  const PEOPLE: nat := 8
  const LABELS: nat := 8

  datatype Kind = CreateCard | ChangedTitle | ChangedDescription | DueAt | MoveCard | ArchivedCard | RestoredCard
    | JoinMember | UnjoinMember | AddedLabel | RemovedLabel | Other

  /** One row of the activity log. */
  datatype Activity = Activity(
    kind: Kind, cardId: Text, at: int, oldValue: Text, aboutDue: bool, oldTime: Option<int>,
    oldList: Option<Text>, oldSwimlane: Option<Text>, memberId: Text, labelId: Text)

  datatype Card = Card(
    id: Text, title: Text, description: Text, listId: Text, swimlaneId: Text, due: Option<int>,
    archived: bool, deleted: bool, members: seq<Text>, labels: seq<Text>)

  /** A card as the view shows it. */
  datatype Snapshot = Snapshot(
    existed: bool, title: Text, description: Text, listId: Text, swimlaneId: Text, due: Option<int>,
    archived: bool, members: seq<Text>, labels: seq<Text>)

  // ----- lists of ids

  /** The list without the first occurrence of an id. */
  ghost function Removed(ids: seq<Text>, id: Text): seq<Text>
  {
    if ids == [] then [] else if ids[0] == id then ids[1..] else [ids[0]] + Removed(ids[1..], id)
  }

  ghost function Added(ids: seq<Text>, capacity: nat, id: Text): seq<Text>
  {
    if id == [] || id in ids || capacity <= |ids| then ids else ids + [id]
  }

  ghost predicate Distinct(ids: seq<Text>) { forall i, j :: 0 <= i < j < |ids| ==> ids[i] != ids[j] }

  ghost function SetOf(ids: seq<Text>): set<Text> { set id | id in ids }

  lemma {:induction false} RemovedIs(ids: seq<Text>, id: Text)
    requires Distinct(ids)
    ensures SetOf(Removed(ids, id)) == SetOf(ids) - {id} && Distinct(Removed(ids, id))
  {
    if ids != [] {
      assert Distinct(ids[1..]);
      RemovedIs(ids[1..], id);
      assert ids[0] !in ids[1..];
      forall x ensures x in SetOf(Removed(ids, id)) <==> x in SetOf(ids) - {id} {
        if ids[0] == id {
          assert x in ids <==> x == id || x in ids[1..];
        } else {
          assert x in Removed(ids, id) <==> x == ids[0] || x in SetOf(Removed(ids[1..], id));
          assert x in SetOf(ids[1..]) <==> x in ids[1..];
        }
      }
      if ids[0] != id {
        assert ids[0] !in SetOf(Removed(ids[1..], id));
      }
    }
  }

  lemma {:induction false} SizeOf(ids: seq<Text>)
    requires Distinct(ids)
    ensures |SetOf(ids)| == |ids|
  {
    if ids != [] {
      assert Distinct(ids[1..]);
      SizeOf(ids[1..]);
      assert SetOf(ids) == {ids[0]} + SetOf(ids[1..]);
    }
  }

  lemma AddedIs(ids: seq<Text>, capacity: nat, id: Text)
    requires Distinct(ids) && id != [] && id !in SetOf(ids) && |SetOf(ids)| < capacity
    ensures SetOf(Added(ids, capacity, id)) == SetOf(ids) + {id} && Distinct(Added(ids, capacity, id))
  {
    SizeOf(ids);
    assert id !in ids;
    assert forall x :: x in ids + [id] <==> x in ids || x == id;
  }

  /** `remove_id`. */
  method RemoveId(ids: seq<Text>, id: Text) returns (left: seq<Text>)
    ensures left == Removed(ids, id)
  {
    var i := 0;
    assert ids[..0] + Removed(ids[0..], id) == Removed(ids, id);
    while i < |ids|
      invariant i <= |ids| && Removed(ids, id) == ids[..i] + Removed(ids[i..], id)
    {
      assert ids[i..][1..] == ids[i + 1..];
      if ids[i] == id {
        return ids[..i] + ids[i + 1..];
      }
      assert ids[..i] + [ids[i]] == ids[..i + 1];
      Associative(ids[..i], [ids[i]], Removed(ids[i + 1..], id));
      i := i + 1;
    }
    left := ids;
  }

  /** `add_id`. */
  method AddId(ids: seq<Text>, capacity: nat, id: Text) returns (more: seq<Text>)
    ensures more == Added(ids, capacity, id)
  {
    if id == [] {
      return ids;
    }
    for i := 0 to |ids|
      invariant id !in ids[..i]
    {
      if ids[i] == id {
        return ids;
      }
    }
    assert ids[..|ids|] == ids;
    more := if |ids| < capacity then ids + [id] else ids;
  }

  // ----- undoing

  ghost function CopyText(text: Text, capacity: nat): Text
    requires 0 < capacity
  {
    if |text| < capacity then text else text[..capacity - 1]
  }

  /** One activity undone. */
  ghost function Undone(s: Snapshot, a: Activity): Snapshot
  {
    match a.kind
    case CreateCard => s.(existed := false)
    case ChangedTitle => s.(title := CopyText(a.oldValue, TITLE))
    case ChangedDescription => s.(description := a.oldValue)
    case DueAt => if a.aboutDue then s.(due := a.oldTime) else s
    case MoveCard =>
      s.(listId := if a.oldList.Some? then a.oldList.value else s.listId,
         swimlaneId := if a.oldSwimlane.Some? then a.oldSwimlane.value else s.swimlaneId)
    case ArchivedCard => s.(archived := false)
    case RestoredCard => s.(archived := true)
    case JoinMember => s.(members := Removed(s.members, a.memberId))
    case UnjoinMember => s.(members := Added(s.members, PEOPLE, a.memberId))
    case AddedLabel => s.(labels := Removed(s.labels, a.labelId))
    case RemovedLabel => s.(labels := Added(s.labels, LABELS, a.labelId))
    case Other => s
  }

  ghost function AllUndone(s: Snapshot, newestFirst: seq<Activity>): Snapshot
    decreases |newestFirst|
  {
    if newestFirst == [] then s else AllUndone(Undone(s, newestFirst[0]), newestFirst[1..])
  }

  ghost function Now(c: Card): Snapshot
  {
    Snapshot(true, c.title, c.description, c.listId, c.swimlaneId, c.due, c.archived, c.members, c.labels)
  }

  predicate Later(a: Activity, id: Text, at: int) { a.cardId == id && at < a.at }

  /** What happened to a card after `at`, in the order of the log. */
  ghost function Future(log: seq<Activity>, id: Text, at: int): seq<Activity>
  {
    if log == [] then [] else (if Later(log[0], id, at) then [log[0]] else []) + Future(log[1..], id, at)
  }

  /** `by_newest`. */
  function ByNewest(): (Activity, Activity) -> int
  {
    (a: Activity, b: Activity) => if b.at < a.at then -1 else if b.at > a.at then 1 else 0
  }

  ghost predicate NewestFirst(newest: seq<Activity>, log: seq<Activity>, id: Text, at: int)
  {
    Sorted(newest, ByNewest()) && Stable(newest, Future(log, id, at), ByNewest())
  }

  lemma ByNewestIsPreorder()
    ensures Preorder(ByNewest())
  {
    forall a: Activity, b: Activity, c: Activity ensures Chain(ByNewest(), a, b, c) {
    }
  }

  // ----- the view

  class TimelineCard {
    const card: Card
    var existed: bool
    var title: Text
    var description: Text
    var listId: Text
    var swimlaneId: Text
    var due: Option<int>
    var archived: bool
    var members: seq<Text>
    var labels: seq<Text>

    ghost function State(): Snapshot
      reads this
    {
      Snapshot(existed, title, description, listId, swimlaneId, due, archived, members, labels)
    }

    constructor (c: Card)
      ensures card == c && State() == Now(c)
    {
      card, existed := c, true;
      title, description, listId, swimlaneId := c.title, c.description, c.listId, c.swimlaneId;
      due, archived, members, labels := c.due, c.archived, c.members, c.labels;
    }

    method Undo(a: Activity)
      modifies this
      ensures State() == Undone(old(State()), a)
    {
      match a.kind
      case CreateCard => existed := false;
      case ChangedTitle => title := if |a.oldValue| < TITLE then a.oldValue else a.oldValue[..TITLE - 1];
      case ChangedDescription => description := a.oldValue;
      case DueAt => {
        if a.aboutDue {
          due := a.oldTime;
        }
      }
      case MoveCard => {
        if a.oldList.Some? {
          listId := a.oldList.value;
        }
        if a.oldSwimlane.Some? {
          swimlaneId := a.oldSwimlane.value;
        }
      }
      case ArchivedCard => archived := false;
      case RestoredCard => archived := true;
      case JoinMember => members := RemoveId(members, a.memberId);
      case UnjoinMember => members := AddId(members, PEOPLE, a.memberId);
      case AddedLabel => labels := RemoveId(labels, a.labelId);
      case RemovedLabel => labels := AddId(labels, LABELS, a.labelId);
      case Other => {}
    }

    /** Everything after `at`, newest first. */
    method UndoAfter(log: seq<Activity>, at: int) returns (ghost newest: seq<Activity>)
      modifies this
      ensures NewestFirst(newest, log, card.id, at) && State() == AllUndone(old(State()), newest)
    {
      hide Undone, Sorted, Stable;
      var future: seq<Activity> := [];
      for j := 0 to |log|
        invariant Future(log, card.id, at) == future + Future(log[j..], card.id, at)
        modifies {}
      {
        assert log[j..][1..] == log[j + 1..];
        if Later(log[j], card.id, at) {
          Associative(future, [log[j]], Future(log[j + 1..], card.id, at));
          future := future + [log[j]];
        }
      }
      assert Future(log, card.id, at) == future;
      var sorted := new Activity[|future|](i requires 0 <= i < |future| => future[i]);
      assert sorted[..] == future;
      ByNewestIsPreorder();
      Sort(sorted, ByNewest());
      newest := sorted[..];
      for j := 0 to sorted.Length
        invariant AllUndone(old(State()), newest) == AllUndone(State(), newest[j..])
        invariant sorted[..] == newest
        modifies this
      {
        assert newest[j..][1..] == newest[j + 1..];
        Undo(sorted[j]);
      }
    }
  }

  /** The open cards, live or as they were at `at`. */
  ghost predicate Shows(card: Card, state: Snapshot, log: seq<Activity>, live: bool, at: int)
  {
    if live then state == Now(card)
    else exists newest :: NewestFirst(newest, log, card.id, at) && state == AllUndone(Now(card), newest)
  }

  ghost function Open(cards: seq<Card>): seq<Card>
  {
    if cards == [] then [] else (if cards[0].archived || cards[0].deleted then [] else [cards[0]]) + Open(cards[1..])
  }

  /** `wena_view_timeline`. */
  method Timeline(cards: seq<Card>, log: seq<Activity>, live: bool, at: int) returns (out: seq<TimelineCard>)
    ensures |out| == |Open(cards)|
    ensures forall i :: 0 <= i < |out| ==> out[i].card == Open(cards)[i] && Shows(out[i].card, out[i].State(), log, live, at)
    ensures forall i :: live && 0 <= i < |out| ==>
      && out[i].existed && out[i].title == out[i].card.title && out[i].description == out[i].card.description
      && out[i].listId == out[i].card.listId && out[i].swimlaneId == out[i].card.swimlaneId && out[i].due == out[i].card.due
      && out[i].archived == out[i].card.archived && out[i].members == out[i].card.members && out[i].labels == out[i].card.labels
  {
    hide AllUndone, NewestFirst;
    out := [];
    for i := 0 to |cards|
      invariant |out| + |Open(cards[i..])| == |Open(cards)|
      invariant forall k :: 0 <= k < |out| ==> fresh(out[k])
      invariant forall k :: 0 <= k < |out| ==> out[k].card == Open(cards)[k] && Shows(out[k].card, out[k].State(), log, live, at)
      invariant Open(cards)[|out|..] == Open(cards[i..])
    {
      assert cards[i..][1..] == cards[i + 1..];
      if !cards[i].archived && !cards[i].deleted {
        var state := new TimelineCard(cards[i]);
        if !live {
          ghost var newest := state.UndoAfter(log, at);
        }
        assert Open(cards[i..])[1..] == Open(cards[i + 1..]) && Open(cards[i..])[0] == cards[i];
        out := out + [state];
      } else {
        assert Open(cards[i..]) == Open(cards[i + 1..]);
      }
    }
  }

  /** A card is on the view exactly when it is neither archived nor deleted now, whatever it was then. */
  lemma {:induction false} ShownExactly(cards: seq<Card>, card: Card)
    ensures card in Open(cards) <==> card in cards && !card.archived && !card.deleted
  {
    if cards != [] {
      assert cards == [cards[0]] + cards[1..];
      ShownExactly(cards[1..], card);
    }
  }

  /** The cards of the view stand in the order of the board's cards, each once for every time it stands there. */
  lemma {:induction false} OpenInOrder(cards: seq<Card>, more: seq<Card>, card: Card)
    ensures Open(cards + more) == Open(cards) + Open(more)
    ensures Open([card]) == if card.archived || card.deleted then [] else [card]
  {
    assert [card][1..] == [];
    if cards == [] {
      assert [] + more == more;
    } else {
      assert (cards + more)[1..] == cards[1..] + more;
      OpenInOrder(cards[1..], more, card);
      Associative(if cards[0].archived || cards[0].deleted then [] else [cards[0]], Open(cards[1..]), Open(more));
    }
  }

  /** So a card archived since is missing from the board as it was: this one was open at 0. */
  lemma ArchivedSinceIsAbsent() returns (card: Card, log: seq<Activity>)
    ensures Open([card]) == [] && NewestFirst(log, log, card.id, 0)
    ensures AllUndone(Now(card), log).existed && !AllUndone(Now(card), log).archived
  {
    card := Card([1], [], [], [], [], None, true, false, [], []);
    log := [Activity(ArchivedCard, [1], 1, [], false, None, None, None, [], [])];
    assert Open([card]) == [] + Open([card][1..]) && [card][1..] == [];
    assert Future(log, [1], 0) == [log[0]] + Future(log[1..], [1], 0) && log[1..] == [];
    assert AllUndone(Now(card), log) == AllUndone(Undone(Now(card), log[0]), log[1..]);
  }

  // ----- what it undoes

  /** A card as it really was. */
  datatype Actual = Actual(
    existed: bool, title: Text, description: Text, listId: Text, swimlaneId: Text, due: Option<int>,
    archived: bool, members: set<Text>, labels: set<Text>)

  /** The activity tells how `before` became `after`, with the old values the log is for. */
  ghost predicate Faithful(before: Actual, a: Activity, after: Actual)
  {
    && |before.title| < TITLE && |before.members| <= PEOPLE && |before.labels| <= LABELS
    && before.existed == (a.kind != CreateCard) && after.existed
    && match a.kind
       case CreateCard => true
       case ChangedTitle => after == before.(title := after.title) && a.oldValue == before.title
       case ChangedDescription => after == before.(description := after.description) && a.oldValue == before.description
       case DueAt => after == before.(due := after.due) && if a.aboutDue then a.oldTime == before.due else after.due == before.due
       case MoveCard =>
         && after == before.(listId := after.listId, swimlaneId := after.swimlaneId)
         && before.listId == (if a.oldList.Some? then a.oldList.value else after.listId)
         && before.swimlaneId == (if a.oldSwimlane.Some? then a.oldSwimlane.value else after.swimlaneId)
       case ArchivedCard => !before.archived && after == before.(archived := true)
       case RestoredCard => before.archived && after == before.(archived := false)
       case JoinMember => a.memberId !in before.members && after == before.(members := before.members + {a.memberId})
       case UnjoinMember => a.memberId != [] && a.memberId in before.members && after == before.(members := before.members - {a.memberId})
       case AddedLabel => a.labelId !in before.labels && after == before.(labels := before.labels + {a.labelId})
       case RemovedLabel => a.labelId != [] && a.labelId in before.labels && after == before.(labels := before.labels - {a.labelId})
       case Other => after == before
  }

  /** The view shows the card as it was; of a card that did not exist it shows that. */
  ghost predicate Matches(s: Snapshot, actual: Actual)
  {
    && s.existed == actual.existed
    && (actual.existed ==>
          && s.title == actual.title && s.description == actual.description && s.listId == actual.listId
          && s.swimlaneId == actual.swimlaneId && s.due == actual.due && s.archived == actual.archived
          && Distinct(s.members) && SetOf(s.members) == actual.members
          && Distinct(s.labels) && SetOf(s.labels) == actual.labels)
  }

  lemma UndoneMatches(s: Snapshot, before: Actual, a: Activity, after: Actual)
    requires Faithful(before, a, after) && Matches(s, after)
    ensures Matches(Undone(s, a), before)
  {
    hide SetOf, Distinct, Removed, Added;
    match a.kind
    case JoinMember => RemovedIs(s.members, a.memberId);
    case AddedLabel => RemovedIs(s.labels, a.labelId);
    case UnjoinMember => {
      Fewer(before.members, a.memberId);
      AddedIs(s.members, PEOPLE, a.memberId);
    }
    case RemovedLabel => {
      Fewer(before.labels, a.labelId);
      AddedIs(s.labels, LABELS, a.labelId);
    }
    case _ =>
  }

  lemma Fewer(ids: set<Text>, id: Text)
    requires id in ids
    ensures |ids - {id}| < |ids| && ids - {id} + {id} == ids
  {
    assert ids == ids - {id} + {id};
  }

  ghost predicate Increasing(s: seq<Activity>) { forall m, n :: 0 <= m < n < |s| ==> s[m].at < s[n].at }

  /** A card's history: the activities and the states they led to. */
  datatype History = History(start: Actual, activities: seq<Activity>, states: seq<Actual>)
  {
    ghost function StateAfter(n: nat): Actual
      requires |states| == |activities| && n <= |states|
    {
      if n == 0 then start else states[n - 1]
    }

    ghost predicate Recorded(id: Text)
    {
      && |states| == |activities|
      && (forall n :: 0 <= n < |activities| ==> activities[n].cardId == id && Faithful(StateAfter(n), activities[n], states[n]))
      && Increasing(activities)
    }

    /** How many activities had happened by a time. */
    ghost predicate Until(at: int, n: nat)
    {
      n <= |activities| && forall k :: 0 <= k < |activities| ==> (activities[k].at <= at <==> k < n)
    }
  }

  lemma {:induction false} FutureCounts(log: seq<Activity>, id: Text, at: int, a: Activity)
    ensures multiset(Future(log, id, at))[a] == if Later(a, id, at) then multiset(log)[a] else 0
  {
    if log != [] {
      FutureCounts(log[1..], id, at, a);
      assert log == [log[0]] + log[1..];
    }
  }

  /** What is undone is what the log says of the card after the time, in the order of the log. */
  lemma {:induction false} FutureInOrder(log: seq<Activity>, more: seq<Activity>, a: Activity, id: Text, at: int)
    ensures Future([a], id, at) == if a.cardId == id && at < a.at then [a] else []
    ensures Future(log + more, id, at) == Future(log, id, at) + Future(more, id, at)
  {
    assert [a][1..] == [];
    if log == [] {
      assert [] + more == more;
    } else {
      assert (log + more)[1..] == log[1..] + more;
      FutureInOrder(log[1..], more, a, id, at);
      Associative(if Later(log[0], id, at) then [log[0]] else [], Future(log[1..], id, at), Future(more, id, at));
    }
  }

  /** The log holds the card's history, whatever it holds of other cards and in whatever order. */
  ghost predicate Logs(log: seq<Activity>, h: History, id: Text)
  {
    forall a: Activity :: a.cardId == id ==> multiset(log)[a] == multiset(h.activities)[a]
  }

  lemma SameElement(s: seq<Activity>, t: seq<Activity>, i: nat) returns (j: nat)
    requires i < |s| && multiset(s) == multiset(t)
    ensures j < |t| && t[j] == s[i]
  {
    assert s[i] in multiset(t);
    j :| 0 <= j < |t| && t[j] == s[i];
  }

  lemma SameRest(s: seq<Activity>, newest: seq<Activity>)
    requires s != [] && newest != [] && multiset(newest) == multiset(s) && newest[0] == s[|s| - 1]
    ensures multiset(newest[1..]) == multiset(s[..|s| - 1])
  {
    assert s == s[..|s| - 1] + [newest[0]] && newest == [newest[0]] + newest[1..];
    Cancel(newest[0], newest[1..], s[..|s| - 1]);
  }

  lemma Cancel<T(!new)>(x: T, a: seq<T>, b: seq<T>)
    requires multiset([x] + a) == multiset(b + [x])
    ensures multiset(a) == multiset(b)
  {
    forall e ensures multiset(a)[e] == multiset(b)[e] {
      assert multiset([x] + a)[e] == multiset([x])[e] + multiset(a)[e];
      assert multiset(b + [x])[e] == multiset(b)[e] + multiset([x])[e];
    }
  }

  /** Sorting newest first begins with the last activity. */
  lemma NewestIsLast(s: seq<Activity>, newest: seq<Activity>)
    requires Increasing(s) && s != [] && Sorted(newest, ByNewest()) && multiset(newest) == multiset(s)
    ensures newest != [] && newest[0] == s[|s| - 1]
    ensures multiset(newest[1..]) == multiset(s[..|s| - 1])
  {
    var i := SameElement(s, newest, |s| - 1);
    var j := SameElement(newest, s, 0);
    if i > 0 {
      assert ByNewest()(newest[0], newest[i]) <= 0;
    }
    SameRest(s, newest);
  }

  lemma LastStep(h: History, id: Text, n: nat)
    requires h.Recorded(id) && 0 < n <= |h.activities|
    ensures Faithful(h.StateAfter(n - 1), h.activities[n - 1], h.StateAfter(n))
  {
    hide Faithful;
  }

  lemma Stretch(h: History, id: Text, k: nat, n: nat)
    requires h.Recorded(id) && k < n <= |h.activities|
    ensures var s := h.activities[k..n];
      Increasing(s) && s[|s| - 1] == h.activities[n - 1] && s[..|s| - 1] == h.activities[k..n - 1]
  {
    hide Faithful;
    StretchIncreasing(h.activities, k, n);
  }

  lemma StretchIncreasing(s: seq<Activity>, k: nat, n: nat)
    requires Increasing(s) && k < n <= |s|
    ensures Increasing(s[k..n])
  {
    forall i, j | 0 <= i < j < n - k ensures s[k..n][i].at < s[k..n][j].at {
      assert s[k + i].at < s[k + j].at;
    }
  }

  lemma {:induction false} HistoryUndone(h: History, id: Text, k: nat, n: nat, s: Snapshot, newest: seq<Activity>)
    requires h.Recorded(id) && |h.states| == |h.activities| && k <= n <= |h.activities| && Matches(s, h.StateAfter(n))
    requires Sorted(newest, ByNewest()) && multiset(newest) == multiset(h.activities[k..n])
    ensures Matches(AllUndone(s, newest), h.StateAfter(k))
    decreases n
  {
    hide Undone, Matches, Faithful, History.Recorded, History.StateAfter, Sorted;
    if k == n {
      assert h.activities[k..n] == [];
      assert |multiset(newest)| == |newest|;
    } else {
      LastStep(h, id, n);
      Stretch(h, id, k, n);
      NewestIsLast(h.activities[k..n], newest);
      UndoneMatches(s, h.StateAfter(n - 1), newest[0], h.StateAfter(n));
      SortedTail(newest, ByNewest());
      HistoryUndone(h, id, k, n - 1, Undone(s, newest[0]), newest[1..]);
    }
  }

  lemma SuffixCounts(s: seq<Activity>, n: nat, at: int, a: Activity)
    requires n <= |s| && forall k :: 0 <= k < |s| ==> (s[k].at <= at <==> k < n)
    ensures multiset(s[n..])[a] == if at < a.at then multiset(s)[a] else 0
  {
    assert s == s[..n] + s[n..];
    if at < a.at {
      assert a !in s[..n];
    } else {
      assert a !in s[n..];
    }
  }

  lemma FutureIsSuffix(h: History, id: Text, at: int, n: nat, log: seq<Activity>)
    requires h.Recorded(id) && h.Until(at, n) && Logs(log, h, id)
    ensures multiset(Future(log, id, at)) == multiset(h.activities[n..])
  {
    hide Faithful, Future;
    forall a: Activity ensures multiset(Future(log, id, at))[a] == multiset(h.activities[n..])[a] {
      FutureCounts(log, id, at, a);
      SuffixCounts(h.activities, n, at, a);
      if a.cardId != id {
        assert a !in h.activities;
      }
    }
  }

  /** The view at a time is the card as it was at that time, field by field; of a card that did not
      exist yet it shows that. The log leads up to what the card holds now. */
  lemma TimelineIsUndo(card: Card, h: History, log: seq<Activity>, at: int, n: nat, state: Snapshot)
    requires h.Recorded(card.id) && h.Until(at, n) && Logs(log, h, card.id)
    requires var now := h.StateAfter(|h.states|);
      && now.existed && card.title == now.title && card.description == now.description && card.listId == now.listId
      && card.swimlaneId == now.swimlaneId && card.due == now.due && card.archived == now.archived
      && (forall id :: id in card.members <==> id in now.members) && (forall id :: id in card.labels <==> id in now.labels)
    requires forall i, j :: 0 <= i < j < |card.members| ==> card.members[i] != card.members[j]
    requires forall i, j :: 0 <= i < j < |card.labels| ==> card.labels[i] != card.labels[j]
    requires Shows(card, state, log, false, at)
    ensures var was := h.StateAfter(n);
      && state.existed == was.existed
      && (was.existed ==>
            && state.title == was.title && state.description == was.description && state.listId == was.listId
            && state.swimlaneId == was.swimlaneId && state.due == was.due && state.archived == was.archived
            && (forall id :: id in state.members <==> id in was.members) && (forall id :: id in state.labels <==> id in was.labels))
  {
    hide Faithful, Matches, Logs, History.Recorded, History.Until, Now, NewestFirst;
    HistoryShape(h, card.id, at, n);
    NowMatches(card, h.StateAfter(|h.states|));
    var newest :| NewestFirst(newest, log, card.id, at) && state == AllUndone(Now(card), newest);
    UndoneToTime(card, h, log, at, n, newest);
    MatchesFields(state, h.StateAfter(n));
  }

  lemma UndoneToTime(card: Card, h: History, log: seq<Activity>, at: int, n: nat, newest: seq<Activity>)
    requires h.Recorded(card.id) && h.Until(at, n) && Logs(log, h, card.id) && Matches(Now(card), h.StateAfter(|h.states|))
    requires NewestFirst(newest, log, card.id, at)
    ensures Matches(AllUndone(Now(card), newest), h.StateAfter(n))
  {
    hide Faithful, Matches, Logs, History.Recorded, History.Until;
    HistoryShape(h, card.id, at, n);
    ByNewestIsPreorder();
    StableIsPermutation(newest, Future(log, card.id, at), ByNewest());
    FutureIsSuffix(h, card.id, at, n, log);
    assert h.activities[n..] == h.activities[n..|h.activities|];
    HistoryUndone(h, card.id, n, |h.activities|, Now(card), newest);
  }

  lemma NowMatches(card: Card, now: Actual)
    requires now.existed && card.title == now.title && card.description == now.description && card.listId == now.listId
    requires card.swimlaneId == now.swimlaneId && card.due == now.due && card.archived == now.archived
    requires (forall id :: id in card.members <==> id in now.members) && (forall id :: id in card.labels <==> id in now.labels)
    requires Distinct(card.members) && Distinct(card.labels)
    ensures Matches(Now(card), now)
  {
    hide Distinct;
  }

  lemma MatchesFields(s: Snapshot, actual: Actual)
    requires Matches(s, actual)
    ensures s.existed == actual.existed
    ensures actual.existed ==>
      && s.title == actual.title && s.description == actual.description && s.listId == actual.listId
      && s.swimlaneId == actual.swimlaneId && s.due == actual.due && s.archived == actual.archived
      && (forall id :: id in s.members <==> id in actual.members) && (forall id :: id in s.labels <==> id in actual.labels)
  {
    hide Distinct;
    assert forall id :: id in SetOf(s.members) <==> id in s.members;
    assert forall id :: id in SetOf(s.labels) <==> id in s.labels;
  }

  /** What undoing an activity cannot change, whatever the log says: a title is at most 128 bytes, a
      due date changes only with an activity about it, an id that is not there cannot be removed, and
      none is added that is empty, there already, or the ninth. */
  lemma UndoLeaves(s: Snapshot, a: Activity)
    ensures a.kind.ChangedTitle? && |a.oldValue| > 128 ==> Undone(s, a) == s.(title := a.oldValue[..128])
    ensures a.kind.ChangedTitle? && |a.oldValue| <= 128 ==> Undone(s, a) == s.(title := a.oldValue)
    ensures a.kind.DueAt? && !a.aboutDue ==> Undone(s, a) == s
    ensures a.kind.JoinMember? && a.memberId !in s.members ==> Undone(s, a) == s
    ensures a.kind.AddedLabel? && a.labelId !in s.labels ==> Undone(s, a) == s
    ensures a.kind.UnjoinMember? && (a.memberId == [] || a.memberId in s.members || |s.members| >= 8) ==> Undone(s, a) == s
    ensures a.kind.RemovedLabel? && (a.labelId == [] || a.labelId in s.labels || |s.labels| >= 8) ==> Undone(s, a) == s
  {
    hide Removed, CopyText;
    RemovedNothing(s.members, a.memberId);
    RemovedNothing(s.labels, a.labelId);
    TitleCut(a.oldValue);
  }

  lemma TitleCut(text: Text)
    ensures CopyText(text, TITLE) == if |text| > 128 then text[..128] else text
  {
  }

  lemma {:induction false} RemovedNothing(ids: seq<Text>, id: Text)
    ensures id !in ids ==> Removed(ids, id) == ids
  {
    if ids != [] {
      RemovedNothing(ids[1..], id);
      assert ids == [ids[0]] + ids[1..];
    }
  }

  lemma HistoryShape(h: History, id: Text, at: int, n: nat)
    requires h.Recorded(id) && h.Until(at, n)
    ensures |h.states| == |h.activities| && n <= |h.activities|
  {
  }

  // ----- undoing in steps

  lemma {:induction false} AllUndoneConcat(s: Snapshot, first: seq<Activity>, second: seq<Activity>)
    ensures AllUndone(s, first + second) == AllUndone(AllUndone(s, first), second)
    decreases |first|
  {
    hide Undone;
    if first == [] {
      assert first + second == second;
    } else {
      assert (first + second)[0] == first[0] && (first + second)[1..] == first[1..] + second;
      AllUndoneConcat(Undone(s, first[0]), first[1..], second);
    }
  }

  /** What happened to a card after `from` and not after `to`. */
  ghost function Between(log: seq<Activity>, id: Text, from: int, to: int): seq<Activity>
  {
    if log == [] then []
    else (if Later(log[0], id, from) && log[0].at <= to then [log[0]] else []) + Between(log[1..], id, from, to)
  }

  lemma ClassPick(b: bool, e: Activity, rest: seq<Activity>, x: Activity, cmp: (Activity, Activity) -> int)
    ensures Class((if b then [e] else []) + rest, x, cmp) == (if b then Own(e, x, cmp) else []) + Class(rest, x, cmp)
  {
    if b {
      assert ([e] + rest)[1..] == rest;
    } else {
      assert [] + rest == rest;
    }
  }

  /** The activities after `from` that rank with `x` come all after `to` or all before. */
  lemma {:induction false} FutureSplits(log: seq<Activity>, id: Text, from: int, to: int, x: Activity)
    requires from <= to
    ensures Class(Future(log, id, from), x, ByNewest()) ==
            if to < x.at then Class(Future(log, id, to), x, ByNewest()) else Class(Between(log, id, from, to), x, ByNewest())
    ensures to < x.at ==> Class(Between(log, id, from, to), x, ByNewest()) == []
    ensures x.at <= to ==> Class(Future(log, id, to), x, ByNewest()) == []
  {
    hide Class;
    if log == [] {
      NoClass(x);
    } else {
      var a, rest := log[0], log[1..];
      FutureSplits(rest, id, from, to, x);
      ClassPick(Later(a, id, to), a, Future(rest, id, to), x, ByNewest());
      ClassPick(Later(a, id, from), a, Future(rest, id, from), x, ByNewest());
      ClassPick(Later(a, id, from) && a.at <= to, a, Between(rest, id, from, to), x, ByNewest());
    }
  }

  lemma NoClass(x: Activity)
    ensures Class([], x, ByNewest()) == []
  {
  }

  /** Undoing back to a time and from there back to an earlier one is undoing to the earlier one
      directly, for every log. */
  lemma UndoInSteps(s: Snapshot, log: seq<Activity>, id: Text, from: int, to: int,
                    newest: seq<Activity>, later: seq<Activity>, earlier: seq<Activity>)
    requires from <= to && NewestFirst(newest, log, id, from) && NewestFirst(later, log, id, to)
    requires Sorted(earlier, ByNewest()) && Stable(earlier, Between(log, id, from, to), ByNewest())
    ensures AllUndone(s, newest) == AllUndone(AllUndone(s, later), earlier)
  {
    hide Class, AllUndone, Future, Between, Sorted, Stable;
    AllUndoneConcat(s, later, earlier);
    ByNewestIsPreorder();
    Rejoined(log, id, from, to, newest, later, earlier);
    SortedStableUnique(newest, later + earlier, ByNewest());
  }

  lemma Rejoined(log: seq<Activity>, id: Text, from: int, to: int, newest: seq<Activity>, later: seq<Activity>, earlier: seq<Activity>)
    requires from <= to && NewestFirst(newest, log, id, from) && NewestFirst(later, log, id, to)
    requires Sorted(earlier, ByNewest()) && Stable(earlier, Between(log, id, from, to), ByNewest())
    ensures Sorted(later + earlier, ByNewest()) && Stable(newest, later + earlier, ByNewest())
  {
    hide Class, Future, Between;
    forall x ensures Class(newest, x, ByNewest()) == Class(later + earlier, x, ByNewest()) {
      FutureSplits(log, id, from, to, x);
      ClassConcat(later, earlier, x, ByNewest());
      assert Class(newest, x, ByNewest()) == Class(Future(log, id, from), x, ByNewest());
      assert Class(later, x, ByNewest()) == Class(Future(log, id, to), x, ByNewest());
      assert Class(earlier, x, ByNewest()) == Class(Between(log, id, from, to), x, ByNewest());
    }
    ByNewestIsPreorder();
    StableIsPermutation(later, Future(log, id, to), ByNewest());
    StableIsPermutation(earlier, Between(log, id, from, to), ByNewest());
    forall a | a in later ensures to < a.at {
      assert a in multiset(Future(log, id, to));
      FutureCounts(log, id, to, a);
    }
    forall a | a in earlier ensures a.at <= to {
      assert a in multiset(Between(log, id, from, to));
      BetweenHolds(log, id, from, to, a);
    }
  }

  lemma {:induction false} BetweenHolds(log: seq<Activity>, id: Text, from: int, to: int, a: Activity)
    requires a in Between(log, id, from, to)
    ensures a.at <= to
  {
    if log != [] && a in Between(log[1..], id, from, to) {
      BetweenHolds(log[1..], id, from, to, a);
    }
  }
}
