/** Snapshots of a column in order, and plans for moving cards into it (models/card_order.c).
    Positions are real numbers; the file's sort by position is any that sorts, because equal
    positions are refused afterwards. */
module CardOrder {
  import opened BitStreams
  import opened ByteTexts
  import opened MergeSorting

  type Text = seq<Byte>

  const CAPACITY: nat := 2048

  datatype Card = Card(id: Text, board: Text, list: Text, lane: Text, sort: real, archived: int)

  datatype Slot = Slot(id: Text, position: real, modelIndex: nat, archived: int)

  /** What a snapshot says of a card. */
  datatype Mark = Mark(id: Text, position: real, archived: int)

  datatype Column = Column(board: Text, list: Text, lane: Text)
  {
    predicate Has(c: Card) { c.board == board && c.list == list && c.lane == lane }

    predicate Valid() { IdentifierValid(board) && IdentifierValid(list) && IdentifierValid(lane) }
  }

  /** `wena_model_identifier_valid`. */
  predicate IdentifierValid(t: Text) { 0 < |t| < 65 && forall i :: 0 <= i < |t| ==> IdentifierByte(t[i]) }

  /** A whole number that a double holds exactly. */
  predicate PositionValid(p: real) { 0.0 <= p <= 9007199254740991.0 && p.Floor as real == p }

  predicate SlotValid(s: Slot) { PositionValid(s.position) && (s.archived == 0 || s.archived == 1) && IdentifierValid(s.id) }

  function MarkOf(s: Slot): Mark { Mark(s.id, s.position, s.archived) }

  function CardMark(c: Card): Mark { Mark(c.id, c.sort, c.archived) }

  /** The cards of a column as they come, as slots. */
  ghost function Slots(cards: seq<Card>, column: Column, n: nat): (slots: seq<Slot>)
    requires n <= |cards|
  {
    if n == 0 then []
    else
      Slots(cards, column, n - 1) + OwnSlot(cards[n - 1], column, n - 1)
  }

  ghost function OwnSlot(c: Card, column: Column, index: nat): seq<Slot>
  {
    if column.Has(c) then [Slot(c.id, c.sort, index, c.archived)] else []
  }

  ghost function Marks(slots: seq<Slot>): (marks: seq<Mark>)
    ensures |marks| == |slots|
  {
    seq(|slots|, i requires 0 <= i < |slots| => MarkOf(slots[i]))
  }

  ghost predicate AllValid(slots: seq<Slot>) { forall i :: 0 <= i < |slots| ==> SlotValid(slots[i]) }

  ghost predicate DistinctIds(slots: seq<Slot>) { forall i, j :: 0 <= i < j < |slots| ==> slots[i].id != slots[j].id }

  ghost predicate Ascending(slots: seq<Slot>) { forall i, j :: 0 <= i < j < |slots| ==> slots[i].position < slots[j].position }

  /** A valid snapshot. */
  ghost predicate Snapshot(slots: seq<Slot>) { AllValid(slots) && DistinctIds(slots) && Ascending(slots) && |slots| <= CAPACITY }

  // ----- taking a snapshot

  /** `compare_slots`. */
  function ByPosition(): (Slot, Slot) -> int
  {
    (a: Slot, b: Slot) => if a.position < b.position then -1 else if a.position > b.position then 1 else 0
  }

  lemma ByPositionIsPreorder()
    ensures Preorder(ByPosition())
  {
    forall a: Slot, b: Slot, c: Slot ensures Chain(ByPosition(), a, b, c) {
    }
  }

  ghost predicate DistinctPositions(slots: seq<Slot>) { forall i, j :: 0 <= i < j < |slots| ==> slots[i].position != slots[j].position }

  ghost predicate Capturable(cards: seq<Card>, column: Column)
  {
    var slots := Slots(cards, column, |cards|);
    |cards| <= CAPACITY && column.Valid() && AllValid(slots) && DistinctIds(slots) && DistinctPositions(slots)
  }

  lemma SlotsBound(cards: seq<Card>, column: Column, n: nat)
    requires n <= |cards|
    ensures |Slots(cards, column, n)| <= n
  {
    if n > 0 {
      SlotsBound(cards, column, n - 1);
    }
  }

  ghost predicate NoRepeats(slots: seq<Slot>) { forall i, j :: 0 <= i < j < |slots| ==> slots[i] != slots[j] }

  lemma {:induction false} SlotsDiffer(cards: seq<Card>, column: Column, n: nat)
    requires n <= |cards|
    ensures NoRepeats(Slots(cards, column, n)) && forall s :: s in Slots(cards, column, n) ==> s.modelIndex < n
  {
    if n > 0 {
      SlotsDiffer(cards, column, n - 1);
    }
  }

  /** The slots of a column are those of the cards with its board, list and lane, each with its place. */
  lemma {:induction false} SlotsExactly(cards: seq<Card>, column: Column, n: nat, s: Slot)
    requires n <= |cards|
    ensures s in Slots(cards, column, n) <==>
      && s.modelIndex < n
      && var c := cards[s.modelIndex];
      && c.board == column.board && c.list == column.list && c.lane == column.lane
      && s.id == c.id && s.position == c.sort && s.archived == c.archived
  {
    if n > 0 {
      SlotsExactly(cards, column, n - 1, s);
      assert s in OwnSlot(cards[n - 1], column, n - 1) <==>
        column.Has(cards[n - 1]) && s == Slot(cards[n - 1].id, cards[n - 1].sort, n - 1, cards[n - 1].archived);
    }
  }

  /** A slot's limits: a whole position from 0 to 2^53 - 1, an archive flag, and an id of up to 64
      letters, digits, hyphens and underscores. */
  lemma SlotLimits(s: Slot)
    ensures SlotValid(s) <==>
      && 0.0 <= s.position <= 9007199254740991.0 && s.position == s.position.Floor as real && (s.archived == 0 || s.archived == 1)
      && 0 < |s.id| <= 64
      && forall b :: b in s.id ==> 48 <= b <= 57 || 65 <= b <= 90 || 97 <= b <= 122 || b == 45 || b == 95
  {
    assert IdentifierValid(s.id) <==> 0 < |s.id| < 65 && forall b :: b in s.id ==> IdentifierByte(b);
  }

  /** A column can be captured when its own names and its slots are valid and no two of its cards have
      one id or one position, in a model of at most 2048 cards. */
  lemma CapturableExactly(cards: seq<Card>, column: Column)
    ensures Capturable(cards, column) <==>
      && |cards| <= 2048 && IdentifierValid(column.board) && IdentifierValid(column.list) && IdentifierValid(column.lane)
      && (forall s :: s in Slots(cards, column, |cards|) ==> SlotValid(s))
      && forall a, b :: a in Slots(cards, column, |cards|) && b in Slots(cards, column, |cards|) && a.modelIndex != b.modelIndex ==>
           a.id != b.id && a.position != b.position
  {
    hide SlotValid, IdentifierValid;
    var slots := Slots(cards, column, |cards|);
    SlotsDiffer(cards, column, |cards|);
    Unordered(slots);
    forall a, b | a in slots && b in slots && a.modelIndex == b.modelIndex ensures a == b {
      SlotsExactly(cards, column, |cards|, a);
      SlotsExactly(cards, column, |cards|, b);
    }
    hide Slots;
    assert forall a, b :: a in slots && b in slots ==> (a == b <==> a.modelIndex == b.modelIndex);
  }

  /** Without repetitions, the tests on pairs are about the slots and not about their order. */
  lemma Unordered(s: seq<Slot>)
    requires NoRepeats(s)
    ensures DistinctIds(s) <==> forall a, b :: a in s && b in s && a != b ==> a.id != b.id
    ensures DistinctPositions(s) <==> forall a, b :: a in s && b in s && a != b ==> a.position != b.position
    ensures AllValid(s) <==> forall a :: a in s ==> SlotValid(a)
  {
    hide SlotValid;
    if forall a, b :: a in s && b in s && a != b ==> a.id != b.id {
      forall i, j | 0 <= i < j < |s| ensures s[i].id != s[j].id {
        assert s[i] in s && s[j] in s;
      }
    }
    if forall a, b :: a in s && b in s && a != b ==> a.position != b.position {
      forall i, j | 0 <= i < j < |s| ensures s[i].position != s[j].position {
        assert s[i] in s && s[j] in s;
      }
    }
  }

  lemma Once<T>(s: seq<T>, i: nat)
    requires i < |s| && forall j, k :: 0 <= j < k < |s| ==> s[j] != s[k]
    ensures multiset(s)[s[i]] == 1
  {
    assert s == s[..i] + [s[i]] + s[i + 1..];
    assert s[i] !in s[..i] && s[i] !in s[i + 1..];
  }

  lemma Twice<T>(s: seq<T>, i: nat, j: nat)
    requires i < j < |s| && s[i] == s[j]
    ensures 2 <= multiset(s)[s[i]]
  {
    assert s == s[..j] + [s[j]] + s[j + 1..];
    assert s[..j][i] == s[i];
  }

  lemma Rearranged(s: seq<Slot>, t: seq<Slot>)
    requires multiset(s) == multiset(t) && NoRepeats(s)
    ensures NoRepeats(t) && |s| == |t|
    ensures AllValid(s) <==> AllValid(t)
    ensures DistinctIds(s) <==> DistinctIds(t)
    ensures DistinctPositions(s) <==> DistinctPositions(t)
  {
    hide SlotValid;
    assert |multiset(s)| == |multiset(t)|;
    forall x ensures x in s <==> x in t {
      assert x in multiset(s) <==> x in multiset(t);
    }
    forall i, j | 0 <= i < j < |t| ensures t[i] != t[j] {
      if t[i] == t[j] {
        Twice(t, i, j);
        var k :| 0 <= k < |s| && s[k] == t[i];
        Once(s, k);
      }
    }
    Unordered(s);
    Unordered(t);
  }

  /** Sorted by position, slots are in ascending order when no two positions are equal. */
  lemma SortedAscends(slots: seq<Slot>)
    requires Sorted(slots, ByPosition())
    ensures Ascending(slots) <==> DistinctPositions(slots)
    ensures Ascending(slots) <==> forall i :: 0 < i < |slots| ==> slots[i - 1].position != slots[i].position
  {
    forall i, j | 0 <= i < j < |slots| ensures slots[i].position <= slots[j].position {
      assert ByPosition()(slots[i], slots[j]) <= 0;
    }
    if forall i :: 0 < i < |slots| ==> slots[i - 1].position != slots[i].position {
      forall i, j | 0 <= i < j < |slots| ensures slots[i].position < slots[j].position {
        assert slots[j - 1].position != slots[j].position;
      }
    }
    if Ascending(slots) {
      forall i | 0 < i < |slots| ensures slots[i - 1].position != slots[i].position {
        assert slots[i - 1].position < slots[i].position;
      }
    }
  }

  /** `wena_card_order_capture`: the slots of the column, in ascending order. */
  method Capture(cards: seq<Card>, column: Column) returns (slots: Option<seq<Slot>>)
    ensures slots.Some? <==> Capturable(cards, column)
    ensures slots.Some? ==> Snapshot(slots.value) && multiset(slots.value) == multiset(Slots(cards, column, |cards|))
  {
    hide SlotValid, IdentifierValid, PositionValid, Slots, Preorder, Sorted, Stable, Column.Valid;
    if |cards| > CAPACITY || !column.Valid() {
      return None;
    }
    ghost var all := Slots(cards, column, |cards|);
    SlotsBound(cards, column, |cards|);
    SlotsDiffer(cards, column, |cards|);
    var candidate: seq<Slot> := [];
    SlotsStep(cards, column, 0);
    for i := 0 to |cards|
      invariant candidate == Slots(cards, column, i) && AllValid(candidate)
    {
      SlotsStep(cards, column, i);
      if column.Has(cards[i]) {
        var s := Slot(cards[i].id, cards[i].sort, i, cards[i].archived);
        if !SlotValid(s) {
          SlotsKept(cards, column, i + 1, |cards|);
          assert all[|candidate|] == s;
          return None;
        }
        candidate := candidate + [s];
      }
    }
    var sorted := new Slot[|candidate|](i requires 0 <= i < |candidate| => candidate[i]);
    assert sorted[..] == candidate;
    ByPositionIsPreorder();
    Sort(sorted, ByPosition());
    var result := sorted[..];
    StableIsPermutation(result, all, ByPosition());
    Rearranged(all, result);
    SortedAscends(result);
    var ok := CheckSlots(result);
    if !ok {
      return None;
    }
    slots := Some(result);
  }

  /** Adjacent positions differ, and all ids do. */
  method CheckSlots(slots: seq<Slot>) returns (ok: bool)
    ensures ok <==> (forall i :: 0 < i < |slots| ==> slots[i - 1].position != slots[i].position) && DistinctIds(slots)
  {
    for i := 0 to |slots|
      invariant forall k :: 0 < k < i ==> slots[k - 1].position != slots[k].position
      invariant forall k, j :: 0 <= k < j < i ==> slots[k].id != slots[j].id
    {
      if i > 0 && slots[i - 1].position == slots[i].position {
        return false;
      }
      for j := 0 to i
        invariant forall k :: 0 <= k < j ==> slots[k].id != slots[i].id
      {
        if slots[i].id == slots[j].id {
          return false;
        }
      }
    }
    ok := true;
  }

  lemma SlotsStep(cards: seq<Card>, column: Column, n: nat)
    ensures Slots(cards, column, 0) == []
    ensures n < |cards| ==> Slots(cards, column, n + 1) == Slots(cards, column, n) + OwnSlot(cards[n], column, n)
  {
  }

  lemma {:induction false} SlotsKept(cards: seq<Card>, column: Column, n: nat, m: nat)
    requires n <= m <= |cards|
    ensures Slots(cards, column, n) <= Slots(cards, column, m)
    decreases m
  {
    if n < m {
      SlotsKept(cards, column, n, m - 1);
    }
  }

  // ----- is it still current

  /** The column as it is now, in whatever order the cards come. */
  ghost predicate SameColumn(slots: seq<Slot>, cards: seq<Card>, column: Column)
  {
    multiset(Marks(slots)) == multiset(Marks(Slots(cards, column, |cards|)))
  }

  /** The first slot at or after a position. */
  method Search(slots: seq<Slot>, position: real) returns (low: nat)
    ensures low <= |slots|
    ensures Ascending(slots) ==>
      (forall i :: 0 <= i < low ==> slots[i].position < position) && forall i :: low <= i < |slots| ==> position <= slots[i].position
  {
    low := 0;
    var high := |slots|;
    while low < high
      invariant low <= high <= |slots|
      invariant Ascending(slots) ==> forall i :: 0 <= i < low ==> slots[i].position < position
      invariant Ascending(slots) ==> forall i :: high <= i < |slots| ==> position <= slots[i].position
      decreases high - low
    {
      var middle := low + (high - low) / 2;
      if slots[middle].position < position {
        low := middle + 1;
      } else {
        high := middle;
      }
    }
  }

  /** The cards looked at so far, each matched to a slot of its own. */
  ghost predicate Matched(slots: seq<Slot>, marks: seq<Mark>, places: seq<nat>)
  {
    && |places| == |marks|
    && (forall k :: 0 <= k < |places| ==> places[k] < |slots| && MarkOf(slots[places[k]]) == marks[k])
    && forall j, k :: 0 <= j < k < |places| ==> places[j] != places[k]
  }

  /** `wena_card_order_current`: whether the snapshot still tells the column's ids, positions and
      archive flags. */
  method Current(slots: seq<Slot>, cards: seq<Card>, column: Column) returns (ok: bool)
    ensures Snapshot(slots) ==> (ok <==> |cards| <= CAPACITY && column.Valid() && SameColumn(slots, cards, column))
  {
    hide SlotValid, IdentifierValid, Slots, Column.Valid, AllValid, DistinctIds, Marks, Matched;
    if |slots| > CAPACITY || |cards| > CAPACITY || !column.Valid() {
      return false;
    }
    var seen := new bool[CAPACITY](_ => false);
    var count := 0;
    ghost var places: seq<nat> := [];
    SlotsStep(cards, column, 0);
    NothingMatched(slots);
    for i := 0 to |cards|
      invariant |places| == count && (forall p :: 0 <= p < CAPACITY ==> (seen[p] <==> p in places))
      invariant Matched(slots, Marks(Slots(cards, column, i)), places)
    {
      SlotsStep(cards, column, i);
      ghost var marks := Marks(Slots(cards, column, i));
      MarksStep(Slots(cards, column, i), OwnSlot(cards[i], column, i));
      assert Marks(OwnSlot(cards[i], column, i)) == if column.Has(cards[i]) then [CardMark(cards[i])] else [] by {
        OwnMark(cards[i], column, i);
      }
      assert marks + [] == marks;
      if column.Has(cards[i]) {
        var low := Search(slots, cards[i].sort);
        SlotsKept(cards, column, i + 1, |cards|);
        if low == |slots| || seen[low] || slots[low].position != cards[i].sort || slots[low].archived != cards[i].archived
           || slots[low].id != cards[i].id {
          if Snapshot(slots) {
            MarksPrefix(Slots(cards, column, i + 1), Slots(cards, column, |cards|));
            NoMatch(slots, marks, places, CardMark(cards[i]), low, Marks(Slots(cards, column, |cards|)));
          }
          return false;
        }
        MatchNext(slots, marks, places, CardMark(cards[i]), low);
        seen[low] := true;
        places := places + [low];
        count := count + 1;
      }
    }
    if Snapshot(slots) {
      AllMatched(slots, Marks(Slots(cards, column, |cards|)), places);
    }
    ok := count == |slots|;
  }

  lemma OwnMark(c: Card, column: Column, index: nat)
    ensures Marks(OwnSlot(c, column, index)) == if column.Has(c) then [CardMark(c)] else []
  {
  }

  lemma MarksStep(a: seq<Slot>, b: seq<Slot>)
    ensures Marks(a + b) == Marks(a) + Marks(b)
  {
  }

  lemma MarksPrefix(a: seq<Slot>, b: seq<Slot>)
    requires a <= b
    ensures Marks(a) <= Marks(b)
  {
    assert forall i :: 0 <= i < |a| ==> a[i] == b[i];
  }

  lemma NothingMatched(slots: seq<Slot>)
    ensures Matched(slots, Marks([]), [])
  {
  }

  lemma MatchNext(slots: seq<Slot>, marks: seq<Mark>, places: seq<nat>, mark: Mark, low: nat)
    requires Matched(slots, marks, places) && low < |slots| && MarkOf(slots[low]) == mark && low !in places
    ensures Matched(slots, marks + [mark], places + [low])
  {
  }

  lemma MarksDiffer(slots: seq<Slot>)
    requires Ascending(slots)
    ensures forall i, j :: 0 <= i < j < |slots| ==> Marks(slots)[i] != Marks(slots)[j]
  {
  }

  /** A card without a slot of its own: the marks of the column are not those of the slots. */
  lemma NoMatch(slots: seq<Slot>, marks: seq<Mark>, places: seq<nat>, mark: Mark, low: nat, all: seq<Mark>)
    requires Ascending(slots) && Matched(slots, marks, places) && marks + [mark] <= all && low <= |slots|
    requires (forall i :: 0 <= i < low ==> slots[i].position < mark.position) && forall i :: low <= i < |slots| ==> mark.position <= slots[i].position
    requires low == |slots| || low in places || MarkOf(slots[low]) != mark
    ensures multiset(Marks(slots)) != multiset(all)
  {
    if multiset(Marks(slots)) == multiset(all) {
      var n := |marks|;
      assert all[n] == mark;
      assert mark in multiset(Marks(slots));
      var i :| 0 <= i < |slots| && Marks(slots)[i] == mark;
      assert i == low;
      var k :| 0 <= k < |places| && places[k] == low;
      assert (marks + [mark])[k] == marks[k] == mark;
      assert all[k] == mark;
      Twice(all, k, n);
      MarksDiffer(slots);
      Once(Marks(slots), i);
    }
  }

  /** With every card matched, the column is the same when there are as many cards as slots. */
  lemma AllMatched(slots: seq<Slot>, marks: seq<Mark>, places: seq<nat>)
    requires Ascending(slots) && Matched(slots, marks, places)
    ensures |places| == |slots| <==> multiset(Marks(slots)) == multiset(marks)
  {
    MarksDiffer(slots);
    if multiset(Marks(slots)) == multiset(marks) {
      assert |multiset(Marks(slots))| == |multiset(marks)|;
    }
    if |places| == |slots| {
      Covers(places, |slots|);
      forall i: nat | i < |slots| ensures Marks(slots)[i] in marks {
        assert i in places;
        var k :| 0 <= k < |places| && places[k] == i;
        assert marks[k] == Marks(slots)[i];
      }
      forall m: Mark ensures multiset(Marks(slots))[m] == multiset(marks)[m] {
        if m in marks {
          var k :| 0 <= k < |marks| && marks[k] == m;
          assert Marks(slots)[places[k]] == m;
          MarksOnce(slots, marks, places, k);
          Once(Marks(slots), places[k]);
        }
      }
    }
  }

  lemma MarksOnce(slots: seq<Slot>, marks: seq<Mark>, places: seq<nat>, k: nat)
    requires Ascending(slots) && Matched(slots, marks, places) && k < |marks|
    ensures multiset(marks)[marks[k]] == 1
  {
    forall i, j | 0 <= i < j < |marks| ensures marks[i] != marks[j] {
      assert slots[places[i]].position != slots[places[j]].position;
    }
    Once(marks, k);
  }

  ghost predicate Places(places: seq<nat>, n: nat)
  {
    (forall k :: 0 <= k < |places| ==> places[k] < n) && forall j, k :: 0 <= j < k < |places| ==> places[j] != places[k]
  }

  /** There are no more different places than there are. */
  lemma {:induction false} FewPlaces(places: seq<nat>, n: nat)
    requires Places(places, n)
    ensures |places| <= n
  {
    var first := if places == [] then 0 else places[0];
    if n > 0 {
      if k: nat :| k < |places| && places[k] == n - 1 {
        var fewer := places[..k] + places[k + 1..];
        assert forall i :: 0 <= i < |fewer| ==> fewer[i] == places[if i < k then i else i + 1];
        FewPlaces(fewer, n - 1);
      } else {
        FewPlaces(places, n - 1);
      }
    }
  }

  /** As many different places as there are: every place occurs. */
  lemma Covers(places: seq<nat>, n: nat)
    requires Places(places, n) && |places| == n
    ensures forall i: nat :: i < n ==> i in places
  {
    forall i: nat | i < n ensures i in places {
      if i !in places {
        FewPlaces(places + [i], n);
      }
    }
  }

  // ----- what being current means

  /** Marks in ascending order are determined by which marks they are. */
  lemma {:induction false} AscendingMarks(s: seq<Mark>, t: seq<Mark>)
    requires multiset(s) == multiset(t)
    requires forall i, j :: 0 <= i < j < |s| ==> s[i].position < s[j].position
    requires forall i, j :: 0 <= i < j < |t| ==> t[i].position < t[j].position
    ensures s == t
  {
    assert |multiset(s)| == |s| && |multiset(t)| == |t|;
    if s != [] {
      assert s[0] in multiset(t) && t[0] in multiset(s);
      var j :| 0 <= j < |t| && t[j] == s[0];
      var i :| 0 <= i < |s| && s[i] == t[0];
      assert s[0] == t[0];
      assert s == [s[0]] + s[1..] && t == [t[0]] + t[1..];
      Cancelled(s[0], s[1..], t[1..]);
      AscendingMarks(s[1..], t[1..]);
    }
  }

  lemma Cancelled(x: Mark, a: seq<Mark>, b: seq<Mark>)
    requires multiset([x] + a) == multiset([x] + b)
    ensures multiset(a) == multiset(b)
  {
    forall e ensures multiset(a)[e] == multiset(b)[e] {
      assert multiset([x] + a)[e] == multiset([x])[e] + multiset(a)[e];
      assert multiset([x] + b)[e] == multiset([x])[e] + multiset(b)[e];
    }
  }

  lemma TakenOut(s: seq<Slot>, front: seq<Slot>, x: Slot, back: seq<Slot>)
    requires multiset([x] + s) == multiset(front + ([x] + back))
    ensures multiset(s) == multiset(front + back)
  {
    forall e ensures multiset(s)[e] == multiset(front + back)[e] {
      assert multiset([x] + s)[e] == multiset([x])[e] + multiset(s)[e];
      assert multiset(front + ([x] + back))[e] == multiset(front)[e] + (multiset([x])[e] + multiset(back)[e]);
    }
  }

  lemma PutIn(marks: seq<Mark>, front: seq<Mark>, x: seq<Mark>, back: seq<Mark>)
    requires multiset(marks) == multiset(front + back)
    ensures multiset(x + marks) == multiset(front + (x + back))
  {
  }

  lemma {:induction false} MarksOfSame(s: seq<Slot>, t: seq<Slot>)
    requires multiset(s) == multiset(t)
    ensures multiset(Marks(s)) == multiset(Marks(t))
    decreases |s|
  {
    hide Marks;
    assert |multiset(s)| == |s| && |multiset(t)| == |t|;
    if s == [] {
      assert t == [];
    } else {
      assert s[0] in multiset(t);
      var j :| 0 <= j < |t| && t[j] == s[0];
      var x, front, back := [s[0]], t[..j], t[j + 1..];
      assert s == x + s[1..] && t == front + (x + back);
      TakenOut(s[1..], front, s[0], back);
      MarksOfSame(s[1..], front + back);
      MarksStep(x, s[1..]);
      MarksStep(front, x + back);
      MarksStep(x, back);
      MarksStep(front, back);
      PutIn(Marks(s[1..]), Marks(front), Marks(x), Marks(back));
    }
  }

  /** The snapshot is current exactly when taking a new one gives the same ids, positions and
      archive flags: the column can be captured, and every capture of it has these marks. */
  lemma CurrentMeansSame(slots: seq<Slot>, taken: seq<Slot>, cards: seq<Card>, column: Column)
    requires Snapshot(slots) && Snapshot(taken) && multiset(taken) == multiset(Slots(cards, column, |cards|))
    ensures SameColumn(slots, cards, column) <==> Marks(taken) == Marks(slots)
  {
    hide SlotValid, Slots;
    MarksOfSame(taken, Slots(cards, column, |cards|));
    if SameColumn(slots, cards, column) {
      AscendingMarks(Marks(taken), Marks(slots));
    }
  }

  /** Which marks are the same. */
  lemma MarksExactly(a: seq<Slot>, b: seq<Slot>)
    ensures Marks(a) == Marks(b) <==>
      |a| == |b| && forall i :: 0 <= i < |a| ==> a[i].id == b[i].id && a[i].position == b[i].position && a[i].archived == b[i].archived
  {
    assert forall i :: 0 <= i < |a| ==> Marks(a)[i] == MarkOf(a[i]);
    assert forall i :: 0 <= i < |b| ==> Marks(b)[i] == MarkOf(b[i]);
  }

  /** A column that is the same can be captured. */
  lemma SameIsCapturable(slots: seq<Slot>, cards: seq<Card>, column: Column)
    requires Snapshot(slots) && |cards| <= CAPACITY && column.Valid() && SameColumn(slots, cards, column)
    ensures Capturable(cards, column)
  {
    hide PositionValid, IdentifierValid, Slots, Column.Valid;
    var now, marks := Marks(Slots(cards, column, |cards|)), Marks(slots);
    forall k | 0 <= k < |now| ensures now[k] in marks {
      assert now[k] in multiset(marks);
    }
    forall i, j | 0 <= i < j < |now| ensures now[i].id != now[j].id && now[i].position != now[j].position {
      var k: nat :| k < |marks| && marks[k] == now[i];
      var l: nat :| l < |marks| && marks[l] == now[j];
      if k == l {
        Twice(now, i, j);
        MarksDiffer(slots);
        Once(marks, k);
      }
    }
    var all := Slots(cards, column, |cards|);
    forall k | 0 <= k < |all| ensures SlotValid(all[k]) {
      assert now[k] in marks;
      var l :| 0 <= l < |marks| && marks[l] == now[k];
      assert SlotValid(slots[l]);
    }
    forall i, j | 0 <= i < j < |all| ensures all[i].id != all[j].id && all[i].position != all[j].position {
      assert now[i].id != now[j].id && now[i].position != now[j].position;
    }
  }

  // ----- inserting a block

  ghost predicate DistinctTexts(ids: seq<Text>) { forall i, j :: 0 <= i < j < |ids| ==> ids[i] != ids[j] }

  /** The ids of slots that do not move, in their order. */
  ghost function Staying(slots: seq<Slot>, selected: seq<Text>): (ids: seq<Text>)
  {
    if slots == [] then []
    else
      var last := slots[|slots| - 1];
      Staying(slots[..|slots| - 1], selected) + if last.id in selected then [] else [last.id]
  }

  /** The plan: what stays before the boundary, the block, and what stays after it. */
  ghost function Plan(slots: seq<Slot>, selected: seq<Text>, before: nat): seq<Text>
    requires before <= |slots|
  {
    Staying(slots[..before], selected) + selected + Staying(slots[before..], selected)
  }

  ghost predicate Plannable(slots: seq<Slot>, selected: seq<Text>, before: nat)
  {
    && before <= |slots| <= CAPACITY && 0 < |selected| <= CAPACITY
    && DistinctTexts(selected) && (forall i :: 0 <= i < |selected| ==> IdentifierValid(selected[i]))
    && AllValid(slots) && DistinctIds(slots) && Ascending(slots)
    && (forall i :: 0 <= i < |slots| && slots[i].id in selected ==> slots[i].archived == 0)
    && |selected| + |Staying(slots, selected)| <= CAPACITY
  }

  lemma {:induction false} StayingConcat(a: seq<Slot>, b: seq<Slot>, selected: seq<Text>)
    ensures Staying(a + b, selected) == Staying(a, selected) + Staying(b, selected)
    decreases |b|
  {
    if b == [] {
      assert a + b == a;
    } else {
      var last := b[|b| - 1];
      var own := if last.id in selected then [] else [last.id];
      assert (a + b)[..|a + b| - 1] == a + b[..|b| - 1] && (a + b)[|a + b| - 1] == last;
      StayingConcat(a, b[..|b| - 1], selected);
      Associative(Staying(a, selected), Staying(b[..|b| - 1], selected), own);
    }
  }

  /** What stays keeps its order. */
  lemma StayingInOrder(slots: seq<Slot>, s: Slot, selected: seq<Text>)
    ensures Staying([], selected) == []
    ensures Staying(slots + [s], selected) == Staying(slots, selected) + if s.id in selected then [] else [s.id]
  {
    assert (slots + [s])[..|slots|] == slots;
  }

  /** What can be planned: a block of different, valid ids, at a boundary of a valid snapshot, of which
      none that moves is archived; and at most 2048 cards in the end. */
  lemma PlannableExactly(slots: seq<Slot>, selected: seq<Text>, before: nat)
    ensures Plannable(slots, selected, before) <==>
      && before <= |slots| && Snapshot(slots) && 0 < |selected| && |selected| + |Staying(slots, selected)| <= 2048
      && (forall i, j :: 0 <= i < j < |selected| ==> selected[i] != selected[j])
      && (forall id :: id in selected ==> IdentifierValid(id))
      && forall s :: s in slots && s.id in selected ==> s.archived == 0
    ensures Snapshot(slots) <==>
      && |slots| <= 2048 && (forall s :: s in slots ==> SlotValid(s))
      && (forall i, j :: 0 <= i < j < |slots| ==> slots[i].id != slots[j].id)
      && forall i, j :: 0 <= i < j < |slots| ==> slots[i].position < slots[j].position
  {
    hide SlotValid, IdentifierValid, Staying;
    assert AllValid(slots) <==> forall s :: s in slots ==> SlotValid(s);
  }

  lemma {:induction false} StayingHas(slots: seq<Slot>, selected: seq<Text>, id: Text)
    ensures id in Staying(slots, selected) <==> id !in selected && exists i :: 0 <= i < |slots| && slots[i].id == id
    ensures DistinctIds(slots) ==> DistinctTexts(Staying(slots, selected))
  {
    if slots != [] {
      var front, last := slots[..|slots| - 1], slots[|slots| - 1];
      StayingHas(front, selected, id);
      StayingHas(front, selected, last.id);
      if id !in selected && exists i :: 0 <= i < |slots| && slots[i].id == id {
        var i :| 0 <= i < |slots| && slots[i].id == id;
        assert i < |front| ==> front[i].id == id;
      }
      if exists i :: 0 <= i < |front| && front[i].id == id {
        var i :| 0 <= i < |front| && front[i].id == id;
        assert slots[i].id == id;
      }
    }
  }

  /** The plan has no repetitions and exactly the selected ids and the ids of the column; taking the
      block out leaves the others in their order, and the block stands where the boundary was:
      after the unmoved slots before it and before the rest. */
  lemma PlanIsTheColumn(slots: seq<Slot>, selected: seq<Text>, before: nat, id: Text)
    requires before <= |slots| && DistinctTexts(selected) && DistinctIds(slots)
    ensures var plan, place := Plan(slots, selected, before), |Staying(slots[..before], selected)|;
      && (id in plan <==> id in selected || exists i :: 0 <= i < |slots| && slots[i].id == id)
      && DistinctTexts(plan)
      && plan[place..place + |selected|] == selected
      && plan[..place] + plan[place + |selected|..] == Staying(slots, selected)
  {
    hide Staying, DistinctIds;
    var a, b := slots[..before], slots[before..];
    assert slots == a + b;
    StayingConcat(a, b, selected);
    StayingHas(slots, selected, id);
    var plan, front, back := Plan(slots, selected, before), Staying(a, selected), Staying(b, selected);
    assert plan == front + selected + back;
    forall i | 0 <= i < |front + back| ensures (front + back)[i] !in selected {
      StayingHas(slots, selected, (front + back)[i]);
      assert (front + back)[i] in front + back;
    }
    forall i, j | 0 <= i < j < |plan| ensures plan[i] != plan[j] {
      PlanDiffers(front, selected, back, i, j);
    }
  }

  lemma PlanDiffers(front: seq<Text>, selected: seq<Text>, back: seq<Text>, i: nat, j: nat)
    requires DistinctTexts(front + back) && DistinctTexts(selected)
    requires forall i :: 0 <= i < |front + back| ==> (front + back)[i] !in selected
    requires i < j < |front + selected + back|
    ensures (front + selected + back)[i] != (front + selected + back)[j]
  {
    var n, m, rest := |front|, |selected|, front + back;
    assert forall k :: 0 <= k < n ==> (front + selected + back)[k] == rest[k];
    assert forall k :: n <= k < n + m ==> (front + selected + back)[k] in selected;
    assert forall k :: n + m <= k < n + m + |back| ==> (front + selected + back)[k] == rest[k - m];
    if n <= i < j < n + m {
      assert (front + selected + back)[i] == selected[i - n] && (front + selected + back)[j] == selected[j - n];
    }
  }

  /** Whether a selection can be planned; which slots move. */
  method CheckPlan(slots: seq<Slot>, selected: seq<Text>, before: nat) returns (ok: bool, moving: seq<bool>)
    ensures ok <==> Plannable(slots, selected, before)
    ensures ok ==> |moving| == |slots| && forall i :: 0 <= i < |slots| ==> moving[i] == (slots[i].id in selected)
  {
    hide SlotValid, IdentifierValid;
    moving := [];
    if |slots| > CAPACITY || selected == [] || |selected| > CAPACITY || before > |slots| {
      return false, [];
    }
    for i := 0 to |selected|
      invariant forall k :: 0 <= k < i ==> IdentifierValid(selected[k])
      invariant forall k, j :: 0 <= k < j < i ==> selected[k] != selected[j]
    {
      if !IdentifierValid(selected[i]) {
        return false, [];
      }
      for j := 0 to i
        invariant forall k :: 0 <= k < j ==> selected[k] != selected[i]
      {
        if selected[i] == selected[j] {
          return false, [];
        }
      }
    }
    ok, moving := CheckDestination(slots, selected);
  }

  /** The slots are a snapshot, what moves is not archived, and the plan is not too long. */
  method CheckDestination(slots: seq<Slot>, selected: seq<Text>) returns (ok: bool, moving: seq<bool>)
    requires |selected| <= CAPACITY
    ensures ok <==>
      && AllValid(slots) && DistinctIds(slots) && Ascending(slots)
      && (forall i :: 0 <= i < |slots| && slots[i].id in selected ==> slots[i].archived == 0)
      && |selected| + |Staying(slots, selected)| <= CAPACITY
    ensures ok ==> |moving| == |slots| && forall i :: 0 <= i < |slots| ==> moving[i] == (slots[i].id in selected)
  {
    hide SlotValid, IdentifierValid, Staying;
    moving := [];
    var count := |selected|;
    StayingStep(slots, selected, 0);
    for i := 0 to |slots|
      invariant |moving| == i && forall k :: 0 <= k < i ==> moving[k] == (slots[k].id in selected)
      invariant forall k :: 0 <= k < i ==> SlotValid(slots[k]) && (moving[k] ==> slots[k].archived == 0)
      invariant forall k, j :: 0 <= k < j < i ==> slots[k].position < slots[j].position && slots[k].id != slots[j].id
      invariant count == |selected| + |Staying(slots[..i], selected)| <= CAPACITY
    {
      StayingStep(slots, selected, i);
      Archived01(slots[i]);
      if !SlotValid(slots[i]) || (i > 0 && slots[i - 1].position >= slots[i].position) {
        return false, [];
      }
      for j := 0 to i
        invariant forall k :: 0 <= k < j ==> slots[k].id != slots[i].id
      {
        if slots[i].id == slots[j].id {
          return false, [];
        }
      }
      var moves := Contains(selected, slots[i].id);
      moving := moving + [moves];
      if moves {
        if slots[i].archived != 0 {
          return false, [];
        }
      } else {
        count := count + 1;
        if count > CAPACITY {
          StayingGrows(slots, selected, i + 1);
          return false, [];
        }
      }
    }
    assert slots[..|slots|] == slots;
    ok := true;
  }

  lemma Archived01(s: Slot)
    ensures SlotValid(s) ==> s.archived == 0 || s.archived == 1
  {
  }

  method Contains(ids: seq<Text>, id: Text) returns (has: bool)
    ensures has <==> id in ids
  {
    for j := 0 to |ids|
      invariant id !in ids[..j]
    {
      if ids[j] == id {
        return true;
      }
    }
    assert ids[..|ids|] == ids;
    has := false;
  }

  lemma StayingStep(slots: seq<Slot>, selected: seq<Text>, i: nat)
    ensures i <= |slots| ==> Staying(slots[..0], selected) == []
    ensures i < |slots| ==>
      Staying(slots[..i + 1], selected) == Staying(slots[..i], selected) + if slots[i].id in selected then [] else [slots[i].id]
  {
    if i < |slots| {
      assert slots[..i + 1][..i] == slots[..i];
    }
  }

  lemma StayingGrows(slots: seq<Slot>, selected: seq<Text>, i: nat)
    requires i <= |slots|
    ensures |Staying(slots[..i], selected)| <= |Staying(slots, selected)|
  {
    assert slots == slots[..i] + slots[i..];
    StayingConcat(slots[..i], slots[i..], selected);
  }

  /** `wena_card_order_insert_selection`. */
  method InsertSelection(slots: seq<Slot>, selected: seq<Text>, before: nat) returns (ordered: Option<seq<Text>>)
    ensures ordered == if Plannable(slots, selected, before) then Some(Plan(slots, selected, before)) else None
  {
    hide SlotValid, IdentifierValid, Staying, Plannable;
    var ok, moving := CheckPlan(slots, selected, before);
    if !ok {
      return None;
    }
    BoundaryInside(slots, selected, before);
    var candidate: seq<Text> := [];
    StayingStep(slots, selected, 0);
    for i := 0 to |slots| + 1
      invariant candidate == (if i <= before then Staying(slots[..Least(i, |slots|)], selected)
                              else Staying(slots[..before], selected) + selected + Staying(slots[before..Least(i, |slots|)], selected))
    {
      BetweenStep(slots, selected, before, i);
      if i == before {
        candidate := candidate + selected;
      }
      if i < |slots| && !moving[i] {
        candidate := candidate + [slots[i].id];
      }
    }
    assert slots[before..|slots|] == slots[before..];
    ordered := Some(candidate);
  }

  function Least(a: nat, b: nat): nat { if a <= b then a else b }

  lemma BoundaryInside(slots: seq<Slot>, selected: seq<Text>, before: nat)
    requires Plannable(slots, selected, before)
    ensures before <= |slots|
  {
  }

  lemma BetweenStep(slots: seq<Slot>, selected: seq<Text>, before: nat, i: nat)
    requires before <= |slots| && i <= |slots|
    ensures i < |slots| ==>
      Staying(slots[..i + 1], selected) == Staying(slots[..i], selected) + if slots[i].id in selected then [] else [slots[i].id]
    ensures before <= i < |slots| ==>
      Staying(slots[before..i + 1], selected) == Staying(slots[before..i], selected) + if slots[i].id in selected then [] else [slots[i].id]
    ensures Staying(slots[before..before], selected) == []
  {
    hide Staying;
    StayingStep(slots, selected, i);
    StayingStep(slots[before..], selected, 0);
    if before <= i {
      StayingStep(slots[before..], selected, i - before);
      assert slots[before..][..i - before] == slots[before..i];
      if i < |slots| {
        assert slots[before..][..i - before + 1] == slots[before..i + 1];
      }
    }
    assert slots[before..][..0] == slots[before..before];
  }
}
