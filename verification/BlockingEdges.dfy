/** Which cards block which (models/charts.c, `edges` and `apply_change`). */
module BlockingEdges {
  import opened BitStreams

  type Text = seq<Byte>

  const DEPENDENCIES: nat := 8

  /** A dependency of a card: it blocks the other card, or is blocked by it. */
  datatype Dependency = Dependency(cardId: Text, blocks: bool)

  type Dependencies = d: seq<Dependency> | |d| <= DEPENDENCIES witness []

  datatype BlockState = BlockState(
    cardId: Text, listId: Text, archived: bool, ended: bool, archivedAt: bool, deleted: bool, dependencies: Dependencies)
  {
    predicate Open() { !archived && !deleted && !ended && !archivedAt }
  }

  /** A card that blocks another, in the list the blocked card is in. */
  datatype Edge = Edge(blocker: nat, card: nat, listId: Text)

  // ----- the edges of some states

  /** The first card with an id, or none. */
  ghost function Find(states: seq<BlockState>, id: Text): (k: int)
    ensures -1 <= k < |states|
    ensures 0 <= k ==> states[k].cardId == id
    ensures forall i :: 0 <= i < |states| && (k < 0 || i < k) ==> states[i].cardId != id
  {
    if states == [] then -1
    else
      var k := Find(states[..|states| - 1], id);
      if 0 <= k then k else if states[|states| - 1].cardId == id then |states| - 1 else -1
  }

  /** The edge that dependency `j` of card `i` makes, if any. */
  ghost function EdgeOf(states: seq<BlockState>, i: nat, j: nat): Option<Edge>
    requires i < |states| && j < |states[i].dependencies|
  {
    var d := states[i].dependencies[j];
    var target := Find(states, d.cardId);
    if target < 0 || target == i then None
    else
      var cause, card := if d.blocks then i else target, if d.blocks then target else i;
      if states[cause].Open() && states[card].Open() then Some(Edge(cause, card, states[card].listId)) else None
  }

  ghost predicate Makes(states: seq<BlockState>, i: nat, j: nat, e: Edge)
  {
    i < |states| && j < |states[i].dependencies| && EdgeOf(states, i, j) == Some(e)
  }

  ghost predicate HasEdge(states: seq<BlockState>, e: Edge) { exists i: nat, j: nat :: Makes(states, i, j, e) }

  /** Made by a dependency before the `j`-th of card `i`. */
  ghost predicate MadeBefore(states: seq<BlockState>, i: nat, j: nat, e: Edge)
  {
    exists i0: nat, j0: nat :: Makes(states, i0, j0, e) && (i0 < i || (i0 == i && j0 < j))
  }

  ghost predicate Distinct(s: seq<Edge>) { forall i, j :: 0 <= i < j < |s| ==> s[i] != s[j] }

  method FindCard(states: array<BlockState>, id: Text) returns (k: int)
    ensures k == Find(states[..], id)
  {
    for i := 0 to states.Length
      invariant forall m :: 0 <= m < i ==> states[m].cardId != id
    {
      if states[i].cardId == id {
        return i;
      }
    }
    k := -1;
  }

  /** An edge's place in a buffer, or its end. */
  method FindEdge(buffer: array<Edge>, n: nat, e: Edge) returns (k: nat)
    requires n <= buffer.Length
    ensures k <= n && (k < n <==> e in buffer[..n]) && (k < n ==> buffer[k] == e)
  {
    k := 0;
    while k < n && buffer[k] != e
      invariant k <= n && e !in buffer[..k]
    {
      k := k + 1;
    }
  }

  /** `edges`: each edge once. The buffer of eight places a card is always large enough, so that no
      edge is left out for want of room. */
  method Edges(states: array<BlockState>, out: array<Edge>) returns (n: nat)
    requires DEPENDENCIES * states.Length <= out.Length
    modifies out
    ensures n <= DEPENDENCIES * states.Length && Distinct(out[..n])
    ensures forall e :: e in out[..n] <==> HasEdge(states[..], e)
  {
    hide EdgeOf, Find;
    n := 0;
    ghost var s := states[..];
    for i := 0 to states.Length
      invariant n <= DEPENDENCIES * i && Distinct(out[..n])
      invariant forall e :: e in out[..n] <==> MadeBefore(s, i, 0, e)
    {
      for j := 0 to |states[i].dependencies|
        invariant n <= DEPENDENCIES * i + j && Distinct(out[..n])
        invariant forall e :: e in out[..n] <==> MadeBefore(s, i, j, e)
      {
        var found := EdgeMade(states, i, j);
        NextMade(s, i, j);
        if found.Some? {
          var e := found.value;
          var k := FindEdge(out, n, e);
          if k == n && n < out.Length {
            ghost var before := out[..n];
            out[n] := e;
            n := n + 1;
            assert out[..n] == before + [e];
          }
        }
      }
      RowMade(s, i);
    }
    AllMade(s);
  }

  method EdgeMade(states: array<BlockState>, i: nat, j: nat) returns (found: Option<Edge>)
    requires i < states.Length && j < |states[i].dependencies|
    ensures found == EdgeOf(states[..], i, j)
  {
    var d := states[i].dependencies[j];
    var target := FindCard(states, d.cardId);
    if target < 0 || target == i {
      return None;
    }
    var cause, card := if d.blocks then i else target, if d.blocks then target else i;
    if !states[cause].Open() || !states[card].Open() {
      return None;
    }
    found := Some(Edge(cause, card, states[card].listId));
  }

  lemma NextMade(s: seq<BlockState>, i: nat, j: nat)
    requires i < |s| && j < |s[i].dependencies|
    ensures forall e :: MadeBefore(s, i, j + 1, e) <==> MadeBefore(s, i, j, e) || EdgeOf(s, i, j) == Some(e)
  {
    hide EdgeOf;
    forall e ensures MadeBefore(s, i, j + 1, e) <==> MadeBefore(s, i, j, e) || EdgeOf(s, i, j) == Some(e) {
      if EdgeOf(s, i, j) == Some(e) {
        assert Makes(s, i, j, e);
      }
    }
  }

  lemma RowMade(s: seq<BlockState>, i: nat)
    requires i < |s|
    ensures forall e :: MadeBefore(s, i, |s[i].dependencies|, e) <==> MadeBefore(s, i + 1, 0, e)
  {
    hide EdgeOf;
  }

  lemma AllMade(s: seq<BlockState>)
    ensures forall e :: MadeBefore(s, |s|, 0, e) <==> HasEdge(s, e)
  {
    hide EdgeOf;
  }

  // ----- what blocks what, in the cards' own fields

  /** The card that is meant by an id is the first that has it. */
  ghost predicate Meant(states: seq<BlockState>, id: Text, k: nat)
  {
    k < |states| && states[k].cardId == id && forall i :: 0 <= i < k ==> states[i].cardId != id
  }

  ghost predicate Names(states: seq<BlockState>, from: nat, blocks: bool, other: nat)
  {
    from < |states| && exists d :: d in states[from].dependencies && d.blocks == blocks && Meant(states, d.cardId, other)
  }

  /** A card blocks another exactly when a dependency of the first says that it blocks the second, or
      one of the second that it is blocked by the first, and neither is archived, deleted or ended. It
      does so in the list of the card that is blocked. */
  lemma EdgeExactly(states: seq<BlockState>, e: Edge)
    ensures HasEdge(states, e) <==>
      && e.blocker < |states| && e.card < |states| && e.blocker != e.card
      && !states[e.blocker].archived && !states[e.blocker].deleted && !states[e.blocker].ended && !states[e.blocker].archivedAt
      && !states[e.card].archived && !states[e.card].deleted && !states[e.card].ended && !states[e.card].archivedAt
      && e.listId == states[e.card].listId
      && (Names(states, e.blocker, true, e.card) || Names(states, e.card, false, e.blocker))
  {
    if HasEdge(states, e) {
      var i: nat, j: nat :| Makes(states, i, j, e);
      var d := states[i].dependencies[j];
      assert d in states[i].dependencies && Meant(states, d.cardId, if d.blocks then e.card else e.blocker);
    }
    if EdgeNamed(states, e, e.blocker, true, e.card) {
      var d :| d in states[e.blocker].dependencies && d.blocks && Meant(states, d.cardId, e.card);
      var j :| 0 <= j < |states[e.blocker].dependencies| && states[e.blocker].dependencies[j] == d;
      assert Makes(states, e.blocker, j, e);
    }
    if EdgeNamed(states, e, e.card, false, e.blocker) {
      var d :| d in states[e.card].dependencies && !d.blocks && Meant(states, d.cardId, e.blocker);
      var j :| 0 <= j < |states[e.card].dependencies| && states[e.card].dependencies[j] == d;
      assert Makes(states, e.card, j, e);
    }
  }

  ghost predicate EdgeNamed(states: seq<BlockState>, e: Edge, from: nat, blocks: bool, other: nat)
  {
    && e.blocker < |states| && e.card < |states| && e.blocker != e.card
    && states[e.blocker].Open() && states[e.card].Open() && e.listId == states[e.card].listId
    && Names(states, from, blocks, other)
  }

  // ----- changes

  datatype Field = Archived | DeletedAt | EndAt | ArchivedAt | CardDependencies | OtherField

  /** One side of a field change: whether there is a value, the value, and a stretch of the pool of
      dependencies. */
  datatype Side = Side(has: bool, value: int, start: nat, count: nat)

  datatype Change =
    | Position(cardId: Text, at: Option<int>, oldList: Text, newList: Text)
    | Lifecycle(cardId: Text, at: Option<int>, removed: bool)
    | FieldChange(cardId: Text, at: Option<int>, field: Field, older: Side, newer: Side)

  /** What a change makes of its card, forward or backward. */
  ghost function Changed(s: BlockState, c: Change, pool: seq<Dependency>, forward: bool): BlockState
  {
    match c
    case Position(_, _, oldList, newList) =>
      var list := if forward then newList else oldList;
      if list == [] then s else s.(listId := list)
    case Lifecycle(_, _, removed) => s.(deleted := removed == forward)
    case FieldChange(_, _, field, older, newer) =>
      var side := if forward then newer else older;
      match field
      case Archived => s.(archived := side.has && side.value != 0)
      case DeletedAt => s.(deleted := side.has)
      case EndAt => s.(ended := side.has)
      case ArchivedAt => s.(archivedAt := side.has)
      case CardDependencies =>
        var n := if side.count > DEPENDENCIES then DEPENDENCIES else side.count;
        if side.start + n <= |pool| then s.(dependencies := pool[side.start..side.start + n]) else s
      case OtherField => s
  }

  ghost function Apply(states: seq<BlockState>, c: Change, pool: seq<Dependency>, forward: bool): (after: seq<BlockState>)
    ensures |after| == |states|
  {
    var k := Find(states, c.cardId);
    if k < 0 then states else states[k := Changed(states[k], c, pool, forward)]
  }

  /** `apply_change`. */
  method ApplyChange(states: array<BlockState>, c: Change, pool: seq<Dependency>, forward: bool)
    modifies states
    ensures states[..] == Apply(old(states[..]), c, pool, forward)
  {
    var k := FindCard(states, c.cardId);
    if k < 0 {
      return;
    }
    match c
    case Position(_, _, oldList, newList) => {
      var list := if forward then newList else oldList;
      if list != [] {
        states[k] := states[k].(listId := list);
      }
    }
    case Lifecycle(_, _, removed) =>
      states[k] := states[k].(deleted := if forward then removed else !removed);
    case FieldChange(_, _, field, older, newer) => {
      var side := if forward then newer else older;
      match field
      case Archived => states[k] := states[k].(archived := side.has && side.value != 0);
      case DeletedAt => states[k] := states[k].(deleted := side.has);
      case EndAt => states[k] := states[k].(ended := side.has);
      case ArchivedAt => states[k] := states[k].(archivedAt := side.has);
      case CardDependencies => {
        var n := if side.count > DEPENDENCIES then DEPENDENCIES else side.count;
        if side.start + n <= |pool| {
          states[k] := states[k].(dependencies := pool[side.start..side.start + n]);
        }
      }
      case OtherField => {}
    }
  }

  // ----- what a change records

  /** A change of the card in place `k` records two states when it has the value of each. */
  ghost predicate RecordsAt(k: nat, before: seq<BlockState>, c: Change, after: seq<BlockState>, pool: seq<Dependency>)
  {
    && Meant(before, c.cardId, k) && |after| == |before| && after == before[k := after[k]]
    && match c
       case Position(_, _, oldList, newList) =>
         && oldList == before[k].listId != [] && newList == after[k].listId != []
         && after[k] == before[k].(listId := after[k].listId)
       case Lifecycle(_, _, removed) =>
         before[k].deleted != removed && after[k] == before[k].(deleted := removed)
       case FieldChange(_, _, Archived, older, newer) =>
         && after[k] == before[k].(archived := after[k].archived)
         && (before[k].archived <==> older.has && older.value != 0) && (after[k].archived <==> newer.has && newer.value != 0)
       case FieldChange(_, _, DeletedAt, older, newer) =>
         before[k].deleted == older.has && after[k] == before[k].(deleted := newer.has)
       case FieldChange(_, _, EndAt, older, newer) =>
         before[k].ended == older.has && after[k] == before[k].(ended := newer.has)
       case FieldChange(_, _, ArchivedAt, older, newer) =>
         before[k].archivedAt == older.has && after[k] == before[k].(archivedAt := newer.has)
       case FieldChange(_, _, CardDependencies, older, newer) =>
         && older.start + |before[k].dependencies| <= |pool| && newer.start + |after[k].dependencies| <= |pool|
         && older.count == |before[k].dependencies| && newer.count == |after[k].dependencies|
         && before[k].dependencies == pool[older.start..older.start + older.count]
         && after[k].dependencies == pool[newer.start..newer.start + newer.count]
         && after[k] == before[k].(dependencies := after[k].dependencies)
       case FieldChange(_, _, OtherField, _, _) => after[k] == before[k]
  }

  ghost predicate Records(before: seq<BlockState>, c: Change, after: seq<BlockState>, pool: seq<Dependency>)
  {
    exists k: nat :: RecordsAt(k, before, c, after, pool)
  }

  lemma ChangeAt(k: nat, before: seq<BlockState>, c: Change, after: seq<BlockState>, pool: seq<Dependency>)
    requires RecordsAt(k, before, c, after, pool)
    ensures Apply(before, c, pool, true) == after && Apply(after, c, pool, false) == before
  {
    assert Find(before, c.cardId) == k;
    assert Meant(after, c.cardId, k);
    assert Find(after, c.cardId) == k;
    assert after[k := before[k]] == before;
  }

  /** A change that records two states leads from the one to the other, and back. */
  lemma ChangeBetween(before: seq<BlockState>, c: Change, after: seq<BlockState>, pool: seq<Dependency>)
    requires Records(before, c, after, pool)
    ensures Apply(before, c, pool, true) == after && Apply(after, c, pool, false) == before
  {
    hide RecordsAt, Apply;
    var k: nat :| RecordsAt(k, before, c, after, pool);
    ChangeAt(k, before, c, after, pool);
  }

  /** What changes nothing: a card that is not there, a list without an id, and dependencies beyond the
      end of the pool; and of more than eight dependencies the first eight count. */
  lemma ChangeOfNothing(states: seq<BlockState>, c: Change, pool: seq<Dependency>, forward: bool)
    ensures (forall s :: s in states ==> s.cardId != c.cardId) ==> Apply(states, c, pool, forward) == states
    ensures c.Position? && (if forward then c.newList else c.oldList) == [] ==> Apply(states, c, pool, forward) == states
    ensures c.FieldChange? && c.field == CardDependencies ==>
      var side := if forward then c.newer else c.older;
      && (side.count <= 8 && side.start + side.count > |pool| ==> Apply(states, c, pool, forward) == states)
      && (side.count > 8 && side.start + 8 > |pool| ==> Apply(states, c, pool, forward) == states)
      && (side.count > 8 && side.start + 8 <= |pool| ==>
            forall k: nat :: Meant(states, c.cardId, k) ==>
              Apply(states, c, pool, forward)[k].dependencies == pool[side.start..side.start + 8])
  {
    var k := Find(states, c.cardId);
    if 0 <= k {
      assert states[k := states[k]] == states;
      assert forall m: nat :: Meant(states, c.cardId, m) ==> m == k;
    }
  }
}
