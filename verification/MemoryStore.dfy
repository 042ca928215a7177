/** The in-memory card store and its transactions (server/persistence.c). */
module MemoryStores {
  import opened BitStreams
  import opened Decimals
  import opened FormValues
  import W = RegionWire
  import R = RegionResponses

  type Text = seq<Byte>

  const MAX_CARDS: nat := 16
  const MAX_KEYS: nat := 32
  const BODY_CAPACITY: nat := 4097

  datatype Operation =
    | CreateCard | EditCardTitle | ArchiveCard | EditBoardTitle | EditListTitle | EditSwimlaneTitle | MoveCard | MoveList
    | MoveSwimlane | CreateList | CreateSwimlane | RestoreCard | EditCardDescription

  datatype Command = Command(operation: Operation, requestVersion: nat, user: Text, route: Text, body: Text)

  datatype Card = Card(active: bool, archived: bool, id: Text, title: Text, version: nat)

  datatype Key = Key(user: Text, route: Text, operation: Operation, requestVersion: nat)

  function KeyOf(c: Command): Key { Key(c.user, c.route, c.operation, c.requestVersion) }

  function CardId(version: nat): Text { W.Ascii("card-") + Decimal(version) }

  // ----- what a command does to the cards

  ghost function Field(c: Command, name: string, capacity: nat): Option<Text> { FormValue(c.body, W.Ascii(name), Raw, capacity) }

  /** The first active card with an id. */
  ghost function Find(cards: seq<Card>, id: Text): (k: int)
    ensures -1 <= k < |cards|
    ensures 0 <= k ==> cards[k].active && cards[k].id == id
    ensures forall i :: 0 <= i < |cards| && (k < 0 || i < k) ==> !(cards[i].active && cards[i].id == id)
  {
    if cards == [] then -1
    else
      var k := Find(cards[..|cards| - 1], id);
      var last := cards[|cards| - 1];
      if 0 <= k then k else if last.active && last.id == id then |cards| - 1 else -1
  }

  /** The card that a command on an existing card means, at the version it expects. */
  ghost function Target(cards: seq<Card>, c: Command): (k: int)
    ensures -1 <= k < |cards|
  {
    var id, text := Field(c, "cardId", 65), Field(c, "expectedVersion", 32);
    if id.None? || text.None? || NumberOf(text.value).None? then -1
    else
      var k := Find(cards, id.value);
      if 0 <= k && cards[k].version == NumberOf(text.value).value then k else -1
  }

  /** The cards after a command and the card it touched, or nothing when it does not apply. */
  ghost function Applied(cards: seq<Card>, c: Command): (r: Option<(seq<Card>, nat)>)
    ensures r.Some? ==> r.value.1 < |r.value.0|
  {
    match c.operation
    case CreateCard =>
      var title := Field(c, "title", 129);
      if title.None? || MAX_CARDS <= |cards| then None
      else Some((cards + [Card(true, false, CardId(c.requestVersion), title.value, 1)], |cards|))
    case EditCardTitle =>
      var k, title := Target(cards, c), Field(c, "title", 129);
      if k < 0 || title.None? || cards[k].archived then None
      else Some((cards[k := cards[k].(title := title.value, version := cards[k].version + 1)], k))
    case ArchiveCard =>
      var k := Target(cards, c);
      if k < 0 || cards[k].archived then None
      else Some((cards[k := cards[k].(archived := true, version := cards[k].version + 1)], k))
    case _ => None
  }

  /** The card that is meant by an id is the first active one that has it. */
  ghost predicate Meant(cards: seq<Card>, id: Text, k: nat)
  {
    && k < |cards| && cards[k].active && cards[k].id == id
    && forall i :: 0 <= i < k ==> !(cards[i].active && cards[i].id == id)
  }

  /** The form names the card in place `k` at the version it has. */
  ghost predicate NamesCard(cards: seq<Card>, c: Command, k: nat)
  {
    && k < |cards| && Field(c, "cardId", 65) == Some(cards[k].id) && Meant(cards, cards[k].id, k)
    && exists text :: Field(c, "expectedVersion", 32) == Some(text) && NumberOf(text) == Some(cards[k].version)
  }

  /** What a command stores, field by field: a new card behind the others, or the card it names with
      its new title or in the archive, and with its next version; all other cards as they were. */
  ghost predicate Stored(before: seq<Card>, c: Command, after: seq<Card>, k: nat)
  {
    && k < |after|
    && match c.operation
       case CreateCard =>
         && k == |before| < 16 && |after| == |before| + 1 && after[..k] == before
         && after[k].active && !after[k].archived && after[k].version == 1
         && after[k].id == W.Ascii("card-") + Decimal(c.requestVersion)
         && Field(c, "title", 129) == Some(after[k].title)
       case EditCardTitle =>
         && |after| == |before| && NamesCard(before, c, k) && (forall i :: 0 <= i < |before| && i != k ==> after[i] == before[i])
         && after[k].active && !before[k].archived && !after[k].archived
         && after[k].id == before[k].id && after[k].version == before[k].version + 1
         && Field(c, "title", 129) == Some(after[k].title)
       case ArchiveCard =>
         && |after| == |before| && NamesCard(before, c, k) && (forall i :: 0 <= i < |before| && i != k ==> after[i] == before[i])
         && after[k].active && !before[k].archived && after[k].archived
         && after[k].id == before[k].id && after[k].version == before[k].version + 1
         && after[k].title == before[k].title
       case _ => false
  }

  lemma TargetExactly(cards: seq<Card>, c: Command, k: nat)
    ensures Target(cards, c) == k <==> NamesCard(cards, c, k)
  {
    hide Field, NumberOf;
    if NamesCard(cards, c, k) {
      assert Find(cards, cards[k].id) == k;
    }
  }

  /** A command applies exactly when it can store something, and then it stores just that. */
  lemma StoredExactly(before: seq<Card>, c: Command, after: seq<Card>, k: nat)
    ensures Applied(before, c) == Some((after, k)) <==> Stored(before, c, after, k)
  {
    hide Field, NumberOf, Target, NamesCard;
    TargetExactly(before, c, k);
    NamedCard(before, c, k);
    if c.operation == CreateCard {
      assert Stored(before, c, after, k) ==> after == before + [after[k]];
    } else {
      assert Stored(before, c, after, k) ==> after == before[k := after[k]];
    }
  }

  /** The answer: the one region named board, with a title. */
  ghost predicate Replied(response: W.Response, version: nat, title: Text)
  {
    && response.requestVersion == version && |response.regions| == 1 && response.regions[0].name == W.Ascii("board")
    && response.regions[0].version == version && response.regions[0].content == title
  }

  lemma AppliedIsStored(cards: seq<Card>, c: Command)
    ensures match Applied(cards, c)
      case None => forall after, k: nat :: !Stored(cards, c, after, k)
      case Some(r) => Stored(cards, c, r.0, r.1) && Replied(Reply(r.0, r.1, c.requestVersion), c.requestVersion, r.0[r.1].title)
  {
    hide Applied, Stored;
    var applied := Applied(cards, c);
    forall after, k: nat ensures Stored(cards, c, after, k) <==> applied == Some((after, k)) {
      StoredExactly(cards, c, after, k);
    }
  }

  lemma NamedCard(cards: seq<Card>, c: Command, k: nat)
    ensures NamesCard(cards, c, k) ==> k < |cards| && cards[k].active
  {
  }

  /** A command on an existing card raises that card's version by one, from the version it expected,
      and touches no other card. */
  lemma EditRaisesOneVersion(cards: seq<Card>, c: Command)
    requires Applied(cards, c).Some? && c.operation != CreateCard
    ensures var (after, k) := Applied(cards, c).value;
      && |after| == |cards| && after[k].version == cards[k].version + 1 && after[k].id == cards[k].id
      && Field(c, "cardId", 65) == Some(cards[k].id)
      && Field(c, "expectedVersion", 32).Some? && NumberOf(Field(c, "expectedVersion", 32).value) == Some(cards[k].version)
      && forall i :: 0 <= i < |cards| && i != k ==> after[i] == cards[i]
  {
    hide NumberOf, Field;
  }

  /** All versions together. */
  ghost function Versions(cards: seq<Card>): nat
  {
    if cards == [] then 0 else Versions(cards[..|cards| - 1]) + cards[|cards| - 1].version
  }

  lemma {:induction false} VersionsChanged(cards: seq<Card>, k: nat, card: Card)
    requires k < |cards|
    ensures Versions(cards[k := card]) + cards[k].version == Versions(cards) + card.version
  {
    var n := |cards| - 1;
    if k < n {
      assert cards[k := card][..n] == cards[..n][k := card];
      VersionsChanged(cards[..n], k, card);
    } else {
      assert cards[k := card][..n] == cards[..n];
    }
  }

  /** Every command that applies, a creation included, adds one to the versions of the cards. */
  lemma CommandAddsOneVersion(cards: seq<Card>, c: Command)
    requires Applied(cards, c).Some?
    ensures Versions(Applied(cards, c).value.0) == Versions(cards) + 1
  {
    hide NumberOf, Field, CardId;
    var (after, k) := Applied(cards, c).value;
    if c.operation == CreateCard {
      assert after[..|cards|] == cards;
    } else {
      VersionsChanged(cards, k, after[k]);
    }
  }

  ghost function Reply(cards: seq<Card>, k: nat, version: nat): W.Response
    requires k < |cards|
  {
    W.Response(version, [W.Region(W.Ascii("board"), version, cards[k].title)])
  }

  // ----- what a store keeps

  ghost predicate HasKey(keys: seq<Key>, version: nat)
  {
    exists i :: 0 <= i < |keys| && keys[i].operation == CreateCard && keys[i].requestVersion == version
  }

  /** The cards are those of the create commands, and their versions count the commands. */
  ghost predicate Sound(cards: seq<Card>, keys: seq<Key>)
  {
    && |cards| <= MAX_CARDS && |keys| <= MAX_KEYS && Versions(cards) == |keys|
    && (forall i :: 0 <= i < |cards| ==> cards[i].active && 0 < cards[i].version <= |keys|)
    && (forall i :: 0 <= i < |cards| ==> exists v: nat :: cards[i].id == CardId(v) && HasKey(keys, v))
    && forall i, j :: 0 <= i < j < |cards| ==> cards[i].id != cards[j].id
  }

  lemma CardIdsDiffer(v: nat, w: nat)
    requires CardId(v) == CardId(w)
    ensures v == w
  {
    var prefix := W.Ascii("card-");
    assert Decimal(v) == CardId(v)[|prefix|..] == Decimal(w);
    PrintedValue(v);
    PrintedValue(w);
  }

  /** A version above all earlier ones gives a new card id. */
  lemma SoundNext(cards: seq<Card>, keys: seq<Key>, c: Command)
    requires Sound(cards, keys) && |keys| < MAX_KEYS && Applied(cards, c).Some?
    requires forall i :: 0 <= i < |keys| ==> keys[i].requestVersion < c.requestVersion
    ensures Sound(Applied(cards, c).value.0, keys + [KeyOf(c)])
  {
    hide CardId, NumberOf, Field, Versions;
    CommandAddsOneVersion(cards, c);
    var (after, k) := Applied(cards, c).value;
    var more := keys + [KeyOf(c)];
    forall v: nat | HasKey(keys, v) ensures HasKey(more, v) && v < c.requestVersion {
      var i :| 0 <= i < |keys| && keys[i].operation == CreateCard && keys[i].requestVersion == v;
      assert more[i] == keys[i];
    }
    if c.operation == CreateCard {
      assert more[|keys|] == KeyOf(c);
      assert HasKey(more, c.requestVersion);
      forall i | 0 <= i < |cards| ensures cards[i].id != CardId(c.requestVersion) {
        var v: nat :| cards[i].id == CardId(v) && HasKey(keys, v);
        if CardId(v) == CardId(c.requestVersion) {
          CardIdsDiffer(v, c.requestVersion);
        }
      }
    }
  }

  lemma BoardRoute(route: Text)
    ensures W.HasPrefix(W.Ascii("/b/"), route) <==> 3 <= |route| && route[0] == 47 && route[1] == 98 && route[2] == 47
  {
    assert W.Ascii("/b/") == [47, 98, 47];
    assert 3 <= |route| ==> route[..3] == [route[0], route[1], route[2]];
  }

  // ----- the store

  class MemoryStore {
    const authorizedUser: Text
    var cards: seq<Card>
    var keys: seq<Key>
    var staged: Option<seq<Card>>
    var pending: Option<Key>

    /** Between executions no transaction is open. */
    ghost predicate Idle()
      reads this
    {
      staged.None? && |keys| <= MAX_KEYS
    }

    constructor (user: Text)
      ensures Idle() && authorizedUser == user && cards == [] && keys == []
    {
      authorizedUser, cards, keys, staged, pending := user, [], [], None, None;
    }

    ghost predicate Begins(c: Command)
      reads this
    {
      staged.None? && authorizedUser != [] && authorizedUser == c.user && |keys| < MAX_KEYS && KeyOf(c) !in keys
    }

    /** `memory_begin`. */
    method Begin(c: Command) returns (ok: bool)
      modifies this`staged, this`pending
      ensures ok <==> old(Begins(c))
      ensures ok ==> staged == Some(cards) && pending == Some(KeyOf(c))
      ensures !ok ==> staged == old(staged) && pending == old(pending)
    {
      if staged.Some? || authorizedUser == [] || authorizedUser != c.user || |keys| >= MAX_KEYS {
        return false;
      }
      for index := 0 to |keys|
        invariant KeyOf(c) !in keys[..index]
      {
        if keys[index].requestVersion == c.requestVersion && keys[index].operation == c.operation
           && keys[index].user == c.user && keys[index].route == c.route {
          assert keys[index] == KeyOf(c);
          return false;
        }
      }
      assert keys[..|keys|] == keys;
      staged, pending := Some(cards), Some(KeyOf(c));
      ok := true;
    }

    /** `memory_apply`, on the staged cards. */
    method Apply(c: Command) returns (response: Option<W.Response>)
      requires staged.Some?
      modifies this`staged
      ensures staged.Some?
      ensures match Applied(old(staged.value), c)
        case None => response.None?
        case Some(r) => staged.value == r.0 && response == Some(Reply(r.0, r.1, c.requestVersion))
    {
      hide FormValue, NumberOf, CardId;
      var list := staged.value;
      var k: int;
      if c.operation == CreateCard {
        var title := ReadFormValue(c.body, W.Ascii("title"), Raw, 129);
        if title.None? || |list| >= MAX_CARDS {
          return None;
        }
        k := |list|;
        list := list + [Card(true, false, CardId(c.requestVersion), title.value, 1)];
      } else {
        k := FindTarget(list, c);
        if k < 0 {
          return None;
        }
        if c.operation == EditCardTitle {
          var title := ReadFormValue(c.body, W.Ascii("title"), Raw, 129);
          if title.None? || list[k].archived {
            return None;
          }
          list := list[k := list[k].(title := title.value)];
        } else if c.operation == ArchiveCard {
          if list[k].archived {
            return None;
          }
          list := list[k := list[k].(archived := true)];
        } else {
          return None;
        }
        list := list[k := list[k].(version := list[k].version + 1)];
      }
      staged := Some(list);
      response := Some(W.Response(c.requestVersion, [W.Region(W.Ascii("board"), c.requestVersion, list[k].title)]));
    }

    static method FindTarget(list: seq<Card>, c: Command) returns (k: int)
      ensures k == Target(list, c)
    {
      hide FormValue, NumberOf;
      var id := ReadFormValue(c.body, W.Ascii("cardId"), Raw, 65);
      if id.None? {
        return -1;
      }
      var text := ReadFormValue(c.body, W.Ascii("expectedVersion"), Raw, 32);
      if text.None? {
        return -1;
      }
      assert text.value[0..|text.value|] == text.value;
      var expected := ReadNumber(text.value, 0, |text.value|);
      if expected.None? {
        return -1;
      }
      for i := 0 to |list|
        invariant forall m :: 0 <= m < i ==> !(list[m].active && list[m].id == id.value)
      {
        if list[i].active && list[i].id == id.value {
          return if list[i].version == expected.value then i else -1;
        }
      }
      k := -1;
    }

    /** `memory_finish`. */
    method Finish(commit: bool)
      requires staged.Some? && pending.Some?
      modifies this
      ensures staged.None?
      ensures cards == (if commit then old(staged.value) else old(cards))
      ensures keys == if commit then old(keys) + [old(pending.value)] else old(keys)
    {
      if commit {
        cards := staged.value;
        keys := keys + [pending.value];
      }
      staged := None;
    }

    ghost predicate Executable(c: Command)
      reads this
    {
      && c.user != [] && W.HasPrefix(W.Ascii("/b/"), c.route) && 0 < c.requestVersion && 0 < |c.body| < BODY_CAPACITY
      && Begins(c)
      && match Applied(cards, c)
         case None => false
         case Some(r) => R.Encodable(Reply(r.0, r.1, c.requestVersion), W.MAX_BYTES)
    }

    /** What it takes: the one user the store is for, a board's route, a version and a body within
        their limits, room for the replay key and none like it, something to store, and an answer that
        can be sent. */
    lemma ExecutableExactly(c: Command)
      requires Idle()
      ensures Executable(c) <==>
        && c.user != [] && c.user == authorizedUser
        && 3 <= |c.route| && c.route[0] == 47 && c.route[1] == 98 && c.route[2] == 47
        && 0 < c.requestVersion && 0 < |c.body| <= 4096 && |keys| < 32
        && (forall key :: key in keys ==>
              key.user != c.user || key.route != c.route || key.operation != c.operation || key.requestVersion != c.requestVersion)
        && exists after: seq<Card>, k: nat :: Stored(cards, c, after, k) &&
             R.Encodable(W.Response(c.requestVersion, [W.Region(W.Ascii("board"), c.requestVersion, after[k].title)]), W.MAX_BYTES)
    {
      hide Applied, Stored, R.Encodable;
      AppliedIsStored(cards, c);
      BoardRoute(c.route);
      assert KeyOf(c) !in keys <==> forall key :: key in keys ==>
        key.user != c.user || key.route != c.route || key.operation != c.operation || key.requestVersion != c.requestVersion;
      forall after: seq<Card>, k: nat | Stored(cards, c, after, k) ensures Applied(cards, c) == Some((after, k)) {
        StoredExactly(cards, c, after, k);
      }
    }

    /** `wena_persistence_execute`: all of a command, with its replay key, or nothing. */
    method Execute(c: Command) returns (response: Option<W.Response>)
      requires Idle() && c.requestVersion <= ULONG_MAX
      modifies this
      ensures Idle()
      ensures response.Some? <==> old(Executable(c))
      ensures response.Some? ==>
        var r := Applied(old(cards), c).value;
        && cards == r.0 && keys == old(keys) + [KeyOf(c)] && response == Some(Reply(r.0, r.1, c.requestVersion))
        && R.Encodable(response.value, W.MAX_BYTES)
      ensures response.Some? ==>
        && keys[|keys| - 1].user == c.user && keys[|keys| - 1].route == c.route
        && keys[|keys| - 1].operation == c.operation && keys[|keys| - 1].requestVersion == c.requestVersion
        && exists k: nat :: Stored(old(cards), c, cards, k) && Replied(response.value, c.requestVersion, cards[k].title)
      ensures response.None? ==> cards == old(cards) && keys == old(keys)
    {
      hide Applied, Stored, R.Encodable;
      AppliedIsStored(cards, c);
      if c.user == [] || !W.HasPrefix(W.Ascii("/b/"), c.route) || c.requestVersion == 0 || |c.body| == 0 || |c.body| >= BODY_CAPACITY {
        return None;
      }
      var begun := Begin(c);
      if !begun {
        return None;
      }
      response := Apply(c);
      if response.None? {
        Finish(false);
        return;
      }
      var wire := new Byte[W.MAX_BYTES];
      var encoded, length := R.Encode(response.value, wire);
      if !encoded {
        Finish(false);
        return None;
      }
      Finish(true);
    }
  }
}
