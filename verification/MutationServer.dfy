/** From a form post to a stored mutation: routing (server/router.c), the monotone dispatcher
    (server/domain_operation.c), the security store and the card store. Which targets are pages and
    which operations the page posts are given sets. */
module MutationServer {
  import opened BitStreams
  import opened Decimals
  import opened FormValues
  import opened MemoryStores
  import S = Security
  import W = RegionWire
  import R = RegionResponses

  datatype Verb = Get | Post | OtherVerb

  datatype Request = Request(verb: Verb, target: Text, contentType: Option<Text>, body: Text)

  datatype Intent = Reject | ReadPage(route: Text) | Mutation(route: Text, operation: Text, user: Text, body: Text)

  const QUESTION: Byte := 63
  const HASH: Byte := 35

  /** `wena_domain_operation`. */
  function DomainOperation(name: Text): Option<Operation>
  {
    if name == W.Ascii("create-card") then Some(CreateCard)
    else if name == W.Ascii("edit-card-title") then Some(EditCardTitle)
    else if name == W.Ascii("archive-card") then Some(ArchiveCard)
    else if name == W.Ascii("edit-board-title") then Some(EditBoardTitle)
    else if name == W.Ascii("edit-list-title") then Some(EditListTitle)
    else if name == W.Ascii("edit-swimlane-title") then Some(EditSwimlaneTitle)
    else if name == W.Ascii("move-card") then Some(Operation.MoveCard)
    else if name == W.Ascii("move-list") then Some(MoveList)
    else if name == W.Ascii("move-swimlane") then Some(MoveSwimlane)
    else if name == W.Ascii("create-list") then Some(CreateList)
    else if name == W.Ascii("create-swimlane") then Some(CreateSwimlane)
    else if name == W.Ascii("restore-card") then Some(RestoreCard)
    else if name == W.Ascii("edit-card-description") then Some(EditCardDescription)
    else None
  }

  /** What each operation is called; nothing else is one. */
  lemma OperationNames(name: Text)
    ensures DomainOperation(name) == Some(CreateCard) <==> name == W.Ascii("create-card")
    ensures DomainOperation(name) == Some(EditCardTitle) <==> name == W.Ascii("edit-card-title")
    ensures DomainOperation(name) == Some(ArchiveCard) <==> name == W.Ascii("archive-card")
    ensures DomainOperation(name) == Some(EditBoardTitle) <==> name == W.Ascii("edit-board-title")
    ensures DomainOperation(name) == Some(EditListTitle) <==> name == W.Ascii("edit-list-title")
    ensures DomainOperation(name) == Some(EditSwimlaneTitle) <==> name == W.Ascii("edit-swimlane-title")
    ensures DomainOperation(name) == Some(Operation.MoveCard) <==> name == W.Ascii("move-card")
    ensures DomainOperation(name) == Some(MoveList) <==> name == W.Ascii("move-list")
    ensures DomainOperation(name) == Some(MoveSwimlane) <==> name == W.Ascii("move-swimlane")
    ensures DomainOperation(name) == Some(CreateList) <==> name == W.Ascii("create-list")
    ensures DomainOperation(name) == Some(CreateSwimlane) <==> name == W.Ascii("create-swimlane")
    ensures DomainOperation(name) == Some(RestoreCard) <==> name == W.Ascii("restore-card")
    ensures DomainOperation(name) == Some(EditCardDescription) <==> name == W.Ascii("edit-card-description")
  {
    hide W.Ascii;
    NamesDiffer();
  }

  lemma NamesDiffer()
    ensures W.Ascii("create-card") != W.Ascii("create-list")
    ensures W.Ascii("edit-card-title") != W.Ascii("edit-list-title") && W.Ascii("edit-card-title") != W.Ascii("create-swimlane")
    ensures W.Ascii("edit-list-title") != W.Ascii("create-swimlane")
    ensures W.Ascii("archive-card") != W.Ascii("restore-card") && W.Ascii("move-card") != W.Ascii("move-list")
  {
    assert W.Ascii("create-card")[7] != W.Ascii("create-list")[7];
    assert W.Ascii("edit-card-title")[5] != W.Ascii("edit-list-title")[5];
    assert W.Ascii("edit-card-title")[0] != W.Ascii("create-swimlane")[0] && W.Ascii("edit-list-title")[0] != W.Ascii("create-swimlane")[0];
    assert W.Ascii("archive-card")[0] != W.Ascii("restore-card")[0];
    assert W.Ascii("move-card")[5] != W.Ascii("move-list")[5];
  }

  /** The history: which issue of a token each stored key was applied for. */
  ghost predicate Traced(keys: seq<Key>, applied: seq<nat>, issues: seq<S.Issue>, consumed: set<nat>)
  {
    && |applied| == |keys|
    && (forall i, j :: 0 <= i < j < |applied| ==> applied[i] != applied[j])
    && forall i :: 0 <= i < |applied| ==>
         && applied[i] in consumed && applied[i] < |issues|
         && issues[applied[i]].route == keys[i].route && DomainOperation(issues[applied[i]].operation) == Some(keys[i].operation)
  }

  ghost predicate Increasing(keys: seq<Key>, last: nat)
  {
    && (forall i, j :: 0 <= i < j < |keys| ==> keys[i].requestVersion < keys[j].requestVersion)
    && forall i :: 0 <= i < |keys| ==> keys[i].requestVersion <= last
  }

  lemma TracedNext(keys: seq<Key>, applied: seq<nat>, issues: seq<S.Issue>, consumed: set<nat>, key: Key, serial: nat, now: set<nat>)
    requires Traced(keys, applied, issues, consumed) && serial !in consumed && now == consumed + {serial} && serial < |issues|
    requires issues[serial].route == key.route && DomainOperation(issues[serial].operation) == Some(key.operation)
    ensures Traced(keys + [key], applied + [serial], issues, now)
  {
    hide DomainOperation;
  }

  lemma TracedKept(keys: seq<Key>, applied: seq<nat>, issues: seq<S.Issue>, consumed: set<nat>, more: seq<S.Issue>, now: set<nat>)
    requires Traced(keys, applied, issues, consumed) && consumed <= now && issues <= more
    ensures Traced(keys, applied, more, now)
  {
    hide DomainOperation;
  }

  class Server {
    const security: S.SecurityStore
    const store: MemoryStore
    const pages: set<Text>
    const operations: set<Text>
    var lastRequestVersion: nat

    /** For each applied mutation, in order, the issue of the token it used up. */
    ghost var applied: seq<nat>

    ghost predicate Valid()
      reads this, security, security.sessions, security.csrf, security.audit, store
    {
      && security.Valid() && store.Idle() && Sound(store.cards, store.keys)
      && Traced(store.keys, applied, security.issues, security.consumed)
      && Increasing(store.keys, lastRequestVersion)
    }

    constructor (user: Text, pages: set<Text>, operations: set<Text>)
      ensures Valid() && applied == [] && lastRequestVersion == 0 && store.keys == [] && store.cards == []
      ensures this.pages == pages && this.operations == operations
    {
      security := new S.SecurityStore();
      store := new MemoryStore(user);
      this.pages, this.operations := pages, operations;
      lastRequestVersion, applied := 0, [];
    }

    /** A value of the posted form. */
    ghost function Posted(request: Request, name: string): Option<Text>
    {
      FormValue(request.body, W.Ascii(name), Decoding, 65)
    }

    predicate Plain(target: Text) { QUESTION !in target && HASH !in target && target in pages }

    /** A post that is a mutation: of a board's page, by an open session, with a token issued to it
        for just this. */
    ghost predicate Admits(request: Request, now: nat)
      reads security, security.sessions, security.csrf
    {
      var session, csrf, operation :=
        Posted(request, "legacySession"), Posted(request, "csrf"), Posted(request, "legacyOperation");
      && Plain(request.target) && request.verb == Post && W.HasPrefix(W.Ascii("/b/"), request.target)
      && request.contentType == Some(W.Ascii("application/x-www-form-urlencoded"))
      && session.Some? && csrf.Some? && operation.Some? && operation.value in operations
      && Verified(session.value, csrf.value, request.target, operation.value, now)
    }

    /** Spelled out: which requests are admitted. */
    lemma AdmitsExactly(request: Request, now: nat)
      ensures Admits(request, now) <==>
        && request.verb == Post && request.target in pages && (forall b :: b in request.target ==> b != 63 && b != 35)
        && 3 <= |request.target| && request.target[0] == 47 && request.target[1] == 98 && request.target[2] == 47
        && request.contentType == Some(W.Ascii("application/x-www-form-urlencoded"))
        && var session := FormValue(request.body, W.Ascii("legacySession"), Decoding, 65);
        && var csrf := FormValue(request.body, W.Ascii("csrf"), Decoding, 65);
        && var operation := FormValue(request.body, W.Ascii("legacyOperation"), Decoding, 65);
        && session.Some? && csrf.Some? && operation.Some? && operation.value in operations && |session.value| == 64 && |csrf.value| == 64
        && (exists s :: s in security.sessions[..] && s.active && s.token == session.value && now < s.expiresAt)
        && exists c :: c in security.csrf[..] && c.active && !c.used && c.token == csrf.value && now < c.expiresAt
                       && c.sessionToken == session.value && c.route == request.target && c.operation == operation.value
    {
      hide FormValue, W.Ascii, S.Opens, S.Consumable;
      BoardRoute(request.target);
      var session, csrf, operation :=
        Posted(request, "legacySession"), Posted(request, "csrf"), Posted(request, "legacyOperation");
      if session.Some? && csrf.Some? && operation.Some? {
        S.OpensExactly(security.sessions[..], session.value, now);
        S.ConsumableExactly(security.csrf[..], csrf.value, session.value, request.target, operation.value, now);
      }
    }

    /** The user whose session posted. */
    ghost predicate PostedBy(request: Request, now: nat, user: Text)
      reads security, security.sessions
    {
      var session := Posted(request, "legacySession");
      session.Some? && exists i: nat ::
        S.Opens(security.sessions[..], i, session.value, now) && security.sessions[..][i].user == user
    }

    /** `wena_route_dispatch`: a mutation is routed only after its token was used up. */
    method Route(request: Request, now: nat) returns (intent: Intent, ghost serial: nat)
      requires Valid()
      modifies security, security.sessions, security.csrf, security.audit
      ensures security.Valid() && security.issues == old(security.issues) && old(security.consumed) <= security.consumed
      ensures intent.Mutation? <==> old(Admits(request, now))
      ensures intent.ReadPage? <==>
        request.verb == Get && request.target in pages && forall b :: b in request.target ==> b != '?' as nat && b != '#' as nat
      ensures intent.ReadPage? ==> intent.route == request.target
      ensures intent.Mutation? ==>
        && Posted(request, "legacyOperation") == Some(intent.operation) && old(PostedBy(request, now, intent.user))
        && request.verb == Post && intent.route == request.target && intent.body == request.body
        && intent.operation in operations && 0 < |intent.user| < 65 && W.HasPrefix(W.Ascii("/b/"), intent.route)
        && serial < |security.issues| && serial !in old(security.consumed) && security.consumed == old(security.consumed) + {serial}
        && security.issues[serial].route == intent.route && security.issues[serial].operation == intent.operation
        && now < security.issues[serial].expiresAt
    {
      hide DomainOperation, FormValue, S.SecurityStore.Valid, W.Ascii, MemoryStore.Idle, Sound, Traced, Increasing, Verified;
      serial := 0;
      if QUESTION in request.target || HASH in request.target || request.target !in pages {
        return Reject, 0;
      }
      if request.verb == Get {
        return ReadPage(request.target), 0;
      }
      if request.verb != Post || !W.HasPrefix(W.Ascii("/b/"), request.target)
         || request.contentType != Some(W.Ascii("application/x-www-form-urlencoded")) {
        return Reject, 0;
      }
      var session := ReadFormValue(request.body, W.Ascii("legacySession"), Decoding, 65);
      if session.None? {
        return Reject, 0;
      }
      var csrf := ReadFormValue(request.body, W.Ascii("csrf"), Decoding, 65);
      if csrf.None? {
        return Reject, 0;
      }
      var operation := ReadFormValue(request.body, W.Ascii("legacyOperation"), Decoding, 65);
      if operation.None? || operation.value !in operations {
        return Reject, 0;
      }
      var user;
      user, serial := Verify(session.value, csrf.value, request.target, operation.value, now);
      if user.None? {
        return Reject, serial;
      }
      intent := Mutation(request.target, operation.value, user.value, request.body);
    }

    /** An open session, and a token issued to it for this target and operation. */
    ghost predicate Verified(session: Text, csrf: Text, target: Text, operation: Text, now: nat)
      reads security, security.sessions, security.csrf
    {
      && (exists i: nat :: S.Opens(security.sessions[..], i, session, now))
      && exists i: nat :: S.Consumable(security.csrf[..], i, csrf, session, target, operation, now)
    }

    /** The last two tests of the route: the session, and then the token, which is used up. */
    method Verify(session: Text, csrf: Text, target: Text, operation: Text, now: nat)
        returns (user: Option<Text>, ghost serial: nat)
      requires security.Valid()
      modifies security, security.sessions, security.csrf, security.audit
      ensures security.Valid() && security.issues == old(security.issues) && old(security.consumed) <= security.consumed
      ensures user.Some? <==> old(Verified(session, csrf, target, operation, now))
      ensures user.Some? ==> 0 < |user.value| < 65
      ensures user.Some? ==> exists i: nat ::
        S.Opens(old(security.sessions[..]), i, session, now) && old(security.sessions[..])[i].user == user.value
      ensures user.Some? ==>
        && serial < |security.issues| && serial !in old(security.consumed) && security.consumed == old(security.consumed) + {serial}
        && security.issues[serial].route == target && security.issues[serial].operation == operation
        && now < security.issues[serial].expiresAt
    {
      hide S.SecurityStore.Valid;
      serial := 0;
      ghost var sessions, slots := security.sessions[..], security.csrf[..];
      user := security.Authenticate(session, now);
      assert security.csrf[..] == slots;
      if user.None? {
        return;
      }
      var accepted;
      accepted, serial := security.CsrfConsume(session, csrf, target, operation, now);
      if !accepted {
        assert !exists i: nat :: S.Consumable(slots, i, csrf, session, target, operation, now);
        return None, serial;
      }
    }

    /** What the dispatcher asks of an intent before it applies it. */
    ghost predicate Dispatchable(intent: Intent, requestVersion: nat)
      reads this`lastRequestVersion, store
    {
      && intent.Mutation? && intent.user != [] && W.HasPrefix(W.Ascii("/b/"), intent.route)
      && lastRequestVersion < requestVersion && 0 < |intent.body| < BODY_CAPACITY
      && DomainOperation(intent.operation).Some? && store.Executable(CommandOf(intent, requestVersion))
    }

    function CommandOf(intent: Intent, requestVersion: nat): Command
      requires intent.Mutation? && DomainOperation(intent.operation).Some?
    {
      Command(DomainOperation(intent.operation).value, requestVersion, intent.user, intent.route, intent.body)
    }

    /** `wena_domain_operation_dispatch` over `wena_persistence_execute`: the version goes up exactly
        when the store changes. */
    method Dispatch(intent: Intent, requestVersion: nat) returns (response: Option<W.Response>)
      requires store.Idle() && Sound(store.cards, store.keys) && Increasing(store.keys, lastRequestVersion)
      requires requestVersion <= ULONG_MAX
      modifies this`lastRequestVersion, store
      ensures store.Idle() && Sound(store.cards, store.keys) && Increasing(store.keys, lastRequestVersion)
      ensures response.Some? <==> old(Dispatchable(intent, requestVersion))
      ensures response.None? ==> lastRequestVersion == old(lastRequestVersion) && store.cards == old(store.cards) && store.keys == old(store.keys)
      ensures response.Some? ==>
        && old(lastRequestVersion) < requestVersion == lastRequestVersion
        && intent.Mutation? && DomainOperation(intent.operation).Some?
        && var c := CommandOf(intent, requestVersion);
        && Applied(old(store.cards), c).Some?
        && store.cards == Applied(old(store.cards), c).value.0 && store.keys == old(store.keys) + [KeyOf(c)]
        && response == Some(Reply(store.cards, Applied(old(store.cards), c).value.1, requestVersion))
    {
      hide DomainOperation, Applied, W.Ascii, R.Encodable;
      if !intent.Mutation? || intent.user == [] || !W.HasPrefix(W.Ascii("/b/"), intent.route) || requestVersion == 0
         || requestVersion <= lastRequestVersion || |intent.body| == 0 || |intent.body| >= BODY_CAPACITY {
        return None;
      }
      var operation := DomainOperation(intent.operation);
      if operation.None? {
        return None;
      }
      var c := CommandOf(intent, requestVersion);
      ghost var cards, keys := store.cards, store.keys;
      response := store.Execute(c);
      if response.None? {
        return;
      }
      SoundNext(cards, keys, c);
      var encoded := new Byte[W.MAX_BYTES];
      var fits, length := R.Encode(response.value, encoded);
      assert fits;
      lastRequestVersion := requestVersion;
    }

    /** What a request of a user asks for. */
    ghost function Posting(request: Request, user: Text): Intent
    {
      match Posted(request, "legacyOperation")
      case None => Reject
      case Some(operation) => Mutation(request.target, operation, user, request.body)
    }

    /** The command that a form is, and its replay key. */
    ghost predicate Commanded(request: Request, requestVersion: nat, c: Command, key: Key)
    {
      && c.route == request.target && c.body == request.body && c.requestVersion == requestVersion
      && (exists name :: FormValue(request.body, W.Ascii("legacyOperation"), Decoding, 65) == Some(name)
                         && DomainOperation(name) == Some(c.operation))
      && key.user == c.user && key.route == c.route && key.operation == c.operation && key.requestVersion == c.requestVersion
    }

    lemma IsCommanded(request: Request, requestVersion: nat, name: Text, c: Command, key: Key)
      requires Posted(request, "legacyOperation") == Some(name) && DomainOperation(name) == Some(c.operation)
      requires c.route == request.target && c.body == request.body && c.requestVersion == requestVersion && key == KeyOf(c)
      ensures Commanded(request, requestVersion, c, key)
    {
      hide DomainOperation;
    }

    /** One posted request. At most one mutation is applied, under a token that no earlier one used. */
    method PostForm(request: Request, now: nat, requestVersion: nat) returns (response: Option<W.Response>)
      requires Valid() && requestVersion <= ULONG_MAX
      modifies this, store, security, security.sessions, security.csrf, security.audit
      ensures Valid()
      ensures response.Some? ==> old(Admits(request, now))
      ensures response.Some? ==> exists user ::
        old(PostedBy(request, now, user)) && old(Dispatchable(Posting(request, user), requestVersion))
      ensures old(Admits(request, now))
              && (forall user :: old(PostedBy(request, now, user)) ==> old(Dispatchable(Posting(request, user), requestVersion)))
              ==> response.Some?
      ensures response.None? ==> applied == old(applied) && store.cards == old(store.cards) && store.keys == old(store.keys)
      ensures response.Some? ==>
        && |store.keys| == |old(store.keys)| + 1 && store.keys[..|old(store.keys)|] == old(store.keys)
        && |applied| == |old(applied)| + 1 && applied[..|old(applied)|] == old(applied)
        && applied[|old(applied)|] !in old(security.consumed)
        && store.keys[|old(store.keys)|].requestVersion == requestVersion > old(lastRequestVersion)
        && exists c: Command, k: nat ::
             && Stored(old(store.cards), c, store.cards, k) && Replied(response.value, requestVersion, store.cards[k].title)
             && Commanded(request, requestVersion, c, store.keys[|old(store.keys)|]) && old(PostedBy(request, now, c.user))
    {
      hide DomainOperation, Applied, Stored, S.SecurityStore.Valid, W.HasPrefix, Sound, Traced, Increasing, MemoryStore.Idle, Admits,
        PostedBy, Dispatchable, Posted;
      var intent, serial := Route(request, now);
      TracedKept(store.keys, applied, old(security.issues), old(security.consumed), security.issues, security.consumed);
      ghost var keys := store.keys;
      assert intent.Mutation? ==> Posting(request, intent.user) == intent && old(PostedBy(request, now, intent.user));
      response := Dispatch(intent, requestVersion);
      if response.Some? {
        var key := store.keys[|keys|];
        ghost var c := CommandOf(intent, requestVersion);
        AppliedIsStored(old(store.cards), c);
        assert Stored(old(store.cards), c, store.cards, Applied(old(store.cards), c).value.1);
        IsCommanded(request, requestVersion, intent.operation, c, key);
        TracedNext(keys, applied, security.issues, old(security.consumed), key, serial, security.consumed);
        applied := applied + [serial];
      }
    }

    /** A token for a form of the page. */
    method IssueToken(session: Text, route: Text, operation: Text, now: nat, ttl: nat, draws: seq<Option<seq<Byte>>>)
      returns (token: Option<Text>)
      requires Valid() && now <= ULONG_MAX && ttl <= ULONG_MAX
      requires forall i :: 0 <= i < |draws| && draws[i].Some? ==> |draws[i].value| == S.TOKEN_BYTES
      modifies security, security.sessions, security.csrf, security.audit
      ensures Valid() && security.consumed == old(security.consumed)
      ensures security.issues ==
        old(security.issues) + if token.Some? then [S.Issue(token.value, session, route, operation, now + ttl)] else []
      ensures token.Some? ==> !S.ActiveToken(security.sessions[..], old(security.csrf[..]), token.value)
    {
      hide DomainOperation, S.SecurityStore.Valid, Sound, Traced, Increasing;
      token := security.CsrfIssue(session, route, operation, now, ttl, draws);
      TracedKept(store.keys, applied, old(security.issues), security.consumed, security.issues, security.consumed);
    }

    method OpenSession(user: Text, now: nat, ttl: nat, draws: seq<Option<seq<Byte>>>) returns (token: Option<Text>)
      requires Valid() && now <= ULONG_MAX && ttl <= ULONG_MAX
      requires forall i :: 0 <= i < |draws| && draws[i].Some? ==> |draws[i].value| == S.TOKEN_BYTES
      modifies security, security.sessions, security.audit
      ensures Valid() && security.issues == old(security.issues) && security.consumed == old(security.consumed)
      ensures token.Some? ==> !S.ActiveToken(old(security.sessions[..]), security.csrf[..], token.value)
    {
      hide DomainOperation, S.SecurityStore.Valid, Sound, Traced, Increasing;
      token := security.SessionCreate(user, now, ttl, draws);
    }

    method CloseSession(token: Text)
      requires Valid()
      modifies security.sessions
      ensures Valid() && security.issues == old(security.issues) && security.consumed == old(security.consumed)
      ensures forall i :: 0 <= i < security.sessions.Length ==>
        security.sessions[i] == S.Revoked(old(security.sessions[i]), token)
    {
      hide DomainOperation, S.SecurityStore.Valid, Sound, Traced, Increasing;
      security.Revoke(token);
    }
  }
}
