/** Sessions and single-use CSRF tokens (server/security.c). Entropy and time are inputs. */
module Security {
  import opened BitStreams
  import opened ByteTexts
  import opened Decimals

  type Text = seq<Byte>

  const MAX_SESSIONS: nat := 64
  const MAX_CSRF: nat := 128
  const MAX_AUDIT: nat := 256
  const MAX_SESSION_TTL: nat := 86400
  const MAX_CSRF_TTL: nat := 900
  const TOKEN_BYTES: nat := 32

  datatype Decision = Accept | RejectAuth | RejectExpired | RejectReplay | RejectScope | RejectCapacity | RejectEntropy

  datatype Session = Session(active: bool, token: Text, user: Text, expiresAt: nat)

  datatype Csrf = Csrf(
    active: bool, used: bool, token: Text, sessionToken: Text, route: Text, operation: Text, expiresAt: nat)

  datatype Audit = Audit(timestamp: nat, decision: Decision, user: Option<Text>, route: Option<Text>, operation: Option<Text>)

  // ----- tokens

  /** Equal tokens, of the one length there is. */
  predicate TokenEqual(a: Text, b: Text) { |a| == 64 && |b| == 64 && a == b }

  function HexOf(bytes: seq<Byte>): (t: Text)
    ensures |t| == 2 * |bytes|
  {
    if bytes == [] then [] else [HexDigit(bytes[0] / 16), HexDigit(bytes[0] % 16)] + HexOf(bytes[1..])
  }

  predicate AllZero(bytes: seq<Byte>) { forall i :: 0 <= i < |bytes| ==> bytes[i] == 0 }

  /** Each byte is two hexadecimal digits, the upper half first. */
  lemma {:induction false} HexOfByte(bytes: seq<Byte>, i: nat)
    requires i < |bytes|
    ensures HexOf(bytes)[2 * i] == "0123456789abcdef"[bytes[i] / 16] as nat
    ensures HexOf(bytes)[2 * i + 1] == "0123456789abcdef"[bytes[i] % 16] as nat
  {
    if i > 0 {
      HexOfByte(bytes[1..], i - 1);
    } else {
      HexDigitIs(bytes[0] / 16);
      HexDigitIs(bytes[0] % 16);
    }
  }

  /** The state of the arrays. */
  ghost predicate ActiveToken(sessions: seq<Session>, csrf: seq<Csrf>, token: Text)
  {
    || (exists i :: 0 <= i < |sessions| && sessions[i].active && TokenEqual(sessions[i].token, token))
    || (exists i :: 0 <= i < |csrf| && csrf[i].active && TokenEqual(csrf[i].token, token))
  }

  /** Of up to `n` draws, the first that is not all zero and not in use, in hexadecimal; a draw that
      fails ends it. */
  ghost function FirstToken(draws: seq<Option<seq<Byte>>>, n: nat, sessions: seq<Session>, csrf: seq<Csrf>): Option<Text>
  {
    if n == 0 || draws == [] || draws[0].None? then None
    else if !AllZero(draws[0].value) && !ActiveToken(sessions, csrf, HexOf(draws[0].value)) then Some(HexOf(draws[0].value))
    else FirstToken(draws[1..], n - 1, sessions, csrf)
  }

  /** The token is that of draw `k` exactly when that is the first usable one and none before failed. */
  lemma {:induction false} FirstTokenExactly(draws: seq<Option<seq<Byte>>>, n: nat, sessions: seq<Session>, csrf: seq<Csrf>, token: Text)
    ensures FirstToken(draws, n, sessions, csrf) == Some(token) <==>
      exists k: nat :: k < n && k < |draws| && draws[k].Some? && token == HexOf(draws[k].value)
        && (exists i :: 0 <= i < |draws[k].value| && draws[k].value[i] != 0) && !ActiveToken(sessions, csrf, token)
        && forall j :: 0 <= j < k ==>
             draws[j].Some? && ((forall i :: 0 <= i < |draws[j].value| ==> draws[j].value[i] == 0)
                                || ActiveToken(sessions, csrf, HexOf(draws[j].value)))
  {
    hide ActiveToken, HexOf;
    if n != 0 && draws != [] && draws[0].Some? {
      FirstTokenExactly(draws[1..], n - 1, sessions, csrf, token);
    }
  }

  /** No two active entries have one token. */
  ghost predicate Unique(sessions: seq<Session>, csrf: seq<Csrf>)
  {
    && (forall i :: 0 <= i < |sessions| && sessions[i].active ==> |sessions[i].token| == 64)
    && (forall i :: 0 <= i < |csrf| && csrf[i].active ==> |csrf[i].token| == 64)
    && (forall i, j :: 0 <= i < j < |sessions| && sessions[i].active && sessions[j].active ==> sessions[i].token != sessions[j].token)
    && (forall i, j :: 0 <= i < j < |csrf| && csrf[i].active && csrf[j].active ==> csrf[i].token != csrf[j].token)
    && (forall i, j :: 0 <= i < |sessions| && 0 <= j < |csrf| && sessions[i].active && csrf[j].active ==>
          sessions[i].token != csrf[j].token)
  }

  /** What a token was issued for. */
  datatype Issue = Issue(token: Text, sessionToken: Text, route: Text, operation: Text, expiresAt: nat)

  /** Each active CSRF token is that of one issue; it is marked used exactly when the issue was
      consumed. */
  ghost predicate Traced(csrf: seq<Csrf>, serials: seq<nat>, issues: seq<Issue>, consumed: set<nat>)
  {
    && |serials| == |csrf|
    && (forall n :: n in consumed ==> n < |issues|)
    && (forall i :: 0 <= i < |csrf| && csrf[i].active ==>
          && serials[i] < |issues|
          && issues[serials[i]] == Issue(csrf[i].token, csrf[i].sessionToken, csrf[i].route, csrf[i].operation, csrf[i].expiresAt)
          && (csrf[i].used <==> serials[i] in consumed))
    && forall i, j :: 0 <= i < j < |csrf| && csrf[i].active && csrf[j].active ==> serials[i] != serials[j]
  }

  ghost predicate Users(sessions: seq<Session>) { forall i :: 0 <= i < |sessions| && sessions[i].active ==> 0 < |sessions[i].user| < 65 }

  /** The session that a token opens at a time. */
  ghost predicate Opens(sessions: seq<Session>, i: nat, token: Text, now: nat)
  {
    i < |sessions| && sessions[i].active && TokenEqual(sessions[i].token, token) && now < sessions[i].expiresAt
  }

  /** The slot whose token may be consumed. */
  ghost predicate Consumable(csrf: seq<Csrf>, i: nat, token: Text, sessionToken: Text, route: Text, operation: Text, now: nat)
  {
    && i < |csrf| && csrf[i].active && !csrf[i].used && TokenEqual(csrf[i].token, token) && now < csrf[i].expiresAt
    && TokenEqual(csrf[i].sessionToken, sessionToken) && csrf[i].route == route && csrf[i].operation == operation
  }

  /** A token opens a session exactly when an active one has it and is not over. */
  lemma OpensExactly(sessions: seq<Session>, token: Text, now: nat)
    ensures (exists i: nat :: Opens(sessions, i, token, now)) <==>
      |token| == 64 && exists s :: s in sessions && s.active && s.token == token && now < s.expiresAt
  {
    if i: nat :| Opens(sessions, i, token, now) {
      assert sessions[i] in sessions;
    }
    if s :| s in sessions && |token| == 64 && s.active && s.token == token && now < s.expiresAt {
      var i :| 0 <= i < |sessions| && sessions[i] == s;
      assert Opens(sessions, i, token, now);
    }
  }

  /** A form token may be consumed exactly when a slot holds it unused and in time for this purpose. */
  lemma ConsumableExactly(csrf: seq<Csrf>, token: Text, sessionToken: Text, route: Text, operation: Text, now: nat)
    ensures (exists i: nat :: Consumable(csrf, i, token, sessionToken, route, operation, now)) <==>
      && |token| == 64 && |sessionToken| == 64
      && exists c :: c in csrf && c.active && !c.used && c.token == token && now < c.expiresAt
                     && c.sessionToken == sessionToken && c.route == route && c.operation == operation
  {
    if i: nat :| Consumable(csrf, i, token, sessionToken, route, operation, now) {
      assert csrf[i] in csrf;
    }
    if c :| c in csrf && |token| == 64 && |sessionToken| == 64 && c.active && !c.used && c.token == token && now < c.expiresAt
            && c.sessionToken == sessionToken && c.route == route && c.operation == operation {
      var i :| 0 <= i < |csrf| && csrf[i] == c;
      assert Consumable(csrf, i, token, sessionToken, route, operation, now);
    }
  }

  /** A session after its token was presented: closed if it is over. */
  function Expired(s: Session, token: Text, now: nat): Session
  {
    if s.active && TokenEqual(s.token, token) && s.expiresAt <= now then s.(active := false) else s
  }

  predicate Replaceable(s: Session, now: nat) { !s.active || s.expiresAt <= now }

  predicate Spent(c: Csrf, now: nat) { !c.active || c.used || c.expiresAt <= now }

  /** A CSRF slot after a token was tried: used up, whether or not it was accepted. */
  function Tried(c: Csrf, token: Text): Csrf { if c.active && TokenEqual(c.token, token) then c.(used := true) else c }

  function Revoked(s: Session, token: Text): Session { if TokenEqual(s.token, token) then s.(active := false) else s }

  /** A token that is tried uses up its slot and no other; a session is closed when it is over and its
      token is presented, or when that is revoked. */
  lemma SlotAfter(c: Csrf, s: Session, token: Text, now: nat)
    ensures Tried(c, token) == c.(used := c.used || (c.active && |token| == 64 && c.token == token))
    ensures Expired(s, token, now) == s.(active := s.active && (now < s.expiresAt || |token| != 64 || s.token != token))
    ensures Revoked(s, token) == s.(active := s.active && (|token| != 64 || s.token != token))
  {
    assert c.(used := c.used) == c && s.(active := s.active) == s;
  }

  lemma ClosedUnique(sessions: seq<Session>, csrf: seq<Csrf>, i: nat)
    requires Unique(sessions, csrf) && i < |sessions|
    ensures Unique(sessions[i := sessions[i].(active := false)], csrf)
  {
  }

  lemma OpenedUnique(sessions: seq<Session>, csrf: seq<Csrf>, i: nat, s: Session)
    requires Unique(sessions, csrf) && i < |sessions| && |s.token| == 64 && !ActiveToken(sessions, csrf, s.token)
    ensures Unique(sessions[i := s], csrf)
  {
  }

  lemma IssuedUnique(sessions: seq<Session>, csrf: seq<Csrf>, i: nat, c: Csrf)
    requires Unique(sessions, csrf) && i < |csrf| && |c.token| == 64 && !ActiveToken(sessions, csrf, c.token)
    ensures Unique(sessions, csrf[i := c])
  {
  }

  lemma IssuedTraced(csrf: seq<Csrf>, serials: seq<nat>, issues: seq<Issue>, consumed: set<nat>, i: nat, c: Csrf)
    requires Traced(csrf, serials, issues, consumed) && i < |csrf| && !c.used
    ensures |serials| == |csrf|
    ensures Traced(csrf[i := c], serials[i := |issues|],
                   issues + [Issue(c.token, c.sessionToken, c.route, c.operation, c.expiresAt)], consumed)
  {
  }

  lemma UsedUnique(sessions: seq<Session>, csrf: seq<Csrf>, i: nat)
    requires Unique(sessions, csrf) && i < |csrf|
    ensures Unique(sessions, csrf[i := csrf[i].(used := true)])
  {
  }

  lemma UsedTraced(csrf: seq<Csrf>, serials: seq<nat>, issues: seq<Issue>, consumed: set<nat>, i: nat)
    requires Traced(csrf, serials, issues, consumed) && i < |csrf| && csrf[i].active
    ensures serials[i] < |issues| && Traced(csrf[i := csrf[i].(used := true)], serials, issues, consumed + {serials[i]})
  {
  }

  class SecurityStore {
    const sessions: array<Session>
    const csrf: array<Csrf>
    const audit: array<Audit>
    var auditNext: nat
    var auditCount: nat

    /** Which issue each CSRF slot holds, all issues so far, and those that were consumed. */
    ghost var serials: seq<nat>
    ghost var issues: seq<Issue>
    ghost var consumed: set<nat>
    ghost var audited: seq<Audit>

    ghost predicate Valid()
      reads this, sessions, csrf, audit
    {
      && sessions.Length == MAX_SESSIONS && csrf.Length == MAX_CSRF && audit.Length == MAX_AUDIT
      && Unique(sessions[..], csrf[..]) && Users(sessions[..]) && Traced(csrf[..], serials, issues, consumed)
      && Ring()
    }

    /** One more entry, of an acceptance or not. */
    static ghost predicate Audited(before: seq<Audit>, after: seq<Audit>, accepted: bool)
    {
      && |after| == |before| + 1 && after[..|before|] == before
      && (after[|before|].decision == Accept <==> accepted)
    }

    /** The ring holds the latest entries. */
    ghost predicate Ring()
      reads this, audit
    {
      && audit.Length == MAX_AUDIT && auditNext == |audited| % MAX_AUDIT
      && auditCount == (if |audited| < MAX_AUDIT then |audited| else MAX_AUDIT)
      && forall k :: |audited| - auditCount <= k < |audited| ==> audit[k % MAX_AUDIT] == audited[k]
    }

    constructor ()
      ensures Valid() && issues == [] && consumed == {} && audited == []
      ensures fresh(sessions) && fresh(csrf) && fresh(audit) && sessions.Length == 64 && csrf.Length == 128 && audit.Length == 256
    {
      sessions := new Session[MAX_SESSIONS](_ => Session(false, [], [], 0));
      csrf := new Csrf[MAX_CSRF](_ => Csrf(false, false, [], [], [], [], 0));
      audit := new Audit[MAX_AUDIT](_ => Audit(0, Accept, None, None, None));
      auditNext, auditCount := 0, 0;
      serials := seq(MAX_CSRF, _ => 0);
      issues, consumed, audited := [], {}, [];
    }

    /** `wena_audit`. */
    method Record(entry: Audit)
      requires Ring()
      modifies this`auditNext, this`auditCount, this`audited, audit
      ensures Ring() && audited == old(audited) + [entry]
    {
      ghost var n := |audited|;
      NextPlace(n);
      forall k | 0 <= k < n < k + MAX_AUDIT ensures k % MAX_AUDIT != n % MAX_AUDIT {
        OtherPlace(k, n);
      }
      audit[auditNext] := entry;
      audited := audited + [entry];
      auditNext := (auditNext + 1) % MAX_AUDIT;
      if auditCount < MAX_AUDIT {
        auditCount := auditCount + 1;
      }
    }

    /** `wena_security_last_audit`. */
    method LastAudit() returns (last: Option<Audit>)
      requires Ring()
      ensures last == if audited == [] then None else Some(audited[|audited| - 1])
    {
      if auditCount == 0 {
        return None;
      }
      LastPlace(|audited|);
      last := Some(audit[(auditNext + MAX_AUDIT - 1) % MAX_AUDIT]);
    }

    /** `wena_token_exists`. */
    method TokenExists(token: Text) returns (exists_: bool)
      ensures exists_ <==> ActiveToken(sessions[..], csrf[..], token)
    {
      for i := 0 to sessions.Length
        invariant forall k :: 0 <= k < i ==> !(sessions[k].active && TokenEqual(sessions[k].token, token))
      {
        if sessions[i].active && TokenEqual(sessions[i].token, token) {
          assert sessions[..][i] == sessions[i];
          return true;
        }
      }
      for i := 0 to csrf.Length
        invariant forall k :: 0 <= k < i ==> !(csrf[k].active && TokenEqual(csrf[k].token, token))
      {
        if csrf[i].active && TokenEqual(csrf[i].token, token) {
          assert csrf[..][i] == csrf[i];
          return true;
        }
      }
      exists_ := false;
    }

    /** `wena_token`: of up to three draws, the first that is not all zero and not in use. */
    method NewToken(draws: seq<Option<seq<Byte>>>) returns (token: Option<Text>)
      requires forall i :: 0 <= i < |draws| && draws[i].Some? ==> |draws[i].value| == TOKEN_BYTES
      ensures token == FirstToken(draws, 3, sessions[..], csrf[..])
      ensures token.Some? ==> |token.value| == 64 && !ActiveToken(sessions[..], csrf[..], token.value)
    {
      hide ActiveToken, HexOf, AllZero;
      for attempt := 0 to 3
        invariant attempt <= |draws|
        invariant FirstToken(draws, 3, sessions[..], csrf[..]) == FirstToken(draws[attempt..], 3 - attempt, sessions[..], csrf[..])
      {
        if attempt >= |draws| || draws[attempt].None? {
          return None;
        }
        assert draws[attempt..][1..] == draws[attempt + 1..];
        var bytes := draws[attempt].value;
        var output := HexOf(bytes);
        var taken := TokenExists(output);
        if !AllZero(bytes) && !taken {
          return Some(output);
        }
      }
      token := None;
    }

    /** `wena_session`: the open session of a token; one that expired is closed. */
    method FindSession(token: Text, now: nat) returns (index: Option<nat>, decision: Decision)
      requires Valid()
      modifies sessions
      ensures Valid()
      ensures index.Some? <==> exists i: nat :: Opens(old(sessions[..]), i, token, now)
      ensures index.Some? ==> Opens(sessions[..], index.value, token, now) && sessions[..] == old(sessions[..])
      ensures index.None? ==> decision != Accept
      ensures index.None? ==> forall i :: 0 <= i < sessions.Length ==> sessions[i] == Expired(old(sessions[i]), token, now)
    {
      hide Traced, Ring, Users;
      for i := 0 to sessions.Length
        invariant sessions[..] == old(sessions[..])
        invariant forall k :: 0 <= k < i ==> !(sessions[k].active && TokenEqual(sessions[k].token, token))
      {
        if sessions[i].active && TokenEqual(sessions[i].token, token) {
          if sessions[i].expiresAt <= now {
            ClosedUnique(sessions[..], csrf[..], i);
            ClosedUsers(sessions[..], i);
            sessions[i] := sessions[i].(active := false);
            assert sessions[..] == old(sessions[..])[i := sessions[i]];
            return None, RejectExpired;
          }
          assert Opens(sessions[..], i, token, now);
          return Some(i), Accept;
        }
      }
      index, decision := None, RejectAuth;
    }

    /** `wena_security_session_create`. */
    method SessionCreate(user: Text, now: nat, ttl: nat, draws: seq<Option<seq<Byte>>>) returns (token: Option<Text>)
      requires Valid() && now <= ULONG_MAX && ttl <= ULONG_MAX
      requires forall i :: 0 <= i < |draws| && draws[i].Some? ==> |draws[i].value| == TOKEN_BYTES
      modifies this`auditNext, this`auditCount, this`audited, sessions, audit
      ensures Valid()
      ensures token.Some? ==>
        && !ActiveToken(old(sessions[..]), csrf[..], token.value)
        && 0 < ttl <= 86400 && 0 < |user| < 65
        && exists i: nat :: i < 64 && !(old(sessions[i]).active && now < old(sessions[i]).expiresAt)
                            && sessions[..] == old(sessions[..])[i := Session(true, token.value, user, now + ttl)]
      ensures token.None? ==> sessions[..] == old(sessions[..])
      ensures token == if 0 < |user| < 65 && 0 < ttl <= 86400 && now + ttl <= ULONG_MAX
                          && exists i: nat :: i < 64 && !(old(sessions[i]).active && now < old(sessions[i]).expiresAt)
                       then FirstToken(draws, 3, old(sessions[..]), csrf[..]) else None
    {
      hide Traced, Unique, Users, ActiveToken, FirstToken;
      if user == [] || |user| >= 65 || ttl == 0 || ttl > MAX_SESSION_TTL || now > ULONG_MAX - ttl {
        return None;
      }
      var index := 0;
      while index < MAX_SESSIONS && !Replaceable(sessions[index], now)
        invariant index <= MAX_SESSIONS && forall k :: 0 <= k < index ==> !Replaceable(sessions[k], now)
      {
        index := index + 1;
      }
      if index == MAX_SESSIONS {
        Record(Audit(now, RejectCapacity, Some(user), None, None));
        return None;
      }
      token := NewToken(draws);
      if token.None? {
        Record(Audit(now, RejectEntropy, Some(user), None, None));
        return None;
      }
      var s := Session(true, token.value, user, now + ttl);
      OpenedUnique(sessions[..], csrf[..], index, s);
      OpenedUsers(sessions[..], index, s);
      sessions[index] := s;
      assert !(old(sessions[index]).active && now < old(sessions[index]).expiresAt) && sessions[..] == old(sessions[..])[index := s];
      Record(Audit(now, Accept, Some(user), None, None));
    }

    /** `wena_security_session_authenticate`: the user of an open session. */
    method Authenticate(token: Text, now: nat) returns (user: Option<Text>)
      requires Valid()
      modifies this`auditNext, this`auditCount, this`audited, sessions, audit
      ensures Valid()
      ensures user.Some? <==> exists i: nat :: Opens(old(sessions[..]), i, token, now)
      ensures user.Some? ==>
        && sessions[..] == old(sessions[..]) && 0 < |user.value| < 65
        && exists i: nat :: Opens(sessions[..], i, token, now) && sessions[i].user == user.value
      ensures Audited(old(audited), audited, user.Some?)
    {
      hide Traced, Unique;
      var index, decision := FindSession(token, now);
      if index.None? {
        Record(Audit(now, decision, None, None, None));
        return None;
      }
      user := Some(sessions[index.value].user);
      Record(Audit(now, Accept, user, None, None));
    }

    /** `wena_security_csrf_issue`: a new token, unlike every active one, in a slot nobody needs. */
    method CsrfIssue(sessionToken: Text, route: Text, operation: Text, now: nat, ttl: nat, draws: seq<Option<seq<Byte>>>)
      returns (token: Option<Text>)
      requires Valid() && now <= ULONG_MAX && ttl <= ULONG_MAX
      requires forall i :: 0 <= i < |draws| && draws[i].Some? ==> |draws[i].value| == TOKEN_BYTES
      modifies this, sessions, csrf, audit
      ensures Valid() && consumed == old(consumed)
      ensures token.None? ==> issues == old(issues) && csrf[..] == old(csrf[..])
      ensures token.Some? ==>
        && 0 < ttl <= 900 && (exists i: nat :: Opens(old(sessions[..]), i, sessionToken, now))
        && !ActiveToken(sessions[..], old(csrf[..]), token.value)
        && issues == old(issues) + [Issue(token.value, sessionToken, route, operation, now + ttl)]
        && exists i: nat :: i < 128 && !(old(csrf[i]).active && !old(csrf[i]).used && now < old(csrf[i]).expiresAt)
             && csrf[..] == old(csrf[..])[i := Csrf(true, false, token.value, sessionToken, route, operation, now + ttl)]
      ensures token == if 0 < |route| <= 256 && route[0] == 47 && 0 < |operation| <= 64 && 0 < ttl <= 900 && now + ttl <= ULONG_MAX
                          && (exists i: nat :: Opens(old(sessions[..]), i, sessionToken, now))
                          && exists i: nat :: i < 128 && !(old(csrf[i]).active && !old(csrf[i]).used && now < old(csrf[i]).expiresAt)
                       then FirstToken(draws, 3, old(sessions[..]), old(csrf[..])) else None
    {
      hide Traced, Unique, Users, ActiveToken, FirstToken;
      if route == [] || route[0] != 47 || |route| >= 257 || operation == [] || |operation| >= 65
         || ttl == 0 || ttl > MAX_CSRF_TTL || now > ULONG_MAX - ttl {
        return None;
      }
      var session, decision := FindSession(sessionToken, now);
      if session.None? {
        Record(Audit(now, decision, None, Some(route), Some(operation)));
        return None;
      }
      var user := sessions[session.value].user;
      var index := 0;
      while index < MAX_CSRF && !Spent(csrf[index], now)
        invariant index <= MAX_CSRF && forall k :: 0 <= k < index ==> !Spent(csrf[k], now)
        modifies {}
      {
        index := index + 1;
      }
      if index < MAX_CSRF {
        token := NewToken(draws);
      } else {
        token := None;
      }
      if token.None? {
        Record(Audit(now, if index == MAX_CSRF then RejectCapacity else RejectEntropy, Some(user), Some(route), Some(operation)));
        return None;
      }
      var c := Csrf(true, false, token.value, sessionToken, route, operation, now + ttl);
      IssuedUnique(sessions[..], csrf[..], index, c);
      IssuedTraced(csrf[..], serials, issues, consumed, index, c);
      csrf[index] := c;
      assert !(old(csrf[index]).active && !old(csrf[index]).used && now < old(csrf[index]).expiresAt) && csrf[..] == old(csrf[..])[index := c];
      serials := serials[index := |issues|];
      issues := issues + [Issue(token.value, sessionToken, route, operation, now + ttl)];
      Record(Audit(now, Accept, Some(user), Some(route), Some(operation)));
    }

    /** `wena_security_csrf_consume`: accepts a token once, for the session, route and operation it
        was issued for, before it expires; trying it with anything else uses it up. */
    method CsrfConsume(sessionToken: Text, token: Text, route: Text, operation: Text, now: nat)
      returns (accepted: bool, ghost serial: nat)
      requires Valid()
      modifies this, sessions, csrf, audit
      ensures Valid() && issues == old(issues) && old(consumed) <= consumed
      ensures accepted <==>
        && (exists i: nat :: Opens(old(sessions[..]), i, sessionToken, now))
        && exists i: nat :: Consumable(old(csrf[..]), i, token, sessionToken, route, operation, now)
      ensures accepted ==>
        && serial < |issues| && serial !in old(consumed) && consumed == old(consumed) + {serial}
        && issues[serial] == Issue(token, sessionToken, route, operation, issues[serial].expiresAt) && now < issues[serial].expiresAt
      ensures forall i :: 0 <= i < csrf.Length ==>
        csrf[i] == if exists k: nat :: Opens(old(sessions[..]), k, sessionToken, now) then Tried(old(csrf[i]), token) else old(csrf[i])
      ensures Audited(old(audited), audited, accepted)
    {
      hide Unique, Users, Ring;
      serial := 0;
      var session, decision := FindSession(sessionToken, now);
      if session.None? {
        Record(Audit(now, decision, None, Some(route), Some(operation)));
        return false, 0;
      }
      var user := sessions[session.value].user;
      var index := FindToken(token);
      if index == MAX_CSRF {
        Record(Audit(now, RejectAuth, Some(user), Some(route), Some(operation)));
        return false, 0;
      }
      var c := csrf[index];
      if c.used {
        decision := RejectReplay;
      } else if c.expiresAt <= now {
        decision := RejectExpired;
      } else if !TokenEqual(c.sessionToken, sessionToken) || c.route != route || c.operation != operation {
        decision := RejectScope;
      } else {
        decision := Accept;
      }
      TriedIs(sessions[..], csrf[..], index, token);
      OneSlot(sessions[..], csrf[..], index, token, sessionToken, route, operation, now);
      UsedUnique(sessions[..], csrf[..], index);
      UsedTraced(csrf[..], serials, issues, consumed, index);
      serial := serials[index];
      Use(index);
      Record(Audit(now, decision, Some(user), Some(route), Some(operation)));
      accepted := decision == Accept;
    }

    /** The slot of an active token, or the end. */
    method FindToken(token: Text) returns (index: nat)
      requires csrf.Length == MAX_CSRF
      ensures index <= MAX_CSRF && (index < MAX_CSRF ==> csrf[index].active && TokenEqual(csrf[index].token, token))
      ensures forall k :: 0 <= k < index ==> !(csrf[k].active && TokenEqual(csrf[k].token, token))
    {
      index := 0;
      while index < MAX_CSRF && !(csrf[index].active && TokenEqual(csrf[index].token, token))
        invariant index <= MAX_CSRF && forall k :: 0 <= k < index ==> !(csrf[k].active && TokenEqual(csrf[k].token, token))
      {
        index := index + 1;
      }
    }

    method Use(index: nat)
      requires csrf.Length == MAX_CSRF && index < MAX_CSRF && |serials| == MAX_CSRF && Ring()
      modifies this`consumed, csrf
      ensures Ring()
      ensures csrf[..] == old(csrf[..])[index := old(csrf[index]).(used := true)] && consumed == old(consumed) + {serials[index]}
    {
      csrf[index] := csrf[index].(used := true);
      consumed := consumed + {serials[index]};
    }

    /** `wena_security_session_revoke`. */
    method Revoke(token: Text)
      requires Valid()
      modifies sessions
      ensures Valid()
      ensures forall i :: 0 <= i < sessions.Length ==> sessions[i] == Revoked(old(sessions[i]), token)
    {
      hide Traced, Ring, Users;
      for i := 0 to sessions.Length
        invariant Valid()
        invariant forall k :: 0 <= k < i ==> sessions[k] == Revoked(old(sessions[k]), token)
        invariant forall k :: i <= k < sessions.Length ==> sessions[k] == old(sessions[k])
      {
        if sessions[i].active && TokenEqual(sessions[i].token, token) {
          ghost var before := sessions[..];
          ClosedUnique(before, csrf[..], i);
          ClosedUsers(before, i);
          sessions[i] := sessions[i].(active := false);
          assert sessions[..] == before[i := sessions[i]];
        }
      }
    }
  }

  /** The slot with the token is the only one that could be consumed. */
  lemma OneSlot(sessions: seq<Session>, csrf: seq<Csrf>, i: nat, token: Text, sessionToken: Text, route: Text, operation: Text, now: nat)
    requires Unique(sessions, csrf) && i < |csrf| && csrf[i].active && TokenEqual(csrf[i].token, token)
    ensures (exists k: nat :: Consumable(csrf, k, token, sessionToken, route, operation, now))
       <==> Consumable(csrf, i, token, sessionToken, route, operation, now)
  {
  }

  lemma TriedIs(sessions: seq<Session>, csrf: seq<Csrf>, i: nat, token: Text)
    requires Unique(sessions, csrf) && i < |csrf| && csrf[i].active && TokenEqual(csrf[i].token, token)
    ensures forall k :: 0 <= k < |csrf| ==> csrf[i := csrf[i].(used := true)][k] == Tried(csrf[k], token)
  {
  }

  lemma ClosedUsers(sessions: seq<Session>, i: nat)
    requires Users(sessions) && i < |sessions|
    ensures Users(sessions[i := sessions[i].(active := false)])
  {
  }

  lemma OpenedUsers(sessions: seq<Session>, i: nat, s: Session)
    requires Users(sessions) && i < |sessions| && 0 < |s.user| < 65
    ensures Users(sessions[i := s])
  {
  }

  lemma NextPlace(n: nat)
    ensures (n % MAX_AUDIT + 1) % MAX_AUDIT == (n + 1) % MAX_AUDIT
  {
  }

  lemma OtherPlace(k: int, n: nat)
    requires 0 <= k < n < k + MAX_AUDIT
    ensures k % MAX_AUDIT != n % MAX_AUDIT
  {
  }

  lemma LastPlace(n: nat)
    requires 0 < n
    ensures (n % MAX_AUDIT + MAX_AUDIT - 1) % MAX_AUDIT == (n - 1) % MAX_AUDIT
  {
  }
}
