/** Sessions: refresh tokens that rotate on every use, and what happens when an old one comes back.
    Each handler is one step over the stored users and tokens. */
module Sessions {
  import opened Order
  import opened Wrappers

  type UserId = int
  type Email = string
  type Hash = string  // the stored digest of a token

  datatype RefreshToken = RefreshToken(user: UserId, expiresAt: int, revokedAt: Option<int>)

  datatype Store = Store(users: map<Email, UserId>, tokens: map<Hash, RefreshToken>)

  /** A request, with what the outside world supplies: the clock, the digest of a newly drawn token,
      a new user id, the outcome of the password check. */
  datatype Request =
    | Register(email: Email, id: UserId, drawn: Hash, now: int)
    | Login(email: Email, passwordOk: bool, drawn: Hash, now: int)
    | Refresh(cookie: Option<Hash>, drawn: Hash, now: int)
    | Logout(cookie: Option<Hash>, now: int)

  datatype Reply = Issued(user: UserId, token: Hash) | Conflict | Unauthorized | LoggedOut

  // ---- The token table ----

  predicate Active(tokens: map<Hash, RefreshToken>, h: Hash, now: int) {
    h in tokens && tokens[h].revokedAt.None? && tokens[h].expiresAt >= now
  }

  function Revoke(tokens: map<Hash, RefreshToken>, h: Hash, now: int): map<Hash, RefreshToken>
    requires h in tokens
  {
    tokens[h := tokens[h].(revokedAt := Some(now))]
  }

  function RevokeAll(tokens: map<Hash, RefreshToken>, user: UserId, now: int): map<Hash, RefreshToken> {
    map h | h in tokens ::
      if tokens[h].user == user && tokens[h].revokedAt.None? then tokens[h].(revokedAt := Some(now)) else tokens[h]
  }

  function Issue(s: Store, ttl: int, user: UserId, drawn: Hash, now: int): (Store, Reply) {
    (s.(tokens := s.tokens[drawn := RefreshToken(user, now + ttl, None)]), Issued(user, drawn))
  }

  function Step(s: Store, ttl: int, r: Request): (Store, Reply) {
    match r
    case Register(email, id, drawn, now) =>
      if email in s.users then (s, Conflict)
      else Issue(s.(users := s.users[email := id]), ttl, id, drawn, now)
    case Login(email, passwordOk, drawn, now) =>
      if email !in s.users || !passwordOk then (s, Unauthorized)
      else Issue(s, ttl, s.users[email], drawn, now)
    case Refresh(cookie, drawn, now) =>
      if cookie.None? then (s, Unauthorized)
      else
        var h := cookie.value;
        if !Active(s.tokens, h, now) then
          if h in s.tokens && s.tokens[h].revokedAt.Some?
          then (s.(tokens := RevokeAll(s.tokens, s.tokens[h].user, now)), Unauthorized)
          else (s, Unauthorized)
        else if s.tokens[h].user !in s.users.Values then (s, Unauthorized)
        else Issue(s.(tokens := Revoke(s.tokens, h, now)), ttl, s.tokens[h].user, drawn, now)
    case Logout(cookie, now) =>
      if cookie.Some? && Active(s.tokens, cookie.value, now)
      then (s.(tokens := Revoke(s.tokens, cookie.value, now)), LoggedOut)
      else (s, LoggedOut)
  }

  // ---- The service itself ----

  /** The keys of a user's unrevoked tokens, in some order. */
  method SelectLive(tokens: map<Hash, RefreshToken>, user: UserId) returns (rows: seq<Hash>)
    ensures forall h :: h in rows <==> h in tokens && tokens[h].user == user && tokens[h].revokedAt.None?
  {
    rows := SetToSeq(set h | h in tokens && tokens[h].user == user && tokens[h].revokedAt.None?);
  }

  class AuthService {
    var users: map<Email, UserId>
    var tokens: map<Hash, RefreshToken>
    const ttl: int

    constructor (ttl: int)
      ensures State() == Store(map[], map[]) && this.ttl == ttl
    {
      users, tokens := map[], map[];
      this.ttl := ttl;
    }

    function State(): Store
      reads this
    {
      Store(users, tokens)
    }

    method CreateRefreshToken(user: UserId, h: Hash, expiresAt: int)
      modifies this`tokens
      ensures tokens == old(tokens)[h := RefreshToken(user, expiresAt, None)]
    {
      tokens := tokens[h := RefreshToken(user, expiresAt, None)];
    }

    method GetActiveRefreshToken(h: Hash, now: int) returns (rt: Option<RefreshToken>)
      ensures rt.Some? <==> Active(tokens, h, now)
      ensures rt.Some? ==> rt.value == tokens[h]
    {
      if h !in tokens || tokens[h].revokedAt.Some? { return None; }
      if tokens[h].expiresAt < now { return None; }
      rt := Some(tokens[h]);
    }

    method RevokeRefreshToken(h: Hash, now: int)
      requires h in tokens
      modifies this`tokens
      ensures tokens == Revoke(old(tokens), h, now)
    {
      tokens := tokens[h := tokens[h].(revokedAt := Some(now))];
    }

    /** Revoke the user's unrevoked tokens one by one, in whatever order the query returns them. */
    method RevokeAllUserRefreshTokens(user: UserId, now: int)
      modifies this`tokens
      ensures tokens == RevokeAll(old(tokens), user, now)
    {
      var rows := SelectLive(tokens, user);
      for i := 0 to |rows|
        invariant tokens.Keys == old(tokens).Keys
        invariant forall h :: h in tokens ==>
            tokens[h] == (if h in rows[..i] then RevokeAll(old(tokens), user, now)[h] else old(tokens)[h])
      {
        assert rows[..i + 1] == rows[..i] + [rows[i]];
        assert rows[i] in rows;
        tokens := tokens[rows[i] := tokens[rows[i]].(revokedAt := Some(now))];
      }
      assert rows[..|rows|] == rows;
    }

    method IssueSession(user: UserId, drawn: Hash, now: int) returns (reply: Reply)
      modifies this`tokens
      ensures (State(), reply) == Issue(old(State()), ttl, user, drawn, now)
    {
      CreateRefreshToken(user, drawn, now + ttl);
      reply := Issued(user, drawn);
    }

    method HandleRegister(email: Email, id: UserId, drawn: Hash, now: int) returns (reply: Reply)
      modifies this
      ensures (State(), reply) == Step(old(State()), ttl, Register(email, id, drawn, now))
    {
      if email in users { return Conflict; }
      users := users[email := id];
      reply := IssueSession(id, drawn, now);
    }

    method HandleLogin(email: Email, passwordOk: bool, drawn: Hash, now: int) returns (reply: Reply)
      modifies this
      ensures (State(), reply) == Step(old(State()), ttl, Login(email, passwordOk, drawn, now))
    {
      if email !in users { return Unauthorized; }
      if !passwordOk { return Unauthorized; }
      reply := IssueSession(users[email], drawn, now);
    }

    method HandleRefresh(cookie: Option<Hash>, drawn: Hash, now: int) returns (reply: Reply)
      modifies this
      ensures (State(), reply) == Step(old(State()), ttl, Refresh(cookie, drawn, now))
    {
      if cookie.None? { return Unauthorized; }
      var h := cookie.value;
      var rt := GetActiveRefreshToken(h, now);
      if rt.None? {
        if h in tokens && tokens[h].revokedAt.Some? {
          RevokeAllUserRefreshTokens(tokens[h].user, now);
        }
        return Unauthorized;
      }
      if rt.value.user !in users.Values { return Unauthorized; }
      RevokeRefreshToken(h, now);
      reply := IssueSession(rt.value.user, drawn, now);
    }

    method HandleLogout(cookie: Option<Hash>, now: int) returns (reply: Reply)
      modifies this
      ensures (State(), reply) == Step(old(State()), ttl, Logout(cookie, now))
    {
      if cookie.Some? {
        var rt := GetActiveRefreshToken(cookie.value, now);
        if rt.Some? { RevokeRefreshToken(cookie.value, now); }
      }
      reply := LoggedOut;
    }
  }

  // ---- Runs ----

  /** Newly drawn tokens and user ids have never been stored before. */
  ghost predicate Fresh(s: Store, r: Request) {
    match r
    case Register(_, id, drawn, _) => id !in s.users.Values && drawn !in s.tokens
    case Login(_, _, drawn, _) => drawn !in s.tokens
    case Refresh(_, drawn, _) => drawn !in s.tokens
    case Logout(_, _) => true
  }

  function Run(s: Store, ttl: int, rs: seq<Request>): Store {
    if rs == [] then s else Step(Run(s, ttl, rs[..|rs| - 1]), ttl, rs[|rs| - 1]).0
  }

  function ReplyTo(s: Store, ttl: int, rs: seq<Request>, i: nat): Reply
    requires i < |rs|
  {
    Step(Run(s, ttl, rs[..i]), ttl, rs[i]).1
  }

  ghost predicate Feasible(s: Store, ttl: int, rs: seq<Request>) {
    rs == [] || (Feasible(s, ttl, rs[..|rs| - 1]) && Fresh(Run(s, ttl, rs[..|rs| - 1]), rs[|rs| - 1]))
  }

  const EMPTY := Store(map[], map[])

  /** The lineage of each token in a run: a login or a registration starts one, a refresh continues
      that of the token it was given. A lineage is named after its first token. */
  ghost function Lineage(ttl: int, rs: seq<Request>): map<Hash, Hash> {
    if rs == [] then map[]
    else
      var before, r := rs[..|rs| - 1], rs[|rs| - 1];
      Extend(Run(EMPTY, ttl, before), ttl, Lineage(ttl, before), r)
  }

  ghost predicate SameLineage(lineage: map<Hash, Hash>, g: Hash, h: Hash) {
    g in lineage && h in lineage && lineage[g] == lineage[h]
  }

  predicate Live(tokens: map<Hash, RefreshToken>, h: Hash) {
    h in tokens && tokens[h].revokedAt.None?
  }

  /** At most one unrevoked token in each lineage. */
  ghost predicate OneLive(tokens: map<Hash, RefreshToken>, lineage: map<Hash, Hash>) {
    forall g, h :: SameLineage(lineage, g, h) && Live(tokens, g) && Live(tokens, h) ==> g == h
  }

  /** Tokens belong to known users, and to lineages named after known tokens. */
  ghost predicate Accounted(users: set<UserId>, tokens: map<Hash, RefreshToken>, lineage: map<Hash, Hash>) {
    && (forall h :: h in lineage <==> h in tokens)
    && (forall h :: h in tokens ==> tokens[h].user in users)
    && (forall h :: h in lineage ==> lineage[h] in tokens)
  }

  ghost predicate OneOwner(tokens: map<Hash, RefreshToken>, lineage: map<Hash, Hash>) {
    forall g, h :: SameLineage(lineage, g, h) && g in tokens && h in tokens ==> tokens[g].user == tokens[h].user
  }

  ghost predicate Invariant(s: Store, lineage: map<Hash, Hash>) {
    Accounted(s.users.Values, s.tokens, lineage) && OneOwner(s.tokens, lineage) && OneLive(s.tokens, lineage)
  }

  lemma NewUserKeepsInvariant(s: Store, lineage: map<Hash, Hash>, email: Email, id: UserId)
    requires Invariant(s, lineage) && email !in s.users
    ensures Invariant(s.(users := s.users[email := id]), lineage)
    ensures id in s.users[email := id].Values
  {
    var users := s.users[email := id];
    assert users[email] == id;
    forall h | h in s.tokens ensures s.tokens[h].user in users.Values {
      var e :| e in s.users && s.users[e] == s.tokens[h].user;
      assert e in users && users[e] == s.users[e];
    }
  }

  /** A session issued afresh starts a lineage of its own. */
  lemma IssueStartsLineage(s: Store, ttl: int, lineage: map<Hash, Hash>, user: UserId, drawn: Hash, now: int)
    requires Invariant(s, lineage) && user in s.users.Values && drawn !in s.tokens
    ensures Invariant(Issue(s, ttl, user, drawn, now).0, lineage[drawn := drawn])
  {
    hide OneOwner, OneLive;
    NewLineageIsAlone(s.tokens, lineage, drawn, RefreshToken(user, now + ttl, None));
  }

  lemma NewLineageIsAlone(tokens: map<Hash, RefreshToken>, lineage: map<Hash, Hash>, drawn: Hash, rt: RefreshToken)
    requires OneOwner(tokens, lineage) && OneLive(tokens, lineage) && forall h :: h in lineage <==> h in tokens
    requires drawn !in tokens && forall h :: h in lineage ==> lineage[h] in tokens
    ensures OneOwner(tokens[drawn := rt], lineage[drawn := drawn])
    ensures OneLive(tokens[drawn := rt], lineage[drawn := drawn])
  {
    var tokens', lineage' := tokens[drawn := rt], lineage[drawn := drawn];
    forall g, h | SameLineage(lineage', g, h) && g in tokens' && h in tokens'
      ensures tokens'[g].user == tokens'[h].user
    {
      AloneOrOld(tokens, lineage, drawn, g, h);
    }
    forall g, h | SameLineage(lineage', g, h) && Live(tokens', g) && Live(tokens', h) ensures g == h {
      AloneOrOld(tokens, lineage, drawn, g, h);
      if g != drawn { assert Live(tokens, g) && Live(tokens, h); }
    }
  }

  lemma AloneOrOld(tokens: map<Hash, RefreshToken>, lineage: map<Hash, Hash>, drawn: Hash, g: Hash, h: Hash)
    requires (forall f :: f in lineage <==> f in tokens) && drawn !in tokens
    requires forall f :: f in lineage ==> lineage[f] in tokens
    requires SameLineage(lineage[drawn := drawn], g, h)
    ensures (g == drawn && h == drawn) || (g != drawn && h != drawn && SameLineage(lineage, g, h))
  {
    assert g in lineage ==> lineage[g] in tokens;
    assert h in lineage ==> lineage[h] in tokens;
  }

  lemma RevokeKeepsInvariant(s: Store, tokens: map<Hash, RefreshToken>, lineage: map<Hash, Hash>)
    requires Invariant(s, lineage) && tokens.Keys == s.tokens.Keys
    requires forall h :: h in tokens ==> tokens[h].user == s.tokens[h].user && (Live(tokens, h) ==> Live(s.tokens, h))
    ensures Invariant(s.(tokens := tokens), lineage)
  {
  }

  /** The tokens after rotating `h` into `drawn`. */
  function Rotate(tokens: map<Hash, RefreshToken>, h: Hash, drawn: Hash, expiresAt: int,
                  now: int): map<Hash, RefreshToken>
    requires h in tokens
  {
    Revoke(tokens, h, now)[drawn := RefreshToken(tokens[h].user, expiresAt, None)]
  }

  lemma JoinedLineage(lineage: map<Hash, Hash>, h: Hash, drawn: Hash, f: Hash, g: Hash)
    requires h in lineage && drawn !in lineage && SameLineage(lineage[drawn := lineage[h]], f, g)
    ensures SameLineage(lineage, if f == drawn then h else f, if g == drawn then h else g)
  {
  }

  lemma RotateKeepsOneOwner(tokens: map<Hash, RefreshToken>, lineage: map<Hash, Hash>, h: Hash, drawn: Hash,
                            expiresAt: int, now: int)
    requires OneOwner(tokens, lineage) && h in tokens && h in lineage && drawn !in lineage && drawn !in tokens
    ensures OneOwner(Rotate(tokens, h, drawn, expiresAt, now), lineage[drawn := lineage[h]])
  {
    var after, lineage' := Rotate(tokens, h, drawn, expiresAt, now), lineage[drawn := lineage[h]];
    forall f, g | SameLineage(lineage', f, g) && f in after && g in after ensures after[f].user == after[g].user {
      JoinedLineage(lineage, h, drawn, f, g);
    }
  }

  lemma RotateKeepsOneLive(tokens: map<Hash, RefreshToken>, lineage: map<Hash, Hash>, h: Hash, drawn: Hash,
                           expiresAt: int, now: int)
    requires OneLive(tokens, lineage) && Live(tokens, h) && h in lineage && drawn !in lineage && drawn !in tokens
    ensures OneLive(Rotate(tokens, h, drawn, expiresAt, now), lineage[drawn := lineage[h]])
  {
    var after, lineage' := Rotate(tokens, h, drawn, expiresAt, now), lineage[drawn := lineage[h]];
    forall f, g | SameLineage(lineage', f, g) && Live(after, f) && Live(after, g) ensures f == g {
      JoinedLineage(lineage, h, drawn, f, g);
      assert f != drawn ==> Live(tokens, f) && f != h;
      assert g != drawn ==> Live(tokens, g) && g != h;
    }
  }

  lemma RotateKeepsAccounts(users: set<UserId>, tokens: map<Hash, RefreshToken>, lineage: map<Hash, Hash>,
                            h: Hash, drawn: Hash, expiresAt: int, now: int)
    requires Accounted(users, tokens, lineage) && h in tokens
    ensures h in lineage && (drawn in lineage <==> drawn in tokens)
    ensures Accounted(users, Rotate(tokens, h, drawn, expiresAt, now), lineage[drawn := lineage[h]])
  {
    var after, lineage' := Rotate(tokens, h, drawn, expiresAt, now), lineage[drawn := lineage[h]];
    forall g | g in after ensures after[g].user in users {
      assert after[g].user == tokens[if g == drawn then h else g].user;
    }
    forall g | g in lineage' ensures lineage'[g] in tokens {
      assert lineage'[g] == lineage[if g == drawn then h else g];
    }
  }

  /** A session issued on a rotated token continues that token's lineage, which has no other live token. */
  lemma IssueContinuesLineage(s: Store, ttl: int, lineage: map<Hash, Hash>, h: Hash, drawn: Hash, now: int)
    requires Invariant(s, lineage) && Live(s.tokens, h) && drawn !in s.tokens
    ensures h in lineage
    ensures Invariant(Issue(s.(tokens := Revoke(s.tokens, h, now)), ttl, s.tokens[h].user, drawn, now).0,
                      lineage[drawn := lineage[h]])
  {
    hide OneOwner, OneLive, Accounted;
    RotateKeepsAccounts(s.users.Values, s.tokens, lineage, h, drawn, now + ttl, now);
    RotateKeepsOneOwner(s.tokens, lineage, h, drawn, now + ttl, now);
    RotateKeepsOneLive(s.tokens, lineage, h, drawn, now + ttl, now);
  }

  /** In every reachable state each lineage holds at most one unrevoked token. */
  lemma {:induction false} OneLiveTokenPerLineage(ttl: int, rs: seq<Request>)
    requires Feasible(EMPTY, ttl, rs)
    ensures Invariant(Run(EMPTY, ttl, rs), Lineage(ttl, rs))
  {
    hide Invariant;
    if rs == [] {
      assert Invariant(EMPTY, map[]) by { EmptyInvariant(); }
    } else {
      OneLiveTokenPerLineage(ttl, rs[..|rs| - 1]);
      StepKeepsInvariant(Run(EMPTY, ttl, rs[..|rs| - 1]), ttl, Lineage(ttl, rs[..|rs| - 1]), rs[|rs| - 1]);
    }
  }

  lemma EmptyInvariant()
    ensures Invariant(EMPTY, map[])
  {
  }

  /** How a request extends the lineages. */
  ghost function Extend(s: Store, ttl: int, lineage: map<Hash, Hash>, r: Request): map<Hash, Hash> {
    var reply := Step(s, ttl, r).1;
    if !reply.Issued? then lineage
    else if r.Refresh? && r.cookie.Some? && r.cookie.value in lineage
    then lineage[reply.token := lineage[r.cookie.value]]
    else lineage[reply.token := reply.token]
  }

  lemma StepKeepsInvariant(s: Store, ttl: int, lineage: map<Hash, Hash>, r: Request)
    requires Invariant(s, lineage) && Fresh(s, r)
    ensures Invariant(Step(s, ttl, r).0, Extend(s, ttl, lineage, r))
  {
    hide Invariant, Issue, Revoke, RevokeAll;
    match r
    case Register(email, id, drawn, now) =>
      if email !in s.users {
        NewUserKeepsInvariant(s, lineage, email, id);
        IssueStartsLineage(s.(users := s.users[email := id]), ttl, lineage, id, drawn, now);
        IssueReplies(s.(users := s.users[email := id]), ttl, id, drawn, now);
      }
    case Login(email, passwordOk, drawn, now) =>
      if email in s.users && passwordOk {
        IssueStartsLineage(s, ttl, lineage, s.users[email], drawn, now);
        IssueReplies(s, ttl, s.users[email], drawn, now);
      }
    case Refresh(cookie, drawn, now) =>
      if cookie.Some? && cookie.value in s.tokens {
        var h := cookie.value;
        if Active(s.tokens, h, now) {
          IssueContinuesLineage(s, ttl, lineage, h, drawn, now);
          IssueReplies(s.(tokens := Revoke(s.tokens, h, now)), ttl, s.tokens[h].user, drawn, now);
        } else {
          RevokingKeepsInvariant(s, lineage, h, s.tokens[h].user, now);
        }
      }
    case Logout(cookie, now) =>
      if cookie.Some? && cookie.value in s.tokens { RevokingKeepsInvariant(s, lineage, cookie.value, 0, now); }
  }

  lemma IssueReplies(s: Store, ttl: int, user: UserId, drawn: Hash, now: int)
    ensures Issue(s, ttl, user, drawn, now).1 == Issued(user, drawn)
  {
  }

  lemma RevokingKeepsInvariant(s: Store, lineage: map<Hash, Hash>, h: Hash, user: UserId, now: int)
    requires Invariant(s, lineage) && h in s.tokens
    ensures Invariant(s.(tokens := Revoke(s.tokens, h, now)), lineage)
    ensures Invariant(s.(tokens := RevokeAll(s.tokens, user, now)), lineage)
  {
    hide Invariant;
    RevokeKeepsInvariant(s, Revoke(s.tokens, h, now), lineage);
    RevokeKeepsInvariant(s, RevokeAll(s.tokens, user, now), lineage);
  }

  /** Stored tokens only ever change by being revoked, once. */
  ghost predicate OnlyRevoked(before: map<Hash, RefreshToken>, after: map<Hash, RefreshToken>) {
    forall h :: h in before ==>
      && h in after && after[h].user == before[h].user && after[h].expiresAt == before[h].expiresAt
      && (before[h].revokedAt.Some? ==> after[h] == before[h])
  }

  lemma StepOnlyRevokes(s: Store, ttl: int, r: Request)
    requires Fresh(s, r)
    ensures OnlyRevoked(s.tokens, Step(s, ttl, r).0.tokens)
  {
  }

  lemma {:induction false} RunSplit(s: Store, ttl: int, rs: seq<Request>, more: seq<Request>)
    ensures Run(s, ttl, rs + more) == Run(Run(s, ttl, rs), ttl, more)
    ensures Feasible(s, ttl, rs + more) <==> Feasible(s, ttl, rs) && Feasible(Run(s, ttl, rs), ttl, more)
  {
    if more == [] {
      assert rs + more == rs;
    } else {
      assert (rs + more)[..|rs + more| - 1] == rs + more[..|more| - 1];
      RunSplit(s, ttl, rs, more[..|more| - 1]);
    }
  }

  /** Over any run a revocation time, once set, never changes, and no token disappears. */
  lemma {:induction false} RevocationIsFinal(s: Store, ttl: int, rs: seq<Request>)
    requires Feasible(s, ttl, rs)
    ensures OnlyRevoked(s.tokens, Run(s, ttl, rs).tokens)
  {
    if rs != [] {
      RevocationIsFinal(s, ttl, rs[..|rs| - 1]);
      StepOnlyRevokes(Run(s, ttl, rs[..|rs| - 1]), ttl, rs[|rs| - 1]);
    }
  }

  ghost predicate RefreshedWith(s: Store, ttl: int, rs: seq<Request>, i: nat, h: Hash)
    requires i < |rs|
  {
    rs[i].Refresh? && rs[i].cookie == Some(h) && ReplyTo(s, ttl, rs, i).Issued?
  }

  /** Each token yields at most one successful refresh. */
  lemma OneRefreshPerToken(s: Store, ttl: int, rs: seq<Request>, i: nat, j: nat, h: Hash)
    requires Feasible(s, ttl, rs) && i < |rs| && j < |rs|
    requires RefreshedWith(s, ttl, rs, i, h) && RefreshedWith(s, ttl, rs, j, h)
    ensures i == j
  {
    if i < j { NoSecondRefresh(s, ttl, rs, i, j, h); }
    if j < i { NoSecondRefresh(s, ttl, rs, j, i, h); }
  }

  /** After a successful refresh the token it used is stored as revoked for the rest of the run. */
  lemma UsedTokenStaysRevoked(s: Store, ttl: int, rs: seq<Request>, i: nat, j: nat, h: Hash)
    requires Feasible(s, ttl, rs) && i < j < |rs| && RefreshedWith(s, ttl, rs, i, h)
    ensures var tokens := Run(s, ttl, rs[..j]).tokens; h in tokens && tokens[h].revokedAt.Some?
  {
    hide Feasible;
    var before, after := Run(s, ttl, rs[..i]), Run(s, ttl, rs[..i + 1]);
    assert rs[..i + 1][..i] == rs[..i];
    assert after == Step(before, ttl, rs[i]).0;
    FeasiblePrefix(s, ttl, rs, i + 1);
    FeasiblePrefix(s, ttl, rs, j);
    assert rs[..j] == rs[..i + 1] + rs[i + 1..j];
    RunSplit(s, ttl, rs[..i + 1], rs[i + 1..j]);
    RefreshRevokes(before, ttl, rs[i], h);
    RevocationIsFinal(after, ttl, rs[i + 1..j]);
  }

  lemma NoSecondRefresh(s: Store, ttl: int, rs: seq<Request>, i: nat, j: nat, h: Hash)
    requires Feasible(s, ttl, rs) && i < j < |rs| && RefreshedWith(s, ttl, rs, i, h)
    ensures !RefreshedWith(s, ttl, rs, j, h)
  {
    hide Feasible;
    UsedTokenStaysRevoked(s, ttl, rs, i, j, h);
    assert !Active(Run(s, ttl, rs[..j]).tokens, h, rs[j].now);
  }

  /** Whoever presents a used token again, however much later, is refused, and from then on its
      owner has no live token. */
  lemma ReplayIsDetected(s: Store, ttl: int, rs: seq<Request>, i: nat, j: nat, h: Hash)
    requires Feasible(s, ttl, rs) && i < j < |rs| && RefreshedWith(s, ttl, rs, i, h)
    requires rs[j].Refresh? && rs[j].cookie == Some(h)
    ensures ReplyTo(s, ttl, rs, j) == Unauthorized
    ensures h in Run(s, ttl, rs[..j]).tokens
    ensures NoLiveToken(Run(s, ttl, rs[..j + 1]), Run(s, ttl, rs[..j]).tokens[h].user)
  {
    hide Feasible;
    UsedTokenStaysRevoked(s, ttl, rs, i, j, h);
    assert rs[..j + 1][..j] == rs[..j];
    ReuseRevokesOwner(Run(s, ttl, rs[..j]), ttl, h, rs[j].drawn, rs[j].now);
  }

  lemma RefreshRevokes(s: Store, ttl: int, r: Request, h: Hash)
    requires Fresh(s, r) && r.Refresh? && r.cookie == Some(h) && Step(s, ttl, r).1.Issued?
    ensures var tokens := Step(s, ttl, r).0.tokens; h in tokens && tokens[h].revokedAt.Some?
  {
  }

  lemma FeasiblePrefix(s: Store, ttl: int, rs: seq<Request>, n: nat)
    requires Feasible(s, ttl, rs) && n <= |rs|
    ensures Feasible(s, ttl, rs[..n])
    ensures n > 0 ==> Fresh(Run(s, ttl, rs[..n - 1]), rs[n - 1])
  {
    hide Run, Fresh;
    var front := rs[..n];
    assert rs == front + rs[n..];
    RunSplit(s, ttl, front, rs[n..]);
    if n > 0 { assert front[..n - 1] == rs[..n - 1] && front[n - 1] == rs[n - 1]; }
  }

  /** A refresh is granted exactly for a stored token that is neither revoked nor past its expiry,
      and then to that token's own user. */
  lemma RefreshGrantedIff(ttl: int, rs: seq<Request>, h: Hash, drawn: Hash, now: int)
    requires Feasible(EMPTY, ttl, rs)
    ensures var s := Run(EMPTY, ttl, rs);
      var reply := Step(s, ttl, Refresh(Some(h), drawn, now)).1;
      && (reply.Issued? <==> h in s.tokens && s.tokens[h].revokedAt.None? && now <= s.tokens[h].expiresAt)
      && (reply.Issued? ==> reply.user == s.tokens[h].user && reply.token == drawn)
  {
    hide Lineage, Run, OneLive, OneOwner;
    OneLiveTokenPerLineage(ttl, rs);
  }

  /** A granted request hands out the drawn token, usable by its user until its lifetime ends, and
      leaves every token alone except the one it was given. */
  lemma IssuedTokenIsUsable(s: Store, ttl: int, r: Request, later: int)
    requires Fresh(s, r) && Step(s, ttl, r).1.Issued? && later <= r.now + ttl
    ensures var (s', reply) := Step(s, ttl, r);
      && Active(s'.tokens, reply.token, later) && s'.tokens[reply.token].user == reply.user
      && reply.token !in s.tokens
      && (forall h :: h in s.tokens && !(r.Refresh? && r.cookie == Some(h)) ==>
            h in s'.tokens && s'.tokens[h] == s.tokens[h])
  {
  }

  /** Whatever has happened before, the token that a granted request hands out can be exchanged by its
      user as the next step, until its lifetime ends. */
  lemma GrantedTokenCanBeExchanged(ttl: int, rs: seq<Request>, r: Request, drawn: Hash, now: int)
    requires Feasible(EMPTY, ttl, rs + [r]) && now <= r.now + ttl
    ensures var (s, reply) := Step(Run(EMPTY, ttl, rs), ttl, r);
      reply.Issued? ==> Step(s, ttl, Refresh(Some(reply.token), drawn, now)).1 == Issued(reply.user, drawn)
  {
    hide Step;
    var all := rs + [r];
    assert all[..|all| - 1] == rs;
    var (s, reply) := Step(Run(EMPTY, ttl, rs), ttl, r);
    assert Run(EMPTY, ttl, all) == s;
    if reply.Issued? {
      IssuedTokenIsUsable(Run(EMPTY, ttl, rs), ttl, r, now);
      RefreshGrantedIff(ttl, all, reply.token, drawn, now);
    }
  }

  // ---- Reuse ----

  ghost predicate NoLiveToken(s: Store, user: UserId) {
    forall h :: h in s.tokens && s.tokens[h].user == user ==> s.tokens[h].revokedAt.Some?
  }

  /** Presenting a revoked token is refused and shuts its owner out, and touches nobody else. */
  lemma ReuseRevokesOwner(s: Store, ttl: int, h: Hash, drawn: Hash, now: int)
    requires h in s.tokens && s.tokens[h].revokedAt.Some?
    ensures var owner := s.tokens[h].user; var (s', reply) := Step(s, ttl, Refresh(Some(h), drawn, now));
      && reply == Unauthorized && NoLiveToken(s', owner)
      && s'.users == s.users && s'.tokens.Keys == s.tokens.Keys
      && forall g :: g in s.tokens && s.tokens[g].user != owner ==> s'.tokens[g] == s.tokens[g]
  {
  }

  /** Does request `r` log `user` in again? */
  ghost predicate LogsIn(s: Store, r: Request, user: UserId) {
    r.Login? && r.passwordOk && r.email in s.users && s.users[r.email] == user
  }

  ghost predicate NeverLogsIn(s: Store, ttl: int, rs: seq<Request>, user: UserId) {
    forall i :: 0 <= i < |rs| ==> !LogsIn(Run(s, ttl, rs[..i]), rs[i], user)
  }

  lemma StepKeepsShutOut(s: Store, ttl: int, r: Request, user: UserId)
    requires NoLiveToken(s, user) && user in s.users.Values && Fresh(s, r) && !LogsIn(s, r, user)
    ensures NoLiveToken(Step(s, ttl, r).0, user) && user in Step(s, ttl, r).0.users.Values
    ensures Step(s, ttl, r).1.Issued? ==> Step(s, ttl, r).1.user != user
  {
    var s' := Step(s, ttl, r).0;
    var email :| email in s.users && s.users[email] == user;
    assert email in s'.users && s'.users[email] == user;
  }

  ghost predicate ShutOut(s: Store, user: UserId) {
    NoLiveToken(s, user) && user in s.users.Values
  }

  lemma {:induction false} ShutOutAfter(s: Store, ttl: int, rs: seq<Request>, user: UserId, n: nat)
    requires ShutOut(s, user) && n <= |rs|
    requires Feasible(s, ttl, rs) && NeverLogsIn(s, ttl, rs, user)
    ensures ShutOut(Run(s, ttl, rs[..n]), user)
    ensures n < |rs| && ReplyTo(s, ttl, rs, n).Issued? ==> ReplyTo(s, ttl, rs, n).user != user
  {
    hide Feasible, NoLiveToken, Step;
    if n > 0 {
      ShutOutAfter(s, ttl, rs, user, n - 1);
      assert rs[..n][..n - 1] == rs[..n - 1];
      FeasiblePrefix(s, ttl, rs, n);
      StepKeepsShutOut(Run(s, ttl, rs[..n - 1]), ttl, rs[n - 1], user);
    }
    if n < |rs| {
      FeasiblePrefix(s, ttl, rs, n + 1);
      StepKeepsShutOut(Run(s, ttl, rs[..n]), ttl, rs[n], user);
    }
  }

  /** Until the next login the owner stays shut out: no live token, and no request issues one. */
  lemma ShutOutUntilLogin(s: Store, ttl: int, rs: seq<Request>, user: UserId)
    requires ShutOut(s, user) && Feasible(s, ttl, rs) && NeverLogsIn(s, ttl, rs, user)
    ensures ShutOut(Run(s, ttl, rs), user)
    ensures forall i: nat :: i < |rs| && ReplyTo(s, ttl, rs, i).Issued? ==> ReplyTo(s, ttl, rs, i).user != user
  {
    hide Feasible, Step, Run, ShutOut, NeverLogsIn;
    assert rs[..|rs|] == rs;
    ShutOutAfter(s, ttl, rs, user, |rs|);
    forall i: nat | i < |rs| && ReplyTo(s, ttl, rs, i).Issued? ensures ReplyTo(s, ttl, rs, i).user != user {
      ShutOutAfter(s, ttl, rs, user, i);
    }
  }

  /** From step `from` to before step `to` nobody logs `user` in. */
  ghost predicate NoLoginBetween(ttl: int, rs: seq<Request>, from: nat, to: nat, user: UserId)
    requires to <= |rs|
  {
    forall i :: from <= i < to ==> !LogsIn(Run(EMPTY, ttl, rs[..i]), rs[i], user)
  }

  lemma RunOnward(ttl: int, rs: seq<Request>, from: nat, to: nat)
    requires from <= to <= |rs| && Feasible(EMPTY, ttl, rs)
    ensures Run(Run(EMPTY, ttl, rs[..from]), ttl, rs[from..to]) == Run(EMPTY, ttl, rs[..to])
    ensures Feasible(Run(EMPTY, ttl, rs[..from]), ttl, rs[from..to])
  {
    hide Run, Feasible;
    FeasiblePrefix(EMPTY, ttl, rs, to);
    assert rs[..to] == rs[..from] + rs[from..to];
    RunSplit(EMPTY, ttl, rs[..from], rs[from..to]);
  }

  /** In any run, when a revoked token is presented at step `j`, by whatever way it was revoked: the
      request is refused, no other user's token changes, and until somebody logs its owner in again the
      owner has no live token and is issued none. */
  lemma ReuseShutsOutOwner(ttl: int, rs: seq<Request>, j: nat, k: nat, h: Hash)
    requires Feasible(EMPTY, ttl, rs) && j < k <= |rs| && rs[j].Refresh? && rs[j].cookie == Some(h)
    requires var s := Run(EMPTY, ttl, rs[..j]);
      && h in s.tokens && s.tokens[h].revokedAt.Some?
      && NoLoginBetween(ttl, rs, j + 1, k, s.tokens[h].user)
    ensures var s, s' := Run(EMPTY, ttl, rs[..j]), Run(EMPTY, ttl, rs[..j + 1]); var owner := s.tokens[h].user;
      && ReplyTo(EMPTY, ttl, rs, j) == Unauthorized && s'.tokens.Keys == s.tokens.Keys
      && (forall g :: g in s.tokens && s.tokens[g].user != owner ==> s'.tokens[g] == s.tokens[g])
      && NoLiveToken(Run(EMPTY, ttl, rs[..k]), owner)
      && forall i: nat :: j < i < k && ReplyTo(EMPTY, ttl, rs, i).Issued? ==> ReplyTo(EMPTY, ttl, rs, i).user != owner
  {
    hide Run, Feasible, Step, NoLiveToken, LogsIn, Invariant, Lineage;
    var s, s' := Run(EMPTY, ttl, rs[..j]), Run(EMPTY, ttl, rs[..j + 1]);
    var owner := s.tokens[h].user;
    OneStep(ttl, rs, j);
    ReuseRevokesOwner(s, ttl, h, rs[j].drawn, rs[j].now);
    OwnerIsKnown(ttl, rs, j, h);
    var more := rs[j + 1..k];
    RunOnward(ttl, rs, j + 1, k);
    forall i: nat | i < |more|
      ensures Run(s', ttl, more[..i]) == Run(EMPTY, ttl, rs[..j + 1 + i]) && more[i] == rs[j + 1 + i]
    {
      RunOnward(ttl, rs, j + 1, j + 1 + i);
      assert more[..i] == rs[j + 1..j + 1 + i];
    }
    ShutOutUntilLogin(s', ttl, more, owner);
    forall i: nat | j < i < k && ReplyTo(EMPTY, ttl, rs, i).Issued? ensures ReplyTo(EMPTY, ttl, rs, i).user != owner {
      assert ReplyTo(s', ttl, more, i - j - 1) == ReplyTo(EMPTY, ttl, rs, i);
    }
  }

  lemma OneStep(ttl: int, rs: seq<Request>, j: nat)
    requires j < |rs|
    ensures Run(EMPTY, ttl, rs[..j + 1]) == Step(Run(EMPTY, ttl, rs[..j]), ttl, rs[j]).0
  {
    hide Step;
    assert rs[..j + 1][..j] == rs[..j];
  }

  lemma OwnerIsKnown(ttl: int, rs: seq<Request>, j: nat, h: Hash)
    requires Feasible(EMPTY, ttl, rs) && j <= |rs| && h in Run(EMPTY, ttl, rs[..j]).tokens
    ensures var s := Run(EMPTY, ttl, rs[..j]); s.tokens[h].user in s.users.Values
  {
    hide Run, Feasible, Lineage, OneLive, OneOwner;
    FeasiblePrefix(EMPTY, ttl, rs, j);
    OneLiveTokenPerLineage(ttl, rs[..j]);
  }

  /** Logging out is for good: the token is never accepted again, provided the clock does not go back. */
  lemma LogoutEndsToken(s: Store, ttl: int, rs: seq<Request>, h: Hash, now: int, drawn: Hash, later: int)
    requires h in s.tokens && now <= later
    requires Feasible(s, ttl, [Logout(Some(h), now)] + rs)
    ensures var s' := Run(s, ttl, [Logout(Some(h), now)] + rs);
      Step(s', ttl, Refresh(Some(h), drawn, later)).1 == Unauthorized
  {
    var out := [Logout(Some(h), now)];
    RunSplit(s, ttl, out, rs);
    assert out[..0] == [];
    var s1 := Step(s, ttl, out[0]).0;
    assert Run(s, ttl, out) == s1;
    RevocationIsFinal(s1, ttl, rs);
  }
}
