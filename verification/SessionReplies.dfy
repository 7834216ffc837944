/** Which requests are granted, and what each one leaves in the store: over runs from an empty store, and
    for any single step. */
module SessionReplies {
  import opened Sessions
  import opened Wrappers

  // ---- Who gets in ----

  /** The request registers this email. */
  predicate Registers(r: Request, e: Email) {
    r.Register? && r.email == e
  }

  /** Did the `i`-th request of the run register `e` as user `u`, and get its first token? */
  ghost predicate RegisteredAt(ttl: int, rs: seq<Request>, e: Email, u: UserId, i: nat) {
    i < |rs| && Registers(rs[i], e) && rs[i].id == u && ReplyTo(EMPTY, ttl, rs, i) == Issued(u, rs[i].drawn)
  }

  ghost predicate NeverRegistered(rs: seq<Request>, e: Email) {
    forall i :: 0 <= i < |rs| ==> !Registers(rs[i], e)
  }

  lemma ReplyToFront(ttl: int, rs: seq<Request>, i: nat)
    requires i < |rs| - 1
    ensures ReplyTo(EMPTY, ttl, rs[..|rs| - 1], i) == ReplyTo(EMPTY, ttl, rs, i)
  {
    assert rs[..|rs| - 1][..i] == rs[..i];
  }

  /** Only a registration of this email changes its entry, and only if it is the first. */
  lemma UserAfterStep(s: Store, ttl: int, r: Request, e: Email)
    ensures var after := Step(s, ttl, r).0.users;
      if Registers(r, e) && e !in s.users then e in after && after[e] == r.id
      else (e in after <==> e in s.users) && (e in s.users ==> after[e] == s.users[e])
    ensures Registers(r, e) ==> (Step(s, ttl, r).1 == Issued(r.id, r.drawn) <==> e !in s.users)
  {
    hide RevokeAll, Revoke, Active;
  }

  /** The users of a run are those whose registration was granted. */
  lemma {:induction false} UsersOfRun(ttl: int, rs: seq<Request>, e: Email, u: UserId)
    ensures var users := Run(EMPTY, ttl, rs).users;
      e in users && users[e] == u <==> exists i: nat :: RegisteredAt(ttl, rs, e, u, i)
    ensures e in Run(EMPTY, ttl, rs).users <==> !NeverRegistered(rs, e)
  {
    hide Step;
    if rs != [] {
      var n := |rs| - 1;
      var before := Run(EMPTY, ttl, rs[..n]);
      UsersOfRun(ttl, rs[..n], e, u);
      UserAfterStep(before, ttl, rs[n], e);
      assert forall i :: 0 <= i < n ==> rs[..n][i] == rs[i];
      forall i: nat | i < n ensures RegisteredAt(ttl, rs, e, u, i) <==> RegisteredAt(ttl, rs[..n], e, u, i) {
        ReplyToFront(ttl, rs, i);
      }
      assert RegisteredAt(ttl, rs, e, u, n) <==> Registers(rs[n], e) && rs[n].id == u && e !in before.users;
      if i: nat :| RegisteredAt(ttl, rs[..n], e, u, i) { assert RegisteredAt(ttl, rs, e, u, i); }
      if i: nat :| RegisteredAt(ttl, rs, e, u, i) {
        if i < n { assert RegisteredAt(ttl, rs[..n], e, u, i); }
      }
    }
  }

  /** A registration is granted exactly when no earlier request registered the email; it is a conflict
      otherwise. */
  lemma RegisterGrantedIff(ttl: int, rs: seq<Request>, e: Email, id: UserId, d: Hash, now: int)
    ensures Step(Run(EMPTY, ttl, rs), ttl, Register(e, id, d, now)).1
         == if NeverRegistered(rs, e) then Issued(id, d) else Conflict
  {
    hide Run;
    UsersOfRun(ttl, rs, e, id);
  }

  /** A login is granted to `u` exactly when the password is right and `u` registered the email in the run;
      otherwise it is refused. */
  lemma LoginGrantedIff(ttl: int, rs: seq<Request>, e: Email, passwordOk: bool, d: Hash, now: int, u: UserId)
    ensures var reply := Step(Run(EMPTY, ttl, rs), ttl, Login(e, passwordOk, d, now)).1;
      && (reply == Issued(u, d) <==> passwordOk && exists i: nat :: RegisteredAt(ttl, rs, e, u, i))
      && (reply == Unauthorized <==> !passwordOk || NeverRegistered(rs, e))
  {
    hide Run, RegisteredAt, NeverRegistered;
    UsersOfRun(ttl, rs, e, u);
  }

  /** Whoever has registered gets in with the right password, whatever was requested in between. */
  lemma RegisteredCanLogIn(ttl: int, rs: seq<Request>, i: nat, d: Hash, now: int)
    requires i < |rs| && rs[i].Register? && ReplyTo(EMPTY, ttl, rs, i) != Conflict
    ensures Step(Run(EMPTY, ttl, rs), ttl, Login(rs[i].email, true, d, now)).1 == Issued(rs[i].id, d)
  {
    hide Run;
    UserAfterStep(Run(EMPTY, ttl, rs[..i]), ttl, rs[i], rs[i].email);
    assert RegisteredAt(ttl, rs, rs[i].email, rs[i].id, i);
    LoginGrantedIff(ttl, rs, rs[i].email, true, d, now, rs[i].id);
  }

  // ---- What a request leaves behind ----

  /** The token that a request presents. */
  function Presented(r: Request): Option<Hash> {
    match r
    case Refresh(cookie, _, _) => cookie
    case Logout(cookie, _) => cookie
    case _ => None
  }

  /** Whatever is granted is stored under the drawn digest, for that user, unrevoked, until exactly one
      lifetime from now. Besides it, only a refresh changes anything: the token presented is revoked now. */
  lemma GrantStores(s: Store, ttl: int, r: Request)
    requires Step(s, ttl, r).1.Issued?
    ensures var (after, reply) := Step(s, ttl, r);
      && !r.Logout? && reply.token == r.drawn && r.drawn in after.tokens
      && after.tokens[r.drawn] == RefreshToken(reply.user, r.now + ttl, None)
      && (forall h :: h in after.tokens <==> h in s.tokens || h == r.drawn)
      && (forall h :: h in s.tokens && h != r.drawn && Presented(r) != Some(h) ==> after.tokens[h] == s.tokens[h])
      && (forall h :: h in s.tokens && h != r.drawn && Presented(r) == Some(h) ==>
            after.tokens[h] == RefreshToken(s.tokens[h].user, s.tokens[h].expiresAt, Some(r.now)))
  {
    hide RevokeAll;
  }

  /** Does the request present a token that was revoked before? */
  predicate Reuses(s: Store, r: Request) {
    r.Refresh? && r.cookie.Some? && r.cookie.value in s.tokens && s.tokens[r.cookie.value].revokedAt.Some?
  }

  /** A refused request that is not a reuse leaves the store as it was. */
  lemma RefusalChangesNothing(s: Store, ttl: int, r: Request)
    requires Step(s, ttl, r).1 in {Conflict, Unauthorized} && !Reuses(s, r)
    ensures Step(s, ttl, r).0 == s
  {
    hide RevokeAll, Revoke;
  }

  /** A reuse revokes, now, each unrevoked token of the owner, and nothing else. */
  lemma ReuseRevokesTheOwner(s: Store, ttl: int, r: Request)
    requires Reuses(s, r)
    ensures var (after, reply) := Step(s, ttl, r);
      && reply == Unauthorized && after.users == s.users && after.tokens.Keys == s.tokens.Keys
      && forall h :: h in s.tokens ==>
           var rt := s.tokens[h];
           after.tokens[h] == if rt.user == s.tokens[r.cookie.value].user && rt.revokedAt.None?
                              then RefreshToken(rt.user, rt.expiresAt, Some(r.now)) else rt
  {
  }

  /** A logout revokes, now, the token presented if it is unrevoked and unexpired, and nothing else. */
  lemma LogoutRevokesItsToken(s: Store, ttl: int, cookie: Option<Hash>, now: int)
    ensures var (after, reply) := Step(s, ttl, Logout(cookie, now));
      && reply == LoggedOut && after.users == s.users && after.tokens.Keys == s.tokens.Keys
      && forall h :: h in s.tokens ==>
           var rt := s.tokens[h];
           after.tokens[h] == if cookie == Some(h) && rt.revokedAt.None? && rt.expiresAt >= now
                              then RefreshToken(rt.user, rt.expiresAt, Some(now)) else rt
  {
  }
}
