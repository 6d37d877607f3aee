/** Sliding browser sessions and one-time link tokens on values (src/auth/account-store.ts:143-295). */
module Sessions {
  import opened Lists

  const REFRESH_AFTER_MS := 60_000

  /** A row of `sessions`; times in milliseconds. */
  datatype Session = Session(id: string, userId: string, createdAt: int, expiresAt: int, lastSeenAt: int)

  /** Keyed by the cookie value, whose SHA-256 the source stores, taken as injective. */
  type Table = map<string, Session>

  function Purge(t: Table, now: int): Table {
    map k | k in t && t[k].expiresAt > now :: t[k]
  }

  function Create(t: Table, secret: string, id: string, userId: string, ttl: int, now: int): Table {
    Purge(t, now)[secret := Session(id, userId, now, now + ttl, now)]
  }

  /** `sessionResolve`: the record carries the sliding expiry whether or not the row was refreshed. */
  function Resolve(t: Table, secret: string, ttl: int, now: int): (Table, Option<Session>) {
    if secret !in t then (t, None)
    else if t[secret].expiresAt <= now then (t - {secret}, None)
    else
      var seen := t[secret].(lastSeenAt := now, expiresAt := now + ttl);
      (if now - t[secret].lastSeenAt > REFRESH_AFTER_MS then t[secret := seen] else t, Some(seen))
  }

  /** `sessionRevoke`: one public id of the user, or all of them. */
  function Revoke(t: Table, userId: string, id: Option<string>): Table {
    map k | k in t && !(t[k].userId == userId && (id.None? || t[k].id == id.value)) :: t[k]
  }

  /** `sessionAlive`: the public id belongs to the user and has not expired. */
  ghost predicate Alive(t: Table, userId: string, id: string, now: int) {
    exists k :: k in t && t[k].id == id && t[k].userId == userId && t[k].expiresAt > now
  }

  /** A revocation reaches no other session. */
  lemma RevokeSparesOthers(t: Table, userId: string, id: string, u: string, i: string, now: int)
    requires Alive(t, u, i, now) && (u != userId || i != id)
    ensures Alive(Revoke(t, userId, Some(id)), u, i, now)
  {
    var k :| k in t && t[k].id == i && t[k].userId == u && t[k].expiresAt > now;
    assert Revoke(t, userId, Some(id))[k] == t[k];
  }

  // ----------------------------------------------------------------------------- runs

  datatype Op =
    | DoCreate(secret: string, id: string, userId: string)
    | DoResolve(secret: string)
    | DoPurge
    | DoDelete(secret: string)
    | DoRevoke(userId: string, only: Option<string>)

  datatype Timed = Timed(op: Op, now: int)

  function Apply(t: Table, ttl: int, e: Timed): Table {
    match e.op
    case DoCreate(secret, id, userId) => Create(t, secret, id, userId, ttl, e.now)
    case DoResolve(secret) => Resolve(t, secret, ttl, e.now).0
    case DoPurge => Purge(t, e.now)
    case DoDelete(secret) => t - {secret}
    case DoRevoke(userId, only) => Revoke(t, userId, only)
  }

  function Run(t: Table, ttl: int, run: seq<Timed>): Table {
    if run == [] then t else Apply(Run(t, ttl, run[..|run| - 1]), ttl, run[|run| - 1])
  }

  /** No row of the user has this public id. */
  ghost predicate Gone(t: Table, userId: string, id: string) {
    forall k :: k in t ==> !(t[k].id == id && t[k].userId == userId)
  }

  lemma {:induction false} RunStaysGone(t: Table, ttl: int, run: seq<Timed>, userId: string, id: string)
    requires Gone(t, userId, id)
    requires forall i :: 0 <= i < |run| && run[i].op.DoCreate? ==> run[i].op.id != id
    ensures Gone(Run(t, ttl, run), userId, id)
  {
    if run != [] {
      var front := run[..|run| - 1];
      assert forall i :: 0 <= i < |front| ==> front[i] == run[i];
      RunStaysGone(t, ttl, front, userId, id);
    }
  }

  /**
   A session that was revoked, alone or with all of the user's, is not alive at any moment of any run that
   follows, since public ids are not issued twice.
   */
  lemma RevokedIsDead(t: Table, ttl: int, userId: string, id: string, only: Option<string>, run: seq<Timed>, now: int)
    requires only == None || only == Some(id)
    requires forall i :: 0 <= i < |run| && run[i].op.DoCreate? ==> run[i].op.id != id
    ensures !Alive(Run(Revoke(t, userId, only), ttl, run), userId, id, now)
  {
    RunStaysGone(Revoke(t, userId, only), ttl, run, userId, id);
  }

  predicate Uses(e: Timed, secret: string) {
    e.op == DoResolve(secret)
  }

  /** Session `secret` was last used at `last`, and its row says so up to a minute. */
  ghost predicate Slides(t: Table, secret: string, ttl: int, last: int) {
    secret in t ==>
      t[secret].expiresAt == t[secret].lastSeenAt + ttl &&
        t[secret].lastSeenAt <= last <= t[secret].lastSeenAt + REFRESH_AFTER_MS
  }

  /** When `secret` was last used in `run`, starting from a use at `last`. */
  function LastUse(run: seq<Timed>, secret: string, last: int): int {
    if run == [] then last
    else if Uses(run[|run| - 1], secret) then run[|run| - 1].now
    else LastUse(run[..|run| - 1], secret, last)
  }

  /** A run after a use at `last`: clocks do not go back and the cookie value is not issued again. */
  ghost predicate Fits(run: seq<Timed>, secret: string, last: int) {
    && (forall i :: 0 <= i < |run| ==> last <= run[i].now && !(run[i].op.DoCreate? && run[i].op.secret == secret))
    && forall i, j :: 0 <= i < j < |run| ==> run[i].now <= run[j].now
  }

  lemma {:induction false} LastUseInPast(run: seq<Timed>, secret: string, last: int, now: int)
    requires Fits(run, secret, last) && last <= now && forall i :: 0 <= i < |run| ==> run[i].now <= now
    ensures last <= LastUse(run, secret, last) <= now
  {
    if run != [] {
      LastUseInPast(run[..|run| - 1], secret, last, now);
    }
  }

  lemma {:induction false} RunSlides(t: Table, ttl: int, run: seq<Timed>, secret: string, last: int)
    requires Slides(t, secret, ttl, last) && Fits(run, secret, last)
    ensures Slides(Run(t, ttl, run), secret, ttl, LastUse(run, secret, last))
  {
    if run != [] {
      var front, e := run[..|run| - 1], run[|run| - 1];
      assert forall i :: 0 <= i < |front| ==> front[i] == run[i];
      RunSlides(t, ttl, front, secret, last);
      LastUseInPast(front, secret, last, e.now);
    }
  }

  /** No revocation and no deletion in the run hits the session's row. */
  ghost predicate Spared(t: Table, ttl: int, run: seq<Timed>, secret: string) {
    forall i :: 0 <= i < |run| && (run[i].op.DoRevoke? || run[i].op.DoDelete?) && secret in Run(t, ttl, run[..i]) ==>
      secret in Apply(Run(t, ttl, run[..i]), ttl, run[i])
  }

  /** Everything in the run happens less than `ttl` minus a minute after the last use before it. */
  ghost predicate Busy(run: seq<Timed>, secret: string, ttl: int, last: int) {
    forall i :: 0 <= i < |run| ==> run[i].now - LastUse(run[..i], secret, last) < ttl - REFRESH_AFTER_MS
  }

  lemma PrefixFits(t: Table, ttl: int, run: seq<Timed>, secret: string, last: int, n: nat)
    requires Fits(run, secret, last) && Busy(run, secret, ttl, last) && Spared(t, ttl, run, secret) && n <= |run|
    ensures Fits(run[..n], secret, last) && Busy(run[..n], secret, ttl, last) && Spared(t, ttl, run[..n], secret)
  {
    var front := run[..n];
    assert forall i :: 0 <= i < n ==> front[i] == run[i] && front[..i] == run[..i];
    forall i | 0 <= i < n ensures front[i].now - LastUse(front[..i], secret, last) < ttl - REFRESH_AFTER_MS {
      assert run[i].now - LastUse(run[..i], secret, last) < ttl - REFRESH_AFTER_MS;
    }
  }

  lemma {:induction false} BusyPresent(t: Table, ttl: int, run: seq<Timed>, secret: string, last: int, n: nat)
    requires secret in t && Slides(t, secret, ttl, last)
    requires Fits(run, secret, last) && Busy(run, secret, ttl, last) && Spared(t, ttl, run, secret) && n <= |run|
    ensures secret in Run(t, ttl, run[..n])
    ensures n < |run| ==> Run(t, ttl, run[..n])[secret].expiresAt > run[n].now
    decreases n
  {
    if n > 0 {
      BusyPresent(t, ttl, run, secret, last, n - 1);
      assert run[..n][..n - 1] == run[..n - 1] && run[..n][n - 1] == run[n - 1];
      assert secret in Apply(Run(t, ttl, run[..n - 1]), ttl, run[n - 1]);
    }
    PrefixFits(t, ttl, run, secret, last, n);
    RunSlides(t, ttl, run[..n], secret, last);
    if n < |run| {
      assert run[n].now - LastUse(run[..n], secret, last) < ttl - REFRESH_AFTER_MS;
    }
  }

  /**
   A session used with gaps below ttl minus a minute is never lost, whatever else runs in between:
   every use resolves it.
   */
  lemma BusySessionSurvives(t: Table, ttl: int, run: seq<Timed>, secret: string, last: int)
    requires secret in t && Slides(t, secret, ttl, last)
    requires Fits(run, secret, last) && Busy(run, secret, ttl, last) && Spared(t, ttl, run, secret)
    ensures secret in Run(t, ttl, run)
    ensures forall i :: 0 <= i < |run| && Uses(run[i], secret) ==>
      Resolve(Run(t, ttl, run[..i]), secret, ttl, run[i].now).1.Some?
  {
    BusyPresent(t, ttl, run, secret, last, |run|);
    assert run[..|run|] == run;
    forall i | 0 <= i < |run| && Uses(run[i], secret)
      ensures Resolve(Run(t, ttl, run[..i]), secret, ttl, run[i].now).1.Some?
    {
      BusyPresent(t, ttl, run, secret, last, i);
    }
  }

  /** A session nobody used for ttl does not resolve, and never again after that. */
  lemma {:induction false} IdleSessionIsGone(t: Table, ttl: int, run: seq<Timed>, secret: string, last: int, k: nat,
                                             j: nat)
    requires Slides(t, secret, ttl, last) && Fits(run, secret, last)
    requires k <= j < |run| && Uses(run[k], secret) && Uses(run[j], secret)
    requires run[k].now >= LastUse(run[..k], secret, last) + ttl
    ensures Resolve(Run(t, ttl, run[..j]), secret, ttl, run[j].now).1.None?
    decreases j
  {
    assert Fits(run[..k], secret, last);
    RunSlides(t, ttl, run[..k], secret, last);
    if k < j {
      StaysGone(t, ttl, run, secret, last, k, j);
    }
  }

  lemma {:induction false} StaysGone(t: Table, ttl: int, run: seq<Timed>, secret: string, last: int, k: nat, j: nat)
    requires Fits(run, secret, last) && k < j <= |run| && Uses(run[k], secret)
    requires secret in Run(t, ttl, run[..k]) ==> Run(t, ttl, run[..k])[secret].expiresAt <= run[k].now
    ensures secret !in Run(t, ttl, run[..j])
    decreases j
  {
    assert run[..j][..j - 1] == run[..j - 1];
    assert run[..j][j - 1] == run[j - 1];
    if k + 1 < j {
      StaysGone(t, ttl, run, secret, last, k, j - 1);
    }
  }

  /** The expiry a use reports is at most a minute later than the one stored, and never earlier. */
  lemma ReportedExpiryClose(t: Table, secret: string, ttl: int, last: int, now: int)
    requires Slides(t, secret, ttl, last) && last <= now
    requires Resolve(t, secret, ttl, now).1.Some?
    ensures var (after, view) := Resolve(t, secret, ttl, now);
      && secret in after && after[secret].id == view.value.id == t[secret].id && view.value.userId == t[secret].userId
      && after[secret].expiresAt <= view.value.expiresAt <= after[secret].expiresAt + REFRESH_AFTER_MS
      && Slides(after, secret, ttl, now)
  {
  }

  /** The gap bound is the best possible: a gap of exactly ttl minus a minute can lose the session. */
  lemma GapBoundIsTight(secret: string, ttl: int)
    requires ttl > REFRESH_AFTER_MS
    ensures var t := Create(map[], secret, "sess_1", "user_1", ttl, 0);
      var used := Resolve(t, secret, ttl, REFRESH_AFTER_MS);
      && used.1.Some?
      && Resolve(used.0, secret, ttl, REFRESH_AFTER_MS + (ttl - REFRESH_AFTER_MS)).1.None?
  {
  }

  // ------------------------------------------------------------------- one-time tokens

  datatype Kind = Invite | Magic | Reset

  datatype LinkToken = LinkToken(userId: string, kind: Kind, expiresAt: int)

  type Tokens = map<string, LinkToken>

  function Peek(t: Tokens, token: string, now: int): Option<LinkToken> {
    if token in t && t[token].expiresAt > now then Some(t[token]) else None
  }

  /** The second half of a consume: spend the row if it is still there. */
  function Spend(t: Tokens, token: string): (Tokens, bool) {
    (t - {token}, token in t)
  }

  /** Steps of any number of overlapping consumes, in the order they reach the table. */
  datatype TokenStep =
    | DoIssue(token: string, row: LinkToken)
    | DoSpend(token: string)
    | DoSweep(now: int)
    | DoDrop(userId: string, only: Option<Kind>)

  function TokenApply(t: Tokens, s: TokenStep): Tokens {
    match s
    case DoIssue(token, row) => t[token := row]
    case DoSpend(token) => Spend(t, token).0
    case DoSweep(now) => map k | k in t && t[k].expiresAt > now :: t[k]
    case DoDrop(userId, only) =>
      map k | k in t && !(t[k].userId == userId && (only.None? || t[k].kind == only.value)) :: t[k]
  }

  function TokenRun(t: Tokens, steps: seq<TokenStep>): Tokens {
    if steps == [] then t else TokenApply(TokenRun(t, steps[..|steps| - 1]), steps[|steps| - 1])
  }

  /** Step `k` is a spend that found its row, so that its caller gets the record. */
  predicate Granted(t: Tokens, steps: seq<TokenStep>, k: nat, token: string)
    requires k < |steps|
  {
    steps[k] == DoSpend(token) && token in TokenRun(t, steps[..k])
  }

  lemma {:induction false} SpentStaysSpent(t: Tokens, steps: seq<TokenStep>, i: nat, k: nat, token: string)
    requires i < k <= |steps| && steps[i] == DoSpend(token)
    requires forall j :: i < j < k ==> !(steps[j].DoIssue? && steps[j].token == token)
    ensures token !in TokenRun(t, steps[..k])
    decreases k
  {
    assert steps[..k][..k - 1] == steps[..k - 1];
    assert steps[..k][k - 1] == steps[k - 1];
    if i + 1 < k {
      SpentStaysSpent(t, steps, i, k - 1, token);
    }
  }

  /** However consumes of one token overlap, at most one of them is granted. */
  lemma TokenGrantedOnce(t: Tokens, steps: seq<TokenStep>, i: nat, k: nat, token: string)
    requires i < k < |steps|
    requires forall j :: 0 <= j < |steps| ==> !(steps[j].DoIssue? && steps[j].token == token)
    ensures !(Granted(t, steps, i, token) && Granted(t, steps, k, token))
  {
    if steps[i] == DoSpend(token) {
      SpentStaysSpent(t, steps, i, k, token);
    }
  }
}
