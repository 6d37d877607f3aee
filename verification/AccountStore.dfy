/** The account store's tables and the methods that update them (src/auth/account-store.ts). */
module AccountStore {
  import opened Lists
  import Accounts
  import Sessions
  import Text

  const INVITE_TTL_MS := 7 * 24 * 60 * 60 * 1000
  const MAGIC_LINK_TTL_MS := 15 * 60 * 1000

  /** Password hashing, as the ideal functions of the store. */
  datatype Hashing = Hashing(fits: (string, string) -> bool, hash: string -> string, outdated: string -> bool)

  function NormalizedEmail(email: string): string {
    Text.AsciiLowerAll(Text.Trim(email))
  }

  class AccountStore {
    const hashing: Hashing
    var credentials: map<string, string>
    var attempts: Accounts.Attempts
    var tokens: Sessions.Tokens
    var sessions: Sessions.Table
    var burned: Accounts.Burned

    constructor (hashing: Hashing)
      ensures this.hashing == hashing && Valid()
      ensures credentials == map[] && attempts == map[] && tokens == map[] && sessions == map[] && burned == map[]
    {
      this.hashing := hashing;
      credentials, attempts, tokens, sessions, burned := map[], map[], map[], map[], map[];
    }

    /** Public session ids are unique, and the attempt rows are ones the counter can reach. */
    ghost predicate Valid()
      reads this
    {
      && (forall a, b :: a in sessions && b in sessions && sessions[a].id == sessions[b].id ==> a == b)
      && Accounts.AttemptsOk(attempts)
    }

    predicate PasswordFits(userId: Option<string>, password: string)
      reads this
    {
      userId.Some? && userId.value in credentials && hashing.fits(password, credentials[userId.value])
    }

    /** A lock answers before the password is looked at; a success forgets the failures. */
    method PasswordVerify(email: string, userId: Option<string>, password: string, now: int)
      returns (verdict: Accounts.Verdict)
      requires Valid()
      modifies `attempts, `credentials
      ensures Valid()
      ensures (attempts, verdict)
           == Accounts.Verify(old(attempts), NormalizedEmail(email), now, old(PasswordFits(userId, password)))
      ensures verdict != Accounts.Right ==> credentials == old(credentials)
      ensures verdict == Accounts.Right ==>
        credentials == if hashing.outdated(old(credentials)[userId.value])
                       then old(credentials)[userId.value := hashing.hash(password)] else old(credentials)
    {
      var key := NormalizedEmail(email);
      if key in attempts && attempts[key].lockedUntil.Some? && attempts[key].lockedUntil.value > now {
        return Accounts.Locked;
      }
      if !PasswordFits(userId, password) {
        var failures := (if key in attempts then attempts[key].failures else 0) + 1;
        var lockedUntil :=
          if failures >= Accounts.SIGNIN_MAX_FAILURES then Some(now + Accounts.SIGNIN_LOCK_MS) else None;
        assert key in attempts ==> Accounts.AttemptOk(Some(attempts[key]));
        attempts := attempts[key := Accounts.Attempt(if lockedUntil.Some? then 0 else failures, lockedUntil)];
        return Accounts.Wrong;
      }
      attempts := attempts - {key};
      if hashing.outdated(credentials[userId.value]) {
        credentials := credentials[userId.value := hashing.hash(password)];
      }
      return Accounts.Right;
    }

    // -------------------------------------------------------------------- one-time tokens

    method Purge(now: int)
      requires Valid()
      modifies `tokens, `sessions
      ensures Valid()
      ensures tokens == Sessions.TokenApply(old(tokens), Sessions.DoSweep(now))
      ensures sessions == Sessions.Purge(old(sessions), now)
    {
      tokens := map k | k in tokens && tokens[k].expiresAt > now :: tokens[k];
      sessions := Sessions.Purge(sessions, now);
    }

    method SigninTokenIssue(token: string, userId: string, kind: Sessions.Kind, ttl: Option<int>, now: int)
      returns (expiresAt: int)
      requires Valid()
      modifies `tokens, `sessions
      ensures Valid()
      ensures expiresAt ==
        now + (if ttl.Some? then ttl.value else if kind.Magic? then MAGIC_LINK_TTL_MS else INVITE_TTL_MS)
      ensures tokens == Sessions.TokenRun(old(tokens),
        [Sessions.DoSweep(now), Sessions.DoIssue(token, Sessions.LinkToken(userId, kind, expiresAt))])
      ensures sessions == Sessions.Purge(old(sessions), now)
    {
      Purge(now);
      expiresAt := now + (if ttl.Some? then ttl.value else if kind.Magic? then MAGIC_LINK_TTL_MS else INVITE_TTL_MS);
      ghost var steps := [Sessions.DoSweep(now), Sessions.DoIssue(token, Sessions.LinkToken(userId, kind, expiresAt))];
      assert steps[..1] == [Sessions.DoSweep(now)] && steps[..1][..0] == [];
      assert tokens == Sessions.TokenRun(old(tokens), steps[..1]);
      tokens := tokens[token := Sessions.LinkToken(userId, kind, expiresAt)];
    }

    method SigninTokenPeek(token: string, now: int) returns (record: Option<Sessions.LinkToken>)
      ensures record == Sessions.Peek(tokens, token, now)
    {
      if token !in tokens || tokens[token].expiresAt <= now {
        return None;
      }
      return Some(tokens[token]);
    }

    /** The record once; a second consume, and a peek after it, find nothing. */
    method SigninTokenConsume(token: string, now: int) returns (record: Option<Sessions.LinkToken>)
      requires Valid()
      modifies `tokens
      ensures Valid()
      ensures record == Sessions.Peek(old(tokens), token, now)
      ensures tokens == if record.Some? then Sessions.Spend(old(tokens), token).0 else old(tokens)
      ensures forall later :: Sessions.Peek(tokens, token, later).Some? ==> record.None? && later < now
    {
      record := SigninTokenPeek(token, now);
      if record.None? {
        return;
      }
      var granted;
      tokens, granted := Sessions.Spend(tokens, token).0, Sessions.Spend(tokens, token).1;
      if !granted {
        record := None;
      }
    }

    // --------------------------------------------------------------------------- sessions

    method SessionCreate(secret: string, id: string, userId: string, ttl: int, now: int) returns (expiresAt: int)
      requires Valid() && secret !in sessions && forall k :: k in sessions ==> sessions[k].id != id
      modifies `tokens, `sessions
      ensures Valid()
      ensures sessions == Sessions.Create(old(sessions), secret, id, userId, ttl, now) && expiresAt == now + ttl
      ensures tokens == Sessions.TokenApply(old(tokens), Sessions.DoSweep(now))
    {
      Purge(now);
      expiresAt := now + ttl;
      sessions := sessions[secret := Sessions.Session(id, userId, now, expiresAt, now)];
    }

    method SessionResolve(secret: string, ttl: int, now: int) returns (view: Option<Sessions.Session>)
      requires Valid()
      modifies `sessions
      ensures Valid()
      ensures (sessions, view) == Sessions.Resolve(old(sessions), secret, ttl, now)
    {
      if secret !in sessions {
        return None;
      }
      var row := sessions[secret];
      if row.expiresAt <= now {
        sessions := sessions - {secret};
        return None;
      }
      if now - row.lastSeenAt > Sessions.REFRESH_AFTER_MS {
        sessions := sessions[secret := row.(lastSeenAt := now, expiresAt := now + ttl)];
      }
      return Some(row.(lastSeenAt := now, expiresAt := now + ttl));
    }

    method SessionDelete(secret: string) returns (deleted: bool)
      requires Valid()
      modifies `sessions
      ensures Valid()
      ensures sessions == old(sessions) - {secret}
      ensures deleted <==> secret in old(sessions)
    {
      deleted := secret in sessions;
      sessions := sessions - {secret};
    }

    method SessionRevoke(userId: string, only: Option<string>) returns (removed: nat)
      requires Valid()
      modifies `sessions
      ensures Valid()
      ensures sessions == Sessions.Revoke(old(sessions), userId, only)
      ensures removed == |old(sessions)| - |sessions|
    {
      var kept := Sessions.Revoke(sessions, userId, only);
      SubsetSize(kept.Keys, sessions.Keys);
      assert |kept| == |kept.Keys| && |sessions| == |sessions.Keys|;
      removed := |sessions| - |kept|;
      sessions := kept;
    }

    method SessionAlive(userId: string, id: string, now: int) returns (alive: bool)
      requires Valid()
      ensures alive <==> Sessions.Alive(sessions, userId, id, now)
    {
      if k :| k in sessions && sessions[k].id == id && sessions[k].userId == userId {
        return sessions[k].expiresAt > now;
      }
      return false;
    }

    // ---------------------------------------------------------------------------- handoffs

    method AppHandoffBurn(jti: string, expiresAt: int, now: int) returns (first: bool)
      requires Valid()
      modifies `burned
      ensures Valid()
      ensures (burned, first) == Accounts.Burn(old(burned), jti, expiresAt, now)
    {
      burned := Accounts.PurgeBurned(burned, now);
      if jti in burned {
        return false;
      }
      burned := burned[jti := expiresAt];
      return true;
    }
  }
}
