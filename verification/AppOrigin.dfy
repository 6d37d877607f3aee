/** The app origin's request handler with its effects in order (src/apps/origin.ts, `consumeHandoff`). */
module AppOrigin {
  import opened Lists
  import opened Handoff
  import AccountStore

  class AppOrigin {
    const accounts: AccountStore.AccountStore
    var signed: set<Sealed>
    var users: set<string>
    ghost var log: seq<Event>

    constructor (accounts: AccountStore.AccountStore, users: set<string>)
      ensures this.accounts == accounts && this.users == users && signed == {} && log == []
    {
      this.accounts, this.users, signed, log := accounts, users, {}, [];
    }

    ghost function World(): Handoff.World
      reads this, accounts
    {
      Handoff.World(signed, accounts.burned, accounts.sessions, users, log)
    }

    /** The binding is checked before the burn, so a mistyped URL does not waste the token. */
    method ConsumeHandoff(token: Value, uid: string, pkg: string, st: string, now: int, burnAt: int)
      returns (result: HandoffResult)
      requires accounts.Valid()
      modifies accounts`burned
      ensures accounts.Valid()
      ensures (accounts.burned, result) == Handoff.ConsumeHandoff(old(World()), token, uid, pkg, st, now, burnAt)
      ensures result.Rejected? && result.reason != Replay ==> accounts.burned == old(accounts.burned)
    {
      if !(token.Spelling? && token.of in signed && token.of.ForHandoff?) {
        return Rejected(Unopened);
      }
      var h := token.of.h;
      if h.uid == "" || h.pkg == "" || h.sid == "" || h.st == "" || h.jti == "" {
        return Rejected(Unopened);
      }
      if h.exp <= now {
        return Rejected(Expired);
      }
      if h.uid != uid || h.pkg != pkg || h.st != st {
        return Rejected(Mismatch);
      }
      var first := accounts.AppHandoffBurn(h.jti, h.exp, burnAt);
      if !first {
        return Rejected(Replay);
      }
      return Accepted(h);
    }

    method HandleAppOriginRequest(r: AppRequest) returns (response: Response)
      requires accounts.Valid()
      modifies this, accounts`burned
      ensures accounts.Valid()
      ensures (World(), response) == HandleApp(old(World()), r)
    {
      if !r.safe && r.crossOrigin {
        return Refused(403);
      }
      if r.handoff.Some? {
        var state := if r.cookies.state.Some? then r.cookies.state.value else "";
        var result := ConsumeHandoff(r.handoff.value, r.uid, r.pkg, state, r.now, r.burnAt);
        if result.Accepted? {
          var s := SessionClaims(result.h.uid, result.h.sid, r.now + APP_SESSION_MAX_MS);
          signed := signed + {ForSession(s)};
          log := log + [Exchanged(result.h, state, s)];
          return Redirect(AtApp(r.uid, r.pkg, r.path, None), SetSession(Spelling(ForSession(s), 0)));
        }
      }
      var claims := VerifyAppSession(signed, r.cookies.session, r.now);
      var alive := false;
      if claims.Some? && claims.value.uid == r.uid {
        alive := accounts.SessionAlive(claims.value.uid, claims.value.sid, r.aliveAt);
      }
      if !alive {
        if !r.safe || r.handoff.Some? {
          return OpenFromKodyPage;
        }
        return Redirect(AtOpen(r.pkg, r.newState), SetState(r.newState));
      }
      if claims.value.uid !in users {
        return OpenFromKodyPage;
      }
      log := log + [Served(r.uid, r.pkg, claims.value)];
      return App;
    }
  }
}
