/**
 The package-app handoff between the Kody origin, the app origin and a browser
 (src/apps/open.ts, src/apps/origin.ts, src/apps/tokens.ts), on values.
 */
module Handoff {
  import opened Lists
  import Accounts
  import Sessions

  const HANDOFF_TTL_MS := 60_000
  const APP_SESSION_MAX_MS := 12 * 60 * 60 * 1000
  const WEB_SESSION_TTL_MS := 30 * 24 * 60 * 60 * 1000

  // -------------------------------------------------------------------- sealed values

  datatype HandoffClaims = HandoffClaims(uid: string, pkg: string, sid: string, st: string, exp: int, jti: string)

  datatype SessionClaims = SessionClaims(uid: string, sid: string, exp: int)

  /** Claims with the purpose they are sealed for. */
  datatype Sealed = ForHandoff(h: HandoffClaims) | ForSession(s: SessionClaims)

  /** A string off the wire: one spelling of sealed claims, or anything else. */
  datatype Value = Spelling(of: Sealed, variant: nat) | Junk(text: string)

  datatype Reason = Unopened | Expired | Mismatch | Replay

  datatype HandoffResult = Accepted(h: HandoffClaims) | Rejected(reason: Reason)

  predicate IsState(state: string) {
    |state| == 32 && forall i :: 0 <= i < 32 ==> '0' <= state[i] <= '9' || 'a' <= state[i] <= 'f'
  }

  predicate TextClaims(h: HandoffClaims) {
    h.uid != "" && h.pkg != "" && h.sid != "" && h.st != "" && h.jti != ""
  }

  // ---------------------------------------------------------------------------- world

  /** What happened, in order. */
  datatype Event =
    | Minted(h: HandoffClaims)
    | Exchanged(h: HandoffClaims, state: string, issued: SessionClaims)
    | Served(uid: string, pkg: string, s: SessionClaims)

  datatype World = World(
    signed: set<Sealed>, burned: Accounts.Burned, sessions: Sessions.Table, users: set<string>, log: seq<Event>)

  /** The install: which packages are saved apps, and which accounts have an app origin. */
  datatype Install = Install(isApp: (string, string) -> bool, mappable: string -> bool)

  datatype Location =
    | AtApp(uid: string, pkg: string, path: string, handoff: Option<Value>)
    | AtOpen(pkg: string, state: string)
    | AtSignIn

  datatype Cookies = Cookies(session: Option<Value>, state: Option<string>)

  /** What the response does to the app origin's two cookies. */
  datatype SetCookie = KeepCookies | SetState(state: string) | SetSession(value: Value)

  datatype Response =
    | Redirect(to: Location, cookies: SetCookie)
    | App
    | OpenFromKodyPage
    | Refused(status: nat)

  // ----------------------------------------------------------------------- /apps/open

  datatype OpenRequest = OpenRequest(get: bool, web: Option<string>, pkg: string, state: string, now: int, jti: string)

  /** `handleAppsOpen` on an install whose app origin is configured. */
  function HandleOpen(install: Install, w: World, r: OpenRequest): (World, Response) {
    if !r.get then (w, Refused(405))
    else if r.web.None? then (w, Redirect(AtSignIn, KeepCookies))
    else
      var (sessions, view) := Sessions.Resolve(w.sessions, r.web.value, WEB_SESSION_TTL_MS, r.now);
      var w1 := w.(sessions := sessions);
      if view.None? || view.value.userId !in w.users then (w1, Redirect(AtSignIn, KeepCookies))
      else
        var uid := view.value.userId;
        if !install.isApp(uid, r.pkg) then (w1, Refused(404))
        else if !install.mappable(uid) then (w1, Refused(500))
        else if !IsState(r.state) then (w1, Redirect(AtApp(uid, r.pkg, "/", None), KeepCookies))
        else
          var h := HandoffClaims(uid, r.pkg, view.value.id, r.state, r.now + HANDOFF_TTL_MS, r.jti);
          (w1.(signed := w1.signed + {ForHandoff(h)}, log := w1.log + [Minted(h)]),
           Redirect(AtApp(uid, r.pkg, "/", Some(Spelling(ForHandoff(h), 0))), KeepCookies))
  }

  // -------------------------------------------------------------------- the app origin

  /** A request that the app origin matched to user `uid` and package `pkg`. */
  datatype AppRequest = AppRequest(
    uid: string, pkg: string, path: string, safe: bool, crossOrigin: bool, handoff: Option<Value>, cookies: Cookies,
    now: int, burnAt: int, aliveAt: int, newState: string)

  /** Signature, shape, expiry, binding, burn: in that order. */
  function ConsumeHandoff(w: World, token: Value, uid: string, pkg: string, st: string,
                          now: int, burnAt: int): (Accounts.Burned, HandoffResult)
  {
    if !(token.Spelling? && token.of in w.signed && token.of.ForHandoff? && TextClaims(token.of.h)) then
      (w.burned, Rejected(Unopened))
    else
      var h := token.of.h;
      if h.exp <= now then (w.burned, Rejected(Expired))
      else if h.uid != uid || h.pkg != pkg || h.st != st then (w.burned, Rejected(Mismatch))
      else
        var (burned, first) := Accounts.Burn(w.burned, h.jti, h.exp, burnAt);
        (burned, if first then Accepted(h) else Rejected(Replay))
  }

  function VerifyAppSession(signed: set<Sealed>, cookie: Option<Value>, now: int): Option<SessionClaims> {
    if cookie.Some? && cookie.value.Spelling? && cookie.value.of in signed && cookie.value.of.ForSession?
       && cookie.value.of.s.uid != "" && cookie.value.of.s.sid != "" && cookie.value.of.s.exp > now
    then Some(cookie.value.of.s) else None
  }

  /** The cookie is a valid app session for `uid` whose parent session is alive. */
  ghost predicate Authentic(w: World, cookie: Option<Value>, uid: string, now: int, aliveAt: int) {
    var claims := VerifyAppSession(w.signed, cookie, now);
    claims.Some? && claims.value.uid == uid && Sessions.Alive(w.sessions, uid, claims.value.sid, aliveAt)
  }

  /** Swap an accepted handoff for a session cookie. */
  function Exchange(w: World, r: AppRequest, h: HandoffClaims): (World, Response) {
    var s := SessionClaims(h.uid, h.sid, r.now + APP_SESSION_MAX_MS);
    (w.(signed := w.signed + {ForSession(s)},
        log := w.log + [Exchanged(h, if r.cookies.state.Some? then r.cookies.state.value else "", s)]),
     Redirect(AtApp(r.uid, r.pkg, r.path, None), SetSession(Spelling(ForSession(s), 0))))
  }

  /** The session check that follows when no handoff was swapped. */
  ghost function Admit(w: World, r: AppRequest): (World, Response) {
    if !Authentic(w, r.cookies.session, r.uid, r.now, r.aliveAt) then
      if !r.safe || r.handoff.Some? then (w, OpenFromKodyPage)
      else (w, Redirect(AtOpen(r.pkg, r.newState), SetState(r.newState)))
    else
      var s := VerifyAppSession(w.signed, r.cookies.session, r.now).value;
      if s.uid !in w.users then (w, OpenFromKodyPage)
      else (w.(log := w.log + [Served(r.uid, r.pkg, s)]), App)
  }

  /** `handleAppOriginRequest`, run to completion. */
  ghost function HandleApp(w: World, r: AppRequest): (World, Response) {
    if !r.safe && r.crossOrigin then (w, Refused(403))
    else if r.handoff.Some? then
      var (burned, result) := ConsumeHandoff(w, r.handoff.value, r.uid, r.pkg,
        if r.cookies.state.Some? then r.cookies.state.value else "", r.now, r.burnAt);
      var w1 := w.(burned := burned);
      if result.Accepted? then Exchange(w1, r, result.h) else Admit(w1, r)
    else Admit(w, r)
  }

  // ------------------------------------------------------------------------- every run

  datatype Step =
    | OpenStep(o: OpenRequest)
    | AppStep(a: AppRequest)
    | Elsewhere(sessions: Sessions.Table, users: set<string>)

  ghost function Apply(install: Install, w: World, step: Step): (World, Response) {
    match step
    case OpenStep(o) => HandleOpen(install, w, o)
    case AppStep(a) => HandleApp(w, a)
    case Elsewhere(sessions, users) => (w.(sessions := sessions, users := users), Refused(0))
  }

  ghost function Run(install: Install, w: World, steps: seq<Step>): World {
    if steps == [] then w else Apply(install, Run(install, w, steps[..|steps| - 1]), steps[|steps| - 1]).0
  }

  ghost predicate MintedBefore(log: seq<Event>, k: nat, h: HandoffClaims) {
    exists j :: 0 <= j < k && j < |log| && log[j] == Minted(h)
  }

  /** The event at `i` exchanged a minted handoff, bound to the state then presented, for `s`. */
  ghost predicate ExchangedAt(log: seq<Event>, i: nat, s: SessionClaims) {
    && i < |log| && log[i].Exchanged? && log[i].issued == s
    && MintedBefore(log, i, log[i].h)
    && log[i].h.st == log[i].state && IsState(log[i].h.st)
    && log[i].h.uid == s.uid && log[i].h.sid == s.sid
  }

  ghost predicate Backed(log: seq<Event>, k: nat, s: SessionClaims) {
    exists i :: 0 <= i < k && ExchangedAt(log, i, s)
  }

  ghost predicate Sound(w: World) {
    && (forall x :: x in w.signed && x.ForHandoff? ==> MintedBefore(w.log, |w.log|, x.h) && IsState(x.h.st))
    && (forall x :: x in w.signed && x.ForSession? ==> Backed(w.log, |w.log|, x.s))
    && forall k :: 0 <= k < |w.log| && w.log[k].Served? ==>
         Backed(w.log, k, w.log[k].s) && w.log[k].uid == w.log[k].s.uid
  }

  lemma ExtendMinted(log: seq<Event>, more: seq<Event>, k: nat, h: HandoffClaims)
    requires MintedBefore(log, k, h)
    ensures MintedBefore(log + more, k, h)
  {
    var j :| 0 <= j < k && j < |log| && log[j] == Minted(h);
    assert (log + more)[j] == Minted(h);
  }

  lemma ExtendBacked(log: seq<Event>, more: seq<Event>, k: nat, n: nat, s: SessionClaims)
    requires Backed(log, k, s) && k <= n
    ensures Backed(log + more, n, s)
  {
    var i :| 0 <= i < k && ExchangedAt(log, i, s);
    ExtendMinted(log, more, i, log[i].h);
    assert ExchangedAt(log + more, i, s);
  }

  /** Appending an event and signing something of its own keeps the log's justifications. */
  lemma SoundExtends(w: World, e: Event, signed: set<Sealed>)
    requires Sound(w)
    requires forall x :: x in signed && x !in w.signed ==>
      match x
      case ForHandoff(h) => e == Minted(h) && IsState(h.st)
      case ForSession(s) => ExchangedAt(w.log + [e], |w.log|, s)
    requires e.Served? ==> Backed(w.log, |w.log|, e.s) && e.uid == e.s.uid
    ensures Sound(w.(signed := signed, log := w.log + [e]))
  {
    var log := w.log + [e];
    forall x | x in signed && x.ForHandoff? ensures MintedBefore(log, |log|, x.h) && IsState(x.h.st) {
      if x in w.signed {
        ExtendMinted(w.log, [e], |w.log|, x.h);
      } else {
        assert log[|w.log|] == Minted(x.h);
      }
    }
    forall x | x in signed && x.ForSession? ensures Backed(log, |log|, x.s) {
      if x in w.signed {
        ExtendBacked(w.log, [e], |w.log|, |log|, x.s);
      } else {
        assert ExchangedAt(log, |w.log|, x.s);
      }
    }
    forall k | 0 <= k < |log| && log[k].Served? ensures Backed(log, k, log[k].s) && log[k].uid == log[k].s.uid {
      if k < |w.log| {
        ExtendBacked(w.log, [e], k, k, w.log[k].s);
      } else {
        ExtendBacked(w.log, [e], |w.log|, |w.log|, e.s);
      }
    }
  }

  lemma OpenKeepsSound(install: Install, w: World, r: OpenRequest)
    requires Sound(w)
    ensures Sound(HandleOpen(install, w, r).0)
  {
    var after := HandleOpen(install, w, r).0;
    if after.log != w.log {
      var e := after.log[|w.log|];
      SoundExtends(w, e, after.signed);
    }
  }

  lemma ExchangeKeepsSound(w: World, r: AppRequest, h: HandoffClaims)
    requires Sound(w) && ForHandoff(h) in w.signed
    requires h.st == if r.cookies.state.Some? then r.cookies.state.value else ""
    ensures Sound(Exchange(w, r, h).0)
  {
    var after := Exchange(w, r, h).0;
    var e := after.log[|w.log|];
    ExtendMinted(w.log, [e], |w.log|, h);
    assert ExchangedAt(after.log, |w.log|, e.issued);
    SoundExtends(w, e, after.signed);
  }

  lemma AdmitKeepsSound(w: World, r: AppRequest)
    requires Sound(w)
    ensures Sound(Admit(w, r).0)
  {
    var (after, response) := Admit(w, r);
    if response.App? {
      var s := VerifyAppSession(w.signed, r.cookies.session, r.now).value;
      assert ForSession(s) in w.signed;
      SoundExtends(w, Served(r.uid, r.pkg, s), w.signed);
    }
  }

  lemma AppKeepsSound(w: World, r: AppRequest)
    requires Sound(w)
    ensures Sound(HandleApp(w, r).0)
  {
    if r.handoff.Some? && (r.safe || !r.crossOrigin) {
      var (burned, result) := ConsumeHandoff(w, r.handoff.value, r.uid, r.pkg,
        if r.cookies.state.Some? then r.cookies.state.value else "", r.now, r.burnAt);
      if result.Accepted? {
        ExchangeKeepsSound(w.(burned := burned), r, result.h);
      } else {
        AdmitKeepsSound(w.(burned := burned), r);
      }
    } else if r.safe || !r.crossOrigin {
      AdmitKeepsSound(w, r);
    }
  }

  lemma {:induction false} RunKeepsSound(install: Install, w: World, steps: seq<Step>)
    requires Sound(w)
    ensures Sound(Run(install, w, steps))
  {
    if steps != [] {
      var front, step := steps[..|steps| - 1], steps[|steps| - 1];
      RunKeepsSound(install, w, front);
      var before := Run(install, w, front);
      match step
      case OpenStep(o) => OpenKeepsSound(install, before, o);
      case AppStep(a) => AppKeepsSound(before, a);
      case Elsewhere(sessions, users) =>
    }
  }

  const EMPTY_LOG: seq<Event> := []

  /**
   Every request that reaches `serve`, in every run from an install that has signed nothing, carries
   an app session that an accepted exchange issued: of a handoff minted before for the same user and
   parent session and for the state cookie then presented. The user is the URL's user, and the
   parent session is alive when it is checked.
   */
  lemma EveryServeIsBacked(install: Install, start: World, steps: seq<Step>, k: nat)
    requires start.signed == {} && start.log == EMPTY_LOG
    requires k < |steps| && steps[k].AppStep?
    requires Apply(install, Run(install, start, steps[..k]), steps[k]).1.App?
    ensures var before, r := Run(install, start, steps[..k]), steps[k].a;
      exists s ::
        && r.cookies.session.Some? && r.cookies.session.value.Spelling? && r.cookies.session.value.of == ForSession(s)
        && s.uid == r.uid && s.exp > r.now
        && Backed(before.log, |before.log|, s)
        && Sessions.Alive(before.sessions, s.uid, s.sid, r.aliveAt)
  {
    RunKeepsSound(install, start, steps[..k]);
    var before, r := Run(install, start, steps[..k]), steps[k].a;
    var s := r.cookies.session.value.of.s;
    assert ForSession(s) in before.signed;
  }

  /** A mint names the user and the public id of the web session that asked for it, alive at that time. */
  lemma MintNamesItsSession(install: Install, w: World, r: OpenRequest)
    requires HandleOpen(install, w, r).0.log != w.log
    ensures var after := HandleOpen(install, w, r).0;
      exists h ::
        && after.log == w.log + [Minted(h)] && after.signed == w.signed + {ForHandoff(h)}
        && h.pkg == r.pkg && h.st == r.state && IsState(h.st) && h.exp == r.now + HANDOFF_TTL_MS && h.jti == r.jti
        && install.isApp(h.uid, h.pkg) && h.uid in w.users && Sessions.Alive(w.sessions, h.uid, h.sid, r.now)
  {
    var row := w.sessions[r.web.value];
    var h := HandoffClaims(row.userId, r.pkg, row.id, r.state, r.now + HANDOFF_TTL_MS, r.jti);
    assert HandleOpen(install, w, r).0.log == w.log + [Minted(h)];
    assert Sessions.Alive(w.sessions, h.uid, h.sid, r.now);
  }
}
