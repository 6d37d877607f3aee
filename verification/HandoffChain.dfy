/** Single use of handoffs over whole runs, and the redirect chains a browser follows. */
module HandoffChain {
  import opened Lists
  import opened Handoff
  import Accounts
  import Sessions

  // ----------------------------------------------------------------------- single use

  /** The request's handoff is accepted in this world, with these claims. */
  ghost predicate Accepts(w: World, r: AppRequest, h: HandoffClaims) {
    && (r.safe || !r.crossOrigin) && r.handoff.Some?
    && ConsumeHandoff(w, r.handoff.value, r.uid, r.pkg, if r.cookies.state.Some? then r.cookies.state.value else "",
                      r.now, r.burnAt).1 == Accepted(h)
  }

  /** Until a clock reaches its expiry, a burned handoff stays burned whatever else runs. */
  lemma {:induction false} BurnedPersists(install: Install, start: World, steps: seq<Step>, i: nat, k: nat,
                                          h: HandoffClaims)
    requires i < k <= |steps| && steps[i].AppStep?
    requires Accepts(Run(install, start, steps[..i]), steps[i].a, h)
    requires forall j :: i <= j < k && steps[j].AppStep? ==> steps[j].a.burnAt < h.exp
    ensures h.jti in Run(install, start, steps[..k]).burned && Run(install, start, steps[..k]).burned[h.jti] == h.exp
    decreases k
  {
    var before := Run(install, start, steps[..k - 1]);
    assert steps[..k][..k - 1] == steps[..k - 1] && steps[..k][k - 1] == steps[k - 1];
    if i + 1 < k {
      BurnedPersists(install, start, steps, i, k - 1, h);
      StepKeepsBurned(install, before, steps[k - 1], h);
    }
  }

  lemma StepKeepsBurned(install: Install, w: World, step: Step, h: HandoffClaims)
    requires h.jti in w.burned && w.burned[h.jti] == h.exp
    requires step.AppStep? ==> step.a.burnAt < h.exp
    ensures h.jti in Apply(install, w, step).0.burned && Apply(install, w, step).0.burned[h.jti] == h.exp
  {
  }

  /**
   No handoff is accepted twice in a run while the registry's clock is before its expiry, whoever
   presents it and whatever runs in between.
   */
  lemma HandoffAcceptedOnce(install: Install, start: World, steps: seq<Step>, i: nat, k: nat, h: HandoffClaims)
    requires i < k < |steps| && steps[i].AppStep? && steps[k].AppStep?
    requires Accepts(Run(install, start, steps[..i]), steps[i].a, h)
    requires forall j :: i <= j <= k && steps[j].AppStep? ==> steps[j].a.burnAt < h.exp
    ensures !Accepts(Run(install, start, steps[..k]), steps[k].a, h)
  {
    BurnedPersists(install, start, steps, i, k, h);
  }

  /** The request passes everything but the burn: signature, shape, expiry and binding. */
  ghost predicate Presents(w: World, r: AppRequest, h: HandoffClaims) {
    && (r.safe || !r.crossOrigin) && r.handoff.Some? && r.handoff.value.Spelling?
    && r.handoff.value.of == ForHandoff(h) && ForHandoff(h) in w.signed && TextClaims(h) && r.now < h.exp
    && h.uid == r.uid && h.pkg == r.pkg && h.st == (if r.cookies.state.Some? then r.cookies.state.value else "")
  }

  lemma AcceptsIff(w: World, r: AppRequest, h: HandoffClaims)
    ensures Accepts(w, r, h) <==> Presents(w, r, h) && Accounts.Burn(w.burned, h.jti, h.exp, r.burnAt).1
  {
  }

  /** Every handoff signed under this id expires when `h` does: ids are drawn at random for each. */
  ghost predicate OneExpiry(w: World, h: HandoffClaims) {
    forall x :: x in w.signed && x.ForHandoff? && x.h.jti == h.jti ==> x.h.exp == h.exp
  }

  lemma {:induction false} SignedGrows(install: Install, start: World, steps: seq<Step>, j: nat, k: nat)
    requires j <= k <= |steps|
    ensures Run(install, start, steps[..j]).signed <= Run(install, start, steps[..k]).signed
    decreases k
  {
    if j < k {
      assert steps[..k][..k - 1] == steps[..k - 1] && steps[..k][k - 1] == steps[k - 1];
      SignedGrows(install, start, steps, j, k - 1);
    }
  }

  lemma StepBurnsAtExpiry(install: Install, w: World, step: Step, h: HandoffClaims)
    requires h.jti in w.burned ==> w.burned[h.jti] == h.exp
    requires OneExpiry(w, h)
    ensures var t := Apply(install, w, step).0; h.jti in t.burned ==> t.burned[h.jti] == h.exp
  {
  }

  /** From its first acceptance on, a handoff's id is recorded under its expiry, or not at all. */
  lemma {:induction false} BurnedAtExpiry(install: Install, start: World, steps: seq<Step>, i: nat, k: nat,
                                          h: HandoffClaims)
    requires i < k <= |steps| && steps[i].AppStep?
    requires Accepts(Run(install, start, steps[..i]), steps[i].a, h)
    requires OneExpiry(Run(install, start, steps[..k]), h)
    ensures var w := Run(install, start, steps[..k]); h.jti in w.burned ==> w.burned[h.jti] == h.exp
    decreases k
  {
    var before := Run(install, start, steps[..k - 1]);
    assert steps[..k][..k - 1] == steps[..k - 1] && steps[..k][k - 1] == steps[k - 1];
    if i + 1 < k {
      SignedGrows(install, start, steps, k - 1, k);
      BurnedAtExpiry(install, start, steps, i, k - 1, h);
      StepBurnsAtExpiry(install, before, steps[k - 1], h);
    }
  }

  ghost predicate BurnsInOrder(steps: seq<Step>, i: nat, k: nat) {
    forall j, l :: i <= j < l <= k && l < |steps| && steps[j].AppStep? && steps[l].AppStep? ==>
      steps[j].a.burnAt <= steps[l].a.burnAt
  }

  /**
   A handoff that was accepted is accepted again, from a request that passes every other check, if and only if
   the registry's clock has reached its expiry: the purge then forgets it before it is looked up, and the
   consumer's own clock may be behind.
   */
  lemma AcceptedAgainIff(install: Install, start: World, steps: seq<Step>, i: nat, k: nat, h: HandoffClaims)
    requires i < k < |steps| && steps[i].AppStep? && steps[k].AppStep?
    requires Accepts(Run(install, start, steps[..i]), steps[i].a, h)
    requires BurnsInOrder(steps, i, k) && OneExpiry(Run(install, start, steps[..k]), h)
    requires Presents(Run(install, start, steps[..k]), steps[k].a, h)
    ensures Accepts(Run(install, start, steps[..k]), steps[k].a, h) <==> steps[k].a.burnAt >= h.exp
  {
    if steps[k].a.burnAt >= h.exp {
      BurnedAtExpiry(install, start, steps, i, k, h);
    } else {
      HandoffAcceptedOnce(install, start, steps, i, k, h);
    }
  }

  /** One request sent twice in a row, before the expiry by the consumer's clock and past it by the registry's. */
  lemma AcceptedTwice(install: Install, w: World, r: AppRequest, h: HandoffClaims)
    requires Presents(w, r, h) && h.jti !in w.burned && h.exp <= r.burnAt
    ensures var steps := [AppStep(r), AppStep(r)];
      && Accepts(Run(install, w, steps[..0]), r, h)
      && Accepts(Run(install, w, steps[..1]), r, h)
  {
    var steps := [AppStep(r), AppStep(r)];
    assert steps[..1][..0] == [] && steps[..1] == [AppStep(r)];
    assert Run(install, w, steps[..1]) == Apply(install, w, AppStep(r)).0;
  }

  // -------------------------------------------------------------------------- browser

  /** A browser that keeps every cookie or none; app cookies live per user, by path or by host. */
  datatype Browser = Browser(stores: bool, web: Option<string>, sessionCookies: map<string, Value>,
    stateCookies: map<string, string>)

  function Sent(b: Browser, uid: string): Cookies {
    Cookies(if uid in b.sessionCookies then Some(b.sessionCookies[uid]) else None,
            if uid in b.stateCookies then Some(b.stateCookies[uid]) else None)
  }

  ghost predicate ValidBrowser(b: Browser) {
    !b.stores ==> b.web.None? && b.sessionCookies == map[] && b.stateCookies == map[]
  }

  /** `SetSession` comes with the clearing of the state cookie. */
  function Receive(b: Browser, uid: string, change: SetCookie): Browser {
    if !b.stores then b
    else
      match change
      case KeepCookies => b
      case SetState(state) => b.(stateCookies := b.stateCookies[uid := state])
      case SetSession(value) =>
        b.(sessionCookies := b.sessionCookies[uid := value], stateCookies := b.stateCookies - {uid})
  }

  /** The clocks and fresh values one request meets. */
  datatype Hop = Hop(now: int, burnAt: int, aliveAt: int, newState: string, jti: string)

  /** The GET the browser makes at `at`, and where that leaves it. */
  ghost function Visit(install: Install, w: World, b: Browser, at: Location, hop: Hop): (World, Browser, Response) {
    match at
    case AtSignIn => (w, b, Refused(200))
    case AtOpen(pkg, state) =>
      var (w', response) := HandleOpen(install, w, OpenRequest(true, b.web, pkg, state, hop.now, hop.jti));
      (w', b, response)
    case AtApp(uid, pkg, path, handoff) =>
      var (w', response) := HandleApp(w, AppRequest(uid, pkg, path, true, false, handoff, Sent(b, uid),
                                                    hop.now, hop.burnAt, hop.aliveAt, hop.newState));
      (w', if response.Redirect? then Receive(b, uid, response.cookies) else b, response)
  }

  /** How many redirects the browser follows, and whether it arrives before the hops run out. */
  ghost function Follow(install: Install, w: World, b: Browser, at: Location, hops: seq<Hop>): (nat, Option<Response>)
    decreases |hops|
  {
    if hops == [] then (0, None)
    else
      var (w', b', response) := Visit(install, w, b, at, hops[0]);
      if response.Redirect? && !response.to.AtSignIn? then
        var (n, end) := Follow(install, w', b', response.to, hops[1..]);
        (n + 1, end)
      else (if response.Redirect? then 1 else 0, Some(response))
  }

  // -------------------------------------------------------------------- what stays put

  /** The chain's clocks lie in `[from, to]` and do not run backwards, and its fresh states are states. */
  ghost predicate Timely(hops: seq<Hop>, from: int, to: int) {
    forall i :: 0 <= i < |hops| ==>
      from <= hops[i].now <= hops[i].burnAt <= to && from <= hops[i].aliveAt <= to && IsState(hops[i].newState)
  }

  /** No session and no app-session value expires during the chain: it has already, or outlives it. */
  ghost predicate Settled(w: World, from: int, to: int) {
    && (forall k :: k in w.sessions ==> w.sessions[k].expiresAt <= from || w.sessions[k].expiresAt > to)
    && (forall x :: x in w.signed && x.ForSession? ==> x.s.exp <= from || x.s.exp > to)
    && (forall x :: x in w.signed && x.ForHandoff? ==> IsState(x.h.st))
  }

  /** The parent session is alive, now and throughout the chain. */
  ghost predicate Living(w: World, uid: string, sid: string, to: int) {
    Sessions.Alive(w.sessions, uid, sid, to)
  }

  /** The browser's cookie lets it into `uid`'s apps throughout the chain. */
  ghost predicate Admitted(w: World, b: Browser, uid: string, to: int) {
    uid in b.sessionCookies && Authentic(w, Some(b.sessionCookies[uid]), uid, to, to)
  }

  /** How many more redirects the browser can be sent through from here. */
  ghost function Rank(w: World, b: Browser, at: Location, to: int): nat {
    match at
    case AtSignIn => 0
    case AtOpen(pkg, state) => if IsState(state) then 2 else 4
    case AtApp(uid, pkg, path, handoff) =>
      if handoff.Some? then
        if handoff.value.Spelling? && handoff.value.of.ForHandoff? && Living(w, uid, handoff.value.of.h.sid, to)
        then 1 else 4
      else if Admitted(w, b, uid, to) then 0 else 3
  }

  lemma AliveThroughout(w: World, uid: string, sid: string, from: int, to: int, t: int)
    requires Settled(w, from, to) && from <= t <= to
    ensures Sessions.Alive(w.sessions, uid, sid, t) <==> Living(w, uid, sid, to)
  {
    if Sessions.Alive(w.sessions, uid, sid, t) {
      var k :| k in w.sessions && w.sessions[k].id == sid && w.sessions[k].userId == uid && w.sessions[k].expiresAt > t;
      assert w.sessions[k].expiresAt > to;
    }
  }

  lemma AuthenticThroughout(w: World, cookie: Option<Value>, uid: string, from: int, to: int, now: int, aliveAt: int)
    requires Settled(w, from, to) && from <= now <= to && from <= aliveAt <= to
    ensures Authentic(w, cookie, uid, now, aliveAt) <==> Authentic(w, cookie, uid, to, to)
  {
    if cookie.Some? && cookie.value.Spelling? && cookie.value.of.ForSession? {
      AliveThroughout(w, uid, cookie.value.of.s.sid, from, to, aliveAt);
      AliveThroughout(w, uid, cookie.value.of.s.sid, from, to, to);
    }
  }

  // ------------------------------------------------------------------------- the steps

  /** `/apps/open` redirects to the app with fewer redirects ahead, and settles nothing anew. */
  lemma OpenDescends(install: Install, w: World, b: Browser, pkg: string, state: string, hop: Hop, from: int, to: int)
    requires Settled(w, from, to) && from <= hop.now <= to < from + WEB_SESSION_TTL_MS
    ensures var (w', b', response) := Visit(install, w, b, AtOpen(pkg, state), hop);
      && Settled(w', from, to) && b' == b
      && (response.Redirect? ==> Rank(w', b', response.to, to) < Rank(w, b, AtOpen(pkg, state), to))
  {
    var (w', b', response) := Visit(install, w, b, AtOpen(pkg, state), hop);
    if response.Redirect? && response.to.AtApp? && response.to.handoff.Some? {
      var secret := b.web.value;
      assert w'.sessions[secret].expiresAt > to;
      assert Living(w', response.to.uid, response.to.handoff.value.of.h.sid, to);
    }
  }

  /** Without a swap, the app origin serves, refuses, or starts the dance. */
  lemma AdmitDescends(w: World, b: Browser, r: AppRequest, from: int, to: int)
    requires Settled(w, from, to) && from <= r.now <= to && from <= r.aliveAt <= to && IsState(r.newState)
    requires r.cookies == Sent(b, r.uid)
    ensures var (w', response) := Admit(w, r);
      && Settled(w', from, to)
      && (response.Redirect? ==>
        response.to.AtOpen? && IsState(response.to.state) && r.handoff.None? && !Admitted(w, b, r.uid, to))
  {
    AuthenticThroughout(w, r.cookies.session, r.uid, from, to, r.now, r.aliveAt);
  }

  /** A swapped handoff leads to a clean URL that will be served if its parent session lives. */
  lemma ExchangeDescends(w: World, b: Browser, r: AppRequest, h: HandoffClaims, from: int, to: int)
    requires Settled(w, from, to) && from <= r.now <= to < from + APP_SESSION_MAX_MS
    requires b.stores && h.uid == r.uid && h.uid != "" && h.sid != ""
    ensures var (w', response) := Exchange(w, r, h);
      && Settled(w', from, to)
      && Rank(w', Receive(b, r.uid, response.cookies), response.to, to) <= 3
      && (Living(w, r.uid, h.sid, to) ==> Rank(w', Receive(b, r.uid, response.cookies), response.to, to) == 0)
  {
    var (w', response) := Exchange(w, r, h);
    var b' := Receive(b, r.uid, response.cookies);
    if Living(w, r.uid, h.sid, to) {
      assert VerifyAppSession(w'.signed, Some(b'.sessionCookies[r.uid]), to) ==
        Some(SessionClaims(h.uid, h.sid, r.now + APP_SESSION_MAX_MS));
      assert Admitted(w', b', r.uid, to);
    }
  }

  lemma AppDescends(install: Install, w: World, b: Browser, at: Location, hop: Hop, from: int, to: int)
    requires Settled(w, from, to) && ValidBrowser(b) && at.AtApp?
    requires from <= hop.now <= to < from + APP_SESSION_MAX_MS && from <= hop.aliveAt <= to && IsState(hop.newState)
    ensures var (w', b', response) := Visit(install, w, b, at, hop);
      && Settled(w', from, to) && ValidBrowser(b')
      && (response.Redirect? ==> Rank(w', b', response.to, to) < Rank(w, b, at, to))
  {
    var r := AppRequest(at.uid, at.pkg, at.path, true, false, at.handoff, Sent(b, at.uid),
      hop.now, hop.burnAt, hop.aliveAt, hop.newState);
    if at.handoff.Some? {
      var st := if r.cookies.state.Some? then r.cookies.state.value else "";
      var (burned, result) := ConsumeHandoff(w, at.handoff.value, r.uid, r.pkg, st, r.now, r.burnAt);
      var w1 := w.(burned := burned);
      if result.Accepted? {
        assert b.stores;
        ExchangeDescends(w1, b, r, result.h, from, to);
      } else {
        AdmitDescends(w1, b, r, from, to);
      }
    } else {
      AdmitDescends(w, b, r, from, to);
    }
  }

  /** The redirects of a chain are bounded by the rank of where it starts. */
  lemma {:induction false} FollowBounded(install: Install, w: World, b: Browser, at: Location, hops: seq<Hop>,
                                         from: int, to: int)
    requires Settled(w, from, to) && ValidBrowser(b) && Timely(hops, from, to) && to < from + APP_SESSION_MAX_MS
    ensures var (n, end) := Follow(install, w, b, at, hops);
      n <= Rank(w, b, at, to) && (|hops| > Rank(w, b, at, to) ==> end.Some?)
    decreases |hops|
  {
    if hops != [] {
      var (w', b', response) := Visit(install, w, b, at, hops[0]);
      if at.AtApp? {
        AppDescends(install, w, b, at, hops[0], from, to);
      } else if at.AtOpen? {
        OpenDescends(install, w, b, at.pkg, at.state, hops[0], from, to);
      }
      if response.Redirect? && !response.to.AtSignIn? {
        FollowBounded(install, w', b', response.to, hops[1..], from, to);
      }
    }
  }

  /** Where a chain can end when it does not end in an error of `/apps/open`. */
  predicate Arrival(r: Response) {
    r.App? || r.OpenFromKodyPage? || (r.Redirect? && r.to.AtSignIn?)
  }

  lemma {:induction false} FollowArrives(install: Install, w: World, b: Browser, at: Location, hops: seq<Hop>)
    requires !at.AtSignIn?
    ensures var end := Follow(install, w, b, at, hops).1;
      end.Some? ==> Arrival(end.value) || end == Some(Refused(404)) || end == Some(Refused(500))
    ensures (forall uid, pkg :: install.isApp(uid, pkg) && install.mappable(uid)) ==>
      var end := Follow(install, w, b, at, hops).1; end.Some? ==> Arrival(end.value)
    decreases |hops|
  {
    if hops != [] {
      var (w', b', response) := Visit(install, w, b, at, hops[0]);
      if response.Redirect? && !response.to.AtSignIn? {
        FollowArrives(install, w', b', response.to, hops[1..]);
      }
    }
  }

  /**
   A browser that keeps all cookies or none, and no session of which expires on the way, is through
   after at most four redirects: in a served app, at the sign-in page, or on the page that asks to
   open the app from Kody; or, for a package that is no app of the account, in an error of
   `/apps/open`.
   */
  lemma ChainsEnd(install: Install, w: World, b: Browser, at: Location, hops: seq<Hop>, from: int, to: int)
    requires Settled(w, from, to) && ValidBrowser(b) && Timely(hops, from, to) && to < from + APP_SESSION_MAX_MS
    requires |hops| >= 5 && !at.AtSignIn?
    ensures var (n, end) := Follow(install, w, b, at, hops);
      && n <= 4 && end.Some?
      && (Arrival(end.value) || end == Some(Refused(404)) || end == Some(Refused(500)))
      && ((forall uid, pkg :: install.isApp(uid, pkg) && install.mappable(uid)) ==> Arrival(end.value))
  {
    FollowBounded(install, w, b, at, hops, from, to);
    FollowArrives(install, w, b, at, hops);
  }

  /** Four redirects do happen: opening an app with no state and no cookies but the Kody session. */
  lemma FourRedirects(install: Install, uid: string, pkg: string, hop: Hop)
    requires install.isApp(uid, pkg) && install.mappable(uid) && uid != "" && pkg != "" && hop.jti != ""
    requires hop.now <= hop.burnAt < hop.now + HANDOFF_TTL_MS && hop.aliveAt <= hop.burnAt && IsState(hop.newState)
    ensures
      var session := Sessions.Session("sess", uid, hop.now, hop.now + WEB_SESSION_TTL_MS, hop.now);
      var w := World({}, map[], map["kss" := session], {uid}, []);
      var b := Browser(true, Some("kss"), map[], map[]);
      Follow(install, w, b, AtOpen(pkg, ""), [hop, hop, hop, hop, hop]) == (4, Some(App))
  {
    var row := Sessions.Session("sess", uid, hop.now, hop.now + WEB_SESSION_TTL_MS, hop.now);
    var w := World({}, map[], map["kss" := row], {uid}, []);
    var b := Browser(true, Some("kss"), map[], map[]);
    var plain := AtApp(uid, pkg, "/", None);
    assert Visit(install, w, b, AtOpen(pkg, ""), hop) == (w, b, Redirect(plain, KeepCookies));
    var b1 := b.(stateCookies := map[uid := hop.newState]);
    assert Visit(install, w, b, plain, hop) == (w, b1, Redirect(AtOpen(pkg, hop.newState), SetState(hop.newState)));
    var h := HandoffClaims(uid, pkg, "sess", hop.newState, hop.now + HANDOFF_TTL_MS, hop.jti);
    var w2 := w.(signed := {ForHandoff(h)}, log := [Minted(h)]);
    var swap := AtApp(uid, pkg, "/", Some(Spelling(ForHandoff(h), 0)));
    assert w.log + [Minted(h)] == [Minted(h)] && w.signed + {ForHandoff(h)} == {ForHandoff(h)};
    assert Visit(install, w, b1, AtOpen(pkg, hop.newState), hop) == (w2, b1, Redirect(swap, KeepCookies));
    var s := SessionClaims(uid, "sess", hop.now + APP_SESSION_MAX_MS);
    var (w3, b3, r3) := Visit(install, w2, b1, swap, hop);
    assert hop.jti !in Accounts.PurgeBurned(map[], hop.burnAt);
    assert b3.sessionCookies == map[uid := Spelling(ForSession(s), 0)] && w3.sessions == w.sessions && r3.to == plain;
    assert Sessions.Alive(w3.sessions, uid, "sess", hop.aliveAt) by {
      assert w3.sessions["kss"] == row;
    }
    assert Visit(install, w3, b3, plain, hop).2 == App;
    Unroll(install, w3, b3, plain, [hop]);
    Unroll(install, w2, b1, swap, [hop, hop]);
    Unroll(install, w, b1, AtOpen(pkg, hop.newState), [hop, hop, hop]);
    Unroll(install, w, b, plain, [hop, hop, hop, hop]);
    Unroll(install, w, b, AtOpen(pkg, ""), [hop, hop, hop, hop, hop]);
  }

  lemma Unroll(install: Install, w: World, b: Browser, at: Location, hops: seq<Hop>)
    requires hops != []
    ensures var (w', b', response) := Visit(install, w, b, at, hops[0]);
      Follow(install, w, b, at, hops) ==
        if response.Redirect? && !response.to.AtSignIn?
        then (Follow(install, w', b', response.to, hops[1..]).0 + 1, Follow(install, w', b', response.to, hops[1..]).1)
        else (if response.Redirect? then 1 else 0, Some(response))
  {
  }
}
