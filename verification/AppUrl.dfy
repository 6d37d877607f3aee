/** From a user and a package to the app's URL, and from a requested URL back to them (src/apps/app-url.ts). */
module AppUrl {
  import opened Lists
  import opened Text

  datatype Config = Config(subdomain: bool, protocol: string, hostname: string, port: string)

  /** A parsed URL; the URL class has lowered the host name and leaves no line break in the path. */
  datatype Url = Url(hostname: string, port: string, path: string)

  datatype Match =
    | NotAppHost
    | Root
    | NotFound
    | App(userId: string, packageName: string, origin: string, mountPath: string, restPath: string)

  // ------------------------------------------------------------------------- patterns

  predicate IsHex(c: char) {
    '0' <= c <= '9' || 'a' <= c <= 'f'
  }

  predicate IsLabel(s: string) {
    |s| == 32 && forall i :: 0 <= i < |s| ==> IsHex(s[i])
  }

  /** What follows a prefix. */
  function AfterPrefix(prefix: string, s: string): Option<string> {
    if prefix <= s then Some(s[|prefix|..]) else None
  }

  /** What precedes a suffix. */
  function BeforeSuffix(s: string, suffix: string): Option<string> {
    if |suffix| <= |s| && s[|s| - |suffix|..] == suffix then Some(s[..|s| - |suffix|]) else None
  }

  lemma AfterPrefixIff(prefix: string, s: string, t: string)
    ensures AfterPrefix(prefix, s) == Some(t) <==> s == prefix + t
  {
    assert (prefix + t)[|prefix|..] == t;
    if prefix <= s {
      assert s == prefix + s[|prefix|..];
    }
  }

  lemma BeforeSuffixIff(s: string, suffix: string, t: string)
    ensures BeforeSuffix(s, suffix) == Some(t) <==> s == t + suffix
  {
    if s == t + suffix {
      assert s[|t|..] == suffix && s[..|t|] == t;
    }
    if BeforeSuffix(s, suffix).Some? {
      assert s == s[..|s| - |suffix|] + s[|s| - |suffix|..];
    }
  }

  /** `^user_([0-9a-f]{32})$`, and its capture */
  function UserLabel(userId: string): Option<string> {
    match AfterPrefix("user_", userId)
    case None => None
    case Some(sub) => if IsLabel(sub) then Some(sub) else None
  }

  /** `^[A-Za-z0-9_-]{1,64}$` */
  predicate IsPathUserId(s: string) {
    1 <= |s| <= 64 && forall i :: 0 <= i < |s| ==> IsIdChar(s[i])
  }

  predicate IsIdChar(c: char) {
    'A' <= c <= 'Z' || 'a' <= c <= 'z' || '0' <= c <= '9' || c == '_' || c == '-'
  }

  predicate IsNameStart(c: char) {
    'a' <= c <= 'z' || '0' <= c <= '9'
  }

  predicate IsNameChar(c: char) {
    IsNameStart(c) || c == '.' || c == '_' || c == '-'
  }

  predicate IsNamePart(s: string) {
    s != "" && IsNameStart(s[0]) && forall i :: 0 <= i < |s| ==> IsNameChar(s[i])
  }

  /** `name` or `@scope/name`. */
  predicate IsPackageName(s: string) {
    if s != "" && s[0] == '@' then
      var parts := Split(s[1..], '/');
      |parts| == 2 && IsNamePart(parts[0]) && IsNamePart(parts[1])
    else IsNamePart(s)
  }

  predicate NoLineBreak(s: string) {
    forall i :: 0 <= i < |s| ==> s[i] != '\n' && s[i] != '\r' && s[i] != '\U{2028}' && s[i] != '\U{2029}'
  }

  // -------------------------------------------------------------------------- building

  function HostOf(config: Config, userId: string): Option<string> {
    if !config.subdomain then Some(config.hostname) else
      match UserLabel(userId)
      case None => None
      case Some(sub) => Some("user-" + sub + ("." + config.hostname))
  }

  function OriginOf(config: Config, hostname: string): string {
    config.protocol + "//" + (hostname + config.port)
  }

  function MountPrefix(config: Config, userId: string): string {
    if config.subdomain then "" else "/u/" + userId
  }

  function AppMountPath(config: Config, userId: string, packageName: string): string {
    MountPrefix(config, userId) + ("/packages/" + packageName)
  }

  /** `appUrl` with what a browser asks for below it. */
  function AppUrlOf(config: Config, userId: string, packageName: string, tail: string): Option<Url> {
    match HostOf(config, userId)
    case None => None
    case Some(host) => Some(Url(host, config.port, AppMountPath(config, userId, packageName) + tail))
  }

  // -------------------------------------------------------------------------- matching

  /** The part of the host in front of the apex, in subdomain mode. */
  function SubOf(config: Config, hostname: string): Option<string> {
    BeforeSuffix(hostname, "." + config.hostname)
  }

  predicate IsAppOriginHost(config: Config, url: Url) {
    url.hostname == config.hostname || (config.subdomain && SubOf(config, url.hostname).Some?)
  }

  function MatchAppRequest(config: Config, url: Url): Match {
    if !IsAppOriginHost(config, url) then NotAppHost else
      var origin := config.protocol + "//" + (url.hostname + url.port);
      if !config.subdomain then
        if url.path == "/" then Root else MatchPath(url.path, origin)
      else if url.hostname == config.hostname then
        if url.path == "/" then Root else NotFound
      else
        match AfterPrefix("user-", SubOf(config, url.hostname).value)
        case None => NotFound
        case Some(sub) =>
          if !IsLabel(sub) then NotFound
          else if url.path == "/" then Root
          else WithPackage("user_" + sub, "", url.path, origin)
  }

  /** Path mode: `^\/u\/([^/]+)(\/packages\/.*)$`, the user first and the package after. */
  function MatchPath(path: string, origin: string): Match {
    match AfterPrefix("/u/", path)
    case None => NotFound
    case Some(s) =>
      var userId := Split(s, '/')[0];
      SplitCovers(s);
      var rest := s[|userId|..];
      if !NoLineBreak(rest) || !IsPathUserId(userId) then NotFound
      else WithPackage(userId, "/u/" + userId, rest, origin)
  }

  function Shown(tail: string): string {
    if tail == "" then "/" else tail
  }

  function WithPackage(userId: string, prefix: string, rest: string, origin: string): Match {
    match AfterPrefix("/packages/", rest)
    case None => NotFound
    case Some(s) =>
      match TakePackage(s)
      case None => NotFound
      case Some((packageName, tail)) =>
        App(userId, packageName, origin, prefix + ("/packages/" + packageName), Shown(tail))
  }

  /** How many segments name a package: two if the first is a scope. */
  function Takes(s: string): nat {
    var first := Split(s, '/')[0];
    if first != "" && first[0] == '@' then 2 else 1
  }

  /** The package name a text begins with, of one segment or two, and what follows it. */
  function TakePackage(s: string): Option<(string, string)> {
    var segments, take := Split(s, '/'), Takes(s);
    if |segments| < take then None else
      var packageName := Join(segments[..take], "/");
      SegmentsLead(s, take);
      if IsPackageName(packageName) then Some((packageName, s[|packageName|..])) else None
  }

  // -------------------------------------------------------------------------- segments

  predicate IsTail(tail: string) {
    tail == "" || tail[0] == '/'
  }

  /** The first segment of a text is what stands before its first slash. */
  lemma FirstSegment(segment: string, tail: string)
    requires '/' !in segment && IsTail(tail)
    ensures Split(segment + tail, '/') == [segment] + (if tail == "" then [] else Split(tail[1..], '/'))
  {
    SplitPlain(segment, '/');
    if tail == "" {
      assert segment + tail == segment;
    } else {
      assert segment + tail == segment + ['/'] + tail[1..];
      SplitConcat(segment, tail[1..], '/');
    }
  }

  lemma SplitCovers(s: string)
    ensures var segment := Split(s, '/')[0]; '/' !in segment && segment <= s && IsTail(s[|segment|..])
  {
    JoinSplit(s, '/');
  }

  lemma NamePartPlain(s: string)
    requires IsNamePart(s)
    ensures '/' !in s && s[0] != '@'
  {
  }

  /** The shapes of a package name. */
  lemma PackageNameShape(name: string)
    requires IsPackageName(name) && name[0] == '@'
    ensures exists scope, own :: IsNamePart(scope) && IsNamePart(own) && name == "@" + scope + "/" + own
  {
    var parts := Split(name[1..], '/');
    JoinSplit(name[1..], '/');
    assert parts == [parts[0], parts[1]];
    assert Join(parts, "/") == parts[0] + "/" + parts[1];
    assert name == "@" + parts[0] + "/" + parts[1];
  }

  lemma ScopedSegments(first: string, own: string, tail: string)
    requires '/' !in first && '/' !in own && IsTail(tail)
    ensures var segments := Split(first + ['/'] + (own + tail), '/');
            |segments| >= 2 && segments[0] == first && segments[1] == own
  {
    FirstSegment(own, tail);
    SplitPlain(first, '/');
    SplitConcat(first, own + tail, '/');
  }

  lemma TwoTaken(first: string, own: string, tail: string)
    requires first != "" && first[0] == '@' && '/' !in first && '/' !in own && IsTail(tail)
    ensures var s := first + ['/'] + (own + tail);
            Takes(s) == 2 <= |Split(s, '/')| && Join(Split(s, '/')[..2], "/") == first + "/" + own
  {
    ScopedSegments(first, own, tail);
    var pair := Split(first + ['/'] + (own + tail), '/')[..2];
    assert pair == [first, own] && pair[1..] == [own];
  }

  lemma OneTaken(name: string, tail: string)
    requires name != "" && name[0] != '@' && '/' !in name && IsTail(tail)
    ensures Takes(name + tail) == 1 && Join(Split(name + tail, '/')[..1], "/") == name
  {
    FirstSegment(name, tail);
    assert Split(name + tail, '/')[..1] == [name];
  }

  lemma NameTaken(name: string, tail: string)
    requires IsPackageName(name) && IsTail(tail)
    ensures var s := name + tail; Takes(s) <= |Split(s, '/')| && Join(Split(s, '/')[..Takes(s)], "/") == name
  {
    if name[0] == '@' {
      PackageNameShape(name);
      var scope, own :| IsNamePart(scope) && IsNamePart(own) && name == "@" + scope + "/" + own;
      NamePartPlain(scope);
      NamePartPlain(own);
      var first := "@" + scope;
      TwoTaken(first, own, tail);
      assert name + tail == first + ['/'] + (own + tail);
    } else {
      NamePartPlain(name);
      OneTaken(name, tail);
    }
  }

  /** A name followed by a slash or by nothing is taken whole, and nothing else is taken. */
  lemma TakePackageIff(s: string, name: string, tail: string)
    ensures TakePackage(s) == Some((name, tail)) <==> s == name + tail && IsPackageName(name) && IsTail(tail)
  {
    if s == name + tail && IsPackageName(name) && IsTail(tail) {
      NameTaken(name, tail);
      assert s[|name|..] == tail;
    }
    if TakePackage(s) == Some((name, tail)) {
      SegmentsLead(s, Takes(s));
      assert s == name + s[|name|..];
    }
  }

  lemma TwoSegments(s: string)
    requires |Split(s, '/')| >= 2
    ensures var segments := Split(s, '/');
            var two := segments[0] + "/" + segments[1];
            Join(segments[..2], "/") == two && two <= s && IsTail(s[|two|..])
  {
    var segments := Split(s, '/');
    SplitCovers(s);
    var first := segments[0];
    JoinSplit(s, '/');
    var after := Join(segments[1..], "/");
    assert s == first + "/" + after;
    SplitJoin(segments[1..], '/');
    SplitCovers(after);
    assert segments[..2][1..] == [segments[1]];
    var two := first + "/" + segments[1];
    assert s[|two|..] == after[|segments[1]|..];
  }

  /** One or two leading segments are what the text starts with. */
  lemma SegmentsLead(s: string, take: nat)
    requires 1 <= take <= 2 && take <= |Split(s, '/')|
    ensures var lead := Join(Split(s, '/')[..take], "/"); lead <= s && IsTail(s[|lead|..])
  {
    if take == 1 {
      SplitCovers(s);
      assert Split(s, '/')[..1] == [Split(s, '/')[0]];
    } else {
      TwoSegments(s);
    }
  }

  // ------------------------------------------------------------------------ both ways

  predicate IsUserOf(config: Config, userId: string) {
    if config.subdomain then UserLabel(userId).Some? else IsPathUserId(userId)
  }

  /** A path below a mount point, and only such a path, is matched to that package. */
  lemma WithPackageIff(userId: string, prefix: string, rest: string, origin: string, m: Match)
    ensures m.App? && m == WithPackage(userId, prefix, rest, origin) <==>
            exists name, tail :: Mounted(userId, prefix, rest, origin, m, name, tail)
  {
    if m.App? && m == WithPackage(userId, prefix, rest, origin) {
      var s := AfterPrefix("/packages/", rest).value;
      var (name, tail) := TakePackage(s).value;
      AfterPrefixIff("/packages/", rest, s);
      TakePackageIff(s, name, tail);
      assert Mounted(userId, prefix, rest, origin, m, name, tail);
    }
    if exists name, tail :: Mounted(userId, prefix, rest, origin, m, name, tail) {
      var name, tail :| Mounted(userId, prefix, rest, origin, m, name, tail);
      AfterPrefixIff("/packages/", rest, name + tail);
      TakePackageIff(name + tail, name, tail);
    }
  }

  ghost predicate Mounted(userId: string, prefix: string, rest: string, origin: string, m: Match, name: string,
                          tail: string)
  {
    && IsPackageName(name) && IsTail(tail) && rest == "/packages/" + (name + tail)
    && m == App(userId, name, origin, prefix + ("/packages/" + name), Shown(tail))
  }

  lemma MatchPathFinds(userId: string, rest: string, origin: string)
    requires IsPathUserId(userId) && NoLineBreak(rest) && rest != "" && rest[0] == '/'
    ensures MatchPath("/u/" + (userId + rest), origin) == WithPackage(userId, "/u/" + userId, rest, origin)
  {
    AfterPrefixIff("/u/", "/u/" + (userId + rest), userId + rest);
    assert '/' !in userId;
    FirstSegment(userId, rest);
    assert (userId + rest)[|userId|..] == rest;
  }

  lemma MatchPathOnly(path: string, origin: string) returns (userId: string, rest: string)
    requires MatchPath(path, origin).App?
    ensures IsPathUserId(userId) && path == "/u/" + (userId + rest)
    ensures MatchPath(path, origin) == WithPackage(userId, "/u/" + userId, rest, origin)
  {
    var s := AfterPrefix("/u/", path).value;
    AfterPrefixIff("/u/", path, s);
    SplitCovers(s);
    userId := Split(s, '/')[0];
    rest := s[|userId|..];
    assert s == userId + rest;
  }

  lemma UserHost(config: Config, userId: string, sub: string)
    requires config.subdomain && IsLabel(sub)
    ensures UserLabel("user_" + sub) == Some(sub)
    ensures UserLabel(userId) == Some(sub) ==> userId == "user_" + sub
    ensures SubOf(config, "user-" + sub + ("." + config.hostname)) == Some("user-" + sub)
    ensures AfterPrefix("user-", "user-" + sub) == Some(sub)
    ensures "user-" + sub + ("." + config.hostname) != config.hostname
  {
    AfterPrefixIff("user_", "user_" + sub, sub);
    AfterPrefixIff("user_", userId, sub);
    AfterPrefixIff("user-", "user-" + sub, sub);
    BeforeSuffixIff("user-" + sub + ("." + config.hostname), "." + config.hostname, "user-" + sub);
    assert |"user-" + sub + ("." + config.hostname)| > |config.hostname|;
  }

  lemma MountGroups(prefix: string, name: string, tail: string)
    ensures prefix + ("/packages/" + name) + tail == prefix + ("/packages/" + (name + tail))
  {
  }

  /** Every app URL, followed by anything below it, is matched to the user and package it was made for. */
  lemma AppUrlMatches(config: Config, userId: string, packageName: string, tail: string)
    requires IsUserOf(config, userId) && IsPackageName(packageName) && IsTail(tail)
    requires NoLineBreak("/packages/" + (packageName + tail))
    ensures AppUrlOf(config, userId, packageName, tail).Some?
    ensures MatchAppRequest(config, AppUrlOf(config, userId, packageName, tail).value)
         == App(userId, packageName, OriginOf(config, HostOf(config, userId).value),
           AppMountPath(config, userId, packageName), Shown(tail))
  {
    var rest := "/packages/" + (packageName + tail);
    MountGroups(MountPrefix(config, userId), packageName, tail);
    MatchOnHost(config, userId, rest);
    WithPackageFinds(userId, MountPrefix(config, userId), packageName, tail,
      OriginOf(config, HostOf(config, userId).value));
  }

  lemma WithPackageFinds(userId: string, prefix: string, name: string, tail: string, origin: string)
    requires IsPackageName(name) && IsTail(tail)
    ensures WithPackage(userId, prefix, "/packages/" + (name + tail), origin)
         == App(userId, name, origin, prefix + ("/packages/" + name), Shown(tail))
  {
    var m := App(userId, name, origin, prefix + ("/packages/" + name), Shown(tail));
    assert Mounted(userId, prefix, "/packages/" + (name + tail), origin, m, name, tail);
    WithPackageIff(userId, prefix, "/packages/" + (name + tail), origin, m);
  }

  lemma MatchOnHost(config: Config, userId: string, rest: string)
    requires IsUserOf(config, userId) && NoLineBreak(rest) && |rest| > 1 && rest[0] == '/'
    ensures MatchAppRequest(config, Url(HostOf(config, userId).value, config.port, MountPrefix(config, userId) + rest))
         == WithPackage(userId, MountPrefix(config, userId), rest, OriginOf(config, HostOf(config, userId).value))
  {
    if config.subdomain {
      assert "" + rest == rest;
      MatchOnUserHost(config, userId, rest);
    } else {
      assert "/u/" + userId + rest == "/u/" + (userId + rest);
      MatchOnAppHost(config, userId, rest);
    }
  }

  lemma MatchOnUserHost(config: Config, userId: string, rest: string)
    requires config.subdomain && UserLabel(userId).Some? && rest != "/"
    ensures var host := HostOf(config, userId).value;
            MatchAppRequest(config, Url(host, config.port, rest))
              == WithPackage(userId, "", rest, OriginOf(config, host))
  {
    UserHost(config, userId, UserLabel(userId).value);
  }

  lemma MatchOnAppHost(config: Config, userId: string, rest: string)
    requires !config.subdomain && IsPathUserId(userId) && NoLineBreak(rest) && rest != "" && rest[0] == '/'
    ensures MatchAppRequest(config, Url(config.hostname, config.port, "/u/" + (userId + rest)))
         == WithPackage(userId, "/u/" + userId, rest, OriginOf(config, config.hostname))
  {
    MatchPathFinds(userId, rest, OriginOf(config, config.hostname));
    assert ("/u/" + (userId + rest))[1] == 'u';
  }

  /**
   A request is matched to a user and a package only if it is for that package's URL on that user's own
   host; so, in subdomain mode, no request to one user's app origin is matched to another user.
   */
  lemma MatchIsAppUrl(config: Config, url: Url)
    requires MatchAppRequest(config, url).App?
    ensures var app := MatchAppRequest(config, url);
            && IsUserOf(config, app.userId) && IsPackageName(app.packageName)
            && app.mountPath == AppMountPath(config, app.userId, app.packageName)
            && HostOf(config, app.userId) == Some(url.hostname)
            && exists tail :: IsTail(tail) && url.path == app.mountPath + tail && app.restPath == Shown(tail)
  {
    var origin := config.protocol + "//" + (url.hostname + url.port);
    var app := MatchAppRequest(config, url);
    if config.subdomain {
      var front := SubOf(config, url.hostname).value;
      var sub := AfterPrefix("user-", front).value;
      BeforeSuffixIff(url.hostname, "." + config.hostname, front);
      AfterPrefixIff("user-", front, sub);
      UserHost(config, "user_" + sub, sub);
      MountedAt("user_" + sub, "", url.path, url.path, origin, app);
    } else {
      var userId, rest := MatchPathOnly(url.path, origin);
      assert "/u/" + (userId + rest) == "/u/" + userId + rest;
      MountedAt(userId, "/u/" + userId, rest, url.path, origin, app);
    }
  }

  lemma MountedAt(userId: string, prefix: string, rest: string, path: string, origin: string, app: Match)
    requires app == WithPackage(userId, prefix, rest, origin) && app.App? && path == prefix + rest
    ensures app.userId == userId && IsPackageName(app.packageName) &&
      app.mountPath == prefix + ("/packages/" + app.packageName)
    ensures exists tail :: IsTail(tail) && path == app.mountPath + tail && app.restPath == Shown(tail)
  {
    WithPackageIff(userId, prefix, rest, origin, app);
    var name, tail :| Mounted(userId, prefix, rest, origin, app, name, tail);
    MountGroups(prefix, name, tail);
    assert path == app.mountPath + tail;
  }

  /** In subdomain mode two users never share an app origin. */
  lemma OriginsDiffer(config: Config, a: string, b: string)
    requires config.subdomain && IsUserOf(config, a) && IsUserOf(config, b)
    ensures OriginOf(config, HostOf(config, a).value) == OriginOf(config, HostOf(config, b).value) ==> a == b
  {
    var x, y := UserLabel(a).value, UserLabel(b).value;
    UserHost(config, a, x);
    UserHost(config, b, y);
    var hostA, hostB := HostOf(config, a).value, HostOf(config, b).value;
    SameAfter(config.protocol + "//", hostA + config.port, hostB + config.port);
    SameBefore(hostA, hostB, config.port);
    SameBefore("user-" + x, "user-" + y, "." + config.hostname);
    SameAfter("user-", x, y);
  }

  lemma SameAfter(prefix: string, a: string, b: string)
    ensures prefix + a == prefix + b ==> a == b
  {
    assert (prefix + a)[|prefix|..] == a && (prefix + b)[|prefix|..] == b;
  }

  lemma SameBefore(a: string, b: string, suffix: string)
    ensures a + suffix == b + suffix ==> a == b
  {
    if a + suffix == b + suffix {
      assert |a| == |b|;
      assert (a + suffix)[..|a|] == a && (b + suffix)[..|b|] == b;
    }
  }
}
