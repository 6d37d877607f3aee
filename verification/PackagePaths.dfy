/** Paths of package files in URLs: percent coding and normalization (universal/package-files.ts). */
module PackagePaths {
  import opened Lists
  import opened Text

  // -------------------------------------------------------------------- UTF-8 octets

  type Octet = o: int | 0 <= o < 256

  /** The UTF-8 octets of a character (section 3 of RFC 3629). */
  function Utf8(c: char): (octets: seq<Octet>)
    ensures 1 <= |octets| <= 4
  {
    var n := c as int;
    if n < 0x80 then [n]
    else if n < 0x800 then [0xC0 + n / 64, 0x80 + n % 64]
    else if n < 0x1_0000 then [0xE0 + n / 4096, 0x80 + n / 64 % 64, 0x80 + n % 64]
    else [0xF0 + n / 262144, 0x80 + n / 4096 % 64, 0x80 + n / 64 % 64, 0x80 + n % 64]
  }

  /** How many octets must follow a leading octet; none is given for one that cannot lead. */
  function Followers(lead: int): Option<nat> {
    if 0 <= lead < 0x80 then Some(0)
    else if 0xC0 <= lead < 0xE0 then Some(1)
    else if 0xE0 <= lead < 0xF0 then Some(2)
    else if 0xF0 <= lead < 0xF8 then Some(3)
    else None
  }

  /** The bits a leading octet contributes. */
  function LeadBits(lead: int, followers: nat): int {
    if followers == 0 then lead
    else if followers == 1 then lead - 0xC0
    else if followers == 2 then lead - 0xE0
    else lead - 0xF0
  }

  /** The least code point that needs so many octets; a smaller one is overlong. */
  function LeastWith(followers: nat): int {
    if followers == 0 then 0 else if followers == 1 then 0x80 else if followers == 2 then 0x800 else 0x1_0000
  }

  predicate IsScalar(n: int) {
    0 <= n < 0xD800 || 0xE000 <= n < 0x11_0000
  }

  // ----------------------------------------------------------------- percent encoding

  /** The characters `encodeURIComponent` leaves alone. */
  predicate Unreserved(c: char) {
    'A' <= c <= 'Z' || 'a' <= c <= 'z' || '0' <= c <= '9' || c in "-_.!~*'()"
  }

  function HexDigit(n: int): char
    requires 0 <= n < 16
  {
    if n < 10 then '0' + n as char else 'A' + (n - 10) as char
  }

  function HexValue(c: char): (v: Option<int>)
    ensures v.Some? ==> 0 <= v.value < 16
  {
    if '0' <= c <= '9' then Some(c as int - '0' as int)
    else if 'A' <= c <= 'F' then Some(c as int - 'A' as int + 10)
    else if 'a' <= c <= 'f' then Some(c as int - 'a' as int + 10)
    else None
  }

  function Percent(octet: Octet): (s: string)
    ensures |s| == 3
  {
    ['%', HexDigit(octet / 16), HexDigit(octet % 16)]
  }

  function Percents(octets: seq<Octet>): string
  {
    if octets == [] then "" else Percent(octets[0]) + Percents(octets[1..])
  }

  function EncodeChar(c: char): string {
    if Unreserved(c) then [c] else Percents(Utf8(c))
  }

  /** JavaScript's `encodeURIComponent`, on text without lone surrogates. */
  function Encode(s: string): string {
    if s == "" then "" else EncodeChar(s[0]) + Encode(s[1..])
  }

  // ----------------------------------------------------------------- percent decoding

  /** The octet a text starts with, if it starts with a percent sign and two digits. */
  function ReadOctet(s: string): (o: Option<int>)
    ensures o.Some? ==> |s| >= 3 && 0 <= o.value < 256
  {
    if |s| < 3 || s[0] != '%' then None else
      match (HexValue(s[1]), HexValue(s[2]))
      case (Some(hi), Some(lo)) => Some(16 * hi + lo)
      case _ => None
  }

  /** Read `n` more octets `10xxxxxx` and append their bits to `acc`. */
  function ReadMore(s: string, n: nat, acc: int): (v: Option<int>)
    ensures v.Some? ==> |s| >= 3 * n
    decreases n
  {
    if n == 0 then Some(acc) else
      match ReadOctet(s)
      case None => None
      case Some(o) => if 0x80 <= o < 0xC0 then ReadMore(s[3..], n - 1, 64 * acc + (o - 0x80)) else None
  }

  /** The code point spelled at the start of a text and the number of octets it takes. */
  function ReadCodePoint(s: string): (v: Option<(int, nat)>)
    ensures v.Some? ==> IsScalar(v.value.0) && |s| >= 3 * (v.value.1 + 1)
  {
    match ReadOctet(s)
    case None => None
    case Some(lead) =>
      match Followers(lead)
      case None => None
      case Some(n) =>
        match ReadMore(s[3..], n, LeadBits(lead, n))
        case None => None
        case Some(point) => if LeastWith(n) <= point && IsScalar(point) then Some((point, n)) else None
  }

  function Prepend(c: char, rest: Option<string>): Option<string> {
    match rest case None => None case Some(t) => Some([c] + t)
  }

  /** JavaScript's `decodeURIComponent`; no result where it throws. */
  function Decode(s: string): Option<string>
    decreases |s|
  {
    if s == "" then Some("")
    else if s[0] != '%' then Prepend(s[0], Decode(s[1..]))
    else
      match ReadCodePoint(s)
      case None => None
      case Some((point, n)) => Prepend(point as char, Decode(s[3 * (n + 1)..]))
  }

  // ------------------------------------------------------------------- the round trip

  lemma ReadPercent(octet: Octet, rest: string)
    ensures ReadOctet(Percent(octet) + rest) == Some(octet)
    ensures (Percent(octet) + rest)[3..] == rest
  {
    var hi, lo := octet / 16, octet % 16;
    HexRoundTrip(hi);
    HexRoundTrip(lo);
    var s := Percent(octet) + rest;
    assert s[0] == '%' && s[1] == HexDigit(hi) && s[2] == HexDigit(lo);
  }

  lemma HexRoundTrip(n: int)
    requires 0 <= n < 16
    ensures HexValue(HexDigit(n)) == Some(n)
  {
  }

  /** The bits that octets of the form `10xxxxxx` append. */
  function Appended(octets: seq<Octet>, acc: int): int {
    if octets == [] then acc else Appended(octets[1..], 64 * acc + octets[0] - 0x80)
  }

  lemma {:induction false} ReadFollowers(octets: seq<Octet>, rest: string, acc: int)
    requires forall o :: o in octets ==> 0x80 <= o < 0xC0
    ensures ReadMore(Percents(octets) + rest, |octets|, acc) == Some(Appended(octets, acc))
    decreases |octets|
  {
    if octets != [] {
      var tail := octets[1..];
      assert forall o :: o in tail ==> o in octets;
      assert octets[0] in octets;
      assert Percents(octets) + rest == Percent(octets[0]) + (Percents(tail) + rest);
      ReadPercent(octets[0], Percents(tail) + rest);
      ReadFollowers(tail, rest, 64 * acc + octets[0] - 0x80);
    }
  }

  /** What the octets of a character say about it. */
  lemma Utf8Shape(c: char)
    ensures var o := Utf8(c);
            && Followers(o[0]) == Some(|o| - 1)
            && (forall x :: x in o[1..] ==> 0x80 <= x < 0xC0)
            && Appended(o[1..], LeadBits(o[0], |o| - 1)) == c as int
            && LeastWith(|o| - 1) <= c as int && IsScalar(c as int)
  {
    var n := c as int;
    if n < 0x80 {
    } else if n < 0x800 {
      Sextet(n);
      Two(Utf8(c)[1..], n / 64);
    } else if n < 0x1_0000 {
      Sextet(n);
      Sextet(n / 64);
      Three(Utf8(c)[1..], n / 4096);
    } else {
      Sextet(n);
      Sextet(n / 64);
      Sextet(n / 4096);
      Four(Utf8(c)[1..], n / 262144);
    }
  }

  lemma Sextet(n: int)
    requires n >= 0
    ensures n == 64 * (n / 64) + n % 64 && 0 <= n % 64 < 64
    ensures n / 64 / 64 == n / 4096 && n / 4096 / 64 == n / 262144
  {
  }

  lemma Two(o: seq<Octet>, acc: int)
    requires |o| == 1
    ensures Appended(o, acc) == 64 * acc + o[0] - 0x80
  {
    assert o[1..] == [];
  }

  lemma Three(o: seq<Octet>, acc: int)
    requires |o| == 2
    ensures Appended(o, acc) == 64 * (64 * acc + o[0] - 0x80) + o[1] - 0x80
  {
    Two(o[1..], 64 * acc + o[0] - 0x80);
  }

  lemma Four(o: seq<Octet>, acc: int)
    requires |o| == 3
    ensures Appended(o, acc) == 64 * (64 * (64 * acc + o[0] - 0x80) + o[1] - 0x80) + o[2] - 0x80
  {
    Three(o[1..], 64 * acc + o[0] - 0x80);
  }

  lemma {:induction false} PercentsLength(octets: seq<Octet>)
    ensures |Percents(octets)| == 3 * |octets|
  {
    if octets != [] {
      PercentsLength(octets[1..]);
    }
  }

  /** A reserved character is read back from its escapes. */
  lemma ReadEscaped(c: char, rest: string)
    ensures var s := Percents(Utf8(c)) + rest;
            ReadCodePoint(s) == Some((c as int, |Utf8(c)| - 1)) && s[0] == '%' && s[3 * |Utf8(c)|..] == rest
  {
    var o := Utf8(c);
    Utf8Shape(c);
    assert o == [o[0]] + o[1..];
    var s := Percents(o) + rest;
    assert s == Percent(o[0]) + (Percents(o[1..]) + rest);
    ReadPercent(o[0], Percents(o[1..]) + rest);
    ReadFollowers(o[1..], rest, LeadBits(o[0], |o| - 1));
    PercentsLength(o);
  }

  lemma DecodePlain(c: char, rest: string)
    requires c != '%'
    ensures Decode([c] + rest) == Prepend(c, Decode(rest))
  {
    assert ([c] + rest)[1..] == rest;
  }

  lemma DecodeRead(s: string, c: char, n: nat, rest: string)
    requires s != "" && s[0] == '%' && ReadCodePoint(s) == Some((c as int, n)) && s[3 * (n + 1)..] == rest
    ensures Decode(s) == Prepend(c, Decode(rest))
  {
  }

  lemma DecodeEncodedChar(c: char, rest: string)
    ensures Decode(EncodeChar(c) + rest) == Prepend(c, Decode(rest))
  {
    if Unreserved(c) {
      DecodePlain(c, rest);
    } else {
      ReadEscaped(c, rest);
      DecodeRead(Percents(Utf8(c)) + rest, c, |Utf8(c)| - 1, rest);
    }
  }

  /** Every text survives encoding and decoding. */
  lemma {:induction false} DecodeEncode(s: string)
    ensures Decode(Encode(s)) == Some(s)
  {
    if s != "" {
      DecodeEncodedChar(s[0], Encode(s[1..]));
      DecodeEncode(s[1..]);
      assert s == [s[0]] + s[1..];
    }
  }

  // ---------------------------------------------------------------------------- paths

  predicate Junk(s: string) {
    '\\' in s || '\0' in s
  }

  predicate Kept(part: string) {
    part != "" && part != "."
  }

  /** What `normalizePackageFilesPath` does after decoding. */
  function Tidy(decoded: string): Option<string> {
    if Junk(decoded) then None else
      var parts := Filter(Split(decoded, '/'), Kept);
      if ".." in parts then None else Some(Join(parts, "/"))
  }

  /** `normalizePackageFilesPath`: no result for traversal or junk. */
  function NormalizePackageFilesPath(raw: Option<string>): Option<string> {
    match raw
    case None => Some("")
    case Some(text) =>
      var trimmed := Trim(text);
      if trimmed == "" || trimmed == "/" then Some("")
      else if Junk(trimmed) then None
      else
        match Decode(trimmed)
        case None => None
        case Some(decoded) => Tidy(decoded)
  }

  /** Each segment encoded, the slashes kept. */
  function EncodePath(path: string): string {
    Join(Map(Split(path, '/'), Encode), "/")
  }

  function JoinPackageFilesPath(basePath: string, relativePath: string): string {
    if relativePath == "" then basePath else basePath + "/" + EncodePath(relativePath)
  }

  /** The path `loadPackageFilesData` looks up for a decoded route parameter. */
  function LoadedPath(parameter: string): Option<string> {
    NormalizePackageFilesPath(Some(EncodePath(parameter)))
  }

  /** A path as the repository stores it; the empty one is the package root. */
  predicate Clean(path: string) {
    path == "" || (!Junk(path) && forall part :: part in Split(path, '/') ==> Kept(part) && part != "..")
  }

  // ------------------------------------------------------------ encoding decodes once

  predicate UrlSafe(c: char) {
    Unreserved(c) || c == '%' || c == '/'
  }

  ghost predicate AllSafe(s: string) {
    forall i :: 0 <= i < |s| ==> UrlSafe(s[i])
  }

  lemma {:induction false} PercentsSafe(octets: seq<Octet>)
    ensures AllSafe(Percents(octets))
  {
    if octets != [] {
      PercentsSafe(octets[1..]);
    }
  }

  lemma {:induction false} EncodeSafe(s: string)
    ensures AllSafe(Encode(s))
    ensures s != "" ==> Encode(s) != ""
  {
    if s != "" {
      EncodeSafe(s[1..]);
      PercentsSafe(Utf8(s[0]));
      PercentsLength(Utf8(s[0]));
    }
  }

  lemma SafeIsPlain(c: char)
    ensures UrlSafe(c) ==> !IsSpace(c) && c != '\\' && c != '\0'
  {
  }

  lemma {:induction false} JoinSafe(parts: seq<string>)
    requires forall p :: p in parts ==> AllSafe(p)
    ensures AllSafe(Join(parts, "/"))
  {
    if |parts| > 1 {
      assert forall p :: p in parts[1..] ==> p in parts;
      JoinSafe(parts[1..]);
      assert parts[0] in parts;
    } else if |parts| == 1 {
      assert parts[0] in parts;
    }
  }

  /** Put a text in front of a decoded one. */
  function Before(a: string, rest: Option<string>): Option<string> {
    match rest case None => None case Some(t) => Some(a + t)
  }

  lemma {:induction false} DecodeSplits(a: string, rest: string)
    ensures Decode(Encode(a) + rest) == Before(a, Decode(rest))
  {
    if a == "" {
      assert Encode(a) + rest == rest;
      assert forall t: string :: a + t == t;
    } else {
      Associates(EncodeChar(a[0]), Encode(a[1..]), rest);
      DecodeEncodedChar(a[0], Encode(a[1..]) + rest);
      DecodeSplits(a[1..], rest);
      BeforeStep(a, Decode(rest));
    }
  }

  lemma BeforeStep(a: string, rest: Option<string>)
    requires a != ""
    ensures Prepend(a[0], Before(a[1..], rest)) == Before(a, rest)
  {
    assert a == [a[0]] + a[1..];
    if rest.Some? {
      Associates([a[0]], a[1..], rest.value);
    }
  }

  lemma JoinStep(parts: seq<string>)
    requires |parts| > 1
    ensures Join(parts, "/") == parts[0] + "/" + Join(parts[1..], "/")
  {
  }

  lemma {:induction false} DecodeJoined(parts: seq<string>)
    requires parts != []
    ensures Decode(Join(Map(parts, Encode), "/")) == Some(Join(parts, "/"))
  {
    if |parts| == 1 {
      DecodeEncode(parts[0]);
    } else {
      assert Map(parts, Encode)[1..] == Map(parts[1..], Encode);
      var rest, plain := Join(Map(parts[1..], Encode), "/"), Join(parts[1..], "/");
      JoinStep(Map(parts, Encode));
      JoinStep(parts);
      Associates(Encode(parts[0]), "/", rest);
      Associates(parts[0], "/", plain);
      DecodeJoined(parts[1..]);
      DecodeSplits(parts[0], "/" + rest);
      DecodePlain('/', rest);
      assert Decode("/" + rest) == Some("/" + plain);
    }
  }

  /** Trimming, the early exits and the first junk test never see what the parameter holds. */
  lemma EncodedPathIsSafe(path: string)
    ensures AllSafe(EncodePath(path))
    ensures Trim(EncodePath(path)) == EncodePath(path) && !Junk(EncodePath(path))
    ensures Decode(EncodePath(path)) == Some(path)
  {
    var parts := Map(Split(path, '/'), Encode);
    forall p | p in parts ensures AllSafe(p) {
      var i :| 0 <= i < |parts| && parts[i] == p;
      EncodeSafe(Split(path, '/')[i]);
    }
    JoinSafe(parts);
    var s := EncodePath(path);
    forall i | 0 <= i < |s| ensures !IsSpace(s[i]) && s[i] != '\\' && s[i] != '\0' {
      SafeIsPlain(s[i]);
    }
    TrimPlain(s);
    DecodeJoined(Split(path, '/'));
    JoinSplit(path, '/');
  }

  lemma SlashAlone()
    ensures Decode("") == Some("") && Decode("/") == Some("/")
    ensures Tidy("") == Some("") && Tidy("/") == Some("")
    ensures !Clean("/")
  {
    assert "/"[1..] == "" && ['/'] + "" == "/";
    assert Decode("/") == Prepend('/', Decode("/"[1..]));
    SplitPlain("", '/');
    SplitConcat("", "", '/');
    assert "" + ['/'] + "" == "/";
    assert Filter([""], Kept) == [] by { assert [""][1..] == []; }
    assert Filter(["", ""], Kept) == [] by { assert ["", ""][1..] == [""]; }
    assert Split("/", '/') == ["", ""];
    assert "" in Split("/", '/');
  }

  /** A route parameter is decoded exactly once: re-encoding undoes the normalizer's decoding. */
  lemma LoadedPathIsTidy(parameter: string)
    ensures LoadedPath(parameter) == Tidy(parameter)
  {
    EncodedPathIsSafe(parameter);
    var s := EncodePath(parameter);
    SlashAlone();
    assert s == "" || s == "/" ==> parameter == s;
  }

  // ----------------------------------------------------------------------- clean paths

  lemma {:induction false} FilterAll(parts: seq<string>)
    ensures Filter(parts, Kept) == parts <==> forall p :: p in parts ==> Kept(p)
    ensures |Filter(parts, Kept)| == |parts| ==> forall p :: p in parts ==> Kept(p)
  {
    if parts != [] {
      FilterAll(parts[1..]);
      assert parts == [parts[0]] + parts[1..];
    }
  }

  lemma CleanFromParts(parts: seq<string>)
    requires forall p :: p in parts ==> '/' !in p && Kept(p) && p != ".." && !Junk(p)
    ensures Clean(Join(parts, "/"))
  {
    if parts != [] {
      SplitJoin(parts, '/');
      JoinNotJunk(parts);
    }
  }

  lemma {:induction false} JoinNotJunk(parts: seq<string>)
    requires forall p :: p in parts ==> !Junk(p)
    ensures !Junk(Join(parts, "/"))
  {
    if |parts| > 1 {
      assert parts[0] in parts;
      assert forall p :: p in parts[1..] ==> p in parts;
      JoinNotJunk(parts[1..]);
    } else if |parts| == 1 {
      assert parts[0] in parts;
    }
  }

  lemma {:induction false} PartsNotJunk(s: string, c: char)
    requires c !in s
    ensures forall p :: p in Split(s, '/') ==> c !in p
  {
    if s != "" {
      PartsNotJunk(s[1..], c);
      assert s[0] in s;
      assert forall x :: x in s[1..] ==> x in s;
      var rest := Split(s[1..], '/');
      assert rest[0] in rest;
      forall p | p in Split(s, '/') ensures c !in p {
        if s[0] != '/' && p !in rest[1..] {
          assert p == [s[0]] + rest[0];
        }
      }
    }
  }

  /** Whatever comes in, what normalization lets through is a clean path. */
  lemma TidyIsClean(decoded: string)
    ensures Tidy(decoded).Some? ==> Clean(Tidy(decoded).value)
  {
    var parts := Split(decoded, '/');
    FilterMembers(parts, Kept);
    if !Junk(decoded) {
      PartsNotJunk(decoded, '\\');
      PartsNotJunk(decoded, '\0');
      if ".." !in Filter(parts, Kept) {
        CleanFromParts(Filter(parts, Kept));
      }
    }
  }

  lemma NormalizedIsClean(raw: Option<string>)
    ensures var path := NormalizePackageFilesPath(raw); path.Some? ==> Clean(path.value)
  {
    if raw.Some? && Decode(Trim(raw.value)).Some? {
      TidyIsClean(Decode(Trim(raw.value)).value);
    }
  }

  lemma TidyKeepsClean(path: string)
    requires Clean(path)
    ensures Tidy(path) == Some(path)
  {
    var parts := Split(path, '/');
    if path == "" {
      SplitPlain("", '/');
      assert parts == [""] && [""][1..] == [];
      assert Filter([""], Kept) == [];
    } else {
      FilterAll(parts);
      JoinSplit(path, '/');
    }
  }

  /** A decoded route parameter opens the file of exactly that name if and only if it is a clean path. */
  lemma LoadedUnchangedIff(path: string)
    ensures LoadedPath(path) == Some(path) <==> Clean(path)
  {
    LoadedPathIsTidy(path);
    TidyIsClean(path);
    if Clean(path) {
      TidyKeepsClean(path);
    }
  }

  /** A link made for a clean path leads back to that path. */
  lemma LinkRoundTrip(basePath: string, path: string)
    requires Clean(path) && path != ""
    ensures var url := JoinPackageFilesPath(basePath, path);
            basePath + "/" <= url && NormalizePackageFilesPath(Some(url[|basePath| + 1..])) == Some(path)
  {
    var url := JoinPackageFilesPath(basePath, path);
    assert url[|basePath| + 1..] == EncodePath(path);
    LoadedUnchangedIff(path);
  }

  // -------------------------------------------------- why parameters are encoded again

  lemma {:induction false} DecodeShortens(s: string)
    ensures Decode(s).Some? ==> |Decode(s).value| <= |s| && ('%' in s ==> |Decode(s).value| < |s|)
    ensures '%' !in s ==> Decode(s) == Some(s)
    decreases |s|
  {
    if s == "" {
    } else if s[0] != '%' {
      DecodeShortens(s[1..]);
      assert s == [s[0]] + s[1..];
    } else if ReadCodePoint(s).Some? {
      DecodeShortens(s[3 * (ReadCodePoint(s).value.1 + 1)..]);
    }
  }

  lemma {:induction false} FilteredJoinShortens(parts: seq<string>)
    ensures |Join(Filter(parts, Kept), "/")| <= |Join(parts, "/")|
  {
    if parts != [] {
      var rest := Filter(parts[1..], Kept);
      FilteredJoinShortens(parts[1..]);
      if |parts| > 1 {
        JoinStep(parts);
      }
      if Kept(parts[0]) {
        var kept := [parts[0]] + rest;
        assert Filter(parts, Kept) == kept && kept[1..] == rest;
        if rest == [] {
          assert kept == [parts[0]] && Join(kept, "/") == parts[0];
        } else {
          JoinStep(kept);
          assert |parts| > 1;
        }
      } else {
        assert Filter(parts, Kept) == rest;
      }
    }
  }

  lemma TidyShortens(s: string)
    ensures Tidy(s).Some? ==> |Tidy(s).value| <= |s|
  {
    FilteredJoinShortens(Split(s, '/'));
    JoinSplit(s, '/');
  }

  lemma TrimShortens(s: string)
    ensures |Trim(s)| <= |s|
    ensures |Trim(s)| == |s| ==> Trim(s) == s
  {
    StartShortens(s);
  }

  lemma {:induction false} StartShortens(s: string)
    ensures |TrimStart(s)| == |s| ==> TrimStart(s) == s
  {
  }

  /**
   Normalizing a clean path a second time, without encoding it first, returns it if and only if it holds
   no percent sign and no white space at either end.
   */
  lemma NormalizeCleanIff(path: string)
    requires Clean(path)
    ensures NormalizePackageFilesPath(Some(path)) == Some(path) <==> '%' !in path && Trim(path) == path
  {
    var trimmed := Trim(path);
    TrimShortens(path);
    DecodeShortens(trimmed);
    if Decode(trimmed).Some? {
      TidyShortens(Decode(trimmed).value);
    }
    if trimmed == path && path != "" {
      TidyKeepsClean(path);
      SlashAlone();
    }
  }
}
