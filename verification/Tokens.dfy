/** Sealed values: base64url without padding, and `<payload>.<signature>` (src/apps/tokens.ts:27-83). */
module Tokens {
  import opened Lists
  import opened Text

  type Byte = b: int | 0 <= b < 256

  type Sextet = v: int | 0 <= v < 64

  // ------------------------------------------------------------------- base64 digits

  predicate IsDigit(c: char) {
    'A' <= c <= 'Z' || 'a' <= c <= 'z' || '0' <= c <= '9' || c == '+' || c == '/'
  }

  function Value(c: char): Sextet
    requires IsDigit(c)
  {
    if 'A' <= c <= 'Z' then (c - 'A') as int
    else if 'a' <= c <= 'z' then (c - 'a') as int + 26
    else if '0' <= c <= '9' then (c - '0') as int + 52
    else if c == '+' then 62 else 63
  }

  /** The standard alphabet of RFC 4648, section 4. */
  function Digit(v: Sextet): (c: char)
    ensures IsDigit(c) && Value(c) == v
  {
    if v < 26 then 'A' + v as char
    else if v < 52 then 'a' + (v - 26) as char
    else if v < 62 then '0' + (v - 52) as char
    else if v == 62 then '+' else '/'
  }

  /** The URL-safe substitutions of RFC 4648, section 5. */
  function UrlSafe(c: char): char {
    if c == '+' then '-' else if c == '/' then '_' else c
  }

  function Standard(c: char): char {
    if c == '-' then '+' else if c == '_' then '/' else c
  }

  predicate IsUrlDigit(c: char) {
    'A' <= c <= 'Z' || 'a' <= c <= 'z' || '0' <= c <= '9' || c == '-' || c == '_'
  }

  function MapChars(s: string, f: char -> char): (r: string)
    ensures |r| == |s| && forall i :: 0 <= i < |s| ==> r[i] == f(s[i])
  {
    Map(s, f)
  }

  // ------------------------------------------------------------------ btoa and atob

  /** Some digits, and nothing else. */
  predicate AllDigits(s: string) {
    forall i :: 0 <= i < |s| ==> IsDigit(s[i])
  }

  /** Three bytes are four sextets; a last one or two bytes are two or three, filled up with zero bits. */
  function Sextets(b: seq<Byte>): (v: seq<Sextet>)
    ensures |v| % 4 == (if |b| % 3 == 0 then 0 else |b| % 3 + 1)
    ensures v == [] <==> b == []
  {
    if |b| == 0 then []
    else if |b| == 1 then [b[0] / 4, b[0] % 4 * 16]
    else if |b| == 2 then [b[0] / 4, b[0] % 4 * 16 + b[1] / 16, b[1] % 16 * 4]
    else [b[0] / 4, b[0] % 4 * 16 + b[1] / 16, b[1] % 16 * 4 + b[2] / 64, b[2] % 64] + Sextets(b[3..])
  }

  /** The bytes of a sequence of sextets; spare low bits are dropped. */
  function Octets(v: seq<Sextet>): seq<Byte>
    requires |v| % 4 != 1
  {
    if |v| == 0 then []
    else
      var x: int, y: int := v[0], v[1];
      if |v| == 2 then [x * 4 + y / 16]
      else
        var z: int := v[2];
        if |v| == 3 then [x * 4 + y / 16, y % 16 * 16 + z / 4]
        else
          var w: int := v[3];
          [x * 4 + y / 16, y % 16 * 16 + z / 4, z % 4 * 64 + w] + Octets(v[4..])
  }

  lemma ThreeBytes(x: Byte, y: Byte, z: Byte)
    ensures (x / 4) * 4 + (x % 4 * 16 + y / 16) / 16 == x
    ensures (x % 4 * 16 + y / 16) % 16 * 16 + (y % 16 * 4 + z / 64) / 4 == y
    ensures (y % 16 * 4 + z / 64) % 4 * 64 + z % 64 == z
  {
  }

  lemma {:induction false} OctetsOfSextets(b: seq<Byte>)
    ensures Octets(Sextets(b)) == b
  {
    if |b| > 2 {
      var head: seq<Sextet> := [b[0] / 4, b[0] % 4 * 16 + b[1] / 16, b[1] % 16 * 4 + b[2] / 64, b[2] % 64];
      var rest := Sextets(b[3..]);
      ThreeBytes(b[0], b[1], b[2]);
      OctetsOfSextets(b[3..]);
      assert (head + rest)[4..] == rest;
      assert b == [b[0], b[1], b[2]] + b[3..];
    } else if |b| == 2 {
      ThreeBytes(b[0], b[1], 0);
    } else if |b| == 1 {
      ThreeBytes(b[0], 0, 0);
    }
  }

  /** The digits of the bytes, without padding. */
  function Digits(b: seq<Byte>): (s: string)
    ensures AllDigits(s) && |s| == |Sextets(b)|
  {
    Map(Sextets(b), Digit)
  }

  function Pad(n: nat): string {
    if n == 0 then "" else "=" + Pad(n - 1)
  }

  function Btoa(b: seq<Byte>): string {
    Digits(b) + Pad((3 - |b| % 3) % 3)
  }

  /** The bytes of unpadded digits. */
  function Bytes(s: string): seq<Byte>
    requires |s| % 4 != 1 && AllDigits(s)
  {
    Octets(seq(|s|, i requires 0 <= i < |s| => Value(s[i])))
  }

  function Unpadded(s: string): string {
    if |s| % 4 == 0 && |s| >= 2 && s[|s| - 2..] == "==" then s[..|s| - 2]
    else if |s| % 4 == 0 && |s| >= 1 && s[|s| - 1] == '=' then s[..|s| - 1]
    else s
  }

  /** The forgiving decoder; `None` where it throws. */
  function Atob(s: string): Option<seq<Byte>> {
    var digits := Unpadded(s);
    if |digits| % 4 != 1 && AllDigits(digits) then Some(Bytes(digits)) else None
  }

  // ------------------------------------------------------------------------ base64url

  /** `replace(/=+$/, '')`. */
  function StripPadding(s: string): string {
    if s != "" && s[|s| - 1] == '=' then StripPadding(s[..|s| - 1]) else s
  }

  function Encode(b: seq<Byte>): string {
    StripPadding(MapChars(Btoa(b), UrlSafe))
  }

  function FromBase64Url(text: string): Option<seq<Byte>> {
    if text == "" || exists c :: c in text && !IsUrlDigit(c) then None
    else Atob(MapChars(text, Standard) + Pad((4 - |text| % 4) % 4))
  }

  /** The source collects the bytes as a string of Latin-1 characters first. */
  method ToBase64Url(bytes: seq<Byte>) returns (text: string)
    ensures text == Encode(bytes)
  {
    var binary: string := "";
    for i := 0 to |bytes|
      invariant |binary| == i && forall k :: 0 <= k < i ==> binary[k] as int == bytes[k]
    {
      binary := binary + [bytes[i] as char];
    }
    var codes := seq(|binary|, k requires 0 <= k < |binary| => binary[k] as int);
    assert codes == bytes;
    return StripPadding(MapChars(Btoa(codes), UrlSafe));
  }

  lemma BytesOfDigits(b: seq<Byte>)
    ensures Bytes(Digits(b)) == b
  {
    OctetsOfSextets(b);
    var s := Digits(b);
    assert seq(|s|, i requires 0 <= i < |s| => Value(s[i])) == Sextets(b);
  }

  lemma {:induction false} StripPad(s: string, n: nat)
    requires s == "" || s[|s| - 1] != '='
    ensures StripPadding(s + Pad(n)) == s
  {
    if n == 0 {
      assert s + Pad(0) == s;
    } else {
      PadEnd(n);
      assert (s + Pad(n))[..|s + Pad(n)| - 1] == s + Pad(n - 1);
      StripPad(s, n - 1);
    }
  }

  lemma {:induction false} PadEnd(n: nat)
    ensures |Pad(n)| == n && forall c :: c in Pad(n) ==> c == '='
    ensures n > 0 ==> Pad(n)[n - 1] == '=' && Pad(n)[..n - 1] == Pad(n - 1)
  {
    if n > 0 {
      PadEnd(n - 1);
      if n > 1 {
        assert Pad(n)[..n - 1] == "=" + Pad(n - 1)[..n - 2];
      }
    }
  }

  /** The encoding is the digits with the URL-safe substitutions, so it holds neither dot nor padding. */
  lemma EncodeIsDigits(b: seq<Byte>)
    ensures Encode(b) == MapChars(Digits(b), UrlSafe)
    ensures forall c :: c in Encode(b) ==> IsUrlDigit(c) && c != '.'
    ensures Encode(b) == "" <==> b == []
  {
    var n := (3 - |b| % 3) % 3;
    PadEnd(n);
    var mapped := MapChars(Digits(b), UrlSafe);
    assert MapChars(Btoa(b), UrlSafe) == mapped + Pad(n);
    assert forall i :: 0 <= i < |mapped| ==> IsDigit(Digits(b)[i]) && IsUrlDigit(mapped[i]);
    StripPad(mapped, n);
  }

  lemma UnpaddedPadded(digits: string, n: nat)
    requires AllDigits(digits) && n <= 2 && (|digits| + n) % 4 == 0
    ensures Unpadded(digits + Pad(n)) == digits
  {
    ShortPad(n);
    NoPadInDigits(digits);
    UnpaddedText(digits, Pad(n));
  }

  lemma NoPadInDigits(digits: string)
    requires AllDigits(digits)
    ensures '=' !in digits
  {
  }

  lemma DigitsArePlain(digits: string)
    requires AllDigits(digits)
    ensures forall i :: 0 <= i < |digits| ==> IsUrlDigit(UrlSafe(digits[i]))
  {
    forall i | 0 <= i < |digits| ensures IsUrlDigit(UrlSafe(digits[i])) {
      assert IsDigit(digits[i]);
    }
  }

  lemma ShortPad(n: nat)
    ensures n <= 2 ==> |Pad(n)| == n && Pad(n) == (if n == 0 then "" else if n == 1 then "=" else "==")
  {
    if n == 2 {
      assert Pad(2) == "=" + Pad(1) && Pad(1) == "=" + Pad(0);
    }
  }

  lemma UnpaddedText(digits: string, pad: string)
    requires (pad == "" || pad == "=" || pad == "==") && (|digits| + |pad|) % 4 == 0
    requires '=' !in digits
    ensures Unpadded(digits + pad) == digits
  {
    var s := digits + pad;
    assert s[..|digits|] == digits && s[|digits|..] == pad;
    if |s| >= 2 && |pad| < 2 {
      assert s[|s| - 2] == digits[|s| - 2] && s[|s| - 2..][0] != '=';
    }
  }

  /** Decoding undoes encoding for every byte sequence but the empty one, which decodes to nothing. */
  lemma DecodeEncode(b: seq<Byte>)
    ensures FromBase64Url(Encode(b)) == (if b == [] then None else Some(b))
  {
    EncodeIsDigits(b);
    if b != [] {
      DecodeDigits(Digits(b), (3 - |b| % 3) % 3);
      BytesOfDigits(b);
    }
  }

  lemma DecodeDigits(digits: string, n: nat)
    requires digits != "" && AllDigits(digits) && n <= 2 && (|digits| + n) % 4 == 0
    ensures FromBase64Url(MapChars(digits, UrlSafe)) == Some(Bytes(digits))
  {
    var text := MapChars(digits, UrlSafe);
    DigitsArePlain(digits);
    assert forall c :: c in text ==> IsUrlDigit(c);
    StandardRestores(digits);
    UnpaddedPadded(digits, n);
    PaddingLength(|digits|, n);
    assert FromBase64Url(text) == Atob(digits + Pad(n));
  }

  lemma PaddingLength(length: nat, n: nat)
    requires n <= 2 && (length + n) % 4 == 0
    ensures n == (4 - length % 4) % 4 && length % 4 != 1
  {
  }

  lemma StandardRestores(digits: string)
    requires AllDigits(digits)
    ensures MapChars(MapChars(digits, UrlSafe), Standard) == digits
  {
  }

  /** Two texts can decode alike: spare bits are not checked, so a sealed value has other spellings. */
  lemma SpareBitsAreIgnored(x: Sextet, y: Sextet)
    requires y % 16 == 0
    ensures FromBase64Url([UrlSafe(Digit(x)), UrlSafe(Digit(y))]) ==
      FromBase64Url([UrlSafe(Digit(x)), UrlSafe(Digit(y + 1))])
         == Some([x * 4 + y / 16])
  {
    TwoDigits(x, y);
    TwoDigits(x, y + 1);
  }

  lemma TwoDigits(x: Sextet, y: Sextet)
    ensures FromBase64Url([UrlSafe(Digit(x)), UrlSafe(Digit(y))]) == Some([x * 4 + y / 16])
  {
    var digits := [Digit(x), Digit(y)];
    DecodeDigits(digits, 2);
    assert MapChars(digits, UrlSafe) == [UrlSafe(Digit(x)), UrlSafe(Digit(y))];
    assert seq(2, i requires 0 <= i < 2 => Value(digits[i])) == [x, y];
  }

  // -------------------------------------------------------------------------- sealing

  /** Claims as JSON text in UTF-8, with whatever the parser refuses as `None`. */
  datatype Codec<!C> = Codec(render: C -> seq<Byte>, parse: seq<Byte> -> Option<C>)

  /** HMAC-SHA-256 as an ideal function of key and message. */
  type Mac = (string, string) -> seq<Byte>

  ghost predicate Faithful<C(!new)>(codec: Codec<C>) {
    forall c :: codec.render(c) != [] && codec.parse(codec.render(c)) == Some(c)
  }

  /** No two keys or messages share a signature, and no signature is empty. */
  ghost predicate Ideal(mac: Mac) {
    && (forall k, m :: mac(k, m) != [])
    && forall k, m, k', m' :: mac(k, m) == mac(k', m') ==> k == k' && m == m'
  }

  function Seal<C>(mac: Mac, codec: Codec<C>, key: string, purpose: string, claims: C): string {
    var payload := Encode(codec.render(claims));
    payload + "." + Encode(mac(key, purpose + "." + payload))
  }

  datatype Unsealed<+C> = Opened(claims: C) | Malformed | BadSignature

  function Unseal<C>(mac: Mac, codec: Codec<C>, key: string, purpose: string, value: string): Unsealed<C> {
    var parts := Split(value, '.');
    if |parts| != 2 || parts[0] == "" || parts[1] == "" then Malformed
    else
      var signature := FromBase64Url(parts[1]);
      if signature.None? then Malformed
      else if signature.value != mac(key, purpose + "." + parts[0]) then BadSignature
      else
        var bytes := FromBase64Url(parts[0]);
        if bytes.None? then Malformed
        else
          var claims := codec.parse(bytes.value);
          if claims.None? then Malformed else Opened(claims.value)
  }

  /** The signature a value bears, decoded. */
  function SignatureOf(value: string): Option<seq<Byte>> {
    var parts := Split(value, '.');
    if |parts| == 2 then FromBase64Url(parts[1]) else None
  }

  lemma TwoParts(payload: string, signature: string)
    requires '.' !in payload && '.' !in signature
    ensures Split(payload + "." + signature, '.') == [payload, signature]
  {
    SplitConcat(payload, signature, '.');
    SplitPlain(payload, '.');
    SplitPlain(signature, '.');
  }

  lemma EncodeNonempty(b: seq<Byte>)
    requires b != []
    ensures Encode(b) != "" && '.' !in Encode(b) && FromBase64Url(Encode(b)) == Some(b)
  {
    EncodeIsDigits(b);
    DecodeEncode(b);
  }

  lemma SealedParts<C(!new)>(mac: Mac, codec: Codec<C>, key: string, purpose: string, claims: C)
    requires Faithful(codec) && Ideal(mac)
    ensures var payload := Encode(codec.render(claims));
      && Split(Seal(mac, codec, key, purpose, claims), '.') == [payload, Encode(mac(key, purpose + "." + payload))]
      && payload != "" && '.' !in payload && FromBase64Url(payload) == Some(codec.render(claims))
      && Encode(mac(key, purpose + "." + payload)) != ""
      && FromBase64Url(Encode(mac(key, purpose + "." + payload))) == Some(mac(key, purpose + "." + payload))
  {
    var payload := Encode(codec.render(claims));
    EncodeNonempty(codec.render(claims));
    EncodeNonempty(mac(key, purpose + "." + payload));
    TwoParts(payload, Encode(mac(key, purpose + "." + payload)));
  }

  /** A sealed value opens to its claims under its own key and purpose, and under no other. */
  lemma UnsealSealed<C(!new)>(mac: Mac, codec: Codec<C>, key: string, purpose: string, claims: C,
                              key': string, purpose': string)
    requires Faithful(codec) && Ideal(mac)
    ensures Unseal(mac, codec, key', purpose', Seal(mac, codec, key, purpose, claims))
         == if key' == key && purpose' == purpose then Opened(claims) else BadSignature
  {
    SealedParts(mac, codec, key, purpose, claims);
    MacTells(mac, key, purpose, key', purpose', Encode(codec.render(claims)));
  }

  /** Under an ideal mac one payload is signed alike for one key and purpose only. */
  lemma MacTells(mac: Mac, key: string, purpose: string, key': string, purpose': string, payload: string)
    requires Ideal(mac)
    ensures mac(key, purpose + "." + payload) == mac(key', purpose' + "." + payload) <==>
      key == key' && purpose == purpose'
  {
    SamePrefix(purpose, purpose', "." + payload);
    assert purpose + "." + payload == purpose + ("." + payload);
    assert purpose' + "." + payload == purpose' + ("." + payload);
  }

  lemma SamePrefix(a: string, b: string, tail: string)
    ensures a + tail == b + tail ==> a == b
  {
    if a + tail == b + tail {
      assert (a + tail)[..|a|] == a && (b + tail)[..|b|] == b;
    }
  }

  /**
   A value that opens and bears the signature of a sealed value carries the sealed claims, and was
   sealed with that key for that purpose: payload and signature cannot be recombined.
   */
  lemma OpenedWasSealed<C(!new)>(
    mac: Mac, codec: Codec<C>, key: string, purpose: string, value: string, key': string, purpose': string, claims': C)
    requires Faithful(codec) && Ideal(mac) && '.' !in purpose && '.' !in purpose'
    requires Unseal(mac, codec, key, purpose, value).Opened?
    requires SignatureOf(value) == SignatureOf(Seal(mac, codec, key', purpose', claims'))
    ensures key == key' && purpose == purpose' && Unseal(mac, codec, key, purpose, value).claims == claims'
  {
    SealedParts(mac, codec, key', purpose', claims');
    OpenedParts(mac, codec, key, purpose, value);
    var payload, payload' := Split(value, '.')[0], Encode(codec.render(claims'));
    assert mac(key, purpose + "." + payload) == mac(key', purpose' + "." + payload');
    SignatureDetermines(mac, key, purpose, payload, key', purpose', payload');
    assert Some(Unseal(mac, codec, key, purpose, value).claims) == codec.parse(codec.render(claims')) == Some(claims');
  }

  lemma SignatureDetermines(mac: Mac, key: string, purpose: string, payload: string, key': string, purpose': string,
                            payload': string)
    requires Ideal(mac) && '.' !in purpose && '.' !in purpose' && '.' !in payload && '.' !in payload'
    requires mac(key, purpose + "." + payload) == mac(key', purpose' + "." + payload')
    ensures key == key' && purpose == purpose' && payload == payload'
  {
    SameMessage(purpose, payload, purpose', payload');
  }

  lemma OpenedParts<C>(mac: Mac, codec: Codec<C>, key: string, purpose: string, value: string)
    requires Unseal(mac, codec, key, purpose, value).Opened?
    ensures var parts := Split(value, '.');
      && |parts| == 2 && '.' !in parts[0]
      && FromBase64Url(parts[1]) == Some(mac(key, purpose + "." + parts[0]))
      && FromBase64Url(parts[0]).Some?
      && codec.parse(FromBase64Url(parts[0]).value) == Some(Unseal(mac, codec, key, purpose, value).claims)
  {
  }

  /** The message that is signed determines purpose and payload. */
  lemma SameMessage(purpose: string, payload: string, purpose': string, payload': string)
    requires '.' !in purpose && '.' !in purpose' && '.' !in payload && '.' !in payload'
    ensures purpose + "." + payload == purpose' + "." + payload' ==> purpose == purpose' && payload == payload'
  {
    SplitConcat(purpose, payload, '.');
    SplitConcat(purpose', payload', '.');
    SplitPlain(purpose, '.');
    SplitPlain(purpose', '.');
    SplitPlain(payload, '.');
    SplitPlain(payload', '.');
    assert ([purpose] + [payload])[0] == purpose && ([purpose] + [payload])[1] == payload;
    assert ([purpose'] + [payload'])[0] == purpose' && ([purpose'] + [payload'])[1] == payload';
  }
}
