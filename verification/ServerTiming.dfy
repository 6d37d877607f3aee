/** The Server-Timing header's printer and parser (src/server-timing.ts). */
module ServerTiming {
  import opened Lists
  import opened Text

  datatype Entry = Entry(name: string, durationMs: real, desc: Option<string>)

  // -------------------------------------------------------------------------- quoting

  predicate IsTokenChar(c: char) {
    'A' <= c <= 'Z' || 'a' <= c <= 'z' || '0' <= c <= '9' || c == '_' || c == '-'
  }

  /** `/^[A-Za-z0-9_-]+$/`. */
  predicate IsToken(s: string) {
    s != "" && forall i :: 0 <= i < |s| ==> IsTokenChar(s[i])
  }

  /** `replaceAll` of the two-character text `ab` by `c`. */
  function ReplacePair(s: string, a: char, b: char, c: char): string {
    if |s| >= 2 && s[0] == a && s[1] == b then [c] + ReplacePair(s[2..], a, b, c)
    else if s == "" then "" else [s[0]] + ReplacePair(s[1..], a, b, c)
  }

  function Escaped(value: string): string {
    ReplaceChar(ReplaceChar(value, '\\', "\\\\"), '"', "\\\"")
  }

  function QuoteDesc(value: string): string {
    "\"" + Escaped(value) + "\""
  }

  function UnquoteDesc(value: string): string {
    if |value| >= 2 && value[0] == '"' && value[|value| - 1] == '"'
    then ReplacePair(ReplacePair(value[1..|value| - 1], '\\', '"', '"'), '\\', '\\', '\\')
    else value
  }

  function EscapedChar(c: char): string {
    if c == '\\' then "\\\\" else if c == '"' then "\\\"" else [c]
  }

  /** Escaping goes character by character. */
  lemma {:induction false} EscapedStep(c: char, s: string)
    ensures Escaped([c] + s) == EscapedChar(c) + Escaped(s)
  {
    var once := ReplaceChar(s, '\\', "\\\\");
    assert ([c] + s)[1..] == s;
    if c == '\\' {
      ReplaceConcat("\\\\", once, '"', "\\\"");
      assert ReplaceChar("\\\\", '"', "\\\"") == "\\\\" by {
        assert "\\\\"[1..] == "\\" && "\\"[1..] == "";
      }
    } else {
      assert ([c] + once)[1..] == once;
    }
  }

  lemma {:induction false} EscapedHead(s: string)
    ensures Escaped(s) == "" || Escaped(s)[0] != '"'
    ensures s == "" ==> Escaped(s) == ""
  {
    if s != "" {
      assert s == [s[0]] + s[1..];
      EscapedStep(s[0], s[1..]);
    }
  }

  /** A doubled backslash is no escaped quote, unless a quote follows. */
  lemma UnescapeBackslash(rest: string)
    requires rest == "" || rest[0] != '"'
    ensures ReplacePair("\\\\" + rest, '\\', '"', '"') == "\\\\" + ReplacePair(rest, '\\', '"', '"')
  {
    var one, two := "\\" + rest, "\\\\" + rest;
    assert one[1..] == rest && two[1..] == one;
    assert ReplacePair(one, '\\', '"', '"') == "\\" + ReplacePair(rest, '\\', '"', '"');
  }

  /** The first of the two replacements that undo escaping leaves backslashes doubled. */
  lemma {:induction false} UnescapeQuotes(s: string)
    ensures ReplacePair(Escaped(s), '\\', '"', '"') == ReplaceChar(s, '\\', "\\\\")
  {
    if s == "" {
      EscapedHead(s);
    } else {
      var c, t := s[0], s[1..];
      var rest := Escaped(t);
      assert s == [c] + t;
      EscapedStep(c, t);
      EscapedHead(t);
      UnescapeQuotes(t);
      if c == '\\' {
        UnescapeBackslash(rest);
      } else if c == '"' {
        var u := "\\\"" + rest;
        assert u[2..] == rest;
      } else {
        assert ([c] + rest)[1..] == rest;
      }
    }
  }

  lemma {:induction false} UnescapeBackslashes(s: string)
    ensures ReplacePair(ReplaceChar(s, '\\', "\\\\"), '\\', '\\', '\\') == s
  {
    if s != "" {
      var rest := ReplaceChar(s[1..], '\\', "\\\\");
      UnescapeBackslashes(s[1..]);
      if s[0] == '\\' {
        assert ("\\\\" + rest)[2..] == rest;
      } else {
        assert ([s[0]] + rest)[1..] == rest;
      }
      assert s == [s[0]] + s[1..];
    }
  }

  /** Unquoting undoes quoting for every text (quoted-string, section 5.6.4 of RFC 9110). */
  lemma UnquoteQuote(s: string)
    ensures UnquoteDesc(QuoteDesc(s)) == s
  {
    var q := QuoteDesc(s);
    assert q[1..|q| - 1] == Escaped(s);
    UnescapeQuotes(s);
    UnescapeBackslashes(s);
  }

  // ------------------------------------------------------------------------- scanning

  /** The splitter's local variables. */
  datatype Scan = Scan(parts: seq<string>, current: string, inQuotes: bool, escaped: bool)

  const START := Scan([], "", false, false)

  function Feed(s: Scan, c: char, delimiter: char): Scan {
    if s.escaped then s.(current := s.current + [c], escaped := false)
    else if s.inQuotes && c == '\\' then s.(current := s.current + [c], escaped := true)
    else if c == '"' then s.(current := s.current + [c], inQuotes := !s.inQuotes)
    else if c == delimiter && !s.inQuotes then s.(parts := s.parts + [s.current], current := "")
    else s.(current := s.current + [c])
  }

  function FeedAll(s: Scan, text: string, delimiter: char): Scan {
    if text == "" then s else Feed(FeedAll(s, text[..|text| - 1], delimiter), text[|text| - 1], delimiter)
  }

  function Finish(s: Scan): seq<string> {
    if s.current != "" then s.parts + [s.current] else s.parts
  }

  function SplitParts(header: string, delimiter: char): seq<string> {
    Finish(FeedAll(START, header, delimiter))
  }

  method SplitServerTimingParts(header: string, delimiter: char) returns (parts: seq<string>)
    ensures parts == SplitParts(header, delimiter)
  {
    parts := [];
    var current, inQuotes, escaped := "", false, false;
    for i := 0 to |header|
      invariant Scan(parts, current, inQuotes, escaped) == FeedAll(START, header[..i], delimiter)
    {
      var c := header[i];
      assert header[..i + 1][..i] == header[..i];
      if escaped {
        current := current + [c];
        escaped := false;
      } else if inQuotes && c == '\\' {
        current := current + [c];
        escaped := true;
      } else if c == '"' {
        inQuotes := !inQuotes;
        current := current + [c];
      } else if c == delimiter && !inQuotes {
        parts := parts + [current];
        current := "";
      } else {
        current := current + [c];
      }
    }
    assert header[..|header|] == header;
    if current != "" {
      parts := parts + [current];
    }
  }

  lemma {:induction false} FeedConcat(s: Scan, a: string, b: string, d: char)
    ensures FeedAll(s, a + b, d) == FeedAll(FeedAll(s, a, d), b, d)
  {
    if b == "" {
      assert a + b == a;
    } else {
      FeedConcat(s, a, b[..|b| - 1], d);
      assert (a + b)[..|a + b| - 1] == a + b[..|b| - 1];
    }
  }

  /** The scan of a text behind `parts` and `current`, from its scan on a clean sheet. */
  function Behind(parts: seq<string>, current: string, r: Scan): Scan {
    if r.parts == [] then Scan(parts, current + r.current, r.inQuotes, r.escaped)
    else Scan(parts + [current + r.parts[0]] + r.parts[1..], r.current, r.inQuotes, r.escaped)
  }

  lemma {:induction false} FeedBehind(parts: seq<string>, current: string, q: bool, e: bool, text: string, d: char)
    ensures FeedAll(Scan(parts, current, q, e), text, d) == Behind(parts, current, FeedAll(Scan([], "", q, e), text, d))
  {
    if text == "" {
      assert current + "" == current;
    } else {
      var front, c := text[..|text| - 1], text[|text| - 1];
      FeedBehind(parts, current, q, e, front, d);
      FeedOneBehind(parts, current, FeedAll(Scan([], "", q, e), front, d), c, d);
    }
  }

  lemma FeedOneBehind(parts: seq<string>, current: string, r: Scan, c: char, d: char)
    ensures Feed(Behind(parts, current, r), c, d) == Behind(parts, current, Feed(r, c, d))
  {
    if r.parts == [] {
      assert current + (r.current + [c]) == current + r.current + [c];
      assert parts + [current + r.current] + [] == parts + [current + r.current];
      assert ([] + [r.current])[1..] == [];
    } else {
      assert (r.parts + [r.current])[1..] == r.parts[1..] + [r.current];
      assert parts + [current + r.parts[0]] + r.parts[1..] + [r.current]
          == parts + [current + r.parts[0]] + (r.parts[1..] + [r.current]);
    }
  }

  /** The text holds no delimiter of its own and closes every quote it opens. */
  ghost predicate Neutral(text: string, d: char) {
    FeedAll(START, text, d) == Scan([], text, false, false)
  }

  lemma NeutralConcat(a: string, b: string, d: char)
    requires Neutral(a, d) && Neutral(b, d)
    ensures Neutral(a + b, d)
  {
    FeedConcat(START, a, b, d);
    FeedBehind([], a, false, false, b, d);
  }

  lemma {:induction false} PlainNeutral(s: string, d: char)
    requires forall i :: 0 <= i < |s| ==> s[i] != '"' && s[i] != d
    ensures Neutral(s, d)
  {
    if s != "" {
      PlainNeutral(s[..|s| - 1], d);
      assert s == s[..|s| - 1] + [s[|s| - 1]];
    }
  }

  lemma {:induction false} EscapedInQuotes(s: string, current: string, d: char)
    ensures FeedAll(Scan([], current, true, false), Escaped(s), d) == Scan([], current + Escaped(s), true, false)
    decreases |s|
  {
    if s == "" {
      EscapedHead(s);
      assert current + "" == current;
    } else {
      var t := s[1..];
      assert s == [s[0]] + t;
      EscapedStep(s[0], t);
      var e := EscapedChar(s[0]);
      FeedConcat(Scan([], current, true, false), e, Escaped(t), d);
      CharInQuotes(s[0], current, d);
      EscapedInQuotes(t, current + e, d);
      assert (current + e) + Escaped(t) == current + (e + Escaped(t));
    }
  }

  lemma CharInQuotes(c: char, current: string, d: char)
    ensures FeedAll(Scan([], current, true, false), EscapedChar(c), d) ==
      Scan([], current + EscapedChar(c), true, false)
  {
    var s := Scan([], current, true, false);
    var e := EscapedChar(c);
    if c == '\\' || c == '"' {
      assert e[..1] == "\\" && e[..1][..0] == "";
      assert FeedAll(s, e[..1], d) == Feed(s, '\\', d);
      assert current + "\\" + [c] == current + e;
    } else {
      assert e[..0] == "";
    }
  }

  /** A quoted text goes through either split in one piece, whatever is in it. */
  lemma QuotedNeutral(s: string, d: char)
    requires d != '"' && d != '\\'
    ensures Neutral(QuoteDesc(s), d)
  {
    assert "\""[..0] == "";
    assert FeedAll(START, "\"", d) == Scan([], "\"", true, false);
    EscapedInQuotes(s, "\"", d);
    FeedConcat(START, "\"", Escaped(s), d);
    FeedConcat(START, "\"" + Escaped(s), "\"", d);
  }

  /** A neutral text in front of a delimiter is the first part. */
  lemma SplitNeutral(a: string, b: string, d: char)
    requires Neutral(a, d) && d != '"'
    ensures SplitParts(a + [d] + b, d) == [a] + SplitParts(b, d)
  {
    assert a + [d] + b == (a + [d]) + b;
    FeedConcat(START, a, [d], d);
    assert [d][..0] == "" && [] + [a] == [a];
    assert FeedAll(Scan([], a, false, false), [d], d) == Scan([a], "", false, false);
    FeedConcat(START, a + [d], b, d);
    FeedBehind([a], "", false, false, b, d);
    var r := FeedAll(START, b, d);
    FinishBehind(a, r);
  }

  lemma FinishBehind(a: string, r: Scan)
    ensures Finish(Behind([a], "", r)) == [a] + Finish(r)
  {
    assert "" + r.current == r.current;
    if r.parts != [] {
      assert "" + r.parts[0] == r.parts[0];
      assert r.parts == [r.parts[0]] + r.parts[1..];
      assert [a] + [r.parts[0]] + r.parts[1..] == [a] + r.parts;
      assert ([a] + r.parts) + [r.current] == [a] + (r.parts + [r.current]);
    } else {
      assert [] + [r.current] == [r.current];
    }
  }

  lemma SplitLast(a: string, d: char)
    requires Neutral(a, d) && a != ""
    ensures SplitParts(a, d) == [a]
  {
  }

  // -------------------------------------------------------------------------- parsing

  /** `Number`, with `None` where the result is not finite. */
  type Numeral = string -> Option<real>

  function FindChar(s: string, c: char): (i: int)
    ensures -1 <= i < |s|
    ensures i >= 0 ==> s[i] == c && c !in s[..i]
    ensures i == -1 ==> c !in s
  {
    if s == "" then -1
    else if s[0] == c then 0
    else
      var i := FindChar(s[1..], c);
      if i == -1 then -1
      else
        assert s[..i + 1] == [s[0]] + s[1..][..i];
        i + 1
  }

  function Tokens(part: string): seq<string> {
    Filter(Map(SplitParts(part, ';'), Trim), (t: string) => t != "")
  }

  datatype Params = Params(durationMs: real, desc: string)

  /** One `key=value` token; unknown keys and tokens without `=` change nothing. */
  function WithToken(p: Params, token: string, number: Numeral): Params {
    var at := FindChar(token, '=');
    if at == -1 then p
    else
      var key := AsciiLowerAll(Trim(token[..at]));
      var raw := Trim(token[at + 1..]);
      if key == "dur" then (if number(raw).Some? then p.(durationMs := number(raw).value) else p)
      else if key == "desc" then p.(desc := UnquoteDesc(raw))
      else p
  }

  function WithTokens(p: Params, tokens: seq<string>, number: Numeral): Params {
    if tokens == [] then p else WithToken(WithTokens(p, tokens[..|tokens| - 1], number), tokens[|tokens| - 1], number)
  }

  function EntryOf(name: string, p: Params): Entry {
    Entry(name, p.durationMs, if p.desc != "" then Some(p.desc) else None)
  }

  /** The entry of one part, if it names one. */
  function ParsePart(part: string, number: Numeral): seq<Entry> {
    var tokens := Tokens(part);
    if tokens == [] then [] else [EntryOf(tokens[0], WithTokens(Params(0.0, ""), tokens[1..], number))]
  }

  function PartParser(number: Numeral): string -> seq<Entry> {
    (part: string) => ParsePart(part, number)
  }

  function ParseParts(parts: seq<string>, number: Numeral): seq<Entry> {
    Collect(parts, PartParser(number))
  }

  function ParseHeader(header: string, number: Numeral): seq<Entry> {
    ParseParts(SplitParts(header, ','), number)
  }

  lemma EmptyHeader(number: Numeral)
    ensures ParseHeader("", number) == []
  {
  }

  method ParseServerTimingHeader(header: Option<string>, number: Numeral) returns (entries: seq<Entry>)
    ensures entries == if header.Some? then ParseHeader(header.value, number) else []
  {
    if header.None? || header.value == "" {
      EmptyHeader(number);
      return [];
    }
    entries := [];
    var parts := SplitServerTimingParts(header.value, ',');
    for i := 0 to |parts|
      invariant entries == Collect(parts[..i], PartParser(number))
    {
      CollectNext(parts, i, PartParser(number));
      var entry := ParseServerTimingPart(parts[i], number);
      entries := entries + entry;
    }
    assert parts[..|parts|] == parts;
  }

  /** The inner loop: the parameters of one part, if it has a name. */
  method ParseServerTimingPart(part: string, number: Numeral) returns (entry: seq<Entry>)
    ensures entry == ParsePart(part, number)
  {
    var pieces := SplitServerTimingParts(part, ';');
    var tokens := Filter(Map(pieces, Trim), (t: string) => t != "");
    if tokens == [] {
      return [];
    }
    var p := Params(0.0, "");
    for j := 1 to |tokens|
      invariant p == WithTokens(Params(0.0, ""), tokens[1..][..j - 1], number)
    {
      assert tokens[1..][..j][..j - 1] == tokens[1..][..j - 1];
      p := WithToken(p, tokens[j], number);
    }
    assert tokens[1..][..|tokens| - 1] == tokens[1..];
    entry := [EntryOf(tokens[0], p)];
  }

  // ------------------------------------------------------------------------- printing

  /** `Math.max(0, Math.round(durationMs))`. */
  function Rounded(durationMs: real): nat {
    var r := (durationMs + 0.5).Floor;
    if r < 0 then 0 else r
  }

  function Decimal(n: nat): (s: string)
    ensures s != "" && forall i :: 0 <= i < |s| ==> '0' <= s[i] <= '9'
  {
    var last := ['0' + (n % 10) as char];
    if n < 10 then last else Decimal(n / 10) + last
  }

  /** `Number` reads decimal digits back. */
  ghost predicate ReadsDecimals(number: Numeral) {
    forall n: nat {:trigger Decimal(n)} :: number(Decimal(n)) == Some(n as real)
  }

  predicate HasTokenDesc(e: Entry) {
    e.desc.Some? && IsToken(e.desc.value)
  }

  function FormatEntry(e: Entry): string {
    e.name + ";dur=" + Decimal(Rounded(e.durationMs)) +
      (if HasTokenDesc(e) then ";desc=" + QuoteDesc(e.desc.value) else "")
  }

  function Kept(entries: seq<Entry>): seq<Entry> {
    Filter(entries, (e: Entry) => IsToken(e.name))
  }

  function FormatServerTimingHeader(entries: seq<Entry>): string {
    Join(Map(Kept(entries), FormatEntry), ", ")
  }

  /** What survives printing: token names, rounded nonnegative durations, token descriptions. */
  function Canonical(e: Entry): Entry {
    Entry(e.name, Rounded(e.durationMs) as real, if HasTokenDesc(e) then e.desc else None)
  }

  // ----------------------------------------------------------------------- round trip

  lemma {:induction false} KeyValue(key: string, value: string)
    requires '=' !in key
    ensures FindChar(key + "=" + value, '=') == |key|
    ensures (key + "=" + value)[..|key|] == key && (key + "=" + value)[|key| + 1..] == value
  {
    if key == "" {
      assert "" + "=" + value == "=" + value;
    } else {
      KeyValue(key[1..], value);
      assert (key + "=" + value)[1..] == key[1..] + "=" + value;
    }
  }

  /** A text that trimming leaves alone. */
  predicate Trimmed(s: string) {
    s != "" && !IsSpace(s[0]) && !IsSpace(s[|s| - 1])
  }

  lemma TrimOf(pre: string, s: string)
    requires Trimmed(s) && (pre == "" || pre == " ")
    ensures Trim(pre + s) == s
  {
    TrimPlain(s);
    if pre == "" {
      assert pre + s == s;
    } else {
      assert (pre + s)[1..] == s;
    }
  }

  /** A `key=value` token of trimmed halves. */
  lemma ParamToken(key: string, value: string, p: Params, number: Numeral)
    requires '=' !in key && Trimmed(key) && Trimmed(value)
    ensures WithToken(p, key + "=" + value, number) ==
      if AsciiLowerAll(key) == "dur" then (if number(value).Some? then p.(durationMs := number(value).value) else p)
      else if AsciiLowerAll(key) == "desc" then p.(desc := UnquoteDesc(value))
      else p
    ensures Trimmed(key + "=" + value)
  {
    KeyValue(key, value);
    TrimPlain(key);
    TrimPlain(value);
    var t := key + "=" + value;
    assert t[0] == key[0] && t[|t| - 1] == value[|value| - 1];
  }

  lemma DurationToken(n: nat, p: Params, number: Numeral)
    requires ReadsDecimals(number)
    ensures WithToken(p, "dur=" + Decimal(n), number) == p.(durationMs := n as real)
  {
    var d := Decimal(n);
    assert Trimmed(d) by { assert '0' <= d[0] <= '9' && '0' <= d[|d| - 1] <= '9'; }
    KnownKeys();
    ParamToken("dur", d, p, number);
    KeyTexts(d);
  }

  lemma KnownKeys()
    ensures AsciiLowerAll("dur") == "dur" && AsciiLowerAll("desc") == "desc" && "desc" != "dur"
    ensures '=' !in "dur" && '=' !in "desc" && Trimmed("dur") && Trimmed("desc")
  {
  }

  lemma KeyTexts(value: string)
    ensures "dur" + "=" + value == "dur=" + value && "desc" + "=" + value == "desc=" + value
  {
  }

  lemma DurationShape(n: nat)
    ensures var t := "dur=" + Decimal(n); Trimmed(t) && Neutral(t, ';') && Neutral(t, ',')
  {
    var d := Decimal(n);
    var t := "dur=" + d;
    assert '0' <= d[|d| - 1] <= '9' && t[|t| - 1] == d[|d| - 1];
    PlainNeutral(t, ';');
    PlainNeutral(t, ',');
  }

  lemma DescToken(desc: string, p: Params, number: Numeral)
    ensures WithToken(p, "desc=" + QuoteDesc(desc), number) == p.(desc := desc)
  {
    var q := QuoteDesc(desc);
    QuotedIsTrimmed(desc);
    DescParam(q, p, number);
    UnquoteQuote(desc);
  }

  lemma QuotedIsTrimmed(desc: string)
    ensures Trimmed(QuoteDesc(desc))
  {
    var q := QuoteDesc(desc);
    assert q[0] == '"' && q[|q| - 1] == '"';
  }

  lemma DescParam(value: string, p: Params, number: Numeral)
    requires Trimmed(value)
    ensures WithToken(p, "desc=" + value, number) == p.(desc := UnquoteDesc(value))
  {
    KnownKeys();
    ParamToken("desc", value, p, number);
    KeyTexts(value);
  }

  lemma DescShape(desc: string)
    ensures var t := "desc=" + QuoteDesc(desc); Trimmed(t) && Neutral(t, ';') && Neutral(t, ',')
  {
    var q := QuoteDesc(desc);
    var t := "desc=" + q;
    assert q[|q| - 1] == '"' && t[|t| - 1] == q[|q| - 1];
    QuotedNeutral(desc, ';');
    QuotedNeutral(desc, ',');
    PlainNeutral("desc=", ';');
    PlainNeutral("desc=", ',');
    NeutralConcat("desc=", q, ';');
    NeutralConcat("desc=", q, ',');
  }

  lemma TokenIsPlain(name: string)
    requires IsToken(name)
    ensures forall i :: 0 <= i < |name| ==> name[i] != '"' && name[i] != ';' && name[i] != ','
  {
    forall i | 0 <= i < |name| ensures name[i] != '"' && name[i] != ';' && name[i] != ',' {
      assert IsTokenChar(name[i]);
    }
  }

  lemma NameToken(name: string, pre: string)
    requires IsToken(name) && (pre == "" || pre == " ")
    ensures Trim(pre + name) == name && Neutral(pre + name, ';') && Neutral(name, ',') && Trimmed(name)
  {
    assert IsTokenChar(name[0]) && IsTokenChar(name[|name| - 1]);
    TrimOf(pre, name);
    TokenIsPlain(name);
    PlainNeutral(pre + name, ';');
    PlainNeutral(name, ',');
  }

  lemma TrimmedTokens(parts: seq<string>, tokens: seq<string>)
    requires |parts| == |tokens| && forall i :: 0 <= i < |parts| ==> Trim(parts[i]) == tokens[i] && tokens[i] != ""
    ensures Filter(Map(parts, Trim), (t: string) => t != "") == tokens
  {
    assert Map(parts, Trim) == tokens;
    FilterMembers(tokens, (t: string) => t != "");
    KeepAll(tokens);
  }

  lemma {:induction false} KeepAll(tokens: seq<string>)
    requires forall i :: 0 <= i < |tokens| ==> tokens[i] != ""
    ensures Filter(tokens, (t: string) => t != "") == tokens
  {
    if tokens != [] {
      KeepAll(tokens[1..]);
    }
  }

  lemma TwoTokens(pre: string, a: string, b: string)
    requires Trim(pre + a) == a && a != "" && Neutral(pre + a, ';') && Trimmed(b) && Neutral(b, ';')
    ensures Tokens(pre + a + ";" + b) == [a, b]
  {
    TrimPlain(b);
    assert pre + a + ";" + b == (pre + a) + [';'] + b;
    SplitNeutral(pre + a, b, ';');
    SplitLast(b, ';');
    assert [pre + a] + [b] == [pre + a, b];
    TrimmedTokens([pre + a, b], [a, b]);
  }

  lemma ThreeTokens(pre: string, a: string, b: string, c: string)
    requires Trim(pre + a) == a && a != "" && Neutral(pre + a, ';')
    requires Trimmed(b) && Neutral(b, ';') && Trimmed(c) && Neutral(c, ';')
    ensures Tokens(pre + a + ";" + b + ";" + c) == [a, b, c]
  {
    TrimPlain(b);
    TrimPlain(c);
    SplitThree(pre + a, b, c);
    ThreeTrimmed(pre + a, b, c, a);
  }

  lemma ThreeTrimmed(padded: string, b: string, c: string, a: string)
    requires Trim(padded) == a && Trim(b) == b && Trim(c) == c && a != "" && b != "" && c != ""
    ensures Filter(Map([padded, b, c], Trim), (t: string) => t != "") == [a, b, c]
  {
    TrimmedTokens([padded, b, c], [a, b, c]);
  }

  lemma SplitThree(a: string, b: string, c: string)
    requires Neutral(a, ';') && Neutral(b, ';') && Neutral(c, ';') && c != ""
    ensures SplitParts(a + ";" + b + ";" + c, ';') == [a, b, c]
  {
    assert a + ";" + b + ";" + c == a + [';'] + (b + [';'] + c);
    SplitNeutral(a, b + [';'] + c, ';');
    SplitNeutral(b, c, ';');
    SplitLast(c, ';');
    assert [a] + ([b] + [c]) == [a, b, c];
  }

  function DurText(e: Entry): string {
    "dur=" + Decimal(Rounded(e.durationMs))
  }

  function DescText(e: Entry): string
    requires e.desc.Some?
  {
    "desc=" + QuoteDesc(e.desc.value)
  }

  lemma FormatShape(e: Entry, pre: string)
    ensures pre + FormatEntry(e) ==
      if HasTokenDesc(e) then pre + e.name + ";" + DurText(e) + ";" + DescText(e) else pre + e.name + ";" + DurText(e)
  {
    var d := Decimal(Rounded(e.durationMs));
    if HasTokenDesc(e) {
      Regroup(pre, e.name, d, QuoteDesc(e.desc.value));
    } else {
      assert pre + (e.name + ";dur=" + d + "") == pre + e.name + ";" + ("dur=" + d);
    }
  }

  lemma Regroup(pre: string, a: string, d: string, q: string)
    ensures pre + (a + ";dur=" + d + (";desc=" + q)) == pre + a + ";" + ("dur=" + d) + ";" + ("desc=" + q)
  {
  }

  lemma FormattedTokens(e: Entry, pre: string)
    requires IsToken(e.name) && (pre == "" || pre == " ")
    ensures HasTokenDesc(e) ==> Tokens(pre + FormatEntry(e)) == [e.name, DurText(e), DescText(e)]
    ensures !HasTokenDesc(e) ==> Tokens(pre + FormatEntry(e)) == [e.name, DurText(e)]
  {
    FormatShape(e, pre);
    NameToken(e.name, pre);
    DurationShape(Rounded(e.durationMs));
    if HasTokenDesc(e) {
      DescShape(e.desc.value);
      ThreeTokens(pre, e.name, DurText(e), DescText(e));
    } else {
      TwoTokens(pre, e.name, DurText(e));
    }
  }

  lemma FormattedParses(e: Entry, pre: string, number: Numeral)
    requires IsToken(e.name) && (pre == "" || pre == " ") && ReadsDecimals(number)
    ensures ParsePart(pre + FormatEntry(e), number) == [Canonical(e)]
  {
    var p0 := Params(0.0, "");
    var p1 := p0.(durationMs := Rounded(e.durationMs) as real);
    FormattedTokens(e, pre);
    DurationToken(Rounded(e.durationMs), p0, number);
    if HasTokenDesc(e) {
      DescToken(e.desc.value, p1, number);
      TwoParams(pre + FormatEntry(e), e.name, DurText(e), DescText(e), number);
    } else {
      OneParam(pre + FormatEntry(e), e.name, DurText(e), number);
    }
  }

  lemma OneParam(part: string, name: string, token: string, number: Numeral)
    requires Tokens(part) == [name, token]
    ensures ParsePart(part, number) == [EntryOf(name, WithToken(Params(0.0, ""), token, number))]
  {
    OneToken(Params(0.0, ""), token, number);
    assert [name, token][1..] == [token];
  }

  lemma TwoParams(part: string, name: string, first: string, second: string, number: Numeral)
    requires Tokens(part) == [name, first, second]
    ensures var p := WithToken(Params(0.0, ""), first, number);
      ParsePart(part, number) == [EntryOf(name, WithToken(p, second, number))]
  {
    OneToken(Params(0.0, ""), first, number);
    assert [first, second][..1] == [first];
    assert [name, first, second][1..] == [first, second];
  }

  lemma OneToken(p: Params, token: string, number: Numeral)
    ensures WithTokens(p, [token], number) == WithToken(p, token, number)
  {
    assert [token][..0] == [];
  }

  lemma FormattedNeutral(e: Entry)
    requires IsToken(e.name)
    ensures Neutral(FormatEntry(e), ',') && FormatEntry(e) != ""
  {
    FormatShape(e, "");
    assert "" + FormatEntry(e) == FormatEntry(e) && "" + e.name == e.name;
    NameToken(e.name, "");
    DurationShape(Rounded(e.durationMs));
    PlainNeutral(";", ',');
    NeutralConcat(e.name, ";", ',');
    NeutralConcat(e.name + ";", DurText(e), ',');
    if HasTokenDesc(e) {
      DescShape(e.desc.value);
      NeutralConcat(e.name + ";" + DurText(e), ";", ',');
      NeutralConcat(e.name + ";" + DurText(e) + ";", DescText(e), ',');
    }
  }

  /** A text that is one part and parses to one entry, also behind a blank. */
  ghost predicate Parses(text: string, e: Entry, number: Numeral) {
    text != "" && Neutral(text, ',') && ParsePart("" + text, number) == [e] && ParsePart(" " + text, number) == [e]
  }

  /** Texts joined by `", "` parse to their entries, also behind the blank of an earlier separator. */
  lemma {:induction false} JoinedParses(texts: seq<string>, entries: seq<Entry>, pre: string, number: Numeral)
    requires |texts| == |entries| > 0 && forall i :: 0 <= i < |texts| ==> Parses(texts[i], entries[i], number)
    requires pre == "" || pre == " "
    ensures ParseHeader(pre + Join(texts, ", "), number) == entries
    decreases |texts|
  {
    var head := pre + texts[0];
    PlainNeutral(pre, ',');
    NeutralConcat(pre, texts[0], ',');
    if |texts| == 1 {
      SplitLast(head, ',');
      OnePart(head, number);
    } else {
      var rest := Join(texts[1..], ", ");
      JoinedParses(texts[1..], entries[1..], " ", number);
      FirstPart(head, " " + rest, number);
      CommaBlank(pre, texts[0], rest);
      assert entries == [entries[0]] + entries[1..];
    }
  }

  lemma CommaBlank(pre: string, a: string, rest: string)
    ensures pre + (a + ", " + rest) == (pre + a) + [','] + (" " + rest)
  {
  }

  lemma OnePart(part: string, number: Numeral)
    ensures ParseParts([part], number) == ParsePart(part, number)
  {
    assert [part][..0] == [];
    assert Collect([part], PartParser(number)) == Collect([], PartParser(number)) + PartParser(number)(part);
  }

  lemma FirstPart(part: string, rest: string, number: Numeral)
    requires Neutral(part, ',')
    ensures ParseHeader(part + [','] + rest, number) == ParsePart(part, number) + ParseHeader(rest, number)
  {
    SplitNeutral(part, rest, ',');
    CollectConcat([part], SplitParts(rest, ','), PartParser(number));
    OnePart(part, number);
  }

  lemma KeptParse(entries: seq<Entry>, number: Numeral)
    requires ReadsDecimals(number)
    ensures forall i :: 0 <= i < |Kept(entries)| ==>
      Parses(Map(Kept(entries), FormatEntry)[i], Map(Kept(entries), Canonical)[i], number)
  {
    var kept := Kept(entries);
    FilterMembers(entries, (e: Entry) => IsToken(e.name));
    forall i | 0 <= i < |kept| ensures Parses(Map(kept, FormatEntry)[i], Map(kept, Canonical)[i], number) {
      assert kept[i] in kept;
      FormattedNeutral(kept[i]);
      FormattedParses(kept[i], "", number);
      FormattedParses(kept[i], " ", number);
    }
  }

  /** Parsing what was printed gives back every entry with a token name, in canonical form. */
  lemma RoundTrip(entries: seq<Entry>, number: Numeral)
    requires ReadsDecimals(number)
    ensures ParseHeader(FormatServerTimingHeader(entries), number) == Map(Kept(entries), Canonical)
  {
    var texts, outs := Map(Kept(entries), FormatEntry), Map(Kept(entries), Canonical);
    KeptParse(entries, number);
    if Kept(entries) != [] {
      JoinedParses(texts, outs, "", number);
      assert "" + Join(texts, ", ") == FormatServerTimingHeader(entries);
    } else {
      assert texts == [] && outs == [];
    }
  }

  // ------------------------------------------------------------------------ appending

  /** Every quote the header opens is closed. */
  predicate Balanced(header: string) {
    !FeedAll(START, header, ',').inQuotes
  }

  lemma {:induction false} EscapedOnlyInQuotes(text: string, d: char)
    ensures FeedAll(START, text, d).escaped ==> FeedAll(START, text, d).inQuotes
  {
    if text != "" {
      EscapedOnlyInQuotes(text[..|text| - 1], d);
    }
  }

  lemma BalancedAppend(existing: string, joined: string, number: Numeral)
    requires Balanced(existing)
    ensures ParseHeader(existing + ", " + joined, number) ==
      ParseHeader(existing, number) + ParseHeader(" " + joined, number)
  {
    EscapedOnlyInQuotes(existing, ',');
    SplitBehindComma(existing, " " + joined);
    assert existing + ", " + joined == existing + [','] + (" " + joined);
    ParseFinished(FeedAll(START, existing, ','), SplitParts(" " + joined, ','), number);
  }

  /** A part cut off by a comma parses like one at the end, even an empty one. */
  lemma ParseFinished(s: Scan, more: seq<string>, number: Numeral)
    ensures ParseParts(s.parts + [s.current] + more, number) == ParseParts(Finish(s), number) + ParseParts(more, number)
  {
    CollectConcat(s.parts + [s.current], more, PartParser(number));
    CollectConcat(s.parts, [s.current], PartParser(number));
    OnePart(s.current, number);
    if s.current == "" {
      EmptyPart(number);
    }
  }

  lemma SplitBehindComma(existing: string, tail: string)
    requires Balanced(existing) && !FeedAll(START, existing, ',').escaped
    ensures var s := FeedAll(START, existing, ',');
      SplitParts(existing + [','] + tail, ',') == s.parts + [s.current] + SplitParts(tail, ',')
  {
    var s := FeedAll(START, existing, ',');
    FeedConcat(START, existing, [','], ',');
    FeedConcat(START, existing + [','], tail, ',');
    assert [','][..0] == "";
    assert FeedAll(s, [','], ',') == Scan(s.parts + [s.current], "", false, false);
    FeedBehind(s.parts + [s.current], "", false, false, tail, ',');
    FinishBehindAll(s.parts + [s.current], FeedAll(START, tail, ','));
  }

  lemma FinishBehindAll(parts: seq<string>, r: Scan)
    ensures Finish(Behind(parts, "", r)) == parts + Finish(r)
  {
    assert "" + r.current == r.current;
    if r.parts != [] {
      assert "" + r.parts[0] == r.parts[0];
      assert r.parts == [r.parts[0]] + r.parts[1..];
      assert parts + [r.parts[0]] + r.parts[1..] == parts + r.parts;
      assert (parts + r.parts) + [r.current] == parts + (r.parts + [r.current]);
    } else {
      assert [] + [r.current] == [r.current];
    }
  }

  lemma EmptyPart(number: Numeral)
    ensures ParsePart("", number) == []
  {
    assert SplitParts("", ';') == [];
    assert Map([], Trim) == [];
  }

  // ------------------------------------------------------------- appending in a quote

  /** Between quotes the text changes nothing but what is collected. */
  ghost predicate Swallowed(text: string) {
    FeedAll(Scan([], "", true, false), text, ',') == Scan([], text, true, false)
  }

  lemma SwallowedConcat(a: string, b: string)
    requires Swallowed(a) && Swallowed(b)
    ensures Swallowed(a + b)
  {
    FeedConcat(Scan([], "", true, false), a, b, ',');
    FeedBehind([], a, true, false, b, ',');
  }

  lemma {:induction false} PlainSwallowed(s: string)
    requires forall i :: 0 <= i < |s| ==> s[i] != '"' && s[i] != '\\'
    ensures Swallowed(s)
  {
    if s != "" {
      PlainSwallowed(s[..|s| - 1]);
      assert s == s[..|s| - 1] + [s[|s| - 1]];
    }
  }

  /** A quoted token flips the quotes twice and shows no delimiter in between. */
  lemma QuotedTokenSwallowed(t: string)
    requires IsToken(t)
    ensures Swallowed("\"" + t + "\"")
  {
    var q := "\"";
    assert q[..0] == "";
    assert FeedAll(Scan([], "", true, false), q, ',') == Scan([], q, false, false);
    PlainNeutral(t, ',');
    FeedBehind([], q, false, false, t, ',');
    FeedConcat(Scan([], "", true, false), q, t, ',');
    FeedConcat(Scan([], "", true, false), q + t, q, ',');
  }

  lemma TokenUnescaped(t: string)
    requires IsToken(t)
    ensures QuoteDesc(t) == "\"" + t + "\""
  {
    NothingToReplace(t, '\\', "\\\\");
    NothingToReplace(t, '"', "\\\"");
  }

  lemma ThreeSwallowed(a: string, b: string, c: string)
    requires Swallowed(a) && Swallowed(b) && Swallowed(c)
    ensures Swallowed(a + b + c)
  {
    SwallowedConcat(a, b);
    SwallowedConcat(a + b, c);
  }

  lemma DescSwallowed(desc: string)
    requires IsToken(desc)
    ensures Swallowed("desc=" + QuoteDesc(desc))
  {
    TokenUnescaped(desc);
    QuotedTokenSwallowed(desc);
    PlainSwallowed("desc=");
    SwallowedConcat("desc=", QuoteDesc(desc));
  }

  lemma FormattedSwallowed(e: Entry)
    requires IsToken(e.name)
    ensures Swallowed(FormatEntry(e))
  {
    FormatShape(e, "");
    assert "" + FormatEntry(e) == FormatEntry(e) && "" + e.name == e.name;
    PlainSwallowed(e.name);
    PlainSwallowed(";");
    PlainSwallowed(DurText(e));
    ThreeSwallowed(e.name, ";", DurText(e));
    if HasTokenDesc(e) {
      DescSwallowed(e.desc.value);
      ThreeSwallowed(e.name + ";" + DurText(e), ";", DescText(e));
    }
  }

  lemma {:induction false} JoinSwallowed(texts: seq<string>)
    requires forall i :: 0 <= i < |texts| ==> Swallowed(texts[i])
    ensures Swallowed(Join(texts, ", "))
  {
    if |texts| == 0 {
      PlainSwallowed("");
    } else if |texts| > 1 {
      JoinSwallowed(texts[1..]);
      PlainSwallowed(", ");
      SwallowedConcat(texts[0], ", ");
      SwallowedConcat(texts[0] + ", ", Join(texts[1..], ", "));
    }
  }

  /** The scan loses no character but delimiters: what was read is in a part or still collected. */
  lemma {:induction false} QuoteIsCollected(text: string)
    requires FeedAll(START, text, ',').inQuotes
    ensures '"' in FeedAll(START, text, ',').current
  {
    if text != "" {
      var front := FeedAll(START, text[..|text| - 1], ',');
      if front.inQuotes {
        QuoteIsCollected(text[..|text| - 1]);
      }
    }
  }

  lemma {:induction false} CharInSomePart(text: string, d: char, c: char)
    requires c in text && c != d
    ensures var s := FeedAll(START, text, d); c in s.current || exists i :: 0 <= i < |s.parts| && c in s.parts[i]
  {
    var n := |text| - 1;
    var front := FeedAll(START, text[..n], d);
    var s := FeedAll(START, text, d);
    assert text == text[..n] + [text[n]];
    if text[n] == c {
      assert c in s.current;
    } else {
      CharInSomePart(text[..n], d, c);
      if c in front.current {
        if s.parts != front.parts { assert c in s.parts[|front.parts|]; }
      } else {
        var i :| 0 <= i < |front.parts| && c in front.parts[i];
        assert c in s.parts[i];
      }
    }
  }

  lemma {:induction false} TrimEndKeeps(s: string, c: char)
    requires c in s && !IsSpace(c)
    ensures c in TrimEnd(s)
  {
    if IsSpace(s[|s| - 1]) {
      assert s == s[..|s| - 1] + [s[|s| - 1]];
      TrimEndKeeps(s[..|s| - 1], c);
    }
  }

  lemma {:induction false} TrimStartKeeps(s: string, c: char)
    requires c in s && !IsSpace(c)
    ensures c in TrimStart(s)
  {
    if IsSpace(s[0]) {
      TrimStartKeeps(s[1..], c);
    }
  }

  /** A part with a quote in it names an entry. */
  lemma QuotedPartParses(part: string, number: Numeral)
    requires '"' in part
    ensures |ParsePart(part, number)| == 1
  {
    CharInSomePart(part, ';', '"');
    var pieces := SplitParts(part, ';');
    var s := FeedAll(START, part, ';');
    assert '"' in s.current ==> pieces[|s.parts|] == s.current;
    assert forall j :: 0 <= j < |s.parts| ==> pieces[j] == s.parts[j];
    var i :| 0 <= i < |pieces| && '"' in pieces[i];
    TrimStartKeeps(pieces[i], '"');
    TrimEndKeeps(TrimStart(pieces[i]), '"');
    var trimmed := Map(pieces, Trim);
    assert trimmed[i] != "" && trimmed[i] in trimmed;
    FilterMembers(trimmed, (t: string) => t != "");
  }

  lemma UnbalancedSwallows(existing: string, text: string, tail: string)
    requires !Balanced(existing) && tail == [','] + text && Swallowed(text) && Swallowed(tail)
    ensures var s := FeedAll(START, existing, ',');
      SplitParts(existing + tail, ',') == s.parts + [s.current + tail]
  {
    var s := FeedAll(START, existing, ',');
    FeedConcat(START, existing, tail, ',');
    if s.escaped {
      SwallowedEscaped(s, text);
    } else {
      FeedBehind(s.parts, s.current, true, false, tail, ',');
    }
  }

  /** A backslash at the end takes the comma along. */
  lemma SwallowedEscaped(s: Scan, text: string)
    requires s.inQuotes && s.escaped && Swallowed(text)
    ensures FeedAll(s, [','] + text, ',') == Scan(s.parts, s.current + ([','] + text), true, false)
  {
    FeedConcat(s, [','], text, ',');
    assert [','][..0] == "";
    assert FeedAll(s, [','], ',') == Scan(s.parts, s.current + [','], true, false);
    FeedBehind(s.parts, s.current + [','], true, false, text, ',');
    assert s.current + [','] + text == s.current + ([','] + text);
  }

  lemma UnbalancedAppend(existing: string, text: string, tail: string, number: Numeral)
    requires !Balanced(existing) && tail == [','] + text && Swallowed(text) && Swallowed(tail)
    ensures |ParseHeader(existing + tail, number)| == |ParseHeader(existing, number)|
  {
    var s := FeedAll(START, existing, ',');
    UnbalancedSwallows(existing, text, tail);
    QuoteIsCollected(existing);
    var longer := s.current + tail;
    assert '"' in longer by {
      var i :| 0 <= i < |s.current| && s.current[i] == '"';
      assert longer[i] == '"';
    }
    QuotedPartParses(s.current, number);
    QuotedPartParses(longer, number);
    CollectConcat(s.parts, [s.current], PartParser(number));
    CollectConcat(s.parts, [longer], PartParser(number));
    OnePart(s.current, number);
    OnePart(longer, number);
  }

  class Headers {
    var serverTiming: Option<string>

    constructor (serverTiming: Option<string>)
      ensures this.serverTiming == serverTiming
    {
      this.serverTiming := serverTiming;
    }

    method ApplyServerTimingHeader(entries: Option<seq<Entry>>)
      modifies this
      ensures serverTiming ==
        if entries.None? || FormatServerTimingHeader(entries.value) == "" then old(serverTiming)
        else Some(Appended(old(serverTiming), FormatServerTimingHeader(entries.value)))
    {
      if entries.None? || |entries.value| == 0 {
        assert entries.Some? ==> FormatServerTimingHeader(entries.value) == "";
        return;
      }
      var formatted := FormatServerTimingHeader(entries.value);
      if formatted == "" {
        return;
      }
      var existing := if serverTiming.Some? then serverTiming.value else "";
      serverTiming := Some(if existing != "" then existing + ", " + formatted else formatted);
    }
  }

  function Appended(existing: Option<string>, formatted: string): string {
    if existing.Some? && existing.value != "" then existing.value + ", " + formatted else formatted
  }

  /**
   Appending a printed list to a header parses to the header's entries followed by the list's,
   exactly when the header closes every quote it opens; otherwise the list is swallowed.
   */
  lemma AppendParsesIffBalanced(existing: string, entries: seq<Entry>, number: Numeral)
    requires ReadsDecimals(number) && existing != "" && Kept(entries) != []
    ensures ParseHeader(Appended(Some(existing), FormatServerTimingHeader(entries)), number)
         == ParseHeader(existing, number) + Map(Kept(entries), Canonical)
       <==> Balanced(existing)
  {
    var texts, outs := Map(Kept(entries), FormatEntry), Map(Kept(entries), Canonical);
    KeptParse(entries, number);
    if Balanced(existing) {
      JoinedParses(texts, outs, " ", number);
      BalancedAppend(existing, Join(texts, ", "), number);
    } else {
      KeptSwallowed(entries);
      JoinSwallowed(texts);
      PlainSwallowed(" ");
      PlainSwallowed(", ");
      SwallowedConcat(" ", Join(texts, ", "));
      SwallowedConcat(", ", Join(texts, ", "));
      BlankBehindComma(Join(texts, ", "));
      UnbalancedAppend(existing, " " + Join(texts, ", "), ", " + Join(texts, ", "), number);
      BehindExisting(existing, Join(texts, ", "));
      assert |outs| > 0;
    }
  }

  lemma BlankBehindComma(text: string)
    ensures ", " + text == [','] + (" " + text)
  {
  }

  lemma BehindExisting(existing: string, text: string)
    ensures existing + ", " + text == existing + (", " + text)
  {
  }

  lemma KeptSwallowed(entries: seq<Entry>)
    ensures forall i :: 0 <= i < |Kept(entries)| ==> Swallowed(Map(Kept(entries), FormatEntry)[i])
  {
    var kept := Kept(entries);
    FilterMembers(entries, (e: Entry) => IsToken(e.name));
    forall i | 0 <= i < |kept| ensures Swallowed(Map(kept, FormatEntry)[i]) {
      assert kept[i] in kept;
      FormattedSwallowed(kept[i]);
    }
  }
}
