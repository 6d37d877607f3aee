/**
 Reserved table names: the LIKE clauses, the predicate, and the statement scan
 (src/cells/package-storage-reserved.ts).
 */
module Reserved {
  import opened Text

  const RESERVED_TABLE_PREFIXES := ["sqlite_", "__kody_", "_cf_", "_litestream_"]

  // ----------------------------------------------------------------------------- LIKE

  /** SQLite's `text LIKE pattern ESCAPE '\'`, which folds ASCII letters only. */
  predicate Like(pattern: string, text: string) {
    if pattern == "" then text == ""
    else if pattern[0] == '\\' then
      |pattern| >= 2 && text != "" && AsciiLower(pattern[1]) == AsciiLower(text[0]) && Like(pattern[2..], text[1..])
    else if pattern[0] == '%' then exists k :: 0 <= k <= |text| && Like(pattern[1..], text[k..])
    else if pattern[0] == '_' then text != "" && Like(pattern[1..], text[1..])
    else text != "" && AsciiLower(pattern[0]) == AsciiLower(text[0]) && Like(pattern[1..], text[1..])
  }

  function Escaped(prefix: string): string {
    ReplaceChar(ReplaceChar(ReplaceChar(prefix, '\\', "\\\\"), '%', "\\%"), '_', "\\_")
  }

  function LikeLiteralPrefix(prefix: string): string {
    Escaped(prefix) + "%"
  }

  function EscapedChar(c: char): string {
    if c == '\\' || c == '%' || c == '_' then ['\\', c] else [c]
  }

  lemma OneChar(c: char, d: char, text: string)
    ensures ReplaceChar([c], d, text) == if c == d then text else [c]
  {
    assert [c][1..] == "";
  }

  /** A backslash pair without `d` in it stays. */
  lemma EscapeStays(c: char, d: char, text: string)
    requires d != '\\' && c != d
    ensures ReplaceChar(['\\', c], d, text) == ['\\', c]
  {
    assert ['\\', c][1..] == [c];
    OneChar(c, d, text);
  }

  /** The three replacements escape character by character: none of them touches another's work. */
  lemma EscapedStep(c: char, s: string)
    ensures Escaped([c] + s) == EscapedChar(c) + Escaped(s)
  {
    var s1 := ReplaceChar(s, '\\', "\\\\");
    var s2 := ReplaceChar(s1, '%', "\\%");
    ReplaceConcat([c], s, '\\', "\\\\");
    OneChar(c, '\\', "\\\\");
    if c == '\\' {
      assert "\\\\" == ['\\', c];
      ReplaceConcat(['\\', c], s1, '%', "\\%");
      EscapeStays(c, '%', "\\%");
      ReplaceConcat(['\\', c], s2, '_', "\\_");
      EscapeStays(c, '_', "\\_");
    } else {
      ReplaceConcat([c], s1, '%', "\\%");
      OneChar(c, '%', "\\%");
      if c == '%' {
        assert "\\%" == ['\\', c];
        ReplaceConcat(['\\', c], s2, '_', "\\_");
        EscapeStays(c, '_', "\\_");
      } else {
        ReplaceConcat([c], s2, '_', "\\_");
        OneChar(c, '_', "\\_");
        assert "\\_" == ['\\', '_'];
      }
    }
  }

  ghost predicate StartsFolded(text: string, prefix: string) {
    AsciiLowerAll(prefix) <= AsciiLowerAll(text)
  }

  lemma StartsFoldedStep(text: string, c: char, s: string)
    ensures StartsFolded(text, [c] + s) <==>
      text != "" && AsciiLower(c) == AsciiLower(text[0]) && StartsFolded(text[1..], s)
  {
    var p, t := AsciiLowerAll([c] + s), AsciiLowerAll(text);
    assert p == [AsciiLower(c)] + AsciiLowerAll(s);
    if text != "" {
      assert t == [AsciiLower(text[0])] + AsciiLowerAll(text[1..]);
      assert p[1..] == AsciiLowerAll(s) && t[1..] == AsciiLowerAll(text[1..]);
      if p <= t { assert p[0] == t[0] && p[1..] <= t[1..]; }
      if p[0] == t[0] && p[1..] <= t[1..] { assert p == [p[0]] + p[1..] && t == [t[0]] + t[1..]; }
    }
  }

  lemma AnyTail(text: string)
    ensures Like("%", text)
  {
    assert Like("%"[1..], text[|text|..]);
  }

  /** The pattern matches exactly the texts that start with the prefix, ASCII case folded. */
  lemma {:induction false} LikeLiteralPrefixMatches(prefix: string, text: string)
    ensures Like(LikeLiteralPrefix(prefix), text) <==> StartsFolded(text, prefix)
    decreases |prefix|
  {
    if prefix == "" {
      assert LikeLiteralPrefix(prefix) == "%";
      AnyTail(text);
    } else {
      var c, s := prefix[0], prefix[1..];
      assert prefix == [c] + s;
      EscapedStep(c, s);
      StartsFoldedStep(text, c, s);
      var rest := LikeLiteralPrefix(s);
      var pattern := LikeLiteralPrefix(prefix);
      assert pattern == EscapedChar(c) + rest;
      if |EscapedChar(c)| == 2 {
        assert pattern[0] == '\\' && pattern[1] == c && pattern[2..] == rest;
      } else {
        assert pattern[0] == c && pattern[1..] == rest;
      }
      if text != "" {
        LikeLiteralPrefixMatches(s, text[1..]);
      }
    }
  }

  /** `name NOT LIKE … AND …` over every reserved prefix. */
  predicate ExclusionAccepts(name: string) {
    forall i :: 0 <= i < |RESERVED_TABLE_PREFIXES| ==> !Like(LikeLiteralPrefix(RESERVED_TABLE_PREFIXES[i]), name)
  }

  // ------------------------------------------------------------------------ predicate

  const KELVIN := '\U{212A}'
  const DOTTED_I := '\U{0130}'

  predicate IsAscii(c: char) {
    c < '\U{0080}'
  }

  /** What `toLowerCase` makes of the characters whose lower case is of no interest here. */
  ghost predicate KeepsOutOfAscii(other: char -> string) {
    forall c :: other(c) != "" && !IsAscii(other(c)[0])
  }

  /** `toLowerCase`: two characters outside ASCII have a lower case that begins inside it. */
  function LowerChar(c: char, other: char -> string): string {
    if IsAscii(c) then [AsciiLower(c)]
    else if c == KELVIN then "k"
    else if c == DOTTED_I then ['i', '\U{0307}']
    else other(c)
  }

  function Lower(s: string, other: char -> string): string {
    if s == "" then "" else LowerChar(s[0], other) + Lower(s[1..], other)
  }

  predicate IsReservedTableName(name: string, other: char -> string) {
    exists i :: 0 <= i < |RESERVED_TABLE_PREFIXES| && RESERVED_TABLE_PREFIXES[i] <= Lower(name, other)
  }

  /** The one letter that `toLowerCase` adds to what LIKE folds. */
  predicate LowersTo(c: char, x: char) {
    AsciiLower(c) == x || (c == KELVIN && x == 'k')
  }

  /** An ASCII prefix in lower case whose last letter is no i. */
  predicate PlainPrefix(p: string) {
    && (forall i :: 0 <= i < |p| ==> IsAscii(p[i]) && AsciiLower(p[i]) == p[i])
    && (p != "" ==> p[|p| - 1] != 'i')
  }

  /** Letter by letter, the text begins with something that lowers to `p`. */
  predicate Lowers(p: string, s: string) {
    p == "" || (s != "" && LowersTo(s[0], p[0]) && Lowers(p[1..], s[1..]))
  }

  lemma {:induction false} LowerStarts(p: string, s: string, other: char -> string)
    requires PlainPrefix(p) && KeepsOutOfAscii(other)
    ensures p <= Lower(s, other) <==> Lowers(p, s)
    decreases |p|
  {
    if p != "" && s != "" {
      var w, rest := LowerChar(s[0], other), Lower(s[1..], other);
      LowerStarts(p[1..], s[1..], other);
      PrefixStep(p, w, rest);
      if |w| > 1 && s[0] == DOTTED_I && p[0] == 'i' {
        assert (w + rest)[1] == '\U{0307}';
        assert |p| > 1 && IsAscii(p[1]);
      }
    }
  }

  lemma PrefixStep(p: string, w: string, rest: string)
    requires p != "" && w != ""
    ensures p[0] != w[0] ==> !(p <= w + rest)
    ensures |w| == 1 ==> (p <= w + rest <==> p[0] == w[0] && p[1..] <= rest)
  {
    var whole := w + rest;
    assert whole[0] == w[0];
    if |w| == 1 {
      assert whole[1..] == rest;
      if p <= whole { assert p[1..] == whole[1..|p|]; }
      if p[0] == w[0] && p[1..] <= rest { assert p == [p[0]] + p[1..] && whole == [w[0]] + rest; }
    }
  }

  /** A name whose only quarrel is a Kelvin sign where `__kody_` has its k. */
  ghost predicate KelvinKody(name: string) {
    |name| >= 3 && name[0] == '_' && name[1] == '_' && name[2] == KELVIN && StartsFolded(name[3..], "ody_")
  }

  lemma StartsOrLowers(name: string, p: string)
    requires PlainPrefix(p) && 'k' !in p
    ensures StartsFolded(name, p) <==> Lowers(p, name)
    decreases |p|
  {
    if p != "" {
      assert p == [p[0]] + p[1..];
      StartsFoldedStep(name, p[0], p[1..]);
      if name != "" {
        StartsOrLowers(name[1..], p[1..]);
      }
    }
  }

  lemma LowersStep(name: string, c: char, p: string)
    ensures Lowers([c] + p, name) <==> name != "" && LowersTo(name[0], c) && Lowers(p, name[1..])
  {
    assert ([c] + p)[1..] == p;
  }

  lemma KStep(name: string)
    ensures Lowers("kody_", name) <==>
      StartsFolded(name, "kody_") || (name != "" && name[0] == KELVIN && StartsFolded(name[1..], "ody_"))
  {
    assert "kody_" == ['k'] + "ody_";
    LowersStep(name, 'k', "ody_");
    StartsFoldedStep(name, 'k', "ody_");
    if name != "" {
      StartsOrLowers(name[1..], "ody_");
    }
  }

  /** For `__kody_`, lowering and folding part company at the Kelvin sign and nowhere else. */
  lemma KodyPrefix(name: string)
    ensures Lowers("__kody_", name) <==> StartsFolded(name, "__kody_") || KelvinKody(name)
    ensures KelvinKody(name) ==> !StartsFolded(name, "__kody_")
  {
    assert "__kody_" == ['_'] + "_kody_" && "_kody_" == ['_'] + "kody_" && "kody_" == ['k'] + "ody_";
    LowersStep(name, '_', "_kody_");
    StartsFoldedStep(name, '_', "_kody_");
    if name != "" {
      var t := name[1..];
      LowersStep(t, '_', "kody_");
      StartsFoldedStep(t, '_', "kody_");
      if t != "" {
        assert t[1..] == name[2..];
        KStep(name[2..]);
        StartsFoldedStep(name[2..], 'k', "ody_");
        if |name| > 2 { assert name[2..][1..] == name[3..]; }
      }
    }
  }

  lemma PrefixShapes(i: nat)
    requires i < |RESERVED_TABLE_PREFIXES|
    ensures PlainPrefix(RESERVED_TABLE_PREFIXES[i]) && |RESERVED_TABLE_PREFIXES[i]| > 3
    ensures forall j :: 0 <= j < |RESERVED_TABLE_PREFIXES[i]| ==> !IsSpace(RESERVED_TABLE_PREFIXES[i][j])
    ensures i == 1 ==> RESERVED_TABLE_PREFIXES[i] == "__kody_"
    ensures i != 1 ==> 'k' !in RESERVED_TABLE_PREFIXES[i]
    ensures i == 0 ==> RESERVED_TABLE_PREFIXES[i][0] == 's'
    ensures i >= 2 ==> RESERVED_TABLE_PREFIXES[i][0] == '_' && RESERVED_TABLE_PREFIXES[i][1] != '_'
  {
  }

  /** A name with a Kelvin sign behind two underscores starts with no reserved prefix as LIKE folds it. */
  lemma KelvinIsUnfolded(name: string, i: nat)
    requires KelvinKody(name) && i < |RESERVED_TABLE_PREFIXES|
    ensures !StartsFolded(name, RESERVED_TABLE_PREFIXES[i])
  {
    var p := RESERVED_TABLE_PREFIXES[i];
    PrefixShapes(i);
    KodyPrefix(name);
    if i != 1 && StartsFolded(name, p) {
      StartsFoldedAt(name, p, 0);
      StartsFoldedAt(name, p, 1);
    }
  }

  lemma StartsFoldedAt(text: string, p: string, i: nat)
    requires StartsFolded(text, p) && i < |p|
    ensures i < |text| && AsciiLower(text[i]) == AsciiLower(p[i])
  {
    assert AsciiLowerAll(p)[i] == AsciiLowerAll(text)[i];
  }

  /**
   The clauses accept exactly the names the predicate does not reserve, for every name but those that
   spell `__kody_` with a Kelvin sign; in particular for every ASCII name.
   */
  lemma ExclusionAgreesIff(name: string, other: char -> string)
    requires KeepsOutOfAscii(other)
    ensures (ExclusionAccepts(name) <==> !IsReservedTableName(name, other)) <==> !KelvinKody(name)
    ensures (forall i :: 0 <= i < |name| ==> IsAscii(name[i])) ==>
      (ExclusionAccepts(name) <==> !IsReservedTableName(name, other))
  {
    forall i | 0 <= i < |RESERVED_TABLE_PREFIXES|
      ensures Like(LikeLiteralPrefix(RESERVED_TABLE_PREFIXES[i]), name) <==>
        StartsFolded(name, RESERVED_TABLE_PREFIXES[i])
      ensures RESERVED_TABLE_PREFIXES[i] <= Lower(name, other)
         <==> StartsFolded(name, RESERVED_TABLE_PREFIXES[i]) || (i == 1 && KelvinKody(name))
      ensures KelvinKody(name) ==> !StartsFolded(name, RESERVED_TABLE_PREFIXES[i])
    {
      PrefixAgrees(name, other, i);
    }
    if KelvinKody(name) {
      assert RESERVED_TABLE_PREFIXES[1] <= Lower(name, other);
    }
  }

  lemma PrefixAgrees(name: string, other: char -> string, i: nat)
    requires KeepsOutOfAscii(other) && i < |RESERVED_TABLE_PREFIXES|
    ensures Like(LikeLiteralPrefix(RESERVED_TABLE_PREFIXES[i]), name) <==>
      StartsFolded(name, RESERVED_TABLE_PREFIXES[i])
    ensures RESERVED_TABLE_PREFIXES[i] <= Lower(name, other)
       <==> StartsFolded(name, RESERVED_TABLE_PREFIXES[i]) || (i == 1 && KelvinKody(name))
    ensures KelvinKody(name) ==> !StartsFolded(name, RESERVED_TABLE_PREFIXES[i])
  {
    LikeLiteralPrefixMatches(RESERVED_TABLE_PREFIXES[i], name);
    PrefixShapes(i);
    LowerStarts(RESERVED_TABLE_PREFIXES[i], name, other);
    if i == 1 {
      KodyPrefix(name);
    } else {
      StartsOrLowers(name, RESERVED_TABLE_PREFIXES[i]);
    }
    if KelvinKody(name) {
      KelvinIsUnfolded(name, i);
    }
  }

  // -------------------------------------------------------------------- statement scan

  predicate IsWordChar(c: char) {
    'A' <= c <= 'Z' || 'a' <= c <= 'z' || '0' <= c <= '9' || c == '_'
  }

  predicate WordStart(s: string, i: nat)
    requires i <= |s|
  {
    i == 0 || !IsWordChar(s[i - 1])
  }

  predicate FoldedPrefix(text: string, prefix: string) {
    |prefix| <= |text| && AsciiLowerAll(text[..|prefix|]) == prefix
  }

  /** `\b(?:prefix|…|sqlite_master)` somewhere, ignoring case; the last alternative begins with the first. */
  predicate TouchesReservedTable(query: string) {
    exists i {:trigger query[i..]} :: 0 <= i <= |query| && WordStart(query, i)
      && exists k :: 0 <= k < |RESERVED_TABLE_PREFIXES| && FoldedPrefix(query[i..], RESERVED_TABLE_PREFIXES[k])
  }

  /** `/^\s*select\b/i` on a trimmed statement. */
  predicate IsSelect(statement: string) {
    FoldedPrefix(statement, "select") && (|statement| == 6 || !IsWordChar(statement[6]))
  }

  predicate Writes(statement: string) {
    var trimmed := Trim(statement);
    trimmed != "" && !IsSelect(trimmed) && TouchesReservedTable(trimmed)
  }

  /** Some statement between semicolons writes to a reserved table. */
  method HasReservedTableWrite(query: string) returns (found: bool)
    ensures found <==> exists s :: s in Split(query, ';') && Writes(s)
  {
    var statements := Split(query, ';');
    for i := 0 to |statements|
      invariant forall j :: 0 <= j < i ==> !Writes(statements[j])
    {
      var trimmed := Trim(statements[i]);
      if trimmed == "" || IsSelect(trimmed) {
        continue;
      }
      if TouchesReservedTable(trimmed) {
        assert Writes(statements[i]);
        return true;
      }
    }
    return false;
  }

  ghost predicate HasWrite(query: string) {
    exists s :: s in Split(query, ';') && Writes(s)
  }

  /** A leading statement masks nothing: a batch is refused exactly if one of its halves would be. */
  lemma HasWriteConcat(a: string, b: string)
    ensures HasWrite(a + ";" + b) <==> HasWrite(a) || HasWrite(b)
  {
    SplitConcat(a, b, ';');
    assert a + ";" + b == a + [';'] + b;
    assert forall s :: s in Split(a, ';') + Split(b, ';') <==> s in Split(a, ';') || s in Split(b, ';');
  }

  /**
   A batch is refused by `sql` if one of its statements, no SELECT behind its leading white space, names at
   the start of a word a table that `clear` would spare.
   */
  lemma ProtectedTablesAreGuarded(query: string, statement: string, i: nat, name: string)
    requires statement in Split(query, ';') && !IsSelect(Trim(statement))
    requires i + |name| <= |statement| && WordStart(statement, i) && statement[i..i + |name|] == name
    requires !ExclusionAccepts(name)
    ensures HasWrite(query)
  {
    var k :| 0 <= k < |RESERVED_TABLE_PREFIXES| && Like(LikeLiteralPrefix(RESERVED_TABLE_PREFIXES[k]), name);
    LikeLiteralPrefixMatches(RESERVED_TABLE_PREFIXES[k], name);
    PrefixShapes(k);
    FoldedInside(statement, i, name, RESERVED_TABLE_PREFIXES[k]);
    TouchesTrimmed(statement, i, k);
    assert Writes(statement);
  }

  /** What surrounds the trimmed text is white space. */
  lemma TrimShape(s: string) returns (lead: nat)
    ensures lead + |Trim(s)| <= |s| && s[lead..lead + |Trim(s)|] == Trim(s)
    ensures forall j :: 0 <= j < |s| && !IsSpace(s[j]) ==> lead <= j < lead + |Trim(s)|
  {
    lead := LeadingSpace(s);
    var t := TrimStart(s);
    TrailingSpace(t);
    assert t[..|Trim(s)|] == Trim(s);
    assert forall j :: lead <= j < |s| ==> s[j] == t[j - lead];
  }

  lemma {:induction false} LeadingSpace(s: string) returns (lead: nat)
    ensures lead <= |s| && TrimStart(s) == s[lead..] && forall j :: 0 <= j < lead ==> IsSpace(s[j])
  {
    lead := 0;
    if s != "" && IsSpace(s[0]) {
      var rest := LeadingSpace(s[1..]);
      assert s[1..][rest..] == s[rest + 1..];
      assert forall j :: 0 < j < rest + 1 ==> s[j] == s[1..][j - 1];
      lead := rest + 1;
    }
  }

  lemma {:induction false} TrailingSpace(s: string)
    ensures forall j :: |TrimEnd(s)| <= j < |s| ==> IsSpace(s[j])
  {
    if s != "" && IsSpace(s[|s| - 1]) {
      TrailingSpace(s[..|s| - 1]);
      assert forall j :: 0 <= j < |s| - 1 ==> s[..|s| - 1][j] == s[j];
    }
  }

  /** A reserved prefix in a statement survives trimming. */
  lemma TouchesTrimmed(statement: string, i: nat, k: nat)
    requires k < |RESERVED_TABLE_PREFIXES| && i <= |statement| && WordStart(statement, i)
    requires FoldedPrefix(statement[i..], RESERVED_TABLE_PREFIXES[k])
    ensures TouchesReservedTable(Trim(statement)) && Trim(statement) != ""
  {
    var p, trimmed := RESERVED_TABLE_PREFIXES[k], Trim(statement);
    var lead := TrimShape(statement);
    PrefixShapes(k);
    PrefixNotSpace(statement[i..], p);
    assert forall j :: 0 <= j < |p| ==> statement[i..][j] == statement[i + j];
    assert p != "";
    assert lead <= i && i + |p| <= lead + |trimmed| by {
      assert !IsSpace(statement[i..][0]) && !IsSpace(statement[i..][|p| - 1]);
    }
    PrefixInSlice(statement, trimmed, lead, i, p);
    assert WordStart(trimmed, i - lead) && FoldedPrefix(trimmed[i - lead..], RESERVED_TABLE_PREFIXES[k]);
  }

  /** A prefix at a word start, found again in a part of the text that holds it. */
  lemma PrefixInSlice(s: string, part: string, lead: nat, i: nat, p: string)
    requires lead <= i && i + |p| <= lead + |part| <= |s| && s[lead..lead + |part|] == part
    requires WordStart(s, i) && FoldedPrefix(s[i..], p)
    ensures WordStart(part, i - lead) && FoldedPrefix(part[i - lead..], p)
  {
    var at := i - lead;
    assert part[at..][..|p|] == s[i..][..|p|];
    assert at > 0 ==> part[at - 1] == s[i - 1];
  }

  /** Text that folds to a reserved prefix holds no white space there. */
  lemma PrefixNotSpace(text: string, p: string)
    requires FoldedPrefix(text, p) && PlainPrefix(p) && forall j :: 0 <= j < |p| ==> !IsSpace(p[j])
    ensures forall j :: 0 <= j < |p| ==> !IsSpace(text[j])
  {
    forall j | 0 <= j < |p| ensures !IsSpace(text[j]) {
      assert AsciiLowerAll(text[..|p|])[j] == AsciiLower(text[j]);
    }
  }

  lemma FoldedInside(statement: string, i: nat, name: string, p: string)
    requires i + |name| <= |statement| && statement[i..i + |name|] == name
    requires StartsFolded(name, p) && PlainPrefix(p)
    ensures FoldedPrefix(statement[i..], p)
  {
    assert AsciiLowerAll(p) == p;
    assert |p| <= |name|;
    assert statement[i..][..|p|] == name[..|p|];
    assert AsciiLowerAll(name[..|p|]) == AsciiLowerAll(name)[..|p|];
  }
}
