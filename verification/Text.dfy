/** Strings as the source manipulates them: splitting, joining, trimming and ordering. */
module Text {
  // ------------------------------------------------------------- split and join

  /** JavaScript `s.split(d)` for a one-character delimiter; never empty. */
  function Split(s: string, d: char): (parts: seq<string>)
    ensures |parts| > 0
    ensures forall p :: p in parts ==> d !in p
  {
    if s == "" then [""]
    else if s[0] == d then [""] + Split(s[1..], d)
    else
      ConsFirst(s[0], Split(s[1..], d))
  }

  /** JavaScript `parts.join(d)`. */
  function Join(parts: seq<string>, d: string): string {
    if |parts| == 0 then "" else if |parts| == 1 then parts[0] else parts[0] + d + Join(parts[1..], d)
  }

  lemma {:induction false} SplitConcat(a: string, b: string, d: char)
    ensures Split(a + [d] + b, d) == Split(a, d) + Split(b, d)
  {
    if a == "" {
      assert a + [d] + b == [d] + b;
      assert ([d] + b)[1..] == b;
    } else {
      var t := a[1..];
      var whole := t + [d] + b;
      SplitConcat(t, b, d);
      assert a + [d] + b == [a[0]] + whole;
      SplitStep(a[0], t, whole, b, d);
      assert a == [a[0]] + t;
    }
  }

  lemma SplitStep(c: char, t: string, whole: string, b: string, d: char)
    requires Split(whole, d) == Split(t, d) + Split(b, d)
    ensures Split([c] + whole, d) == Split([c] + t, d) + Split(b, d)
  {
    SplitHead(c, whole, d);
    SplitHead(c, t, d);
    ConsConcat(c, Split(t, d), Split(b, d));
  }

  lemma SplitHead(c: char, s: string, d: char)
    ensures Split([c] + s, d) == if c == d then [""] + Split(s, d) else ConsFirst(c, Split(s, d))
  {
    assert ([c] + s)[1..] == s;
  }

  /** Put `c` in front of the first part. */
  function ConsFirst(c: char, parts: seq<string>): seq<string>
    requires parts != []
  {
    [[c] + parts[0]] + parts[1..]
  }

  lemma ConsConcat(c: char, left: seq<string>, right: seq<string>)
    requires left != []
    ensures ConsFirst(c, left + right) == ConsFirst(c, left) + right
    ensures [""] + (left + right) == ([""] + left) + right
  {
    assert (left + right)[1..] == left[1..] + right;
  }

  lemma {:induction false} SplitPlain(s: string, d: char)
    requires d !in s
    ensures Split(s, d) == [s]
  {
    if s != "" {
      SplitPlain(s[1..], d);
      assert s == [s[0]] + s[1..];
    }
  }

  lemma {:induction false} SplitJoin(parts: seq<string>, d: char)
    requires parts != []
    requires forall p :: p in parts ==> d !in p
    ensures Split(Join(parts, [d]), d) == parts
  {
    SplitPlain(parts[0], d);
    if |parts| > 1 {
      SplitJoin(parts[1..], d);
      SplitConcat(parts[0], Join(parts[1..], [d]), d);
      assert parts == [parts[0]] + parts[1..];
    }
  }

  lemma {:induction false} JoinSplit(s: string, d: char)
    ensures Join(Split(s, d), [d]) == s
  {
    if s != "" {
      JoinSplit(s[1..], d);
      var rest := Split(s[1..], d);
      if s[0] == d {
        assert Split(s, d)[1..] == rest;
        assert s == "" + [d] + s[1..];
      } else {
        assert Split(s, d) == ConsFirst(s[0], rest);
        JoinConsFirst(s[0], rest, [d]);
        assert s == [s[0]] + s[1..];
      }
    }
  }

  lemma JoinConsFirst(c: char, parts: seq<string>, d: string)
    requires parts != []
    ensures Join(ConsFirst(c, parts), d) == [c] + Join(parts, d)
  {
    assert ConsFirst(c, parts)[1..] == parts[1..];
    if |parts| > 1 {
      assert [c] + parts[0] + d + Join(parts[1..], d) == [c] + (parts[0] + d + Join(parts[1..], d));
    }
  }

  // ------------------------------------------------------------------- replacing

  /** JavaScript `s.replaceAll(c, text)` for a one-character pattern. */
  function ReplaceChar(s: string, c: char, text: string): string {
    if s == "" then "" else (if s[0] == c then text else [s[0]]) + ReplaceChar(s[1..], c, text)
  }

  lemma {:induction false} ReplaceConcat(a: string, b: string, c: char, text: string)
    ensures ReplaceChar(a + b, c, text) == ReplaceChar(a, c, text) + ReplaceChar(b, c, text)
  {
    if a == "" {
      assert a + b == b;
    } else {
      var t, head := a[1..], if a[0] == c then text else [a[0]];
      ReplaceConcat(t, b, c, text);
      assert (a + b)[0] == a[0] && (a + b)[1..] == t + b;
      assert ReplaceChar(a + b, c, text) == head + (ReplaceChar(t, c, text) + ReplaceChar(b, c, text));
    }
  }

  lemma {:induction false} NothingToReplace(s: string, c: char, text: string)
    requires forall i :: 0 <= i < |s| ==> s[i] != c
    ensures ReplaceChar(s, c, text) == s
  {
    if s != "" {
      NothingToReplace(s[1..], c, text);
    }
  }

  // -------------------------------------------------------------------- trimming

  /** JavaScript's `\s`, the characters `trim` removes. */
  predicate IsSpace(c: char) {
    || c == ' ' || '\t' <= c <= '\r' || c == '\U{00A0}' || c == '\U{1680}' || '\U{2000}' <= c <= '\U{200A}'
    || c == '\U{2028}' || c == '\U{2029}' || c == '\U{202F}' || c == '\U{205F}' || c == '\U{3000}' || c == '\U{FEFF}'
  }

  function TrimStart(s: string): (r: string)
    ensures r == "" || !IsSpace(r[0])
    ensures |r| <= |s|
    ensures s != "" && IsSpace(s[0]) ==> |r| < |s|
  {
    if s != "" && IsSpace(s[0]) then TrimStart(s[1..]) else s
  }

  function TrimEnd(s: string): (r: string)
    ensures r == "" || !IsSpace(r[|r| - 1])
    ensures r <= s
  {
    if s != "" && IsSpace(s[|s| - 1]) then TrimEnd(s[..|s| - 1]) else s
  }

  function Trim(s: string): string {
    TrimEnd(TrimStart(s))
  }

  /** `trim` leaves a text alone that neither starts nor ends with white space. */
  lemma TrimPlain(s: string)
    requires s == "" || (!IsSpace(s[0]) && !IsSpace(s[|s| - 1]))
    ensures Trim(s) == s
  {
  }

  // -------------------------------------------------------------------- ordering

  /** Code-point order on strings, SQLite's BINARY collation. */
  predicate Leq(a: string, b: string) {
    a == "" || (b != "" && (a[0] < b[0] || (a[0] == b[0] && Leq(a[1..], b[1..]))))
  }

  predicate Less(a: string, b: string) {
    Leq(a, b) && a != b
  }

  lemma {:induction false} LeqAntisymmetric(a: string, b: string)
    requires Leq(a, b) && Leq(b, a)
    ensures a == b
  {
    if a != "" {
      LeqAntisymmetric(a[1..], b[1..]);
      assert a == [a[0]] + a[1..] && b == [b[0]] + b[1..];
    }
  }

  lemma {:induction false} LeqTransitive(a: string, b: string, c: string)
    requires Leq(a, b) && Leq(b, c)
    ensures Leq(a, c)
  {
    if a != "" && a[0] == b[0] == c[0] {
      LeqTransitive(a[1..], b[1..], c[1..]);
    }
  }

  lemma {:induction false} LeqTotal(a: string, b: string)
    ensures Leq(a, b) || Leq(b, a)
  {
    if a != "" && b != "" && a[0] == b[0] {
      LeqTotal(a[1..], b[1..]);
    }
  }

  lemma {:induction false} LeqReflexive(a: string)
    ensures Leq(a, a)
  {
    if a != "" {
      LeqReflexive(a[1..]);
    }
  }

  /** A text is at or above each of its prefixes. */
  lemma {:induction false} PrefixLeq(p: string, s: string)
    requires p <= s
    ensures Leq(p, s)
  {
    if p != "" {
      PrefixLeq(p[1..], s[1..]);
    }
  }

  function AsciiLower(c: char): char {
    if 'A' <= c <= 'Z' then c + 32 as char else c
  }

  function AsciiLowerAll(s: string): (r: string)
    ensures |r| == |s|
    ensures forall i :: 0 <= i < |s| ==> r[i] == AsciiLower(s[i])
  {
    seq(|s|, i requires 0 <= i < |s| => AsciiLower(s[i]))
  }
}
