/** A package's key/value store: paging over it, and wiping it (src/cells/package-storage-cell.ts). */
module PackageStorage {
  import opened Lists
  import opened Text
  import Reserved

  /** A row of `__kody_kv` without its key. */
  datatype Row = Row(value: string, updatedAt: int)

  type Store = map<string, Row>

  datatype Item = Item(key: string, row: Row)

  datatype Page = Page(items: seq<Item>, cursor: Option<string>)

  // --------------------------------------------------------------------- key ordering

  ghost predicate Ascending(keys: seq<string>) {
    forall i, j :: 0 <= i < j < |keys| ==> Less(keys[i], keys[j])
  }

  predicate IsLeast(k: string, keys: set<string>) {
    k in keys && forall j :: j in keys ==> Leq(k, j)
  }

  lemma {:induction false} LeastKeyExists(keys: set<string>)
    requires keys != {}
    ensures exists k :: IsLeast(k, keys)
  {
    var k :| k in keys;
    LeqReflexive(k);
    var rest := keys - {k};
    if rest == {} {
      assert forall j :: j in keys && j != k ==> j in rest;
      assert IsLeast(k, keys);
    } else {
      LeastKeyExists(rest);
      var o :| IsLeast(o, rest);
      LeqTotal(k, o);
      var least := if Leq(k, o) then k else o;
      forall j | j in keys ensures Leq(least, j) {
        if j != k {
          assert j in rest;
          if Leq(k, o) { LeqTransitive(k, o, j); }
        }
      }
      assert IsLeast(least, keys);
    }
  }

  lemma LeastKeyIsUnique(keys: set<string>)
    ensures forall a, b :: IsLeast(a, keys) && IsLeast(b, keys) ==> a == b
  {
    forall a, b | IsLeast(a, keys) && IsLeast(b, keys) ensures a == b {
      LeqAntisymmetric(a, b);
    }
  }

  function LeastKey(keys: set<string>): (k: string)
    requires keys != {}
    ensures IsLeast(k, keys)
  {
    LeastKeyExists(keys);
    LeastKeyIsUnique(keys);
    var k :| k in keys && IsLeast(k, keys);
    k
  }

  /** SQL's `ORDER BY key ASC` over the keys of a table. */
  function Ordered(keys: set<string>): (r: seq<string>)
    ensures |r| == |keys|
    ensures forall k :: k in r <==> k in keys
  {
    if keys == {} then [] else
      var k := LeastKey(keys);
      [k] + Ordered(keys - {k})
  }

  lemma {:induction false} OrderedAscends(keys: set<string>)
    ensures Ascending(Ordered(keys))
  {
    if keys != {} {
      var k := LeastKey(keys);
      var rest := Ordered(keys - {k});
      OrderedAscends(keys - {k});
      assert forall j :: 0 <= j < |rest| ==> rest[j] in rest;
    }
  }

  /** Only one ascending sequence lists a given set of keys. */
  lemma {:induction false} AscendingUnique(a: seq<string>, b: seq<string>)
    requires Ascending(a) && Ascending(b)
    requires forall k :: k in a <==> k in b
    ensures a == b
  {
    NonemptyFollows(a, b);
    NonemptyFollows(b, a);
    if a != [] {
      SameFirst(a, b);
      AscendingTail(a);
      AscendingTail(b);
      forall k ensures k in a[1..] <==> k in b[1..] {
        assert k in a <==> k == a[0] || k in a[1..];
        assert k in b <==> k == b[0] || k in b[1..];
      }
      AscendingUnique(a[1..], b[1..]);
      assert a == [a[0]] + a[1..] && b == [b[0]] + b[1..];
    }
  }

  lemma NonemptyFollows(a: seq<string>, b: seq<string>)
    requires forall k :: k in a ==> k in b
    ensures a != [] ==> b != []
  {
    if a != [] {
      assert a[0] in a;
    }
  }

  lemma SameFirst(a: seq<string>, b: seq<string>)
    requires a != [] && b != [] && Ascending(a) && Ascending(b)
    requires forall k :: k in a <==> k in b
    ensures a[0] == b[0]
  {
    assert a[0] in b && b[0] in a;
    var i :| 0 <= i < |b| && b[i] == a[0];
    var j :| 0 <= j < |a| && a[j] == b[0];
    if i > 0 && j > 0 {
      LeqAntisymmetric(a[0], b[0]);
    }
  }

  lemma AscendingTail(a: seq<string>)
    requires a != [] && Ascending(a)
    ensures Ascending(a[1..]) && a[0] !in a[1..]
  {
    var t := a[1..];
    forall i, j | 0 <= i < j < |t| ensures Less(t[i], t[j]) {
      assert t[i] == a[i + 1] && t[j] == a[j + 1];
    }
    forall i | 0 <= i < |t| ensures t[i] != a[0] {
      assert Less(a[0], a[i + 1]);
    }
  }

  // ---------------------------------------------------------------------- the prefix

  /** A character JavaScript counts as two. */
  predicate IsAstral(c: char) {
    c > '\U{FFFF}'
  }

  /** JavaScript's `prefix.length`. */
  function Utf16Length(s: string): (n: nat)
    ensures n >= |s|
    ensures n == |s| <==> forall i :: 0 <= i < |s| ==> !IsAstral(s[i])
  {
    if s == "" then 0 else
      assert s == [s[0]] + s[1..];
      (if IsAstral(s[0]) then 2 else 1) + Utf16Length(s[1..])
  }

  /** SQLite's `substr(key, 1, n)`, which counts characters. */
  function Substr(key: string, n: nat): string {
    key[..if n <= |key| then n else |key|]
  }

  /** `substr(key, 1, prefix.length) = prefix` */
  predicate Belongs(key: string, prefix: string) {
    Substr(key, Utf16Length(prefix)) == prefix
  }

  /**
   A prefix selects the keys that start with it unless it holds a character outside the Basic
   Multilingual Plane: the two counts differ then, and only the prefix itself is selected.
   */
  lemma BelongsIff(key: string, prefix: string)
    ensures Belongs(key, prefix) <==> prefix <= key && (Utf16Length(prefix) == |prefix| || key == prefix)
  {
    if prefix <= key && Utf16Length(prefix) > |prefix| && key == prefix {
      assert Substr(key, Utf16Length(prefix)) == key;
    }
  }

  lemma PrefixSelectsIff(prefix: string)
    ensures (forall key :: prefix <= key <==> Belongs(key, prefix)) <==>
      forall i :: 0 <= i < |prefix| ==> !IsAstral(prefix[i])
  {
    forall key ensures Belongs(key, prefix) <==> prefix <= key && (Utf16Length(prefix) == |prefix| || key == prefix) {
      BelongsIff(key, prefix);
    }
    if Utf16Length(prefix) != |prefix| {
      assert prefix <= prefix + "x" && !Belongs(prefix + "x", prefix);
    }
  }

  // --------------------------------------------------------------------------- a page

  /** `Math.min(Math.max(limit ?? 100, 1), 1000)` */
  function Clamped(limit: Option<int>): (n: nat)
    ensures 1 <= n <= 1000
  {
    var asked := match limit case None => 100 case Some(l) => l;
    if asked < 1 then 1 else if asked > 1000 then 1000 else asked
  }

  predicate Selects(key: string, prefix: string, cursor: string) {
    Leq(prefix, key) && Less(cursor, key) && Belongs(key, prefix)
  }

  function Selected(kv: Store, prefix: string, cursor: string): set<string> {
    set k | k in kv && Selects(k, prefix, cursor)
  }

  function Keys(items: seq<Item>): (keys: seq<string>)
    ensures |keys| == |items|
    ensures forall i :: 0 <= i < |items| ==> keys[i] == items[i].key
  {
    seq(|items|, i requires 0 <= i < |items| => items[i].key)
  }

  function Items(keys: seq<string>, kv: Store): (items: seq<Item>)
    requires forall k :: k in keys ==> k in kv
    ensures Keys(items) == keys
    ensures forall item :: item in items ==> item.key in kv && item.row == kv[item.key]
  {
    seq(|keys|, i requires 0 <= i < |keys| => Item(keys[i], kv[keys[i]]))
  }

  /** The rows come from the table, in order, all of them beyond the cursor and under the prefix. */
  ghost predicate Genuine(page: Page, kv: Store, prefix: string, cursor: string) {
    && Ascending(Keys(page.items))
    && forall item :: item in page.items ==>
        item.key in kv && item.row == kv[item.key] && Belongs(item.key, prefix) && Less(cursor, item.key)
  }

  /** No selected key is passed over: what the page leaves out lies beyond its new cursor. */
  ghost predicate Gapless(page: Page, kv: Store, prefix: string, cursor: string) {
    forall k :: k in kv && Belongs(k, prefix) && Less(cursor, k) ==>
        k in Keys(page.items) || (page.cursor.Some? && Less(page.cursor.value, k))
  }

  /** A cursor comes with a full page, is its last key, and announces a further row. */
  ghost predicate GoesOn(page: Page, kv: Store, prefix: string, limit: nat) {
    && |page.items| <= limit
    && (page.cursor.Some? ==>
          && |page.items| == limit > 0
          && page.cursor.value == page.items[limit - 1].key
          && exists k :: k in kv && Belongs(k, prefix) && Less(page.cursor.value, k))
  }

  ghost predicate IsPage(page: Page, kv: Store, prefix: string, cursor: string, limit: nat) {
    Genuine(page, kv, prefix, cursor) && Gapless(page, kv, prefix, cursor) && GoesOn(page, kv, prefix, limit)
  }

  // ------------------------------------------------------------------------- the cell

  datatype Outcome = Done | InvalidKey | Failed

  class PackageStorageCell {
    var kv: Store
    /** What `sqlite_master` lists, by name; the contents play no part. */
    var tables: set<string>

    ghost predicate Valid()
      reads this
    {
      "" !in kv
    }

    constructor ()
      ensures Valid() && kv == map[] && tables == {"__kody_kv"}
    {
      kv, tables := map[], {"__kody_kv"};
    }

    method Get(key: string) returns (value: Option<string>)
      ensures value == if key in kv then Some(kv[key].value) else None
    {
      value := if key in kv then Some(kv[key].value) else None;
    }

    /** Without a value, `set` deletes; an empty key is refused either way. */
    method Set(key: string, value: Option<string>, now: int) returns (outcome: Outcome)
      requires Valid()
      modifies `kv
      ensures Valid()
      ensures outcome == if key == "" then InvalidKey else Done
      ensures kv ==
        if key == "" then old(kv) else if value.None? then old(kv) - {key} else old(kv)[key := Row(value.value, now)]
    {
      if key == "" {
        return InvalidKey;
      }
      if value.None? {
        var _ := Delete(key);
        return Done;
      }
      kv := kv[key := Row(value.value, now)];
      outcome := Done;
    }

    method Delete(key: string) returns (deleted: bool)
      requires Valid()
      modifies `kv
      ensures Valid()
      ensures deleted == (key in old(kv))
      ensures kv == old(kv) - {key}
    {
      deleted := key in kv;
      kv := kv - {key};
    }

    /** One row more than the page is fetched, to see whether there is a next page. */
    method List(prefix: Option<string>, limit: Option<int>, cursor: Option<string>) returns (page: Page)
      requires Valid()
      ensures IsPage(page, kv, OrEmpty(prefix), OrEmpty(cursor), Clamped(limit))
    {
      var n := Clamped(limit);
      var p, c := OrEmpty(prefix), OrEmpty(cursor);
      ghost var matching := Ordered(Selected(kv, p, c));
      var rows := Take(Ordered(Selected(kv, p, c)), n + 1);
      KeysAreStored(kv, p, c, n, matching);
      var items := Items(Take(rows, n), kv);
      page := Page(items, if |rows| > n then Some(items[n - 1].key) else None);
      PageOfRows(page, kv, p, c, n, matching);
    }

    /**
     Empties the key/value table and drops every table the exclusion clause lets through, or, should a
     drop fail, changes nothing.
     */
    method Clear(failing: set<string>) returns (outcome: Outcome)
      modifies this
      ensures outcome == Done || outcome == Failed
      ensures outcome == Done <==>
        forall name :: name in old(tables) && Reserved.ExclusionAccepts(name) ==> name !in failing
      ensures outcome == Done ==> kv == map[]
      ensures outcome == Done ==>
        forall name :: name in tables <==> name in old(tables) && !Reserved.ExclusionAccepts(name)
      ensures outcome == Failed ==> kv == old(kv) && tables == old(tables)
    {
      var kv0, tables0 := kv, tables;
      kv := map[];
      var dropped := Ordered(set name | name in tables && Reserved.ExclusionAccepts(name));
      for i := 0 to |dropped|
        invariant kv == map[] && tables0 == old(tables) && kv0 == old(kv)
        invariant forall name :: name in tables <==> name in tables0 && name !in dropped[..i]
        invariant forall name :: name in dropped[..i] ==> name !in failing
      {
        if dropped[i] in failing {
          assert dropped[i] in dropped;
          kv, tables := kv0, tables0;
          return Failed;
        }
        tables := tables - {dropped[i]};
      }
      assert dropped[..|dropped|] == dropped;
      outcome := Done;
    }
  }

  /** An option that defaults to the empty text. */
  function OrEmpty(option: Option<string>): string {
    match option case None => "" case Some(s) => s
  }

  lemma KeysAreStored(kv: Store, prefix: string, cursor: string, n: nat, matching: seq<string>)
    requires matching == Ordered(Selected(kv, prefix, cursor))
    ensures Take(Take(matching, n + 1), n) == Take(matching, n)
    ensures forall k :: k in Take(matching, n) ==> k in kv
  {
    assert forall k :: k in Take(matching, n) ==> k in matching;
  }

  /** The first `n` rows of the ordered selection, and the cursor that goes with them. */
  ghost predicate TakesFirst(page: Page, n: nat, matching: seq<string>) {
    && n > 0
    && Keys(page.items) == Take(matching, n)
    && page.cursor == if |matching| > n then Some(matching[n - 1]) else None
  }

  lemma PageOfRows(page: Page, kv: Store, prefix: string, cursor: string, n: nat, matching: seq<string>)
    requires matching == Ordered(Selected(kv, prefix, cursor)) && TakesFirst(page, n, matching)
    requires forall item :: item in page.items ==> item.key in kv && item.row == kv[item.key]
    ensures IsPage(page, kv, prefix, cursor, n)
  {
    OrderedAscends(Selected(kv, prefix, cursor));
    SelectionIsExact(kv, prefix, cursor, matching);
    RowsAreGenuine(page, kv, prefix, cursor, n, matching);
    RowsAreGapless(page, kv, prefix, cursor, n, matching);
    RowsGoOn(page, kv, prefix, cursor, n, matching);
  }

  ghost predicate Wanted(k: string, kv: Store, prefix: string, cursor: string) {
    k in kv && Belongs(k, prefix) && Less(cursor, k)
  }

  /** The comparison with the prefix itself costs nothing: a key that belongs to it is not below it. */
  lemma SelectionIsExact(kv: Store, prefix: string, cursor: string, matching: seq<string>)
    requires matching == Ordered(Selected(kv, prefix, cursor))
    ensures forall k :: k in matching <==> Wanted(k, kv, prefix, cursor)
  {
    forall k ensures k in matching <==> Wanted(k, kv, prefix, cursor) {
      if Wanted(k, kv, prefix, cursor) {
        BelongsIff(k, prefix);
        PrefixLeq(prefix, k);
      }
      assert k in matching <==> k in Selected(kv, prefix, cursor);
    }
  }

  lemma RowsAreGenuine(page: Page, kv: Store, prefix: string, cursor: string, n: nat, matching: seq<string>)
    requires Ascending(matching) && TakesFirst(page, n, matching)
    requires forall k :: k in matching <==> Wanted(k, kv, prefix, cursor)
    requires forall item :: item in page.items ==> item.key in kv && item.row == kv[item.key]
    ensures Genuine(page, kv, prefix, cursor)
  {
    var keys := Keys(page.items);
    forall item | item in page.items ensures Wanted(item.key, kv, prefix, cursor) {
      var i :| 0 <= i < |page.items| && page.items[i] == item;
      assert matching[i] == keys[i] == item.key;
      assert matching[i] in matching;
    }
  }

  lemma RowsAreGapless(page: Page, kv: Store, prefix: string, cursor: string, n: nat, matching: seq<string>)
    requires Ascending(matching) && TakesFirst(page, n, matching)
    requires forall k :: k in matching <==> Wanted(k, kv, prefix, cursor)
    ensures Gapless(page, kv, prefix, cursor)
  {
    var keys := Keys(page.items);
    forall k | Wanted(k, kv, prefix, cursor)
      ensures k in keys || (page.cursor.Some? && Less(page.cursor.value, k))
    {
      var i :| 0 <= i < |matching| && matching[i] == k;
      if i < |keys| {
        assert keys[i] == k;
      } else {
        assert Less(matching[n - 1], matching[i]);
      }
    }
    assert forall k :: k in kv && Belongs(k, prefix) && Less(cursor, k) ==> Wanted(k, kv, prefix, cursor);
  }

  lemma RowsGoOn(page: Page, kv: Store, prefix: string, cursor: string, n: nat, matching: seq<string>)
    requires Ascending(matching) && TakesFirst(page, n, matching)
    requires forall k :: k in matching <==> Wanted(k, kv, prefix, cursor)
    ensures GoesOn(page, kv, prefix, n)
  {
    assert |page.items| == |Keys(page.items)|;
    if page.cursor.Some? {
      assert matching[n] in matching;
      assert Wanted(matching[n], kv, prefix, cursor);
      assert Less(matching[n - 1], matching[n]);
      assert Keys(page.items)[n - 1] == matching[n - 1];
    }
  }

  // ---------------------------------------------------------------------- a whole listing

  /** One call of `list`: what the store held by then, the limit asked for, and the answer. */
  datatype Call = Call(store: Store, limit: Option<int>, page: Page)

  /** The cursor the next call passes: none at first, then the one it was handed. */
  function CursorAfter(calls: seq<Call>): string {
    if calls == [] then "" else OrEmpty(Last(calls).page.cursor)
  }

  function Last(calls: seq<Call>): Call
    requires calls != []
  {
    calls[|calls| - 1]
  }

  function Front(calls: seq<Call>): seq<Call>
    requires calls != []
  {
    calls[..|calls| - 1]
  }

  /** The caller may go on: it has not begun, or was handed a cursor. */
  predicate Open(calls: seq<Call>) {
    calls == [] || Last(calls).page.cursor.Some?
  }

  /** Call after call until there is no cursor, each on whatever the store holds by then. */
  ghost predicate IsListing(calls: seq<Call>, prefix: string) {
    calls == [] ||
    var front, last := Front(calls), Last(calls);
    && IsListing(front, prefix) && Open(front)
    && IsPage(last.page, last.store, prefix, CursorAfter(front), Clamped(last.limit))
  }

  function Visited(calls: seq<Call>): seq<string> {
    if calls == [] then [] else Visited(Front(calls)) + Keys(Last(calls).page.items)
  }

  ghost predicate AtMost(keys: seq<string>, bound: string) {
    forall k :: k in keys ==> Leq(k, bound)
  }

  ghost predicate Beyond(keys: seq<string>, bound: string) {
    forall k :: k in keys ==> Less(bound, k)
  }

  lemma AscendingAppend(a: seq<string>, b: seq<string>, bound: string)
    requires Ascending(a) && Ascending(b) && AtMost(a, bound) && Beyond(b, bound)
    ensures Ascending(a + b)
  {
    var c := a + b;
    forall i, j | 0 <= i < j < |c| ensures Less(c[i], c[j]) {
      if i < |a| && j >= |a| {
        assert c[i] in a && c[j] in b;
        LeqThenLess(c[i], bound, c[j]);
      }
    }
  }

  lemma LeqThenLess(a: string, b: string, c: string)
    requires Leq(a, b) && Less(b, c)
    ensures Less(a, c)
  {
    LeqTransitive(a, b, c);
    if a == c { LeqAntisymmetric(b, c); }
  }

  /** What a page adds: its keys lie beyond the cursor and, if there is a new cursor, up to that. */
  lemma PageBetween(page: Page, kv: Store, prefix: string, cursor: string, limit: nat)
    requires IsPage(page, kv, prefix, cursor, limit)
    ensures Ascending(Keys(page.items)) && Beyond(Keys(page.items), cursor)
    ensures page.cursor.Some? ==> AtMost(Keys(page.items), page.cursor.value) && Leq(cursor, page.cursor.value)
    ensures |page.items| <= limit && (page.cursor.Some? ==> |page.items| == limit)
  {
    var keys := Keys(page.items);
    forall k | k in keys ensures Less(cursor, k) {
      var i :| 0 <= i < |keys| && keys[i] == k;
      assert page.items[i] in page.items;
    }
    if page.cursor.Some? {
      AtMostLast(keys);
      assert keys[limit - 1] in keys;
    }
  }

  lemma AtMostLast(keys: seq<string>)
    requires Ascending(keys) && keys != []
    ensures AtMost(keys, keys[|keys| - 1])
  {
    LeqReflexive(keys[|keys| - 1]);
  }

  lemma AtMostRises(keys: seq<string>, a: string, b: string)
    requires AtMost(keys, a) && Leq(a, b)
    ensures AtMost(keys, b)
  {
    forall k | k in keys ensures Leq(k, b) {
      LeqTransitive(k, a, b);
    }
  }

  lemma AscendingIsDistinct(keys: seq<string>)
    requires Ascending(keys)
    ensures Distinct(keys)
  {
  }

  /**
   Whatever is written between the pages, a listing visits keys in strictly ascending order, so none
   twice, and the cursor it holds is at or above all of them.
   */
  lemma {:induction false} ListingAscends(calls: seq<Call>, prefix: string)
    requires IsListing(calls, prefix)
    ensures Ascending(Visited(calls)) && Distinct(Visited(calls))
    ensures Open(calls) ==> AtMost(Visited(calls), CursorAfter(calls))
    decreases |calls|
  {
    if calls != [] {
      var front, last := Front(calls), Last(calls);
      ListingAscends(front, prefix);
      PageBetween(last.page, last.store, prefix, CursorAfter(front), Clamped(last.limit));
      AscendingAppend(Visited(front), Keys(last.page.items), CursorAfter(front));
      AscendingIsDistinct(Visited(calls));
      if Open(calls) {
        AtMostRises(Visited(front), CursorAfter(front), CursorAfter(calls));
      }
    }
  }

  ghost predicate PresentThroughout(key: string, calls: seq<Call>) {
    forall call :: call in calls ==> key in call.store
  }

  /**
   A key that belongs to the prefix and is there at every call is visited exactly once by a listing
   that has come to its end.
   */
  lemma PresentKeyVisitedOnce(calls: seq<Call>, prefix: string, key: string)
    requires IsListing(calls, prefix) && !Open(calls)
    requires key != "" && Belongs(key, prefix) && PresentThroughout(key, calls)
    ensures multiset(Visited(calls))[key] == 1
  {
    ListingAscends(calls, prefix);
    VisitedOrBeyond(calls, prefix, key);
    DistinctCount(Visited(calls), key);
  }

  /** A key present so far has been visited or lies beyond the cursor. */
  lemma {:induction false} VisitedOrBeyond(calls: seq<Call>, prefix: string, key: string)
    requires IsListing(calls, prefix)
    requires key != "" && Belongs(key, prefix) && PresentThroughout(key, calls)
    ensures key in Visited(calls) || (Open(calls) && Less(CursorAfter(calls), key))
    decreases |calls|
  {
    if calls != [] {
      var front, last := Front(calls), Last(calls);
      VisitedOrBeyond(front, prefix, key);
      assert last in calls;
      if key !in Visited(front) {
        assert Wanted(key, last.store, prefix, CursorAfter(front));
      }
    }
  }

  /** A key that is visited belonged to the prefix and was there when its page was read. */
  lemma {:induction false} VisitedWasPresent(calls: seq<Call>, prefix: string, key: string)
    requires IsListing(calls, prefix) && key in Visited(calls)
    ensures Belongs(key, prefix) && exists call :: call in calls && key in call.store
    decreases |calls|
  {
    var front, last := Front(calls), Last(calls);
    if key in Visited(front) {
      VisitedWasPresent(front, prefix, key);
    } else {
      var j :| 0 <= j < |last.page.items| && Keys(last.page.items)[j] == key;
      assert last.page.items[j] in last.page.items;
      assert last in calls;
    }
  }

  /** Nobody writes while the listing goes on. */
  ghost predicate Unwritten(calls: seq<Call>, kv: Store) {
    forall call :: call in calls ==> call.store == kv
  }

  function Belonging(kv: Store, prefix: string): set<string> {
    set k | k in kv && Belongs(k, prefix)
  }

  /** Without writes, a listing that has come to its end is the sorted list of the keys under the prefix. */
  lemma QuietListingIsOrdered(calls: seq<Call>, prefix: string, kv: Store)
    requires IsListing(calls, prefix) && !Open(calls)
    requires Unwritten(calls, kv) && "" !in kv
    ensures Visited(calls) == Ordered(Belonging(kv, prefix))
  {
    var all := Ordered(Belonging(kv, prefix));
    ListingAscends(calls, prefix);
    OrderedAscends(Belonging(kv, prefix));
    forall k ensures k in Visited(calls) <==> k in all {
      if k in Visited(calls) {
        VisitedWasPresent(calls, prefix, k);
      }
      if k in all {
        VisitedOrBeyond(calls, prefix, k);
      }
    }
    AscendingUnique(Visited(calls), all);
  }

  ghost predicate OneLimit(calls: seq<Call>, limit: Option<int>) {
    forall call :: call in calls ==> call.limit == limit
  }

  /**
   Without writes a listing with one limit ends, after exactly as many pages as it takes to hold the
   keys: it is over if and only if they fit, and it did not fit before.
   */
  lemma QuietListingEnds(calls: seq<Call>, prefix: string, kv: Store, limit: Option<int>)
    requires IsListing(calls, prefix) && calls != []
    requires Unwritten(calls, kv) && "" !in kv && OneLimit(calls, limit)
    ensures !Open(calls) <==> |Belonging(kv, prefix)| <= |calls| * Clamped(limit)
    ensures |calls| > 1 ==> (|calls| - 1) * Clamped(limit) < |Belonging(kv, prefix)|
  {
    if Open(calls) {
      OpenListingIsShort(calls, prefix, kv, limit);
      Product(|calls|, Clamped(limit));
    } else {
      QuietListingIsOrdered(calls, prefix, kv);
      FullPages(calls, prefix, limit);
      if |calls| > 1 {
        assert forall call :: call in Front(calls) ==> call in calls;
        OpenListingIsShort(Front(calls), prefix, kv, limit);
      }
    }
  }

  lemma Product(n: nat, c: nat)
    requires n > 0
    ensures n * c == (n - 1) * c + c
  {
  }

  /** Every page with a cursor is full. */
  lemma {:induction false} FullPages(calls: seq<Call>, prefix: string, limit: Option<int>)
    requires IsListing(calls, prefix) && OneLimit(calls, limit)
    ensures |Visited(calls)| <= |calls| * Clamped(limit)
    ensures Open(calls) ==> |Visited(calls)| == |calls| * Clamped(limit)
    decreases |calls|
  {
    if calls != [] {
      var front, last := Front(calls), Last(calls);
      assert forall call :: call in front ==> call in calls;
      assert last in calls;
      FullPages(front, prefix, limit);
      PageBetween(last.page, last.store, prefix, CursorAfter(front), Clamped(limit));
      Product(|calls|, Clamped(limit));
    }
  }

  /** A listing that holds a cursor has not seen every key. */
  lemma OpenListingIsShort(calls: seq<Call>, prefix: string, kv: Store, limit: Option<int>)
    requires IsListing(calls, prefix) && calls != [] && Open(calls)
    requires Unwritten(calls, kv) && OneLimit(calls, limit)
    ensures |calls| * Clamped(limit) < |Belonging(kv, prefix)|
  {
    var visited, last := Visited(calls), Last(calls);
    ListingAscends(calls, prefix);
    DistinctSize(visited);
    FullPages(calls, prefix, limit);
    assert last in calls;
    var more :| more in kv && Belongs(more, prefix) && Less(CursorAfter(calls), more);
    if more in visited {
      LeqAntisymmetric(more, CursorAfter(calls));
    }
    var seen := set k | k in visited;
    forall k | k in seen ensures k in Belonging(kv, prefix) - {more} {
      VisitedWasPresent(calls, prefix, k);
    }
    SubsetSize(seen, Belonging(kv, prefix) - {more});
  }
}
