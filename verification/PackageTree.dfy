/**
 The package file explorer: one directory's children, the whole tree, and the breadcrumbs
 (universal/package-files.ts).
 */
module PackageTree {
  import opened Lists
  import opened Sorting
  import opened Text
  import opened PackagePaths

  datatype Kind = File | Directory

  /** An entry of the `children` map, which keeps the order of first insertion. */
  datatype Entry = Entry(name: string, kind: Kind)

  datatype Child = Child(name: string, path: string, kind: Kind)

  // -------------------------------------------------------------- paths under a prefix

  function PrefixOf(directory: string): string {
    if directory == "" then "" else directory + "/"
  }

  /** The first segment of what follows the prefix, and whether more follows; none if it is no child. */
  function Step(path: string, prefix: string): (e: Option<Entry>)
    ensures e.Some? ==> e.value.name != "" && '/' !in e.value.name
  {
    if !(prefix <= path) then None else
      var parts := Split(path[|prefix|..], '/');
      if parts[0] == "" then None else Some(Entry(parts[0], if |parts| > 1 then Directory else File))
  }

  predicate IsFileAt(path: string, prefix: string, name: string) {
    path == prefix + name
  }

  predicate IsBelow(path: string, prefix: string, name: string) {
    prefix + name + "/" <= path
  }

  lemma {:induction false} SplitHead(s: string)
    ensures var parts := Split(s, '/');
            if |parts| == 1 then s == parts[0] && '/' !in s else parts[0] + "/" <= s
  {
    JoinSplit(s, '/');
    var parts := Split(s, '/');
    if |parts| > 1 {
      JoinStep(parts);
    }
  }

  /** A path steps to a name exactly if it is that file or lies below that directory. */
  lemma StepIff(path: string, prefix: string, name: string)
    requires name != "" && '/' !in name
    ensures Step(path, prefix) == Some(Entry(name, File)) <==> IsFileAt(path, prefix, name)
    ensures Step(path, prefix) == Some(Entry(name, Directory)) <==> IsBelow(path, prefix, name)
  {
    if prefix <= path {
      var rest := path[|prefix|..];
      assert path == prefix + rest;
      SplitHead(rest);
      if IsFileAt(path, prefix, name) {
        assert rest == name;
        SplitPlain(name, '/');
      }
      if IsBelow(path, prefix, name) {
        var tail := rest[|name| + 1..];
        assert rest == name + ['/'] + tail;
        SplitConcat(name, tail, '/');
        SplitPlain(name, '/');
      }
    }
    assert IsFileAt(path, prefix, name) ==> prefix <= path;
    assert IsBelow(path, prefix, name) ==> prefix <= path;
  }

  // --------------------------------------------------------------------- one directory

  /** `children.set(name, …)`: once a directory, always a directory. */
  function Put(entries: seq<Entry>, e: Entry): seq<Entry> {
    if entries == [] then [e]
    else if entries[0].name == e.name then
      [if entries[0].kind == Directory then entries[0] else e] + entries[1..]
    else [entries[0]] + Put(entries[1..], e)
  }

  /** The map after the loop has seen the paths. */
  function Entries(paths: seq<string>, prefix: string): seq<Entry> {
    if paths == [] then [] else
      var before := Entries(paths[..|paths| - 1], prefix);
      match Step(paths[|paths| - 1], prefix)
      case None => before
      case Some(e) => Put(before, e)
  }

  /** Directories first, then by name as the locale compares it. */
  function EntryOrder(collate: (string, string) -> bool): (Entry, Entry) -> bool {
    (a: Entry, b: Entry) => if a.kind != b.kind then a.kind == Directory else collate(a.name, b.name)
  }

  function ToChild(prefix: string): Entry -> Child {
    (e: Entry) => Child(e.name, prefix + e.name, e.kind)
  }

  function Children(paths: seq<string>, directory: string, collate: (string, string) -> bool): seq<Child> {
    var prefix := PrefixOf(directory);
    Map(Sort(Entries(paths, prefix), EntryOrder(collate)), ToChild(prefix))
  }

  /** The loop of `listPackageFilesChildren`, its sort and its view of each entry. */
  method ListPackageFilesChildren(paths: seq<string>, directory: string, collate: (string, string) -> bool)
      returns (children: seq<Child>)
    ensures children == Children(paths, directory, collate)
  {
    var prefix := PrefixOf(directory);
    var entries: seq<Entry> := [];
    for i := 0 to |paths|
      invariant entries == Entries(paths[..i], prefix)
    {
      var path := paths[i];
      assert paths[..i + 1][..i] == paths[..i];
      if prefix <= path {
        var rest := path[|prefix|..];
        var parts := Split(rest, '/');
        if parts[0] != "" {
          var kind := if |parts| > 1 then Directory else File;
          entries := Put(entries, Entry(parts[0], kind));
        }
      }
    }
    assert paths[..|paths|] == paths;
    children := Map(Sort(entries, EntryOrder(collate)), ToChild(prefix));
  }

  ghost predicate DistinctNames(entries: seq<Entry>) {
    forall i, j :: 0 <= i < j < |entries| ==> entries[i].name != entries[j].name
  }

  predicate Names(entries: seq<Entry>, name: string, kind: Kind) {
    Entry(name, kind) in entries
  }

  /** Setting an entry touches no other name, and the stronger kind prevails. */
  ghost predicate PutRight(after: seq<Entry>, before: seq<Entry>, e: Entry) {
    && DistinctNames(after)
    && (forall x :: x in after && x.name != e.name <==> x in before && x.name != e.name)
    && (Names(after, e.name, Directory) <==> e.kind == Directory || Names(before, e.name, Directory))
    && (Names(after, e.name, File) <==> e.kind == File && !Names(before, e.name, Directory))
  }

  lemma {:induction false} PutSpec(entries: seq<Entry>, e: Entry)
    requires DistinctNames(entries)
    ensures PutRight(Put(entries, e), entries, e)
  {
    if entries != [] {
      var head, tail := entries[0], entries[1..];
      assert entries == [head] + tail;
      assert forall i, j :: 0 <= i < j < |tail| ==> tail[i] == entries[i + 1] && tail[j] == entries[j + 1];
      if head.name == e.name {
        PutFirst(head, tail, e);
      } else {
        PutSpec(tail, e);
        PutLater(head, Put(tail, e), tail, e);
      }
    }
  }

  lemma PutFirst(head: Entry, tail: seq<Entry>, e: Entry)
    requires head.name == e.name && DistinctNames([head] + tail)
    ensures PutRight([if head.kind == Directory then head else e] + tail, [head] + tail, e)
  {
    assert ([head] + tail)[0] == head;
    assert forall i :: 0 <= i < |tail| ==> ([head] + tail)[i + 1] == tail[i];
    assert forall x :: x in tail ==> x.name != e.name;
  }

  lemma PutLater(head: Entry, after: seq<Entry>, before: seq<Entry>, e: Entry)
    requires head.name != e.name && DistinctNames([head] + before) && PutRight(after, before, e)
    ensures PutRight([head] + after, [head] + before, e)
  {
    assert ([head] + before)[0] == head;
    assert forall i :: 0 <= i < |before| ==> ([head] + before)[i + 1] == before[i];
    assert forall x :: x in before ==> x.name != head.name;
    assert forall x :: x in after ==> x.name != head.name;
  }

  ghost predicate SomeFileAt(paths: seq<string>, prefix: string, name: string) {
    exists p :: p in paths && IsFileAt(p, prefix, name)
  }

  ghost predicate SomeBelow(paths: seq<string>, prefix: string, name: string) {
    exists p :: p in paths && IsBelow(p, prefix, name)
  }

  /** What the entries must be: each name once, a directory if anything lies below it, else a file. */
  ghost predicate EntriesRight(entries: seq<Entry>, paths: seq<string>, prefix: string) {
    && DistinctNames(entries)
    && (forall e :: e in entries ==> e.name != "" && '/' !in e.name)
    && (forall name :: name != "" && '/' !in name ==>
          && (Names(entries, name, Directory) <==> SomeBelow(paths, prefix, name))
          && (Names(entries, name, File) <==> SomeFileAt(paths, prefix, name) && !SomeBelow(paths, prefix, name)))
  }

  lemma {:induction false} EntriesAreRight(paths: seq<string>, prefix: string)
    ensures EntriesRight(Entries(paths, prefix), paths, prefix)
    decreases |paths|
  {
    if paths != [] {
      var front, path := paths[..|paths| - 1], paths[|paths| - 1];
      assert paths == front + [path];
      EntriesAreRight(front, prefix);
      OneMorePath(Entries(front, prefix), front, path, prefix);
    }
  }

  lemma OneMorePath(before: seq<Entry>, front: seq<string>, path: string, prefix: string)
    requires EntriesRight(before, front, prefix)
    ensures var after := match Step(path, prefix) case None => before case Some(e) => Put(before, e);
            EntriesRight(after, front + [path], prefix)
  {
    var after := match Step(path, prefix) case None => before case Some(e) => Put(before, e);
    if Step(path, prefix).Some? {
      PutSpec(before, Step(path, prefix).value);
    }
    forall name | name != "" && '/' !in name
      ensures Names(after, name, Directory) <==> SomeBelow(front + [path], prefix, name)
      ensures Names(after, name, File) <==>
        SomeFileAt(front + [path], prefix, name) && !SomeBelow(front + [path], prefix, name)
    {
      StepIff(path, prefix, name);
      SomewhereConcat(front, path, prefix, name);
    }
    forall e | e in after ensures e.name != "" && '/' !in e.name {
      if Step(path, prefix).Some? && e.name != Step(path, prefix).value.name {
        assert e in before;
      }
    }
  }

  lemma SomewhereConcat(front: seq<string>, path: string, prefix: string, name: string)
    ensures SomeFileAt(front + [path], prefix, name) <==>
      SomeFileAt(front, prefix, name) || IsFileAt(path, prefix, name)
    ensures SomeBelow(front + [path], prefix, name) <==> SomeBelow(front, prefix, name) || IsBelow(path, prefix, name)
  {
    assert forall p :: p in front + [path] <==> p in front || p == path;
  }

  /** The children as a reader of the directory would name them. */
  ghost predicate ChildrenRight(children: seq<Child>, paths: seq<string>, prefix: string) {
    && (forall i, j :: 0 <= i < j < |children| ==> children[i].name != children[j].name)
    && (forall c :: c in children <==>
          && c.name != "" && '/' !in c.name && c.path == prefix + c.name
          && (if c.kind == Directory then SomeBelow(paths, prefix, c.name)
              else SomeFileAt(paths, prefix, c.name) && !SomeBelow(paths, prefix, c.name)))
  }

  /** Each child is listed once, and no path's first step is left out. */
  lemma ChildrenAreRight(paths: seq<string>, directory: string, collate: (string, string) -> bool)
    ensures ChildrenRight(Children(paths, directory, collate), paths, PrefixOf(directory))
  {
    var prefix := PrefixOf(directory);
    var entries := Entries(paths, prefix);
    var sorted := Sort(entries, EntryOrder(collate));
    var children := Children(paths, directory, collate);
    EntriesAreRight(paths, prefix);
    SortPermutes(entries, EntryOrder(collate));
    SortMembers(entries, EntryOrder(collate));
    NamesStayDistinct(entries, sorted);
    assert forall i :: 0 <= i < |children| ==> children[i] == ToChild(prefix)(sorted[i]);
    forall c ensures c in children <==> c.path == prefix + c.name && Entry(c.name, c.kind) in entries {
      var e := Entry(c.name, c.kind);
      if c in children {
        var i :| 0 <= i < |children| && children[i] == c;
        assert sorted[i] == e;
      }
      if c.path == prefix + c.name && e in entries {
        assert e in sorted;
        var i :| 0 <= i < |sorted| && sorted[i] == e;
        assert children[i] == c;
      }
    }
    forall c: Child
      ensures Entry(c.name, c.kind) in entries <==> Names(entries, c.name, c.kind) && c.name != "" && '/' !in c.name
    {
      assert Entry(c.name, c.kind) in entries ==> c.name != "" && '/' !in c.name;
    }
  }

  lemma NamesStayDistinct(entries: seq<Entry>, sorted: seq<Entry>)
    requires DistinctNames(entries) && multiset(entries) == multiset(sorted)
    ensures DistinctNames(sorted)
  {
    assert Distinct(entries);
    DistinctFromMultiset(entries, sorted);
    forall i, j | 0 <= i < j < |sorted| ensures sorted[i].name != sorted[j].name {
      assert sorted[i] in multiset(entries) && sorted[j] in multiset(entries);
      var k :| 0 <= k < |entries| && entries[k] == sorted[i];
      var l :| 0 <= l < |entries| && entries[l] == sorted[j];
      assert k != l;
    }
  }

  /** Under any total order of names, the directories come first and each group is in order. */
  lemma ChildrenInOrder(paths: seq<string>, directory: string, collate: (string, string) -> bool)
    requires TotalPreorder(collate)
    ensures var children := Children(paths, directory, collate);
            forall i, j :: 0 <= i < j < |children| ==>
              && (children[j].kind == Directory ==> children[i].kind == Directory)
              && (children[i].kind == children[j].kind ==> collate(children[i].name, children[j].name))
  {
    var order := EntryOrder(collate);
    assert TotalPreorder(order) by {
      forall a, b ensures order(a, b) || order(b, a) {
        assert collate(a.name, b.name) || collate(b.name, a.name);
      }
      forall a, b, c | order(a, b) && order(b, c) ensures order(a, c) {
        assert collate(a.name, b.name) && collate(b.name, c.name) ==> collate(a.name, c.name);
      }
    }
    SortSorts(Entries(paths, PrefixOf(directory)), order);
    assert forall i, j :: 0 <= i < j < |Children(paths, directory, collate)| ==>
        order(Sort(Entries(paths, PrefixOf(directory)), order)[i], Sort(Entries(paths, PrefixOf(directory)), order)[j]);
  }

  // -------------------------------------------------------------------- the whole tree

  function Longest(paths: seq<string>): (n: nat)
    ensures forall p :: p in paths ==> |p| <= n
  {
    if paths == [] then 0 else
      var rest := Longest(paths[1..]);
      assert paths == [paths[0]] + paths[1..];
      if |paths[0]| > rest then |paths[0]| else rest
  }

  /** A listed directory is shorter than some path, so opening directory after directory comes to an end. */
  ghost predicate Listed(children: seq<Child>, paths: seq<string>, directory: string) {
    forall c :: c in children ==>
      && c.path == PrefixOf(directory) + c.name && c.name != ""
      && (c.kind == Directory ==> |c.path| < Longest(paths))
  }

  lemma ChildrenAreListed(paths: seq<string>, directory: string, collate: (string, string) -> bool)
    ensures Listed(Children(paths, directory, collate), paths, directory)
  {
    ChildrenAreRight(paths, directory, collate);
    forall c | c in Children(paths, directory, collate) && c.kind == Directory ensures |c.path| < Longest(paths) {
      var p :| p in paths && IsBelow(p, PrefixOf(directory), c.name);
      assert |c.path + "/"| <= |p|;
    }
  }

  /** The files found by opening every directory, depth first. */
  ghost function Leaves(paths: seq<string>, directory: string, collate: (string, string) -> bool): seq<string>
    decreases Longest(paths) + 1 - |directory|, 1, 0
  {
    ChildrenAreListed(paths, directory, collate);
    if |directory| <= Longest(paths) then
      LeavesUnder(paths, directory, Children(paths, directory, collate), collate)
    else []
  }

  ghost function LeavesUnder(paths: seq<string>, directory: string, children: seq<Child>,
                             collate: (string, string) -> bool)
      : seq<string>
    requires |directory| <= Longest(paths) && Listed(children, paths, directory)
    decreases Longest(paths) + 1 - |directory|, 0, |children|
  {
    if children == [] then [] else
      var c := children[0];
      assert c in children && forall x :: x in children[1..] ==> x in children;
      (if c.kind == File then [c.path] else Leaves(paths, c.path, collate)) +
        LeavesUnder(paths, directory, children[1..], collate)
  }

  /** A file that is not also a directory. */
  ghost predicate IsLeaf(path: string, paths: seq<string>) {
    path in paths && !exists q :: q in paths && path + "/" <= q
  }

  ghost predicate Under(path: string, directory: string) {
    PrefixOf(directory) <= path && |path| > |PrefixOf(directory)|
  }

  /** The part of the tree one child stands for. */
  ghost predicate Covers(c: Child, path: string) {
    path == c.path || c.path + "/" <= path
  }

  ghost predicate AllClean(paths: seq<string>) {
    forall p :: p in paths ==> p != "" && Clean(p)
  }

  /** Different names of one directory share no path. */
  lemma CoversApart(prefix: string, a: Child, b: Child, path: string)
    requires a.path == prefix + a.name && b.path == prefix + b.name
    requires '/' !in a.name && '/' !in b.name && a.name != "" && b.name != ""
    requires Covers(a, path) && Covers(b, path)
    ensures a.name == b.name
  {
    StepIff(path, prefix, a.name);
    StepIff(path, prefix, b.name);
    assert a.path + "/" == prefix + a.name + "/" && b.path + "/" == prefix + b.name + "/";
  }

  /** A clean path under a directory has a first step there. */
  lemma CleanSteps(path: string, directory: string)
    requires Clean(path) && Under(path, directory)
    ensures Step(path, PrefixOf(directory)).Some?
  {
    var prefix := PrefixOf(directory);
    var rest := path[|prefix|..];
    assert path == prefix + rest;
    if directory == "" {
      assert rest == path;
    } else {
      assert path == directory + ['/'] + rest;
      SplitConcat(directory, rest, '/');
    }
    assert Split(rest, '/')[0] in Split(path, '/');
  }

  /** Every path found is a leaf of its child's part of the tree, and none is found twice. */
  lemma {:induction false} LeavesSound(paths: seq<string>, directory: string, collate: (string, string) -> bool)
    ensures forall x :: x in Leaves(paths, directory, collate) ==> IsLeaf(x, paths) && Under(x, directory)
    ensures Distinct(Leaves(paths, directory, collate))
    decreases Longest(paths) + 1 - |directory|, 1, 0
  {
    if |directory| <= Longest(paths) {
      ChildrenAreListed(paths, directory, collate);
      ChildrenAreRight(paths, directory, collate);
      LeavesUnderSound(paths, directory, Children(paths, directory, collate), collate);
    }
  }

  ghost predicate CoveredBy(children: seq<Child>, path: string) {
    exists c :: c in children && Covers(c, path)
  }

  /** Some of a directory's children, each with what a child must have. */
  ghost predicate SomeOf(children: seq<Child>, paths: seq<string>, prefix: string) {
    && (forall i, j :: 0 <= i < j < |children| ==> children[i].name != children[j].name)
    && (forall c :: c in children ==>
          && c.name != "" && '/' !in c.name && c.path == prefix + c.name
          && (c.kind == File ==> SomeFileAt(paths, prefix, c.name) && !SomeBelow(paths, prefix, c.name)))
  }

  lemma {:induction false} LeavesUnderSound(paths: seq<string>, directory: string, children: seq<Child>,
                                            collate: (string, string) -> bool)
    requires |directory| <= Longest(paths) && Listed(children, paths, directory)
    requires SomeOf(children, paths, PrefixOf(directory))
    ensures forall x :: x in LeavesUnder(paths, directory, children, collate) ==>
        IsLeaf(x, paths) && Under(x, directory) && CoveredBy(children, x)
    ensures Distinct(LeavesUnder(paths, directory, children, collate))
    decreases Longest(paths) + 1 - |directory|, 0, |children|
  {
    if children != [] {
      var c, others := children[0], children[1..];
      TailOf(children, paths, directory);
      var here := if c.kind == File then [c.path] else Leaves(paths, c.path, collate);
      var there := LeavesUnder(paths, directory, others, collate);
      LeavesUnderSound(paths, directory, others, collate);
      if c.kind == File {
        FileChildIsLeaf(c, paths, directory);
      } else {
        LeavesSound(paths, c.path, collate);
      }
      forall x | x in here ensures IsLeaf(x, paths) && Under(x, directory) && Covers(c, x) {
        if c.kind == Directory {
          UnderChild(c, directory, x);
        }
      }
      forall x | x in here ensures x !in there {
        if x in there {
          var d :| d in others && Covers(d, x);
          CoversApart(PrefixOf(directory), c, d, x);
        }
      }
      DistinctConcat(here, there);
      forall x | x in here + there ensures IsLeaf(x, paths) && Under(x, directory) && CoveredBy(children, x) {
        if x in here {
          assert c in children && Covers(c, x);
        } else {
          var d :| d in others && Covers(d, x);
          assert d in children;
        }
      }
    }
  }

  lemma TailOf(children: seq<Child>, paths: seq<string>, directory: string)
    requires children != [] && Listed(children, paths, directory) && SomeOf(children, paths, PrefixOf(directory))
    ensures Listed(children[1..], paths, directory) && SomeOf(children[1..], paths, PrefixOf(directory))
    ensures forall d :: d in children[1..] ==> d in children && d.name != children[0].name
  {
    var others := children[1..];
    assert forall i :: 0 <= i < |others| ==> others[i] == children[i + 1];
    assert forall d :: d in others ==> d in children;
  }

  lemma FileChildIsLeaf(c: Child, paths: seq<string>, directory: string)
    requires c.path == PrefixOf(directory) + c.name && c.name != ""
    requires SomeFileAt(paths, PrefixOf(directory), c.name) && !SomeBelow(paths, PrefixOf(directory), c.name)
    ensures IsLeaf(c.path, paths) && Under(c.path, directory)
  {
    forall q | q in paths ensures !(c.path + "/" <= q) {
      assert c.path + "/" == PrefixOf(directory) + c.name + "/";
      assert !IsBelow(q, PrefixOf(directory), c.name);
    }
  }

  lemma UnderChild(c: Child, directory: string, x: string)
    requires c.path == PrefixOf(directory) + c.name && c.name != "" && Under(x, c.path)
    ensures Under(x, directory) && Covers(c, x)
  {
    assert PrefixOf(c.path) == c.path + "/";
    assert PrefixOf(directory) <= c.path <= c.path + "/" <= x;
  }

  lemma DistinctConcat<T>(a: seq<T>, b: seq<T>)
    requires Distinct(a) && Distinct(b)
    requires forall x :: x in a ==> x !in b
    ensures Distinct(a + b)
  {
    var c := a + b;
    forall i, j | 0 <= i < j < |c| ensures c[i] != c[j] {
      if i < |a| && j >= |a| {
        assert c[i] in a && c[j] in b;
      }
    }
  }

  /** Every leaf under a directory is found by opening it. */
  lemma {:induction false} LeavesComplete(paths: seq<string>, directory: string, collate: (string, string) -> bool,
                                          path: string)
    requires AllClean(paths) && IsLeaf(path, paths) && Under(path, directory)
    ensures path in Leaves(paths, directory, collate)
    decreases Longest(paths) + 1 - |directory|, 1, 0
  {
    var prefix := PrefixOf(directory);
    CleanSteps(path, directory);
    var name := Step(path, prefix).value.name;
    StepIff(path, prefix, name);
    ChildrenAreRight(paths, directory, collate);
    ChildrenAreListed(paths, directory, collate);
    var children := Children(paths, directory, collate);
    var kind := if SomeBelow(paths, prefix, name) then Directory else File;
    var c := Child(name, prefix + name, kind);
    assert IsFileAt(path, prefix, name) || IsBelow(path, prefix, name);
    assert c in children;
    assert |directory| <= |prefix| <= Longest(paths);
    ChildLeavesAreLeaves(paths, directory, children, collate, c);
    if kind == Directory {
      var q :| q in paths && IsBelow(q, prefix, name);
      assert prefix + name + "/" == c.path + "/";
      assert IsBelow(path, prefix, name);
      BelowIsUnder(paths, path, c);
      LeavesComplete(paths, c.path, collate, path);
    }
  }

  /** Nothing clean ends in a slash. */
  lemma BelowIsUnder(paths: seq<string>, path: string, c: Child)
    requires AllClean(paths) && path in paths && c.path != "" && c.path + "/" <= path
    ensures Under(path, c.path)
  {
    assert |path| == |c.path + "/"| ==> path == c.path + "/";
    TrailingSlashUnclean(c.path);
  }

  lemma TrailingSlashUnclean(s: string)
    ensures !Clean(s + "/")
  {
    SplitConcat(s, "", '/');
    assert s + ['/'] + "" == s + "/";
    var parts := Split(s, '/') + Split("", '/');
    assert parts[|Split(s, '/')|] == "" && !Kept("");
    var path := s + "/";
    var part := parts[|Split(s, '/')|];
    assert part in Split(path, '/') && !Kept(part);
    assert path != "";
  }

  lemma {:induction false} ChildLeavesAreLeaves(paths: seq<string>, directory: string, children: seq<Child>,
                                                collate: (string, string) -> bool, c: Child)
    requires |directory| <= Longest(paths) && Listed(children, paths, directory) && c in children
    ensures c.kind == File ==> c.path in LeavesUnder(paths, directory, children, collate)
    ensures c.kind == Directory ==>
        forall x :: x in Leaves(paths, c.path, collate) ==> x in LeavesUnder(paths, directory, children, collate)
    decreases |children|
  {
    if c != children[0] {
      assert c in children[1..];
      assert forall x :: x in children[1..] ==> x in children;
      ChildLeavesAreLeaves(paths, directory, children[1..], collate, c);
    }
  }

  /**
   Opening every directory from the root finds each clean path once if nothing lies below it, and not
   at all otherwise: a file that is also a directory hides behind it.
   */
  lemma TreeShowsLeavesOnce(paths: seq<string>, collate: (string, string) -> bool, path: string)
    requires AllClean(paths)
    ensures multiset(Leaves(paths, "", collate))[path] == if IsLeaf(path, paths) then 1 else 0
  {
    var leaves := Leaves(paths, "", collate);
    LeavesSound(paths, "", collate);
    if IsLeaf(path, paths) {
      assert Under(path, "");
      LeavesComplete(paths, "", collate, path);
    }
    DistinctCount(leaves, path);
  }

  ghost predicate NoFileIsADirectory(paths: seq<string>) {
    forall p, q :: p in paths && q in paths ==> !(p + "/" <= q)
  }

  /** The tree shows every path if and only if no file is also a directory. */
  lemma TreeShowsAllIff(paths: seq<string>, collate: (string, string) -> bool)
    requires AllClean(paths)
    ensures (forall p :: p in paths ==> multiset(Leaves(paths, "", collate))[p] == 1) <==> NoFileIsADirectory(paths)
  {
    forall p ensures multiset(Leaves(paths, "", collate))[p] == if IsLeaf(p, paths) then 1 else 0 {
      TreeShowsLeavesOnce(paths, collate, p);
    }
  }

  // --------------------------------------------------------------------- opening a path

  predicate DirectoryExists(paths: seq<string>, directory: string) {
    directory == "" || exists p :: p in paths && directory + "/" <= p
  }

  /** The kind of view `buildPackageFilesView` makes; none where it returns null. */
  function ViewKind(paths: seq<string>, selected: string): Option<Kind> {
    if selected != "" && selected in paths then Some(File)
    else if DirectoryExists(paths, selected) then Some(Directory)
    else None
  }

  /** A listed child opens, and as what it was listed as unless it is a directory and a file at once. */
  lemma ListedChildOpens(paths: seq<string>, directory: string, collate: (string, string) -> bool, c: Child)
    requires c in Children(paths, directory, collate)
    ensures ViewKind(paths, c.path).Some?
    ensures ViewKind(paths, c.path) == Some(c.kind) <==> !(c.kind == Directory && c.path in paths)
  {
    ChildrenAreRight(paths, directory, collate);
    if c.kind == Directory {
      var p :| p in paths && IsBelow(p, PrefixOf(directory), c.name);
      assert c.path + "/" <= p;
    }
  }

  /** The children of a clean directory of clean paths are clean, so that their links load them. */
  lemma ListedChildLoads(paths: seq<string>, directory: string, collate: (string, string) -> bool, c: Child)
    requires AllClean(paths) && c in Children(paths, directory, collate)
    ensures Clean(c.path) && LoadedPath(c.path) == Some(c.path)
  {
    ChildrenAreRight(paths, directory, collate);
    var prefix := PrefixOf(directory);
    var p :| p in paths && (IsFileAt(p, prefix, c.name) || IsBelow(p, prefix, c.name));
    if !IsFileAt(p, prefix, c.name) {
      assert c.path + "/" == prefix + c.name + "/";
      CleanAbove(p, c.path);
    }
    LoadedUnchangedIff(c.path);
  }

  /** What a clean path lies below is clean itself. */
  lemma CleanAbove(path: string, above: string)
    requires Clean(path) && above != "" && above + "/" <= path
    ensures Clean(above)
  {
    var tail := path[|above| + 1..];
    assert path == above + ['/'] + tail;
    SplitConcat(above, tail, '/');
    assert forall part :: part in Split(above, '/') ==> part in Split(path, '/');
    assert forall x :: x in above ==> x in path;
  }

  // ------------------------------------------------------------------------ breadcrumbs

  datatype Crumb = Crumb(name: string, path: string)

  /** The loop of `buildPackageFilesAncestors`, which passes over empty segments. */
  method BuildPackageFilesAncestors(selected: string) returns (crumbs: seq<Crumb>)
    ensures crumbs == Ancestors(selected)
  {
    if selected == "" {
      return [];
    }
    var parts := Split(selected, '/');
    crumbs := [];
    for i := 0 to |parts|
      invariant crumbs == AncestorsUpTo(parts, i)
    {
      if parts[i] != "" {
        crumbs := crumbs + [Crumb(parts[i], Join(parts[..i + 1], "/"))];
      }
    }
  }

  function AncestorsUpTo(parts: seq<string>, n: nat): seq<Crumb>
    requires n <= |parts|
  {
    if n == 0 then [] else
      AncestorsUpTo(parts, n - 1) + if parts[n - 1] == "" then [] else [Crumb(parts[n - 1], Join(parts[..n], "/"))]
  }

  function Ancestors(selected: string): seq<Crumb> {
    if selected == "" then [] else
      var parts := Split(selected, '/');
      AncestorsUpTo(parts, |parts|)
  }

  lemma {:induction false} CrumbsAreParts(parts: seq<string>, n: nat)
    requires n <= |parts| && forall p :: p in parts ==> p != ""
    ensures |AncestorsUpTo(parts, n)| == n
    ensures forall i :: 0 <= i < n ==> AncestorsUpTo(parts, n)[i] == Crumb(parts[i], Join(parts[..i + 1], "/"))
  {
    if n > 0 {
      CrumbsAreParts(parts, n - 1);
      assert parts[n - 1] in parts;
    }
  }

  lemma RegroupFour(a: string, b: string, c: string, d: string)
    ensures a + (b + c + d) == a + b + c + d
  {
  }

  lemma {:induction false} JoinConcat(a: seq<string>, b: seq<string>)
    requires a != [] && b != []
    ensures Join(a + b, "/") == Join(a, "/") + "/" + Join(b, "/")
  {
    JoinStep(a + b);
    assert (a + b)[1..] == a[1..] + b;
    if |a| == 1 {
      assert a[1..] + b == b;
    } else {
      JoinConcat(a[1..], b);
      JoinStep(a);
      RegroupFour(a[0] + "/", Join(a[1..], "/"), "/", Join(b, "/"));
    }
  }

  /** The directory a crumb stands in: the crumb before it, or the root. */
  function CrumbParent(crumbs: seq<Crumb>, i: nat): string
    requires i < |crumbs|
  {
    if i == 0 then "" else crumbs[i - 1].path
  }

  /**
   For a clean path that exists, the breadcrumbs run from the root to the path, and each of them is
   listed, by that name and path, among the children of the one before.
   */
  lemma CrumbsFollowTheTree(paths: seq<string>, selected: string, collate: (string, string) -> bool, i: nat)
    requires Clean(selected) && selected != "" && ViewKind(paths, selected).Some?
    requires i < |Ancestors(selected)|
    ensures var crumbs := Ancestors(selected);
            && crumbs[|crumbs| - 1].path == selected
            && exists kind ::
              Child(crumbs[i].name, crumbs[i].path, kind) in Children(paths, CrumbParent(crumbs, i), collate)
  {
    var parts := Split(selected, '/');
    CrumbsAreParts(parts, |parts|);
    JoinSplit(selected, '/');
    assert parts[..|parts|] == parts;
    var crumbs := Ancestors(selected);
    var directory, crumb := CrumbParent(crumbs, i), crumbs[i];
    assert crumb == Crumb(parts[i], Join(parts[..i + 1], "/"));
    assert parts[i] in parts;
    CrumbPath(parts, i);
    assert i > 0 ==> directory == Join(parts[..i], "/") && directory != "";
    var p :| p in paths && (p == selected || selected + "/" <= p);
    CrumbCovers(parts, i, p);
    CrumbIsChild(paths, directory, collate, crumb, p);
  }

  lemma CrumbIsChild(paths: seq<string>, directory: string, collate: (string, string) -> bool, crumb: Crumb, p: string)
    requires crumb.name != "" && '/' !in crumb.name && crumb.path == PrefixOf(directory) + crumb.name
    requires p in paths && (p == crumb.path || crumb.path + "/" <= p)
    ensures exists kind :: Child(crumb.name, crumb.path, kind) in Children(paths, directory, collate)
  {
    var prefix := PrefixOf(directory);
    assert crumb.path + "/" == prefix + crumb.name + "/";
    assert IsFileAt(p, prefix, crumb.name) || IsBelow(p, prefix, crumb.name);
    ChildrenAreRight(paths, directory, collate);
    var kind := if SomeBelow(paths, prefix, crumb.name) then Directory else File;
    assert Child(crumb.name, crumb.path, kind) in Children(paths, directory, collate);
  }

  lemma CrumbPath(parts: seq<string>, i: nat)
    requires i < |parts| && forall p :: p in parts ==> p != ""
    ensures i == 0 ==> Join(parts[..i + 1], "/") == parts[0]
    ensures i > 0 ==> Join(parts[..i], "/") != "" && Join(parts[..i + 1], "/") == Join(parts[..i], "/") + "/" + parts[i]
  {
    if i > 0 {
      assert parts[..i + 1] == parts[..i] + [parts[i]];
      JoinConcat(parts[..i], [parts[i]]);
      assert parts[0] in parts && parts[..i][0] == parts[0];
      assert |Join(parts[..i], "/")| >= |parts[0]|;
    }
  }

  lemma CrumbCovers(parts: seq<string>, i: nat, p: string)
    requires i < |parts| && (p == Join(parts, "/") || Join(parts, "/") + "/" <= p)
    ensures p == Join(parts[..i + 1], "/") || Join(parts[..i + 1], "/") + "/" <= p
  {
    Halves(parts, i + 1);
    FrontCovers(parts, parts[..i + 1], parts[i + 1..], p);
  }

  lemma Halves(parts: seq<string>, n: nat)
    requires 0 < n <= |parts|
    ensures parts == parts[..n] + parts[n..] && parts[..n] != []
  {
  }

  lemma FrontCovers(parts: seq<string>, front: seq<string>, back: seq<string>, p: string)
    requires front != [] && parts == front + back && (p == Join(parts, "/") || Join(parts, "/") + "/" <= p)
    ensures p == Join(front, "/") || Join(front, "/") + "/" <= p
  {
    if back == [] {
      assert front + back == front;
    } else {
      JoinConcat(front, back);
      LongerPrefix(Join(front, "/"), Join(back, "/"), Join(parts, "/"), p);
    }
  }

  lemma LongerPrefix(a: string, b: string, whole: string, p: string)
    requires whole == a + "/" + b && (p == whole || whole + "/" <= p)
    ensures a + "/" <= p
  {
    assert a + "/" <= whole <= whole + "/";
  }
}
