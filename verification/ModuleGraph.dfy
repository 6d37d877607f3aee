/**
 How building a module graph pulls in saved packages (src/execute/module-graph.ts:240-365, 374-388): which
 names a build looks up, which of them it includes, and what the outcome depends on; and what a save accepts
 (src/packages/manifest.ts:427-434).
 */
module ModuleGraph {
  import opened Lists

  /**
   An import as the rewriter meets it, in the order of the source text: of a saved package, one that makes the
   whole module unreadable, or one that is relative, built in or from npm.
   */
  datatype Specifier = Kody(package: string, exported: string) | Refused | Elsewhere

  datatype File = File(path: string, specifiers: seq<Specifier>, text: string)

  /** The manifest's exports, each with the path it points to, and the files. */
  datatype Package = Package(exports: map<string, string>, files: seq<File>)

  datatype Saved = Saved(stamp: int, content: Package)

  /** The saved packages, as they are at one moment or as a build has read them. */
  type World = map<string, Saved>

  datatype Import = Import(package: string, exported: string)

  datatype Pulled = Pulled(name: string, content: Package)

  /** A module after rewriting: how many of its imports went through; less than all makes it a throwing stub. */
  datatype Rewritten = Rewritten(package: string, file: File, resolved: nat)

  /** The build's local variables: packages included, imports of packages asked for, modules rewritten. */
  datatype Walk = Walk(included: seq<Pulled>, asked: seq<Import>, modules: seq<Rewritten>)

  function Names(s: Walk): set<string> {
    set x | x in s.included :: x.name
  }

  function Asked(s: Walk): set<string> {
    set i | i in s.asked :: i.package
  }

  /** The walk goes on from `s`. */
  ghost predicate After(r: Walk, s: Walk) {
    s.included <= r.included && s.asked <= r.asked && s.modules <= r.modules
  }

  lemma AfterNames(r: Walk, s: Walk)
    requires After(r, s)
    ensures Names(s) <= Names(r) && Asked(s) <= Asked(r)
  {
    assert forall x :: x in s.included ==> x in r.included;
    assert forall i :: i in s.asked ==> i in r.asked;
  }

  lemma AfterTransitive(c: Walk, b: Walk, a: Walk)
    requires After(c, b) && After(b, a)
    ensures After(c, a)
  {
  }

  /** Whether `loadPackage` and `resolvePackageExport` let an import through. */
  predicate Resolves(w: World, i: Import) {
    i.package in w && i.exported in w[i.package].content.exports
  }

  ghost function Left(w: World, s: Walk): nat {
    |w.Keys - Names(s)|
  }

  lemma LeftShrinks(w: World, r: Walk, s: Walk)
    requires After(r, s)
    ensures Left(w, r) <= Left(w, s)
  {
    AfterNames(r, s);
    SubsetSize(w.Keys - Names(r), w.Keys - Names(s));
  }

  lemma LeftDrops(w: World, s: Walk, name: string)
    requires name in w && name !in Names(s)
    ensures Left(w, Pull(w, name, s)) < Left(w, s)
  {
    var t := Pull(w, name, s);
    assert Names(t) == Names(s) + {name} by {
      assert forall x :: x in t.included <==> x in s.included || x == Pulled(name, w[name].content);
    }
    assert w.Keys - Names(s) == (w.Keys - Names(t)) + {name};
  }

  function Pull(w: World, name: string, s: Walk): Walk
    requires name in w
  {
    s.(included := s.included + [Pulled(name, w[name].content)])
  }

  function Ask(i: Import, s: Walk): Walk {
    s.(asked := s.asked + [i])
  }

  /** `includePackage` */
  ghost function Include(w: World, name: string, s: Walk): (r: Walk)
    requires name in w
    ensures After(r, s) && name in Names(r)
    decreases Left(w, s), 0, 0
  {
    if name in Names(s) then s else
      LeftDrops(w, s, name);
      var t := Pull(w, name, s);
      assert Pulled(name, w[name].content) in t.included;
      var r := Rewrite(w, name, w[name].content.files, t);
      AfterNames(r, t);
      r
  }

  /** `includeFiles`, one module after the other. */
  ghost function Rewrite(w: World, name: string, files: seq<File>, s: Walk): (r: Walk)
    ensures After(r, s)
    decreases Left(w, s), 2, |files|
  {
    if files == [] then s else
      var (t, n) := Resolve(w, files[0].specifiers, s);
      var u := t.(modules := t.modules + [Rewritten(name, files[0], n)]);
      LeftShrinks(w, u, s);
      Rewrite(w, name, files[1..], u)
  }

  /** The rewriter over a module's imports; the first that is refused or does not resolve ends it. */
  ghost function Resolve(w: World, specifiers: seq<Specifier>, s: Walk): (r: (Walk, nat))
    ensures After(r.0, s)
    decreases Left(w, s), 1, |specifiers|
  {
    if specifiers == [] then (s, 0) else
      match specifiers[0]
      case Refused => (s, 0)
      case Elsewhere =>
        var (r, n) := Resolve(w, specifiers[1..], s);
        (r, n + 1)
      case Kody(package, exported) =>
        var i := Import(package, exported);
        var t := Ask(i, s);
        LeftShrinks(w, t, s);
        assert Left(w, t) == Left(w, s);
        if !Resolves(w, i) then (t, 0) else
          var u := Include(w, package, t);
          LeftShrinks(w, u, t);
          var (r, n) := Resolve(w, specifiers[1..], u);
          AfterTransitive(r, u, s);
          (r, n + 1)
  }

  // ------------------------------------------------------------------- the whole build

  /**
   The graph: the packages a build reports as included, the names it asked for beside them, and the modules
   it makes of what it walked; no modules where it throws.
   */
  datatype Graph = Graph(packages: set<string>, asked: set<string>, modules: Option<string>)

  /** What is built: the entry, and all that happens to the walk afterwards (linking, npm modules, the wrapper). */
  datatype Builder = Builder(entry: string, entryPath: string, link: Walk -> Option<string>)

  const NOTHING := Walk([], [], [])

  predicate HasFile(package: Package, path: string) {
    exists i :: 0 <= i < |package.files| && package.files[i].path == path
  }

  /** `buildModuleGraph` for a saved package's entry file. */
  ghost function BuildGraph(b: Builder, w: World): Graph {
    if b.entry !in w || !HasFile(w[b.entry].content, b.entryPath) then Graph({}, {b.entry}, None) else
      var r := Include(w, b.entry, NOTHING);
      Graph(Names(r), Asked(r) + {b.entry}, b.link(r))
  }

  /** Builders as the cache sees them. */
  ghost function Building(b: Builder): World -> Graph {
    w => BuildGraph(b, w)
  }

  // ------------------------------------------------------------ what a build depends on

  /** The names are saved in both worlds, alike, or in neither. */
  ghost predicate Alike(a: World, b: World, names: set<string>) {
    forall p :: p in names ==> SameAt(a, b, p)
  }

  predicate SameAt(a: World, b: World, p: string) {
    (p in a <==> p in b) && (p in a ==> a[p].content == b[p].content)
  }

  /** The worlds are alike on whatever the walk asked for. */
  ghost predicate AlikeSoFar(a: World, b: World, s: Walk) {
    forall i :: i in s.asked ==> SameAt(a, b, i.package)
  }

  lemma AlikeBefore(a: World, b: World, r: Walk, s: Walk)
    requires AlikeSoFar(a, b, r) && After(r, s)
    ensures AlikeSoFar(a, b, s)
  {
    assert forall i :: i in s.asked ==> i in r.asked;
  }

  lemma {:induction false} IncludeAlike(w: World, v: World, name: string, s: Walk)
    requires name in w && SameAt(w, v, name) && AlikeSoFar(w, v, Include(w, name, s))
    ensures name in v && Include(v, name, s) == Include(w, name, s)
    decreases Left(w, s), 0, 0
  {
    if name !in Names(s) {
      LeftDrops(w, s, name);
      RewriteAlike(w, v, name, w[name].content.files, Pull(w, name, s));
    }
  }

  lemma {:induction false} RewriteAlike(w: World, v: World, name: string, files: seq<File>, s: Walk)
    requires AlikeSoFar(w, v, Rewrite(w, name, files, s))
    ensures Rewrite(v, name, files, s) == Rewrite(w, name, files, s)
    decreases Left(w, s), 2, |files|
  {
    if files != [] {
      var (t, n) := Resolve(w, files[0].specifiers, s);
      var u := t.(modules := t.modules + [Rewritten(name, files[0], n)]);
      LeftShrinks(w, u, s);
      AlikeBefore(w, v, Rewrite(w, name, files[1..], u), u);
      ResolveAlike(w, v, files[0].specifiers, s);
      RewriteAlike(w, v, name, files[1..], u);
    }
  }

  lemma {:induction false} ResolveAlike(w: World, v: World, specifiers: seq<Specifier>, s: Walk)
    requires AlikeSoFar(w, v, Resolve(w, specifiers, s).0)
    ensures Resolve(v, specifiers, s) == Resolve(w, specifiers, s)
    decreases Left(w, s), 1, |specifiers|
  {
    if specifiers != [] {
      match specifiers[0]
      case Refused =>
      case Elsewhere => ResolveAlike(w, v, specifiers[1..], s);
      case Kody(package, exported) => ImportAlike(w, v, specifiers, s);
    }
  }

  lemma {:induction false} ImportAlike(w: World, v: World, specifiers: seq<Specifier>, s: Walk)
    requires specifiers != [] && specifiers[0].Kody? && AlikeSoFar(w, v, Resolve(w, specifiers, s).0)
    ensures Resolve(v, specifiers, s) == Resolve(w, specifiers, s)
    decreases Left(w, s), 1, |specifiers|, 0
  {
    var i := Import(specifiers[0].package, specifiers[0].exported);
    var t, r := Ask(i, s), Resolve(w, specifiers, s).0;
    AskNames(i, s);
    AlikeBefore(w, v, r, t);
    if Resolves(w, i) {
      var u := Include(w, i.package, t);
      LeftShrinks(w, u, t);
      AlikeBefore(w, v, r, u);
      IncludeAlike(w, v, i.package, t);
      ResolveAlike(w, v, specifiers[1..], u);
    }
  }

  /** A build depends on nothing but the names it asks for, their absence counting. */
  lemma BuildReadsWhatItAsks(b: Builder, w: World, v: World)
    requires Alike(w, v, BuildGraph(b, w).asked)
    ensures BuildGraph(b, v) == BuildGraph(b, w)
  {
    assert SameAt(w, v, b.entry);
    if b.entry in w && HasFile(w[b.entry].content, b.entryPath) {
      var r := Include(w, b.entry, NOTHING);
      forall i | i in r.asked ensures SameAt(w, v, i.package) {
        assert i.package in Asked(r);
      }
      IncludeAlike(w, v, b.entry, NOTHING);
    }
  }

  // ------------------------------------------------------- what a build includes of it

  /** Everything included is saved, and was asked for or stood at the entry. */
  ghost predicate Grounded(w: World, s: Walk, entry: string) {
    Names(s) <= w.Keys && Names(s) <= Asked(s) + {entry}
  }

  lemma {:induction false} IncludeGrounded(w: World, name: string, s: Walk, entry: string)
    requires name in w && Grounded(w, s, entry) && name in Asked(s) + {entry}
    ensures Grounded(w, Include(w, name, s), entry)
    decreases Left(w, s), 0, 0
  {
    if name !in Names(s) {
      LeftDrops(w, s, name);
      var t := Pull(w, name, s);
      assert Names(t) == Names(s) + {name} by {
        assert forall x :: x in t.included <==> x in s.included || x == Pulled(name, w[name].content);
      }
      RewriteGrounded(w, name, w[name].content.files, t, entry);
    }
  }

  lemma {:induction false} RewriteGrounded(w: World, name: string, files: seq<File>, s: Walk, entry: string)
    requires Grounded(w, s, entry)
    ensures Grounded(w, Rewrite(w, name, files, s), entry)
    decreases Left(w, s), 2, |files|
  {
    if files != [] {
      var (t, n) := Resolve(w, files[0].specifiers, s);
      var u := t.(modules := t.modules + [Rewritten(name, files[0], n)]);
      LeftShrinks(w, u, s);
      ResolveGrounded(w, files[0].specifiers, s, entry);
      assert Names(t) == Names(u) && Asked(t) == Asked(u);
      RewriteGrounded(w, name, files[1..], u, entry);
    }
  }

  lemma {:induction false} ResolveGrounded(w: World, specifiers: seq<Specifier>, s: Walk, entry: string)
    requires Grounded(w, s, entry)
    ensures Grounded(w, Resolve(w, specifiers, s).0, entry)
    decreases Left(w, s), 1, |specifiers|
  {
    if specifiers != [] {
      match specifiers[0]
      case Refused =>
      case Elsewhere => ResolveGrounded(w, specifiers[1..], s, entry);
      case Kody(package, exported) =>
        var i := Import(package, exported);
        var t := Ask(i, s);
        AfterNames(t, s);
        assert i in t.asked;
        assert Names(t) == Names(s);
        if Resolves(w, i) {
          var u := Include(w, package, t);
          LeftShrinks(w, u, t);
          IncludeGrounded(w, package, t, entry);
          ResolveGrounded(w, specifiers[1..], u, entry);
        }
    }
  }

  /** What a build includes is saved, and among the names it asked for. */
  lemma BuildIncludesWhatItAsks(b: Builder, w: World)
    ensures BuildGraph(b, w).packages <= w.Keys * BuildGraph(b, w).asked
  {
    if b.entry in w && HasFile(w[b.entry].content, b.entryPath) {
      assert Names(NOTHING) == {};
      IncludeGrounded(w, b.entry, NOTHING, b.entry);
    }
  }

  // --------------------------------------------------------- names asked for in vain

  /** Two walks up to the first time `p` is asked for; there the one that finds `p` includes it. */
  ghost predicate PartAt(p: string, rw: Walk, rv: Walk) {
    if p in Asked(rw) then p in Names(rv) else rv == rw
  }

  /** `v` is `w` but for `p`, which offers there every export in `exports`. */
  ghost predicate Offers(w: World, v: World, p: string, exports: set<string>) {
    && p in v && exports <= v[p].content.exports.Keys
    && Alike(w, v, w.Keys + v.Keys - {p})
  }

  ghost predicate AskedOf(s: Walk, p: string, exports: set<string>) {
    forall i :: i in s.asked && i.package == p ==> i.exported in exports
  }

  lemma AskedBefore(r: Walk, s: Walk, p: string, exports: set<string>)
    requires After(r, s) && AskedOf(r, p, exports)
    ensures AskedOf(s, p, exports)
  {
    assert forall i :: i in s.asked ==> i in r.asked;
  }

  lemma {:induction false} IncludeParts(w: World, v: World, p: string, exports: set<string>, name: string, s: Walk)
    requires name in w && name != p && Offers(w, v, p, exports) && AskedOf(Include(w, name, s), p, exports)
    requires p !in Asked(s) && p !in Names(Include(w, name, s))
    ensures name in v && PartAt(p, Include(w, name, s), Include(v, name, s))
    decreases Left(w, s), 0, 0
  {
    assert name in w.Keys + v.Keys - {p};
    if name !in Names(s) {
      LeftDrops(w, s, name);
      var t := Pull(w, name, s);
      assert Pull(v, name, s) == t && Asked(t) == Asked(s);
      RewriteParts(w, v, p, exports, name, w[name].content.files, t);
    }
  }

  lemma {:induction false} RewriteParts(
    w: World, v: World, p: string, exports: set<string>, name: string, files: seq<File>, s: Walk)
    requires Offers(w, v, p, exports) && AskedOf(Rewrite(w, name, files, s), p, exports)
    requires p !in Asked(s) && p !in Names(Rewrite(w, name, files, s))
    ensures PartAt(p, Rewrite(w, name, files, s), Rewrite(v, name, files, s))
    decreases Left(w, s), 2, |files|
  {
    if files != [] {
      var (t, n) := Resolve(w, files[0].specifiers, s);
      var u := t.(modules := t.modules + [Rewritten(name, files[0], n)]);
      var r := Rewrite(w, name, files[1..], u);
      LeftShrinks(w, u, s);
      AfterNames(r, u);
      AskedBefore(r, u, p, exports);
      assert Names(t) == Names(u) && Asked(t) == Asked(u);
      ResolveParts(w, v, p, exports, files[0].specifiers, s);
      var (t', n') := Resolve(v, files[0].specifiers, s);
      var u' := t'.(modules := t'.modules + [Rewritten(name, files[0], n')]);
      AfterNames(Rewrite(v, name, files[1..], u'), u');
      assert Names(t') == Names(u');
      if p !in Asked(t) {
        RewriteParts(w, v, p, exports, name, files[1..], u);
      }
    }
  }

  lemma {:induction false} ResolveParts(
    w: World, v: World, p: string, exports: set<string>, specifiers: seq<Specifier>, s: Walk)
    requires Offers(w, v, p, exports) && AskedOf(Resolve(w, specifiers, s).0, p, exports)
    requires p !in Asked(s) && p !in Names(Resolve(w, specifiers, s).0)
    ensures var (rw, nw) := Resolve(w, specifiers, s);
            var (rv, nv) := Resolve(v, specifiers, s);
            PartAt(p, rw, rv) && (p !in Asked(rw) ==> nw == nv)
    decreases Left(w, s), 1, |specifiers|
  {
    if specifiers != [] {
      match specifiers[0]
      case Refused =>
      case Elsewhere => ResolveParts(w, v, p, exports, specifiers[1..], s);
      case Kody(package, exported) => ImportParts(w, v, p, exports, specifiers, s);
    }
  }

  lemma {:induction false} ImportParts(
    w: World, v: World, p: string, exports: set<string>, specifiers: seq<Specifier>, s: Walk)
    requires specifiers != [] && specifiers[0].Kody?
    requires Offers(w, v, p, exports) && AskedOf(Resolve(w, specifiers, s).0, p, exports)
    requires p !in Asked(s) && p !in Names(Resolve(w, specifiers, s).0)
    ensures var (rw, nw) := Resolve(w, specifiers, s);
            var (rv, nv) := Resolve(v, specifiers, s);
            PartAt(p, rw, rv) && (p !in Asked(rw) ==> nw == nv)
    decreases Left(w, s), 1, |specifiers|, 0
  {
    var package, rest := specifiers[0].package, specifiers[1..];
    var i := Import(package, specifiers[0].exported);
    var t := Ask(i, s);
    var rw, rv := Resolve(w, specifiers, s).0, Resolve(v, specifiers, s).0;
    AskNames(i, s);
    AskedBefore(rw, t, p, exports);
    if package == p {
      FoundIsIncluded(w, v, i, rest, s);
    } else {
      assert Resolves(v, i) == Resolves(w, i) by {
        assert package in w.Keys + v.Keys - {p} || (package !in w && package !in v);
      }
      if Resolves(w, i) {
        var u, u' := Include(w, package, t), Include(v, package, t);
        LeftShrinks(w, u, t);
        AfterNames(rw, u);
        AskedBefore(rw, u, p, exports);
        AfterNames(rv, u');
        IncludeParts(w, v, p, exports, package, t);
        if p !in Asked(u) {
          ResolveParts(w, v, p, exports, rest, u);
        }
      }
    }
  }

  lemma AskNames(i: Import, s: Walk)
    ensures Names(Ask(i, s)) == Names(s) && Asked(Ask(i, s)) == Asked(s) + {i.package} && i in Ask(i, s).asked
  {
    assert forall j :: j in Ask(i, s).asked <==> j in s.asked || j == i;
  }

  /** An import that one world offers is included there, and stays so. */
  lemma FoundIsIncluded(w: World, v: World, i: Import, rest: seq<Specifier>, s: Walk)
    requires Resolves(v, i)
    ensures i.package in Names(Resolve(v, [Kody(i.package, i.exported)] + rest, s).0)
  {
    var specifiers := [Kody(i.package, i.exported)] + rest;
    assert specifiers[1..] == rest;
    var u := Include(v, i.package, Ask(i, s));
    AfterNames(Resolve(v, rest, u).0, u);
  }

  /** The exports of `p` that a build asks for. */
  ghost function ExportsAsked(b: Builder, w: World, p: string): set<string> {
    if b.entry in w then set i | i in Include(w, b.entry, NOTHING).asked && i.package == p :: i.exported else {}
  }

  /**
   A name that a successful build asks for and does not include is included as soon as anything is saved under
   it that has the exports asked of it.
   */
  lemma SavingTheMissingMatters(b: Builder, w: World, p: string, saved: Saved)
    requires BuildGraph(b, w).modules.Some? && p in BuildGraph(b, w).asked && p !in BuildGraph(b, w).packages
    requires ExportsAsked(b, w, p) <= saved.content.exports.Keys
    ensures p in BuildGraph(b, w[p := saved]).packages
  {
    var r := Include(w, b.entry, NOTHING);
    var exports := ExportsAsked(b, w, p);
    var v := w[p := saved];
    assert Asked(NOTHING) == {};
    assert b.entry in Names(r);
    IncludeParts(w, v, p, exports, b.entry, NOTHING);
  }

  // ------------------------------------------------------------- what can be saved at all

  /** `packageSave` refuses a package without its manifest, or with an export that is none of its files. */
  predicate Savable(content: Package) {
    HasFile(content, "package.json")
    && forall e :: e in content.exports ==> HasFile(content, content.exports[e])
  }

  /** A package of one file that imports nothing and is exported under every given name. */
  function Stub(exports: set<string>): Package {
    Package(map e | e in exports :: "index.js", [File("package.json", [], ""), File("index.js", [], "")])
  }

  lemma StubIsSavable(exports: set<string>)
    ensures Savable(Stub(exports)) && Stub(exports).exports.Keys == exports
  {
    var files := Stub(exports).files;
    assert files[0].path == "package.json" && files[1].path == "index.js";
  }
}
