/** What a hit of the graph cache is worth: whether the graph is the one a build would make at that moment. */
module GraphFreshness {
  import opened Lists
  import opened ModuleGraph
  import opened GraphCache

  /** The same graph, whatever the builds asked for on the way. */
  predicate SameGraph(a: Graph, b: Graph) {
    a.packages == b.packages && a.modules == b.modules
  }

  /** The build found every name it asked for, at least in the end. */
  predicate FoundAll(graph: Graph) {
    graph.asked <= graph.packages
  }

  /** Whatever is saved in both worlds under one stamp is the same package. */
  ghost predicate StampsTell(a: World, b: World) {
    forall p :: p in a && p in b && a[p].stamp == b[p].stamp ==> a[p] == b[p]
  }

  /** An entry as built in one world and stamped in another is reused in `now`. */
  ghost predicate Reused(built: World, stamped: World, now: World, build: World -> Graph) {
    var stamps := PackageStamps(stamped, build(built).packages);
    PackageStamps(now, stamps.Keys) == stamps
  }

  /** No save or deletion of a package in the graph falls between its build and the read of its stamps. */
  ghost predicate Quiet(built: World, stamped: World, graph: Graph) {
    forall p :: p in graph.packages ==> p in built && p in stamped && stamped[p] == built[p]
  }

  /** `now` can come of `stamped` by packages deleted and packages saved. */
  ghost predicate ComesOf(stamped: World, now: World) {
    forall p :: p in now ==> (p in stamped && now[p] == stamped[p]) || Savable(now[p].content)
  }

  /** Where an entry is reused, its stamped packages are as they were when it was stamped. */
  lemma ReusedAgrees(built: World, stamped: World, now: World, build: World -> Graph, p: string)
    requires Reused(built, stamped, now, build) && StampsTell(stamped, now)
    requires p in build(built).packages && p in stamped
    ensures p in now && now[p] == stamped[p]
  {
    var stamps := PackageStamps(stamped, build(built).packages);
    assert p in stamps && stamps[p] == stamped[p].stamp;
    assert p in PackageStamps(now, stamps.Keys);
    assert PackageStamps(now, stamps.Keys)[p] == now[p].stamp;
  }

  /** A graph whose build found all it asked for, stamped quietly, is what every world builds that reuses it. */
  lemma ReusedIsFresh(b: Builder, built: World, stamped: World, now: World)
    requires Reused(built, stamped, now, Building(b)) && StampsTell(stamped, now)
    requires FoundAll(BuildGraph(b, built)) && Quiet(built, stamped, BuildGraph(b, built))
    ensures BuildGraph(b, now) == BuildGraph(b, built)
  {
    var graph := BuildGraph(b, built);
    BuildIncludesWhatItAsks(b, built);
    forall p | p in graph.asked ensures p in built && p in now && built[p].content == now[p].content {
      ReusedAgrees(built, stamped, now, Building(b), p);
    }
    BuildReadsWhatItAsks(b, built, now);
  }

  /**
   An entry is right in every later world that reuses it if and only if a build at the read of its stamps makes
   the same graph and finds all it asks for. A name asked for in vain has no stamp, and so is the one that may
   be saved unnoticed.
   */
  lemma ReusedIsFreshIff(b: Builder, built: World, stamped: World)
    requires BuildGraph(b, built).modules.Some?
    ensures (forall now :: ComesOf(stamped, now) && Reused(built, stamped, now, Building(b)) &&
                           StampsTell(stamped, now) ==>
              SameGraph(BuildGraph(b, now), BuildGraph(b, built)))
       <==> SameGraph(BuildGraph(b, stamped), BuildGraph(b, built)) && FoundAll(BuildGraph(b, stamped))
  {
    var graph, again := BuildGraph(b, built), BuildGraph(b, stamped);
    if SameGraph(again, graph) && FoundAll(again) {
      forall now | ComesOf(stamped, now) && Reused(built, stamped, now, Building(b)) && StampsTell(stamped, now)
        ensures SameGraph(BuildGraph(b, now), graph)
      {
        RebuiltIsFresh(b, built, stamped, now);
      }
    } else {
      ReusedAtOnce(b, built, stamped);
      if SameGraph(again, graph) {
        var p :| p in again.asked && p !in again.packages;
        var now := SomethingSaved(b, stamped, p);
        MissingSaved(b, built, stamped, p, now[p]);
        assert now == stamped[p := now[p]];
        assert ComesOf(stamped, now) && Reused(built, stamped, now, Building(b));
        assert !SameGraph(BuildGraph(b, now), graph);
      }
    }
  }

  lemma RebuiltIsFresh(b: Builder, built: World, stamped: World, now: World)
    requires Reused(built, stamped, now, Building(b)) && StampsTell(stamped, now)
    requires SameGraph(BuildGraph(b, stamped), BuildGraph(b, built)) && FoundAll(BuildGraph(b, stamped))
    ensures SameGraph(BuildGraph(b, now), BuildGraph(b, built))
  {
    var again := BuildGraph(b, stamped);
    BuildIncludesWhatItAsks(b, stamped);
    forall p | p in again.asked ensures p in stamped && p in now && stamped[p].content == now[p].content {
      ReusedAgrees(built, stamped, now, Building(b), p);
    }
    BuildReadsWhatItAsks(b, stamped, now);
  }

  lemma ReusedAtOnce(b: Builder, built: World, stamped: World)
    ensures Reused(built, stamped, stamped, Building(b)) && StampsTell(stamped, stamped) && ComesOf(stamped, stamped)
  {
    var stamps := PackageStamps(stamped, BuildGraph(b, built).packages);
    assert PackageStamps(stamped, stamps.Keys) == stamps;
  }

  /** Whatever has the exports asked of a name, saved where it was asked for in vain: the graph changes, no stamp. */
  lemma MissingSaved(b: Builder, built: World, stamped: World, p: string, saved: Saved)
    requires BuildGraph(b, built).modules.Some? && SameGraph(BuildGraph(b, stamped), BuildGraph(b, built))
    requires p in BuildGraph(b, stamped).asked && p !in BuildGraph(b, stamped).packages
    requires ExportsAsked(b, stamped, p) <= saved.content.exports.Keys
    ensures Reused(built, stamped, stamped[p := saved], Building(b))
    ensures p in BuildGraph(b, stamped[p := saved]).packages
    ensures !SameGraph(BuildGraph(b, stamped[p := saved]), BuildGraph(b, built))
  {
    SavingTheMissingMatters(b, stamped, p, saved);
    var stamps := PackageStamps(stamped, BuildGraph(b, built).packages);
    assert PackageStamps(stamped[p := saved], stamps.Keys) == stamps;
  }

  /** There is always something to save. */
  lemma SomethingSaved(b: Builder, stamped: World, p: string) returns (now: World)
    ensures p in now && now == stamped[p := now[p]] && StampsTell(stamped, now) && ComesOf(stamped, now)
    ensures ExportsAsked(b, stamped, p) <= now[p].content.exports.Keys
  {
    var stamp := if p in stamped then stamped[p].stamp + 1 else 0;
    StubIsSavable(ExportsAsked(b, stamped, p));
    now := stamped[p := Saved(stamp, Stub(ExportsAsked(b, stamped, p)))];
  }

  // ------------------------------------------------------------------------------ runs

  /** The builders of all names, as the cache sees them. */
  ghost function Buildings(bs: string -> Builder): Builds {
    (name: string) => Building(bs(name))
  }

  lemma HitIsReused(s: State, h: Hit, build: Builds)
    requires Inv(s, build) && h in s.hits
    ensures HitOk(s, h, build)
    ensures var e := s.entries[h.entry];
            && e.name == h.name && ReadingOk(s.history, e, build)
            && Reused(e.built.value.seen, s.history[e.stamped.value], s.history[h.at], build(h.name))
  {
    assert HitOk(s, h, build);
    assert s.entries[h.entry] in s.entries;
  }

  /** None of the packages is saved or deleted between the two moments. */
  ghost predicate Undisturbed(history: seq<World>, since: nat, stamped: nat, packages: set<string>)
    requires stamped < |history|
  {
    forall m, p :: since <= m <= stamped && p in packages ==> SeenAs(history[stamped], history[m], p)
  }

  /** Packages that are left alone from the first read of a build to its stamps were read as they were stamped. */
  lemma PiecedIsQuiet(b: Builder, history: seq<World>, since: nat, at: nat, stamped: nat, seen: World)
    requires Pieced(history, since, at, seen) && at <= stamped < |history|
    requires Undisturbed(history, since, stamped, BuildGraph(b, seen).packages)
    ensures Quiet(seen, history[stamped], BuildGraph(b, seen))
  {
    BuildIncludesWhatItAsks(b, seen);
    forall p | p in BuildGraph(b, seen).packages
      ensures p in seen && p in history[stamped] && history[stamped][p] == seen[p]
    {
      assert SeenBetween(history, since, at, seen, p);
      var m :| since <= m <= at && m < |history| && SeenAs(seen, history[m], p);
      assert SeenAs(history[stamped], history[m], p);
    }
  }

  /**
   In every run over any number of names, a graph handed out from the cache is the one a build of that name at
   that moment of the call would make, provided its own build found every name it asked for and none of its
   packages was saved or deleted from the moment that build began until its stamps were read.
   */
  lemma HitIsFresh(bs: string -> Builder, world: World, steps: seq<Step>, h: Hit)
    requires h in Run(Start(world, Buildings(bs)), steps, Buildings(bs)).hits
    ensures var s := Run(Start(world, Buildings(bs)), steps, Buildings(bs));
            && HitOk(s, h, Buildings(bs))
            && var e := s.entries[h.entry];
               var graph := BuildGraph(bs(h.name), e.built.value.seen);
               StampsTell(s.history[e.stamped.value], s.history[h.at]) && FoundAll(graph) &&
               Undisturbed(s.history, e.since, e.stamped.value, graph.packages) ==>
                 BuildGraph(bs(h.name), s.history[h.at]) == graph
  {
    var s := Run(Start(world, Buildings(bs)), steps, Buildings(bs));
    RunKeepsInv(Start(world, Buildings(bs)), steps, Buildings(bs));
    HitIsReused(s, h, Buildings(bs));
    var e := s.entries[h.entry];
    var seen, stamped, now := e.built.value.seen, s.history[e.stamped.value], s.history[h.at];
    var graph := BuildGraph(bs(h.name), seen);
    if StampsTell(stamped, now) && FoundAll(graph) && Undisturbed(s.history, e.since, e.stamped.value, graph.packages) {
      PiecedIsQuiet(bs(h.name), s.history, e.since, e.built.value.at, e.stamped.value, seen);
      ReusedIsFresh(bs(h.name), seen, stamped, now);
    }
  }

  /** What a later call does with an entry that is built and stamped, after one more save. */
  function LaterCall(now: World): seq<Step> {
    [Save(now), Enter(2, "app"), Read(2), Resume(2)]
  }

  ghost predicate HasEntry(s: State, seen: World, stamped: nat) {
    && s.slots == [Slot("app", 0)] && s.calls == map[] && s.hits == []
    && s.entries == [Entry("app", 0, Some(Reading(seen, 0)), Some(stamped), false)]
  }

  lemma SaveAndCall(s: State, now: World, build: Builds, seen: World, stamped: nat) returns (t: State)
    requires Inv(s, build) && HasEntry(s, seen, stamped)
    ensures t == Run(s, [Save(now), Enter(2, "app")], build) && Inv(t, build)
    ensures t.history == s.history + [now] && HasEntry(t.(calls := map[]), seen, stamped)
    ensures t.calls == map[2 := Waiting("app", 0)]
  {
    TwoSteps(s, Save(now), Enter(2, "app"), build);
    t := Run(s, [Save(now), Enter(2, "app")], build);
    assert Held(s.slots, "app") == Some(0);
  }

  /** A call that waits for a stamped entry, with the stamps as they were, is handed that entry. */
  lemma WaiterHits(s: State, build: Builds, seen: World, stamped: nat)
    requires Inv(s, build) && HasEntry(s.(calls := map[]), seen, stamped) && s.calls == map[2 := Waiting("app", 0)]
    requires stamped < |s.history|
    requires Reused(seen, s.history[stamped], s.history[Now(s)], build("app"))
    ensures Inv(Next(s, Read(2), build), build)
    ensures var t := Next(Next(s, Read(2), build), Resume(2), build);
            t.hits == [Hit("app", 0, Now(s))] && t.history == s.history && t.entries == s.entries
  {
    NextKeepsInv(s, Read(2), build);
    var q := Next(s, Read(2), build);
    assert q.calls == map[2 := Checked("app", 0, Now(s))];
    assert Held(q.slots, "app") == Some(0);
    StampsMatchIff(StampsOf(q, q.entries[0], build), StampsAt(q, q.entries[0], Now(s), build));
  }

  /** A call hits as soon as the save before it left the stamps alone. */
  lemma LaterCallHits(s: State, now: World, build: Builds, seen: World, stamped: nat) returns (t: State)
    requires Inv(s, build) && HasEntry(s, seen, stamped) && stamped < |s.history|
    requires Reused(seen, s.history[stamped], now, build("app"))
    ensures t == Run(s, LaterCall(now), build)
    ensures t.hits == [Hit("app", 0, |s.history|)] && t.history == s.history + [now] && t.entries == s.entries
  {
    var r := SaveAndCall(s, now, build, seen, stamped);
    RunConcat(s, [Save(now), Enter(2, "app")], [Read(2), Resume(2)], build);
    assert LaterCall(now) == [Save(now), Enter(2, "app")] + [Read(2), Resume(2)];
    TwoSteps(r, Read(2), Resume(2), build);
    WaiterHits(r, build, seen, stamped);
    t := Next(Next(r, Read(2), build), Resume(2), build);
  }

  function FirstCall(world: World, between: seq<Step>): seq<Step> {
    [Enter(1, "app"), Build(0, world)] + between + [Stamp(0)]
  }

  lemma CallAndBuild(world: World, build: Builds) returns (s: State)
    requires build("app")(world).modules.Some?
    ensures s == Run(Start(world, build), [Enter(1, "app"), Build(0, world)], build) && Inv(s, build)
    ensures s.slots == [Slot("app", 0)] && s.calls == map[] && s.hits == [] && s.history == [world]
    ensures s.entries == [Entry("app", 0, Some(Reading(world, 0)), None, false)]
  {
    var entered := Next(Start(world, build), Enter(1, "app"), build);
    ReadAtOnce(entered, entered.entries[0], build);
    TwoSteps(Start(world, build), Enter(1, "app"), Build(0, world), build);
    s := Run(Start(world, build), [Enter(1, "app"), Build(0, world)], build);
  }

  lemma OneStep(s: State, step: Step, build: Builds)
    requires Inv(s, build)
    ensures Inv(Next(s, step, build), build) && Run(s, [step], build) == Next(s, step, build)
  {
    RunStep(s, [step], build);
    assert [step][1..] == [];
  }

  lemma CallBuildStamp(world: World, build: Builds) returns (s: State)
    requires build("app")(world).modules.Some?
    ensures s == Run(Start(world, build), FirstCall(world, []), build) && Inv(s, build)
    ensures HasEntry(s, world, 0) && s.history == [world]
  {
    var r := CallAndBuild(world, build);
    assert FirstCall(world, []) == [Enter(1, "app"), Build(0, world)] + [Stamp(0)];
    RunConcat(Start(world, build), [Enter(1, "app"), Build(0, world)], [Stamp(0)], build);
    OneStep(r, Stamp(0), build);
    s := Next(r, Stamp(0), build);
  }

  lemma CallBuildSaveStamp(world: World, saved: World, build: Builds) returns (s: State)
    requires build("app")(world).modules.Some?
    ensures s == Run(Start(world, build), FirstCall(world, [Save(saved)]), build) && Inv(s, build)
    ensures HasEntry(s, world, 1) && s.history == [world, saved]
  {
    var r := CallAndBuild(world, build);
    assert FirstCall(world, [Save(saved)]) == [Enter(1, "app"), Build(0, world)] + [Save(saved), Stamp(0)];
    RunConcat(Start(world, build), [Enter(1, "app"), Build(0, world)], [Save(saved), Stamp(0)], build);
    TwoSteps(r, Save(saved), Stamp(0), build);
    s := Next(Next(r, Save(saved), build), Stamp(0), build);
  }

  /**
   Served once, then anything is saved under the name that the build missed, with the exports it asked for, then
   served again: the stamps still match, nothing was saved between build and stamp read, and the graph handed out
   lacks the package.
   */
  lemma MissingPackageStaysMissing(bs: string -> Builder, world: World, p: string, saved: Saved) returns (s: State)
    requires var graph := BuildGraph(bs("app"), world);
      graph.modules.Some? && p in graph.asked && p !in graph.packages
    requires ExportsAsked(bs("app"), world, p) <= saved.content.exports.Keys
    ensures var now := world[p := saved];
      && s == Run(Start(world, Buildings(bs)), FirstCall(world, []) + LaterCall(now), Buildings(bs))
      && s.history == [world, now] && s.hits == [Hit("app", 0, 1)]
      && s.entries == [Entry("app", 0, Some(Reading(world, 0)), Some(0), false)]
      && p in BuildGraph(bs("app"), now).packages
    ensures Undisturbed(s.history, 0, 0, BuildGraph(bs("app"), world).packages)
  {
    var build, now := Buildings(bs), world[p := saved];
    var r := CallBuildStamp(world, build);
    MissingSaved(bs("app"), world, world, p, saved);
    RunConcat(Start(world, build), FirstCall(world, []), LaterCall(now), build);
    s := LaterCallHits(r, now, build, world, 0);
  }

  /**
   What is saved or deleted between build and stamp read is never noticed: in every later world that has the
   packages under the stamps then read, the old graph is handed out, whatever a build would make.
   */
  lemma SaveInBetweenIsMissed(bs: string -> Builder, world: World, saved: World, now: World) returns (s: State)
    requires BuildGraph(bs("app"), world).modules.Some?
    requires !SameGraph(BuildGraph(bs("app"), now), BuildGraph(bs("app"), world))
    requires Reused(world, saved, now, Building(bs("app")))
    ensures s == Run(Start(world, Buildings(bs)), FirstCall(world, [Save(saved)]) + LaterCall(now), Buildings(bs))
    ensures s.history == [world, saved, now] && s.hits == [Hit("app", 0, 2)]
    ensures s.entries == [Entry("app", 0, Some(Reading(world, 0)), Some(1), false)]
    ensures !SameGraph(BuildGraph(bs("app"), s.history[2]), BuildGraph(bs("app"), s.entries[0].built.value.seen))
  {
    var build := Buildings(bs);
    var r := CallBuildSaveStamp(world, saved, build);
    RunConcat(Start(world, build), FirstCall(world, [Save(saved)]), LaterCall(now), build);
    s := LaterCallHits(r, now, build, world, 1);
  }

  /** A package deleted before the stamps are read has none, and may come back as anything. */
  lemma DeletedPackageComesBack(b: Builder, world: World, p: string, other: Saved)
    requires p in BuildGraph(b, world).packages
    ensures Reused(world, world - {p}, world[p := other], Building(b))
    ensures StampsTell(world - {p}, world[p := other])
  {
    var stamps := PackageStamps(world - {p}, BuildGraph(b, world).packages);
    assert PackageStamps(world[p := other], stamps.Keys) == stamps;
  }

  // -------------------------------------------------------------------------- examples

  /** An app whose second file imports another package. */
  function SampleApp(text: string): Package {
    Package(map[], [
      File("main.js", [Elsewhere], text),
      File("helper.js", [Kody("@t/dep", "main")], ""),
      File("package.json", [], "")])
  }

  /** The modules are what the first rewritten file says. */
  function SampleBuilder(): Builder {
    Builder("app", "main.js", (s: Walk) => if s.modules == [] then None else Some(s.modules[0].file.text))
  }

  /** The dependency is asked for and not included, and the build succeeds: such entries do occur. */
  lemma SampleMissesItsImport(text: string)
    ensures Savable(SampleApp(text))
    ensures var w: World := map["app" := Saved(1, SampleApp(text))];
            BuildGraph(SampleBuilder(), w) == Graph({"app"}, {"app", "@t/dep"}, Some(text))
  {
    var w: World := map["app" := Saved(1, SampleApp(text))];
    var files := SampleApp(text).files;
    var s0 := Pull(w, "app", NOTHING);
    assert files[0].specifiers[1..] == [];
    assert Resolve(w, files[0].specifiers, s0) == (s0, 1);
    var s1 := s0.(modules := [Rewritten("app", files[0], 1)]);
    assert s0.modules + [Rewritten("app", files[0], 1)] == s1.modules;
    var i := Import("@t/dep", "main");
    assert Resolve(w, files[1].specifiers, s1) == (Ask(i, s1), 0);
    var s2 := Ask(i, s1).(modules := s1.modules + [Rewritten("app", files[1], 0)]);
    var s3 := s2.(modules := s2.modules + [Rewritten("app", files[2], 0)]);
    assert files[2..][1..] == [] && Rewrite(w, "app", files[2..], s2) == s3;
    assert files[1..][1..] == files[2..] && Rewrite(w, "app", files[1..], s1) == s3;
    assert Rewrite(w, "app", files, s0) == s3;
    assert NOTHING.included == [] && Names(NOTHING) == {};
    assert s3.included == [Pulled("app", SampleApp(text))] && s3.asked == [i];
    assert files[0].path == "main.js" && files[2].path == "package.json";
    assert Names(s3) == {"app"} && Asked(s3) == {"@t/dep"};
  }
}
