/** The order of last use in the graph cache: when it is kept, what eviction then drops, and a run that loses it. */
module GraphOrder {
  import opened Lists
  import opened ModuleGraph
  import opened GraphCache

  /** When a name was last used; -1 for never. */
  function LastUse(uses: seq<string>, name: string): (i: int)
    ensures -1 <= i < |uses|
    ensures i >= 0 ==> uses[i] == name
  {
    if uses == [] then -1 else if uses[|uses| - 1] == name then |uses| - 1 else LastUse(uses[..|uses| - 1], name)
  }

  ghost predicate InUseOrder(slots: seq<Slot>, uses: seq<string>) {
    forall i, j :: 0 <= i < j < |slots| ==> LastUse(uses, slots[i].name) < LastUse(uses, slots[j].name)
  }

  /** A use moves one name to the front of the order and no other. */
  lemma UsedNow(uses: seq<string>, used: string, name: string)
    ensures LastUse(uses + [used], name) == if name == used then |uses| else LastUse(uses, name)
  {
    assert (uses + [used])[..|uses|] == uses;
  }

  /** `slot` was used before each of `others`. */
  ghost predicate UsedBefore(slot: Slot, others: seq<Slot>, uses: seq<string>) {
    forall s :: s in others ==> LastUse(uses, slot.name) < LastUse(uses, s.name)
  }

  lemma OrderOfTail(slots: seq<Slot>, uses: seq<string>)
    requires slots != [] && InUseOrder(slots, uses)
    ensures InUseOrder(slots[1..], uses) && UsedBefore(slots[0], slots[1..], uses)
  {
    assert forall i :: 0 <= i < |slots| - 1 ==> slots[1..][i] == slots[i + 1];
  }

  lemma OrderOfCons(slot: Slot, rest: seq<Slot>, uses: seq<string>)
    requires InUseOrder(rest, uses) && UsedBefore(slot, rest, uses)
    ensures InUseOrder([slot] + rest, uses)
  {
    var all := [slot] + rest;
    forall i, j | 0 <= i < j < |all| ensures LastUse(uses, all[i].name) < LastUse(uses, all[j].name) {
      assert all[j] == rest[j - 1] && rest[j - 1] in rest;
      if i > 0 { assert all[i] == rest[i - 1]; }
    }
  }

  lemma {:induction false} WithoutMembers(slots: seq<Slot>, name: string)
    ensures forall s :: s in Without(slots, name) ==> s in slots
  {
    if slots != [] && slots[0].name != name {
      WithoutMembers(slots[1..], name);
    }
  }

  lemma UsedBeforeFewer(slot: Slot, others: seq<Slot>, fewer: seq<Slot>, uses: seq<string>)
    requires UsedBefore(slot, others, uses) && forall s :: s in fewer ==> s in others
    ensures UsedBefore(slot, fewer, uses)
  {
  }

  lemma {:induction false} WithoutKeepsOrder(slots: seq<Slot>, name: string, uses: seq<string>)
    requires InUseOrder(slots, uses)
    ensures InUseOrder(Without(slots, name), uses)
  {
    if slots != [] {
      var head, tail := slots[0], slots[1..];
      OrderOfTail(slots, uses);
      if head.name != name {
        WithoutKeepsOrder(tail, name, uses);
        WithoutMembers(tail, name);
        UsedBeforeFewer(head, tail, Without(tail, name), uses);
        OrderOfCons(head, Without(tail, name), uses);
      }
    }
  }

  lemma AppendKeepsOrder(slots: seq<Slot>, name: string, entry: nat, uses: seq<string>)
    requires InUseOrder(slots, uses) && forall s :: s in slots ==> s.name != name
    ensures InUseOrder(slots + [Slot(name, entry)], uses + [name])
  {
    var t := slots + [Slot(name, entry)];
    forall i, j | 0 <= i < j < |t| ensures LastUse(uses + [name], t[i].name) < LastUse(uses + [name], t[j].name) {
      UsedNow(uses, name, t[i].name);
      UsedNow(uses, name, t[j].name);
      assert slots[i] in slots;
      if j < |slots| { assert slots[j] in slots; }
    }
  }

  lemma SuffixInOrder(slots: seq<Slot>, k: nat, uses: seq<string>)
    requires k <= |slots| && InUseOrder(slots, uses)
    ensures InUseOrder(slots[k..], uses)
  {
    assert forall i :: 0 <= i < |slots| - k ==> slots[k..][i] == slots[k + i];
  }

  lemma EvictionKeepsOrder(slots: seq<Slot>, uses: seq<string>)
    requires InUseOrder(slots, uses)
    ensures InUseOrder(Evicted(slots), uses)
  {
    var k := EvictedIsSuffix(slots);
    SuffixInOrder(slots, k, uses);
  }

  /** Deleting and setting again, as a hit does, puts the name last. */
  lemma TouchKeepsOrder(slots: seq<Slot>, name: string, entry: nat, uses: seq<string>)
    requires InUseOrder(slots, uses) && DistinctNames(slots)
    ensures InUseOrder(Touched(slots, name, entry), uses + [name])
  {
    WithoutKeepsOrder(slots, name, uses);
    WithoutSpec(slots, name);
    WithNew(Without(slots, name), name, entry);
    AppendKeepsOrder(Without(slots, name), name, entry, uses);
  }

  /** Some other entry stands under the name, and not in the last place. */
  ghost predicate HeldInside(slots: seq<Slot>, name: string) {
    exists k :: 0 <= k < |slots| - 1 && slots[k].name == name
  }

  /** Setting a name keeps the order of last use if and only if it was absent or last already. */
  lemma SetKeepsOrderIff(slots: seq<Slot>, name: string, entry: nat, uses: seq<string>)
    requires InUseOrder(slots, uses) && DistinctNames(slots)
    ensures InUseOrder(With(slots, name, entry), uses + [name]) <==> !HeldInside(slots, name)
  {
    if forall s :: s in slots ==> s.name != name {
      WithNew(slots, name, entry);
      AppendKeepsOrder(slots, name, entry, uses);
    } else {
      var slot :| slot in slots && slot.name == name;
      var k :| 0 <= k < |slots| && slots[k] == slot;
      WithOld(slots, k, name, entry);
      var t := With(slots, name, entry);
      forall i | 0 <= i < |t|
        ensures LastUse(uses + [name], t[i].name) == if i == k then |uses| else LastUse(uses, slots[i].name)
      {
        UsedNow(uses, name, t[i].name);
      }
      if k < |slots| - 1 {
        assert HeldInside(slots, name);
        assert LastUse(uses + [name], t[k].name) > LastUse(uses + [name], t[k + 1].name);
      }
    }
  }

  /** A call that gives its entry up while another call's entry stands under the name. */
  ghost predicate Overwrites(s: State, step: Step, build: Builds)
    requires Inv(s, build)
  {
    (step.Resume? || step.ReadFails?) && step.call in s.calls
    && (if step.Resume? then s.calls[step.call].Checked? else ReadMayFail(s, step.call))
    && Held(s.slots, s.calls[step.call].name) != Some(s.calls[step.call].hit)
    && HeldInside(s.slots, s.calls[step.call].name)
  }

  lemma GiveUpKeepsOrderIff(s: State, call: nat, name: string, hit: nat)
    requires SlotsOk(s) && s.history != [] && InUseOrder(s.slots, s.uses)
    ensures Held(s.slots, name) == Some(hit) || !HeldInside(s.slots, name) ==>
        InUseOrder(GiveUp(s, call, name, hit).slots, GiveUp(s, call, name, hit).uses)
    ensures Held(s.slots, name) != Some(hit) && HeldInside(s.slots, name) ==>
        !InUseOrder(GiveUp(s, call, name, hit).slots, GiveUp(s, call, name, hit).uses)
  {
    var slots := Dropped(s.slots, name, hit);
    WithoutKeepsOrder(s.slots, name, s.uses);
    WithoutSpec(s.slots, name);
    SetKeepsOrderIff(slots, name, |s.entries|, s.uses);
    var all := With(slots, name, |s.entries|);
    if Held(s.slots, name) == Some(hit) || !HeldInside(s.slots, name) {
      EvictionKeepsOrder(all, s.uses + [name]);
    } else {
      SameSize(slots, name, |s.entries|);
    }
  }

  lemma SameSize(slots: seq<Slot>, name: string, entry: nat)
    requires DistinctNames(slots) && HeldInside(slots, name)
    ensures |With(slots, name, entry)| == |slots|
  {
    var k :| 0 <= k < |slots| - 1 && slots[k].name == name;
    WithOld(slots, k, name, entry);
  }

  /** A step keeps the cache in order of last use if and only if it does not overwrite a newer entry. */
  lemma StepKeepsOrderIff(s: State, step: Step, build: Builds)
    requires Inv(s, build) && InUseOrder(s.slots, s.uses)
    ensures InUseOrder(Next(s, step, build).slots, Next(s, step, build).uses) <==> !Overwrites(s, step, build)
  {
    match step
    case Enter(call, name) =>
      if call !in s.calls && Held(s.slots, name).None? {
        HeldNone(s.slots, name);
        WithNew(s.slots, name, |s.entries|);
        AppendKeepsOrder(s.slots, name, |s.entries|, s.uses);
        EvictionKeepsOrder(With(s.slots, name, |s.entries|), s.uses + [name]);
      }
    case Fail(id) =>
      if id < |s.entries| { WithoutKeepsOrder(s.slots, s.entries[id].name, s.uses); }
    case Resume(call) =>
      if call in s.calls && s.calls[call].Checked? {
        var Checked(name, hit, at) := s.calls[call];
        TouchKeepsOrder(s.slots, name, hit, s.uses);
        GiveUpKeepsOrderIff(s, call, name, hit);
      }
    case ReadFails(call) =>
      if ReadMayFail(s, call) {
        GiveUpKeepsOrderIff(s, call, s.calls[call].name, s.calls[call].hit);
      }
    case _ =>
  }

  ghost predicate NoneOverwrites(s: State, steps: seq<Step>, build: Builds)
    requires Inv(s, build)
    decreases |steps|
  {
    steps == [] ||
    (!Overwrites(s, steps[0], build) &&
     (NextKeepsInv(s, steps[0], build); NoneOverwrites(Next(s, steps[0], build), steps[1..], build)))
  }

  /** A run in which no call overwrites another's newer entry keeps the order of last use throughout. */
  lemma {:induction false} RunKeepsOrder(s: State, steps: seq<Step>, build: Builds)
    requires Inv(s, build) && InUseOrder(s.slots, s.uses) && NoneOverwrites(s, steps, build)
    ensures InUseOrder(Run(s, steps, build).slots, Run(s, steps, build).uses)
    decreases |steps|
  {
    if steps != [] {
      StepKeepsOrderIff(s, steps[0], build);
      NextKeepsInv(s, steps[0], build);
      RunKeepsOrder(Next(s, steps[0], build), steps[1..], build);
    }
  }

  /** In order, what an insertion evicts was used before everything it keeps. */
  lemma EvictsLeastRecentlyUsed(slots: seq<Slot>, name: string, entry: nat, uses: seq<string>, gone: Slot, kept: Slot)
    requires DistinctNames(slots) && InUseOrder(slots, uses) && |slots| <= GRAPH_CACHE_LIMIT && !HeldInside(slots, name)
    requires gone in slots && gone.name != name && gone !in Inserted(slots, name, entry)
    requires kept in Inserted(slots, name, entry)
    ensures LastUse(uses + [name], gone.name) < LastUse(uses + [name], kept.name)
  {
    var all := With(slots, name, entry);
    SetKeepsOrderIff(slots, name, entry, uses);
    WithSpec(slots, name, entry);
    var k := EvictedIsSuffix(all);
    BeforeSuffix(all, k, uses + [name], gone, kept);
  }

  lemma BeforeSuffix(all: seq<Slot>, k: nat, uses: seq<string>, gone: Slot, kept: Slot)
    requires k <= |all| && InUseOrder(all, uses)
    requires gone in all && gone !in all[k..] && kept in all[k..]
    ensures LastUse(uses, gone.name) < LastUse(uses, kept.name)
  {
    assert all == all[..k] + all[k..];
    assert gone in all[..k];
    var i :| 0 <= i < k && all[..k][i] == gone;
    var j :| 0 <= j < |all| - k && all[k..][j] == kept;
    assert all[i] == gone && all[k + j] == kept;
  }

  /** How a short map changes. */
  lemma ShortMap(a: Slot, b: Slot, c: Slot, entry: nat)
    requires a.name != b.name && b.name != c.name && a.name != c.name
    ensures Without([a, b], a.name) == [b]
    ensures With([b], a.name, entry) == [b, Slot(a.name, entry)]
    ensures With([b, a, c], a.name, entry) == [b, Slot(a.name, entry), c]
  {
    assert [a, b][1..] == [b] && [b][1..] == [] && [b, a, c][1..] == [a, c] && [a, c][1..] == [c];
    assert With([a, c], a.name, entry) == [Slot(a.name, entry)] + [c];
  }

  /** Three calls of one name, two of which wait for the first one's entry, and a call of another. */
  function FourCallSteps(): seq<Step> {
    [Enter(1, "a"), Enter(2, "a"), Enter(3, "a"), Enter(4, "b")]
  }

  /** The build comes through; one read of the present stamps fails, and a third name is called for. */
  function FourMoreSteps(world: World): seq<Step> {
    [Build(0, world), Stamp(0), ReadFails(2), Enter(5, "c")]
  }

  lemma FourCalls(world: World, build: Builds) returns (s: State)
    ensures Inv(s, build) && s.slots == [Slot("a", 0), Slot("b", 1)] && s.uses == ["a", "b"]
    ensures s.calls == map[2 := Waiting("a", 0), 3 := Waiting("a", 0)] && |s.entries| == 2
    ensures s.entries[0] == Entry("a", 0, None, None, false) && s.history == [world]
    ensures s == Run(Start(world, build), FourCallSteps(), build)
  {
    var steps := FourCallSteps();
    var s0 := Start(world, build);
    RunStep(s0, steps, build);
    var s1 := Next(s0, steps[0], build);
    assert s1.slots == [Slot("a", 0)];
    RunStep(s1, steps[1..], build);
    var s2 := Next(s1, steps[1], build);
    RunStep(s2, steps[1..][1..], build);
    var s3 := Next(s2, steps[2], build);
    RunStep(s3, steps[1..][1..][1..], build);
    s := Next(s3, steps[3], build);
    assert steps[1..][1..][1..][1..] == [];
    assert s.slots == [Slot("a", 0), Slot("b", 1)];
  }

  lemma BuiltAndStamped(s: State, world: World, build: Builds)
    requires Inv(s, build) && |s.entries| == 2 && s.entries[0] == Entry("a", 0, None, None, false)
    requires s.history == [world] && build("a")(world).modules.Some?
    ensures var t := Run(s, [Build(0, world), Stamp(0)], build);
            && Inv(t, build) && t.slots == s.slots && t.calls == s.calls && t.uses == s.uses
            && |t.entries| == 2 && t.entries[0].stamped.Some?
  {
    ReadAtOnce(s, s.entries[0], build);
    TwoSteps(s, Build(0, world), Stamp(0), build);
  }

  /** The first of the two waiting calls gives the entry up and builds afresh. */
  lemma FirstGivesUp(s: State, build: Builds)
    requires Inv(s, build) && s.slots == [Slot("a", 0), Slot("b", 1)] && |s.entries| == 2
    requires s.calls == map[2 := Waiting("a", 0), 3 := Waiting("a", 0)] && s.entries[0].stamped.Some?
    ensures var t := Next(s, ReadFails(2), build);
            && t.slots == [Slot("b", 1), Slot("a", 2)] && |t.entries| == 3 && t.entries[0].stamped.Some?
            && t.calls == map[3 := Waiting("a", 0)] && t.uses == s.uses + ["a"]
  {
    ShortMap(Slot("a", 0), Slot("b", 1), Slot("c", 3), 2);
    assert Held(s.slots, "a") == Some(0);
    assert Dropped(s.slots, "a", 0) == [Slot("b", 1)];
    assert s.calls - {2} == map[3 := Waiting("a", 0)];
  }

  lemma ThenAnother(s: State, build: Builds)
    requires Inv(s, build) && s.slots == [Slot("b", 1), Slot("a", 2)] && |s.entries| == 3
    requires s.calls == map[3 := Waiting("a", 0)] && s.entries[0].stamped.Some?
    ensures var t := Next(s, Enter(5, "c"), build);
            && t.slots == [Slot("b", 1), Slot("a", 2), Slot("c", 3)] && |t.entries| == 4 && t.entries[0].stamped.Some?
            && t.calls == map[3 := Waiting("a", 0)] && t.uses == s.uses + ["c"]
  {
    HeldNone(s.slots, "c");
    WithNew(s.slots, "c", 3);
  }

  lemma SecondLandsInside(s: State, build: Builds)
    requires Inv(s, build) && s.slots == [Slot("b", 1), Slot("a", 2), Slot("c", 3)] && |s.entries| == 4
    requires s.calls == map[3 := Waiting("a", 0)] && s.entries[0].stamped.Some?
    ensures Overwrites(s, ReadFails(3), build)
    ensures Next(s, ReadFails(3), build).slots == [Slot("b", 1), Slot("a", 4), Slot("c", 3)]
    ensures Next(s, ReadFails(3), build).uses == s.uses + ["a"]
  {
    assert s.slots[1].name == "a";
    HeldIff(s.slots, "a", 2);
    ShortMap(Slot("a", 2), Slot("b", 1), Slot("c", 3), 4);
  }

  lemma FourMore(s: State, world: World, build: Builds) returns (t: State)
    requires Inv(s, build) && s.slots == [Slot("a", 0), Slot("b", 1)] && |s.entries| == 2
    requires s.history == [world] && build("a")(world).modules.Some?
    requires s.calls == map[2 := Waiting("a", 0), 3 := Waiting("a", 0)]
    requires s.entries[0] == Entry("a", 0, None, None, false)
    ensures Inv(t, build) && t == Run(s, FourMoreSteps(world), build)
    ensures t.slots == [Slot("b", 1), Slot("a", 2), Slot("c", 3)] && |t.entries| == 4 && t.entries[0].stamped.Some?
    ensures t.calls == map[3 := Waiting("a", 0)] && t.uses == s.uses + ["a"] + ["c"]
  {
    BuiltAndStamped(s, world, build);
    var r := Run(s, [Build(0, world), Stamp(0)], build);
    assert FourMoreSteps(world) == [Build(0, world), Stamp(0)] + [ReadFails(2), Enter(5, "c")];
    RunConcat(s, [Build(0, world), Stamp(0)], [ReadFails(2), Enter(5, "c")], build);
    TwoSteps(r, ReadFails(2), Enter(5, "c"), build);
    FirstGivesUp(r, build);
    ThenAnother(Next(r, ReadFails(2), build), build);
    t := Next(Next(r, ReadFails(2), build), Enter(5, "c"), build);
  }

  lemma BothWaitBehindAnother(world: World, build: Builds) returns (s: State)
    requires build("a")(world).modules.Some?
    ensures Inv(s, build) && s == Run(Start(world, build), FourCallSteps() + FourMoreSteps(world), build)
    ensures s.slots == [Slot("b", 1), Slot("a", 2), Slot("c", 3)] && |s.entries| == 4 && s.entries[0].stamped.Some?
    ensures s.calls == map[3 := Waiting("a", 0)] && s.uses == ["a", "b", "a", "c"]
  {
    var s4 := FourCalls(world, build);
    s := FourMore(s4, world, build);
    OneRun(Start(world, build), FourCallSteps(), s4, FourMoreSteps(world), s, build);
  }

  lemma OneRun(s: State, a: seq<Step>, t: State, b: seq<Step>, u: State, build: Builds)
    requires Inv(s, build) && t == Run(s, a, build) && Inv(t, build) && u == Run(t, b, build)
    ensures u == Run(s, a + b, build)
  {
    RunConcat(s, a, b, build);
  }

  /**
   Two calls that found one entry overwrite when each one's own read of the present stamps fails and another
   name is called for in between: the second gives up an entry that the first has replaced, and lands on the
   replacement in the middle of the map.
   */
  lemma OverwritingRun(world: World, build: Builds) returns (s: State)
    requires build("a")(world).modules.Some?
    ensures s == Run(Start(world, build), FourCallSteps() + FourMoreSteps(world), build)
    ensures Inv(s, build) && InUseOrder(s.slots, s.uses) && Overwrites(s, ReadFails(3), build)
    ensures Next(s, ReadFails(3), build).slots == [Slot("b", 1), Slot("a", 4), Slot("c", 3)]
    ensures Next(s, ReadFails(3), build).uses == ["a", "b", "a", "c", "a"]
  {
    s := BothWaitBehindAnother(world, build);
    UseOrderOfThree(s.slots, s.uses);
    SecondLandsInside(s, build);
  }

  lemma UseOrderOfThree(slots: seq<Slot>, uses: seq<string>)
    requires |slots| == 3 && uses == ["a", "b", "a", "c"]
    requires slots[0].name == "b" && slots[1].name == "a" && slots[2].name == "c"
    ensures InUseOrder(slots, uses)
  {
    assert uses[..3] == ["a", "b", "a"] && uses[..3][..2] == ["a", "b"];
    assert LastUse(uses, "c") == 3;
    assert LastUse(uses, "a") == LastUse(uses[..3], "a") == 2;
    assert LastUse(uses, "b") == LastUse(uses[..3], "b") == LastUse(uses[..3][..2], "b") == 1;
  }
}
