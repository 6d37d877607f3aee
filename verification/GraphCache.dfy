/**
 The cache of built module graphs and its interleaved calls (src/apps/serve.ts, src/apps/serve-name.ts).

 A call of `cachedGraph` runs in atomic pieces between its awaits; each piece is a step below, and steps
 of different calls, of builds and of package saves may come in any order.
 */
module GraphCache {
  import opened Lists
  import opened ModuleGraph

  const GRAPH_CACHE_LIMIT := 32

  // ---------------------------------------------------------------- packages and stamps

  type Stamps = map<string, int>

  /** `packageStamps`: names that are not saved are omitted. */
  function PackageStamps(world: World, names: set<string>): Stamps {
    map p | p in names && p in world :: world[p].stamp
  }

  /** `stampsMatch` compares sizes and then looks up the keys of one side in the other. */
  predicate StampsMatch(a: Stamps, b: Stamps) {
    |a.Keys| == |b.Keys| && forall key :: key in a.Keys ==> key in b && a[key] == b[key]
  }

  /** Which is equality of the two maps. */
  lemma StampsMatchIff(a: Stamps, b: Stamps)
    ensures StampsMatch(a, b) <==> a == b
  {
    if StampsMatch(a, b) {
      SubsetSize(a.Keys, b.Keys);
      assert a.Keys == b.Keys;
    }
  }

  // -------------------------------------------------------------------------- the map

  /** A place in the JavaScript Map: entries are told apart by identity. */
  datatype Slot = Slot(name: string, entry: nat)

  function Held(slots: seq<Slot>, name: string): Option<nat> {
    if slots == [] then None else if slots[0].name == name then Some(slots[0].entry) else Held(slots[1..], name)
  }

  /** `Map.delete` */
  function Without(slots: seq<Slot>, name: string): seq<Slot> {
    if slots == [] then []
    else if slots[0].name == name then slots[1..]
    else [slots[0]] + Without(slots[1..], name)
  }

  /** `Map.set`: a name that is there keeps its place. */
  function With(slots: seq<Slot>, name: string, entry: nat): seq<Slot> {
    if slots == [] then [Slot(name, entry)]
    else if slots[0].name == name then [Slot(name, entry)] + slots[1..]
    else [slots[0]] + With(slots[1..], name, entry)
  }

  function Touched(slots: seq<Slot>, name: string, entry: nat): seq<Slot> {
    With(Without(slots, name), name, entry)
  }

  /** Delete a name only while it holds the given entry. */
  function Dropped(slots: seq<Slot>, name: string, entry: nat): seq<Slot> {
    if Held(slots, name) == Some(entry) then Without(slots, name) else slots
  }

  /** Deleting the oldest slots until no more than the limit are left. */
  function Evicted(slots: seq<Slot>): (r: seq<Slot>)
    ensures |r| <= GRAPH_CACHE_LIMIT
  {
    if |slots| <= GRAPH_CACHE_LIMIT then slots else slots[|slots| - GRAPH_CACHE_LIMIT..]
  }

  function Inserted(slots: seq<Slot>, name: string, entry: nat): seq<Slot> {
    Evicted(With(slots, name, entry))
  }

  /** Eviction keeps a suffix. */
  lemma EvictedIsSuffix(slots: seq<Slot>) returns (k: nat)
    ensures k <= |slots| && Evicted(slots) == slots[k..]
  {
    k := |slots| - |Evicted(slots)|;
  }

  /** The module-level `graphCache`, with the pieces of `cachedGraph` that change it. */
  class Cache {
    var slots: seq<Slot>

    constructor ()
      ensures slots == []
    {
      slots := [];
    }

    method Get(name: string) returns (entry: Option<nat>)
      ensures entry == Held(slots, name)
    {
      for i := 0 to |slots|
        invariant Held(slots, name) == Held(slots[i..], name)
      {
        if slots[i].name == name {
          return Some(slots[i].entry);
        }
      }
      entry := None;
    }

    /** With both stamp maps at hand: move a matching entry to the end, or give it up. */
    method Reuse(name: string, hit: nat, built: Stamps, now: Stamps) returns (reused: bool)
      modifies this
      ensures reused <==> built == now && Held(old(slots), name) == Some(hit)
      ensures slots == if reused then Touched(old(slots), name, hit) else Dropped(old(slots), name, hit)
    {
      StampsMatchIff(built, now);
      var held := Get(name);
      if StampsMatch(built, now) && held == Some(hit) {
        slots := Without(slots, name);
        slots := With(slots, name, hit);
        return true;
      }
      Drop(name, hit);
      reused := false;
    }

    method Insert(name: string, entry: nat)
      modifies this
      ensures slots == Inserted(old(slots), name, entry)
    {
      slots := With(slots, name, entry);
      while |slots| > GRAPH_CACHE_LIMIT
        invariant Evicted(slots) == Inserted(old(slots), name, entry)
        decreases |slots|
      {
        assert Evicted(slots[1..]) == Evicted(slots);
        slots := slots[1..];
      }
    }

    method Drop(name: string, entry: nat)
      modifies this
      ensures slots == Dropped(old(slots), name, entry)
    {
      var held := Get(name);
      if held == Some(entry) {
        slots := Without(slots, name);
      }
    }
  }

  // ------------------------------------------------------------------- slots, generally

  ghost predicate DistinctNames(slots: seq<Slot>) {
    forall i, j :: 0 <= i < j < |slots| ==> slots[i].name != slots[j].name
  }

  lemma TailDistinct(slots: seq<Slot>)
    requires slots != [] && DistinctNames(slots)
    ensures DistinctNames(slots[1..]) && forall s :: s in slots[1..] ==> s.name != slots[0].name
  {
    var t := slots[1..];
    assert forall i :: 0 <= i < |t| ==> t[i] == slots[i + 1];
  }

  lemma {:induction false} HeldIff(slots: seq<Slot>, name: string, entry: nat)
    requires DistinctNames(slots)
    ensures Held(slots, name) == Some(entry) <==> Slot(name, entry) in slots
  {
    if slots != [] {
      TailDistinct(slots);
      HeldIff(slots[1..], name, entry);
      assert slots == [slots[0]] + slots[1..];
    }
  }

  lemma {:induction false} HeldNone(slots: seq<Slot>, name: string)
    ensures Held(slots, name).None? <==> forall s :: s in slots ==> s.name != name
  {
    if slots != [] {
      HeldNone(slots[1..], name);
      assert slots == [slots[0]] + slots[1..];
    }
  }

  /** `after` is `before` without the name. */
  ghost predicate Lacks(after: seq<Slot>, before: seq<Slot>, name: string) {
    && DistinctNames(after) && |after| <= |before|
    && forall s :: s in after <==> s in before && s.name != name
  }

  /** `after` is `before` with the name held by the entry. */
  ghost predicate Gains(after: seq<Slot>, before: seq<Slot>, name: string, entry: nat) {
    && DistinctNames(after) && |after| <= |before| + 1
    && forall s :: s in after <==> s == Slot(name, entry) || (s in before && s.name != name)
  }

  lemma DistinctCons(head: Slot, tail: seq<Slot>)
    requires DistinctNames(tail) && forall s :: s in tail ==> s.name != head.name
    ensures DistinctNames([head] + tail)
  {
    var all := [head] + tail;
    assert forall i :: 0 < i < |all| ==> all[i] == tail[i - 1] && tail[i - 1] in tail;
  }

  /** Deleting a name removes its slot, wherever it is, and nothing else. */
  lemma {:induction false} WithoutSpec(slots: seq<Slot>, name: string)
    requires DistinctNames(slots)
    ensures Lacks(Without(slots, name), slots, name)
  {
    if slots != [] {
      var head, tail := slots[0], slots[1..];
      TailDistinct(slots);
      assert slots == [head] + tail;
      if head.name != name {
        WithoutSpec(tail, name);
        DistinctCons(head, Without(tail, name));
      }
    }
  }

  lemma {:induction false} WithSpec(slots: seq<Slot>, name: string, entry: nat)
    requires DistinctNames(slots)
    ensures Gains(With(slots, name, entry), slots, name, entry)
  {
    if slots != [] {
      var head, tail := slots[0], slots[1..];
      TailDistinct(slots);
      assert slots == [head] + tail;
      if head.name == name {
        DistinctCons(Slot(name, entry), tail);
      } else {
        WithSpec(tail, name, entry);
        DistinctCons(head, With(tail, name, entry));
      }
    }
  }

  /** A name that is not there goes to the end. */
  lemma {:induction false} WithNew(slots: seq<Slot>, name: string, entry: nat)
    requires forall s :: s in slots ==> s.name != name
    ensures With(slots, name, entry) == slots + [Slot(name, entry)]
  {
    if slots != [] {
      assert slots[0] in slots && forall s :: s in slots[1..] ==> s in slots;
      WithNew(slots[1..], name, entry);
    }
  }

  /** A name that is there is replaced where it stands. */
  lemma {:induction false} WithOld(slots: seq<Slot>, k: nat, name: string, entry: nat)
    requires DistinctNames(slots) && k < |slots| && slots[k].name == name
    ensures With(slots, name, entry) == slots[k := Slot(name, entry)]
  {
    if k > 0 {
      TailDistinct(slots);
      WithOld(slots[1..], k - 1, name, entry);
      assert slots[1..][k - 1 := Slot(name, entry)] == slots[k := Slot(name, entry)][1..];
    }
  }

  // ----------------------------------------------------------------------- the machine

  /**
   What the build of each name makes of the packages it reads. A name stands for a user, a package and the moment
   it was saved; the names of packages carry their user too.
   */
  type Builds = string -> World -> Graph

  /** The packages as a build read them, one after the other, and the moment it was done. */
  datatype Reading = Reading(seen: World, at: nat)

  /** What has become of a cached build: when it began, what it read, and the moment its stamps were read. */
  datatype Entry = Entry(name: string, since: nat, built: Option<Reading>, stamped: Option<nat>, failed: bool)

  /** Where a call that found an entry stands: it waits, or has read the stamps at a moment. */
  datatype Pending = Waiting(name: string, hit: nat) | Checked(name: string, hit: nat, at: nat)

  /** An entry handed out, on the strength of the stamps at a moment during the call. */
  datatype Hit = Hit(name: string, entry: nat, at: nat)

  datatype State = State(
    history: seq<World>, slots: seq<Slot>, entries: seq<Entry>, calls: map<nat, Pending>, hits: seq<Hit>,
    uses: seq<string>)

  datatype Step =
    | Save(world: World)
    | Enter(call: nat, name: string)
    | Build(entry: nat, seen: World)
    | Stamp(entry: nat)
    | Fail(entry: nat)
    | Read(call: nat)
    | Resume(call: nat)
    | ReadFails(call: nat)

  function Now(s: State): nat
    requires s.history != []
  {
    |s.history| - 1
  }

  ghost function Start(world: World, build: Builds): (s: State)
    ensures Inv(s, build)
  {
    State([world], [], [], map[], [], [])
  }

  /** A fresh build, entered in the cache while it is still on its way. */
  function Fresh(s: State, name: string): State
    requires s.history != []
  {
    s.(slots := Inserted(s.slots, name, |s.entries|),
       entries := s.entries + [Entry(name, Now(s), None, None, false)],
       uses := s.uses + [name])
  }

  function GiveUp(s: State, call: nat, name: string, hit: nat): State
    requires s.history != []
  {
    Fresh(s.(slots := Dropped(s.slots, name, hit), calls := s.calls - {call}), name)
  }

  /** The stamps an entry holds. */
  function StampsOf(s: State, e: Entry, build: Builds): Stamps
    requires e.built.Some? && e.stamped.Some? && e.stamped.value < |s.history|
  {
    PackageStamps(s.history[e.stamped.value], build(e.name)(e.built.value.seen).packages)
  }

  /** The stamps a call compares them with: `packageStamps` of the names that are keys of the former. */
  function StampsAt(s: State, e: Entry, at: nat, build: Builds): Stamps
    requires e.built.Some? && e.stamped.Some? && e.stamped.value < |s.history| && at < |s.history|
  {
    PackageStamps(s.history[at], StampsOf(s, e, build).Keys)
  }

  ghost predicate EntryOk(s: State, e: Entry) {
    && e.since < |s.history|
    && (e.built.Some? ==> e.since <= e.built.value.at < |s.history|)
    && (e.stamped.Some? ==> e.built.Some? && e.built.value.at <= e.stamped.value < |s.history|)
  }

  /** `seen` says of `p` what `w` says. */
  predicate SeenAs(seen: World, w: World, p: string) {
    if p in w then p in seen && seen[p] == w[p] else p !in seen
  }

  /** `seen` says of `p` what was so at some moment between the two. */
  ghost predicate SeenBetween(history: seq<World>, since: nat, at: nat, seen: World, p: string) {
    exists m :: since <= m <= at && m < |history| && SeenAs(seen, history[m], p)
  }

  /** What a build can have read of the packages between two moments: of each what it was at one of them. */
  ghost predicate Pieced(history: seq<World>, since: nat, at: nat, seen: World) {
    forall p :: SeenBetween(history, since, at, seen, p)
  }

  /** The build read what there was since it began, and did not throw. */
  ghost predicate ReadingOk(history: seq<World>, e: Entry, build: Builds) {
    e.built.Some? ==>
      && Pieced(history, e.since, e.built.value.at, e.built.value.seen)
      && build(e.name)(e.built.value.seen).modules.Some?
  }

  ghost predicate CheckedOk(s: State, name: string, hit: nat, at: nat) {
    && hit < |s.entries| && s.entries[hit].name == name && EntryOk(s, s.entries[hit])
    && s.entries[hit].stamped.Some? && s.entries[hit].stamped.value <= at < |s.history|
  }

  ghost predicate PendingOk(s: State, p: Pending) {
    match p
    case Waiting(name, hit) => hit < |s.entries| && s.entries[hit].name == name
    case Checked(name, hit, at) => CheckedOk(s, name, hit, at)
  }

  ghost predicate HitOk(s: State, h: Hit, build: Builds) {
    && CheckedOk(s, h.name, h.entry, h.at)
    && StampsOf(s, s.entries[h.entry], build) == StampsAt(s, s.entries[h.entry], h.at, build)
  }

  ghost predicate SlotsOk(s: State) {
    && DistinctNames(s.slots) && |s.slots| <= GRAPH_CACHE_LIMIT
    && forall slot :: slot in s.slots ==> slot.entry < |s.entries| && s.entries[slot.entry].name == slot.name
  }

  /** A build can be done now, having read `seen`. */
  ghost predicate Finishes(s: State, e: Entry, seen: World, build: Builds)
    requires s.history != []
  {
    e.since <= Now(s) && ReadingOk(s.history, e.(built := Some(Reading(seen, Now(s)))), build)
  }

  ghost predicate EntriesOk(s: State, build: Builds) {
    && s.history != []
    && forall e :: e in s.entries ==> EntryOk(s, e) && ReadingOk(s.history, e, build)
  }

  ghost predicate CallsOk(s: State) {
    forall call :: call in s.calls ==> PendingOk(s, s.calls[call])
  }

  ghost predicate HitsOk(s: State, build: Builds) {
    forall h :: h in s.hits ==> HitOk(s, h, build)
  }

  ghost predicate Inv(s: State, build: Builds) {
    SlotsOk(s) && EntriesOk(s, build) && CallsOk(s) && HitsOk(s, build)
  }

  /** One step; a step that is not due changes nothing. */
  ghost function Next(s: State, step: Step, build: Builds): State
    requires Inv(s, build)
  {
    match step
    case Save(world) => s.(history := s.history + [world])
    case Enter(call, name) =>
      if call in s.calls then s else
        (match Held(s.slots, name)
         case Some(hit) => s.(calls := s.calls[call := Waiting(name, hit)])
         case None => Fresh(s, name))
    case Build(id, seen) =>
      if id < |s.entries| && s.entries[id].built.None? && !s.entries[id].failed
         && Finishes(s, s.entries[id], seen, build) then
        s.(entries := s.entries[id := s.entries[id].(built := Some(Reading(seen, Now(s))))])
      else s
    case Stamp(id) =>
      if id < |s.entries| && s.entries[id].built.Some? && s.entries[id].stamped.None? && !s.entries[id].failed then
        s.(entries := s.entries[id := s.entries[id].(stamped := Some(Now(s)))])
      else s
    case Fail(id) =>
      if id < |s.entries| && s.entries[id].stamped.None? && !s.entries[id].failed then
        s.(entries := s.entries[id := s.entries[id].(failed := true)],
           slots := Dropped(s.slots, s.entries[id].name, id))
      else s
    case Read(call) =>
      if call in s.calls && s.calls[call].Waiting? && s.entries[s.calls[call].hit].stamped.Some? then
        s.(calls := s.calls[call := Checked(s.calls[call].name, s.calls[call].hit, Now(s))])
      else s
    case Resume(call) =>
      if call in s.calls && s.calls[call].Checked? then Resumed(s, call, build) else s
    case ReadFails(call) =>
      if ReadMayFail(s, call) then GiveUp(s, call, s.calls[call].name, s.calls[call].hit) else s
  }

  /** The awaited entry has failed, or the read of the present stamps can. */
  ghost predicate ReadMayFail(s: State, call: nat)
    requires CallsOk(s)
  {
    call in s.calls && s.calls[call].Waiting? &&
    var e := s.entries[s.calls[call].hit];
    e.failed || e.stamped.Some?
  }

  /** The piece after the stamps are read. */
  ghost function Resumed(s: State, call: nat, build: Builds): State
    requires Inv(s, build) && call in s.calls && s.calls[call].Checked?
  {
    var Checked(name, hit, at) := s.calls[call];
    var e := s.entries[hit];
    assert CheckedOk(s, name, hit, at);
    if StampsMatch(StampsOf(s, e, build), StampsAt(s, e, at, build)) && Held(s.slots, name) == Some(hit) then
      s.(slots := Touched(s.slots, name, hit), calls := s.calls - {call},
         hits := s.hits + [Hit(name, hit, at)], uses := s.uses + [name])
    else GiveUp(s, call, name, hit)
  }

  // ------------------------------------------------------------------- what steps keep

  /** History grows, entries gain moments: nothing that was settled about an entry changes. */
  ghost predicate Extends(t: State, s: State) {
    && s.history <= t.history && |s.entries| <= |t.entries|
    && forall i :: 0 <= i < |s.entries| ==>
        && t.entries[i].name == s.entries[i].name && t.entries[i].since == s.entries[i].since
        && (s.entries[i].built.Some? ==> t.entries[i].built == s.entries[i].built)
        && (s.entries[i].stamped.Some? ==> t.entries[i].stamped == s.entries[i].stamped)
  }

  lemma CheckedPersists(s: State, t: State, name: string, hit: nat, at: nat)
    requires CheckedOk(s, name, hit, at) && Extends(t, s)
    ensures CheckedOk(t, name, hit, at)
  {
  }

  lemma HitPersists(s: State, t: State, h: Hit, build: Builds)
    requires HitOk(s, h, build) && Extends(t, s)
    ensures HitOk(t, h, build)
  {
    CheckedPersists(s, t, h.name, h.entry, h.at);
    var e := s.entries[h.entry];
    assert t.history[e.stamped.value] == s.history[e.stamped.value];
    assert t.history[h.at] == s.history[h.at];
  }

  lemma HitsPersist(s: State, t: State, build: Builds)
    requires HitsOk(s, build) && Extends(t, s) && t.hits == s.hits
    ensures HitsOk(t, build)
  {
    forall h | h in t.hits ensures HitOk(t, h, build) {
      HitPersists(s, t, h, build);
    }
  }

  lemma CallsPersist(s: State, t: State)
    requires CallsOk(s) && Extends(t, s)
    requires forall call :: call in t.calls ==> call in s.calls && t.calls[call] == s.calls[call]
    ensures CallsOk(t)
  {
    forall call | call in t.calls ensures PendingOk(t, t.calls[call]) {
      assert PendingOk(s, s.calls[call]);
    }
  }

  lemma InsertedSlotsOk(s: State, name: string)
    requires SlotsOk(s) && s.history != []
    ensures SlotsOk(Fresh(s, name))
  {
    WithSpec(s.slots, name, |s.entries|);
    var all := With(s.slots, name, |s.entries|);
    var k := EvictedIsSuffix(all);
    SuffixDistinct(all, k);
    forall slot | slot in all[k..]
      ensures slot.entry <= |s.entries| && (slot.entry < |s.entries| ==> s.entries[slot.entry].name == slot.name)
      ensures slot.entry == |s.entries| ==> slot.name == name
    {
      assert slot in all;
    }
  }

  lemma SuffixDistinct(slots: seq<Slot>, k: nat)
    requires k <= |slots| && DistinctNames(slots)
    ensures DistinctNames(slots[k..]) && forall slot :: slot in slots[k..] ==> slot in slots
  {
    assert forall i :: 0 <= i < |slots| - k ==> slots[k..][i] == slots[k + i];
  }

  lemma FreshKeepsInv(s: State, name: string, build: Builds)
    requires Inv(s, build)
    ensures Inv(Fresh(s, name), build) && Extends(Fresh(s, name), s)
  {
    var t := Fresh(s, name);
    InsertedSlotsOk(s, name);
    CallsPersist(s, t);
    HitsPersist(s, t, build);
  }

  lemma DroppedKeepsInv(s: State, name: string, hit: nat, calls: map<nat, Pending>, build: Builds)
    requires Inv(s, build)
    requires forall call :: call in calls ==> call in s.calls && calls[call] == s.calls[call]
    ensures var t := s.(slots := Dropped(s.slots, name, hit), calls := calls); Inv(t, build) && Extends(t, s)
  {
    var t := s.(slots := Dropped(s.slots, name, hit), calls := calls);
    WithoutSpec(s.slots, name);
    CallsPersist(s, t);
    HitsPersist(s, t, build);
  }

  lemma ResumedKeepsInv(s: State, call: nat, build: Builds)
    requires Inv(s, build) && call in s.calls && s.calls[call].Checked?
    ensures Inv(Resumed(s, call, build), build) && Extends(Resumed(s, call, build), s)
  {
    var Checked(name, hit, at) := s.calls[call];
    assert CheckedOk(s, name, hit, at);
    var e := s.entries[hit];
    if StampsMatch(StampsOf(s, e, build), StampsAt(s, e, at, build)) && Held(s.slots, name) == Some(hit) {
      StampsMatchIff(StampsOf(s, e, build), StampsAt(s, e, at, build));
      HitKeepsInv(s, call, Hit(name, hit, at), build);
    } else {
      GiveUpKeepsInv(s, call, name, hit, build);
    }
  }

  lemma HitKeepsInv(s: State, call: nat, h: Hit, build: Builds)
    requires Inv(s, build) && HitOk(s, h, build) && Held(s.slots, h.name) == Some(h.entry)
    ensures var t := s.(slots := Touched(s.slots, h.name, h.entry), calls := s.calls - {call},
                        hits := s.hits + [h], uses := s.uses + [h.name]);
            Inv(t, build) && Extends(t, s)
  {
    var t := s.(slots := Touched(s.slots, h.name, h.entry), calls := s.calls - {call},
                hits := s.hits + [h], uses := s.uses + [h.name]);
    TouchedSlotsOk(s, h.name, h.entry);
    CallsPersist(s, t);
    forall x | x in t.hits ensures HitOk(t, x, build) {
      assert x == h || x in s.hits;
      HitPersists(s, t, x, build);
    }
  }

  lemma TouchedSlotsOk(s: State, name: string, hit: nat)
    requires SlotsOk(s) && Held(s.slots, name) == Some(hit)
    ensures SlotsOk(s.(slots := Touched(s.slots, name, hit)))
  {
    HeldIff(s.slots, name, hit);
    WithoutSpec(s.slots, name);
    WithSpec(Without(s.slots, name), name, hit);
    WithoutShorter(s.slots, name);
  }

  lemma {:induction false} WithoutShorter(slots: seq<Slot>, name: string)
    requires Held(slots, name).Some?
    ensures |Without(slots, name)| == |slots| - 1
  {
    if slots[0].name != name {
      WithoutShorter(slots[1..], name);
    }
  }

  lemma GiveUpKeepsInv(s: State, call: nat, name: string, hit: nat, build: Builds)
    requires Inv(s, build)
    ensures Inv(GiveUp(s, call, name, hit), build) && Extends(GiveUp(s, call, name, hit), s)
  {
    var t := s.(slots := Dropped(s.slots, name, hit), calls := s.calls - {call});
    DroppedKeepsInv(s, name, hit, s.calls - {call}, build);
    FreshKeepsInv(t, name, build);
  }

  lemma EntryStepKeepsInv(s: State, id: nat, e: Entry, build: Builds)
    requires Inv(s, build) && id < |s.entries| && EntryOk(s, e) && ReadingOk(s.history, e, build)
    requires Extends(s.(entries := s.entries[id := e]), s)
    ensures Inv(s.(entries := s.entries[id := e]), build)
  {
    var t := s.(entries := s.entries[id := e]);
    forall x | x in t.entries ensures EntryOk(t, x) && ReadingOk(t.history, x, build) {
      if x != e { assert x in s.entries; }
    }
    CallsPersist(s, t);
    HitsPersist(s, t, build);
  }

  /** Every step keeps the invariant: distinct names, at most 32 of them, and hits that were checked. */
  lemma NextKeepsInv(s: State, step: Step, build: Builds)
    requires Inv(s, build)
    ensures Inv(Next(s, step, build), build) && Extends(Next(s, step, build), s)
  {
    match step
    case Save(world) => SaveKeepsInv(s, world, build);
    case Enter(call, name) => EnterKeepsInv(s, call, name, build);
    case Build(id, seen) => BuildKeepsInv(s, id, seen, build);
    case Stamp(id) => StampKeepsInv(s, id, build);
    case Fail(id) => FailKeepsInv(s, id, build);
    case Read(call) => ReadKeepsInv(s, call, build);
    case Resume(call) => ResumeKeepsInv(s, call, build);
    case ReadFails(call) => ReadFailsKeepsInv(s, call, build);
  }

  lemma ResumeKeepsInv(s: State, call: nat, build: Builds)
    requires Inv(s, build)
    ensures Inv(Next(s, Resume(call), build), build) && Extends(Next(s, Resume(call), build), s)
  {
    if call in s.calls && s.calls[call].Checked? {
      assert Next(s, Resume(call), build) == Resumed(s, call, build);
      ResumedKeepsInv(s, call, build);
    }
  }

  lemma ReadFailsKeepsInv(s: State, call: nat, build: Builds)
    requires Inv(s, build)
    ensures Inv(Next(s, ReadFails(call), build), build) && Extends(Next(s, ReadFails(call), build), s)
  {
    if ReadMayFail(s, call) {
      GiveUpKeepsInv(s, call, s.calls[call].name, s.calls[call].hit, build);
    }
  }

  lemma ReadingPersists(history: seq<World>, longer: seq<World>, e: Entry, build: Builds)
    requires history <= longer && ReadingOk(history, e, build)
    ensures ReadingOk(longer, e, build)
  {
    if e.built.Some? {
      var since, at, seen := e.since, e.built.value.at, e.built.value.seen;
      forall p ensures SeenBetween(longer, since, at, seen, p) {
        assert SeenBetween(history, since, at, seen, p);
        var m :| since <= m <= at && m < |history| && SeenAs(seen, history[m], p);
        assert longer[m] == history[m];
      }
    }
  }

  lemma SaveKeepsInv(s: State, world: World, build: Builds)
    requires Inv(s, build)
    ensures var t := Next(s, Save(world), build); Inv(t, build) && Extends(t, s)
  {
    var t := s.(history := s.history + [world]);
    forall e | e in t.entries ensures EntryOk(t, e) && ReadingOk(t.history, e, build) {
      ReadingPersists(s.history, t.history, e, build);
    }
    CallsPersist(s, t);
    HitsPersist(s, t, build);
  }

  lemma BuildKeepsInv(s: State, id: nat, seen: World, build: Builds)
    requires Inv(s, build)
    ensures var t := Next(s, Build(id, seen), build); Inv(t, build) && Extends(t, s)
  {
    if id < |s.entries| && s.entries[id].built.None? && Finishes(s, s.entries[id], seen, build) {
      assert s.entries[id] in s.entries;
      EntryStepKeepsInv(s, id, s.entries[id].(built := Some(Reading(seen, Now(s)))), build);
    }
  }

  lemma StampKeepsInv(s: State, id: nat, build: Builds)
    requires Inv(s, build)
    ensures var t := Next(s, Stamp(id), build); Inv(t, build) && Extends(t, s)
  {
    if id < |s.entries| && s.entries[id].built.Some? && s.entries[id].stamped.None? {
      assert s.entries[id] in s.entries;
      EntryStepKeepsInv(s, id, s.entries[id].(stamped := Some(Now(s))), build);
    }
  }

  lemma FailKeepsInv(s: State, id: nat, build: Builds)
    requires Inv(s, build)
    ensures var t := Next(s, Fail(id), build); Inv(t, build) && Extends(t, s)
  {
    if id < |s.entries| {
      assert s.entries[id] in s.entries;
      var e := s.entries[id].(failed := true);
      EntryStepKeepsInv(s, id, e, build);
      DroppedKeepsInv(s.(entries := s.entries[id := e]), e.name, id, s.calls, build);
    }
  }

  lemma EnterKeepsInv(s: State, call: nat, name: string, build: Builds)
    requires Inv(s, build)
    ensures Inv(Next(s, Enter(call, name), build), build) && Extends(Next(s, Enter(call, name), build), s)
  {
    if call !in s.calls {
      match Held(s.slots, name)
      case None => FreshKeepsInv(s, name, build);
      case Some(hit) =>
        HeldIff(s.slots, name, hit);
        var t := s.(calls := s.calls[call := Waiting(name, hit)]);
        CallsPersist(s, t.(calls := s.calls));
        HitsPersist(s, t, build);
    }
  }

  lemma ReadKeepsInv(s: State, call: nat, build: Builds)
    requires Inv(s, build)
    ensures Inv(Next(s, Read(call), build), build) && Extends(Next(s, Read(call), build), s)
  {
    if call in s.calls && s.calls[call].Waiting? && s.entries[s.calls[call].hit].stamped.Some? {
      var t := Next(s, Read(call), build);
      assert PendingOk(s, s.calls[call]);
      assert s.entries[s.calls[call].hit] in s.entries;
      CallsPersist(s, t.(calls := s.calls));
      HitsPersist(s, t, build);
    }
  }

  ghost function Run(s: State, steps: seq<Step>, build: Builds): State
    requires Inv(s, build)
    decreases |steps|
  {
    if steps == [] then s else
      NextKeepsInv(s, steps[0], build);
      Run(Next(s, steps[0], build), steps[1..], build)
  }

  lemma {:induction false} RunKeepsInv(s: State, steps: seq<Step>, build: Builds)
    requires Inv(s, build)
    ensures Inv(Run(s, steps, build), build)
    decreases |steps|
  {
    if steps != [] {
      NextKeepsInv(s, steps[0], build);
      RunKeepsInv(Next(s, steps[0], build), steps[1..], build);
    }
  }

  /** In every run the cache names nothing twice and holds at most 32 entries, each under its own name. */
  lemma EveryRunKeepsCacheInShape(world: World, steps: seq<Step>, build: Builds)
    ensures var s := Run(Start(world, build), steps, build);
            && DistinctNames(s.slots) && |s.slots| <= 32
            && forall slot :: slot in s.slots ==> slot.entry < |s.entries| && s.entries[slot.entry].name == slot.name
  {
    RunKeepsInv(Start(world, build), steps, build);
  }

  lemma RunStep(s: State, steps: seq<Step>, build: Builds)
    requires Inv(s, build) && steps != []
    ensures Inv(Next(s, steps[0], build), build)
    ensures Run(s, steps, build) == Run(Next(s, steps[0], build), steps[1..], build)
  {
    NextKeepsInv(s, steps[0], build);
  }

  lemma TwoSteps(s: State, first: Step, second: Step, build: Builds)
    requires Inv(s, build)
    ensures Inv(Next(s, first, build), build) && Inv(Next(Next(s, first, build), second, build), build)
    ensures Run(s, [first, second], build) == Next(Next(s, first, build), second, build)
  {
    var steps := [first, second];
    RunStep(s, steps, build);
    RunStep(Next(s, first, build), steps[1..], build);
    assert steps[1..] == [second] && [second][1..] == [];
  }

  lemma {:induction false} RunConcat(s: State, a: seq<Step>, b: seq<Step>, build: Builds)
    requires Inv(s, build)
    ensures Inv(Run(s, a, build), build)
    ensures Run(s, a + b, build) == Run(Run(s, a, build), b, build)
    decreases |a|
  {
    if a == [] {
      assert a + b == b;
    } else {
      RunStep(s, a, build);
      RunStep(s, a + b, build);
      assert (a + b)[1..] == a[1..] + b;
      RunConcat(Next(s, a[0], build), a[1..], b, build);
    }
  }

  /** A build that reads everything at one moment. */
  lemma ReadAtOnce(s: State, e: Entry, build: Builds)
    requires s.history != [] && e.since <= Now(s) && build(e.name)(s.history[Now(s)]).modules.Some?
    ensures Finishes(s, e, s.history[Now(s)], build)
  {
    var now := s.history[Now(s)];
    forall p ensures SeenBetween(s.history, e.since, Now(s), now, p) {
      assert SeenAs(now, s.history[Now(s)], p);
    }
  }

  // ---------------------------------------------------------------------- late failures

  /** The failure of an entry removes the slots that hold it, and no newer entry of the same name. */
  lemma LateFailureSparesOthers(s: State, id: nat, build: Builds)
    requires Inv(s, build) && id < |s.entries|
    ensures forall slot :: slot in s.slots && slot.entry != id ==> slot in Next(s, Fail(id), build).slots
    ensures s.entries[id].stamped.None? && !s.entries[id].failed ==>
        forall slot :: slot in Next(s, Fail(id), build).slots <==> slot in s.slots && slot.entry != id
  {
    var name := s.entries[id].name;
    WithoutSpec(s.slots, name);
    HeldIff(s.slots, name, id);
    if Held(s.slots, name) == Some(id) {
      forall slot | slot in s.slots ensures slot.name == name <==> slot.entry == id {
        SameNameSameSlot(s.slots, slot, Slot(name, id));
      }
    }
  }

  lemma SameNameSameSlot(slots: seq<Slot>, a: Slot, b: Slot)
    requires DistinctNames(slots) && a in slots && b in slots
    ensures a.name == b.name ==> a == b
  {
  }
}
