/**
 The three tables of the domain (cats, missions, targets), the failure codes
 the business rules raise, and the cross-table predicates the rules are
 stated in.
 */
module Entities {
  import opened Wrappers
  import opened Text

  datatype Cat = Cat(id: int, name: string, yearsOfExperience: nat, breed: string, salary: nat)

  /** `assignedCatId` is nullable. */
  datatype Mission = Mission(id: int, assignedCatId: Option<int>, isComplete: bool)

  datatype Target = Target(id: int, missionId: int, name: string, country: string, notes: Option<string>, isComplete: bool)

  /** One target of a mission-creation request. */
  datatype TargetInput = TargetInput(name: string, country: string, notes: Option<string>)

  /** The failure codes; `NotFound` stands for the `None` and `False` returns. */
  datatype Error =
    | NotFound
    | InvalidBreed
    | CatHasActiveMission
    | TargetsCountOutOfRange
    | TargetNameNotUniqueInMission
    | MissionAssignedCannotDelete
    | MissionAlreadyComplete
    | CatNotFound
    | CatAlreadyHasActiveMission
    | NotesFrozen

  datatype Result<+T> = Ok(value: T) | Err(error: Error)

  type Cats = map<int, Cat>
  type Missions = map<int, Mission>
  type Targets = map<int, Target>

  /** A finite set of ids has a positive size exactly when it has a member: a non-zero count means a row exists. */
  lemma CardPositiveIff(s: set<int>)
    ensures |s| > 0 <==> exists x :: x in s
  {
    if forall x :: x !in s {
      assert forall x :: x in s <==> x in {};
    }
  }

  // ----- Active missions -----

  /** The mission is assigned to the cat and not complete. */
  predicate ActiveFor(m: Mission, catId: int) {
    m.assignedCatId == Some(catId) && !m.isComplete
  }

  /** The missions assigned to `catId` that are not complete. */
  function ActiveMissionIds(missions: Missions, catId: int): set<int> {
    set mid | mid in missions && ActiveFor(missions[mid], catId)
  }

  lemma ActiveIdsCount(missions: Missions, catId: int)
    ensures |ActiveMissionIds(missions, catId)| > 0 <==> exists mid :: mid in missions && ActiveFor(missions[mid], catId)
  {
    var ids := ActiveMissionIds(missions, catId);
    CardPositiveIff(ids);
    if exists mid :: mid in missions && ActiveFor(missions[mid], catId) {
      var mid :| mid in missions && ActiveFor(missions[mid], catId);
      assert mid in ids;
    }
    if |ids| > 0 {
      var mid :| mid in ids;
      assert mid in missions && ActiveFor(missions[mid], catId);
    }
  }

  /** The active-mission check: a non-zero count of incomplete missions assigned to the cat. */
  function HasActiveMission(missions: Missions, catId: int): (r: bool)
    ensures r <==> exists mid :: mid in missions && ActiveFor(missions[mid], catId)
  {
    ActiveIdsCount(missions, catId);
    |ActiveMissionIds(missions, catId)| > 0
  }

  /** No cat holds two incomplete missions. */
  ghost predicate AtMostOneActivePerCat(missions: Missions) {
    forall m1, m2 ::
      m1 in missions && m2 in missions &&
      !missions[m1].isComplete && !missions[m2].isComplete &&
      missions[m1].assignedCatId.Some? && missions[m1].assignedCatId == missions[m2].assignedCatId
      ==> m1 == m2
  }

  /** Under the exclusivity invariant the active-mission count is 0 or 1. */
  lemma ActiveCountAtMostOne(missions: Missions, catId: int)
    requires AtMostOneActivePerCat(missions)
    ensures |ActiveMissionIds(missions, catId)| <= 1
  {
    var ids := ActiveMissionIds(missions, catId);
    if |ids| > 0 {
      CardPositiveIff(ids);
      var m :| m in ids;
      assert forall x :: x in ids <==> x in {m};
      assert ids == {m};
    }
  }

  // ----- Targets of a mission and completion -----

  /** The targets of a mission (the `Mission.targets` relationship). */
  function TargetsOf(targets: Targets, mid: int): (r: Targets)
    ensures forall tid :: tid in r <==> tid in targets && targets[tid].missionId == mid
    ensures forall tid :: tid in r ==> r[tid] == targets[tid]
  {
    map tid | tid in targets && targets[tid].missionId == mid :: targets[tid]
  }

  predicate HasTargets(targets: Targets, mid: int) {
    exists tid :: tid in targets && targets[tid].missionId == mid
  }

  predicate AllTargetsComplete(targets: Targets, mid: int) {
    forall tid :: tid in targets && targets[tid].missionId == mid ==> targets[tid].isComplete
  }

  /** The ids of the mission's targets: what the total count counts. */
  function TargetIdsOf(targets: Targets, mid: int): set<int> {
    TargetsOf(targets, mid).Keys
  }

  /** The ids of the mission's completed targets: what the done count counts. */
  function DoneTargetIdsOf(targets: Targets, mid: int): set<int> {
    set tid | tid in targets && targets[tid].missionId == mid && targets[tid].isComplete
  }

  /** Counting the mission's targets and its completed ones decides completion exactly as "has targets, all complete". */
  lemma CountsDecideCompletion(targets: Targets, mid: int)
    ensures (|TargetIdsOf(targets, mid)| > 0 && |TargetIdsOf(targets, mid)| == |DoneTargetIdsOf(targets, mid)|)
            <==> (HasTargets(targets, mid) && AllTargetsComplete(targets, mid))
  {
    var total, done := TargetIdsOf(targets, mid), DoneTargetIdsOf(targets, mid);
    var rest := total - done;
    assert forall x :: x in total <==> x in done + rest;
    assert total == done + rest;
    assert |total| == |done| + |rest|;
    if HasTargets(targets, mid) {
      var tid :| tid in targets && targets[tid].missionId == mid;
      assert tid in total;
    }
    if |total| > 0 {
      CardPositiveIff(total);
    }
    if !AllTargetsComplete(targets, mid) {
      var tid :| tid in targets && targets[tid].missionId == mid && !targets[tid].isComplete;
      assert tid in rest;
    }
    if |rest| > 0 {
      CardPositiveIff(rest);
    }
  }

  /** The auto-completion test: more than zero targets and as many complete as there are. */
  function CompletionDue(targets: Targets, mid: int): (r: bool)
    ensures r <==> HasTargets(targets, mid) && AllTargetsComplete(targets, mid)
  {
    CountsDecideCompletion(targets, mid);
    var total := |TargetIdsOf(targets, mid)|;
    var done := |DoneTargetIdsOf(targets, mid)|;
    total > 0 && total == done
  }

  /** A mission has targets and is complete exactly when all of them are. */
  ghost predicate CompletionTracks(missions: Missions, targets: Targets, mid: int)
    requires mid in missions
  {
    HasTargets(targets, mid) && (missions[mid].isComplete <==> AllTargetsComplete(targets, mid))
  }

  /** Target names are unique within a mission after stripping and lower-casing. */
  ghost predicate NamesUniquePerMission(targets: Targets) {
    forall t1, t2 ::
      t1 in targets && t2 in targets && t1 != t2 && targets[t1].missionId == targets[t2].missionId
      ==> Normalize(targets[t1].name) != Normalize(targets[t2].name)
  }

  // ----- Creating the targets of a mission -----

  /** The key under which a target name is checked for duplicates. */
  function NameKey(input: TargetInput): string {
    Normalize(input.name)
  }

  /** No two inputs share a name key. */
  predicate UniqueNames(inputs: seq<TargetInput>) {
    forall i, j :: 0 <= i < j < |inputs| ==> NameKey(inputs[i]) != NameKey(inputs[j])
  }

  /** The keys of the first `n` inputs: the set the creation loop has seen. */
  function NameKeys(inputs: seq<TargetInput>, n: nat): set<string>
    requires n <= |inputs|
  {
    if n == 0 then {} else NameKeys(inputs, n - 1) + {NameKey(inputs[n - 1])}
  }

  /** No input among the first `n` repeats the key of an earlier one. */
  predicate UniqueUpTo(inputs: seq<TargetInput>, n: nat)
    requires n <= |inputs|
  {
    n == 0 || (UniqueUpTo(inputs, n - 1) && NameKey(inputs[n - 1]) !in NameKeys(inputs, n - 1))
  }

  lemma {:induction false} NameKeysMember(inputs: seq<TargetInput>, n: nat, x: string)
    requires n <= |inputs|
    ensures x in NameKeys(inputs, n) <==> exists k :: 0 <= k < n && NameKey(inputs[k]) == x
  {
    if n > 0 {
      NameKeysMember(inputs, n - 1, x);
      if x in NameKeys(inputs, n) {
        if x == NameKey(inputs[n - 1]) {
          assert 0 <= n - 1 < n && NameKey(inputs[n - 1]) == x;
        } else {
          var k :| 0 <= k < n - 1 && NameKey(inputs[k]) == x;
          assert 0 <= k < n && NameKey(inputs[k]) == x;
        }
      } else {
        forall k | 0 <= k < n ensures NameKey(inputs[k]) != x {
          if k < n - 1 {
            assert !(0 <= k < n - 1 && NameKey(inputs[k]) == x);
          }
        }
      }
    }
  }

  /** The loop's incremental check decides uniqueness of the first `n` keys. */
  lemma {:induction false} UniqueUpToIff(inputs: seq<TargetInput>, n: nat)
    requires n <= |inputs|
    ensures UniqueUpTo(inputs, n) <==> forall a, b :: 0 <= a < b < n ==> NameKey(inputs[a]) != NameKey(inputs[b])
  {
    if n > 0 {
      UniqueUpToIff(inputs, n - 1);
      NameKeysMember(inputs, n - 1, NameKey(inputs[n - 1]));
      if !UniqueUpTo(inputs, n) && UniqueUpTo(inputs, n - 1) {
        var a :| 0 <= a < n - 1 && NameKey(inputs[a]) == NameKey(inputs[n - 1]);
        assert 0 <= a < n - 1 < n && NameKey(inputs[a]) == NameKey(inputs[n - 1]);
      }
    }
  }

  /** All the inputs pass the incremental check exactly when their keys are unique. */
  lemma UniqueUpToAll(inputs: seq<TargetInput>, n: nat)
    requires n <= |inputs|
    ensures UniqueNames(inputs) ==> UniqueUpTo(inputs, n)
    ensures UniqueUpTo(inputs, |inputs|) <==> UniqueNames(inputs)
  {
    UniqueUpToIff(inputs, n);
    UniqueUpToIff(inputs, |inputs|);
  }

  /** A key already among the earlier keys makes the inputs not unique. */
  lemma RepeatedKeyIsNotUnique(inputs: seq<TargetInput>, i: nat)
    requires i < |inputs| && NameKey(inputs[i]) in NameKeys(inputs, i)
    ensures !UniqueNames(inputs)
  {
    UniqueUpToAll(inputs, i + 1);
  }

  /** Python's `notes or None`: an empty note is stored as no note. */
  function NotesOrNone(notes: Option<string>): (r: Option<string>)
    ensures r.Some? ==> r.value != []
    ensures notes.Some? && notes.value != [] ==> r == notes
    ensures r.Some? ==> r == notes
  {
    if notes.Some? && notes.value != [] then notes else None
  }

  /** The stored row for an input target of mission `mid`. */
  function NewTarget(id: int, mid: int, input: TargetInput): Target {
    Target(id, mid, Trim(input.name), Trim(input.country), NotesOrNone(input.notes), false)
  }

  /** The rows created for the first `n` inputs of mission `mid`, in order: input `k` gets id `mid + 1 + k`. */
  function StagedTargets(inputs: seq<TargetInput>, mid: int, n: nat): (r: Targets)
    requires n <= |inputs|
    ensures n > 0 ==> mid + n in r
  {
    if n == 0 then map[]
    else StagedTargets(inputs, mid, n - 1)[mid + n := NewTarget(mid + n, mid, inputs[n - 1])]
  }

  /** The rows created for all the inputs of mission `mid`. */
  function NewTargets(inputs: seq<TargetInput>, mid: int): Targets {
    StagedTargets(inputs, mid, |inputs|)
  }

  /** Exactly the ids after the mission's own are used, one per staged input. */
  lemma {:induction false} StagedTargetsKeys(inputs: seq<TargetInput>, mid: int, n: nat, tid: int)
    requires n <= |inputs|
    ensures tid in StagedTargets(inputs, mid, n) <==> mid < tid <= mid + n
  {
    if n > 0 {
      StagedTargetsKeys(inputs, mid, n - 1, tid);
    }
  }

  /** Staged input `k` is the row with id `mid + 1 + k`. */
  lemma {:induction false} StagedTargetsAt(inputs: seq<TargetInput>, mid: int, n: nat, k: int)
    requires n <= |inputs| && 0 <= k < n
    ensures mid + 1 + k in StagedTargets(inputs, mid, n)
    ensures StagedTargets(inputs, mid, n)[mid + 1 + k] == NewTarget(mid + 1 + k, mid, inputs[k])
  {
    if k < n - 1 {
      StagedTargetsAt(inputs, mid, n - 1, k);
    }
  }

  /** Exactly the ids after the mission's own are used, one per input. */
  lemma NewTargetsKeys(inputs: seq<TargetInput>, mid: int, tid: int)
    ensures tid in NewTargets(inputs, mid) <==> mid < tid <= mid + |inputs|
  {
    StagedTargetsKeys(inputs, mid, |inputs|, tid);
  }

  /** Input `k` becomes the row with id `mid + 1 + k`: stripped name and country, `notes or None`, incomplete. */
  lemma NewTargetsAt(inputs: seq<TargetInput>, mid: int, k: int)
    requires 0 <= k < |inputs|
    ensures mid + 1 + k in NewTargets(inputs, mid)
    ensures NewTargets(inputs, mid)[mid + 1 + k] == NewTarget(mid + 1 + k, mid, inputs[k])
  {
    StagedTargetsAt(inputs, mid, |inputs|, k);
  }

  /** Every created row has its own id, belongs to the new mission and starts incomplete. */
  lemma NewTargetsBelongToMission(inputs: seq<TargetInput>, mid: int)
    ensures forall tid :: tid in NewTargets(inputs, mid) ==>
      && NewTargets(inputs, mid)[tid].id == tid
      && NewTargets(inputs, mid)[tid].missionId == mid
      && !NewTargets(inputs, mid)[tid].isComplete
  {
    var r := NewTargets(inputs, mid);
    forall tid | tid in r
      ensures r[tid].id == tid && r[tid].missionId == mid && !r[tid].isComplete
    {
      NewTargetsKeys(inputs, mid, tid);
      NewTargetsAt(inputs, mid, tid - mid - 1);
    }
  }

  lemma NewTargetNamesDiffer(inputs: seq<TargetInput>, mid: int, i: int, j: int)
    requires UniqueNames(inputs)
    requires 0 <= i < |inputs| && 0 <= j < |inputs| && i != j
    ensures Normalize(NewTarget(mid + 1 + i, mid, inputs[i]).name) != Normalize(NewTarget(mid + 1 + j, mid, inputs[j]).name)
  {
    NormalizeOfTrim(inputs[i].name);
    NormalizeOfTrim(inputs[j].name);
    if i < j {
      assert NameKey(inputs[i]) != NameKey(inputs[j]);
    } else {
      assert NameKey(inputs[j]) != NameKey(inputs[i]);
    }
  }

  /** Names that were unique as keys stay unique once stored stripped. */
  lemma NewTargetsNamesUnique(inputs: seq<TargetInput>, mid: int)
    requires UniqueNames(inputs)
    ensures NamesUniquePerMission(NewTargets(inputs, mid))
  {
    var r := NewTargets(inputs, mid);
    forall t1, t2 | t1 in r && t2 in r && t1 != t2 && r[t1].missionId == r[t2].missionId
      ensures Normalize(r[t1].name) != Normalize(r[t2].name)
    {
      NewTargetsKeys(inputs, mid, t1);
      NewTargetsKeys(inputs, mid, t2);
      var i, j := t1 - mid - 1, t2 - mid - 1;
      NewTargetsAt(inputs, mid, i);
      NewTargetsAt(inputs, mid, j);
      var a, b := NewTarget(t1, mid, inputs[i]), NewTarget(t2, mid, inputs[j]);
      assert r[t1] == a && r[t2] == b;
      NewTargetNamesDiffer(inputs, mid, i, j);
      assert Normalize(a.name) != Normalize(b.name);
    }
  }

  /** A freshly created mission with at least one target has targets, not all of them complete. */
  lemma NewTargetsStartIncomplete(inputs: seq<TargetInput>, mid: int)
    requires |inputs| > 0
    ensures HasTargets(NewTargets(inputs, mid), mid)
    ensures !AllTargetsComplete(NewTargets(inputs, mid), mid)
  {
    NewTargetsAt(inputs, mid, 0);
    var r := NewTargets(inputs, mid);
    assert r[mid + 1].missionId == mid && !r[mid + 1].isComplete;
  }

  // ----- Deleting a cat -----

  /**
   The foreign key from missions to cats after the cat `catId` is deleted:
   every mission that named it now names no cat.
   */
  function ReleaseCat(missions: Missions, catId: int): (r: Missions)
    ensures r.Keys == missions.Keys
    ensures forall mid :: mid in r ==> r[mid].assignedCatId != Some(catId)
    ensures forall mid :: mid in r ==> r[mid].id == missions[mid].id && r[mid].isComplete == missions[mid].isComplete
    ensures forall mid :: mid in r && missions[mid].assignedCatId != Some(catId) ==> r[mid] == missions[mid]
    ensures forall mid :: mid in r && missions[mid].assignedCatId == Some(catId) ==> r[mid] == missions[mid].(assignedCatId := None)
  {
    map mid | mid in missions ::
      if missions[mid].assignedCatId == Some(catId) then missions[mid].(assignedCatId := None) else missions[mid]
  }

  // ----- Updating a target -----

  /** Notes are frozen once the target or its mission is complete. */
  ghost predicate NotesFrozenIn(missions: Missions, t: Target) {
    t.isComplete || (t.missionId in missions && missions[t.missionId].isComplete)
  }

  /**
   The target row an accepted update leaves behind: notes replaced when
   given, completion turned on when asked for and never turned off.
   */
  function UpdatedTarget(t: Target, notes: Option<string>, isComplete: Option<bool>): (r: Target)
    ensures r.id == t.id && r.missionId == t.missionId && r.name == t.name && r.country == t.country
    ensures r.isComplete <==> t.isComplete || isComplete == Some(true)
    ensures r.notes == if notes.Some? then notes else t.notes
  {
    t.(notes := if notes.Some? then notes else t.notes,
       isComplete := t.isComplete || isComplete == Some(true))
  }

  // ----- How the tables may evolve -----

  /**
   The history guarantees between two states: completion never reverts,
   frozen notes never change, and a target keeps its mission, name and country.
   */
  ghost predicate Evolves(m0: Missions, t0: Targets, m1: Missions, t1: Targets) {
    && (forall mid :: mid in m0 && mid in m1 && m0[mid].isComplete ==> m1[mid].isComplete)
    && (forall tid :: tid in t0 && tid in t1 ==>
          && (t0[tid].isComplete ==> t1[tid].isComplete)
          && (NotesFrozenIn(m0, t0[tid]) ==> t1[tid].notes == t0[tid].notes)
          && t1[tid].missionId == t0[tid].missionId
          && t1[tid].name == t0[tid].name
          && t1[tid].country == t0[tid].country)
  }

  /** Every target belongs to an existing mission (the cascading foreign key). */
  ghost predicate TargetsOwned(missions: Missions, targets: Targets) {
    forall tid :: tid in targets ==> targets[tid].missionId in missions
  }

  /**
   The guarantees compose: they hold across any sequence of operations, not
   just one, provided ids are not reused (a target present before and after
   was present in between).
   */
  lemma EvolvesTransitive(m0: Missions, t0: Targets, m1: Missions, t1: Targets, m2: Missions, t2: Targets)
    requires TargetsOwned(m1, t1)
    requires t0.Keys * t2.Keys <= t1.Keys && m0.Keys * m2.Keys <= m1.Keys
    requires Evolves(m0, t0, m1, t1) && Evolves(m1, t1, m2, t2)
    ensures Evolves(m0, t0, m2, t2)
  {
    forall tid | tid in t0 && tid in t2
      ensures NotesFrozenIn(m0, t0[tid]) ==> t2[tid].notes == t0[tid].notes
    {
      assert tid in t1;
    }
  }

  /** Rows that are left as they were (or removed), with completion kept, satisfy the history guarantees. */
  lemma UntouchedRowsEvolve(m0: Missions, t0: Targets, m1: Missions, t1: Targets)
    requires forall mid :: mid in m0 && mid in m1 ==> m1[mid].isComplete == m0[mid].isComplete
    requires forall tid :: tid in t0 && tid in t1 ==> t1[tid] == t0[tid]
    ensures Evolves(m0, t0, m1, t1)
  {
  }

  /** An accepted target update satisfies the history guarantees. */
  lemma TargetUpdateEvolves(m0: Missions, t0: Targets, tid: int, notes: Option<string>, isComplete: Option<bool>)
    requires tid in t0
    requires notes.Some? ==> !NotesFrozenIn(m0, t0[tid])
    ensures Evolves(m0, t0, m0, t0[tid := UpdatedTarget(t0[tid], notes, isComplete)])
  {
  }

  // ----- Store-wide invariants and how the operations keep them -----

  /** Every row is stored under its own id, and every id is below the next one to hand out. */
  ghost predicate IdsBelow(cats: Cats, missions: Missions, targets: Targets, nextId: int) {
    && (forall id :: id in cats ==> cats[id].id == id && id < nextId)
    && (forall id :: id in missions ==> missions[id].id == id && id < nextId)
    && (forall id :: id in targets ==> targets[id].id == id && id < nextId)
  }

  /** Every assigned cat exists. */
  ghost predicate AssignmentsResolve(cats: Cats, missions: Missions) {
    forall mid :: mid in missions && missions[mid].assignedCatId.Some? ==> missions[mid].assignedCatId.value in cats
  }

  /** Everything the rules keep about the tables, except that completion tracks the targets. */
  ghost predicate Consistent(cats: Cats, missions: Missions, targets: Targets, nextId: int) {
    && IdsBelow(cats, missions, targets, nextId)
    && TargetsOwned(missions, targets)
    && AssignmentsResolve(cats, missions)
    && AtMostOneActivePerCat(missions)
    && NamesUniquePerMission(targets)
  }

  /** Every mission has targets and is complete exactly when they all are. */
  ghost predicate CompletionHolds(missions: Missions, targets: Targets) {
    forall mid :: mid in missions ==> CompletionTracks(missions, targets, mid)
  }

  /** The store invariant. */
  ghost predicate StoreInvariant(cats: Cats, missions: Missions, targets: Targets, nextId: int) {
    Consistent(cats, missions, targets, nextId) && CompletionHolds(missions, targets)
  }

  /** Rewriting one target without moving it to another mission keeps every mission's set of targets. */
  lemma ReplaceTargetKeepsMembership(targets: Targets, tid: int, t: Target, m: int)
    requires tid in targets && t.missionId == targets[tid].missionId
    ensures HasTargets(targets[tid := t], m) <==> HasTargets(targets, m)
    ensures m != t.missionId || t.isComplete == targets[tid].isComplete ==>
      (AllTargetsComplete(targets[tid := t], m) <==> AllTargetsComplete(targets, m))
  {
    var after := targets[tid := t];
    if HasTargets(targets, m) {
      var w :| w in targets && targets[w].missionId == m;
      assert w in after && after[w].missionId == m;
    }
    if HasTargets(after, m) {
      var w :| w in after && after[w].missionId == m;
      assert w in targets && targets[w].missionId == m;
    }
    if m != t.missionId || t.isComplete == targets[tid].isComplete {
      assert forall x :: x in after && after[x].missionId == m ==>
        x in targets && targets[x].missionId == m && after[x].isComplete == targets[x].isComplete;
      assert forall x :: x in targets && targets[x].missionId == m ==>
        x in after && after[x].missionId == m && after[x].isComplete == targets[x].isComplete;
    }
  }

  /** Adding rows of other missions changes nothing about mission `m`. */
  lemma AddTargetsKeepsOtherMission(targets: Targets, extra: Targets, m: int)
    requires targets.Keys !! extra.Keys
    requires forall tid :: tid in extra ==> extra[tid].missionId != m
    ensures HasTargets(targets + extra, m) <==> HasTargets(targets, m)
    ensures AllTargetsComplete(targets + extra, m) <==> AllTargetsComplete(targets, m)
  {
    var after := targets + extra;
    if HasTargets(targets, m) {
      var w :| w in targets && targets[w].missionId == m;
      assert w !in extra;
      assert w in after && after[w].missionId == m;
    }
    if HasTargets(after, m) {
      var w :| w in after && after[w].missionId == m;
      assert w in targets && targets[w].missionId == m;
    }
  }

  /** The remaining rows after the targets of `mid` are deleted with it (the cascade). */
  function TargetsWithout(targets: Targets, mid: int): (r: Targets)
    ensures forall tid :: tid in r ==> tid in targets && r[tid] == targets[tid] && r[tid].missionId != mid
  {
    map tid | tid in targets && targets[tid].missionId != mid :: targets[tid]
  }

  /** The cascade splits the rows exactly: the deleted mission's targets and all the others. */
  lemma CascadePartitions(targets: Targets, mid: int)
    ensures TargetsWithout(targets, mid).Keys !! TargetsOf(targets, mid).Keys
    ensures TargetsWithout(targets, mid) + TargetsOf(targets, mid) == targets
  {
    var rest, gone := TargetsWithout(targets, mid), TargetsOf(targets, mid);
    assert forall tid :: tid in rest + gone <==> tid in targets;
    assert forall tid :: tid in targets ==> (rest + gone)[tid] == targets[tid];
  }

  /** Deleting the targets of `mid` changes nothing about any other mission. */
  lemma CascadeKeepsOtherMission(targets: Targets, mid: int, m: int)
    requires m != mid
    ensures HasTargets(TargetsWithout(targets, mid), m) <==> HasTargets(targets, m)
    ensures AllTargetsComplete(TargetsWithout(targets, mid), m) <==> AllTargetsComplete(targets, m)
  {
    var after := TargetsWithout(targets, mid);
    if HasTargets(targets, m) {
      var w :| w in targets && targets[w].missionId == m;
      assert w in after && after[w].missionId == m;
    }
  }

  /** The rows of a new mission join the table without clashing with any other mission's names. */
  lemma AddMissionTargets(targets: Targets, extra: Targets, mid: int)
    requires targets.Keys !! extra.Keys
    requires forall tid :: tid in targets ==> targets[tid].missionId != mid
    requires forall tid :: tid in extra ==> extra[tid].missionId == mid
    requires NamesUniquePerMission(targets) && NamesUniquePerMission(extra)
    ensures NamesUniquePerMission(targets + extra)
    ensures TargetsOf(targets + extra, mid) == extra
  {
    var after := targets + extra;
    var mine := TargetsOf(after, mid);
    assert forall tid :: tid in mine <==> tid in extra;
    assert forall tid :: tid in mine ==> mine[tid] == extra[tid];
    forall t1, t2 | t1 in after && t2 in after && t1 != t2 && after[t1].missionId == after[t2].missionId
      ensures Normalize(after[t1].name) != Normalize(after[t2].name)
    {
      if t1 in extra {
        assert t2 in extra;
      } else {
        assert t2 !in extra;
      }
    }
  }

  // ----- Creating a mission keeps the invariant -----

  /** The rows of a new mission use fresh ids above every existing one and below the next counter. */
  lemma CreationIds(targets: Targets, inputs: seq<TargetInput>, mid: int)
    requires forall tid :: tid in targets ==> tid < mid
    ensures targets.Keys !! NewTargets(inputs, mid).Keys
    ensures forall tid :: tid in NewTargets(inputs, mid) ==> mid < tid < mid + 1 + |inputs|
  {
    forall tid | tid in NewTargets(inputs, mid) ensures mid < tid < mid + 1 + |inputs| && tid !in targets {
      NewTargetsKeys(inputs, mid, tid);
    }
  }

  /** Creating the mission `nextId` with the rows of `inputs` keeps everything but completion. */
  lemma CreationConsistent(cats: Cats, missions: Missions, targets: Targets, nextId: int, inputs: seq<TargetInput>)
    requires Consistent(cats, missions, targets, nextId)
    requires UniqueNames(inputs)
    ensures Consistent(cats, missions[nextId := Mission(nextId, None, false)], targets + NewTargets(inputs, nextId), nextId + 1 + |inputs|)
    ensures TargetsOf(targets + NewTargets(inputs, nextId), nextId) == NewTargets(inputs, nextId)
  {
    var mid := nextId;
    var rows := NewTargets(inputs, mid);
    NewTargetsBelongToMission(inputs, mid);
    NewTargetsNamesUnique(inputs, mid);
    CreationIds(targets, inputs, mid);
    assert forall tid :: tid in targets ==> targets[tid].missionId != mid;
    AddMissionTargets(targets, rows, mid);
  }

  /** Creating the mission `nextId` with at least one row keeps completion tracking. */
  lemma CreationCompletion(missions: Missions, targets: Targets, nextId: int, inputs: seq<TargetInput>)
    requires CompletionHolds(missions, targets)
    requires TargetsOwned(missions, targets)
    requires forall mid :: mid in missions ==> mid < nextId
    requires forall tid :: tid in targets ==> tid < nextId
    requires |inputs| > 0
    ensures CompletionHolds(missions[nextId := Mission(nextId, None, false)], targets + NewTargets(inputs, nextId))
  {
    var mid := nextId;
    var rows := NewTargets(inputs, mid);
    var m1, t1 := missions[mid := Mission(mid, None, false)], targets + rows;
    NewTargetsBelongToMission(inputs, mid);
    NewTargetsStartIncomplete(inputs, mid);
    CreationIds(targets, inputs, mid);
    forall m | m in m1 ensures CompletionTracks(m1, t1, m) {
      if m != mid {
        AddTargetsKeepsOtherMission(targets, rows, m);
      } else {
        assert forall tid :: tid in targets ==> targets[tid].missionId != mid;
        AddTargetsKeepsOtherMission(rows, targets, mid);
        assert t1 == rows + targets;
      }
    }
  }

  /** Creating a mission changes no existing row. */
  lemma CreationEvolves(missions: Missions, targets: Targets, nextId: int, inputs: seq<TargetInput>)
    requires nextId !in missions
    requires forall tid :: tid in targets ==> tid < nextId
    ensures Evolves(missions, targets, missions[nextId := Mission(nextId, None, false)], targets + NewTargets(inputs, nextId))
  {
    CreationIds(targets, inputs, nextId);
    UntouchedRowsEvolve(missions, targets, missions[nextId := Mission(nextId, None, false)], targets + NewTargets(inputs, nextId));
  }

  /** Creating a mission with 1 or more uniquely named targets keeps the store invariant. */
  lemma CreationKeepsInvariant(cats: Cats, missions: Missions, targets: Targets, nextId: int, inputs: seq<TargetInput>)
    requires StoreInvariant(cats, missions, targets, nextId)
    requires |inputs| > 0 && UniqueNames(inputs)
    ensures StoreInvariant(cats, missions[nextId := Mission(nextId, None, false)], targets + NewTargets(inputs, nextId), nextId + 1 + |inputs|)
    ensures TargetsOf(targets + NewTargets(inputs, nextId), nextId) == NewTargets(inputs, nextId)
  {
    CreationConsistent(cats, missions, targets, nextId, inputs);
    CreationCompletion(missions, targets, nextId, inputs);
  }

  // ----- Updating a target keeps the invariant -----

  /**
   Rewriting a target of an incomplete mission, keeping its id, mission and
   name, keeps everything but the completion of that mission, which still
   has targets.
   */
  lemma TargetRewriteKeeps(cats: Cats, missions: Missions, targets: Targets, nextId: int, tid: int, t: Target)
    requires StoreInvariant(cats, missions, targets, nextId)
    requires tid in targets && t.id == tid && t.missionId == targets[tid].missionId && t.name == targets[tid].name
    ensures Consistent(cats, missions, targets[tid := t], nextId)
    ensures forall m :: m in missions && m != t.missionId ==> CompletionTracks(missions, targets[tid := t], m)
    ensures HasTargets(targets[tid := t], t.missionId)
  {
    var after := targets[tid := t];
    assert NamesUniquePerMission(after) by {
      forall t1, t2 | t1 in after && t2 in after && t1 != t2 && after[t1].missionId == after[t2].missionId
        ensures Normalize(after[t1].name) != Normalize(after[t2].name)
      {
        assert after[t1].name == targets[t1].name && after[t1].missionId == targets[t1].missionId;
        assert after[t2].name == targets[t2].name && after[t2].missionId == targets[t2].missionId;
      }
    }
    forall m | m in missions && m != t.missionId ensures CompletionTracks(missions, after, m) {
      ReplaceTargetKeepsMembership(targets, tid, t, m);
    }
    ReplaceTargetKeepsMembership(targets, tid, t, t.missionId);
    assert HasTargets(targets, t.missionId) by {
      assert tid in targets && targets[tid].missionId == t.missionId;
    }
  }

  /** Under the invariant a mission is complete exactly when the store's counting test says it is due. */
  lemma CompleteIffCountsAgree(cats: Cats, missions: Missions, targets: Targets, nextId: int, mid: int)
    requires StoreInvariant(cats, missions, targets, nextId)
    requires mid in missions
    ensures missions[mid].isComplete <==> CompletionDue(targets, mid)
  {
    assert CompletionTracks(missions, targets, mid);
  }
}
