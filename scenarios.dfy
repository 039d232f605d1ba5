/**
 Worked request sequences against a fresh store and breed cache. Each
 method runs the operations in order and asserts what the rules promise
 at every step.
 */
module Scenarios {
  import opened Wrappers
  import opened Text
  import opened Entities
  import opened Breeds
  import opened Service

  /** One target input with no notes. */
  function Input(name: string): TargetInput {
    TargetInput(name, "Nowhere", None)
  }

  /** Names that differ only in case collide, and the failed creation stores nothing. */
  method DuplicateNamesCreateNothing() returns (r: Result<Mission>, none: Result<Mission>)
    ensures r == Err(TargetNameNotUniqueInMission) && none == Err(TargetsCountOutOfRange)
  {
    var s := new Store();
    TrimOfUntrimmable("Bob");
    assert Lower("Bob") == "bob";
    NormalFormIsFixed("bob");
    var inputs := [Input("Bob"), Input("bob")];
    assert NameKey(inputs[0]) == NameKey(inputs[1]);
    r := s.CreateMissionWithTargets(inputs);
    assert s.missions == map[] && s.targets == map[] && s.nextId == 1;
    none := s.CreateMissionWithTargets([]);
  }

  /** The rows of a one-target mission `mid` named `name`. */
  lemma OneTargetRows(name: string, mid: int)
    ensures NewTargets([Input(name)], mid) == map[mid + 1 := NewTarget(mid + 1, mid, Input(name))]
  {
    assert StagedTargets([Input(name)], mid, 0) == map[];
  }

  /** One cat (id 1) and one unassigned mission (id 2) with one target without notes (id 3). */
  method SetUpOne() returns (s: Store)
    ensures fresh(s) && s.Valid()
    ensures s.cats.Keys == {1}
    ensures s.missions == map[2 := Mission(2, None, false)]
    ensures s.targets.Keys == {3}
    ensures s.targets[3].missionId == 2 && !s.targets[3].isComplete && s.targets[3].notes == None
    ensures s.nextId == 4
  {
    s := new Store();
    var cat := s.CreateCat("Tom", 3, "bengal", 100);
    assert s.cats.Keys == {1};
    OneTargetRows("A", 2);
    var m1 := s.CreateMissionWithTargets([Input("A")]);
    assert s.targets[3] == NewTarget(3, 2, Input("A"));
  }

  /** The tables of `SetUpOne` and a second unassigned mission (id 4) with one target (id 5). */
  method SetUp() returns (s: Store)
    ensures fresh(s) && s.Valid()
    ensures s.cats.Keys == {1}
    ensures s.missions == map[2 := Mission(2, None, false), 4 := Mission(4, None, false)]
    ensures s.targets.Keys == {3, 5}
    ensures s.targets[3].missionId == 2 && s.targets[5].missionId == 4
    ensures !s.targets[3].isComplete && s.targets[3].notes == None
    ensures s.nextId == 6
  {
    s := SetUpOne();
    OneTargetRows("B", 4);
    var m2 := s.CreateMissionWithTargets([Input("B")]);
    assert s.targets[5] == NewTarget(5, 4, Input("B"));
  }

  /** The same tables after cat 1 is assigned to mission 2. */
  method SetUpAssigned() returns (s: Store)
    ensures fresh(s) && s.Valid()
    ensures s.cats.Keys == {1}
    ensures s.missions == map[2 := Mission(2, Some(1), false), 4 := Mission(4, None, false)]
    ensures s.targets.Keys == {3, 5}
    ensures s.targets[3].missionId == 2 && s.targets[5].missionId == 4
    ensures !s.targets[3].isComplete && s.targets[3].notes == None
    ensures s.nextId == 6
  {
    s := SetUp();
    var a := s.AssignCatToMission(2, 1);
  }

  /** A cat busy with one mission can neither take another nor be deleted. */
  method BusyCatIsHeld() returns (second: Result<Mission>, busy: Result<()>)
    ensures second == Err(CatAlreadyHasActiveMission) && busy == Err(CatHasActiveMission)
  {
    var s := SetUpAssigned();
    assert 2 in s.missions && ActiveFor(s.missions[2], 1);
    assert HasActiveMission(s.missions, 1);
    second := s.AssignCatToMission(4, 1);
    busy := s.DeleteCat(1);
    assert 1 in s.cats;
  }

  /** The tables of `SetUpAssigned` after the only target of mission 2 is marked complete. */
  method SetUpCompleted() returns (s: Store)
    ensures fresh(s) && s.Valid()
    ensures s.cats.Keys == {1}
    ensures s.missions == map[2 := Mission(2, Some(1), true), 4 := Mission(4, None, false)]
    ensures s.targets.Keys == {3, 5}
    ensures s.targets[3].missionId == 2 && s.targets[3].isComplete && s.targets[3].notes == None
  {
    s := SetUpAssigned();
    var u := s.UpdateTarget(2, 3, None, Some(true));
    assert s.targets.Keys == {3, 5} && s.targets[3].isComplete && s.targets[5].missionId == 4;
    assert AllTargetsComplete(s.targets, 2);
    assert s.missions[2] == Mission(2, Some(1), true);
  }

  /** Completing the only target of a mission completes the mission and frees its cat. */
  method CompletionFreesTheCat() returns (next: Result<Mission>)
    ensures next == Ok(Mission(4, Some(1), false))
  {
    var s := SetUpCompleted();
    assert !HasActiveMission(s.missions, 1);
    next := s.AssignCatToMission(4, 1);
  }

  /** Once its mission is complete a target's notes are frozen, even for a call that only repeats completion. */
  method NotesFreezeOnCompletion() returns (frozen: Result<Target>)
    ensures frozen == Err(NotesFrozen)
  {
    var s := SetUpCompleted();
    frozen := s.UpdateTarget(2, 3, Some("late"), Some(true));
    assert s.targets[3].notes == None;
  }

  /**
   The assignment does not look at the mission's current assignee: an
   incomplete mission moves to another idle cat, and the first cat is idle again.
   */
  method ReassignmentIsAllowed() returns (second: Result<Mission>)
    ensures second == Ok(Mission(2, Some(6), false))
  {
    var s := SetUpAssigned();
    var b := s.CreateCat("Kit", 1, "siamese", 80);
    assert s.cats.Keys == {1, 6} && s.missions[2] == Mission(2, Some(1), false);
    second := s.AssignCatToMission(2, 6);
    assert s.missions[2] == Mission(2, Some(6), false);
    assert !HasActiveMission(s.missions, 1);
  }

  /** An assigned mission cannot be deleted; an unassigned one goes with all its targets. */
  method DeleteMissionCascades() returns (refused: Result<()>, gone: Result<()>)
    ensures refused == Err(MissionAssignedCannotDelete) && gone.Ok?
  {
    var s := SetUpAssigned();
    refused := s.DeleteMission(2);
    gone := s.DeleteMission(4);
    assert s.GetMission(4) == None;
    assert 5 !in s.targets && 3 in s.targets;
  }

  /** With the registry unreachable the first validation answers from the fallback set and caches it. */
  method FallbackCache() returns (cache: BreedCache)
    ensures fresh(cache) && cache.Valid()
    ensures cache.snapshot == Some(Snapshot(0, FallbackIds, FallbackNames))
  {
    cache := new BreedCache();
    LowerWordsAreNormal("bengal");
    NormalFormIsFixed("bengal");
    var ok := cache.ValidateBreed("bengal", 0, FetchFailed);
    assert ok;
  }

  /** Within the hour the cached fallback is used again even if the registry would now answer. */
  method FallbackBreeds() returns (unknown: bool)
    ensures !unknown
  {
    var cache := FallbackCache();
    LowerWordsAreNormal("persian");
    NormalFormIsFixed("persian");
    unknown := cache.ValidateBreed("persian", 10, Fetched([RegistryEntry(Some("pers"), Some("persian"))]));
    assert cache.snapshot == Some(Snapshot(0, FallbackIds, FallbackNames));
  }
}
