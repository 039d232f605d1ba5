/**
 The domain service: the rules for creating, changing and deleting cats,
 missions and targets, over the three tables held by a `Store`. Each method
 is one request: it either commits all of its changes or, on any failure
 code, leaves the store exactly as it was.
 */
module Service {
  import opened Wrappers
  import opened Text
  import opened Entities
  import Breeds

  class Store {
    var cats: Cats
    var missions: Missions
    var targets: Targets
    /** The next id to hand out; one counter serves the three tables. */
    var nextId: int

    /** The store invariant. */
    ghost predicate Valid()
      reads this
    {
      StoreInvariant(cats, missions, targets, nextId)
    }

    /** The invariant, except that mission `m` may not yet have been marked complete. */
    ghost predicate ValidExceptCompletionOf(m: int)
      reads this
    {
      && Consistent(cats, missions, targets, nextId)
      && (forall mid :: mid in missions && mid != m ==> CompletionTracks(missions, targets, mid))
      && (m in missions ==> HasTargets(targets, m) && (missions[m].isComplete ==> AllTargetsComplete(targets, m)))
    }

    constructor ()
      ensures Valid()
      ensures cats == map[] && missions == map[] && targets == map[] && nextId == 1
    {
      cats, missions, targets, nextId := map[], map[], map[], 1;
    }

    // ----- Cats -----

    /** Stores a new cat with stripped name and breed; the breed is not checked here. */
    method CreateCat(name: string, yearsOfExperience: nat, breed: string, salary: nat) returns (cat: Cat)
      requires Valid()
      modifies this
      ensures Valid()
      ensures cat == Cat(old(nextId), Trim(name), yearsOfExperience, Trim(breed), salary)
      ensures cats == old(cats)[cat.id := cat] && cat.id !in old(cats)
      ensures missions == old(missions) && targets == old(targets) && nextId == old(nextId) + 1
    {
      cat := Cat(nextId, Trim(name), yearsOfExperience, Trim(breed), salary);
      cats := cats[nextId := cat];
      nextId := nextId + 1;
    }

    /**
     Cat creation as it is offered to clients: the breed is validated first
     (which may refresh the breed cache), and an unknown breed is refused.
     */
    method RegisterCat(cache: Breeds.BreedCache, name: string, yearsOfExperience: nat, breed: string, salary: nat,
                       now: int, fetch: Breeds.FetchOutcome) returns (r: Result<Cat>)
      requires Valid() && cache.Valid()
      modifies this, cache
      ensures Valid() && cache.Valid()
      ensures Trim(breed) != [] ==> cache.snapshot == Some(Breeds.Refresh(old(cache.snapshot), now, fetch))
      ensures Trim(breed) == [] ==> cache.snapshot == old(cache.snapshot)
      ensures r.Ok? <==> Trim(breed) != [] && Breeds.IsKnownBreed(breed, cache.snapshot.value)
      ensures r.Err? ==> r.error == InvalidBreed && unchanged(this)
      ensures r.Ok? ==> r.value == Cat(old(nextId), Trim(name), yearsOfExperience, Trim(breed), salary)
      ensures r.Ok? ==> cats == old(cats)[r.value.id := r.value] && missions == old(missions) && targets == old(targets)
    {
      var ok := cache.ValidateBreed(breed, now, fetch);
      if !ok {
        return Err(InvalidBreed);
      }
      var cat := CreateCat(name, yearsOfExperience, breed, salary);
      r := Ok(cat);
    }

    function GetCat(id: int): (r: Option<Cat>)
      reads this
      requires Valid()
      ensures r.Some? <==> id in cats
      ensures r.Some? ==> r.value == cats[id] && r.value.id == id
    {
      if id in cats then Some(cats[id]) else None
    }

    /** All cats, in no particular order (the query has no ORDER BY). */
    function ListCats(): (r: set<Cat>)
      reads this
      requires Valid()
      ensures forall c :: c in r <==> c.id in cats && cats[c.id] == c
    {
      var r := set id | id in cats :: cats[id];
      assert forall c :: c in r ==> c.id in cats && cats[c.id] == c by {
        forall c | c in r ensures c.id in cats && cats[c.id] == c {
          var k :| k in cats && cats[k] == c;
        }
      }
      r
    }

    /** Sets the salary of an existing cat and touches nothing else. */
    method UpdateCatSalary(id: int, salary: nat) returns (r: Result<Cat>)
      requires Valid()
      modifies this
      ensures Valid()
      ensures r.Err? <==> id !in old(cats)
      ensures r.Err? ==> r.error == NotFound && unchanged(this)
      ensures r.Ok? ==> r.value == old(cats)[id].(salary := salary)
      ensures r.Ok? ==> cats == old(cats)[id := r.value]
      ensures missions == old(missions) && targets == old(targets) && nextId == old(nextId)
    {
      if id !in cats {
        return Err(NotFound);
      }
      var cat := cats[id].(salary := salary);
      cats := cats[id := cat];
      r := Ok(cat);
    }

    /**
     Deletes a cat that has no active mission. The missions it completed
     stop naming it: the foreign key is set to null.
     */
    method DeleteCat(id: int) returns (r: Result<()>)
      requires Valid()
      modifies this
      ensures Valid()
      ensures r.Err? ==> unchanged(this)
      ensures r.Ok? <==> id in old(cats) && !HasActiveMission(old(missions), id)
      ensures r == Err(NotFound) <==> id !in old(cats)
      ensures r == Err(CatHasActiveMission) <==> id in old(cats) && HasActiveMission(old(missions), id)
      ensures r.Ok? ==> cats == old(cats) - {id} && missions == ReleaseCat(old(missions), id)
      ensures r.Ok? ==> forall mid :: mid in old(missions) && old(missions)[mid].assignedCatId == Some(id) ==> old(missions)[mid].isComplete
      ensures targets == old(targets) && nextId == old(nextId)
      ensures Evolves(old(missions), old(targets), missions, targets)
    {
      if id !in cats {
        return Err(NotFound);
      }
      if HasActiveMission(missions, id) {
        return Err(CatHasActiveMission);
      }
      cats := cats - {id};
      missions := ReleaseCat(missions, id);
      r := Ok(());
    }

    // ----- Missions -----

    /**
     Creates a mission with 1 to 3 targets whose names differ after
     stripping and lower-casing, all at once: on either failure nothing is
     stored. The mission takes the next id and its targets the ids after it,
     in input order.
     */
    method CreateMissionWithTargets(inputs: seq<TargetInput>) returns (r: Result<Mission>)
      requires Valid()
      modifies this
      ensures Valid()
      ensures r.Err? ==> unchanged(this)
      ensures r.Ok? <==> 1 <= |inputs| <= 3 && UniqueNames(inputs)
      ensures r == Err(TargetsCountOutOfRange) <==> !(1 <= |inputs| <= 3)
      ensures r == Err(TargetNameNotUniqueInMission) <==> 1 <= |inputs| <= 3 && !UniqueNames(inputs)
      ensures r.Ok? ==> r.value == Mission(old(nextId), None, false) && r.value.id !in old(missions)
      ensures r.Ok? ==> missions == old(missions)[r.value.id := r.value]
      ensures r.Ok? ==> targets == old(targets) + NewTargets(inputs, r.value.id)
      ensures r.Ok? ==> TargetsOf(targets, r.value.id) == NewTargets(inputs, r.value.id)
      ensures r.Ok? ==> nextId == old(nextId) + 1 + |inputs|
      ensures cats == old(cats)
      ensures Evolves(old(missions), old(targets), missions, targets)
    {
      if !(1 <= |inputs| <= 3) {
        return Err(TargetsCountOutOfRange);
      }
      var mid := nextId;
      var staged := StageTargets(inputs, mid);
      if staged.Err? {
        return Err(staged.error);
      }
      CommitMission(inputs, staged.value);
      r := Ok(missions[mid]);
    }

    /**
     The loop of mission creation: each input's name key is checked against
     the keys seen so far, and its row is prepared for mission `mid`.
     */
    static method StageTargets(inputs: seq<TargetInput>, mid: int) returns (r: Result<Targets>)
      ensures r.Ok? <==> UniqueNames(inputs)
      ensures r.Err? ==> r.error == TargetNameNotUniqueInMission
      ensures r.Ok? ==> r.value == NewTargets(inputs, mid)
    {
      var seen: set<string> := {};
      var pending: Targets := map[];
      var i := 0;
      while i < |inputs|
        invariant 0 <= i <= |inputs|
        invariant seen == NameKeys(inputs, i)
        invariant UniqueUpTo(inputs, i)
        invariant pending == StagedTargets(inputs, mid, i)
      {
        var key := NameKey(inputs[i]);
        if key in seen {
          RepeatedKeyIsNotUnique(inputs, i);
          return Err(TargetNameNotUniqueInMission);
        }
        seen := seen + {key};
        var id := mid + 1 + i;
        pending := pending[id := NewTarget(id, mid, inputs[i])];
        i := i + 1;
      }
      UniqueUpToAll(inputs, i);
      r := Ok(pending);
    }

    /** The commit of a mission creation that passed every check. */
    method CommitMission(inputs: seq<TargetInput>, pending: Targets)
      requires Valid()
      requires 1 <= |inputs| && UniqueNames(inputs)
      requires pending == NewTargets(inputs, nextId)
      modifies this
      ensures Valid()
      ensures missions == old(missions)[old(nextId) := Mission(old(nextId), None, false)]
      ensures targets == old(targets) + pending
      ensures TargetsOf(targets, old(nextId)) == pending
      ensures nextId == old(nextId) + 1 + |inputs|
      ensures cats == old(cats) && old(nextId) !in old(missions)
      ensures Evolves(old(missions), old(targets), missions, targets)
    {
      CreationKeepsInvariant(cats, missions, targets, nextId, inputs);
      CreationEvolves(missions, targets, nextId, inputs);
      missions := missions[nextId := Mission(nextId, None, false)];
      targets := targets + pending;
      nextId := nextId + 1 + |inputs|;
    }

    function GetMission(id: int): (r: Option<Mission>)
      reads this
      requires Valid()
      ensures r.Some? <==> id in missions
      ensures r.Some? ==> r.value == missions[id] && r.value.id == id
    {
      if id in missions then Some(missions[id]) else None
    }

    /** All missions, in no particular order. */
    function ListMissions(): (r: set<Mission>)
      reads this
      requires Valid()
      ensures forall m :: m in r <==> m.id in missions && missions[m.id] == m
    {
      var r := set id | id in missions :: missions[id];
      assert forall m :: m in r ==> m.id in missions && missions[m.id] == m by {
        forall m | m in r ensures m.id in missions && missions[m.id] == m {
          var k :| k in missions && missions[k] == m;
        }
      }
      r
    }

    /** Deletes an unassigned mission together with all of its targets. */
    method DeleteMission(id: int) returns (r: Result<()>)
      requires Valid()
      modifies this
      ensures Valid()
      ensures r.Err? ==> unchanged(this)
      ensures r.Ok? <==> id in old(missions) && old(missions)[id].assignedCatId.None?
      ensures r == Err(NotFound) <==> id !in old(missions)
      ensures r == Err(MissionAssignedCannotDelete) <==> id in old(missions) && old(missions)[id].assignedCatId.Some?
      ensures r.Ok? ==> missions == old(missions) - {id} && targets == TargetsWithout(old(targets), id)
      ensures r.Ok? ==> forall tid :: tid in targets <==> tid in old(targets) && old(targets)[tid].missionId != id
      ensures cats == old(cats) && nextId == old(nextId)
      ensures Evolves(old(missions), old(targets), missions, targets)
    {
      if id !in missions {
        return Err(NotFound);
      }
      if missions[id].assignedCatId.Some? {
        return Err(MissionAssignedCannotDelete);
      }
      ghost var oldTargets := targets;
      missions := missions - {id};
      targets := TargetsWithout(targets, id);
      forall m | m in missions ensures CompletionTracks(missions, targets, m) {
        CascadeKeepsOtherMission(oldTargets, id, m);
      }
      r := Ok(());
    }

    /**
     Assigns a cat to an incomplete mission, provided the cat has no other
     active mission. The checks run in this order: mission missing, mission
     complete, cat missing, cat busy. The mission's current assignee, if
     any, is not checked: an incomplete mission can be handed to another cat.
     */
    method AssignCatToMission(missionId: int, catId: int) returns (r: Result<Mission>)
      requires Valid()
      modifies this
      ensures Valid()
      ensures r.Err? ==> unchanged(this)
      ensures r.Ok? <==>
        missionId in old(missions) && !old(missions)[missionId].isComplete && catId in old(cats) &&
        !HasActiveMission(old(missions), catId)
      ensures r == Err(NotFound) <==> missionId !in old(missions)
      ensures r == Err(MissionAlreadyComplete) <==> missionId in old(missions) && old(missions)[missionId].isComplete
      ensures r == Err(CatNotFound) <==>
        missionId in old(missions) && !old(missions)[missionId].isComplete && catId !in old(cats)
      ensures r == Err(CatAlreadyHasActiveMission) <==>
        missionId in old(missions) && !old(missions)[missionId].isComplete && catId in old(cats) &&
        HasActiveMission(old(missions), catId)
      ensures r.Ok? ==> r.value == old(missions)[missionId].(assignedCatId := Some(catId))
      ensures r.Ok? ==> missions == old(missions)[missionId := r.value]
      ensures cats == old(cats) && targets == old(targets) && nextId == old(nextId)
      ensures Evolves(old(missions), old(targets), missions, targets)
    {
      if missionId !in missions {
        return Err(NotFound);
      }
      if missions[missionId].isComplete {
        return Err(MissionAlreadyComplete);
      }
      if catId !in cats {
        return Err(CatNotFound);
      }
      if HasActiveMission(missions, catId) {
        return Err(CatAlreadyHasActiveMission);
      }
      var mission := missions[missionId].(assignedCatId := Some(catId));
      missions := missions[missionId := mission];
      assert forall mid :: mid in missions ==> CompletionTracks(missions, targets, mid);
      r := Ok(mission);
    }

    // ----- Targets -----

    /**
     Updates a target of a mission: notes, when given, are refused once the
     target or the mission is complete (even if the same call completes the
     target); completion only ever goes from false to true. After any change
     the mission is re-evaluated and completes when all its targets have.
     */
    method UpdateTarget(missionId: int, targetId: int, notes: Option<string>, isComplete: Option<bool>)
      returns (r: Result<Target>)
      requires Valid()
      modifies this
      ensures Valid()
      ensures r.Err? ==> unchanged(this)
      ensures r.Ok? <==>
        missionId in old(missions) && targetId in old(targets) && old(targets)[targetId].missionId == missionId &&
        (notes.Some? ==> !old(missions)[missionId].isComplete && !old(targets)[targetId].isComplete)
      ensures r == Err(NotFound) <==>
        missionId !in old(missions) || targetId !in old(targets) || old(targets)[targetId].missionId != missionId
      ensures r == Err(NotesFrozen) <==>
        missionId in old(missions) && targetId in old(targets) && old(targets)[targetId].missionId == missionId &&
        notes.Some? && (old(missions)[missionId].isComplete || old(targets)[targetId].isComplete)
      ensures r.Ok? ==> r.value == UpdatedTarget(old(targets)[targetId], notes, isComplete)
      ensures r.Ok? ==> targets == old(targets)[targetId := r.value]
      ensures r.Ok? && notes.None? && (isComplete != Some(true) || old(targets)[targetId].isComplete) ==> unchanged(this)
      ensures r.Ok? ==> missions == old(missions)[missionId := old(missions)[missionId].(isComplete := AllTargetsComplete(targets, missionId))]
      ensures cats == old(cats) && nextId == old(nextId)
      ensures Evolves(old(missions), old(targets), missions, targets)
    {
      if missionId !in missions {
        return Err(NotFound);
      }
      if targetId !in targets || targets[targetId].missionId != missionId {
        return Err(NotFound);
      }
      var mission := missions[missionId];
      var target := targets[targetId];
      if mission.isComplete || target.isComplete {
        if notes.Some? {
          return Err(NotesFrozen);
        }
      }
      var changed := false;
      if notes.Some? && !target.isComplete && !mission.isComplete {
        target := target.(notes := notes);
        changed := true;
      }
      if isComplete == Some(true) && !target.isComplete {
        target := target.(isComplete := true);
        changed := true;
      }
      assert target == UpdatedTarget(targets[targetId], notes, isComplete);
      if changed {
        assert !mission.isComplete;
        ghost var m0, t0 := missions, targets;
        TargetRewriteKeeps(cats, missions, targets, nextId, targetId, target);
        TargetUpdateEvolves(missions, targets, targetId, notes, isComplete);
        targets := targets[targetId := target];
        MaybeCompleteMission(missionId);
        EvolvesTransitive(m0, t0, m0, targets, missions, targets);
      } else {
        assert targets == targets[targetId := target];
        assert missions == missions[missionId := mission.(isComplete := AllTargetsComplete(targets, missionId))];
        UntouchedRowsEvolve(missions, targets, missions, targets);
      }
      r := Ok(targets[targetId]);
    }

    /**
     Auto-completion: an incomplete mission whose targets are more than
     zero and all complete, counted as the store counts them, becomes complete.
     */
    method MaybeCompleteMission(missionId: int)
      requires ValidExceptCompletionOf(missionId)
      modifies this
      ensures Valid()
      ensures missionId in old(missions) ==>
        missions == old(missions)[missionId := old(missions)[missionId].(isComplete := AllTargetsComplete(targets, missionId))]
      ensures missionId !in old(missions) ==> missions == old(missions)
      ensures cats == old(cats) && targets == old(targets) && nextId == old(nextId)
      ensures Evolves(old(missions), old(targets), missions, targets)
    {
      if missionId !in missions || missions[missionId].isComplete {
        return;
      }
      if CompletionDue(targets, missionId) {
        missions := missions[missionId := missions[missionId].(isComplete := true)];
      }
    }
  }
}
