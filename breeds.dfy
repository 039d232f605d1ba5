/**
 The breed validator: a process-wide snapshot of the breed registry,
 refreshed at most once an hour, with a built-in fallback set that is cached
 like a real answer when the registry cannot be reached.
 */
module Breeds {
  import opened Wrappers
  import opened Text

  /** How long a snapshot is trusted, in seconds. */
  const TtlSeconds: int := 60 * 60

  const FallbackIds: set<string> := {"beng", "siam", "mcoo", "sibe", "rblu"}
  const FallbackNames: set<string> := {"bengal", "siamese", "maine coon", "siberian", "russian blue"}

  /** The cached triple: when it was taken, the known breed ids and the known breed names. */
  datatype Snapshot = Snapshot(timestamp: int, ids: set<string>, names: set<string>)

  /** One object of the registry's answer; either key may be absent. */
  datatype RegistryEntry = RegistryEntry(id: Option<string>, name: Option<string>)

  /** What the registry call produced: the decoded list, or any failure at all. */
  datatype FetchOutcome = Fetched(entries: seq<RegistryEntry>) | FetchFailed

  /** Every cached id and name is stored normalised. */
  ghost predicate Normalized(snap: Snapshot) {
    && (forall x :: x in snap.ids ==> InNormalForm(x))
    && (forall x :: x in snap.names ==> InNormalForm(x))
  }

  /** The ids of the answer, each stripped and lower-cased; entries without one are skipped. */
  function RegistryIds(entries: seq<RegistryEntry>): (r: set<string>)
    ensures forall x :: x in r ==> InNormalForm(x)
    ensures forall e :: e in entries && e.id.Some? ==> Normalize(e.id.value) in r
    ensures forall x :: x in r ==> exists e :: e in entries && e.id.Some? && Normalize(e.id.value) == x
  {
    var r := set e | e in entries && e.id.Some? :: Normalize(e.id.value);
    assert forall x :: x in r ==> InNormalForm(x) by {
      forall x | x in r ensures InNormalForm(x) {
        var e :| e in entries && e.id.Some? && x == Normalize(e.id.value);
        NormalizeIsNormalForm(e.id.value);
      }
    }
    r
  }

  /** The names of the answer, each stripped and lower-cased; entries without one are skipped. */
  function RegistryNames(entries: seq<RegistryEntry>): (r: set<string>)
    ensures forall x :: x in r ==> InNormalForm(x)
    ensures forall e :: e in entries && e.name.Some? ==> Normalize(e.name.value) in r
    ensures forall x :: x in r ==> exists e :: e in entries && e.name.Some? && Normalize(e.name.value) == x
  {
    var r := set e | e in entries && e.name.Some? :: Normalize(e.name.value);
    assert forall x :: x in r ==> InNormalForm(x) by {
      forall x | x in r ensures InNormalForm(x) {
        var e :| e in entries && e.name.Some? && x == Normalize(e.name.value);
        NormalizeIsNormalForm(e.name.value);
      }
    }
    r
  }

  /** A snapshot exists and is younger than the time to live. */
  predicate IsFresh(cache: Option<Snapshot>, now: int) {
    cache.Some? && now - cache.value.timestamp < TtlSeconds
  }

  /** The snapshot in force after a lookup at time `now` that, if it has to, sees `fetch`. */
  function Refresh(cache: Option<Snapshot>, now: int, fetch: FetchOutcome): Snapshot {
    if IsFresh(cache, now) then cache.value
    else match fetch
      case Fetched(entries) => Snapshot(now, RegistryIds(entries), RegistryNames(entries))
      case FetchFailed => Snapshot(now, FallbackIds, FallbackNames)
  }

  /** Whether a breed, as typed, names a breed of the snapshot. */
  predicate IsKnownBreed(breed: string, snap: Snapshot) {
    Trim(breed) != [] && (Normalize(breed) in snap.ids || Normalize(breed) in snap.names)
  }

  lemma FallbackIsNormalized()
    ensures Normalized(Snapshot(0, FallbackIds, FallbackNames))
  {
    LowerWordsAreNormal("beng");
    LowerWordsAreNormal("siam");
    LowerWordsAreNormal("mcoo");
    LowerWordsAreNormal("sibe");
    LowerWordsAreNormal("rblu");
    LowerWordsAreNormal("bengal");
    LowerWordsAreNormal("siamese");
    LowerWordsAreNormal("maine coon");
    LowerWordsAreNormal("siberian");
    LowerWordsAreNormal("russian blue");
  }

  /** Refreshing never yields a snapshot with an unnormalised entry. */
  lemma RefreshKeepsNormalized(cache: Option<Snapshot>, now: int, fetch: FetchOutcome)
    requires cache.Some? ==> Normalized(cache.value)
    ensures Normalized(Refresh(cache, now, fetch))
  {
    FallbackIsNormalized();
  }

  /**
   A snapshot taken because the old one was missing or stale is reused
   unchanged by every call during the next hour, whatever the registry
   would answer then: within the window no further fetch happens.
   */
  lemma RefetchedSnapshotIsReused(cache: Option<Snapshot>, now: int, fetch: FetchOutcome, later: int, laterFetch: FetchOutcome)
    requires !IsFresh(cache, now)
    requires later - now < TtlSeconds
    ensures Refresh(Some(Refresh(cache, now, fetch)), later, laterFetch) == Refresh(cache, now, fetch)
  {
  }

  /** Once the hour is over the registry is asked again. */
  lemma StaleSnapshotIsReplaced(cache: Option<Snapshot>, now: int, fetch: FetchOutcome)
    requires cache.Some? && now - cache.value.timestamp >= TtlSeconds
    ensures Refresh(cache, now, fetch).timestamp == now
  {
  }

  /** With the registry unreachable, a fallback breed validates. */
  lemma FailedFetchAcceptsFallbackName(cache: Option<Snapshot>, now: int)
    requires !IsFresh(cache, now)
    ensures IsKnownBreed("bengal", Refresh(cache, now, FetchFailed))
  {
    NormalFormIsFixed("bengal");
  }

  /** With the registry unreachable, a fallback breed validates however it is padded or capitalised. */
  lemma FailedFetchAcceptsPaddedName(cache: Option<Snapshot>, now: int)
    requires !IsFresh(cache, now)
    ensures IsKnownBreed("  Maine Coon ", Refresh(cache, now, FetchFailed))
  {
    TrimOfPadded("  ", "Maine Coon", " ");
    assert "  " + "Maine Coon" + " " == "  Maine Coon ";
    assert Lower("Maine Coon") == "maine coon";
  }

  /** With the registry unreachable, a fallback id validates too. */
  lemma FailedFetchAcceptsFallbackId(cache: Option<Snapshot>, now: int)
    requires !IsFresh(cache, now)
    ensures IsKnownBreed("SIAM", Refresh(cache, now, FetchFailed))
  {
    TrimOfUntrimmable("SIAM");
    assert Lower("SIAM") == "siam";
  }

  /** With the registry unreachable, a breed outside the fallback set does not validate. */
  lemma FailedFetchRejectsUnknown(cache: Option<Snapshot>, now: int)
    requires !IsFresh(cache, now)
    ensures !IsKnownBreed("persian", Refresh(cache, now, FetchFailed))
  {
    NormalFormIsFixed("persian");
  }

  /** A blank breed never validates, whatever the snapshot holds (even an empty name). */
  lemma BlankBreedIsUnknown(breed: string, snap: Snapshot)
    requires forall i :: 0 <= i < |breed| ==> IsSpace(breed[i])
    ensures !IsKnownBreed(breed, snap)
  {
    TrimEmptyIffAllSpace(breed);
  }

  /** Validity depends only on the normalised form: padding and case never matter. */
  lemma KnownBreedIgnoresCaseAndPadding(a: string, b: string, snap: Snapshot)
    requires Normalize(a) == Normalize(b)
    ensures IsKnownBreed(a, snap) <==> IsKnownBreed(b, snap)
  {
    NormalizeEmptyIffBlank(a);
    NormalizeEmptyIffBlank(b);
  }

  /** Any non-empty cached id or name, typed exactly as cached, validates. */
  lemma CachedEntryValidates(x: string, snap: Snapshot)
    requires Normalized(snap)
    requires x in snap.ids || x in snap.names
    requires x != []
    ensures IsKnownBreed(x, snap)
  {
    NormalFormIsFixed(x);
    NormalizeEmptyIffBlank(x);
  }

  /** After a successful fetch, every breed the registry names validates. */
  lemma RegistryBreedValidates(cache: Option<Snapshot>, now: int, entries: seq<RegistryEntry>, e: RegistryEntry)
    requires !IsFresh(cache, now)
    requires e in entries && e.name.Some? && Trim(e.name.value) != []
    ensures IsKnownBreed(e.name.value, Refresh(cache, now, Fetched(entries)))
  {
  }

  /** After a successful refresh, a breed that no entry of the answer names, by id or by name, does not validate. */
  lemma UnlistedBreedIsRejected(cache: Option<Snapshot>, now: int, entries: seq<RegistryEntry>, breed: string)
    requires !IsFresh(cache, now)
    requires forall e :: e in entries && e.id.Some? ==> Normalize(e.id.value) != Normalize(breed)
    requires forall e :: e in entries && e.name.Some? ==> Normalize(e.name.value) != Normalize(breed)
    ensures !IsKnownBreed(breed, Refresh(cache, now, Fetched(entries)))
  {
  }

  /** The process-wide snapshot, `None` until the first lookup. */
  class BreedCache {
    var snapshot: Option<Snapshot>

    ghost predicate Valid()
      reads this
    {
      snapshot.Some? ==> Normalized(snapshot.value)
    }

    constructor ()
      ensures Valid() && snapshot == None
    {
      snapshot := None;
    }

    /**
     The snapshot lookup: a fresh snapshot is returned as it is and `fetch`
     is not consulted; otherwise the snapshot is replaced, stamped `now`,
     with the registry's answer or, on failure, with the fallback sets.
     */
    method Lookup(now: int, fetch: FetchOutcome) returns (ids: set<string>, names: set<string>)
      requires Valid()
      modifies this
      ensures Valid()
      ensures snapshot == Some(Refresh(old(snapshot), now, fetch))
      ensures IsFresh(old(snapshot), now) ==> snapshot == old(snapshot)
      ensures ids == snapshot.value.ids && names == snapshot.value.names
    {
      if snapshot.Some? && now - snapshot.value.timestamp < TtlSeconds {
        return snapshot.value.ids, snapshot.value.names;
      }
      match fetch {
        case Fetched(entries) =>
          ids, names := RegistryIds(entries), RegistryNames(entries);
        case FetchFailed =>
          ids, names := FallbackIds, FallbackNames;
          FallbackIsNormalized();
      }
      snapshot := Some(Snapshot(now, ids, names));
    }

    /**
     Breed validation: a blank breed is refused without touching the cache;
     any other breed is looked up, after the refresh, by its normalised form
     among the ids and the names.
     */
    method ValidateBreed(breed: string, now: int, fetch: FetchOutcome) returns (ok: bool)
      requires Valid()
      modifies this
      ensures Valid()
      ensures Trim(breed) == [] ==> !ok && snapshot == old(snapshot)
      ensures Trim(breed) != [] ==> snapshot == Some(Refresh(old(snapshot), now, fetch))
      ensures Trim(breed) != [] ==> ok == IsKnownBreed(breed, snapshot.value)
    {
      if breed == [] || Trim(breed) == [] {
        return false;
      }
      var b := Lower(Trim(breed));
      var ids, names := Lookup(now, fetch);
      ok := b in ids || b in names;
    }
  }
}
