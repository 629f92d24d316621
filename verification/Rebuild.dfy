/** The build half of publish.build_and_publish: a fresh catalogue is seeded with the old build
    id, filled by a full reconcile, checked for its stamp, and given the old user tags. */
module Rebuild {
  import opened Common
  import opened Summary
  import opened Schema
  import opened Store
  import opened StoreProofs
  import opened OperationProofs
  import opened Reconcile
  import opened ReconcileProofs
  import opened ReconcileMeaning
  import opened ReconcileTheorems
  import opened Identity
  import opened CarryForward
  import opened Catalog

  /** The old served catalogue as each of the two best-effort reads found it. */
  datatype Served = Served(buildId: Option<int>, tables: Option<Tables>)

  /** _seed_build_id_floor: a placeholder build that record_build will count up from. */
  function Seeded(floor: Option<int>): Tables {
    if floor.None? then EMPTY else EMPTY.(build := Some(Build(floor.value, 0, 0, 0, "seeded")))
  }

  /** _ensure_build_stamped. */
  predicate Stamped(t: Tables) {
    t.build.Some? && t.build.value.lastBuildNs != 0
  }

  // ---- the rebuilt catalogue ----

  /** What the published catalogue owes the old one: the user tags of every file that still
      exists, and a build id above the old one. */
  ghost predicate Rebuilt(served: Served, t: Tables) {
    && Valid(t) && Stamped(t)
    && (forall d, k :: OverrideOf(t, d, k) ==
          if served.tables.Some? && FileAt(t, d).Some? then OverrideOf(served.tables.value, d, k) else None)
    && (served.buildId.Some? ==> t.build.value.buildId > served.buildId.value)
  }

  lemma SeededValid(floor: Option<int>)
    ensures Valid(Seeded(floor)) && forall d :: FileAt(Seeded(floor), d) == None
  {
    EmptyValid();
    SameTables(EMPTY, Seeded(floor));
  }

  /** Before the carry-forward: no user tags yet, and the next build id. */
  ghost predicate Built(floor: Option<int>, t: Tables) {
    && Valid(t) && t.overrides == map[] && t.build.Some?
    && (floor.Some? ==> t.build.value.buildId == floor.value + 1)
  }

  lemma BuiltFromSeed(floor: Option<int>, seen: seq<Seen>, order: seq<Extract>, tally: Tally, now: int)
    ensures Built(floor, RecordBuild(Swept(Seeded(floor), seen, order), tally, now))
    ensures Stamped(RecordBuild(Swept(Seeded(floor), seen, order), tally, now)) <==> now != 0
  {
    var t := Swept(Seeded(floor), seen, order);
    SeededValid(floor);
    SweptValid(Seeded(floor), seen, order);
    ReconcileDrops(Seeded(floor), seen, order);
    SameTables(t, RecordBuild(t, tally, now));
  }

  lemma BuiltView(floor: Option<int>, seen: seq<Seen>, order: seq<Extract>, tally: Tally, now: int)
    requires DistinctIdentities(seen) && Quiescent(seen) && Permutes(Seeded(floor), seen, order)
    ensures ShowsSource(RecordBuild(Swept(Seeded(floor), seen, order), tally, now), seen)
  {
    var t := Swept(Seeded(floor), seen, order);
    SeededValid(floor);
    assert forall d, etag :: Unchanged(Seeded(floor), d, etag) ==> FileAt(Seeded(floor), d).Some?;
    ReconcileShowsSource(Seeded(floor), seen, order);
    SameTables(t, RecordBuild(t, tally, now));
  }

  lemma CarriedView(prior: Tables, temp: Tables, t: Tables)
    requires Valid(temp) && Carries(prior, temp, t)
    ensures Valid(t) && t.build == temp.build && SameView(temp, t)
  {
    forall d ensures RowAt(t, d) == RowAt(temp, d) && FileAt(t, d) == FileAt(temp, d) {
    }
  }

  lemma CarriedRebuilt(served: Served, temp: Tables, t: Tables)
    requires Built(served.buildId, temp) && Stamped(temp)
    requires served.tables.Some? ==> Carries(served.tables.value, temp, t)
    requires served.tables.None? ==> t == temp
    ensures Rebuilt(served, t) && SameView(temp, t)
  {
    if served.tables.Some? {
      CarriedView(served.tables.value, temp, t);
    }
    forall d, k ensures OverrideOf(t, d, k) ==
      if served.tables.Some? && FileAt(t, d).Some? then OverrideOf(served.tables.value, d, k) else None
    {
      assert FileAt(temp, d).Some? <==> FileIdOf(temp, d).Some?;
    }
  }

  /** open_db, load_caches, seed, full_reconcile, stamp check, carry-forward. The result owes
      nothing to the old ids, and it is refused exactly when the build was stamped with time
      zero. Over a quiescent source with distinct identities it shows the source's own view. */
  method BuildTemp(served: Served, listings: seq<Listing>, now: int) returns (t: Option<Tables>)
    requires served.tables.Some? ==> Valid(served.tables.value)
    ensures t.Some? <==> now != 0
    ensures t.Some? ==> Rebuilt(served, t.value) && t.value.build.value.lastBuildNs == now
    ensures t.Some? && DistinctIdentities(SeenOf(listings)) && Quiescent(SeenOf(listings)) ==>
        ShowsSource(t.value, SeenOf(listings))
  {
    var conn := new Connection(Seeded(served.buildId));
    var tally, order := conn.FullReconcile(listings, now);
    ghost var seen := SeenOf(listings);
    BuiltFromSeed(served.buildId, seen, order, tally, now);
    if DistinctIdentities(seen) && Quiescent(seen) {
      BuiltView(served.buildId, seen, order, tally, now);
    }
    if !Stamped(conn.db) {
      return None;
    }
    var result := conn.db;
    if served.tables.Some? {
      var carried, dropped, conflict;
      result, carried, dropped, conflict := CarryTags(served.tables.value, conn.db);
    }
    CarriedRebuilt(served, conn.db, result);
    return Some(result);
  }
}
