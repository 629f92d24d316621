/** Convergence of the daemon over an object store: after any run of stale, duplicated and
    reordered events, one rescan of the then quiescent bucket restores the bucket's own view. */
module Convergence {
  import opened Common
  import opened IdTables
  import opened KeyParse
  import opened Summary
  import opened Schema
  import opened Store
  import opened OperationProofs
  import opened Reconcile
  import opened ReconcileProofs
  import opened ReconcileTheorems
  import opened Runs
  import opened Tags

  /** One version of an object: its fingerprint and what reading it gives. */
  datatype Version = Version(stat: Stat, read: ReadResult)

  type Bucket = map<string, Version>

  // ---- history ----

  /** Object generations: when an etag is current at two times, it is one version, current at
      every time between. */
  ghost predicate NonRecurring(hist: seq<Bucket>) {
    forall k, i, m, j :: 0 <= i <= m <= j < |hist| && SameEtag(hist, k, i, j) ==>
      k in hist[m] && hist[m][k] == hist[i][k]
  }

  ghost predicate SameEtag(hist: seq<Bucket>, k: string, i: nat, j: nat)
    requires i < |hist| && j < |hist|
  {
    k in hist[i] && k in hist[j] && hist[i][k].stat.etag == hist[j][k].stat.etag
  }

  /** A fingerprint taken at time i, and a read that returned a summary read at one time m no
      earlier; i may be arbitrarily far back, so events may be stale, repeated or reordered. */
  ghost predicate Observed(hist: seq<Bucket>, key: string, stat: Stat, read: ReadResult, now: nat) {
    exists i: nat, m: nat :: SampledAt(hist, key, stat, read, i, m, now)
  }

  ghost predicate SampledAt(hist: seq<Bucket>, key: string, stat: Stat, read: ReadResult, i: nat, m: nat, now: nat) {
    && i <= m <= now < |hist| && key in hist[i] && hist[i][key].stat == stat
    && (read.Ready? ==> key in hist[m] && hist[m][key].read == read)
  }

  ghost predicate ObservedEvent(hist: seq<Bucket>, ev: Event, now: nat) {
    match ev
    case Catalog(key, target, stat, read) => stat.Some? ==> Observed(hist, key, stat.value, read, now)
    case Apply(ex) => Observed(hist, ex.key, ex.stat, ex.read, now)
    case _ => true
  }

  /** From time `now` on, a row whose etag is the current one shows the current version. */
  ghost predicate Coherent(t: Tables, hist: seq<Bucket>, now: nat) {
    forall d, j :: now <= j < |hist| && Current(t, hist[j], d) ==>
      Published(hist[j][RebuildHiveKey(d)].stat, hist[j][RebuildHiveKey(d)].read) == FileAt(t, d)
  }

  /** The identity's row carries the etag of the object now under its canonical key. */
  ghost predicate Current(t: Tables, bucket: Bucket, d: Dims) {
    && FileAt(t, d).Some? && RebuildHiveKey(d) in bucket
    && bucket[RebuildHiveKey(d)].stat.etag == FileAt(t, d).value.etag
  }

  /** What an event writes, if it writes a row at all. */
  ghost function Written(ev: Event): Option<(Dims, Stat, ReadResult)> {
    match ev
    case Catalog(key, target, stat, read) =>
      if stat.Some? && target.Some? then Some((target.value.0, stat.value, read)) else None
    case Apply(ex) => Some((ex.dims, ex.stat, ex.read))
    case _ => None
  }

  ghost predicate ShowsOnly(t: Tables, t': Tables, w: Option<(Dims, Stat, ReadResult)>, d: Dims) {
    || FileAt(t', d) == FileAt(t, d) || FileAt(t', d) == None
    || (w.Some? && w.value.0 == d && FileAt(t', d) == Published(w.value.1, w.value.2))
  }

  lemma CatalogShows(t: Tables, key: string, d0: Dims, eff: string, stat: Stat, read: ReadResult, d: Dims)
    requires Valid(t)
    ensures ShowsOnly(t, CatalogTarget(t, key, Some((d0, eff)), stat, read).0, Some((d0, stat, read)), d)
  {
    if FileAt(t, d0).Some? && FileAt(t, d0).value.etag == stat.etag {
      CatalogTargetSkips(t, key, d0, eff, stat, read);
      ResolvedView(t, d0);
    } else {
      CatalogTargetApplies(t, key, d0, eff, stat, read);
      ApplyExtractView(t, Extract(key, stat, d0, eff, if read.Vanished? then Unreadable("missing") else read));
    }
  }

  /** An event leaves an identity as it was, or empty, or showing what the event observed. */
  lemma StepShows(t: Tables, ev: Event, d: Dims)
    requires Valid(t)
    ensures ShowsOnly(t, Step(t, ev), Written(ev), d)
  {
    match ev
    case ResolveNames(d0) => ResolvedView(t, d0);
    case Catalog(key, target, stat, read) =>
      if stat.Some? {
        TargetShows(t, key, target, stat.value, read, d);
      }
    case Delete(key) => DeleteParsedView(t, key, ParseHiveKey(key), d);
    case Unparseable(key) => SameTables(t, RecordFailure(t, key, UnparseableKey));
    case Apply(ex) => ExtractShows(t, ex, d);
    case Remove(gone) => SweepView(t, gone, d);
    case Stamp(tally, now) => SameTables(t, RecordBuild(t, tally, now));
    case Edit(id, kv, unset, now) => EditShows(t, id, kv, unset, now, d);
  }

  lemma TargetShows(t: Tables, key: string, target: Option<(Dims, string)>, stat: Stat, read: ReadResult, d: Dims)
    requires Valid(t)
    ensures ShowsOnly(t, CatalogTarget(t, key, target, stat, read).0,
                      if target.Some? then Some((target.value.0, stat, read)) else None, d)
  {
    if target.Some? {
      CatalogShows(t, key, target.value.0, target.value.1, stat, read, d);
    } else {
      SameTables(t, RecordFailure(t, key, UnparseableKey));
    }
  }

  lemma ExtractShows(t: Tables, ex: Extract, d: Dims)
    requires Valid(t)
    ensures ShowsOnly(t, ApplyExtract(t, ex).0, Some((ex.dims, ex.stat, ex.read)), d)
  {
    ApplyExtractView(t, ex);
  }

  lemma EditShows(t: Tables, id: Id, kv: map<string, string>, unset: set<string>, now: int, d: Dims)
    ensures FileAt(UpdateTags(t, id, kv, unset, now), d) == FileAt(t, d)
  {
  }

  /** A written row is coherent: if its listed etag is ever current again, that version was also
      the one that was read. */
  lemma WrittenCoherent(hist: seq<Bucket>, key: string, stat: Stat, read: ReadResult, now: nat, j: nat)
    requires NonRecurring(hist) && Observed(hist, key, stat, read, now) && HealthyRead(stat, read)
    requires now <= j < |hist| && key in hist[j] && hist[j][key].stat.etag == stat.etag
    ensures Published(hist[j][key].stat, hist[j][key].read) == Published(stat, read)
  {
    var i: nat, m: nat :| SampledAt(hist, key, stat, read, i, m, now);
    assert SameEtag(hist, key, i, j);
    assert key in hist[m] && hist[m][key] == hist[i][key];
    assert hist[j][key] == hist[i][key];
  }

  lemma ShownCoherent(t: Tables, t': Tables, w: Option<(Dims, Stat, ReadResult)>, hist: seq<Bucket>,
                      before: nat, now: nat)
    requires Coherent(t, hist, before) && before <= now && NonRecurring(hist)
    requires forall d :: ShowsOnly(t, t', w, d)
    requires w.Some? ==> Observed(hist, RebuildHiveKey(w.value.0), w.value.1, w.value.2, now)
    ensures Coherent(t', hist, now)
  {
    forall d, j | now <= j < |hist| && Current(t', hist[j], d)
      ensures Published(hist[j][RebuildHiveKey(d)].stat, hist[j][RebuildHiveKey(d)].read) == FileAt(t', d)
    {
      assert ShowsOnly(t, t', w, d);
      if FileAt(t', d) == FileAt(t, d) {
        assert Current(t, hist[j], d);
      } else {
        WrittenCoherent(hist, RebuildHiveKey(d), w.value.1, w.value.2, now, j);
      }
    }
  }

  lemma StepCoherent(t: Tables, ev: Event, hist: seq<Bucket>, before: nat, now: nat)
    requires Valid(t) && Coherent(t, hist, before) && before <= now && NonRecurring(hist)
    requires StoreEvent(ev) && ObservedEvent(hist, ev, now)
    ensures Coherent(Step(t, ev), hist, now)
  {
    forall d ensures ShowsOnly(t, Step(t, ev), Written(ev), d) {
      StepShows(t, ev, d);
    }
    if ev.Catalog? && ev.target.Some? {
      KeyOfIdentity(ev.key, ev.target.value.0, ev.target.value.1);
    }
    if ev.Apply? {
      KeyOfIdentity(ev.ex.key, ev.ex.dims, ev.ex.eff);
    }
    ShownCoherent(t, Step(t, ev), Written(ev), hist, before, now);
  }

  /** Coherence holds after every event of every run, whatever the events' staleness. */
  lemma {:induction false} RunCoherent(trace: seq<Tables>, evs: seq<Event>, times: seq<nat>, hist: seq<Bucket>, n: nat)
    requires IsRun(trace, evs) && Valid(trace[0]) && NonRecurring(hist)
    requires |times| == |trace| && forall i, j :: 0 <= i <= j < |times| ==> times[i] <= times[j]
    requires Coherent(trace[0], hist, times[0])
    requires forall m :: 0 <= m < |evs| ==> StoreEvent(evs[m]) && ObservedEvent(hist, evs[m], times[m + 1])
    requires n < |trace|
    ensures Valid(trace[n]) && Coherent(trace[n], hist, times[n])
  {
    if n > 0 {
      RunCoherent(trace, evs, times, hist, n - 1);
      RunStepCoherent(trace, evs, times, hist, n - 1);
    }
  }

  lemma RunStepCoherent(trace: seq<Tables>, evs: seq<Event>, times: seq<nat>, hist: seq<Bucket>, m: nat)
    requires IsRun(trace, evs) && NonRecurring(hist) && m < |evs| && |times| == |trace|
    requires Valid(trace[m]) && Coherent(trace[m], hist, times[m]) && times[m] <= times[m + 1]
    requires StoreEvent(evs[m]) && ObservedEvent(hist, evs[m], times[m + 1])
    ensures Valid(trace[m + 1]) && Coherent(trace[m + 1], hist, times[m + 1])
  {
    StepValid(trace[m], evs[m]);
    StepCoherent(trace[m], evs[m], hist, times[m], times[m + 1]);
  }

  // ---- the quiescent rescan ----

  ghost predicate Listed(s: Seen, bucket: Bucket) {
    && s.key in bucket && s.target == ResolveKeyDims(s.key, None)
    && s.stat == bucket[s.key].stat && s.read == bucket[s.key].read
  }

  /** A complete listing of an unchanging bucket, each object once, read as it is. */
  ghost predicate Lists(seen: seq<Seen>, bucket: Bucket) {
    && (forall i :: 0 <= i < |seen| ==> Listed(seen[i], bucket))
    && (forall i, j :: 0 <= i < j < |seen| ==> seen[i].key != seen[j].key)
    && (forall k :: k in bucket && EndsWith(k, SUFFIX) ==> exists i :: 0 <= i < |seen| && seen[i].key == k)
  }

  ghost predicate StoreBucket(bucket: Bucket) {
    forall k :: k in bucket ==> Unslashed(k) && !bucket[k].read.Vanished?
  }

  /** The specification: an identity shows the object under its canonical key, when healthy. */
  ghost function BucketView(bucket: Bucket, d: Dims): Option<FileView> {
    if WellFormed(d) && RebuildHiveKey(d) in bucket
    then Published(bucket[RebuildHiveKey(d)].stat, bucket[RebuildHiveKey(d)].read)
    else None
  }

  lemma ListedIdentity(s: Seen, bucket: Bucket, d: Dims)
    requires Listed(s, bucket) && Unslashed(s.key) && SeenAt(s, d)
    ensures s.key == RebuildHiveKey(d) && WellFormed(d)
  {
    KeyOfIdentity(s.key, d, s.target.value.1);
  }

  lemma CanonicalListed(s: Seen, bucket: Bucket, d: Dims)
    requires Listed(s, bucket) && WellFormed(d) && s.key == RebuildHiveKey(d)
    ensures SeenAt(s, d)
  {
    CanonicalKeyUnslashed(d);
    ResolveExact(s.key, None, d, RebuildHiveKey(d));
  }

  lemma {:induction false} PartEnds(prefix: string, field: string, rest: string)
    requires EndsWith(rest, SUFFIX)
    ensures EndsWith(Part(prefix, field, rest), SUFFIX)
  {
    var p := Part(prefix, field, rest);
    assert p[|p| - |rest|..] == rest;
    assert p[|p| - |SUFFIX|..] == rest[|rest| - |SUFFIX|..];
  }

  lemma CanonicalEnds(d: Dims)
    requires WellFormed(d)
    ensures EndsWith(RebuildHiveKey(d), SUFFIX)
  {
    PartEnds("date=", d.date, d.filename);
    var s4 := Part("date=", d.date, d.filename);
    PartEnds("source=", d.source, s4);
    var s3 := Part("source=", d.source, s4);
    PartEnds("robot=", d.robot, s3);
    var s2 := Part("robot=", d.robot, s3);
    PartEnds("customer_site=", d.site, s2);
    PartEnds("customer=", d.customer, Part("customer_site=", d.site, s2));
  }

  lemma SourceIsBucket(seen: seq<Seen>, bucket: Bucket, d: Dims)
    requires Lists(seen, bucket) && StoreBucket(bucket)
    ensures SourceView(seen, d) == BucketView(bucket, d)
  {
    StoreDistinct(seen, bucket);
    if i :| 0 <= i < |seen| && SeenAt(seen[i], d) {
      ListedIdentity(seen[i], bucket, d);
      SourceViewAt(seen, d, i);
    } else {
      SourceViewNone(seen, d);
      if WellFormed(d) && RebuildHiveKey(d) in bucket {
        CanonicalEnds(d);
        var i :| 0 <= i < |seen| && seen[i].key == RebuildHiveKey(d);
        CanonicalListed(seen[i], bucket, d);
      }
    }
  }

  lemma StoreDistinct(seen: seq<Seen>, bucket: Bucket)
    requires Lists(seen, bucket) && StoreBucket(bucket)
    ensures DistinctIdentities(seen) && Quiescent(seen)
  {
    forall i, j, d | 0 <= i < j < |seen| && SeenAt(seen[i], d) ensures !SeenAt(seen[j], d) {
      ListedIdentity(seen[i], bucket, d);
      if SeenAt(seen[j], d) {
        ListedIdentity(seen[j], bucket, d);
      }
    }
  }

  lemma CoherentIsFaithful(t: Tables, hist: seq<Bucket>, now: nat, j: nat, seen: seq<Seen>)
    requires Coherent(t, hist, now) && now <= j < |hist| && Lists(seen, hist[j]) && StoreBucket(hist[j])
    ensures Faithful(t, seen)
  {
    forall i, d | 0 <= i < |seen| && SeenAt(seen[i], d) && Unchanged(t, d, seen[i].stat.etag)
      ensures FileAt(t, d) == Published(seen[i].stat, seen[i].read)
    {
      ListedIdentity(seen[i], hist[j], d);
      assert Current(t, hist[j], d);
    }
  }

  /** Convergence. Etags never recur per key and each successful read sees one version; objects
      may be overwritten between listing and read, and events may be stale, duplicated or in any
      order, with rescans cut short anywhere. Then one complete rescan at a quiescent time j
      leaves exactly the bucket's view at every identity. */
  lemma RescanRestoresBucket(trace: seq<Tables>, evs: seq<Event>, times: seq<nat>, hist: seq<Bucket>,
                             j: nat, seen: seq<Seen>, order: seq<Extract>)
    requires IsRun(trace, evs) && Valid(trace[0]) && NonRecurring(hist)
    requires |times| == |trace| && forall a, b :: 0 <= a <= b < |times| ==> times[a] <= times[b]
    requires Coherent(trace[0], hist, times[0])
    requires forall m :: 0 <= m < |evs| ==> StoreEvent(evs[m]) && ObservedEvent(hist, evs[m], times[m + 1])
    requires times[|evs|] <= j < |hist| && StoreBucket(hist[j]) && Lists(seen, hist[j])
    requires Permutes(trace[|evs|], seen, order)
    ensures forall d :: FileAt(Swept(trace[|evs|], seen, order), d) == BucketView(hist[j], d)
  {
    var t := trace[|evs|];
    RunCoherent(trace, evs, times, hist, |evs|);
    QuiescentRescan(t, hist, times[|evs|], j, seen, order);
  }

  lemma QuiescentRescan(t: Tables, hist: seq<Bucket>, now: nat, j: nat, seen: seq<Seen>, order: seq<Extract>)
    requires Valid(t) && Coherent(t, hist, now) && now <= j < |hist|
    requires StoreBucket(hist[j]) && Lists(seen, hist[j]) && Permutes(t, seen, order)
    ensures forall d :: FileAt(Swept(t, seen, order), d) == BucketView(hist[j], d)
  {
    StoreDistinct(seen, hist[j]);
    CoherentIsFaithful(t, hist, now, j, seen);
    ReconcileShowsSource(t, seen, order);
    forall d ensures FileAt(Swept(t, seen, order), d) == BucketView(hist[j], d) {
      assert FileAt(Swept(t, seen, order), d) == SourceView(seen, d);
      SourceIsBucket(seen, hist[j], d);
    }
  }
}
