/** What the worker loop leaves, from what is in its queue: over an object store no file is both
    catalogued and failed, rows with a current etag show the current object, and a rescan of a
    quiescent bucket restores it. */
module WorkerTheorems {
  import opened Common
  import opened Identity
  import opened KeyParse
  import opened Summary
  import opened Schema
  import opened Store
  import opened OperationProofs
  import opened Reconcile
  import opened ReconcileProofs
  import opened Runs
  import opened CommitRuns
  import opened Convergence
  import opened Catalog
  import opened IdTables
  import opened TagEdits
  import opened Tags
  import opened ViewMeaning
  import opened Worker

  /** Items of an object store whose keys have no leading slash; its objects carry no in-file key. */
  ghost predicate StoreWork(w: Work) {
    match w
    case CatalogWork(key, _, _, intended, _) => Unslashed(key) && intended == None
    case RescanWork(listings, _) =>
      forall i :: 0 <= i < |listings| ==> Unslashed(listings[i].key) && listings[i].intended == None
    case _ => true
  }

  ghost predicate AllStoreWork(queue: seq<Work>) {
    forall i :: 0 <= i < |queue| ==> StoreWork(queue[i])
  }

  ghost predicate AllStore(evs: seq<Event>) {
    forall i :: 0 <= i < |evs| ==> StoreEvent(evs[i])
  }

  ghost predicate StoreListing(seen: seq<Seen>) {
    forall i :: 0 <= i < |seen| ==> Unslashed(seen[i].key) && seen[i].target == ResolveKeyDims(seen[i].key, None)
  }

  lemma {:induction false} UnparseableStore(seen: seq<Seen>)
    requires StoreListing(seen)
    ensures AllStore(UnparseableEvents(seen))
  {
    if seen != [] {
      UnparseableStore(seen[..|seen| - 1]);
    }
  }

  lemma {:induction false} ApplyStore(order: seq<Extract>)
    requires forall ex :: ex in order ==> StoreEvent(Apply(ex))
    ensures AllStore(ApplyEvents(order))
  {
    if order != [] {
      var init, ex := order[..|order| - 1], order[|order| - 1];
      assert forall x :: x in init ==> x in order;
      ApplyStore(init);
      assert ex in order;
    }
  }

  /** The extracts of a rescan carry keys of its listing, each with its own identity. */
  lemma ExtractedStore(t: Tables, seen: seq<Seen>, order: seq<Extract>)
    requires StoreListing(seen) && Permutes(t, seen, order)
    ensures forall ex :: ex in order ==> StoreEvent(Apply(ex))
  {
    forall ex | ex in order ensures StoreEvent(Apply(ex)) {
      assert ex in multiset(order);
      ToExtractOf(t, seen, ex);
    }
  }

  /** An item over an object store commits store events only. */
  lemma WorkStore(t: Tables, w: Work, order: seq<Extract>)
    requires StoreWork(w) && OrderFits(t, w, order)
    ensures AllStore(WorkEvents(t, w, order))
  {
    if w.RescanWork? {
      assert StoreListing(SeenOf(w.listings));
      RescanStore(t, SeenOf(w.listings), order, w.now);
    }
  }

  lemma RescanStore(t: Tables, seen: seq<Seen>, order: seq<Extract>, now: int)
    requires StoreListing(seen) && Permutes(t, seen, order)
    ensures AllStore(RescanWorkEvents(t, seen, order, now))
  {
    PermutationFits(t, seen, order);
    ExtractedStore(t, seen, order);
    CommitsStore(t, seen, order, TallyOf(t, seen, order), now);
  }

  lemma CommitsStore(t: Tables, seen: seq<Seen>, order: seq<Extract>, tally: Tally, now: int)
    requires StoreListing(seen) && forall ex :: ex in order ==> StoreEvent(Apply(ex))
    ensures AllStore(RescanEvents(t, seen, order, tally, now))
  {
    UnparseableStore(seen);
    ApplyStore(order);
    StoreConcat(UnparseableEvents(seen), ApplyEvents(order));
    StoreConcat(UnparseableEvents(seen) + ApplyEvents(order),
                [Remove(Gone(Applied(t, seen, order), seen)), Stamp(tally, now)]);
  }

  lemma StoreConcat(a: seq<Event>, b: seq<Event>)
    requires AllStore(a) && AllStore(b)
    ensures AllStore(a + b)
  {
  }

  /** The events of an item are what its operation commits. */
  lemma EventsPerform(t: Tables, w: Work, order: seq<Extract>)
    requires OrderFits(t, w, order)
    ensures Performs(t, w, order, After(t, WorkEvents(t, w, order)))
  {
    match w
    case CatalogWork(key, stable, stat, intended, read) =>
      if stable {
        CatalogIsRun(t, key, ResolveKeyDims(key, intended), stat, read);
      }
    case DeleteWork(key) => OneEvent(t, Delete(key));
    case RescanWork(listings, now) =>
      PermutationFits(t, SeenOf(listings), order);
      RescanIsRun(t, SeenOf(listings), order, TallyOf(t, SeenOf(listings), order), now);
    case EditWork(item, clock, now, fault) => EditPerforms(t, item, clock, now, fault);
    case UnknownWork =>
    case StopWork =>
  }

  lemma EditPerforms(t: Tables, item: TagEditItem, clock: int, now: int, fault: Fault)
    ensures Performs(t, EditWork(item, clock, now, fault), [], After(t, EditEvents(t, item, clock, now, fault)))
  {
    if clock <= item.deadline && FileIdOf(t, item.dims).Some? && !fault.BeforeCommit? {
      FileIdExists(t, item.dims);
      OneEvent(t, EditEvents(t, item, clock, now, fault)[0]);
    }
  }

  /** t' is what an item commits from t1. */
  ghost predicate Commits(t1: Tables, w: Work, order: seq<Extract>, t': Tables) {
    && OrderFits(t1, w, order) && EnabledAll(t1, WorkEvents(t1, w, order))
    && t' == After(t1, WorkEvents(t1, w, order))
  }

  /** The tables that the last item of a handled queue meets. */
  lemma HandledSplit(t: Tables, queue: seq<Work>, orders: seq<seq<Extract>>, evs: seq<Event>, n: nat)
    returns (init: seq<Event>)
    requires Valid(t) && |orders| == |queue| == n + 1 && Handles(t, queue, orders, evs) && EnabledAll(t, evs)
    ensures Handles(t, queue[..n], orders[..n], init) && EnabledAll(t, init) && Valid(After(t, init))
    ensures Commits(After(t, init), queue[n], orders[n], After(t, evs))
  {
    init :| Handles(t, queue[..n], orders[..n], init) && HandlesLast(t, init, queue[n], orders[n], evs);
    LastSplit(t, init, queue[n], orders[n], evs);
    AfterValid(t, init);
  }

  lemma LastSplit(t: Tables, init: seq<Event>, w: Work, order: seq<Extract>, evs: seq<Event>)
    requires HandlesLast(t, init, w, order, evs) && EnabledAll(t, evs)
    ensures EnabledAll(t, init) && Commits(After(t, init), w, order, After(t, evs))
  {
    var more := WorkEvents(After(t, init), w, order);
    assert evs[..|init|] == init;
    EnabledPrefix(t, evs, |init|);
    EnabledSuffix(t, init, more);
    AfterConcat(t, init, more);
  }

  lemma {:induction false} HandledStore(t: Tables, queue: seq<Work>, orders: seq<seq<Extract>>, evs: seq<Event>)
    requires |orders| == |queue| && Handles(t, queue, orders, evs)
    requires AllStoreWork(queue)
    ensures AllStore(evs)
    decreases |queue|
  {
    if queue != [] {
      var n := |queue| - 1;
      var init :| Handles(t, queue[..n], orders[..n], init) && HandlesLast(t, init, queue[n], orders[n], evs);
      HandledStore(t, queue[..n], orders[..n], init);
      WorkStore(After(t, init), queue[n], orders[n]);
      StoreConcat(init, WorkEvents(After(t, init), queue[n], orders[n]));
    }
  }

  // ---- rows and failures ----

  /** Whatever such a queue holds, the loop leaves no file both catalogued and failed, and so does
      a crash after any of its commits. */
  lemma LoopExclusive(t: Tables, queue: seq<Work>, n: nat, orders: seq<seq<Extract>>, evs: seq<Event>,
                      t': Tables, i: nat)
    requires n <= |queue| && Drained(t, queue, n, orders, evs, t') && Valid(t) && Exclusive(t)
    requires AllStoreWork(queue)
    requires i <= |evs|
    ensures Exclusive(After(t, evs[..i])) && Exclusive(t')
  {
    HandledStore(t, queue[..n], orders, evs);
    EventsAreRun(t, evs);
    RunExclusive(TraceOf(t, evs), evs, i);
    RunExclusive(TraceOf(t, evs), evs, |evs|);
  }

  // ---- coherence ----

  /** The fingerprints and reads of an item were taken from the bucket's history up to `now`. */
  ghost predicate ObservedWork(hist: seq<Bucket>, w: Work, now: nat) {
    match w
    case CatalogWork(key, stable, stat, _, read) => stable && stat.Some? ==> Observed(hist, key, stat.value, read, now)
    case RescanWork(listings, _) =>
      forall i :: 0 <= i < |listings| ==> Observed(hist, listings[i].key, listings[i].stat, listings[i].read, now)
    case _ => true
  }

  ghost predicate AllObserved(hist: seq<Bucket>, evs: seq<Event>, now: nat) {
    forall i :: 0 <= i < |evs| ==> ObservedEvent(hist, evs[i], now)
  }

  lemma {:induction false} UnparseableObserved(hist: seq<Bucket>, seen: seq<Seen>, now: nat)
    ensures AllObserved(hist, UnparseableEvents(seen), now)
  {
    if seen != [] {
      UnparseableObserved(hist, seen[..|seen| - 1], now);
    }
  }

  lemma {:induction false} ApplyObserved(hist: seq<Bucket>, order: seq<Extract>, now: nat)
    requires forall ex :: ex in order ==> ObservedEvent(hist, Apply(ex), now)
    ensures AllObserved(hist, ApplyEvents(order), now)
  {
    if order != [] {
      var init, ex := order[..|order| - 1], order[|order| - 1];
      assert forall x :: x in init ==> x in order;
      ApplyObserved(hist, init, now);
      assert ex in order;
    }
  }

  lemma WorkObserved(t: Tables, w: Work, order: seq<Extract>, hist: seq<Bucket>, now: nat)
    requires OrderFits(t, w, order) && ObservedWork(hist, w, now)
    ensures AllObserved(hist, WorkEvents(t, w, order), now)
  {
    if w.RescanWork? {
      var seen := SeenOf(w.listings);
      assert forall i :: 0 <= i < |seen| ==> ObservedSeen(hist, seen[i], now);
      RescanObserved(t, seen, order, w.now, hist, now);
    }
  }

  ghost predicate ObservedSeen(hist: seq<Bucket>, s: Seen, now: nat) {
    Observed(hist, s.key, s.stat, s.read, now)
  }

  lemma RescanObserved(t: Tables, seen: seq<Seen>, order: seq<Extract>, stamp: int, hist: seq<Bucket>, now: nat)
    requires Permutes(t, seen, order) && forall i :: 0 <= i < |seen| ==> ObservedSeen(hist, seen[i], now)
    ensures AllObserved(hist, RescanWorkEvents(t, seen, order, stamp), now)
  {
    UnparseableObserved(hist, seen, now);
    forall ex | ex in order ensures ObservedEvent(hist, Apply(ex), now) {
      ExtractObserved(t, seen, order, ex, hist, now);
    }
    ApplyObserved(hist, order, now);
  }

  lemma ExtractObserved(t: Tables, seen: seq<Seen>, order: seq<Extract>, ex: Extract, hist: seq<Bucket>, now: nat)
    requires Permutes(t, seen, order) && ex in order
    requires forall i :: 0 <= i < |seen| ==> ObservedSeen(hist, seen[i], now)
    ensures ObservedEvent(hist, Apply(ex), now)
  {
    assert ex in multiset(order);
    ToExtractOf(t, seen, ex);
    var i :| 0 <= i < |seen| && Classify(t, seen[i]) == Some(ex);
    assert ObservedSeen(hist, seen[i], now);
  }

  lemma {:induction false} EventsCoherent(t: Tables, evs: seq<Event>, hist: seq<Bucket>, before: nat, now: nat)
    requires Valid(t) && EnabledAll(t, evs) && Coherent(t, hist, before) && before <= now && NonRecurring(hist)
    requires AllStore(evs) && AllObserved(hist, evs, now)
    ensures Coherent(After(t, evs), hist, now)
    decreases |evs|
  {
    if evs == [] {
      CoherentLater(t, hist, before, now);
    } else {
      var n := |evs| - 1;
      PrefixFacts(t, evs, hist, now, n);
      EventsCoherent(t, evs[..n], hist, before, now);
      StepCoherent(After(t, evs[..n]), evs[n], hist, now, now);
    }
  }

  lemma CoherentLater(t: Tables, hist: seq<Bucket>, before: nat, now: nat)
    requires Coherent(t, hist, before) && before <= now
    ensures Coherent(t, hist, now)
  {
  }

  lemma PrefixFacts(t: Tables, evs: seq<Event>, hist: seq<Bucket>, now: nat, n: nat)
    requires Valid(t) && EnabledAll(t, evs) && AllStore(evs) && AllObserved(hist, evs, now) && n < |evs|
    ensures EnabledAll(t, evs[..n]) && Valid(After(t, evs[..n]))
    ensures AllStore(evs[..n]) && AllObserved(hist, evs[..n], now)
    ensures StoreEvent(evs[n]) && ObservedEvent(hist, evs[n], now)
  {
    EnabledPrefix(t, evs, n);
    AfterValid(t, evs[..n]);
  }

  lemma EnabledPrefix(t: Tables, evs: seq<Event>, n: nat)
    requires EnabledAll(t, evs) && n <= |evs|
    ensures EnabledAll(t, evs[..n])
  {
    forall i | 0 <= i < n ensures Enabled(After(t, evs[..n][..i]), evs[..n][i]) {
      assert evs[..n][..i] == evs[..i];
    }
  }

  ghost predicate Ordered(times: seq<nat>) {
    forall i, j :: 0 <= i <= j < |times| ==> times[i] <= times[j]
  }

  /** Item i is handled between times[i] and times[i + 1], and observed by the latter. */
  ghost predicate QueueObserved(hist: seq<Bucket>, queue: seq<Work>, times: seq<nat>) {
    && |times| == |queue| + 1 && Ordered(times)
    && forall i, j :: 0 <= i && j == i + 1 <= |queue| ==> ObservedWork(hist, queue[i], times[j])
  }

  /** The hypotheses on a queue, together. */
  ghost predicate CoherentQueue(t: Tables, queue: seq<Work>, hist: seq<Bucket>, times: seq<nat>) {
    && Valid(t) && AllStoreWork(queue) && NonRecurring(hist)
    && QueueObserved(hist, queue, times) && Coherent(t, hist, times[0])
  }

  lemma {:induction false} HandledCoherent(t: Tables, queue: seq<Work>, orders: seq<seq<Extract>>, evs: seq<Event>,
                                           hist: seq<Bucket>, times: seq<nat>)
    requires |orders| == |queue| && Handles(t, queue, orders, evs) && EnabledAll(t, evs)
    requires CoherentQueue(t, queue, hist, times)
    ensures Coherent(After(t, evs), hist, times[|queue|])
    decreases |queue|
  {
    if queue != [] {
      var n := |queue| - 1;
      var init := HandledSplit(t, queue, orders, evs, n);
      PrefixCoherentQueue(t, queue, hist, times, n);
      HandledCoherent(t, queue[..n], orders[..n], init, hist, times[..n + 1]);
      NextCoherent(t, queue, n, orders[n], After(t, init), After(t, evs), hist, times);
    }
  }

  lemma PrefixCoherentQueue(t: Tables, queue: seq<Work>, hist: seq<Bucket>, times: seq<nat>, n: nat)
    requires CoherentQueue(t, queue, hist, times) && n < |queue|
    ensures CoherentQueue(t, queue[..n], hist, times[..n + 1])
  {
    QueuePrefix(hist, queue, times, n);
  }

  lemma NextCoherent(t: Tables, queue: seq<Work>, n: nat, order: seq<Extract>, t1: Tables, t': Tables,
                     hist: seq<Bucket>, times: seq<nat>)
    requires n < |queue| && CoherentQueue(t, queue, hist, times)
    requires Valid(t1) && Coherent(t1, hist, times[..n + 1][n]) && Commits(t1, queue[n], order, t')
    ensures Coherent(t', hist, times[n + 1])
  {
    QueuePrefix(hist, queue, times, n);
    LastCoherent(t1, queue[n], order, t', hist, times[n], times[n + 1]);
  }

  lemma QueuePrefix(hist: seq<Bucket>, queue: seq<Work>, times: seq<nat>, n: nat)
    requires QueueObserved(hist, queue, times) && n < |queue|
    ensures QueueObserved(hist, queue[..n], times[..n + 1]) && times[n] <= times[n + 1]
    ensures ObservedWork(hist, queue[n], times[n + 1])
  {
    var before := times[..n + 1];
    forall i, j | 0 <= i && j == i + 1 <= n ensures ObservedWork(hist, queue[..n][i], before[j]) {
      assert queue[..n][i] == queue[i] && before[j] == times[j];
    }
  }

  lemma LastCoherent(t: Tables, w: Work, order: seq<Extract>, t': Tables, hist: seq<Bucket>, before: nat, now: nat)
    requires Valid(t) && StoreWork(w) && Commits(t, w, order, t') && ObservedWork(hist, w, now)
    requires Coherent(t, hist, before) && before <= now && NonRecurring(hist)
    ensures Coherent(t', hist, now)
  {
    WorkStore(t, w, order);
    WorkObserved(t, w, order, hist, now);
    EventsCoherent(t, WorkEvents(t, w, order), hist, before, now);
  }

  lemma EnabledSuffix(t: Tables, a: seq<Event>, b: seq<Event>)
    requires EnabledAll(t, a + b)
    ensures EnabledAll(After(t, a), b)
  {
    forall i | 0 <= i < |b| ensures Enabled(After(After(t, a), b[..i]), b[i]) {
      AfterConcat(t, a, b[..i]);
      assert (a + b)[..|a| + i] == a + b[..i] && (a + b)[|a| + i] == b[i];
    }
  }

  /** A loop over stale, duplicated or reordered items whose last item is a complete rescan of
      the bucket as it is from then on leaves exactly the bucket's own view. */
  lemma LoopRestoresBucket(t: Tables, queue: seq<Work>, n: nat, orders: seq<seq<Extract>>, evs: seq<Event>,
                           t': Tables, hist: seq<Bucket>, times: seq<nat>, j: nat)
    requires |queue| == n + 1 && Drained(t, queue, |queue|, orders, evs, t')
    requires CoherentQueue(t, queue[..n], hist, times) && times[n] <= j < |hist| && StoreBucket(hist[j])
    requires queue[n].RescanWork? && Lists(SeenOf(queue[n].listings), hist[j])
    ensures forall d :: FileAt(t', d) == BucketView(hist[j], d)
  {
    assert queue[..|queue|] == queue;
    var init := HandledSplit(t, queue, orders, evs, n);
    HandledCoherent(t, queue[..n], orders[..n], init, hist, times);
    RescanRestores(After(t, init), queue[n], orders[n], t', hist, times[n], j);
  }

  lemma RescanRestores(t: Tables, w: Work, order: seq<Extract>, t': Tables, hist: seq<Bucket>, time: nat, j: nat)
    requires Valid(t) && Coherent(t, hist, time) && time <= j < |hist|
    requires w.RescanWork? && Commits(t, w, order, t')
    requires StoreBucket(hist[j]) && Lists(SeenOf(w.listings), hist[j])
    ensures forall d :: FileAt(t', d) == BucketView(hist[j], d)
  {
    var seen := SeenOf(w.listings);
    PermutationFits(t, seen, order);
    var tally := TallyOf(t, seen, order);
    RescanIsRun(t, seen, order, tally, w.now);
    QuiescentRescan(t, hist, time, j, seen, order);
    SameTables(Swept(t, seen, order), RecordBuild(Swept(t, seen, order), tally, w.now));
  }

  // ---- the last item ----

  /** The state before the last item is what the loop leaves of the items before it. */
  lemma LastPerforms(t: Tables, queue: seq<Work>, n: nat, orders: seq<seq<Extract>>, evs: seq<Event>, t': Tables)
    returns (init: seq<Event>, t1: Tables)
    requires |queue| == n + 1 && Drained(t, queue, |queue|, orders, evs, t') && Valid(t)
    ensures Drained(t, queue, n, orders[..n], init, t1) && Performs(t1, queue[n], orders[n], t')
  {
    assert queue[..|queue|] == queue;
    init := HandledSplit(t, queue, orders, evs, n);
    t1 := After(t, init);
    EventsPerform(t1, queue[n], orders[n]);
  }

  /** A stable object whose etag is new and whose read is healthy is shown column by column; one
      whose etag the row already has changes nothing that is shown. */
  lemma CatalogWorkShows(t: Tables, w: Work, order: seq<Extract>, t': Tables, d: Dims, eff: string)
    requires Valid(t) && Performs(t, w, order, t') && w.CatalogWork? && w.stable && w.stat.Some?
    requires ResolveKeyDims(w.key, w.intended) == Some((d, eff))
    requires w.read.Ready? && Published(w.stat.value, w.read).Some?
    ensures FileAt(t', d).Some?
    ensures if FileAt(t, d).Some? && FileAt(t, d).value.etag == w.stat.value.etag
            then FileAt(t', d) == FileAt(t, d)
            else ShowsObject(FileAt(t', d).value, w.stat.value, w.read.summary)
                 && FileAt(t', d) == Some(ViewOf(w.stat.value, w.read.summary))
  {
    var stat := w.stat.value;
    PublishedExact(stat, w.read);
    CatalogExact(t, w.key, d, eff, stat, w.read);
    if !(FileAt(t, d).Some? && FileAt(t, d).value.etag == stat.etag) {
      CatalogTargetApplies(t, w.key, d, eff, stat, w.read);
      ApplyExtractView(t, Extract(w.key, stat, d, eff, w.read));
    }
  }

  /** The same for the last item of a loop, over whatever the items before it left. */
  lemma LastCatalogShows(t: Tables, queue: seq<Work>, n: nat, orders: seq<seq<Extract>>, evs: seq<Event>, t': Tables,
                         d: Dims, eff: string)
    returns (init: seq<Event>, t1: Tables)
    requires |queue| == n + 1 && Drained(t, queue, |queue|, orders, evs, t') && Valid(t)
    requires queue[n].CatalogWork? && queue[n].stable && queue[n].stat.Some?
    requires ResolveKeyDims(queue[n].key, queue[n].intended) == Some((d, eff))
    requires queue[n].read.Ready? && Published(queue[n].stat.value, queue[n].read).Some?
    ensures Drained(t, queue, n, orders[..n], init, t1) && FileAt(t', d).Some?
    ensures if FileAt(t1, d).Some? && FileAt(t1, d).value.etag == queue[n].stat.value.etag
            then FileAt(t', d) == FileAt(t1, d)
            else ShowsObject(FileAt(t', d).value, queue[n].stat.value, queue[n].read.summary)
  {
    init, t1 := LastPerforms(t, queue, n, orders, evs, t');
    CatalogWorkShows(t1, queue[n], orders[n], t', d, eff);
  }

  /** A loop whose last item deletes a canonical key leaves its identity empty. */
  lemma LastDeleteEmpties(t: Tables, queue: seq<Work>, n: nat, orders: seq<seq<Extract>>, evs: seq<Event>, t': Tables,
                          d: Dims)
    requires |queue| == n + 1 && Drained(t, queue, |queue|, orders, evs, t') && Valid(t)
    requires WellFormed(d) && queue[n] == DeleteWork(RebuildHiveKey(d))
    ensures FileAt(t', d) == None
  {
    var init, t1 := LastPerforms(t, queue, n, orders, evs, t');
    CanonicalKeyUnslashed(d);
    ParseExact(RebuildHiveKey(d), d);
    DeleteExact(t1, RebuildHiveKey(d), d);
  }

  /** An edit handled in time shows its set keys as overrides and hides its unset ones, for its
      file only; one that is late, fails before its commit or finds no file changes nothing. */
  lemma EditWorkShows(t: Tables, w: Work, order: seq<Extract>, t': Tables, file: Id, k: string)
    requires Performs(t, w, order, t') && w.EditWork?
    ensures w.clock > w.item.deadline || w.fault == BeforeCommit || FileIdOf(t, w.item.dims) == None ==> t' == t
    ensures w.clock <= w.item.deadline && w.fault != BeforeCommit && FileIdOf(t, w.item.dims).Some? ==>
        var mine := FileIdOf(t, w.item.dims) == Some(file);
        EffectiveAt(t', (file, k)) ==
          if mine && k in w.item.unset then None
          else if mine && k in w.item.setTags then Some((w.item.setTags[k], true))
          else EffectiveAt(t, (file, k))
  {
    if FileIdOf(t, w.item.dims).Some? {
      EditExact(t, FileIdOf(t, w.item.dims).value, w.item.setTags, Elements(w.item.unset), w.now, (file, k));
    }
  }

  /** What the worker lets pass: an unstable object, an unknown event, a stop. */
  lemma IdleWorkKeeps(t: Tables, w: Work, order: seq<Extract>, t': Tables)
    requires Performs(t, w, order, t')
    requires w.UnknownWork? || w.StopWork? || (w.CatalogWork? && (!w.stable || w.stat.None?))
    ensures t' == t
  {
    if w.CatalogWork? && w.stable {
      CatalogNothing(t, w.key, w.stat, w.intended, w.read);
    }
  }
}
