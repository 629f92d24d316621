/** The reconciler's promises: the catalogue becomes a function of the source, the completion
    order does not matter, and a second run finds nothing to do. */
module ReconcileTheorems {
  import opened Common
  import opened IdTables
  import opened KeyParse
  import opened Summary
  import opened Schema
  import opened Store
  import opened StoreProofs
  import opened OperationProofs
  import opened Reconcile
  import opened ReconcileProofs

  /** The specification: an identity shows its listed object when that is healthy, else nothing. */
  ghost function SourceView(seen: seq<Seen>, d: Dims): Option<FileView> {
    if i :| 0 <= i < |seen| && SeenAt(seen[i], d) then Published(seen[i].stat, seen[i].read) else None
  }

  /** Nothing vanishes between the listing and the reads. */
  ghost predicate Quiescent(seen: seq<Seen>) {
    forall i :: 0 <= i < |seen| ==> !seen[i].read.Vanished?
  }

  /** Rows that the etag check will skip already show their object. */
  ghost predicate Faithful(t: Tables, seen: seq<Seen>) {
    forall i, d :: 0 <= i < |seen| && SeenAt(seen[i], d) && Unchanged(t, d, seen[i].stat.etag) ==>
      FileAt(t, d) == Published(seen[i].stat, seen[i].read)
  }

  ghost predicate ShowsSource(t: Tables, seen: seq<Seen>) {
    forall d :: FileAt(t, d) == SourceView(seen, d)
  }

  lemma SourceViewAt(seen: seq<Seen>, d: Dims, i: nat)
    requires DistinctIdentities(seen) && i < |seen| && SeenAt(seen[i], d)
    ensures SourceView(seen, d) == Published(seen[i].stat, seen[i].read)
  {
  }

  lemma SourceViewNone(seen: seq<Seen>, d: Dims)
    requires forall i :: 0 <= i < |seen| ==> !SeenAt(seen[i], d)
    ensures SourceView(seen, d) == None
  {
  }

  /** One reconcile over a quiescent source with distinct identities leaves exactly the source's
      own view, from any prior catalogue and in any completion order, if and only if the rows
      whose etag already matches were faithful. */
  lemma ReconcileShowsSource(t: Tables, seen: seq<Seen>, order: seq<Extract>)
    requires Valid(t) && DistinctIdentities(seen) && Quiescent(seen) && Permutes(t, seen, order)
    ensures Valid(Swept(t, seen, order))
    ensures ShowsSource(Swept(t, seen, order), seen) <==> Faithful(t, seen)
  {
    var t' := Swept(t, seen, order);
    forall d ensures Valid(t')
      ensures Faithful(t, seen) ==> FileAt(t', d) == SourceView(seen, d)
    {
      ReconcileView(t, seen, order, d);
      if i :| 0 <= i < |seen| && SeenAt(seen[i], d) {
        SourceViewAt(seen, d, i);
      } else {
        SourceViewNone(seen, d);
      }
    }
    if ShowsSource(t', seen) {
      forall i, d | 0 <= i < |seen| && SeenAt(seen[i], d) && Unchanged(t, d, seen[i].stat.etag)
        ensures FileAt(t, d) == Published(seen[i].stat, seen[i].read)
      {
        ReconcileView(t, seen, order, d);
        SourceViewAt(seen, d, i);
      }
    }
    var d: Dims :| true;
    ReconcileView(t, seen, order, d);
  }

  /** An incremental run and a rebuild from the empty catalogue show the same at every identity. */
  lemma IncrementalEqualsRebuild(t: Tables, seen: seq<Seen>, order: seq<Extract>, rebuilt: seq<Extract>)
    requires Valid(t) && DistinctIdentities(seen) && Quiescent(seen) && Faithful(t, seen)
    requires Permutes(t, seen, order) && Permutes(EMPTY, seen, rebuilt)
    ensures forall d :: FileAt(Swept(t, seen, order), d) == FileAt(Swept(EMPTY, seen, rebuilt), d)
  {
    EmptyValid();
    ReconcileShowsSource(t, seen, order);
    ReconcileShowsSource(EMPTY, seen, rebuilt);
  }

  // ---- completion order ----

  ghost function FailureAt(t: Tables, key: string): Option<Failure> {
    if key in t.failures then Some(t.failures[key]) else None
  }

  ghost predicate DistinctEffs(order: seq<Extract>) {
    forall i, j :: 0 <= i < j < |order| ==> order[i].eff != order[j].eff
  }

  ghost function OutcomeFailure(ex: Extract, before: Option<Failure>): Option<Failure> {
    if ex.read.Vanished? then before
    else if HealthyRead(ex.stat, ex.read) then None
    else Some(FailureOf(ex.stat, ex.read))
  }

  lemma ApplyExtractFailureAt(t: Tables, ex: Extract, key: string)
    requires Valid(t)
    ensures FailureAt(ApplyExtract(t, ex).0, key) ==
        if ex.eff == key then OutcomeFailure(ex, FailureAt(t, key)) else FailureAt(t, key)
  {
    ApplyExtractView(t, ex);
    if !ex.read.Vanished? {
      FailuresAfterAt(t.failures, ex, key);
    }
  }

  lemma FailuresAfterAt(failures: map<string, Failure>, ex: Extract, key: string)
    requires !ex.read.Vanished?
    ensures var fs := FailuresAfter(failures, ex.eff, ex.stat, ex.read);
      (if key in fs then Some(fs[key]) else None) ==
        if ex.eff == key then OutcomeFailure(ex, None) else if key in failures then Some(failures[key]) else None
  {
  }

  lemma {:induction false} ApplyAllFailures(t: Tables, order: seq<Extract>, key: string)
    requires Valid(t) && DistinctEffs(order)
    ensures forall ex :: ex in order && ex.eff == key ==>
        FailureAt(ApplyAll(t, order), key) == OutcomeFailure(ex, FailureAt(t, key))
    ensures (forall ex :: ex in order ==> ex.eff != key) ==>
        FailureAt(ApplyAll(t, order), key) == FailureAt(t, key)
  {
    if order != [] {
      var init, last := order[..|order| - 1], order[|order| - 1];
      ApplyAllFailures(t, init, key);
      ApplyAllValid(t, init);
      ApplyExtractFailureAt(ApplyAll(t, init), last, key);
      assert order == init + [last];
    }
  }

  lemma {:induction false} CountHealthySet(order: seq<Extract>)
    requires DistinctDims(order)
    ensures CountHealthy(order) == |set ex | ex in order && HealthyRead(ex.stat, ex.read)|
  {
    if order != [] {
      var init, last := order[..|order| - 1], order[|order| - 1];
      CountHealthySet(init);
      assert order == init + [last];
      var before := set ex | ex in init && HealthyRead(ex.stat, ex.read);
      var after := set ex | ex in order && HealthyRead(ex.stat, ex.read);
      assert last !in init;
      if HealthyRead(last.stat, last.read) {
        assert after == before + {last};
      } else {
        assert after == before;
      }
    }
  }

  lemma SamePermutationCount(a: seq<Extract>, b: seq<Extract>)
    requires multiset(a) == multiset(b) && DistinctDims(a)
    ensures CountHealthy(a) == CountHealthy(b)
  {
    PermutedDistinct(a, b);
    CountHealthySet(a);
    CountHealthySet(b);
    assert (set ex | ex in a && HealthyRead(ex.stat, ex.read))
        == (set ex | ex in b && HealthyRead(ex.stat, ex.read));
  }

  /** The guard of resolve_key_dims: a target's key rebuilds from its identity. */
  ghost predicate Guarded(seen: seq<Seen>) {
    forall i :: 0 <= i < |seen| && seen[i].target.Some? ==>
      var (d, eff) := seen[i].target.value; WellFormed(d) && LStrip(eff) == RebuildHiveKey(d)
  }

  lemma OrderGuarded(t: Tables, seen: seq<Seen>, order: seq<Extract>)
    requires Guarded(seen) && DistinctIdentities(seen) && Permutes(t, seen, order)
    ensures DistinctEffs(order)
    ensures forall ex :: ex in order ==> WellFormed(ex.dims) && LStrip(ex.eff) == RebuildHiveKey(ex.dims)
  {
    OrderDistinct(t, seen, order);
    forall ex | ex in order ensures WellFormed(ex.dims) && LStrip(ex.eff) == RebuildHiveKey(ex.dims) {
      ToExtractOf(t, seen, ex);
    }
    forall i, j | 0 <= i < j < |order| ensures order[i].eff != order[j].eff {
      assert order[i] in order && order[j] in order;
      if order[i].eff == order[j].eff {
        RebuildInjective(order[i].dims, order[j].dims);
      }
    }
  }

  lemma InternedTransitive(a: Dict, b: Dict, c: Dict)
    requires Interned(a, b) && Interned(b, c)
    ensures Interned(a, c)
  {
  }

  lemma {:induction false} ApplyAllInterned(t: Tables, order: seq<Extract>)
    requires Valid(t)
    ensures Interned(t.dict, ApplyAll(t, order).dict)
  {
    if order != [] {
      var init, last := order[..|order| - 1], order[|order| - 1];
      ApplyAllInterned(t, init);
      ApplyAllValid(t, init);
      ApplyExtractInterned(ApplyAll(t, init), last);
      InternedTransitive(t.dict, ApplyAll(t, init).dict, ApplyAll(t, order).dict);
    }
  }

  lemma WrittenDict(t: Tables, c: Composite, eff: string, stat: Stat, s: FileSummary)
    ensures var dict := WriteFileRow(t, c, eff, stat, s).0.dict;
      dict == t.dict || dict == InternSummary(t.dict, s.channels)
  {
  }

  lemma ApplyExtractDict(t: Tables, ex: Extract)
    ensures var dict, resolved := ApplyExtract(t, ex).0.dict, ResolveDims(t.dict, ex.dims);
      || dict == t.dict || dict == resolved
      || (ex.read.Ready? && dict == InternSummary(resolved, ex.read.summary.channels))
  {
    if ex.read.Ready? {
      var t1, c := t.(dict := ResolveDims(t.dict, ex.dims)), ResolvedIds(t.dict, ex.dims);
      WrittenDict(t1, c, ex.eff, ex.stat, ex.read.summary);
    }
  }

  lemma ApplyExtractInterned(t: Tables, ex: Extract)
    requires Valid(t)
    ensures Interned(t.dict, ApplyExtract(t, ex).0.dict)
  {
    var resolved := ResolveDims(t.dict, ex.dims);
    ApplyExtractDict(t, ex);
    ResolveDimsInterns(t.dict, ex.dims);
    if ex.read.Ready? {
      InternSummaryInterns(resolved, ex.read.summary.channels);
      InternedTransitive(t.dict, resolved, InternSummary(resolved, ex.read.summary.channels));
    }
  }

  lemma AppliedInterned(t: Tables, seen: seq<Seen>, order: seq<Extract>)
    requires Valid(t)
    ensures Interned(t.dict, Applied(t, seen, order).dict) && Valid(Applied(t, seen, order))
  {
    RecordUnparseableOnly(t, seen);
    SameTables(t, RecordUnparseable(t, seen));
    ApplyAllInterned(RecordUnparseable(t, seen), order);
    ApplyAllValid(RecordUnparseable(t, seen), order);
  }

  /** The rows a sweep deletes are the old rows of unlisted identities, in any order. */
  lemma GoneFromOld(t: Tables, seen: seq<Seen>, order: seq<Extract>)
    requires Valid(t) && DistinctIdentities(seen) && Permutes(t, seen, order)
    ensures Gone(Applied(t, seen, order), seen) == Gone(t, seen)
  {
    var t2 := Applied(t, seen, order);
    AppliedInterned(t, seen, order);
    forall c ensures c in Gone(t2, seen) <==> c in Gone(t, seen) {
      if c in t.files {
        OldRowGone(t, t2, seen, order, c);
      } else if c in t2.files {
        NewRowKept(t, t2, seen, order, c);
      }
    }
  }

  lemma OldRowGone(t: Tables, t2: Tables, seen: seq<Seen>, order: seq<Extract>, c: Composite)
    requires Valid(t) && DistinctIdentities(seen) && Permutes(t, seen, order)
    requires t2 == Applied(t, seen, order) && IdsUnique(t2.dict) && Interned(t.dict, t2.dict) && c in t.files
    ensures c in Gone(t2, seen) <==> c in Gone(t, seen)
  {
    var d := OwnerOfRow(t, c);
    LookupGrows(t.dict, t2.dict, d);
    SameGone(t, t2, seen, order, d);
  }

  lemma NewRowKept(t: Tables, t2: Tables, seen: seq<Seen>, order: seq<Extract>, c: Composite)
    requires Valid(t) && DistinctIdentities(seen) && Permutes(t, seen, order)
    requires t2 == Applied(t, seen, order) && Valid(t2) && Interned(t.dict, t2.dict)
    requires c in t2.files && c !in t.files
    ensures c !in Gone(t2, seen)
  {
    var d := OwnerOfRow(t2, c);
    NewRowListed(t, t2, seen, order, d);
  }

  lemma OwnerOfRow(t: Tables, c: Composite) returns (d: Dims)
    requires Valid(t) && c in t.files
    ensures Lookup(t.dict, d) == Some(c) && RowAt(t, d).Some?
  {
    assert RowValid(t.dict, c, t.files[c]);
    d :| Lookup(t.dict, d) == Some(c);
  }

  lemma SameGone(t: Tables, t2: Tables, seen: seq<Seen>, order: seq<Extract>, d: Dims)
    requires Valid(t) && DistinctIdentities(seen) && Permutes(t, seen, order) && IdsUnique(t2.dict)
    requires t2 == Applied(t, seen, order) && RowAt(t, d).Some? && Lookup(t2.dict, d) == Lookup(t.dict, d)
    ensures Lookup(t.dict, d).value in Gone(t2, seen) <==> Lookup(t.dict, d).value in Gone(t, seen)
  {
    AppliedView(t, seen, order, d);
    GoneExact(t, seen, d);
    if RowAt(t2, d).Some? {
      GoneExact(t2, seen, d);
    }
  }

  lemma NewRowListed(t: Tables, t2: Tables, seen: seq<Seen>, order: seq<Extract>, d: Dims)
    requires Valid(t) && DistinctIdentities(seen) && Permutes(t, seen, order) && IdsUnique(t2.dict)
    requires t2 == Applied(t, seen, order) && RowAt(t2, d).Some?
    requires Interned(t.dict, t2.dict) && Lookup(t2.dict, d).value !in t.files
    ensures Lookup(t2.dict, d).value !in Gone(t2, seen)
  {
    AppliedView(t, seen, order, d);
    GoneExact(t2, seen, d);
    if Lookup(t.dict, d).Some? {
      LookupGrows(t.dict, t2.dict, d);
    }
  }

  /** Parallel reconcile refines sequential: any two completion orders of the same summaries
      leave the same view, the same failures and the same tally. */
  lemma OrderIrrelevant(t: Tables, seen: seq<Seen>, a: seq<Extract>, b: seq<Extract>)
    requires Valid(t) && DistinctIdentities(seen) && Guarded(seen)
    requires Permutes(t, seen, a) && Permutes(t, seen, b)
    ensures forall d :: FileAt(Swept(t, seen, a), d) == FileAt(Swept(t, seen, b), d)
    ensures Swept(t, seen, a).failures == Swept(t, seen, b).failures
    ensures |a| == |b| <= |seen| - CountUnparseable(seen) && CountHealthy(a) == CountHealthy(b) <= |b|
    ensures TallyOf(t, seen, a) == TallyOf(t, seen, b)
  {
    OrderDistinct(t, seen, a);
    forall d ensures FileAt(Swept(t, seen, a), d) == FileAt(Swept(t, seen, b), d) {
      SameViewInOrders(t, seen, a, b, d);
    }
    SameFailuresInOrders(t, seen, a, b);
    PermutationFits(t, seen, a);
    PermutationFits(t, seen, b);
    SamePermutationCount(a, b);
    GoneFromOld(t, seen, a);
    GoneFromOld(t, seen, b);
  }

  lemma SameViewInOrders(t: Tables, seen: seq<Seen>, a: seq<Extract>, b: seq<Extract>, d: Dims)
    requires Valid(t) && DistinctIdentities(seen) && Permutes(t, seen, a) && Permutes(t, seen, b)
    ensures FileAt(Swept(t, seen, a), d) == FileAt(Swept(t, seen, b), d)
  {
    ReconcileView(t, seen, a, d);
    ReconcileView(t, seen, b, d);
    if i :| 0 <= i < |seen| && SeenAt(seen[i], d) {
      assert FileAt(Swept(t, seen, a), d) == Expected(t, seen[i], d);
    }
  }

  lemma SameFailuresInOrders(t: Tables, seen: seq<Seen>, a: seq<Extract>, b: seq<Extract>)
    requires Valid(t) && DistinctIdentities(seen) && Guarded(seen)
    requires Permutes(t, seen, a) && Permutes(t, seen, b)
    ensures Swept(t, seen, a).failures == Swept(t, seen, b).failures
  {
    var t1 := RecordUnparseable(t, seen);
    RecordUnparseableOnly(t, seen);
    SameTables(t, t1);
    OrderDistinct(t, seen, a);
    OrderDistinct(t, seen, b);
    OrderGuarded(t, seen, a);
    OrderGuarded(t, seen, b);
    var fa, fb := ApplyAll(t1, a), ApplyAll(t1, b);
    forall key ensures FailureAt(fa, key) == FailureAt(fb, key) {
      ApplyAllFailures(t1, a, key);
      ApplyAllFailures(t1, b, key);
      if ex :| ex in a && ex.eff == key {
        assert ex in b;
      }
    }
    forall key ensures key in fa.failures <==> key in fb.failures {
      assert FailureAt(fa, key) == FailureAt(fb, key);
    }
    forall key | key in fa.failures ensures fa.failures[key] == fb.failures[key] {
      assert FailureAt(fa, key) == FailureAt(fb, key);
    }
    assert fa.failures == fb.failures;
  }

  // ---- topic-set sharing ----

  ghost function LayoutOf(topics: map<string, TopicInfo>): map<string, (string, string)> {
    map n | n in topics :: topics[n].schema
  }

  /** Two rows point at one topic set exactly when their topics have the same names and
      schemas, so the sharing of topic sets is a fact of the name-level view. */
  lemma SharingExact(t: Tables, a: Composite, b: Composite)
    requires Valid(t) && a in t.files && b in t.files
    ensures t.files[a].setId == t.files[b].setId <==>
        LayoutOf(TopicsOf(t.dict, t.files[a])) == LayoutOf(TopicsOf(t.dict, t.files[b]))
  {
    var ra, rb := t.files[a], t.files[b];
    assert RowValid(t.dict, a, ra) && RowValid(t.dict, b, rb);
    if ra.setId == rb.setId {
      LayoutOfSet(t.dict, ra, rb);
    }
    if LayoutOf(TopicsOf(t.dict, ra)) == LayoutOf(TopicsOf(t.dict, rb)) {
      LayoutDeterminesSet(t.dict, ra, rb);
    }
  }

  lemma LayoutOfSet(t: Dict, ra: FileRow, rb: FileRow)
    requires ra.setId == rb.setId
    ensures LayoutOf(TopicsOf(t, ra)) == LayoutOf(TopicsOf(t, rb))
  {
    var la, lb := LayoutOf(TopicsOf(t, ra)), LayoutOf(TopicsOf(t, rb));
    assert la.Keys == TopicsOf(t, ra).Keys == TopicsOf(t, rb).Keys == lb.Keys;
  }

  lemma LayoutDeterminesSet(t: Dict, ra: FileRow, rb: FileRow)
    requires DictValid(t) && ra.setId in t.members && rb.setId in t.members
    requires LayoutOf(TopicsOf(t, ra)) == LayoutOf(TopicsOf(t, rb))
    ensures ra.setId == rb.setId
  {
    var ma, mb := t.members[ra.setId], t.members[rb.setId];
    forall m | m in ma ensures m in mb {
      MemberInBoth(t, ra, rb, m);
    }
    forall m | m in mb ensures m in ma {
      MemberInBoth(t, rb, ra, m);
    }
    SortedEqual(ma, mb);
  }

  lemma MemberInBoth(t: Dict, ra: FileRow, rb: FileRow, m: Member)
    requires DictValid(t) && ra.setId in t.members && rb.setId in t.members
    requires LayoutOf(TopicsOf(t, ra)) == LayoutOf(TopicsOf(t, rb))
    requires m in t.members[ra.setId]
    ensures m in t.members[rb.setId]
  {
    var ma, mb := t.members[ra.setId], t.members[rb.setId];
    assert MembersKnown(t, ma) && MembersKnown(t, mb) && Sorted(ma);
    var i :| 0 <= i < |ma| && ma[i] == m;
    var n :| n in t.topics && t.topics[n] == m.topic;
    assert HasTopic(ma, t.topics[n]) && IndexOf(ma, t.topics[n]) == i;
    assert n in LayoutOf(TopicsOf(t, ra));
    assert n in LayoutOf(TopicsOf(t, rb));
    var j := IndexOf(mb, t.topics[n]);
    assert LayoutOf(TopicsOf(t, ra))[n] == KeyOf(t.schemas, m.schema);
    assert LayoutOf(TopicsOf(t, rb))[n] == KeyOf(t.schemas, mb[j].schema);
    SameSchema(t, m.schema, mb[j].schema);
    assert mb[j] == m;
  }

  lemma SameSchema(t: Dict, x: Id, y: Id)
    requires Injective(t.schemas) && x in t.schemas.Values && y in t.schemas.Values
    requires KeyOf(t.schemas, x) == KeyOf(t.schemas, y)
    ensures x == y
  {
    var k :| k in t.schemas && t.schemas[k] == x;
    var l :| l in t.schemas && t.schemas[l] == y;
    KeyOfId(t.schemas, k);
    KeyOfId(t.schemas, l);
  }

  ghost predicate SameElements(a: seq<Member>, b: seq<Member>) {
    (forall m :: m in a ==> m in b) && (forall m :: m in b ==> m in a)
  }

  lemma {:induction false} SortedEqual(a: seq<Member>, b: seq<Member>)
    requires Sorted(a) && Sorted(b) && SameElements(a, b)
    ensures a == b
  {
    assert a == [] || a[0] in a;
    assert b == [] || b[0] in b;
    if a != [] && b != [] {
      LastEqual(a, b);
      SortedEqual(a[..|a| - 1], b[..|b| - 1]);
      assert a == a[..|a| - 1] + [a[|a| - 1]] && b == b[..|b| - 1] + [b[|b| - 1]];
    }
  }

  lemma LastEqual(a: seq<Member>, b: seq<Member>)
    requires a != [] && b != [] && Sorted(a) && Sorted(b) && SameElements(a, b)
    ensures a[|a| - 1] == b[|b| - 1] && SameElements(a[..|a| - 1], b[..|b| - 1])
  {
    var x, y := a[|a| - 1], b[|b| - 1];
    assert x in b && y in a;
    InitElements(a);
    InitElements(b);
    var a', b' := a[..|a| - 1], b[..|b| - 1];
    forall m | m in a' ensures m in b' {
      assert m in a && m in b;
    }
    forall m | m in b' ensures m in a' {
      assert m in b && m in a;
    }
  }

  lemma InitElements(a: seq<Member>)
    requires a != [] && Sorted(a)
    ensures forall m :: m in a[..|a| - 1] <==> m in a && m != a[|a| - 1]
  {
    assert a == a[..|a| - 1] + [a[|a| - 1]];
  }

  ghost predicate SharesSet(t: Tables, a: Dims, b: Dims) {
    RowAt(t, a).Some? && RowAt(t, b).Some? && RowAt(t, a).value.setId == RowAt(t, b).value.setId
  }

  ghost predicate SameLayouts(t: Tables, a: Dims, b: Dims) {
    && FileAt(t, a).Some? && FileAt(t, b).Some?
    && LayoutOf(FileAt(t, a).value.topics) == LayoutOf(FileAt(t, b).value.topics)
  }

  lemma SharingByView(t: Tables, a: Dims, b: Dims)
    requires Valid(t)
    ensures SharesSet(t, a, b) <==> SameLayouts(t, a, b)
  {
    if RowAt(t, a).Some? && RowAt(t, b).Some? {
      SharingExact(t, Lookup(t.dict, a).value, Lookup(t.dict, b).value);
    }
  }

  /** Completion order changes set ids, but never which files share one. */
  lemma SharingInOrders(t: Tables, seen: seq<Seen>, p: seq<Extract>, q: seq<Extract>, a: Dims, b: Dims)
    requires Valid(t) && DistinctIdentities(seen) && Permutes(t, seen, p) && Permutes(t, seen, q)
    ensures SharesSet(Swept(t, seen, p), a, b) <==> SharesSet(Swept(t, seen, q), a, b)
  {
    SweptValid(t, seen, p);
    SweptValid(t, seen, q);
    SameViewInOrders(t, seen, p, q, a);
    SameViewInOrders(t, seen, p, q, b);
    SharingByView(Swept(t, seen, p), a, b);
    SharingByView(Swept(t, seen, q), a, b);
  }

  lemma SweptValid(t: Tables, seen: seq<Seen>, order: seq<Extract>)
    requires Valid(t)
    ensures Valid(Swept(t, seen, order))
  {
    AppliedInterned(t, seen, order);
    SweepValid(Applied(t, seen, order), Gone(Applied(t, seen, order), seen));
  }

  // ---- a second run ----

  /** Every listed identity resolves, and is catalogued under its listed etag. */
  ghost predicate UpToDate(t: Tables, seen: seq<Seen>) {
    forall i :: 0 <= i < |seen| ==>
      seen[i].target.Some? && Unchanged(t, seen[i].target.value.0, seen[i].stat.etag)
  }

  lemma {:induction false} UpToDateReadsNothing(t: Tables, seen: seq<Seen>)
    requires UpToDate(t, seen)
    ensures ToExtract(t, seen) == [] && RecordUnparseable(t, seen) == t
  {
    if seen != [] {
      UpToDateReadsNothing(t, seen[..|seen| - 1]);
    }
  }

  lemma UnchangedAfter(t: Tables, seen: seq<Seen>, i: nat)
    requires ShowsSource(t, seen) && DistinctIdentities(seen) && i < |seen| && seen[i].target.Some?
    ensures Unchanged(t, seen[i].target.value.0, seen[i].stat.etag) <==> HealthyRead(seen[i].stat, seen[i].read)
  {
    var d := seen[i].target.value.0;
    assert SeenAt(seen[i], d);
    SourceViewAt(seen, d, i);
    assert FileAt(t, d) == SourceView(seen, d);
  }

  /** What a reconcile leaves, its build stamp included. */
  function Reconciled(t: Tables, seen: seq<Seen>, order: seq<Extract>, tally: Tally, now: int): Tables {
    RecordBuild(Swept(t, seen, order), tally, now)
  }

  lemma ReconciledShows(t: Tables, seen: seq<Seen>, order: seq<Extract>, tally: Tally, now: int)
    requires Valid(t) && DistinctIdentities(seen) && Quiescent(seen) && Faithful(t, seen) && Permutes(t, seen, order)
    ensures Valid(Reconciled(t, seen, order, tally, now))
    ensures ShowsSource(Reconciled(t, seen, order, tally, now), seen)
  {
    ReconcileShowsSource(t, seen, order);
    SameTables(Swept(t, seen, order), Reconciled(t, seen, order, tally, now));
  }

  /** After one reconcile, a second one over the unchanged source opens no summary if and only
      if every listed object was healthy. */
  lemma SecondReconcileReads(t: Tables, seen: seq<Seen>, order: seq<Extract>, tally: Tally, now: int)
    requires Valid(t) && DistinctIdentities(seen) && Quiescent(seen) && Faithful(t, seen)
    requires Permutes(t, seen, order)
    requires forall i :: 0 <= i < |seen| ==> seen[i].target.Some?
    ensures ToExtract(Reconciled(t, seen, order, tally, now), seen) == [] <==>
        forall i :: 0 <= i < |seen| ==> HealthyRead(seen[i].stat, seen[i].read)
  {
    ReconciledShows(t, seen, order, tally, now);
    NothingToRead(Reconciled(t, seen, order, tally, now), seen);
  }

  lemma NothingToRead(t: Tables, seen: seq<Seen>)
    requires ShowsSource(t, seen) && DistinctIdentities(seen)
    requires forall i :: 0 <= i < |seen| ==> seen[i].target.Some?
    ensures ToExtract(t, seen) == [] <==> forall i :: 0 <= i < |seen| ==> HealthyRead(seen[i].stat, seen[i].read)
    ensures ToExtract(t, seen) == [] ==> UpToDate(t, seen)
  {
    forall i | 0 <= i < |seen|
      ensures Unchanged(t, seen[i].target.value.0, seen[i].stat.etag) <==> HealthyRead(seen[i].stat, seen[i].read)
    {
      UnchangedAfter(t, seen, i);
    }
    if i :| 0 <= i < |seen| && !HealthyRead(seen[i].stat, seen[i].read) {
      ToExtractOf(t, seen, Classify(t, seen[i]).value);
    } else {
      UpToDateReadsNothing(t, seen);
    }
  }

  /** With every object healthy that second run changes no row, id, blob, tag or failure: what
      it leaves is what it found, with a new build stamp. */
  lemma SecondReconcileChangesNothing(t: Tables, seen: seq<Seen>, order: seq<Extract>, tally: Tally, now: int,
                                      again: seq<Extract>, tally2: Tally, now2: int)
    requires Valid(t) && DistinctIdentities(seen) && Quiescent(seen) && Faithful(t, seen)
    requires Permutes(t, seen, order) && Permutes(Reconciled(t, seen, order, tally, now), seen, again)
    requires forall i :: 0 <= i < |seen| ==> seen[i].target.Some? && HealthyRead(seen[i].stat, seen[i].read)
    ensures again == []
    ensures Reconciled(Reconciled(t, seen, order, tally, now), seen, again, tally2, now2)
         == RecordBuild(Reconciled(t, seen, order, tally, now), tally2, now2)
  {
    var t' := Reconciled(t, seen, order, tally, now);
    ReconciledShows(t, seen, order, tally, now);
    NothingToRead(t', seen);
    assert |multiset(again)| == |again|;
    UpToDateReadsNothing(t', seen);
    NothingGone(t', seen);
    SweepNothing(t');
  }

  lemma NothingGone(t: Tables, seen: seq<Seen>)
    requires Valid(t) && ShowsSource(t, seen)
    ensures Gone(t, seen) == {}
  {
    forall c | c in t.files ensures c in Present(t.dict, seen) {
      assert RowValid(t.dict, c, t.files[c]);
      var d :| Lookup(t.dict, d) == Some(c);
      assert FileAt(t, d) == SourceView(seen, d);
      PresentExact(t.dict, seen, c);
    }
  }

  lemma SweepNothing(t: Tables)
    ensures Sweep(t, {}) == t
  {
    assert IdsOf(t.files, {}) == {};
    assert t.files - {} == t.files;
    assert DropAll(t.embedded, {}) == t.embedded && DropAll(t.overrides, {}) == t.overrides;
  }
}
