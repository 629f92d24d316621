/** The answers of full_reconcile in the source's own terms: its tally, its build stamp and its
    failure records, counted over the listing itself. */
module ReconcileMeaning {
  import opened Common
  import opened KeyParse
  import opened Summary
  import opened Schema
  import opened Store
  import opened StoreProofs
  import opened OperationProofs
  import opened Reconcile
  import opened ReconcileProofs
  import opened ReconcileTheorems
  import opened ViewMeaning

  // ---- the tally ----

  /** The listed object is catalogued under the listed etag. */
  ghost predicate AsListed(t: Tables, s: Seen) {
    s.target.Some? && RowAt(t, s.target.value.0).Some? && RowAt(t, s.target.value.0).value.etag == s.stat.etag
  }

  ghost predicate IsCaught(t: Tables, s: Seen) {
    s.target.Some? && !AsListed(t, s) && HealthyRead(s.stat, s.read)
  }

  ghost predicate IsFailing(t: Tables, s: Seen) {
    s.target.None? || (!AsListed(t, s) && !HealthyRead(s.stat, s.read))
  }

  /** The positions of the marks. */
  function Marked(marks: seq<bool>): set<nat> {
    set i | 0 <= i < |marks| && marks[i]
  }

  lemma MarkedMore(marks: seq<bool>, m: bool)
    ensures |Marked(marks + [m])| == |Marked(marks)| + if m then 1 else 0
  {
    if m {
      assert Marked(marks + [m]) == Marked(marks) + {|marks|};
    } else {
      assert Marked(marks + [m]) == Marked(marks);
    }
  }

  /** The listings that are catalogued, skipped and failed, by position. */
  ghost function Caught(t: Tables, seen: seq<Seen>): set<nat> {
    Marked(seq(|seen|, i requires 0 <= i < |seen| => IsCaught(t, seen[i])))
  }

  ghost function Kept(t: Tables, seen: seq<Seen>): set<nat> {
    Marked(seq(|seen|, i requires 0 <= i < |seen| => AsListed(t, seen[i])))
  }

  ghost function Failing(t: Tables, seen: seq<Seen>): set<nat> {
    Marked(seq(|seen|, i requires 0 <= i < |seen| => IsFailing(t, seen[i])))
  }

  /** They are what they say. */
  lemma PositionsExact(t: Tables, seen: seq<Seen>, i: nat)
    requires i < |seen|
    ensures i in Caught(t, seen) <==> IsCaught(t, seen[i])
    ensures i in Kept(t, seen) <==> AsListed(t, seen[i])
    ensures i in Failing(t, seen) <==> IsFailing(t, seen[i])
  {
  }

  ghost predicate ListedRow(t: Tables, seen: seq<Seen>, c: Composite) {
    exists i, d :: 0 <= i < |seen| && SeenAt(seen[i], d) && Lookup(t.dict, d) == Some(c)
  }

  /** The old rows of identities that are not listed. */
  ghost function Absent(t: Tables, seen: seq<Seen>): set<Composite> {
    set c | c in t.files && !ListedRow(t, seen, c)
  }

  /** Catalogued: resolved, changed and healthy. Skipped: resolved and unchanged. Failed: not
      resolved, or changed and not healthy. Deleted: the old rows of unlisted identities. */
  ghost predicate TallyMeans(t: Tables, seen: seq<Seen>, tally: Tally) {
    && tally.cataloged == |Caught(t, seen)| && tally.skipped == |Kept(t, seen)|
    && tally.failed == |Failing(t, seen)| && tally.deleted == |Absent(t, seen)|
  }

  /** The loop's counters. */
  ghost predicate CountersMean(t: Tables, seen: seq<Seen>) {
    && CountHealthy(ToExtract(t, seen)) == |Caught(t, seen)|
    && |seen| - CountUnparseable(seen) - |ToExtract(t, seen)| == |Kept(t, seen)|
    && CountUnparseable(seen) + |ToExtract(t, seen)| - CountHealthy(ToExtract(t, seen)) == |Failing(t, seen)|
  }

  lemma {:induction false} CountersExact(t: Tables, seen: seq<Seen>)
    ensures CountersMean(t, seen)
  {
    if seen != [] {
      var init, s := seen[..|seen| - 1], seen[|seen| - 1];
      CountersExact(t, init);
      CountersNext(t, init, s);
      assert seen == init + [s];
    }
  }

  lemma CountersNext(t: Tables, init: seq<Seen>, s: Seen)
    requires CountersMean(t, init)
    ensures CountersMean(t, init + [s])
  {
    OneMoreMarked(t, init, s);
    OneMoreCounted(t, init, s);
  }

  lemma OneMoreMarked(t: Tables, init: seq<Seen>, s: Seen)
    ensures |Caught(t, init + [s])| == |Caught(t, init)| + if IsCaught(t, s) then 1 else 0
    ensures |Kept(t, init + [s])| == |Kept(t, init)| + if AsListed(t, s) then 1 else 0
    ensures |Failing(t, init + [s])| == |Failing(t, init)| + if IsFailing(t, s) then 1 else 0
  {
    var all, n := init + [s], |init|;
    MarkedMore(seq(n, i requires 0 <= i < n => IsCaught(t, init[i])), IsCaught(t, s));
    MarkedMore(seq(n, i requires 0 <= i < n => AsListed(t, init[i])), AsListed(t, s));
    MarkedMore(seq(n, i requires 0 <= i < n => IsFailing(t, init[i])), IsFailing(t, s));
    assert seq(|all|, i requires 0 <= i < |all| => IsCaught(t, all[i]))
        == seq(n, i requires 0 <= i < n => IsCaught(t, init[i])) + [IsCaught(t, s)];
    assert seq(|all|, i requires 0 <= i < |all| => AsListed(t, all[i]))
        == seq(n, i requires 0 <= i < n => AsListed(t, init[i])) + [AsListed(t, s)];
    assert seq(|all|, i requires 0 <= i < |all| => IsFailing(t, all[i]))
        == seq(n, i requires 0 <= i < n => IsFailing(t, init[i])) + [IsFailing(t, s)];
  }

  lemma OneMoreCounted(t: Tables, init: seq<Seen>, s: Seen)
    ensures var extra := if s.target.Some? && !AsListed(t, s) then 1 else 0;
      && |ToExtract(t, init + [s])| == |ToExtract(t, init)| + extra
      && CountHealthy(ToExtract(t, init + [s])) == CountHealthy(ToExtract(t, init))
                                                   + (if IsCaught(t, s) then 1 else 0)
      && CountUnparseable(init + [s]) == CountUnparseable(init) + (if s.target.None? then 1 else 0)
  {
    assert (init + [s])[..|init|] == init;
    if s.target.Some? && !AsListed(t, s) {
      var ex := Classify(t, s).value;
      assert (ToExtract(t, init) + [ex])[..|ToExtract(t, init)|] == ToExtract(t, init);
    }
  }

  lemma AbsentIsGone(t: Tables, seen: seq<Seen>)
    requires Valid(t)
    ensures Absent(t, seen) == Gone(t, seen)
  {
    forall c | c in t.files ensures ListedRow(t, seen, c) <==> c in Present(t.dict, seen) {
      PresentExact(t.dict, seen, c);
    }
  }

  /** The tally, from any valid tables and in any completion order. */
  lemma TallyExact(t: Tables, seen: seq<Seen>, order: seq<Extract>)
    requires Valid(t) && DistinctIdentities(seen) && Permutes(t, seen, order)
    ensures |order| <= |seen| - CountUnparseable(seen) && CountHealthy(order) <= |order|
    ensures TallyMeans(t, seen, TallyOf(t, seen, order))
  {
    PermutationFits(t, seen, order);
    OrderDistinct(t, seen, order);
    SamePermutationCount(order, ToExtract(t, seen));
    CountersExact(t, seen);
    assert seen[..|seen|] == seen;
    GoneFromOld(t, seen, order);
    AbsentIsGone(t, seen);
  }

  /** The build stamp: what was seen, what failed, and "partial" exactly when something failed. */
  ghost predicate StampMeans(before: Option<Build>, t: Tables, seen: seq<Seen>, after: Option<Build>, now: int) {
    && after.Some? && after.value.lastBuildNs == now
    && after.value.buildId == (if before.Some? then before.value.buildId + 1 else 1)
    && after.value.scanned == |Caught(t, seen)| + |Kept(t, seen)|
    && after.value.failed == |Failing(t, seen)|
    && (after.value.outcome == "partial" <==> exists i :: 0 <= i < |seen| && IsFailing(t, seen[i]))
    && (after.value.outcome == "ok" <==> forall i :: 0 <= i < |seen| ==> !IsFailing(t, seen[i]))
  }

  lemma StampExact(t: Tables, swept: Tables, seen: seq<Seen>, tally: Tally, now: int)
    requires TallyMeans(t, seen, tally)
    ensures StampMeans(swept.build, t, seen, RecordBuild(swept, tally, now).build, now)
  {
    if i :| 0 <= i < |seen| && IsFailing(t, seen[i]) {
      PositionsExact(t, seen, i);
    } else {
      forall i | 0 <= i < |seen| ensures i !in Failing(t, seen) {
        PositionsExact(t, seen, i);
      }
      assert Failing(t, seen) == {};
    }
    assert "partial" != "ok" by {
      assert |"partial"| != |"ok"|;
    }
  }

  // ---- what a reconcile leaves alone ----

  ghost predicate OnlyDrops(t: Tables, t': Tables) {
    t'.build == t.build && forall fk :: fk in t'.overrides ==> fk in t.overrides && t'.overrides[fk] == t.overrides[fk]
  }

  lemma DeleteDrops(t: Tables, c: Composite)
    ensures OnlyDrops(t, DeleteFile(t, c))
  {
  }

  lemma WriteDrops(t: Tables, c: Composite, eff: string, stat: Stat, s: FileSummary)
    ensures OnlyDrops(t, WriteFileRow(t, c, eff, stat, s).0)
  {
  }

  lemma ApplyDrops(t: Tables, ex: Extract)
    ensures OnlyDrops(t, ApplyExtract(t, ex).0)
  {
    var t1, c := t.(dict := ResolveDims(t.dict, ex.dims)), ResolvedIds(t.dict, ex.dims);
    DeleteDrops(t1, c);
    if ex.read.Ready? {
      WriteDrops(t1, c, ex.eff, ex.stat, ex.read.summary);
    }
  }

  lemma {:induction false} ApplyAllDrops(t: Tables, order: seq<Extract>)
    ensures OnlyDrops(t, ApplyAll(t, order))
  {
    if order != [] {
      ApplyAllDrops(t, order[..|order| - 1]);
      ApplyDrops(ApplyAll(t, order[..|order| - 1]), order[|order| - 1]);
    }
  }

  /** A reconcile never writes a user tag: those it leaves were there before with the same value,
      mask and update time. Only its last step writes the build stamp. */
  lemma ReconcileDrops(t: Tables, seen: seq<Seen>, order: seq<Extract>)
    ensures OnlyDrops(t, Swept(t, seen, order))
  {
    RecordUnparseableOnly(t, seen);
    ApplyAllDrops(RecordUnparseable(t, seen), order);
  }

  /** full_reconcile as a whole: its tally and its stamp. */
  lemma AnswersExact(t: Tables, seen: seq<Seen>, order: seq<Extract>, tally: Tally, now: int)
    requires Valid(t) && DistinctIdentities(seen) && Permutes(t, seen, order)
    requires |order| <= |seen| - CountUnparseable(seen) && CountHealthy(order) <= |order|
    requires tally == TallyOf(t, seen, order)
    ensures TallyMeans(t, seen, tally)
    ensures StampMeans(t.build, t, seen, RecordBuild(Swept(t, seen, order), tally, now).build, now)
  {
    TallyExact(t, seen, order);
    ReconcileDrops(t, seen, order);
    StampExact(t, Swept(t, seen, order), seen, tally, now);
  }

  // ---- the failure records ----

  /** The listing's object is read, and tells what becomes of its effective key. */
  ghost predicate ReadFor(t: Tables, s: Seen, key: string) {
    s.target.Some? && s.target.value.1 == key && !AsListed(t, s) && !s.read.Vanished?
  }

  /** What a read object leaves under its key: nothing when healthy, else why. */
  ghost predicate RecordOf(s: Seen, record: Option<Failure>)
    requires !s.read.Vanished?
  {
    match s.read
    case Unreadable(error) => record == Some(ReadError(error))
    case Ready(summary) =>
      if Published(s.stat, s.read).Some? then record == None
      else record.Some? && RefusedAs(record.value, s.stat, summary)
  }

  /** Every failure record after a reconcile, key by key: a read object's own outcome, else the
      record of an unparseable listing, else what was there before, stale ones included. */
  ghost predicate RecordsMean(t: Tables, seen: seq<Seen>, after: map<string, Failure>, key: string) {
    var record := if key in after then Some(after[key]) else None;
    && (forall i :: 0 <= i < |seen| && ReadFor(t, seen[i], key) ==> RecordOf(seen[i], record))
    && ((forall i :: 0 <= i < |seen| ==> !ReadFor(t, seen[i], key)) ==>
          if exists i :: 0 <= i < |seen| && seen[i].target.None? && seen[i].key == key
          then record == Some(UnparseableKey)
          else record == FailureAt(t, key))
  }

  lemma {:induction false} UnparseableRecords(t: Tables, seen: seq<Seen>, key: string)
    ensures FailureAt(RecordUnparseable(t, seen), key) ==
      if exists i :: 0 <= i < |seen| && seen[i].target.None? && seen[i].key == key
      then Some(UnparseableKey) else FailureAt(t, key)
  {
    if seen != [] {
      var init, s := seen[..|seen| - 1], seen[|seen| - 1];
      UnparseableRecords(t, init, key);
      assert seen == init + [s];
      if i :| 0 <= i < |init| && init[i].target.None? && init[i].key == key {
        assert seen[i].target.None? && seen[i].key == key;
      }
      if s.target.None? && s.key == key {
        assert seen[|seen| - 1].target.None? && seen[|seen| - 1].key == key;
      }
    }
  }

  lemma OutcomeIsRecord(ex: Extract, s: Seen, before: Option<Failure>)
    requires ex.stat == s.stat && ex.read == s.read && !s.read.Vanished?
    ensures RecordOf(s, OutcomeFailure(ex, before))
  {
  }

  lemma ReadInOrder(t: Tables, seen: seq<Seen>, order: seq<Extract>, i: nat)
    returns (ex: Extract)
    requires Permutes(t, seen, order) && i < |seen| && seen[i].target.Some? && !AsListed(t, seen[i])
    ensures ex in order && ex.stat == seen[i].stat && ex.read == seen[i].read && ex.eff == seen[i].target.value.1
  {
    ex := Classify(t, seen[i]).value;
    ToExtractOf(t, seen, ex);
    assert ex in multiset(ToExtract(t, seen));
    assert ex in multiset(order);
  }

  lemma RecordsExact(t: Tables, seen: seq<Seen>, order: seq<Extract>, key: string)
    requires Valid(t) && DistinctIdentities(seen) && Guarded(seen) && Permutes(t, seen, order)
    ensures RecordsMean(t, seen, Swept(t, seen, order).failures, key)
  {
    var t1 := RecordUnparseable(t, seen);
    RecordUnparseableOnly(t, seen);
    SameTables(t, t1);
    UnparseableRecords(t, seen, key);
    OrderGuarded(t, seen, order);
    ApplyAllFailures(t1, order, key);
    forall i | 0 <= i < |seen| && ReadFor(t, seen[i], key)
      ensures RecordOf(seen[i], FailureAt(Swept(t, seen, order), key))
    {
      var ex := ReadInOrder(t, seen, order, i);
      OutcomeIsRecord(ex, seen[i], FailureAt(t1, key));
    }
    if forall i :: 0 <= i < |seen| ==> !ReadFor(t, seen[i], key) {
      UnreadKey(t, t1, seen, order, key);
    }
  }

  lemma UnreadKey(t: Tables, t1: Tables, seen: seq<Seen>, order: seq<Extract>, key: string)
    requires Valid(t1) && Permutes(t, seen, order) && DistinctEffs(order)
    requires forall i :: 0 <= i < |seen| ==> !ReadFor(t, seen[i], key)
    ensures FailureAt(ApplyAll(t1, order), key) == FailureAt(t1, key)
  {
    ApplyAllFailures(t1, order, key);
    if ex :| ex in order && ex.eff == key {
      assert ex in multiset(order);
      ToExtractOf(t, seen, ex);
      var i :| 0 <= i < |seen| && Classify(t, seen[i]) == Some(ex);
      assert !ReadFor(t, seen[i], key);
    }
  }
}
