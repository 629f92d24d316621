/** Runs of the single writer. Every event is one committed change: the lookup rows of a file's
    names, the row or quarantine that follows them, a delete, a failure record, a sweep, a build
    stamp or a user tag edit. A prefix of a run is therefore also what a crash leaves behind. */
module Runs {
  import opened Common
  import opened IdTables
  import opened KeyParse
  import opened Summary
  import opened Schema
  import opened Store
  import opened StoreProofs
  import opened OperationProofs
  import opened Reconcile
  import opened ReconcileProofs
  import opened ReconcileTheorems
  import opened Tags

  datatype Event =
    | ResolveNames(dims: Dims)
    | Catalog(key: string, target: Option<(Dims, string)>, stat: Option<Stat>, read: ReadResult)
    | Delete(key: string)
    | Unparseable(key: string)
    | Apply(ex: Extract)
    | Remove(gone: set<Composite>)
    | Stamp(tally: Tally, now: int)
    | Edit(id: Id, kv: map<string, string>, unset: set<string>, now: int)

  function CatalogStep(t: Tables, key: string, target: Option<(Dims, string)>, stat: Option<Stat>,
                       read: ReadResult): Tables
  {
    if stat.None? then t else CatalogTarget(t, key, target, stat.value, read).0
  }

  function Step(t: Tables, ev: Event): Tables {
    match ev
    case ResolveNames(d) => t.(dict := ResolveDims(t.dict, d))
    case Catalog(key, target, stat, read) => CatalogStep(t, key, target, stat, read)
    case Delete(key) => DeleteByKey(t, key).0
    case Unparseable(key) => RecordFailure(t, key, UnparseableKey)
    case Apply(ex) => ApplyExtract(t, ex).0
    case Remove(gone) => Sweep(t, gone)
    case Stamp(tally, now) => RecordBuild(t, tally, now)
    case Edit(id, kv, unset, now) => UpdateTags(t, id, kv, unset, now)
  }

  predicate NamesKnown(t: Dict, d: Dims) {
    Lookup(t, d).Some?
  }

  /** A tag edit addresses a file that exists, and a file is written once its names have been
      committed; nothing else constrains an event. */
  ghost predicate Enabled(t: Tables, ev: Event) {
    match ev
    case Catalog(_, target, stat, _) => stat.Some? && target.Some? ==> NamesKnown(t.dict, target.value.0)
    case Apply(ex) => NamesKnown(t.dict, ex.dims)
    case Edit(id, _, _, _) => IsFileId(t.files, id)
    case _ => true
  }

  /** Committing the names first makes the rest one commit, and changes nothing else. */
  lemma NamesFirst(t: Dict, d: Dims)
    ensures NamesKnown(ResolveDims(t, d), d)
    ensures NamesKnown(t, d) ==> ResolveDims(t, d) == t
    ensures ResolveDims(ResolveDims(t, d), d) == ResolveDims(t, d)
    ensures ResolvedIds(ResolveDims(t, d), d) == ResolvedIds(t, d)
  {
  }

  /** One extract is two commits, unless its object vanished: then there is none. */
  lemma ApplyInTwo(t: Tables, ex: Extract)
    requires !ex.read.Vanished?
    ensures ApplyExtract(t.(dict := ResolveDims(t.dict, ex.dims)), ex) == ApplyExtract(t, ex)
  {
    NamesFirst(t.dict, ex.dims);
  }

  lemma CatalogInTwo(t: Tables, key: string, d: Dims, eff: string, stat: Stat, read: ReadResult)
    ensures CatalogTarget(t.(dict := ResolveDims(t.dict, d)), key, Some((d, eff)), stat, read)
         == CatalogTarget(t, key, Some((d, eff)), stat, read)
  {
    NamesFirst(t.dict, d);
  }

  ghost predicate IsRun(trace: seq<Tables>, evs: seq<Event>) {
    |trace| == |evs| + 1
    && forall i :: 0 <= i < |evs| ==> Enabled(trace[i], evs[i]) && trace[i + 1] == Step(trace[i], evs[i])
  }

  lemma UpdateTagsValid(t: Tables, id: Id, kv: map<string, string>, unset: set<string>, now: int)
    requires Valid(t) && IsFileId(t.files, id)
    ensures Valid(UpdateTags(t, id, kv, unset, now))
  {
    var t' := UpdateTags(t, id, kv, unset, now);
    forall fk | fk in t'.overrides ensures IsFileId(t'.files, fk.0) {
      if fk !in t.overrides {
        assert fk.0 == id;
      }
    }
  }

  lemma CatalogTargetView(t: Tables, key: string, target: Option<(Dims, string)>, stat: Stat, read: ReadResult)
    requires Valid(t)
    ensures Valid(CatalogTarget(t, key, target, stat, read).0)
    ensures KeepsTags(t, CatalogTarget(t, key, target, stat, read).0)
  {
    var t' := CatalogTarget(t, key, target, stat, read).0;
    if target.None? {
      SameTables(t, t');
    } else {
      var (d, eff) := target.value;
      if FileAt(t, d).Some? && FileAt(t, d).value.etag == stat.etag {
        CatalogTargetSkips(t, key, d, eff, stat, read);
        ResolvedView(t, d);
      } else {
        CatalogTargetApplies(t, key, d, eff, stat, read);
        ApplyExtractView(t, Extract(key, stat, d, eff, if read.Vanished? then Unreadable("missing") else read));
      }
    }
  }

  lemma SweepKeepsTags(t: Tables, gone: set<Composite>)
    requires FileIdsUnique(t.files)
    ensures KeepsTags(t, Sweep(t, gone))
  {
    forall d ensures KeepsTagsAt(t, Sweep(t, gone), d) {
      SweepView(t, gone, d);
    }
  }

  /** Every event keeps the tables' invariant, and every event but a tag edit keeps the id and
      the user tags of a surviving row and gives a new row none. */
  lemma StepValid(t: Tables, ev: Event)
    requires Valid(t) && Enabled(t, ev)
    ensures Valid(Step(t, ev)) && (!ev.Edit? ==> KeepsTags(t, Step(t, ev)))
  {
    match ev
    case ResolveNames(d) =>
      ResolvedView(t, d);
    case Catalog(key, target, stat, read) =>
      if stat.Some? {
        CatalogTargetView(t, key, target, stat.value, read);
      }
    case Delete(key) =>
      DeleteParsedValid(t, key, ParseHiveKey(key));
      DeleteParsedKeepsTags(t, key, ParseHiveKey(key));
    case Unparseable(key) =>
      SameTables(t, Step(t, ev));
    case Apply(ex) =>
      ApplyExtractView(t, ex);
    case Remove(gone) =>
      SweepValid(t, gone);
      SweepKeepsTags(t, gone);
    case Stamp(tally, now) =>
      SameTables(t, Step(t, ev));
    case Edit(id, kv, unset, now) =>
      UpdateTagsValid(t, id, kv, unset, now);
  }

  /** The invariant holds in every state of every run. */
  lemma {:induction false} RunValid(trace: seq<Tables>, evs: seq<Event>, i: nat)
    requires IsRun(trace, evs) && Valid(trace[0]) && i < |trace|
    ensures Valid(trace[i])
  {
    if i > 0 {
      RunValid(trace, evs, i - 1);
      StepValid(trace[i - 1], evs[i - 1]);
    }
  }

  // ---- ids and user tags while a row lives ----

  ghost predicate Lives(trace: seq<Tables>, d: Dims, i: nat, j: nat) {
    forall m :: i <= m <= j && m < |trace| ==> RowAt(trace[m], d).Some?
  }

  ghost predicate Mentions(ev: Event, fk: (Id, string)) {
    ev.Edit? && ev.id == fk.0 && (fk.1 in ev.kv || fk.1 in ev.unset)
  }

  lemma OverrideFromTags(t: Tables, t': Tables, id: Id, k: string)
    requires TagsOf(t'.overrides, id) == TagsOf(t.overrides, id)
    ensures OverrideAt(t', (id, k)) == OverrideAt(t, (id, k))
  {
    var a, b := TagsOf(t.overrides, id), TagsOf(t'.overrides, id);
    assert (id, k) in t.overrides <==> k in a;
    assert (id, k) in t'.overrides <==> k in b;
    if k in a {
      assert a[k] == t.overrides[(id, k)] && b[k] == t'.overrides[(id, k)];
    }
  }

  lemma StepKeepsOverride(t: Tables, ev: Event, d: Dims, k: string)
    requires Valid(t) && Enabled(t, ev) && RowAt(t, d).Some? && RowAt(Step(t, ev), d).Some?
    requires !Mentions(ev, (RowAt(t, d).value.id, k))
    ensures RowAt(Step(t, ev), d).value.id == RowAt(t, d).value.id
    ensures OverrideAt(Step(t, ev), (RowAt(t, d).value.id, k)) == OverrideAt(t, (RowAt(t, d).value.id, k))
  {
    StepValid(t, ev);
    var id := RowAt(t, d).value.id;
    if ev.Edit? {
      EditedAt(t, ev.id, ev.kv, ev.unset, ev.now, (id, k));
    } else {
      assert TagsOf(Step(t, ev).overrides, id) == TagsOf(t.overrides, id);
      OverrideFromTags(t, Step(t, ev), id, k);
    }
  }

  /** The id of an identity's row, and the override row at one of its keys. */
  ghost predicate SameTag(t: Tables, t': Tables, d: Dims, k: string) {
    RowAt(t, d).Some? && RowAt(t', d).Some? ==>
      var id := RowAt(t, d).value.id;
      RowAt(t', d).value.id == id && OverrideAt(t', (id, k)) == OverrideAt(t, (id, k))
  }

  lemma {:induction false} SameTagChain(trace: seq<Tables>, d: Dims, k: string, i: nat, j: nat)
    requires i <= j < |trace| && Lives(trace, d, i, j)
    requires forall m :: i <= m < j ==> SameTag(trace[m], trace[m + 1], d, k)
    ensures SameTag(trace[i], trace[j], d, k)
    decreases j
  {
    if i < j {
      SameTagChain(trace, d, k, i, j - 1);
      assert SameTag(trace[j - 1], trace[j - 1 + 1], d, k);
    }
  }

  lemma RunStepKeepsTag(trace: seq<Tables>, evs: seq<Event>, d: Dims, k: string, m: nat)
    requires IsRun(trace, evs) && Valid(trace[0]) && m < |evs|
    requires RowAt(trace[m], d).Some? ==> !Mentions(evs[m], (RowAt(trace[m], d).value.id, k))
    ensures SameTag(trace[m], trace[m + 1], d, k)
  {
    RunValid(trace, evs, m);
    if RowAt(trace[m], d).Some? && RowAt(trace[m + 1], d).Some? {
      StepKeepsOverride(trace[m], evs[m], d, k);
    }
  }

  ghost predicate SameId(t: Tables, t': Tables, d: Dims) {
    RowAt(t, d).Some? && RowAt(t', d).Some? ==> RowAt(t', d).value.id == RowAt(t, d).value.id
  }

  lemma StepKeepsId(t: Tables, ev: Event, d: Dims)
    requires Valid(t) && Enabled(t, ev)
    ensures SameId(t, Step(t, ev), d)
    ensures RowAt(t, d).None? && RowAt(Step(t, ev), d).Some? ==>
        TagsOf(Step(t, ev).overrides, RowAt(Step(t, ev), d).value.id) == map[]
  {
    if ev.Edit? {
      assert RowAt(Step(t, ev), d) == RowAt(t, d);
    } else {
      StepValid(t, ev);
      KeptTagsKeepId(t, Step(t, ev), d);
    }
  }

  lemma KeptTagsKeepId(t: Tables, t': Tables, d: Dims)
    requires KeepsTags(t, t')
    ensures SameId(t, t', d)
    ensures RowAt(t, d).None? && RowAt(t', d).Some? ==> TagsOf(t'.overrides, RowAt(t', d).value.id) == map[]
  {
  }

  lemma RunStepKeepsId(trace: seq<Tables>, evs: seq<Event>, d: Dims, m: nat)
    requires IsRun(trace, evs) && Valid(trace[0]) && m < |evs|
    ensures SameId(trace[m], trace[m + 1], d)
    ensures RowAt(trace[m], d).None? && RowAt(trace[m + 1], d).Some? ==>
        TagsOf(trace[m + 1].overrides, RowAt(trace[m + 1], d).value.id) == map[]
  {
    RunValid(trace, evs, m);
    StepKeepsId(trace[m], evs[m], d);
  }

  lemma {:induction false} SameIdChain(trace: seq<Tables>, d: Dims, i: nat, j: nat)
    requires i <= j < |trace| && Lives(trace, d, i, j)
    requires forall m :: i <= m < j ==> SameId(trace[m], trace[m + 1], d)
    ensures SameId(trace[i], trace[j], d)
    decreases j
  {
    if i < j {
      SameIdChain(trace, d, i, j - 1);
      assert SameId(trace[j - 1], trace[j - 1 + 1], d);
    }
  }

  /** A file keeps its id from insert to delete, through every kind of event, and a new row,
      whose id may be a reused one, starts with no user tags of a deleted file. */
  lemma IdConstant(trace: seq<Tables>, evs: seq<Event>, d: Dims, i: nat, j: nat)
    requires IsRun(trace, evs) && Valid(trace[0]) && i <= j < |trace| && Lives(trace, d, i, j)
    ensures RowAt(trace[j], d).value.id == RowAt(trace[i], d).value.id
    ensures i > 0 && RowAt(trace[i - 1], d).None? ==>
        TagsOf(trace[i].overrides, RowAt(trace[i], d).value.id) == map[]
  {
    forall m | i <= m < j ensures SameId(trace[m], trace[m + 1], d) {
      RunStepKeepsId(trace, evs, d, m);
    }
    SameIdChain(trace, d, i, j);
    if i > 0 {
      RunStepKeepsId(trace, evs, d, i - 1);
    }
  }

  /** A living file's user tag at k stays as it is until an edit of that file mentions k. */
  lemma OverrideSurvives(trace: seq<Tables>, evs: seq<Event>, d: Dims, k: string, i: nat, j: nat)
    requires IsRun(trace, evs) && Valid(trace[0]) && i <= j < |trace| && Lives(trace, d, i, j)
    requires forall m :: i <= m < j ==> !Mentions(evs[m], (RowAt(trace[i], d).value.id, k))
    ensures SameTag(trace[i], trace[j], d, k)
  {
    forall m | i <= m < j ensures SameTag(trace[m], trace[m + 1], d, k) {
      IdConstant(trace, evs, d, i, m);
      RunStepKeepsTag(trace, evs, d, k, m);
    }
    SameTagChain(trace, d, k, i, j);
  }

  /** What one edit leaves in the override layer at a key it mentions. */
  lemma RunEdit(trace: seq<Tables>, evs: seq<Event>, fk: (Id, string), i: nat)
    requires IsRun(trace, evs) && i < |evs| && Mentions(evs[i], fk)
    ensures fk.1 in evs[i].kv && fk.1 !in evs[i].unset ==>
        OverrideAt(trace[i + 1], fk) == Some(Override(Some(evs[i].kv[fk.1]), evs[i].now))
    ensures fk.1 in evs[i].unset && fk in trace[i].embedded ==>
        OverrideAt(trace[i + 1], fk) == Some(Override(None, evs[i].now))
  {
    EditedAt(trace[i], evs[i].id, evs[i].kv, evs[i].unset, evs[i].now, fk);
  }

  /** A key last set by an edit shows that value as an override, and a key last unset while it
      had an embedded tag stays hidden, whatever is re-catalogued since, while the row lives. */
  lemma LastEditWins(trace: seq<Tables>, evs: seq<Event>, d: Dims, k: string, i: nat, j: nat)
    requires IsRun(trace, evs) && Valid(trace[0]) && i < j < |trace| && Lives(trace, d, i, j)
    requires Mentions(evs[i], (RowAt(trace[i], d).value.id, k))
    requires forall m :: i < m < j ==> !Mentions(evs[m], (RowAt(trace[i], d).value.id, k))
    ensures RowAt(trace[j], d).value.id == RowAt(trace[i], d).value.id
    ensures k in evs[i].kv && k !in evs[i].unset ==>
        EffectiveAt(trace[j], (RowAt(trace[j], d).value.id, k)) == Some((evs[i].kv[k], true))
    ensures k in evs[i].unset && (RowAt(trace[i], d).value.id, k) in trace[i].embedded ==>
        EffectiveAt(trace[j], (RowAt(trace[j], d).value.id, k)) == None
  {
    var fk := (RowAt(trace[i], d).value.id, k);
    IdConstant(trace, evs, d, i, j);
    IdConstant(trace, evs, d, i, i + 1);
    RunEdit(trace, evs, fk, i);
    OverrideSurvives(trace, evs, d, k, i + 1, j);
    OverrideShown(trace[j], fk);
  }

  /** An override row alone decides what the view shows. */
  lemma OverrideShown(t: Tables, fk: (Id, string))
    ensures OverrideAt(t, fk).Some? ==>
        var v := OverrideAt(t, fk).value.value;
        EffectiveAt(t, fk) == if v.Some? then Some((v.value, true)) else None
  {
  }

  // ---- rows and failures exclude each other ----

  /** Events of an object store whose keys have no leading slash and carry no in-file key. */
  ghost predicate StoreEvent(ev: Event) {
    match ev
    case Catalog(key, target, stat, read) => Unslashed(key) && target == ResolveKeyDims(key, None)
    case Unparseable(key) => Unslashed(key) && ResolveKeyDims(key, None) == None
    case Apply(ex) => Unslashed(ex.key) && ResolveKeyDims(ex.key, None) == Some((ex.dims, ex.eff))
    case _ => true
  }

  /** No canonical key is both the identity of a row and a failure key. */
  ghost predicate Exclusive(t: Tables) {
    forall d :: FileAt(t, d).Some? ==> WellFormed(d) && RebuildHiveKey(d) !in t.failures
  }

  /** One extract keeps the exclusion if and only if it fails, or its effective key is canonical,
      or its canonical key had no failure record. */
  lemma ApplyExclusiveExact(t: Tables, ex: Extract)
    requires Valid(t) && Exclusive(t) && WellFormed(ex.dims) && LStrip(ex.eff) == RebuildHiveKey(ex.dims)
    ensures Exclusive(ApplyExtract(t, ex).0) <==>
        !HealthyRead(ex.stat, ex.read) || ex.eff == RebuildHiveKey(ex.dims)
        || RebuildHiveKey(ex.dims) !in t.failures
  {
    ApplyExtractView(t, ex);
    ExclusiveExact(t, ApplyExtract(t, ex).0, ex.dims, ex.eff, ex.stat, ex.read);
  }

  lemma ExclusiveExact(t: Tables, t': Tables, d: Dims, eff: string, stat: Stat, read: ReadResult)
    requires Exclusive(t) && WellFormed(d) && LStrip(eff) == RebuildHiveKey(d) && OnlyAt(t, t', d)
    requires FileAt(t', d) == (if read.Vanished? then FileAt(t, d) else Published(stat, read))
    requires t'.failures == (if read.Vanished? then t.failures else FailuresAfter(t.failures, eff, stat, read))
    ensures Exclusive(t') <==>
        !HealthyRead(stat, read) || eff == RebuildHiveKey(d) || RebuildHiveKey(d) !in t.failures
  {
    var key := RebuildHiveKey(d);
    if !HealthyRead(stat, read) || eff == key || key !in t.failures {
      forall e | FileAt(t', e).Some? && e != d ensures WellFormed(e) && RebuildHiveKey(e) !in t'.failures {
        assert FileAt(t, e).Some?;
        OtherKey(d, e, eff);
      }
    } else {
      assert FileAt(t', d).Some? && key in t'.failures;
    }
  }

  /** No other identity has this key as its canonical one. */
  lemma OtherKey(d: Dims, e: Dims, eff: string)
    requires WellFormed(d) && WellFormed(e) && e != d && LStrip(eff) == RebuildHiveKey(d)
    ensures RebuildHiveKey(e) != eff
  {
    CanonicalKeyUnslashed(e);
    if RebuildHiveKey(e) == eff {
      RebuildInjective(e, d);
    }
  }

  /** The two slash spellings of one file break it: a failure under the plain key, then a
      success under the slashed one, leaves the row beside the failure. */
  lemma LeadingSlashBreaksExclusion(d: Dims, stat: Stat, s: FileSummary)
    requires WellFormed(d) && Healthy(stat, s)
    ensures var bad := Extract("", stat, d, RebuildHiveKey(d), Unreadable("truncated"));
      var good := Extract("", stat, d, "/" + RebuildHiveKey(d), Ready(s));
      !Exclusive(ApplyExtract(ApplyExtract(EMPTY, bad).0, good).0)
  {
    var bad := Extract("", stat, d, RebuildHiveKey(d), Unreadable("truncated"));
    var good := Extract("", stat, d, "/" + RebuildHiveKey(d), Ready(s));
    EmptyValid();
    CanonicalKeyUnslashed(d);
    ApplyExtractView(EMPTY, bad);
    var t := ApplyExtract(EMPTY, bad).0;
    ApplyExclusiveExact(EMPTY, bad);
    assert ("/" + RebuildHiveKey(d))[0] == '/';
    assert ("/" + RebuildHiveKey(d))[1..] == RebuildHiveKey(d);
    ApplyExclusiveExact(t, good);
  }

  lemma UnparseableExclusive(t: Tables, key: string)
    requires Exclusive(t) && Unslashed(key) && ResolveKeyDims(key, None) == None
    ensures Exclusive(RecordFailure(t, key, UnparseableKey))
  {
    var t' := RecordFailure(t, key, UnparseableKey);
    SameTables(t, t');
    forall d | FileAt(t', d).Some? ensures FileAt(t, d).Some? && RebuildHiveKey(d) !in t'.failures {
      if RebuildHiveKey(d) == key {
        CanonicalKeyUnslashed(d);
        ResolveExact(key, None, d, key);
      }
    }
  }

  lemma CatalogExclusive(t: Tables, key: string, target: Option<(Dims, string)>, stat: Stat, read: ReadResult)
    requires Valid(t) && Exclusive(t) && Unslashed(key) && target == ResolveKeyDims(key, None)
    ensures Exclusive(CatalogTarget(t, key, target, stat, read).0)
  {
    if target.None? {
      UnparseableExclusive(t, key);
    } else {
      var (d, eff) := target.value;
      KeyOfIdentity(key, d, eff);
      CatalogResolvedExclusive(t, key, d, eff, stat, read);
    }
  }

  lemma CatalogResolvedExclusive(t: Tables, key: string, d: Dims, eff: string, stat: Stat, read: ReadResult)
    requires Valid(t) && Exclusive(t) && WellFormed(d) && eff == RebuildHiveKey(d)
    ensures Exclusive(CatalogTarget(t, key, Some((d, eff)), stat, read).0)
  {
    if FileAt(t, d).Some? && FileAt(t, d).value.etag == stat.etag {
      CatalogTargetSkips(t, key, d, eff, stat, read);
      ResolvedView(t, d);
    } else {
      CatalogTargetApplies(t, key, d, eff, stat, read);
      CanonicalKeyUnslashed(d);
      ApplyExclusiveExact(t, Extract(key, stat, d, eff, if read.Vanished? then Unreadable("missing") else read));
    }
  }

  lemma DeleteExclusive(t: Tables, key: string, parsed: Option<Dims>)
    requires Valid(t) && Exclusive(t)
    ensures Exclusive(DeleteParsed(t, key, parsed).0)
  {
    DeleteParsedFailures(t, key, parsed);
    forall d ensures FileAt(DeleteParsed(t, key, parsed).0, d).Some? ==> FileAt(t, d).Some? {
      DeleteParsedView(t, key, parsed, d);
    }
  }

  lemma RemoveExclusive(t: Tables, gone: set<Composite>)
    requires Valid(t) && Exclusive(t)
    ensures Exclusive(Sweep(t, gone))
  {
    forall d ensures FileAt(Sweep(t, gone), d).Some? ==> FileAt(t, d).Some? {
      SweepView(t, gone, d);
    }
  }

  lemma EditExclusive(t: Tables, id: Id, kv: map<string, string>, unset: set<string>, now: int)
    requires Exclusive(t)
    ensures Exclusive(UpdateTags(t, id, kv, unset, now))
  {
    forall d ensures FileAt(UpdateTags(t, id, kv, unset, now), d) == FileAt(t, d) {
    }
  }

  lemma StampExclusive(t: Tables, tally: Tally, now: int)
    requires Exclusive(t)
    ensures Exclusive(RecordBuild(t, tally, now))
  {
    SameTables(t, RecordBuild(t, tally, now));
  }

  lemma ExtractExclusive(t: Tables, ex: Extract)
    requires Valid(t) && Exclusive(t) && Unslashed(ex.key) && ResolveKeyDims(ex.key, None) == Some((ex.dims, ex.eff))
    ensures Exclusive(ApplyExtract(t, ex).0)
  {
    KeyOfIdentity(ex.key, ex.dims, ex.eff);
    CanonicalKeyUnslashed(ex.dims);
    ApplyExclusiveExact(t, ex);
  }

  lemma NamesExclusive(t: Tables, d: Dims)
    requires Valid(t) && Exclusive(t)
    ensures Exclusive(t.(dict := ResolveDims(t.dict, d)))
  {
    ResolvedView(t, d);
  }

  lemma StepExclusive(t: Tables, ev: Event)
    requires Valid(t) && Exclusive(t) && Enabled(t, ev) && StoreEvent(ev)
    ensures Exclusive(Step(t, ev))
  {
    match ev
    case ResolveNames(d) => NamesExclusive(t, d);
    case Catalog(key, target, stat, read) =>
      if stat.Some? {
        CatalogExclusive(t, key, target, stat.value, read);
      }
    case Delete(key) => DeleteExclusive(t, key, ParseHiveKey(key));
    case Unparseable(key) => UnparseableExclusive(t, key);
    case Apply(ex) => ExtractExclusive(t, ex);
    case Remove(gone) => RemoveExclusive(t, gone);
    case Stamp(tally, now) => StampExclusive(t, tally, now);
    case Edit(id, kv, unset, now) => EditExclusive(t, id, kv, unset, now);
  }

  /** Over every run, in every state, no file is both catalogued and failed. */
  lemma {:induction false} RunExclusive(trace: seq<Tables>, evs: seq<Event>, i: nat)
    requires IsRun(trace, evs) && Valid(trace[0]) && Exclusive(trace[0]) && i < |trace|
    requires forall m :: 0 <= m < |evs| ==> StoreEvent(evs[m])
    ensures Exclusive(trace[i])
  {
    if i > 0 {
      RunExclusive(trace, evs, i - 1);
      RunValid(trace, evs, i - 1);
      StepExclusive(trace[i - 1], evs[i - 1]);
    }
  }
}
