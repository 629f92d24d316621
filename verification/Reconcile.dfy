/** reconcile.full_reconcile as a function of the tables, the scan and the order in which
    summaries complete. */
module Reconcile {
  import opened Common
  import opened IdTables
  import opened KeyParse
  import opened Summary
  import opened Schema
  import opened Store

  /** One listed object with everything the scan learns about it: the listing's fingerprint,
      the single result of resolve_key_dims, and what the read phase gets. */
  datatype Seen = Seen(key: string, stat: Stat, target: Option<(Dims, string)>, read: ReadResult)

  datatype Tally = Tally(cataloged: nat, skipped: nat, failed: nat, deleted: nat)

  /** The classification's skip: the identity is catalogued under the listed etag. */
  predicate Unchanged(t: Tables, d: Dims, etag: string) {
    var c := Lookup(t.dict, d);
    c.Some? && c.value in t.files && t.files[c.value].etag == etag
  }

  function RecordUnparseable(t: Tables, seen: seq<Seen>): Tables {
    if seen == [] then t
    else
      var t1, s := RecordUnparseable(t, seen[..|seen| - 1]), seen[|seen| - 1];
      if s.target.None? then RecordFailure(t1, s.key, UnparseableKey) else t1
  }

  /** Classification of one listing: an extract to read, or nothing to do. */
  function Classify(t: Tables, s: Seen): Option<Extract> {
    if s.target.None? || Unchanged(t, s.target.value.0, s.stat.etag) then None
    else Some(Extract(s.key, s.stat, s.target.value.0, s.target.value.1, s.read))
  }

  function ToExtract(t: Tables, seen: seq<Seen>): seq<Extract> {
    if seen == [] then []
    else
      var init, ex := ToExtract(t, seen[..|seen| - 1]), Classify(t, seen[|seen| - 1]);
      if ex.Some? then init + [ex.value] else init
  }

  function ApplyAll(t: Tables, order: seq<Extract>): Tables {
    if order == [] then t
    else ApplyExtract(ApplyAll(t, order[..|order| - 1]), order[|order| - 1]).0
  }

  function CountHealthy(order: seq<Extract>): nat {
    if order == [] then 0
    else
      var last := order[|order| - 1];
      CountHealthy(order[..|order| - 1]) + (if HealthyRead(last.stat, last.read) then 1 else 0)
  }

  function CountUnparseable(seen: seq<Seen>): nat {
    if seen == [] then 0
    else CountUnparseable(seen[..|seen| - 1]) + (if seen[|seen| - 1].target.None? then 1 else 0)
  }

  function PresentOf(dict: Dict, r: Option<(Dims, string)>): set<Composite> {
    if r.Some? && Lookup(dict, r.value.0).Some? then {Lookup(dict, r.value.0).value} else {}
  }

  /** The id tuples of the identities that were listed. */
  function Present(dict: Dict, seen: seq<Seen>): set<Composite> {
    if seen == [] then {}
    else Present(dict, seen[..|seen| - 1]) + PresentOf(dict, seen[|seen| - 1].target)
  }

  function IdsOf(files: map<Composite, FileRow>, cs: set<Composite>): set<Id> {
    set c | c in cs && c in files :: files[c].id
  }

  function DropAll<V>(m: map<(Id, string), V>, ids: set<Id>): map<(Id, string), V> {
    map fk | fk in m && fk.0 !in ids :: m[fk]
  }

  /** Deleting a set of rows, with the cascade to both tag layers. */
  function Sweep(t: Tables, gone: set<Composite>): Tables {
    var ids := IdsOf(t.files, gone);
    t.(files := t.files - gone, embedded := DropAll(t.embedded, ids), overrides := DropAll(t.overrides, ids))
  }

  function Gone(t: Tables, seen: seq<Seen>): set<Composite> {
    t.files.Keys - Present(t.dict, seen)
  }

  function RecordBuild(t: Tables, tally: Tally, now: int): Tables {
    var id := if t.build.Some? then t.build.value.buildId + 1 else 1;
    t.(build := Some(Build(id, now, tally.cataloged + tally.skipped, tally.failed,
                           if tally.failed > 0 then "partial" else "ok")))
  }

  /** The tables after the apply phase. */
  function Applied(t: Tables, seen: seq<Seen>, order: seq<Extract>): Tables {
    ApplyAll(RecordUnparseable(t, seen), order)
  }

  function TallyOf(t: Tables, seen: seq<Seen>, order: seq<Extract>): Tally
    requires |order| <= |seen| - CountUnparseable(seen) && CountHealthy(order) <= |order|
  {
    Tally(CountHealthy(order), |seen| - CountUnparseable(seen) - |order|,
          CountUnparseable(seen) + |order| - CountHealthy(order), |Gone(Applied(t, seen, order), seen)|)
  }

  /** Everything full_reconcile leaves, up to the build stamp. */
  function Swept(t: Tables, seen: seq<Seen>, order: seq<Extract>): Tables {
    var t2 := Applied(t, seen, order);
    Sweep(t2, Gone(t2, seen))
  }

  ghost predicate Permutes(t: Tables, seen: seq<Seen>, order: seq<Extract>) {
    multiset(order) == multiset(ToExtract(t, seen))
  }

  lemma {:induction false} CountsFit(t: Tables, seen: seq<Seen>)
    ensures CountUnparseable(seen) + |ToExtract(t, seen)| <= |seen|
  {
    if seen != [] {
      CountsFit(t, seen[..|seen| - 1]);
    }
  }

  lemma {:induction false} HealthyFit(order: seq<Extract>)
    ensures CountHealthy(order) <= |order|
  {
    if order != [] {
      HealthyFit(order[..|order| - 1]);
    }
  }

  lemma PermutationFits(t: Tables, seen: seq<Seen>, order: seq<Extract>)
    requires Permutes(t, seen, order)
    ensures |order| == |ToExtract(t, seen)|
    ensures |order| <= |seen| - CountUnparseable(seen) && CountHealthy(order) <= |order|
  {
    CountsFit(t, seen);
    HealthyFit(order);
    assert |multiset(order)| == |order| && |multiset(ToExtract(t, seen))| == |ToExtract(t, seen)|;
  }
}
