/** What a reconcile leaves at every identity, for any completion order. */
module ReconcileProofs {
  import opened Common
  import opened IdTables
  import opened KeyParse
  import opened Summary
  import opened Schema
  import opened Store
  import opened OperationProofs
  import opened Reconcile

  ghost predicate SeenAt(s: Seen, d: Dims) {
    s.target.Some? && s.target.value.0 == d
  }

  ghost predicate DistinctIdentities(seen: seq<Seen>) {
    forall i, j, d :: 0 <= i < j < |seen| && SeenAt(seen[i], d) ==> !SeenAt(seen[j], d)
  }

  ghost predicate DistinctDims(order: seq<Extract>) {
    forall i, j :: 0 <= i < j < |order| ==> order[i].dims != order[j].dims
  }

  ghost predicate Touches(order: seq<Extract>, d: Dims) {
    exists ex :: ex in order && ex.dims == d
  }

  /** What one extract leaves at its own identity. */
  ghost function Outcome(ex: Extract, before: Option<FileView>): Option<FileView> {
    if ex.read.Vanished? then before else Published(ex.stat, ex.read)
  }

  ghost predicate KeepsTagsAt(t: Tables, t': Tables, d: Dims) {
    RowAt(t', d).Some? ==>
      var id := RowAt(t', d).value.id;
      if RowAt(t, d).Some?
      then RowAt(t, d).value.id == id && TagsOf(t'.overrides, id) == TagsOf(t.overrides, id)
      else TagsOf(t'.overrides, id) == map[]
  }

  /** Distinct identities do not interfere: each shows its own extract's outcome, and all
      others are as before. */
  lemma {:induction false} ApplyAllView(t: Tables, order: seq<Extract>, d: Dims)
    requires Valid(t) && DistinctDims(order)
    ensures Valid(ApplyAll(t, order)) && KeepsTagsAt(t, ApplyAll(t, order), d)
    ensures forall ex :: ex in order && ex.dims == d ==>
        FileAt(ApplyAll(t, order), d) == Outcome(ex, FileAt(t, d))
    ensures !Touches(order, d) ==>
        RowAt(ApplyAll(t, order), d) == RowAt(t, d) && FileAt(ApplyAll(t, order), d) == FileAt(t, d)
  {
    if order != [] {
      var init, last := order[..|order| - 1], order[|order| - 1];
      ApplyAllView(t, init, d);
      var t1 := ApplyAll(t, init);
      assert order == init + [last];
      ApplyExtractView(t1, last);
      assert KeepsTagsAt(t1, ApplyExtract(t1, last).0, d);
      if last.dims == d {
        assert !Touches(init, d);
      } else {
        assert Touches(order, d) ==> Touches(init, d);
      }
    }
  }

  lemma {:induction false} ApplyAllValid(t: Tables, order: seq<Extract>)
    requires Valid(t)
    ensures Valid(ApplyAll(t, order))
  {
    if order != [] {
      ApplyAllValid(t, order[..|order| - 1]);
      ApplyExtractView(ApplyAll(t, order[..|order| - 1]), order[|order| - 1]);
    }
  }

  lemma {:induction false} RecordUnparseableOnly(t: Tables, seen: seq<Seen>)
    ensures var t' := RecordUnparseable(t, seen); t' == t.(failures := t'.failures)
  {
    if seen != [] {
      RecordUnparseableOnly(t, seen[..|seen| - 1]);
    }
  }

  lemma {:induction false} ToExtractOf(t: Tables, seen: seq<Seen>, ex: Extract)
    ensures ex in ToExtract(t, seen) <==>
        exists i :: 0 <= i < |seen| && Classify(t, seen[i]) == Some(ex)
  {
    if seen != [] {
      var init := seen[..|seen| - 1];
      ToExtractOf(t, init, ex);
      assert forall i :: 0 <= i < |init| ==> init[i] == seen[i];
      if ex in ToExtract(t, seen) && Classify(t, seen[|seen| - 1]) != Some(ex) {
        assert ex in ToExtract(t, init);
        var i :| 0 <= i < |init| && Classify(t, init[i]) == Some(ex);
        assert Classify(t, seen[i]) == Some(ex);
      }
    }
  }

  lemma {:induction false} ToExtractDistinct(t: Tables, seen: seq<Seen>)
    requires DistinctIdentities(seen)
    ensures DistinctDims(ToExtract(t, seen))
  {
    if seen != [] {
      var n := |seen| - 1;
      var init, last := seen[..n], seen[n];
      ToExtractDistinct(t, init);
      var ex := Classify(t, last);
      if ex.Some? {
        forall e | e in ToExtract(t, init) ensures e.dims != ex.value.dims {
          ToExtractOf(t, init, e);
          var i :| 0 <= i < |init| && Classify(t, init[i]) == Some(e);
          assert SeenAt(seen[i], e.dims) && SeenAt(seen[n], ex.value.dims);
        }
      }
    }
  }

  lemma TwiceInMultiset<T>(xs: seq<T>, i: nat, j: nat)
    requires i < j < |xs| && xs[i] == xs[j]
    ensures multiset(xs)[xs[i]] >= 2
  {
    assert xs == xs[..j] + [xs[j]] + xs[j + 1..];
    assert xs[i] in xs[..j];
  }

  lemma {:induction false} OnceInMultiset(order: seq<Extract>, ex: Extract)
    requires DistinctDims(order)
    ensures multiset(order)[ex] <= 1
  {
    if order != [] {
      var init := order[..|order| - 1];
      OnceInMultiset(init, ex);
      assert order == init + [order[|order| - 1]];
    }
  }

  lemma PermutedDistinct(a: seq<Extract>, b: seq<Extract>)
    requires multiset(a) == multiset(b) && DistinctDims(a)
    ensures DistinctDims(b) && forall ex :: ex in a <==> ex in b
  {
    forall ex ensures ex in a <==> ex in b {
      assert ex in a <==> ex in multiset(a);
      assert ex in b <==> ex in multiset(b);
    }
    forall i, j | 0 <= i < j < |b| ensures b[i].dims != b[j].dims {
      assert b[i] in a && b[j] in a;
      if b[i] == b[j] {
        TwiceInMultiset(b, i, j);
        OnceInMultiset(a, b[i]);
      }
    }
  }

  lemma {:induction false} PresentExact(dict: Dict, seen: seq<Seen>, c: Composite)
    ensures c in Present(dict, seen) <==>
        exists i, d :: 0 <= i < |seen| && SeenAt(seen[i], d) && Lookup(dict, d) == Some(c)
  {
    if seen != [] {
      var n := |seen| - 1;
      var init := seen[..n];
      PresentExact(dict, init, c);
      if c in Present(dict, init) {
        var i, d :| 0 <= i < |init| && SeenAt(init[i], d) && Lookup(dict, d) == Some(c);
        assert SeenAt(seen[i], d);
      } else if c in Present(dict, seen) {
        assert SeenAt(seen[n], seen[n].target.value.0);
      }
      if exists i, d :: 0 <= i < |seen| && SeenAt(seen[i], d) && Lookup(dict, d) == Some(c) {
        var i, d :| 0 <= i < |seen| && SeenAt(seen[i], d) && Lookup(dict, d) == Some(c);
        if i < n {
          assert SeenAt(init[i], d);
        }
      }
    }
  }

  lemma SweptTags<V>(files: map<Composite, FileRow>, tags: map<(Id, string), V>, gone: set<Composite>, c: Composite)
    requires FileIdsUnique(files) && c in files && c !in gone
    ensures TagsOf(DropAll(tags, IdsOf(files, gone)), files[c].id) == TagsOf(tags, files[c].id)
  {
    var id := files[c].id;
    assert id !in IdsOf(files, gone);
    forall fk: (Id, string) | fk.0 == id ensures fk in DropAll(tags, IdsOf(files, gone)) <==> fk in tags {
    }
  }

  /** The sweep removes exactly the rows it is given, with their tags. */
  lemma SweepView(t: Tables, gone: set<Composite>, d: Dims)
    requires FileIdsUnique(t.files)
    ensures var t' := Sweep(t, gone); var c := Lookup(t.dict, d);
      if c.Some? && c.value in gone then RowAt(t', d) == None && FileAt(t', d) == None
      else RowAt(t', d) == RowAt(t, d) && FileAt(t', d) == FileAt(t, d) && KeepsTagsAt(t, t', d)
  {
    if RowAt(t, d).Some? && Lookup(t.dict, d).value !in gone {
      SweptTags(t.files, t.embedded, gone, Lookup(t.dict, d).value);
      SweptTags(t.files, t.overrides, gone, Lookup(t.dict, d).value);
    }
  }

  lemma SweepOwned<V>(files: map<Composite, FileRow>, tags: map<(Id, string), V>, gone: set<Composite>)
    requires TagsOwned(files, tags)
    ensures TagsOwned(files - gone, DropAll(tags, IdsOf(files, gone)))
  {
    forall fk | fk in DropAll(tags, IdsOf(files, gone)) ensures IsFileId(files - gone, fk.0) {
      assert IsFileId(files, fk.0);
      var c :| c in files && files[c].id == fk.0;
      assert c !in gone;
      assert c in files - gone;
    }
  }

  lemma SweepValid(t: Tables, gone: set<Composite>)
    requires Valid(t)
    ensures Valid(Sweep(t, gone))
  {
    SweepOwned(t.files, t.embedded, gone);
    SweepOwned(t.files, t.overrides, gone);
  }

  /** What a reconcile must leave for a listed identity, given what was there before. */
  ghost function Expected(t: Tables, s: Seen, d: Dims): Option<FileView> {
    if Unchanged(t, d, s.stat.etag) || s.read.Vanished? then FileAt(t, d) else Published(s.stat, s.read)
  }

  lemma OrderDistinct(t: Tables, seen: seq<Seen>, order: seq<Extract>)
    requires DistinctIdentities(seen) && Permutes(t, seen, order)
    ensures DistinctDims(order) && forall ex :: ex in order <==> ex in ToExtract(t, seen)
  {
    ToExtractDistinct(t, seen);
    PermutedDistinct(ToExtract(t, seen), order);
  }

  lemma AppliedValid(t: Tables, seen: seq<Seen>, order: seq<Extract>, d: Dims)
    requires Valid(t) && DistinctDims(order)
    ensures Valid(Applied(t, seen, order)) && KeepsTagsAt(t, Applied(t, seen, order), d)
  {
    RecordUnparseableOnly(t, seen);
    SameTables(t, RecordUnparseable(t, seen));
    ApplyAllView(RecordUnparseable(t, seen), order, d);
  }

  lemma AppliedView(t: Tables, seen: seq<Seen>, order: seq<Extract>, d: Dims)
    requires Valid(t) && DistinctIdentities(seen) && Permutes(t, seen, order)
    ensures forall i :: 0 <= i < |seen| && SeenAt(seen[i], d) ==>
        FileAt(Applied(t, seen, order), d) == Expected(t, seen[i], d)
    ensures (forall i :: 0 <= i < |seen| ==> !SeenAt(seen[i], d)) ==>
        RowAt(Applied(t, seen, order), d) == RowAt(t, d)
  {
    RecordUnparseableOnly(t, seen);
    var t1 := RecordUnparseable(t, seen);
    SameTables(t, t1);
    OrderDistinct(t, seen, order);
    forall i | 0 <= i < |seen| && SeenAt(seen[i], d)
      ensures FileAt(ApplyAll(t1, order), d) == Expected(t, seen[i], d)
    {
      ListedView(t, t1, seen, order, d, i);
    }
    if forall i :: 0 <= i < |seen| ==> !SeenAt(seen[i], d) {
      UnlistedView(t, t1, seen, order, d);
    }
  }

  lemma ListedView(t: Tables, t1: Tables, seen: seq<Seen>, order: seq<Extract>, d: Dims, i: nat)
    requires Valid(t1) && FileAt(t1, d) == FileAt(t, d) && DistinctIdentities(seen) && DistinctDims(order)
    requires forall ex :: ex in order <==> ex in ToExtract(t, seen)
    requires i < |seen| && SeenAt(seen[i], d)
    ensures FileAt(ApplyAll(t1, order), d) == Expected(t, seen[i], d)
  {
    ApplyAllView(t1, order, d);
    OrderAt(t, seen, order, d, i);
  }

  lemma UnlistedView(t: Tables, t1: Tables, seen: seq<Seen>, order: seq<Extract>, d: Dims)
    requires Valid(t1) && DistinctDims(order)
    requires forall ex :: ex in order <==> ex in ToExtract(t, seen)
    requires forall i :: 0 <= i < |seen| ==> !SeenAt(seen[i], d)
    ensures RowAt(ApplyAll(t1, order), d) == RowAt(t1, d)
  {
    UnlistedUntouched(t, seen, order, d);
    ApplyAllView(t1, order, d);
  }

  lemma UnlistedUntouched(t: Tables, seen: seq<Seen>, order: seq<Extract>, d: Dims)
    requires forall ex :: ex in order <==> ex in ToExtract(t, seen)
    requires forall i :: 0 <= i < |seen| ==> !SeenAt(seen[i], d)
    ensures !Touches(order, d)
  {
    if Touches(order, d) {
      var ex :| ex in order && ex.dims == d;
      ToExtractOf(t, seen, ex);
    }
  }

  /** The one extract of a listed identity is its own classification. */
  lemma OrderAt(t: Tables, seen: seq<Seen>, order: seq<Extract>, d: Dims, i: nat)
    requires DistinctIdentities(seen) && i < |seen| && SeenAt(seen[i], d)
    requires forall ex :: ex in order <==> ex in ToExtract(t, seen)
    ensures Unchanged(t, d, seen[i].stat.etag) ==> !Touches(order, d)
    ensures !Unchanged(t, d, seen[i].stat.etag) ==>
        Extract(seen[i].key, seen[i].stat, d, seen[i].target.value.1, seen[i].read) in order
  {
    if Touches(order, d) {
      var ex :| ex in order && ex.dims == d;
      ToExtractOf(t, seen, ex);
      var j :| 0 <= j < |seen| && Classify(t, seen[j]) == Some(ex);
      assert SeenAt(seen[j], d);
      assert i == j;
    }
    if !Unchanged(t, d, seen[i].stat.etag) {
      ToExtractOf(t, seen, Extract(seen[i].key, seen[i].stat, d, seen[i].target.value.1, seen[i].read));
    }
  }

  /** The reconcile, for every prior catalogue and every completion order: a listed identity
      shows what Expected says, an unlisted one nothing, and surviving rows keep id and tags. */
  lemma ReconcileView(t: Tables, seen: seq<Seen>, order: seq<Extract>, d: Dims)
    requires Valid(t) && DistinctIdentities(seen) && Permutes(t, seen, order)
    ensures Valid(Swept(t, seen, order)) && KeepsTagsAt(t, Swept(t, seen, order), d)
    ensures forall i :: 0 <= i < |seen| && SeenAt(seen[i], d) ==>
        FileAt(Swept(t, seen, order), d) == Expected(t, seen[i], d)
    ensures (forall i :: 0 <= i < |seen| ==> !SeenAt(seen[i], d)) ==>
        RowAt(Swept(t, seen, order), d) == None && FileAt(Swept(t, seen, order), d) == None
  {
    var t2 := Applied(t, seen, order);
    OrderDistinct(t, seen, order);
    AppliedValid(t, seen, order, d);
    AppliedView(t, seen, order, d);
    SweepValid(t2, Gone(t2, seen));
    SweepView(t2, Gone(t2, seen), d);
    if RowAt(t2, d).Some? {
      GoneExact(t2, seen, d);
    }
  }

  /** An identity's row is swept exactly when the identity was not listed. */
  lemma GoneExact(t: Tables, seen: seq<Seen>, d: Dims)
    requires IdsUnique(t.dict) && RowAt(t, d).Some?
    ensures Lookup(t.dict, d).value in Gone(t, seen) <==> forall i :: 0 <= i < |seen| ==> !SeenAt(seen[i], d)
  {
    var c := Lookup(t.dict, d).value;
    PresentExact(t.dict, seen, c);
    if c in Present(t.dict, seen) {
      var i, d' :| 0 <= i < |seen| && SeenAt(seen[i], d') && Lookup(t.dict, d') == Some(c);
      LookupInjective(t.dict, d, d');
    }
  }
}
