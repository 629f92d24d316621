/** tag_ipc.handle_tag_edit: what the writer thread does with one queued tag edit. */
module TagEdits {
  import opened Common
  import opened IdTables
  import opened KeyParse
  import opened Schema
  import opened Tags
  import opened Identity
  import opened Catalog
  import opened KeyOrder

  datatype Status = Pending | Done(tags: seq<TagRow>) | NotFound | Expired | Error

  /** Where an exception strikes, if one does: before the edit's commit, where the transaction
      is undone, or while its result is read back. */
  datatype Fault = NoFault | BeforeCommit | AfterCommit

  class TagEditItem {
    const dims: Dims
    const setTags: map<string, string>
    const unset: seq<string>
    const deadline: int
    var status: Status
    var signals: nat

    constructor (dims: Dims, setTags: map<string, string>, unset: seq<string>, deadline: int)
      ensures this.dims == dims && this.setTags == setTags && this.unset == unset && this.deadline == deadline
      ensures status == Pending && signals == 0
    {
      this.dims, this.setTags, this.unset, this.deadline := dims, setTags, unset, deadline;
      status, signals := Pending, 0;
    }
  }

  ghost predicate Shows(t: Tables, id: Id, tags: map<string, (string, bool)>) {
    forall k :: EffectiveAt(t, (id, k)) == if k in tags then Some(tags[k]) else None
  }

  /** The rows of tags_effective for one file, in ascending key order and each key once. */
  ghost predicate IsEffective(t: Tables, id: Id, rows: seq<TagRow>) {
    Ascending(rows) && Shows(t, id, ByKey(rows))
  }

  /** The SELECT on the view: its two parts, one after the other, ordered by key. */
  method ReadEffective(t: Tables, id: Id) returns (rows: seq<TagRow>)
    ensures IsEffective(t, id, rows)
  {
    rows := [];
    var todo := t.overrides.Keys;
    while todo != {}
      invariant todo <= t.overrides.Keys && Ascending(rows)
      invariant forall k :: k in ByKey(rows) <==> ShownOverride(t, (id, k)) && (id, k) !in todo
      invariant forall k :: k in ByKey(rows) ==> EffectiveAt(t, (id, k)) == Some(ByKey(rows)[k])
      decreases |todo|
    {
      var fk :| fk in todo;
      assert fk == (fk.0, fk.1);
      if fk.0 == id && t.overrides[fk].value.Some? {
        var row := TagRow(fk.1, t.overrides[fk].value.value, true);
        InsertExact(rows, row);
        rows := Insert(rows, row);
      }
      todo := todo - {fk};
    }
    todo := t.embedded.Keys;
    while todo != {}
      invariant todo <= t.embedded.Keys && Ascending(rows)
      invariant forall k :: k in ByKey(rows) <==>
        ShownOverride(t, (id, k)) || (ShownEmbedded(t, (id, k)) && (id, k) !in todo)
      invariant forall k :: k in ByKey(rows) ==> EffectiveAt(t, (id, k)) == Some(ByKey(rows)[k])
      decreases |todo|
    {
      var fk :| fk in todo;
      assert fk == (fk.0, fk.1);
      if fk.0 == id && fk !in t.overrides {
        var row := TagRow(fk.1, t.embedded[fk], false);
        InsertExact(rows, row);
        rows := Insert(rows, row);
      }
      todo := todo - {fk};
    }
  }

  /** What the item ends up saying, and whether the tables were edited. `clock` is the monotonic
      clock at the deadline check, `now` the wall clock that stamps the rows. */
  ghost predicate Handled(t: Tables, t': Tables, item: TagEditItem, clock: int, now: int, fault: Fault)
    reads item
  {
    var id := FileIdOf(t, item.dims);
    if clock > item.deadline then item.status == Expired && t' == t
    else if id.None? then item.status == NotFound && t' == t
    else if fault.BeforeCommit? then item.status == Error && t' == t
    else
      t' == UpdateTags(t, id.value, item.setTags, Elements(item.unset), now)
      && if fault.AfterCommit? then item.status == Error
         else item.status.Done? && IsEffective(t', id.value, item.status.tags)
  }

  /** The event is set exactly once on every path; the tables change only when the deadline had
      not passed, the file exists and nothing failed before the commit. */
  method HandleTagEdit(conn: Connection, item: TagEditItem, clock: int, now: int, fault: Fault)
    requires conn.Quiet() && Valid(conn.db)
    modifies conn, item
    ensures conn.Quiet() && Handled(old(conn.db), conn.db, item, clock, now, fault)
    ensures item.status != Pending && item.signals == old(item.signals) + 1
  {
    if clock > item.deadline {
      item.status := Expired;
    } else {
      var id := LookupFileId(conn.db, item.dims);
      if id.None? {
        item.status := NotFound;
      } else if fault.BeforeCommit? {
        item.status := Error;
      } else {
        FileIdExists(conn.db, item.dims);
        var ok := conn.UpdateFileTags(id.value, item.setTags, item.unset, now);
        if fault.AfterCommit? {
          item.status := Error;
        } else {
          var tags := ReadEffective(conn.db, id.value);
          item.status := Done(tags);
        }
      }
    }
    item.signals := item.signals + 1;
  }

  lemma FileIdExists(t: Tables, d: Dims)
    requires FileIdOf(t, d).Some?
    ensures IsFileId(t.files, FileIdOf(t, d).value)
  {
    var c := Lookup(t.dict, d).value;
    assert c in t.files;
  }

  /** The tags a successful edit reports are the file's old effective tags, with the set tags
      added as overrides and the unset keys gone. */
  lemma ReportedTags(t: Tables, id: Id, kv: map<string, string>, unset: set<string>, now: int,
                     before: seq<TagRow>, after: seq<TagRow>)
    requires IsEffective(t, id, before) && IsEffective(UpdateTags(t, id, kv, unset, now), id, after)
    ensures ByKey(after) == (ByKey(before) + map k | k in kv :: (kv[k], true)) - unset
  {
    ShownAfterEdit(t, id, kv, unset, now, ByKey(before), ByKey(after));
  }

  lemma ShownAfterEdit(t: Tables, id: Id, kv: map<string, string>, unset: set<string>, now: int,
                       before: map<string, (string, bool)>, after: map<string, (string, bool)>)
    requires Shows(t, id, before) && Shows(UpdateTags(t, id, kv, unset, now), id, after)
    ensures after == (before + map k | k in kv :: (kv[k], true)) - unset
  {
    var t' := UpdateTags(t, id, kv, unset, now);
    var wanted := (before + map k | k in kv :: (kv[k], true)) - unset;
    forall k ensures k in after <==> k in wanted
      ensures k in after ==> after[k] == wanted[k]
    {
      EditExact(t, id, kv, unset, now, (id, k));
      assert EffectiveAt(t', (id, k)) == if k in after then Some(after[k]) else None;
      assert EffectiveAt(t, (id, k)) == if k in before then Some(before[k]) else None;
    }
  }
}
