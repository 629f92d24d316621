/** db.update_tags and the tags_effective view: two tag layers per file, where a user
    override wins over the embedded tag and a NULL override hides it. */
module Tags {
  import opened Common
  import opened IdTables
  import opened Schema

  /** The override row left at (file, key) by one edit: sets first, then unsets, which mask an
      embedded tag and otherwise delete the row. */
  function Edited(t: Tables, id: Id, kv: map<string, string>, unset: set<string>, now: int,
                  fk: (Id, string)): Option<Override>
  {
    if fk.0 == id && fk.1 in unset then
      if fk in t.embedded then Some(Override(None, now)) else None
    else if fk.0 == id && fk.1 in kv then Some(Override(Some(kv[fk.1]), now))
    else OverrideAt(t, fk)
  }

  /** The override row at (file, key), if there is one. */
  function OverrideAt(t: Tables, fk: (Id, string)): Option<Override> {
    if fk in t.overrides then Some(t.overrides[fk]) else None
  }

  function EditedKeys(t: Tables, id: Id, kv: map<string, string>, unset: set<string>): set<(Id, string)> {
    t.overrides.Keys + (set k | k in kv.Keys + unset :: (id, k))
  }

  function UpdateTags(t: Tables, id: Id, kv: map<string, string>, unset: set<string>, now: int): Tables {
    t.(overrides := map fk | fk in EditedKeys(t, id, kv, unset) && Edited(t, id, kv, unset, now, fk).Some?
                      :: Edited(t, id, kv, unset, now, fk).value)
  }

  /** The first SELECT of the view: overrides with a value. */
  ghost predicate ShownOverride(t: Tables, fk: (Id, string)) {
    fk in t.overrides && t.overrides[fk].value.Some?
  }

  /** The second SELECT: embedded tags with no override row. */
  ghost predicate ShownEmbedded(t: Tables, fk: (Id, string)) {
    fk in t.embedded && fk !in t.overrides
  }

  /** tags_effective at one (file, key): the value and is_override. */
  ghost function EffectiveAt(t: Tables, fk: (Id, string)): Option<(string, bool)> {
    if ShownOverride(t, fk) then Some((t.overrides[fk].value.value, true))
    else if ShownEmbedded(t, fk) then Some((t.embedded[fk], false))
    else None
  }

  /** The UNION ALL of the view never yields one (file, key) twice. */
  lemma EffectiveOnce(t: Tables, fk: (Id, string))
    ensures !(ShownOverride(t, fk) && ShownEmbedded(t, fk))
    ensures EffectiveAt(t, fk).Some? <==> ShownOverride(t, fk) || ShownEmbedded(t, fk)
  {
  }

  lemma EditedAt(t: Tables, id: Id, kv: map<string, string>, unset: set<string>, now: int, fk: (Id, string))
    ensures OverrideAt(UpdateTags(t, id, kv, unset, now), fk) == Edited(t, id, kv, unset, now, fk)
  {
    if fk.0 == id && (fk.1 in kv || fk.1 in unset) {
      assert fk in (set k | k in kv.Keys + unset :: (id, k)) by {
        assert fk == (id, fk.1);
      }
    }
  }

  /** One edit makes the file's effective tags (old + set) minus unset, and touches no other
      file's. */
  lemma EditExact(t: Tables, id: Id, kv: map<string, string>, unset: set<string>, now: int, fk: (Id, string))
    ensures EffectiveAt(UpdateTags(t, id, kv, unset, now), fk) ==
      if fk.0 == id && fk.1 in unset then None
      else if fk.0 == id && fk.1 in kv then Some((kv[fk.1], true))
      else EffectiveAt(t, fk)
  {
    EditedAt(t, id, kv, unset, now, fk);
  }

  /** The override rows after an edit: an unset key is masked when an embedded tag has it and has
      no row otherwise, a set key holds its value, and every other row is as it was. */
  lemma EditedRows(t: Tables, id: Id, kv: map<string, string>, unset: set<string>, now: int, file: Id, k: string)
    ensures var rows := UpdateTags(t, id, kv, unset, now).overrides;
      && (file == id && k in unset && (id, k) in t.embedded ==>
            (id, k) in rows && rows[(id, k)] == Override(None, now))
      && (file == id && k in unset && (id, k) !in t.embedded ==> (id, k) !in rows)
      && (file == id && k in kv && k !in unset ==>
            (id, k) in rows && rows[(id, k)] == Override(Some(kv[k]), now))
      && (file != id || (k !in kv && k !in unset) ==> ((file, k) in rows <==> (file, k) in t.overrides))
      && (file != id || (k !in kv && k !in unset) ==>
            (file, k) in rows && (file, k) in t.overrides ==> rows[(file, k)] == t.overrides[(file, k)])
    ensures UpdateTags(t, id, kv, unset, now) == t.(overrides := UpdateTags(t, id, kv, unset, now).overrides)
  {
    EditedAt(t, id, kv, unset, now, (file, k));
  }

  /** tags_effective at one (file, key), from the two tables: an override with a value wins, a NULL
      override hides, an embedded tag without an override shows through. */
  lemma EffectiveExact(t: Tables, file: Id, k: string, v: string)
    ensures EffectiveAt(t, (file, k)) == Some((v, true)) <==>
        (file, k) in t.overrides && t.overrides[(file, k)].value == Some(v)
    ensures EffectiveAt(t, (file, k)) == Some((v, false)) <==>
        (file, k) in t.embedded && t.embedded[(file, k)] == v && (file, k) !in t.overrides
    ensures EffectiveAt(t, (file, k)) == None <==>
        ((file, k) in t.overrides && t.overrides[(file, k)].value == None)
        || ((file, k) !in t.overrides && (file, k) !in t.embedded)
  {
  }
}
