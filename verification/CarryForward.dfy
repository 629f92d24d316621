/** publish._carry_forward_tags_override: user tags move from the old catalogue to a rebuilt one
    by name identity, because every surrogate id is renumbered. */
module CarryForward {
  import opened Common
  import opened IdTables
  import opened KeyParse
  import opened Schema
  import opened Identity

  ghost function OverrideRow(overrides: map<(Id, string), Override>, id: Option<Id>, k: string): Option<Override> {
    if id.Some? && (id.value, k) in overrides then Some(overrides[(id.value, k)]) else None
  }

  /** The override row of a name identity at one key. */
  ghost function OverrideOf(t: Tables, d: Dims, k: string): Option<Override> {
    OverrideRow(t.overrides, FileIdOf(t, d), k)
  }

  /** Only overrides were added, each owned by a file; every file that exists in the new build
      has exactly the override rows its identity had in the old one: values, NULL masks and
      update times. */
  ghost predicate Carries(prior: Tables, temp: Tables, t: Tables) {
    && t == temp.(overrides := t.overrides) && TagsOwned(temp.files, t.overrides)
    && forall d, k :: OverrideOf(t, d, k) == if FileIdOf(temp, d).Some? then OverrideOf(prior, d, k) else None
  }

  /** The old rows' SELECT: the names a row's ids stand for. */
  method JoinNames(t: Dict, c: Composite) returns (d: Dims)
    requires exists d :: Lookup(t, d) == Some(c)
    ensures Lookup(t, d) == Some(c)
  {
    ghost var d0 :| Lookup(t, d0) == Some(c);
    assert (c.customer, d0.site) in t.sites && (c.site, d0.robot) in t.robots;
    var customer :| customer in t.customers && t.customers[customer] == c.customer;
    var site :| site in t.sites && site.0 == c.customer && t.sites[site] == c.site;
    var robot :| robot in t.robots && robot.0 == c.site && t.robots[robot] == c.robot;
    var source :| source in t.sources && t.sources[source] == c.source;
    d := Dims(customer, site.1, robot.1, source, c.date, c.filename);
  }

  /** The identity that owns an override row of the old catalogue. */
  method OwnerOf(t: Tables, id: Id) returns (d: Dims)
    requires Valid(t) && IsFileId(t.files, id)
    ensures FileIdOf(t, d) == Some(id)
  {
    var c :| c in t.files && t.files[c].id == id;
    assert RowValid(t.dict, c, t.files[c]);
    d := JoinNames(t.dict, c);
  }

  /** What an identity with these two ids has received while the rows in `todo` are to come. */
  ghost function Received(prior: Tables, newId: Option<Id>, oldId: Option<Id>, todo: set<(Id, string)>, k: string)
    : Option<Override>
  {
    if newId.Some? && oldId.Some? && (oldId.value, k) !in todo
    then OverrideRow(prior.overrides, oldId, k)
    else None
  }

  ghost predicate CarriedAt(prior: Tables, temp: Tables, t: Tables, todo: set<(Id, string)>, d: Dims, k: string) {
    OverrideRow(t.overrides, FileIdOf(temp, d), k) == Received(prior, FileIdOf(temp, d), FileIdOf(prior, d), todo, k)
  }

  ghost predicate CarriedBut(prior: Tables, temp: Tables, t: Tables, todo: set<(Id, string)>) {
    && t == temp.(overrides := t.overrides) && TagsOwned(temp.files, t.overrides)
    && forall d, k :: CarriedAt(prior, temp, t, todo, d, k)
  }

  lemma SameOwner(t: Tables, a: Dims, b: Dims)
    requires Valid(t) && FileIdOf(t, a).Some? && FileIdOf(t, a) == FileIdOf(t, b)
    ensures a == b
  {
    LookupInjective(t.dict, a, b);
  }

  ghost predicate OnlyOwner(t: Tables, owner: Dims, id: Id) {
    forall d :: FileIdOf(t, d) == Some(id) <==> d == owner
  }

  lemma OwnerIsOnly(t: Tables, owner: Dims)
    requires Valid(t) && FileIdOf(t, owner).Some?
    ensures OnlyOwner(t, owner, FileIdOf(t, owner).value)
    ensures IsFileId(t.files, FileIdOf(t, owner).value)
  {
    forall d | FileIdOf(t, d) == FileIdOf(t, owner) ensures d == owner {
      SameOwner(t, d, owner);
    }
  }

  lemma DropOne(prior: Tables, temp: Tables, t: Tables, todo: set<(Id, string)>, fk: (Id, string), owner: Dims)
    requires CarriedBut(prior, temp, t, todo) && FileIdOf(temp, owner).None? && OnlyOwner(prior, owner, fk.0)
    ensures CarriedBut(prior, temp, t, todo - {fk})
  {
    forall d, k ensures CarriedAt(prior, temp, t, todo - {fk}, d, k) {
      assert CarriedAt(prior, temp, t, todo, d, k);
    }
  }

  /** The identity's new id has no row at the key yet, so the plain INSERT cannot conflict. */
  lemma NoConflict(prior: Tables, temp: Tables, t: Tables, todo: set<(Id, string)>, fk: (Id, string), owner: Dims)
    requires CarriedBut(prior, temp, t, todo) && fk in todo
    requires FileIdOf(temp, owner).Some? && FileIdOf(prior, owner) == Some(fk.0)
    ensures (FileIdOf(temp, owner).value, fk.1) !in t.overrides
  {
    assert CarriedAt(prior, temp, t, todo, owner, fk.1);
    assert fk == (fk.0, fk.1);
  }

  lemma InsertOne(prior: Tables, temp: Tables, t: Tables, todo: set<(Id, string)>, fk: (Id, string),
                  owner: Dims, id: Id)
    requires CarriedBut(prior, temp, t, todo) && fk in prior.overrides && IsFileId(temp.files, id)
    requires OnlyOwner(prior, owner, fk.0) && OnlyOwner(temp, owner, id)
    ensures CarriedBut(prior, temp, t.(overrides := t.overrides[(id, fk.1) := prior.overrides[fk]]), todo - {fk})
  {
    var t' := t.(overrides := t.overrides[(id, fk.1) := prior.overrides[fk]]);
    assert fk == (fk.0, fk.1);
    forall d, k ensures CarriedAt(prior, temp, t', todo - {fk}, d, k) {
      assert CarriedAt(prior, temp, t, todo, d, k);
      InsertedAt(prior, temp, t, todo, fk, id, FileIdOf(temp, d), FileIdOf(prior, d), k);
    }
  }

  lemma InsertedAt(prior: Tables, temp: Tables, t: Tables, todo: set<(Id, string)>, fk: (Id, string), id: Id,
                   newId: Option<Id>, oldId: Option<Id>, k: string)
    requires fk in prior.overrides && (newId == Some(id) <==> oldId == Some(fk.0))
    requires OverrideRow(t.overrides, newId, k) == Received(prior, newId, oldId, todo, k)
    ensures OverrideRow(t.overrides[(id, fk.1) := prior.overrides[fk]], newId, k)
         == Received(prior, newId, oldId, todo - {fk}, k)
  {
    assert fk == (fk.0, fk.1);
  }

  lemma NothingLeft(prior: Tables, temp: Tables, t: Tables)
    requires CarriedBut(prior, temp, t, {})
    ensures Carries(prior, temp, t)
  {
    forall d, k ensures OverrideOf(t, d, k) == if FileIdOf(temp, d).Some? then OverrideOf(prior, d, k) else None {
      assert CarriedAt(prior, temp, t, {}, d, k);
      assert FileIdOf(t, d) == FileIdOf(temp, d);
    }
  }

  lemma NothingCarried(prior: Tables, temp: Tables)
    requires temp.overrides == map[]
    ensures CarriedBut(prior, temp, temp, prior.overrides.Keys)
  {
  }

  /** Every old override row is carried or dropped, each once, and no INSERT conflicts. */
  method CarryTags(prior: Tables, temp: Tables) returns (t: Tables, carried: nat, dropped: nat, conflict: bool)
    requires Valid(prior) && Valid(temp) && temp.overrides == map[]
    ensures !conflict && Carries(prior, temp, t)
    ensures carried == |t.overrides| && carried + dropped == |prior.overrides|
  {
    t, carried, dropped := temp, 0, 0;
    var todo := prior.overrides.Keys;
    NothingCarried(prior, temp);
    while todo != {}
      invariant todo <= prior.overrides.Keys && CarriedBut(prior, temp, t, todo)
      invariant carried == |t.overrides| && carried + dropped + |todo| == |prior.overrides|
      decreases todo
    {
      var fk :| fk in todo;
      var moved;
      t, moved, conflict := CarryOne(prior, temp, t, todo, fk);
      if conflict {
        return;
      }
      carried, dropped := carried + moved, dropped + 1 - moved;
      OneLess(todo, fk);
      todo := todo - {fk};
    }
    NothingLeft(prior, temp, t);
    conflict := false;
  }

  method CarryOne(prior: Tables, temp: Tables, t: Tables, ghost todo: set<(Id, string)>, fk: (Id, string))
    returns (t': Tables, moved: nat, conflict: bool)
    requires Valid(prior) && Valid(temp) && CarriedBut(prior, temp, t, todo)
    requires fk in todo && fk in prior.overrides
    ensures !conflict && CarriedBut(prior, temp, t', todo - {fk})
    ensures moved <= 1 && |t'.overrides| == |t.overrides| + moved
  {
    assert IsFileId(prior.files, fk.0);
    var owner := OwnerOf(prior, fk.0);
    OwnerIsOnly(prior, owner);
    var id := LookupFileId(temp, owner);
    if id.None? {
      DropOne(prior, temp, t, todo, fk, owner);
      return t, 0, false;
    }
    NoConflict(prior, temp, t, todo, fk, owner);
    conflict := (id.value, fk.1) in t.overrides;
    OwnerIsOnly(temp, owner);
    InsertOne(prior, temp, t, todo, fk, owner, id.value);
    t' := t.(overrides := t.overrides[(id.value, fk.1) := prior.overrides[fk]]);
    moved := 1;
  }

  /** The promise leaves no freedom: it fixes the carried tables completely. */
  lemma CarriesUnique(prior: Tables, temp: Tables, a: Tables, b: Tables)
    requires Valid(temp) && Carries(prior, temp, a) && Carries(prior, temp, b)
    ensures a == b
  {
    forall fk: (Id, string)
      ensures OverrideRow(a.overrides, Some(fk.0), fk.1) == OverrideRow(b.overrides, Some(fk.0), fk.1)
    {
      OwnedSame(prior, temp, a, b, fk);
    }
    SameRows(a.overrides, b.overrides);
  }

  lemma SameRows(a: map<(Id, string), Override>, b: map<(Id, string), Override>)
    requires forall fk: (Id, string) :: OverrideRow(a, Some(fk.0), fk.1) == OverrideRow(b, Some(fk.0), fk.1)
    ensures a == b
  {
    forall fk: (Id, string) ensures (fk in a <==> fk in b) && (fk in a && fk in b ==> a[fk] == b[fk]) {
      assert fk == (fk.0, fk.1);
      assert OverrideRow(a, Some(fk.0), fk.1) == OverrideRow(b, Some(fk.0), fk.1);
    }
  }

  lemma OwnedSame(prior: Tables, temp: Tables, a: Tables, b: Tables, fk: (Id, string))
    requires Valid(temp) && Carries(prior, temp, a) && Carries(prior, temp, b)
    ensures OverrideRow(a.overrides, Some(fk.0), fk.1) == OverrideRow(b.overrides, Some(fk.0), fk.1)
  {
    assert fk == (fk.0, fk.1);
    if IsFileId(temp.files, fk.0) {
      var d := FileIdOwner(temp, fk.0);
      SameFileIds(temp, a, d);
      SameFileIds(temp, b, d);
      assert OverrideOf(a, d, fk.1) == OverrideOf(b, d, fk.1);
    }
  }

  lemma FileIdOwner(t: Tables, id: Id) returns (d: Dims)
    requires Valid(t) && IsFileId(t.files, id)
    ensures FileIdOf(t, d) == Some(id)
  {
    var c :| c in t.files && t.files[c].id == id;
    assert RowValid(t.dict, c, t.files[c]);
    d :| Lookup(t.dict, d) == Some(c);
  }

  lemma SameFileIds(temp: Tables, t: Tables, d: Dims)
    requires t == temp.(overrides := t.overrides)
    ensures FileIdOf(t, d) == FileIdOf(temp, d)
  {
  }

  lemma OneLess(todo: set<(Id, string)>, fk: (Id, string))
    requires fk in todo
    ensures |todo - {fk}| == |todo| - 1
  {
  }
}
