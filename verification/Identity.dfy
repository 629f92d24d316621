/** db.lookup_file_id: the by-name join, and when it identifies the file that the id tuple and
    the caches identify. */
module Identity {
  import opened Common
  import opened IdTables
  import opened KeyParse
  import opened Schema

  /** The four joins on names and the two leaf conditions, row by row. The joins do not compare
      a site's customer or a robot's site with the row's. */
  predicate JoinMatches(t: Dict, c: Composite, d: Dims) {
    && d.customer in t.customers && t.customers[d.customer] == c.customer
    && (exists k :: k in t.sites && k.1 == d.site && t.sites[k] == c.site)
    && (exists k :: k in t.robots && k.1 == d.robot && t.robots[k] == c.robot)
    && d.source in t.sources && t.sources[d.source] == c.source
    && c.date == d.date && c.filename == d.filename
  }

  /** In every state the writer leaves, the join finds exactly the row of the id tuple. */
  lemma JoinExact(t: Tables, c: Composite, d: Dims)
    requires Valid(t) && c in t.files
    ensures JoinMatches(t.dict, c, d) <==> Lookup(t.dict, d) == Some(c)
  {
    assert RowValid(t.dict, c, t.files[c]);
    var d0 :| Lookup(t.dict, d0) == Some(c);
    SameNames(t.dict, c, d0, d);
  }

  lemma SameNames(t: Dict, c: Composite, d0: Dims, d: Dims)
    requires IdsUnique(t) && Lookup(t, d0) == Some(c)
    ensures JoinMatches(t, c, d) <==> d == d0
  {
    var k1 := (c.customer, d0.site);
    var k2 := (c.site, d0.robot);
    assert k1 in t.sites && t.sites[k1] == c.site;
    assert k2 in t.robots && t.robots[k2] == c.robot;
  }

  /** The file an identity names, through the id tuple. */
  ghost function FileIdOf(t: Tables, d: Dims): Option<Id> {
    match RowAt(t, d) case None => None case Some(row) => Some(row.id)
  }

  /** lookup_file_id: scan, and take any matching row. */
  method LookupFileId(t: Tables, d: Dims) returns (r: Option<Id>)
    requires Valid(t)
    ensures r == FileIdOf(t, d)
  {
    var todo := t.files.Keys;
    while todo != {}
      invariant todo <= t.files.Keys
      invariant forall c :: c in t.files && c !in todo ==> !JoinMatches(t.dict, c, d)
      decreases |todo|
    {
      var c :| c in todo;
      JoinExact(t, c, d);
      if JoinMatches(t.dict, c, d) {
        return Some(t.files[c].id);
      }
      todo := todo - {c};
    }
    if RowAt(t, d).Some? {
      JoinExact(t, Lookup(t.dict, d).value, d);
    }
    return None;
  }

  /** The foreign keys of a files row. */
  ghost predicate RowKeys(t: Dict, c: Composite, row: FileRow) {
    && c.customer in t.customers.Values && c.site in t.sites.Values && c.robot in t.robots.Values
    && c.source in t.sources.Values && row.setId in t.topicSets.Values
  }

  /** The unique keys of the dictionaries, and their foreign keys. */
  ghost predicate DictKeys(t: Dict) {
    && IdsUnique(t) && HierarchyValid(t)
    && forall id :: id in t.members ==> id in t.topicSets.Values && MembersKnown(t, t.members[id])
  }

  /** What schema.sql alone guarantees: unique keys and foreign keys. */
  ghost predicate SchemaValid(t: Tables) {
    && DictKeys(t.dict) && FileIdsUnique(t.files)
    && (forall c :: c in t.files ==> RowKeys(t.dict, c, t.files[c]))
    && TagsOwned(t.files, t.embedded) && TagsOwned(t.files, t.overrides)
  }

  const TWO_OF_EACH := Dict(map["a" := 1, "b" := 2], map[(1, "s") := 1, (2, "s") := 2],
                          map[(1, "r") := 1, (2, "r") := 2], map["x" := 1], map[], map[], map[[] := 1], map[1 := []])

  const NESTED := Composite(1, 1, 1, 1, "", "")
  const CROSSED := Composite(1, 2, 2, 1, "", "")

  ghost function CrossedTables(a: FileRow, b: FileRow): Tables {
    Tables(TWO_OF_EACH, map[NESTED := a, CROSSED := b], map[], map[], map[], None)
  }

  lemma TwoOfEachKeys(a: FileRow, b: FileRow)
    requires a.setId == b.setId == 1
    ensures DictKeys(TWO_OF_EACH) && RowKeys(TWO_OF_EACH, NESTED, a) && RowKeys(TWO_OF_EACH, CROSSED, b)
  {
    var none: seq<Member> := [];
    assert none in TWO_OF_EACH.topicSets && TWO_OF_EACH.topicSets[none] == 1;
    assert TWO_OF_EACH.customers["a"] == 1 && TWO_OF_EACH.customers["b"] == 2 && TWO_OF_EACH.sources["x"] == 1;
    assert TWO_OF_EACH.sites[(1, "s")] == 1 && TWO_OF_EACH.sites[(2, "s")] == 2;
    assert TWO_OF_EACH.robots[(1, "r")] == 1 && TWO_OF_EACH.robots[(2, "r")] == 2;
  }

  lemma TwoFiles(t: Dict, a: FileRow, b: FileRow)
    requires a.id != b.id && DictKeys(t) && RowKeys(t, NESTED, a) && RowKeys(t, CROSSED, b)
    ensures SchemaValid(Tables(t, map[NESTED := a, CROSSED := b], map[], map[], map[], None))
  {
  }

  /** The schema does not force the hierarchy: tables that meet all its constraints can hold two
      rows that the same six names match. */
  lemma SchemaAloneAmbiguous(a: FileRow, b: FileRow)
    requires a.id != b.id && a.setId == b.setId == 1
    ensures SchemaValid(CrossedTables(a, b)) && NESTED != CROSSED
    ensures NESTED in CrossedTables(a, b).files && CROSSED in CrossedTables(a, b).files
    ensures JoinMatches(CrossedTables(a, b).dict, NESTED, Dims("a", "s", "r", "x", "", ""))
    ensures JoinMatches(CrossedTables(a, b).dict, CROSSED, Dims("a", "s", "r", "x", "", ""))
  {
    TwoOfEachKeys(a, b);
    TwoFiles(TWO_OF_EACH, a, b);
    CrossedJoins();
  }

  lemma CrossedJoins()
    ensures JoinMatches(TWO_OF_EACH, NESTED, Dims("a", "s", "r", "x", "", ""))
    ensures JoinMatches(TWO_OF_EACH, CROSSED, Dims("a", "s", "r", "x", "", ""))
  {
    assert (1, "s") in TWO_OF_EACH.sites && (2, "s") in TWO_OF_EACH.sites;
    assert (1, "r") in TWO_OF_EACH.robots && (2, "r") in TWO_OF_EACH.robots;
  }
}
