/** schema.sql: the tables as maps, their invariant, and the name-level view of a row. */
module Schema {
  import opened Common
  import opened IdTables
  import opened KeyParse
  import opened Summary
  import Varint

  /** The UNIQUE columns of `files`. */
  datatype Composite = Composite(customer: Id, site: Id, robot: Id, source: Id,
                                 date: string, filename: string)

  datatype FileRow = FileRow(id: Id, etag: string, size: int, lastModifiedNs: int,
                             startNs: int, endNs: int, chunkCount: int,
                             setId: Id, topicCounts: seq<Varint.Byte>, hasError: bool)

  datatype Member = Member(topic: Id, schema: Id)

  /** A NULL value masks the embedded tag of the same key. */
  datatype Override = Override(value: Option<string>, updatedAt: int)

  datatype Build = Build(buildId: int, lastBuildNs: int, scanned: nat, failed: nat, outcome: string)

  /** The append-only lookup tables, dictionaries and topic sets. A topic set's fingerprint is
      modelled by the sorted member list it hashes. */
  datatype Dict = Dict(
    customers: map<string, Id>,
    sites: map<(Id, string), Id>,
    robots: map<(Id, string), Id>,
    sources: map<string, Id>,
    topics: map<string, Id>,
    schemas: map<(string, string), Id>,
    topicSets: map<seq<Member>, Id>,
    members: map<Id, seq<Member>>)

  datatype Tables = Tables(
    dict: Dict,
    files: map<Composite, FileRow>,
    embedded: map<(Id, string), string>,
    overrides: map<(Id, string), Override>,
    failures: map<string, Failure>,
    build: Option<Build>)

  const EMPTY := Tables(Dict(map[], map[], map[], map[], map[], map[], map[], map[]),
                        map[], map[], map[], map[], None)

  /** reconcile._composite_ids: the id tuple of a name identity, when every name is known. */
  function Lookup(t: Dict, d: Dims): Option<Composite> {
    if d.customer !in t.customers then None
    else if (t.customers[d.customer], d.site) !in t.sites then None
    else
      var site := t.sites[(t.customers[d.customer], d.site)];
      if (site, d.robot) !in t.robots || d.source !in t.sources then None
      else Some(Composite(t.customers[d.customer], site, t.robots[(site, d.robot)],
                          t.sources[d.source], d.date, d.filename))
  }

  predicate Sorted(ms: seq<Member>) {
    forall i, j :: 0 <= i < j < |ms| ==> ms[i].topic < ms[j].topic
  }

  ghost predicate HasTopic(ms: seq<Member>, id: Id) {
    exists i :: 0 <= i < |ms| && ms[i].topic == id
  }

  ghost function IndexOf(ms: seq<Member>, id: Id): (i: nat)
    requires HasTopic(ms, id)
    ensures i < |ms| && ms[i].topic == id
  {
    var i :| 0 <= i < |ms| && ms[i].topic == id; i
  }

  ghost function MembersOf(t: Dict, row: FileRow): seq<Member> {
    if row.setId in t.members then t.members[row.setId] else []
  }

  ghost function CountsOf(row: FileRow): seq<nat> {
    match Varint.DecodeBlob(row.topicCounts, 0) case None => [] case Some(counts) => counts
  }

  ghost function TopicAt(t: Dict, ms: seq<Member>, counts: seq<nat>, name: string): TopicInfo
    requires name in t.topics && HasTopic(ms, t.topics[name])
  {
    var i := IndexOf(ms, t.topics[name]);
    TopicInfo(KeyOf(t.schemas, ms[i].schema), if i < |counts| then counts[i] else 0)
  }

  /** The reader's join: members in topic_id order, zipped with the decoded counts. */
  ghost function TopicsOf(t: Dict, row: FileRow): map<string, TopicInfo> {
    var ms, counts := MembersOf(t, row), CountsOf(row);
    map name | name in t.topics && HasTopic(ms, t.topics[name]) :: TopicAt(t, ms, counts, name)
  }

  /** The tags of one file in one layer. */
  ghost function TagsOf<V>(tags: map<(Id, string), V>, id: Id): map<string, V> {
    map fk | fk in tags && fk.0 == id :: fk.1 := tags[fk]
  }

  ghost function ViewRow(t: Tables, row: FileRow): FileView {
    FileView(row.etag, row.size, row.startNs, row.endNs, row.chunkCount, row.hasError,
             TopicsOf(t.dict, row), TagsOf(t.embedded, row.id))
  }

  ghost function RowAt(t: Tables, d: Dims): Option<FileRow> {
    match Lookup(t.dict, d)
    case None => None
    case Some(c) => if c in t.files then Some(t.files[c]) else None
  }

  /** The name-level view: what the catalogue shows for an identity. */
  ghost function FileAt(t: Tables, d: Dims): Option<FileView> {
    match RowAt(t, d) case None => None case Some(row) => Some(ViewRow(t, row))
  }

  ghost predicate IdsUnique(t: Dict) {
    && Injective(t.customers) && Injective(t.sites) && Injective(t.robots) && Injective(t.sources)
    && Injective(t.topics) && Injective(t.schemas) && Injective(t.topicSets)
  }

  /** The writer's hierarchy: a site's customer and a robot's site exist. */
  ghost predicate HierarchyValid(t: Dict) {
    && (forall k :: k in t.sites ==> k.0 in t.customers.Values)
    && (forall k :: k in t.robots ==> k.0 in t.sites.Values)
  }

  ghost predicate MembersKnown(t: Dict, ms: seq<Member>) {
    forall i :: 0 <= i < |ms| ==> ms[i].topic in t.topics.Values && ms[i].schema in t.schemas.Values
  }

  ghost predicate SetsValid(t: Dict) {
    && (forall ms :: ms in t.topicSets ==>
          t.topicSets[ms] in t.members && t.members[t.topicSets[ms]] == ms)
    && (forall id :: id in t.members ==>
          t.members[id] in t.topicSets && t.topicSets[t.members[id]] == id)
    && (forall ms :: ms in t.topicSets ==> Sorted(ms) && MembersKnown(t, ms))
  }

  ghost predicate DictValid(t: Dict) {
    IdsUnique(t) && HierarchyValid(t) && SetsValid(t)
  }

  /** A row belongs to a name identity, its topic set exists, and its blob decodes to one
      count per member. */
  ghost predicate RowValid(t: Dict, c: Composite, row: FileRow) {
    && (exists d :: Lookup(t, d) == Some(c))
    && row.setId in t.members
    && |CountsOf(row)| == |t.members[row.setId]|
  }

  ghost predicate FileIdsUnique(files: map<Composite, FileRow>) {
    forall a, b :: a in files && b in files && files[a].id == files[b].id ==> a == b
  }

  ghost predicate IsFileId(files: map<Composite, FileRow>, id: Id) {
    exists c :: c in files && files[c].id == id
  }

  /** The foreign key of a tag layer. */
  ghost predicate TagsOwned<V>(files: map<Composite, FileRow>, tags: map<(Id, string), V>) {
    forall fk :: fk in tags ==> IsFileId(files, fk.0)
  }

  ghost predicate Valid(t: Tables) {
    && DictValid(t.dict)
    && (forall c :: c in t.files ==> RowValid(t.dict, c, t.files[c]))
    && FileIdsUnique(t.files)
    && TagsOwned(t.files, t.embedded) && TagsOwned(t.files, t.overrides)
  }

  lemma EmptyValid()
    ensures Valid(EMPTY) && forall d :: FileAt(EMPTY, d) == None
  {
  }

  /** Two identities never share an id tuple. */
  lemma LookupInjective(t: Dict, a: Dims, b: Dims)
    requires IdsUnique(t) && Lookup(t, a).Some? && Lookup(t, a) == Lookup(t, b)
    ensures a == b
  {
  }
}
