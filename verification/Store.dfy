/** builder.py and db.py as functions on the tables: what each committed operation
    leaves behind. The Catalog class is proved against these. */
module Store {
  import opened Common
  import opened IdTables
  import opened KeyParse
  import opened Summary
  import opened Schema
  import Varint

  datatype Status = Cataloged | Skipped | Failed

  /** One object on its way through a reconcile: listing fingerprint, identity, read result. */
  datatype Extract = Extract(key: string, stat: Stat, dims: Dims, eff: string, read: ReadResult)

  function ResolveDims(t: Dict, d: Dims): Dict {
    var customers := Intern(t.customers, d.customer);
    var sites := Intern(t.sites, (customers[d.customer], d.site));
    var site := sites[(customers[d.customer], d.site)];
    var robots := Intern(t.robots, (site, d.robot));
    var sources := Intern(t.sources, d.source);
    t.(customers := customers, sites := sites, robots := robots, sources := sources)
  }

  function ResolvedIds(t: Dict, d: Dims): (c: Composite)
    ensures Lookup(ResolveDims(t, d), d) == Some(c)
  {
    Lookup(ResolveDims(t, d), d).value
  }

  /** The loop state of the per-file transaction: dictionaries and topic_id -> (schema_id, count). */
  datatype Merge = Merge(topics: map<string, Id>, schemas: map<(string, string), Id>,
                         byTopic: map<Id, (Id, nat)>)

  function MergeStep(m: Merge, ch: ChannelInfo): Merge {
    var topics, schemas := Intern(m.topics, ch.topic), Intern(m.schemas, ch.schema);
    var tid := topics[ch.topic];
    var entry := if tid in m.byTopic then (m.byTopic[tid].0, m.byTopic[tid].1 + ch.messageCount)
                 else (schemas[ch.schema], ch.messageCount);
    Merge(topics, schemas, m.byTopic[tid := entry])
  }

  function MergeAll(t: Dict, channels: seq<ChannelInfo>): Merge {
    if channels == [] then Merge(t.topics, t.schemas, map[])
    else MergeStep(MergeAll(t, channels[..|channels| - 1]), channels[|channels| - 1])
  }

  /** sorted((topic_id, schema_id)) */
  function SetMembers(byTopic: map<Id, (Id, nat)>): seq<Member> {
    if byTopic == map[] then []
    else
      var x := MaxOf(byTopic.Keys);
      SetMembers(byTopic - {x}) + [Member(x, byTopic[x].0)]
  }

  function SetCounts(byTopic: map<Id, (Id, nat)>): seq<nat> {
    if byTopic == map[] then []
    else
      var x := MaxOf(byTopic.Keys);
      SetCounts(byTopic - {x}) + [byTopic[x].1]
  }

  function InternSet(t: Dict, ms: seq<Member>): Dict {
    if ms in t.topicSets then t
    else
      var id := NextId(t.topicSets);
      t.(topicSets := t.topicSets[ms := id], members := t.members[id := ms])
  }

  function NextFileId(files: map<Composite, FileRow>): (id: Id)
    ensures forall c :: c in files ==> files[c].id < id
  {
    var ids := set c | c in files :: files[c].id;
    assert forall c :: c in files ==> files[c].id in ids;
    MaxOf(ids) + 1
  }

  /** ON CONFLICT DO UPDATE keeps the row's id; an insert takes the next rowid. */
  function RowIdFor(files: map<Composite, FileRow>, c: Composite): Id {
    if c in files then files[c].id else NextFileId(files)
  }

  function TagRows(id: Id, tags: map<string, string>): map<(Id, string), string> {
    map k | k in tags :: (id, k) := tags[k]
  }

  function DropRows<V>(m: map<(Id, string), V>, id: Id): map<(Id, string), V> {
    map fk | fk in m && fk.0 != id :: m[fk]
  }

  function PutRow(t: Tables, c: Composite, row: FileRow, tags: map<string, string>): Tables {
    t.(files := t.files[c := row], embedded := DropRows(t.embedded, row.id) + TagRows(row.id, tags))
  }

  /** Deleting a files row cascades to both tag layers. */
  function DeleteFile(t: Tables, c: Composite): Tables {
    if c !in t.files then t
    else
      var id := t.files[c].id;
      t.(files := t.files - {c}, embedded := DropRows(t.embedded, id), overrides := DropRows(t.overrides, id))
  }

  function Quarantine(t: Tables, c: Composite, eff: string, error: Failure): Tables {
    var t' := DeleteFile(t, c);
    t'.(failures := t'.failures[eff := error])
  }

  /** The exception the transaction raises, in the order the code meets it. */
  function WriteError(stat: Stat, s: FileSummary, counts: seq<nat>): Option<Failure> {
    if Sum(counts) != s.messageCount then Some(CountMismatch(Sum(counts), s.messageCount))
    else if !AllFit(stat, s) then Some(IntegerTooLarge)
    else if !DistinctTagKeys(s.tags) then Some(DuplicateTagKey)
    else None
  }

  function NewRow(id: Id, setId: Id, stat: Stat, s: FileSummary, counts: seq<nat>): FileRow {
    FileRow(id, stat.etag, stat.size, stat.mtimeNs, s.startNs, s.endNs, s.chunkCount,
            setId, Varint.EncodeBlob(counts), HasError(s))
  }

  /** The dictionaries and topic set of a summary, added where missing. */
  function InternSummary(t: Dict, channels: seq<ChannelInfo>): Dict {
    var m := MergeAll(t, channels);
    InternSet(t.(topics := m.topics, schemas := m.schemas), SetMembers(m.byTopic))
  }

  function CommitRow(t: Tables, c: Composite, eff: string, stat: Stat, s: FileSummary): Tables {
    var counts := SetCounts(MergeAll(t.dict, s.channels).byTopic);
    var row := NewRow(RowIdFor(t.files, c), InternedSet(t.dict, s.channels), stat, s, counts);
    var t' := PutRow(t.(dict := InternSummary(t.dict, s.channels)), c, row, TagMap(s.tags));
    t'.(failures := t'.failures - {eff})
  }

  function InternedSet(t: Dict, channels: seq<ChannelInfo>): Id {
    InternSummary(t, channels).topicSets[SetMembers(MergeAll(t, channels).byTopic)]
  }

  /** _write_file_row: either everything is written, or the rolled-back file is quarantined. */
  function WriteFileRow(t: Tables, c: Composite, eff: string, stat: Stat, s: FileSummary): (Tables, Status) {
    var error := WriteError(stat, s, SetCounts(MergeAll(t.dict, s.channels).byTopic));
    if error.Some? then (Quarantine(t, c, eff, error.value), Failed)
    else (CommitRow(t, c, eff, stat, s), Cataloged)
  }

  function RecordFailure(t: Tables, key: string, error: Failure): Tables {
    t.(failures := t.failures[key := error])
  }

  function ApplyExtract(t: Tables, ex: Extract): (Tables, Status) {
    if ex.read.Vanished? then (t, Failed)
    else
      var t1, c := t.(dict := ResolveDims(t.dict, ex.dims)), ResolvedIds(t.dict, ex.dims);
      match ex.read
      case Unreadable(error) => (Quarantine(t1, c, ex.eff, ReadError(error)), Failed)
      case Ready(s) => WriteFileRow(t1, c, ex.eff, ex.stat, s)
  }

  /** What the read phase hands to apply_extract: an extract, or a key without an identity. */
  datatype Fetched = Identified(ex: Extract) | Unidentified(key: string)

  function ApplyFetched(t: Tables, f: Fetched): (Tables, Status) {
    match f
    case Identified(ex) => ApplyExtract(t, ex)
    case Unidentified(key) => (RecordFailure(t, key, UnparseableKey), Failed)
  }

  /** catalog_object after the HEAD, for the resolved key. Unlike the reconcile, a read that
      finds the object gone is quarantined. */
  function CatalogTarget(t: Tables, key: string, target: Option<(Dims, string)>, stat: Stat,
                         read: ReadResult): (Tables, Status)
  {
    match target
    case None => (RecordFailure(t, key, UnparseableKey), Failed)
    case Some((d, eff)) =>
      var t1, c := t.(dict := ResolveDims(t.dict, d)), ResolvedIds(t.dict, d);
      if c in t1.files && t1.files[c].etag == stat.etag then (t1, Skipped)
      else match read
        case Vanished => (Quarantine(t1, c, eff, ReadError("missing")), Failed)
        case Unreadable(error) => (Quarantine(t1, c, eff, ReadError(error)), Failed)
        case Ready(s) => WriteFileRow(t1, c, eff, stat, s)
  }

  function CatalogObject(t: Tables, key: string, stat: Option<Stat>, intended: Option<string>,
                         read: ReadResult): (Tables, Status)
  {
    if stat.None? then (t, Failed) else CatalogTarget(t, key, ResolveKeyDims(key, intended), stat.value, read)
  }

  /** delete_by_key: the parse is not guarded by a rebuild here. */
  function DeleteByKey(t: Tables, key: string): (Tables, bool) {
    DeleteParsed(t, key, ParseHiveKey(key))
  }

  function DeleteParsed(t: Tables, key: string, parsed: Option<Dims>): (Tables, bool) {
    if parsed.None? || Lookup(t.dict, parsed.value).None? then (t, false)
    else
      var c := Lookup(t.dict, parsed.value).value;
      var t' := DeleteFile(t, c);
      (t'.(failures := t'.failures - {key}), c in t.files)
  }
}
