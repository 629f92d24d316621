/** Every store operation keeps the tables' invariant and changes the name-level view at
    one identity only, to a value that does not depend on any surrogate id. */
module StoreProofs {
  import opened Common
  import opened IdTables
  import opened KeyParse
  import opened Summary
  import opened Schema
  import opened Store
  import opened MergeProofs
  import Varint

  /** t' has every row of t, and new rows only with new ids. */
  ghost predicate Interned(t: Dict, t': Dict) {
    && Grows(t.customers, t'.customers) && Grows(t.sites, t'.sites) && Grows(t.robots, t'.robots)
    && Grows(t.sources, t'.sources) && Grows(t.topics, t'.topics) && Grows(t.schemas, t'.schemas)
    && Grows(t.topicSets, t'.topicSets)
    && (forall id :: id in t.members ==> id in t'.members && t'.members[id] == t.members[id])
  }

  /** No identity other than d shows anything different. */
  ghost predicate OnlyAt(t: Tables, t': Tables, d: Dims) {
    forall e :: e != d ==> RowAt(t', e) == RowAt(t, e) && FileAt(t', e) == FileAt(t, e)
  }

  ghost predicate SameView(t: Tables, t': Tables) {
    forall d :: RowAt(t', d) == RowAt(t, d) && FileAt(t', d) == FileAt(t, d)
  }

  lemma LookupGrows(t: Dict, t': Dict, d: Dims)
    requires Interned(t, t') && Lookup(t, d).Some?
    ensures Lookup(t', d) == Lookup(t, d)
  {
  }

  /** A known id tuple belongs to one identity only, before and after dictionaries grow. */
  lemma LookupBack(t: Dict, t': Dict, d: Dims, d0: Dims)
    requires Interned(t, t') && Lookup(t, d0).Some? && Lookup(t', d) == Lookup(t, d0)
    ensures d == d0
  {
    LookupGrows(t, t', d0);
    LookupInjective(t', d, d0);
  }

  lemma RowOfGrown(t: Tables, dict: Dict, d: Dims)
    requires Valid(t) && Interned(t.dict, dict)
    ensures RowAt(t.(dict := dict), d) == RowAt(t, d)
  {
    if Lookup(t.dict, d).Some? {
      LookupGrows(t.dict, dict, d);
    } else if Lookup(dict, d).Some? && Lookup(dict, d).value in t.files {
      var c := Lookup(dict, d).value;
      assert RowValid(t.dict, c, t.files[c]);
      var d0 :| Lookup(t.dict, d0) == Some(c);
      LookupBack(t.dict, dict, d, d0);
    }
  }

  /** What the reader's join shows for one topic name. */
  ghost function TopicFor(t: Dict, row: FileRow, n: string): Option<TopicInfo> {
    if n in t.topics && HasTopic(MembersOf(t, row), t.topics[n])
    then Some(TopicAt(t, MembersOf(t, row), CountsOf(row), n))
    else None
  }

  lemma TopicsFromNames(t: Dict, row: FileRow, names: map<string, TopicInfo>)
    requires forall n :: TopicFor(t, row, n) == if n in names then Some(names[n]) else None
    ensures TopicsOf(t, row) == names
  {
    forall n ensures n in TopicsOf(t, row) <==> n in names {
      assert TopicFor(t, row, n) == if n in names then Some(names[n]) else None;
    }
  }

  lemma TopicsOfGrown(t: Dict, t': Dict, row: FileRow)
    requires DictValid(t) && Interned(t, t') && row.setId in t.members
    ensures TopicsOf(t', row) == TopicsOf(t, row)
  {
    forall n ensures TopicFor(t', row, n) == if n in TopicsOf(t, row) then Some(TopicsOf(t, row)[n]) else None {
      TopicForGrown(t, t', row, n);
    }
    TopicsFromNames(t', row, TopicsOf(t, row));
  }

  lemma TopicForGrown(t: Dict, t': Dict, row: FileRow, n: string)
    requires DictValid(t) && Interned(t, t') && row.setId in t.members
    ensures TopicFor(t', row, n) == if n in TopicsOf(t, row) then Some(TopicsOf(t, row)[n]) else None
  {
    var ms := t.members[row.setId];
    assert MembersOf(t', row) == MembersOf(t, row) == ms && MembersKnown(t, ms);
    if n in t'.topics && HasTopic(ms, t'.topics[n]) {
      TopicOfGrown(t, t', ms, CountsOf(row), n);
    }
  }

  lemma TopicOfGrown(t: Dict, t': Dict, ms: seq<Member>, counts: seq<nat>, n: string)
    requires IdsUnique(t) && Interned(t, t') && MembersKnown(t, ms)
    requires n in t'.topics && HasTopic(ms, t'.topics[n])
    ensures n in t.topics && t.topics[n] == t'.topics[n]
    ensures TopicAt(t', ms, counts, n) == TopicAt(t, ms, counts, n)
  {
    var i := IndexOf(ms, t'.topics[n]);
    assert ms[i].topic in t.topics.Values && ms[i].schema in t.schemas.Values;
    var n0 :| n0 in t.topics && t.topics[n0] == ms[i].topic;
    assert t'.topics[n0] == t'.topics[n];
    var k :| k in t.schemas && t.schemas[k] == ms[i].schema;
    KeyOfId(t.schemas, k);
    KeyOfId(t'.schemas, k);
  }

  /** Adding dictionary rows changes nothing a reader sees. */
  lemma GrownDict(t: Tables, dict: Dict)
    requires Valid(t) && Interned(t.dict, dict) && DictValid(dict)
    ensures Valid(t.(dict := dict)) && SameView(t, t.(dict := dict))
  {
    var t' := t.(dict := dict);
    forall d ensures RowAt(t', d) == RowAt(t, d) && FileAt(t', d) == FileAt(t, d) {
      RowOfGrown(t, dict, d);
      if RowAt(t, d).Some? {
        var c := Lookup(t.dict, d).value;
        assert RowValid(t.dict, c, t.files[c]);
        TopicsOfGrown(t.dict, dict, t.files[c]);
      }
    }
    forall c | c in t.files ensures RowValid(dict, c, t.files[c]) {
      assert RowValid(t.dict, c, t.files[c]);
      var d :| Lookup(t.dict, d) == Some(c);
      LookupGrows(t.dict, dict, d);
    }
  }

  lemma KnownGrows(t: Dict, t': Dict, ms: seq<Member>)
    requires MembersKnown(t, ms) && Extends(t.topics, t'.topics) && Extends(t.schemas, t'.schemas)
    ensures MembersKnown(t', ms)
  {
    ValuesGrow(t.topics, t'.topics);
    ValuesGrow(t.schemas, t'.schemas);
  }

  lemma ResolveDimsInterns(t: Dict, d: Dims)
    requires DictValid(t)
    ensures DictValid(ResolveDims(t, d)) && Interned(t, ResolveDims(t, d))
  {
    var t' := ResolveDims(t, d);
    InternGrows(t.customers, d.customer);
    var k1 := (t'.customers[d.customer], d.site);
    InternGrows(t.sites, k1);
    var k2 := (t'.sites[k1], d.robot);
    InternGrows(t.robots, k2);
    InternGrows(t.sources, d.source);
    ValuesGrow(t.customers, t'.customers);
    ValuesGrow(t.sites, t'.sites);
    assert t'.customers[d.customer] in t'.customers.Values;
    assert t'.sites[k1] in t'.sites.Values;
    forall ms | ms in t'.topicSets ensures MembersKnown(t', ms) {
      KnownGrows(t, t', ms);
    }
  }

  lemma InternSetValid(t: Dict, ms: seq<Member>)
    requires Injective(t.topicSets) && SetsValid(t) && Sorted(ms) && MembersKnown(t, ms)
    ensures var t' := InternSet(t, ms);
      && Grows(t.topicSets, t'.topicSets) && SetsValid(t')
      && (forall id :: id in t.members ==> id in t'.members && t'.members[id] == t.members[id])
      && ms in t'.topicSets && t'.topicSets[ms] in t'.members && t'.members[t'.topicSets[ms]] == ms
  {
    InternGrows(t.topicSets, ms);
    var t' := InternSet(t, ms);
    if ms !in t.topicSets {
      assert NextId(t.topicSets) !in t.members;
      forall s | s in t'.topicSets ensures Sorted(s) && MembersKnown(t', s) {
        if s in t.topicSets {
          KnownGrows(t, t', s);
        }
      }
    }
  }

  lemma NewNamesInterned(t: Dict, topics: map<string, Id>, schemas: map<(string, string), Id>)
    requires DictValid(t) && Grows(t.topics, topics) && Grows(t.schemas, schemas)
    ensures var t' := t.(topics := topics, schemas := schemas); DictValid(t') && Interned(t, t')
  {
    var t' := t.(topics := topics, schemas := schemas);
    forall s | s in t.topicSets ensures MembersKnown(t', s) {
      KnownGrows(t, t', s);
    }
  }

  lemma InternSummaryInterns(t: Dict, channels: seq<ChannelInfo>)
    requires DictValid(t)
    ensures DictValid(InternSummary(t, channels)) && Interned(t, InternSummary(t, channels))
  {
    var m := MergeAll(t, channels);
    MergeAgrees(t, channels);
    NewNamesInterned(t, m.topics, m.schemas);
    SummarySetKnown(t, channels);
    InternSetValid(t.(topics := m.topics, schemas := m.schemas), SetMembers(m.byTopic));
  }

  lemma SummarySetKnown(t: Dict, channels: seq<ChannelInfo>)
    requires DictValid(t)
    ensures Sorted(SetMembers(MergeAll(t, channels).byTopic))
    ensures var m := MergeAll(t, channels);
      MembersKnown(t.(topics := m.topics, schemas := m.schemas), SetMembers(m.byTopic))
  {
    MergeAgrees(t, channels);
    MembersExact(MergeAll(t, channels).byTopic);
  }

  lemma InternedSetMembers(t: Dict, channels: seq<ChannelInfo>)
    requires DictValid(t)
    ensures InternedSet(t, channels) in InternSummary(t, channels).members
    ensures InternSummary(t, channels).members[InternedSet(t, channels)]
         == SetMembers(MergeAll(t, channels).byTopic)
  {
    InternSummaryInterns(t, channels);
  }

  /** The new row's members zipped with its decoded counts are the merge by topic name. */
  lemma WrittenTopics(t: Dict, row: FileRow, channels: seq<ChannelInfo>)
    requires DictValid(t) && row.setId == InternedSet(t, channels)
    requires row.topicCounts == Varint.EncodeBlob(SetCounts(MergeAll(t, channels).byTopic))
    ensures TopicsOf(InternSummary(t, channels), row) == TopicsByName(channels)
    ensures CountsOf(row) == SetCounts(MergeAll(t, channels).byTopic)
  {
    var m := MergeAll(t, channels);
    InternedSetMembers(t, channels);
    MergeAgrees(t, channels);
    MembersExact(m.byTopic);
    WrittenCounts(row, SetCounts(m.byTopic));
    MergedTopics(m, InternSummary(t, channels), row, SetCounts(m.byTopic), TopicsByName(channels));
  }

  lemma WrittenCounts(row: FileRow, counts: seq<nat>)
    requires row.topicCounts == Varint.EncodeBlob(counts)
    ensures CountsOf(row) == counts
  {
    Varint.BlobRoundTrip(counts);
  }

  lemma MergedTopics(m: Merge, t: Dict, row: FileRow, counts: seq<nat>, names: map<string, TopicInfo>)
    requires Zips(m.byTopic, MembersOf(t, row), counts) && CountsOf(row) == counts && Agrees(m, names)
    requires t.topics == m.topics && t.schemas == m.schemas && Injective(t.schemas)
    ensures TopicsOf(t, row) == names
  {
    forall n ensures TopicFor(t, row, n) == if n in names then Some(names[n]) else None {
      MergedTopic(m, t, row, counts, names, n);
    }
    TopicsFromNames(t, row, names);
  }

  lemma MergedTopic(m: Merge, t: Dict, row: FileRow, counts: seq<nat>, names: map<string, TopicInfo>, n: string)
    requires Zips(m.byTopic, MembersOf(t, row), counts) && CountsOf(row) == counts && Agrees(m, names)
    requires t.topics == m.topics && t.schemas == m.schemas && Injective(t.schemas)
    ensures TopicFor(t, row, n) == if n in names then Some(names[n]) else None
  {
    if n in names {
      KeyOfId(t.schemas, names[n].schema);
    }
  }

  lemma RewrittenTags(tags: map<(Id, string), string>, id: Id, rows: map<string, string>)
    ensures TagsOf(DropRows(tags, id) + TagRows(id, rows), id) == rows
  {
    var tags' := DropRows(tags, id) + TagRows(id, rows);
    forall k | k in rows ensures (id, k) in tags' && tags'[(id, k)] == rows[k] {
      assert (id, k) in TagRows(id, rows);
    }
    forall fk | fk in tags' && fk.0 == id ensures fk.1 in rows {
      assert fk in TagRows(id, rows);
    }
  }

  lemma UntouchedTags(tags: map<(Id, string), string>, id: Id, rows: map<string, string>, j: Id)
    requires j != id
    ensures TagsOf(DropRows(tags, id) + TagRows(id, rows), j) == TagsOf(tags, j)
  {
    var tags' := DropRows(tags, id) + TagRows(id, rows);
    forall fk: (Id, string) | fk.0 == j
      ensures fk in tags' <==> fk in tags
      ensures fk in tags ==> tags'[fk] == tags[fk]
    {
      assert fk !in TagRows(id, rows);
    }
  }

  lemma DroppedTags<V>(tags: map<(Id, string), V>, id: Id, j: Id)
    ensures TagsOf(DropRows(tags, id), id) == map[]
    ensures j != id ==> TagsOf(DropRows(tags, id), j) == TagsOf(tags, j)
  {
    if j != id {
      forall fk: (Id, string) | fk.0 == j ensures fk in DropRows(tags, id) <==> fk in tags {
      }
    }
  }

  /** Putting a row shows its columns, topics and rewritten tags at its identity only. */
  lemma PutRowAt(t: Tables, d: Dims, c: Composite, row: FileRow, tags: map<string, string>)
    requires Lookup(t.dict, d) == Some(c)
    ensures RowAt(PutRow(t, c, row, tags), d) == Some(row)
    ensures FileAt(PutRow(t, c, row, tags), d) == Some(ViewRow(t, row).(tags := tags))
  {
    RewrittenTags(t.embedded, row.id, tags);
  }

  lemma PutRowOnlyAt(t: Tables, d: Dims, c: Composite, row: FileRow, tags: map<string, string>)
    requires IdsUnique(t.dict) && FileIdsUnique(t.files)
    requires Lookup(t.dict, d) == Some(c) && row.id == RowIdFor(t.files, c)
    ensures OnlyAt(t, PutRow(t, c, row, tags), d)
  {
    forall e | e != d
      ensures RowAt(PutRow(t, c, row, tags), e) == RowAt(t, e)
      ensures FileAt(PutRow(t, c, row, tags), e) == FileAt(t, e)
    {
      PutRowElsewhere(t, d, c, row, tags, e);
    }
  }

  lemma PutRowElsewhere(t: Tables, d: Dims, c: Composite, row: FileRow, tags: map<string, string>, e: Dims)
    requires IdsUnique(t.dict) && FileIdsUnique(t.files)
    requires Lookup(t.dict, d) == Some(c) && row.id == RowIdFor(t.files, c) && e != d
    ensures RowAt(PutRow(t, c, row, tags), e) == RowAt(t, e)
    ensures FileAt(PutRow(t, c, row, tags), e) == FileAt(t, e)
  {
    OtherTuple(t.dict, d, c, e);
    if RowAt(t, e).Some? {
      var c' := Lookup(t.dict, e).value;
      OtherId(t.files, c, c');
      UntouchedTags(t.embedded, row.id, tags, t.files[c'].id);
    }
  }

  lemma OtherId(files: map<Composite, FileRow>, c: Composite, c': Composite)
    requires FileIdsUnique(files) && c' in files && c' != c
    ensures files[c'].id != RowIdFor(files, c)
  {
  }

  lemma OtherTuple(t: Dict, d: Dims, c: Composite, e: Dims)
    requires IdsUnique(t) && Lookup(t, d) == Some(c) && e != d
    ensures Lookup(t, e) != Some(c)
  {
    if Lookup(t, e) == Some(c) {
      LookupInjective(t, d, e);
    }
  }

  lemma FileIdsKept(files: map<Composite, FileRow>, c: Composite, row: FileRow)
    requires row.id == RowIdFor(files, c)
    ensures IsFileId(files[c := row], row.id)
    ensures forall id :: IsFileId(files, id) ==> IsFileId(files[c := row], id)
  {
    var files' := files[c := row];
    assert files'[c].id == row.id;
    forall id | IsFileId(files, id) ensures IsFileId(files', id) {
      var c' :| c' in files && files[c'].id == id;
      assert c' in files' && files'[c'].id == id;
    }
  }

  lemma PutRowOwned(t: Tables, c: Composite, row: FileRow, tags: map<string, string>)
    requires row.id == RowIdFor(t.files, c) && FileIdsUnique(t.files)
    requires TagsOwned(t.files, t.embedded) && TagsOwned(t.files, t.overrides)
    ensures var t' := PutRow(t, c, row, tags);
      FileIdsUnique(t'.files) && TagsOwned(t'.files, t'.embedded) && TagsOwned(t'.files, t'.overrides)
  {
    var t' := PutRow(t, c, row, tags);
    FileIdsKept(t.files, c, row);
    forall fk | fk in t'.embedded ensures IsFileId(t'.files, fk.0) {
      if fk !in t.embedded {
        assert fk in TagRows(row.id, tags);
      }
    }
  }

  lemma PutRowValid(t: Tables, c: Composite, row: FileRow, tags: map<string, string>)
    requires Valid(t) && row.id == RowIdFor(t.files, c) && RowValid(t.dict, c, row)
    ensures Valid(PutRow(t, c, row, tags))
  {
    PutRowOwned(t, c, row, tags);
  }

  lemma DeleteFileView(t: Tables, d: Dims, c: Composite)
    requires Valid(t) && Lookup(t.dict, d) == Some(c)
    ensures Valid(DeleteFile(t, c)) && OnlyAt(t, DeleteFile(t, c), d)
    ensures RowAt(DeleteFile(t, c), d) == None && FileAt(DeleteFile(t, c), d) == None
  {
    DeleteFileValid(t, c);
    forall e | e != d
      ensures RowAt(DeleteFile(t, c), e) == RowAt(t, e) && FileAt(DeleteFile(t, c), e) == FileAt(t, e)
    {
      DeletedElsewhere(t, d, c, e);
    }
  }

  lemma DeletedElsewhere(t: Tables, d: Dims, c: Composite, e: Dims)
    requires IdsUnique(t.dict) && FileIdsUnique(t.files) && Lookup(t.dict, d) == Some(c) && e != d
    ensures RowAt(DeleteFile(t, c), e) == RowAt(t, e) && FileAt(DeleteFile(t, c), e) == FileAt(t, e)
  {
    OtherTuple(t.dict, d, c, e);
    if RowAt(t, e).Some? && c in t.files {
      DroppedTags(t.embedded, t.files[c].id, RowAt(t, e).value.id);
    }
  }

  lemma DeleteFileValid(t: Tables, c: Composite)
    requires Valid(t)
    ensures Valid(DeleteFile(t, c))
  {
    var t' := DeleteFile(t, c);
    if c in t.files {
      forall id | IsFileId(t.files, id) && id != t.files[c].id ensures IsFileId(t'.files, id) {
        var c' :| c' in t.files && t.files[c'].id == id;
        assert c' in t'.files;
      }
    }
  }
}
