/** The committed operations at the name level: one object's outcome, its failure record,
    and what happens to row ids and user tags. */
module OperationProofs {
  import opened Common
  import opened IdTables
  import opened KeyParse
  import opened Summary
  import opened Schema
  import opened Store
  import opened MergeProofs
  import opened StoreProofs

  /** The failure recorded for an object that cannot be catalogued, from the object alone. */
  function FailureOf(stat: Stat, read: ReadResult): Failure
    requires !HealthyRead(stat, read)
  {
    match read
    case Vanished => ReadError("missing")
    case Unreadable(error) => ReadError(error)
    case Ready(s) =>
      if ChannelTotal(s.channels) != s.messageCount
      then CountMismatch(ChannelTotal(s.channels), s.messageCount)
      else if !AllFit(stat, s) then IntegerTooLarge
      else DuplicateTagKey
  }

  function FailuresAfter(failures: map<string, Failure>, eff: string, stat: Stat, read: ReadResult)
    : map<string, Failure>
  {
    if HealthyRead(stat, read) then failures - {eff} else failures[eff := FailureOf(stat, read)]
  }

  /** Row ids and user tags: a surviving row keeps both, a new row starts without user tags. */
  ghost predicate KeepsTags(t: Tables, t': Tables) {
    forall d :: RowAt(t', d).Some? ==>
      var id := RowAt(t', d).value.id;
      if RowAt(t, d).Some?
      then RowAt(t, d).value.id == id && TagsOf(t'.overrides, id) == TagsOf(t.overrides, id)
      else TagsOf(t'.overrides, id) == map[]
  }

  /** The transaction fails exactly when the object is not healthy. */
  lemma WriteErrorExact(t: Dict, stat: Stat, s: FileSummary)
    ensures WriteError(stat, s, SetCounts(MergeAll(t, s.channels).byTopic))
         == (if Healthy(stat, s) then None else Some(FailureOf(stat, Ready(s))))
  {
    MergeConservesTotal(t, s.channels);
  }

  lemma NoTagsOfNewId(files: map<Composite, FileRow>, tags: map<(Id, string), Override>, id: Id)
    requires TagsOwned(files, tags) && !IsFileId(files, id)
    ensures TagsOf(tags, id) == map[]
  {
    forall fk | fk in tags ensures fk.0 != id {
      assert IsFileId(files, fk.0);
    }
  }

  lemma NewFileId(files: map<Composite, FileRow>)
    ensures !IsFileId(files, NextFileId(files))
  {
  }

  ghost function CommittedRow(t: Tables, c: Composite, stat: Stat, s: FileSummary): FileRow {
    NewRow(RowIdFor(t.files, c), InternedSet(t.dict, s.channels), stat, s,
           SetCounts(MergeAll(t.dict, s.channels).byTopic))
  }

  lemma CommitRowValid(t: Tables, d: Dims, c: Composite, eff: string, stat: Stat, s: FileSummary)
    requires Valid(t) && Lookup(t.dict, d) == Some(c)
    ensures Valid(CommitRow(t, c, eff, stat, s))
  {
    var dict, row := InternSummary(t.dict, s.channels), CommittedRow(t, c, stat, s);
    InternSummaryInterns(t.dict, s.channels);
    GrownDict(t, dict);
    WrittenTopics(t.dict, row, s.channels);
    CommittedRowValid(t.dict, d, c, row, s.channels);
    PutRowValid(t.(dict := dict), c, row, TagMap(s.tags));
  }

  /** A committed row shows exactly what the object says, whatever ids it was given. */
  lemma CommitRowView(t: Tables, d: Dims, c: Composite, eff: string, stat: Stat, s: FileSummary)
    requires Valid(t) && Lookup(t.dict, d) == Some(c)
    ensures OnlyAt(t, CommitRow(t, c, eff, stat, s), d)
    ensures FileAt(CommitRow(t, c, eff, stat, s), d) == Some(ViewOf(stat, s))
    ensures KeepsTags(t, CommitRow(t, c, eff, stat, s))
  {
    var put := CommittedTables(t, c, stat, s);
    CommittedShows(t, d, c, stat, s);
    CommittedKeepsTags(t, d, c, stat, s);
    OtherFailures(put, put.failures - {eff});
  }

  /** The tables with the new row, before its failure record is cleared. */
  ghost function CommittedTables(t: Tables, c: Composite, stat: Stat, s: FileSummary): Tables {
    PutRow(t.(dict := InternSummary(t.dict, s.channels)), c, CommittedRow(t, c, stat, s), TagMap(s.tags))
  }

  lemma CommittedShows(t: Tables, d: Dims, c: Composite, stat: Stat, s: FileSummary)
    requires Valid(t) && Lookup(t.dict, d) == Some(c)
    ensures OnlyAt(t, CommittedTables(t, c, stat, s), d)
    ensures FileAt(CommittedTables(t, c, stat, s), d) == Some(ViewOf(stat, s))
  {
    var dict, row, tags := InternSummary(t.dict, s.channels), CommittedRow(t, c, stat, s), TagMap(s.tags);
    InternSummaryInterns(t.dict, s.channels);
    GrownDict(t, dict);
    LookupGrows(t.dict, dict, d);
    WrittenTopics(t.dict, row, s.channels);
    PutRowAt(t.(dict := dict), d, c, row, tags);
    PutRowOnlyAt(t.(dict := dict), d, c, row, tags);
  }

  lemma CommittedKeepsTags(t: Tables, d: Dims, c: Composite, stat: Stat, s: FileSummary)
    requires Valid(t) && Lookup(t.dict, d) == Some(c)
    ensures KeepsTags(t, CommittedTables(t, c, stat, s))
  {
    var dict := InternSummary(t.dict, s.channels);
    InternSummaryInterns(t.dict, s.channels);
    GrownDict(t, dict);
    LookupGrows(t.dict, dict, d);
    PutRowKeepsTags(t.(dict := dict), d, c, CommittedRow(t, c, stat, s), TagMap(s.tags));
    KeepsTagsTransitive(t, t.(dict := dict), CommittedTables(t, c, stat, s));
  }

  /** `failures` and `build` are not part of the view. */
  lemma SameTables(t: Tables, t': Tables)
    requires t'.dict == t.dict && t'.files == t.files && t'.embedded == t.embedded && t'.overrides == t.overrides
    ensures SameView(t, t') && (Valid(t) ==> Valid(t'))
  {
  }

  lemma OtherFailures(t: Tables, failures: map<string, Failure>)
    ensures SameView(t, t.(failures := failures)) && (Valid(t) ==> Valid(t.(failures := failures)))
  {
    SameTables(t, t.(failures := failures));
  }

  lemma OtherFailuresKeepTags(t: Tables, t': Tables, failures: map<string, Failure>)
    requires KeepsTags(t, t')
    ensures KeepsTags(t, t'.(failures := failures))
  {
  }

  lemma CommittedRowValid(t: Dict, d: Dims, c: Composite, row: FileRow, channels: seq<ChannelInfo>)
    requires DictValid(t) && Lookup(t, d) == Some(c) && row.setId == InternedSet(t, channels)
    requires CountsOf(row) == SetCounts(MergeAll(t, channels).byTopic)
    ensures RowValid(InternSummary(t, channels), c, row)
  {
    InternSummaryInterns(t, channels);
    LookupGrows(t, InternSummary(t, channels), d);
    InternedSetMembers(t, channels);
    MembersExact(MergeAll(t, channels).byTopic);
  }

  lemma PutRowKeepsTags(t: Tables, d: Dims, c: Composite, row: FileRow, tags: map<string, string>)
    requires IdsUnique(t.dict) && FileIdsUnique(t.files) && TagsOwned(t.files, t.overrides)
    requires Lookup(t.dict, d) == Some(c) && row.id == RowIdFor(t.files, c)
    ensures KeepsTags(t, PutRow(t, c, row, tags))
  {
    PutRowAt(t, d, c, row, tags);
    PutRowOnlyAt(t, d, c, row, tags);
    NewRowUntagged(t, c);
  }

  lemma NewRowUntagged(t: Tables, c: Composite)
    requires TagsOwned(t.files, t.overrides)
    ensures c !in t.files ==> TagsOf(t.overrides, RowIdFor(t.files, c)) == map[]
  {
    NewFileId(t.files);
    if c !in t.files {
      NoTagsOfNewId(t.files, t.overrides, RowIdFor(t.files, c));
    }
  }

  lemma CommitRowFailures(t: Tables, c: Composite, eff: string, stat: Stat, s: FileSummary)
    ensures CommitRow(t, c, eff, stat, s).failures == t.failures - {eff}
  {
  }

  lemma QuarantineView(t: Tables, d: Dims, c: Composite, eff: string, error: Failure)
    requires Valid(t) && Lookup(t.dict, d) == Some(c)
    ensures Valid(Quarantine(t, c, eff, error)) && OnlyAt(t, Quarantine(t, c, eff, error), d)
    ensures FileAt(Quarantine(t, c, eff, error), d) == None
    ensures KeepsTags(t, Quarantine(t, c, eff, error))
    ensures Quarantine(t, c, eff, error).failures == t.failures[eff := error]
  {
    var t', failures := DeleteFile(t, c), t.failures[eff := error];
    DeleteFileView(t, d, c);
    OtherFailures(t', failures);
    DeleteKeepsTags(t, d, c);
    OtherFailuresKeepTags(t, t', failures);
    assert Quarantine(t, c, eff, error) == t'.(failures := failures);
  }

  lemma DeleteKeepsTags(t: Tables, d: Dims, c: Composite)
    requires Valid(t) && Lookup(t.dict, d) == Some(c)
    ensures KeepsTags(t, DeleteFile(t, c))
  {
    DeleteFileView(t, d, c);
    var t' := DeleteFile(t, c);
    forall e | RowAt(t', e).Some? ensures
      RowAt(t, e) == RowAt(t', e)
      && TagsOf(t'.overrides, RowAt(t', e).value.id) == TagsOf(t.overrides, RowAt(t', e).value.id)
    {
      OtherTuple(t.dict, d, c, e);
      if c in t.files {
        DroppedTags(t.overrides, t.files[c].id, RowAt(t, e).value.id);
      }
    }
  }

  /** The per-file transaction, success or rollback, at the name level. */
  lemma WriteFileRowView(t: Tables, d: Dims, c: Composite, eff: string, stat: Stat, s: FileSummary)
    requires Valid(t) && Lookup(t.dict, d) == Some(c)
    ensures var (t', status) := WriteFileRow(t, c, eff, stat, s);
      && Valid(t') && OnlyAt(t, t', d) && KeepsTags(t, t')
      && FileAt(t', d) == Published(stat, Ready(s))
      && t'.failures == FailuresAfter(t.failures, eff, stat, Ready(s))
      && status == (if Healthy(stat, s) then Cataloged else Failed)
  {
    WriteErrorExact(t.dict, stat, s);
    if Healthy(stat, s) {
      CommitRowValid(t, d, c, eff, stat, s);
      CommitRowFailures(t, c, eff, stat, s);
      CommitRowView(t, d, c, eff, stat, s);
    } else {
      QuarantineView(t, d, c, eff, FailureOf(stat, Ready(s)));
    }
  }

  /** Resolving the dimensions commits lookup rows and changes nothing a reader sees. */
  lemma ResolvedView(t: Tables, d: Dims)
    requires Valid(t)
    ensures var t' := t.(dict := ResolveDims(t.dict, d));
      Valid(t') && SameView(t, t') && KeepsTags(t, t')
  {
    ResolveDimsInterns(t.dict, d);
    GrownDict(t, ResolveDims(t.dict, d));
  }

  lemma KeepsTagsTransitive(t: Tables, t1: Tables, t2: Tables)
    requires SameView(t, t1) && t1.overrides == t.overrides && KeepsTags(t1, t2)
    ensures KeepsTags(t, t2)
  {
  }

  /** One extract of a reconcile: its own identity shows the object or nothing (unchanged when
      the object vanished), every other identity is untouched. */
  lemma ApplyExtractView(t: Tables, ex: Extract)
    requires Valid(t)
    ensures var (t', status) := ApplyExtract(t, ex);
      && Valid(t') && OnlyAt(t, t', ex.dims) && KeepsTags(t, t')
      && FileAt(t', ex.dims) == (if ex.read.Vanished? then FileAt(t, ex.dims) else Published(ex.stat, ex.read))
      && t'.failures == (if ex.read.Vanished? then t.failures
                         else FailuresAfter(t.failures, ex.eff, ex.stat, ex.read))
      && status == (if HealthyRead(ex.stat, ex.read) then Cataloged else Failed)
  {
    if !ex.read.Vanished? {
      ResolvedView(t, ex.dims);
      var t1, c := t.(dict := ResolveDims(t.dict, ex.dims)), ResolvedIds(t.dict, ex.dims);
      match ex.read {
        case Unreadable(error) =>
          QuarantineView(t1, ex.dims, c, ex.eff, ReadError(error));
        case Ready(s) =>
          WriteFileRowView(t1, ex.dims, c, ex.eff, ex.stat, s);
      }
      KeepsTagsTransitive(t, t1, ApplyExtract(t, ex).0);
    }
  }

  /** apply_extract as a whole: a key without an identity leaves its failure record and nothing
      else; an extract makes its identity show the object or nothing. */
  lemma ApplyFetchedView(t: Tables, f: Fetched)
    requires Valid(t)
    ensures var (t', status) := ApplyFetched(t, f);
      && Valid(t') && KeepsTags(t, t')
      && match f
         case Unidentified(key) =>
           SameView(t, t') && t'.failures == t.failures[key := UnparseableKey] && status == Failed
         case Identified(ex) =>
           && OnlyAt(t, t', ex.dims) && status == (if HealthyRead(ex.stat, ex.read) then Cataloged else Failed)
           && FileAt(t', ex.dims) == (if ex.read.Vanished? then FileAt(t, ex.dims) else Published(ex.stat, ex.read))
           && t'.failures == (if ex.read.Vanished? then t.failures
                              else FailuresAfter(t.failures, ex.eff, ex.stat, ex.read))
  {
    match f
    case Unidentified(key) => SameTables(t, RecordFailure(t, key, UnparseableKey));
    case Identified(ex) => ApplyExtractView(t, ex);
  }

  /** The event path skips a row that already has the listed etag, whatever the read gives. */
  lemma CatalogTargetSkips(t: Tables, key: string, d: Dims, eff: string, stat: Stat, read: ReadResult)
    requires Valid(t) && FileAt(t, d).Some? && FileAt(t, d).value.etag == stat.etag
    ensures CatalogTarget(t, key, Some((d, eff)), stat, read) == (t.(dict := ResolveDims(t.dict, d)), Skipped)
  {
    ResolvedView(t, d);
    assert RowAt(t.(dict := ResolveDims(t.dict, d)), d).Some?;
  }

  /** Otherwise it is one extract, except that an object missing at read time is quarantined. */
  lemma CatalogTargetApplies(t: Tables, key: string, d: Dims, eff: string, stat: Stat, read: ReadResult)
    requires Valid(t) && (FileAt(t, d).Some? ==> FileAt(t, d).value.etag != stat.etag)
    ensures CatalogTarget(t, key, Some((d, eff)), stat, read)
         == ApplyExtract(t, Extract(key, stat, d, eff, if read.Vanished? then Unreadable("missing") else read))
  {
    ResolvedView(t, d);
    assert RowAt(t.(dict := ResolveDims(t.dict, d)), d) == RowAt(t, d);
  }

  /** delete_by_key removes the row of an identity exactly when the key, without leading
      slashes, is that identity's canonical key or the canonical key plus one newline. */
  lemma DeleteByKeyView(t: Tables, key: string, d: Dims)
    requires Valid(t) && FileAt(t, d).Some? && WellFormed(d)
    ensures FileAt(DeleteByKey(t, key).0, d) ==
      if LStrip(key) == RebuildHiveKey(d) || LStrip(key) == RebuildHiveKey(d) + "\n"
      then None else FileAt(t, d)
  {
    ParseExact(key, d);
    DeleteParsedView(t, key, ParseHiveKey(key), d);
  }

  lemma DeleteParsedView(t: Tables, key: string, parsed: Option<Dims>, d: Dims)
    requires Valid(t)
    ensures FileAt(DeleteParsed(t, key, parsed).0, d) == if parsed == Some(d) then None else FileAt(t, d)
  {
    if parsed.Some? && Lookup(t.dict, parsed.value).Some? {
      var c := Lookup(t.dict, parsed.value).value;
      DeleteFileView(t, parsed.value, c);
      OtherFailures(DeleteFile(t, c), DeleteFile(t, c).failures - {key});
    }
  }

  lemma DeleteParsedValid(t: Tables, key: string, parsed: Option<Dims>)
    requires Valid(t)
    ensures Valid(DeleteParsed(t, key, parsed).0)
  {
    if parsed.Some? && Lookup(t.dict, parsed.value).Some? {
      var c := Lookup(t.dict, parsed.value).value;
      DeleteFileValid(t, c);
      OtherFailures(DeleteFile(t, c), DeleteFile(t, c).failures - {key});
    }
  }

  /** A delete event removes at most its own failure record. */
  lemma DeleteParsedFailures(t: Tables, key: string, parsed: Option<Dims>)
    ensures var fs := DeleteParsed(t, key, parsed).0.failures; fs == t.failures || fs == t.failures - {key}
  {
  }

  lemma DeleteParsedKeepsTags(t: Tables, key: string, parsed: Option<Dims>)
    requires Valid(t)
    ensures KeepsTags(t, DeleteParsed(t, key, parsed).0)
  {
    if parsed.Some? && Lookup(t.dict, parsed.value).Some? {
      var c := Lookup(t.dict, parsed.value).value;
      DeleteKeepsTags(t, parsed.value, c);
      OtherFailuresKeepTags(t, DeleteFile(t, c), DeleteFile(t, c).failures - {key});
    }
  }
}
