/** What a catalogued file shows and when a file is refused, in the source's own terms: column by
    column, without the functions that the program and its specification share. */
module ViewMeaning {
  import opened Common
  import opened Summary
  import opened Schema
  import opened Store
  import opened StoreProofs
  import opened OperationProofs
  import opened KeyParse
  import opened McapSummary

  // ---- has_error ----

  /** `word` is `value` with its ASCII capitals made small, character by character. */
  predicate SmallLetters(value: string, word: string) {
    |value| == |word| && forall i :: 0 <= i < |value| ==> SmallLetter(value[i], word[i])
  }

  predicate SmallLetter(c: char, small: char) {
    if 'A' <= c <= 'Z' then small as int - c as int == 'a' as int - 'A' as int else small == c
  }

  lemma {:induction false} LowerExact(s: string, word: string)
    ensures Lower(s) == word <==> SmallLetters(s, word)
  {
    LowerEach(s);
    if SmallLetters(s, word) {
      forall i | 0 <= i < |s| ensures Lower(s)[i] == word[i] {
        assert SmallLetter(s[i], word[i]) && SmallLetter(s[i], Lower(s)[i]);
      }
    }
  }

  lemma {:induction false} LowerEach(s: string)
    ensures |Lower(s)| == |s| && forall i :: 0 <= i < |s| ==> SmallLetter(s[i], Lower(s)[i])
  {
    if s != [] {
      LowerEach(s[1..]);
    }
  }

  predicate SaysError(key: string, value: string) {
    (key == "error" || key == "has_error")
    && (SmallLetters(value, "1") || SmallLetters(value, "true") || SmallLetters(value, "yes"))
  }

  lemma ErrorTagExact(key: string, value: string)
    ensures IsErrorTag(key, value) <==> SaysError(key, value)
  {
    LowerExact(value, "1");
    LowerExact(value, "true");
    LowerExact(value, "yes");
  }

  ghost predicate Suspect(s: FileSummary) {
    s.messageCount == 0 || exists i :: 0 <= i < |s.tags| && SaysError(s.tags[i].0, s.tags[i].1)
  }

  lemma HasErrorExact(s: FileSummary)
    ensures HasError(s) <==> Suspect(s)
  {
    forall i | 0 <= i < |s.tags| ensures IsErrorTag(s.tags[i].0, s.tags[i].1) <==> SaysError(s.tags[i].0, s.tags[i].1) {
      ErrorTagExact(s.tags[i].0, s.tags[i].1);
    }
  }

  // ---- totals, topics and tags ----

  /** The channel total is the only function that is zero on nothing, the count of a single
      channel, and additive. */
  lemma {:induction false} ChannelTotalAdds(a: seq<ChannelInfo>, b: seq<ChannelInfo>)
    ensures ChannelTotal([]) == 0 && ChannelTotal(a + b) == ChannelTotal(a) + ChannelTotal(b)
    ensures |b| == 1 ==> ChannelTotal(b) == b[0].messageCount
    decreases |b|
  {
    if b == [] {
      assert a + b == a;
    } else {
      var init := b[..|b| - 1];
      ChannelTotalAdds(a, init);
      assert (a + b)[..|a + b| - 1] == a + init;
      assert |b| == 1 ==> init == [];
    }
  }

  ghost predicate IsTag(tags: seq<(string, string)>, k: string, v: string) {
    exists i :: 0 <= i < |tags| && tags[i] == (k, v)
  }

  /** With distinct keys the tag map holds exactly the listed pairs. */
  lemma {:induction false} TagMapExact(tags: seq<(string, string)>, k: string, v: string)
    requires DistinctTagKeys(tags)
    ensures k in TagMap(tags) && TagMap(tags)[k] == v <==> IsTag(tags, k, v)
  {
    if tags != [] {
      var init, last := tags[..|tags| - 1], tags[|tags| - 1];
      TagMapExact(init, k, v);
      IsTagLast(tags, k, v);
    }
  }

  lemma IsTagLast(tags: seq<(string, string)>, k: string, v: string)
    requires tags != [] && DistinctTagKeys(tags)
    ensures IsTag(tags, k, v) <==> IsTag(tags[..|tags| - 1], k, v) || tags[|tags| - 1] == (k, v)
    ensures IsTag(tags[..|tags| - 1], k, v) ==> tags[|tags| - 1].0 != k
  {
    var init := tags[..|tags| - 1];
    if IsTag(tags, k, v) {
      var i :| 0 <= i < |tags| && tags[i] == (k, v);
      assert i < |init| ==> init[i] == (k, v);
    }
    if IsTag(init, k, v) {
      var i :| 0 <= i < |init| && init[i] == (k, v);
      assert tags[i] == (k, v);
    }
  }

  predicate Int64(x: int) {
    -9223372036854775808 <= x <= 9223372036854775807
  }

  predicate IntegersFit(stat: Stat, s: FileSummary) {
    Int64(stat.size) && Int64(stat.mtimeNs) && Int64(s.startNs) && Int64(s.endNs) && Int64(s.chunkCount)
  }

  predicate KeysDiffer(tags: seq<(string, string)>) {
    forall i, j :: 0 <= i < j < |tags| ==> tags[i].0 != tags[j].0
  }

  /** The view, column by column. */
  ghost predicate ShowsObject(v: FileView, stat: Stat, s: FileSummary) {
    && v.etag == stat.etag && v.size == stat.size
    && v.startNs == s.startNs && v.endNs == s.endNs && v.chunkCount == s.chunkCount
    && (v.hasError <==> Suspect(s))
    && (forall k, x :: (k in v.tags && v.tags[k] == x) <==> IsTag(s.tags, k, x))
    && (forall n :: n in v.topics <==> FirstOf(s.channels, n).Some?)
    && (forall n :: n in v.topics ==>
          v.topics[n] == TopicInfo(FirstOf(s.channels, n).value.schema, TopicTotal(s.channels, n)))
  }

  lemma ViewExact(stat: Stat, s: FileSummary)
    requires DistinctTagKeys(s.tags)
    ensures ShowsObject(ViewOf(stat, s), stat, s)
  {
    HasErrorExact(s);
    forall k, x ensures k in TagMap(s.tags) && TagMap(s.tags)[k] == x <==> IsTag(s.tags, k, x) {
      TagMapExact(s.tags, k, x);
    }
    forall n
      ensures n in TopicsByName(s.channels) <==> FirstOf(s.channels, n).Some?
      ensures n in TopicsByName(s.channels) ==>
        TopicsByName(s.channels)[n] == TopicInfo(FirstOf(s.channels, n).value.schema, TopicTotal(s.channels, n))
    {
      TopicShown(s.channels, n);
    }
  }

  /** A source object is published exactly when its summary was read, its counts sum to the stated
      total, every integer fits and no tag key repeats; and then column by column. */
  lemma PublishedExact(stat: Stat, read: ReadResult)
    ensures Published(stat, read).Some? <==>
      read.Ready? && ChannelTotal(read.summary.channels) == read.summary.messageCount
      && IntegersFit(stat, read.summary) && KeysDiffer(read.summary.tags)
    ensures Published(stat, read).Some? ==> ShowsObject(Published(stat, read).value, stat, read.summary)
  {
    if Published(stat, read).Some? {
      ViewExact(stat, read.summary);
    }
  }

  // ---- the per-file transaction ----

  /** The first refusal that applies, in the order of the code. */
  predicate RefusedAs(failure: Failure, stat: Stat, s: FileSummary) {
    if ChannelTotal(s.channels) != s.messageCount
    then failure == CountMismatch(ChannelTotal(s.channels), s.messageCount)
    else if !IntegersFit(stat, s) then failure == IntegerTooLarge
    else !KeysDiffer(s.tags) && failure == DuplicateTagKey
  }

  /** The failure table afterwards: no other key's record changed, and this one's says why. */
  ghost predicate RecordsOutcome(before: map<string, Failure>, after: map<string, Failure>, eff: string,
                                 stat: Stat, s: FileSummary, written: bool)
  {
    && (if written then eff !in after else eff in after && RefusedAs(after[eff], stat, s))
    && (forall k :: k != eff ==> (k in after <==> k in before))
    && (forall k :: k != eff && k in before && k in after ==> after[k] == before[k])
  }

  lemma OutcomeRecorded(before: map<string, Failure>, eff: string, stat: Stat, s: FileSummary)
    ensures RecordsOutcome(before, FailuresAfter(before, eff, stat, Ready(s)), eff, stat, s, Healthy(stat, s))
  {
  }

  /** What _write_file_row leaves: the row is there exactly when nothing is refused, with every
      column from the object; the failure record says why when it is not. */
  lemma TransactionExact(t: Tables, d: Dims, c: Composite, eff: string, stat: Stat, s: FileSummary)
    requires Valid(t) && Lookup(t.dict, d) == Some(c)
    ensures var (t', status) := WriteFileRow(t, c, eff, stat, s);
      && (FileAt(t', d).Some? <==> ChannelTotal(s.channels) == s.messageCount
                                   && IntegersFit(stat, s) && KeysDiffer(s.tags))
      && (FileAt(t', d).Some? ==> ShowsObject(FileAt(t', d).value, stat, s))
      && RecordsOutcome(t.failures, t'.failures, eff, stat, s, FileAt(t', d).Some?)
      && status == (if FileAt(t', d).Some? then Cataloged else Failed)
  {
    WriteFileRowView(t, d, c, eff, stat, s);
    PublishedExact(stat, Ready(s));
    OutcomeRecorded(t.failures, eff, stat, s);
  }

  /** The row itself: the columns that the view does not show, and has_error as it is stored. */
  lemma RowExact(t: Tables, d: Dims, c: Composite, eff: string, stat: Stat, s: FileSummary)
    requires Valid(t) && Lookup(t.dict, d) == Some(c)
    ensures var (t', status) := WriteFileRow(t, c, eff, stat, s);
      status == Cataloged ==>
        && c in t'.files && t'.files[c].lastModifiedNs == stat.mtimeNs
        && t'.files[c].etag == stat.etag && t'.files[c].size == stat.size
        && t'.files[c].startNs == s.startNs && t'.files[c].endNs == s.endNs
        && t'.files[c].chunkCount == s.chunkCount && (t'.files[c].hasError <==> Suspect(s))
  {
    HasErrorExact(s);
  }

  // ---- the operations around it ----

  /** What one object leaves at its identity, from the read alone. */
  ghost predicate LeavesObject(t: Tables, t': Tables, status: Status, d: Dims, eff: string, stat: Stat,
                               read: ReadResult)
    requires !read.Vanished?
  {
    match read
    case Unreadable(error) =>
      FileAt(t', d) == None && t'.failures == t.failures[eff := ReadError(error)] && status == Failed
    case Ready(s) =>
      && (FileAt(t', d).Some? <==> ChannelTotal(s.channels) == s.messageCount
                                   && IntegersFit(stat, s) && KeysDiffer(s.tags))
      && (FileAt(t', d).Some? ==> ShowsObject(FileAt(t', d).value, stat, s))
      && RecordsOutcome(t.failures, t'.failures, eff, stat, s, FileAt(t', d).Some?)
      && status == (if FileAt(t', d).Some? then Cataloged else Failed)
  }

  /** apply_extract, branch by branch. */
  lemma ExtractExact(t: Tables, ex: Extract)
    requires Valid(t)
    ensures var (t', status) := ApplyExtract(t, ex);
      if ex.read.Vanished? then t' == t && status == Failed
      else OnlyAt(t, t', ex.dims) && LeavesObject(t, t', status, ex.dims, ex.eff, ex.stat, ex.read)
  {
    ApplyExtractView(t, ex);
    if ex.read.Ready? {
      PublishedExact(ex.stat, ex.read);
      OutcomeRecorded(t.failures, ex.eff, ex.stat, ex.read.summary);
    }
  }

  /** catalog_object for a key that resolves: skipped on the etag alone, else the object. */
  lemma CatalogExact(t: Tables, key: string, d: Dims, eff: string, stat: Stat, read: ReadResult)
    requires Valid(t)
    ensures var (t', status) := CatalogTarget(t, key, Some((d, eff)), stat, read);
      && OnlyAt(t, t', d)
      && if FileAt(t, d).Some? && FileAt(t, d).value.etag == stat.etag
         then FileAt(t', d) == FileAt(t, d) && t'.failures == t.failures && status == Skipped
         else LeavesObject(t, t', status, d, eff, stat, if read.Vanished? then Unreadable("missing") else read)
  {
    if FileAt(t, d).Some? && FileAt(t, d).value.etag == stat.etag {
      CatalogTargetSkips(t, key, d, eff, stat, read);
      ResolvedView(t, d);
    } else {
      CatalogTargetApplies(t, key, d, eff, stat, read);
      ExtractExact(t, Extract(key, stat, d, eff, if read.Vanished? then Unreadable("missing") else read));
    }
  }

  /** A key without an identity leaves its failure record; an object gone before its HEAD nothing. */
  lemma CatalogNothing(t: Tables, key: string, stat: Option<Stat>, intended: Option<string>, read: ReadResult)
    ensures stat.None? ==> CatalogObject(t, key, stat, intended, read) == (t, Failed)
    ensures stat.Some? && ResolveKeyDims(key, intended).None? ==>
        CatalogObject(t, key, stat, intended, read) == (t.(failures := t.failures[key := UnparseableKey]), Failed)
    ensures stat.Some? && ResolveKeyDims(key, intended).Some? ==>
        CatalogObject(t, key, stat, intended, read)
        == CatalogTarget(t, key, ResolveKeyDims(key, intended), stat.value, read)
  {
  }

  /** delete_by_key: with an identity whose names are known the row and this key's failure record
      go, and the answer is whether there was a row; otherwise nothing changes. */
  lemma DeleteExact(t: Tables, key: string, d: Dims)
    requires Valid(t)
    ensures var (t', deleted) := DeleteByKey(t, key);
      && (ParseHiveKey(key) == Some(d) && Lookup(t.dict, d).Some? ==>
            FileAt(t', d) == None && OnlyAt(t, t', d)
            && t'.failures == t.failures - {key} && (deleted <==> FileAt(t, d).Some?))
      && (ParseHiveKey(key) == Some(d) && Lookup(t.dict, d).None? ==> t' == t && !deleted)
      && (ParseHiveKey(key) == None ==> t' == t && !deleted)
  {
    DeleteParsedExact(t, key, ParseHiveKey(key));
  }

  lemma DeleteParsedExact(t: Tables, key: string, parsed: Option<Dims>)
    requires Valid(t)
    ensures var (t', deleted) := DeleteParsed(t, key, parsed);
      if parsed.None? || Lookup(t.dict, parsed.value).None? then t' == t && !deleted
      else
        && FileAt(t', parsed.value) == None && OnlyAt(t, t', parsed.value)
        && t'.failures == t.failures - {key} && (deleted <==> FileAt(t, parsed.value).Some?)
  {
    if parsed.Some? && Lookup(t.dict, parsed.value).Some? {
      var c := Lookup(t.dict, parsed.value).value;
      DeleteFileView(t, parsed.value, c);
      OtherFailures(DeleteFile(t, c), DeleteFile(t, c).failures - {key});
    }
  }
}
