/** db.py, builder.py and reconcile.py as the program runs them: one connection with a working
    copy and a committed snapshot, seven in-memory caches, and the methods that change them.
    Each public method is proved to leave exactly what the functions of Store, Reconcile and
    Tags say, with every change committed and the caches equal to their tables. */
module Catalog {
  import opened Common
  import opened IdTables
  import opened KeyParse
  import opened Summary
  import opened Schema
  import opened Store
  import opened MergeProofs
  import opened OperationProofs
  import opened Reconcile
  import opened ReconcileProofs
  import opened ReconcileMeaning
  import Varint
  import Tags

  /** One object of a full listing, with what the source answers about it during the scan. */
  datatype Listing = Listing(key: string, stat: Stat, intended: Option<string>, read: ReadResult)

  /** resolve_key_dims is called once per listing and its result kept. */
  function SeenFor(l: Listing): Seen {
    Seen(l.key, l.stat, ResolveKeyDims(l.key, l.intended), l.read)
  }

  function SeenOf(listings: seq<Listing>): (seen: seq<Seen>)
    ensures |seen| == |listings|
    ensures forall i :: 0 <= i < |seen| ==> seen[i] == SeenFor(listings[i])
  {
    seq(|listings|, i requires 0 <= i < |listings| => SeenFor(listings[i]))
  }

  /** load_caches, one SELECT: a dict filled row by row. */
  method FillCache<K(==)>(table: map<K, Id>) returns (cache: map<K, Id>)
    ensures cache == table
  {
    cache := map[];
    var todo := table.Keys;
    while todo != {}
      invariant todo <= table.Keys
      invariant cache.Keys == table.Keys - todo
      invariant forall k :: k in cache ==> cache[k] == table[k]
      decreases |todo|
    {
      var k :| k in todo;
      cache := cache[k := table[k]];
      todo := todo - {k};
    }
  }

  /** A cache may lack rows of its table, but has no wrong ones. */
  ghost predicate IsCacheOf<K(!new)>(cache: map<K, Id>, table: map<K, Id>) {
    forall k :: k in cache ==> k in table && cache[k] == table[k]
  }

  /** One resolver: the cached id, else INSERT OR IGNORE, SELECT id, and cache it. */
  method ResolveNamed<K(==, !new)>(table: map<K, Id>, cache: map<K, Id>, k: K)
    returns (table': map<K, Id>, cache': map<K, Id>, id: Id)
    requires IsCacheOf(cache, table)
    ensures table' == Intern(table, k) && id == table'[k] && cache' == cache[k := id]
    ensures IsCacheOf(cache', table') && (cache == table ==> cache' == table')
  {
    if k in cache {
      return table, cache, cache[k];
    }
    table' := if k in table then table else table[k := NextId(table)];
    cache' := cache[k := table'[k]];
    id := cache'[k];
  }

  /** resolve_topic_set: the cache, then the table, then an insert that brings its members. Members
      out of order, or with a topic twice, are refused. */
  method ResolveSet(t: Dict, cache: map<seq<Member>, Id>, ms: seq<Member>)
    returns (t': Dict, cache': map<seq<Member>, Id>, r: Option<Id>)
    requires IsCacheOf(cache, t.topicSets)
    ensures r.None? <==> ms !in t.topicSets && !Sorted(ms)
    ensures r.None? ==> t' == t && cache' == cache
    ensures r.Some? ==> t' == InternSet(t, ms) && ms in t'.topicSets && r.value == t'.topicSets[ms]
    ensures r.Some? ==> cache' == cache[ms := r.value]
    ensures IsCacheOf(cache', t'.topicSets) && (cache == t.topicSets ==> cache' == t'.topicSets)
  {
    t', cache' := t, cache;
    if ms in cache {
      return t, cache, Some(cache[ms]);
    }
    if ms in t.topicSets {
      return t, cache[ms := t.topicSets[ms]], Some(t.topicSets[ms]);
    }
    if !Sorted(ms) {
      return t, cache, None;
    }
    var id := NextId(t.topicSets);
    t' := t.(topicSets := t.topicSets[ms := id], members := t.members[id := ms]);
    return t', cache[ms := id], Some(id);
  }

  class Caches {
    var customer: map<string, Id>
    var site: map<(Id, string), Id>
    var robot: map<(Id, string), Id>
    var source: map<string, Id>
    var topic: map<string, Id>
    var schema: map<(string, string), Id>
    var topicSet: map<seq<Member>, Id>

    ghost predicate Matches(t: Dict)
      reads this
    {
      && customer == t.customers && site == t.sites && robot == t.robots && source == t.sources
      && topic == t.topics && schema == t.schemas && topicSet == t.topicSets
    }

    /** No id stands for two names. */
    ghost predicate Unaliased()
      reads this
    {
      && Injective(customer) && Injective(site) && Injective(robot) && Injective(source)
      && Injective(topic) && Injective(schema) && Injective(topicSet)
    }

    constructor ()
      ensures Matches(EMPTY.dict)
    {
      customer, site, robot, source, topic, schema, topicSet := map[], map[], map[], map[], map[], map[], map[];
    }

    method Load(t: Dict)
      modifies this
      ensures Matches(t)
    {
      customer := FillCache(t.customers);
      site := FillCache(t.sites);
      robot := FillCache(t.robots);
      source := FillCache(t.sources);
      topic := FillCache(t.topics);
      schema := FillCache(t.schemas);
      topicSet := FillCache(t.topicSets);
    }

    /** _composite_ids, from the caches only. */
    method CompositeIds(d: Dims, ghost t: Dict) returns (c: Option<Composite>)
      requires Matches(t)
      ensures c == Lookup(t, d)
    {
      if d.customer !in customer {
        return None;
      }
      var cid := customer[d.customer];
      if (cid, d.site) !in site {
        return None;
      }
      var sid := site[(cid, d.site)];
      if (sid, d.robot) !in robot || d.source !in source {
        return None;
      }
      return Some(Composite(cid, sid, robot[(sid, d.robot)], source[d.source], d.date, d.filename));
    }
  }

  class Connection {
    var db: Tables
    var committed: Tables
    const caches: Caches

    /** Between transactions: everything committed, caches equal to their tables. */
    ghost predicate Quiet()
      reads this, caches
    {
      db == committed && caches.Matches(db.dict)
    }

    constructor (t: Tables)
      ensures Quiet() && db == t && fresh(caches)
    {
      db, committed := t, t;
      caches := new Caches();
      new;
      caches.Load(t.dict);
    }

    method Commit()
      modifies this`committed
      ensures committed == db
    {
      committed := db;
    }

    /** The exception path: the transaction is undone and the caches are reloaded. */
    method Rollback()
      modifies this`db, caches
      ensures db == committed && caches.Matches(db.dict)
    {
      db := committed;
      caches.Load(db.dict);
    }

    method ResolveTopic(name: string) returns (id: Id)
      requires caches.Matches(db.dict)
      modifies this`db, caches
      ensures caches.Matches(db.dict) && name in db.dict.topics && id == db.dict.topics[name]
      ensures db == old(db).(dict := old(db.dict).(topics := Intern(old(db.dict.topics), name)))
    {
      var table, cache;
      table, cache, id := ResolveNamed(db.dict.topics, caches.topic, name);
      db := db.(dict := db.dict.(topics := table));
      caches.topic := cache;
    }

    method ResolveSchema(schema: (string, string)) returns (id: Id)
      requires caches.Matches(db.dict)
      modifies this`db, caches
      ensures caches.Matches(db.dict) && schema in db.dict.schemas && id == db.dict.schemas[schema]
      ensures db == old(db).(dict := old(db.dict).(schemas := Intern(old(db.dict.schemas), schema)))
    {
      var table, cache;
      table, cache, id := ResolveNamed(db.dict.schemas, caches.schema, schema);
      db := db.(dict := db.dict.(schemas := table));
      caches.schema := cache;
    }

    method ResolveTopicSet(ms: seq<Member>) returns (id: Id)
      requires caches.Matches(db.dict) && Sorted(ms)
      modifies this`db, caches
      ensures caches.Matches(db.dict)
      ensures db == old(db).(dict := InternSet(old(db.dict), ms)) && ms in db.dict.topicSets
      ensures id == db.dict.topicSets[ms]
    {
      var dict, cache, r := ResolveSet(db.dict, caches.topicSet, ms);
      db := db.(dict := dict);
      caches.topicSet := cache;
      id := r.value;
    }

    method ResolveCustomer(name: string) returns (id: Id)
      requires caches.Matches(db.dict)
      modifies this`db, caches
      ensures caches.Matches(db.dict) && name in db.dict.customers && id == db.dict.customers[name]
      ensures db == old(db).(dict := old(db.dict).(customers := Intern(old(db.dict.customers), name)))
    {
      var table, cache;
      table, cache, id := ResolveNamed(db.dict.customers, caches.customer, name);
      db := db.(dict := db.dict.(customers := table));
      caches.customer := cache;
    }

    method ResolveSite(customer: Id, name: string) returns (id: Id)
      requires caches.Matches(db.dict)
      modifies this`db, caches
      ensures caches.Matches(db.dict) && (customer, name) in db.dict.sites && id == db.dict.sites[(customer, name)]
      ensures db == old(db).(dict := old(db.dict).(sites := Intern(old(db.dict.sites), (customer, name))))
    {
      var table, cache;
      table, cache, id := ResolveNamed(db.dict.sites, caches.site, (customer, name));
      db := db.(dict := db.dict.(sites := table));
      caches.site := cache;
    }

    method ResolveRobot(site: Id, name: string) returns (id: Id)
      requires caches.Matches(db.dict)
      modifies this`db, caches
      ensures caches.Matches(db.dict) && (site, name) in db.dict.robots && id == db.dict.robots[(site, name)]
      ensures db == old(db).(dict := old(db.dict).(robots := Intern(old(db.dict.robots), (site, name))))
    {
      var table, cache;
      table, cache, id := ResolveNamed(db.dict.robots, caches.robot, (site, name));
      db := db.(dict := db.dict.(robots := table));
      caches.robot := cache;
    }

    method ResolveSource(name: string) returns (id: Id)
      requires caches.Matches(db.dict)
      modifies this`db, caches
      ensures caches.Matches(db.dict) && name in db.dict.sources && id == db.dict.sources[name]
      ensures db == old(db).(dict := old(db.dict).(sources := Intern(old(db.dict.sources), name)))
    {
      var table, cache;
      table, cache, id := ResolveNamed(db.dict.sources, caches.source, name);
      db := db.(dict := db.dict.(sources := table));
      caches.source := cache;
    }

    /** _resolve_ids: the four dimensions, committed. */
    method ResolveIds(d: Dims) returns (c: Composite)
      requires Quiet()
      modifies this, caches
      ensures Quiet() && db == old(db).(dict := ResolveDims(old(db.dict), d))
      ensures c == ResolvedIds(old(db.dict), d)
    {
      var cid := ResolveCustomer(d.customer);
      var sid := ResolveSite(cid, d.site);
      var rid := ResolveRobot(sid, d.robot);
      var srcid := ResolveSource(d.source);
      Commit();
      c := Composite(cid, sid, rid, srcid, d.date, d.filename);
    }

    /** _quarantine_existing: the delete and the failure record in one commit. */
    method QuarantineExisting(c: Composite, eff: string, error: Failure)
      requires Quiet()
      modifies this
      ensures Quiet() && db == Quarantine(old(db), c, eff, error)
    {
      db := DeleteFile(db, c);
      db := RecordFailure(db, eff, error);
      Commit();
    }

    /** The channel loop of the per-file transaction. */
    method MergeChannels(channels: seq<ChannelInfo>) returns (byTopic: map<Id, (Id, nat)>)
      requires caches.Matches(db.dict)
      modifies this`db, caches
      ensures caches.Matches(db.dict)
      ensures byTopic == MergeAll(old(db.dict), channels).byTopic
      ensures db == old(db).(dict := WithNames(old(db.dict), MergeAll(old(db.dict), channels)))
    {
      byTopic := map[];
      ghost var m := MergeAll(db.dict, []);
      assert channels[..0] == [];
      for i := 0 to |channels|
        invariant caches.Matches(db.dict) && m == MergeAll(old(db.dict), channels[..i])
        invariant byTopic == m.byTopic && db == old(db).(dict := WithNames(old(db.dict), m))
      {
        MergeOneMore(old(db.dict), channels, i);
        m := MergeStep(m, channels[i]);
        byTopic := MergeChannel(byTopic, channels[i]);
      }
      assert channels[..|channels|] == channels;
    }

    method MergeChannel(byTopic: map<Id, (Id, nat)>, ch: ChannelInfo) returns (byTopic': map<Id, (Id, nat)>)
      requires caches.Matches(db.dict)
      modifies this`db, caches
      ensures caches.Matches(db.dict)
      ensures var m := MergeStep(Merge(old(db.dict.topics), old(db.dict.schemas), byTopic), ch);
        byTopic' == m.byTopic && db == old(db).(dict := WithNames(old(db.dict), m))
    {
      var tid := ResolveTopic(ch.topic);
      var sid := ResolveSchema(ch.schema);
      if tid in byTopic {
        byTopic' := byTopic[tid := (byTopic[tid].0, byTopic[tid].1 + ch.messageCount)];
      } else {
        byTopic' := byTopic[tid := (sid, ch.messageCount)];
      }
    }

    /** The tag inserts; a repeated key is a primary key conflict. */
    method InsertTags(id: Id, tags: seq<(string, string)>) returns (ok: bool)
      requires NoRowsOf(db.embedded, id)
      modifies this`db
      ensures ok <==> DistinctTagKeys(tags)
      ensures ok ==> db == old(db).(embedded := old(db.embedded) + TagRows(id, TagMap(tags)))
    {
      assert tags[..0] == [];
      ghost var t := db;
      NoTagRows(db.embedded, id);
      for i := 0 to |tags|
        invariant Inserted(t, db, id, tags[..i])
      {
        InsertNext(t, db, id, tags, i);
        if (id, tags[i].0) in db.embedded {
          return false;
        }
        db := db.(embedded := db.embedded[(id, tags[i].0) := tags[i].1]);
      }
      assert tags[..|tags|] == tags;
      return true;
    }

    /** The upsert, the rewritten tags, has_error and the cleared failure. */
    method PutFile(c: Composite, row: FileRow, hasError: bool, tags: seq<(string, string)>, eff: string)
      returns (ok: bool)
      modifies this`db
      ensures ok <==> DistinctTagKeys(tags)
      ensures ok ==> db.dict == old(db.dict) && db.build == old(db.build) && db.overrides == old(db.overrides)
      ensures ok ==> db.files == old(db.files)[c := row.(hasError := hasError)]
      ensures ok ==> db.embedded == DropRows(old(db.embedded), row.id) + TagRows(row.id, TagMap(tags))
      ensures ok ==> db.failures == old(db.failures) - {eff}
    {
      db := db.(files := db.files[c := row]);
      db := db.(embedded := DropRows(db.embedded, row.id));
      ok := InsertTags(row.id, tags);
      if ok {
        db := db.(files := db.files[c := db.files[c].(hasError := hasError)]);
        db := db.(failures := db.failures - {eff});
      }
    }

    /** _write_file_row. */
    method WriteRow(c: Composite, eff: string, stat: Stat, s: FileSummary) returns (status: Status)
      requires Quiet()
      modifies this, caches
      ensures Quiet() && (db, status) == WriteFileRow(old(db), c, eff, stat, s)
    {
      ghost var t := db;
      var failure := TryWrite(c, eff, stat, s);
      if failure.Some? {
        Rollback();
        QuarantineExisting(c, eff, failure.value);
        return Failed;
      }
      Commit();
      return Cataloged;
    }

    /** The body of the transaction; Some is the exception it raises. */
    method TryWrite(c: Composite, eff: string, stat: Stat, s: FileSummary) returns (failure: Option<Failure>)
      requires caches.Matches(db.dict)
      modifies this`db, caches
      ensures failure == WriteError(stat, s, SetCounts(MergeAll(old(db.dict), s.channels).byTopic))
      ensures failure.None? ==> caches.Matches(db.dict) && db == CommitRow(old(db), c, eff, stat, s)
    {
      var byTopic := MergeChannels(s.channels);
      var members := SetMembers(byTopic);
      MembersExact(byTopic);
      var setId := ResolveTopicSet(members);
      var counts := seq(|members|, i requires 0 <= i < |members| => byTopic[members[i].topic].1);
      assert counts == SetCounts(byTopic);
      if Sum(counts) != s.messageCount {
        return Some(CountMismatch(Sum(counts), s.messageCount));
      }
      var blob := Varint.EncodeCountsBlob(counts);
      if !AllFit(stat, s) {
        return Some(IntegerTooLarge);
      }
      var row := FileRow(RowIdFor(db.files, c), stat.etag, stat.size, stat.mtimeNs, s.startNs, s.endNs,
                         s.chunkCount, setId, blob.value, false);
      var ok := PutFile(c, row, HasError(s), s.tags, eff);
      return if ok then None else Some(DuplicateTagKey);
    }

    /** apply_extract. */
    method ApplyOne(f: Fetched) returns (status: Status)
      requires Quiet()
      modifies this, caches
      ensures Quiet() && (db, status) == ApplyFetched(old(db), f)
    {
      if f.Unidentified? {
        db := RecordFailure(db, f.key, UnparseableKey);
        Commit();
        return Failed;
      }
      var ex := f.ex;
      if ex.read.Vanished? {
        return Failed;
      }
      var c := ResolveIds(ex.dims);
      match ex.read {
        case Unreadable(error) =>
          QuarantineExisting(c, ex.eff, ReadError(error));
          return Failed;
        case Ready(s) =>
          status := WriteRow(c, ex.eff, ex.stat, s);
      }
    }

    /** catalog_object; stat and read are what the source answers. */
    method CatalogOne(key: string, stat: Option<Stat>, intended: Option<string>, read: ReadResult)
      returns (status: Status)
      requires Quiet()
      modifies this, caches
      ensures Quiet() && (db, status) == CatalogObject(old(db), key, stat, intended, read)
    {
      if stat.None? {
        return Failed;
      }
      var target := ResolveKeyDims(key, intended);
      if target.None? {
        db := RecordFailure(db, key, UnparseableKey);
        Commit();
        return Failed;
      }
      var (d, eff) := target.value;
      var c := ResolveIds(d);
      if c in db.files && db.files[c].etag == stat.value.etag {
        return Skipped;
      }
      match read {
        case Vanished =>
          QuarantineExisting(c, eff, ReadError("missing"));
          return Failed;
        case Unreadable(error) =>
          QuarantineExisting(c, eff, ReadError(error));
          return Failed;
        case Ready(s) =>
          status := WriteRow(c, eff, stat.value, s);
      }
    }

    /** delete_by_key. */
    method DeleteKey(key: string) returns (deleted: bool)
      requires Quiet()
      modifies this
      ensures Quiet() && (db, deleted) == DeleteByKey(old(db), key)
    {
      var parsed := ParseHiveKey(key);
      if parsed.None? {
        return false;
      }
      var c := caches.CompositeIds(parsed.value, db.dict);
      if c.None? {
        return false;
      }
      deleted := c.value in db.files;
      db := DeleteFile(db, c.value);
      db := db.(failures := db.failures - {key});
      Commit();
    }

    /** One turn of the classification loop: a failure record, a skip or an extract to read. */
    method ClassifyOne(s: Seen, stored: map<Composite, string>) returns (ex: Option<Extract>)
      requires Quiet() && stored == Etags(db.files)
      modifies this
      ensures Quiet() && ex == Classify(old(db), s)
      ensures db == if s.target.None? then RecordFailure(old(db), s.key, UnparseableKey) else old(db)
    {
      if s.target.None? {
        db := RecordFailure(db, s.key, UnparseableKey);
        Commit();
        return None;
      }
      var (d, eff) := s.target.value;
      var c := caches.CompositeIds(d, db.dict);
      if c.Some? && c.value in stored && stored[c.value] == s.stat.etag {
        return None;
      }
      return Some(Extract(s.key, s.stat, d, eff, s.read));
    }

    /** The classification loop of full_reconcile: each key is resolved once. */
    method ClassifyAll(listings: seq<Listing>)
      returns (seen: seq<Seen>, toExtract: seq<Extract>, failed: nat, skipped: nat)
      requires Quiet()
      modifies this
      ensures Quiet() && seen == SeenOf(listings)
      ensures db == RecordUnparseable(old(db), seen) && toExtract == ToExtract(old(db), seen)
      ensures failed == CountUnparseable(seen) && skipped == |seen| - failed - |toExtract|
    {
      var stored := Etags(db.files);
      seen, toExtract, failed, skipped := [], [], 0, 0;
      assert listings[..0] == [];
      for i := 0 to |listings|
        invariant Quiet() && SameButFailures(old(db), db) && db == RecordUnparseable(old(db), seen)
        invariant seen == SeenOf(listings[..i]) && toExtract == ToExtract(old(db), seen)
        invariant failed == CountUnparseable(seen) && skipped == i - failed - |toExtract|
      {
        var s := SeenFor(listings[i]);
        SeenOneMore(listings, i);
        ClassifiedOneMore(old(db), seen, s);
        SameClassification(old(db), db, s);
        var ex := ClassifyOne(s, stored);
        seen := seen + [s];
        if ex.Some? {
          toExtract := toExtract + [ex.value];
        } else if s.target.None? {
          failed := failed + 1;
        } else {
          skipped := skipped + 1;
        }
      }
      assert listings[..|listings|] == listings;
    }

    /** The apply phase: summaries are applied in whatever order they complete. */
    method ApplyInAnyOrder(toExtract: seq<Extract>) returns (ghost order: seq<Extract>, cataloged: nat)
      requires Quiet()
      modifies this, caches
      ensures Quiet() && multiset(order) == multiset(toExtract)
      ensures db == ApplyAll(old(db), order) && cataloged == CountHealthy(order)
    {
      var pending := toExtract;
      order, cataloged := [], 0;
      while pending != []
        invariant Quiet() && multiset(order) + multiset(pending) == multiset(toExtract)
        invariant db == ApplyAll(old(db), order) && cataloged == CountHealthy(order)
        decreases |pending|
      {
        var i :| 0 <= i < |pending|;
        StatusExact(db, pending[i]);
        TakenOut(pending, i);
        AppliedOneMore(old(db), order, pending[i]);
        var status := ApplyOne(Identified(pending[i]));
        if status == Cataloged {
          cataloged := cataloged + 1;
        }
        order := order + [pending[i]];
        pending := pending[..i] + pending[i + 1..];
      }
    }

    /** The id tuples present in the source, from the dimensions resolved before. */
    method PresentTuples(seen: seq<Seen>) returns (present: set<Composite>)
      requires caches.Matches(db.dict)
      ensures present == Present(db.dict, seen)
    {
      present := {};
      for i := 0 to |seen|
        invariant present == Present(db.dict, seen[..i])
      {
        assert seen[..i + 1][..i] == seen[..i];
        if seen[i].target.Some? {
          var c := caches.CompositeIds(seen[i].target.value.0, db.dict);
          if c.Some? {
            present := present + {c.value};
          }
        }
      }
      assert seen[..|seen|] == seen;
    }

    /** The deletion sweep, in one commit. */
    method SweepAbsent(present: set<Composite>) returns (deleted: nat)
      requires Quiet()
      modifies this
      ensures Quiet() && db == Sweep(old(db), old(db).files.Keys - present)
      ensures deleted == |old(db).files.Keys - present|
    {
      deleted := DeleteAbsent(present);
      Commit();
    }

    /** Row by row: a file whose id tuple is not present is deleted. */
    method DeleteAbsent(present: set<Composite>) returns (deleted: nat)
      modifies this`db
      ensures db == Sweep(old(db), old(db).files.Keys - present)
      ensures deleted == |old(db).files.Keys - present|
    {
      deleted := 0;
      ghost var t := db;
      ghost var gone: set<Composite> := {};
      var todo := db.files.Keys;
      SweepNone(t);
      while todo != {}
        invariant todo <= t.files.Keys && gone == t.files.Keys - todo - present
        invariant db == Sweep(t, gone) && deleted == |gone|
        decreases |todo|
      {
        var c :| c in todo;
        todo := todo - {c};
        if c !in present {
          DeleteSwept(t, gone, c);
          deleted := deleted + 1;
          gone := gone + {c};
        }
      }
      assert gone == t.files.Keys - present;
    }

    method DeleteSwept(ghost t: Tables, ghost gone: set<Composite>, c: Composite)
      requires c in t.files && c !in gone && db == Sweep(t, gone)
      modifies this`db
      ensures db == Sweep(t, gone + {c})
    {
      SweepOneMore(t, gone, c);
      db := DeleteFile(db, c);
    }

    /** Classification, reads and applies, and the sweep. */
    method ReconcilePhases(listings: seq<Listing>) returns (tally: Tally, ghost order: seq<Extract>)
      requires Quiet()
      modifies this, caches
      ensures Quiet() && Permutes(old(db), SeenOf(listings), order)
      ensures |order| <= |SeenOf(listings)| - CountUnparseable(SeenOf(listings)) && CountHealthy(order) <= |order|
      ensures tally == TallyOf(old(db), SeenOf(listings), order) && db == Swept(old(db), SeenOf(listings), order)
    {
      ghost var t := db;
      var seen, toExtract, unparseable, skipped := ClassifyAll(listings);
      var cataloged;
      order, cataloged := ApplyInAnyOrder(toExtract);
      PermutationFits(t, seen, order);
      var present := PresentTuples(seen);
      var deleted := SweepAbsent(present);
      tally := Tally(cataloged, skipped, unparseable + |toExtract| - cataloged, deleted);
    }

    /** full_reconcile. The ghost result is the completion order that happened. */
    method FullReconcile(listings: seq<Listing>, now: int) returns (tally: Tally, ghost order: seq<Extract>)
      requires Quiet()
      modifies this, caches
      ensures Quiet() && Permutes(old(db), SeenOf(listings), order)
      ensures |order| <= |SeenOf(listings)| - CountUnparseable(SeenOf(listings)) && CountHealthy(order) <= |order|
      ensures tally == TallyOf(old(db), SeenOf(listings), order)
      ensures db == RecordBuild(Swept(old(db), SeenOf(listings), order), tally, now)
      ensures Valid(old(db)) && DistinctIdentities(SeenOf(listings)) ==>
          TallyMeans(old(db), SeenOf(listings), tally)
          && StampMeans(old(db).build, old(db), SeenOf(listings), db.build, now)
    {
      ghost var t := db;
      tally, order := ReconcilePhases(listings);
      if Valid(t) && DistinctIdentities(SeenOf(listings)) {
        AnswersExact(t, SeenOf(listings), order, tally, now);
      }
      db := RecordBuild(db, tally, now);
      Commit();
    }

    /** update_tags: sets, then unsets, in one transaction. A set for a file that does not exist
        breaks the foreign key, and the transaction is undone. */
    method UpdateFileTags(id: Id, kv: map<string, string>, unset: seq<string>, now: int) returns (ok: bool)
      requires Quiet() && TagsOwned(db.files, db.overrides) && TagsOwned(db.files, db.embedded)
      modifies this
      ensures Quiet() && (ok <==> IsFileId(old(db).files, id) || kv == map[])
      ensures db == if ok then Tags.UpdateTags(old(db), id, kv, Elements(unset), now) else old(db)
    {
      if kv != map[] && !FileExists(db.files, id) {
        return false;
      }
      ApplyTags(id, kv, unset, now);
      Commit();
      return true;
    }

    /** The statements of the transaction; no row is inserted for a file that does not exist. */
    method ApplyTags(id: Id, kv: map<string, string>, unset: seq<string>, now: int)
      requires IsFileId(db.files, id) || (kv == map[] && NoRowsOf(db.embedded, id))
      modifies this`db
      ensures db == Tags.UpdateTags(old(db), id, kv, Elements(unset), now)
    {
      ghost var t := db;
      SetTags(id, kv, now);
      UnsetTags(t, id, kv, unset, now);
      SameOverrides(db, Tags.UpdateTags(t, id, kv, Elements(unset), now), t, id, kv, unset, now);
    }

    method SetTags(id: Id, kv: map<string, string>, now: int)
      requires IsFileId(db.files, id) || kv == map[]
      modifies this`db
      ensures db == old(db).(overrides := db.overrides)
      ensures forall fk :: Tags.OverrideAt(db, fk) == AfterSets(old(db), id, kv, kv.Keys, now, fk)
    {
      ghost var t := db;
      var todo := kv.Keys;
      while todo != {}
        invariant todo <= kv.Keys && db == t.(overrides := db.overrides)
        invariant forall fk :: Tags.OverrideAt(db, fk) == AfterSets(t, id, kv, kv.Keys - todo, now, fk)
        decreases |todo|
      {
        var k :| k in todo;
        assert IsFileId(db.files, id);
        SetOneMore(t, db, id, kv, todo, k, now);
        db := db.(overrides := db.overrides[(id, k) := Override(Some(kv[k]), now)]);
        todo := todo - {k};
      }
    }

    /** An unset key with an embedded tag is masked, any other loses its row. */
    method UnsetTags(ghost t: Tables, id: Id, kv: map<string, string>, unset: seq<string>, now: int)
      requires IsFileId(db.files, id) || NoRowsOf(db.embedded, id)
      requires db == t.(overrides := db.overrides)
      requires forall fk :: Tags.OverrideAt(db, fk) == AfterSets(t, id, kv, kv.Keys, now, fk)
      modifies this`db
      ensures db == t.(overrides := db.overrides)
      ensures forall fk :: Tags.OverrideAt(db, fk) == Tags.Edited(t, id, kv, Elements(unset), now, fk)
    {
      assert unset[..0] == [];
      for i := 0 to |unset|
        invariant db == t.(overrides := db.overrides)
        invariant forall fk :: Tags.OverrideAt(db, fk) == Tags.Edited(t, id, kv, Elements(unset[..i]), now, fk)
      {
        UnsetOneMore(t, db, id, kv, unset, i, now);
        ghost var before := db;
        if (id, unset[i]) in db.embedded {
          assert IsFileId(db.files, id);
          db := db.(overrides := db.overrides[(id, unset[i]) := Override(None, now)]);
        } else {
          db := db.(overrides := db.overrides - {(id, unset[i])});
        }
        assert db == AfterUnset(before, id, unset[i], now);
      }
      assert unset[..|unset|] == unset;
    }
  }

  lemma SetOneMore(t: Tables, before: Tables, id: Id, kv: map<string, string>, todo: set<string>, k: string, now: int)
    requires todo <= kv.Keys && k in todo
    requires forall fk :: Tags.OverrideAt(before, fk) == AfterSets(t, id, kv, kv.Keys - todo, now, fk)
    ensures var after := before.(overrides := before.overrides[(id, k) := Override(Some(kv[k]), now)]);
      forall fk :: Tags.OverrideAt(after, fk) == AfterSets(t, id, kv, kv.Keys - (todo - {k}), now, fk)
  {
    var after := before.(overrides := before.overrides[(id, k) := Override(Some(kv[k]), now)]);
    forall fk: (Id, string)
      ensures Tags.OverrideAt(after, fk) == AfterSets(t, id, kv, kv.Keys - (todo - {k}), now, fk)
    {
      assert fk == (fk.0, fk.1);
      assert Tags.OverrideAt(before, fk) == AfterSets(t, id, kv, kv.Keys - todo, now, fk);
    }
  }

  /** The override row that one unset leaves. */
  function AfterUnset(t: Tables, id: Id, k: string, now: int): Tables {
    if (id, k) in t.embedded then t.(overrides := t.overrides[(id, k) := Override(None, now)])
    else t.(overrides := t.overrides - {(id, k)})
  }

  lemma UnsetOneMore(t: Tables, before: Tables, id: Id, kv: map<string, string>, unset: seq<string>, i: nat, now: int)
    requires i < |unset| && before == t.(overrides := before.overrides)
    requires forall fk :: Tags.OverrideAt(before, fk) == Tags.Edited(t, id, kv, Elements(unset[..i]), now, fk)
    ensures forall fk :: Tags.OverrideAt(AfterUnset(before, id, unset[i], now), fk)
                      == Tags.Edited(t, id, kv, Elements(unset[..i + 1]), now, fk)
  {
    assert unset[..i + 1] == unset[..i] + [unset[i]];
    assert Elements(unset[..i + 1]) == Elements(unset[..i]) + {unset[i]};
    forall fk: (Id, string)
      ensures Tags.OverrideAt(AfterUnset(before, id, unset[i], now), fk)
           == Tags.Edited(t, id, kv, Elements(unset[..i + 1]), now, fk)
    {
      assert fk == (fk.0, fk.1);
      assert Tags.OverrideAt(before, fk) == Tags.Edited(t, id, kv, Elements(unset[..i]), now, fk);
    }
  }

  function Elements(xs: seq<string>): set<string> {
    set x | x in xs
  }

  predicate FileExists(files: map<Composite, FileRow>, id: Id)
    ensures FileExists(files, id) <==> IsFileId(files, id)
  {
    exists c :: c in files && files[c].id == id
  }

  lemma SameOverrides(a: Tables, b: Tables, t: Tables, id: Id, kv: map<string, string>, unset: seq<string>, now: int)
    requires a == t.(overrides := a.overrides) && b == Tags.UpdateTags(t, id, kv, Elements(unset), now)
    requires forall fk :: Tags.OverrideAt(a, fk) == Tags.Edited(t, id, kv, Elements(unset), now, fk)
    ensures a == b
  {
    forall fk ensures Tags.OverrideAt(a, fk) == Tags.OverrideAt(b, fk) {
      Tags.EditedAt(t, id, kv, Elements(unset), now, fk);
    }
    forall fk ensures fk in a.overrides <==> fk in b.overrides {
      assert Tags.OverrideAt(a, fk) == Tags.OverrideAt(b, fk);
    }
    forall fk | fk in a.overrides ensures a.overrides[fk] == b.overrides[fk] {
      assert Tags.OverrideAt(a, fk) == Tags.OverrideAt(b, fk);
    }
    assert a.overrides == b.overrides;
  }

  ghost function AfterSets(t: Tables, id: Id, kv: map<string, string>, done: set<string>, now: int,
                           fk: (Id, string)): Option<Override>
    requires done <= kv.Keys
  {
    if fk.0 == id && fk.1 in done then Some(Override(Some(kv[fk.1]), now)) else Tags.OverrideAt(t, fk)
  }

  function WithNames(t: Dict, m: Merge): Dict {
    t.(topics := m.topics, schemas := m.schemas)
  }

  lemma MergeOneMore(t: Dict, channels: seq<ChannelInfo>, i: nat)
    requires i < |channels|
    ensures MergeAll(t, channels[..i + 1]) == MergeStep(MergeAll(t, channels[..i]), channels[i])
  {
    assert channels[..i + 1][..i] == channels[..i];
  }

  ghost predicate Inserted(t: Tables, t': Tables, id: Id, tags: seq<(string, string)>) {
    DistinctTagKeys(tags) && t' == t.(embedded := t.embedded + TagRows(id, TagMap(tags)))
  }

  /** The next insert conflicts, and then a key repeats, or it adds its row. */
  lemma InsertNext(t: Tables, before: Tables, id: Id, tags: seq<(string, string)>, i: nat)
    requires i < |tags| && NoRowsOf(t.embedded, id) && Inserted(t, before, id, tags[..i])
    ensures var fk := (id, tags[i].0);
      if fk in before.embedded then !DistinctTagKeys(tags)
      else Inserted(t, before.(embedded := before.embedded[fk := tags[i].1]), id, tags[..i + 1])
  {
    TagOneMore(t.embedded, id, tags, i);
    DistinctOneMore(tags, i);
  }

  predicate NoRowsOf(embedded: map<(Id, string), string>, id: Id) {
    forall fk :: fk in embedded ==> fk.0 != id
  }

  lemma NoTagRows(embedded: map<(Id, string), string>, id: Id)
    ensures embedded + TagRows(id, TagMap([])) == embedded
  {
  }

  ghost predicate HasKey(tags: seq<(string, string)>, k: string) {
    exists j :: 0 <= j < |tags| && tags[j].0 == k
  }

  /** The next tag conflicts exactly when its key was inserted before. */
  lemma TagOneMore(embedded: map<(Id, string), string>, id: Id, tags: seq<(string, string)>, i: nat)
    requires i < |tags| && NoRowsOf(embedded, id)
    ensures (id, tags[i].0) in embedded + TagRows(id, TagMap(tags[..i])) <==> HasKey(tags[..i], tags[i].0)
    ensures (embedded + TagRows(id, TagMap(tags[..i])))[(id, tags[i].0) := tags[i].1]
         == embedded + TagRows(id, TagMap(tags[..i + 1]))
  {
    var k := tags[i].0;
    TagKeys(tags[..i], k);
    assert k in TagMap(tags[..i]) <==> (id, k) in TagRows(id, TagMap(tags[..i]));
    assert tags[..i + 1][..i] == tags[..i];
    TagRowsUpdate(embedded, id, TagMap(tags[..i]), k, tags[i].1);
  }

  lemma DistinctOneMore(tags: seq<(string, string)>, i: nat)
    requires i < |tags|
    ensures HasKey(tags[..i], tags[i].0) ==> !DistinctTagKeys(tags)
    ensures !HasKey(tags[..i], tags[i].0) && DistinctTagKeys(tags[..i]) ==> DistinctTagKeys(tags[..i + 1])
  {
    if HasKey(tags[..i], tags[i].0) {
      var j :| 0 <= j < i && tags[..i][j].0 == tags[i].0;
      assert tags[j].0 == tags[i].0;
    } else {
      forall j | 0 <= j < i ensures tags[j].0 != tags[i].0 {
        assert tags[..i][j] == tags[j];
      }
      assert DistinctTagKeys(tags[..i]) ==> forall j, k :: 0 <= j < k < i ==> tags[..i][j].0 != tags[..i][k].0;
    }
  }

  lemma {:induction false} TagKeys(tags: seq<(string, string)>, k: string)
    ensures k in TagMap(tags) <==> HasKey(tags, k)
  {
    if tags != [] {
      var init, last := tags[..|tags| - 1], tags[|tags| - 1];
      TagKeys(init, k);
      assert tags == init + [last];
      if HasKey(init, k) {
        var j :| 0 <= j < |init| && init[j].0 == k;
        assert tags[j].0 == k;
      }
      if HasKey(tags, k) && last.0 != k {
        var j :| 0 <= j < |tags| && tags[j].0 == k;
        assert init[j].0 == k;
      }
    }
  }

  lemma TagRowsUpdate(embedded: map<(Id, string), string>, id: Id, tags: map<string, string>, k: string, v: string)
    ensures (embedded + TagRows(id, tags))[(id, k) := v] == embedded + TagRows(id, tags[k := v])
  {
    var a, b := (embedded + TagRows(id, tags))[(id, k) := v], embedded + TagRows(id, tags[k := v]);
    assert (id, k) in TagRows(id, tags[k := v]);
    forall fk ensures fk in a <==> fk in b {
    }
  }

  function Etags(files: map<Composite, FileRow>): map<Composite, string> {
    map c | c in files :: files[c].etag
  }

  ghost predicate SameButFailures(t: Tables, t': Tables) {
    t' == t.(failures := t'.failures)
  }

  lemma SameClassification(t: Tables, t': Tables, s: Seen)
    requires SameButFailures(t, t')
    ensures Classify(t', s) == Classify(t, s) && Etags(t'.files) == Etags(t.files)
    ensures SameButFailures(t, RecordFailure(t', s.key, UnparseableKey))
  {
  }

  lemma SeenOneMore(listings: seq<Listing>, i: nat)
    requires i < |listings|
    ensures SeenOf(listings[..i + 1]) == SeenOf(listings[..i]) + [SeenFor(listings[i])]
  {
  }

  lemma ClassifiedOneMore(t: Tables, seen: seq<Seen>, s: Seen)
    ensures RecordUnparseable(t, seen + [s]) == (
      var t1 := RecordUnparseable(t, seen);
      if s.target.None? then RecordFailure(t1, s.key, UnparseableKey) else t1)
    ensures ToExtract(t, seen + [s]) ==
      ToExtract(t, seen) + (if Classify(t, s).Some? then [Classify(t, s).value] else [])
    ensures CountUnparseable(seen + [s]) == CountUnparseable(seen) + (if s.target.None? then 1 else 0)
  {
    assert (seen + [s])[..|seen|] == seen;
  }

  lemma TakenOut(pending: seq<Extract>, i: nat)
    requires i < |pending|
    ensures multiset(pending) == multiset(pending[..i] + pending[i + 1..]) + multiset{pending[i]}
  {
    assert pending == pending[..i] + [pending[i]] + pending[i + 1..];
  }

  lemma AppliedOneMore(t: Tables, order: seq<Extract>, ex: Extract)
    ensures ApplyAll(t, order + [ex]) == ApplyExtract(ApplyAll(t, order), ex).0
    ensures CountHealthy(order + [ex]) == CountHealthy(order) + (if HealthyRead(ex.stat, ex.read) then 1 else 0)
  {
    assert (order + [ex])[..|order|] == order;
  }

  /** An extract counts as catalogued exactly when its object is healthy. */
  lemma StatusExact(t: Tables, ex: Extract)
    ensures ApplyExtract(t, ex).1 == (if HealthyRead(ex.stat, ex.read) then Cataloged else Failed)
  {
    if ex.read.Ready? {
      WriteErrorExact(ResolveDims(t.dict, ex.dims), ex.stat, ex.read.summary);
    }
  }

  lemma SweepNone(t: Tables)
    ensures Sweep(t, {}) == t
  {
    assert IdsOf(t.files, {}) == {} && t.files - {} == t.files;
    assert DropAll(t.embedded, {}) == t.embedded && DropAll(t.overrides, {}) == t.overrides;
  }

  lemma SweepOneMore(t: Tables, gone: set<Composite>, c: Composite)
    requires c in t.files && c !in gone
    ensures Sweep(t, gone + {c}) == DeleteFile(Sweep(t, gone), c)
  {
    var id := t.files[c].id;
    assert IdsOf(t.files, gone + {c}) == IdsOf(t.files, gone) + {id};
    assert t.files - (gone + {c}) == t.files - gone - {c};
    assert DropAll(t.embedded, IdsOf(t.files, gone) + {id}) == DropRows(DropAll(t.embedded, IdsOf(t.files, gone)), id);
    var ids := IdsOf(t.files, gone);
    assert DropAll(t.overrides, ids + {id}) == DropRows(DropAll(t.overrides, ids), id);
  }
}
