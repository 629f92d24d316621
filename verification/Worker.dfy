/** __main__.worker_loop: the single writer drains the work queue. What it commits is exactly the
    concatenation of its items' own events, so the theorems about runs hold of it. */
module Worker {
  import opened Common
  import opened IdTables
  import opened KeyParse
  import opened Summary
  import opened Schema
  import opened Store
  import opened Reconcile
  import opened Runs
  import opened CommitRuns
  import opened Identity
  import opened Catalog
  import opened TagEdits
  import opened Tags

  /** A queue item, with what the source and the clocks will answer while it is handled. */
  datatype Work =
    | CatalogWork(key: string, stable: bool, stat: Option<Stat>, intended: Option<string>, read: ReadResult)
    | DeleteWork(key: string)
    | RescanWork(listings: seq<Listing>, now: int)
    | EditWork(item: TagEditItem, clock: int, now: int, fault: Fault)
    | UnknownWork
    | StopWork

  ghost function ItemsOf(queue: seq<Work>): set<TagEditItem> {
    set i | 0 <= i < |queue| && queue[i].EditWork? :: queue[i].item
  }

  // ---- the events of each item ----

  /** The event a handled tag edit amounts to, if it reaches its commit. */
  ghost function EditEvents(t: Tables, item: TagEditItem, clock: int, now: int, fault: Fault): seq<Event> {
    if clock <= item.deadline && FileIdOf(t, item.dims).Some? && !fault.BeforeCommit?
    then [Edit(FileIdOf(t, item.dims).value, item.setTags, Elements(item.unset), now)]
    else []
  }

  ghost function RescanWorkEvents(t: Tables, seen: seq<Seen>, order: seq<Extract>, now: int): seq<Event>
    requires Permutes(t, seen, order)
  {
    PermutationFits(t, seen, order);
    RescanEvents(t, seen, order, TallyOf(t, seen, order), now)
  }

  /** What an item commits from the tables it meets. `order` is the order in which a rescan's
      summaries complete; it means nothing for other items. */
  ghost predicate OrderFits(t: Tables, w: Work, order: seq<Extract>) {
    w.RescanWork? ==> Permutes(t, SeenOf(w.listings), order)
  }

  ghost function WorkEvents(t: Tables, w: Work, order: seq<Extract>): seq<Event>
    requires OrderFits(t, w, order)
  {
    match w
    case CatalogWork(key, stable, stat, intended, read) =>
      if stable then CatalogEvents(key, ResolveKeyDims(key, intended), stat, read) else []
    case DeleteWork(key) => [Delete(key)]
    case RescanWork(listings, now) => RescanWorkEvents(t, SeenOf(listings), order, now)
    case EditWork(item, clock, now, fault) => EditEvents(t, item, clock, now, fault)
    case UnknownWork => []
    case StopWork => []
  }

  /** evs is the concatenation of the items' own events, each from the tables the item meets. */
  ghost predicate Handles(t: Tables, queue: seq<Work>, orders: seq<seq<Extract>>, evs: seq<Event>)
    requires |orders| == |queue|
  {
    if queue == [] then evs == []
    else
      var n := |queue| - 1;
      exists init :: Handles(t, queue[..n], orders[..n], init) && HandlesLast(t, init, queue[n], orders[n], evs)
  }

  ghost predicate HandlesLast(t: Tables, init: seq<Event>, w: Work, order: seq<Extract>, evs: seq<Event>) {
    OrderFits(After(t, init), w, order) && evs == init + WorkEvents(After(t, init), w, order)
  }

  // ---- the handlers ----

  lemma EditCommitted(item: TagEditItem, t: Tables, t': Tables, clock: int, now: int, fault: Fault)
    requires Handled(t, t', item, clock, now, fault)
    ensures EnabledAll(t, EditEvents(t, item, clock, now, fault))
    ensures t' == After(t, EditEvents(t, item, clock, now, fault))
  {
    if clock <= item.deadline && FileIdOf(t, item.dims).Some? && !fault.BeforeCommit? {
      FileIdExists(t, item.dims);
      OneEvent(t, EditEvents(t, item, clock, now, fault)[0]);
    }
  }

  method HandleEdit(conn: Connection, item: TagEditItem, clock: int, now: int, fault: Fault)
    requires conn.Quiet() && Valid(conn.db)
    modifies conn, item
    ensures conn.Quiet() && EnabledAll(old(conn.db), EditEvents(old(conn.db), item, clock, now, fault))
    ensures conn.db == After(old(conn.db), EditEvents(old(conn.db), item, clock, now, fault))
    ensures Performs(old(conn.db), EditWork(item, clock, now, fault), [], conn.db)
    ensures item.status != Pending && item.signals == old(item.signals) + 1
  {
    ghost var t := conn.db;
    HandleTagEdit(conn, item, clock, now, fault);
    EditCommitted(item, t, conn.db, clock, now, fault);
  }

  /** What full_reconcile leaves. */
  ghost function StampedSweep(t: Tables, seen: seq<Seen>, order: seq<Extract>, now: int): Tables
    requires Permutes(t, seen, order)
  {
    PermutationFits(t, seen, order);
    RecordBuild(Swept(t, seen, order), TallyOf(t, seen, order), now)
  }

  /** What an item leaves, by the operation it stands for. */
  ghost predicate Performs(t: Tables, w: Work, order: seq<Extract>, t': Tables) {
    match w
    case CatalogWork(key, stable, stat, intended, read) =>
      t' == if stable then CatalogObject(t, key, stat, intended, read).0 else t
    case DeleteWork(key) => t' == DeleteByKey(t, key).0
    case RescanWork(listings, now) =>
      Permutes(t, SeenOf(listings), order) && t' == StampedSweep(t, SeenOf(listings), order, now)
    case EditWork(item, clock, now, fault) =>
      t' == if clock <= item.deadline && FileIdOf(t, item.dims).Some? && !fault.BeforeCommit?
            then UpdateTags(t, FileIdOf(t, item.dims).value, item.setTags, Elements(item.unset), now)
            else t
    case UnknownWork => t' == t
    case StopWork => t' == t
  }

  method HandleCatalog(conn: Connection, w: Work)
    requires conn.Quiet() && w.CatalogWork?
    modifies conn, conn.caches
    ensures conn.Quiet() && Performs(old(conn.db), w, [], conn.db)
    ensures EnabledAll(old(conn.db), WorkEvents(old(conn.db), w, []))
    ensures conn.db == After(old(conn.db), WorkEvents(old(conn.db), w, []))
  {
    if w.stable {
      CatalogIsRun(conn.db, w.key, ResolveKeyDims(w.key, w.intended), w.stat, w.read);
      var status := conn.CatalogOne(w.key, w.stat, w.intended, w.read);
    }
  }

  method HandleDelete(conn: Connection, w: Work)
    requires conn.Quiet() && w.DeleteWork?
    modifies conn
    ensures conn.Quiet() && Performs(old(conn.db), w, [], conn.db)
    ensures EnabledAll(old(conn.db), WorkEvents(old(conn.db), w, []))
    ensures conn.db == After(old(conn.db), WorkEvents(old(conn.db), w, []))
  {
    OneEvent(conn.db, Delete(w.key));
    var deleted := conn.DeleteKey(w.key);
  }

  method HandleRescan(conn: Connection, w: Work) returns (ghost order: seq<Extract>)
    requires conn.Quiet() && w.RescanWork?
    modifies conn, conn.caches
    ensures conn.Quiet() && OrderFits(old(conn.db), w, order) && Performs(old(conn.db), w, order, conn.db)
    ensures EnabledAll(old(conn.db), WorkEvents(old(conn.db), w, order))
    ensures conn.db == After(old(conn.db), WorkEvents(old(conn.db), w, order))
  {
    ghost var t := conn.db;
    var tally;
    tally, order := conn.FullReconcile(w.listings, w.now);
    RescanIsRun(t, SeenOf(w.listings), order, tally, w.now);
  }

  /** One turn of the loop: the item's own operation, committing the item's own events. */
  method HandleWork(conn: Connection, w: Work) returns (ghost order: seq<Extract>)
    requires conn.Quiet() && Valid(conn.db)
    modifies conn, conn.caches, ItemsOf([w])
    ensures conn.Quiet() && OrderFits(old(conn.db), w, order) && Performs(old(conn.db), w, order, conn.db)
    ensures EnabledAll(old(conn.db), WorkEvents(old(conn.db), w, order))
    ensures conn.db == After(old(conn.db), WorkEvents(old(conn.db), w, order))
    ensures w.EditWork? ==> w.item.status != Pending && w.item.signals == old(w.item.signals) + 1
  {
    order := [];
    match w
    case CatalogWork(_, _, _, _, _) => HandleCatalog(conn, w);
    case DeleteWork(_) => HandleDelete(conn, w);
    case RescanWork(_, _) => order := HandleRescan(conn, w);
    case EditWork(item, clock, now, fault) =>
      assert [w][0].item in ItemsOf([w]);
      HandleEdit(conn, item, clock, now, fault);
    case UnknownWork =>
    case StopWork =>
  }

  /** What the loop has done after its first i items. */
  ghost predicate Drained(t: Tables, queue: seq<Work>, i: nat, orders: seq<seq<Extract>>, evs: seq<Event>, t': Tables)
    requires i <= |queue|
  {
    && |orders| == i && Handles(t, queue[..i], orders, evs)
    && EnabledAll(t, evs) && t' == After(t, evs) && Valid(t')
  }

  lemma HandlesMore(t: Tables, queue: seq<Work>, orders: seq<seq<Extract>>, init: seq<Event>, evs: seq<Event>, n: nat)
    requires |queue| == |orders| == n + 1 && Handles(t, queue[..n], orders[..n], init)
    requires HandlesLast(t, init, queue[n], orders[n], evs)
    ensures Handles(t, queue, orders, evs)
  {
  }

  lemma HandlesNext(t: Tables, queue: seq<Work>, orders: seq<seq<Extract>>, evs: seq<Event>, i: nat,
                    order: seq<Extract>, next: seq<Event>)
    requires i < |queue| && |orders| == i && Handles(t, queue[..i], orders, evs)
    requires HandlesLast(t, evs, queue[i], order, next)
    ensures Handles(t, queue[..i + 1], orders + [order], next)
  {
    var q, os := queue[..i + 1], orders + [order];
    assert q[..i] == queue[..i] && q[i] == queue[i] && os[..i] == orders && os[i] == order;
    HandlesMore(t, q, os, evs, next, i);
  }

  lemma DrainedNext(t: Tables, queue: seq<Work>, i: nat, orders: seq<seq<Extract>>, evs: seq<Event>,
                    before: Tables, order: seq<Extract>, more: seq<Event>, after: Tables)
    requires i < |queue| && Valid(t) && Drained(t, queue, i, orders, evs, before)
    requires OrderFits(before, queue[i], order) && more == WorkEvents(before, queue[i], order)
    requires EnabledAll(before, more) && after == After(before, more)
    ensures Drained(t, queue, i + 1, orders + [order], evs + more, after)
  {
    HandlesNext(t, queue, orders, evs, i, order, evs + more);
    EnabledConcat(t, evs, more);
    AfterValid(t, evs + more);
  }

  method HandleNext(conn: Connection, queue: seq<Work>, i: nat, ghost t: Tables, ghost orders: seq<seq<Extract>>,
                    ghost evs: seq<Event>)
    returns (ghost orders': seq<seq<Extract>>, ghost evs': seq<Event>)
    requires i < |queue| && conn.Quiet() && Valid(t) && Drained(t, queue, i, orders, evs, conn.db)
    modifies conn, conn.caches, ItemsOf(queue)
    ensures conn.Quiet() && Drained(t, queue, i + 1, orders', evs', conn.db)
  {
    assert ItemsOf([queue[i]]) <= ItemsOf(queue);
    ghost var before := conn.db;
    ghost var order := HandleWork(conn, queue[i]);
    ghost var more := WorkEvents(before, queue[i], order);
    DrainedNext(t, queue, i, orders, evs, before, order, more, conn.db);
    orders', evs' := orders + [order], evs + more;
  }

  predicate RunsOn(queue: seq<Work>, n: nat)
    requires n <= |queue|
  {
    forall i :: 0 <= i < n ==> !queue[i].StopWork?
  }

  lemma RunsOnMore(queue: seq<Work>, n: nat)
    requires n < |queue| && RunsOn(queue, n) && !queue[n].StopWork?
    ensures RunsOn(queue, n + 1)
  {
  }

  /** The loop ends at the first stop item, or with the queue. It commits exactly the events of
      the items before that, in order, keeps the invariant, and leaves everything committed and
      the caches equal to their tables, no id standing for two names. */
  method WorkerLoop(conn: Connection, queue: seq<Work>)
    returns (handled: nat, ghost orders: seq<seq<Extract>>, ghost evs: seq<Event>)
    requires conn.Quiet() && Valid(conn.db)
    modifies conn, conn.caches, ItemsOf(queue)
    ensures handled <= |queue| && RunsOn(queue, handled) && (handled < |queue| ==> queue[handled].StopWork?)
    ensures Drained(old(conn.db), queue, handled, orders, evs, conn.db)
    ensures conn.Quiet() && conn.caches.Unaliased()
  {
    handled, orders, evs := 0, [], [];
    ghost var t := conn.db;
    while handled < |queue| && !queue[handled].StopWork?
      invariant handled <= |queue| && RunsOn(queue, handled)
      invariant conn.Quiet() && Drained(t, queue, handled, orders, evs, conn.db)
    {
      RunsOnMore(queue, handled);
      orders, evs := HandleNext(conn, queue, handled, t, orders, evs);
      handled := handled + 1;
    }
  }

  /** Why a rollback reloads the caches: an id it took back is given to the next new name, so a
      cache that kept it would hold one id for two names. */
  lemma StaleCacheAliases(table: map<string, Id>, a: string, b: string)
    requires a != b && a !in table && b !in table
    ensures var stale := Intern(table, a)[b := Intern(table, b)[b]];
      !Injective(stale) && stale != Intern(table, b)
  {
    var stale := Intern(table, a)[b := Intern(table, b)[b]];
    assert a in stale && b in stale && stale[a] == stale[b];
  }
}
