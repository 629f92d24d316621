/** Lists of events as runs, and the program's operations as the lists of their commits. */
module CommitRuns {
  import opened Common
  import opened KeyParse
  import opened Summary
  import opened Schema
  import opened Store
  import opened Reconcile
  import opened Runs

  function After(t: Tables, evs: seq<Event>): Tables {
    if evs == [] then t else Step(After(t, evs[..|evs| - 1]), evs[|evs| - 1])
  }

  ghost predicate EnabledAll(t: Tables, evs: seq<Event>) {
    forall i :: 0 <= i < |evs| ==> Enabled(After(t, evs[..i]), evs[i])
  }

  ghost function TraceOf(t: Tables, evs: seq<Event>): seq<Tables> {
    seq(|evs| + 1, i requires 0 <= i <= |evs| => After(t, evs[..i]))
  }

  lemma AfterOneMore(t: Tables, evs: seq<Event>, i: nat)
    requires i < |evs|
    ensures After(t, evs[..i + 1]) == Step(After(t, evs[..i]), evs[i])
  {
    assert evs[..i + 1][..i] == evs[..i];
  }

  /** Enabled events make a run, and what they commit is its last state. */
  lemma EventsAreRun(t: Tables, evs: seq<Event>)
    requires EnabledAll(t, evs)
    ensures IsRun(TraceOf(t, evs), evs) && TraceOf(t, evs)[0] == t && TraceOf(t, evs)[|evs|] == After(t, evs)
  {
    assert evs[..|evs|] == evs && evs[..0] == [];
    forall i | 0 <= i < |evs| ensures TraceOf(t, evs)[i + 1] == Step(TraceOf(t, evs)[i], evs[i]) {
      AfterOneMore(t, evs, i);
    }
  }

  lemma {:induction false} AfterConcat(t: Tables, a: seq<Event>, b: seq<Event>)
    ensures After(t, a + b) == After(After(t, a), b)
  {
    if b == [] {
      assert a + b == a;
    } else {
      AfterConcat(t, a, b[..|b| - 1]);
      assert (a + b)[..|a + b| - 1] == a + b[..|b| - 1];
    }
  }

  lemma EnabledConcat(t: Tables, a: seq<Event>, b: seq<Event>)
    requires EnabledAll(t, a) && EnabledAll(After(t, a), b)
    ensures EnabledAll(t, a + b) && After(t, a + b) == After(After(t, a), b)
  {
    AfterConcat(t, a, b);
    forall i | 0 <= i < |a + b| ensures Enabled(After(t, (a + b)[..i]), (a + b)[i]) {
      EnabledConcatAt(t, a, b, i);
    }
  }

  lemma EnabledConcatAt(t: Tables, a: seq<Event>, b: seq<Event>, i: nat)
    requires EnabledAll(t, a) && EnabledAll(After(t, a), b) && i < |a + b|
    ensures Enabled(After(t, (a + b)[..i]), (a + b)[i])
  {
    if i < |a| {
      assert (a + b)[..i] == a[..i] && (a + b)[i] == a[i];
    } else {
      assert (a + b)[..i] == a + b[..i - |a|] && (a + b)[i] == b[i - |a|];
      AfterConcat(t, a, b[..i - |a|]);
    }
  }

  lemma OneEvent(t: Tables, ev: Event)
    requires Enabled(t, ev)
    ensures EnabledAll(t, [ev]) && After(t, [ev]) == Step(t, ev)
  {
    assert [ev][..0] == [] && After(t, []) == t;
  }

  lemma TwoEvents(t: Tables, a: Event, b: Event)
    requires Enabled(t, a) && Enabled(Step(t, a), b)
    ensures EnabledAll(t, [a, b]) && After(t, [a, b]) == Step(Step(t, a), b)
  {
    OneEvent(t, a);
    OneEvent(Step(t, a), b);
    EnabledConcat(t, [a], [b]);
    assert [a, b] == [a] + [b];
  }

  /** The invariant after any enabled events. */
  lemma AfterValid(t: Tables, evs: seq<Event>)
    requires Valid(t) && EnabledAll(t, evs)
    ensures Valid(After(t, evs))
  {
    EventsAreRun(t, evs);
    RunValid(TraceOf(t, evs), evs, |evs|);
  }

  // ---- one object ----

  /** apply_extract: the names, then the row or the quarantine; no commit for a vanished object. */
  function ExtractEvents(ex: Extract): seq<Event> {
    if ex.read.Vanished? then [] else [ResolveNames(ex.dims), Apply(ex)]
  }

  lemma ExtractIsRun(t: Tables, ex: Extract)
    ensures EnabledAll(t, ExtractEvents(ex)) && After(t, ExtractEvents(ex)) == ApplyExtract(t, ex).0
  {
    if !ex.read.Vanished? {
      NamesFirst(t.dict, ex.dims);
      ApplyInTwo(t, ex);
      TwoEvents(t, ResolveNames(ex.dims), Apply(ex));
    }
  }

  /** catalog_object after the HEAD: a failure record, or the names and then what is left. */
  function CatalogEvents(key: string, target: Option<(Dims, string)>, stat: Option<Stat>, read: ReadResult)
    : seq<Event>
  {
    if stat.None? then []
    else if target.None? then [Unparseable(key)]
    else [ResolveNames(target.value.0), Catalog(key, target, stat, read)]
  }

  lemma CatalogIsRun(t: Tables, key: string, target: Option<(Dims, string)>, stat: Option<Stat>, read: ReadResult)
    ensures EnabledAll(t, CatalogEvents(key, target, stat, read))
    ensures After(t, CatalogEvents(key, target, stat, read)) == CatalogStep(t, key, target, stat, read)
  {
    if stat.Some? {
      if target.None? {
        OneEvent(t, Unparseable(key));
      } else {
        var (d, eff) := target.value;
        NamesFirst(t.dict, d);
        CatalogInTwo(t, key, d, eff, stat.value, read);
        TwoEvents(t, ResolveNames(d), Catalog(key, target, stat, read));
      }
    }
  }

  // ---- a rescan ----

  function UnparseableEvents(seen: seq<Seen>): seq<Event> {
    if seen == [] then []
    else
      var init, s := UnparseableEvents(seen[..|seen| - 1]), seen[|seen| - 1];
      if s.target.None? then init + [Unparseable(s.key)] else init
  }

  function ApplyEvents(order: seq<Extract>): seq<Event> {
    if order == [] then [] else ApplyEvents(order[..|order| - 1]) + ExtractEvents(order[|order| - 1])
  }

  /** The commits of one rescan, in order: failure records, extracts, the sweep, the stamp. */
  function RescanEvents(t: Tables, seen: seq<Seen>, order: seq<Extract>, tally: Tally, now: int): seq<Event> {
    UnparseableEvents(seen) + ApplyEvents(order)
    + [Remove(Gone(Applied(t, seen, order), seen)), Stamp(tally, now)]
  }

  lemma {:induction false} UnparseableIsRun(t: Tables, seen: seq<Seen>)
    ensures EnabledAll(t, UnparseableEvents(seen)) && After(t, UnparseableEvents(seen)) == RecordUnparseable(t, seen)
  {
    if seen != [] {
      var init, s := seen[..|seen| - 1], seen[|seen| - 1];
      UnparseableIsRun(t, init);
      if s.target.None? {
        OneEvent(RecordUnparseable(t, init), Unparseable(s.key));
        EnabledConcat(t, UnparseableEvents(init), [Unparseable(s.key)]);
      }
    }
  }

  lemma {:induction false} ApplyIsRun(t: Tables, order: seq<Extract>)
    ensures EnabledAll(t, ApplyEvents(order)) && After(t, ApplyEvents(order)) == ApplyAll(t, order)
  {
    if order != [] {
      var init, ex := order[..|order| - 1], order[|order| - 1];
      ApplyIsRun(t, init);
      ExtractIsRun(ApplyAll(t, init), ex);
      EnabledConcat(t, ApplyEvents(init), ExtractEvents(ex));
    }
  }

  /** A rescan is the run of its commits, so a prefix of them is what a crash leaves. */
  lemma RescanIsRun(t: Tables, seen: seq<Seen>, order: seq<Extract>, tally: Tally, now: int)
    ensures EnabledAll(t, RescanEvents(t, seen, order, tally, now))
    ensures After(t, RescanEvents(t, seen, order, tally, now)) == RecordBuild(Swept(t, seen, order), tally, now)
  {
    var t1, t2 := RecordUnparseable(t, seen), Applied(t, seen, order);
    var removal := Remove(Gone(t2, seen));
    UnparseableIsRun(t, seen);
    ApplyIsRun(t1, order);
    EnabledConcat(t, UnparseableEvents(seen), ApplyEvents(order));
    TwoEvents(t2, removal, Stamp(tally, now));
    EnabledConcat(t, UnparseableEvents(seen) + ApplyEvents(order), [removal, Stamp(tally, now)]);
  }
}
