/** Where rows come from: in every reachable state each files row is the image of one healthy
    summary, down to the counts blob. */
module Provenance {
  import opened Common
  import opened IdTables
  import opened KeyParse
  import opened Summary
  import opened Schema
  import opened Store
  import opened MergeProofs
  import opened Runs
  import opened Convergence

  /** Sorted members and their counts are determined by the entries they zip. */
  lemma ZipsUnique(m: Entries, ms: seq<Member>, counts: seq<nat>)
    requires Zips(m, ms, counts)
    ensures ms == SetMembers(m) && counts == SetCounts(m)
  {
    MembersExact(m);
    SameZip(m, ms, counts, SetMembers(m), SetCounts(m));
  }

  lemma {:induction false} SameZip(m: Entries, a: seq<Member>, ca: seq<nat>, b: seq<Member>, cb: seq<nat>)
    requires Zips(m, a, ca) && Zips(m, b, cb)
    ensures a == b && ca == cb
    decreases |a|
  {
    SameLast(m, a, ca, b, cb);
    if a != [] {
      ZipsInit(m, a, ca);
      ZipsInit(m, b, cb);
      var m' := m - {a[|a| - 1].topic};
      SameZip(m', a[..|a| - 1], ca[..|a| - 1], b[..|b| - 1], cb[..|b| - 1]);
      Rejoined(a, b);
      Rejoined(ca, cb);
    }
  }

  lemma Rejoined<T>(a: seq<T>, b: seq<T>)
    requires a != [] && b != [] && a[..|a| - 1] == b[..|b| - 1] && a[|a| - 1] == b[|b| - 1]
    ensures a == b
  {
    assert a == a[..|a| - 1] + [a[|a| - 1]] && b == b[..|b| - 1] + [b[|b| - 1]];
  }

  /** Both end with the greatest topic id. */
  lemma SameLast(m: Entries, a: seq<Member>, ca: seq<nat>, b: seq<Member>, cb: seq<nat>)
    requires Zips(m, a, ca) && Zips(m, b, cb)
    ensures a == [] <==> b == []
    ensures a != [] ==> a[|a| - 1] == b[|b| - 1] && ca[|a| - 1] == cb[|b| - 1]
  {
    assert a == [] || HasTopic(b, a[|a| - 1].topic);
    assert b == [] || HasTopic(a, b[|b| - 1].topic);
  }

  lemma ZipsInit(m: Entries, ms: seq<Member>, counts: seq<nat>)
    requires Zips(m, ms, counts) && ms != []
    ensures Zips(m - {ms[|ms| - 1].topic}, ms[..|ms| - 1], counts[..|ms| - 1])
  {
    var init, x := ms[..|ms| - 1], ms[|ms| - 1].topic;
    forall k | k in m - {x} ensures HasTopic(init, k) {
      var i := IndexOf(ms, k);
      assert init[i].topic == k;
    }
  }

  /** The blob of a row: one count per member in topic id order, each the merged count of that
      member's topic, and all of them together the messages of all channels. */
  ghost predicate BlobExact(t: Dict, row: FileRow, channels: seq<ChannelInfo>) {
    && |CountsOf(row)| == |MembersOf(t, row)| == |TopicsByName(channels)| && Sorted(MembersOf(t, row))
    && Sum(CountsOf(row)) == ChannelTotal(channels)
    && forall i :: 0 <= i < |CountsOf(row)| ==> EntryOf(t, row, channels, i)
  }

  ghost predicate EntryOf(t: Dict, row: FileRow, channels: seq<ChannelInfo>, i: nat)
    requires i < |CountsOf(row)| == |MembersOf(t, row)|
  {
    var name := KeyOf(t.topics, MembersOf(t, row)[i].topic);
    name in TopicsByName(channels)
    && TopicsByName(channels)[name] == TopicInfo(KeyOf(t.schemas, MembersOf(t, row)[i].schema), CountsOf(row)[i])
  }

  /** A member of a valid row, by name. */
  lemma MemberNamed(t: Dict, row: FileRow, i: nat) returns (name: string)
    requires DictValid(t) && row.setId in t.members && i < |MembersOf(t, row)| == |CountsOf(row)|
    ensures name in t.topics && t.topics[name] == MembersOf(t, row)[i].topic && KeyOf(t.topics, t.topics[name]) == name
    ensures name in TopicsOf(t, row)
    ensures TopicsOf(t, row)[name] == TopicInfo(KeyOf(t.schemas, MembersOf(t, row)[i].schema), CountsOf(row)[i])
    ensures TopicsOf(t, row)[name].schema in t.schemas
    ensures t.schemas[TopicsOf(t, row)[name].schema] == MembersOf(t, row)[i].schema
  {
    var ms := MembersOf(t, row);
    assert MembersKnown(t, ms) && Sorted(ms);
    assert ms[i].topic in t.topics.Values && ms[i].schema in t.schemas.Values;
    name :| name in t.topics && t.topics[name] == ms[i].topic;
    KeyOfId(t.topics, name);
    assert HasTopic(ms, ms[i].topic) && IndexOf(ms, ms[i].topic) == i;
    var k :| k in t.schemas && t.schemas[k] == ms[i].schema;
    KeyOfId(t.schemas, k);
  }

  /** A valid row that shows a summary's topics zips exactly that summary's merged entries. */
  lemma RowZips(t: Dict, row: FileRow, channels: seq<ChannelInfo>)
    requires DictValid(t) && row.setId in t.members && |MembersOf(t, row)| == |CountsOf(row)|
    requires TopicsOf(t, row) == TopicsByName(channels)
    ensures Zips(MergeAll(t, channels).byTopic, MembersOf(t, row), CountsOf(row))
  {
    var m, ms := MergeAll(t, channels), MembersOf(t, row);
    MergeAgrees(t, channels);
    assert Sorted(ms);
    forall i | 0 <= i < |ms|
      ensures ms[i].topic in m.byTopic && m.byTopic[ms[i].topic] == (ms[i].schema, CountsOf(row)[i])
    {
      var name := MemberNamed(t, row, i);
      assert m.topics[name] == t.topics[name];
    }
    forall k | k in m.byTopic ensures HasTopic(ms, k) {
      var name :| name in m.topics && m.topics[name] == k;
      assert name in TopicsByName(channels);
      assert name in TopicsOf(t, row);
    }
  }

  lemma BlobOfView(t: Dict, row: FileRow, channels: seq<ChannelInfo>)
    requires DictValid(t) && row.setId in t.members && |MembersOf(t, row)| == |CountsOf(row)|
    requires TopicsOf(t, row) == TopicsByName(channels)
    ensures BlobExact(t, row, channels)
  {
    var m := MergeAll(t, channels);
    RowZips(t, row, channels);
    ZipsUnique(m.byTopic, MembersOf(t, row), CountsOf(row));
    MergeConservesTotal(t, channels);
    forall i | 0 <= i < |CountsOf(row)| ensures EntryOf(t, row, channels, i) {
      var name := MemberNamed(t, row, i);
    }
    SameSize(t, row);
  }

  lemma SameSize(t: Dict, row: FileRow)
    requires DictValid(t) && row.setId in t.members && |MembersOf(t, row)| == |CountsOf(row)|
    ensures |TopicsOf(t, row)| == |MembersOf(t, row)|
  {
    var ms := MembersOf(t, row);
    assert MembersKnown(t, ms);
    TopicsCounted(t, row, |ms|);
    assert ms[..|ms|] == ms;
    assert NamesUpTo(t, row, |ms|) == TopicsOf(t, row).Keys;
  }

  ghost function NamesUpTo(t: Dict, row: FileRow, n: nat): set<string>
    requires n <= |MembersOf(t, row)|
  {
    set name | name in t.topics && HasTopic(MembersOf(t, row)[..n], t.topics[name])
  }

  /** Each member of the row has a name of its own. */
  ghost predicate MembersNamed(t: Dict, row: FileRow) {
    && IdsUnique(t) && Sorted(MembersOf(t, row))
    && forall i :: 0 <= i < |MembersOf(t, row)| ==> MembersOf(t, row)[i].topic in t.topics.Values
  }

  lemma {:induction false} TopicsCounted(t: Dict, row: FileRow, n: nat)
    requires MembersNamed(t, row) && n <= |MembersOf(t, row)|
    ensures |NamesUpTo(t, row, n)| == n
  {
    if n == 0 {
      assert NamesUpTo(t, row, 0) == {};
    } else {
      TopicsCounted(t, row, n - 1);
      assert MembersOf(t, row)[n - 1].topic in t.topics.Values;
      var name :| name in t.topics && t.topics[name] == MembersOf(t, row)[n - 1].topic;
      OneMoreName(t, row, n, name);
    }
  }

  lemma OneMoreName(t: Dict, row: FileRow, n: nat, name: string)
    requires IdsUnique(t) && 0 < n <= |MembersOf(t, row)| && Sorted(MembersOf(t, row))
    requires name in t.topics && t.topics[name] == MembersOf(t, row)[n - 1].topic
    ensures |NamesUpTo(t, row, n)| == |NamesUpTo(t, row, n - 1)| + 1
  {
    var ms := MembersOf(t, row);
    forall other | other in t.topics
      ensures HasTopic(ms[..n], t.topics[other]) <==> HasTopic(ms[..n - 1], t.topics[other]) || other == name
    {
      TopicSplit(ms, n, t.topics[other]);
    }
    assert NamesUpTo(t, row, n) == NamesUpTo(t, row, n - 1) + {name} && name !in NamesUpTo(t, row, n - 1);
  }

  lemma TopicSplit(ms: seq<Member>, n: nat, id: Id)
    requires 0 < n <= |ms|
    ensures HasTopic(ms[..n], id) <==> HasTopic(ms[..n - 1], id) || ms[n - 1].topic == id
  {
    if HasTopic(ms[..n], id) {
      var i := IndexOf(ms[..n], id);
      assert i < n - 1 ==> ms[..n - 1][i].topic == id;
    }
    if HasTopic(ms[..n - 1], id) {
      var i := IndexOf(ms[..n - 1], id);
      assert ms[..n][i].topic == id;
    }
    assert ms[..n][n - 1] == ms[n - 1];
  }

  // ---- over runs ----

  /** The event wrote a healthy summary, and the row still shows exactly that. */
  ghost predicate WroteRow(ev: Event, t: Tables, d: Dims) {
    Written(ev).Some? && Written(ev).value.0 == d
    && var (stat, read) := (Written(ev).value.1, Written(ev).value.2);
      HealthyRead(stat, read) && FileAt(t, d) == Some(ViewOf(stat, read.summary))
  }

  lemma StepWrites(t: Tables, ev: Event, d: Dims)
    requires Valid(t) && FileAt(Step(t, ev), d).Some?
    ensures FileAt(Step(t, ev), d) == FileAt(t, d) || WroteRow(ev, Step(t, ev), d)
  {
    StepShows(t, ev, d);
  }

  lemma {:induction false} RowHasWriter(trace: seq<Tables>, evs: seq<Event>, d: Dims, i: nat) returns (m: nat)
    requires IsRun(trace, evs) && trace[0] == EMPTY && i < |trace| && FileAt(trace[i], d).Some?
    ensures m < i && WroteRow(evs[m], trace[i], d)
  {
    EmptyValid();
    assert i > 0;
    RunStepWrites(trace, evs, d, i - 1);
    if FileAt(trace[i], d) == FileAt(trace[i - 1], d) {
      m := RowHasWriter(trace, evs, d, i - 1);
    } else {
      m := i - 1;
    }
  }

  lemma RunStepWrites(trace: seq<Tables>, evs: seq<Event>, d: Dims, i: nat)
    requires IsRun(trace, evs) && Valid(trace[0]) && i < |evs| && FileAt(trace[i + 1], d).Some?
    ensures FileAt(trace[i + 1], d) == FileAt(trace[i], d) || WroteRow(evs[i], trace[i + 1], d)
  {
    RunValid(trace, evs, i);
    StepWrites(trace[i], evs[i], d);
  }

  /** The row is the image of the summary this event wrote. */
  ghost predicate RowFrom(ev: Event, t: Tables, d: Dims)
    requires RowAt(t, d).Some?
  {
    && WroteRow(ev, t, d)
    && var s, row := Written(ev).value.2.summary, RowAt(t, d).value;
      BlobExact(t.dict, row, s.channels) && Sum(CountsOf(row)) == s.messageCount
  }

  /** In every state of every run from the empty catalogue, each row is the image of one healthy
      summary written by an earlier event: it shows that summary's view, its blob decodes to one
      count per member of its topic set, zips to that summary's merged topics, and sums to that
      summary's message count. */
  lemma RowExact(trace: seq<Tables>, evs: seq<Event>, d: Dims, i: nat)
    requires IsRun(trace, evs) && trace[0] == EMPTY && i < |trace| && RowAt(trace[i], d).Some?
    ensures exists m :: 0 <= m < i && RowFrom(evs[m], trace[i], d)
  {
    var m := RowHasWriter(trace, evs, d, i);
    EmptyValid();
    RunValid(trace, evs, i);
    ValidRowBlob(trace[i], d, Written(evs[m]).value.2.summary.channels);
    assert RowFrom(evs[m], trace[i], d);
  }

  lemma ValidRowBlob(t: Tables, d: Dims, channels: seq<ChannelInfo>)
    requires Valid(t) && RowAt(t, d).Some? && FileAt(t, d).value.topics == TopicsByName(channels)
    ensures BlobExact(t.dict, RowAt(t, d).value, channels)
  {
    var c := Lookup(t.dict, d).value;
    assert RowValid(t.dict, c, t.files[c]);
    BlobOfView(t.dict, t.files[c], channels);
  }
}
