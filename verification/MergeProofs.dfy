/** The channel merge: conservation of the message total, and agreement of the id-level
    result (sorted members, counts) with the merge by topic name. */
module MergeProofs {
  import opened Common
  import opened IdTables
  import opened Summary
  import opened Schema
  import opened Store

  type Entries = map<Id, (Id, nat)>

  lemma MaxOfIs(s: set<Id>, x: Id)
    requires x in s && forall y :: y in s ==> y <= x
    ensures MaxOf(s) == x
  {
  }

  lemma SumAppend(xs: seq<nat>, x: nat)
    ensures Sum(xs + [x]) == Sum(xs) + x
  {
    assert (xs + [x])[..|xs|] == xs;
  }

  /** Members in topic id order, each zipped with its count, one pair per topic. */
  ghost predicate Zips(m: Entries, ms: seq<Member>, counts: seq<nat>) {
    && |ms| == |counts| && Sorted(ms)
    && (forall i :: 0 <= i < |ms| ==> ms[i].topic in m && m[ms[i].topic] == (ms[i].schema, counts[i]))
    && (forall k :: k in m ==> HasTopic(ms, k))
  }

  lemma {:induction false} MembersExact(m: Entries)
    ensures Zips(m, SetMembers(m), SetCounts(m))
    decreases |m|
  {
    if m != map[] {
      assert m.Keys != {};
      var x := MaxOf(m.Keys);
      MembersExact(m - {x});
      ZipsAppend(m - {x}, x, m[x], SetMembers(m - {x}), SetCounts(m - {x}));
      assert m == (m - {x})[x := m[x]];
    }
  }

  lemma ZipsAppend(m: Entries, x: Id, e: (Id, nat), ms: seq<Member>, counts: seq<nat>)
    requires Zips(m, ms, counts) && forall k :: k in m ==> k < x
    ensures Zips(m[x := e], ms + [Member(x, e.0)], counts + [e.1])
  {
    var ms' := ms + [Member(x, e.0)];
    forall k | k in m[x := e] ensures HasTopic(ms', k) {
      if k == x {
        assert ms'[|ms|].topic == k;
      } else {
        var i := IndexOf(ms, k);
        assert ms'[i].topic == k;
      }
    }
  }

  /** Writing one entry changes the total by the difference of the counts. */
  lemma {:induction false} TotalAfterUpdate(m: Entries, k: Id, e: (Id, nat))
    ensures Sum(SetCounts(m[k := e])) == Sum(SetCounts(m)) - (if k in m then m[k].1 else 0) + e.1
    decreases |m|
  {
    var m' := m[k := e];
    var x := MaxOf(m'.Keys);
    assert m'.Keys == m.Keys + {k};
    SumAppend(SetCounts(m' - {x}), m'[x].1);
    if x == k {
      assert m' - {x} == m - {k};
      if k in m {
        MaxOfIs(m.Keys, k);
        SumAppend(SetCounts(m - {k}), m[k].1);
      } else {
        assert m - {k} == m;
      }
    } else {
      assert x in m;
      MaxOfIs(m.Keys, x);
      assert m' - {x} == (m - {x})[k := e];
      TotalAfterUpdate(m - {x}, k, e);
      SumAppend(SetCounts(m - {x}), m[x].1);
    }
  }

  /** Merging duplicate topics conserves the total, so the guard passes exactly when the
      channel counts add up to the stated message count. */
  lemma {:induction false} MergeConservesTotal(t: Dict, channels: seq<ChannelInfo>)
    ensures Sum(SetCounts(MergeAll(t, channels).byTopic)) == ChannelTotal(channels)
  {
    if channels != [] {
      var init, ch := channels[..|channels| - 1], channels[|channels| - 1];
      MergeConservesTotal(t, init);
      var m := MergeAll(t, init);
      var m' := MergeStep(m, ch);
      var tid := m'.topics[ch.topic];
      TotalAfterUpdate(m.byTopic, tid, m'.byTopic[tid]);
    }
  }

  /** The id-level merge shows the same topics as the merge by name. */
  ghost predicate Agrees(m: Merge, names: map<string, TopicInfo>) {
    && (forall n :: n in names ==> n in m.topics && m.topics[n] in m.byTopic)
    && (forall n :: n in m.topics && m.topics[n] in m.byTopic ==> n in names)
    && (forall n :: n in names && n in m.topics && m.topics[n] in m.byTopic ==>
          names[n].schema in m.schemas
          && m.byTopic[m.topics[n]] == (m.schemas[names[n].schema], names[n].count))
    && (forall k :: k in m.byTopic ==> k in m.topics.Values && m.byTopic[k].0 in m.schemas.Values)
  }

  lemma {:induction false} MergeAgrees(t: Dict, channels: seq<ChannelInfo>)
    requires Injective(t.topics) && Injective(t.schemas)
    ensures var m := MergeAll(t, channels);
            Grows(t.topics, m.topics) && Grows(t.schemas, m.schemas) && Agrees(m, TopicsByName(channels))
  {
    if channels != [] {
      var init, ch := channels[..|channels| - 1], channels[|channels| - 1];
      MergeAgrees(t, init);
      var m := MergeAll(t, init);
      var names := TopicsByName(init);
      StepAgrees(m, names, ch);
    }
  }

  ghost predicate AgreesAt(m: Merge, names: map<string, TopicInfo>, n: string) {
    && (n in names <==> n in m.topics && m.topics[n] in m.byTopic)
    && (n in names ==> names[n].schema in m.schemas
                       && m.byTopic[m.topics[n]] == (m.schemas[names[n].schema], names[n].count))
  }

  lemma StepAgrees(m: Merge, names: map<string, TopicInfo>, ch: ChannelInfo)
    requires Injective(m.topics) && Injective(m.schemas) && Agrees(m, names)
    ensures var m' := MergeStep(m, ch);
            Grows(m.topics, m'.topics) && Grows(m.schemas, m'.schemas) && Agrees(m', AddChannel(names, ch))
  {
    InternGrows(m.topics, ch.topic);
    InternGrows(m.schemas, ch.schema);
    StepKnown(m, names, ch);
    forall n ensures AgreesAt(MergeStep(m, ch), AddChannel(names, ch), n) {
      StepAgreesAt(m, names, ch, n);
    }
    AgreesEverywhere(MergeStep(m, ch), AddChannel(names, ch));
  }

  lemma AgreesEverywhere(m: Merge, names: map<string, TopicInfo>)
    requires forall n :: AgreesAt(m, names, n)
    requires forall k :: k in m.byTopic ==> k in m.topics.Values && m.byTopic[k].0 in m.schemas.Values
    ensures Agrees(m, names)
  {
    forall n ensures n in names ==> n in m.topics && m.topics[n] in m.byTopic {
      assert AgreesAt(m, names, n);
    }
    forall n | n in m.topics && m.topics[n] in m.byTopic ensures n in names {
      assert AgreesAt(m, names, n);
    }
    forall n | n in names && n in m.topics && m.topics[n] in m.byTopic
      ensures names[n].schema in m.schemas
      ensures m.byTopic[m.topics[n]] == (m.schemas[names[n].schema], names[n].count)
    {
      assert AgreesAt(m, names, n);
    }
  }

  lemma StepAgreesAt(m: Merge, names: map<string, TopicInfo>, ch: ChannelInfo, n: string)
    requires Injective(m.topics) && Injective(m.schemas) && Agrees(m, names)
    ensures AgreesAt(MergeStep(m, ch), AddChannel(names, ch), n)
  {
    StepKnown(m, names, ch);
    InternGrows(m.topics, ch.topic);
    InternGrows(m.schemas, ch.schema);
    var m' := MergeStep(m, ch);
    if n != ch.topic && n in m'.topics && m'.topics[n] in m'.byTopic {
      StepElsewhere(m, names, ch, n);
    }
  }

  /** The channel's topic was merged before exactly when its name was; all ids stay known. */
  lemma StepKnown(m: Merge, names: map<string, TopicInfo>, ch: ChannelInfo)
    requires Injective(m.topics) && Injective(m.schemas) && Agrees(m, names)
    ensures var m' := MergeStep(m, ch);
      && (m'.topics[ch.topic] in m.byTopic <==> ch.topic in names)
      && forall k :: k in m'.byTopic ==> k in m'.topics.Values && m'.byTopic[k].0 in m'.schemas.Values
  {
    var m' := MergeStep(m, ch);
    var tid := m'.topics[ch.topic];
    if tid in m.byTopic {
      assert tid in m.topics.Values;
    }
    ValuesGrow(m.topics, m'.topics);
    ValuesGrow(m.schemas, m'.schemas);
    assert ch.topic in m'.topics && ch.schema in m'.schemas;
    assert tid in m'.topics.Values && m'.schemas[ch.schema] in m'.schemas.Values;
  }

  lemma StepElsewhere(m: Merge, names: map<string, TopicInfo>, ch: ChannelInfo, n: string)
    requires Injective(m.topics) && Agrees(m, names) && n != ch.topic
    requires var m' := MergeStep(m, ch); n in m'.topics && m'.topics[n] in m'.byTopic
    ensures n in names && n in m.topics && MergeStep(m, ch).byTopic[m.topics[n]] == m.byTopic[m.topics[n]]
  {
    var m' := MergeStep(m, ch);
    InternGrows(m.topics, ch.topic);
    assert m'.topics[n] != m'.topics[ch.topic];
    assert m'.topics[n] in m.byTopic;
  }

  lemma ValuesGrow<K(!new)>(m: map<K, Id>, m': map<K, Id>)
    requires Extends(m, m')
    ensures m.Values <= m'.Values
  {
    forall v | v in m.Values ensures v in m'.Values {
      var k :| k in m && m[k] == v;
      assert k in m';
    }
  }
}
