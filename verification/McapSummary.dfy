/** mcap_summary.summary_from_stream: the join of an MCAP summary's channels with its schemas and
    its per-channel message counts. */
module McapSummary {
  import opened Common
  import opened Summary

  datatype Channel = Channel(id: nat, topic: string, schemaId: nat)

  /** What the MCAP reader returns. A channel without messages has no entry in `counts`. */
  datatype Section = Section(startNs: int, endNs: int, messageCount: nat, chunkCount: int, counts: map<nat, nat>,
                             channels: seq<Channel>, schemas: map<nat, (string, string)>)

  ghost predicate Joined(m: Section, channels: seq<ChannelInfo>, n: nat)
    requires n <= |m.channels|
  {
    && |channels| == n
    && forall i :: 0 <= i < n ==>
      && channels[i].topic == m.channels[i].topic
      && (m.channels[i].id in m.counts ==> channels[i].messageCount == m.counts[m.channels[i].id])
      && (m.channels[i].id !in m.counts ==> channels[i].messageCount == 0)
      && channels[i].schema == if m.channels[i].schemaId in m.schemas then m.schemas[m.channels[i].schemaId]
                               else ("", "")
  }

  /** One entry per channel, in order; no summary or no statistics is an error. `tags` is what
      derive_tags returns. */
  method SummaryFromStream(section: Option<Section>, tags: seq<(string, string)>)
    returns (r: Result<FileSummary, string>)
    ensures r.Ok? <==> section.Some?
    ensures r.Ok? ==> var m, s := section.value, r.value;
      && Joined(m, s.channels, |m.channels|) && s.tags == tags
      && s.startNs == m.startNs && s.endNs == m.endNs
      && s.messageCount == m.messageCount && s.chunkCount == m.chunkCount
  {
    if section.None? {
      return Err("no summary/statistics in MCAP");
    }
    var m := section.value;
    var channels: seq<ChannelInfo> := [];
    for i := 0 to |m.channels|
      invariant Joined(m, channels, i)
    {
      var ch := m.channels[i];
      var schema := if ch.schemaId in m.schemas then m.schemas[ch.schemaId] else ("", "");
      var count := if ch.id in m.counts then m.counts[ch.id] else 0;
      channels := channels + [ChannelInfo(ch.topic, schema, count)];
    }
    return Ok(FileSummary(m.startNs, m.endNs, m.messageCount, m.chunkCount, channels, tags));
  }

  // ---- what a topic shows ----

  /** The messages of one topic, over the channels that carry it. */
  function TopicTotal(channels: seq<ChannelInfo>, name: string): nat {
    if channels == [] then 0
    else (if channels[0].topic == name then channels[0].messageCount else 0) + TopicTotal(channels[1..], name)
  }

  /** The first channel of a topic, if it has one. */
  function FirstOf(channels: seq<ChannelInfo>, name: string): Option<ChannelInfo> {
    if channels == [] then None
    else if channels[0].topic == name then Some(channels[0])
    else FirstOf(channels[1..], name)
  }

  lemma {:induction false} TopicTotalAppend(channels: seq<ChannelInfo>, ch: ChannelInfo, name: string)
    ensures TopicTotal(channels + [ch], name)
         == TopicTotal(channels, name) + if ch.topic == name then ch.messageCount else 0
    ensures FirstOf(channels + [ch], name) ==
      if FirstOf(channels, name).Some? then FirstOf(channels, name)
      else if ch.topic == name then Some(ch) else None
  {
    if channels == [] {
      assert channels + [ch] == [ch] && [ch][1..] == [];
    } else {
      TopicTotalAppend(channels[1..], ch, name);
      assert (channels + [ch])[1..] == channels[1..] + [ch];
    }
  }

  /** A topic is shown exactly when some channel carries it, even without messages, with the
      schema of its first channel and the messages of all its channels. */
  lemma {:induction false} TopicShown(channels: seq<ChannelInfo>, name: string)
    ensures name in TopicsByName(channels) <==> FirstOf(channels, name).Some?
    ensures name in TopicsByName(channels) ==>
        TopicsByName(channels)[name] == TopicInfo(FirstOf(channels, name).value.schema, TopicTotal(channels, name))
  {
    if channels != [] {
      var init, last := channels[..|channels| - 1], channels[|channels| - 1];
      assert channels == init + [last];
      TopicShown(init, name);
      TopicTotalAppend(init, last, name);
      AbsentTotal(init, name);
    }
  }

  lemma {:induction false} AbsentTotal(channels: seq<ChannelInfo>, name: string)
    ensures FirstOf(channels, name).None? ==> TopicTotal(channels, name) == 0
  {
    if channels != [] {
      AbsentTotal(channels[1..], name);
    }
  }
}
