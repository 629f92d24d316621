/** mcap_summary.py: per-file facts, the merge of channels into topics by name, and the
    health conditions the builder checks before a row is written. */
module Summary {
  import opened Common

  datatype ChannelInfo = ChannelInfo(topic: string, schema: (string, string), messageCount: nat)

  /** `tags` is what derive_tags returns for the file, left arbitrary. */
  datatype FileSummary = FileSummary(startNs: int, endNs: int, messageCount: nat, chunkCount: int,
                                     channels: seq<ChannelInfo>, tags: seq<(string, string)>)

  datatype Stat = Stat(size: int, etag: string, mtimeNs: int)

  datatype ReadResult = Ready(summary: FileSummary) | Vanished | Unreadable(error: string)

  /** What one topic of a file shows: its schema and its message count. */
  datatype TopicInfo = TopicInfo(schema: (string, string), count: nat)

  /** The name-level view of a catalogued file. */
  datatype FileView = FileView(etag: string, size: int, startNs: int, endNs: int, chunkCount: int,
                               hasError: bool, topics: map<string, TopicInfo>, tags: map<string, string>)

  datatype Failure =
    | UnparseableKey
    | ReadError(error: string)
    | CountMismatch(counted: nat, stated: nat)
    | IntegerTooLarge
    | DuplicateTagKey

  function ChannelTotal(channels: seq<ChannelInfo>): nat {
    if channels == [] then 0
    else ChannelTotal(channels[..|channels| - 1]) + channels[|channels| - 1].messageCount
  }

  function AddChannel(m: map<string, TopicInfo>, ch: ChannelInfo): map<string, TopicInfo> {
    if ch.topic in m
    then m[ch.topic := m[ch.topic].(count := m[ch.topic].count + ch.messageCount)]
    else m[ch.topic := TopicInfo(ch.schema, ch.messageCount)]
  }

  /** Channels of one topic are merged: the first schema wins and the counts add up. */
  function TopicsByName(channels: seq<ChannelInfo>): map<string, TopicInfo> {
    if channels == [] then map[]
    else AddChannel(TopicsByName(channels[..|channels| - 1]), channels[|channels| - 1])
  }

  /** The tag rows as a map; insertion order does not matter once the keys are distinct. */
  function TagMap(tags: seq<(string, string)>): map<string, string> {
    if tags == [] then map[]
    else TagMap(tags[..|tags| - 1])[tags[|tags| - 1].0 := tags[|tags| - 1].1]
  }

  predicate DistinctTagKeys(tags: seq<(string, string)>) {
    forall i, j :: 0 <= i < j < |tags| ==> tags[i].0 != tags[j].0
  }

  /** SQLite's INTEGER is a signed 64-bit value; sqlite3 raises on anything larger. */
  predicate Fits(x: int) {
    -0x8000_0000_0000_0000 <= x < 0x8000_0000_0000_0000
  }

  predicate AllFit(stat: Stat, s: FileSummary) {
    Fits(stat.size) && Fits(stat.mtimeNs) && Fits(s.startNs) && Fits(s.endNs) && Fits(s.chunkCount)
  }

  /** The file can be written: counts add up, integers fit, no tag key twice. */
  predicate Healthy(stat: Stat, s: FileSummary) {
    ChannelTotal(s.channels) == s.messageCount && AllFit(stat, s) && DistinctTagKeys(s.tags)
  }

  function Lower(s: string): string {
    if s == [] then []
    else [if 'A' <= s[0] <= 'Z' then (s[0] as int + 32) as char else s[0]] + Lower(s[1..])
  }

  predicate IsErrorTag(key: string, value: string) {
    key in {"error", "has_error"} && Lower(value) in {"1", "true", "yes"}
  }

  predicate HasError(s: FileSummary) {
    (exists i :: 0 <= i < |s.tags| && IsErrorTag(s.tags[i].0, s.tags[i].1)) || s.messageCount == 0
  }

  /** What the catalogue must show for a healthy file: a function of the object alone. */
  function ViewOf(stat: Stat, s: FileSummary): FileView {
    FileView(stat.etag, stat.size, s.startNs, s.endNs, s.chunkCount, HasError(s),
             TopicsByName(s.channels), TagMap(s.tags))
  }

  predicate HealthyRead(stat: Stat, read: ReadResult) {
    read.Ready? && Healthy(stat, read.summary)
  }

  function Published(stat: Stat, read: ReadResult): Option<FileView> {
    if HealthyRead(stat, read) then Some(ViewOf(stat, read.summary)) else None
  }
}
