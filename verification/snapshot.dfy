/** The value types of include/clay/snapshot.hpp: a snapshot and the per-file
    records it carries. */
module Snapshots {
  import opened Text

  /** `FileDelta::Action`; its C++ enumerator order gives the integer codes. */
  datatype Action = Create | Modify | Delete

  /** One file's recorded state. `content` is the header's `content` member,
      which storage.cpp reads and writes under the name `delta`;
      `baseSnapshotId` is the extra member storage.cpp uses. */
  datatype FileDelta = FileDelta(path: string, action: Action, content: seq<byte>, baseSnapshotId: string)

  datatype Snapshot = Snapshot(id: string, timestamp: int, autoSave: bool, message: string, deltas: seq<FileDelta>)

  const ShortIdLength := 8
  const SummaryLength := 50
  const Ellipsis := "..."

  /** The `FileDelta(p, a, c = {})` constructor. */
  function NewFileDelta(path: string, action: Action, content: seq<byte> := []): (d: FileDelta)
    ensures d.path == path && d.action == action && d.content == content
    ensures d.baseSnapshotId == []
  {
    FileDelta(path, action, content, [])
  }

  /** `Snapshot::shortId`: `id.substr(0, 8)`. */
  function ShortId(id: string): (r: string)
    ensures r <= id
    ensures |r| == if |id| < ShortIdLength then |id| else ShortIdLength
  {
    if |id| <= ShortIdLength then id else id[..ShortIdLength]
  }

  /** `Snapshot::summary`: the message cut to 50 characters, with "..." when
      something was cut. */
  function Summary(message: string): (r: string)
    ensures |message| <= SummaryLength ==> r == message
    ensures |message| > SummaryLength ==> r == message[..SummaryLength] + Ellipsis
    ensures |r| <= SummaryLength + |Ellipsis|
  {
    if |message| <= SummaryLength then message else message[..SummaryLength] + Ellipsis
  }

  /** Summarising twice changes nothing: a cut summary is 53 characters long
      and its first 50 are those of the message. */
  lemma {:induction false} SummaryIdempotent(message: string)
    ensures Summary(Summary(message)) == Summary(message)
  {
    if |message| > SummaryLength {
      var r := Summary(message);
      assert r[..SummaryLength] == message[..SummaryLength];
    }
  }

  /** Default content of the constructor is empty. */
  lemma NewFileDeltaDefault(path: string, action: Action)
    ensures NewFileDelta(path, action).content == []
  {
  }
}
