/**
 * The content of a batch file, as the decompressed text a reader sees: one
 * key/value object per line, each line ended by a newline, the metadata object
 * first and then one object per packet record in input order. JSON text itself
 * (Gson) is a parameter `enc` from a line to its text; gzip is not modelled.
 */
module BatchFormat {
  import opened Wrappers

  /** A JSON value as Gson writes it (numbers here are integers only). */
  datatype Json =
    | JNull
    | JBool(b: bool)
    | JNum(n: int)
    | JStr(s: string)
    | JArr(items: seq<Json>)
    | JObj(members: map<string, Json>)

  /** One line of a batch file: a JSON object, its keys unordered as in `Map.of`. */
  type Line = map<string, Json>

  datatype Direction = Inbound | Outbound

  /** A captured packet: the getters writeBatch reads from a PacketRecord. */
  datatype PacketRecord = PacketRecord(
    timestampMs: int,
    direction: Direction,
    packetName: string,
    playerUuid: string,
    playerName: string,
    fields: map<string, Json>)

  /** What the metadata line says. */
  datatype Meta = Meta(serverId: string, sessionId: string, createdAtMs: int, eventCount: int)

  /** What a reader recovers from a whole batch file. */
  datatype Batch = Batch(meta: Meta, records: seq<PacketRecord>)

  const MetaKeys: set<string> := {"server_id", "session_id", "created_at_ms", "event_count"}
  const RecordKeys: set<string> := {"ts", "dir", "pkt", "uuid", "name", "fields"}

  /** Gson writes an enum constant as its name. */
  function DirectionName(d: Direction): string {
    match d
    case Inbound => "INBOUND"
    case Outbound => "OUTBOUND"
  }

  function DirectionOf(s: string): Option<Direction> {
    if s == "INBOUND" then Some(Inbound)
    else if s == "OUTBOUND" then Some(Outbound)
    else None
  }

  /** The `meta` map of writeBatch. */
  function MetaLine(m: Meta): Line {
    map["server_id" := JStr(m.serverId),
        "session_id" := JStr(m.sessionId),
        "created_at_ms" := JNum(m.createdAtMs),
        "event_count" := JNum(m.eventCount)]
  }

  /** The map writeBatch builds for one record. */
  function RecordLine(r: PacketRecord): Line {
    map["ts" := JNum(r.timestampMs),
        "dir" := JStr(DirectionName(r.direction)),
        "pkt" := JStr(r.packetName),
        "uuid" := JStr(r.playerUuid),
        "name" := JStr(r.playerName),
        "fields" := JObj(r.fields)]
  }

  /** One object per record, in input order. */
  function RecordLines(records: seq<PacketRecord>): (lines: seq<Line>)
    ensures |lines| == |records|
  {
    seq(|records|, i requires 0 <= i < |records| => RecordLine(records[i]))
  }

  /** The objects of a batch, in the order writeBatch writes them. */
  function BatchLines(serverId: string, sessionId: string, createdAtMs: int, records: seq<PacketRecord>): seq<Line> {
    [MetaLine(Meta(serverId, sessionId, createdAtMs, |records|))] + RecordLines(records)
  }

  /** The text of a file holding `lines`: each object's text followed by a newline. */
  function Render(enc: Line -> string, lines: seq<Line>): string {
    if lines == [] then "" else enc(lines[0]) + "\n" + Render(enc, lines[1..])
  }

  function EncodeAll(enc: Line -> string, lines: seq<Line>): (texts: seq<string>)
    ensures |texts| == |lines|
  {
    if lines == [] then [] else [enc(lines[0])] + EncodeAll(enc, lines[1..])
  }

  /** The position of the first newline in `s`, or |s| if there is none. */
  function NewlineIndex(s: string): (i: nat)
    ensures i <= |s|
    ensures i < |s| ==> s[i] == '\n'
    ensures forall k :: 0 <= k < i ==> s[k] != '\n'
  {
    if s == [] || s[0] == '\n' then 0 else 1 + NewlineIndex(s[1..])
  }

  /** Reading a text line by line; an unterminated last line still counts. */
  function SplitLines(s: string): seq<string>
    decreases |s|
  {
    if s == [] then []
    else
      var i := NewlineIndex(s);
      if i == |s| then [s] else [s[..i]] + SplitLines(s[i + 1..])
  }

  function MetaOf(l: Line): Option<Meta> {
    if l.Keys == MetaKeys && l["server_id"].JStr? && l["session_id"].JStr?
       && l["created_at_ms"].JNum? && l["event_count"].JNum?
    then Some(Meta(l["server_id"].s, l["session_id"].s, l["created_at_ms"].n, l["event_count"].n))
    else None
  }

  function RecordOf(l: Line): Option<PacketRecord> {
    if l.Keys == RecordKeys && l["ts"].JNum? && l["dir"].JStr? && DirectionOf(l["dir"].s).Some?
       && l["pkt"].JStr? && l["uuid"].JStr? && l["name"].JStr? && l["fields"].JObj?
    then Some(PacketRecord(l["ts"].n, DirectionOf(l["dir"].s).value, l["pkt"].s,
                           l["uuid"].s, l["name"].s, l["fields"].members))
    else None
  }

  function RecordsOf(texts: seq<string>, dec: string -> Option<Line>): Option<seq<PacketRecord>> {
    if texts == [] then Some([])
    else
      match dec(texts[0])
      case None => None
      case Some(l) =>
        match RecordOf(l)
        case None => None
        case Some(r) =>
          match RecordsOf(texts[1..], dec)
          case None => None
          case Some(rs) => Some([r] + rs)
  }

  /**
   * A consumer of a batch file: parse the first line as metadata, check that
   * `event_count` matches the number of lines that follow, parse each of those
   * as a record. `dec` is the JSON parser.
   */
  function ReadBatch(text: string, dec: string -> Option<Line>): Option<Batch> {
    var texts := SplitLines(text);
    if texts == [] then None
    else
      match dec(texts[0])
      case None => None
      case Some(l) =>
        match MetaOf(l)
        case None => None
        case Some(m) =>
          if m.eventCount != |texts| - 1 then None
          else
            match RecordsOf(texts[1..], dec)
            case None => None
            case Some(rs) => Some(Batch(m, rs))
  }

  /** The batch writer's line structure: count, order, keys and `event_count`. */
  lemma BatchLinesShape(serverId: string, sessionId: string, createdAtMs: int, records: seq<PacketRecord>)
    ensures var lines := BatchLines(serverId, sessionId, createdAtMs, records);
      && |lines| == |records| + 1
      && lines[0].Keys == MetaKeys
      && lines[0]["event_count"] == JNum(|records|)
      && lines[0]["server_id"] == JStr(serverId)
      && lines[0]["session_id"] == JStr(sessionId)
      && forall i :: 0 <= i < |records| ==>
           lines[i + 1].Keys == RecordKeys && RecordOf(lines[i + 1]) == Some(records[i])
  {
    var lines := BatchLines(serverId, sessionId, createdAtMs, records);
    forall i | 0 <= i < |records|
      ensures lines[i + 1].Keys == RecordKeys && RecordOf(lines[i + 1]) == Some(records[i])
    {
      RecordRoundTrip(records[i]);
    }
  }

  lemma MetaRoundTrip(m: Meta)
    ensures MetaLine(m).Keys == MetaKeys
    ensures MetaOf(MetaLine(m)) == Some(m)
  {
    assert MetaLine(m).Keys == MetaKeys;
  }

  lemma RecordRoundTrip(r: PacketRecord)
    ensures RecordLine(r).Keys == RecordKeys
    ensures RecordOf(RecordLine(r)) == Some(r)
  {
    assert RecordLine(r).Keys == RecordKeys;
    assert DirectionOf(DirectionName(r.direction)) == Some(r.direction);
  }

  /** Appending one object to the writer appends its text and one newline. */
  lemma {:induction false} RenderAppend(enc: Line -> string, lines: seq<Line>, l: Line)
    ensures Render(enc, lines + [l]) == Render(enc, lines) + enc(l) + "\n"
    decreases |lines|
  {
    if lines != [] {
      assert (lines + [l])[1..] == lines[1..] + [l];
      RenderAppend(enc, lines[1..], l);
    } else {
      assert [l][1..] == [];
    }
  }

  lemma NewlineIndexOfLine(a: string, b: string)
    requires '\n' !in a
    ensures NewlineIndex(a + "\n" + b) == |a|
  {
    var s := a + "\n" + b;
    assert s[|a|] == '\n';
    assert forall k :: 0 <= k < |a| ==> s[k] == a[k];
  }

  /**
   * Splitting the rendered text at newlines gives back exactly one text per
   * object, in order, provided no object's text has a raw newline (Gson's
   * compact output escapes them).
   */
  lemma {:induction false} SplitRender(enc: Line -> string, lines: seq<Line>)
    requires forall k :: 0 <= k < |lines| ==> '\n' !in enc(lines[k])
    ensures SplitLines(Render(enc, lines)) == EncodeAll(enc, lines)
    decreases |lines|
  {
    if lines != [] {
      var a := enc(lines[0]);
      var rest := Render(enc, lines[1..]);
      var s := Render(enc, lines);
      assert s == a + "\n" + rest;
      NewlineIndexOfLine(a, rest);
      assert s[..|a|] == a;
      assert s[|a| + 1..] == rest;
      SplitRender(enc, lines[1..]);
    }
  }

  lemma {:induction false} RecordsRoundTrip(enc: Line -> string, dec: string -> Option<Line>, records: seq<PacketRecord>)
    requires forall k :: 0 <= k < |records| ==> dec(enc(RecordLine(records[k]))) == Some(RecordLine(records[k]))
    ensures RecordsOf(EncodeAll(enc, RecordLines(records)), dec)
            == Some(records)
    decreases |records|
  {
    var lines := RecordLines(records);
    if records != [] {
      assert lines[1..] == RecordLines(records[1..]);
      RecordRoundTrip(records[0]);
      assert forall k :: 0 <= k < |records| - 1 ==> records[1..][k] == records[k + 1];
      RecordsRoundTrip(enc, dec, records[1..]);
      assert [records[0]] + records[1..] == records;
    }
  }

  /**
   * The self-describing file: reading back what writeBatch writes yields its
   * metadata, with `event_count` equal to the number of record lines, and the
   * records themselves in input order.
   */
  lemma ReadBackBatch(enc: Line -> string, dec: string -> Option<Line>,
                      serverId: string, sessionId: string, createdAtMs: int, records: seq<PacketRecord>)
    requires var lines := BatchLines(serverId, sessionId, createdAtMs, records);
      forall k :: 0 <= k < |lines| ==> '\n' !in enc(lines[k]) && dec(enc(lines[k])) == Some(lines[k])
    ensures ReadBatch(Render(enc, BatchLines(serverId, sessionId, createdAtMs, records)), dec)
            == Some(Batch(Meta(serverId, sessionId, createdAtMs, |records|), records))
  {
    var m := Meta(serverId, sessionId, createdAtMs, |records|);
    var lines := BatchLines(serverId, sessionId, createdAtMs, records);
    var body := RecordLines(records);
    SplitRender(enc, lines);
    var texts := EncodeAll(enc, lines);
    assert lines[1..] == body;
    assert texts[0] == enc(MetaLine(m));
    assert texts[1..] == EncodeAll(enc, body);
    MetaRoundTrip(m);
    assert forall k :: 0 <= k < |records| ==> lines[k + 1] == RecordLine(records[k]);
    RecordsRoundTrip(enc, dec, records);
  }
}
