/** Storing the logs of an Ethereum receipt in TON cells. */
module ReceiptCells {
  import opened ByteStrings
  import opened Results

  /** A cell built from whole bytes. */
  datatype BCell = BCell(data: Bytes, refs: seq<BCell>)

  datatype Log = Log(address: Bytes, topics: seq<Bytes>, data: Bytes)

  const DATA_SLICE_LENGTH := 96

  /** A cell holds at most 1023 bits and four references. */
  predicate Fits(c: BCell) {
    8 * |c.data| <= 1023 && |c.refs| <= 4 && forall i | 0 <= i < |c.refs| :: Fits(c.refs[i])
  }

  function Zeros(n: nat): Bytes {
    seq(n, _ => 0)
  }

  /** `toBuffer(val, len)` for a value that is already a buffer: padded or cut on the left. */
  function ToBuffer(val: Bytes, len: nat): (r: Bytes)
    ensures |r| == len
    ensures |val| == len ==> r == val
  {
    if |val| < len then Zeros(len - |val|) + val else val[|val| - len..]
  }

  /** The bytes are aligned to the right: missing ones are zero, and those too many are cut off on the left. */
  lemma ToBufferAligns(val: Bytes, len: nat, k: nat)
    requires k < len
    ensures ToBuffer(val, len)[len - 1 - k] == if k < |val| then val[|val| - 1 - k] else 0
  {
  }

  /** A list that is consumed from the front. */
  class Queue<T> {
    var items: seq<T>

    constructor (items: seq<T>)
      ensures this.items == items
    {
      this.items := items;
    }

    method Shift() returns (first: Option<T>)
      modifies this
      ensures old(items) == [] ==> first == None && items == []
      ensures old(items) != [] ==> first == Some(old(items)[0]) && items == old(items)[1..]
    {
      if |items| == 0 {
        first := None;
      } else {
        first := Some(items[0]);
        items := items[1..];
      }
    }
  }

  // ---------------------------------------------------------------------- data

  function BufCell(buf: Bytes): BCell {
    if |buf| <= DATA_SLICE_LENGTH then BCell(buf, [])
    else BCell(buf[..DATA_SLICE_LENGTH], [BufCell(buf[DATA_SLICE_LENGTH..])])
  }

  method BuildBufs(buf: Bytes) returns (c: BCell)
    ensures c == BufCell(buf)
    decreases |buf|
  {
    var b := if |buf| < DATA_SLICE_LENGTH then buf else buf[..DATA_SLICE_LENGTH];
    c := BCell(b, []);
    if |buf| > |b| {
      var rest := BuildBufs(buf[|b|..]);
      c := BCell(b, [rest]);
    }
  }

  function ReadBuf(c: BCell): Bytes {
    if c.refs == [] then c.data else c.data + ReadBuf(c.refs[0])
  }

  function CellCount(c: BCell): nat {
    if c.refs == [] then 1 else 1 + CellCount(c.refs[0])
  }

  /** Data is recovered from its chain of cells, which is no longer than needed and never empty. */
  lemma {:induction false} BufRoundTrip(buf: Bytes)
    ensures ReadBuf(BufCell(buf)) == buf && Fits(BufCell(buf))
    ensures CellCount(BufCell(buf)) == if buf == [] then 1 else (|buf| + 95) / 96
    decreases |buf|
  {
    if |buf| > DATA_SLICE_LENGTH {
      BufRoundTrip(buf[DATA_SLICE_LENGTH..]);
      assert buf == buf[..DATA_SLICE_LENGTH] + buf[DATA_SLICE_LENGTH..];
    }
  }

  /** Every cell of the chain but the last is full. */
  predicate FullSlices(c: BCell) {
    c.refs != [] ==> |c.refs| == 1 && |c.data| == 96 && FullSlices(c.refs[0])
  }

  lemma {:induction false} SlicesAreFull(buf: Bytes)
    ensures FullSlices(BufCell(buf))
    decreases |buf|
  {
    if |buf| > DATA_SLICE_LENGTH { SlicesAreFull(buf[DATA_SLICE_LENGTH..]); }
  }

  // -------------------------------------------------------------------- topics

  function TopicsCell(topics: seq<Bytes>): BCell {
    if topics == [] then BCell([], [])
    else BCell(topics[0], if |topics| > 1 then [TopicsCell(topics[1..])] else [])
  }

  method BuildTopics(tpcs: Queue<Bytes>) returns (c: BCell)
    modifies tpcs
    ensures c == TopicsCell(old(tpcs.items)) && tpcs.items == []
    decreases |tpcs.items|
  {
    var tpc := tpcs.Shift();
    c := BCell(if tpc.Some? then tpc.value else [], []);
    if |tpcs.items| > 0 {
      var rest := BuildTopics(tpcs);
      c := BCell(c.data, [rest]);
    }
  }

  function ReadTopics(c: BCell): seq<Bytes> {
    (if c.data == [] then [] else [c.data]) + (if c.refs == [] then [] else ReadTopics(c.refs[0]))
  }

  /** Topics, which are never empty, are recovered in order. */
  lemma {:induction false} TopicsRoundTrip(topics: seq<Bytes>)
    requires forall i | 0 <= i < |topics| :: |topics[i]| == 32
    ensures ReadTopics(TopicsCell(topics)) == topics && Fits(TopicsCell(topics))
    ensures CellCount(TopicsCell(topics)) == if topics == [] then 1 else |topics|
    decreases |topics|
  {
    if |topics| > 1 {
      TopicsRoundTrip(topics[1..]);
    }
  }

  // ---------------------------------------------------------------------- logs

  function ToWords(topics: seq<Bytes>): (r: seq<Bytes>)
    ensures |r| == |topics| && forall i | 0 <= i < |r| :: r[i] == ToBuffer(topics[i], 32)
  {
    seq(|topics|, i requires 0 <= i < |topics| => ToBuffer(topics[i], 32))
  }

  function LogsCell(logs: seq<Log>): BCell
    requires logs != []
  {
    BCell(ToBuffer(logs[0].address, 20),
          [TopicsCell(ToWords(logs[0].topics)), BufCell(logs[0].data)]
          + if |logs| > 1 then [LogsCell(logs[1..])] else [])
  }

  method BuildLogs(lgs: Queue<Log>) returns (c: Option<BCell>)
    modifies lgs
    ensures lgs.items == []
    ensures c == if old(lgs.items) == [] then None else Some(LogsCell(old(lgs.items)))
    decreases |lgs.items|
  {
    var lg := lgs.Shift();
    if lg.None? {
      return None;
    }
    var words := new Queue(ToWords(lg.value.topics));
    var topics := BuildTopics(words);
    var data := BuildBufs(lg.value.data);
    var refs := [topics, data];
    if |lgs.items| > 0 {
      var rest := BuildLogs(lgs);
      if rest.Some? {
        refs := refs + [rest.value];
      }
    }
    assert refs == LogsCell(old(lgs.items)).refs;
    c := Some(BCell(ToBuffer(lg.value.address, 20), refs));
  }

  function ReadLogs(c: BCell): seq<Log> {
    if |c.refs| < 2 then []
    else [Log(c.data, ReadTopics(c.refs[0]), ReadBuf(c.refs[1]))]
         + if |c.refs| > 2 then ReadLogs(c.refs[2]) else []
  }

  /** A log with its address and topics at their fixed sizes. */
  function Sized(log: Log): Log {
    Log(ToBuffer(log.address, 20), ToWords(log.topics), log.data)
  }

  function SizedAll(logs: seq<Log>): (r: seq<Log>)
    ensures |r| == |logs| && forall i | 0 <= i < |r| :: r[i] == Sized(logs[i])
  {
    seq(|logs|, i requires 0 <= i < |logs| => Sized(logs[i]))
  }

  predicate WellSized(log: Log) {
    |log.address| == 20 && forall i | 0 <= i < |log.topics| :: |log.topics[i]| == 32
  }

  /** Every log is recovered, in order, from cells that respect the limits of a cell. */
  lemma {:induction false} LogsRoundTrip(logs: seq<Log>)
    requires logs != []
    ensures ReadLogs(LogsCell(logs)) == SizedAll(logs) && Fits(LogsCell(logs))
    decreases |logs|
  {
    TopicsRoundTrip(ToWords(logs[0].topics));
    BufRoundTrip(logs[0].data);
    if |logs| > 1 {
      LogsRoundTrip(logs[1..]);
      assert SizedAll(logs) == [Sized(logs[0])] + SizedAll(logs[1..]);
    } else {
      assert SizedAll(logs) == [Sized(logs[0])];
    }
  }

  lemma WellSizedUnchanged(logs: seq<Log>)
    requires forall i | 0 <= i < |logs| :: WellSized(logs[i])
    ensures SizedAll(logs) == logs
  {
    forall i | 0 <= i < |logs|
      ensures Sized(logs[i]) == logs[i]
    {
      assert ToWords(logs[i].topics) == logs[i].topics;
    }
  }

  // ------------------------------------------------------------------- receipt

  class Receipt {
    /** Type, status and gas, as bytes. */
    var header: Bytes
    var logsBloom: Bytes
    var logs: seq<Log>

    constructor (header: Bytes, logsBloom: Bytes, logs: seq<Log>)
      ensures this.header == header && this.logsBloom == logsBloom && this.logs == logs
    {
      this.header, this.logsBloom, this.logs := header, logsBloom, logs;
    }

    /** Consumes copies of the logs and topics only: nothing that exists is changed. */
    method ToCell() returns (c: BCell)
      ensures c.data == header
      ensures |c.refs| == if logs == [] then 1 else 2
      ensures ReadBuf(c.refs[0]) == ToBuffer(logsBloom, 256)
      ensures ReadReceiptLogs(c) == SizedAll(logs)
      ensures 8 * |header| <= 1023 ==> Fits(c)
    {
      var copy := new Queue(logs);
      var cellLogs := BuildLogs(copy);
      var bloom := BuildBufs(ToBuffer(logsBloom, 256));
      BufRoundTrip(ToBuffer(logsBloom, 256));
      var refs := [bloom];
      if cellLogs.Some? {
        LogsRoundTrip(logs);
        refs := refs + [cellLogs.value];
      }
      c := BCell(header, refs);
    }
  }

  function ReadReceiptLogs(c: BCell): seq<Log> {
    if |c.refs| > 1 then ReadLogs(c.refs[1]) else []
  }
}
