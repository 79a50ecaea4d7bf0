/** The HID transport the engine writes reports to and reads reports from.
    The real library is foreign code; here a device answers from a script
    fixed in advance (what each write returns, what each read returns and
    delivers) and keeps the log of every report it was asked to write. */
module Hid {
  import opened Bytes
  import opened Api2

  /** One answer to a read: the byte count the library returns and the report it delivers. */
  datatype ReadReply = ReadReply(count: int, data: seq<uint8>)

  /** A read never returns more than the report size, and a report is a full buffer. */
  type Reply = r: ReadReply | r.count <= MAX_USB_BUFFER_BYTE_SIZE && |r.data| == MAX_USB_BUFFER_BYTE_SIZE
    witness ReadReply(0, Zeros(MAX_USB_BUFFER_BYTE_SIZE))

  /** The buffer after a read: the first `count` delivered bytes, when `count` is positive. */
  function Received(before: seq<uint8>, r: Reply): (after: seq<uint8>)
    requires |before| == MAX_USB_BUFFER_BYTE_SIZE
    ensures |after| == MAX_USB_BUFFER_BYTE_SIZE
    ensures r.count == MAX_USB_BUFFER_BYTE_SIZE ==> after == r.data
    ensures r.count <= 0 ==> after == before
  {
    if r.count <= 0 then before else r.data[..r.count] + before[r.count..]
  }

  /** What the next write returns: a device whose script has run out behaves
      as one that was unplugged, it fails. */
  function FirstWrite(writes: seq<int>): int
  {
    if writes == [] then -1 else writes[0]
  }

  /** What the next read returns and delivers; an exhausted script fails. */
  function FirstRead(replies: seq<Reply>): Reply
  {
    if replies == [] then ReadReply(-1, Zeros(MAX_USB_BUFFER_BYTE_SIZE)) else replies[0]
  }

  /** The script once its first answer is used up. */
  function Rest<T>(s: seq<T>): seq<T>
  {
    if s == [] then [] else s[1..]
  }

  class HidDevice {
    /** What the next writes return: a negative value is a failed write. */
    var writeResults: seq<int>
    /** What the next reads return and deliver. */
    var readReplies: seq<Reply>
    /** Every report handed to a write, in order. */
    var sent: seq<seq<uint8>>

    function NextWrite(): int
      reads this
    {
      FirstWrite(writeResults)
    }

    function NextRead(): Reply
      reads this
    {
      FirstRead(readReplies)
    }

    constructor (writes: seq<int>, replies: seq<Reply>)
      ensures writeResults == writes && readReplies == replies && sent == []
    {
      writeResults, readReplies, sent := writes, replies, [];
    }

    /** `hid_write` of a full report. */
    method Write(report: seq<uint8>) returns (n: int)
      modifies this
      ensures n == old(NextWrite())
      ensures sent == old(sent) + [report]
      ensures writeResults == Rest(old(writeResults))
      ensures readReplies == old(readReplies)
    {
      n := NextWrite();
      sent := sent + [report];
      if writeResults != [] {
        writeResults := writeResults[1..];
      }
    }

    /** `hid_read_timeout` (or the blocking `hid_read`) of a full report into `dst`.
        The live driver waits at most 3500 ms; which replies time out (count 0)
        is part of the scripted device. */
    method Read(dst: array<uint8>) returns (n: int)
      requires dst.Length == MAX_USB_BUFFER_BYTE_SIZE
      modifies this, dst
      ensures n == old(NextRead()).count
      ensures dst[..] == Received(old(dst[..]), old(NextRead()))
      ensures readReplies == Rest(old(readReplies))
      ensures writeResults == old(writeResults) && sent == old(sent)
    {
      var r := NextRead();
      if r.count > 0 {
        forall i | 0 <= i < r.count {
          dst[i] := r.data[i];
        }
      }
      assert dst[..] == Received(old(dst[..]), r);
      if readReplies != [] {
        readReplies := readReplies[1..];
      }
      n := r.count;
    }
  }
}
