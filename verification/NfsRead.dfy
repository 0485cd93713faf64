/**
 nfs_read of nfs_common.inl: the reply to READ (section 3.3.6 of RFC 1813) and the loop that copies its
 data, window by window, to the caller's buffer.
 */
module NfsRead {
  import opened Outcomes
  import opened Alignment
  import opened Xdr
  import opened Replies
  import RpcDeserializer

  type Socket = RpcDeserializer.Socket

  // The flat reply

  /** A failed call, or where the data starts and how long it is. */
  datatype ReadReply = Failed | Data(count: U32, size: U32, start: nat)

  /** READ3resok up to the data: attributes, count, eof, and the length of the data. */
  function ReadResult(s: seq<Octet>, p: nat): (r: Option<ReadReply>)
    ensures r.Some? ==> r.value.Data? && p < r.value.start <= |s|
  {
    match ReadOptAttribs(s, p)
    case None => None
    case Some(attribs) =>
      var q := attribs.next;
      if q + 12 > |s| then None else Some(Data(U32At(s, q), U32At(s, q + 8), q + 12))
  }

  function ReadData(s: seq<Octet>, xid: U32): (r: Option<ReadReply>)
    ensures r.Some? && r.value.Data? ==> r.value.start <= |s|
  {
    match ReadAccepted(s, xid)
    case None => None
    case Some(status) => if status.value != 0 then Some(Failed) else ReadResult(s, status.next)
  }

  function EncodeReadResult(attribs: Option<Fattr>, count: U32, eof: bool, data: seq<Octet>): seq<Octet>
    requires |data| < TWO_TO_32
  {
    EncodeAttribs(attribs) + (EncodeU32(count) + (EncodeBool(eof) + EncodeString(data)))
  }

  lemma ReadEncodedReadResult(s: seq<Octet>, p: nat, attribs: Option<Fattr>, count: U32, eof: bool, data: seq<Octet>)
    requires |data| < TWO_TO_32 && At(s, p, EncodeReadResult(attribs, count, eof, data))
    ensures var start := p + |EncodeAttribs(attribs)| + 12;
            && ReadResult(s, p) == Some(Data(count, |data|, start)) && start <= p + 100
            && At(s, start, Padded(data)) && start + |Padded(data)| == p + |EncodeReadResult(attribs, count, eof, data)|
  {
    hide EncodeU32, EncodeAttribs, At, U32At, ReadOptAttribs, Padded, Align4;
    var q := p + |EncodeAttribs(attribs)|;
    AtSplit(s, p, EncodeAttribs(attribs), EncodeU32(count) + (EncodeBool(eof) + EncodeString(data)));
    ReadEncodedOptAttribs(s, p, attribs);
    AttribsSize(attribs);
    SplitU32(s, q, count, EncodeBool(eof) + EncodeString(data));
    SplitU32(s, q + 4, if eof then 1 else 0, EncodeString(data));
    SplitU32(s, q + 8, |data|, Padded(data));
  }

  /** The result of READ: attributes or FALSE, count, eof, and the data as a string. */
  lemma ResultLayout(s: seq<Octet>, p: nat, attribs: Option<Fattr>, count: U32, eof: bool, data: seq<Octet>)
    requires |data| < 0x1_0000_0000 && At(s, p, EncodeReadResult(attribs, count, eof, data))
    ensures var q := p + |EncodeAttribs(attribs)|;
            && At(s, p, EncodeAttribs(attribs))
            && q + 8 <= |s| && U32At(s, q) == count && U32At(s, q + 4) == (if eof then 1 else 0)
            && At(s, q + 8, EncodeString(data))
            && q + 8 + |EncodeString(data)| == p + |EncodeReadResult(attribs, count, eof, data)|
  {
    hide EncodeU32, EncodeAttribs, At, U32At, EncodeString;
    var q := p + |EncodeAttribs(attribs)|;
    AtSplit(s, p, EncodeAttribs(attribs), EncodeU32(count) + (EncodeBool(eof) + EncodeString(data)));
    SplitU32(s, q, count, EncodeBool(eof) + EncodeString(data));
    SplitU32(s, q + 4, if eof then 1 else 0, EncodeString(data));
  }

  lemma WholeReadResult(attribs: Option<Fattr>, count: U32, eof: bool, data: seq<Octet>)
    requires |data| < TWO_TO_32
    ensures Whole(|EncodeReadResult(attribs, count, eof, data)|)
  {
    hide EncodeU32, EncodeAttribs, EncodeString, Align4;
    WholeSum(8, 4 + Align4(|data|));
    WholeSum(|EncodeAttribs(attribs)|, 8 + (4 + Align4(|data|)));
  }

  /** Reading an encoded reply finds the data, padded up to the end of the record. */
  lemma ReadEncodedData(h: Head, attribs: Option<Fattr>, count: U32, eof: bool, data: seq<Octet>)
    requires HeadOk(h) && |data| < TWO_TO_32
    requires |EncodeBody(h, 0, EncodeReadResult(attribs, count, eof, data))| < TWO_TO_31
    ensures var s := EncodeReply(h, 0, EncodeReadResult(attribs, count, eof, data)); var r := ReadData(s, h.xid);
            && OneRecord(s) && Whole(|s|)
            && r.Some? && r.value.Data? && r.value.count == count && r.value.size == |data| && r.value.start <= WINDOW
            && s[r.value.start..] == Padded(data)
  {
    hide EncodeBody, EncodeReply, EncodeReadResult, ReadAccepted, ReadResult, OneRecord, At, Align4, Padded,
      EncodeAttribs;
    var result := EncodeReadResult(attribs, count, eof, data);
    var s := EncodeReply(h, 0, result);
    var p := 32 + Align4(|h.verifier|);
    WholeReadResult(attribs, count, eof, data);
    WholeReply(h, 0, result);
    ReadEncodedAccepted(h, 0, result);
    ReadEncodedReadResult(s, p, attribs, count, eof, data);
    AtBounds(s, p + |EncodeAttribs(attribs)| + 12, Padded(data));
  }

  /** An error status is taken for what it is, whatever follows it. */
  lemma ReadRefused(h: Head, status: U32, result: seq<Octet>)
    requires HeadOk(h) && status != 0 && |EncodeBody(h, status, result)| < TWO_TO_31
    ensures var s := EncodeReply(h, status, result);
            OneRecord(s) && ReadData(s, h.xid) == Some(Failed) && ReadAccepted(s, h.xid).value.next <= WINDOW
  {
    hide EncodeBody, EncodeReply, ReadAccepted, ReadResult, OneRecord, At;
    ReadEncodedAccepted(h, status, result);
  }

  // Copying

  /** What has been copied so far: the data from position `start` on, at the front of the buffer. */
  ghost predicate Filled(data: array<Octet>, was: seq<Octet>, record: seq<Octet>, start: nat, copied: nat)
    reads data
  {
    && copied <= data.Length == |was| && start + copied <= |record|
    && data[..copied] == record[start..start + copied] && data[copied..] == was[copied..]
  }

  /** memcpy from the window to the caller's buffer. */
  method CopyWindow(d: Reader, data: array<Octet>, at: nat, n: nat, ghost was: seq<Octet>, ghost start: nat)
    requires d.Valid() && n <= d.BufferLeft() && at + n <= data.Length && data != d.InlineStorage
    requires d.pos == start + at && Filled(data, was, d.record, start, at)
    modifies data
    ensures d.Valid() && Filled(data, was, d.record, start, at + n)
  {
    d.Facts();
    d.WindowIsRecord(n);
    ghost var before, window := data[..], d.InlineStorage[d.ReadPtr..d.ReadPtr + n];
    forall i | 0 <= i < n {
      data[at + i] := d.InlineStorage[d.ReadPtr + i];
    }
    assert d.Unread() == old(d.Unread());
    assert data[at..at + n] == window == d.record[d.pos..d.pos + n];
    FilledFurther(before, data[..], was, d.record, start, at, n);
  }

  /** Replacing the next `n` bytes by the record's next `n` fills that much more. */
  lemma FilledFurther(before: seq<Octet>, now: seq<Octet>, was: seq<Octet>, record: seq<Octet>, start: nat, at: nat,
                      n: nat)
    requires at + n <= |before| == |now| == |was| && start + at + n <= |record|
    requires before[..at] == record[start..start + at] && before[at..] == was[at..]
    requires forall i :: 0 <= i < |now| && !(at <= i < at + n) ==> now[i] == before[i]
    requires now[at..at + n] == record[start + at..start + at + n]
    ensures now[..at + n] == record[start..start + at + n] && now[at + n..] == was[at + n..]
  {
    assert now[..at] == before[..at];
    assert now[..at + n] == now[..at] + now[at..at + n];
    assert now[at + n..] == before[at..][n..];
    assert was[at + n..] == was[at..][n..];
  }

  lemma FilledBounds(data: array<Octet>, was: seq<Octet>, record: seq<Octet>, start: nat, copied: nat)
    requires Filled(data, was, record, start, copied)
    ensures copied <= data.Length && start + copied <= |record|
  {}

  /** The body of the loop: copy the window, step over it rounded up to words, ask for a word more. */
  method NextWindow(d: Reader, data: array<Octet>, readAlready: nat, ghost was: seq<Octet>, ghost start: nat)
    returns (r: Outcome<()>, copied: nat)
    requires d.Valid() && data != d.InlineStorage && Whole(readAlready)
    requires d.pos == start + readAlready && Filled(data, was, d.record, start, readAlready)
    modifies d`ReadPtr, d`pos, d`Size, d`FragmentSizeLeft, d.InlineStorage, d.SockFd, data
    ensures Filled(data, was, d.record, start, copied)
    ensures r.Done? ==>
            d.Valid() && copied == readAlready + old(d.BufferLeft()) && Whole(copied) && d.pos == start + copied
                        && d.FragmentSizeLeft < old(d.FragmentSizeLeft)
    ensures r.Stopped? && r.reason == OutOfBounds ==> data.Length < |d.record| - start
    ensures d.SockFd.policy.wholeWords && Whole(|d.record|) ==>
              (r.Done? <== old(d.pos) + old(d.BufferLeft()) + 4 <= |d.record| && |d.record| - start <= data.Length)
  {
    hide d.Valid, d.Unread, d.BufferLeft, Filled, Whole, RpcDeserializer.MayEnsure;
    d.Facts();
    RpcDeserializer.WholeNumbers();
    copied := readAlready;
    var bufferLeft := d.BufferLeft();
    if readAlready + bufferLeft > data.Length {
      return Stopped(OutOfBounds), copied;
    }
    CopyWindow(d, data, readAlready, bufferLeft, was, start);
    copied := readAlready + bufferLeft;
    WholeSum(readAlready, bufferLeft);
    FilledBounds(data, was, d.record, start, copied);
    if !Whole(bufferLeft) {
      // the rounded-up read pointer passes the received bytes, and RefillBuffer asserts that it does not
      return Stopped(AssertFailed), copied;
    }
    d.Consume(bufferLeft);
    d.Facts();
    r := d.EnsureSize(4);
  }

  /**
   The copy loop.  `copied` is how many bytes of the caller's buffer have been written; the last copy
   takes the whole rest of the window, not only what is still due.

   When it ends, the buffer starts with the data, in order, without gap or repeat; what it writes beyond
   is what follows in the record, and the rest of the buffer is untouched.
   */
  method CopyData(d: Reader, data: array<Octet>, arraySize: U32) returns (r: Outcome<()>, copied: nat)
    requires d.Valid() && data != d.InlineStorage
    modifies d`ReadPtr, d`pos, d`Size, d`FragmentSizeLeft, d.InlineStorage, d.SockFd, data
    ensures Filled(data, old(data[..]), d.record, old(d.pos), copied)
    ensures r.Done? ==> arraySize <= copied
    ensures r.Stopped? && r.reason == OutOfBounds ==> data.Length < |d.record| - old(d.pos)
    ensures d.SockFd.policy.wholeWords && Whole(|d.record|) ==>
              (r.Done? ==> Whole(copied)) &&
                (r.Done? <== old(d.pos) + arraySize <= |d.record| && |d.record| - old(d.pos) <= data.Length)
  {
    hide d.Valid, d.Unread, d.BufferLeft, Filled, Whole;
    RpcDeserializer.WholeNumbers();
    ghost var start, was := d.pos, data[..];
    d.Facts();
    NothingFilled(data, d.record, start);
    var readAlready: nat := 0;
    var bufferLeft := d.BufferLeft();
    while bufferLeft < arraySize - readAlready
      invariant d.Valid() && bufferLeft == d.BufferLeft() && d.FragmentSizeLeft >= 0
      invariant readAlready <= arraySize && Whole(readAlready)
      invariant d.pos == start + readAlready && Filled(data, was, d.record, start, readAlready)
      decreases d.FragmentSizeLeft
    {
      d.Facts();
      r, copied := NextWindow(d, data, readAlready, was, start);
      if r.Stopped? {
        return;
      }
      readAlready := copied;
      d.Facts();
      bufferLeft := d.BufferLeft();
    }
    d.Facts();
    WholeSum(readAlready, bufferLeft);
    r, copied := LastWindow(d, data, readAlready, was, start);
  }

  /** The copy after the loop, `bufferLeft` bytes however few are due. */
  method LastWindow(d: Reader, data: array<Octet>, readAlready: nat, ghost was: seq<Octet>, ghost start: nat)
    returns (r: Outcome<()>, copied: nat)
    requires d.Valid() && data != d.InlineStorage
    requires d.pos == start + readAlready && Filled(data, was, d.record, start, readAlready)
    modifies data
    ensures Filled(data, was, d.record, start, copied)
    ensures copied == if r.Done? then readAlready + d.BufferLeft() else readAlready
    ensures r.Done? <==> readAlready + d.BufferLeft() <= data.Length
    ensures r.Stopped? ==> r.reason == OutOfBounds
  {
    hide d.Valid, d.Unread, d.BufferLeft, Filled, Whole;
    d.Facts();
    copied := readAlready;
    if readAlready + d.BufferLeft() > data.Length {
      return Stopped(OutOfBounds), copied;
    }
    CopyWindow(d, data, readAlready, d.BufferLeft(), was, start);
    copied := readAlready + d.BufferLeft();
    r := Done(());
  }

  lemma NothingFilled(data: array<Octet>, record: seq<Octet>, start: nat)
    requires start <= |record|
    ensures Filled(data, data[..], record, start, 0)
  {}

  /** Attributes, count, eof, and the length word of the data: none of the words is asked for. */
  method ReceiveReadHead(d: Reader) returns (r: Outcome<(U32, U32)>)
    requires d.Valid()
    modifies d`ReadPtr, d`pos, d`Size, d`FragmentSizeLeft, d.InlineStorage, d.SockFd
    ensures r.Done? ==> d.Valid() && ReadResult(d.record, old(d.pos)) == Some(Data(r.value.0, r.value.1, d.pos))
    ensures var head := ReadResult(d.record, old(d.pos));
            head.Some? && head.value.start <= old(d.pos) + old(d.BufferLeft()) ==> r.Done?
  {
    hide U32At, ReadOptAttribs, d.Valid;
    var attribs := ReceiveOptAttribs(d);
    if attribs.Stopped? {
      return Stopped(attribs.reason);
    }
    var count := d.ReadU32();
    if count.Stopped? {
      return Stopped(count.reason);
    }
    var eof := d.ReadBool();
    if eof.Stopped? {
      return Stopped(eof.reason);
    }
    var arraySize := d.ReadU32();
    if arraySize.Stopped? {
      return Stopped(arraySize.reason);
    }
    r := Done((count.value, arraySize.value));
  }

  /** The data, padded to whole words, is all that is left of the record, and its head fits the first window. */
  predicate WholeAnswer(s: seq<Octet>, reply: ReadReply) {
    reply.Data? && reply.start <= WINDOW && reply.start <= |s| && |s| - reply.start == Align4(reply.size)
  }

  lemma CopiedWhole(data: array<Octet>, was: seq<Octet>, s: seq<Octet>, start: nat, copied: nat, size: U32)
    requires Filled(data, was, s, start, copied)
    ensures start <= |s| && copied <= data.Length && (copied == 0 ==> data[..] == was)
    ensures |s| - start == Align4(size) && size <= copied && Whole(copied) ==> copied == Align4(size)
  {
    assert data[0..] == data[..] && was[0..] == was;
  }

  /**
   What a successful nfs_read leaves in the caller's buffer: the data, then its padding.  So nothing but
   the data is written exactly when its length is a whole number of words or the padding was there before.
   */
  lemma BufferAfterRead(data: array<Octet>, was: seq<Octet>, h: Head, attribs: Option<Fattr>, count: U32, eof: bool,
                        bytes: seq<Octet>)
    requires HeadOk(h) && |bytes| < TWO_TO_32
    requires |EncodeBody(h, 0, EncodeReadResult(attribs, count, eof, bytes))| < TWO_TO_31
    requires var s := EncodeReply(h, 0, EncodeReadResult(attribs, count, eof, bytes)); var reply := ReadData(s, h.xid);
             reply.Some? && reply.value.Data? && Filled(data, was, s, reply.value.start, Align4(|bytes|))
    ensures data[..] == Padded(bytes) + was[Align4(|bytes|)..] && data[..|bytes|] == bytes
    ensures data[|bytes|..] == was[|bytes|..] <==>
            Whole(|bytes|) || was[|bytes|..Align4(|bytes|)] == Zeros(Align4(|bytes|) - |bytes|)
  {
    hide EncodeBody, EncodeReply, EncodeReadResult, ReadData, Padded, Align4, Zeros, HeadOk, OneRecord, Whole;
    ReadEncodedData(h, attribs, count, eof, bytes);
    var s := EncodeReply(h, 0, EncodeReadResult(attribs, count, eof, bytes));
    FilledWith(data, was, s, ReadData(s, h.xid).value.start, Padded(bytes));
    PaddingWritten(data[..], was, bytes);
  }

  /** A buffer filled with the rest of the record. */
  lemma FilledWith(data: array<Octet>, was: seq<Octet>, s: seq<Octet>, start: nat, rest: seq<Octet>)
    requires Filled(data, was, s, start, |rest|) && s[start..] == rest
    ensures data[..] == rest + was[|rest|..]
  {
    assert s[start..start + |rest|] == s[start..][..|rest|] == rest;
    assert data[..] == data[..|rest|] + data[|rest|..];
  }

  lemma PaddingWritten(now: seq<Octet>, was: seq<Octet>, bytes: seq<Octet>)
    requires Align4(|bytes|) <= |was| && now == Padded(bytes) + was[Align4(|bytes|)..]
    ensures now[..|bytes|] == bytes
    ensures now[|bytes|..] == was[|bytes|..] <==>
            Whole(|bytes|) || was[|bytes|..Align4(|bytes|)] == Zeros(Align4(|bytes|) - |bytes|)
  {
    var n, m := |bytes|, Align4(|bytes|);
    assert now[n..] == Zeros(m - n) + was[m..];
    assert was[n..] == was[n..m] + was[m..];
    assert now[n..][..m - n] == Zeros(m - n) && was[n..][..m - n] == was[n..m];
    if Whole(|bytes|) {
      assert m == n;
    }
  }

  /** The receiving half of nfs_read: -1 when the server reports an error, the server's count otherwise. */
  method ReceiveRead(sock: Socket, xid: U32, data: array<Octet>) returns (r: Outcome<int>, copied: nat)
    requires OneRecord(sock.pending)
    modifies sock, data
    ensures var s := old(sock.pending); var reply := ReadData(s, xid); var was := old(data[..]);
            && (r.Done? ==> reply.Some?)
            && (r.Done? && reply.value.Failed? ==> r.value == -1 && data[..] == was)
            && (r.Done? && reply.value.Data? ==>
               r.value == reply.value.count && reply.value.size <= copied &&
                 Filled(data, was, s, reply.value.start, copied))
    ensures var s := old(sock.pending); var reply := ReadData(s, xid);
            sock.policy.prompt && sock.policy.wholeWords && Whole(|s|) && reply.Some? &&
              WholeAnswer(s, reply.value) ==>
              && (r.Done? <==> Align4(reply.value.size) <= data.Length)
              && (r.Done? ==> copied == Align4(reply.value.size))
    ensures var s := old(sock.pending); var status := ReadAccepted(s, xid);
            sock.policy.prompt && status.Some? && status.value.next <= WINDOW && status.value.value != 0 ==>
              r == Done(-1)
  {
    hide U32At, ReadAccepted, ReadOptAttribs, Filled, OneRecord, Align4;
    copied := 0;
    var d := new RpcDeserializer.RPCDeserializer.Init(sock);
    ghost var s := sock.pending;
    var status := ReceiveAccepted(d, xid);
    if status.Stopped? {
      return Stopped(status.reason), 0;
    }
    if status.value != 0 {
      return Done(-1), 0;
    }
    var head := ReceiveReadHead(d);
    if head.Stopped? {
      return Stopped(head.reason), 0;
    }
    ghost var start := d.pos;
    var copy;
    copy, copied := CopyData(d, data, head.value.1);
    CopiedWhole(data, old(data[..]), s, start, copied, head.value.1);
    if copy.Stopped? {
      return Stopped(copy.reason), copied;
    }
    r := Done(head.value.0);
  }
}
