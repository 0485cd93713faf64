/**
 nfs_readdirplus of nfs_common.inl on the refilling window: its head, its entry loop, and the loop
 that empties the record after an early stop.  Each is proved to do what DirListing says of the flat
 reply, however recv cuts the stream.
 */
module Readdirplus {
  import opened Outcomes
  import opened Alignment
  import opened Xdr
  import opened Replies
  import opened DirListing
  import opened RpcSerializer
  import RpcDeserializer

  type Socket = RpcDeserializer.Socket

  /** Attributes, cookie verifier, and whether an entry follows. */
  method ReceiveResultHead(d: Reader) returns (r: Outcome<(U64, bool)>)
    requires d.Valid()
    modifies d`ReadPtr, d`pos, d`Size, d`FragmentSizeLeft, d.InlineStorage, d.SockFd
    ensures r.Done? ==> d.Valid() && ReadResultHead(d.record, old(d.pos)) == Some(Read(r.value, d.pos))
    ensures var head := ReadResultHead(d.record, old(d.pos));
            head.Some? && head.value.next <= old(d.pos) + old(d.BufferLeft()) ==> r.Done?
  {
    hide U32At, U64At, FattrAt, ReadOptAttribs, d.Valid;
    var attribs := ReceiveOptAttribs(d);
    if attribs.Stopped? {
      return Stopped(attribs.reason);
    }
    var verf := d.ReadU64();
    if verf.Stopped? {
      return Stopped(verf.reason);
    }
    var hasNext := d.ReadBool();
    if hasNext.Stopped? {
      return Stopped(hasNext.reason);
    }
    r := Done((verf.value, hasNext.value));
  }

  method ReceiveOptHandle(d: Reader) returns (r: Outcome<Option<seq<Octet>>>)
    requires d.Valid()
    modifies d`ReadPtr, d`pos, d`Size, d`FragmentSizeLeft, d.InlineStorage, d.SockFd
    ensures r.Done? ==> d.Valid() && ReadOptHandle(d.record, old(d.pos)) == Some(Read(r.value, d.pos))
    ensures Steady(d) && ReadOptHandle(d.record, old(d.pos)).Some? ==> r.Done?
  {
    hide U32At, Align4, InHandle, d.Valid;
    var ensured := d.EnsureSize(4);
    if ensured.Stopped? {
      return Stopped(ensured.reason);
    }
    var present := d.ReadBool();
    if present.Stopped? {
      return Stopped(present.reason);
    }
    if !present.value {
      return Done(None);
    }
    var handle := d.ReadFileHandle();
    if handle.Stopped? {
      return Stopped(handle.reason);
    }
    r := Done(Some(handle.value));
  }

  /** A name after its length word: the size asked for is rounded up on a uint32_t. */
  method ReceiveNameBytes(d: Reader, length: U32) returns (r: Outcome<seq<Octet>>)
    requires d.Valid()
    modifies d`ReadPtr, d`pos, d`Size, d`FragmentSizeLeft, d.InlineStorage, d.SockFd
    ensures r.Done? ==> d.Valid() && length < NAME_BUFFER && d.pos == old(d.pos) + Align4(length) <= |d.record|
                        && r.value == d.record[old(d.pos)..old(d.pos) + length]
    ensures Steady(d) && old(d.pos) + Align4(length) <= |d.record| ==>
            if length < NAME_BUFFER then r.Done? else r == Stopped(OutOfBounds)
  {
    hide Align4, d.Valid;
    NameLength(length);
    var ensured := d.EnsureSize(Align4Wrapped(length));
    if ensured.Stopped? {
      return Stopped(ensured.reason);
    }
    r := d.ReadString(length, NAME_BUFFER);
  }

  /** File id and name.  A name that does not fit the buffer with its NUL overruns it. */
  method ReceiveName(d: Reader) returns (r: Outcome<seq<Octet>>)
    requires d.Valid()
    modifies d`ReadPtr, d`pos, d`Size, d`FragmentSizeLeft, d.InlineStorage, d.SockFd
    ensures r.Done? ==> d.Valid() && ReadIdAndName(d.record, old(d.pos)) == Some(Read(r.value, d.pos))
    ensures Steady(d) && ReadIdAndName(d.record, old(d.pos)).Some? ==> r.Done?
    ensures Steady(d) && LongNameAt(d.record, old(d.pos)) ==> r == Stopped(OutOfBounds)
    ensures Steady(d) && ShortNameAt(d.record, old(d.pos)) ==> r.Done?
  {
    hide U32At, U64At, Align4, d.Valid;
    var ensured := d.EnsureSize(12);
    if ensured.Stopped? {
      return Stopped(ensured.reason);
    }
    var fileid := d.ReadU64();
    if fileid.Stopped? {
      return Stopped(fileid.reason);
    }
    var length := d.ReadU32();
    if length.Stopped? {
      return Stopped(length.reason);
    }
    r := ReceiveNameBytes(d, length.value);
  }

  /** A file id and a whole name that is too long for the buffer. */
  predicate LongNameAt(s: seq<Octet>, p: nat) {
    p + 12 <= |s| && U32At(s, p + 8) >= 1024 && p + 12 + Align4(U32At(s, p + 8)) <= |s|
  }

  /** A file id and a whole name that fits, with its NUL. */
  predicate ShortNameAt(s: seq<Octet>, p: nat) {
    p + 12 <= |s| && U32At(s, p + 8) < 1024 && p + 12 + Align4(U32At(s, p + 8)) <= |s|
  }

  /** The body of the entry loop up to the callback. */
  method ReceiveEntry(d: Reader) returns (r: Outcome<(Delivery, U64)>)
    requires d.Valid()
    modifies d`ReadPtr, d`pos, d`Size, d`FragmentSizeLeft, d.InlineStorage, d.SockFd
    ensures r.Done? ==> d.Valid() && ReadEntry(d.record, old(d.pos)) == Some(Read(r.value, d.pos))
    ensures Steady(d) && ReadEntry(d.record, old(d.pos)).Some? ==> r.Done?
  {
    hide U32At, U64At, ReadIdAndName, ReadOptAttribs, ReadOptHandle, d.Valid;
    var name := ReceiveName(d);
    if name.Stopped? {
      return Stopped(name.reason);
    }
    var ensured := d.EnsureSize(12);
    if ensured.Stopped? {
      return Stopped(ensured.reason);
    }
    var cookie := d.ReadU64();
    if cookie.Stopped? {
      return Stopped(cookie.reason);
    }
    var attribs := ReceiveOptAttribs(d);
    if attribs.Stopped? {
      return Stopped(attribs.reason);
    }
    var handle := ReceiveOptHandle(d);
    if handle.Stopped? {
      return Stopped(handle.reason);
    }
    r := Done((Delivery(name.value, handle.value, attribs.value), cookie.value));
  }

  /**
   "Flush out recv queue": after an early stop, refill and discard until FragmentSizeLeft is zero.
   Whatever recv does the loop ends with nothing of the record left on the socket; its assertion holds
   when recv returns whole words.
   */
  method Drain(d: Reader) returns (r: Outcome<()>)
    requires d.Valid()
    modifies d`ReadPtr, d`pos, d`Size, d`FragmentSizeLeft, d.InlineStorage, d.SockFd
    ensures r.Done? ==> d.SockFd.pending == []
    ensures d.SockFd.policy.wholeWords && Whole(|d.record|) ==> r.Done?
  {
    hide d.Valid;
    d.Facts();
    while d.FragmentSizeLeft > 0
      invariant d.Valid() && d.FragmentSizeLeft == |d.SockFd.pending|
      decreases d.FragmentSizeLeft
    {
      d.Facts();
      var left := d.BufferLeft();
      if !Whole(left) {
        return Stopped(AssertFailed);
      }
      d.Consume(left);
      d.Facts();
      var maxQuerySize := d.MaxBuffer;
      if d.FragmentSizeLeft < maxQuerySize {
        maxQuerySize := d.FragmentSizeLeft;
      }
      var ensured := d.EnsureSize(maxQuerySize);
      d.Facts();
    }
    r := Done(());
  }

  /** The entry loop and what follows it. */
  method ReceiveEntries(d: Reader, first: bool, start: seq<Delivery>, goOn: seq<Delivery> -> bool)
    returns (r: Outcome<PageEnd>)
    requires d.Valid()
    modifies d`ReadPtr, d`pos, d`Size, d`FragmentSizeLeft, d.InlineStorage, d.SockFd
    ensures var page := ReadPage(d.record, old(d.pos), first, start, goOn, None);
            && (r.Done? ==> page.Some? && page.value.value == r.value)
            && (r.Done? && (page.value.value.stopped || page.value.next == |d.record|) ==> d.SockFd.pending == [])
            && (Steady(d) && page.Some? ==> r.Done?)
  {
    hide U32At, ReadEntry, d.Valid;
    ghost var page := ReadPage(d.record, d.pos, first, start, goOn, None);
    var log: seq<Delivery> := start;
    var hasNext := first;
    var lastCookie: Option<U64> := None;
    while hasNext
      invariant d.Valid() && ReadPage(d.record, d.pos, hasNext, log, goOn, lastCookie) == page
      decreases |d.record| - d.pos, if hasNext then 1 else 0
    {
      var entry := ReceiveEntry(d);
      if entry.Stopped? {
        return Stopped(entry.reason);
      }
      log := log + [entry.value.0];
      lastCookie := Some(entry.value.1);
      if !goOn(log) {
        var drained := Drain(d);
        if drained.Stopped? {
          return Stopped(drained.reason);
        }
        return Done(PageEnd(log, lastCookie, false, true));
      }
      var next := ReceiveBool(d);
      if next.Stopped? {
        return Stopped(next.reason);
      }
      hasNext := next.value;
      d.Facts();
    }
    var eof := ReceiveBool(d);
    if eof.Stopped? {
      return Stopped(eof.reason);
    }
    d.Facts();
    r := Done(PageEnd(log, lastCookie, !eof.value, false));
  }

  /** Rounding up may wrap around, but not for names that fit the buffer. */
  lemma NameLength(length: U32)
    ensures Align4Wrapped(length) <= Align4(length)
    ensures length < NAME_BUFFER ==> Align4Wrapped(length) == Align4(length) <= WINDOW
  {}
}
