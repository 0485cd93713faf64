/**
 The reply reader of rpc_serializer.c and rpc_serializer.h: a window of 1460 bytes over a TCP stream,
 refilled by recv.

 The ghost fields `record` and `pos` say what the window stands for: the whole reply and how much of
 it has been consumed.  Every read is proved to return what the same read of the flat reply returns,
 however recv has cut the stream.
 */
module RpcDeserializer {
  import opened Outcomes
  import opened Alignment
  import opened Xdr

  const WINDOW := 1460

  /** What is assumed of recv beyond returning some non-empty prefix of the pending bytes. */
  datatype Policy = Policy(
    wholeWords: bool,  // it returns whole words when it can
    prompt: bool       // a call that the code does not repeat delivers all it is asked for
  )

  /** What a call of recv for up to `max` bytes may return. */
  predicate MayReceive(n: nat, max: nat, pending: nat) {
    if max == 0 then n == 0 else 1 <= n <= max && n <= pending
  }

  /** What the two calls in RefillBuffer may return when `left` bytes are buffered and `pending` are to come. */
  predicate TwoCalls(left: nat, pending: nat, first: nat, second: nat) {
    && left <= WINDOW && MayReceive(first, WINDOW - left, pending) && first <= pending
    && var room := WINDOW - left - first;
       MayReceive(second, if pending - first < room then pending - first else room, pending - first)
  }

  /**
   A refill is sure to bring what is wanted, for every way recv may cut the stream, exactly when no more
   than two bytes are missing.
   */
  lemma RefillSufficesWhen(left: nat, pending: nat, sz: nat)
    requires left < sz <= WINDOW && sz <= left + pending
    ensures (forall first: nat, second: nat :: TwoCalls(left, pending, first, second) ==>
            sz <= left + first + second) <==> sz <= left + 2
  {
    if sz > left + 2 {
      assert TwoCalls(left, pending, 1, 1);
    }
  }

  /** What EnsureSize may leave buffered. */
  ghost predicate MayEnsure(left: nat, pending: nat, sz: nat, after: nat) {
    if sz <= left then after == left
    else exists first: nat, second: nat :: TwoCalls(left, pending, first, second) && after == left + first + second
  }

  /**
   Ensuring `length` bytes is sure to bring their padding too, for every way recv may cut the stream,
   exactly when the padding is buffered already, or a refill is made and at most two bytes are missing.
   */
  lemma PaddingSureWhen(left: nat, pending: nat, length: U32)
    requires Align4(length) <= WINDOW && left <= WINDOW && Align4(length) <= left + pending
    ensures (forall after: nat :: MayEnsure(left, pending, length, after) ==> Align4(length) <= after) <==>
            Align4(length) <= left || (left < length && Align4(length) <= left + 2)
  {
    hide Align4;
    if length <= left {
      assert MayEnsure(left, pending, length, left);
    } else if Align4(length) > left + 2 {
      assert TwoCalls(left, pending, 1, 1);
      assert MayEnsure(left, pending, length, left + 1 + 1);
    }
  }

  /** Five bytes wanted, none buffered: recv may return one and then four, and the padding is not there. */
  lemma PaddingMayBeMissing()
    ensures MayEnsure(0, 8, 5, 5) && Align4(5) == 8
  {
    assert TwoCalls(0, 8, 1, 4);
    assert 5 == 0 + 1 + 4;
  }

  class Socket {
    const policy: Policy
    var pending: seq<Octet>

    constructor (policy: Policy)
      ensures this.policy == policy && pending == []
    {
      this.policy := policy;
      pending := [];
    }

    /**
     recv: up to `max` bytes.  `last` marks the calls that are not followed by another try.  With
     nothing left to arrive the call does not return.
     */
    method Recv(max: nat, last: bool) returns (r: Outcome<seq<Octet>>)
      modifies this
      ensures r.Stopped? <==> max > 0 && old(pending) == []
      ensures r.Stopped? ==> r.reason == WouldBlock && pending == old(pending)
      ensures r.Done? ==> |r.value| <= max && r.value + pending == old(pending)
      ensures r.Done? && max > 0 ==> |r.value| > 0
      ensures r.Done? && policy.wholeWords && Whole(max) && Whole(|old(pending)|) ==> Whole(|r.value|)
      ensures r.Done? && policy.prompt && last ==> |r.value| == max || pending == []
    {
      if max == 0 {
        return Done([]);
      }
      if pending == [] {
        return Stopped(WouldBlock);
      }
      var most := if max < |pending| then max else |pending|;
      assert 1 <= most <= most;
      var n :| 1 <= n <= most
               && (policy.wholeWords && Whole(max) && Whole(|pending|) ==> Whole(n))
               && (policy.prompt && last ==> n == most);
      r := Done(pending[..n]);
      pending := pending[n..];
    }
  }

  class RPCDeserializer {
    const InlineStorage: array<Octet>
    const SockFd: Socket
    const MaxBuffer: nat
    var ReadPtr: nat  // offset in bytes
    var Size: nat
    var FragmentSizeLeft: int
    ghost var record: seq<Octet>
    ghost var pos: nat

    /** RPCDeserializer_Init on zeroed memory. */
    constructor Init(sock: Socket)
      ensures SockFd == sock && InlineStorage.Length == MaxBuffer == 1460 && fresh(InlineStorage)
      ensures ReadPtr == 0 && Size == 0
    {
      InlineStorage := new Octet[WINDOW](i => 0);
      SockFd := sock;
      MaxBuffer := WINDOW;
      ReadPtr, Size, FragmentSizeLeft := 0, 0, 0;
      record, pos := [], 0;
    }

    /** The bytes not consumed yet: the rest of the window, then what has not been received. */
    ghost function Unread(): seq<Octet>
      requires ReadPtr <= Size <= InlineStorage.Length
      reads this, InlineStorage, SockFd
    {
      InlineStorage[ReadPtr..Size] + SockFd.pending
    }

    /** The window stands for the reply from `pos` on, and FragmentSizeLeft counts what is still to come. */
    ghost predicate Valid()
      reads this, InlineStorage, SockFd
    {
      && InlineStorage.Length == WINDOW == MaxBuffer
      && ReadPtr <= Size <= WINDOW && Whole(ReadPtr)
      && pos <= |record| && Whole(pos)
      && Unread() == record[pos..]
      && FragmentSizeLeft == |SockFd.pending|
      && (SockFd.policy.wholeWords && Whole(|record|) ==> Whole(Size) && Whole(|SockFd.pending|))
    }

    function BufferLeft(): int
      reads this
    {
      Size - ReadPtr / 4 * 4
    }

    /** Consumed, buffered and outstanding bytes always add up to the whole record. */
    lemma FragmentAccounting()
      requires Valid()
      ensures pos + BufferLeft() + FragmentSizeLeft == |record|
    {
      assert |Unread()| == |record| - pos;
    }

    /** The invariant in numbers. */
    lemma Facts()
      requires Valid()
      ensures ReadPtr <= Size <= WINDOW && BufferLeft() == Size - ReadPtr
      ensures pos + BufferLeft() + |SockFd.pending| == |record| && FragmentSizeLeft == |SockFd.pending|
      ensures SockFd.policy.wholeWords && Whole(|record|) ==> Whole(BufferLeft()) && Whole(|SockFd.pending|)
      ensures InlineStorage.Length == WINDOW == MaxBuffer && Whole(pos)
    {
      assert |Unread()| == |record| - pos;
    }

    /** A stretch of the window is the same stretch of the reply. */
    lemma WindowIsRecord(n: nat)
      requires Valid() && ReadPtr + n <= Size
      ensures pos + n <= |record| && InlineStorage[ReadPtr..ReadPtr + n] == record[pos..pos + n]
    {
      assert InlineStorage[ReadPtr..ReadPtr + n] == Unread()[..n];
      assert record[pos..pos + n] == record[pos..][..n];
    }

    /** The loop-free part of a read: move the read pointer over `n` bytes of the window. */
    method Consume(n: nat)
      requires Valid() && ReadPtr + n <= Size && Whole(n)
      modifies this`ReadPtr, this`pos
      ensures Valid() && pos == old(pos) + n && ReadPtr == old(ReadPtr) + n && BufferLeft() == old(BufferLeft()) - n
    {
      hide Whole, BufferLeft;
      Facts();
      WholeSum(ReadPtr, n);
      WholeSum(pos, n);
      assert InlineStorage[ReadPtr + n..Size] + SockFd.pending == Unread()[n..];
      assert record[pos + n..] == record[pos..][n..];
      ReadPtr := ReadPtr + n;
      pos := pos + n;
      Facts();
    }

    method StoreReceived(start: nat, s: seq<Octet>)
      requires start + |s| <= InlineStorage.Length
      modifies InlineStorage
      ensures forall i :: 0 <= i < start ==> InlineStorage[i] == old(InlineStorage[i])
      ensures forall i :: 0 <= i < |s| ==> InlineStorage[start + i] == s[i]
    {
      forall i | 0 <= i < |s| {
        InlineStorage[start + i] := s[i];
      }
    }

    /** What a refill received is appended to the window. */
    method Receive(max: nat, last: bool) returns (r: Outcome<nat>)
      requires Valid() && ReadPtr == 0 && Size + max <= WINDOW
      modifies this`Size, this`FragmentSizeLeft, InlineStorage, SockFd
      ensures r.Stopped? <==> max > 0 && old(SockFd.pending) == []
      ensures r.Stopped? ==> r.reason == WouldBlock
      ensures r.Done? ==>
              r.value <= max && Size == old(Size) + r.value && FragmentSizeLeft == old(FragmentSizeLeft) - r.value
      ensures r.Done? && max > 0 ==> r.value > 0
      ensures r.Done? && (SockFd.policy.wholeWords && Whole(|record|) ==> Whole(max)) ==> Valid()
      ensures r.Done? && SockFd.policy.prompt && last ==> r.value == max || FragmentSizeLeft == 0
    {
      hide Whole, BufferLeft;
      ghost var was := InlineStorage[..];
      var got := SockFd.Recv(max, last);
      if got.Stopped? {
        return Stopped(got.reason);
      }
      var n := |got.value|;
      var start := Size;
      StoreReceived(start, got.value);
      Size := Size + n;
      FragmentSizeLeft := FragmentSizeLeft - n;
      StreamUnchanged(was, InlineStorage[..], start, got.value, old(SockFd.pending), SockFd.pending);
      WholeSum(old(|SockFd.pending|), n);
      WholeSum(start, n);
      r := Done(n);
    }

    /** memmove of what is left to the start of the window. */
    method MoveDown()
      requires Valid()
      modifies this`ReadPtr, this`Size, InlineStorage
      ensures Valid() && ReadPtr == 0 && Size == old(BufferLeft())
    {
      hide Whole, BufferLeft;
      Facts();
      WholeNumbers();
      WholeSum(Size, ReadPtr);
      var left := BufferLeft();
      ghost var unread := Unread();
      var moved := InlineStorage[ReadPtr..ReadPtr + left];
      forall i | 0 <= i < left {
        InlineStorage[i] := moved[i];
      }
      ReadPtr := 0;
      Size := left;
      assert InlineStorage[0..Size] == moved;
      assert Unread() == unread;
    }

    /**
     RefillBuffer: at most two calls to recv.  The reply and the position in it do not change, whatever
     arrives.
     */
    method RefillBuffer() returns (r: Outcome<()>)
      requires Valid()
      modifies this`ReadPtr, this`Size, this`FragmentSizeLeft, InlineStorage, SockFd
      ensures r.Done? ==> Valid() && ReadPtr == 0
      ensures r.Stopped? <==> old(SockFd.pending) == [] && old(BufferLeft()) < WINDOW
      ensures r.Stopped? ==> r.reason == WouldBlock
      ensures r.Done? && old(SockFd.pending) != [] && old(BufferLeft()) < WINDOW ==>
              FragmentSizeLeft < old(FragmentSizeLeft)
      ensures r.Done? && SockFd.policy.prompt ==> Size == WINDOW || FragmentSizeLeft == 0
      ensures r.Done? ==> exists first: nat, second: nat ::
                TwoCalls(old(BufferLeft()), old(|SockFd.pending|), first, second) &&
                  Size == old(BufferLeft()) + first + second
    {
      hide TwoCalls, Valid, Unread, Whole, BufferLeft;
      Facts();
      WholeNumbers();
      ghost var left, pending := BufferLeft(), |SockFd.pending|;
      MoveDown();
      Facts();
      WholeSum(WINDOW, Size);
      var received := Receive(MaxBuffer - Size, false);
      if received.Stopped? {
        return Stopped(received.reason);
      }
      Facts();
      WholeSum(WINDOW, Size);
      ghost var first := received.value;
      ghost var second := 0;
      var missing := MaxBuffer - Size;
      if FragmentSizeLeft < missing {
        missing := FragmentSizeLeft;
      }
      if missing != 0 {
        received := Receive(missing, true);
        assert received.Done?;
        second := received.value;
      }
      TheCalls(left, pending, first, second, missing);
      r := Done(());
    }

    /** EnsureSize: the size is compared as an int32_t. */
    method EnsureSize(sz: U32) returns (r: Outcome<()>)
      requires Valid()
      modifies this`ReadPtr, this`Size, this`FragmentSizeLeft, InlineStorage, SockFd
      ensures r.Done? ==> Valid()
      ensures r.Done? && SockFd.policy.prompt && sz <= WINDOW && pos + sz <= |record| ==> BufferLeft() >= sz
      ensures r.Done? && sz <= old(BufferLeft()) ==>
              BufferLeft() == old(BufferLeft()) && FragmentSizeLeft == old(FragmentSizeLeft) && ReadPtr == old(ReadPtr)
      ensures r.Done? && old(BufferLeft()) < sz < TWO_TO_31 && old(SockFd.pending) != [] ==>
                (old(BufferLeft()) < WINDOW ==> FragmentSizeLeft < old(FragmentSizeLeft))
      ensures r.Done? && sz < TWO_TO_31 ==> MayEnsure(old(BufferLeft()), old(|SockFd.pending|), sz, BufferLeft())
      ensures r.Stopped? <==>
              old(BufferLeft()) < sz < TWO_TO_31 && old(SockFd.pending) == [] && old(BufferLeft()) < WINDOW
      ensures r.Stopped? ==> r.reason == WouldBlock && pos + sz > |record|
    {
      hide Valid, Unread, Whole, BufferLeft, TwoCalls;
      Facts();
      r := Done(());
      if BufferLeft() < sz && sz < TWO_TO_31 {
        r := RefillBuffer();
        if r.Done? {
          Facts();
        }
      }
    }

    method ReadU32() returns (r: Outcome<U32>)
      requires Valid()
      modifies this`ReadPtr, this`pos
      ensures r.Done? <==> old(BufferLeft()) >= 4
      ensures r.Done? ==>
              Valid() && BufferLeft() == old(BufferLeft()) - 4 &&
                Xdr.ReadU32(record, old(pos)) == Some(Read(r.value, pos))
    {
      hide Valid, Unread, Whole, BufferLeft, U32At;
      Facts();
      WholeNumbers();
      if BufferLeft() < 4 {
        return Stopped(AssertFailed);
      }
      WindowIsRecord(4);
      var value := U32At(InlineStorage[ReadPtr..ReadPtr + 4], 0);
      SameWord(record, pos);
      Consume(4);
      r := Done(value);
    }

    method ReadBool() returns (r: Outcome<bool>)
      requires Valid()
      modifies this`ReadPtr, this`pos
      ensures r.Done? <==> old(BufferLeft()) >= 4
      ensures r.Done? ==>
              Valid() && BufferLeft() == old(BufferLeft()) - 4 &&
                Xdr.ReadBool(record, old(pos)) == Some(Read(r.value, pos))
      ensures r.Done? ==> old(pos) + 4 <= |record| && (r.value <==> U32At(record, old(pos)) != 0)
    {
      hide Valid, BufferLeft, U32At;
      var word := ReadU32();
      if word.Stopped? {
        return Stopped(word.reason);
      }
      r := Done(word.value != 0);
    }

    method ReadU64() returns (r: Outcome<U64>)
      requires Valid()
      modifies this`ReadPtr, this`pos
      ensures r.Done? <==> old(BufferLeft()) >= 8
      ensures r.Done? ==>
              Valid() && BufferLeft() == old(BufferLeft()) - 8 &&
                Xdr.ReadU64(record, old(pos)) == Some(Read(r.value, pos))
    {
      hide Valid, BufferLeft, U32At;
      if BufferLeft() < 8 {
        return Stopped(AssertFailed);
      }
      var high := ReadU32();
      var low := ReadU32();
      r := Done(high.value * TWO_TO_32 + low.value);
    }

    /** The recv of RecvHeader; the mark is part of what FragmentSizeLeft counts until it has been read. */
    method ReceiveFirst() returns (r: Outcome<nat>)
      requires InlineStorage.Length == WINDOW == MaxBuffer && ReadPtr == 0 && |SockFd.pending| > 0
      modifies this, InlineStorage, SockFd
      ensures r.Done? && Valid() && record == old(SockFd.pending) && pos == 0 && ReadPtr == 0
      ensures SockFd.policy.prompt ==> Size == WINDOW || FragmentSizeLeft == 0
    {
      record, pos := SockFd.pending, 0;
      Size, FragmentSizeLeft := 0, |SockFd.pending|;
      assert Unread() == record[0..];
      r := Receive(MaxBuffer, true);
    }

    /** RecvHeader: one recv, then mark, xid and reply flag; the reply must be one record of one fragment. */
    method RecvHeader() returns (r: Outcome<(U32, U32, bool)>)
      requires InlineStorage.Length == WINDOW == MaxBuffer && ReadPtr == 0
      requires |SockFd.pending| >= 4 && U32At(SockFd.pending, 0) % TWO_TO_31 == |SockFd.pending| - 4
      modifies this, InlineStorage, SockFd
      ensures r.Done? ==> Valid() && record == old(SockFd.pending) && pos == 12 <= |record| && ReadPtr == 12
      ensures r.Done? ==> r.value == (U32At(record, 0), U32At(record, 4), U32At(record, 8) != 0)
      ensures r.Stopped? ==> r.reason == AssertFailed
      ensures SockFd.policy.prompt && |old(SockFd.pending)| >= 12 ==> r.Done?
      ensures r.Done? && SockFd.policy.prompt ==> Size == WINDOW || FragmentSizeLeft == 0
    {
      hide U32At, Valid, Unread;
      var received := ReceiveFirst();
      Facts();
      if Size < 12 {
        return Stopped(AssertFailed);
      }
      var mark := ReadU32();
      var xid := ReadU32();
      var reply := ReadBool();
      Facts();
      FragmentSizeLeft := mark.value % TWO_TO_31 - (Size - 4);
      r := Done((mark.value, xid.value, reply.value));
    }

    /**
     Opaque bytes up to the next word boundary, read without asking for more: if the padding has not
     arrived, the read pointer would leave the received bytes.
     */
    method ReadPadded(length: U32) returns (r: Outcome<seq<Octet>>)
      requires Valid()
      modifies this`ReadPtr, this`pos
      ensures r.Done? <==> old(BufferLeft()) >= Align4(length)
      ensures r.Stopped? ==> r.reason == OutOfBounds
      ensures r.Done? ==>
              Valid() && pos == old(pos) + Align4(length) && BufferLeft() == old(BufferLeft()) - Align4(length)
                          && pos <= |record| && r.value == record[old(pos)..old(pos) + length]
    {
      hide Align4, Valid, Unread, Whole, BufferLeft;
      Facts();
      AlignedWords(length);
      if BufferLeft() < Align4(length) {
        return Stopped(OutOfBounds);
      }
      WindowIsRecord(length);
      WindowIsRecord(Align4(length));
      r := Done(InlineStorage[ReadPtr..ReadPtr + length]);
      Consume(Align4(length));
    }

    /** SkipAuth: two unguarded words, then the body, rounded up to words after ensuring only its length. */
    method SkipAuth() returns (r: Outcome<()>)
      requires Valid()
      modifies this`ReadPtr, this`pos, this`Size, this`FragmentSizeLeft, InlineStorage, SockFd
      ensures r.Done? ==> Valid() && Xdr.SkipAuth(record, old(pos)) == Some(pos)
      ensures old(BufferLeft()) >= 8 && old(BufferLeft()) >= 8 + Align4(U32At(record, old(pos) + 4)) ==>
                r.Done? && BufferLeft() == old(BufferLeft()) - (pos - old(pos))
    {
      hide U32At, Align4, Valid, Unread, Whole, BufferLeft, MayEnsure;
      Facts();
      if BufferLeft() < 8 {
        return Stopped(OutOfBounds);
      }
      var flavor := ReadU32();
      var length := ReadU32();
      AlignedWords(length.value);
      var ensured := EnsureSize(length.value);
      if ensured.Stopped? {
        return Stopped(ensured.reason);
      }
      var body := ReadPadded(length.value);
      if body.Stopped? {
        return Stopped(body.reason);
      }
      r := Done(());
    }

    /** ReadString: copies `length` bytes and a NUL to a buffer with `room` bytes left. */
    method ReadString(length: U32, room: nat) returns (r: Outcome<seq<Octet>>)
      requires Valid()
      modifies this`ReadPtr, this`pos
      ensures r.Done? <==> old(BufferLeft()) >= Align4(length) && length + 1 <= room
      ensures r.Stopped? ==> r.reason == OutOfBounds
      ensures r.Done? ==>
              Valid() && pos == old(pos) + Align4(length) && BufferLeft() == old(BufferLeft()) - Align4(length)
                          && pos <= |record| && r.value == record[old(pos)..old(pos) + length]
    {
      hide Align4;
      if length + 1 > room {
        return Stopped(OutOfBounds);
      }
      var bytes := ReadPadded(length);
      if bytes.Stopped? {
        return Stopped(bytes.reason);
      }
      var copied := CopyTerminated(bytes.value);
      r := Done(copied);
    }

    /** The copying loop, and what the NUL then ends. */
    static method CopyTerminated(s: seq<Octet>) returns (copied: seq<Octet>)
      ensures copied == s
    {
      var writePtr := new Octet[|s| + 1];
      var i := 0;
      while i < |s|
        invariant i <= |s| && writePtr[..i] == s[..i]
      {
        writePtr[i] := s[i];
        i := i + 1;
      }
      writePtr[i] := 0;
      copied := writePtr[..i];
    }

    /** ReadFileHandle: at most 64 bytes, the rest zero. */
    method ReadFileHandle() returns (r: Outcome<seq<Octet>>)
      requires Valid()
      modifies this`ReadPtr, this`pos, this`Size, this`FragmentSizeLeft, InlineStorage, SockFd
      ensures r.Done? ==> Valid() && Xdr.ReadHandle(record, old(pos)) == Some(Read(r.value, pos))
      ensures SockFd.policy.prompt && SockFd.policy.wholeWords && Whole(|record|) ==>
                (Xdr.ReadHandle(record, old(pos)).Some? ==> r.Done?)
    {
      hide U32At, Align4, InHandle, Valid;
      var ensured := EnsureSize(4);
      if ensured.Stopped? {
        return Stopped(ensured.reason);
      }
      if BufferLeft() < 4 {
        return Stopped(OutOfBounds);
      }
      var word := ReadU32();
      var body := ReadHandleBody(word.value);
      if body.Stopped? {
        return Stopped(body.reason);
      }
      r := Done(InHandle(body.value));
    }

    /** The bytes of a handle whose length word has been read. */
    method ReadHandleBody(length: U32) returns (r: Outcome<seq<Octet>>)
      requires Valid()
      modifies this`ReadPtr, this`pos, this`Size, this`FragmentSizeLeft, InlineStorage, SockFd
      ensures r.Done? ==> Valid() && length <= HANDLE_SIZE && pos == old(pos) + Align4(length) <= |record|
                          && r.value == record[old(pos)..old(pos) + length]
      ensures SockFd.policy.prompt && SockFd.policy.wholeWords && Whole(|record|) ==>
                (length <= HANDLE_SIZE && old(pos) + Align4(length) <= |record| ==> r.Done?)
    {
      hide Align4, Valid;
      AlignedWords(length);
      var ensured := EnsureSize(length);
      if ensured.Stopped? {
        return Stopped(ensured.reason);
      }
      Facts();
      WholeWordsAligned(BufferLeft(), length);
      if length > HANDLE_SIZE {
        return Stopped(OutOfBounds);
      }
      r := ReadPadded(length);
    }

    /** ReadFileAttribs: 84 bytes ensured, then read unguarded. */
    method ReadFileAttribs() returns (r: Outcome<Fattr>)
      requires Valid()
      modifies this`ReadPtr, this`pos, this`Size, this`FragmentSizeLeft, InlineStorage, SockFd
      ensures r.Done? ==> Valid() && Xdr.ReadAttribs(record, old(pos)) == Some(Read(r.value, pos))
      ensures SockFd.policy.prompt && Xdr.ReadAttribs(record, old(pos)).Some? ==> r.Done?
      ensures old(BufferLeft()) >= FATTR_SIZE ==> r.Done? && BufferLeft() == old(BufferLeft()) - FATTR_SIZE
    {
      hide FattrAt, Valid, Unread, Whole, BufferLeft, MayEnsure;
      Facts();
      WholeNumbers();
      var ensured := EnsureSize(FATTR_SIZE);
      if ensured.Stopped? {
        return Stopped(ensured.reason);
      }
      if BufferLeft() < FATTR_SIZE {
        return Stopped(OutOfBounds);
      }
      Facts();
      WindowIsRecord(FATTR_SIZE);
      var attribs := FattrAt(InlineStorage[ReadPtr..ReadPtr + FATTR_SIZE], 0);
      SameAttribs(record, pos);
      Consume(FATTR_SIZE);
      r := Done(attribs);
    }
  }

  lemma TheCalls(left: nat, pending: nat, first: nat, second: nat, missing: int)
    requires left <= WINDOW && first <= WINDOW - left && first <= pending && (left < WINDOW ==> first > 0)
    requires missing == if pending - first < WINDOW - left - first then pending - first else WINDOW - left - first
    requires if missing == 0 then second == 0 else 0 < second <= missing
    ensures TwoCalls(left, pending, first, second)
  {}

  lemma WholeNumbers()
    ensures Whole(0) && Whole(4) && Whole(FATTR_SIZE) && Whole(WINDOW)
  {}

  lemma StreamUnchanged(was: seq<Octet>, now: seq<Octet>, start: nat, got: seq<Octet>, before: seq<Octet>,
                        after: seq<Octet>)
    requires start + |got| <= |was| == |now| && before == got + after
    requires forall i :: 0 <= i < start ==> now[i] == was[i]
    requires forall i :: 0 <= i < |got| ==> now[start + i] == got[i]
    ensures now[0..start + |got|] + after == was[0..start] + before
  {
    assert now[0..start + |got|] == was[0..start] + got;
  }

  lemma SameWord(s: seq<Octet>, p: nat)
    requires p + 4 <= |s|
    ensures U32At(s[p..p + 4], 0) == U32At(s, p)
  {}

  lemma SameAttribs(s: seq<Octet>, p: nat)
    requires p + FATTR_SIZE <= |s|
    ensures FattrAt(s[p..p + FATTR_SIZE], 0) == FattrAt(s, p)
  {
    hide Word;
    var t := s[p..p + FATTR_SIZE];
    assert forall i :: 0 <= i < FATTR_SIZE ==> t[i] == s[p + i];
  }

  /** Rounding up to words, as `(length >> 2) + !!(length & 3)` words. */
  lemma AlignedWords(length: U32)
    ensures Whole(Align4(length)) && length <= Align4(length) < length + 4
    ensures Align4(length) == 4 * (length / 4 + (if !Whole(length) then 1 else 0))
  {}

  /** A whole number of words that holds `length` bytes also holds their padding. */
  lemma WholeWordsAligned(n: int, length: U32)
    ensures Whole(n) && n >= length ==> n >= Align4(length)
  {}
}
