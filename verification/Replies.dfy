/**
 What all replies have in common: the record and the accepted-reply header (sections 8 and 10 of
 RFC 1057), optional attributes (section 2.6 of RFC 1813), and how the client reads them.
 */
module Replies {
  import opened Outcomes
  import opened Alignment
  import opened Xdr
  import RpcDeserializer

  type Reader = RpcDeserializer.RPCDeserializer

  const WINDOW := RpcDeserializer.WINDOW

  // Words, and attributes that may be missing

  function EncodeBool(b: bool): (r: seq<Octet>)
    ensures |r| == 4
  {
    EncodeU32(if b then 1 else 0)
  }

  function EncodeAttribs(a: Option<Fattr>): (r: seq<Octet>)
    ensures Whole(|r|)
  {
    if a.Some? then EncodeBool(true) + EncodeFattr(a.value) else EncodeBool(false)
  }

  function ReadOptAttribs(s: seq<Octet>, p: nat): (r: Option<Read<Option<Fattr>>>)
    ensures r.Some? ==> p + 4 <= r.value.next <= |s|
  {
    match ReadBool(s, p)
    case None => None
    case Some(present) =>
      if !present.value then Some(Read(None, present.next))
      else
        match ReadAttribs(s, present.next)
        case None => None
        case Some(a) => Some(Read(Some(a.value), a.next))
  }

  lemma ReadEncodedBool(s: seq<Octet>, p: nat, b: bool)
    requires At(s, p, EncodeBool(b))
    ensures ReadBool(s, p) == Some(Read(b, p + 4))
  {
    hide EncodeU32, U32At, At;
    DecodeEncodedU32(s, p, if b then 1 else 0);
  }

  lemma ReadEncodedU64(s: seq<Octet>, p: nat, v: U64)
    requires At(s, p, EncodeU64(v))
    ensures ReadU64(s, p) == Some(Read(v, p + 8))
  {
    hide EncodeU64, U64At, At;
    DecodeEncodedU64(s, p, v);
  }

  /** Attributes come back field by field. */
  lemma ReadEncodedAttribs(s: seq<Octet>, p: nat, a: Fattr)
    requires At(s, p, EncodeFattr(a))
    ensures ReadAttribs(s, p) == Some(Read(a, p + FATTR_SIZE))
  {
    hide EncodeU32, EncodeU64, U32At, U64At, At;
    AtBounds(s, p, EncodeFattr(a));
    FattrParts(a);
    Words5(s, p, a.kind, a.mode, a.nlink, a.uid, a.gid, EncodeFattrTail(a));
    Tail(s, p + 20, a);
  }

  /** Where each attribute stands among the 84 bytes, and the flag before them. */
  lemma AttribsLayout(s: seq<Octet>, p: nat, a: Fattr)
    requires At(s, p, EncodeAttribs(Some(a)))
    ensures p + 88 <= |s| && U32At(s, p) == 1
    ensures U32At(s, p + 4) == a.kind && U32At(s, p + 8) == a.mode && U32At(s, p + 12) == a.nlink
    ensures U32At(s, p + 16) == a.uid && U32At(s, p + 20) == a.gid
    ensures U64At(s, p + 24) == a.size && U64At(s, p + 32) == a.used
    ensures U32At(s, p + 40) == a.specdata1 && U32At(s, p + 44) == a.specdata2
    ensures U64At(s, p + 48) == a.fsid && U64At(s, p + 56) == a.fileid
    ensures U32At(s, p + 64) == a.atime && U32At(s, p + 68) == a.atimeNano
    ensures U32At(s, p + 72) == a.mtime && U32At(s, p + 76) == a.mtimeNano
    ensures U32At(s, p + 80) == a.ctime && U32At(s, p + 84) == a.ctimeNano
  {
    hide EncodeU32, U32At, U64At, At, EncodeFattr, EncodeFattrTail;
    SplitU32(s, p, 1, EncodeFattr(a));
    AtBounds(s, p + 4, EncodeFattr(a));
    FattrParts(a);
    Words5(s, p + 4, a.kind, a.mode, a.nlink, a.uid, a.gid, EncodeFattrTail(a));
    Tail(s, p + 24, a);
  }

  lemma NoAttribsLayout(s: seq<Octet>, p: nat)
    requires At(s, p, EncodeAttribs(None))
    ensures |EncodeAttribs(None)| == 4 && p + 4 <= |s| && U32At(s, p) == 0
  {
    hide EncodeU32, U32At, At;
    DecodeEncodedU32(s, p, 0);
  }

  function EncodeFattrTimes(a: Fattr): seq<Octet> {
    EncodeU32(a.atime) +
      (EncodeU32(a.atimeNano) +
        (EncodeU32(a.mtime) + (EncodeU32(a.mtimeNano) + (EncodeU32(a.ctime) + (EncodeU32(a.ctimeNano) + [])))))
  }

  function EncodeFattrTail(a: Fattr): seq<Octet> {
    EncodeU64(a.size) +
      (EncodeU64(a.used) +
        (EncodeU32(a.specdata1) +
          (EncodeU32(a.specdata2) + (EncodeU64(a.fsid) + (EncodeU64(a.fileid) + EncodeFattrTimes(a))))))
  }

  lemma FattrParts(a: Fattr)
    ensures EncodeFattr(a) ==
            EncodeU32(a.kind) +
              (EncodeU32(a.mode) + (EncodeU32(a.nlink) + (EncodeU32(a.uid) + (EncodeU32(a.gid) + EncodeFattrTail(a)))))
  {
    hide EncodeU32, EncodeU64;
  }

  lemma Words5(s: seq<Octet>, p: nat, a: U32, b: U32, c: U32, d: U32, e: U32, rest: seq<Octet>)
    requires At(s, p, EncodeU32(a) + (EncodeU32(b) + (EncodeU32(c) + (EncodeU32(d) + (EncodeU32(e) + rest)))))
    ensures p + 20 <= |s| && At(s, p + 20, rest)
    ensures U32At(s, p) == a && U32At(s, p + 4) == b && U32At(s, p + 8) == c && U32At(s, p + 12) == d &&
            U32At(s, p + 16) == e
  {
    hide EncodeU32, U32At, At;
    SplitU32(s, p, a, EncodeU32(b) + (EncodeU32(c) + (EncodeU32(d) + (EncodeU32(e) + rest))));
    SplitU32(s, p + 4, b, EncodeU32(c) + (EncodeU32(d) + (EncodeU32(e) + rest)));
    SplitU32(s, p + 8, c, EncodeU32(d) + (EncodeU32(e) + rest));
    SplitU32(s, p + 12, d, EncodeU32(e) + rest);
    SplitU32(s, p + 16, e, rest);
  }

  lemma Tail(s: seq<Octet>, p: nat, a: Fattr)
    requires At(s, p, EncodeFattrTail(a))
    ensures p + 64 <= |s|
    ensures U64At(s, p) == a.size && U64At(s, p + 8) == a.used && U32At(s, p + 16) == a.specdata1 &&
            U32At(s, p + 20) == a.specdata2
    ensures U64At(s, p + 24) == a.fsid && U64At(s, p + 32) == a.fileid
    ensures U32At(s, p + 40) == a.atime && U32At(s, p + 44) == a.atimeNano && U32At(s, p + 48) == a.mtime &&
            U32At(s, p + 52) == a.mtimeNano
    ensures U32At(s, p + 56) == a.ctime && U32At(s, p + 60) == a.ctimeNano
  {
    hide EncodeU32, EncodeU64, U32At, U64At, At;
    var times := EncodeFattrTimes(a);
    SplitU64(s, p, a.size,
      EncodeU64(a.used) +
        (EncodeU32(a.specdata1) + (EncodeU32(a.specdata2) + (EncodeU64(a.fsid) + (EncodeU64(a.fileid) + times)))));
    SplitU64(s, p + 8, a.used,
      EncodeU32(a.specdata1) + (EncodeU32(a.specdata2) + (EncodeU64(a.fsid) + (EncodeU64(a.fileid) + times))));
    SplitU32(s, p + 16, a.specdata1, EncodeU32(a.specdata2) + (EncodeU64(a.fsid) + (EncodeU64(a.fileid) + times)));
    SplitU32(s, p + 20, a.specdata2, EncodeU64(a.fsid) + (EncodeU64(a.fileid) + times));
    SplitU64(s, p + 24, a.fsid, EncodeU64(a.fileid) + times);
    SplitU64(s, p + 32, a.fileid, times);
    Words5(s, p + 40, a.atime, a.atimeNano, a.mtime, a.mtimeNano, a.ctime, EncodeU32(a.ctimeNano) + []);
    SplitU32(s, p + 60, a.ctimeNano, []);
  }

  lemma ReadEncodedOptAttribs(s: seq<Octet>, p: nat, a: Option<Fattr>)
    requires At(s, p, EncodeAttribs(a))
    ensures ReadOptAttribs(s, p) == Some(Read(a, p + |EncodeAttribs(a)|))
  {
    hide EncodeBool, EncodeFattr, ReadBool, ReadAttribs, At;
    if a.Some? {
      AtSplit(s, p, EncodeBool(true), EncodeFattr(a.value));
      ReadEncodedBool(s, p, true);
      ReadEncodedAttribs(s, p + 4, a.value);
    } else {
      ReadEncodedBool(s, p, false);
    }
  }

  lemma AttribsSize(a: Option<Fattr>)
    ensures |EncodeAttribs(a)| <= 88
  {
    hide EncodeFattr, EncodeBool;
  }

  // Whole replies

  const VERIFIER_MAX := 400

  /** What a server puts after the record mark; the verifier is opaque<400>. */
  datatype Head = Head(xid: U32, flavor: U32, verifier: seq<Octet>)

  predicate HeadOk(h: Head) {
    |h.verifier| <= VERIFIER_MAX
  }

  /** An accepted reply: reply flag, MSG_ACCEPTED, verifier, SUCCESS, then the status and what it comes with. */
  function EncodeBody(h: Head, status: U32, result: seq<Octet>): seq<Octet>
    requires HeadOk(h)
  {
    EncodeU32(h.xid) +
      (EncodeU32(1) +
        (EncodeU32(0) +
          (EncodeU32(h.flavor) + (EncodeString(h.verifier) + (EncodeU32(0) + (EncodeU32(status) + result))))))
  }

  /** The reply as one record of one fragment. */
  function EncodeReply(h: Head, status: U32, result: seq<Octet>): seq<Octet>
    requires HeadOk(h) && |EncodeBody(h, status, result)| < TWO_TO_31
  {
    EncodeU32(TWO_TO_31 + |EncodeBody(h, status, result)|) + EncodeBody(h, status, result)
  }

  /** One reply, and nothing else, waits on the stream. */
  predicate OneRecord(s: seq<Octet>) {
    |s| >= 4 && U32At(s, 0) % TWO_TO_31 == |s| - 4
  }

  /** The part every procedure reads alike, up to and with the status; the flags on the way are not looked at. */
  function ReadAccepted(s: seq<Octet>, xid: U32): (r: Option<Read<U32>>)
    ensures r.Some? ==> r.value.next <= |s|
  {
    if |s| < 16 || U32At(s, 4) != xid then None
    else
      match SkipAuth(s, 16)
      case None => None
      case Some(p) => if p + 8 <= |s| then Some(Read(U32At(s, p + 4), p + 8)) else None
  }

  lemma WholeReply(h: Head, status: U32, result: seq<Octet>)
    requires HeadOk(h) && |EncodeBody(h, status, result)| < TWO_TO_31 && Whole(|result|)
    ensures Whole(|EncodeReply(h, status, result)|)
  {
    hide EncodeU32, EncodeString, Align4;
    WholeSum(8, |result|);
    WholeSum(4 + Align4(|h.verifier|), 8 + |result|);
    WholeSum(20, 4 + Align4(|h.verifier|) + (8 + |result|));
  }

  lemma RecordOf(body: seq<Octet>)
    requires |body| < TWO_TO_31
    ensures var s := EncodeU32(TWO_TO_31 + |body|) + body; OneRecord(s) && At(s, 4, body)
  {
    hide EncodeU32, U32At, At;
    var s := EncodeU32(TWO_TO_31 + |body|) + body;
    At0(s);
    SplitU32(s, 0, TWO_TO_31 + |body|, body);
  }

  /**
   The head of a reply, octet by octet: record mark, xid, REPLY, MSG_ACCEPTED, verifier, SUCCESS, status, and
   the result to the end.
   */
  lemma ReplyLayout(h: Head, status: U32, result: seq<Octet>)
    requires |h.verifier| <= 400 && |EncodeBody(h, status, result)| < 0x8000_0000
    ensures var s := EncodeReply(h, status, result); var p := 20 + |EncodeString(h.verifier)|;
            && |s| == p + 8 + |result| && U32At(s, 0) == 0x8000_0000 + (|s| - 4)
            && U32At(s, 4) == h.xid && U32At(s, 8) == 1 && U32At(s, 12) == 0 && U32At(s, 16) == h.flavor
            && At(s, 20, EncodeString(h.verifier)) && U32At(s, p) == 0 && U32At(s, p + 4) == status
            && At(s, p + 8, result)
  {
    hide EncodeU32, U32At, At, EncodeString;
    var s := EncodeReply(h, status, result);
    At0(s);
    SplitU32(s, 0, TWO_TO_31 + |EncodeBody(h, status, result)|, EncodeBody(h, status, result));
    var verifier, rest := EncodeString(h.verifier), EncodeU32(0) + (EncodeU32(status) + result);
    SplitU32(s, 4, h.xid, EncodeU32(1) + (EncodeU32(0) + (EncodeU32(h.flavor) + (verifier + rest))));
    SplitU32(s, 8, 1, EncodeU32(0) + (EncodeU32(h.flavor) + (verifier + rest)));
    SplitU32(s, 12, 0, EncodeU32(h.flavor) + (verifier + rest));
    SplitU32(s, 16, h.flavor, verifier + rest);
    AtSplit(s, 20, verifier, rest);
    var p := 20 + |verifier|;
    SplitU32(s, p, 0, EncodeU32(status) + result);
    SplitU32(s, p + 4, status, result);
  }

  /** A reply to another call is refused, whatever it holds. */
  lemma OtherXidRefused(h: Head, status: U32, result: seq<Octet>, xid: U32)
    requires |h.verifier| <= 400 && |EncodeBody(h, status, result)| < 0x8000_0000 && xid != h.xid
    ensures ReadAccepted(EncodeReply(h, status, result), xid) == None
  {
    hide EncodeBody, EncodeReply, U32At, At, EncodeString, SkipAuth;
    ReplyLayout(h, status, result);
  }

  /** The status is read back, and the result follows up to the end of the record. */
  lemma ReadEncodedAccepted(h: Head, status: U32, result: seq<Octet>)
    requires |h.verifier| <= 400 && |EncodeBody(h, status, result)| < TWO_TO_31
    ensures var s := EncodeReply(h, status, result); var p := 32 + Align4(|h.verifier|);
            OneRecord(s) && ReadAccepted(s, h.xid) == Some(Read(status, p)) && At(s, p, result) && |s| == p + |result|
  {
    hide EncodeU32, U32At, At, Align4, Padded, OneRecord;
    var s := EncodeReply(h, status, result);
    RecordOf(EncodeBody(h, status, result));
    var verifier, rest := EncodeString(h.verifier), EncodeU32(0) + (EncodeU32(status) + result);
    SplitU32(s, 4, h.xid, EncodeU32(1) + (EncodeU32(0) + (EncodeU32(h.flavor) + (verifier + rest))));
    SplitU32(s, 8, 1, EncodeU32(0) + (EncodeU32(h.flavor) + (verifier + rest)));
    SplitU32(s, 12, 0, EncodeU32(h.flavor) + (verifier + rest));
    SplitU32(s, 16, h.flavor, verifier + rest);
    AtSplit(s, 20, verifier, rest);
    SplitU32(s, 20, |h.verifier|, Padded(h.verifier));
    var p := 24 + Align4(|h.verifier|);
    SplitU32(s, p, 0, EncodeU32(status) + result);
    SplitU32(s, p + 4, status, result);
  }

  // Reading through the window

  /** recv returns whole words, and everything it is asked for when the code does not ask again. */
  ghost predicate Steady(d: Reader)
    reads d
  {
    d.SockFd.policy.prompt && d.SockFd.policy.wholeWords && Whole(|d.record|)
  }

  /** RecvHeader to the status.  Only the verifier may ask for more data; the words after it are not asked for. */
  method ReceiveAccepted(d: Reader, xid: U32) returns (r: Outcome<U32>)
    requires d.InlineStorage.Length == WINDOW == d.MaxBuffer && d.ReadPtr == 0 && OneRecord(d.SockFd.pending)
    modifies d, d.InlineStorage, d.SockFd
    ensures r.Done? ==>
            d.Valid() && d.record == old(d.SockFd.pending) && ReadAccepted(d.record, xid) == Some(Read(r.value, d.pos))
    ensures var head := ReadAccepted(old(d.SockFd.pending), xid);
            d.SockFd.policy.prompt && head.Some? && head.value.next <= WINDOW ==>
              r.Done? && d.pos + d.BufferLeft() == (if |d.record| < WINDOW then |d.record| else WINDOW)
  {
    hide U32At, Align4, d.Valid;
    var header := d.RecvHeader();
    if header.Stopped? {
      return Stopped(header.reason);
    }
    d.Facts();
    if header.value.1 != xid {
      return Stopped(AssertFailed);
    }
    var accepted := d.ReadBool();
    if accepted.Stopped? {
      return Stopped(accepted.reason);
    }
    var skipped := d.SkipAuth();
    if skipped.Stopped? {
      return Stopped(skipped.reason);
    }
    var acceptState := d.ReadBool();
    if acceptState.Stopped? {
      return Stopped(acceptState.reason);
    }
    r := d.ReadU32();
  }

  method ReceiveOptAttribs(d: Reader) returns (r: Outcome<Option<Fattr>>)
    requires d.Valid()
    modifies d`ReadPtr, d`pos, d`Size, d`FragmentSizeLeft, d.InlineStorage, d.SockFd
    ensures r.Done? ==> d.Valid() && ReadOptAttribs(d.record, old(d.pos)) == Some(Read(r.value, d.pos))
    ensures var read := ReadOptAttribs(d.record, old(d.pos));
            read.Some? && read.value.next <= old(d.pos) + old(d.BufferLeft()) ==>
              r.Done? && d.BufferLeft() == old(d.BufferLeft()) - (d.pos - old(d.pos))
    ensures Steady(d) && old(d.BufferLeft()) >= 4 && ReadOptAttribs(d.record, old(d.pos)).Some? ==> r.Done?
  {
    hide U32At, FattrAt, d.Valid;
    var present := d.ReadBool();
    if present.Stopped? {
      return Stopped(present.reason);
    }
    if !present.value {
      return Done(None);
    }
    var attribs := d.ReadFileAttribs();
    if attribs.Stopped? {
      return Stopped(attribs.reason);
    }
    r := Done(Some(attribs.value));
  }

  /** An EnsureSize(4) and a flag. */
  method ReceiveBool(d: Reader) returns (r: Outcome<bool>)
    requires d.Valid()
    modifies d`ReadPtr, d`pos, d`Size, d`FragmentSizeLeft, d.InlineStorage, d.SockFd
    ensures r.Done? ==> d.Valid() && ReadBool(d.record, old(d.pos)) == Some(Read(r.value, d.pos))
    ensures Steady(d) && ReadBool(d.record, old(d.pos)).Some? ==> r.Done?
  {
    hide U32At, d.Valid;
    var ensured := d.EnsureSize(4);
    if ensured.Stopped? {
      return Stopped(ensured.reason);
    }
    r := d.ReadBool();
  }
}
