/**
 Listing a directory: the READDIRPLUS call (section 3.3.17 of RFC 1813), one exchange with a server,
 and the loop of nfsls.c that pages through a directory by cookie.
 */
module Paging {
  import opened Outcomes
  import opened Alignment
  import opened Xdr
  import opened Replies
  import opened DirListing
  import opened RpcSerializer
  import RpcDeserializer
  import opened Readdirplus
  import opened SentHandles
  import CachedTree

  const NFS_PROGRAM: U32 := 100003
  const NFS_VERSION: U32 := 3
  const READDIRPLUS_PROCEDURE: U32 := 17
  const NFS3_OK: U32 := 0
  const DIR_COUNT: U32 := 4096
  const MAX_COUNT: U32 := 32768

  /** PushUnixAuthN: no name, user 0, one group 0. */
  const NOBODY := UnixAuth(0, [], 0, 0, [0])

  // The call

  /** What nfs_readdirplus pushes: cookie and verifier go as two words each. */
  function Arguments(dir: seq<Octet>, cookie: U64, cookieverf: U64): seq<Item>
    requires |dir| <= HANDLE_SIZE
  {
    [NOBODY, Opaque(dir),
     Unsigned(cookie / TWO_TO_32), Unsigned(cookie % TWO_TO_32), Unsigned(cookieverf / TWO_TO_32),
       Unsigned(cookieverf % TWO_TO_32),
     Unsigned(DIR_COUNT), Unsigned(MAX_COUNT)]
  }

  /** The arguments as section 3.3.17 of RFC 1813 lays them out: handle, cookie, verifier, two counts. */
  function EncodeArguments(dir: seq<Octet>, cookie: U64, cookieverf: U64): seq<Octet>
    requires |dir| <= HANDLE_SIZE
  {
    EncodeString(dir) +
      (EncodeU64(cookie) + (EncodeU64(cookieverf) + (EncodeU32(DIR_COUNT) + (EncodeU32(MAX_COUNT) + []))))
  }

  lemma EncodeFirst(item: Item, rest: seq<Item>)
    requires ItemOk(item) && ItemsOk(rest)
    ensures ItemsOk([item] + rest) && EncodeAll([item] + rest) == Encode(item) + EncodeAll(rest)
  {
    hide Encode, ItemOk, EncodeAll;
    var items := [item] + rest;
    assert items[1..] == rest;
    EncodeAllCons(items);
  }

  lemma EncodeHyper(v: U64, rest: seq<Item>)
    requires ItemsOk(rest)
    ensures ItemsOk([Unsigned(v / TWO_TO_32), Unsigned(v % TWO_TO_32)] + rest)
    ensures EncodeAll([Unsigned(v / TWO_TO_32), Unsigned(v % TWO_TO_32)] + rest) == EncodeU64(v) + EncodeAll(rest)
  {
    hide EncodeU32, EncodeAll;
    var low := Unsigned(v % TWO_TO_32);
    EncodeFirst(low, rest);
    EncodeFirst(Unsigned(v / TWO_TO_32), [low] + rest);
    assert [Unsigned(v / TWO_TO_32)] + ([low] + rest) == [Unsigned(v / TWO_TO_32), low] + rest;
  }

  /** The pushes write the credential and then the arguments in their standard layout; they fit. */
  lemma ArgumentsEncoded(dir: seq<Octet>, cookie: U64, cookieverf: U64)
    requires |dir| <= HANDLE_SIZE
    ensures ItemOk(NOBODY) && ItemsOk(Arguments(dir, cookie, cookieverf))
    ensures EncodeAll(Arguments(dir, cookie, cookieverf)) == Encode(NOBODY) + EncodeArguments(dir, cookie, cookieverf)
    ensures Fits(CALL_SIZE - 4, |EncodeAll(Arguments(dir, cookie, cookieverf))|)
  {
    hide EncodeU32, EncodeU64, EncodeString, EncodeAll, Encode;
    var counts := [Unsigned(DIR_COUNT)] + [Unsigned(MAX_COUNT)];
    CountsEncoded();
    EncodeHyper(cookieverf, counts);
    var tail := [Unsigned(cookieverf / TWO_TO_32), Unsigned(cookieverf % TWO_TO_32)] + counts;
    EncodeHyper(cookie, tail);
    var hypers := [Unsigned(cookie / TWO_TO_32), Unsigned(cookie % TWO_TO_32)] + tail;
    EncodeFirst(Opaque(dir), hypers);
    EncodeFirst(NOBODY, [Opaque(dir)] + hypers);
    assert [NOBODY] + ([Opaque(dir)] + hypers) == Arguments(dir, cookie, cookieverf);
    EncodedOpaque(dir);
  }

  lemma CountsEncoded()
    ensures ItemsOk([Unsigned(DIR_COUNT)] + [Unsigned(MAX_COUNT)])
    ensures EncodeAll([Unsigned(DIR_COUNT)] + [Unsigned(MAX_COUNT)]) ==
            EncodeU32(DIR_COUNT) + (EncodeU32(MAX_COUNT) + [])
  {
    hide EncodeU32;
    EncodeFirst(Unsigned(MAX_COUNT), []);
    assert [Unsigned(MAX_COUNT)] + [] == [Unsigned(MAX_COUNT)];
    EncodeFirst(Unsigned(DIR_COUNT), [Unsigned(MAX_COUNT)]);
  }

  lemma EncodedOpaque(dir: seq<Octet>)
    requires |dir| < TWO_TO_32
    ensures Encode(Opaque(dir)) == EncodeString(dir)
  {}

  /** The call as sent, with `dir` the bytes pushed for the handle. */
  function Request(xid: U32, dir: seq<Octet>, cookie: U64, cookieverf: U64): seq<Octet>
    requires |dir| <= HANDLE_SIZE
  {
    ArgumentsEncoded(dir, cookie, cookieverf);
    Message(xid, NFS_PROGRAM, NFS_VERSION, READDIRPLUS_PROCEDURE, Arguments(dir, cookie, cookieverf))
  }

  lemma RequestParts(xid: U32, dir: seq<Octet>, cookie: U64, cookieverf: U64)
    requires |dir| <= HANDLE_SIZE
    ensures ItemOk(NOBODY)
    ensures var s := Request(xid, dir, cookie, cookieverf);
            && HeaderAt(s, xid, 100003, 3, 17) && U32At(s, 0) == 0x8000_0000 + (|s| - 4)
            && At(s, 28, Encode(NOBODY)) && At(s, 28 + |Encode(NOBODY)|, EncodeArguments(dir, cookie, cookieverf))
            && |s| == 28 + |Encode(NOBODY)| + |EncodeArguments(dir, cookie, cookieverf)|
  {
    hide EncodeU32, U32At, At, EncodeAll, Encode, EncodeArguments, HeaderAt, Message;
    ArgumentsEncoded(dir, cookie, cookieverf);
    var s := Request(xid, dir, cookie, cookieverf);
    MessageLayout(xid, NFS_PROGRAM, NFS_VERSION, READDIRPLUS_PROCEDURE, Arguments(dir, cookie, cookieverf));
    AtSplit(s, 28, Encode(NOBODY), EncodeArguments(dir, cookie, cookieverf));
  }

  /** The credential of a nobody, from byte 28: AUTH_UNIX with 24 bytes of zeros but for the one group's count. */
  predicate SentAsNobody(s: seq<Octet>) {
    && |s| >= 68
    && U32At(s, 28) == 1 && U32At(s, 32) == 24
    && U32At(s, 36) == 0 && U32At(s, 40) == 0 && U32At(s, 44) == 0 && U32At(s, 48) == 0
    && U32At(s, 52) == 1 && U32At(s, 56) == 0
    && U32At(s, 60) == 0 && U32At(s, 64) == 0
  }

  lemma NobodyLayout(s: seq<Octet>)
    requires ItemOk(NOBODY) && At(s, 28, Encode(NOBODY))
    ensures SentAsNobody(s) && |Encode(NOBODY)| == 40
  {
    hide U32At, At, EncodeU32, Encode, EncodeString, EncodeWords;
    CredentialLayout(s, 28, 0, [], 0, 0, [0]);
    StringLayout(s, 40, []);
    WordsLayout(s, 56, [0], 0);
  }

  /**
   A server finds in the call: procedure 17 of program 100003, version 3; the credential; and behind it
   exactly the bytes pushed for the handle, the cookie, the verifier, and the counts 4096 and 32768.
   */
  lemma RequestReadBack(xid: U32, dir: seq<Octet>, cookie: U64, cookieverf: U64)
    requires |dir| <= HANDLE_SIZE
    ensures var s := Request(xid, dir, cookie, cookieverf);
            var q := 68 + |EncodeString(dir)|;
            && |s| == q + 24 && HeaderAt(s, xid, 100003, 3, 17) && U32At(s, 0) == 0x8000_0000 + (|s| - 4)
            && SentAsNobody(s) && SkipAuth(s, 28) == Some(60) && SkipAuth(s, 60) == Some(68)
            && ReadString(s, 68) == Some(Read(dir, q))
            && ReadU64(s, q) == Some(Read(cookie, q + 8)) && ReadU64(s, q + 8) == Some(Read(cookieverf, q + 16))
            && ReadU32(s, q + 16) == Some(Read(4096, q + 20)) && ReadU32(s, q + 20) == Some(Read(32768, |s|))
  {
    hide EncodeU32, EncodeU64, EncodeString, U32At, At, Encode, SkipAuth, Request, ReadString, Padded,
      HeaderAt, SentAsNobody, AuthSize;
    var s := Request(xid, dir, cookie, cookieverf);
    RequestParts(xid, dir, cookie, cookieverf);
    NobodyLayout(s);
    SkipAuthTwice(s, 28, NOBODY);
    NobodySize();
    var counts := EncodeU32(DIR_COUNT) + (EncodeU32(MAX_COUNT) + []);
    AtSplit(s, 68, EncodeString(dir), EncodeU64(cookie) + (EncodeU64(cookieverf) + counts));
    ReadEncodedString(s, 68, dir);
    var q := 68 + |EncodeString(dir)|;
    AtSplit(s, q, EncodeU64(cookie), EncodeU64(cookieverf) + counts);
    ReadEncodedU64(s, q, cookie);
    AtSplit(s, q + 8, EncodeU64(cookieverf), counts);
    ReadEncodedU64(s, q + 8, cookieverf);
    SplitU32(s, q + 16, DIR_COUNT, EncodeU32(MAX_COUNT) + []);
    SplitU32(s, q + 20, MAX_COUNT, []);
  }

  lemma NobodySize()
    ensures AuthSize(0, 1) == 24
  {}

  /**
   A server that once gave the handle `h`, which came in an fhandle3, finds its own handle in the call
   exactly when `h` is measurable.
   */
  lemma HandleReadBack(xid: U32, h: seq<Octet>, cookie: U64, cookieverf: U64)
    requires |h| <= HANDLE_SIZE
    ensures var read := ReadString(Request(xid, Sent(InHandle(h)), cookie, cookieverf), 68);
            read.Some? && (read.value.value == h <==> Measurable(h))
  {
    hide Request, Sent, EncodeString, Measurable, InHandle, HeaderAt, SentAsNobody;
    RequestReadBack(xid, Sent(InHandle(h)), cookie, cookieverf);
    SentIsGiven(h);
  }

  // One exchange

  /** What the whole reply means to nfs_readdirplus: the status is reported, not obeyed. */
  function ReadReply(s: seq<Octet>, xid: U32, log: seq<Delivery>,
                     goOn: seq<Delivery> -> bool): Option<Read<(PageEnd, U64)>> {
    match ReadHead(s, xid)
    case None => None
    case Some(head) =>
      match ReadPage(s, head.next, head.value.1, log, goOn, None)
      case None => None
      case Some(page) => Some(Read((page.value, head.value.0), page.next))
  }

  /** What comes before the entries. */
  function ReadHead(s: seq<Octet>, xid: U32): Option<Read<(U64, bool)>> {
    match ReadAccepted(s, xid)
    case None => None
    case Some(status) => ReadResultHead(s, status.next)
  }

  /** What a server answers to READDIRPLUS: an error status comes with optional attributes only. */
  function EncodeAnswer(status: U32, attribs: Option<Fattr>, verf: U64, es: seq<DirEntry>, eof: bool): seq<Octet>
    requires EntriesOk(es)
  {
    if status == NFS3_OK then EncodeResult(attribs, verf, es, eof) else EncodeAttribs(attribs)
  }

  /**
   nfs_readdirplus goes on after an error status, looking for a cookie verifier and entries.  So it can
   finish on the answer of a server exactly when the status is NFS3_OK.
   */
  lemma ReadableWhenOk(h: Head, status: U32, attribs: Option<Fattr>, verf: U64, es: seq<DirEntry>, eof: bool,
                       log: seq<Delivery>, goOn: seq<Delivery> -> bool)
    requires HeadOk(h) && EntriesOk(es) &&
             |EncodeBody(h, status, EncodeAnswer(status, attribs, verf, es, eof))| < TWO_TO_31
    ensures var s := EncodeReply(h, status, EncodeAnswer(status, attribs, verf, es, eof));
            && OneRecord(s) && ReadAccepted(s, h.xid).Some? && ReadAccepted(s, h.xid).value.value == status
            && (ReadReply(s, h.xid, log, goOn).Some? <==> status == NFS3_OK)
  {
    hide EncodeBody, EncodeReply, EncodeResult, EncodeAttribs, ReadAccepted, ReadOptAttribs, OneRecord, EncodeList,
      ReadPage, Align4, At;
    var result := EncodeAnswer(status, attribs, verf, es, eof);
    var s := EncodeReply(h, status, result);
    ReadEncodedAccepted(h, status, result);
    var p := 32 + Align4(|h.verifier|);
    if status == NFS3_OK {
      ReadEncodedResult(s, p, attribs, verf, es, eof);
      ReadEncodedPage(s, p + |EncodeAttribs(attribs)| + 8, es, eof, log, goOn, None);
    } else {
      ReadEncodedOptAttribs(s, p, attribs);
    }
  }

  /** Send, and the reply the server puts on the stream. */
  method Exchange(s: RPCSerializer, sock: Socket, serve: seq<Octet> -> seq<Octet>)
    requires s.Size + 4 <= s.InlineStorage.Length
    modifies sock`pending
    ensures sock.pending == old(sock.pending) + serve(s.InlineStorage[..s.Size + 4])
  {
    sock.pending := sock.pending + serve(s.InlineStorage[..s.Size + 4]);
  }

  /** The call in a serializer of its own; `random` is what RandomXid draws. */
  method BuildCall(little: bool, random: U32, pushed: seq<Octet>, cookie: U64, cookieverf: U64)
    returns (s: RPCSerializer, xid: U32)
    requires |pushed| <= HANDLE_SIZE
    ensures fresh(s) && fresh(s.InlineStorage) && s.Size + 4 <= s.InlineStorage.Length
    ensures xid == random && s.InlineStorage[..s.Size + 4] == Request(random, pushed, cookie, cookieverf)
  {
    hide Message, Arguments, EncodeAll, ItemsOk, RPCSerializer.Contents;
    ArgumentsEncoded(pushed, cookie, cookieverf);
    s := new RPCSerializer.Zeroed(little);
    var built;
    built, xid := s.SerializeCall(PLACEHOLDER_XID, random, NFS_PROGRAM, NFS_VERSION, READDIRPLUS_PROCEDURE,
      Arguments(pushed, cookie, cookieverf));
  }

  /** The sending half of nfs_readdirplus: only the measured bytes of the handle are pushed. */
  method Ask(sock: Socket, little: bool, random: U32, serve: seq<Octet> -> seq<Octet>, dir: seq<Octet>, cookie: U64,
             cookieverf: U64) returns (xid: U32)
    requires |dir| == HANDLE_SIZE && sock.pending == []
    modifies sock
    ensures xid == random && sock.pending == serve(Request(random, Sent(dir), cookie, cookieverf))
  {
    hide Request, HostHandle, MeasuredWords;
    var length := CachedTree.Cache.MeasureHandle(HostHandle(little, dir));
    MeasuredInAnyOrder(little, dir);
    var s;
    s, xid := BuildCall(little, random, dir[..4 * length], cookie, cookieverf);
    Exchange(s, sock, serve);
  }

  /** nfs_readdirplus; the cookie is indeterminate after a page without entries. */
  method NfsReaddirplus(sock: Socket, little: bool, random: U32, serve: seq<Octet> -> seq<Octet>, dir: seq<Octet>,
                        cookie: U64, cookieverf: U64,
                        log: seq<Delivery>, goOn: seq<Delivery> -> bool)
    returns (r: Outcome<(PageEnd, U64)>)
    requires |dir| == HANDLE_SIZE && sock.pending == []
    requires OneRecord(serve(Request(random, Sent(dir), cookie, cookieverf)))
    modifies sock
    ensures var reply := serve(Request(random, Sent(dir), cookie, cookieverf));
            var read := ReadReply(reply, random, log, goOn);
            && (r.Done? ==> read.Some? && read.value.value == r.value)
            && (r.Done? && (r.value.0.stopped || read.value.next == |reply|) ==> sock.pending == [])
            && (sock.policy.prompt && sock.policy.wholeWords && Whole(|reply|) && read.Some? ==>
                  (ReadHead(reply, random).value.next <= WINDOW ==> r.Done?))
  {
    hide ReadAccepted, ReadResultHead, ReadPage, Request, OneRecord, Sent;
    var xid := Ask(sock, little, random, serve, dir, cookie, cookieverf);
    var d := new RpcDeserializer.RPCDeserializer.Init(sock);
    var status := ReceiveAccepted(d, xid);
    if status.Stopped? {
      return Stopped(status.reason);
    }
    var head := ReceiveResultHead(d);
    if head.Stopped? {
      return Stopped(head.reason);
    }
    var page := ReceiveEntries(d, head.value.1, log, goOn);
    if page.Stopped? {
      return Stopped(page.reason);
    }
    r := Done((page.value, head.value.0));
  }

  // The server

  /** The cookie after which entry `i` comes: zero to begin with. */
  function CookieBefore(es: seq<DirEntry>, i: nat): U64
    requires i <= |es|
  {
    if i == 0 then 0 else es[i - 1].cookie
  }

  /** The verifier a client has to send along: zero with the first call, then the server's own. */
  function VerifierBefore(i: nat, verf: U64): U64 {
    if i == 0 then 0 else verf
  }

  /** One answer: a head and the entries up to, not including, number `end`. */
  datatype Answer = Answer(head: Head, attribs: Option<Fattr>, end: nat, eof: bool)

  predicate IsAnswer(a: Answer, reply: seq<Octet>, xid: U32, es: seq<DirEntry>, verf: U64, i: nat)
    requires i <= |es| && EntriesOk(es)
  {
    && i <= a.end <= |es|
    && (if a.eof then a.end == |es| else i < a.end)
    && HeadOk(a.head) && a.head.xid == xid
    && RunOk(es, i, a.end)
    && var result := EncodeResult(a.attribs, verf, es[i..a.end], a.eof);
       |EncodeBody(a.head, NFS3_OK, result)| < TWO_TO_31 && reply == EncodeReply(a.head, NFS3_OK, result)
  }

  predicate RunOk(es: seq<DirEntry>, i: nat, n: nat)
    requires i <= n <= |es|
  {
    EntriesOk(es[i..n])
  }

  /**
   The directory `dir` with entries `es`, as a server presents it: a call with the cookie of one entry
   and the verifier it gave out is answered with a non-empty run of the entries after that one, as long
   or short as the server likes, or with all of them and the eof flag.
   */
  ghost predicate Serves(serve: seq<Octet> -> seq<Octet>, dir: seq<Octet>, es: seq<DirEntry>, verf: U64)
    requires |dir| <= HANDLE_SIZE && EntriesOk(es)
  {
    forall xid: U32, i: nat | i <= |es| :: Answers(serve, dir, es, verf, xid, i)
  }

  /** The call that asks for what comes after the first `i` entries is answered. */
  ghost predicate Answers(serve: seq<Octet> -> seq<Octet>, dir: seq<Octet>, es: seq<DirEntry>, verf: U64, xid: U32,
                          i: nat)
    requires |dir| <= HANDLE_SIZE && EntriesOk(es) && i <= |es|
  {
    exists a: Answer ::
      IsAnswer(a, serve(Request(xid, dir, CookieBefore(es, i), VerifierBefore(i, verf))), xid, es, verf, i)
  }

  // Paging

  /** Reading an answer offers exactly its entries, and leaves nothing unread unless the callback stopped. */
  lemma ReadAnswer(a: Answer, reply: seq<Octet>, xid: U32, es: seq<DirEntry>, verf: U64, i: nat, log: seq<Delivery>,
                   goOn: seq<Delivery> -> bool)
    requires i <= |es| && EntriesOk(es) && IsAnswer(a, reply, xid, es, verf, i)
    ensures OneRecord(reply) && Whole(|reply|) && ReadHead(reply, xid).Some? &&
            ReadHead(reply, xid).value.next <= WINDOW
    ensures var read := ReadReply(reply, xid, log, goOn);
            && read.Some? && read.value.value == (Offer(es[i..a.end], a.eof, log, goOn, None), verf)
            && (read.value.value.0.stopped || read.value.next == |reply|)
  {
    hide EncodeBody, EncodeReply, EncodeResult, ReadAccepted, ReadResultHead, OneRecord, EncodeList, ReadPage, Offer,
      At, Align4, Whole, EncodeAttribs;
    var run := es[i..a.end];
    var result := EncodeResult(a.attribs, verf, run, a.eof);
    WholeResult(a.attribs, verf, run, a.eof);
    WholeReply(a.head, NFS3_OK, result);
    ReadEncodedAccepted(a.head, NFS3_OK, result);
    var p := 32 + Align4(|a.head.verifier|);
    ReadEncodedResult(reply, p, a.attribs, verf, run, a.eof);
    ReadEncodedPage(reply, ReadHead(reply, xid).value.next - 4, run, a.eof, log, goOn, None);
  }

  /** Offering a run and then, unless stopped, the rest is offering everything. */
  lemma {:induction false} OfferInPages(es: seq<DirEntry>, n: nat, eof: bool, log: seq<Delivery>,
                                        goOn: seq<Delivery> -> bool, c1: Option<U64>, c2: Option<U64>)
    requires n <= |es| && EntriesOk(es)
    ensures EntriesOk(es[..n]) && EntriesOk(es[n..])
    ensures var page := Offer(es[..n], eof, log, goOn, c1); var all := Offer(es, true, log, goOn, c2);
            && (page.stopped ==> all.log == page.log)
            && (!page.stopped ==> page.more == !eof && (n > 0 ==> page.cookie == Some(es[n - 1].cookie)))
            && (!page.stopped ==> Offer(es[n..], true, page.log, goOn, None).log == all.log)
    decreases n
  {
    hide EntryOk;
    if n == 0 {
      assert es[0..] == es;
      CookieIrrelevant(es, log, goOn, c2, None);
    } else {
      assert EntryOk(es[0]);
      var log1 := log + [DeliveryOf(es[0])];
      assert es[..n][1..] == es[1..][..n - 1] && es[1..][n - 1..] == es[n..];
      assert EntriesOk(es[..n]);
      if goOn(log1) {
        OfferInPages(es[1..], n - 1, eof, log1, goOn, Some(es[0].cookie), Some(es[0].cookie));
      }
    }
  }

  lemma {:induction false} CookieIrrelevant(es: seq<DirEntry>, log: seq<Delivery>, goOn: seq<Delivery> -> bool,
                                            c1: Option<U64>, c2: Option<U64>)
    requires EntriesOk(es)
    ensures Offer(es, true, log, goOn, c1).log == Offer(es, true, log, goOn, c2).log
  {
    if es != [] {
      assert EntryOk(es[0]);
    }
  }

  /** All entries of a directory as the callback gets them. */
  function Deliveries(es: seq<DirEntry>): (ds: seq<Delivery>)
    requires EntriesOk(es)
    ensures |ds| == |es| && forall i :: 0 <= i < |es| ==> EntryOk(es[i]) && ds[i] == DeliveryOf(es[i])
    decreases |es|
  {
    if es == [] then [] else
      assert EntryOk(es[0]);
      [DeliveryOf(es[0])] + Deliveries(es[1..])
  }

  lemma LogStep(log: seq<Delivery>, d: Delivery, rest: seq<Delivery>, j: nat)
    requires 0 < j <= 1 + |rest|
    ensures log + ([d] + rest)[..j] == (log + [d]) + rest[..j - 1]
  {
    assert ([d] + rest)[..j] == [d] + rest[..j - 1];
  }

  /** How many entries are delivered: up to and including the first refusal. */
  function Delivered(es: seq<DirEntry>, log: seq<Delivery>, goOn: seq<Delivery> -> bool): (k: nat)
    requires EntriesOk(es)
    ensures k <= |es|
    decreases |es|
  {
    if es == [] then 0
    else
      assert EntryOk(es[0]);
      var log1 := log + [DeliveryOf(es[0])];
      if goOn(log1) then 1 + Delivered(es[1..], log1, goOn) else 1
  }

  /** What offering a directory delivers: its entries in order, each once, up to the first refusal. */
  lemma {:induction false} DeliveredInOrder(es: seq<DirEntry>, log: seq<Delivery>, goOn: seq<Delivery> -> bool,
                                            c: Option<U64>)
    requires EntriesOk(es)
    ensures var k := Delivered(es, log, goOn);
            && Offer(es, true, log, goOn, c).log == log + Deliveries(es)[..k]
            && (forall j :: 0 < j < k ==> goOn(log + Deliveries(es)[..j]))
            && (k == |es| || (k > 0 && !goOn(log + Deliveries(es)[..k])))
    decreases |es|
  {
    hide EntryOk, DeliveryOf;
    if es != [] {
      assert EntryOk(es[0]);
      var d := DeliveryOf(es[0]);
      var rest := Deliveries(es[1..]);
      var k := Delivered(es, log, goOn);
      LogStep(log, d, rest, 1);
      if goOn(log + [d]) {
        DeliveredInOrder(es[1..], log + [d], goOn, Some(es[0].cookie));
        forall j | 0 < j <= k ensures log + Deliveries(es)[..j] == (log + [d]) + rest[..j - 1] {
          LogStep(log, d, rest, j);
        }
      }
    }
  }

  /**
   The loop of nfsls.c, from cookie and verifier zero.  Whatever page sizes the server chooses and
   however recv cuts its replies, a listing that ends has delivered to the callback the entries of the
   directory in order, each once, up to its first refusal; and it ends, when recv is prompt and returns
   whole words.
   */
  method ListDirectory(sock: Socket, little: bool, xids: nat -> U32, serve: seq<Octet> -> seq<Octet>, dir: seq<Octet>,
                       goOn: seq<Delivery> -> bool,
                       ghost es: seq<DirEntry>, ghost verf: U64)
    returns (r: Outcome<seq<Delivery>>)
    requires |dir| == HANDLE_SIZE && sock.pending == [] && EntriesOk(es) && Serves(serve, Sent(dir), es, verf)
    modifies sock
    ensures r.Done? ==> sock.pending == [] && r.value == Deliveries(es)[..Delivered(es, [], goOn)]
    ensures sock.policy.prompt && sock.policy.wholeWords ==> r.Done?
  {
    hide Request, Sent, IsAnswer, ReadReply, ReadHead, OneRecord, Offer, EntryOk, Deliveries, Delivered;
    DeliveredInOrder(es, [], goOn, None);
    assert [] + Deliveries(es)[..Delivered(es, [], goOn)] == Deliveries(es)[..Delivered(es, [], goOn)];
    var cookie: U64, verifier: U64 := 0, 0;
    var calls := 0;
    var log: seq<Delivery> := [];
    ghost var i := 0;
    assert es[0..] == es;
    while true
      invariant i <= |es| && cookie == CookieBefore(es, i) && verifier == VerifierBefore(i, verf) && sock.pending == []
      invariant EntriesOk(es[i..]) && Offer(es[i..], true, log, goOn, None).log == Offer(es, true, [], goOn, None).log
      decreases |es| - i
    {
      assert Answers(serve, Sent(dir), es, verf, xids(calls), i);
      ghost var a: Answer :| IsAnswer(a,
        serve(Request(xids(calls), Sent(dir), CookieBefore(es, i), VerifierBefore(i, verf))), xids(calls), es, verf, i);
      ReadAnswer(a, serve(Request(xids(calls), Sent(dir), cookie, verifier)), xids(calls), es, verf, i, log, goOn);
      var page := NfsReaddirplus(sock, little, xids(calls), serve, dir, cookie, verifier, log, goOn);
      if page.Stopped? {
        return Stopped(page.reason);
      }
      AnswerEnd(a, serve(Request(xids(calls), Sent(dir), cookie, verifier)), xids(calls), es, verf, i);
      NextPage(es, i, a.end, a.eof, log, goOn);
      log := page.value.0.log;
      verifier := page.value.1;
      if !page.value.0.more {
        return Done(log);
      }
      cookie := page.value.0.cookie.value;
      i := a.end;
      calls := calls + 1;
    }
  }

  lemma AnswerEnd(a: Answer, reply: seq<Octet>, xid: U32, es: seq<DirEntry>, verf: U64, i: nat)
    requires i <= |es| && EntriesOk(es) && IsAnswer(a, reply, xid, es, verf, i)
    ensures i <= a.end <= |es| && (if a.eof then a.end == |es| else i < a.end)
  {}

  /** After one answer: stopped or at the end with everything due delivered, or ready to ask for the rest. */
  lemma NextPage(es: seq<DirEntry>, i: nat, n: nat, eof: bool, log: seq<Delivery>, goOn: seq<Delivery> -> bool)
    requires EntriesOk(es) && i <= n <= |es| && (if eof then n == |es| else i < n)
    ensures EntriesOk(es[i..n]) && EntriesOk(es[n..]) && EntriesOk(es[i..])
    ensures var page := Offer(es[i..n], eof, log, goOn, None); var all := Offer(es[i..], true, log, goOn, None);
            && (!page.more ==> all.log == page.log)
            && (page.more ==>
               page.cookie == Some(es[n - 1].cookie) && i < n &&
                 Offer(es[n..], true, page.log, goOn, None).log == all.log)
  {
    hide EntryOk;
    OfferInPages(es[i..], n - i, eof, log, goOn, None, None);
    assert es[i..][..n - i] == es[i..n] && es[i..][n - i..] == es[n..];
    StoppedPage(es[i..n], eof, log, goOn, None);
  }

  lemma {:induction false} StoppedPage(es: seq<DirEntry>, eof: bool, log: seq<Delivery>, goOn: seq<Delivery> -> bool,
                                       c: Option<U64>)
    requires EntriesOk(es)
    ensures Offer(es, eof, log, goOn, c).stopped ==> !Offer(es, eof, log, goOn, c).more
    decreases |es|
  {
    if es != [] {
      assert EntryOk(es[0]);
      StoppedPage(es[1..], eof, log + [DeliveryOf(es[0])], goOn, Some(es[0].cookie));
    }
  }
}
