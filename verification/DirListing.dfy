/**
 READDIRPLUS replies (section 3.3.17 of RFC 1813) as flat messages: their encoding, and what the loop
 of nfs_readdirplus reads from one.
 */
module DirListing {
  import opened Outcomes
  import opened Alignment
  import opened Xdr
  import opened Replies

  /** An entryplus3. */
  datatype DirEntry = DirEntry(fileid: U64, name: seq<Octet>, cookie: U64, attribs: Option<Fattr>,
    handle: Option<seq<Octet>>)

  /** The buffer a name is copied to, with its NUL. */
  const NAME_BUFFER := 1024

  predicate EntryOk(e: DirEntry) {
    && |e.name| < NAME_BUFFER
    && (e.handle.Some? ==> |e.handle.value| <= HANDLE_SIZE)
  }

  predicate EntriesOk(es: seq<DirEntry>) {
    forall i :: 0 <= i < |es| ==> EntryOk(es[i])
  }

  /** What the callback is given: a handle comes in a 64-byte structure. */
  datatype Delivery = Delivery(name: seq<Octet>, handle: Option<seq<Octet>>, attribs: Option<Fattr>)

  function DeliveryOf(e: DirEntry): Delivery
    requires EntryOk(e)
  {
    Delivery(e.name, if e.handle.Some? then Some(InHandle(e.handle.value)) else None, e.attribs)
  }

  // Encoding

  function EncodeHandle(h: Option<seq<Octet>>): (r: seq<Octet>)
    requires h.Some? ==> |h.value| <= HANDLE_SIZE
    ensures Whole(|r|)
  {
    if h.Some? then EncodeBool(true) + EncodeString(h.value) else EncodeBool(false)
  }

  function EncodeEntry(e: DirEntry): (r: seq<Octet>)
    requires EntryOk(e)
  {
    EncodeU64(e.fileid) +
      (EncodeString(e.name) + (EncodeU64(e.cookie) + (EncodeAttribs(e.attribs) + EncodeHandle(e.handle))))
  }

  /** The linked list of entries: TRUE before each, FALSE after the last, then the eof flag. */
  function EncodeList(es: seq<DirEntry>, eof: bool): (r: seq<Octet>)
    requires EntriesOk(es)
    decreases |es|
  {
    if es == [] then EncodeBool(false) + EncodeBool(eof)
    else
      assert EntryOk(es[0]);
      EncodeBool(true) + (EncodeEntry(es[0]) + EncodeList(es[1..], eof))
  }

  lemma WholeEntry(e: DirEntry)
    requires EntryOk(e)
    ensures Whole(|EncodeEntry(e)|)
  {
    hide EncodeU64, EncodeString, EncodeAttribs, EncodeHandle, Align4;
    var attribs, handle := EncodeAttribs(e.attribs), EncodeHandle(e.handle);
    WholeSum(|attribs|, |handle|);
    WholeSum(8, |attribs + handle|);
    WholeSum(4 + Align4(|e.name|), |EncodeU64(e.cookie) + (attribs + handle)|);
    WholeSum(8, |EncodeString(e.name) + (EncodeU64(e.cookie) + (attribs + handle))|);
  }

  lemma {:induction false} WholeList(es: seq<DirEntry>, eof: bool)
    requires EntriesOk(es)
    ensures Whole(|EncodeList(es, eof)|)
    decreases |es|
  {
    hide EncodeBool, EncodeEntry, EntryOk;
    if es != [] {
      assert EntryOk(es[0]);
      WholeEntry(es[0]);
      WholeList(es[1..], eof);
      WholeSum(|EncodeEntry(es[0])|, |EncodeList(es[1..], eof)|);
      WholeSum(4, |EncodeEntry(es[0]) + EncodeList(es[1..], eof)|);
    }
  }

  /**
   An entry: TRUE, file id, name, cookie, attributes or FALSE, handle or FALSE; the next entry follows.  After
   the last, FALSE and the eof flag.
   */
  lemma ListLayout(s: seq<Octet>, p: nat, es: seq<DirEntry>, eof: bool)
    requires EntriesOk(es) && At(s, p, EncodeList(es, eof))
    ensures es == [] ==> p + 8 <= |s| && U32At(s, p) == 0 && U32At(s, p + 4) == if eof then 1 else 0
    ensures es != [] ==>
              var e := es[0];
              && EntryOk(e) && p + 12 <= |s| && U32At(s, p) == 1 && U64At(s, p + 4) == e.fileid
              && At(s, p + 12, EncodeString(e.name))
              && var q := p + 12 + |EncodeString(e.name)|;
                 && q + 8 <= |s| && U64At(s, q) == e.cookie && At(s, q + 8, EncodeAttribs(e.attribs))
                 && var r := q + 8 + |EncodeAttribs(e.attribs)|;
                    && r + 4 <= |s|
                    && (match e.handle
                        case None => U32At(s, r) == 0 && At(s, r + 4, EncodeList(es[1..], eof))
                        case Some(h) => U32At(s, r) == 1 && At(s, r + 4, EncodeString(h))
                                        && At(s, r + 4 + |EncodeString(h)|, EncodeList(es[1..], eof)))
  {
    hide EncodeU32, EncodeU64, U32At, U64At, At, EncodeString, EncodeAttribs, EntryOk;
    if es == [] {
      SplitU32(s, p, 0, EncodeBool(eof));
      DecodeEncodedU32(s, p + 4, if eof then 1 else 0);
    } else {
      var e := es[0];
      assert EntryOk(e);
      var rest := EncodeList(es[1..], eof);
      SplitU32(s, p, 1, EncodeEntry(e) + rest);
      AtSplit(s, p + 4, EncodeEntry(e), rest);
      EntryLayout(s, p + 4, e);
      AtBounds(s, p + 4, EncodeEntry(e));
    }
  }

  lemma EntryLayout(s: seq<Octet>, p: nat, e: DirEntry)
    requires EntryOk(e) && At(s, p, EncodeEntry(e))
    ensures var q := p + 8 + |EncodeString(e.name)|; var r := q + 8 + |EncodeAttribs(e.attribs)|;
            && r + 4 <= |s| && U64At(s, p) == e.fileid && At(s, p + 8, EncodeString(e.name))
            && U64At(s, q) == e.cookie && At(s, q + 8, EncodeAttribs(e.attribs))
            && p + |EncodeEntry(e)| == r + 4 + (if e.handle.Some? then |EncodeString(e.handle.value)| else 0)
            && U32At(s, r) == (if e.handle.Some? then 1 else 0)
            && (e.handle.Some? ==> At(s, r + 4, EncodeString(e.handle.value)))
  {
    hide EncodeU32, EncodeU64, U32At, U64At, At, EncodeString, EncodeAttribs;
    var handle := EncodeHandle(e.handle);
    var attribs := EncodeAttribs(e.attribs) + handle;
    var cookie := EncodeU64(e.cookie) + attribs;
    SplitU64(s, p, e.fileid, EncodeString(e.name) + cookie);
    AtSplit(s, p + 8, EncodeString(e.name), cookie);
    var q := p + 8 + |EncodeString(e.name)|;
    SplitU64(s, q, e.cookie, attribs);
    AtSplit(s, q + 8, EncodeAttribs(e.attribs), handle);
    var r := q + 8 + |EncodeAttribs(e.attribs)|;
    if e.handle.Some? {
      SplitU32(s, r, 1, EncodeString(e.handle.value));
    } else {
      DecodeEncodedU32(s, r, 0);
    }
  }

  // Reading

  function ReadOptHandle(s: seq<Octet>, p: nat): (r: Option<Read<Option<seq<Octet>>>>)
    ensures r.Some? ==> p + 4 <= r.value.next <= |s|
  {
    match ReadBool(s, p)
    case None => None
    case Some(present) =>
      if !present.value then Some(Read(None, present.next))
      else
        match ReadHandle(s, present.next)
        case None => None
        case Some(h) => Some(Read(Some(h.value), h.next))
  }

  /** A name whose length word has been read; it must fit the buffer. */
  function ReadName(s: seq<Octet>, p: nat): Option<Read<seq<Octet>>> {
    match ReadString(s, p)
    case None => None
    case Some(name) => if |name.value| < NAME_BUFFER then Some(name) else None
  }

  function ReadIdAndName(s: seq<Octet>, p: nat): Option<Read<seq<Octet>>> {
    match ReadU64(s, p)
    case None => None
    case Some(fileid) => ReadName(s, fileid.next)
  }

  /** One entry, as delivered, with its cookie. */
  function ReadEntry(s: seq<Octet>, p: nat): (r: Option<Read<(Delivery, U64)>>)
    ensures r.Some? ==> p < r.value.next <= |s|
  {
    match ReadIdAndName(s, p)
    case None => None
    case Some(name) =>
      match ReadU64(s, name.next)
      case None => None
      case Some(cookie) =>
        match ReadOptAttribs(s, cookie.next)
        case None => None
        case Some(attribs) =>
          match ReadOptHandle(s, attribs.next)
          case None => None
          case Some(handle) => Some(Read((Delivery(name.value, handle.value, attribs.value), cookie.value),
            handle.next))
  }

  /** How the loop ends: what has been delivered, the cookie to continue from, and why. */
  datatype PageEnd = PageEnd(log: seq<Delivery>, cookie: Option<U64>, more: bool, stopped: bool)

  /**
   The loop of nfs_readdirplus from position `p`, after `hasNext` has been read.  `goOn` is the
   callback's answer, given everything delivered so far; `cookie` is the last entry's.
   */
  function ReadPage(s: seq<Octet>, p: nat, hasNext: bool, log: seq<Delivery>, goOn: seq<Delivery> -> bool,
                    cookie: Option<U64>): Option<Read<PageEnd>>
    decreases |s| - p
  {
    if !hasNext then
      match ReadBool(s, p)
      case None => None
      case Some(eof) => Some(Read(PageEnd(log, cookie, !eof.value, false), eof.next))
    else
      match ReadEntry(s, p)
      case None => None
      case Some(e) =>
        var log1 := log + [e.value.0];
        if !goOn(log1) then Some(Read(PageEnd(log1, Some(e.value.1), false, true), e.next))
        else
          match ReadBool(s, e.next)
          case None => None
          case Some(h) => ReadPage(s, h.next, h.value, log1, goOn, Some(e.value.1))
  }

  /** Attributes, cookie verifier and whether an entry follows. */
  function ReadResultHead(s: seq<Octet>, p: nat): (r: Option<Read<(U64, bool)>>)
    ensures r.Some? ==> p < r.value.next <= |s|
  {
    match ReadOptAttribs(s, p)
    case None => None
    case Some(attribs) =>
      match ReadU64(s, attribs.next)
      case None => None
      case Some(verf) =>
        match ReadBool(s, verf.next)
        case None => None
        case Some(hasNext) => Some(Read((verf.value, hasNext.value), hasNext.next))
  }

  /** The page as the encoder meant it: entries offered one by one until the callback refuses. */
  function Offer(es: seq<DirEntry>, eof: bool, log: seq<Delivery>, goOn: seq<Delivery> -> bool,
                 cookie: Option<U64>): PageEnd
    requires EntriesOk(es)
    decreases |es|
  {
    if es == [] then PageEnd(log, cookie, !eof, false)
    else
      assert EntryOk(es[0]);
      var log1 := log + [DeliveryOf(es[0])];
      if !goOn(log1) then PageEnd(log1, Some(es[0].cookie), false, true)
      else Offer(es[1..], eof, log1, goOn, Some(es[0].cookie))
  }

  // Reading inverts encoding

  lemma ReadEncodedOptHandle(s: seq<Octet>, p: nat, h: Option<seq<Octet>>)
    requires h.Some? ==> |h.value| <= HANDLE_SIZE
    requires At(s, p, EncodeHandle(h))
    ensures ReadOptHandle(s, p) == Some(Read(if h.Some? then Some(InHandle(h.value)) else None, p + |EncodeHandle(h)|))
  {
    hide EncodeBool, ReadBool, At, U32At, EncodeU32, Padded, InHandle;
    if h.Some? {
      AtSplit(s, p, EncodeBool(true), EncodeString(h.value));
      ReadEncodedBool(s, p, true);
      ReadEncodedString(s, p + 4, h.value);
      SplitU32(s, p + 4, |h.value|, Padded(h.value));
    } else {
      ReadEncodedBool(s, p, false);
    }
  }

  lemma ReadEncodedEntry(s: seq<Octet>, p: nat, e: DirEntry)
    requires EntryOk(e) && At(s, p, EncodeEntry(e))
    ensures ReadEntry(s, p) == Some(Read((DeliveryOf(e), e.cookie), p + |EncodeEntry(e)|))
  {
    hide EncodeU64, EncodeString, EncodeAttribs, EncodeHandle, At, ReadU64, ReadString, ReadOptAttribs, ReadOptHandle;
    var handle := EncodeHandle(e.handle);
    var attribs := EncodeAttribs(e.attribs) + handle;
    var cookie := EncodeU64(e.cookie) + attribs;
    AtSplit(s, p, EncodeU64(e.fileid), EncodeString(e.name) + cookie);
    ReadEncodedU64(s, p, e.fileid);
    AtSplit(s, p + 8, EncodeString(e.name), cookie);
    ReadEncodedString(s, p + 8, e.name);
    var q := p + 8 + |EncodeString(e.name)|;
    AtSplit(s, q, EncodeU64(e.cookie), attribs);
    ReadEncodedU64(s, q, e.cookie);
    AtSplit(s, q + 8, EncodeAttribs(e.attribs), handle);
    ReadEncodedOptAttribs(s, q + 8, e.attribs);
    ReadEncodedOptHandle(s, q + 8 + |EncodeAttribs(e.attribs)|, e.handle);
  }

  /** Decoding inverts encoding: the loop delivers exactly the encoded entries, as far as the callback lets it. */
  lemma {:induction false} ReadEncodedPage(s: seq<Octet>, p: nat, es: seq<DirEntry>, eof: bool, log: seq<Delivery>,
                                           goOn: seq<Delivery> -> bool,
                                           cookie: Option<U64>)
    requires EntriesOk(es) && At(s, p, EncodeList(es, eof))
    ensures ReadBool(s, p) == Some(Read(es != [], p + 4))
    ensures var page := ReadPage(s, p + 4, es != [], log, goOn, cookie);
            && page.Some? && page.value.value == Offer(es, eof, log, goOn, cookie)
            && (!page.value.value.stopped ==> page.value.next == p + |EncodeList(es, eof)|)
    decreases |es|
  {
    hide EncodeBool, EncodeEntry, At, ReadBool, ReadEntry, DeliveryOf, EntryOk;
    if es == [] {
      AtSplit(s, p, EncodeBool(false), EncodeBool(eof));
      ReadEncodedBool(s, p, false);
      ReadEncodedBool(s, p + 4, eof);
    } else {
      var e := es[0];
      assert EntryOk(e);
      AtSplit(s, p, EncodeBool(true), EncodeEntry(e) + EncodeList(es[1..], eof));
      ReadEncodedBool(s, p, true);
      AtSplit(s, p + 4, EncodeEntry(e), EncodeList(es[1..], eof));
      ReadEncodedEntry(s, p + 4, e);
      ReadEncodedPage(s, p + 4 + |EncodeEntry(e)|, es[1..], eof, log + [DeliveryOf(e)], goOn, Some(e.cookie));
    }
  }

  // Whole replies

  /** READDIRPLUS3resok up to the entries and with them. */
  function EncodeResult(attribs: Option<Fattr>, verf: U64, es: seq<DirEntry>, eof: bool): seq<Octet>
    requires EntriesOk(es)
  {
    EncodeAttribs(attribs) + (EncodeU64(verf) + EncodeList(es, eof))
  }

  lemma WholeResult(attribs: Option<Fattr>, verf: U64, es: seq<DirEntry>, eof: bool)
    requires EntriesOk(es)
    ensures Whole(|EncodeResult(attribs, verf, es, eof)|)
  {
    hide EncodeU64, EncodeAttribs, EncodeList;
    WholeList(es, eof);
    WholeSum(8, |EncodeList(es, eof)|);
    WholeSum(|EncodeAttribs(attribs)|, |EncodeU64(verf) + EncodeList(es, eof)|);
  }

  lemma FirstFlag(s: seq<Octet>, p: nat, es: seq<DirEntry>, eof: bool)
    requires EntriesOk(es) && At(s, p, EncodeList(es, eof))
    ensures ReadBool(s, p) == Some(Read(es != [], p + 4))
  {
    hide At, ReadBool, ReadPage, Offer;
    ReadEncodedPage(s, p, es, eof, [], _ => true, None);
  }

  /** What comes before the entries is read back, and the entries follow. */
  lemma ReadEncodedResult(s: seq<Octet>, p: nat, attribs: Option<Fattr>, verf: U64, es: seq<DirEntry>, eof: bool)
    requires EntriesOk(es) && At(s, p, EncodeResult(attribs, verf, es, eof))
    ensures var q := p + |EncodeAttribs(attribs)| + 8;
            && ReadResultHead(s, p) == Some(Read((verf, es != []), q + 4)) && q <= p + 96
            && At(s, q, EncodeList(es, eof)) && q + |EncodeList(es, eof)| == p + |EncodeResult(attribs, verf, es, eof)|
  {
    hide EncodeU64, At, EncodeList, EncodeAttribs, ReadOptAttribs, ReadU64, ReadBool, EntriesOk;
    var tail := EncodeU64(verf) + EncodeList(es, eof);
    AtSplit(s, p, EncodeAttribs(attribs), tail);
    ReadEncodedOptAttribs(s, p, attribs);
    AttribsSize(attribs);
    var q := p + |EncodeAttribs(attribs)|;
    AtSplit(s, q, EncodeU64(verf), EncodeList(es, eof));
    ReadEncodedU64(s, q, verf);
    FirstFlag(s, q + 8, es, eof);
  }
}
