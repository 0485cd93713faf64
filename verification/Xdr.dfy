/**
 XDR on flat byte strings (sections 3.2, 3.5 and 3.10 of RFC 1014): what the serializer is to write
 and what a reader of the whole message finds.
 */
module Xdr {
  import opened Outcomes
  import opened Alignment

  type Octet = b: int | 0 <= b < 256
  type U32 = w: int | 0 <= w < 0x1_0000_0000
  type U64 = w: int | 0 <= w < 0x1_0000_0000_0000_0000

  const TWO_TO_31 := 0x8000_0000
  const TWO_TO_32 := 0x1_0000_0000

  /** `e` stands in `s` at position `p`. */
  predicate At(s: seq<Octet>, p: nat, e: seq<Octet>) {
    p + |e| <= |s| && s[p..p + |e|] == e
  }

  lemma AtSplit(s: seq<Octet>, p: nat, a: seq<Octet>, b: seq<Octet>)
    ensures At(s, p, a + b) <==> At(s, p, a) && At(s, p + |a|, b)
  {
    if At(s, p, a + b) {
      assert s[p..p + |a|] == s[p..p + |a| + |b|][..|a|];
      assert s[p + |a|..p + |a| + |b|] == s[p..p + |a| + |b|][|a|..];
    }
    if At(s, p, a) && At(s, p + |a|, b) {
      assert s[p..p + |a| + |b|] == s[p..p + |a|] + s[p + |a|..p + |a| + |b|];
    }
  }

  lemma AtIndex(s: seq<Octet>, p: nat, e: seq<Octet>, i: nat)
    requires At(s, p, e) && i < |e|
    ensures s[p + i] == e[i]
  {
    assert s[p..p + |e|][i] == e[i];
  }

  function Zeros(n: nat): (s: seq<Octet>)
    ensures |s| == n && forall i :: 0 <= i < n ==> s[i] == 0
  {
    seq(n, i => 0)
  }

  // Words, most significant byte first

  /** Octet `k` of a word, counted from the least significant. */
  function Digit(v: U32, k: nat): Octet
    requires k < 4
  {
    if k == 0 then v % 0x100 else if k == 1 then v / 0x100 % 0x100 else if k == 2 then v / 0x100 / 0x100 % 0x100
      else v / 0x100 / 0x100 / 0x100
  }

  function Word(a: Octet, b: Octet, c: Octet, d: Octet): U32 {
    0x100_0000 * a + 0x1_0000 * b + 0x100 * c + d
  }

  lemma WordOfDigits(v: U32)
    ensures Word(Digit(v, 3), Digit(v, 2), Digit(v, 1), Digit(v, 0)) == v
  {
    var q := v / 0x100;
    assert v == 0x100 * q + v % 0x100;
    assert q == 0x100 * (q / 0x100) + q % 0x100;
  }

  lemma DigitsOfWord(a: Octet, b: Octet, c: Octet, d: Octet)
    ensures var v := Word(a, b, c, d);
            Digit(v, 3) == a && Digit(v, 2) == b && Digit(v, 1) == c && Digit(v, 0) == d
  {
    var v := Word(a, b, c, d);
    assert v / 0x100 == 0x1_0000 * a + 0x100 * b + c;
    assert v / 0x100 / 0x100 == 0x100 * a + b;
  }

  function EncodeU32(v: U32): (s: seq<Octet>)
    ensures |s| == 4
  {
    [Digit(v, 3), Digit(v, 2), Digit(v, 1), Digit(v, 0)]
  }

  function U32At(s: seq<Octet>, p: nat): U32
    requires p + 4 <= |s|
  {
    Word(s[p], s[p + 1], s[p + 2], s[p + 3])
  }

  lemma DecodeEncodedU32(s: seq<Octet>, p: nat, v: U32)
    requires At(s, p, EncodeU32(v))
    ensures p + 4 <= |s| && U32At(s, p) == v
  {
    hide Digit, Word, At;
    WordOfDigits(v);
    AtBounds(s, p, EncodeU32(v));
    AtIndex(s, p, EncodeU32(v), 0);
    AtIndex(s, p, EncodeU32(v), 1);
    AtIndex(s, p, EncodeU32(v), 2);
    AtIndex(s, p, EncodeU32(v), 3);
  }

  lemma AtBounds(s: seq<Octet>, p: nat, e: seq<Octet>)
    requires At(s, p, e)
    ensures p + |e| <= |s| && s[p..p + |e|] == e
  {}

  function EncodeU64(v: U64): (s: seq<Octet>)
    ensures |s| == 8
  {
    EncodeU32(v / TWO_TO_32) + EncodeU32(v % TWO_TO_32)
  }

  function U64At(s: seq<Octet>, p: nat): U64
    requires p + 8 <= |s|
  {
    U32At(s, p) * TWO_TO_32 + U32At(s, p + 4)
  }

  lemma DecodeEncodedU64(s: seq<Octet>, p: nat, v: U64)
    requires At(s, p, EncodeU64(v))
    ensures p + 8 <= |s| && U64At(s, p) == v
  {
    hide EncodeU32, U32At, At;
    AtBounds(s, p, EncodeU64(v));
    AtSplit(s, p, EncodeU32(v / TWO_TO_32), EncodeU32(v % TWO_TO_32));
    DecodeEncodedU32(s, p, v / TWO_TO_32);
    DecodeEncodedU32(s, p + 4, v % TWO_TO_32);
  }

  // Octet order of the host

  /** A word as the host keeps it in memory. */
  function HostBytes(little: bool, v: U32): (s: seq<Octet>)
    ensures |s| == 4
  {
    if little then [Digit(v, 0), Digit(v, 1), Digit(v, 2), Digit(v, 3)] else EncodeU32(v)
  }

  function HostWord(little: bool, s: seq<Octet>): U32
    requires |s| == 4
  {
    if little then Word(s[3], s[2], s[1], s[0]) else Word(s[0], s[1], s[2], s[3])
  }

  /** The HTONL macro: swaps the bytes on a little-endian host, nothing on a big-endian one. */
  function Htonl(little: bool, v: U32): U32 {
    if little then Word(Digit(v, 0), Digit(v, 1), Digit(v, 2), Digit(v, 3)) else v
  }

  /** Either way, storing HTONL of a word writes its most significant byte first, and loading inverts it. */
  lemma HtonlIsNetworkOrder(little: bool, v: U32, s: seq<Octet>)
    requires |s| == 4
    ensures HostBytes(little, Htonl(little, v)) == EncodeU32(v)
    ensures Htonl(little, HostWord(little, s)) == U32At(s, 0)
    ensures HostWord(little, HostBytes(little, v)) == v
  {
    hide Digit, Word;
    WordOfDigits(v);
    DigitsOfWord(Digit(v, 0), Digit(v, 1), Digit(v, 2), Digit(v, 3));
    DigitsOfWord(s[3], s[2], s[1], s[0]);
  }

  // Strings and arrays

  /** Opaque data without its length word: padded with zeros to a word boundary. */
  function Padded(s: seq<Octet>): (r: seq<Octet>)
    ensures |r| == Align4(|s|)
  {
    s + Zeros(Align4(|s|) - |s|)
  }

  function EncodeString(s: seq<Octet>): (r: seq<Octet>)
    requires |s| < TWO_TO_32
    ensures |r| == 4 + Align4(|s|)
  {
    EncodeU32(|s|) + Padded(s)
  }

  function EncodeWords(ws: seq<U32>): (r: seq<Octet>)
    ensures |r| == 4 * |ws|
  {
    if ws == [] then [] else EncodeWords(ws[..|ws| - 1]) + EncodeU32(ws[|ws| - 1])
  }

  // Items

  /** What the push operations append. */
  datatype Item =
    | Unsigned(v: U32)
    | Hyper(w: U64)
    | Opaque(s: seq<Octet>)
    | Array(ws: seq<U32>)
    | NullAuth
    | UnixAuth(stamp: U32, machine: seq<Octet>, uid: U32, gid: U32, gids: seq<U32>)

  predicate ItemOk(item: Item) {
    match item
    case Opaque(s) => |s| < TWO_TO_32
    case Array(ws) => |ws| < TWO_TO_32
    case UnixAuth(_, machine, _, _, gids) => AuthSize(|machine|, |gids|) < TWO_TO_32
    case _ => true
  }

  /** ComputeAuthSize, without wrap-around. */
  function AuthSize(nameLength: nat, groups: nat): (size: nat)
    ensures Whole(size)
  {
    hide Whole, Align4;
    WholeTimes(5 + groups);
    WholeSum(Align4(nameLength), 4 * (5 + groups));
    4 + 4 + Align4(nameLength) + 4 + 4 + 4 + groups * 4
  }

  const AUTH_UNIX: U32 := 1

  /** The body of an AUTH_UNIX credential (section 9.2 of RFC 1057). */
  function EncodeAuthBody(item: Item): (r: seq<Octet>)
    requires item.UnixAuth? && ItemOk(item)
    ensures |r| == AuthSize(|item.machine|, |item.gids|)
  {
    EncodeU32(item.stamp) + EncodeString(item.machine) + EncodeU32(item.uid) + EncodeU32(item.gid)
    + EncodeU32(|item.gids|) + EncodeWords(item.gids)
  }

  function EncodedSize(item: Item): (size: nat)
    ensures Whole(size)
  {
    hide Whole, Align4, AuthSize;
    WholeTimes(1);
    WholeTimes(2);
    WholeTimes(4);
    match item
    case Unsigned(_) => 4
    case Hyper(_) => 8
    case Opaque(s) =>
      WholeSum(4, Align4(|s|));
      4 + Align4(|s|)
    case Array(ws) =>
      WholeTimes(1 + |ws|);
      4 + 4 * |ws|
    case NullAuth => 16
    case UnixAuth(_, machine, _, _, gids) =>
      WholeSum(16, AuthSize(|machine|, |gids|));
      16 + AuthSize(|machine|, |gids|)
  }

  function Encode(item: Item): (r: seq<Octet>)
    requires ItemOk(item)
    ensures |r| == EncodedSize(item) && Whole(|r|)
  {
    hide EncodeU32, EncodeU64, EncodeString, EncodeWords, EncodeAuthBody, Zeros, AuthSize;
    match item
    case Unsigned(v) => EncodeU32(v)
    case Hyper(w) => EncodeU64(w)
    case Opaque(s) => EncodeString(s)
    case Array(ws) => EncodeU32(|ws|) + EncodeWords(ws)
    case NullAuth => Zeros(16)
    case UnixAuth(_, machine, _, _, gids) =>
      EncodeU32(AUTH_UNIX) + EncodeU32(AuthSize(|machine|, |gids|)) + EncodeAuthBody(item) + EncodeU32(0) + EncodeU32(0)
  }

  predicate ItemsOk(items: seq<Item>) {
    forall i :: 0 <= i < |items| ==> ItemOk(items[i])
  }

  function EncodeAll(items: seq<Item>): (r: seq<Octet>)
    requires ItemsOk(items)
    ensures Whole(|r|)
  {
    hide Encode, ItemOk;
    if items == [] then []
    else
      var init := items[..|items| - 1];
      var last := items[|items| - 1];
      assert ItemOk(last);
      var head := EncodeAll(init);
      WholeSum(|head|, |Encode(last)|);
      head + Encode(last)
  }

  // Reading flat messages

  /** A value read and the position after it. */
  datatype Read<T> = Read(value: T, next: nat)

  function ReadU32(s: seq<Octet>, p: nat): Option<Read<U32>> {
    if p + 4 <= |s| then Some(Read(U32At(s, p), p + 4)) else None
  }

  function ReadU64(s: seq<Octet>, p: nat): Option<Read<U64>> {
    if p + 8 <= |s| then Some(Read(U64At(s, p), p + 8)) else None
  }

  /** A length word, that many bytes, and the padding. */
  function ReadString(s: seq<Octet>, p: nat): Option<Read<seq<Octet>>> {
    if p + 4 > |s| then None
    else
      var n := U32At(s, p);
      if p + 4 + Align4(n) > |s| then None else Some(Read(s[p + 4..p + 4 + n], p + 4 + Align4(n)))
  }

  /** The item of the same shape as `like` at position `p`; only words, double words and strings are read. */
  function ReadItem(s: seq<Octet>, p: nat, like: Item): Option<Read<Item>> {
    match like
    case Unsigned(_) => (match ReadU32(s, p) case None => None case Some(r) => Some(Read(Unsigned(r.value), r.next)))
    case Hyper(_) => (match ReadU64(s, p) case None => None case Some(r) => Some(Read(Hyper(r.value), r.next)))
    case Opaque(_) => (match ReadString(s, p) case None => None case Some(r) => Some(Read(Opaque(r.value), r.next)))
    case _ => None
  }

  function ReadItems(s: seq<Octet>, p: nat, likes: seq<Item>): Option<Read<seq<Item>>>
    decreases |likes|
  {
    if likes == [] then Some(Read([], p))
    else
      match ReadItem(s, p, likes[0])
      case None => None
      case Some(first) =>
        match ReadItems(s, first.next, likes[1..])
        case None => None
        case Some(rest) => Some(Read([first.value] + rest.value, rest.next))
  }

  lemma ReadEncodedString(s: seq<Octet>, p: nat, t: seq<Octet>)
    requires |t| < TWO_TO_32 && At(s, p, EncodeString(t))
    ensures ReadString(s, p) == Some(Read(t, p + |EncodeString(t)|))
  {
    hide EncodeU32, U32At, Zeros, At;
    AtBounds(s, p, EncodeString(t));
    AtSplit(s, p, EncodeU32(|t|), Padded(t));
    AtSplit(s, p + 4, t, Zeros(Align4(|t|) - |t|));
    AtBounds(s, p + 4, t);
    DecodeEncodedU32(s, p, |t|);
  }

  predicate Plain(item: Item) {
    item.Unsigned? || item.Hyper? || item.Opaque?
  }

  lemma ReadEncodedItem(s: seq<Octet>, p: nat, item: Item)
    requires ItemOk(item) && Plain(item)
    requires At(s, p, Encode(item))
    ensures ReadItem(s, p, item) == Some(Read(item, p + |Encode(item)|))
  {
    hide EncodeU32, EncodeU64, U32At, U64At, EncodeString, ReadString, At;
    match item {
      case Unsigned(v) => DecodeEncodedU32(s, p, v);
      case Hyper(w) => DecodeEncodedU64(s, p, w);
      case Opaque(t) => ReadEncodedString(s, p, t);
    }
  }

  lemma {:induction false} EncodeAllCons(items: seq<Item>)
    requires ItemsOk(items) && items != []
    ensures ItemOk(items[0]) && ItemsOk(items[1..])
    ensures EncodeAll(items) == Encode(items[0]) + EncodeAll(items[1..])
    decreases |items|
  {
    hide Encode, ItemOk;
    var n := |items| - 1;
    if n == 0 {
      assert items[..0] == [] && items[1..] == [];
    } else {
      var init, rest := items[..n], items[1..];
      EncodeAllCons(init);
      assert init[1..] == rest[..n - 1] && init[0] == items[0] && rest[n - 1] == items[n];
      Associate(Encode(items[0]), EncodeAll(init[1..]), Encode(items[n]));
    }
  }

  lemma EncodeNone()
    ensures EncodeAll([]) == []
  {}

  lemma Associate(a: seq<Octet>, b: seq<Octet>, c: seq<Octet>)
    ensures (a + b) + c == a + (b + c)
  {}

  /** XDR round trip: any list of words, double words and strings is read back, up to its end. */
  lemma {:induction false} ItemsRoundTrip(s: seq<Octet>, p: nat, items: seq<Item>)
    requires ItemsOk(items) && forall i :: 0 <= i < |items| ==> Plain(items[i])
    requires At(s, p, EncodeAll(items))
    ensures ReadItems(s, p, items) == Some(Read(items, p + |EncodeAll(items)|))
    decreases |items|
  {
    hide Encode, EncodeAll, ItemOk, ReadItem, At;
    EncodeNone();
    if items != [] {
      EncodeAllCons(items);
      AtSplit(s, p, Encode(items[0]), EncodeAll(items[1..]));
      ReadEncodedItem(s, p, items[0]);
      ItemsRoundTrip(s, p + |Encode(items[0])|, items[1..]);
      assert [items[0]] + items[1..] == items;
    }
  }

  // Authentication

  /** SkipAuth on a flat message: flavor, length, and the body up to the next word boundary. */
  function SkipAuth(s: seq<Octet>, p: nat): Option<nat> {
    if p + 8 > |s| then None
    else
      var next := p + 8 + Align4(U32At(s, p + 4));
      if next > |s| then None else Some(next)
  }

  /** Skipping a credential and its verifier leads exactly past what PushUnixAuth emits. */
  lemma SkipAuthTwice(s: seq<Octet>, p: nat, auth: Item)
    requires auth.UnixAuth? && ItemOk(auth)
    requires At(s, p, Encode(auth))
    ensures SkipAuth(s, p) == Some(p + 8 + AuthSize(|auth.machine|, |auth.gids|))
    ensures SkipAuth(s, SkipAuth(s, p).value) == Some(p + |Encode(auth)|)
  {
    hide EncodeU32, EncodeAuthBody, U32At, At, AuthSize;
    var size := AuthSize(|auth.machine|, |auth.gids|);
    var flavor, length, body, zero := EncodeU32(AUTH_UNIX), EncodeU32(size), EncodeAuthBody(auth), EncodeU32(0);
    AtBounds(s, p, Encode(auth));
    AtSplit(s, p, flavor + length + body + zero, zero);
    AtSplit(s, p, flavor + length + body, zero);
    AtSplit(s, p, flavor + length, body);
    AtSplit(s, p, flavor, length);
    DecodeEncodedU32(s, p + 4, size);
    DecodeEncodedU32(s, p + 8 + size + 4, 0);
  }

  lemma ZeroWord(s: seq<Octet>, p: nat)
    requires p + 4 <= |s| && s[p] == 0 && s[p + 1] == 0 && s[p + 2] == 0 && s[p + 3] == 0
    ensures U32At(s, p) == 0
  {}

  lemma SkipNullAuthTwice(s: seq<Octet>, p: nat)
    requires At(s, p, Encode(NullAuth))
    ensures SkipAuth(s, p) == Some(p + 8) && SkipAuth(s, p + 8) == Some(p + 16)
  {
    hide Digit, At, Encode, Zeros, U32At;
    NullAuthIsZeros();
    AtBounds(s, p, Zeros(16));
    ZeroWordAt(s, p, 4);
    ZeroWordAt(s, p, 12);
  }

  lemma NullAuthIsZeros()
    ensures ItemOk(NullAuth) && Encode(NullAuth) == Zeros(16)
  {}

  lemma ZeroWordAt(s: seq<Octet>, p: nat, i: nat)
    requires At(s, p, Zeros(16)) && i + 4 <= 16
    ensures p + i + 4 <= |s| && U32At(s, p + i) == 0
  {
    hide At;
    AtBounds(s, p, Zeros(16));
    AtIndex(s, p, Zeros(16), i);
    AtIndex(s, p, Zeros(16), i + 1);
    AtIndex(s, p, Zeros(16), i + 2);
    AtIndex(s, p, Zeros(16), i + 3);
    ZeroWord(s, p + i);
  }

  // Where things stand

  lemma SplitU32(s: seq<Octet>, p: nat, v: U32, rest: seq<Octet>)
    requires At(s, p, EncodeU32(v) + rest)
    ensures p + 4 <= |s| && U32At(s, p) == v && At(s, p + 4, rest)
  {
    hide EncodeU32, U32At, At;
    AtSplit(s, p, EncodeU32(v), rest);
    DecodeEncodedU32(s, p, v);
  }

  lemma SplitU64(s: seq<Octet>, p: nat, v: U64, rest: seq<Octet>)
    requires At(s, p, EncodeU64(v) + rest)
    ensures p + 8 <= |s| && U64At(s, p) == v && At(s, p + 8, rest)
  {
    hide EncodeU64, U64At, At;
    AtSplit(s, p, EncodeU64(v), rest);
    DecodeEncodedU64(s, p, v);
  }

  lemma At0(s: seq<Octet>)
    ensures At(s, 0, s)
  {
    assert s[0..|s|] == s;
  }

  // Layouts in numbers

  /** Every octet of a word and of a double word, most significant first. */
  lemma NetworkOrder(v: U32, w: U64, s: seq<Octet>, p: nat)
    requires p + 8 <= |s|
    ensures EncodeU32(v) == [v / 0x100_0000, v / 0x1_0000 % 0x100, v / 0x100 % 0x100, v % 0x100]
    ensures EncodeU64(w) == EncodeU32(w / 0x1_0000_0000) + EncodeU32(w % 0x1_0000_0000)
    ensures var a: int, b: int, c: int, d: int := s[p], s[p + 1], s[p + 2], s[p + 3];
            U32At(s, p) == 0x100_0000 * a + 0x1_0000 * b + 0x100 * c + d
    ensures U64At(s, p) == 0x1_0000_0000 * U32At(s, p) + U32At(s, p + 4)
  {
    hide U32At, EncodeU32;
    WordLayout(s, p);
    assert EncodeU32(v) == [v / 0x100_0000, v / 0x1_0000 % 0x100, v / 0x100 % 0x100, v % 0x100] by {
      OctetLayout(v);
    }
  }

  lemma OctetLayout(v: U32)
    ensures EncodeU32(v) == [v / 0x100_0000, v / 0x1_0000 % 0x100, v / 0x100 % 0x100, v % 0x100]
  {
    assert v / 0x100 / 0x100 == v / 0x1_0000;
    assert v / 0x1_0000 / 0x100 == v / 0x100_0000;
  }

  lemma WordLayout(s: seq<Octet>, p: nat)
    requires p + 4 <= |s|
    ensures var a: int, b: int, c: int, d: int := s[p], s[p + 1], s[p + 2], s[p + 3];
            U32At(s, p) == 0x100_0000 * a + 0x1_0000 * b + 0x100 * c + d
  {}

  /** A string: its length, its bytes, and zeros to the next multiple of four. */
  lemma StringLayout(s: seq<Octet>, p: nat, t: seq<Octet>)
    requires |t| < 0x1_0000_0000 && At(s, p, EncodeString(t))
    ensures |EncodeString(t)| % 4 == 0 && 4 + |t| <= |EncodeString(t)| < 8 + |t| && p + |EncodeString(t)| <= |s|
    ensures U32At(s, p) == |t| && s[p + 4..p + 4 + |t|] == t
    ensures forall i :: p + 4 + |t| <= i < p + |EncodeString(t)| ==> s[i] == 0
  {
    hide EncodeU32, U32At, At, Align4;
    var e := EncodeString(t);
    AtBounds(s, p, e);
    SplitU32(s, p, |t|, Padded(t));
    AtSplit(s, p + 4, t, Zeros(Align4(|t|) - |t|));
    AtBounds(s, p + 4, t);
    forall i | p + 4 + |t| <= i < p + |e|
      ensures s[i] == 0
    {
      AtIndex(s, p, e, i - p);
    }
  }

  /** Words in their order. */
  lemma {:induction false} WordsLayout(s: seq<Octet>, p: nat, ws: seq<U32>, k: nat)
    requires At(s, p, EncodeWords(ws)) && k < |ws|
    ensures p + 4 * |ws| <= |s| && U32At(s, p + 4 * k) == ws[k]
    decreases |ws|
  {
    hide EncodeU32, U32At, At;
    var n := |ws| - 1;
    AtBounds(s, p, EncodeWords(ws));
    AtSplit(s, p, EncodeWords(ws[..n]), EncodeU32(ws[n]));
    if k < n {
      WordsLayout(s, p, ws[..n], k);
    } else {
      DecodeEncodedU32(s, p + 4 * n, ws[n]);
    }
  }

  /** An array: its length, and its words in their order. */
  lemma ArrayLayout(s: seq<Octet>, p: nat, ws: seq<U32>, k: nat)
    requires |ws| < 0x1_0000_0000 && At(s, p, Encode(Array(ws))) && k < |ws|
    ensures p + 4 + 4 * |ws| <= |s| && U32At(s, p) == |ws| && U32At(s, p + 4 + 4 * k) == ws[k]
  {
    hide EncodeU32, U32At, At, EncodeWords;
    SplitU32(s, p, |ws|, EncodeWords(ws));
    WordsLayout(s, p + 4, ws, k);
  }

  /**
   A credential and its verifier: flavor 1 and the length of the body; in it stamp, machine name, user, group,
   and the groups with their count; then two zero words.
   */
  lemma CredentialLayout(s: seq<Octet>, p: nat, stamp: U32, machine: seq<Octet>, uid: U32, gid: U32, gids: seq<U32>)
    requires var auth := UnixAuth(stamp, machine, uid, gid, gids); ItemOk(auth) && At(s, p, Encode(auth))
    requires |machine| < 0x1_0000_0000 && |gids| < 0x1_0000_0000
    ensures var q := p + 12 + |EncodeString(machine)|; var end := q + 12 + 4 * |gids|;
            && end + 8 <= |s| && end + 8 == p + |Encode(UnixAuth(stamp, machine, uid, gid, gids))|
            && U32At(s, p) == 1 && U32At(s, p + 4) == end - (p + 8)
            && U32At(s, p + 8) == stamp && At(s, p + 12, EncodeString(machine))
            && U32At(s, q) == uid && U32At(s, q + 4) == gid && U32At(s, q + 8) == |gids|
            && At(s, q + 12, EncodeWords(gids))
            && U32At(s, end) == 0 && U32At(s, end + 4) == 0
  {
    hide EncodeU32, U32At, At, EncodeWords, EncodeString, Align4;
    var auth := UnixAuth(stamp, machine, uid, gid, gids);
    var size := AuthSize(|machine|, |gids|);
    var q := p + 12 + |EncodeString(machine)|;
    var end := q + 12 + 4 * |gids|;
    var tail := EncodeU32(0) + EncodeU32(0);
    CredentialParts(stamp, machine, uid, gid, gids);
    AtBounds(s, p, Encode(auth));
    SplitU32(s, p, 1, EncodeU32(size) + (EncodeAuthBody(auth) + tail));
    SplitU32(s, p + 4, size, EncodeAuthBody(auth) + tail);
    AtSplit(s, p + 8, EncodeAuthBody(auth), tail);
    SplitU32(s, end, 0, EncodeU32(0));
    DecodeEncodedU32(s, end + 4, 0);
    var last := EncodeU32(|gids|) + EncodeWords(gids);
    SplitU32(s, p + 8, stamp, EncodeString(machine) + (EncodeU32(uid) + (EncodeU32(gid) + last)));
    AtSplit(s, p + 12, EncodeString(machine), EncodeU32(uid) + (EncodeU32(gid) + last));
    SplitU32(s, q, uid, EncodeU32(gid) + last);
    SplitU32(s, q + 4, gid, last);
    SplitU32(s, q + 8, |gids|, EncodeWords(gids));
  }

  lemma CredentialParts(stamp: U32, machine: seq<Octet>, uid: U32, gid: U32, gids: seq<U32>)
    requires var auth := UnixAuth(stamp, machine, uid, gid, gids); ItemOk(auth)
    requires |machine| < 0x1_0000_0000 && |gids| < 0x1_0000_0000
    ensures var auth := UnixAuth(stamp, machine, uid, gid, gids);
            && Encode(auth) == EncodeU32(1) + (EncodeU32(AuthSize(|machine|, |gids|))
               + (EncodeAuthBody(auth) + (EncodeU32(0) + EncodeU32(0))))
            && EncodeAuthBody(auth) == EncodeU32(stamp) + (EncodeString(machine) + (EncodeU32(uid) + (EncodeU32(gid)
               + (EncodeU32(|gids|) + EncodeWords(gids)))))
            && AuthSize(|machine|, |gids|) == 16 + |EncodeString(machine)| + 4 * |gids|
  {
    hide EncodeU32, EncodeWords, EncodeString, Align4, AuthSize;
    var auth := UnixAuth(stamp, machine, uid, gid, gids);
    var size, zero := EncodeU32(AuthSize(|machine|, |gids|)), EncodeU32(0);
    Nested5(EncodeU32(1), size, EncodeAuthBody(auth), zero, zero);
    Nested6(EncodeU32(stamp), EncodeString(machine), EncodeU32(uid), EncodeU32(gid), EncodeU32(|gids|),
      EncodeWords(gids));
    CredentialSize(machine, gids);
  }

  lemma CredentialSize(machine: seq<Octet>, gids: seq<U32>)
    requires |machine| < 0x1_0000_0000
    ensures AuthSize(|machine|, |gids|) == 16 + |EncodeString(machine)| + 4 * |gids|
  {
    hide EncodeU32, Align4;
  }

  lemma Nested5(a: seq<Octet>, b: seq<Octet>, c: seq<Octet>, d: seq<Octet>, e: seq<Octet>)
    ensures a + b + c + d + e == a + (b + (c + (d + e)))
  {
    Associate(a + b + c, d, e);
    Associate(a + b, c, d + e);
    Associate(a, b, c + (d + e));
  }

  lemma Nested6(a: seq<Octet>, b: seq<Octet>, c: seq<Octet>, d: seq<Octet>, e: seq<Octet>, f: seq<Octet>)
    ensures a + b + c + d + e + f == a + (b + (c + (d + (e + f))))
  {
    Associate(a + b + c + d, e, f);
    Nested5(a, b, c, d, e + f);
  }

  // Attributes and handles of RFC 1813

  /** fattr3 (section 2.6 of RFC 1813): 84 bytes. */
  datatype Fattr = Fattr(kind: U32, mode: U32, nlink: U32, uid: U32, gid: U32, size: U64, used: U64,
                         specdata1: U32, specdata2: U32, fsid: U64, fileid: U64,
                         atime: U32, atimeNano: U32, mtime: U32, mtimeNano: U32, ctime: U32, ctimeNano: U32)

  const FATTR_SIZE := 84
  const HANDLE_SIZE := 64

  /** The reads of ReadFileAttribs: word for word from position `p`. */
  function FattrAt(s: seq<Octet>, p: nat): Fattr
    requires p + FATTR_SIZE <= |s|
  {
    Fattr(U32At(s, p), U32At(s, p + 4), U32At(s, p + 8), U32At(s, p + 12), U32At(s, p + 16), U64At(s, p + 20),
      U64At(s, p + 28),
          U32At(s, p + 36), U32At(s, p + 40), U64At(s, p + 44), U64At(s, p + 52),
          U32At(s, p + 60), U32At(s, p + 64), U32At(s, p + 68), U32At(s, p + 72), U32At(s, p + 76), U32At(s, p + 80))
  }

  function EncodeFattr(a: Fattr): (r: seq<Octet>)
    ensures |r| == FATTR_SIZE
  {
    hide EncodeU32, EncodeU64;
    EncodeU32(a.kind) + EncodeU32(a.mode) + EncodeU32(a.nlink) + EncodeU32(a.uid) + EncodeU32(a.gid) +
      EncodeU64(a.size) + EncodeU64(a.used)
    + EncodeU32(a.specdata1) + EncodeU32(a.specdata2) + EncodeU64(a.fsid) + EncodeU64(a.fileid)
    + EncodeU32(a.atime) + EncodeU32(a.atimeNano) + EncodeU32(a.mtime) + EncodeU32(a.mtimeNano) +
      EncodeU32(a.ctime) + EncodeU32(a.ctimeNano)
  }

  /** A handle in the fixed 64 bytes of an fhandle3. */
  function InHandle(h: seq<Octet>): (r: seq<Octet>)
    requires |h| <= HANDLE_SIZE
    ensures |r| == HANDLE_SIZE
  {
    h + Zeros(HANDLE_SIZE - |h|)
  }

  function ReadBool(s: seq<Octet>, p: nat): Option<Read<bool>> {
    if p + 4 <= |s| then Some(Read(U32At(s, p) != 0, p + 4)) else None
  }

  function ReadAttribs(s: seq<Octet>, p: nat): Option<Read<Fattr>> {
    if p + FATTR_SIZE <= |s| then Some(Read(FattrAt(s, p), p + FATTR_SIZE)) else None
  }

  function ReadHandle(s: seq<Octet>, p: nat): Option<Read<seq<Octet>>> {
    if p + 4 > |s| || U32At(s, p) > HANDLE_SIZE then None
    else
      var n := U32At(s, p);
      if p + 4 + Align4(n) > |s| then None else Some(Read(InHandle(s[p + 4..p + 4 + n]), p + 4 + Align4(n)))
  }
}
