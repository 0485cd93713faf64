/**
 The call serializer of rpc_serializer.c and rpc_serializer.h: a record-marked RPC call (sections 8
 and 10 of RFC 1057) built in a 512-byte buffer.
 */
module RpcSerializer {
  import opened Outcomes
  import opened Alignment
  import opened Xdr

  const STORAGE := 512
  const CALL_SIZE := 28
  const PLACEHOLDER_XID: U32 := 0x1234ABCD
  const RPC_VERSION: U32 := 2

  /** ALIGN4 on a uint32_t. */
  function Align4Wrapped(n: U32): U32 {
    (n + 3) % TWO_TO_32 / 4 * 4
  }

  /** The comparison in RPCSerializer_EnsureSize, on uint32_t operands. */
  predicate SizeCheck(size: nat, sz: nat, maxSize: nat) {
    (size + sz % TWO_TO_32) % TWO_TO_32 < maxSize
  }

  /** What really has to hold for `n` more bytes: the bound is strict, and sizes are whole words. */
  predicate Fits(size: nat, n: nat) {
    size + n < STORAGE
  }

  /** The check made for a string, and whether the string fits. */
  predicate StringCheck(size: nat, length: U32) {
    SizeCheck(size, Align4Wrapped(length) + 4, STORAGE)
  }

  /**
   The check decides correctly exactly for strings that do not make it wrap around, all within 516 bytes
   of four gigabytes.
   */
  lemma StringCheckIsExact(size: nat, length: U32)
    requires size < STORAGE && Whole(size)
    ensures length <= TWO_TO_32 - 4 ==>
            (StringCheck(size, length) <==> Fits(size, 4 + Align4(length)) || size + 4 + Align4(length) >= TWO_TO_32)
    ensures length > TWO_TO_32 - 4 ==> (StringCheck(size, length) <==> Fits(size, 4)) && !Fits(size, 4 + Align4(length))
  {
    if length > TWO_TO_32 - 4 {
      assert Align4Wrapped(length) == 0;
    } else {
      assert Align4Wrapped(length) == Align4(length);
      SumWraps(size, Align4(length) + 4);
    }
  }

  /** The size check on uint32_t operands: sums below four gigabytes are compared, others come out below `size`. */
  lemma SumWraps(size: nat, n: nat)
    requires size < STORAGE && n <= TWO_TO_32
    ensures SizeCheck(size, n, STORAGE) <==> Fits(size, n) || size + n >= TWO_TO_32
  {
    if n < TWO_TO_32 {
      assert n % TWO_TO_32 == n;
      if size + n >= TWO_TO_32 {
        assert (size + n) % TWO_TO_32 == size + n - TWO_TO_32;
      }
    }
  }

  lemma SmallCheck(size: nat, sz: nat)
    requires size < STORAGE && sz <= STORAGE
    ensures SizeCheck(size, sz, STORAGE) <==> Fits(size, sz)
  {}

  /** The words of a call header before its arguments; the first is the record mark, filled in last. */
  function CallWords(xid: U32, prog: U32, vers: U32, proc: U32): seq<U32> {
    [0, xid, 0, RPC_VERSION, prog, vers, proc]
  }

  /** Behind the record mark stand xid, CALL, the RPC version, program, its version, and procedure. */
  predicate HeaderAt(s: seq<Octet>, xid: U32, prog: U32, vers: U32, proc: U32) {
    && |s| >= 28
    && U32At(s, 4) == xid && U32At(s, 8) == 0 && U32At(s, 12) == 2
    && U32At(s, 16) == prog && U32At(s, 20) == vers && U32At(s, 24) == proc
  }

  lemma HeaderLayout(s: seq<Octet>, xid: U32, prog: U32, vers: U32, proc: U32)
    requires At(s, 0, EncodeWords(CallWords(xid, prog, vers, proc)))
    ensures HeaderAt(s, xid, prog, vers, proc) && U32At(s, 0) == 0
  {
    hide At, EncodeWords, U32At;
    var ws := CallWords(xid, prog, vers, proc);
    WordsLayout(s, 0, ws, 0);
    WordsLayout(s, 0, ws, 1);
    WordsLayout(s, 0, ws, 2);
    WordsLayout(s, 0, ws, 3);
    WordsLayout(s, 0, ws, 4);
    WordsLayout(s, 0, ws, 5);
    WordsLayout(s, 0, ws, 6);
  }

  /** A message is the record mark with the count of what follows it, the header, and from byte 28 the arguments. */
  lemma MessageLayout(xid: U32, prog: U32, vers: U32, proc: U32, items: seq<Item>)
    requires ItemsOk(items) && Fits(CALL_SIZE - 4, |EncodeAll(items)|)
    ensures var s := Message(xid, prog, vers, proc, items);
            && |s| == 28 + |EncodeAll(items)| <= 512
            && HeaderAt(s, xid, prog, vers, proc) && U32At(s, 0) == 0x8000_0000 + (|s| - 4)
            && At(s, 28, EncodeAll(items))
  {
    hide EncodeU32, EncodeWords, U32At, At, EncodeAll, ItemsOk, HeaderAt;
    var s, all := Message(xid, prog, vers, proc, items), EncodeAll(items);
    var ws := CallWords(xid, prog, vers, proc);
    var mark, header := EncodeU32(TWO_TO_31 + (CALL_SIZE - 4 + |all|)), EncodeWords(ws[1..]);
    At0(s);
    AtSplit(s, 0, mark + header, all);
    AtSplit(s, 0, mark, header);
    DecodeEncodedU32(s, 0, TWO_TO_31 + (CALL_SIZE - 4 + |all|));
    HeaderWords(s, xid, prog, vers, proc);
    WholeMessage(|all|);
  }

  lemma WholeMessage(n: nat)
    requires Whole(n) && n < 488
    ensures 28 + n <= 512
  {}

  lemma HeaderWords(s: seq<Octet>, xid: U32, prog: U32, vers: U32, proc: U32)
    requires At(s, 4, EncodeWords(CallWords(xid, prog, vers, proc)[1..]))
    ensures HeaderAt(s, xid, prog, vers, proc)
  {
    hide At, EncodeWords, U32At;
    var ws := CallWords(xid, prog, vers, proc)[1..];
    WordsLayout(s, 4, ws, 0);
    WordsLayout(s, 4, ws, 1);
    WordsLayout(s, 4, ws, 2);
    WordsLayout(s, 4, ws, 3);
    WordsLayout(s, 4, ws, 4);
    WordsLayout(s, 4, ws, 5);
  }

  /** Words as the host keeps them. */
  function HostWords(little: bool, ws: seq<U32>): (r: seq<Octet>)
    ensures |r| == 4 * |ws|
  {
    if ws == [] then [] else HostWords(little, ws[..|ws| - 1]) + HostBytes(little, ws[|ws| - 1])
  }

  lemma {:induction false} HostWordAt(little: bool, ws: seq<U32>, k: nat)
    requires k < |ws|
    ensures HostWords(little, ws)[4 * k..4 * k + 4] == HostBytes(little, ws[k])
    decreases |ws|
  {
    hide HostBytes;
    var n := |ws| - 1;
    var init, last := HostWords(little, ws[..n]), HostBytes(little, ws[n]);
    if k < n {
      HostWordAt(little, ws[..n], k);
      InFirst(init, last, 4 * k, 4 * k + 4);
    } else {
      InSecond(init, last);
    }
  }

  lemma InFirst(a: seq<Octet>, b: seq<Octet>, i: nat, j: nat)
    requires i <= j <= |a|
    ensures (a + b)[i..j] == a[i..j]
  {}

  lemma InSecond(a: seq<Octet>, b: seq<Octet>)
    ensures (a + b)[|a|..|a| + |b|] == b
  {}

  lemma StoredInNetworkOrder(little: bool, v: U32)
    ensures HostBytes(little, Htonl(little, v)) == EncodeU32(v)
  {
    hide HostBytes, Htonl, EncodeU32, HostWord, U32At;
    HtonlIsNetworkOrder(little, v, Zeros(4));
  }

  /** Overwriting `s` at `p` in a buffer leaves what is before and after. */
  lemma Patched(was: seq<Octet>, now: seq<Octet>, p: nat, s: seq<Octet>)
    requires p + |s| <= |was| && now == was[..p] + s + was[p + |s|..]
    ensures |now| == |was| && now[..p + |s|] == was[..p] + s && now[p + |s|..] == was[p + |s|..]
    ensures forall i :: p + |s| <= i < |was| ==> now[i] == was[i]
  {}

  lemma SliceOfSlice(s: seq<Octet>, i: nat, j: nat, k: nat)
    requires i + k <= j <= |s|
    ensures s[i..j][k..] == s[i + k..j]
  {}

  lemma SliceOfTail(s: seq<Octet>, i: nat, k: nat, n: nat)
    requires i + k + n <= |s|
    ensures s[i..][k..] == s[i + k..] && s[i..][k..k + n] == s[i + k..i + k + n]
  {}

  lemma PrefixSplits(s: seq<Octet>, i: nat, j: nat)
    requires i <= j <= |s|
    ensures s[..j] == s[..i] + s[i..j]
  {}

  lemma ZeroSlice(s: seq<Octet>, i: nat, j: nat)
    requires i <= j <= |s| && forall k :: i <= k < |s| ==> s[k] == 0
    ensures s[i..j] == Zeros(j - i)
  {}

  /** A string copied over zeros is padded with zeros. */
  lemma PaddedInPlace(was: seq<Octet>, now: seq<Octet>, p: nat, s: seq<Octet>)
    requires p + Align4(|s|) <= |was| && now == was[..p] + s + was[p + |s|..]
    requires forall i :: p <= i < |was| ==> was[i] == 0
    ensures now[..p + Align4(|s|)] == was[..p] + Padded(s)
    ensures forall i :: p + |s| <= i < |was| ==> now[i] == 0
  {
    hide Align4, Zeros, Whole;
    Patched(was, now, p, s);
    ZeroSlice(now, p + |s|, p + Align4(|s|));
    PrefixSplits(now, p + |s|, p + Align4(|s|));
    Assoc(was[..p], s, Zeros(Align4(|s|) - |s|));
  }

  lemma Assoc(a: seq<Octet>, b: seq<Octet>, c: seq<Octet>)
    ensures (a + b) + c == a + (b + c)
  {}

  class RPCSerializer {
    const InlineStorage: array<Octet>
    const little: bool
    var WritePtr: Option<nat>
    var Size: nat
    var MaxSize: nat

    /** `RPCSerializer s = {0}` */
    constructor Zeroed(little: bool)
      ensures fresh(InlineStorage) && InlineStorage.Length == 512 && this.little == little
      ensures WritePtr == None && Size == 0 && MaxSize == 0
      ensures forall i :: 0 <= i < 512 ==> InlineStorage[i] == 0
    {
      InlineStorage := new Octet[STORAGE](i => 0);
      this.little := little;
      WritePtr, Size, MaxSize := None, 0, 0;
    }

    /** What every push keeps: the write offset is Size + 4, inside the buffer, and the rest is still zero. */
    ghost predicate Framed()
      reads this, InlineStorage
    {
      && InlineStorage.Length == STORAGE && MaxSize == STORAGE
      && CALL_SIZE - 4 <= Size < STORAGE && Whole(Size)
      && WritePtr == Some(Size + 4)
      && forall i :: Size + 4 <= i < STORAGE ==> InlineStorage[i] == 0
    }

    lemma FramedFacts()
      requires Framed()
      ensures InlineStorage.Length == STORAGE == MaxSize && Size < STORAGE && Whole(Size) && WritePtr == Some(Size + 4)
    {}

    /** The bytes written so far. */
    ghost function Contents(): (s: seq<Octet>)
      requires Framed()
      reads this, InlineStorage
      ensures |s| == Size + 4 <= STORAGE
    {
      InlineStorage[..Size + 4]
    }

    method EnsureSize(sz: nat) returns (r: Outcome<()>)
      ensures r == if SizeCheck(Size, sz, MaxSize) then Done(()) else Stopped(AssertFailed)
    {
      if SizeCheck(Size, sz, MaxSize) {
        r := Done(());
      } else {
        r := Stopped(AssertFailed);
      }
    }

    /** `*(uint32_t*)(buffer + p) = w` */
    method StoreHostWord(p: nat, w: U32)
      requires p + 4 <= InlineStorage.Length
      modifies InlineStorage
      ensures InlineStorage[..] == old(InlineStorage[..p]) + HostBytes(little, w) + old(InlineStorage[p + 4..])
    {
      hide HostBytes;
      var s := HostBytes(little, w);
      InlineStorage[p] := s[0];
      InlineStorage[p + 1] := s[1];
      InlineStorage[p + 2] := s[2];
      InlineStorage[p + 3] := s[3];
    }

    /** Bytes appended at the write pointer. */
    ghost predicate Appended(was: seq<Octet>, s: seq<Octet>)
      reads this, InlineStorage
    {
      Framed() && Contents() == was + s
    }

    method PushU32(value: U32) returns (r: Outcome<()>)
      requires Framed()
      modifies this, InlineStorage
      ensures r == if Fits(old(Size), 4) then Done(()) else Stopped(AssertFailed)
      ensures r.Done? ==> Appended(old(Contents()), EncodeU32(value))
      ensures r.Stopped? ==> unchanged(this) && unchanged(InlineStorage)
    {
      hide HostBytes, Htonl, EncodeU32, SizeCheck;
      SmallCheck(Size, 4);
      r := EnsureSize(4);
      if r.Stopped? {
        return;
      }
      ghost var was := InlineStorage[..];
      var p := WritePtr.value;
      StoreHostWord(p, Htonl(little, value));
      StoredInNetworkOrder(little, value);
      WritePtr := Some(p + 4);
      Size := Size + 4;
      Patched(was, InlineStorage[..], p, EncodeU32(value));
      assert forall i :: p + 4 <= i < STORAGE ==> InlineStorage[i] == InlineStorage[..][i];
    }

    method PushNullAuth() returns (r: Outcome<()>)
      requires Framed()
      modifies this, InlineStorage
      ensures r == if Fits(old(Size), 16) then Done(()) else Stopped(AssertFailed)
      ensures r.Done? ==> Appended(old(Contents()), Encode(NullAuth))
    {
      hide SizeCheck;
      SmallCheck(Size, 16);
      r := EnsureSize(16);
      if r.Stopped? {
        return;
      }
      ghost var was := InlineStorage[..];
      var p := WritePtr.value;
      forall i | p <= i < p + 16 {
        InlineStorage[i] := 0;
      }
      Size := Size + 16;
      WritePtr := Some(p + 16);
      assert InlineStorage[..p + 16] == was[..p] + Zeros(16);
    }

    method PushU64(value: U64) returns (r: Outcome<()>)
      requires Framed()
      modifies this, InlineStorage
      ensures r == if Fits(old(Size), 8) then Done(()) else Stopped(AssertFailed)
      ensures r.Done? ==> Appended(old(Contents()), EncodeU64(value))
    {
      hide EncodeU32, SizeCheck;
      SmallCheck(Size, 8);
      r := EnsureSize(8);
      if r.Stopped? {
        return;
      }
      ghost var was := Contents();
      r := PushU32(value / TWO_TO_32);
      r := PushU32(value % TWO_TO_32);
      assert Contents() == was + EncodeU64(value);
    }

    /** The copying loop of PushString. */
    method CopyBytes(p: nat, str: seq<Octet>)
      requires p + |str| <= InlineStorage.Length
      modifies InlineStorage
      ensures InlineStorage[..] == old(InlineStorage[..p]) + str + old(InlineStorage[p + |str|..])
    {
      var i := 0;
      while i < |str|
        invariant i <= |str|
        invariant forall k :: 0 <= k < InlineStorage.Length ==>
                    InlineStorage[k] == if p <= k < p + i then str[k - p] else old(InlineStorage[k])
      {
        InlineStorage[p + i] := str[i];
        i := i + 1;
      }
    }

    method PushString(str: seq<Octet>) returns (r: Outcome<()>)
      requires Framed() && |str| < TWO_TO_32
      modifies this, InlineStorage
      ensures r == if Fits(old(Size), 4 + Align4(|str|)) then Done(())
                   else if StringCheck(old(Size), |str|) && Fits(old(Size), 4) then Stopped(OutOfBounds)
                   else Stopped(AssertFailed)
      ensures r.Done? ==> Appended(old(Contents()), EncodeString(str))
    {
      hide EncodeU32, StringCheck, Align4, Align4Wrapped, SizeCheck;
      ghost var size := Size;
      var length: U32 := |str|;
      var nBytes: nat := Align4Wrapped(length);
      StringCheckIsExact(size, length);
      assert StringCheck(size, length) <==> SizeCheck(size, nBytes + 4, MaxSize) by { StringCheckIs(size, length); }
      r := EnsureSize(nBytes + 4);
      if r.Stopped? {
        return;
      }
      ghost var was := Contents();
      r := PushU32(length);
      if r.Stopped? {
        return;
      }
      var p := WritePtr.value;
      if p + length > InlineStorage.Length {
        StringTooLong(size, length);
        return Stopped(OutOfBounds);
      }
      ShortString(size, length);
      AppendPadded(str);
      Assoc(was, EncodeU32(length), Padded(str));
    }

    /** The bytes of a string go to the write pointer, which moves on to the next word. */
    method AppendPadded(str: seq<Octet>)
      requires Framed() && Fits(Size, Align4(|str|))
      modifies this, InlineStorage
      ensures Appended(old(Contents()), Padded(str)) && Size == old(Size) + Align4(|str|)
    {
      hide Align4, Padded, Zeros, Whole;
      FramedFacts();
      WholeSum(Size, Align4(|str|));
      var p, nBytes := WritePtr.value, Align4(|str|);
      ghost var was := InlineStorage[..];
      WritePtr := Some(p + nBytes);
      Size := Size + nBytes;
      CopyBytes(p, str);
      PaddedInPlace(was, InlineStorage[..], p, str);
      assert forall i :: p + nBytes <= i < STORAGE ==> InlineStorage[i] == InlineStorage[..][i];
    }

    method PushU32Array(words: seq<U32>) returns (r: Outcome<()>)
      requires Framed() && |words| < TWO_TO_32
      modifies this, InlineStorage
      ensures r == if Fits(old(Size), 4 + 4 * |words|) then Done(()) else Stopped(AssertFailed)
      ensures r.Done? ==> Appended(old(Contents()), EncodeU32(|words|) + EncodeWords(words))
    {
      hide EncodeU32, SizeCheck, EncodeWords, Framed, Contents, Whole;
      FramedFacts();
      assert Fits(Size, 4 + 4 * |words|) ==> SizeCheck(Size, 4 + 4 * |words|, MaxSize) by {
        if Fits(Size, 4 + 4 * |words|) { SmallCheck(Size, 4 + 4 * |words|); }
      }
      r := EnsureSize(4 + 4 * |words|);
      if r.Stopped? {
        return;
      }
      ghost var was := Contents();
      ghost var size := Size;
      r := PushU32(|words|);
      if r.Stopped? {
        return;
      }
      var i := 0;
      while i < |words|
        invariant i <= |words| && Size == size + 4 + 4 * i && Fits(size, 4 + 4 * i)
        invariant Appended(was, EncodeU32(|words|) + EncodeWords(words[..i]))
      {
        ghost var sofar := EncodeU32(|words|) + EncodeWords(words[..i]);
        r := PushU32(words[i]);
        if r.Stopped? {
          return;
        }
        EncodeWordsNext(words, i);
        Assoc(was, sofar, EncodeU32(words[i]));
        Assoc(EncodeU32(|words|), EncodeWords(words[..i]), EncodeU32(words[i]));
        i := i + 1;
      }
      assert words[..i] == words;
      r := Done(());
    }

    /** The fixed part of the credential and the machine name. */
    method PushIdentity(stamp: U32, machine: seq<Octet>, uid: U32, gid: U32) returns (r: Outcome<()>)
      requires Framed() && |machine| < TWO_TO_32
      modifies this, InlineStorage
      ensures r.Done? <==> Fits(old(Size), 4 + (4 + Align4(|machine|)) + 4 + 4)
      ensures r.Done? ==>
              Appended(old(Contents()), EncodeU32(stamp) + EncodeString(machine) + EncodeU32(uid) + EncodeU32(gid))
    {
      hide EncodeU32, EncodeString, Align4;
      ghost var was := Contents();
      r := PushU32(stamp);
      if r.Stopped? { return; }
      r := PushString(machine);
      if r.Stopped? { return; }
      Assoc(was, EncodeU32(stamp), EncodeString(machine));
      r := PushU32(uid);
      if r.Stopped? { return; }
      Assoc(was, EncodeU32(stamp) + EncodeString(machine), EncodeU32(uid));
      r := PushU32(gid);
      if r.Stopped? { return; }
      Assoc(was, EncodeU32(stamp) + EncodeString(machine) + EncodeU32(uid), EncodeU32(gid));
    }

    /** Flavor 0 and length 0: no verifier; also the last words of a credential. */
    method PushPair(a: U32, b: U32) returns (r: Outcome<()>)
      requires Framed()
      modifies this, InlineStorage
      ensures r.Done? <==> Fits(old(Size), 8)
      ensures r.Done? ==> Appended(old(Contents()), EncodeU32(a) + EncodeU32(b))
    {
      hide EncodeU32;
      ghost var was := Contents();
      r := PushU32(a);
      if r.Stopped? { return; }
      r := PushU32(b);
      if r.Stopped? { return; }
      Assoc(was, EncodeU32(a), EncodeU32(b));
    }

    method PushUnixAuth(stamp: U32, machine: seq<Octet>, uid: U32, gid: U32, gids: seq<U32>) returns (r: Outcome<()>)
      requires Framed() && |machine| < TWO_TO_32 && |gids| < TWO_TO_32
      modifies this, InlineStorage
      ensures r.Done? <==> Fits(old(Size), 16 + AuthSize(|machine|, |gids|))
      ensures r.Done? ==> ItemOk(UnixAuth(stamp, machine, uid, gid, gids))
                          && Appended(old(Contents()), Encode(UnixAuth(stamp, machine, uid, gid, gids)))
    {
      hide EncodeU32, EncodeString, EncodeWords, Align4, Encode, AuthSize, SizeCheck, Framed, Contents, Whole;
      FramedFacts();
      ghost var was := Contents();
      var authSize := AuthSize(|machine|, |gids|) % TWO_TO_32;
      AuthFits(Size, |machine|, |gids|);
      r := EnsureSize(authSize);
      if r.Stopped? { return; }
      r := PushPair(AUTH_UNIX, authSize);
      if r.Stopped? { return; }
      ghost var p1 := EncodeU32(AUTH_UNIX) + EncodeU32(authSize);
      r := PushIdentity(stamp, machine, uid, gid);
      if r.Stopped? { return; }
      ghost var p2 := EncodeU32(stamp) + EncodeString(machine) + EncodeU32(uid) + EncodeU32(gid);
      Assoc(was, p1, p2);
      r := PushU32Array(gids);
      if r.Stopped? { return; }
      ghost var p3 := EncodeU32(|gids|) + EncodeWords(gids);
      Assoc(was, p1 + p2, p3);
      r := PushPair(0, 0);
      if r.Stopped? { return; }
      ghost var p4 := EncodeU32(0) + EncodeU32(0);
      Assoc(was, p1 + p2 + p3, p4);
      AuthParts(stamp, machine, uid, gid, gids);
    }

    // The call around the pushes

    /** `*p = HTONL(*p)` */
    method FlipWord(p: nat)
      requires p + 4 <= InlineStorage.Length
      modifies InlineStorage
      ensures InlineStorage[..] ==
              old(InlineStorage[..p]) +
                HostBytes(little, Htonl(little, HostWord(little, old(InlineStorage[p..p + 4])))) +
                  old(InlineStorage[p + 4..])
    {
      hide HostBytes, HostWord, Htonl;
      StoreHostWord(p, Htonl(little, HostWord(little, InlineStorage[p..p + 4])));
    }

    /** ByteFlip_Array over the first `|ws|` words of the buffer, which hold `ws` as the host keeps them. */
    method ByteFlipArray(ghost ws: seq<U32>, length: nat)
      requires length == |ws| && 4 * length <= InlineStorage.Length
      requires InlineStorage[..4 * length] == HostWords(little, ws)
      modifies InlineStorage
      ensures InlineStorage[..] == EncodeWords(ws) + old(InlineStorage[4 * length..])
    {
      hide HostBytes, HostWord, Htonl, EncodeU32;
      ghost var tail := InlineStorage[4 * length..];
      var p := 0;
      assert ws[..0] == [];
      while p < length
        invariant p <= length
        invariant InlineStorage[..4 * p] == EncodeWords(ws[..p])
        invariant InlineStorage[4 * p..4 * length] == HostWords(little, ws)[4 * p..]
        invariant InlineStorage[4 * length..] == tail
      {
        ghost var was := InlineStorage[..];
        FlippedWord(little, was, ws, p, length);
        FlipWord(4 * p);
        FlipStep(was, InlineStorage[..], ws, p, HostWords(little, ws));
        p := p + 1;
      }
      assert ws[..p] == ws;
      assert InlineStorage[..] == InlineStorage[..4 * length] + InlineStorage[4 * length..];
    }

    /** The assignments to the fields of RPCCall, in host order. */
    method StoreHeader(ws: seq<U32>)
      requires |ws| == CALL_SIZE / 4 && InlineStorage.Length >= CALL_SIZE
      modifies InlineStorage
      ensures InlineStorage[..CALL_SIZE] == HostWords(little, ws)
      ensures InlineStorage[CALL_SIZE..] == old(InlineStorage[CALL_SIZE..])
    {
      hide HostBytes;
      ghost var rest := InlineStorage[CALL_SIZE..];
      var k := 0;
      while k < |ws|
        invariant k <= |ws|
        invariant InlineStorage[..4 * k] == HostWords(little, ws[..k])
        invariant InlineStorage[CALL_SIZE..] == rest
      {
        ghost var was := InlineStorage[..];
        StoreHostWord(4 * k, ws[k]);
        assert ws[..k + 1][..k] == ws[..k];
        HeaderStep(was, InlineStorage[..], 4 * k, HostBytes(little, ws[k]));
        k := k + 1;
      }
      assert ws[..k] == ws;
    }

    /**
     InitCall_xid.  Only a serializer without a write pointer is set up for pushes; one prepared by
     RPCSerializer_Init keeps its write pointer at 4, inside the header.
     */
    method InitCall(xid0: U32, random: U32, prog: U32, vers: U32, proc: U32) returns (xid: U32)
      requires InlineStorage.Length == STORAGE
      modifies this, InlineStorage
      ensures xid == if xid0 == 0x1234ABCD then random else xid0
      ensures Size == 24 && WritePtr == (if old(WritePtr).None? then Some(28) else old(WritePtr))
      ensures HeaderAt(InlineStorage[..], xid, prog, vers, proc) && U32At(InlineStorage[..], 0) == 0
      ensures InlineStorage[..] == EncodeWords(CallWords(xid, prog, vers, proc)) + old(InlineStorage[CALL_SIZE..])
      ensures old(WritePtr).None? && (forall i :: CALL_SIZE <= i < STORAGE ==> old(InlineStorage[i]) == 0) ==>
                Framed() && Contents() == EncodeWords(CallWords(xid, prog, vers, proc))
    {
      hide HostBytes, HostWords, EncodeU32, EncodeWords, HeaderAt, U32At, Whole;
      WholeTimes(6);
      if WritePtr.None? {
        MaxSize := STORAGE;
        WritePtr := Some(CALL_SIZE);
      }
      xid := if xid0 == PLACEHOLDER_XID then random else xid0;
      Size := CALL_SIZE - 4;
      ghost var rest := InlineStorage[CALL_SIZE..];
      var ws := CallWords(xid, prog, vers, proc);
      StoreHeader(ws);
      ByteFlipArray(ws, |ws|);
      Prefixed(InlineStorage[..], EncodeWords(ws), rest);
      HeaderStored(InlineStorage[..], xid, prog, vers, proc, rest);
      assert forall i :: CALL_SIZE <= i < STORAGE ==> InlineStorage[i] == InlineStorage[..][i] == rest[i - CALL_SIZE];
    }

    /** Finalize: the record mark, with the last-fragment bit and the number of bytes after it. */
    method Finalize()
      requires InlineStorage.Length >= 4 && Size < TWO_TO_31
      modifies InlineStorage
      ensures InlineStorage[..] == EncodeU32(TWO_TO_31 + Size) + old(InlineStorage[4..])
    {
      hide HostBytes, Htonl, EncodeU32;
      var mark: U32 := TWO_TO_31 + Size;
      StoreHostWord(0, Htonl(little, mark));
      StoredInNetworkOrder(little, mark);
      assert InlineStorage[..] == EncodeU32(mark) + old(InlineStorage[4..]);
    }

    /** One push, whichever it is. */
    method Push(item: Item) returns (r: Outcome<()>)
      requires Framed() && ItemOk(item)
      modifies this, InlineStorage
      ensures r.Done? <==> Fits(old(Size), |Encode(item)|)
      ensures r.Done? ==> Appended(old(Contents()), Encode(item))
    {
      hide EncodeU32, EncodeU64, EncodeString, EncodeWords, AuthSize, Align4;
      match item {
        case Unsigned(v) => r := PushU32(v);
        case Hyper(w) => r := PushU64(w);
        case Opaque(str) => r := PushString(str);
        case Array(ws) => r := PushU32Array(ws);
        case NullAuth => r := PushNullAuth();
        case UnixAuth(stamp, machine, uid, gid, gids) =>
          AuthCounts(|machine|, |gids|);
          r := PushUnixAuth(stamp, machine, uid, gid, gids);
      }
    }

    /**
     A whole call, as every procedure in nfs_common.inl builds it: InitCall on a zeroed serializer, any
     sequence of pushes, Finalize.  It succeeds exactly when everything fits, and what Send then hands
     over is the record mark with the exact count, the call header and the arguments.
     */
    method SerializeCall(xid0: U32, random: U32, prog: U32, vers: U32, proc: U32, items: seq<Item>)
      returns (r: Outcome<()>, xid: U32)
      requires InlineStorage.Length == STORAGE && WritePtr == None && ItemsOk(items)
      requires forall i :: 0 <= i < STORAGE ==> InlineStorage[i] == 0
      modifies this, InlineStorage
      ensures xid == if xid0 == 0x1234ABCD then random else xid0
      ensures r.Done? <==> 28 + |EncodeAll(items)| <= 512
      ensures r.Done? ==> Framed() && Size == 24 + |EncodeAll(items)|
      ensures r.Done? ==>
                var s := InlineStorage[..Size + 4];
                && HeaderAt(s, xid, prog, vers, proc) && U32At(s, 0) == 0x8000_0000 + Size
                && At(s, 28, EncodeAll(items))
      ensures r.Done? ==> InlineStorage[..Size + 4] == Message(xid, prog, vers, proc, items)
    {
      hide Encode, EncodeU32, EncodeWords, ItemOk, Framed, Contents, Message, Whole;
      xid := InitCall(xid0, random, prog, vers, proc);
      ghost var header := EncodeWords(CallWords(xid, prog, vers, proc));
      var k := 0;
      assert items[..0] == [];
      while k < |items|
        invariant k <= |items| && ItemsOk(items[..k])
        invariant Framed() && Contents() == header + EncodeAll(items[..k])
      {
        assert items[..k + 1][..k] == items[..k];
        EncodeAllGrows(items, k + 1);
        ghost var was := Contents();
        var pushed := Push(items[k]);
        if pushed.Stopped? {
          r := Stopped(pushed.reason);
          return;
        }
        Assoc(header, EncodeAll(items[..k]), Encode(items[k]));
        k := k + 1;
      }
      assert items[..k] == items;
      FinalizeCall(xid, prog, vers, proc, items);
      MessageLayout(xid, prog, vers, proc, items);
      r := Done(());
    }

    /** Finalize after all pushes. */
    method FinalizeCall(xid: U32, prog: U32, vers: U32, proc: U32, ghost items: seq<Item>)
      requires Framed() && ItemsOk(items)
      requires Contents() == EncodeWords(CallWords(xid, prog, vers, proc)) + EncodeAll(items)
      modifies InlineStorage
      ensures Framed() && Fits(CALL_SIZE - 4, |EncodeAll(items)|) && Size == CALL_SIZE - 4 + |EncodeAll(items)|
      ensures InlineStorage[..Size + 4] == Message(xid, prog, vers, proc, items)
    {
      hide EncodeU32, EncodeWords, EncodeAll, ItemsOk, Message, Whole;
      ghost var all := InlineStorage[..];
      Finalize();
      MarkedMessage(all, InlineStorage[..], xid, prog, vers, proc, items, Size);
      assert forall i :: Size + 4 <= i < STORAGE ==> InlineStorage[i] == InlineStorage[..][i] == all[i];
    }
  }

  /** The bytes of a call: record mark, header, arguments. */
  function Message(xid: U32, prog: U32, vers: U32, proc: U32, items: seq<Item>): (s: seq<Octet>)
    requires ItemsOk(items) && Fits(CALL_SIZE - 4, |EncodeAll(items)|)
    ensures |s| == CALL_SIZE + |EncodeAll(items)|
  {
    EncodeU32(TWO_TO_31 + (CALL_SIZE - 4 + |EncodeAll(items)|)) +
      EncodeWords(CallWords(xid, prog, vers, proc)[1..]) + EncodeAll(items)
  }

  lemma {:induction false} EncodeWordsCons(ws: seq<U32>)
    requires ws != []
    ensures EncodeWords(ws) == EncodeU32(ws[0]) + EncodeWords(ws[1..])
    decreases |ws|
  {
    hide EncodeU32;
    var n := |ws| - 1;
    if n == 0 {
      assert ws[..0] == [] && ws[1..] == [];
    } else {
      EncodeWordsCons(ws[..n]);
      assert ws[..n][1..] == ws[1..][..n - 1];
      Assoc(EncodeU32(ws[0]), EncodeWords(ws[1..][..n - 1]), EncodeU32(ws[n]));
    }
  }

  lemma MarkedMessage(was: seq<Octet>, now: seq<Octet>, xid: U32, prog: U32, vers: U32, proc: U32, items: seq<Item>,
                      size: nat)
    requires ItemsOk(items) && size == CALL_SIZE - 4 + |EncodeAll(items)| && Fits(CALL_SIZE - 4, |EncodeAll(items)|)
    requires size + 4 <= |was| && was[..size + 4] == EncodeWords(CallWords(xid, prog, vers, proc)) + EncodeAll(items)
    requires now == EncodeU32(TWO_TO_31 + size) + was[4..]
    ensures now[..size + 4] == Message(xid, prog, vers, proc, items)
    ensures forall i :: size + 4 <= i < |was| ==> now[i] == was[i]
  {
    hide EncodeU32, EncodeAll;
    var ws := CallWords(xid, prog, vers, proc);
    EncodeWordsCons(ws);
    Assoc(EncodeU32(ws[0]), EncodeWords(ws[1..]), EncodeAll(items));
    assert was[4..size + 4] == was[..size + 4][4..] == EncodeWords(ws[1..]) + EncodeAll(items);
    assert now[..size + 4] == EncodeU32(TWO_TO_31 + size) + was[4..size + 4];
    Assoc(EncodeU32(TWO_TO_31 + size), EncodeWords(ws[1..]), EncodeAll(items));
  }

  /** Longer prefixes have longer encodings, so a push that fails is a call that does not fit. */
  lemma {:induction false} EncodeAllGrows(items: seq<Item>, k: nat)
    requires ItemsOk(items) && k <= |items|
    ensures ItemsOk(items[..k]) && |EncodeAll(items[..k])| <= |EncodeAll(items)|
    decreases |items|
  {
    hide Encode, ItemOk;
    if k < |items| {
      var init := items[..|items| - 1];
      EncodeAllGrows(init, k);
      assert init[..k] == items[..k];
    } else {
      assert items[..k] == items;
    }
  }

  /** The word found at position `p` of host-order words is flipped into network order. */
  lemma FlippedWord(little: bool, was: seq<Octet>, ws: seq<U32>, p: nat, length: nat)
    requires p < |ws| == length && 4 * length <= |was| && was[4 * p..4 * length] == HostWords(little, ws)[4 * p..]
    ensures HostBytes(little, Htonl(little, HostWord(little, was[4 * p..4 * p + 4]))) == EncodeU32(ws[p])
  {
    hide HostBytes, HostWord, Htonl, EncodeU32, U32At;
    HostWordAt(little, ws, p);
    assert was[4 * p..4 * p + 4] == was[4 * p..4 * length][..4];
    assert HostWords(little, ws)[4 * p..4 * p + 4] == HostWords(little, ws)[4 * p..][..4];
    HtonlIsNetworkOrder(little, ws[p], was[4 * p..4 * p + 4]);
    StoredInNetworkOrder(little, ws[p]);
  }

  lemma FlipStep(was: seq<Octet>, now: seq<Octet>, ws: seq<U32>, p: nat, host: seq<Octet>)
    requires p < |ws| && 4 * |ws| <= |was| && |host| == 4 * |ws|
    requires now == was[..4 * p] + EncodeU32(ws[p]) + was[4 * p + 4..]
    requires was[..4 * p] == EncodeWords(ws[..p]) && was[4 * p..4 * |ws|] == host[4 * p..]
    ensures now[..4 * (p + 1)] == EncodeWords(ws[..p + 1])
    ensures now[4 * (p + 1)..4 * |ws|] == host[4 * (p + 1)..]
    ensures now[4 * |ws|..] == was[4 * |ws|..]
  {
    hide EncodeU32, EncodeWords;
    var i, n := 4 * p, 4 * |ws|;
    EncodeWordsNext(ws, p);
    Patched(was, now, i, EncodeU32(ws[p]));
    SliceOfSlice(was, i, n, 4);
    SliceOfTail(host, i, 4, n - i - 4);
    SliceOfTail(now, i + 4, n - i - 4, 0);
    SliceOfTail(was, i + 4, n - i - 4, 0);
    SliceOfTail(now, i + 4, 0, n - i - 4);
    SliceOfTail(was, i + 4, 0, n - i - 4);
  }

  lemma EncodeWordsNext(ws: seq<U32>, p: nat)
    requires p < |ws|
    ensures EncodeWords(ws[..p + 1]) == EncodeWords(ws[..p]) + EncodeU32(ws[p])
  {
    hide EncodeU32;
    assert ws[..p + 1][..p] == ws[..p];
  }

  lemma HeaderStep(was: seq<Octet>, now: seq<Octet>, p: nat, s: seq<Octet>)
    requires p + 4 <= CALL_SIZE <= |was| && |s| == 4 && now == was[..p] + s + was[p + 4..]
    ensures now[..p + 4] == was[..p] + s && now[CALL_SIZE..] == was[CALL_SIZE..]
  {}

  lemma Prefixed(all: seq<Octet>, head: seq<Octet>, tail: seq<Octet>)
    requires all == head + tail
    ensures all[..|head|] == head && forall i :: |head| <= i < |all| ==> all[i] == tail[i - |head|]
  {}

  lemma HeaderStored(all: seq<Octet>, xid: U32, prog: U32, vers: U32, proc: U32, tail: seq<Octet>)
    requires all == EncodeWords(CallWords(xid, prog, vers, proc)) + tail
    ensures HeaderAt(all, xid, prog, vers, proc) && U32At(all, 0) == 0
  {
    hide EncodeWords, HeaderAt, U32At;
    At0(all);
    AtSplit(all, 0, EncodeWords(CallWords(xid, prog, vers, proc)), tail);
    HeaderLayout(all, xid, prog, vers, proc);
  }

  lemma AuthCounts(nameLength: nat, groups: nat)
    requires AuthSize(nameLength, groups) < TWO_TO_32
    ensures nameLength < TWO_TO_32 && groups < TWO_TO_32
  {}

  /** What PushUnixAuth pushes, in order, is the encoded credential and verifier. */
  lemma AuthParts(stamp: U32, machine: seq<Octet>, uid: U32, gid: U32, gids: seq<U32>)
    requires AuthSize(|machine|, |gids|) < TWO_TO_32 && |machine| < TWO_TO_32 && |gids| < TWO_TO_32
    ensures ItemOk(UnixAuth(stamp, machine, uid, gid, gids))
    ensures Encode(UnixAuth(stamp, machine, uid, gid, gids)) ==
            (EncodeU32(AUTH_UNIX) + EncodeU32(AuthSize(|machine|, |gids|)))
            + (EncodeU32(stamp) + EncodeString(machine) + EncodeU32(uid) + EncodeU32(gid))
            + (EncodeU32(|gids|) + EncodeWords(gids)) + (EncodeU32(0) + EncodeU32(0))
  {
    hide EncodeU32, EncodeString, EncodeWords, AuthSize;
    var p1 := EncodeU32(AUTH_UNIX) + EncodeU32(AuthSize(|machine|, |gids|));
    var p2 := EncodeU32(stamp) + EncodeString(machine) + EncodeU32(uid) + EncodeU32(gid);
    var n, ws, zero := EncodeU32(|gids|), EncodeWords(gids), EncodeU32(0);
    Assoc(p2, n, ws);
    Assoc(p1, p2, n + ws);
    Assoc(p1 + p2 + (n + ws), zero, zero);
  }

  /** The credential is as long as its parts; if it fits, so does its length in 32 bits. */
  lemma AuthFits(size: nat, nameLength: nat, groups: nat)
    requires size < STORAGE
    ensures 16 + AuthSize(nameLength, groups) == 4 + 4 + 4 + (4 + Align4(nameLength)) + 4 + 4 + (4 + 4 * groups) + 4 + 4
    ensures Fits(size, 16 + AuthSize(nameLength, groups)) ==>
              AuthSize(nameLength, groups) % TWO_TO_32 == AuthSize(nameLength, groups) &&
                SizeCheck(size, AuthSize(nameLength, groups), STORAGE)
  {}

  lemma StringCheckIs(size: nat, length: U32)
    ensures StringCheck(size, length) <==> SizeCheck(size, Align4Wrapped(length) + 4, STORAGE)
  {}

  lemma StringTooLong(size: nat, length: U32)
    requires Whole(size) && size + 8 + length > STORAGE
    ensures !Fits(size, 4 + Align4(length))
  {}

  lemma ShortString(size: nat, length: U32)
    requires Whole(size) && size + 8 + length <= STORAGE
    ensures Align4Wrapped(length) == Align4(length)
  {}
}
