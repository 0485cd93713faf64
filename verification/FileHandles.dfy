/**
 File-handle compression of cache/cached_tree.c, on values: an NFS handle becomes one 32-bit word
 (bit 31: the first three words are implied by the root handle; bits 27 to 30: number of stored
 words; bits 0 to 26: where they start) plus limbs at the end of an append-only array.
 */
module FileHandles {
  import opened Outcomes

  type Word = w: int | 0 <= w < 0x1_0000_0000

  /** The 64 bytes of an fhandle3 as sixteen words. */
  const HANDLE_WORDS := 16
  const MEASURED_WORDS := 8
  const TWO_TO_27 := 0x800_0000
  const TWO_TO_31 := 0x8000_0000
  const COMPRESSIBLE: Word := 0x1000001

  /** The value reserved for the root handle. */
  const ROOT_POINTER: Word := 1

  predicate IsHandle(h: seq<Word>) {
    |h| == HANDLE_WORDS
  }

  /** fhandle3_length in words, from word `i` on: it stops at the first zero word, or after eight. */
  function LengthFrom(h: seq<Word>, i: nat): (n: nat)
    requires IsHandle(h) && i <= MEASURED_WORDS
    ensures i <= n <= MEASURED_WORDS
    ensures forall k :: i <= k < n ==> h[k] != 0
    ensures n < MEASURED_WORDS ==> h[n] == 0
    decreases MEASURED_WORDS - i
  {
    if i == MEASURED_WORDS || h[i] == 0 then i else LengthFrom(h, i + 1)
  }

  function HandleLength(h: seq<Word>): (n: nat)
    requires IsHandle(h)
    ensures n <= 8
    ensures forall k :: 0 <= k < n ==> h[k] != 0
    ensures n < 8 ==> h[n] == 0
  {
    LengthFrom(h, 0)
  }

  /** The first three words are the ones every handle below this root starts with. */
  predicate Compressible(root: seq<Word>, h: seq<Word>)
    requires IsHandle(root) && IsHandle(h)
  {
    h[0] == COMPRESSIBLE && h[1] == root[1] && h[2] == root[2]
  }

  /** The limb array and its fill count. */
  datatype Limbs = Limbs(words: seq<Word>, size: nat)

  predicate LimbsOk(l: Limbs) {
    l.size <= |l.words| <= TWO_TO_27
  }

  /** The bit fields do not overlap, so `|` is `+`. */
  function PackPointer(compressed: bool, length: nat, start: nat): Word
    requires length <= MEASURED_WORDS && start < TWO_TO_27
  {
    (if compressed then TWO_TO_31 else 0) + length * TWO_TO_27 + start
  }

  /** Bits 0 to 26. */
  function StartOf(v: Word): nat {
    v % TWO_TO_27
  }

  /** Bits 27 to 30. */
  function LengthOf(v: Word): (n: nat)
    ensures n < HANDLE_WORDS
  {
    v / TWO_TO_27 % 16
  }

  function Append(l: Limbs, s: seq<Word>): Limbs
    requires l.size + |s| <= |l.words|
  {
    Limbs(l.words[..l.size] + s + l.words[l.size + |s|..], l.size + |s|)
  }

  /** handleToPtr. */
  function HandleToPtr(root: seq<Word>, l: Limbs, h: seq<Word>): Outcome<(Limbs, Word)>
    requires IsHandle(root) && IsHandle(h) && LimbsOk(l)
  {
    var length := HandleLength(h);
    if h == root then Done((l, ROOT_POINTER))
    else if Compressible(root, h) then
      if length < 3 then
        // handle_length wraps around below zero, and so does its sum with limbs_size
        if l.size + length < 3 || l.size + length - 3 >= |l.words| then Stopped(AssertFailed) else Stopped(OutOfBounds)
      else if l.size + length - 3 >= |l.words| then Stopped(AssertFailed)
      else Done((Append(l, h[3..length]), PackPointer(true, length - 3, l.size)))
    else
      if l.size + length >= |l.words| then Stopped(AssertFailed)
      else Done((Append(l, h[..length]), PackPointer(false, length, l.size)))
  }

  /** `base` with the words of `s` copied over it from word `start` on. */
  function Overlay(base: seq<Word>, start: nat, s: seq<Word>): (r: seq<Word>)
    requires IsHandle(base) && start + |s| <= HANDLE_WORDS
    ensures IsHandle(r)
  {
    base[..start] + s + base[start + |s|..]
  }

  const ZERO_HANDLE: seq<Word> := [0, 0, 0, 0, 0, 0, 0, 0, 0, 0, 0, 0, 0, 0, 0, 0]

  /** ptrToHandle. */
  function PtrToHandle(root: seq<Word>, l: Limbs, v: Word): Outcome<seq<Word>>
    requires IsHandle(root)
  {
    var ptr := StartOf(v);
    var length := LengthOf(v);
    var base := if v == ROOT_POINTER then root else ZERO_HANDLE;
    if length > 0 && ptr + length > |l.words| then Stopped(OutOfBounds)
    else
      var limbs := if length > 0 then l.words[ptr..ptr + length] else [];
      if v >= TWO_TO_31 then
        if length > HANDLE_WORDS - 3 then Stopped(OutOfBounds)
        else Done(Overlay(base[0 := COMPRESSIBLE][1 := root[1]][2 := root[2]], 3, limbs))
      else Done(Overlay(base, 0, limbs))
  }

  /**
   What a pointer is read as.  The pointer 1 is the root's handle; otherwise the words start with the constant and the
   root's next two if bit 31 is set, go on with as many limbs as bits 27 to 30 say, from where the others say, and end
   with zeros.  It fails exactly when limbs are missing, or when there are more than a handle can take.
   */
  lemma PointerReads(root: seq<Word>, l: Limbs, v: Word, k: nat)
    requires IsHandle(root) && k < 16
    ensures var shared, n, start := v >= 0x8000_0000, v / 0x800_0000 % 16, v % 0x800_0000;
            var skip, r := if shared then 3 else 0, PtrToHandle(root, l, v);
            && (v == 1 ==> r == Done(root))
            && (r.Stopped? ==> r.reason == OutOfBounds)
            && (r.Done? <==> (n == 0 || start + n <= |l.words|) && skip + n <= 16)
            && (v != 1 && r.Done? ==>
                  && |r.value| == 16
                  && r.value[k] == if k < skip then (if k == 0 then 0x100_0001 else root[k])
                                   else if k < skip + n then l.words[start + (k - skip)] else 0)
  {
    hide StartOf, LengthOf, PtrToHandle;
    Fields(v);
    if v == 1 {
      RootPointerReads(root, l);
    } else {
      FieldsRead(root, l, v, StartOf(v), LengthOf(v), k);
    }
  }

  lemma FieldsRead(root: seq<Word>, l: Limbs, v: Word, start: nat, n: nat, k: nat)
    requires IsHandle(root) && k < 16 && v != 1 && start == StartOf(v) && n == LengthOf(v)
    ensures var skip, r := if v >= 0x8000_0000 then 3 else 0, PtrToHandle(root, l, v);
            && (r.Stopped? ==> r.reason == OutOfBounds)
            && (r.Done? <==> (n == 0 || start + n <= |l.words|) && skip + n <= 16)
            && (r.Done? ==>
                  && |r.value| == 16
                  && r.value[k] == if k < skip then (if k == 0 then 0x100_0001 else root[k])
                                   else if k < skip + n then l.words[start + (k - skip)] else 0)
  {
    hide StartOf, LengthOf, Overlay;
    if PtrToHandle(root, l, v).Done? {
      var limbs := if n > 0 then l.words[start..start + n] else [];
      if v >= TWO_TO_31 {
        OverlayAt(ZERO_HANDLE[0 := COMPRESSIBLE][1 := root[1]][2 := root[2]], 3, limbs, k);
      } else {
        OverlayAt(ZERO_HANDLE, 0, limbs, k);
      }
    }
  }

  lemma Fields(v: Word)
    ensures StartOf(v) == v % 0x800_0000 && LengthOf(v) == v / 0x800_0000 % 16
    ensures v == 1 ==> StartOf(v) == 1 && LengthOf(v) == 0
  {}

  lemma OverlayAt(base: seq<Word>, start: nat, s: seq<Word>, k: nat)
    requires IsHandle(base) && start + |s| <= HANDLE_WORDS && k < HANDLE_WORDS
    ensures Overlay(base, start, s)[k] == if start <= k < start + |s| then s[k - start] else base[k]
  {}

  lemma UnpackPointer(compressed: bool, length: nat, start: nat)
    requires length <= MEASURED_WORDS && start < TWO_TO_27
    ensures var v := PackPointer(compressed, length, start);
            && StartOf(v) == start
            && LengthOf(v) == length
            && (v >= TWO_TO_31 <==> compressed)
            && (v == ROOT_POINTER <==> !compressed && length == 0 && start == 1)
  {
    var v := PackPointer(compressed, length, start);
    var high := (if compressed then 16 else 0) + length;
    assert v == high * TWO_TO_27 + start;
    assert v / TWO_TO_27 == high;
  }

  /** Nothing follows the words that are measured. */
  predicate NothingAfter(h: seq<Word>, n: nat)
    requires IsHandle(h)
  {
    forall k :: n <= k < HANDLE_WORDS ==> h[k] == 0
  }

  /** The handles that survive being stored when the limb array holds `size` words. */
  predicate Storable(root: seq<Word>, h: seq<Word>, size: nat)
    requires IsHandle(root) && IsHandle(h)
  {
    || h == root
    || (NothingAfter(h, HandleLength(h)) && (HandleLength(h) > 0 || size != 1))
  }

  /** A stored handle is read back exactly when it is storable; other handles come back changed. */
  lemma RoundTrip(root: seq<Word>, l: Limbs, h: seq<Word>)
    requires IsHandle(root) && IsHandle(h) && LimbsOk(l)
    requires HandleToPtr(root, l, h).Done?
    ensures var (m, v) := HandleToPtr(root, l, h).value;
            && LimbsOk(m) && l.size <= m.size && |m.words| == |l.words| && m.words[..l.size] == l.words[..l.size]
            && (PtrToHandle(root, m, v) == Done(h) <==> Storable(root, h, l.size))
            && (v == ROOT_POINTER <==> h == root || (HandleLength(h) == 0 && l.size == 1))
  {
    hide HandleToPtr, PtrToHandle, HandleLength, NothingAfter, LimbsOk, IsHandle, Compressible;
    if h == root {
      RootStored(root, l);
    } else if Compressible(root, h) {
      CompressedStored(root, l, h);
    } else {
      PlainStored(root, l, h);
    }
  }

  /**
   What a stored handle costs, and what its pointer is.  The root's handle is the pointer 1 and costs nothing.
   Of the words up to the first zero, at most eight, three are left out if the handle starts with the constant and
   the root's next two words; bit 31 says so, the next four bits say how many words were stored, the others where.
   It succeeds exactly for the root's handle and when the stored words, not fewer than none, leave a limb free; a
   shared handle of fewer than three words overruns the limbs, unless the wrapped sum is out of range and asserted.
   */
  lemma Compression(root: seq<Word>, l: Limbs, h: seq<Word>)
    requires IsHandle(root) && IsHandle(h) && LimbsOk(l)
    ensures var shared := h[0] == 0x100_0001 && h[1] == root[1] && h[2] == root[2];
            var skip, n := if shared then 3 else 0, HandleLength(h);
            var r := HandleToPtr(root, l, h);
            && (r.Done? <==> h == root || (skip <= n && l.size + (n - skip) < |l.words|))
            && (r.Stopped? ==>
                  r.reason == if n < skip && 3 <= l.size + n < 3 + |l.words| then OutOfBounds else AssertFailed)
            && (h == root ==> r == Done((l, 1)))
            && (h != root && r.Done? ==>
                  var (m, v) := r.value;
                  && m.size == l.size + (n - skip) && |m.words| == |l.words|
                  && m.words[..l.size] == l.words[..l.size] && m.words[l.size..m.size] == h[skip..n]
                  && m.words[m.size..] == l.words[m.size..]
                  && v == (if shared then 0x8000_0000 else 0) + (n - skip) * 0x800_0000 + l.size
                  && (v >= 0x8000_0000 <==> shared))
  {
    hide HandleLength, NothingAfter;
  }

  lemma RootStored(root: seq<Word>, l: Limbs)
    requires IsHandle(root) && LimbsOk(l)
    ensures HandleToPtr(root, l, root) == Done((l, ROOT_POINTER)) && PtrToHandle(root, l, ROOT_POINTER) == Done(root)
  {
    hide PtrToHandle, HandleLength;
    RootPointerReads(root, l);
  }

  lemma CompressedStored(root: seq<Word>, l: Limbs, h: seq<Word>)
    requires IsHandle(root) && IsHandle(h) && LimbsOk(l) && h != root && Compressible(root, h)
    requires HandleToPtr(root, l, h).Done?
    ensures var (m, v) := HandleToPtr(root, l, h).value;
            && LimbsOk(m) && l.size <= m.size && |m.words| == |l.words| && m.words[..l.size] == l.words[..l.size]
            && (PtrToHandle(root, m, v) == Done(h) <==> NothingAfter(h, HandleLength(h)))
            && v != ROOT_POINTER && HandleLength(h) > 0
  {
    hide StartOf, LengthOf, PackPointer, Overlay, HandleLength, NothingAfter, Append;
    var length := HandleLength(h);
    UnpackPointer(true, length - 3, l.size);
    AppendIs(l, h[3..length]);
    CompressedBase(root, h);
    OverlayIs(ZERO_HANDLE[0 := COMPRESSIBLE][1 := root[1]][2 := root[2]], 3, h, length);
  }

  lemma PlainStored(root: seq<Word>, l: Limbs, h: seq<Word>)
    requires IsHandle(root) && IsHandle(h) && LimbsOk(l) && h != root && !Compressible(root, h)
    requires HandleToPtr(root, l, h).Done?
    ensures var (m, v) := HandleToPtr(root, l, h).value;
            && LimbsOk(m) && l.size <= m.size && |m.words| == |l.words| && m.words[..l.size] == l.words[..l.size]
            && (PtrToHandle(root, m, v) == Done(h) <==> NothingAfter(h, HandleLength(h)) && v != ROOT_POINTER)
            && (v == ROOT_POINTER <==> HandleLength(h) == 0 && l.size == 1)
  {
    hide StartOf, LengthOf, PackPointer, Overlay, HandleLength, NothingAfter, Append, Compressible;
    var (m, v) := HandleToPtr(root, l, h).value;
    var length := HandleLength(h);
    UnpackPointer(false, length, l.size);
    assert h[..length] == h[0..length];
    AppendIs(l, h[..length]);
    if v == ROOT_POINTER {
      RootPointerReads(root, m);
    } else {
      ZeroAfter();
      OverlayIs(ZERO_HANDLE, 0, h, length);
    }
  }

  lemma RootPointerReads(root: seq<Word>, l: Limbs)
    requires IsHandle(root)
    ensures PtrToHandle(root, l, ROOT_POINTER) == Done(root)
  {
    assert StartOf(ROOT_POINTER) == 1 && LengthOf(ROOT_POINTER) == 0;
    assert Overlay(root, 0, []) == root;
  }

  lemma AppendIs(l: Limbs, s: seq<Word>)
    requires LimbsOk(l) && l.size + |s| <= |l.words|
    ensures var m := Append(l, s);
            && LimbsOk(m) && m.size == l.size + |s| && |m.words| == |l.words|
            && m.words[..l.size] == l.words[..l.size] && m.words[l.size..l.size + |s|] == s
  {}

  lemma CompressedBase(root: seq<Word>, h: seq<Word>)
    requires IsHandle(root) && IsHandle(h) && Compressible(root, h)
    ensures var base := ZERO_HANDLE[0 := COMPRESSIBLE][1 := root[1]][2 := root[2]];
            base[..3] == h[..3] && NothingAfter(base, 3)
  {}

  lemma ZeroAfter()
    ensures IsHandle(ZERO_HANDLE) && NothingAfter(ZERO_HANDLE, 0)
  {}

  lemma OverlayIs(base: seq<Word>, start: nat, h: seq<Word>, length: nat)
    requires IsHandle(base) && IsHandle(h) && start <= length <= MEASURED_WORDS
    requires base[..start] == h[..start] && NothingAfter(base, start)
    ensures Overlay(base, start, h[start..length]) == h <==> NothingAfter(h, length)
  {
    var r := Overlay(base, start, h[start..length]);
    assert forall k :: 0 <= k < HANDLE_WORDS ==> r[k] == if k < length then h[k] else 0;
    if NothingAfter(h, length) {
      assert r == h;
    }
  }

  /** A pointer leads to limbs that are stored. */
  predicate Within(l: Limbs, v: Word) {
    StartOf(v) + LengthOf(v) <= l.size || v == ROOT_POINTER
  }

  /** Storing another handle does not change what earlier pointers lead to. */
  lemma EarlierPointersStay(root: seq<Word>, l: Limbs, h: seq<Word>, v: Word)
    requires IsHandle(root) && IsHandle(h) && LimbsOk(l) && Within(l, v)
    requires HandleToPtr(root, l, h).Done?
    ensures var m := HandleToPtr(root, l, h).value.0;
            Within(m, v) && PtrToHandle(root, m, v) == PtrToHandle(root, l, v)
  {
    hide StartOf, LengthOf, HandleToPtr, Overlay, NothingAfter, HandleLength, PtrToHandle;
    RoundTrip(root, l, h);
    SameLimbs(root, l, HandleToPtr(root, l, h).value.0, v);
  }

  /** A pointer reads only limbs that were there when it was made. */
  lemma SameLimbs(root: seq<Word>, l: Limbs, m: Limbs, v: Word)
    requires IsHandle(root) && LimbsOk(l) && LimbsOk(m) && Within(l, v)
    requires l.size <= m.size && |m.words| == |l.words| && m.words[..l.size] == l.words[..l.size]
    ensures Within(m, v) && PtrToHandle(root, m, v) == PtrToHandle(root, l, v)
  {
    hide StartOf, LengthOf, Overlay;
    if v == ROOT_POINTER {
      RootPointerReads(root, l);
      RootPointerReads(root, m);
    } else {
      Slice(l.words, l.size, StartOf(v), LengthOf(v));
      Slice(m.words, l.size, StartOf(v), LengthOf(v));
    }
  }

  lemma Slice(s: seq<Word>, n: nat, start: nat, length: nat)
    requires start + length <= n <= |s|
    ensures s[start..start + length] == s[..n][start..start + length]
  {}

  lemma StoredWithin(root: seq<Word>, l: Limbs, h: seq<Word>)
    requires IsHandle(root) && IsHandle(h) && LimbsOk(l)
    requires HandleToPtr(root, l, h).Done?
    ensures var (m, v) := HandleToPtr(root, l, h).value; Within(m, v)
  {
    var length := HandleLength(h);
    if h != root {
      if Compressible(root, h) {
        UnpackPointer(true, length - 3, l.size);
      } else {
        UnpackPointer(false, length, l.size);
      }
    }
  }

  // Whole runs

  function StoreAll(root: seq<Word>, l: Limbs, hs: seq<seq<Word>>): Outcome<(Limbs, seq<Word>)>
    requires IsHandle(root) && LimbsOk(l) && forall h :: h in hs ==> IsHandle(h)
    decreases |hs|
  {
    if hs == [] then Done((l, []))
    else
      var (m, v) :- HandleToPtr(root, l, hs[0]);
      var (r, vs) :- StoreAll(root, m, hs[1..]);
      Done((r, [v] + vs))
  }

  /** One handle after the other: a list is stored exactly when each is, in turn. */
  lemma {:induction false} StoredInTurn(root: seq<Word>, l: Limbs, hs: seq<seq<Word>>, h: seq<Word>)
    requires IsHandle(root) && LimbsOk(l) && IsHandle(h) && forall x :: x in hs ==> IsHandle(x)
    ensures StoreAll(root, l, []) == Done((l, []))
    ensures forall x :: x in hs + [h] ==> IsHandle(x)
    ensures StoreAll(root, l, hs).Stopped? ==> StoreAll(root, l, hs + [h]) == StoreAll(root, l, hs)
    ensures StoreAll(root, l, hs).Done? ==>
              var (m, vs) := StoreAll(root, l, hs).value;
              && LimbsOk(m)
              && StoreAll(root, l, hs + [h]) ==
                 match HandleToPtr(root, m, h)
                 case Stopped(reason) => Stopped(reason)
                 case Done((r, v)) => Done((r, vs + [v]))
    decreases |hs|
  {
    hide HandleToPtr, LimbsOk, IsHandle;
    assert [h][0] == h && [h][1..] == [];
    if hs == [] {
      assert hs + [h] == [h];
      LimbsStayOk(root, l, h);
      if HandleToPtr(root, l, h).Done? {
        var (m, v) := HandleToPtr(root, l, h).value;
        assert StoreAll(root, m, []) == Done((m, []));
        assert [v] + [] == [] + [v];
      }
    } else {
      assert (hs + [h])[0] == hs[0] && (hs + [h])[1..] == hs[1..] + [h];
      LimbsStayOk(root, l, hs[0]);
      if HandleToPtr(root, l, hs[0]).Done? {
        var (m, v) := HandleToPtr(root, l, hs[0]).value;
        StoredInTurn(root, m, hs[1..], h);
        forall vs: seq<Word>, w: Word
          ensures [v] + (vs + [w]) == [v] + vs + [w]
        {
        }
      }
    }
  }

  lemma LimbsStayOk(root: seq<Word>, l: Limbs, h: seq<Word>)
    requires IsHandle(root) && LimbsOk(l) && IsHandle(h)
    ensures HandleToPtr(root, l, h).Done? ==> LimbsOk(HandleToPtr(root, l, h).value.0)
  {
    hide HandleToPtr;
    if HandleToPtr(root, l, h).Done? {
      RoundTrip(root, l, h);
    }
  }

  lemma {:induction false} StoreAllKeeps(root: seq<Word>, l: Limbs, hs: seq<seq<Word>>, v: Word)
    requires IsHandle(root) && LimbsOk(l) && Within(l, v) && forall h :: h in hs ==> IsHandle(h)
    requires StoreAll(root, l, hs).Done?
    ensures PtrToHandle(root, StoreAll(root, l, hs).value.0, v) == PtrToHandle(root, l, v)
    decreases |hs|
  {
    hide HandleToPtr, PtrToHandle, Within, LimbsOk;
    if hs != [] {
      RoundTrip(root, l, hs[0]);
      EarlierPointersStay(root, l, hs[0], v);
      StoreAllKeeps(root, HandleToPtr(root, l, hs[0]).value.0, hs[1..], v);
    }
  }

  /** Every handle with at least one measured word and nothing after is read back at the end of any run. */
  lemma {:induction false} StoredHandlesSurvive(root: seq<Word>, l: Limbs, hs: seq<seq<Word>>)
    requires IsHandle(root) && LimbsOk(l) && forall h :: h in hs ==> IsHandle(h)
    requires StoreAll(root, l, hs).Done?
    ensures var (r, vs) := StoreAll(root, l, hs).value;
            && |vs| == |hs|
            && forall i ::
                 0 <= i < |hs|
                 && (hs[i] == root || (NothingAfter(hs[i], HandleLength(hs[i])) && HandleLength(hs[i]) > 0)) ==>
                 PtrToHandle(root, r, vs[i]) == Done(hs[i]) && (vs[i] == ROOT_POINTER <==> hs[i] == root)
    decreases |hs|
  {
    hide HandleToPtr, PtrToHandle, Within, LimbsOk, NothingAfter, HandleLength;
    if hs != [] {
      var (m, v) := HandleToPtr(root, l, hs[0]).value;
      RoundTrip(root, l, hs[0]);
      StoredWithin(root, l, hs[0]);
      StoreAllKeeps(root, m, hs[1..], v);
      StoredHandlesSurvive(root, m, hs[1..]);
      var (r, vs) := StoreAll(root, l, hs).value;
      assert forall i :: 0 < i < |hs| ==> hs[i] == hs[1..][i - 1] && vs[i] == StoreAll(root, m, hs[1..]).value.1[i - 1];
    }
  }
}
