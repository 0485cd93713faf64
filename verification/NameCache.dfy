/**
 The string-interning tree of cache/cached_tree.c, on values.

 Nodes live in an arena and link to their children by relative offsets.  Keys are compared by a
 32-bit subtraction that wraps and is read as signed, which is not a transitive order: the tree is
 not sorted.  It is exact all the same, because every search repeats the steps of the insertion.
 */
module NameCache {
  import opened Outcomes
  import opened Alignment
  import opened Crc32c

  const TWO_TO_16 := 0x1_0000
  const TWO_TO_31 := 0x8000_0000
  const TWO_TO_32 := 0x1_0000_0000

  // Entry keys: the length in the upper half, sixteen bits of the checksum in the lower half

  type Key = k: int | 0 <= k < 0x1_0000_0000

  function KeyLength(key: Key): nat {
    key / TWO_TO_16
  }

  function LowHalf(c: bv32): (r: nat)
    ensures r < TWO_TO_16
  {
    ((c & 0xFFFF) as bv16) as int
  }

  /** The shift by sixteen drops what does not fit in the upper half. */
  function EntryKey(name: seq<byte>): (key: Key)
    ensures KeyLength(key) == |name| % TWO_TO_16
  {
    hide Crc, LowHalf;
    LowHalf(Crc(INITIAL, name)) + (|name| % TWO_TO_16) * TWO_TO_16
  }

  /** The length modulo 65536 stands above the lower sixteen bits of the checksum. */
  lemma KeyIs(name: seq<byte>)
    ensures EntryKey(name) == (|name| % 0x1_0000) * 0x1_0000 + LowSixteen(Crc(0xFFFF_FFFF, name))
  {
    hide Crc, LowHalf, LowSixteen;
    LowHalfIs(Crc(INITIAL, name));
  }

  /** The upper half shifted out. */
  function LowSixteen(c: bv32): nat {
    ((c << 16) >> 16) as int
  }

  lemma LowHalfIs(c: bv32)
    ensures LowHalf(c) == LowSixteen(c)
  {}

  /** `int cmp_result = a - b` on unsigned operands. */
  function WrappedDifference(a: Key, b: Key): int {
    var d := (a - b) % TWO_TO_32;
    if d < TWO_TO_31 then d else d - TWO_TO_32
  }

  /** A signed 32-bit number, the difference but for a multiple of four gigabytes. */
  lemma WrappedDifferenceIs(a: Key, b: Key)
    ensures -0x8000_0000 <= WrappedDifference(a, b) < 0x8000_0000
    ensures var k := WrappedDifference(a, b) - (a - b); k == 0 || k == 0x1_0000_0000 || k == -0x1_0000_0000
  {}

  lemma WrappedDifferenceZero(a: Key, b: Key)
    ensures WrappedDifference(a, b) == 0 <==> a == b
  {}

  /** Two names have one key exactly when their lengths and the lower halves of their checksums agree. */
  lemma SameKey(a: seq<byte>, b: seq<byte>)
    ensures EntryKey(a) == EntryKey(b) <==>
            |a| % TWO_TO_16 == |b| % TWO_TO_16 && LowHalf(Crc(INITIAL, a)) == LowHalf(Crc(INITIAL, b))
  {
    hide Crc, LowHalf;
  }

  /** The order of keys is no order: names of these lengths, whatever they are, stand in a ring, each below the next. */
  lemma KeyOrderIsCyclic(a: seq<byte>, b: seq<byte>, c: seq<byte>)
    requires |a| == 1 && |b| == 20480 && |c| == 40960
    ensures WrappedDifference(EntryKey(a), EntryKey(b)) < 0
    ensures WrappedDifference(EntryKey(b), EntryKey(c)) < 0
    ensures WrappedDifference(EntryKey(c), EntryKey(a)) < 0
  {
    hide Crc, LowHalf;
  }

  /** The sign of memcmp on two blocks of one length. */
  function Memcmp(a: seq<byte>, b: seq<byte>): int
    requires |a| == |b|
  {
    if a == [] then 0
    else if a[0] != b[0] then (if a[0] < b[0] then -1 else 1)
    else Memcmp(a[1..], b[1..])
  }

  lemma {:induction false} MemcmpZero(a: seq<byte>, b: seq<byte>)
    requires |a| == |b|
    ensures Memcmp(a, b) == 0 <==> a == b
  {
    if a == [] {
    } else {
      MemcmpZero(a[1..], b[1..]);
      assert a == [a[0]] + a[1..] && b == [b[0]] + b[1..];
    }
  }

  /** The first byte in which the blocks differ decides. */
  lemma {:induction false} MemcmpSign(a: seq<byte>, b: seq<byte>, k: nat)
    requires |a| == |b| && k < |a| && a[..k] == b[..k] && a[k] != b[k]
    ensures if a[k] < b[k] then Memcmp(a, b) < 0 else Memcmp(a, b) > 0
  {
    if k > 0 {
      assert a[0] == a[..k][0] == b[..k][0] == b[0];
      assert a[1..][..k - 1] == a[..k][1..] == b[..k][1..] == b[1..][..k - 1];
      MemcmpSign(a[1..], b[1..], k - 1);
    }
  }

  // The two arenas

  /** A name_cache_node_t; `left` and `right` are offsets to the child, zero for none. */
  datatype Node = Node(key: Key, left: int, right: int, name: nat)

  /** Both arenas with their fill counts; the length of a sequence is the arena's capacity. */
  datatype Names = Names(nodes: seq<Node>, nodeSize: nat, text: seq<byte>, textSize: nat)

  /** The bytes a name pointer denotes; zero is the null pointer, so offsets are kept plus four. */
  function NameAt(text: seq<byte>, name: nat, length: nat): seq<byte>
    requires 4 <= name && name - 4 + length <= |text|
  {
    text[name - 4..name - 4 + length]
  }

  /** The key of the root node, which no non-empty name has. */
  const ROOT_KEY: Key := 0x7FFF

  predicate NodeOk(n: Names, i: nat)
    requires i < |n.nodes|
  {
    var node := n.nodes[i];
    && KeyLength(node.key) > 0
    && 4 <= node.name
    && node.name - 4 + KeyLength(node.key) < |n.text|
    && node.name - 4 + KeyLength(node.key) < n.textSize
    && n.text[node.name - 4 + KeyLength(node.key)] == 0
  }

  predicate LinksOk(n: Names, i: nat)
    requires i < |n.nodes|
  {
    && 0 <= n.nodes[i].left && i + n.nodes[i].left < n.nodeSize
    && 0 <= n.nodes[i].right && i + n.nodes[i].right < n.nodeSize
  }

  predicate WellFormed(n: Names) {
    && 1 <= n.nodeSize <= |n.nodes|
    && n.nodes[0].key == ROOT_KEY
    && (forall i :: 0 <= i < n.nodeSize ==> LinksOk(n, i))
    && (forall i :: 1 <= i < n.nodeSize ==> NodeOk(n, i))
  }

  function NodeName(n: Names, i: nat): (s: seq<byte>)
    requires WellFormed(n) && 1 <= i < n.nodeSize
    ensures |s| == KeyLength(n.nodes[i].key) > 0
  {
    assert NodeOk(n, i);
    NameAt(n.text, n.nodes[i].name, KeyLength(n.nodes[i].key))
  }

  // Searching

  datatype Place = Found(node: nat) | Missing(parent: nat, left: bool)

  /** `cmp_result` at node `i`: the keys' wrapped difference, or the order of the bytes if it is zero. */
  function CompareAt(n: Names, s: seq<byte>, key: Key, i: nat): int
    requires WellFormed(n) && i < n.nodeSize
    requires |s| == KeyLength(key) > 0
  {
    var d := WrappedDifference(key, n.nodes[i].key);
    if d != 0 then d
    else
      WrappedDifferenceZero(key, n.nodes[i].key);
      Memcmp(s, NodeName(n, i))
  }

  function Child(n: Names, i: nat, cmp: int): nat
    requires WellFormed(n) && i < n.nodeSize
  {
    assert LinksOk(n, i);
    i + (if cmp < 0 then n.nodes[i].left else n.nodes[i].right)
  }

  /** Where a search that has come to node `i` ends. */
  function Search(n: Names, s: seq<byte>, key: Key, i: nat): Place
    requires WellFormed(n) && i < n.nodeSize
    requires |s| == KeyLength(key) > 0
    decreases n.nodeSize - i
  {
    assert LinksOk(n, i);
    var cmp := CompareAt(n, s, key, i);
    if cmp == 0 then Found(i)
    else if Child(n, i, cmp) == i then Missing(i, cmp < 0)
    else Search(n, s, key, Child(n, i, cmp))
  }

  /** `cmp_result` in terms of the node's own fields. */
  lemma CompareFields(n: Names, s: seq<byte>, key: Key, i: nat)
    requires WellFormed(n) && i < n.nodeSize
    requires |s| == KeyLength(key) > 0
    ensures var d := WrappedDifference(key, n.nodes[i].key);
            if d != 0 then CompareAt(n, s, key, i) == d
            else
              && i > 0 && NodeOk(n, i) && KeyLength(n.nodes[i].key) == |s|
              && CompareAt(n, s, key, i) == Memcmp(s, NameAt(n.text, n.nodes[i].name, |s|))
  {
    hide Memcmp;
    WrappedDifferenceZero(key, n.nodes[i].key);
    if i > 0 {
      assert NodeOk(n, i);
    }
  }

  /** One turn of the search loop. */
  lemma SearchTurn(n: Names, s: seq<byte>, key: Key, i: nat)
    requires WellFormed(n) && i < n.nodeSize
    requires |s| == KeyLength(key) > 0
    ensures LinksOk(n, i)
    ensures var cmp := CompareAt(n, s, key, i);
            var next := i + (if cmp < 0 then n.nodes[i].left else n.nodes[i].right);
            Search(n, s, key, i) == if cmp == 0 then Found(i) else if next == i then Missing(i, cmp < 0)
              else Search(n, s, key, next)
  {
    hide CompareAt;
    assert LinksOk(n, i);
  }

  /** A search ends at a node with exactly the key and the bytes it looks for, or at a missing child. */
  lemma {:induction false} SearchSound(n: Names, s: seq<byte>, key: Key, i: nat)
    requires WellFormed(n) && i < n.nodeSize
    requires |s| == KeyLength(key) > 0
    ensures match Search(n, s, key, i)
            case Found(j) => 1 <= j < n.nodeSize && n.nodes[j].key == key && NodeName(n, j) == s
            case Missing(p, left) =>
              && p < n.nodeSize
              && (if left then n.nodes[p].left == 0 else n.nodes[p].right == 0)
    decreases n.nodeSize - i
  {
    assert LinksOk(n, i);
    var cmp := CompareAt(n, s, key, i);
    if cmp == 0 {
      WrappedDifferenceZero(key, n.nodes[i].key);
      MemcmpZero(s, NodeName(n, i));
    } else if Child(n, i, cmp) != i {
      SearchSound(n, s, key, Child(n, i, cmp));
    }
  }

  /**
   The invariant: pointers grow with the node index, and the search for any stored name leads back
   to its own node.
   */
  predicate Retraceable(n: Names)
    requires WellFormed(n)
  {
    && (forall i :: 1 <= i < n.nodeSize ==> Search(n, NodeName(n, i), n.nodes[i].key, 0) == Found(i))
    && (forall i, j :: 1 <= i < j < n.nodeSize ==> n.nodes[i].name < n.nodes[j].name)
  }

  predicate Valid(n: Names) {
    WellFormed(n) && Retraceable(n)
  }

  // Inserting

  /** The arenas after `name` has been hung below `parent`. */
  function Inserted(n: Names, s: seq<byte>, key: Key, parent: nat, left: bool): Names
    requires 1 <= n.nodeSize < |n.nodes| && parent < n.nodeSize
    requires n.textSize + |s| < |n.text|
  {
    var created := n.nodeSize;
    var linked :=
      if left then n.nodes[parent].(left := created - parent)
      else n.nodes[parent].(right := created - parent);
    Names(n.nodes[parent := linked][created := Node(key, 0, 0, n.textSize + 4)],
          n.nodeSize + 1,
          n.text[..n.textSize] + s + [0] + n.text[n.textSize + |s| + 1..],
          n.textSize + Align4(|s| + 1))
  }

  /** GetOrAddNameByKey: the pointer for the first `key >> 16` bytes at `name`. */
  function GetOrAddName(n: Names, name: seq<byte>, key: Key): Outcome<(Names, nat)>
    requires WellFormed(n)
  {
    var length := KeyLength(key);
    if length == 0 then Done((n, 0))
    else if |name| < length then Stopped(OutOfBounds)
    else
      SearchSound(n, name[..length], key, 0);
      match Search(n, name[..length], key, 0)
      case Found(i) => Done((n, n.nodes[i].name))
      case Missing(parent, left) =>
        if n.nodeSize >= |n.nodes| then Stopped(AssertFailed)
        else if n.textSize >= |n.text| then Stopped(AssertFailed)
        else if n.textSize + length >= |n.text| then Stopped(OutOfBounds)
        else Done((Inserted(n, name[..length], key, parent, left), n.textSize + 4))
  }

  /** Everything stored stays where it is. */
  predicate Extends(n: Names, m: Names) {
    && n.nodeSize <= m.nodeSize
    && |n.nodes| == |m.nodes| && |n.text| == |m.text|
    && n.textSize <= m.textSize
    && n.nodeSize <= |n.nodes|
    && (forall i :: 0 <= i < n.nodeSize ==> m.nodes[i].key == n.nodes[i].key && m.nodes[i].name == n.nodes[i].name)
    && (forall p :: 0 <= p < n.textSize && p < |n.text| ==> m.text[p] == n.text[p])
  }

  lemma ExtendsItself(n: Names)
    requires WellFormed(n)
    ensures Extends(n, n)
  {}

  lemma ExtendsTransitive(n: Names, m: Names, k: Names)
    requires Extends(n, m) && Extends(m, k)
    ensures Extends(n, k)
  {}

  lemma InsertedText(n: Names, s: seq<byte>, key: Key, parent: nat, left: bool)
    requires WellFormed(n) && n.nodeSize < |n.nodes| && parent < n.nodeSize
    requires n.textSize + |s| < |n.text|
    ensures var m := Inserted(n, s, key, parent, left);
            && |m.text| == |n.text|
            && (forall p :: 0 <= p < n.textSize ==> m.text[p] == n.text[p])
            && m.text[n.textSize..n.textSize + |s|] == s && m.text[n.textSize + |s|] == 0
  {}

  lemma InsertedNodes(n: Names, s: seq<byte>, key: Key, parent: nat, left: bool, i: nat)
    requires WellFormed(n) && n.nodeSize < |n.nodes| && parent < n.nodeSize
    requires |s| == KeyLength(key) > 0 && n.textSize + |s| < |n.text|
    requires i <= n.nodeSize
    ensures var m := Inserted(n, s, key, parent, left);
            && LinksOk(m, i) && (i > 0 ==> NodeOk(m, i))
            && m.nodes[i].key == (if i < n.nodeSize then n.nodes[i].key else key)
            && (i < n.nodeSize ==> m.nodes[i].name == n.nodes[i].name)
  {
    InsertedText(n, s, key, parent, left);
    if i < n.nodeSize {
      assert LinksOk(n, i);
      assert i > 0 ==> NodeOk(n, i);
    }
  }

  lemma InsertedWellFormed(n: Names, s: seq<byte>, key: Key, parent: nat, left: bool)
    requires WellFormed(n) && n.nodeSize < |n.nodes| && parent < n.nodeSize
    requires |s| == KeyLength(key) > 0 && n.textSize + |s| < |n.text|
    ensures var m := Inserted(n, s, key, parent, left);
            && WellFormed(m) && Extends(n, m)
            && NodeName(m, n.nodeSize) == s
            && (forall i :: 1 <= i < n.nodeSize ==> NodeName(m, i) == NodeName(n, i))
            && (forall i :: 0 <= i < n.nodeSize && i != parent ==> m.nodes[i] == n.nodes[i])
            && m.nodes[parent] == (if left then n.nodes[parent].(left := n.nodeSize - parent)
                                   else n.nodes[parent].(right := n.nodeSize - parent))
  {
    hide LinksOk, NodeOk;
    var m := Inserted(n, s, key, parent, left);
    InsertedText(n, s, key, parent, left);
    forall i | 0 <= i < m.nodeSize
      ensures LinksOk(m, i) && (i > 0 ==> NodeOk(m, i))
      ensures m.nodes[i].key == (if i < n.nodeSize then n.nodes[i].key else key)
      ensures i < n.nodeSize ==> m.nodes[i].name == n.nodes[i].name
    {
      InsertedNodes(n, s, key, parent, left, i);
    }
    forall i | 1 <= i < n.nodeSize
      ensures NodeName(m, i) == NodeName(n, i)
    {
      InsertedName(n, m, i);
    }
    assert NodeName(m, n.nodeSize) == NameAt(m.text, n.textSize + 4, |s|);
  }

  lemma InsertedName(n: Names, m: Names, i: nat)
    requires WellFormed(n) && WellFormed(m) && 1 <= i < n.nodeSize <= m.nodeSize && |m.text| == |n.text|
    requires m.nodes[i].key == n.nodes[i].key && m.nodes[i].name == n.nodes[i].name
    requires forall p :: 0 <= p < n.textSize && p < |n.text| ==> m.text[p] == n.text[p]
    ensures NodeName(m, i) == NodeName(n, i)
  {
    assert NodeOk(n, i);
  }

  /** A search that succeeded before never uses the link that was missing. */
  lemma {:induction false} SearchUndisturbed(n: Names, s: seq<byte>, key: Key, parent: nat, left: bool,
                                             t: seq<byte>, k: Key, i: nat)
    requires WellFormed(n) && n.nodeSize < |n.nodes| && parent < n.nodeSize
    requires |s| == KeyLength(key) > 0 && n.textSize + |s| < |n.text|
    requires if left then n.nodes[parent].left == 0 else n.nodes[parent].right == 0
    requires |t| == KeyLength(k) > 0 && i < n.nodeSize
    requires Search(n, t, k, i).Found?
    ensures var m := Inserted(n, s, key, parent, left);
            WellFormed(m) && Search(m, t, k, i) == Search(n, t, k, i)
    decreases n.nodeSize - i
  {
    InsertedWellFormed(n, s, key, parent, left);
    var m := Inserted(n, s, key, parent, left);
    assert LinksOk(n, i);
    var cmp := CompareAt(n, t, k, i);
    WrappedDifferenceZero(k, n.nodes[i].key);
    assert CompareAt(m, t, k, i) == cmp;
    if cmp != 0 {
      assert Child(m, i, cmp) == Child(n, i, cmp);
      SearchUndisturbed(n, s, key, parent, left, t, k, Child(n, i, cmp));
    }
  }

  /** The search that failed now runs through the new link to the new node. */
  lemma {:induction false} SearchFindsNew(n: Names, s: seq<byte>, key: Key, parent: nat, left: bool, i: nat)
    requires WellFormed(n) && n.nodeSize < |n.nodes| && parent < n.nodeSize
    requires |s| == KeyLength(key) > 0 && n.textSize + |s| < |n.text|
    requires i < n.nodeSize && Search(n, s, key, i) == Missing(parent, left)
    ensures var m := Inserted(n, s, key, parent, left);
            WellFormed(m) && Search(m, s, key, i) == Found(n.nodeSize)
    decreases n.nodeSize - i
  {
    InsertedWellFormed(n, s, key, parent, left);
    SearchSound(n, s, key, i);
    var m := Inserted(n, s, key, parent, left);
    assert LinksOk(n, i);
    var cmp := CompareAt(n, s, key, i);
    WrappedDifferenceZero(key, n.nodes[i].key);
    assert CompareAt(m, s, key, i) == cmp;
    if Child(n, i, cmp) == i {
      var created := n.nodeSize;
      assert Child(m, i, cmp) == created;
      WrappedDifferenceZero(key, m.nodes[created].key);
      MemcmpZero(s, NodeName(m, created));
      assert CompareAt(m, s, key, created) == 0;
    } else {
      assert Child(m, i, cmp) == Child(n, i, cmp) by {
        if i == parent {
          LaterNode(n, s, key, Child(n, i, cmp));
        }
      }
      SearchFindsNew(n, s, key, parent, left, Child(n, i, cmp));
    }
  }

  /** A search only moves to later nodes. */
  lemma {:induction false} LaterNode(n: Names, s: seq<byte>, key: Key, i: nat)
    requires WellFormed(n) && i < n.nodeSize
    requires |s| == KeyLength(key) > 0
    ensures match Search(n, s, key, i) case Found(j) => i <= j case Missing(p, _) => i <= p
    decreases n.nodeSize - i
  {
    assert LinksOk(n, i);
    var cmp := CompareAt(n, s, key, i);
    if cmp != 0 && Child(n, i, cmp) != i {
      LaterNode(n, s, key, Child(n, i, cmp));
    }
  }

  /** `name` denotes `s` under `key`. */
  predicate Denotes(n: Names, name: nat, key: Key, s: seq<byte>)
    requires WellFormed(n)
  {
    exists i :: 1 <= i < n.nodeSize && n.nodes[i].key == key && n.nodes[i].name == name && NodeName(n, i) == s
  }

  lemma InsertedValid(n: Names, s: seq<byte>, key: Key, parent: nat, left: bool)
    requires Valid(n) && n.nodeSize < |n.nodes|
    requires |s| == KeyLength(key) > 0 && n.textSize + |s| < |n.text|
    requires Search(n, s, key, 0) == Missing(parent, left)
    ensures parent < n.nodeSize
    ensures Valid(Inserted(n, s, key, parent, left))
  {
    hide LinksOk, NodeOk, Memcmp, WrappedDifference, Extends, CompareAt, Child, EntryKey, Align4;
    SearchSound(n, s, key, 0);
    InsertedWellFormed(n, s, key, parent, left);
    var m := Inserted(n, s, key, parent, left);
    forall i | 1 <= i < m.nodeSize
      ensures Search(m, NodeName(m, i), m.nodes[i].key, 0) == Found(i)
    {
      if i < n.nodeSize {
        SearchUndisturbed(n, s, key, parent, left, NodeName(n, i), n.nodes[i].key, 0);
      } else {
        SearchFindsNew(n, s, key, parent, left, 0);
      }
    }
    forall i, j | 1 <= i < j < m.nodeSize
      ensures m.nodes[i].name < m.nodes[j].name
    {
      InsertedOrder(n, s, key, parent, left, i, j);
    }
  }

  /** Names are stored one behind the other. */
  lemma InsertedOrder(n: Names, s: seq<byte>, key: Key, parent: nat, left: bool, i: nat, j: nat)
    requires Valid(n) && n.nodeSize < |n.nodes| && parent < n.nodeSize && 1 <= i < j <= n.nodeSize
    requires |s| == KeyLength(key) > 0 && n.textSize + |s| < |n.text|
    ensures var m := Inserted(n, s, key, parent, left); m.nodes[i].name < m.nodes[j].name
  {
    hide LinksOk, Search, Align4;
    assert NodeOk(n, i);
  }

  /** A call keeps the invariant, keeps everything stored, and returns a pointer that denotes the name. */
  lemma GetOrAddNameCorrect(n: Names, name: seq<byte>, key: Key)
    requires Valid(n)
    requires KeyLength(key) > 0
    requires GetOrAddName(n, name, key).Done?
    ensures var (m, ptr) := GetOrAddName(n, name, key).value;
            && Valid(m) && Extends(n, m)
            && KeyLength(key) <= |name|
            && Denotes(m, ptr, key, name[..KeyLength(key)])
  {
    var s := name[..KeyLength(key)];
    SearchSound(n, s, key, 0);
    match Search(n, s, key, 0) {
      case Found(i) =>
      case Missing(parent, left) =>
        InsertedWellFormed(n, s, key, parent, left);
        InsertedValid(n, s, key, parent, left);
        var m := Inserted(n, s, key, parent, left);
        assert m.nodes[n.nodeSize].key == key;
    }
  }

  /** What a pointer denotes is not disturbed by later calls. */
  lemma DenotesStable(n: Names, m: Names, name: nat, key: Key, s: seq<byte>)
    requires WellFormed(n) && WellFormed(m) && Extends(n, m)
    requires Denotes(n, name, key, s)
    ensures Denotes(m, name, key, s)
  {
    var i :| 1 <= i < n.nodeSize && n.nodes[i].key == key && n.nodes[i].name == name && NodeName(n, i) == s;
    assert NodeOk(n, i);
    assert NodeName(m, i) == NodeName(n, i);
    assert m.nodes[i].key == key;
  }

  /** Pointers are equal exactly when keys and bytes are. */
  lemma DenotesExact(n: Names, name1: nat, key1: Key, s1: seq<byte>, name2: nat, key2: Key, s2: seq<byte>)
    requires Valid(n)
    requires Denotes(n, name1, key1, s1) && Denotes(n, name2, key2, s2)
    ensures name1 == name2 <==> key1 == key2 && s1 == s2
  {
    var i :| 1 <= i < n.nodeSize && n.nodes[i].key == key1 && n.nodes[i].name == name1 && NodeName(n, i) == s1;
    var j :| 1 <= j < n.nodeSize && n.nodes[j].key == key2 && n.nodes[j].name == name2 && NodeName(n, j) == s2;
    assert i < j ==> n.nodes[i].name < n.nodes[j].name;
    assert j < i ==> n.nodes[j].name < n.nodes[i].name;
    assert Search(n, NodeName(n, i), n.nodes[i].key, 0) == Found(i);
    assert Search(n, NodeName(n, j), n.nodes[j].key, 0) == Found(j);
  }

  /** `name` is a pointer that was returned for some name under `key`. */
  predicate Stored(n: Names, name: nat, key: Key) {
    exists i :: 1 <= i < n.nodeSize <= |n.nodes| && n.nodes[i].key == key && n.nodes[i].name == name
  }

  ghost function StoredName(n: Names, name: nat, key: Key): (s: seq<byte>)
    requires WellFormed(n) && Stored(n, name, key)
    ensures |s| == KeyLength(key) > 0
    ensures Denotes(n, name, key, s)
  {
    var i :| 1 <= i < n.nodeSize && n.nodes[i].key == key && n.nodes[i].name == name;
    assert NodeOk(n, i);
    var s := NameAt(n.text, name, KeyLength(key));
    assert NodeName(n, i) == s;
    s
  }

  lemma DenotesIsStored(n: Names, name: nat, key: Key, s: seq<byte>)
    requires WellFormed(n) && Denotes(n, name, key, s)
    ensures Stored(n, name, key) && StoredName(n, name, key) == s
  {
    var i :| 1 <= i < n.nodeSize && n.nodes[i].key == key && n.nodes[i].name == name && NodeName(n, i) == s;
    assert NodeOk(n, i);
  }

  /** A denoted name is followed by its NUL. */
  lemma DenotesTerminated(n: Names, name: nat, key: Key, s: seq<byte>)
    requires WellFormed(n) && Denotes(n, name, key, s)
    ensures |s| == KeyLength(key)
    ensures 4 <= name && name - 4 + |s| < |n.text|
    ensures n.text[name - 4..name - 4 + |s|] == s && n.text[name - 4 + |s|] == 0
  {
    var i :| 1 <= i < n.nodeSize && n.nodes[i].key == key && n.nodes[i].name == name && NodeName(n, i) == s;
    assert NodeOk(n, i);
  }

  // Whole runs

  /** Interns every name of a list under its own key, as GetOrAddNameLength does. */
  function InternAll(n: Names, names: seq<seq<byte>>): Outcome<(Names, seq<nat>)>
    requires Valid(n)
    requires forall s :: s in names ==> |s| < TWO_TO_16
    decreases |names|
  {
    if names == [] then Done((n, []))
    else
      var first := GetOrAddName(n, names[0], EntryKey(names[0]));
      if first.Stopped? then Stopped(first.reason)
      else
        GetOrAddOne(n, names[0]);
        var rest := InternAll(first.value.0, names[1..]);
        if rest.Stopped? then Stopped(rest.reason)
        else Done((rest.value.0, [first.value.1] + rest.value.1))
  }

  /** The pointer handed out for a name: null for the empty one. */
  predicate Handed(n: Names, ptr: nat, s: seq<byte>)
    requires WellFormed(n)
  {
    if s == [] then ptr == 0 else Denotes(n, ptr, EntryKey(s), s)
  }

  lemma GetOrAddOne(n: Names, name: seq<byte>)
    requires Valid(n) && |name| < TWO_TO_16
    requires GetOrAddName(n, name, EntryKey(name)).Done?
    ensures var (m, ptr) := GetOrAddName(n, name, EntryKey(name)).value;
            Valid(m) && Extends(n, m) && Handed(m, ptr, name)
  {
    hide EntryKey, WellFormed, Retraceable, Denotes, Extends;
    if name == [] {
      ExtendsItself(n);
    } else {
      GetOrAddNameCorrect(n, name, EntryKey(name));
      assert name[..|name|] == name;
    }
  }

  /** One name after the other: a list is interned exactly when each name is, in turn. */
  lemma {:induction false} InternedInTurn(n: Names, names: seq<seq<byte>>, name: seq<byte>)
    requires Valid(n) && |name| < TWO_TO_16 && forall s :: s in names ==> |s| < TWO_TO_16
    ensures InternAll(n, []) == Done((n, []))
    ensures forall s :: s in names + [name] ==> |s| < TWO_TO_16
    ensures InternAll(n, names).Stopped? ==> InternAll(n, names + [name]) == InternAll(n, names)
    ensures InternAll(n, names).Done? ==>
              var (m, ptrs) := InternAll(n, names).value;
              && Valid(m)
              && InternAll(n, names + [name]) ==
                 match GetOrAddName(m, name, EntryKey(name))
                 case Stopped(reason) => Stopped(reason)
                 case Done((r, ptr)) => Done((r, ptrs + [ptr]))
    decreases |names|
  {
    hide EntryKey, WellFormed, Retraceable, Handed, Extends, GetOrAddName;
    assert [name][0] == name && [name][1..] == [];
    if names == [] {
      assert names + [name] == [name];
      if GetOrAddName(n, name, EntryKey(name)).Done? {
        GetOrAddOne(n, name);
        var (m, ptr) := GetOrAddName(n, name, EntryKey(name)).value;
        assert InternAll(m, []) == Done((m, []));
        assert [ptr] + [] == [] + [ptr];
      }
    } else {
      assert (names + [name])[0] == names[0] && (names + [name])[1..] == names[1..] + [name];
      if GetOrAddName(n, names[0], EntryKey(names[0])).Done? {
        GetOrAddOne(n, names[0]);
        var (m, ptr) := GetOrAddName(n, names[0], EntryKey(names[0])).value;
        InternedInTurn(m, names[1..], name);
        forall ptrs: seq<nat>, p: nat
          ensures [ptr] + (ptrs + [p]) == [ptr] + ptrs + [p]
        {
        }
      }
    }
  }

  lemma {:induction false} InternAllDenotes(n: Names, names: seq<seq<byte>>)
    requires Valid(n)
    requires forall s :: s in names ==> |s| < TWO_TO_16
    requires InternAll(n, names).Done?
    ensures var (m, ptrs) := InternAll(n, names).value;
            && Valid(m) && Extends(n, m) && |ptrs| == |names|
            && forall i :: 0 <= i < |names| ==> Handed(m, ptrs[i], names[i])
    decreases |names|
  {
    hide EntryKey, WellFormed, Retraceable, Handed, Extends, GetOrAddName;
    if names == [] {
      ExtendsItself(n);
    } else {
      GetOrAddOne(n, names[0]);
      var (n1, ptr) := GetOrAddName(n, names[0], EntryKey(names[0])).value;
      InternAllDenotes(n1, names[1..]);
      var (m, ptrs) := InternAll(n, names).value;
      ExtendsTransitive(n, n1, m);
      HandedStable(n1, m, ptr, names[0]);
      assert forall i :: 0 < i < |names| ==> names[i] == names[1..][i - 1];
    }
  }

  lemma HandedStable(n: Names, m: Names, ptr: nat, s: seq<byte>)
    requires WellFormed(n) && WellFormed(m) && Extends(n, m) && Handed(n, ptr, s)
    ensures Handed(m, ptr, s)
  {
    hide EntryKey, WellFormed, Denotes, Extends;
    if s != [] {
      DenotesStable(n, m, ptr, EntryKey(s), s);
    }
  }

  /**
   Interning is exact over every run: two pointers are equal exactly when the two names are, and at
   the end every pointer handed out still leads to its NUL-terminated name.
   */
  lemma InterningIsExact(n: Names, names: seq<seq<byte>>)
    requires Valid(n)
    requires forall s :: s in names ==> |s| < TWO_TO_16
    requires InternAll(n, names).Done?
    ensures var (m, ptrs) := InternAll(n, names).value;
            && |ptrs| == |names|
            && (forall i, j :: 0 <= i < |names| && 0 <= j < |names| ==> (ptrs[i] == ptrs[j] <==> names[i] == names[j]))
            && (forall i :: 0 <= i < |names| && names[i] == [] ==> ptrs[i] == 0)
            && (forall i :: 0 <= i < |names| && names[i] != [] ==>
                 && 4 <= ptrs[i] && ptrs[i] - 4 + |names[i]| < |m.text|
                 && m.text[ptrs[i] - 4..ptrs[i] - 4 + |names[i]|] == names[i]
                 && m.text[ptrs[i] - 4 + |names[i]|] == 0)
  {
    hide EntryKey, WellFormed, Retraceable, Denotes, Extends, InternAll;
    InternAllDenotes(n, names);
    var (m, ptrs) := InternAll(n, names).value;
    forall i, j | 0 <= i < |names| && 0 <= j < |names|
      ensures ptrs[i] == ptrs[j] <==> names[i] == names[j]
    {
      assert Handed(m, ptrs[i], names[i]) && Handed(m, ptrs[j], names[j]);
      if names[i] != [] {
        DenotesTerminated(m, ptrs[i], EntryKey(names[i]), names[i]);
      }
      if names[j] != [] {
        DenotesTerminated(m, ptrs[j], EntryKey(names[j]), names[j]);
      }
      if names[i] != [] && names[j] != [] {
        DenotesExact(m, ptrs[i], EntryKey(names[i]), names[i], ptrs[j], EntryKey(names[j]), names[j]);
      }
    }
    forall i | 0 <= i < |names| && names[i] != []
      ensures && 4 <= ptrs[i] && ptrs[i] - 4 + |names[i]| < |m.text|
              && m.text[ptrs[i] - 4..ptrs[i] - 4 + |names[i]|] == names[i]
              && m.text[ptrs[i] - 4 + |names[i]|] == 0
    {
      assert Handed(m, ptrs[i], names[i]);
      DenotesTerminated(m, ptrs[i], EntryKey(names[i]), names[i]);
    }
  }
}
