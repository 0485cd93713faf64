/** When creations succeed: which room in the arenas they need. */
module Capacity {
  import opened Outcomes
  import opened Alignment
  import opened Crc32c
  import opened NameCache
  import opened DirectoryTree
  import opened PathCreation
  import opened CacheRuns
  import opened FileCache

  // Names

  ghost predicate Interned(n: Names, key: Key, s: seq<byte>)
    requires NameCache.WellFormed(n)
  {
    exists ptr: nat :: Denotes(n, ptr, key, s)
  }

  /** A name needs a node, and its bytes with their NUL. */
  predicate NameRoom(n: Names, length: nat) {
    n.nodeSize < |n.nodes| && n.textSize + length < |n.text|
  }

  ghost predicate NameFits(n: Names, key: Key, s: seq<byte>)
    requires NameCache.WellFormed(n)
  {
    Interned(n, key, s) || NameRoom(n, |s|)
  }

  /** A name is interned exactly when it was before or there is room for it. */
  lemma GetOrAddNameDoneWhen(n: Names, name: seq<byte>, key: Key)
    requires NameCache.Valid(n) && 0 < KeyLength(key) <= |name|
    ensures GetOrAddName(n, name, key).Done? <==> NameFits(n, key, name[..KeyLength(key)])
  {
    hide LinksOk, NodeOk, Memcmp;
    var s := name[..KeyLength(key)];
    SearchSound(n, s, key, 0);
    match Search(n, s, key, 0) {
      case Found(i) => assert Denotes(n, n.nodes[i].name, key, s);
      case Missing(_, _) =>
        if Interned(n, key, s) {
          NotMissing(n, key, s);
        }
    }
  }

  /**
   A new name goes behind the others, at a word boundary if they are, with its NUL and up to the next word; a known
   name changes nothing.  Without a node or when the table is full it is an abort, otherwise the table is overrun.
   */
  lemma GetOrAddNamePlaces(n: Names, name: seq<byte>, key: Key)
    requires NameCache.Valid(n) && 0 < KeyLength(key) <= |name|
    ensures var s := name[..KeyLength(key)]; var r := GetOrAddName(n, name, key);
            if Interned(n, key, s) then r.Done? && r.value.0 == n
            else
              match r
              case Done((m, ptr)) =>
                && ptr == n.textSize + 4 && m.nodeSize == n.nodeSize + 1
                && n.textSize + |s| + 1 <= m.textSize < n.textSize + |s| + 5 && (m.textSize - n.textSize) % 4 == 0
              case Stopped(reason) =>
                reason == if n.nodeSize < |n.nodes| && n.textSize < |n.text| then OutOfBounds else AssertFailed
  {
    hide LinksOk, NodeOk, Memcmp, Search;
    var s := name[..KeyLength(key)];
    SearchSound(n, s, key, 0);
    match Search(n, s, key, 0) {
      case Found(i) => assert Denotes(n, n.nodes[i].name, key, s);
      case Missing(_, _) =>
        if Interned(n, key, s) {
          NotMissing(n, key, s);
        }
    }
  }

  lemma NotMissing(n: Names, key: Key, s: seq<byte>)
    requires NameCache.Valid(n) && |s| == KeyLength(key) > 0 && Interned(n, key, s)
    ensures Search(n, s, key, 0).Found?
  {
    hide NameCache.WellFormed, Search;
    var ptr: nat :| Denotes(n, ptr, key, s);
    ValidIsWellFormed(n);
    var i :| 1 <= i < n.nodeSize && n.nodes[i].key == key && n.nodes[i].name == ptr && NodeName(n, i) == s;
  }

  /** An interned name takes at most one node and its bytes, rounded up. */
  lemma NamesGrowth(n: Names, name: seq<byte>, key: Key)
    requires NameCache.WellFormed(n) && GetOrAddName(n, name, key).Done?
    ensures var m := GetOrAddName(n, name, key).value.0;
            && m.nodeSize <= n.nodeSize + 1 && m.textSize <= n.textSize + Align4(KeyLength(key) + 1)
            && |m.nodes| == |n.nodes| && |m.text| == |n.text|
  {
    hide LinksOk, NodeOk, Search, Memcmp, Align4;
    if 0 < KeyLength(key) <= |name| {
      SearchSound(n, name[..KeyLength(key)], key, 0);
    }
  }

  // Entries

  /** A directory without a slice needs a new one; one slice is all it gets. */
  predicate SlotRoom(c: State, d: nat)
    requires d < |c.dirs|
  {
    if c.dirs[d].capacity == 0 then c.metaSize + 256 < |c.meta| else c.dirs[d].size < c.dirs[d].capacity
  }

  lemma TakeSlotDoneWhen(c: State, d: nat)
    requires Shape(c) && d < c.dirsSize
    ensures TakeSlot(c, d).Done? <==> SlotRoom(c, d)
    ensures TakeSlot(c, d).Stopped? ==> TakeSlot(c, d).reason == AssertFailed
  {
    hide LinksToDir, NameCache.WellFormed;
    assert SliceOk(c, d);
  }

  /** An entry is created, or refused because its name is taken, exactly when there is room for what is new. */
  lemma CreateEntryDoneWhen(c: State, d: nat, name: seq<byte>, key: Key)
    requires Inv(c) && Shape(c) && d < c.dirsSize && 0 < KeyLength(key) <= |name|
    ensures NameCache.WellFormed(c.names)
    ensures CreateEntry(c, d, name, key).Done? <==>
            Lookup(c, d, name, key).Some? || (SlotRoom(c, d) && NameFits(c.names, key, name[..KeyLength(key)]))
  {
    hide ArenasApart, EntriesNamed, TableSound, Shape, Lookup, TakeSlot, GetOrAddName, NameFits, NameCache.Valid,
      NameCache.WellFormed, SlotRoom;
    ValidIsWellFormed(c.names);
    TakeSlotDoneWhen(c, d);
    GetOrAddNameDoneWhen(c.names, name, key);
    if TakeSlot(c, d).Done? {
      TakeSlotEffect(c, d);
    }
  }

  // Directories

  /** The path of a new directory fits the buffer, and it can be interned after the name. */
  ghost predicate PathFits(c: State, d: nat, name: seq<byte>, key: Key)
    requires Inv(c) && d < c.dirsSize && 0 < KeyLength(key) <= |name|
  {
    TableCounts(c);
    ValidIsWellFormed(c.names);
    var path := PathOf(c, d) + [SLASH] + name[..KeyLength(key)];
    && |path| <= 4096
    && GetOrAddName(c.names, name, key).Done?
    && var names := GetOrAddName(c.names, name, key).value.0;
       NameCache.WellFormed(names) && NameFits(names, EntryKey(path), path)
  }

  lemma FullPathDoneWhen(c: State, n: State, d: nat, e: nat)
    requires Inv(c) && d < c.dirsSize
    requires d <= c.tocSize && TocsNamed(c)
    requires Shape(n) && Extends(c.names, n.names) && RootDir(n) == 0
    requires n.dirsSize >= c.dirsSize && n.dirs[d].fullPath == c.dirs[d].fullPath
    requires e < |n.meta| && Named(n, e) && 0 !in EntryName(n, e) && |EntryName(n, e)| > 0
    ensures FullPath(n, d, e).Done? <==> |PathOf(c, d)| + 1 + |EntryName(n, e)| <= 4096
    ensures FullPath(n, d, e).Stopped? ==> FullPath(n, d, e).reason == OutOfBounds
  {
    hide ArenasApart, EntriesNamed, TableSound, Extends, NameCache.Valid, Stored, CString;
    CStringOfStored(n.names, n.meta[e].name, n.meta[e].key);
    if d > 0 {
      StoredPath(c, n, d);
    }
  }

  /** A new subdirectory needs a slot, a directory record, its name, its path and a table entry. */
  lemma SubdirectoryDoneWhen(c: State, d: nat, name: seq<byte>, key: Key)
    requires Inv(c) && Shape(c) && d < c.dirsSize && 0 < KeyLength(key) <= |name| && Component(name[..KeyLength(key)])
    ensures Subdirectory(c, d, name, key).Done? <==>
            || Lookup(c, d, name, key).Some?
            || (SlotRoom(c, d) && c.dirsSize < |c.dirs| && c.tocSize < |c.toc| && PathFits(c, d, name, key))
  {
    hide ArenasApart, EntriesNamed, TableSound, NameCache.WellFormed, NameCache.Valid, Extends, GetOrAddName,
      TakeSlot, RegisterDirectory, EntryKey, Component, PathOf, NameFits, SlotRoom, Lookup, Shape;
    TakeSlotDoneWhen(c, d);
    ShapeBounds(c);
    TableCounts(c);
    ValidIsWellFormed(c.names);
    if Lookup(c, d, name, key).None? && SlotRoom(c, d) {
      TakeSlotEffect(c, d);
      var (c1, e) := TakeSlot(c, d).value;
      if c.dirsSize < |c.dirs| && GetOrAddName(c.names, name, key).Done? {
        RegistersWhen(c, d, c1, e, name, key);
      }
    }
  }

  /** The table entry of the new directory, once slot, record and name are there. */
  lemma RegistersWhen(c: State, d: nat, c1: State, e: nat, name: seq<byte>, key: Key)
    requires Inv(c) && d < c.dirsSize && 0 < KeyLength(key) <= |name| && Component(name[..KeyLength(key)])
    requires d <= c.tocSize && TocsNamed(c) && NameCache.WellFormed(c.names)
    requires TookSlot(c, c1, d, e) && Shape(c1) && RootDir(c1) == RootDir(c) && e < |c1.meta|
    requires c1.dirsSize < |c1.dirs| && GetOrAddName(c.names, name, key).Done?
    ensures var (names, ptr) := GetOrAddName(c.names, name, key).value;
            var path := PathOf(c, d) + [SLASH] + name[..KeyLength(key)];
            var n := LinkDirectory(c1, e, names, ptr, key);
            && NameCache.WellFormed(names) && Shape(n) && d < n.dirsSize && LinksToDir(n, e)
            && (RegisterDirectory(n, d, e).Done? <==>
                  c.tocSize < |c.toc| && |path| <= 4096 && NameFits(names, EntryKey(path), path))
  {
    hide ArenasApart, EntriesNamed, TableSound, NameCache.WellFormed, NameCache.Valid, Extends, Denotes, Stored,
      GetOrAddName, FullPath, EntryKey, Component, PathOf, NameFits, SliceOk;
    var s := name[..KeyLength(key)];
    GetOrAddNameEffect(c.names, name, key);
    var (names, ptr) := GetOrAddName(c.names, name, key).value;
    ValidIsWellFormed(names);
    LinkDirectoryShape(c1, e, names, ptr, key);
    var n := LinkDirectory(c1, e, names, ptr, key);
    SlotOffRoot(c, c1, d, e);
    InvRootDir(c);
    ComponentHasNoNul(s);
    assert EntryName(n, e) == s;
    FullPathDoneWhen(c, n, d, e);
    if FullPath(n, d, e).Done? {
      FullPathIsJoin(c, n, d, e);
      var path := FullPath(n, d, e).value;
      assert path[..|path|] == path;
      GetOrAddNameDoneWhen(names, path, EntryKey(path));
    }
  }

  // Whole paths

  /** The most a path of the buffer's size takes in the string table. */
  const PATH_BLOCK := 4100

  /** Room for `k` new directories, or for fewer and an entry. */
  predicate Room(c: State, k: nat) {
    && c.metaSize + 256 * k < |c.meta|
    && c.dirsSize + k <= |c.dirs|
    && c.tocSize + k <= |c.toc|
    && c.names.nodeSize + 2 * k <= |c.names.nodes|
    && c.names.textSize + 2 * PATH_BLOCK * k <= |c.names.text|
  }

  predicate SlotFree(c: State, d: nat)
    requires d < |c.dirs|
  {
    c.dirs[d].capacity == 0 || c.dirs[d].size < c.dirs[d].capacity
  }

  /** A short name fits where there is room for one, and leaves room for another. */
  lemma ShortNameFits(n: Names, name: seq<byte>, key: Key)
    requires NameCache.Valid(n) && 0 < KeyLength(key) <= |name| && KeyLength(key) <= 4096
    requires n.nodeSize < |n.nodes| && n.textSize + PATH_BLOCK <= |n.text|
    ensures NameCache.WellFormed(n) && NameFits(n, key, name[..KeyLength(key)]) && GetOrAddName(n, name, key).Done?
    ensures var m := GetOrAddName(n, name, key).value.0;
            && NameCache.Valid(m) && m.nodeSize <= n.nodeSize + 1 && m.textSize <= n.textSize + PATH_BLOCK
            && |m.nodes| == |n.nodes| && |m.text| == |n.text|
  {
    hide NameCache.WellFormed, NameCache.Valid, GetOrAddName, Interned, Align4;
    ValidIsWellFormed(n);
    GetOrAddNameDoneWhen(n, name, key);
    NamesGrowth(n, name, key);
    GetOrAddNameEffect(n, name, key);
  }

  lemma ExistingSubdirectory(c: State, d: nat, name: seq<byte>, key: Key)
    requires Shape(c) && d < c.dirsSize && KeyLength(key) <= |name| && Lookup(c, d, name, key).Some?
    ensures Subdirectory(c, d, name, key).Done? && Subdirectory(c, d, name, key).value.0 == c
  {
    hide Shape, Lookup;
  }

  /** The string table after a new subdirectory: its name, then its path. */
  lemma SubdirectoryNames(c: State, d: nat, name: seq<byte>, key: Key)
    requires Inv(c) && Shape(c) && d < c.dirsSize && 0 < KeyLength(key) <= |name| && Component(name[..KeyLength(key)])
    requires d <= c.tocSize && TocsNamed(c) && NameCache.WellFormed(c.names)
    requires Subdirectory(c, d, name, key).Done? && Lookup(c, d, name, key).None?
    ensures GetOrAddName(c.names, name, key).Done?
    ensures var names := GetOrAddName(c.names, name, key).value.0;
            var path := PathOf(c, d) + [SLASH] + name[..KeyLength(key)];
            && NameCache.WellFormed(names) && GetOrAddName(names, path, EntryKey(path)).Done?
            && Subdirectory(c, d, name, key).value.0.names == GetOrAddName(names, path, EntryKey(path)).value.0
  {
    hide ArenasApart, EntriesNamed, TableSound, NameCache.WellFormed, NameCache.Valid, Extends, Denotes, Stored,
      GetOrAddName, FullPath, TakeSlot, EntryKey, Component, PathOf, SliceOk, Lookup;
    TakeSlotEffect(c, d);
    var (c1, e) := TakeSlot(c, d).value;
    GetOrAddNameEffect(c.names, name, key);
    var (names, ptr) := GetOrAddName(c.names, name, key).value;
    ValidIsWellFormed(names);
    LinkDirectoryShape(c1, e, names, ptr, key);
    var n := LinkDirectory(c1, e, names, ptr, key);
    SlotOffRoot(c, c1, d, e);
    InvRootDir(c);
    ComponentHasNoNul(name[..KeyLength(key)]);
    assert EntryName(n, e) == name[..KeyLength(key)];
    FullPathIsJoin(c, n, d, e);
  }

  lemma SubdirectorySizes(c: State, d: nat, name: seq<byte>, key: Key)
    requires Inv(c) && Shape(c) && d < c.dirsSize && 0 < KeyLength(key) <= |name| && Component(name[..KeyLength(key)])
    requires d <= c.tocSize && TocsNamed(c) && Subdirectory(c, d, name, key).Done? && Lookup(c, d, name, key).None?
    ensures var r := Subdirectory(c, d, name, key).value.0;
            && c.metaSize <= r.metaSize <= c.metaSize + 256
            && r.dirsSize == c.dirsSize + 1 && r.tocSize == c.tocSize + 1
            && |r.meta| == |c.meta| && |r.dirs| == |c.dirs| && |r.toc| == |c.toc|
  {
    hide ArenasApart, EntriesNamed, TableSound, Shape, NameCache.WellFormed, NameCache.Valid, Extends, Denotes, Stored,
      Subdirectory, EntryKey, Component, PathOf, Lookup;
    SubdirectoryEffect(c, d, name, key);
  }

  /** With room and a free slot a subdirectory can be made, and room is left for the others. */
  lemma RoomForSubdirectory(c: State, d: nat, name: seq<byte>, key: Key, k: nat)
    requires Inv(c) && Shape(c) && d < c.dirsSize <= |c.dirs|
    requires 0 < KeyLength(key) <= |name| && Component(name[..KeyLength(key)])
    requires Room(c, k + 1) && SlotFree(c, d)
    requires d <= c.tocSize && TocsNamed(c) && NameCache.WellFormed(c.names)
    requires |PathOf(c, d)| + 1 + KeyLength(key) <= 4096
    ensures Subdirectory(c, d, name, key).Done? && Room(Subdirectory(c, d, name, key).value.0, k)
  {
    hide Inv, Shape, Lookup, GetOrAddName, PathOf, NameFits, Subdirectory, EntryKey, Component, NameCache.WellFormed,
      NameCache.Valid;
    if Lookup(c, d, name, key).None? {
      var path := PathOf(c, d) + [SLASH] + name[..KeyLength(key)];
      InvNames(c);
      ShortNameFits(c.names, name, key);
      var names := GetOrAddName(c.names, name, key).value.0;
      assert KeyLength(EntryKey(path)) == |path| && path[..|path|] == path;
      ShortNameFits(names, path, EntryKey(path));
      SubdirectoryDoneWhen(c, d, name, key);
      SubdirectorySizes(c, d, name, key);
      SubdirectoryNames(c, d, name, key);
    } else {
      ExistingSubdirectory(c, d, name, key);
    }
  }

  /** From the first `k` components on, no prefix of the path is an entry that is no directory. */
  ghost predicate NoFileAbove(c: State, comps: seq<seq<byte>>, k: nat)
    requires Shape(c)
  {
    forall j :: k < j < |comps| && Walk(c, comps[..j]).Some? ==> WalkDir(c, comps[..j]).Some?
  }

  /** The directories there are along the path have free slots. */
  ghost predicate SlotsFree(c: State, comps: seq<seq<byte>>, k: nat)
    requires Shape(c)
  {
    forall j :: k <= j < |comps| && WalkDir(c, comps[..j]).Some? ==> FreeAt(c, WalkDir(c, comps[..j]).value)
  }

  predicate FreeAt(c: State, d: nat) {
    d < |c.dirs| && SlotFree(c, d)
  }

  /** One turn of the loop succeeds and leaves room for the rest. */
  lemma TurnSucceeds(c: State, comps: seq<seq<byte>>, k: nat, d: nat, mem: seq<byte>, n: nat, b: nat)
    requires Standing(c, comps, k, d, mem, n, b) && k + 1 < |comps| && |Join(comps)| <= 4096
    requires Shape(c) && n <= |mem| && b + |comps[k]| < n && d < c.dirsSize &&
             KeyLength(EntryKey(comps[k])) <= |mem[b..]|
    requires Room(c, |comps| - k) && SlotsFree(c, comps, k) && NoFileAbove(c, comps, k)
    ensures Subdirectory(c, d, mem[b..], EntryKey(comps[k])).Done?
    ensures var (r, e) := Subdirectory(c, d, mem[b..], EntryKey(comps[k])).value;
            && Shape(r) && e.Some? && Room(r, |comps| - k - 1)
            && SlotsFree(r, comps, k + 1) && NoFileAbove(r, comps, k + 1)
  {
    hide Inv, Shape, WalkDir, Walk, EntryKey, Component, Subdirectory, Lookup, Room, SlotFree, PathOf, Join, Standing,
      SlotsFree, NoFileAbove;
    var name, key := mem[b..], EntryKey(comps[k]);
    StandingParts(c, comps, k, d, mem, n, b);
    StandingBegin(c, comps, k, d, mem, n, b);
    ComponentKey(comps[k]);
    ShapeBounds(c);
    TableCounts(c);
    InvNames(c);
    ValidIsWellFormed(c.names);
    FreeHere(c, comps, k, d);
    WalkReachesPath(c, comps[..k]);
    JoinPrefix(comps, k);
    RoomForSubdirectory(c, d, name, key, |comps| - k - 1);
    LookupTrims(c, d, name, key);
    var (r, e) := Subdirectory(c, d, name, key).value;
    SubdirectoryShape(c, d, name, key);
    SubdirectoryAdds(c, d, name, key);
    match Lookup(c, d, name, key) {
      case Some(f) => ExistingOnTheWay(c, comps, k, d, f);
      case None => NewOnTheWay(c, r, comps, k, d, e.value, name);
    }
  }

  lemma FreeHere(c: State, comps: seq<seq<byte>>, k: nat, d: nat)
    requires Shape(c) && SlotsFree(c, comps, k) && k < |comps| && WalkDir(c, comps[..k]) == Some(d)
    ensures FreeAt(c, d)
  {
    hide Shape, WalkDir, SlotFree;
  }

  /** What is there already is a directory, by assumption. */
  lemma ExistingOnTheWay(c: State, comps: seq<seq<byte>>, k: nat, d: nat, f: nat)
    requires Inv(c) && Shape(c) && k + 1 < |comps| && d < c.dirsSize && WalkDir(c, comps[..k]) == Some(d)
    requires Component(comps[k]) && Lookup(c, d, comps[k], EntryKey(comps[k])) == Some(f)
    requires SlotsFree(c, comps, k) && NoFileAbove(c, comps, k)
    ensures f < |c.meta| && c.meta[f].kind == DirectoryKind
    ensures SlotsFree(c, comps, k + 1) && NoFileAbove(c, comps, k + 1)
  {
    hide Inv, Shape, Component, EntryKey, Lookup, SlotFree;
    assert comps[..k + 1][..k] == comps[..k] && comps[..k + 1] == comps[..k] + [comps[k]];
    assert Walk(c, comps[..k + 1]).Some?;
    WalkDirSnoc(c, comps[..k], comps[k]);
  }

  /** Beneath a new directory there is nothing, and it has no slice yet. */
  lemma NewOnTheWay(c: State, r: State, comps: seq<seq<byte>>, k: nat, d: nat, e: nat, name: seq<byte>)
    requires Inv(c) && Shape(c) && Shape(r) && Components(comps) && k + 1 < |comps|
    requires d < c.dirsSize && WalkDir(c, comps[..k]) == Some(d)
    requires Component(comps[k]) && Lookup(c, d, comps[k], EntryKey(comps[k])) == None
    requires AddedTo(c, r, d, e, comps[k], EntryKey(comps[k])) && e < |r.meta| && r.meta[e].kind == DirectoryKind
    ensures SlotsFree(r, comps, k + 1) && NoFileAbove(r, comps, k + 1)
  {
    hide Inv, Shape, WalkDir, Walk, Component, Components, EntryKey, Lookup, AddedTo, SlotFree;
    var key := EntryKey(comps[k]);
    WalkDirSnoc(c, comps[..k], comps[k]);
    assert comps[..k + 1] == comps[..k] + [comps[k]];
    NewDirectoryFree(c, r, d, e, comps[k], key);
    forall j | k + 1 <= j < |comps|
      ensures WalkDir(r, comps[..j]).Some? ==> j == k + 1 && FreeAt(r, WalkDir(r, comps[..j]).value)
    {
      NothingBeyond(c, comps, k + 1, j);
      ComponentsPrefix(comps, j);
      if j > k + 1 {
        NothingBeyond(c, comps, k + 1, j - 1);
        assert comps[..j][..j - 1] == comps[..j - 1];
      }
      AddedWalkDir(c, r, d, e, comps[k], key, comps[..j]);
    }
    forall j | k + 1 < j < |comps|
      ensures Walk(r, comps[..j]).None?
    {
      NothingBeyond(c, comps, k + 1, j);
      NothingBeyond(c, comps, k + 1, j - 1);
      ComponentsPrefix(comps, j);
      AddedWalk(c, r, d, e, comps[k], key, comps[..j]);
      assert comps[..j][..j - 1] == comps[..j - 1];
      WalkNeedsDir(c, comps[..j]);
    }
  }

  lemma ComponentsPrefix(comps: seq<seq<byte>>, j: nat)
    requires Components(comps) && j <= |comps|
    ensures Components(comps[..j])
  {
    hide Component;
  }

  lemma NewDirectoryFree(c: State, r: State, d: nat, e: nat, name: seq<byte>, key: Key)
    requires AddedTo(c, r, d, e, name, key) && e < |r.meta| && r.meta[e].kind == DirectoryKind
    ensures FreeAt(r, c.dirsSize)
  {
    hide Inv;
  }

  /** A walk that fails goes on failing. */
  lemma {:induction false} NothingBeyond(c: State, comps: seq<seq<byte>>, k: nat, j: nat)
    requires Shape(c) && k <= j <= |comps| && WalkDir(c, comps[..k]) == None
    ensures WalkDir(c, comps[..j]) == None
    decreases j
  {
    hide Shape, EntryKey, Lookup;
    if k < j {
      NothingBeyond(c, comps, k, j - 1);
      assert comps[..j][..j - 1] == comps[..j - 1];
    }
  }

  /** The whole loop. */
  lemma {:induction false} MakeAncestorsSucceeds(c: State, comps: seq<seq<byte>>, k: nat, d: nat, mem: seq<byte>,
                                                 n: nat,
                                                 b: nat, key: Key)
    requires Standing(c, comps, k, d, mem, n, b) && |Join(comps)| <= 4096
    requires Shape(c) && d < c.dirsSize && b <= n <= |mem|
    requires Room(c, |comps| - k) && SlotsFree(c, comps, k) && NoFileAbove(c, comps, k)
    ensures MakeAncestors(c, d, mem, n, b, key).Done?
    ensures var r := MakeAncestors(c, d, mem, n, b, key).value; Room(r.c, 1) && FreeAt(r.c, r.d)
    decreases |comps| - k
  {
    hide Inv, Shape, NextSlash, Components, WalkDir, Walk, Component, EntryKey, Subdirectory, Lookup, OnlyAlong,
      Standing, Room, SlotsFree,
      NoFileAbove, SlotFree, Join;
    StandingParts(c, comps, k, d, mem, n, b);
    if k == |comps| - 1 {
      FreeHere(c, comps, k, d);
    } else {
      ComponentKey(comps[k]);
      TurnSucceeds(c, comps, k, d, mem, n, b);
      StandingStep(c, comps, k, d, mem, n, b);
      var (r, e) := Subdirectory(c, d, mem[b..], EntryKey(comps[k])).value;
      SubdirectoryShape(c, d, mem[b..], EntryKey(comps[k]));
      var x, b1 := r.meta[e.value].link.dir, b + |comps[k]| + 1;
      StandingParts(r, comps, k + 1, x, mem, n, b1);
      MakeAncestorsSucceeds(r, comps, k + 1, x, mem, n, b1, EntryKey(comps[k]));
    }
  }

  /** Room for everything a path may need, whatever of it is there already. */
  ghost predicate RoomForPath(c: State, comps: seq<seq<byte>>)
    requires Shape(c)
  {
    Room(c, |comps|) && SlotsFree(c, comps, 0) && |Join(comps)| <= 4096
  }

  lemma BeforeLastSucceeds(c: State, comps: seq<seq<byte>>, mem: seq<byte>, n: nat)
    requires Inv(c) && Shape(c) && Components(comps) && comps != [] && RoomForPath(c, comps)
    requires 1 <= n <= |mem| && mem[..n] == Join(comps) && n < TWO_TO_16
    requires NoFileAbove(c, comps, 0)
    ensures BeforeLast(c, mem, n).Done?
    ensures var r := BeforeLast(c, mem, n).value; Room(r.c, 1) && FreeAt(r.c, r.d)
  {
    hide Inv, Shape, WalkDir, Walk, Component, Components, EntryKey, LookupParent, MakeAncestors, Standing, SlotsFree,
      NoFileAbove, SlotFree, Join;
    JoinNotEmpty(comps);
    assert mem[0] == mem[..n][0];
    RootStanding(c, comps, mem, n);
    LookupParentIsWalk(c, comps, mem[..n]);
    var init := comps[..|comps| - 1];
    if WalkDir(c, init).None? {
      MakeAncestorsSucceeds(c, comps, 0, RootDir(c), mem, n, 1, 0);
    } else {
      StillFree(c, comps, |comps| - 1);
    }
  }

  lemma StillFree(c: State, comps: seq<seq<byte>>, k: nat)
    requires Shape(c) && SlotsFree(c, comps, 0) && k < |comps| && WalkDir(c, comps[..k]).Some?
    ensures FreeAt(c, WalkDir(c, comps[..k]).value)
  {
    hide Shape, WalkDir, SlotFree;
  }

  /** The last segment, where there is room, succeeds if its key takes bytes that are there. */
  lemma FinalSegmentSucceeds(m: State, d: nat, name: seq<byte>, key: Key)
    requires Inv(m) && Shape(m) && d < m.dirsSize && 0 < KeyLength(key) <= 4096
    requires Room(m, 1) && FreeAt(m, d)
    ensures FinalSegment(m, d, name, key).Done? <==> KeyLength(key) <= |name|
    ensures FinalSegment(m, d, name, key).Stopped? ==> FinalSegment(m, d, name, key).reason == OutOfBounds
  {
    hide Inv, Shape, Lookup, CreateEntry, EntryKey, NameFits, NameCache.WellFormed, NameCache.Valid, GetOrAddName;
    if KeyLength(key) <= |name| {
      InvNames(m);
      ShortNameFits(m.names, name, key);
      CreateEntryDoneWhen(m, d, name, key);
    }
  }

  lemma PathSucceeds(c: State, comps: seq<seq<byte>>, mem: seq<byte>, n: nat)
    requires Inv(c) && Shape(c) && Components(comps) && comps != [] && |Join(comps)| <= 4096
    requires 1 <= n <= |mem| && mem[..n] == Join(comps) && n < TWO_TO_16
    requires BeforeLast(c, mem, n).Done?
    requires var r := BeforeLast(c, mem, n).value; Room(r.c, 1) && FreeAt(r.c, r.d)
    ensures CreateAsIntended(c, mem, n).Done?
    ensures CreateFromPath(c, mem, n).Done? <==>
            || LastKeyRight(c, comps)
            || (|comps| > 1 && |Join(comps[..|comps| - 1])| + 1 + |comps[|comps| - 2]| <= |mem|)
    ensures CreateFromPath(c, mem, n).Stopped? ==> CreateFromPath(c, mem, n).reason == OutOfBounds
  {
    hide Inv, Shape, WalkDir, Component, Components, EntryKey, CreateFromPath, CreateAsIntended, FinalSegment,
      BeforeLast, Join, Standing, Room, SlotFree, OnlyAlong, EntriesKept;
    var m, d, b, key := CreateFromPathSplits(c, comps, mem, n);
    StandingParts(m, comps, |comps| - 1, d, mem, n, b);
    StandingBegin(m, comps, |comps| - 1, d, mem, n, b);
    LastTwo(comps);
    ShortComponents(comps);
    FinalSegmentSucceeds(m, d, mem[b..], EntryKey(comps[|comps| - 1]));
    FinalSegmentSucceeds(m, d, mem[b..], key);
  }

  /** Components of a path that fits the buffer are short. */
  lemma ShortComponents(comps: seq<seq<byte>>)
    requires comps != [] && |Join(comps)| <= 4096
    ensures |comps[|comps| - 1]| <= 4096
    ensures |comps| > 1 ==> |comps[|comps| - 2]| <= 4096
  {
    if |comps| > 1 {
      assert comps[..|comps| - 1][|comps| - 2] == comps[|comps| - 2];
    }
  }

  /** An entry on the path that is no directory: a null pointer is dereferenced when the loop comes to it. */
  lemma {:induction false} BlockedLoop(c: State, comps: seq<seq<byte>>, k: nat, d: nat, mem: seq<byte>, n: nat, b: nat,
                                       key: Key, j: nat)
    requires Standing(c, comps, k, d, mem, n, b) && k < j < |comps|
    requires Walk(c, comps[..j]).Some? && WalkDir(c, comps[..j]).None?
    requires Shape(c) && d < c.dirsSize && b <= n <= |mem|
    ensures MakeAncestors(c, d, mem, n, b, key) == Stopped(NullPointer)
    decreases j - k
  {
    hide Inv, Shape, NextSlash, Components, WalkDir, Walk, Component, EntryKey, Subdirectory, Lookup, OnlyAlong,
      Standing, Join, MakeAncestors;
    StandingParts(c, comps, k, d, mem, n, b);
    ComponentKey(comps[k]);
    AncestorsTurn(c, d, mem, n, b, key);
    var f := OnTheWay(c, comps, k, d, j);
    assert mem[b..b + |comps[k]|] == comps[k];
    LookupTrims(c, d, mem[b..], EntryKey(comps[k]));
    ExistingIs(c, d, mem[b..], EntryKey(comps[k]), f);
    if j > k + 1 {
      StandingStep(c, comps, k, d, mem, n, b);
      BlockedLoop(c, comps, k + 1, c.meta[f].link.dir, mem, n, b + |comps[k]| + 1, EntryKey(comps[k]), j);
    }
  }

  /** The next segment is there already, and is a directory unless it is the one in the way. */
  lemma OnTheWay(c: State, comps: seq<seq<byte>>, k: nat, d: nat, j: nat) returns (f: nat)
    requires Inv(c) && Shape(c) && k < j < |comps| && WalkDir(c, comps[..k]) == Some(d) && d < c.dirsSize
    requires Component(comps[k]) && Walk(c, comps[..j]).Some? && WalkDir(c, comps[..j]).None?
    ensures KeyLength(EntryKey(comps[k])) == |comps[k]| && Lookup(c, d, comps[k], EntryKey(comps[k])) == Some(f)
    ensures f < |c.meta| && (c.meta[f].kind == DirectoryKind <==> j > k + 1)
  {
    hide Inv, Shape, WalkDir, Component, EntryKey, Lookup;
    ComponentKey(comps[k]);
    assert comps[..j][..j - 1] == comps[..j - 1] && comps[..k + 1] == comps[..k] + [comps[k]];
    WalkPrefixes(c, comps[..j - 1]);
    WalkDirSnoc(c, comps[..k], comps[k]);
    if j > k + 1 {
      assert comps[..j - 1][..k + 1] == comps[..k + 1];
    }
    f := Lookup(c, d, comps[k], EntryKey(comps[k])).value;
    FindEntryInDirectory(c, d, comps[k], EntryKey(comps[k]), f);
    DirectoryIsLinked(c, f);
  }

  lemma DirectoryIsLinked(c: State, f: nat)
    requires Shape(c) && f < |c.meta|
    ensures c.meta[f].kind == DirectoryKind ==> LinksToDir(c, f)
  {}

  lemma ExistingIs(c: State, d: nat, name: seq<byte>, key: Key, f: nat)
    requires Shape(c) && d < c.dirsSize && KeyLength(key) <= |name| && Lookup(c, d, name, key) == Some(f) &&
             f < |c.meta|
    ensures Subdirectory(c, d, name, key) == Done((c, if c.meta[f].kind == DirectoryKind then Some(f) else None))
  {
    hide Shape, Lookup;
  }

  /** Whatever room there is, a file in the way is fatal. */
  lemma FileInTheWayStops(c: State, comps: seq<seq<byte>>, mem: seq<byte>, n: nat)
    requires Inv(c) && Shape(c) && Components(comps) && comps != [] && !NoFileAbove(c, comps, 0)
    requires 1 <= n <= |mem| && mem[..n] == Join(comps) && n < TWO_TO_16
    ensures CreateAsIntended(c, mem, n) == CreateFromPath(c, mem, n) == Stopped(NullPointer)
  {
    hide Inv, Shape, WalkDir, Walk, Component, Components, EntryKey, LookupParent, MakeAncestors, Standing, Join;
    JoinNotEmpty(comps);
    assert mem[0] == mem[..n][0];
    RootStanding(c, comps, mem, n);
    LookupParentIsWalk(c, comps, mem[..n]);
    var j: nat :| 0 < j < |comps| && Walk(c, comps[..j]).Some? && WalkDir(c, comps[..j]).None?;
    var init := comps[..|comps| - 1];
    assert init[..j] == comps[..j];
    if WalkDir(c, init).Some? {
      WalkPrefixes(c, init);
    }
    BlockedLoop(c, comps, 0, RootDir(c), mem, n, 1, 0, j);
  }

  /** A path that does not begin with a slash is refused. */
  lemma NoSlashNoPath(c: State, mem: seq<byte>, n: nat)
    requires Shape(c) && 1 <= n <= |mem| && mem[0] != 47
    ensures CreateAsIntended(c, mem, n) == CreateFromPath(c, mem, n) == Stopped(AssertFailed)
  {}

  /**
   Given room, creation by path as intended succeeds exactly when no prefix of the path is an entry that
   is no directory.  The code also needs the bytes that a stale key takes for the last component.
   */
  lemma PathCreatedWhen(c: State, comps: seq<seq<byte>>, mem: seq<byte>, n: nat)
    requires Inv(c) && Shape(c) && Components(comps) && comps != [] && RoomForPath(c, comps)
    requires 1 <= n <= |mem| && mem[..n] == Join(comps) && n < TWO_TO_16
    ensures CreateAsIntended(c, mem, n).Done? <==> NoFileAbove(c, comps, 0)
    ensures CreateFromPath(c, mem, n).Done? <==>
            && NoFileAbove(c, comps, 0)
            && (LastKeyRight(c, comps) ||
                (|comps| > 1 && |Join(comps[..|comps| - 1])| + 1 + |comps[|comps| - 2]| <= |mem|))
    ensures CreateFromPath(c, mem, n).Stopped? ==>
              CreateFromPath(c, mem, n).reason == if NoFileAbove(c, comps, 0) then OutOfBounds else NullPointer
  {
    hide Inv, Shape, WalkDir, Walk, Component, Components, EntryKey, FinalSegment, LastKeyRight,
      BeforeLast, Join, NoFileAbove, Standing, Room, SlotFree, SlotsFree, OnlyAlong, EntriesKept;
    if NoFileAbove(c, comps, 0) {
      BeforeLastSucceeds(c, comps, mem, n);
      PathSucceeds(c, comps, mem, n);
    } else {
      FileInTheWayStops(c, comps, mem, n);
    }
  }

  // Steps of a run

  /** When a creation succeeds: in a directory that exists, given the room it needs. */
  lemma StepDoneWhen(c: State, op: Op)
    requires Inv(c) && Shape(c) && OpOk(op)
    ensures NameCache.WellFormed(c.names)
    ensures match op
            case MakeDirectory(d, name) =>
              Step(c, op).Done? <==>
              && d < c.dirsSize
              && (|| InDirectory(c, d, name).Some?
                  || (SlotRoom(c, d) && c.dirsSize < |c.dirs| && c.tocSize < |c.toc| && PathOfFits(c, d, name)))
            case MakeEntry(d, name) =>
              Step(c, op).Done? <==>
              && d < c.dirsSize
              && (InDirectory(c, d, name).Some? || (SlotRoom(c, d) && NameFits(c.names, EntryKey(name), name)))
            case MakePath(comps, beyond) =>
              RoomForPath(c, comps) ==>
                (Step(c, op).Done? <==>
                 && NoFileAbove(c, comps, 0)
                 && (|| LastKeyRight(c, comps)
                     || (|comps| > 1 &&
                         |Join(comps[..|comps| - 1])| + 1 + |comps[|comps| - 2]| <= |Join(comps)| + |beyond|)))
  {
    hide Inv, Shape, Lookup, CreateEntry, Subdirectory, CreateFromPath, EntryKey, NameFits, SlotRoom, Component,
      LastKeyRight, NoFileAbove, RoomForPath, PathFits, NameCache.WellFormed;
    InvNames(c);
    match op {
      case MakeDirectory(d, name) =>
        ComponentKey(name);
        if d < c.dirsSize {
          SubdirectoryDoneWhen(c, d, name, EntryKey(name));
        }
      case MakeEntry(d, name) =>
        ComponentKey(name);
        if d < c.dirsSize {
          CreateEntryDoneWhen(c, d, name, EntryKey(name));
        }
      case MakePath(comps, beyond) =>
        JoinNotEmpty(comps);
        var mem := Join(comps) + beyond;
        assert mem[..|Join(comps)|] == Join(comps);
        if RoomForPath(c, comps) {
          PathCreatedWhen(c, comps, mem, |Join(comps)|);
        }
    }
  }

  ghost predicate PathOfFits(c: State, d: nat, name: seq<byte>)
    requires Inv(c) && d < c.dirsSize && Component(name)
  {
    ComponentKey(name);
    PathFits(c, d, name, EntryKey(name))
  }

  // Files

  /** A file is created exactly under a name that is free, with room for slot and name and a record left. */
  lemma CreateFileDoneWhen(s: FileState, d: nat, name: seq<byte>)
    requires Inv(s.c) && Shape(s.c) && d < s.c.dirsSize && Component(name)
    ensures NameCache.WellFormed(s.c.names) && KeyLength(EntryKey(name)) == |name|
    ensures CreateFile(s, d, name).Done? <==>
            && Lookup(s.c, d, name, EntryKey(name)).None?
            && SlotRoom(s.c, d) && NameFits(s.c.names, EntryKey(name), name) && s.filesSize < |s.files|
    ensures Lookup(s.c, d, name, EntryKey(name)).Some? ==> CreateFile(s, d, name) == Stopped(AssertFailed)
  {
    hide Inv, Shape, Lookup, CreateEntry, EntryKey, NameFits, SlotRoom, Component, AddedTo;
    ComponentKey(name);
    CreateEntryDoneWhen(s.c, d, name, EntryKey(name));
    if CreateEntry(s.c, d, name, EntryKey(name)).Done? {
      CreateEntryAdds(s.c, d, name, EntryKey(name));
      var (c, o) := CreateEntry(s.c, d, name, EntryKey(name)).value;
      if o.Some? {
        AddedOffRoot(s.c, c, d, o.value, name, EntryKey(name));
        AddedLookupWasNone(s.c, c, d, o.value, name, EntryKey(name));
      }
    }
  }

  predicate TakesPlainSlot(c: State, made: Outcome<(State, Option<nat>)>) {
    made.Done? && made.value.1.Some? && made.value.1.value < |c.meta| && !c.meta[made.value.1.value].isVirtual
  }

  /**
   Given room for the path, AddFile of a path that is not in the cache succeeds exactly when no file is in its way,
   the bytes a stale key takes are there, a record is left, and the slot taken does not carry the flag unasked.
   */
  lemma AddFileMakesWhen(s: FileState, comps: seq<seq<byte>>, content: Option<seq<byte>>, isVirtual: bool)
    requires FilesInv(s) && Shape(s.c) && Components(comps) && comps != [] && RoomForPath(s.c, comps)
    requires |Join(comps)| >= 1 && LookupPath(s.c, Join(comps)).None?
    ensures var path := Join(comps);
            AddFile(s, path, content, isVirtual).Done? <==>
            && NoFileAbove(s.c, comps, 0)
            && (LastKeyRight(s.c, comps) ||
                (|comps| > 1 && |Join(comps[..|comps| - 1])| + 1 + |comps[|comps| - 2]| <= |path| + 1))
            && s.filesSize < |s.files|
            && (isVirtual || TakesPlainSlot(s.c, CreateFromPath(s.c, path + [0], |path|)))
  {
    hide Inv, Shape, LookupPath, CreateFromPath, Component, LastKeyRight, NoFileAbove, Room, SlotsFree,
      FileCache.AddFile;
    var path := Join(comps);
    assert path[..|path|] == path && (path + [0])[..|path|] == path;
    PathCreatedWhen(s.c, comps, path + [0], |path|);
    AddFileDoneWhen(s, comps, content, isVirtual);
  }
}
