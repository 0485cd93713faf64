/** When a listing can be cached: the room that Population.PopulateAll needs for everything in it. */
module PopulationRoom {
  import opened Outcomes
  import opened Crc32c
  import opened NameCache
  import opened DirectoryTree
  import opened PathCreation
  import opened FileCache
  import opened Capacity
  import opened Population
  import CacheRuns
  import FileHandles
  import SentHandles
  import Xdr

  /** The items of a listing and of the listings of the directories in it. */
  function Total(items: seq<Listed>): nat
    decreases items
  {
    if items == [] then 0
    else 1 + (if Descends(items[0]) then Total(items[0].below) else 0) + Total(items[1..])
  }

  // What is asked of a listing

  /** A handle comes with attributes; one that shares the root's first three words has at least three. */
  predicate HandleFits(little: bool, root: seq<FileHandles.Word>, item: Listed)
    requires FileHandles.IsHandle(root) && ProperItem(item)
  {
    item.entry.handle.Some? ==>
      && item.entry.attribs.Some?
      && var h := SentHandles.HostHandle(little, item.entry.handle.value);
         h == root || (h[0] == 0x100_0001 && h[1] == root[1] && h[2] == root[2] ==> FileHandles.HandleLength(h) >= 3)
  }

  /**
   A listing of a directory whose path has `depth` bytes: no more items than a directory has slots, no name twice, no
   path longer than the buffer, a handle for every directory that is read, and the same below it.
   */
  predicate Fitting(little: bool, root: seq<FileHandles.Word>, depth: nat, items: seq<Listed>)
    requires FileHandles.IsHandle(root) && Proper(items)
    decreases items
  {
    && |items| <= 256
    && (forall i, j :: 0 <= i < j < |items| && Kept(items[i]) && Kept(items[j]) ==> Name(items[i]) != Name(items[j]))
    && (forall i :: 0 <= i < |items| ==>
          && HandleFits(little, root, items[i])
          && (Kept(items[i]) ==> depth + 1 + |Name(items[i])| <= 4096)
          && (Descends(items[i]) ==>
                items[i].entry.handle.Some? && Fitting(little, root, depth + 1 + |Name(items[i])|, items[i].below)))
  }

  lemma {:induction false} FittingFirst(little: bool, root: seq<FileHandles.Word>, depth: nat, items: seq<Listed>)
    requires FileHandles.IsHandle(root) && Proper(items) && Fitting(little, root, depth, items) && items != []
    ensures ProperItem(items[0]) && Proper(items[0].below) && Proper(items[1..])
    ensures HandleFits(little, root, items[0]) && Fitting(little, root, depth, items[1..])
    ensures Kept(items[0]) ==> depth + 1 + |Name(items[0])| <= 4096 && Component(Name(items[0]))
    ensures Kept(items[0]) ==> forall i :: 0 <= i < |items[1..]| && Kept(items[1..][i]) ==>
              Name(items[1..][i]) != Name(items[0])
    ensures Descends(items[0]) ==>
              items[0].entry.handle.Some? && Fitting(little, root, depth + 1 + |Name(items[0])|, items[0].below)
    ensures |items| <= 256
  {
    hide Name, Kept, Descends, HandleFits, Component;
    ProperFirst(items);
    var rest := items[1..];
    forall i | 0 <= i < |rest|
      ensures rest[i] == items[i + 1]
    {
    }
  }

  lemma {:induction false} FittingSize(little: bool, root: seq<FileHandles.Word>, depth: nat, items: seq<Listed>)
    requires FileHandles.IsHandle(root) && Proper(items) && Fitting(little, root, depth, items)
    ensures |items| <= 256
  {
    hide Name, Kept, Descends, HandleFits, Proper;
  }

  // What is asked of the cache

  predicate StateRoom(s: FileState, k: nat) {
    Room(s.c, k) && s.filesSize + k <= |s.files|
  }

  predicate LimbRoom(l: FileHandles.Limbs, k: nat) {
    l.size + 8 * k < |l.words|
  }

  /** Directory `d` can take `n` more entries. */
  predicate SlotsFor(c: State, d: nat, n: nat)
    requires d < |c.dirs|
  {
    if c.dirs[d].capacity == 0 then n <= 256 else c.dirs[d].size + n <= c.dirs[d].capacity
  }

  ghost predicate NamesFree(c: State, d: nat, items: seq<Listed>)
    requires Shape(c) && d < c.dirsSize
  {
    forall i :: 0 <= i < |items| && Kept(items[i]) && Component(Name(items[i])) ==>
      InDirectory(c, d, Name(items[i])).None?
  }

  /** Only directory `dir` has changed, and directories were added. */
  ghost predicate OthersKept(c: State, r: State, dir: nat)
    requires Shape(c) && Shape(r)
  {
    && c.dirsSize <= r.dirsSize
    && forall d: nat :: d < c.dirsSize && d != dir ==> SameDirectory(c, r, d)
  }

  ghost predicate SameDirectory(c: State, r: State, d: nat)
    requires Shape(c) && Shape(r) && d < c.dirsSize <= r.dirsSize
  {
    && r.dirs[d] == c.dirs[d]
    && forall t :: Component(t) ==> InDirectory(r, d, t) == InDirectory(c, d, t)
  }

  lemma {:induction false} OthersKeptTransitive(c: State, m: State, r: State, dir: nat, x: nat)
    requires Shape(c) && Shape(m) && Shape(r) && OthersKept(c, m, dir) && OthersKept(m, r, x)
    requires x == dir || c.dirsSize <= x
    ensures OthersKept(c, r, dir)
  {
    hide Shape, InDirectory, Component;
    forall d: nat | d < c.dirsSize && d != dir
      ensures SameDirectory(c, r, d)
    {
      assert SameDirectory(c, m, d) && SameDirectory(m, r, d);
    }
  }

  // One entry

  /** What an addition does to the directories. */
  lemma {:induction false} AddedDirIs(c: State, r: State, d: nat, e: nat, name: seq<byte>, key: Key)
    requires AddedTo(c, r, d, e, name, key)
    ensures d < c.dirsSize <= r.dirsSize <= |r.dirs| && c.dirsSize <= |c.dirs|
    ensures c.dirs[d].capacity == 0 ==> c.dirs[d].size == 0
    ensures r.dirs[d].size == c.dirs[d].size + 1
    ensures r.dirs[d].capacity == if c.dirs[d].capacity == 0 then 256 else c.dirs[d].capacity
    ensures forall x :: 0 <= x < c.dirsSize && x != d ==> r.dirs[x] == c.dirs[x]
    ensures forall x :: c.dirsSize <= x < r.dirsSize ==> r.dirs[x].size == 0 && r.dirs[x].capacity == 0
  {
    hide ArenasApart, EntriesNamed, TableSound, Extends, Stored, NameCache.WellFormed, NameCache.Valid, Lookup;
    assert SliceOk(c, d);
  }

  /** Every lookup after an addition, by name and own key. */
  lemma {:induction false} AddedInDirectory(c: State, r: State, d: nat, e: nat, name: seq<byte>)
    requires AddedTo(c, r, d, e, name, EntryKey(name)) && Component(name) && Shape(c) && Shape(r)
    requires d < c.dirsSize <= r.dirsSize
    ensures forall x: nat, t :: x < r.dirsSize && Component(t) ==>
              InDirectory(r, x, t) ==
              if x == d && t == name then Some(e) else if x < c.dirsSize then InDirectory(c, x, t) else None
  {
    hide AddedTo, Lookup, Shape, EntryKey, Component;
    forall x: nat, t | x < r.dirsSize && Component(t)
      ensures InDirectory(r, x, t) ==
              if x == d && t == name then Some(e) else if x < c.dirsSize then InDirectory(c, x, t) else None
    {
      ComponentKey(t);
      AddedLookup(c, r, d, e, name, EntryKey(name), x, t, EntryKey(t));
    }
  }

  /** The state after an entry for `name` in directory `d`: one slot and one name less, all else as before. */
  ghost predicate OneMore(c: State, r: State, d: nat, name: seq<byte>, n: nat)
    requires Shape(c) && Shape(r) && d < c.dirsSize <= |c.dirs|
  {
    && OthersKept(c, r, d) && r.dirsSize <= |r.dirs|
    && SlotsFor(r, d, n)
    && forall t :: Component(t) && t != name ==> InDirectory(r, d, t) == InDirectory(c, d, t)
  }

  lemma {:induction false} AddedIsOneMore(c: State, r: State, d: nat, e: nat, name: seq<byte>, n: nat)
    requires AddedTo(c, r, d, e, name, EntryKey(name)) && Component(name) && Shape(c) && Shape(r)
    requires d < c.dirsSize <= |c.dirs| && SlotsFor(c, d, n + 1)
    ensures OneMore(c, r, d, name, n)
  {
    hide AddedTo, InDirectory, Shape, EntryKey, Component;
    AddedDirIs(c, r, d, e, name, EntryKey(name));
    AddedInDirectory(c, r, d, e, name);
    forall x: nat | x < c.dirsSize && x != d
      ensures SameDirectory(c, r, x)
    {
    }
  }

  lemma {:induction false} DirectoryFits(c: State, dir: nat, name: seq<byte>, k: nat, n: nat)
    requires Inv(c) && Shape(c) && dir < c.dirsSize <= |c.dirs| && Component(name)
    requires dir <= c.tocSize && TocsNamed(c) && NameCache.WellFormed(c.names) && |PathOf(c, dir)| + 1 + |name| <= 4096
    requires Room(c, k + 1) && SlotsFor(c, dir, n + 1) && InDirectory(c, dir, name).None?
    requires KeyLength(EntryKey(name)) <= |name|
    ensures Subdirectory(c, dir, name, EntryKey(name)).Done?
    ensures var (r, e) := Subdirectory(c, dir, name, EntryKey(name)).value;
            && Shape(r) && Room(r, k) && e.Some? && LinksToDir(r, e.value) && OneMore(c, r, dir, name, n)
            && r.meta[e.value].link.dir == c.dirsSize < r.dirsSize <= |r.dirs|
            && SlotsFor(r, c.dirsSize, 256) && forall t :: Component(t) ==> InDirectory(r, c.dirsSize, t).None?
  {
    hide Inv, Shape, Lookup, Subdirectory, EntryKey, PathOf, Component, AddedTo, Room, InDirectory,
      NameCache.WellFormed;
    ComponentKey(name);
    var key := EntryKey(name);
    assert InDirectory(c, dir, name) == Lookup(c, dir, name, key) by { InDirectoryIs(c, dir, name); }
    FreeSlot(c, dir, n);
    RoomForSubdirectory(c, dir, name, key, k);
    SubdirectoryAdds(c, dir, name, key);
    SubdirectoryShape(c, dir, name, key);
    var (r, o) := Subdirectory(c, dir, name, key).value;
    var e := o.value;
    AddedIsOneMore(c, r, dir, e, name, n);
    AddedDirIs(c, r, dir, e, name, key);
    AddedInDirectory(c, r, dir, e, name);
    AddedLink(c, r, dir, e, name, key);
  }

  lemma {:induction false} InDirectoryIs(c: State, d: nat, name: seq<byte>)
    requires Shape(c) && d < c.dirsSize && Component(name)
    ensures KeyLength(EntryKey(name)) <= |name| && InDirectory(c, d, name) == Lookup(c, d, name, EntryKey(name))
  {
    hide Shape, Lookup, EntryKey, Component;
    ComponentKey(name);
  }

  lemma {:induction false} FreeSlot(c: State, d: nat, n: nat)
    requires Shape(c) && d < c.dirsSize <= |c.dirs| && SlotsFor(c, d, n + 1)
    ensures SlotFree(c, d)
  {
    hide Shape;
  }

  lemma {:induction false} AddedLink(c: State, r: State, d: nat, e: nat, name: seq<byte>, key: Key)
    requires AddedTo(c, r, d, e, name, key) && e < |r.meta| && r.meta[e].kind == DirectoryKind
    ensures r.meta[e].link == DirLink(c.dirsSize) && c.dirsSize < r.dirsSize && LinksToDir(r, e)
  {
    hide Inv, Lookup;
  }

  lemma {:induction false} EntrySizes(c: State, d: nat, name: seq<byte>, key: Key)
    requires Inv(c) && Shape(c) && d < c.dirsSize && 0 < KeyLength(key) <= |name| && KeyLength(key) <= 4096
    requires CreateEntry(c, d, name, key).Done? && Lookup(c, d, name, key).None? && NameCache.WellFormed(c.names)
    requires c.names.nodeSize < |c.names.nodes| && c.names.textSize + PATH_BLOCK <= |c.names.text|
    ensures var r := CreateEntry(c, d, name, key).value.0;
            && r.metaSize <= c.metaSize + 256 && r.dirsSize == c.dirsSize && r.tocSize == c.tocSize
            && |r.meta| == |c.meta| && |r.dirs| == |c.dirs| && |r.toc| == |c.toc|
            && r.names.nodeSize <= c.names.nodeSize + 1 && r.names.textSize <= c.names.textSize + PATH_BLOCK
            && |r.names.nodes| == |c.names.nodes| && |r.names.text| == |c.names.text|
  {
    hide ArenasApart, EntriesNamed, TableSound, Shape, Lookup, NameCache.WellFormed, NameCache.Valid, Extends, Stored,
      GetOrAddName, TakeSlot;
    InvNames(c);
    ShortNameFits(c.names, name, key);
    TakeSlotEffect(c, d);
  }

  lemma {:induction false} FileFits(s: FileState, dir: nat, name: seq<byte>, k: nat, n: nat)
    requires Inv(s.c) && Shape(s.c) && dir < s.c.dirsSize <= |s.c.dirs| && Component(name) && |name| <= 4096
    requires StateRoom(s, k + 1) && SlotsFor(s.c, dir, n + 1) && InDirectory(s.c, dir, name).None?
    ensures CreateFile(s, dir, name).Done?
    ensures var (r, e) := CreateFile(s, dir, name).value;
            Shape(r.c) && StateRoom(r, k) && OneMore(s.c, r.c, dir, name, n)
  {
    hide Inv, Shape, Lookup, CreateEntry, EntryKey, Component, AddedTo, NameFits, InDirectory, Retyped, OneMore,
      NameCache.WellFormed, NameCache.Valid, GetOrAddName;
    var key := EntryKey(name);
    ComponentKey(name);
    InDirectoryIs(s.c, dir, name);
    InvNames(s.c);
    ShortNameFits(s.c.names, name, key);
    CreateFileDoneWhen(s, dir, name);
    CreateFileSteps(s, dir, name);
    EntrySizes(s.c, dir, name, key);
    var (r, e) := CreateFile(s, dir, name).value;
    var c := CreateEntry(s.c, dir, name, key).value.0;
    AddedIsOneMore(s.c, c, dir, e, name, n);
    RetypedIsOneMore(s.c, c, r.c, dir, e, name, n);
  }

  lemma {:induction false} RetypedIsOneMore(c: State, m: State, r: State, d: nat, e: nat, name: seq<byte>, n: nat)
    requires Shape(c) && Shape(m) && Shape(r) && d < c.dirsSize <= |c.dirs| && OneMore(c, m, d, name, n)
    requires Retyped(m, r, e)
    ensures OneMore(c, r, d, name, n)
  {
    hide Shape, InDirectory, Component;
    forall x: nat, t | x < m.dirsSize && Component(t)
      ensures InDirectory(r, x, t) == InDirectory(m, x, t)
    {
      InDirectoryIs(m, x, t);
      InDirectoryIs(r, x, t);
      RetypedLookup(m, r, e, x, t, EntryKey(t));
    }
    forall x: nat | x < c.dirsSize && x != d
      ensures SameDirectory(c, r, x)
    {
      assert SameDirectory(c, m, x);
    }
  }

  // The handle

  lemma {:induction false} StoreFits(little: bool, root: seq<FileHandles.Word>, s: Populated, e: nat, item: Listed,
                                     k: nat)
    requires FileHandles.IsHandle(root) && FileHandles.LimbsOk(s.limbs) && ProperItem(item)
    requires HandleFits(little, root, item) && LimbRoom(s.limbs, k + 1)
    ensures StoreHandle(little, root, s, Some(e), item.entry.handle).Done?
    ensures var r := StoreHandle(little, root, s, Some(e), item.entry.handle).value;
            r.files == s.files && LimbRoom(r.limbs, k)
  {
    hide FileHandles.HandleToPtr, FileHandles.HandleLength, Component;
    if item.entry.handle.Some? {
      FileHandles.Compression(root, s.limbs, SentHandles.HostHandle(little, item.entry.handle.value));
    }
  }

  // The whole listing

  /** The entry of a kept item can be made. */
  lemma {:induction false} EnterFits(s: FileState, dir: nat, item: Listed, prefix: seq<seq<byte>>, k: nat, n: nat)
    requires Inv(s.c) && Shape(s.c) && dir < s.c.dirsSize <= |s.c.dirs| && Kept(item) && Component(Name(item))
    requires Components(prefix) && WalkDir(s.c, prefix) == Some(dir) && |Join(prefix)| + 1 + |Name(item)| <= 4096
    requires StateRoom(s, k + 1) && SlotsFor(s.c, dir, n + 1) && InDirectory(s.c, dir, Name(item)).None?
    ensures Enter(s, dir, item).Done?
    ensures var (r, e) := Enter(s, dir, item).value;
            && Shape(r.c) && StateRoom(r, k) && e.Some? && OneMore(s.c, r.c, dir, Name(item), n)
            && (IsDirectory(item) ==>
                  && LinksToDir(r.c, e.value) && r.c.meta[e.value].link.dir == s.c.dirsSize < r.c.dirsSize <= |r.c.dirs|
                  && SlotsFor(r.c, s.c.dirsSize, 256)
                  && forall t :: Component(t) ==> InDirectory(r.c, s.c.dirsSize, t).None?)
  {
    hide Inv, Shape, Subdirectory, CreateFile, EntryKey, PathOf, Component, Room, InDirectory, OneMore, Name, WalkDir,
      Join, NameCache.WellFormed, Lookup;
    var name := Name(item);
    ComponentKey(name);
    TableCounts(s.c);
    InvNames(s.c);
    WalkReachesPath(s.c, prefix);
    if IsDirectory(item) {
      DirectoryFits(s.c, dir, name, k, n);
    } else {
      FileFits(s, dir, name, k, n);
      FileSized(s, dir, item);
    }
  }

  /** Setting the size of a file takes no room. */
  lemma {:induction false} FileSized(s: FileState, dir: nat, item: Listed)
    requires Shape(s.c) && dir < s.c.dirsSize && IsFile(item) && !IsDirectory(item)
    requires CreateFile(s, dir, Name(item)).Done?
    ensures Enter(s, dir, item).Done?
    ensures var (f, x) := CreateFile(s, dir, Name(item)).value; var (r, e) := Enter(s, dir, item).value;
            r.c == f.c && r.filesSize == f.filesSize && |r.files| == |f.files| && e == Some(x)
  {
    hide Shape, CreateFile, Name;
  }

  /** What has to hold before a listing of directory `dir` is cached. */
  ghost predicate Ready(little: bool, root: seq<FileHandles.Word>, s: Populated, dir: nat, prefix: seq<seq<byte>>,
                        items: seq<Listed>, k: nat, limbs: nat)
  {
    && Sound(root, s) && Shape(s.files.c) && dir < s.files.c.dirsSize <= |s.files.c.dirs| && Proper(items)
    && FileHandles.IsHandle(root) && Components(prefix) && WalkDir(s.files.c, prefix) == Some(dir)
    && Fitting(little, root, |Join(prefix)|, items)
    && Total(items) <= k && StateRoom(s.files, k) && Total(items) <= limbs && LimbRoom(s.limbs, limbs)
    && SlotsFor(s.files.c, dir, |items|) && NamesFree(s.files.c, dir, items)
  }

  /**
   A listing can be cached, with everything below it, when it fits and there is room: an entry, a name and a path
   for each item, a record for each, and eight words for each handle.  What room it does not use is left.
   */
  lemma {:induction false} PopulatesWithRoom(little: bool, root: seq<FileHandles.Word>, s: Populated, dir: nat,
                                             prefix: seq<seq<byte>>, items: seq<Listed>, k: nat, limbs: nat)
    requires Ready(little, root, s, dir, prefix, items, k, limbs)
    ensures PopulateAll(little, root, s, dir, items).Done?
    ensures var r := PopulateAll(little, root, s, dir, items).value;
            && Sound(root, r) && Shape(r.files.c) && OthersKept(s.files.c, r.files.c, dir)
            && StateRoom(r.files, k - Total(items)) && LimbRoom(r.limbs, limbs - Total(items))
    decreases items, 2
  {
    hide Inv, Shape, Sound, Room, OthersKept, Components, Ready, Proper, Total, PopulateAll, Fitting, SlotsFor,
      NamesFree, StateRoom, LimbRoom, WalkDir, Join, FileHandles.LimbsOk;
    ReadyParts(little, root, s, dir, prefix, items, k, limbs);
    if items == [] {
      NothingToDo(s.files.c, dir);
    } else {
      var m := FirstFits(little, root, s, dir, prefix, items, k, limbs);
      var used := Total(items) - Total(items[1..]);
      PopulatesWithRoom(little, root, m, dir, prefix, items[1..], k - used, limbs - used);
      var r := PopulateAll(little, root, m, dir, items[1..]).value;
      OthersKeptTransitive(s.files.c, m.files.c, r.files.c, dir, dir);
    }
  }

  lemma {:induction false} ReadyParts(little: bool, root: seq<FileHandles.Word>, s: Populated, dir: nat,
                                      prefix: seq<seq<byte>>, items: seq<Listed>, k: nat, limbs: nat)
    requires Ready(little, root, s, dir, prefix, items, k, limbs)
    ensures Sound(root, s) && Shape(s.files.c) && Inv(s.files.c) && FileHandles.LimbsOk(s.limbs)
    ensures dir < s.files.c.dirsSize <= |s.files.c.dirs| && Proper(items)
    ensures FileHandles.IsHandle(root) && Components(prefix) && WalkDir(s.files.c, prefix) == Some(dir)
    ensures Fitting(little, root, |Join(prefix)|, items)
    ensures Total(items) <= k && StateRoom(s.files, k) && Total(items) <= limbs && LimbRoom(s.limbs, limbs)
    ensures SlotsFor(s.files.c, dir, |items|) && NamesFree(s.files.c, dir, items)
    ensures items == [] ==> PopulateAll(little, root, s, dir, items) == Done(s) && Total(items) == 0
  {
    hide Inv, Shape;
    SoundParts(root, s);
  }

  lemma {:induction false} NothingToDo(c: State, dir: nat)
    requires Shape(c)
    ensures OthersKept(c, c, dir)
  {
    hide Shape, InDirectory;
  }

  /** The first item and everything below it; `m` is the cache before the others, ready for them. */
  lemma {:induction false} FirstFits(little: bool, root: seq<FileHandles.Word>, s: Populated, dir: nat,
                                     prefix: seq<seq<byte>>, items: seq<Listed>, k: nat, limbs: nat)
    returns (m: Populated)
    requires Ready(little, root, s, dir, prefix, items, k, limbs) && items != []
    ensures Sound(root, s) && Sound(root, m) && Shape(s.files.c) && Shape(m.files.c) && Proper(items) &&
            Proper(items[1..])
    ensures dir < s.files.c.dirsSize && dir < m.files.c.dirsSize
    ensures Total(items[1..]) <= Total(items) <= k && Total(items) <= limbs
    ensures PopulateAll(little, root, s, dir, items) == PopulateAll(little, root, m, dir, items[1..])
    ensures OthersKept(s.files.c, m.files.c, dir)
    ensures Ready(little, root, m, dir, prefix, items[1..], k - (Total(items) - Total(items[1..])),
                  limbs - (Total(items) - Total(items[1..])))
    decreases items, 1
  {
    hide Inv, Shape, Sound, Room, OthersKept, Component, Components, Ready, Proper, Fitting, HandleFits, Enter,
      StoreHandle,
      Name, Kept, Descends, WalkDir, Frame, OneMore, NamesFree, FileHandles.LimbsOk, EntryKey, Join;
    ReadyParts(little, root, s, dir, prefix, items, k, limbs);
    FittingFirst(little, root, |Join(prefix)|, items);
    var item, rest := items[0], items[1..];
    ItemKinds(item);
    if Kept(item) {
      m := KeptFits(little, root, s, dir, prefix, items, k, limbs);
    } else {
      m := s;
      SkippedFits(little, root, s, dir, prefix, items, k, limbs);
    }
  }

  lemma {:induction false} SkippedFits(little: bool, root: seq<FileHandles.Word>, s: Populated, dir: nat,
                                       prefix: seq<seq<byte>>, items: seq<Listed>, k: nat, limbs: nat)
    requires Ready(little, root, s, dir, prefix, items, k, limbs) && items != [] && !Kept(items[0])
    ensures Sound(root, s) && Shape(s.files.c) && Proper(items) && Proper(items[1..]) && dir < s.files.c.dirsSize
    ensures Total(items[1..]) + 1 == Total(items) <= k && Total(items) <= limbs
    ensures PopulateAll(little, root, s, dir, items) == PopulateAll(little, root, s, dir, items[1..])
    ensures OthersKept(s.files.c, s.files.c, dir)
    ensures Ready(little, root, s, dir, prefix, items[1..], k - 1, limbs - 1)
  {
    hide Inv, Shape, Sound, Component, Components, Proper, Fitting, Enter, StoreHandle, Name, Kept, Descends, WalkDir,
      NamesFree, FileHandles.LimbsOk, Join, InDirectory, OthersKept;
    ReadyParts(little, root, s, dir, prefix, items, k, limbs);
    FittingFirst(little, root, |Join(prefix)|, items);
    Skipped(little, root, s, dir, items[0]);
    SkippedStep(little, root, s, dir, items);
    NothingToDo(s.files.c, dir);
    FewerNames(s.files.c, dir, items);
  }

  lemma {:induction false} SkippedStep(little: bool, root: seq<FileHandles.Word>, s: Populated, dir: nat,
                                       items: seq<Listed>)
    requires Sound(root, s) && Shape(s.files.c) && dir < s.files.c.dirsSize && Proper(items) && items != []
    requires ProperItem(items[0]) && Proper(items[1..]) && FileHandles.IsHandle(root)
    requires Enter(s.files, dir, items[0]) == Done((s.files, None)) && !Descends(items[0]) && !Kept(items[0])
    requires HandleFits(little, root, items[0])
    ensures PopulateAll(little, root, s, dir, items) == PopulateAll(little, root, s, dir, items[1..])
  {
    hide Inv, Shape, Sound, Component, Proper, Enter, Name, Kept, Descends;
    SoundParts(root, s);
  }

  lemma {:induction false} FewerNames(c: State, d: nat, items: seq<Listed>)
    requires Shape(c) && d < c.dirsSize && items != [] && NamesFree(c, d, items)
    ensures NamesFree(c, d, items[1..])
  {
    hide Shape, InDirectory, Name, Kept, Component;
    forall i | 0 <= i < |items[1..]| && Kept(items[1..][i]) && Component(Name(items[1..][i]))
      ensures InDirectory(c, d, Name(items[1..][i])).None?
    {
      assert items[1..][i] == items[i + 1];
    }
  }

  /** A kept item: its entry, what is below it, its handle. */
  lemma {:induction false} KeptFits(little: bool, root: seq<FileHandles.Word>, s: Populated, dir: nat,
                                    prefix: seq<seq<byte>>, items: seq<Listed>, k: nat, limbs: nat)
    returns (m: Populated)
    requires Ready(little, root, s, dir, prefix, items, k, limbs) && items != [] && Kept(items[0])
    ensures Sound(root, s) && Sound(root, m) && Shape(s.files.c) && Shape(m.files.c) && Proper(items) &&
            Proper(items[1..])
    ensures dir < s.files.c.dirsSize && dir < m.files.c.dirsSize
    ensures Total(items[1..]) <= Total(items) <= k && Total(items) <= limbs
    ensures PopulateAll(little, root, s, dir, items) == PopulateAll(little, root, m, dir, items[1..])
    ensures OthersKept(s.files.c, m.files.c, dir)
    ensures Ready(little, root, m, dir, prefix, items[1..], k - (Total(items) - Total(items[1..])),
                  limbs - (Total(items) - Total(items[1..])))
    decreases items, 0
  {
    hide Inv, Shape, Sound, Room, OthersKept, Component, Components, Ready, Proper, Fitting, HandleFits, Enter,
      StoreHandle,
      Name, Kept, Descends, WalkDir, Walk, Frame, OneMore, NamesFree, FileHandles.LimbsOk, EntryKey, Join, InDirectory,
      StateRoom, LimbRoom, CacheRuns.KeepsWalks, SlotsFor, PopulateAll, WalksBut, PointersStay;
    ReadyParts(little, root, s, dir, prefix, items, k, limbs);
    FittingFirst(little, root, |Join(prefix)|, items);
    var item, rest := items[0], items[1..];
    FirstName(s.files.c, dir, items);
    ItemKinds(item);
    EnterFits(s.files, dir, item, prefix, k - 1, |rest|);
    EnterSound(root, s, dir, item);
    Entered(s.files, dir, item, prefix);
    var (f, o) := Enter(s.files, dir, item).value;
    var e, s1 := o.value, s.(files := f);
    FilesFrame(root, s, s1);
    FrameDir(root, s, s1, prefix);
    OneMoreParts(s.files.c, f.c, dir, items);
    var s2, below := s1, 0;
    if Descends(item) {
      s2 := BelowFits(little, root, s1, s.files.c.dirsSize, prefix, item, k - 1, limbs);
      below := Total(item.below);
      OthersKeptTransitive(s.files.c, f.c, s2.files.c, dir, s.files.c.dirsSize);
      FrameDir(root, s1, s2, prefix);
      StillReady(f.c, s2.files.c, dir, s.files.c.dirsSize, rest);
    }
    SoundParts(root, s2);
    StoreFits(little, root, s2, e, item, limbs - below - 1);
    StoreSound(little, root, s2, Some(e), item.entry.handle);
    m := StoreHandle(little, root, s2, Some(e), item.entry.handle).value;
    KeptStep(little, root, s, dir, items, s2, m);
    MakeReady(little, root, m, dir, prefix, rest, k - 1 - below, limbs - 1 - below);
  }

  lemma {:induction false} MakeReady(little: bool, root: seq<FileHandles.Word>, m: Populated, dir: nat,
                                     prefix: seq<seq<byte>>, items: seq<Listed>, k: nat, limbs: nat)
    requires Sound(root, m) && Shape(m.files.c) && dir < m.files.c.dirsSize && Proper(items)
    requires FileHandles.IsHandle(root) && Components(prefix) && WalkDir(m.files.c, prefix) == Some(dir)
    requires Fitting(little, root, |Join(prefix)|, items)
    requires Total(items) <= k && StateRoom(m.files, k) && Total(items) <= limbs && LimbRoom(m.limbs, limbs)
    requires dir < |m.files.c.dirs| && SlotsFor(m.files.c, dir, |items|) && NamesFree(m.files.c, dir, items)
    ensures Ready(little, root, m, dir, prefix, items, k, limbs)
  {
    hide Inv, Shape, Sound, Proper, Fitting, WalkDir, StateRoom, LimbRoom, NamesFree, Components, Join;
    ShapeBounds(m.files.c);
  }

  lemma {:induction false} FirstName(c: State, d: nat, items: seq<Listed>)
    requires Shape(c) && d < c.dirsSize && items != [] && NamesFree(c, d, items)
    requires Kept(items[0]) && Component(Name(items[0]))
    ensures InDirectory(c, d, Name(items[0])).None?
  {
    hide Shape, InDirectory, Name, Kept, Component;
  }

  lemma {:induction false} OneMoreParts(c: State, r: State, d: nat, items: seq<Listed>)
    requires Shape(c) && Shape(r) && d < c.dirsSize <= |c.dirs| && items != []
    requires OneMore(c, r, d, Name(items[0]), |items[1..]|) && NamesFree(c, d, items)
    requires forall i :: 0 <= i < |items[1..]| && Kept(items[1..][i]) ==> Name(items[1..][i]) != Name(items[0])
    ensures OthersKept(c, r, d) && d < r.dirsSize <= |r.dirs| && SlotsFor(r, d, |items[1..]|)
    ensures NamesFree(r, d, items[1..])
  {
    hide Shape, InDirectory, Name, Kept, Component, SlotsFor;
    FewerNames(c, d, items);
  }

  /** Below a directory just made there is nothing yet. */
  lemma {:induction false} BelowFits(little: bool, root: seq<FileHandles.Word>, s: Populated, x: nat,
                                     prefix: seq<seq<byte>>, item: Listed, k: nat, limbs: nat) returns (r: Populated)
    requires Sound(root, s) && Shape(s.files.c) && Descends(item) && ProperItem(item) && Proper(item.below)
    requires FileHandles.IsHandle(root) && Components(prefix) && Component(Name(item))
    requires x < s.files.c.dirsSize && WalkDir(s.files.c, prefix + [Name(item)]) == Some(x)
    requires Fitting(little, root, |Join(prefix)| + 1 + |Name(item)|, item.below)
    requires StateRoom(s.files, k) && Total(item.below) <= k && LimbRoom(s.limbs, limbs) && Total(item.below) <= limbs
    requires x < |s.files.c.dirs| && SlotsFor(s.files.c, x, 256)
    requires forall t :: Component(t) ==> InDirectory(s.files.c, x, t).None?
    ensures PopulateAll(little, root, s, x, item.below) == Done(r)
    ensures Sound(root, r) && Shape(r.files.c) && Frame(root, s, r) && OthersKept(s.files.c, r.files.c, x)
    ensures StateRoom(r.files, k - Total(item.below)) && LimbRoom(r.limbs, limbs - Total(item.below))
    decreases item.below, 3
  {
    hide Inv, Shape, Sound, OthersKept, Component, Ready, Proper, WalkDir, Frame, Name, Descends, Kept, Join,
      InDirectory, StateRoom, LimbRoom, ExactWalks, Settled, OnlyItems, HandleFits, Fitting, Total, Walk,
      PopulateAll, SlotsFor, NamesFree, Components, FileHandles.IsHandle, FileHandles.LimbsOk;
    SoundParts(root, s);
    var q, below := prefix + [Name(item)], item.below;
    JoinSnoc(prefix, Name(item));
    ComponentsSnoc(prefix, Name(item));
    FittingSize(little, root, |Join(q)|, below);
    NothingInTheWay(s.files.c, x, below);
    MakeReady(little, root, s, x, q, below, k, limbs);
    PopulatesWithRoom(little, root, s, x, q, below, k, limbs);
    PopulateSettles(little, root, s, x, q, below);
    r := PopulateAll(little, root, s, x, below).value;
  }

  lemma {:induction false} NothingInTheWay(c: State, d: nat, items: seq<Listed>)
    requires Shape(c) && d < c.dirsSize && d < |c.dirs| && SlotsFor(c, d, 256) && |items| <= 256
    requires forall t :: Component(t) ==> InDirectory(c, d, t).None?
    ensures SlotsFor(c, d, |items|) && NamesFree(c, d, items)
  {
    hide Shape, InDirectory, Name, Kept, Component;
  }

  /** What happens in another directory does not matter here. */
  lemma {:induction false} StillReady(c: State, r: State, d: nat, x: nat, items: seq<Listed>)
    requires Shape(c) && Shape(r) && OthersKept(c, r, x) && d < c.dirsSize <= |c.dirs| && d != x
    requires SlotsFor(c, d, |items|) && NamesFree(c, d, items)
    ensures d < r.dirsSize <= |r.dirs| && SlotsFor(r, d, |items|) && NamesFree(r, d, items)
  {
    hide Shape, InDirectory, Name, Kept, Component;
    ShapeBounds(r);
    assert SameDirectory(c, r, d);
  }

  lemma {:induction false} KeptStep(little: bool, root: seq<FileHandles.Word>, s: Populated, dir: nat,
                                    items: seq<Listed>, s2: Populated, m: Populated)
    requires Sound(root, s) && Shape(s.files.c) && dir < s.files.c.dirsSize && Proper(items) && items != []
    requires ProperItem(items[0]) && Proper(items[1..]) && Proper(items[0].below) && FileHandles.IsHandle(root)
    requires Kept(items[0]) && Enter(s.files, dir, items[0]).Done? && Enter(s.files, dir, items[0]).value.1.Some?
    requires Descends(items[0]) ==> items[0].entry.handle.Some?
    requires var (f, o) := Enter(s.files, dir, items[0]).value; var s1 := s.(files := f);
             && Shape(f.c) && Sound(root, s1)
             && (if Descends(items[0])
                 then LinksToDir(f.c, o.value) &&
                      PopulateAll(little, root, s1, f.c.meta[o.value].link.dir, items[0].below) == Done(s2)
                 else s2 == s1)
             && Sound(root, s2) && FileHandles.LimbsOk(s2.limbs)
             && StoreHandle(little, root, s2, o, items[0].entry.handle) == Done(m) && Sound(root, m)
             && dir < m.files.c.dirsSize
    ensures PopulateAll(little, root, s, dir, items) == PopulateAll(little, root, m, dir, items[1..])
  {
    hide Inv, Shape, Sound, Component, Proper, Enter, Name, Kept, Descends, StoreHandle, FileHandles.LimbsOk;
    SoundParts(root, s);
  }

  // An empty cache

  /** The arenas are large enough for `k` items. */
  predicate LargeEnough(nodes: seq<Node>, text: seq<byte>, entries: nat, dirs: seq<Dir>, toc: seq<TocEntry>,
                        metadataSize: nat, files: seq<File>, limbs: seq<FileHandles.Word>, k: nat)
  {
    && metadataSize + 256 * k < entries && 1 + k <= |dirs| && k <= |toc|
    && 2 + 2 * k <= |nodes| && 4 + 8200 * k <= |text|
    && k <= |files| && 8 * k < |limbs| <= FileHandles.TWO_TO_27
  }

  /**
   The cache as InitCache leaves it, but with the root's slot taken: a listing that fits is cached, and then LookupPath
   finds exactly the paths of the files and directories in it, at any depth.
   */
  lemma {:induction false} FreshCacheHoldsTheListing(
      little: bool, root: seq<FileHandles.Word>, nodes: seq<Node>, text: seq<byte>, entries: nat, dirs: seq<Dir>,
      toc: seq<TocEntry>, metadataSize: nat, files: seq<File>, limbs: seq<FileHandles.Word>, items: seq<Listed>)
    requires |nodes| > 0 && |dirs| > 0 && 1 <= metadataSize <= entries
    requires CacheRuns.InitialState(nodes, text, entries, dirs, toc, metadataSize).Done?
    requires LargeEnough(nodes, text, entries, dirs, toc, metadataSize, files, limbs, Total(items))
    requires FileHandles.IsHandle(root) && Proper(items) && Fitting(little, root, 0, items)
    ensures var c := CacheRuns.InitialState(nodes, text, entries, dirs, toc, metadataSize).value;
            var s := Populated(FileState(c, files, 0), FileHandles.Limbs(limbs, 0), map[]);
            && Sound(root, s) && 0 < c.dirsSize && PopulateAll(little, root, s, 0, items).Done?
            && var r := PopulateAll(little, root, s, 0, items).value.files.c;
               && Shape(r)
               && forall q :: Components(q) && q != [] && |Join(q)| < TWO_TO_16 ==>
                    |Join(q)| >= 1 && (LookupPath(r, Join(q)).Some? <==> InListing([], items, q))
  {
    hide Inv, Shape, Sound, CacheRuns.InitialState, EntryKey, InListing, Fitting, Proper, Total, WalkDir, LookupPath,
      NothingFound, PopulateAll, InDirectory, Join, Components, NamesFree, FileHandles.LimbsOk;
    CacheRuns.InitialInvariant(nodes, text, entries, dirs, toc, metadataSize);
    EmptySound(root, nodes, text, entries, dirs, toc, metadataSize, files, limbs);
    var c := CacheRuns.InitialState(nodes, text, entries, dirs, toc, metadataSize).value;
    var s := Populated(FileState(c, files, 0), FileHandles.Limbs(limbs, 0), map[]);
    FittingSize(little, root, 0, items);
    assert |Join([])| == 0 by { JoinEmpty(); }
    assert Components([]) by { NoComponents(); }
    EmptyNames(c, 0, items);
    MakeReady(little, root, s, 0, [], items, Total(items), Total(items));
    PopulatesWithRoom(little, root, s, 0, [], items, Total(items), Total(items));
    var r := PopulateAll(little, root, s, 0, items).value.files.c;
    forall q | Components(q) && q != [] && |Join(q)| < TWO_TO_16
      ensures |Join(q)| >= 1 && (LookupPath(r, Join(q)).Some? <==> InListing([], items, q))
    {
      CacheIsTheListing(little, root, s, items, q);
    }
  }

  lemma {:induction false} NoComponents()
    ensures Components([])
  {}

  lemma {:induction false} JoinEmpty()
    ensures Join([]) == []
  {}

  lemma {:induction false} EmptyNames(c: State, d: nat, items: seq<Listed>)
    requires Shape(c) && d < c.dirsSize && d < |c.dirs| && c.dirs[d].size == 0
    ensures NamesFree(c, d, items)
  {
    hide Shape, Name, Kept, Component, EntryKey, Lookup;
    forall t | Component(t)
      ensures InDirectory(c, d, t).None?
    {
      ComponentKey(t);
      EmptyDirectory(c, d, t, EntryKey(t));
    }
  }
}
