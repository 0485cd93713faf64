/**
 The cache of cache/cached_tree.c as it runs: arenas that are updated in place.

 Each method is proved equal to the function on values of the same purpose; what that function
 guarantees is proved in NameCache, DirectoryTree, PathCreation, FileCache and FileHandles.
 */
module CachedTree {
  import opened Outcomes
  import opened Alignment
  import opened Crc32c
  import opened NameCache
  import opened DirectoryTree
  import opened PathCreation
  import opened FileCache
  import FileHandles
  import CacheRuns

  // The capacities of InitCache

  const NAME_STORAGE := 65536
  const NAME_NODES := 4096
  const FILE_CAPACITY := 16384
  const METADATA_NODES := 131072
  const DIR_NODES := 2048
  const TOC_CAPACITY := 2048
  const LIMB_CAPACITY := 16384

  class Cache {
    const nodes: array<Node>
    var nodeSize: nat
    const text: array<byte>
    var textSize: nat
    const meta: array<Entry>
    var metaSize: nat
    const dirs: array<Dir>
    var dirsSize: nat
    const toc: array<TocEntry>
    var tocSize: nat
    const files: array<File>
    var filesSize: nat
    const limbs: array<FileHandles.Word>
    var limbsSize: nat
    var rootHandle: seq<FileHandles.Word>

    ghost function NamesValue(): Names
      reads this, nodes, text
    {
      Names(nodes[..], nodeSize, text[..], textSize)
    }

    ghost function Value(): State
      reads this, nodes, text, meta, dirs, toc
    {
      State(NamesValue(), meta[..], metaSize, dirs[..], dirsSize, toc[..], tocSize)
    }

    ghost function FilesValue(): FileState
      reads this, nodes, text, meta, dirs, toc, files
    {
      FileState(Value(), files[..], filesSize)
    }

    /** The arenas are different blocks of memory. */
    ghost predicate Separate() {
      && nodes as object != text as object
      && nodes as object != meta as object
      && nodes as object != dirs as object
      && nodes as object != toc as object
      && nodes as object != files as object
      && nodes as object != limbs as object
      && text as object != meta as object
      && text as object != dirs as object
      && text as object != toc as object
      && text as object != files as object
      && text as object != limbs as object
      && meta as object != dirs as object
      && meta as object != toc as object
      && meta as object != files as object
      && meta as object != limbs as object
      && dirs as object != toc as object
      && dirs as object != files as object
      && dirs as object != limbs as object
      && toc as object != files as object
      && toc as object != limbs as object
      && files as object != limbs as object
    }

    ghost predicate Valid()
      reads this, nodes, text, meta, dirs, toc
    {
      Separate() && Shape(Value())
    }

    // Initial state

    /** Empties the cache; metadata_size becomes 0 although the root's own slot is in use. */
    method ResetCache()
      requires Separate() && nodes.Length > 0
      modifies this, nodes
      ensures NamesValue() == CacheRuns.ResetNames(old(nodes[..]), text[..])
      ensures tocSize == 0 && metaSize == 0
      ensures dirsSize == old(dirsSize) && filesSize == old(filesSize) && limbsSize == old(limbsSize) &&
              rootHandle == old(rootHandle)
    {
      ghost var was := nodes[..];
      tocSize := 0;
      metaSize := 0;
      nodes[0] := nodes[0].(key := ROOT_KEY, left := 0, right := 0);
      assert nodes[..] == was[0 := was[0].(key := ROOT_KEY, left := 0, right := 0)];
      textSize := 0;
      nodeSize := 1;
    }

    constructor InitCache()
      ensures Valid()
      ensures exists ns: seq<Node>, t: seq<byte>, ds: seq<Dir>, ts: seq<TocEntry> ::
                |ns| > 0 && |ds| > 0 && CacheRuns.InitialState(ns, t, METADATA_NODES, ds, ts, 0) == Done(Value())
      ensures nodes.Length == 4096 && text.Length == 65536 && meta.Length == 131072
      ensures dirs.Length == 2048 && toc.Length == 2048 && files.Length == 16384 && limbs.Length == 16384
      ensures filesSize == 0 && limbsSize == 0 && FileHandles.LimbsOk(LimbsValue())
    {
      nodes := new Node[NAME_NODES];
      text := new byte[NAME_STORAGE];
      meta := new Entry[METADATA_NODES](i => Entry(0, 0, NoKind, false, Null));
      dirs := new Dir[DIR_NODES](i => Dir(0, 0, 0, 0));
      toc := new TocEntry[TOC_CAPACITY](i => TocEntry(0, 0, 0));
      files := new File[FILE_CAPACITY](i => EMPTY_FILE);
      limbs := new FileHandles.Word[LIMB_CAPACITY](i => 0);
      tocSize, textSize, dirsSize, filesSize, limbsSize := 0, 0, 0, 0, 0;
      metaSize := 1;
      nodeSize := 1;
      rootHandle := FileHandles.ZERO_HANDLE;
      new;
      Initialise();
    }

    /** The statements of InitCache after the allocations: the root directory and its name. */
    method Initialise()
      requires Separate() && nodes.Length > 1 && text.Length > 1 && dirs.Length > 0 && meta.Length > 0 && dirsSize == 0
      requires forall i :: 0 <= i < meta.Length ==> meta[i] == Entry(0, 0, NoKind, false, Null)
      requires dirs[0] == Dir(0, 0, 0, 0)
      modifies this, nodes, text, meta, dirs
      ensures Valid()
      ensures CacheRuns.InitialState(old(nodes[..]), old(text[..]), meta.Length, old(dirs[..]), toc[..], 0) ==
              Done(Value())
      ensures filesSize == old(filesSize) && limbsSize == old(limbsSize) && rootHandle == old(rootHandle)
    {
      hide GetOrAddName, EntryKey, NameCache.WellFormed, NameCache.Valid, Shape, Inv, CacheRuns.ResetNames, Denotes;
      ghost var ns, t, ds, ts := nodes[..], text[..], dirs[..], toc[..];
      ResetCache();
      CacheRuns.ResetNamesValid(ns, t);
      ValidIsWellFormed(CacheRuns.ResetNames(ns, t));
      CacheRuns.InitialStateDone(ns, t, meta.Length, ds, ts, 0);
      meta[ROOT] := meta[ROOT].(link := DirLink(dirsSize));
      dirsSize := dirsSize + 1;
      var ptr := GetOrAddNameByKey([SLASH], EntryKey([SLASH]));
      dirs[0] := dirs[0].(fullPath := ptr.value);
      assert dirs[..] == ds[0 := Dir(0, 0, 0, ptr.value)];
      CacheRuns.InitialStateIs(ns, t, meta.Length, ds, ts, 0, meta[..]);
      CacheRuns.InitialShape(ns, t, meta.Length, ds, ts, 0);
    }

    // Names

    /** memcpy of a name into the string table, and its NUL. */
    method CopyTerminated(start: nat, s: seq<byte>)
      requires start + |s| < text.Length
      modifies text
      ensures text[..] == old(text[..start]) + s + [0] + old(text[start + |s| + 1..])
    {
      forall i | 0 <= i < |s| {
        text[start + i] := s[i];
      }
      text[start + |s|] := 0;
    }

    /** The end of GetOrAddNameByKey: a new node below `branch`. */
    method InsertName(s: seq<byte>, key: Key, branch: nat, left: bool) returns (r: Outcome<nat>)
      requires Separate() && 1 <= nodeSize <= nodes.Length && branch < nodeSize
      modifies this`nodeSize, this`textSize, nodes, text
      ensures if old(nodeSize) >= nodes.Length then r == Stopped(AssertFailed)
              else if old(textSize) >= text.Length then r == Stopped(AssertFailed)
              else if old(textSize) + |s| >= text.Length then r == Stopped(OutOfBounds)
              else r == Done(old(textSize) + 4) && NamesValue() == Inserted(old(NamesValue()), s, key, branch, left)
    {
      hide Align4;
      ghost var was := NamesValue();
      if nodeSize >= nodes.Length {
        return Stopped(AssertFailed);
      }
      var next := nodeSize;
      nodeSize := nodeSize + 1;
      if left {
        nodes[branch] := nodes[branch].(left := next - branch);
      } else {
        nodes[branch] := nodes[branch].(right := next - branch);
      }
      if textSize >= text.Length {
        return Stopped(AssertFailed);
      }
      if textSize + |s| >= text.Length {
        return Stopped(OutOfBounds);
      }
      var start := textSize;
      CopyTerminated(start, s);
      textSize := textSize + Align4(|s| + 1);
      nodes[next] := Node(key, 0, 0, start + 4);
      ghost var linked :=
        if left then was.nodes[branch].(left := next - branch)
        else was.nodes[branch].(right := next - branch);
      assert nodes[..] == was.nodes[branch := linked][next := Node(key, 0, 0, start + 4)];
      r := Done(start + 4);
    }

    method GetOrAddNameByKey(name: seq<byte>, key: Key) returns (r: Outcome<nat>)
      requires Separate() && NameCache.WellFormed(NamesValue())
      modifies this`nodeSize, this`textSize, nodes, text
      ensures match GetOrAddName(old(NamesValue()), name, key)
              case Done((names, ptr)) => r == Done(ptr) && NamesValue() == names && NameCache.WellFormed(NamesValue())
              case Stopped(reason) => r == Stopped(reason)
    {
      hide CompareAt, Child, Retraceable, Inserted, WrappedDifference, Search, Memcmp;
      ghost var was := NamesValue();
      var length := KeyLength(key);
      if length == 0 {
        return Done(0);
      }
      if |name| < length {
        return Stopped(OutOfBounds);
      }
      var s := name[..length];
      SearchSound(was, s, key, 0);
      var branch := 0;
      while true
        invariant branch < nodeSize && NamesValue() == was
        invariant Search(was, s, key, branch) == Search(was, s, key, 0)
        decreases nodeSize - branch
      {
        var cmp := WrappedDifference(key, nodes[branch].key);
        CompareFields(was, s, key, branch);
        SearchTurn(was, s, key, branch);
        if cmp == 0 {
          var stored := nodes[branch].name - 4;
          cmp := Memcmp(s, text[stored..stored + length]);
          if cmp == 0 {
            return Done(nodes[branch].name);
          }
        }
        var next := branch + (if cmp < 0 then nodes[branch].left else nodes[branch].right);
        if next == branch {
          r := InsertName(s, key, branch, cmp < 0);
          if r.Done? {
            InsertedWellFormed(was, s, key, branch, cmp < 0);
          }
          return;
        }
        branch := next;
      }
    }

    /** Names longer than the length field of a key are refused. */
    method GetOrAddNameLength(name: seq<byte>) returns (r: Outcome<nat>)
      requires Separate() && NameCache.WellFormed(NamesValue())
      modifies this`nodeSize, this`textSize, nodes, text
      ensures |name| > 0xFFFF ==> r == Stopped(AssertFailed)
      ensures |name| <= 0xFFFF ==>
                match GetOrAddName(old(NamesValue()), name, EntryKey(name))
                case Done((names, ptr)) => r == Done(ptr) && NamesValue() == names && NameCache.WellFormed(NamesValue())
                case Stopped(reason) => r == Stopped(reason)
    {
      if |name| > 0xFFFF {
        return Stopped(AssertFailed);
      }
      r := GetOrAddNameByKey(name, EntryKey(name));
    }

    // Lookups

    method LookupInDirectoryByKey(dir: nat, name: seq<byte>, key: Key) returns (result: Option<nat>)
      requires Valid() && dir < dirsSize && KeyLength(key) <= |name|
      ensures result == Lookup(Value(), dir, name, key)
    {
      assert SliceOk(Value(), dir);
      var k := 0;
      while k < dirs[dir].size
        invariant k <= dirs[dir].size
        invariant Lookup(Value(), dir, name, key) == FindEntry(Value(), dir, name, key, k)
      {
        var entry := dirs[dir].first + k;
        if key == meta[entry].key && SameBytes(text[..], meta[entry].name, name, KeyLength(key)) {
          return Some(entry);
        }
        k := k + 1;
      }
      return None;
    }

    method LookupDirPathByKey(path: seq<byte>, key: Key) returns (result: Option<nat>)
      requires Valid() && KeyLength(key) <= |path|
      ensures result == FindToc(Value(), path, key, 0)
    {
      var i := 0;
      while i < tocSize
        invariant i <= tocSize
        invariant FindToc(Value(), path, key, 0) == FindToc(Value(), path, key, i)
      {
        if toc[i].key == key && SameBytes(text[..], toc[i].name, path, KeyLength(key)) {
          return Some(toc[i].entry);
        }
        i := i + 1;
      }
      return None;
    }

    method LastSlashIn(path: seq<byte>) returns (slash: nat)
      requires |path| >= 1
      ensures slash == LastSlash(path, |path| - 1)
    {
      slash := 0;
      var p := |path| - 1;
      while p > 0
        invariant 0 <= p < |path|
        invariant LastSlash(path, |path| - 1) == LastSlash(path, p)
      {
        if path[p] == SLASH {
          return p;
        }
        p := p - 1;
      }
    }

    method LookupPath(path: seq<byte>) returns (result: Option<nat>)
      requires Valid() && |path| >= 1
      ensures result == DirectoryTree.LookupPath(Value(), path)
    {
      hide Shape, FindToc, DirectoryTree.Lookup, LastSlash, EntryKey;
      var slash := LastSlashIn(path);
      var last := path[slash + 1..];
      var parent := Some(ROOT);
      if slash > 0 {
        parent := LookupDirPathByKey(path, EntryKey(path[..slash]));
      }
      RootReadable(Value());
      TocLinks(Value(), path, EntryKey(path[..slash]));
      if parent.None? {
        return None;
      }
      result := LookupInDirectoryByKey(meta[parent.value].link.dir, last, EntryKey(last));
    }

    /** The parent's entry and the start of the last component. */
    method LookupParent(path: seq<byte>) returns (parent: Option<nat>, start: nat)
      requires Valid() && |path| >= 1
      ensures (parent, start) == DirectoryTree.LookupParent(Value(), path)
    {
      var slash := LastSlashIn(path);
      parent := Some(ROOT);
      if slash > 1 {
        parent := LookupDirPathByKey(path, EntryKey(path[..slash]));
      }
      start := slash + 1;
    }

    // Creating entries

    method AllocateDirEntries(dir: nat) returns (r: Outcome<()>)
      requires Valid() && dir < dirsSize && dirs[dir].capacity == 0
      modifies this`metaSize, dirs
      ensures match AllocateEntries(old(Value()), dir)
              case Done(c) => r == Done(()) && Valid() && Value() == c
              case Stopped(reason) => r == Stopped(reason)
    {
      ghost var was := Value();
      if metaSize + DIR_ENTRIES >= meta.Length {
        return Stopped(AssertFailed);
      }
      var entries := metaSize;
      metaSize := metaSize + DIR_ENTRIES;
      dirs[dir] := dirs[dir].(first := entries, capacity := DIR_ENTRIES);
      assert dirs[..] == was.dirs[dir := dirs[dir]];
      r := Done(());
    }

    /** The statements common to both creations: allocate at the first use, take the next slot. */
    method TakeNextSlot(dir: nat) returns (r: Outcome<nat>)
      requires Valid() && dir < dirsSize
      modifies this`metaSize, dirs
      ensures match TakeSlot(old(Value()), dir)
              case Done((c, e)) => r == Done(e) && Valid() && Value() == c
              case Stopped(reason) => r == Stopped(reason)
    {
      if dirs[dir].capacity == 0 {
        var slice := AllocateDirEntries(dir);
        if slice.Stopped? {
          return Stopped(slice.reason);
        }
      }
      ghost var mid := Value();
      if dirs[dir].size >= dirs[dir].capacity {
        return Stopped(AssertFailed);
      }
      var e := dirs[dir].first + dirs[dir].size;
      dirs[dir] := dirs[dir].(size := dirs[dir].size + 1);
      assert dirs[..] == mid.dirs[dir := dirs[dir]];
      r := Done(e);
    }

    method CreateEntryInDirectoryByKey(dir: nat, name: seq<byte>, key: Key) returns (r: Outcome<Option<nat>>)
      requires Valid() && dir < dirsSize && KeyLength(key) <= |name|
      modifies this, nodes, text, meta, dirs
      ensures match CreateEntry(old(Value()), dir, name, key)
              case Done((c, e)) => r == Done(e) && Valid() && Value() == c
              case Stopped(reason) => r == Stopped(reason)
      ensures filesSize == old(filesSize) && limbsSize == old(limbsSize) && rootHandle == old(rootHandle)
    {
      hide TakeSlot, GetOrAddName, DirectoryTree.Lookup, NameCache.WellFormed, Shape;
      ghost var was := Value();
      var found := LookupInDirectoryByKey(dir, name, key);
      if found.Some? {
        return Done(None);
      }
      var slot := TakeNextSlot(dir);
      if slot.Stopped? {
        return Stopped(slot.reason);
      }
      var e := slot.value;
      ShapeNames(Value());
      ghost var taken := Value();
      assert taken.names == NamesValue();
      var ptr := GetOrAddNameByKey(name, key);
      if ptr.Stopped? {
        return Stopped(ptr.reason);
      }
      meta[e] := meta[e].(key := key, name := ptr.value);
      assert meta[..] == taken.meta[e := taken.meta[e].(key := key, name := ptr.value)];
      CreateEntryShape(was, dir, name, key);
      r := Done(Some(e));
    }

    /** The full path of a new directory, built in a 4096-byte buffer on the stack. */
    static method FillPathBuffer(parentPath: seq<byte>, name: seq<byte>) returns (full: seq<byte>)
      requires |parentPath| + 2 <= PATH_BUFFER && |parentPath| + 1 + |name| <= PATH_BUFFER
      ensures full == parentPath + [SLASH] + name
    {
      var fullPathBuffer := new byte[PATH_BUFFER];
      var length := |parentPath|;
      forall i | 0 <= i < length {
        fullPathBuffer[i] := parentPath[i];
      }
      fullPathBuffer[length] := SLASH;
      fullPathBuffer[length + 1] := 0;
      forall i | 0 <= i < |name| {
        fullPathBuffer[length + 1 + i] := name[i];
      }
      full := fullPathBuffer[..length + 1 + |name|];
    }

    method BuildFullPath(parent: nat, e: nat) returns (r: Outcome<seq<byte>>)
      requires Valid() && parent < dirsSize && e < meta.Length
      ensures r == FullPath(Value(), parent, e)
    {
      hide NameCache.WellFormed, SliceOk;
      var parentPath: seq<byte> := [];
      if parent != meta[ROOT].link.dir {
        if dirs[parent].fullPath == 0 {
          return Stopped(AssertFailed);
        }
        parentPath := CString(text[..], dirs[parent].fullPath);
      }
      if |parentPath| + 2 > PATH_BUFFER {
        return Stopped(OutOfBounds);
      }
      if meta[e].name == 0 {
        return Stopped(NullPointer);
      }
      var name := CString(text[..], meta[e].name);
      if |parentPath| + 1 + |name| > PATH_BUFFER {
        return Stopped(OutOfBounds);
      }
      var full := FillPathBuffer(parentPath, name);
      r := Done(full);
    }

    method GetOrCreateTocEntryForDir(parent: nat, e: nat) returns (r: Outcome<()>)
      requires Valid() && parent < dirsSize && LinksToDir(Value(), e)
      modifies this, nodes, text, dirs, toc
      ensures match RegisterDirectory(old(Value()), parent, e)
              case Done(c) => r == Done(()) && Valid() && Value() == c
              case Stopped(reason) => r == Stopped(reason)
      ensures filesSize == old(filesSize) && limbsSize == old(limbsSize) && rootHandle == old(rootHandle)
    {
      hide GetOrAddName, NameCache.WellFormed, FullPath, EntryKey, SliceOk, LinksToDir, Shape;
      LinkedDirectory(Value(), e);
      ghost var was := Value();
      var dir := meta[e].link.dir;
      if meta[e].kind != DirectoryKind {
        return Stopped(AssertFailed);
      }
      if dirs[dir].fullPath != 0 {
        return Stopped(AssertFailed);
      }
      var path := BuildFullPath(parent, e);
      if path.Stopped? {
        return Stopped(path.reason);
      }
      var key := EntryKey(path.value);
      ShapeNames(was);
      assert was.names == NamesValue();
      var ptr := GetOrAddNameByKey(path.value, key);
      if ptr.Stopped? {
        return Stopped(ptr.reason);
      }
      dirs[dir] := dirs[dir].(fullPath := ptr.value);
      assert dirs[..] == was.dirs[dir := was.dirs[dir].(fullPath := ptr.value)];
      if tocSize >= toc.Length {
        return Stopped(AssertFailed);
      }
      toc[tocSize] := TocEntry(key, ptr.value, e);
      assert toc[..] == was.toc[was.tocSize := TocEntry(key, ptr.value, e)];
      tocSize := tocSize + 1;
      RegisterDirectoryShape(was, parent, e);
      r := Done(());
    }

    /** The record of a new directory, and the entry that leads to it. */
    method LinkNewDirectory(e: nat, key: Key, name: nat)
      requires Separate() && dirsSize < dirs.Length && e < meta.Length
      modifies this`dirsSize, meta, dirs
      ensures Value() == LinkDirectory(old(Value()), e, NamesValue(), name, key)
      ensures NamesValue() == old(NamesValue())
    {
      ghost var was := Value();
      var created := dirsSize;
      dirsSize := dirsSize + 1;
      dirs[created] := Dir(0, 0, 0, 0);
      meta[e] := meta[e].(key := key, name := name, kind := DirectoryKind, link := DirLink(created));
      assert dirs[..] == was.dirs[created := Dir(0, 0, 0, 0)];
      assert meta[..] == was.meta[e := meta[e]];
    }

    /** What follows once the new directory has its slot. */
    method MakeNewDirectory(dir: nat, e: nat, name: seq<byte>, key: Key) returns (r: Outcome<()>)
      requires Valid() && dir < dirsSize && e < meta.Length && KeyLength(key) <= |name|
      modifies this, nodes, text, meta, dirs, toc
      ensures match NewDirectory(old(Value()), dir, e, name, key)
              case Done((c, o)) => r == Done(()) && o == Some(e) && Valid() && Value() == c
              case Stopped(reason) => r == Stopped(reason)
      ensures filesSize == old(filesSize) && limbsSize == old(limbsSize) && rootHandle == old(rootHandle)
    {
      hide GetOrAddName, NameCache.WellFormed, Shape, RegisterDirectory, EntryKey;
      ShapeNames(Value());
      ShapeBounds(Value());
      ghost var was := Value();
      if dirsSize >= dirs.Length {
        return Stopped(AssertFailed);
      }
      assert was.names == NamesValue();
      var ptr := GetOrAddNameByKey(name, key);
      if ptr.Stopped? {
        return Stopped(ptr.reason);
      }
      LinkNewDirectory(e, key, ptr.value);
      assert Value() == LinkDirectory(was, e, NamesValue(), ptr.value, key);
      LinkDirectoryShape(was, e, NamesValue(), ptr.value, key);
      var registered := GetOrCreateTocEntryForDir(dir, e);
      if registered.Stopped? {
        return Stopped(registered.reason);
      }
      r := Done(());
    }

    method GetOrCreateSubdirectoryByKey(dir: nat, name: seq<byte>, key: Key) returns (r: Outcome<Option<nat>>)
      requires Valid() && dir < dirsSize && KeyLength(key) <= |name|
      modifies this, nodes, text, meta, dirs, toc
      ensures match Subdirectory(old(Value()), dir, name, key)
              case Done((c, e)) => r == Done(e) && Valid() && Value() == c
              case Stopped(reason) => r == Stopped(reason)
      ensures filesSize == old(filesSize) && limbsSize == old(limbsSize) && rootHandle == old(rootHandle)
    {
      hide TakeSlot, NewDirectory, DirectoryTree.Lookup, Shape;
      ghost var was := Value();
      var found := LookupInDirectoryByKey(dir, name, key);
      if found.Some? {
        LookupInArena(was, dir, name, key);
        return Done(if meta[found.value].kind == DirectoryKind then found else None);
      }
      var slot := TakeNextSlot(dir);
      if slot.Stopped? {
        return Stopped(slot.reason);
      }
      var e := slot.value;
      var created := MakeNewDirectory(dir, e, name, key);
      if created.Stopped? {
        return Stopped(created.reason);
      }
      SubdirectoryShape(was, dir, name, key);
      r := Done(Some(e));
    }

    // Creation by full path

    /** The last statements of GetOrCreateEntryFromFullPath. */
    method CreateLastSegment(dir: nat, name: seq<byte>, key: Key) returns (r: Outcome<Option<nat>>)
      requires Valid() && dir < dirsSize
      modifies this, nodes, text, meta, dirs
      ensures match FinalSegment(old(Value()), dir, name, key)
              case Done((c, e)) => r == Done(e) && Valid() && Value() == c
              case Stopped(reason) => r == Stopped(reason)
      ensures filesSize == old(filesSize) && limbsSize == old(limbsSize) && rootHandle == old(rootHandle)
    {
      hide Shape, CreateEntry, DirectoryTree.Lookup;
      if |name| < KeyLength(key) {
        return Stopped(OutOfBounds);
      }
      var found := LookupInDirectoryByKey(dir, name, key);
      if found.Some? {
        return Done(found);
      }
      r := CreateEntryInDirectoryByKey(dir, name, key);
    }

    /** `mem` is the memory at full_path; its first `n` bytes are the path. */
    method GetOrCreateEntryFromFullPath(mem: seq<byte>, n: nat) returns (r: Outcome<Option<nat>>)
      requires Valid() && 1 <= n <= |mem|
      modifies this, nodes, text, meta, dirs, toc
      ensures match CreateFromPath(old(Value()), mem, n)
              case Done((c, e)) => r == Done(e) && Valid() && Value() == c
              case Stopped(reason) => r == Stopped(reason)
      ensures filesSize == old(filesSize) && limbsSize == old(limbsSize) && rootHandle == old(rootHandle)
    {
      hide Shape, FinalSegment, EntryKey, DirectoryTree.LookupParent, MakeAncestors;
      if mem[0] != SLASH {
        return Stopped(AssertFailed);
      }
      var parent, start := LookupParent(mem[..n]);
      if parent.Some? {
        r := CreateLastSegment(meta[parent.value].link.dir, mem[start..], EntryKey(mem[start..n]));
        return;
      }
      RootReadable(Value());
      var reached := CreateAncestors(mem, n);
      if reached.Stopped? {
        return Stopped(reached.reason);
      }
      var (currentDir, begin, segmentKey) := reached.value;
      if segmentKey == 0 {
        segmentKey := EntryKey(mem[begin..n]);
      }
      r := CreateLastSegment(currentDir, mem[begin..], segmentKey);
    }

    /** The loop over the segments before the last. */
    method CreateAncestors(mem: seq<byte>, n: nat) returns (r: Outcome<(nat, nat, Key)>)
      requires Valid() && 1 <= n <= |mem| && RootDir(Value()) < dirsSize
      modifies this, nodes, text, meta, dirs, toc
      ensures match MakeAncestors(old(Value()), RootDir(old(Value())), mem, n, 1, 0)
              case Done(m) => r == Done((m.d, m.begin, m.key)) && Valid() && Value() == m.c
              case Stopped(reason) => r == Stopped(reason)
      ensures filesSize == old(filesSize) && limbsSize == old(limbsSize) && rootHandle == old(rootHandle)
    {
      hide Shape, Subdirectory, EntryKey, NextSlash, MakeAncestors;
      ghost var was := Value();
      RootReadable(was);
      var currentDir: nat := meta[ROOT].link.dir;
      var begin := 1;
      var segmentKey: Key := 0;
      var end := NextSlash(mem[..n], begin);
      while end != n
        invariant Valid() && currentDir < dirsSize && begin <= n && end == NextSlash(mem[..n], begin) <= n
        invariant MakeAncestors(Value(), currentDir, mem, n, begin, segmentKey) ==
                  MakeAncestors(was, RootDir(was), mem, n, 1, 0)
        invariant filesSize == old(filesSize) && limbsSize == old(limbsSize) && rootHandle == old(rootHandle)
        decreases n - begin
      {
        AncestorsTurn(Value(), currentDir, mem, n, begin, segmentKey);
        segmentKey := EntryKey(mem[begin..end]);
        var created := GetOrCreateSubdirectoryByKey(currentDir, mem[begin..], segmentKey);
        if created.Stopped? {
          return Stopped(created.reason);
        }
        if created.value.None? {
          return Stopped(NullPointer);
        }
        currentDir := meta[created.value.value].link.dir;
        begin := end + 1;
        end := NextSlash(mem[..n], begin);
      }
      AncestorsTurn(Value(), currentDir, mem, n, begin, segmentKey);
      r := Done((currentDir, begin, segmentKey));
    }

    // Files

    method CreateFileEntry(dir: nat, name: seq<byte>) returns (r: Outcome<nat>)
      requires Valid() && dir < dirsSize
      modifies this, nodes, text, meta, dirs, files
      ensures match CreateFile(old(FilesValue()), dir, name)
              case Done((s, e)) => r == Done(e) && Separate() && FilesValue() == s
              case Stopped(reason) => r == Stopped(reason)
    {
      hide Shape, CreateEntry, EntryKey, MakeFile;
      ghost var was := FilesValue();
      var entry := CreateEntryInDirectoryByKey(dir, name, EntryKey(name));
      if entry.Stopped? {
        return Stopped(entry.reason);
      }
      if entry.value.None? {
        return Stopped(AssertFailed);
      }
      var e := entry.value.value;
      if e >= meta.Length {
        return Stopped(OutOfBounds);
      }
      assert FilesValue() == was.(c := Value());
      var made := AttachFile(e, false);
      if made.Stopped? {
        return Stopped(made.reason);
      }
      r := Done(e);
    }

    /** The entry becomes a file with an empty record from the file arena. */
    method AttachFile(e: nat, isVirtual: bool) returns (r: Outcome<()>)
      requires Separate() && e < meta.Length
      modifies this`filesSize, meta, files
      ensures match MakeFile(old(FilesValue()), e, isVirtual)
              case Done(s) => r == Done(()) && FilesValue() == s
              case Stopped(reason) => r == Stopped(reason)
    {
      ghost var was := FilesValue();
      if filesSize >= files.Length {
        return Stopped(AssertFailed);
      }
      var file := filesSize;
      filesSize := filesSize + 1;
      meta[e] := meta[e].(kind := FileKind, link := FileLink(file), isVirtual := isVirtual || meta[e].isVirtual);
      files[file] := EMPTY_FILE;
      assert meta[..] == was.c.meta[e := meta[e]];
      assert files[..] == was.files[file := EMPTY_FILE];
      r := Done(());
    }

    /** Adds or updates a file; `path` is a C string without its NUL, `content` None for a null pointer. */
    method AddFile(path: seq<byte>, content: Option<seq<byte>>, isVirtual: bool) returns (r: Outcome<nat>)
      requires Valid()
      modifies this, nodes, text, meta, dirs, toc, files
      ensures match FileCache.AddFile(old(FilesValue()), path, content, isVirtual)
              case Done((s, e)) => r == Done(e) && Separate() && FilesValue() == s
              case Stopped(reason) => r == Stopped(reason)
    {
      hide Shape, CreateFromPath, DirectoryTree.LookupPath, MakeFile, Rewrite, FindOrMakeFile;
      var found := FindOrCreateFile(path, isVirtual);
      if found.Stopped? {
        return Stopped(found.reason);
      }
      var e := found.value;
      ghost var mid := FilesValue();
      if e >= meta.Length || meta[e].isVirtual != isVirtual {
        return Stopped(AssertFailed);
      }
      if meta[e].kind != FileKind {
        return Stopped(AssertFailed);
      }
      if content.Some? {
        if !meta[e].link.FileLink? || meta[e].link.file >= files.Length {
          return Stopped(NullPointer);
        }
        var file := meta[e].link.file;
        var written := WriteContent(files[file], content.value);
        if written.Stopped? {
          return Stopped(written.reason);
        }
        files[file] := written.value;
        assert files[..] == mid.files[file := written.value];
      }
      r := Done(e);
    }

    method FindOrCreateFile(path: seq<byte>, isVirtual: bool) returns (r: Outcome<nat>)
      requires Valid()
      modifies this, nodes, text, meta, dirs, toc, files
      ensures match FindOrMakeFile(old(FilesValue()), path, isVirtual)
              case Done((s, e)) => r == Done(e) && Separate() && FilesValue() == s
              case Stopped(reason) => r == Stopped(reason)
    {
      hide Shape, CreateFromPath, DirectoryTree.LookupPath, MakeFile;
      ghost var was := FilesValue();
      var n := PathLength(path);
      if n == 0 {
        return Stopped(OutOfBounds);
      }
      var found := LookupPath(path[..n]);
      if found.Some? {
        return if found.value < meta.Length then Done(found.value) else Stopped(OutOfBounds);
      }
      var created := GetOrCreateEntryFromFullPath(path + [0], n);
      if created.Stopped? {
        return Stopped(created.reason);
      }
      if created.value.None? {
        return Stopped(NullPointer);
      }
      var e := created.value.value;
      if e >= meta.Length {
        return Stopped(OutOfBounds);
      }
      assert FilesValue() == was.(c := Value());
      var made := AttachFile(e, isVirtual);
      if made.Stopped? {
        return Stopped(made.reason);
      }
      r := Done(e);
    }

    /** Compares size and checksum, and copies the content unless both agree. */
    static method WriteContent(f: File, content: seq<byte>) returns (r: Outcome<File>)
      ensures r == Rewrite(f, content)
    {
      var crc := SingleTableCrc32c(INITIAL, content);
      if |content| == f.size && crc == f.crc {
        return Done(f);
      }
      var data := f.data;
      if |content| != f.size {
        data := Some(content);
      } else if data.None? && content != [] {
        return Stopped(NullPointer);
      } else if data.Some? {
        data := Some(content);
      }
      r := Done(File(crc, |content|, data));
    }

    // File handles

    static method MeasureHandle(h: seq<FileHandles.Word>) returns (length: nat)
      requires FileHandles.IsHandle(h)
      ensures length == FileHandles.HandleLength(h)
    {
      length := 0;
      while length < FileHandles.MEASURED_WORDS
        invariant length <= FileHandles.MEASURED_WORDS
        invariant FileHandles.HandleLength(h) == FileHandles.LengthFrom(h, length)
      {
        if h[length] == 0 {
          break;
        }
        length := length + 1;
      }
    }

    ghost function LimbsValue(): FileHandles.Limbs
      reads this, limbs
    {
      FileHandles.Limbs(limbs[..], limbsSize)
    }

    /** The copying loop of handleToPtr. */
    method CopyLimbs(s: seq<FileHandles.Word>)
      requires limbsSize + |s| <= limbs.Length
      modifies limbs
      ensures limbs[..] == old(limbs[..limbsSize]) + s + old(limbs[limbsSize + |s|..])
    {
      var dst := 0;
      while dst < |s|
        invariant dst <= |s|
        invariant forall i :: 0 <= i < limbs.Length ==>
                    limbs[i] == if limbsSize <= i < limbsSize + dst then s[i - limbsSize] else old(limbs[i])
      {
        limbs[limbsSize + dst] := s[dst];
        dst := dst + 1;
      }
    }

    /** The copying loop of ptrToHandle. */
    static method CopyOver(base: seq<FileHandles.Word>, start: nat, s: seq<FileHandles.Word>)
      returns (r: seq<FileHandles.Word>)
      requires FileHandles.IsHandle(base) && start + |s| <= FileHandles.HANDLE_WORDS
      ensures r == FileHandles.Overlay(base, start, s)
    {
      r := base;
      var i := 0;
      while i < |s|
        invariant i <= |s| && |r| == |base|
        invariant forall k :: 0 <= k < |r| ==> r[k] == if start <= k < start + i then s[k - start] else base[k]
      {
        r := r[start + i := s[i]];
        i := i + 1;
      }
    }

    method AppendLimbs(s: seq<FileHandles.Word>)
      requires limbsSize + |s| <= limbs.Length
      modifies this`limbsSize, limbs
      ensures LimbsValue() == FileHandles.Append(old(LimbsValue()), s)
    {
      CopyLimbs(s);
      limbsSize := limbsSize + |s|;
    }

    method HandleToPtr(h: seq<FileHandles.Word>) returns (r: Outcome<FileHandles.Word>)
      requires FileHandles.IsHandle(h) && FileHandles.IsHandle(rootHandle) && FileHandles.LimbsOk(LimbsValue())
      modifies this`limbsSize, limbs
      ensures match FileHandles.HandleToPtr(rootHandle, old(LimbsValue()), h)
              case Done((l, v)) => r == Done(v) && LimbsValue() == l
              case Stopped(reason) => r == Stopped(reason)
    {
      hide FileHandles.HandleLength, FileHandles.PackPointer, FileHandles.Append, FileHandles.NothingAfter;
      var length := MeasureHandle(h);
      if rootHandle == h {
        return Done(FileHandles.ROOT_POINTER);
      }
      var from := 0;
      var compressed := false;
      if h[0] == FileHandles.COMPRESSIBLE {
        if h[1] == rootHandle[1] && h[2] == rootHandle[2] {
          compressed := true;
          if length < 3 {
            var last := limbsSize + length - 3;
            return if last < 0 || last >= limbs.Length then Stopped(AssertFailed) else Stopped(OutOfBounds);
          }
          length := length - 3;
          from := 3;
        }
      }
      if limbsSize + length >= limbs.Length {
        return Stopped(AssertFailed);
      }
      var v := FileHandles.PackPointer(compressed, length, limbsSize);
      AppendLimbs(h[from..from + length]);
      r := Done(v);
    }

    method PtrToHandle(v: FileHandles.Word) returns (r: Outcome<seq<FileHandles.Word>>)
      requires FileHandles.IsHandle(rootHandle)
      ensures r == FileHandles.PtrToHandle(rootHandle, LimbsValue(), v)
    {
      hide FileHandles.StartOf, FileHandles.LengthOf, FileHandles.Overlay;
      var ptr := FileHandles.StartOf(v);
      var length := FileHandles.LengthOf(v);
      var result := FileHandles.ZERO_HANDLE;
      if v == FileHandles.ROOT_POINTER {
        result := rootHandle;
      }
      var start := 0;
      if v >= FileHandles.TWO_TO_31 {
        result := result[0 := FileHandles.COMPRESSIBLE][1 := rootHandle[1]][2 := rootHandle[2]];
        start := 3;
      }
      if length > 0 && ptr + length > limbs.Length {
        return Stopped(OutOfBounds);
      }
      if start + length > FileHandles.HANDLE_WORDS {
        return Stopped(OutOfBounds);
      }
      result := CopyOver(result, start, if length > 0 then limbs[ptr..ptr + length] else []);
      r := Done(result);
    }
  }

  lemma RootReadable(c: State)
    requires Shape(c)
    ensures |c.meta| > ROOT && c.meta[ROOT].link.DirLink? && c.meta[ROOT].link.dir == RootDir(c) < c.dirsSize
  {}

  lemma LookupInArena(c: State, d: nat, name: seq<byte>, key: Key)
    requires Shape(c) && d < c.dirsSize && KeyLength(key) <= |name|
    ensures match Lookup(c, d, name, key) case Some(e) => e < |c.meta| case None => true
  {
    FindEntryInSlice(c, d, name, key, 0);
  }

  /** The table leads to directories. */
  lemma TocLinks(c: State, path: seq<byte>, key: Key)
    requires Shape(c) && KeyLength(key) <= |path|
    ensures FindToc(c, path, key, 0).Some? ==> LinksToDir(c, FindToc(c, path, key, 0).value)
  {
    hide NameCache.WellFormed, FindToc;
    FindTocInToc(c, path, key, 0);
  }

  lemma LinkedDirectory(c: State, e: nat)
    requires Shape(c) && LinksToDir(c, e)
    ensures e < |c.meta| && c.meta[e].link.DirLink? && c.meta[e].link.dir < c.dirsSize <= |c.dirs|
    ensures c.tocSize <= |c.toc|
  {}
}
