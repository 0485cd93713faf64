/**
 The metadata cache of cache/cached_tree.c, on values: directories as slices of one entry arena, and
 the table of contents that maps full directory paths to entries.

 A pointer into an arena is its index.  Every function here follows the C function of the same
 purpose statement by statement; class Cache in CachedTree.dfy runs them on arrays.
 */
module DirectoryTree {
  import opened Outcomes
  import opened Crc32c
  import opened NameCache

  const SLASH: byte := 47
  const DIR_ENTRIES := 256
  const PATH_BUFFER := 4096

  datatype Kind = NoKind | FileKind | DirectoryKind

  /** The union of cached_file and cached_dir. */
  datatype Link = Null | DirLink(dir: nat) | FileLink(file: nat)

  /** A meta_data_entry_t. */
  datatype Entry = Entry(key: Key, name: nat, kind: Kind, isVirtual: bool, link: Link)

  /** A cached_dir_t: its entries are `size` of the `capacity` slots from `first` on. */
  datatype Dir = Dir(first: nat, size: nat, capacity: nat, fullPath: nat)

  datatype TocEntry = TocEntry(key: Key, name: nat, entry: nat)

  /** The arenas with their fill counts.  The root entry is entry 0. */
  datatype State = State(names: Names,
                         meta: seq<Entry>, metaSize: nat,
                         dirs: seq<Dir>, dirsSize: nat,
                         toc: seq<TocEntry>, tocSize: nat)

  const ROOT := 0

  predicate SliceOk(c: State, d: nat)
    requires d < |c.dirs|
  {
    && c.dirs[d].size <= c.dirs[d].capacity
    && c.dirs[d].first + c.dirs[d].capacity <= c.metaSize
  }

  predicate LinksToDir(c: State, e: nat) {
    e < |c.meta| && c.meta[e].link.DirLink? && c.meta[e].link.dir < c.dirsSize
  }

  /** What the operations need to stay inside the arenas. */
  predicate Shape(c: State) {
    && NameCache.WellFormed(c.names)
    && c.metaSize <= |c.meta|
    && c.dirsSize <= |c.dirs|
    && c.tocSize <= |c.toc|
    && LinksToDir(c, ROOT)
    && (forall d :: 0 <= d < c.dirsSize ==> SliceOk(c, d))
    && (forall i :: 0 <= i < c.tocSize ==> LinksToDir(c, c.toc[i].entry))
    && (forall e :: 0 <= e < |c.meta| && c.meta[e].kind == DirectoryKind ==> LinksToDir(c, e))
  }

  function RootDir(c: State): nat
    requires Shape(c)
  {
    c.meta[ROOT].link.dir
  }

  // Lookups

  /** memcmp of the first `length` bytes at `name` with the stored name. */
  predicate SameBytes(text: seq<byte>, stored: nat, name: seq<byte>, length: nat)
    requires length <= |name|
  {
    length == 0 || (4 <= stored && stored - 4 + length <= |text| && NameAt(text, stored, length) == name[..length])
  }

  predicate EntryMatches(c: State, e: nat, name: seq<byte>, key: Key)
    requires e < |c.meta| && KeyLength(key) <= |name|
  {
    c.meta[e].key == key && SameBytes(c.names.text, c.meta[e].name, name, KeyLength(key))
  }

  /** LookupInDirectoryByKey, from slot `k` of directory `d` on. */
  function FindEntry(c: State, d: nat, name: seq<byte>, key: Key, k: nat): Option<nat>
    requires Shape(c) && d < c.dirsSize && k <= c.dirs[d].size
    requires KeyLength(key) <= |name|
    decreases c.dirs[d].size - k
  {
    assert SliceOk(c, d);
    if k == c.dirs[d].size then None
    else if EntryMatches(c, c.dirs[d].first + k, name, key) then Some(c.dirs[d].first + k)
    else FindEntry(c, d, name, key, k + 1)
  }

  function Lookup(c: State, d: nat, name: seq<byte>, key: Key): Option<nat>
    requires Shape(c) && d < c.dirsSize
    requires KeyLength(key) <= |name|
  {
    FindEntry(c, d, name, key, 0)
  }

  predicate TocMatches(c: State, i: nat, path: seq<byte>, key: Key)
    requires i < |c.toc| && KeyLength(key) <= |path|
  {
    c.toc[i].key == key && SameBytes(c.names.text, c.toc[i].name, path, KeyLength(key))
  }

  /** LookupDirPathByKey, from table entry `i` on. */
  function FindToc(c: State, path: seq<byte>, key: Key, i: nat): Option<nat>
    requires Shape(c) && i <= c.tocSize
    requires KeyLength(key) <= |path|
    decreases c.tocSize - i
  {
    if i == c.tocSize then None
    else if TocMatches(c, i, path, key) then Some(c.toc[i].entry)
    else FindToc(c, path, key, i + 1)
  }

  /** The position of the last '/' after the first character, or 0. */
  function LastSlash(path: seq<byte>, p: nat): (slash: nat)
    requires p < |path|
    ensures slash <= p
  {
    if p == 0 then 0
    else if path[p] == SLASH then p
    else LastSlash(path, p - 1)
  }

  function LookupPath(c: State, path: seq<byte>): Option<nat>
    requires Shape(c) && |path| >= 1
  {
    var slash := LastSlash(path, |path| - 1);
    var last := path[slash + 1..];
    var parent := if slash > 0 then FindToc(c, path, EntryKey(path[..slash]), 0) else Some(ROOT);
    match parent
    case None => None
    case Some(e) =>
      assert LinksToDir(c, e) by { FindTocInToc(c, path, EntryKey(path[..slash]), 0); }
      Lookup(c, c.meta[e].link.dir, last, EntryKey(last))
  }

  lemma {:induction false} FindTocInToc(c: State, path: seq<byte>, key: Key, i: nat)
    requires Shape(c) && i <= c.tocSize
    requires KeyLength(key) <= |path|
    ensures match FindToc(c, path, key, i)
            case Some(e) => exists j :: i <= j < c.tocSize && c.toc[j].entry == e && TocMatches(c, j, path, key)
            case None => forall j :: i <= j < c.tocSize ==> !TocMatches(c, j, path, key)
    decreases c.tocSize - i
  {
    if i < c.tocSize && !TocMatches(c, i, path, key) {
      FindTocInToc(c, path, key, i + 1);
    }
  }

  lemma {:induction false} FindEntryInSlice(c: State, d: nat, name: seq<byte>, key: Key, k: nat)
    requires Shape(c) && d < c.dirsSize && k <= c.dirs[d].size
    requires KeyLength(key) <= |name|
    ensures SliceOk(c, d)
    ensures match FindEntry(c, d, name, key, k)
            case Some(e) => c.dirs[d].first + k <= e < c.dirs[d].first + c.dirs[d].size && EntryMatches(c, e, name, key)
            case None => forall e :: c.dirs[d].first + k <= e < c.dirs[d].first + c.dirs[d].size ==>
              !EntryMatches(c, e, name, key)
    decreases c.dirs[d].size - k
  {
    assert SliceOk(c, d);
    if k < c.dirs[d].size && !EntryMatches(c, c.dirs[d].first + k, name, key) {
      FindEntryInSlice(c, d, name, key, k + 1);
    }
  }

  // Creating entries

  lemma DirChangeKeepsShape(c: State, r: State, d: nat)
    requires Shape(c) && d < c.dirsSize
    requires r == c.(dirs := r.dirs, metaSize := r.metaSize) && c.metaSize <= r.metaSize <= |c.meta|
    requires |r.dirs| == |c.dirs| && r.dirs == c.dirs[d := r.dirs[d]] && SliceOk(r, d)
    ensures Shape(r)
  {
    forall x | 0 <= x < r.dirsSize
      ensures SliceOk(r, x)
    {
      assert SliceOk(c, x);
    }
    forall i | 0 <= i < r.tocSize
      ensures LinksToDir(r, r.toc[i].entry)
    {
      assert LinksToDir(c, c.toc[i].entry);
    }
    forall e | 0 <= e < |r.meta| && r.meta[e].kind == DirectoryKind
      ensures LinksToDir(r, e)
    {
      assert c.meta[e].kind == DirectoryKind ==> LinksToDir(c, e);
    }
  }

  /** allocate_dir_entires: the next 256 slots of the arena go to directory `d`. */
  function AllocateEntries(c: State, d: nat): (r: Outcome<State>)
    requires Shape(c) && d < c.dirsSize && c.dirs[d].capacity == 0
    ensures r.Done? ==> Shape(r.value) && r.value.dirsSize == c.dirsSize
  {
    if c.metaSize + DIR_ENTRIES >= |c.meta| then Stopped(AssertFailed)
    else
      var r := c.(metaSize := c.metaSize + DIR_ENTRIES,
                  dirs := c.dirs[d := c.dirs[d].(first := c.metaSize, capacity := DIR_ENTRIES)]);
      assert SliceOk(c, d);
      DirChangeKeepsShape(c, r, d);
      Done(r)
  }

  /** Takes the next free slot of directory `d`, allocating its slice at the first use. */
  function TakeSlot(c: State, d: nat): (r: Outcome<(State, nat)>)
    requires Shape(c) && d < c.dirsSize
    ensures r.Done? ==>
            Shape(r.value.0) && r.value.1 < |c.meta| && r.value.0.dirsSize == c.dirsSize && |r.value.0.meta| == |c.meta|
  {
    var c1 :- if c.dirs[d].capacity == 0 then AllocateEntries(c, d) else Done(c);
    if c1.dirs[d].size >= c1.dirs[d].capacity then Stopped(AssertFailed)
    else
      var r := c1.(dirs := c1.dirs[d := c1.dirs[d].(size := c1.dirs[d].size + 1)]);
      assert SliceOk(c1, d);
      DirChangeKeepsShape(c1, r, d);
      Done((r, c1.dirs[d].first + c1.dirs[d].size))
  }

  /** CreateEntryInDirectoryByKey; None when the name is taken. */
  function CreateEntry(c: State, d: nat, name: seq<byte>, key: Key): Outcome<(State, Option<nat>)>
    requires Shape(c) && d < c.dirsSize
    requires KeyLength(key) <= |name|
  {
    if Lookup(c, d, name, key).Some? then Done((c, None))
    else
      var (c1, e) :- TakeSlot(c, d);
      var (names, ptr) :- GetOrAddName(c1.names, name, key);
      Done((c1.(names := names, meta := c1.meta[e := c1.meta[e].(key := key, name := ptr)]), Some(e)))
  }

  /** The C string at a name pointer. */
  function CString(text: seq<byte>, name: nat): seq<byte> {
    if name < 4 then [] else StringFrom(text, name - 4)
  }

  function StringFrom(text: seq<byte>, p: nat): seq<byte>
    decreases |text| - p
  {
    if p >= |text| || text[p] == 0 then [] else [text[p]] + StringFrom(text, p + 1)
  }

  /** The path GetOrCreateTocEntryForDir builds in its 4096-byte buffer. */
  function FullPath(c: State, d: nat, e: nat): Outcome<seq<byte>>
    requires Shape(c) && d < c.dirsSize && e < |c.meta|
  {
    if d != RootDir(c) && c.dirs[d].fullPath == 0 then Stopped(AssertFailed)
    else
      var parentPath := if d != RootDir(c) then CString(c.names.text, c.dirs[d].fullPath) else [];
      if |parentPath| + 2 > PATH_BUFFER then Stopped(OutOfBounds)
      else if c.meta[e].name == 0 then Stopped(NullPointer)
      else
        var name := CString(c.names.text, c.meta[e].name);
        if |parentPath| + 1 + |name| > PATH_BUFFER then Stopped(OutOfBounds)
        else Done(parentPath + [SLASH] + name)
  }

  /** GetOrCreateTocEntryForDir for the directory entry `e` in directory `d`. */
  function RegisterDirectory(c: State, d: nat, e: nat): Outcome<State>
    requires Shape(c) && d < c.dirsSize && LinksToDir(c, e)
  {
    var dir := c.meta[e].link.dir;
    if c.meta[e].kind != DirectoryKind then Stopped(AssertFailed)
    else if c.dirs[dir].fullPath != 0 then Stopped(AssertFailed)
    else
      var path :- FullPath(c, d, e);
      var key := EntryKey(path);
      var (names, ptr) :- GetOrAddName(c.names, path, key);
      if c.tocSize >= |c.toc| then Stopped(AssertFailed)
      else
        Done(c.(names := names,
                dirs := c.dirs[dir := c.dirs[dir].(fullPath := ptr)],
                toc := c.toc[c.tocSize := TocEntry(key, ptr, e)],
                tocSize := c.tocSize + 1))
  }

  /** The new cached_dir_t and the entry that points to it, before the directory has a path. */
  function LinkDirectory(c: State, e: nat, names: Names, name: nat, key: Key): State
    requires c.dirsSize < |c.dirs| && e < |c.meta|
  {
    c.(names := names,
       dirs := c.dirs[c.dirsSize := Dir(0, 0, 0, 0)],
       dirsSize := c.dirsSize + 1,
       meta := c.meta[e := c.meta[e].(key := key, name := name, kind := DirectoryKind, link := DirLink(c.dirsSize))])
  }

  lemma LinkDirectoryShape(c: State, e: nat, names: Names, name: nat, key: Key)
    requires Shape(c) && c.dirsSize < |c.dirs| && e < |c.meta| && NameCache.WellFormed(names)
    ensures Shape(LinkDirectory(c, e, names, name, key))
  {
    var r := LinkDirectory(c, e, names, name, key);
    forall x | 0 <= x < r.dirsSize
      ensures SliceOk(r, x)
    {
      if x < c.dirsSize { assert SliceOk(c, x); }
    }
    forall i | 0 <= i < r.tocSize
      ensures LinksToDir(r, r.toc[i].entry)
    {
      assert LinksToDir(c, c.toc[i].entry);
    }
    forall e | 0 <= e < |r.meta| && r.meta[e].kind == DirectoryKind
      ensures LinksToDir(r, e)
    {
      assert c.meta[e].kind == DirectoryKind ==> LinksToDir(c, e);
    }
  }

  /** A new directory in slot `e` of directory `d`: record, name and table entry. */
  function NewDirectory(c: State, d: nat, e: nat, name: seq<byte>, key: Key): Outcome<(State, Option<nat>)>
    requires Shape(c) && d < c.dirsSize && e < |c.meta|
    requires KeyLength(key) <= |name|
  {
    if c.dirsSize >= |c.dirs| then Stopped(AssertFailed)
    else
      var (names, ptr) :- GetOrAddName(c.names, name, key);
      assert NameCache.WellFormed(names) by { GetOrAddNameWellFormed(c.names, name, key); }
      LinkDirectoryShape(c, e, names, ptr, key);
      var r :- RegisterDirectory(LinkDirectory(c, e, names, ptr, key), d, e);
      Done((r, Some(e)))
  }

  /** GetOrCreateSubdirectoryByKey; None when the name belongs to something that is no directory. */
  function Subdirectory(c: State, d: nat, name: seq<byte>, key: Key): Outcome<(State, Option<nat>)>
    requires Shape(c) && d < c.dirsSize
    requires KeyLength(key) <= |name|
  {
    match Lookup(c, d, name, key)
    case Some(e) =>
      FindEntryInSlice(c, d, name, key, 0);
      Done((c, if c.meta[e].kind == DirectoryKind then Some(e) else None))
    case None =>
      var (c1, e) :- TakeSlot(c, d);
      NewDirectory(c1, d, e, name, key)
  }

  lemma GetOrAddNameWellFormed(n: Names, name: seq<byte>, key: Key)
    requires NameCache.WellFormed(n) && GetOrAddName(n, name, key).Done?
    ensures NameCache.WellFormed(GetOrAddName(n, name, key).value.0)
  {
    if KeyLength(key) > 0 {
      var s := name[..KeyLength(key)];
      SearchSound(n, s, key, 0);
      match Search(n, s, key, 0) {
        case Found(i) =>
        case Missing(parent, left) => InsertedWellFormed(n, s, key, parent, left);
      }
    }
  }

  // Creation by full path

  /** LookupParent: the entry of the parent directory and where the last component starts. */
  function LookupParent(c: State, path: seq<byte>): (r: (Option<nat>, nat))
    requires Shape(c) && |path| >= 1
    ensures r.1 <= |path|
    ensures r.0.Some? ==> LinksToDir(c, r.0.value)
  {
    var slash := LastSlash(path, |path| - 1);
    if slash > 1 then
      FindTocInToc(c, path, EntryKey(path[..slash]), 0);
      (FindToc(c, path, EntryKey(path[..slash]), 0), slash + 1)
    else
      (Some(ROOT), slash + 1)
  }

  /** memchr for '/' in path[b..]; |path| when there is none. */
  function NextSlash(path: seq<byte>, b: nat): (p: nat)
    requires b <= |path|
    ensures b <= p <= |path|
    ensures p < |path| ==> path[p] == SLASH
    ensures forall i :: b <= i < p ==> path[i] != SLASH
    decreases |path| - b
  {
    if b == |path| || path[b] == SLASH then b else NextSlash(path, b + 1)
  }

  /** A path whose last slash is its second character names something in the root, like one with only the first. */
  lemma LookupParentInRoot(c: State, path: seq<byte>)
    requires Shape(c) && |path| >= 2 && path[1] == SLASH && SLASH !in path[2..]
    ensures LookupParent(c, path) == (Some(ROOT), 2)
  {
    hide Shape, FindToc, EntryKey;
    LastSlashAt(path, |path| - 1);
  }

  lemma {:induction false} LastSlashAt(path: seq<byte>, p: nat)
    requires 1 <= p < |path| && path[1] == SLASH && SLASH !in path[2..]
    ensures LastSlash(path, p) == 1
    decreases p
  {
    if p > 1 {
      assert path[p] == path[2..][p - 2];
      LastSlashAt(path, p - 1);
    }
  }

  // What one creation changes

  /** Entry `e` was added to directory `d` under `key` and the name pointer `name`. */
  ghost predicate Grown(c: State, r: State, d: nat, e: nat, name: nat, key: Key)
    requires Shape(c) && d < c.dirsSize
  {
    && NameCache.Valid(r.names) && Extends(c.names, r.names) && Stored(r.names, name, key)
    && |r.meta| == |c.meta| && |r.dirs| == |c.dirs| && |r.toc| == |c.toc|
    && c.dirsSize <= r.dirsSize <= |r.dirs| && c.tocSize <= r.tocSize <= |r.toc|
    && c.dirs[d].size < r.dirs[d].capacity && r.metaSize <= |r.meta|
    && r.dirs[d] == Dir(if c.dirs[d].capacity == 0 then c.metaSize else c.dirs[d].first, c.dirs[d].size + 1,
                        if c.dirs[d].capacity == 0 then 256 else c.dirs[d].capacity, c.dirs[d].fullPath)
    && r.metaSize == (if c.dirs[d].capacity == 0 then c.metaSize + 256 else c.metaSize)
    && e == r.dirs[d].first + c.dirs[d].size < |r.meta|
    && (forall x :: 0 <= x < c.dirsSize && x != d ==> r.dirs[x] == c.dirs[x])
    && (forall x :: 0 <= x < |c.meta| && x != e ==> r.meta[x] == c.meta[x])
    && r.meta[e].key == key && r.meta[e].name == name && r.meta[e].isVirtual == c.meta[e].isVirtual
    && (forall i :: 0 <= i < c.tocSize ==> r.toc[i] == c.toc[i])
  }

  ghost predicate GrownEntry(c: State, r: State, d: nat, e: nat, name: nat, key: Key)
    requires Shape(c) && d < c.dirsSize
  {
    && Grown(c, r, d, e, name, key)
    && r.dirsSize == c.dirsSize && r.tocSize == c.tocSize
    && r.meta[e].kind == c.meta[e].kind && r.meta[e].link == c.meta[e].link
  }

  ghost predicate GrownDirectory(c: State, r: State, d: nat, e: nat, name: nat, key: Key, path: seq<byte>)
    requires Shape(c) && d < c.dirsSize
  {
    && Grown(c, r, d, e, name, key)
    && r.dirsSize == c.dirsSize + 1 && r.tocSize == c.tocSize + 1
    && r.meta[e].kind == DirectoryKind && r.meta[e].link == DirLink(c.dirsSize)
    && r.toc[c.tocSize].entry == e && r.toc[c.tocSize].key == EntryKey(path)
    && r.dirs[c.dirsSize] == Dir(0, 0, 0, r.toc[c.tocSize].name)
    && Denotes(r.names, r.toc[c.tocSize].name, EntryKey(path), path)
  }

  ghost predicate TookSlot(c: State, r: State, d: nat, e: nat)
    requires d < |c.dirs|
  {
    && r == c.(dirs := r.dirs, metaSize := r.metaSize)
    && |r.dirs| == |c.dirs|
    && r.dirs == c.dirs[d := Dir(if c.dirs[d].capacity == 0 then c.metaSize else c.dirs[d].first,
                                 c.dirs[d].size + 1,
                                 if c.dirs[d].capacity == 0 then 256 else c.dirs[d].capacity,
                                 c.dirs[d].fullPath)]
    && r.metaSize == (if c.dirs[d].capacity == 0 then c.metaSize + 256 else c.metaSize) <= |c.meta|
    && e == r.dirs[d].first + c.dirs[d].size < r.metaSize
    && c.dirs[d].size < r.dirs[d].capacity
  }

  lemma TakeSlotEffect(c: State, d: nat)
    requires Shape(c) && d < c.dirsSize
    requires TakeSlot(c, d).Done?
    ensures TookSlot(c, TakeSlot(c, d).value.0, d, TakeSlot(c, d).value.1)
    ensures RootDir(TakeSlot(c, d).value.0) == RootDir(c)
  {
    assert SliceOk(c, d);
  }

  lemma GetOrAddNameEffect(n: Names, name: seq<byte>, key: Key)
    requires NameCache.Valid(n) && KeyLength(key) > 0
    requires GetOrAddName(n, name, key).Done?
    ensures var (m, ptr) := GetOrAddName(n, name, key).value;
            && NameCache.Valid(m) && Extends(n, m) && KeyLength(key) <= |name|
            && Stored(m, ptr, key) && StoredName(m, ptr, key) == name[..KeyLength(key)]
            && Denotes(m, ptr, key, name[..KeyLength(key)])
  {
    GetOrAddNameCorrect(n, name, key);
    var (m, ptr) := GetOrAddName(n, name, key).value;
    DenotesIsStored(m, ptr, key, name[..KeyLength(key)]);
  }

  lemma CreateEntryEffect(c: State, d: nat, name: seq<byte>, key: Key)
    requires Shape(c) && NameCache.Valid(c.names) && d < c.dirsSize
    requires 0 < KeyLength(key) <= |name|
    requires CreateEntry(c, d, name, key).Done?
    ensures var (r, e) := CreateEntry(c, d, name, key).value;
            if Lookup(c, d, name, key).Some? then r == c && e == None
            else
              && e.Some? && e.value < |r.meta|
              && GrownEntry(c, r, d, e.value, r.meta[e.value].name, key)
              && StoredName(r.names, r.meta[e.value].name, key) == name[..KeyLength(key)]
  {
    hide NameCache.WellFormed, NameCache.Valid, Extends, Denotes, Stored, GetOrAddName;
    if Lookup(c, d, name, key).None? {
      GetOrAddNameEffect(c.names, name, key);
      assert SliceOk(c, d);
    }
  }

  // The invariant

  /** Entry `e` is one of the used slots of directory `d`. */
  predicate Owns(c: State, d: nat, e: nat) {
    d < c.dirsSize <= |c.dirs| && c.dirs[d].first <= e < c.dirs[d].first + c.dirs[d].size
  }

  /** The slice of a directory never holds the root's own slot. */
  predicate OffRoot(c: State, d: nat)
    requires d < |c.dirs|
  {
    c.dirs[d].capacity > 0 ==> c.dirs[d].first > ROOT
  }

  predicate Apart(c: State, a: nat, b: nat)
    requires a < |c.dirs| && b < |c.dirs|
  {
    || c.dirs[a].capacity == 0
    || c.dirs[b].capacity == 0
    || c.dirs[a].first + c.dirs[a].capacity <= c.dirs[b].first
    || c.dirs[b].first + c.dirs[b].capacity <= c.dirs[a].first
  }

  /** A path component: not empty, no '/', no NUL. */
  predicate Component(s: seq<byte>) {
    0 < |s| < TWO_TO_16 && SLASH !in s && 0 !in s
  }

  predicate Named(c: State, e: nat)
    requires e < |c.meta|
  {
    Stored(c.names, c.meta[e].name, c.meta[e].key)
  }

  ghost function EntryName(c: State, e: nat): seq<byte>
    requires NameCache.WellFormed(c.names) && e < |c.meta| && Named(c, e)
  {
    StoredName(c.names, c.meta[e].name, c.meta[e].key)
  }

  predicate TocNamed(c: State, i: nat)
    requires i < |c.toc|
  {
    Stored(c.names, c.toc[i].name, c.toc[i].key)
  }

  ghost function TocPath(c: State, i: nat): seq<byte>
    requires NameCache.WellFormed(c.names) && i < |c.toc| && TocNamed(c, i)
  {
    StoredName(c.names, c.toc[i].name, c.toc[i].key)
  }

  ghost predicate TocsNamed(c: State) {
    c.tocSize <= |c.toc| && forall i :: 0 <= i < c.tocSize ==> TocNamed(c, i)
  }

  /** The full path recorded for directory `d`; the root's is empty. */
  ghost function PathOf(c: State, d: nat): seq<byte>
    requires NameCache.WellFormed(c.names) && TocsNamed(c) && d <= c.tocSize
  {
    if d == 0 then []
    else
      assert TocNamed(c, d - 1);
      TocPath(c, d - 1)
  }

  /** The directory of table entry `i` hangs in the earlier directory `p`, and its path says so. */
  ghost predicate HangsIn(c: State, i: nat, p: nat)
    requires NameCache.WellFormed(c.names) && TocsNamed(c) && i < c.tocSize
  {
    var e := c.toc[i].entry;
    && p <= i && Owns(c, p, e) && e < |c.meta| && Named(c, e)
    && PathOf(c, i + 1) == PathOf(c, p) + [SLASH] + EntryName(c, e)
  }

  ghost predicate TocOk(c: State, i: nat)
    requires NameCache.WellFormed(c.names) && TocsNamed(c) && i < c.tocSize
  {
    var e := c.toc[i].entry;
    && e < |c.meta| && i + 1 < |c.dirs|
    && c.meta[e].kind == DirectoryKind && c.meta[e].link == DirLink(i + 1)
    && Named(c, e) && Component(EntryName(c, e)) && c.meta[e].key == EntryKey(EntryName(c, e))
    && c.dirs[i + 1].fullPath == c.toc[i].name
    && c.toc[i].key == EntryKey(PathOf(c, i + 1)) && 0 !in PathOf(c, i + 1)
    && exists p :: HangsIn(c, i, p)
  }

  /** A directory entry is the one its table entry points to. */
  predicate DirEntryOk(c: State, e: nat)
    requires e < |c.meta|
  {
    c.meta[e].link.DirLink? && 0 < c.meta[e].link.dir <= c.tocSize <= |c.toc| &&
      c.toc[c.meta[e].link.dir - 1].entry == e
  }

  predicate SameName(c: State, e: nat, f: nat)
    requires e < |c.meta| && f < |c.meta|
  {
    c.meta[e].key == c.meta[f].key && c.meta[e].name == c.meta[f].name
  }

  ghost predicate ArenasApart(c: State)
    requires Shape(c)
  {
    && c.metaSize > ROOT
    && (forall d :: 0 <= d < c.dirsSize ==> OffRoot(c, d))
    && (forall a, b :: 0 <= a < b < c.dirsSize ==> Apart(c, a, b))
  }

  ghost predicate EntriesNamed(c: State)
    requires Shape(c)
  {
    && (forall d: nat, e: nat :: Owns(c, d, e) ==> e < |c.meta| && Named(c, e))
    && (forall d: nat, e: nat, f: nat :: Owns(c, d, e) && Owns(c, d, f) && e < f < |c.meta| ==> !SameName(c, e, f))
    && (forall e :: 0 <= e < |c.meta| && c.meta[e].kind == DirectoryKind ==> DirEntryOk(c, e))
  }

  ghost predicate TableSound(c: State)
    requires Shape(c)
  {
    && c.tocSize + 1 == c.dirsSize
    && TocsNamed(c)
    && (forall i :: 0 <= i < c.tocSize ==> TocOk(c, i))
  }

  ghost predicate Inv(c: State) {
    && Shape(c)
    && NameCache.Valid(c.names)
    && RootDir(c) == 0
    && ArenasApart(c)
    && EntriesNamed(c)
    && TableSound(c)
  }

  // Strings of the text arena

  lemma {:induction false} StringFromNoNul(text: seq<byte>, p: nat, s: seq<byte>)
    requires p + |s| < |text| && text[p..p + |s|] == s && 0 !in s && text[p + |s|] == 0
    ensures StringFrom(text, p) == s
    decreases |s|
  {
    if s == [] {
    } else {
      assert text[p] == s[0];
      assert text[p + 1..p + 1 + |s[1..]|] == s[1..];
      StringFromNoNul(text, p + 1, s[1..]);
    }
  }

  /** A C string ends before the first NUL. */
  lemma {:induction false} StringFromIs(text: seq<byte>, p: nat)
    requires p <= |text|
    ensures var s := StringFrom(text, p);
            p + |s| <= |text| && s == text[p..p + |s|] && 0 !in s && (p + |s| < |text| ==> text[p + |s|] == 0)
    decreases |text| - p
  {
    if p < |text| && text[p] != 0 {
      StringFromIs(text, p + 1);
    }
  }

  lemma CStringOfStored(n: Names, name: nat, key: Key)
    requires NameCache.WellFormed(n) && Stored(n, name, key) && 0 !in StoredName(n, name, key)
    ensures name != 0 && CString(n.text, name) == StoredName(n, name, key)
  {
    var s := StoredName(n, name, key);
    DenotesTerminated(n, name, key, s);
    StringFromNoNul(n.text, name - 4, s);
  }

  lemma StoredStable(n: Names, m: Names, name: nat, key: Key)
    requires NameCache.WellFormed(n) && NameCache.WellFormed(m) && Extends(n, m) && Stored(n, name, key)
    ensures Stored(m, name, key) && StoredName(m, name, key) == StoredName(n, name, key)
  {
    var s := StoredName(n, name, key);
    DenotesStable(n, m, name, key, s);
    DenotesIsStored(m, name, key, s);
  }

  /** A directory other than the root has its path in the string table. */
  lemma StoredPath(c: State, n: State, d: nat)
    requires Inv(c) && 0 < d < c.dirsSize && d <= c.tocSize && TocsNamed(c)
    requires Shape(n) && Extends(c.names, n.names)
    requires n.dirsSize >= c.dirsSize && n.dirs[d].fullPath == c.dirs[d].fullPath
    ensures n.dirs[d].fullPath != 0 && CString(n.names.text, n.dirs[d].fullPath) == PathOf(c, d) && 0 !in PathOf(c, d)
  {
    hide ArenasApart, EntriesNamed, Extends, NameCache.Valid, Stored, EntryKey;
    assert TocOk(c, d - 1) && TocNamed(c, d - 1);
    StoredStable(c.names, n.names, c.toc[d - 1].name, c.toc[d - 1].key);
    CStringOfStored(n.names, c.toc[d - 1].name, c.toc[d - 1].key);
  }

  /** The path under which a new directory is registered is its parent's path, '/' and its name. */
  lemma FullPathIsJoin(c: State, n: State, d: nat, e: nat)
    requires Inv(c) && d < c.dirsSize
    requires d <= c.tocSize && TocsNamed(c)
    requires Shape(n) && Extends(c.names, n.names) && RootDir(n) == 0
    requires n.dirsSize >= c.dirsSize && n.dirs[d].fullPath == c.dirs[d].fullPath
    requires e < |n.meta| && Named(n, e) && 0 !in EntryName(n, e)
    requires FullPath(n, d, e).Done?
    ensures FullPath(n, d, e).value == PathOf(c, d) + [SLASH] + EntryName(n, e)
    ensures 0 !in PathOf(c, d) && |PathOf(c, d)| + 1 + |EntryName(n, e)| <= 4096
  {
    hide ArenasApart, EntriesNamed, TableSound, Extends, NameCache.Valid, Stored, CString, PathOf;
    CStringOfStored(n.names, n.meta[e].name, n.meta[e].key);
    if d > 0 {
      StoredPath(c, n, d);
    } else {
      RootPath(c);
    }
  }

  lemma ComponentHasNoNul(s: seq<byte>)
    requires Component(s)
    ensures 0 !in s
  {}

  /** With the root's slot off limits, a new slot is never the root's. */
  lemma SlotOffRoot(c: State, r: State, d: nat, e: nat)
    requires Inv(c) && d < c.dirsSize && TookSlot(c, r, d, e)
    ensures e != ROOT
  {
    assert OffRoot(c, d);
  }

  lemma SubdirectoryEffect(c: State, d: nat, name: seq<byte>, key: Key)
    requires Inv(c) && d < c.dirsSize
    requires 0 < KeyLength(key) <= |name| && Component(name[..KeyLength(key)])
    requires d <= c.tocSize && TocsNamed(c)
    requires Subdirectory(c, d, name, key).Done?
    ensures var (r, e) := Subdirectory(c, d, name, key).value;
            match Lookup(c, d, name, key)
            case Some(old_e) => r == c && old_e < |c.meta| &&
              e == (if c.meta[old_e].kind == DirectoryKind then Some(old_e) else None)
            case None =>
              && e.Some? && e.value < |r.meta|
              && GrownDirectory(c, r, d, e.value, r.meta[e.value].name, key,
                 PathOf(c, d) + [SLASH] + name[..KeyLength(key)])
              && StoredName(r.names, r.meta[e.value].name, key) == name[..KeyLength(key)]
              && |PathOf(c, d)| + 1 + KeyLength(key) <= 4096
              && 0 !in PathOf(c, d)
  {
    hide ArenasApart, EntriesNamed, TableSound, NameCache.WellFormed, NameCache.Valid, Extends, Denotes, Stored,
      GetOrAddName, FullPath, TakeSlot,
      SliceOk, EntryKey, Component, PathOf;
    FindEntryInSlice(c, d, name, key, 0);
    if Lookup(c, d, name, key).None? {
      TakeSlotEffect(c, d);
      assert 0 !in name[..KeyLength(key)] by { ComponentHasNoNul(name[..KeyLength(key)]); }
      var s := name[..KeyLength(key)];
      var (c1, e) := TakeSlot(c, d).value;
      GetOrAddNameEffect(c1.names, name, key);
      var (names, ptr) := GetOrAddName(c1.names, name, key).value;
      LinkDirectoryShape(c1, e, names, ptr, key);
      var c2 := LinkDirectory(c1, e, names, ptr, key);
      SlotOffRoot(c, c1, d, e);
      assert EntryName(c2, e) == name[..KeyLength(key)];
      FullPathIsJoin(c, c2, d, e);
      var path := FullPath(c2, d, e).value;
      GetOrAddNameEffect(names, path, EntryKey(path));
      var (names2, ptr2) := GetOrAddName(names, path, EntryKey(path)).value;
      ExtendsTransitive(c.names, names, names2);
      StoredStable(names, names2, ptr, key);
      assert path[..|path|] == path;
    }
  }

  // Every creation keeps the invariant

  /** The directories that a creation adds are empty. */
  ghost predicate NewDirsEmpty(c: State, r: State) {
    r.dirsSize <= |r.dirs| && forall x :: c.dirsSize <= x < r.dirsSize ==>
      r.dirs[x].size == 0 && r.dirs[x].capacity == 0
  }

  lemma GrownArenas(c: State, r: State, d: nat, e: nat, name: nat, key: Key)
    requires Inv(c) && d < c.dirsSize && Grown(c, r, d, e, name, key) && NewDirsEmpty(c, r)
    requires Shape(r)
    ensures ArenasApart(r)
  {
    hide EntriesNamed, TableSound, NameCache.WellFormed, NameCache.Valid, Extends, Stored;
    forall x | 0 <= x < r.dirsSize
      ensures OffRoot(r, x)
    {
      if x < c.dirsSize { assert OffRoot(c, x); }
    }
    forall a, b | 0 <= a < b < r.dirsSize
      ensures Apart(r, a, b)
    {
      if b < c.dirsSize {
        assert Apart(c, a, b) && SliceOk(c, a) && SliceOk(c, b);
      }
    }
  }

  /** The only used slot that is new is `e`, and it was not in use before. */
  lemma GrownOwns(c: State, r: State, d: nat, e: nat, name: nat, key: Key)
    requires Inv(c) && d < c.dirsSize && Grown(c, r, d, e, name, key) && NewDirsEmpty(c, r)
    ensures forall x: nat, f: nat :: Owns(r, x, f) <==> Owns(c, x, f) || (x == d && f == e)
    ensures forall x: nat :: !Owns(c, x, e)
  {
    hide EntriesNamed, TableSound, NameCache.WellFormed, NameCache.Valid, Extends, Stored;
    assert SliceOk(c, d);
    forall x: nat
      ensures !Owns(c, x, e)
    {
      assert x < c.dirsSize ==> SliceOk(c, x);
      assert x < d ==> Apart(c, x, d);
      assert d < x < c.dirsSize ==> Apart(c, d, x);
    }
  }

  lemma GrownNames(c: State, r: State, d: nat, e: nat, name: nat, key: Key)
    requires Inv(c) && d < c.dirsSize && Grown(c, r, d, e, name, key) && NewDirsEmpty(c, r)
    ensures forall x: nat, f: nat :: Owns(c, x, f) ==>
            f < |c.meta| && f != e && Named(c, f) && Named(r, f) && EntryName(r, f) == EntryName(c, f)
    ensures TocsNamed(c) && forall i :: 0 <= i < c.tocSize ==>
            TocNamed(c, i) && TocNamed(r, i) && TocPath(r, i) == TocPath(c, i)
  {
    hide ArenasApart, Extends, Stored, Grown;
    GrownOwns(c, r, d, e, name, key);
    GrownParts(c, r, d, e, name, key);
    forall x: nat, f: nat | Owns(c, x, f)
      ensures f < |c.meta| && f != e && Named(c, f) && Named(r, f) && EntryName(r, f) == EntryName(c, f)
    {
      StoredStable(c.names, r.names, c.meta[f].name, c.meta[f].key);
    }
    forall i | 0 <= i < c.tocSize
      ensures TocNamed(c, i) && TocNamed(r, i) && TocPath(r, i) == TocPath(c, i)
    {
      assert TocNamed(c, i);
      StoredStable(c.names, r.names, c.toc[i].name, c.toc[i].key);
    }
  }

  lemma GrownParts(c: State, r: State, d: nat, e: nat, name: nat, key: Key)
    requires Shape(c) && d < c.dirsSize && Grown(c, r, d, e, name, key)
    ensures NameCache.Valid(r.names) && Extends(c.names, r.names) && Stored(r.names, name, key)
    ensures |r.meta| == |c.meta| && |r.toc| == |c.toc| && |r.dirs| == |c.dirs|
    ensures e < |r.meta| && r.meta[e].key == key && r.meta[e].name == name
    ensures c.dirsSize <= r.dirsSize <= |r.dirs| && c.tocSize <= r.tocSize <= |r.toc|
    ensures forall x :: 0 <= x < |c.meta| && x != e ==> r.meta[x] == c.meta[x]
    ensures forall i :: 0 <= i < c.tocSize ==> r.toc[i] == c.toc[i]
    ensures forall x :: 0 <= x < c.dirsSize ==> r.dirs[x].fullPath == c.dirs[x].fullPath
  {
  }

  /** A name that lookup does not find differs from every stored name. */
  lemma FreshName(c: State, r: State, d: nat, e: nat, name: seq<byte>, key: Key)
    requires Inv(c) && d < c.dirsSize && 0 < KeyLength(key) <= |name|
    requires e < |r.meta| && Grown(c, r, d, e, r.meta[e].name, key) && NewDirsEmpty(c, r)
    requires StoredName(r.names, r.meta[e].name, key) == name[..KeyLength(key)]
    requires Lookup(c, d, name, key) == None
    ensures forall f: nat :: Owns(c, d, f) ==> f < |r.meta| && !SameName(r, f, e)
  {
    hide ArenasApart, TableSound, Extends, Stored, Grown, NameCache.WellFormed, NameCache.Valid;
    FindEntryInSlice(c, d, name, key, 0);
    GrownNames(c, r, d, e, r.meta[e].name, key);
    GrownParts(c, r, d, e, r.meta[e].name, key);
    forall f: nat | Owns(c, d, f)
      ensures f < |r.meta| && !SameName(r, f, e)
    {
      assert !EntryMatches(c, f, name, key);
      if SameName(r, f, e) {
        NamedMatches(c, f, name, key);
      }
    }
  }

  /** For a stored entry the byte comparison is equality of names. */
  lemma NamedMatches(c: State, f: nat, name: seq<byte>, key: Key)
    requires NameCache.WellFormed(c.names) && f < |c.meta| && Named(c, f)
    requires 0 < KeyLength(key) <= |name|
    ensures EntryMatches(c, f, name, key) <==> c.meta[f].key == key && EntryName(c, f) == name[..KeyLength(key)]
  {
    DenotesTerminated(c.names, c.meta[f].name, c.meta[f].key, EntryName(c, f));
  }

  lemma TocNamedMatches(c: State, i: nat, path: seq<byte>, key: Key)
    requires NameCache.WellFormed(c.names) && i < |c.toc| && TocNamed(c, i)
    requires 0 < KeyLength(key) <= |path|
    ensures TocMatches(c, i, path, key) <==> c.toc[i].key == key && TocPath(c, i) == path[..KeyLength(key)]
  {
    DenotesTerminated(c.names, c.toc[i].name, c.toc[i].key, TocPath(c, i));
  }

  lemma GrownEntryInv(c: State, r: State, d: nat, e: nat, name: seq<byte>, key: Key)
    requires Inv(c) && d < c.dirsSize && 0 < KeyLength(key) <= |name|
    requires e < |r.meta| && GrownEntry(c, r, d, e, r.meta[e].name, key)
    requires StoredName(r.names, r.meta[e].name, key) == name[..KeyLength(key)]
    requires Lookup(c, d, name, key) == None
    ensures Inv(r)
  {
    hide Extends, Stored, NameCache.WellFormed, NameCache.Valid, Component, EntryKey;
    var ptr := r.meta[e].name;
    assert NameCache.Valid(r.names) && NameCache.WellFormed(r.names) by {
      GrownParts(c, r, d, e, ptr, key);
      ValidIsWellFormed(r.names);
    }
    assert NewDirsEmpty(c, r);
    GrownOwns(c, r, d, e, ptr, key);
    GrownNames(c, r, d, e, ptr, key);
    SlotNotRoot(c, r, d, e, ptr, key);
    DirectoriesAreOwned(c);
    GrownEntryShape(c, r, d, e, ptr, key);
    GrownArenas(c, r, d, e, ptr, key);
    FreshName(c, r, d, e, name, key);
    GrownEntryEntries(c, r, d, e, ptr, key);
    GrownEntryTable(c, r, d, e, ptr, key);
  }

  lemma ValidIsWellFormed(n: Names)
    requires NameCache.Valid(n)
    ensures NameCache.WellFormed(n)
  {}

  lemma SlotNotRoot(c: State, r: State, d: nat, e: nat, name: nat, key: Key)
    requires Inv(c) && d < c.dirsSize && Grown(c, r, d, e, name, key)
    ensures e != ROOT
  {
    hide EntriesNamed, TableSound, Extends, Stored, NameCache.WellFormed, NameCache.Valid;
    assert OffRoot(c, d);
  }

  /** Every directory entry is in use in some directory. */
  lemma DirectoriesAreOwned(c: State)
    requires Inv(c)
    ensures forall e :: 0 <= e < |c.meta| && c.meta[e].kind == DirectoryKind ==> exists p: nat :: Owns(c, p, e)
  {
    hide ArenasApart, Extends, Stored, NameCache.WellFormed, NameCache.Valid, Component, EntryKey;
    forall e | 0 <= e < |c.meta| && c.meta[e].kind == DirectoryKind
      ensures exists p: nat :: Owns(c, p, e)
    {
      assert DirEntryOk(c, e);
      assert TocOk(c, c.meta[e].link.dir - 1);
      var p :| HangsIn(c, c.meta[e].link.dir - 1, p);
      assert Owns(c, p, e);
    }
  }

  lemma GrownEntryShape(c: State, r: State, d: nat, e: nat, name: nat, key: Key)
    requires Inv(c) && d < c.dirsSize && GrownEntry(c, r, d, e, name, key)
    requires e != ROOT && c.meta[e].kind != DirectoryKind
    ensures Shape(r) && RootDir(r) == 0
  {
    hide EntriesNamed, ArenasApart, TableSound, Extends, Stored;
    forall x | 0 <= x < r.dirsSize
      ensures SliceOk(r, x)
    {
      assert SliceOk(c, x);
    }
    forall i | 0 <= i < r.tocSize
      ensures LinksToDir(r, r.toc[i].entry)
    {
      assert LinksToDir(c, c.toc[i].entry);
    }
    forall x | 0 <= x < |r.meta| && r.meta[x].kind == DirectoryKind
      ensures LinksToDir(r, x)
    {
      assert LinksToDir(c, x);
    }
  }

  lemma GrownEntryEntries(c: State, r: State, d: nat, e: nat, name: nat, key: Key)
    requires Inv(c) && d < c.dirsSize && GrownEntry(c, r, d, e, name, key) && Shape(r)
    requires forall x: nat, f: nat :: Owns(r, x, f) <==> Owns(c, x, f) || (x == d && f == e)
    requires forall x: nat, f: nat :: Owns(c, x, f) ==> f < |c.meta| && f != e && Named(r, f)
    requires forall f: nat :: Owns(c, d, f) ==> f < |r.meta| && !SameName(r, f, e)
    ensures EntriesNamed(r)
  {
    hide ArenasApart, TableSound, Extends, Stored, NameCache.WellFormed, NameCache.Valid, Component, EntryKey;
    forall x: nat, f: nat, g: nat | Owns(r, x, f) && Owns(r, x, g) && f < g < |r.meta|
      ensures !SameName(r, f, g)
    {
      if f != e && g != e {
        assert Owns(c, x, f) && Owns(c, x, g);
        assert !SameName(c, f, g);
      }
    }
    forall x | 0 <= x < |r.meta| && r.meta[x].kind == DirectoryKind
      ensures DirEntryOk(r, x)
    {
      assert DirEntryOk(c, x);
    }
  }

  lemma TableEntry(c: State, d: nat) returns (p: nat, e: nat)
    requires Inv(c) && 0 < d < c.dirsSize
    ensures TocsNamed(c) && d <= c.tocSize && e == c.toc[d - 1].entry
    ensures p < d && Owns(c, p, e) && e < |c.meta| && Named(c, e)
    ensures c.meta[e].kind == DirectoryKind && c.meta[e].link == DirLink(d)
    ensures Component(EntryName(c, e)) && c.meta[e].key == EntryKey(EntryName(c, e))
    ensures PathOf(c, d) == PathOf(c, p) + [SLASH] + EntryName(c, e)
    ensures HangsIn(c, d - 1, p)
    ensures c.toc[d - 1].key == EntryKey(PathOf(c, d)) && 0 !in PathOf(c, d)
    ensures c.dirs[d].fullPath == c.toc[d - 1].name
  {
    hide ArenasApart, EntriesNamed, Extends, Stored, NameCache.WellFormed, NameCache.Valid, Component, EntryKey;
    assert TocOk(c, d - 1);
    e := c.toc[d - 1].entry;
    p :| HangsIn(c, d - 1, p);
  }

  lemma NewTocOk(r: State, i: nat, d: nat)
    requires NameCache.WellFormed(r.names) && TocsNamed(r) && i < r.tocSize && HangsIn(r, i, d)
    requires var e := r.toc[i].entry;
             && e < |r.meta| && i + 1 < |r.dirs| && r.meta[e].kind == DirectoryKind && r.meta[e].link == DirLink(i + 1)
             && Named(r, e) && Component(EntryName(r, e)) && r.meta[e].key == EntryKey(EntryName(r, e))
             && r.dirs[i + 1].fullPath == r.toc[i].name
             && r.toc[i].key == EntryKey(PathOf(r, i + 1)) && 0 !in PathOf(r, i + 1)
    ensures TocOk(r, i)
  {}

  /** What the table says of directory `i + 1` does not change when the arenas grow. */
  lemma TocOkStable(c: State, r: State, d: nat, e: nat, name: nat, key: Key, i: nat)
    requires Inv(c) && d < c.dirsSize && Grown(c, r, d, e, name, key)
    requires NameCache.WellFormed(r.names) && TocsNamed(r) && i < c.tocSize
    requires forall x: nat, f: nat :: Owns(c, x, f) ==> Owns(r, x, f)
    requires forall x: nat, f: nat :: Owns(c, x, f) ==>
             f < |c.meta| && f != e && Named(c, f) && Named(r, f) && EntryName(r, f) == EntryName(c, f)
    requires forall j :: 0 <= j < c.tocSize ==> TocNamed(c, j) && TocNamed(r, j) && TocPath(r, j) == TocPath(c, j)
    ensures TocOk(r, i)
  {
    hide ArenasApart, EntriesNamed, TableSound, Grown, TocOk, Extends, Stored, NameCache.WellFormed, NameCache.Valid,
      Component, EntryKey;
    GrownParts(c, r, d, e, name, key);
    TableCounts(c);
    var p, f := TableEntry(c, i + 1);
    assert PathOf(r, i + 1) == PathOf(c, i + 1);
    assert PathOf(r, p) == PathOf(c, p);
    assert HangsIn(r, i, p);
    NewTocOk(r, i, p);
  }

  lemma GrownEntryTable(c: State, r: State, d: nat, e: nat, name: nat, key: Key)
    requires Inv(c) && d < c.dirsSize && GrownEntry(c, r, d, e, name, key) && Shape(r)
    requires forall x: nat, f: nat :: Owns(c, x, f) ==> Owns(r, x, f)
    requires forall x: nat, f: nat :: Owns(c, x, f) ==>
             f < |c.meta| && f != e && Named(c, f) && Named(r, f) && EntryName(r, f) == EntryName(c, f)
    requires forall j :: 0 <= j < c.tocSize ==> TocNamed(c, j) && TocNamed(r, j) && TocPath(r, j) == TocPath(c, j)
    ensures TableSound(r)
  {
    hide ArenasApart, EntriesNamed, Extends, Stored, NameCache.WellFormed, NameCache.Valid, TocOk;
    forall i | 0 <= i < r.tocSize
      ensures TocOk(r, i)
    {
      TocOkStable(c, r, d, e, name, key, i);
    }
  }

  lemma GrownDirectoryShape(c: State, r: State, d: nat, e: nat, name: nat, key: Key, path: seq<byte>)
    requires Inv(c) && d < c.dirsSize && GrownDirectory(c, r, d, e, name, key, path)
    requires e != ROOT
    ensures Shape(r) && RootDir(r) == 0 && NewDirsEmpty(c, r)
  {
    hide EntriesNamed, ArenasApart, Extends, Stored, Denotes;
    forall x | 0 <= x < r.dirsSize
      ensures SliceOk(r, x)
    {
      if x < c.dirsSize { assert SliceOk(c, x); }
    }
    forall i | 0 <= i < r.tocSize
      ensures LinksToDir(r, r.toc[i].entry)
    {
      if i < c.tocSize { assert LinksToDir(c, c.toc[i].entry); }
    }
    forall x | 0 <= x < |r.meta| && r.meta[x].kind == DirectoryKind
      ensures LinksToDir(r, x)
    {
      if x != e { assert LinksToDir(c, x); }
    }
  }

  lemma GrownDirectoryEntries(c: State, r: State, d: nat, e: nat, name: nat, key: Key, path: seq<byte>)
    requires Inv(c) && d < c.dirsSize && GrownDirectory(c, r, d, e, name, key, path) && Shape(r)
    requires forall x: nat, f: nat :: Owns(r, x, f) <==> Owns(c, x, f) || (x == d && f == e)
    requires forall x: nat, f: nat :: Owns(c, x, f) ==> f < |c.meta| && f != e && Named(r, f)
    requires forall f: nat :: Owns(c, d, f) ==> f < |r.meta| && !SameName(r, f, e)
    ensures EntriesNamed(r)
  {
    hide ArenasApart, Extends, Stored, Denotes, NameCache.WellFormed, NameCache.Valid, Component, EntryKey, TocOk;
    forall x: nat, f: nat, g: nat | Owns(r, x, f) && Owns(r, x, g) && f < g < |r.meta|
      ensures !SameName(r, f, g)
    {
      if f != e && g != e {
        assert Owns(c, x, f) && Owns(c, x, g);
        assert !SameName(c, f, g);
      }
    }
    forall x | 0 <= x < |r.meta| && r.meta[x].kind == DirectoryKind
      ensures DirEntryOk(r, x)
    {
      if x != e { assert DirEntryOk(c, x); }
    }
  }

  lemma GrownDirectoryTable(c: State, r: State, d: nat, e: nat, name: nat, key: Key, path: seq<byte>)
    requires Inv(c) && d < c.dirsSize && GrownDirectory(c, r, d, e, name, key, path) && Shape(r)
    requires d <= c.tocSize && TocsNamed(c) && e < |r.meta|
    requires Named(r, e) && Component(EntryName(r, e)) && key == EntryKey(EntryName(r, e))
    requires path == PathOf(c, d) + [SLASH] + EntryName(r, e) && 0 !in path
    requires forall x: nat, f: nat :: Owns(r, x, f) <==> Owns(c, x, f) || (x == d && f == e)
    requires forall x: nat, f: nat :: Owns(c, x, f) ==>
             f < |c.meta| && f != e && Named(c, f) && Named(r, f) && EntryName(r, f) == EntryName(c, f)
    requires forall j :: 0 <= j < c.tocSize ==> TocNamed(c, j) && TocNamed(r, j) && TocPath(r, j) == TocPath(c, j)
    ensures TableSound(r)
    ensures TocsNamed(r) && PathOf(r, c.dirsSize) == path
  {
    hide ArenasApart, EntriesNamed, Extends, Stored, Denotes, NameCache.WellFormed, NameCache.Valid, Component,
      EntryKey, TocOk;
    var i := c.tocSize;
    DenotesIsStored(r.names, r.toc[i].name, r.toc[i].key, path);
    assert TocNamed(r, i) && TocPath(r, i) == path;
    assert TocsNamed(r);
    assert PathOf(r, i + 1) == path;
    assert PathOf(r, d) == PathOf(c, d) by { assert d > 0 ==> TocNamed(c, d - 1); }
    assert Owns(r, d, e);
    assert HangsIn(r, i, d);
    NewTocOk(r, i, d);
    forall j | 0 <= j < r.tocSize
      ensures TocOk(r, j)
    {
      if j < c.tocSize {
        TocOkStable(c, r, d, e, name, key, j);
      }
    }
  }

  lemma GrownDirectoryInv(c: State, r: State, d: nat, e: nat, name: seq<byte>, key: Key, path: seq<byte>)
    requires Inv(c) && d < c.dirsSize && 0 < KeyLength(key) <= |name|
    requires d <= c.tocSize && TocsNamed(c)
    requires e < |r.meta| && GrownDirectory(c, r, d, e, r.meta[e].name, key, path)
    requires StoredName(r.names, r.meta[e].name, key) == name[..KeyLength(key)]
    requires Component(name[..KeyLength(key)]) && key == EntryKey(name[..KeyLength(key)])
    requires path == PathOf(c, d) + [SLASH] + name[..KeyLength(key)] && 0 !in PathOf(c, d)
    requires Lookup(c, d, name, key) == None
    ensures Inv(r)
    ensures TocsNamed(r) && c.dirsSize <= r.tocSize && PathOf(r, c.dirsSize) == path
  {
    hide Extends, Stored, Denotes, NameCache.WellFormed, NameCache.Valid, Component, EntryKey, ArenasApart,
      EntriesNamed, TableSound;
    var ptr := r.meta[e].name;
    GrownParts(c, r, d, e, ptr, key);
    ValidIsWellFormed(r.names);
    SlotNotRoot(c, r, d, e, ptr, key);
    GrownDirectoryShape(c, r, d, e, ptr, key, path);
    GrownOwns(c, r, d, e, ptr, key);
    GrownNames(c, r, d, e, ptr, key);
    GrownArenas(c, r, d, e, ptr, key);
    FreshName(c, r, d, e, name, key);
    GrownDirectoryEntries(c, r, d, e, ptr, key, path);
    ComponentHasNoNul(name[..KeyLength(key)]);
    GrownDirectoryTable(c, r, d, e, ptr, key, path);
    assert c.dirsSize <= r.tocSize by { TableCounts(c); }
  }

  lemma TableCounts(c: State)
    requires Inv(c)
    ensures c.tocSize + 1 == c.dirsSize && TocsNamed(c)
  {}

  // Walking the tree

  /** The path with these components: "/" before each. */
  function Join(comps: seq<seq<byte>>): (path: seq<byte>)
    ensures comps != [] ==> path != []
  {
    if comps == [] then [] else Join(comps[..|comps| - 1]) + [SLASH] + comps[|comps| - 1]
  }

  predicate Components(comps: seq<seq<byte>>) {
    forall s :: s in comps ==> Component(s)
  }

  /** The directory a component-by-component walk from the root reaches, if every step finds one. */
  function WalkDir(c: State, comps: seq<seq<byte>>): (r: Option<nat>)
    requires Shape(c)
    ensures r.Some? ==> r.value < c.dirsSize
  {
    if comps == [] then Some(RootDir(c))
    else
      var last := comps[|comps| - 1];
      match WalkDir(c, comps[..|comps| - 1])
      case None => None
      case Some(d) =>
        match Lookup(c, d, last, EntryKey(last))
        case None => None
        case Some(e) =>
          FindEntryInSlice(c, d, last, EntryKey(last), 0);
          if c.meta[e].kind == DirectoryKind then
            assert LinksToDir(c, e);
            Some(c.meta[e].link.dir)
          else None
  }

  /** The entry a walk from the root finds. */
  function Walk(c: State, comps: seq<seq<byte>>): Option<nat>
    requires Shape(c) && comps != []
  {
    var last := comps[|comps| - 1];
    match WalkDir(c, comps[..|comps| - 1])
    case None => None
    case Some(d) => Lookup(c, d, last, EntryKey(last))
  }

  /** Under the invariant a directory behaves as a map: lookup finds the entry with that name and key. */
  lemma LookupIsMap(c: State, d: nat, name: seq<byte>, key: Key)
    requires Inv(c) && d < c.dirsSize && 0 < KeyLength(key) <= |name|
    ensures match Lookup(c, d, name, key)
            case Some(e) => Owns(c, d, e) && e < |c.meta| && Named(c, e) && c.meta[e].key == key &&
              EntryName(c, e) == name[..KeyLength(key)]
            case None => forall e: nat :: Owns(c, d, e) && e < |c.meta| && Named(c, e) && c.meta[e].key == key ==>
              EntryName(c, e) != name[..KeyLength(key)]
  {
    hide ArenasApart, TableSound, Extends, Stored, Denotes, NameCache.WellFormed, NameCache.Valid, EntryMatches;
    FindEntryInSlice(c, d, name, key, 0);
    match Lookup(c, d, name, key) {
      case Some(e) =>
        assert Owns(c, d, e);
        NamedMatches(c, e, name, key);
      case None =>
        forall e: nat | Owns(c, d, e) && e < |c.meta| && Named(c, e) && c.meta[e].key == key
          ensures EntryName(c, e) != name[..KeyLength(key)]
        {
          NamedMatches(c, e, name, key);
        }
    }
  }

  /** ... and it is the only one. */
  lemma LookupFinds(c: State, d: nat, e: nat, name: seq<byte>, key: Key)
    requires Inv(c) && Owns(c, d, e) && 0 < KeyLength(key) <= |name|
    requires e < |c.meta| && Named(c, e) && c.meta[e].key == key && EntryName(c, e) == name[..KeyLength(key)]
    ensures Lookup(c, d, name, key) == Some(e)
  {
    hide ArenasApart, TableSound, Extends, Stored, NameCache.WellFormed, Lookup;
    LookupIsMap(c, d, name, key);
    var f := Lookup(c, d, name, key).value;
    DenotesExact(c.names, c.meta[e].name, key, EntryName(c, e), c.meta[f].name, key, EntryName(c, f));
    assert SameName(c, e, f);
    assert !(e < f) && !(f < e);
  }

  lemma SplitAtLastSlash(a: seq<byte>, x: seq<byte>, b: seq<byte>, y: seq<byte>)
    requires SLASH !in x && SLASH !in y
    requires a + [SLASH] + x == b + [SLASH] + y
    ensures a == b && x == y
  {
    var l := a + [SLASH] + x;
    assert l[|a|] == SLASH && l[|b|] == SLASH;
    assert forall i :: |a| < i < |l| ==> l[i] == x[i - |a| - 1];
    assert forall i :: |b| < i < |l| ==> l[i] == y[i - |b| - 1];
    assert a == l[..|a|] && b == l[..|b|];
    assert x == l[|a| + 1..] && y == l[|b| + 1..];
  }

  lemma TableEntryOf(c: State, e: nat)
    requires Inv(c) && e < |c.meta| && c.meta[e].kind == DirectoryKind
    ensures c.meta[e].link.DirLink? && 0 < c.meta[e].link.dir < c.dirsSize
    ensures c.meta[e].link.dir <= c.tocSize <= |c.toc| && c.toc[c.meta[e].link.dir - 1].entry == e
  {
    hide ArenasApart, TocOk, NameCache.Valid;
    assert DirEntryOk(c, e);
  }

  /** EntriesNamed are owned by one directory only. */
  lemma OwnerUnique(c: State, a: nat, b: nat, e: nat)
    requires Inv(c) && Owns(c, a, e) && Owns(c, b, e)
    ensures a == b
  {
    hide EntriesNamed, TableSound, NameCache.Valid, NameCache.WellFormed;
    assert SliceOk(c, a) && SliceOk(c, b);
    assert a < b ==> Apart(c, a, b);
    assert b < a ==> Apart(c, b, a);
  }

  /** A walk reaches exactly the directory whose recorded path is the joined path. */
  lemma {:induction false} WalkReachesPath(c: State, comps: seq<seq<byte>>)
    requires Inv(c) && Components(comps)
    ensures TocsNamed(c) && c.dirsSize == c.tocSize + 1
    ensures forall d :: 0 <= d < c.dirsSize ==> (WalkDir(c, comps) == Some(d) <==> PathOf(c, d) == Join(comps))
    decreases |comps|
  {
    hide ArenasApart, EntriesNamed, TableSound, Extends, Stored, NameCache.WellFormed, NameCache.Valid, EntryKey,
      Lookup, PathOf;
    TableCounts(c);
    if comps == [] {
      RootPath(c);
      forall d | 0 < d < c.dirsSize
        ensures PathOf(c, d) != []
      {
        var p, e := TableEntry(c, d);
      }
    } else {
      var init, last := comps[..|comps| - 1], comps[|comps| - 1];
      assert Component(last);
      WalkReachesPath(c, init);
      forall d | 0 <= d < c.dirsSize
        ensures WalkDir(c, comps) == Some(d) <==> PathOf(c, d) == Join(comps)
      {
        if PathOf(c, d) == Join(comps) {
          PathIsChild(c, d, Join(init), last);
        }
        match WalkDir(c, init) {
          case None =>
          case Some(p) => WalkStep(c, p, last);
        }
      }
    }
  }

  lemma RootPath(c: State)
    requires Inv(c)
    ensures TocsNamed(c) && PathOf(c, 0) == []
  {}

  /** One step of a walk arrives at the directory with the extended path. */
  lemma WalkStep(c: State, p: nat, last: seq<byte>)
    requires Inv(c) && p < c.dirsSize && Component(last)
    ensures TocsNamed(c) && c.dirsSize == c.tocSize + 1
    ensures match Lookup(c, p, last, EntryKey(last))
            case None => true
            case Some(e) => e < |c.meta| && (c.meta[e].kind == DirectoryKind ==>
                              LinksToDir(c, e) && c.meta[e].link.dir > 0 &&
                                PathOf(c, c.meta[e].link.dir) == PathOf(c, p) + [SLASH] + last)
  {
    hide ArenasApart, EntriesNamed, TableSound, Extends, Stored, NameCache.WellFormed, NameCache.Valid, EntryKey,
      Lookup, PathOf;
    TableCounts(c);
    LookupIsMap(c, p, last, EntryKey(last));
    match Lookup(c, p, last, EntryKey(last)) {
      case None =>
      case Some(e) =>
        if c.meta[e].kind == DirectoryKind {
          TableEntryOf(c, e);
          var q, f := TableEntry(c, c.meta[e].link.dir);
          OwnerUnique(c, p, q, e);
          assert last[..|last|] == last;
        }
    }
  }

  /** A directory whose path ends in `last` is found by `last` in the directory with the rest of the path. */
  lemma PathIsChild(c: State, d: nat, parent: seq<byte>, last: seq<byte>)
    requires Inv(c) && d < c.dirsSize && Component(last)
    requires TocsNamed(c) && c.dirsSize == c.tocSize + 1
    requires PathOf(c, d) == parent + [SLASH] + last
    ensures exists p: nat, e: nat ::
              && p < c.dirsSize && PathOf(c, p) == parent && Lookup(c, p, last, EntryKey(last)) == Some(e)
              && e < |c.meta| && c.meta[e].kind == DirectoryKind && c.meta[e].link == DirLink(d)
  {
    hide ArenasApart, EntriesNamed, TableSound, Extends, Stored, NameCache.WellFormed, NameCache.Valid, EntryKey,
      Lookup, PathOf;
    assert d > 0 by { RootPath(c); }
    var p, e := TableEntry(c, d);
    SplitAtLastSlash(PathOf(c, p), EntryName(c, e), parent, last);
    assert last[..|last|] == last;
    LookupFinds(c, p, e, last, EntryKey(last));
  }

  lemma {:induction false} LastSlashOfJoin(path: seq<byte>, p: nat, parent: seq<byte>, last: seq<byte>)
    requires SLASH !in last && path == parent + [SLASH] + last
    requires |parent| <= p < |path|
    ensures LastSlash(path, p) == |parent|
    decreases p
  {
    if p > |parent| {
      assert path[p] == last[p - |parent| - 1];
      LastSlashOfJoin(path, p - 1, parent, last);
    }
  }

  /** Looking a directory path up in the table is walking to it. */
  lemma TocAgrees(c: State, path: seq<byte>, comps: seq<seq<byte>>)
    requires Inv(c) && Components(comps) && comps != []
    requires Join(comps) <= path && |Join(comps)| < TWO_TO_16
    ensures match WalkDir(c, comps)
            case Some(d) => 0 < d <= c.tocSize <= |c.toc| &&
              FindToc(c, path, EntryKey(Join(comps)), 0) == Some(c.toc[d - 1].entry)
            case None => FindToc(c, path, EntryKey(Join(comps)), 0) == None
  {
    hide ArenasApart, EntriesNamed, TableSound, Extends, Stored, NameCache.WellFormed, NameCache.Valid, EntryKey,
      PathOf, WalkDir;
    var full := Join(comps);
    WalkReachesPath(c, comps);
    RootPath(c);
    FindTocInToc(c, path, EntryKey(full), 0);
    assert path[..|full|] == full;
    forall i | 0 <= i < c.tocSize
      ensures TocMatches(c, i, path, EntryKey(full)) <==> WalkDir(c, comps) == Some(i + 1)
    {
      TocMatchesPath(c, i, path, full);
    }
    match WalkDir(c, comps) {
      case None =>
      case Some(d) => assert d > 0 && TocMatches(c, d - 1, path, EntryKey(full));
    }
  }

  lemma TocMatchesPath(c: State, i: nat, path: seq<byte>, full: seq<byte>)
    requires Inv(c) && TocsNamed(c) && i < c.tocSize
    requires 0 < |full| < TWO_TO_16 && full <= path
    ensures TocMatches(c, i, path, EntryKey(full)) <==> PathOf(c, i + 1) == full
  {
    hide Inv, EntryKey, TocMatches, PathOf;
    TocKey(c, i);
    TocNamedMatches(c, i, path, EntryKey(full));
  }

  /** A table entry has the key of its directory's path. */
  lemma TocKey(c: State, i: nat)
    requires Inv(c) && TocsNamed(c) && i < c.tocSize
    ensures NameCache.WellFormed(c.names) && i < |c.toc| && TocNamed(c, i)
    ensures PathOf(c, i + 1) == TocPath(c, i) && c.toc[i].key == EntryKey(TocPath(c, i))
    ensures KeyLength(c.toc[i].key) == |TocPath(c, i)|
  {
    hide ArenasApart, EntriesNamed, Extends, NameCache.WellFormed, NameCache.Valid, EntryKey;
    assert TocOk(c, i);
    assert TocNamed(c, i);
  }

  lemma {:induction false} JoinNotEmpty(comps: seq<seq<byte>>)
    requires comps != []
    ensures Join(comps) != [] && Join(comps)[0] == SLASH
    decreases |comps|
  {
    if |comps| > 1 {
      JoinNotEmpty(comps[..|comps| - 1]);
    }
  }

  /** The parent's entry, as LookupPath finds it. */
  function ParentEntry(c: State, path: seq<byte>, slash: nat): Option<nat>
    requires Shape(c) && slash <= |path|
  {
    if slash > 0 then FindToc(c, path, EntryKey(path[..slash]), 0) else Some(ROOT)
  }

  lemma ParentEntryIsWalk(c: State, path: seq<byte>, init: seq<seq<byte>>)
    requires Inv(c) && Components(init)
    requires Join(init) <= path && |Join(init)| < TWO_TO_16
    ensures match ParentEntry(c, path, |Join(init)|)
            case None => WalkDir(c, init) == None
            case Some(e) => LinksToDir(c, e) && WalkDir(c, init) == Some(c.meta[e].link.dir)
  {
    hide ArenasApart, EntriesNamed, TableSound, Extends, Stored, NameCache.WellFormed, NameCache.Valid, EntryKey,
      PathOf, Lookup, WalkDir, FindToc;
    if init == [] {
      WalkFromRoot(c);
    } else {
      JoinNotEmpty(init);
      assert path[..|Join(init)|] == Join(init);
      TocAgrees(c, path, init);
      match WalkDir(c, init) {
        case None =>
        case Some(d) => var p, e := TableEntry(c, d);
      }
    }
  }

  /** A path is its parent's, a slash, and the last component. */
  lemma JoinLast(comps: seq<seq<byte>>)
    requires Components(comps) && comps != []
    ensures var init, last := comps[..|comps| - 1], comps[|comps| - 1]; var path := Join(comps);
            && path == Join(init) + [SLASH] + last && SLASH !in last && |path| >= |Join(init)| + 1
            && path[..|Join(init)|] == Join(init) && path[|Join(init)| + 1..] == last
  {
    assert Component(comps[|comps| - 1]);
  }

  /** The index agrees with the tree: LookupPath returns exactly what the walk from the root finds. */
  lemma {:induction false} LookupPathIsWalk(c: State, comps: seq<seq<byte>>)
    requires Inv(c) && Components(comps) && comps != []
    requires |Join(comps)| < TWO_TO_16
    ensures LookupPath(c, Join(comps)) == Walk(c, comps)
  {
    hide Inv, EntryKey, Lookup, LookupPath, WalkDir, ParentEntry, LastSlash, Shape, LinksToDir, Join, Component;
    var init, last := comps[..|comps| - 1], comps[|comps| - 1];
    var path := Join(comps);
    JoinLast(comps);
    LastSlashOfJoin(path, |path| - 1, Join(init), last);
    assert Shape(c) by { InvShape(c); }
    ParentEntryIsWalk(c, path, init);
    LookupPathSplits(c, path, |Join(init)|);
  }

  lemma ShapeBounds(c: State)
    requires Shape(c)
    ensures c.dirsSize <= |c.dirs| && c.metaSize <= |c.meta|
  {}

  lemma EmptyDirectory(c: State, d: nat, name: seq<byte>, key: Key)
    requires Shape(c) && d < c.dirsSize && KeyLength(key) <= |name| && c.dirs[d].size == 0
    ensures Lookup(c, d, name, key) == None
  {}

  lemma InvNames(c: State)
    requires Inv(c)
    ensures NameCache.Valid(c.names) && NameCache.WellFormed(c.names)
  {
    hide ArenasApart, EntriesNamed, TableSound, NameCache.Valid, NameCache.WellFormed;
    ValidIsWellFormed(c.names);
  }

  lemma InvShape(c: State)
    requires Inv(c)
    ensures Shape(c)
  {}

  lemma WalkFromRoot(c: State)
    requires Shape(c)
    ensures WalkDir(c, []) == Some(RootDir(c))
  {}

  lemma LookupPathSplits(c: State, path: seq<byte>, slash: nat)
    requires Shape(c) && |path| >= 1 && slash < |path| && LastSlash(path, |path| - 1) == slash
    ensures LookupPath(c, path) == (
              var last := path[slash + 1..];
              match ParentEntry(c, path, slash)
              case None => None
              case Some(e) => if LinksToDir(c, e) then Lookup(c, c.meta[e].link.dir, last, EntryKey(last)) else None)
  {
    hide EntryKey, Lookup;
    FindTocInToc(c, path, EntryKey(path[..slash]), 0);
  }

  // What a creation changes for lookups and walks

  lemma CreateEntryKeepsInv(c: State, d: nat, name: seq<byte>, key: Key)
    requires Inv(c) && d < c.dirsSize && 0 < KeyLength(key) <= |name|
    requires CreateEntry(c, d, name, key).Done?
    ensures Inv(CreateEntry(c, d, name, key).value.0)
  {
    hide ArenasApart, EntriesNamed, TableSound, GrownEntry, CreateEntry, Lookup, Extends, Stored;
    CreateEntryEffect(c, d, name, key);
    var (r, e) := CreateEntry(c, d, name, key).value;
    if e.Some? {
      GrownEntryInv(c, r, d, e.value, name, key);
    }
  }

  lemma SubdirectoryKeepsInv(c: State, d: nat, name: seq<byte>, key: Key)
    requires Inv(c) && d < c.dirsSize && 0 < KeyLength(key) <= |name|
    requires Component(name[..KeyLength(key)]) && key == EntryKey(name[..KeyLength(key)])
    requires Subdirectory(c, d, name, key).Done?
    ensures Inv(Subdirectory(c, d, name, key).value.0)
  {
    hide ArenasApart, EntriesNamed, TableSound, GrownDirectory, Subdirectory, Lookup, Extends, Stored, EntryKey;
    TableCounts(c);
    SubdirectoryEffect(c, d, name, key);
    if Lookup(c, d, name, key).None? {
      var (r, e) := Subdirectory(c, d, name, key).value;
      GrownDirectoryInv(c, r, d, e.value, name, key, PathOf(c, d) + [SLASH] + name[..KeyLength(key)]);
    }
  }

  /**
   `r` is `c` with the entry `e`, named `name` under `key`, added to directory `d`, and perhaps an empty
   directory.
   */
  ghost predicate AddedTo(c: State, r: State, d: nat, e: nat, name: seq<byte>, key: Key) {
    && Inv(c) && Inv(r) && d < c.dirsSize && 0 < KeyLength(key) == |name|
    && e < |r.meta| && Grown(c, r, d, e, r.meta[e].name, key) && NewDirsEmpty(c, r)
    && Named(r, e) && EntryName(r, e) == name
    && Lookup(c, d, name, key) == None
    && (r.meta[e].kind == DirectoryKind ==> r.meta[e].link == DirLink(c.dirsSize) && r.dirsSize > c.dirsSize)
  }

  /** A directory is a map from names to entries: creation adds one binding to one directory. */
  lemma AddedLookup(c: State, r: State, d: nat, e: nat, name: seq<byte>, key: Key, x: nat, s: seq<byte>, k: Key)
    requires AddedTo(c, r, d, e, name, key)
    requires x < r.dirsSize && 0 < KeyLength(k) <= |s|
    ensures Lookup(r, x, s, k) ==
            if x == d && k == key && s[..KeyLength(k)] == name then Some(e)
            else if x < c.dirsSize then Lookup(c, x, s, k)
            else None
  {
    hide ArenasApart, EntriesNamed, TableSound, Extends, Stored, NameCache.WellFormed, NameCache.Valid, Grown, Lookup,
      Component, EntryKey;
    GrownParts(c, r, d, e, r.meta[e].name, key);
    GrownOwns(c, r, d, e, r.meta[e].name, key);
    GrownNames(c, r, d, e, r.meta[e].name, key);
    LookupIsMap(r, x, s, k);
    if x == d && k == key && s[..KeyLength(k)] == name {
      assert Owns(r, d, e);
      LookupFinds(r, d, e, s, k);
    } else if x < c.dirsSize {
      LookupIsMap(c, x, s, k);
      match Lookup(c, x, s, k) {
        case Some(f) =>
          assert Owns(r, x, f);
          LookupFinds(r, x, f, s, k);
        case None =>
      }
    }
  }

  /** Walks to directories: only a new directory's own path changes. */
  lemma {:induction false} AddedWalkDir(c: State, r: State, d: nat, e: nat, name: seq<byte>, key: Key,
                                        comps: seq<seq<byte>>)
    requires AddedTo(c, r, d, e, name, key)
    requires Components(comps)
    ensures WalkDir(r, comps) == WalkDir(c, comps) ||
            (WalkDir(c, comps) == None && WalkDir(r, comps) == Some(c.dirsSize) && r.meta[e].kind == DirectoryKind &&
             comps != [] && WalkDir(c, comps[..|comps| - 1]) == Some(d) && comps[|comps| - 1] == name)
    decreases |comps|
  {
    hide ArenasApart, EntriesNamed, TableSound, Extends, Stored, NameCache.WellFormed, NameCache.Valid, Lookup,
      Component, EntryKey;
    if comps != [] {
      var init, last := comps[..|comps| - 1], comps[|comps| - 1];
      assert Component(last);
      ComponentKey(last);
      AddedWalkDir(c, r, d, e, name, key, init);
      match WalkDir(r, init) {
        case None =>
        case Some(x) =>
          AddedLookup(c, r, d, e, name, key, x, last, EntryKey(last));
          if x < c.dirsSize {
            FindEntryInDir(c, x, last);
            AddedKinds(c, r, d, e, name, key);
          }
      }
    }
  }

  lemma ComponentKey(s: seq<byte>)
    requires Component(s)
    ensures 0 < KeyLength(EntryKey(s)) == |s| && s[..|s|] == s
  {
    hide EntryKey;
  }

  lemma FindEntryInDir(c: State, x: nat, last: seq<byte>)
    requires Inv(c) && x < c.dirsSize
    ensures match Lookup(c, x, last, EntryKey(last)) case Some(f) => Owns(c, x, f) && f < |c.meta| case None => true
  {
    hide EntryKey, ArenasApart, EntriesNamed, TableSound, NameCache.Valid, NameCache.WellFormed;
    FindEntryInSlice(c, x, last, EntryKey(last), 0);
  }

  lemma AddedKinds(c: State, r: State, d: nat, e: nat, name: seq<byte>, key: Key)
    requires AddedTo(c, r, d, e, name, key)
    ensures forall x: nat, f: nat :: Owns(c, x, f) ==> f != e && f < |c.meta| == |r.meta| && r.meta[f] == c.meta[f]
  {
    hide ArenasApart, EntriesNamed, TableSound, Extends, Stored, NameCache.WellFormed, NameCache.Valid, Grown, Lookup;
    GrownParts(c, r, d, e, r.meta[e].name, key);
    GrownOwns(c, r, d, e, r.meta[e].name, key);
    GrownNames(c, r, d, e, r.meta[e].name, key);
  }

  /** Walks to entries: exactly the walk to the new entry changes. */
  lemma AddedWalk(c: State, r: State, d: nat, e: nat, name: seq<byte>, key: Key, comps: seq<seq<byte>>)
    requires AddedTo(c, r, d, e, name, key)
    requires Components(comps) && comps != []
    ensures var last := comps[|comps| - 1];
            Walk(r, comps) ==
            if WalkDir(c, comps[..|comps| - 1]) == Some(d) && last == name && EntryKey(last) == key then Some(e)
            else Walk(c, comps)
  {
    hide ArenasApart, EntriesNamed, TableSound, Extends, Stored, NameCache.WellFormed, NameCache.Valid, Lookup,
      Component, EntryKey, WalkDir;
    var init, last := comps[..|comps| - 1], comps[|comps| - 1];
    assert Component(last);
    ComponentKey(last);
    AddedWalkDir(c, r, d, e, name, key, init);
    match WalkDir(r, init) {
      case None =>
      case Some(x) => AddedLookup(c, r, d, e, name, key, x, last, EntryKey(last));
    }
  }

  /** What a creation that succeeds has added. */
  lemma CreateEntryAdds(c: State, d: nat, name: seq<byte>, key: Key)
    requires Inv(c) && d < c.dirsSize && 0 < KeyLength(key) <= |name|
    requires CreateEntry(c, d, name, key).Done?
    ensures var (r, e) := CreateEntry(c, d, name, key).value;
            if e == None then r == c && Lookup(c, d, name, key).Some?
            else AddedTo(c, r, d, e.value, name[..KeyLength(key)], key) && r.meta[e.value].kind != DirectoryKind
  {
    hide ArenasApart, EntriesNamed, TableSound, Grown, CreateEntry, Lookup, Extends, Stored;
    CreateEntryKeepsInv(c, d, name, key);
    CreateEntryEffect(c, d, name, key);
    var (r, e) := CreateEntry(c, d, name, key).value;
    if e.Some? {
      LookupTrims(c, d, name, key);
      GrownParts(c, r, d, e.value, r.meta[e.value].name, key);
      assert NewDirsEmpty(c, r);
      GrownOwns(c, r, d, e.value, r.meta[e.value].name, key);
      DirectoriesAreOwned(c);
    }
  }

  lemma SubdirectoryAdds(c: State, d: nat, name: seq<byte>, key: Key)
    requires Inv(c) && d < c.dirsSize && 0 < KeyLength(key) <= |name|
    requires Component(name[..KeyLength(key)]) && key == EntryKey(name[..KeyLength(key)])
    requires Subdirectory(c, d, name, key).Done?
    ensures var (r, e) := Subdirectory(c, d, name, key).value;
            match Lookup(c, d, name, key)
            case Some(f) => f < |c.meta| && r == c && e == (if c.meta[f].kind == DirectoryKind then Some(f) else None)
            case None =>
              && e.Some? && AddedTo(c, r, d, e.value, name[..KeyLength(key)], key)
              && r.meta[e.value].kind == DirectoryKind
  {
    hide ArenasApart, EntriesNamed, TableSound, Grown, Subdirectory, Lookup, Extends, Stored, EntryKey, Denotes;
    TableCounts(c);
    SubdirectoryKeepsInv(c, d, name, key);
    SubdirectoryEffect(c, d, name, key);
    if Lookup(c, d, name, key).None? {
      var (r, e) := Subdirectory(c, d, name, key).value;
      LookupTrims(c, d, name, key);
      GrownParts(c, r, d, e.value, r.meta[e.value].name, key);
      assert NewDirsEmpty(c, r);
    }
  }

  /** Lookups only read as many bytes as the key says. */
  lemma LookupTrims(c: State, d: nat, name: seq<byte>, key: Key)
    requires Inv(c) && d < c.dirsSize && 0 < KeyLength(key) <= |name|
    ensures Lookup(c, d, name[..KeyLength(key)], key) == Lookup(c, d, name, key)
  {
    hide ArenasApart, EntriesNamed, TableSound, NameCache.Valid, NameCache.WellFormed;
    LookupTrimsFrom(c, d, name, key, 0);
  }

  lemma {:induction false} LookupTrimsFrom(c: State, d: nat, name: seq<byte>, key: Key, k: nat)
    requires Shape(c) && d < c.dirsSize && KeyLength(key) <= |name| && k <= c.dirs[d].size
    ensures FindEntry(c, d, name[..KeyLength(key)], key, k) == FindEntry(c, d, name, key, k)
    decreases c.dirs[d].size - k
  {
    hide NameCache.WellFormed;
    assert name[..KeyLength(key)][..KeyLength(key)] == name[..KeyLength(key)];
    if k < c.dirs[d].size {
      LookupTrimsFrom(c, d, name, key, k + 1);
    }
  }
}
