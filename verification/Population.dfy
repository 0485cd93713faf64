/**
 populateCache_cb of nfs_common.inl: what a directory listing leaves in the cache.  The callback creates
 an entry for every file and directory it is given, descends into directories by a listing of their own,
 and stores the handle the server gave.
 */
module Population {
  import opened Outcomes
  import opened Crc32c
  import opened NameCache
  import opened DirectoryTree
  import opened PathCreation
  import CacheRuns
  import opened FileCache
  import FileHandles
  import Xdr
  import DirListing
  import SentHandles
  import Paging

  const NF3REG := 1
  const NF3DIR := 2
  const DOT: byte := 46

  /** What the callback is given, and what the listing of a directory below it gives to it in turn. */
  datatype Listed = Listed(entry: DirListing.Delivery, below: seq<Listed>)

  /** The cache with the pointers stored in the `handle` fields of its entries. */
  datatype Populated = Populated(files: FileState, limbs: FileHandles.Limbs, handles: map<nat, FileHandles.Word>)

  // Names

  function Bytes(s: seq<Xdr.Octet>): (r: seq<byte>)
    ensures |r| == |s|
  {
    seq(|s|, i requires 0 <= i < |s| => s[i] as byte)
  }

  lemma {:induction false} ByteAt(s: seq<Xdr.Octet>, i: nat, b: byte)
    requires i < |s| && s[i] == b as int
    ensures Bytes(s)[i] == b
  {}

  /** The C string in the name buffer. */
  function Name(item: Listed): seq<byte> {
    StringFrom(Bytes(item.entry.name) + [0], 0)
  }

  /** The bytes up to the first NUL. */
  lemma {:induction false} NameEnds(item: Listed)
    ensures var s, n := Bytes(item.entry.name), |Name(item)|;
            && n <= |s| && Name(item) == s[..n] && 0 !in s[..n] && (n < |s| ==> s[n] == 0)
  {
    var s := Bytes(item.entry.name);
    var text, name := s + [0], Name(item);
    StringFromIs(text, 0);
    assert |name| <= |s| by { assert text[|s|] == 0; }
    assert name == text[..|name|] == s[..|name|];
  }

  predicate IsDirectory(item: Listed) {
    item.entry.attribs.Some? && item.entry.attribs.value.kind == NF3DIR
  }

  predicate IsFile(item: Listed) {
    item.entry.attribs.Some? && item.entry.attribs.value.kind == NF3REG
  }

  /** Everything else is reported and skipped. */
  predicate Kept(item: Listed) {
    IsDirectory(item) || IsFile(item)
  }

  /** The test of the first three characters; no name is empty, so none of them lies behind the NUL. */
  predicate Descends(item: Listed) {
    IsDirectory(item) && var name := Name(item); |name| > 2 && name[0] != DOT && name[1] != DOT
  }

  // The callback

  /** The entry for one item, if there is one. */
  function Enter(s: FileState, dir: nat, item: Listed): Outcome<(FileState, Option<nat>)>
    requires Shape(s.c) && dir < s.c.dirsSize
  {
    var name := Name(item);
    if IsDirectory(item) then
      var (c, e) :- Subdirectory(s.c, dir, name, EntryKey(name));
      Done((s.(c := c), e))
    else if IsFile(item) then
      var (r, e) :- CreateFile(s, dir, name);
      Done((Sized(r, e, item.entry.attribs.value.size), Some(e)))
    else Done((s, None))
  }

  /** `entry->cached_file->size = attribs->size`, in 32 bits; there is no data yet. */
  function Sized(s: FileState, e: nat, size: nat): FileState {
    if e < |s.c.meta| && s.c.meta[e].link.FileLink? && s.c.meta[e].link.file < |s.files| then
      var i := s.c.meta[e].link.file;
      s.(files := s.files[i := s.files[i].(size := size % TWO_TO_32)])
    else s
  }

  /** The last lines: a handle without an entry to store it in is a null pointer written to. */
  function StoreHandle(little: bool, root: seq<FileHandles.Word>, s: Populated, e: Option<nat>,
                       handle: Option<seq<Xdr.Octet>>): Outcome<Populated>
    requires FileHandles.IsHandle(root) && FileHandles.LimbsOk(s.limbs)
    requires handle.Some? ==> |handle.value| == Xdr.HANDLE_SIZE
  {
    if handle.None? then Done(s)
    else if e.None? then Stopped(NullPointer)
    else
      var (limbs, v) :- FileHandles.HandleToPtr(root, s.limbs, SentHandles.HostHandle(little, handle.value));
      Done(s.(limbs := limbs, handles := s.handles[e.value := v]))
  }

  /** A handle is stored in an entry exactly when it can be compressed; without an entry it is fatal. */
  lemma {:induction false} StoreHandleDoneWhen(little: bool, root: seq<FileHandles.Word>, s: Populated, e: Option<nat>,
                                               handle: Option<seq<Xdr.Octet>>)
    requires FileHandles.IsHandle(root) && FileHandles.LimbsOk(s.limbs)
    requires handle.Some? ==> |handle.value| == 64
    ensures handle.None? ==> StoreHandle(little, root, s, e, handle) == Done(s)
    ensures handle.Some? && e.None? ==> StoreHandle(little, root, s, e, handle) == Stopped(NullPointer)
    ensures handle.Some? && e.Some? ==>
              var h := SentHandles.HostHandle(little, handle.value);
              var n, l := FileHandles.HandleLength(h), s.limbs;
              var skip := if h[0] == 0x100_0001 && h[1] == root[1] && h[2] == root[2] then 3 else 0;
              StoreHandle(little, root, s, e, handle).Done? <==>
              h == root || (skip <= n && l.size + (n - skip) < |l.words|)
  {
    hide FileHandles.HandleToPtr, FileHandles.HandleLength;
    if handle.Some? {
      FileHandles.Compression(root, s.limbs, SentHandles.HostHandle(little, handle.value));
    }
  }

  /**
   The size is set while there is no data.  AddFile with content of that size then writes to a null
   pointer, or, if the checksum happens to be 0, stores nothing; other sizes are stored.
   */
  lemma WrittenToNothing(size: nat, content: seq<byte>)
    requires 0 < size && 0 < |content|
    ensures Rewrite(File(0, size, None), content) ==
            if |content| != size then Done(File(Crc(INITIAL, content), |content|, Some(content)))
            else if Crc(INITIAL, content) == 0 then Done(File(0, size, None))
            else Stopped(NullPointer)
  {
    hide Crc;
  }

  // One entry

  /** Only the walk to `p` may lead elsewhere. */
  ghost predicate WalksBut(c: State, r: State, p: seq<seq<byte>>)
    requires Shape(c) && Shape(r)
  {
    forall q :: Components(q) && q != [] && q != p ==> Walk(r, q) == Walk(c, q)
  }

  lemma {:induction false} AddedWalksBut(c: State, r: State, d: nat, e: nat, name: seq<byte>, prefix: seq<seq<byte>>)
    requires AddedTo(c, r, d, e, name, EntryKey(name)) && Inv(c) && Shape(c) && Shape(r)
    requires Component(name) && Components(prefix) && WalkDir(c, prefix) == Some(d)
    ensures WalksBut(c, r, prefix + [name])
  {
    hide Inv, Shape, EntryKey, AddedTo, WalkDir, Walk, Component;
    forall q | Components(q) && q != [] && q != prefix + [name]
      ensures Walk(r, q) == Walk(c, q)
    {
      AddedWalk(c, r, d, e, name, EntryKey(name), q);
      var init := q[..|q| - 1];
      assert q == init + [q[|q| - 1]];
      ComponentsInit(q);
      if WalkDir(c, init) == Some(d) {
        WalkInjective(c, init, prefix);
      }
    }
  }

  lemma {:induction false} WalkSnoc(c: State, prefix: seq<seq<byte>>, d: nat, name: seq<byte>)
    requires Shape(c) && d < c.dirsSize && WalkDir(c, prefix) == Some(d)
    ensures Walk(c, prefix + [name]) == Lookup(c, d, name, EntryKey(name))
  {
    hide Shape, WalkDir, EntryKey, Lookup;
    assert (prefix + [name])[..|prefix|] == prefix;
  }

  /** A new file is found at its path, and every walk that arrived still does. */
  lemma {:induction false} FileEntered(s: FileState, d: nat, name: seq<byte>, prefix: seq<seq<byte>>)
    requires Inv(s.c) && Shape(s.c) && d < s.c.dirsSize && Component(name) && Components(prefix)
    requires WalkDir(s.c, prefix) == Some(d) && CreateFile(s, d, name).Done?
    ensures var (r, e) := CreateFile(s, d, name).value;
            && Inv(r.c) && Shape(r.c) && CacheRuns.KeepsWalks(s.c, r.c)
            && Walk(r.c, prefix + [name]) == Some(e) && WalksBut(s.c, r.c, prefix + [name])
            && FileMade(s, r, d, e, name) && FilesKept(s, r)
  {
    hide Inv, Shape, EntryKey, Lookup, CreateEntry, CreateFile, AddedTo, WalkDir, Walk, Component,
      CacheRuns.KeepsWalks, MakeFile, FileMade, Retyped;
    CreateFileSteps(s, d, name);
    CreatedFileIs(s, d, name);
    var (r, e) := CreateFile(s, d, name).value;
    var c := CreateEntry(s.c, d, name, EntryKey(name)).value.0;
    CacheRuns.AddedKeepsWalks(s.c, c, d, e, name, EntryKey(name));
    FileKeepsOthers(s, d, name);
    AddedFound(s.c, c, d, e, name, prefix);
    AddedWalksBut(s.c, c, d, e, name, prefix);
    RetypedKeepsWalks(c, r.c, e);
    CacheRuns.KeepsTransitive(s.c, c, r.c);
    forall q | q != []
      ensures Walk(r.c, q) == Walk(c, q)
    {
      RetypedWalks(c, r.c, e, q);
    }
  }

  lemma {:induction false} FileKeepsOthers(s: FileState, d: nat, name: seq<byte>)
    requires Inv(s.c) && Shape(s.c) && d < s.c.dirsSize && Component(name) && CreateFile(s, d, name).Done?
    ensures FilesKept(s, CreateFile(s, d, name).value.0)
  {
    hide Inv, Shape, EntryKey, Lookup, CreateEntry, CreateFile, AddedTo, Component, Owns;
    CreateFileSteps(s, d, name);
    CreatedFileIs(s, d, name);
    ComponentKey(name);
    CreateEntryEntriesKept(s.c, d, name, EntryKey(name));
    var (r, e) := CreateFile(s, d, name).value;
    var c := CreateEntry(s.c, d, name, EntryKey(name)).value.0;
    forall x: nat, f: nat | Owns(c, x, f)
      ensures Owns(r.c, x, f)
    {
      OwnersStay(c, r.c, e, x, f);
    }
  }

  lemma {:induction false} OwnersStay(c: State, r: State, e: nat, d: nat, f: nat)
    requires Retyped(c, r, e)
    ensures Owns(r, d, f) <==> Owns(c, d, f)
  {}

  lemma {:induction false} RetypedKeepsWalks(c: State, r: State, e: nat)
    requires Inv(c) && Shape(c) && Shape(r) && Retyped(c, r, e)
    ensures CacheRuns.KeepsWalks(c, r)
  {
    hide Inv, Shape, WalkDir, Walk, Retyped;
    forall q | Components(q)
      ensures WalkDir(r, q) == WalkDir(c, q) && (q != [] ==> Walk(r, q) == Walk(c, q))
    {
      RetypedWalks(c, r, e, q);
    }
  }

  /** What has been added to a directory is found there. */
  lemma {:induction false} AddedFound(c: State, r: State, d: nat, e: nat, name: seq<byte>, prefix: seq<seq<byte>>)
    requires AddedTo(c, r, d, e, name, EntryKey(name)) && Shape(c) && Shape(r) && d < c.dirsSize <= r.dirsSize
    requires Component(name) && Components(prefix) && WalkDir(c, prefix) == Some(d)
    ensures Walk(r, prefix + [name]) == Some(e) == Lookup(r, d, name, EntryKey(name)) && WalkDir(r, prefix) == Some(d)
  {
    hide Inv, Shape, EntryKey, Lookup, AddedTo, WalkDir, Walk;
    ComponentKey(name);
    AddedWalkDir(c, r, d, e, name, EntryKey(name), prefix);
    AddedLookup(c, r, d, e, name, EntryKey(name), d, name, EntryKey(name));
    WalkSnoc(r, prefix, d, name);
  }

  /** A subdirectory, new or not, is found at its path. */
  lemma {:induction false} DirectoryEntered(c: State, d: nat, name: seq<byte>, prefix: seq<seq<byte>>)
    requires Inv(c) && Shape(c) && d < c.dirsSize && Component(name) && Components(prefix)
    requires WalkDir(c, prefix) == Some(d)
    requires KeyLength(EntryKey(name)) <= |name| && Subdirectory(c, d, name, EntryKey(name)).Done?
    ensures var (r, e) := Subdirectory(c, d, name, EntryKey(name)).value;
            && Inv(r) && Shape(r) && CacheRuns.KeepsWalks(c, r)
            && Walk(r, prefix + [name]).Some? && WalksBut(c, r, prefix + [name]) && EntriesKept(c, r)
            && (e.None? ==> r == c)
            && (e.Some? ==>
                  && LinksToDir(r, e.value) && r.meta[e.value].kind == DirectoryKind && Walk(r, prefix + [name]) == e
                  && WalkDir(r, prefix + [name]) == Some(r.meta[e.value].link.dir))
  {
    hide Inv, Shape, EntryKey, Lookup, Subdirectory, AddedTo, WalkDir, Walk, Component, CacheRuns.KeepsWalks;
    var key := EntryKey(name);
    ComponentKey(name);
    SubdirectoryAdds(c, d, name, key);
    SubdirectoryKeepsInv(c, d, name, key);
    SubdirectoryShape(c, d, name, key);
    SubdirectoryEntriesKept(c, d, name, key);
    var (r, e) := Subdirectory(c, d, name, key).value;
    match Lookup(c, d, name, key) {
      case Some(f) =>
        CacheRuns.KeepsItself(c);
        WalkSnoc(c, prefix, d, name);
        WalkDirSnoc(c, prefix, name);
      case None =>
        CacheRuns.AddedKeepsWalks(c, r, d, e.value, name, key);
        AddedFound(c, r, d, e.value, name, prefix);
        AddedWalksBut(c, r, d, e.value, name, prefix);
        WalkDirSnoc(r, prefix, name);
    }
  }

  predicate OfType(item: Listed, kind: Xdr.U32) {
    item.entry.attribs.Some? && item.entry.attribs.value.kind == kind
  }

  /** The tests in numbers: types 1 and 2, names of at least three bytes with no dot among the first two. */
  lemma {:induction false} ItemKinds(item: Listed)
    ensures IsFile(item) <==> OfType(item, 1)
    ensures IsDirectory(item) <==> OfType(item, 2)
    ensures Kept(item) <==> OfType(item, 1) || OfType(item, 2)
    ensures Descends(item) <==>
            OfType(item, 2) && var name := Name(item); |name| >= 3 && name[0] != 46 && name[1] != 46
  {
    hide Name;
  }

  /**
   The entry for an item.  A regular file, of type 1, gets an entry of its own that is a file with the next record,
   which has the size given, in 32 bits, and no data; a directory, of type 2, gets a directory unless the name is
   something else's; other items change nothing.  The entry is found at the item's path, and no other walk changes.
   */
  lemma {:induction false} Entered(s: FileState, dir: nat, item: Listed, prefix: seq<seq<byte>>)
    requires Inv(s.c) && Shape(s.c) && dir < s.c.dirsSize && Components(prefix) && WalkDir(s.c, prefix) == Some(dir)
    requires Kept(item) ==> Component(Name(item))
    requires Enter(s, dir, item).Done?
    ensures var (r, e) := Enter(s, dir, item).value;
            && Inv(r.c) && Shape(r.c) && CacheRuns.KeepsWalks(s.c, r.c) && FilesKept(s, r)
            && (e.Some? ==> Walk(r.c, prefix + [Name(item)]) == e)
            && (if OfType(item, 1) || OfType(item, 2)
                then Walk(r.c, prefix + [Name(item)]).Some? && WalksBut(s.c, r.c, prefix + [Name(item)])
                else r == s && e.None?)
    ensures OfType(item, 1) ==>
              var (r, e) := Enter(s, dir, item).value;
              && e.Some? && e.value < |r.c.meta| && r.c.meta[e.value].kind == FileKind
              && r.c.meta[e.value].link == FileLink(s.filesSize)
              && s.filesSize < |s.files| && r.filesSize == s.filesSize + 1
              && r.files == s.files[s.filesSize := File(0, item.entry.attribs.value.size % 0x1_0000_0000, None)]
    ensures OfType(item, 2) ==>
              var (r, e) := Enter(s, dir, item).value;
              && r.files == s.files && r.filesSize == s.filesSize
              && (match e
                  case None => r == s
                  case Some(x) =>
                    && LinksToDir(r.c, x) && r.c.meta[x].kind == DirectoryKind
                    && WalkDir(r.c, prefix + [Name(item)]) == Some(r.c.meta[x].link.dir))
  {
    hide Inv, Shape, EntryKey, Subdirectory, CreateFile, WalkDir, Walk, Name, CacheRuns.KeepsWalks, Component, WalksBut;
    if IsDirectory(item) {
      DirectoryEntered(s.c, dir, Name(item), prefix);
      DirectoryKeepsFiles(s, Enter(s, dir, item).value.0);
    } else if IsFile(item) {
      FileEntered(s, dir, Name(item), prefix);
      SizedKeepsOthers(s, CreateFile(s, dir, Name(item)).value.0, Enter(s, dir, item).value.0);
    } else {
      CacheRuns.KeepsItself(s.c);
    }
  }

  lemma {:induction false} DirectoryKeepsFiles(s: FileState, r: FileState)
    requires EntriesKept(s.c, r.c) && r == s.(c := r.c)
    ensures FilesKept(s, r)
  {
    hide Owns;
  }

  lemma {:induction false} SizedKeepsOthers(s: FileState, f: FileState, r: FileState)
    requires FilesKept(s, f) && r == f.(files := r.files) && |r.files| == |f.files| && s.filesSize < |s.files|
    requires r.files == f.files[s.filesSize := r.files[s.filesSize]]
    ensures FilesKept(s, r)
  {
    hide Owns;
  }

  // Handles

  /** Every pointer stored can be read, and the directories are in order. */
  ghost predicate Sound(root: seq<FileHandles.Word>, s: Populated) {
    && Inv(s.files.c) && Shape(s.files.c)
    && FileHandles.IsHandle(root) && FileHandles.LimbsOk(s.limbs)
    && forall e :: e in s.handles ==> FileHandles.Within(s.limbs, s.handles[e])
  }

  function PointerAt(s: Populated, e: nat): Option<FileHandles.Word> {
    if e in s.handles then Some(s.handles[e]) else None
  }

  /** Pointers stored before are read as before. */
  ghost predicate PointersStay(root: seq<FileHandles.Word>, l: FileHandles.Limbs, m: FileHandles.Limbs)
    requires FileHandles.IsHandle(root)
  {
    forall v: FileHandles.Word :: FileHandles.Within(l, v) ==>
      FileHandles.Within(m, v) && FileHandles.PtrToHandle(root, m, v) == FileHandles.PtrToHandle(root, l, v)
  }

  /** Entries in use and their records are as before. */
  ghost predicate FilesKept(s: FileState, r: FileState) {
    && s.filesSize <= r.filesSize && |r.files| == |s.files| && |r.c.meta| == |s.c.meta|
    && (forall i :: 0 <= i < s.filesSize && i < |s.files| ==> r.files[i] == s.files[i])
    && (forall d: nat, e: nat :: Owns(s.c, d, e) && e < |s.c.meta| ==> Owns(r.c, d, e) && r.c.meta[e] == s.c.meta[e])
  }

  lemma {:induction false} FilesKeptTransitive(s: FileState, m: FileState, r: FileState)
    requires FilesKept(s, m) && FilesKept(m, r)
    ensures FilesKept(s, r)
  {
    hide Owns;
  }

  /** Nothing a walk or a pointer leads to is lost. */
  ghost predicate Frame(root: seq<FileHandles.Word>, s: Populated, r: Populated)
    requires Sound(root, s) && Sound(root, r)
  {
    && CacheRuns.KeepsWalks(s.files.c, r.files.c) && FilesKept(s.files, r.files)
    && PointersStay(root, s.limbs, r.limbs)
  }

  lemma {:induction false} FrameTransitive(root: seq<FileHandles.Word>, s: Populated, m: Populated, r: Populated)
    requires Sound(root, s) && Sound(root, m) && Sound(root, r) && Frame(root, s, m) && Frame(root, m, r)
    ensures Frame(root, s, r)
  {
    hide Sound, CacheRuns.KeepsWalks, FileHandles.Within, FileHandles.PtrToHandle, FilesKept;
    FilesKeptTransitive(s.files, m.files, r.files);
    SoundParts(root, s);
    SoundParts(root, m);
    SoundParts(root, r);
    CacheRuns.KeepsTransitive(s.files.c, m.files.c, r.files.c);
  }

  lemma {:induction false} SoundParts(root: seq<FileHandles.Word>, s: Populated)
    requires Sound(root, s)
    ensures Inv(s.files.c) && Shape(s.files.c) && FileHandles.IsHandle(root) && FileHandles.LimbsOk(s.limbs)
  {
    hide Inv, Shape;
  }

  /** A handle that is read back wherever it is stored: the root's, or one with words, and zero after them. */
  predicate Recoverable(root: seq<FileHandles.Word>, h: seq<FileHandles.Word>)
    requires FileHandles.IsHandle(root) && FileHandles.IsHandle(h)
  {
    h == root || (FileHandles.NothingAfter(h, FileHandles.HandleLength(h)) && FileHandles.HandleLength(h) > 0)
  }

  /** Storing a handle keeps what was stored before; a recoverable one is read back. */
  lemma {:induction false} HandleStored(root: seq<FileHandles.Word>, l: FileHandles.Limbs, h: seq<FileHandles.Word>)
    requires FileHandles.IsHandle(root) && FileHandles.IsHandle(h) && FileHandles.LimbsOk(l)
    requires FileHandles.HandleToPtr(root, l, h).Done?
    ensures var (m, v) := FileHandles.HandleToPtr(root, l, h).value;
            && FileHandles.LimbsOk(m) && FileHandles.Within(m, v) && PointersStay(root, l, m)
            && (Recoverable(root, h) ==> FileHandles.PtrToHandle(root, m, v) == Done(h))
  {
    hide FileHandles.HandleToPtr, FileHandles.PtrToHandle, FileHandles.Within, FileHandles.NothingAfter;
    FileHandles.RoundTrip(root, l, h);
    FileHandles.StoredWithin(root, l, h);
    var (m, v) := FileHandles.HandleToPtr(root, l, h).value;
    forall w: FileHandles.Word | FileHandles.Within(l, w)
      ensures FileHandles.Within(m, w) && FileHandles.PtrToHandle(root, m, w) == FileHandles.PtrToHandle(root, l, w)
    {
      FileHandles.EarlierPointersStay(root, l, h, w);
    }
  }

  /** Only one path leads to an entry. */
  lemma {:induction false} EntryPathUnique(c: State, a: seq<seq<byte>>, b: seq<seq<byte>>)
    requires Inv(c) && Shape(c) && Components(a) && Components(b) && a != [] && b != []
    requires Walk(c, a).Some? && Walk(c, a) == Walk(c, b)
    ensures a == b
  {
    hide Inv, Shape, WalkDir, Component, EntryKey, Lookup, Owns;
    var p, x := a[..|a| - 1], a[|a| - 1];
    var q, y := b[..|b| - 1], b[|b| - 1];
    assert Component(x) && Component(y);
    ComponentsInit(a);
    ComponentsInit(b);
    ComponentKey(x);
    ComponentKey(y);
    InvWalkBound(c, p);
    InvWalkBound(c, q);
    var d, f := WalkDir(c, p).value, WalkDir(c, q).value;
    LookupIsMap(c, d, x, EntryKey(x));
    LookupIsMap(c, f, y, EntryKey(y));
    OwnerUnique(c, d, f, Walk(c, a).value);
    WalkInjective(c, p, q);
    assert a == p + [x] && b == q + [y];
  }

  // The whole listing

  /** Handles come in 64 bytes, and what becomes an entry has a proper name. */
  predicate Proper(items: seq<Listed>)
    decreases items
  {
    forall i :: 0 <= i < |items| ==>
      && (items[i].entry.handle.Some? ==> |items[i].entry.handle.value| == Xdr.HANDLE_SIZE)
      && (Kept(items[i]) ==> Component(Name(items[i])))
      && Proper(items[i].below)
  }

  predicate ProperItem(item: Listed) {
    && (item.entry.handle.Some? ==> |item.entry.handle.value| == Xdr.HANDLE_SIZE)
    && (Kept(item) ==> Component(Name(item)))
  }

  lemma {:induction false} ProperFirst(items: seq<Listed>)
    requires Proper(items) && items != []
    ensures ProperItem(items[0]) && Proper(items[0].below) && Proper(items[1..])
  {}

  /** What the handles of entries that were there before may have changed for: paths along an item's. */
  ghost predicate OnlyItems(s: Populated, r: Populated, prefix: seq<seq<byte>>, items: seq<Listed>)
    requires Shape(s.files.c)
  {
    forall x :: Components(x) && x != [] && Walk(s.files.c, x).Some? && Clear(prefix, items, x) ==>
      PointerAt(r, Walk(s.files.c, x).value) == PointerAt(s, Walk(s.files.c, x).value)
  }

  /** `x` runs along no item's path. */
  predicate Clear(prefix: seq<seq<byte>>, items: seq<Listed>, x: seq<seq<byte>>) {
    forall i :: 0 <= i < |items| && Kept(items[i]) ==> !(prefix + [Name(items[i])] <= x)
  }

  /** Every directory has a path, so an entry can be made in it soundly. */
  lemma {:induction false} EnterSound(root: seq<FileHandles.Word>, s: Populated, dir: nat, item: Listed)
    requires Sound(root, s) && Shape(s.files.c) && dir < s.files.c.dirsSize && ProperItem(item)
    requires Enter(s.files, dir, item).Done?
    ensures var (f, e) := Enter(s.files, dir, item).value;
            && Sound(root, s.(files := f)) && s.files.c.dirsSize <= f.c.dirsSize
            && (e.Some? && IsDirectory(item) ==> LinksToDir(f.c, e.value))
  {
    hide Inv, Shape, EntryKey, Enter, WalkDir, Walk, Name, Component, FileHandles.Within, FileHandles.LimbsOk;
    var q := CacheRuns.PathComponents(s.files.c, dir);
    WalkReachesPath(s.files.c, q);
    Entered(s.files, dir, item, q);
    EnterGrows(s.files, dir, item);
  }

  lemma {:induction false} EnterGrows(s: FileState, dir: nat, item: Listed)
    requires Inv(s.c) && Shape(s.c) && dir < s.c.dirsSize && Enter(s, dir, item).Done?
    ensures s.c.dirsSize <= Enter(s, dir, item).value.0.c.dirsSize
  {
    hide Inv, Shape, EntryKey, Subdirectory, CreateEntry, Name;
    var name := Name(item);
    if IsDirectory(item) {
      SubdirectoryShape(s.c, dir, name, EntryKey(name));
    } else if IsFile(item) {
      CreateEntryShape(s.c, dir, name, EntryKey(name));
    }
  }

  lemma {:induction false} StoreSound(little: bool, root: seq<FileHandles.Word>, s: Populated, e: Option<nat>,
                   handle: Option<seq<Xdr.Octet>>)
    requires Sound(root, s) && FileHandles.IsHandle(root) && FileHandles.LimbsOk(s.limbs)
    requires handle.Some? ==> |handle.value| == Xdr.HANDLE_SIZE
    requires StoreHandle(little, root, s, e, handle).Done?
    ensures var r := StoreHandle(little, root, s, e, handle).value;
            && Sound(root, r) && r.files == s.files && PointersStay(root, s.limbs, r.limbs)
  {
    hide Inv, Shape, FileHandles.HandleToPtr, FileHandles.PtrToHandle, FileHandles.Within, Recoverable;
    if handle.Some? {
      HandleStored(root, s.limbs, SentHandles.HostHandle(little, handle.value));
    }
  }

  /**
   The callback over a whole listing of directory `dir`, and over the listings of the directories in it.
   A descent needs the handle it asks with; without an entry the first thing it does or the handle stored
   after it is fatal.
   */
  ghost function PopulateAll(little: bool, root: seq<FileHandles.Word>, s: Populated, dir: nat, items: seq<Listed>)
    : (r: Outcome<Populated>)
    requires Sound(root, s) && dir < s.files.c.dirsSize && Proper(items)
    ensures r.Done? ==> Sound(root, r.value) && s.files.c.dirsSize <= r.value.files.c.dirsSize
    decreases items
  {
    hide Inv, Shape, EntryKey, Enter, StoreHandle, Name, Component, FileHandles.Within, FileHandles.LimbsOk, Proper,
      Descends, Kept, Sound, PointersStay;
    if items == [] then Done(s)
    else
      var item := items[0];
      ProperFirst(items);
      SoundParts(root, s);
      var (f, e) :- Enter(s.files, dir, item);
      EnterSound(root, s, dir, item);
      var s1 := s.(files := f);
      var s2 :-
        if !Descends(item) then Done(s1)
        else if e.None? || item.entry.handle.None? then Stopped(NullPointer)
        else
          assert LinksToDir(f.c, e.value) by { DescendsIsDirectory(item); }
          PopulateAll(little, root, s1, f.c.meta[e.value].link.dir, item.below);
      SoundParts(root, s2);
      var s3 :-
        if item.entry.attribs.Some? && !Kept(item) then Done(s2)
        else StoreHandle(little, root, s2, e, item.entry.handle);
      assert Sound(root, s3) && s3.files == s2.files by {
        if !(item.entry.attribs.Some? && !Kept(item)) { StoreSound(little, root, s2, e, item.entry.handle); }
      }
      PopulateAll(little, root, s3, dir, items[1..])
  }

  lemma {:induction false} DescendsIsDirectory(item: Listed)
    requires Descends(item)
    ensures IsDirectory(item) && Kept(item)
  {}

  /** A handle that comes without attributes has no entry to be stored in. */
  lemma {:induction false} HandleWithoutAttribs(little: bool, root: seq<FileHandles.Word>, s: Populated, dir: nat,
                                                items: seq<Listed>)
    requires Sound(root, s) && dir < s.files.c.dirsSize && Proper(items) && items != []
    requires items[0].entry.attribs.None? && items[0].entry.handle.Some?
    ensures PopulateAll(little, root, s, dir, items) == Stopped(NullPointer)
  {
    hide Inv, Shape, Name, Proper;
    ProperFirst(items);
  }

  // What is in the cache afterwards

  /** The path leads to an entry, and a recoverable handle is read back from it. */
  ghost predicate HandleAt(little: bool, root: seq<FileHandles.Word>, r: Populated, q: seq<seq<byte>>,
                           handle: Option<seq<Xdr.Octet>>)
    requires Shape(r.files.c) && FileHandles.IsHandle(root) && q != []
  {
    && Walk(r.files.c, q).Some?
    && (handle.Some? && |handle.value| == Xdr.HANDLE_SIZE ==>
          var h := SentHandles.HostHandle(little, handle.value);
          var v := PointerAt(r, Walk(r.files.c, q).value);
          Recoverable(root, h) ==> v.Some? && FileHandles.PtrToHandle(root, r.limbs, v.value) == Done(h))
  }

  /** For a regular file the path leads to a file of the size given, in 32 bits, with no data. */
  predicate FileAt(r: Populated, q: seq<seq<byte>>, item: Listed)
    requires Shape(r.files.c) && q != []
  {
    OfType(item, 1) ==>
      match Walk(r.files.c, q)
      case None => false
      case Some(e) =>
        && e < |r.files.c.meta| && r.files.c.meta[e].kind == FileKind && r.files.c.meta[e].link.FileLink?
        && var i := r.files.c.meta[e].link.file;
           && i < r.files.filesSize && i < |r.files.files|
           && r.files.files[i] == File(0, item.entry.attribs.value.size % 0x1_0000_0000, None)
  }

  /** What is cached for an item. */
  ghost predicate EntryAt(little: bool, root: seq<FileHandles.Word>, r: Populated, q: seq<seq<byte>>, item: Listed)
    requires Shape(r.files.c) && FileHandles.IsHandle(root) && q != []
  {
    HandleAt(little, root, r, q, item.entry.handle) && FileAt(r, q, item)
  }

  /**
   The paths of a listing of the directory at `prefix`: of each file (type 1) and directory (type 2) in it, and of
   what is listed below a directory whose name has at least three bytes and no dot (46) among the first two.
   */
  predicate InListing(prefix: seq<seq<byte>>, items: seq<Listed>, q: seq<seq<byte>>)
    decreases items
  {
    exists i :: 0 <= i < |items| &&
      var item := items[i]; var p := prefix + [Name(item)];
      || (OfType(item, 1) && q == p)
      || (OfType(item, 2) && q == p)
      || (OfType(item, 2) && |Name(item)| >= 3 && Name(item)[0] != 46 && Name(item)[1] != 46
          && InListing(p, item.below, q))
  }

  /** Walks lead to what they led to before, and now to the paths of the listing too; no others arrive. */
  ghost predicate ExactWalks(c: State, r: State, prefix: seq<seq<byte>>, items: seq<Listed>)
    requires Shape(c) && Shape(r)
  {
    forall q :: Components(q) && q != [] ==> (Walk(r, q).Some? <==> Walk(c, q).Some? || InListing(prefix, items, q))
  }

  lemma {:induction false} ListingOfOne(prefix: seq<seq<byte>>, item: Listed, q: seq<seq<byte>>)
    ensures InListing(prefix, [item], q) <==>
            || (Kept(item) && q == prefix + [Name(item)])
            || (Descends(item) && InListing(prefix + [Name(item)], item.below, q))
  {
    hide Name, OfType, Kept, Descends;
    ItemKinds(item);
    assert [item][0] == item;
  }

  lemma {:induction false} ListingSplit(prefix: seq<seq<byte>>, items: seq<Listed>, q: seq<seq<byte>>)
    requires items != []
    ensures InListing(prefix, items, q) <==> InListing(prefix, [items[0]], q) || InListing(prefix, items[1..], q)
  {
    hide Name, OfType;
    var one, rest := [items[0]], items[1..];
    if InListing(prefix, items, q) {
      var i: nat :| i < |items| && InListing(prefix, [items[i]], q) by { OneOfListing(prefix, items, q); }
      if i > 0 {
        ListingAt(prefix, rest, i - 1, q);
      }
    }
    if InListing(prefix, one, q) {
      ListingAt(prefix, items, 0, q);
    }
    if InListing(prefix, rest, q) {
      var i: nat :| i < |rest| && InListing(prefix, [rest[i]], q) by { OneOfListing(prefix, rest, q); }
      assert rest[i] == items[i + 1];
      ListingAt(prefix, items, i + 1, q);
    }
  }

  lemma {:induction false} OneOfListing(prefix: seq<seq<byte>>, items: seq<Listed>, q: seq<seq<byte>>)
    requires InListing(prefix, items, q)
    ensures exists i: nat :: i < |items| && InListing(prefix, [items[i]], q)
  {
    hide Name, OfType;
    var i :| 0 <= i < |items| &&
      var item := items[i]; var p := prefix + [Name(item)];
      || (OfType(item, 1) && q == p)
      || (OfType(item, 2) && q == p)
      || (OfType(item, 2) && |Name(item)| >= 3 && Name(item)[0] != 46 && Name(item)[1] != 46
          && InListing(p, item.below, q));
    ItemKinds(items[i]);
    ListingOfOne(prefix, items[i], q);
  }

  lemma {:induction false} ListingAt(prefix: seq<seq<byte>>, items: seq<Listed>, i: nat, q: seq<seq<byte>>)
    requires i < |items| && InListing(prefix, [items[i]], q)
    ensures InListing(prefix, items, q)
  {
    hide Name, OfType;
    ItemKinds(items[i]);
    ListingOfOne(prefix, items[i], q);
  }

  lemma {:induction false} ExactNothing(c: State, prefix: seq<seq<byte>>, items: seq<Listed>)
    requires Shape(c) && (items == [] || (|items| == 1 && !Kept(items[0]) && !Descends(items[0])))
    ensures ExactWalks(c, c, prefix, items)
  {
    hide Shape, Walk, Name, OfType, Kept, Descends;
    forall q
      ensures !InListing(prefix, items, q)
    {
      if items != [] {
        assert items == [items[0]];
        ListingOfOne(prefix, items[0], q);
      }
    }
  }

  lemma {:induction false} ExactRest(c: State, m: State, r: State, prefix: seq<seq<byte>>, items: seq<Listed>)
    requires Shape(c) && Shape(m) && Shape(r) && items != []
    requires ExactWalks(c, m, prefix, [items[0]]) && ExactWalks(m, r, prefix, items[1..])
    ensures ExactWalks(c, r, prefix, items)
  {
    hide Shape, Walk, InListing, Components;
    forall q
      ensures InListing(prefix, items, q) <==> InListing(prefix, [items[0]], q) || InListing(prefix, items[1..], q)
    {
      ListingSplit(prefix, items, q);
    }
  }

  /** One item: its own path, and what is listed below it. */
  lemma {:induction false} ExactItem(c: State, c1: State, c2: State, prefix: seq<seq<byte>>, item: Listed)
    requires Shape(c) && Shape(c1) && Shape(c2) && Kept(item) && Component(Name(item))
    requires var p := prefix + [Name(item)];
             && Walk(c1, p).Some? && WalksBut(c, c1, p)
             && (if Descends(item) then ExactWalks(c1, c2, p, item.below) else c2 == c1)
    ensures ExactWalks(c, c2, prefix, [item])
  {
    hide Shape, Walk, InListing, Components, Name, Kept, Descends;
    var p := prefix + [Name(item)];
    forall q | Components(q) && q != []
      ensures Walk(c2, q).Some? <==> Walk(c, q).Some? || InListing(prefix, [item], q)
    {
      ListingOfOne(prefix, item, q);
    }
  }

  /** No later item has the name of item `i`. */
  predicate LastOfName(items: seq<Listed>, i: nat)
    requires i < |items|
  {
    forall j :: i < j < |items| && Kept(items[j]) ==> Name(items[j]) != Name(items[i])
  }

  /** Every file and directory of the listing is there under its path, and so are those listed below it. */
  ghost predicate Settled(little: bool, root: seq<FileHandles.Word>, r: Populated, prefix: seq<seq<byte>>,
                          items: seq<Listed>)
    requires Shape(r.files.c) && FileHandles.IsHandle(root)
    decreases items
  {
    forall i :: 0 <= i < |items| && Kept(items[i]) && LastOfName(items, i) ==>
      && EntryAt(little, root, r, prefix + [Name(items[i])], items[i])
      && (Descends(items[i]) ==> Settled(little, root, r, prefix + [Name(items[i])], items[i].below))
  }

  /** Handles of entries at and below `q`, or strictly below it, are as before. */
  ghost predicate Quiet(s: Populated, r: Populated, q: seq<seq<byte>>, strictly: bool)
    requires Shape(s.files.c)
  {
    forall x :: Components(x) && x != [] && q <= x && (strictly ==> x != q) && Walk(s.files.c, x).Some? ==>
      PointerAt(r, Walk(s.files.c, x).value) == PointerAt(s, Walk(s.files.c, x).value)
  }

  lemma {:induction false} EntryStays(little: bool, root: seq<FileHandles.Word>, s: Populated, r: Populated,
                                      q: seq<seq<byte>>, item: Listed)
    requires Sound(root, s) && Sound(root, r) && Frame(root, s, r) && Shape(s.files.c) && Shape(r.files.c)
    requires FileHandles.IsHandle(root) && Components(q) && q != [] && EntryAt(little, root, s, q, item)
    requires PointerAt(r, Walk(s.files.c, q).value) == PointerAt(s, Walk(s.files.c, q).value)
    ensures EntryAt(little, root, r, q, item)
  {
    hide Inv, Shape, WalkDir, Walk, FileHandles.Within, FileHandles.PtrToHandle, FileHandles.LimbsOk, Recoverable,
      FilesKept, FileAt;
    FileStays(root, s, r, q, item);
  }

  lemma {:induction false} FileStays(root: seq<FileHandles.Word>, s: Populated, r: Populated, q: seq<seq<byte>>,
                                     item: Listed)
    requires Sound(root, s) && Sound(root, r) && Frame(root, s, r) && Shape(s.files.c) && Shape(r.files.c)
    requires Components(q) && q != [] && FileAt(s, q, item)
    ensures FileAt(r, q, item)
  {
    hide Sound, Shape, Walk, PointersStay, Component;
    SoundParts(root, s);
    if OfType(item, 1) {
      FrameWalk(root, s, r, q);
      var d := WalkOwned(s.files.c, q);
      assert Owns(s.files.c, d, Walk(s.files.c, q).value);
    }
  }

  /** What a walk leads to is in use. */
  lemma {:induction false} WalkOwned(c: State, q: seq<seq<byte>>) returns (d: nat)
    requires Inv(c) && Shape(c) && Components(q) && q != [] && Walk(c, q).Some?
    ensures Owns(c, d, Walk(c, q).value)
  {
    hide Inv, Shape, WalkDir, Component, EntryKey, Lookup, Owns;
    var init, last := q[..|q| - 1], q[|q| - 1];
    assert Component(last);
    ComponentsInit(q);
    ComponentKey(last);
    InvWalkBound(c, init);
    d := WalkDir(c, init).value;
    LookupIsMap(c, d, last, EntryKey(last));
  }

  lemma {:induction false} SettledStays(little: bool, root: seq<FileHandles.Word>, s: Populated, r: Populated,
                                        q: seq<seq<byte>>, items: seq<Listed>)
    requires Sound(root, s) && Sound(root, r) && Frame(root, s, r) && Shape(s.files.c) && Shape(r.files.c)
    requires FileHandles.IsHandle(root) && Components(q) && Proper(items) && Quiet(s, r, q, true)
    requires Settled(little, root, s, q, items)
    ensures Settled(little, root, r, q, items)
    decreases items
  {
    hide Sound, Frame, Shape, Walk, EntryAt, Name, Kept, Descends, PointerAt, Component, LastOfName;
    forall i | 0 <= i < |items| && Kept(items[i]) && LastOfName(items, i)
      ensures EntryAt(little, root, r, q + [Name(items[i])], items[i])
      ensures Descends(items[i]) ==> Settled(little, root, r, q + [Name(items[i])], items[i].below)
    {
      var p := q + [Name(items[i])];
      ComponentsSnoc(q, Name(items[i]));
      EntryHasWalk(little, root, s, p, items[i]);
      EntryStays(little, root, s, r, p, items[i]);
      if Descends(items[i]) {
        QuietDeeper(s, r, q, p);
        SettledStays(little, root, s, r, p, items[i].below);
      }
    }
  }

  lemma {:induction false} EntryIs(little: bool, root: seq<FileHandles.Word>, r: Populated, q: seq<seq<byte>>,
                                   item: Listed)
    requires Shape(r.files.c) && FileHandles.IsHandle(root) && q != []
    ensures EntryAt(little, root, r, q, item) <==> HandleAt(little, root, r, q, item.entry.handle) && FileAt(r, q, item)
  {
    hide Shape, HandleAt, FileAt;
  }

  lemma {:induction false} EntryHasWalk(little: bool, root: seq<FileHandles.Word>, s: Populated, q: seq<seq<byte>>,
                                        item: Listed)
    requires Shape(s.files.c) && FileHandles.IsHandle(root) && q != [] && EntryAt(little, root, s, q, item)
    ensures Walk(s.files.c, q).Some?
  {
    hide Shape, Walk;
  }

  lemma {:induction false} QuietDeeper(s: Populated, r: Populated, q: seq<seq<byte>>, p: seq<seq<byte>>)
    requires Shape(s.files.c) && Quiet(s, r, q, true) && q <= p && q != p
    ensures Quiet(s, r, p, true)
  {
    hide Shape, Walk, PointerAt;
  }

  /** Storing a handle settles the entry it is stored in and disturbs no other. */
  lemma {:induction false} StoreSettles(little: bool, root: seq<FileHandles.Word>, s: Populated, e: Option<nat>,
                     handle: Option<seq<Xdr.Octet>>, q: seq<seq<byte>>)
    requires Sound(root, s) && FileHandles.IsHandle(root) && FileHandles.LimbsOk(s.limbs) && Shape(s.files.c)
    requires handle.Some? ==> |handle.value| == Xdr.HANDLE_SIZE
    requires Components(q) && q != [] && Walk(s.files.c, q).Some? && (e.Some? ==> Walk(s.files.c, q) == e)
    requires StoreHandle(little, root, s, e, handle).Done?
    ensures var r := StoreHandle(little, root, s, e, handle).value;
            && Sound(root, r) && r.files == s.files && Frame(root, s, r)
            && HandleAt(little, root, r, q, handle) && HandlesBut(s, r, q)
  {
    hide Inv, Shape, WalkDir, Walk, FileHandles.HandleToPtr, FileHandles.PtrToHandle, FileHandles.Within, Recoverable,
      CacheRuns.KeepsWalks;
    StoreSound(little, root, s, e, handle);
    var r := StoreHandle(little, root, s, e, handle).value;
    CacheRuns.KeepsItself(s.files.c);
    if handle.Some? {
      HandleStored(root, s.limbs, SentHandles.HostHandle(little, handle.value));
    }
    forall x | Components(x) && x != [] && x != q && Walk(s.files.c, x).Some?
      ensures PointerAt(r, Walk(s.files.c, x).value) == PointerAt(s, Walk(s.files.c, x).value)
    {
      if e.Some? && Walk(s.files.c, x) == e {
        EntryPathUnique(s.files.c, x, q);
      }
    }
  }

  /** Only the entry at `q` may have another handle. */
  ghost predicate HandlesBut(s: Populated, r: Populated, q: seq<seq<byte>>)
    requires Shape(s.files.c)
  {
    forall x :: Components(x) && x != [] && x != q && Walk(s.files.c, x).Some? ==>
      PointerAt(r, Walk(s.files.c, x).value) == PointerAt(s, Walk(s.files.c, x).value)
  }

  /** What happens for one item, given what happens below it. */
  lemma {:induction false} ItemSettles(little: bool, root: seq<FileHandles.Word>, s: Populated, s1: Populated,
                                       s2: Populated, s3: Populated,
                    q: seq<seq<byte>>, items: seq<Listed>, prefix: seq<seq<byte>>)
    requires Sound(root, s) && Sound(root, s1) && Sound(root, s2) && Sound(root, s3)
    requires Shape(s.files.c) && Shape(s1.files.c) && Shape(s2.files.c) && Shape(s3.files.c) &&
             FileHandles.IsHandle(root)
    requires items != [] && Kept(items[0]) && q == prefix + [Name(items[0])] && Components(q) && Proper(items[0].below)
    requires Frame(root, s, s1) && Frame(root, s1, s2) && Frame(root, s2, s3) && s1.handles == s.handles
    requires OnlyItems(s1, s2, q, items[0].below) && HandlesBut(s2, s3, q)
    requires Descends(items[0]) ==> Settled(little, root, s2, q, items[0].below)
    ensures Frame(root, s, s3) && OnlyItems(s, s3, prefix, [items[0]])
    ensures Descends(items[0]) ==> Settled(little, root, s3, q, items[0].below)
  {
    hide Sound, Frame, Shape, Walk, Name, Kept, Descends, PointerAt, Component, Settled;
    FrameTransitive(root, s, s1, s2);
    FrameTransitive(root, s, s2, s3);
    forall x | Components(x) && x != [] && Walk(s.files.c, x).Some? && !(q <= x)
      ensures PointerAt(s3, Walk(s.files.c, x).value) == PointerAt(s, Walk(s.files.c, x).value)
    {
      FrameWalk(root, s, s1, x);
      FrameWalk(root, s, s2, x);
      assert Clear(q, items[0].below, x);
      SamePointers(s, s1, Walk(s.files.c, x).value);
    }
    forall x | Clear(prefix, [items[0]], x)
      ensures !(q <= x)
    {
      assert [items[0]][0] == items[0];
    }
    if Descends(items[0]) {
      SettledStays(little, root, s2, s3, q, items[0].below);
    }
  }

  lemma {:induction false} FrameWalk(root: seq<FileHandles.Word>, s: Populated, r: Populated, x: seq<seq<byte>>)
    requires Sound(root, s) && Sound(root, r) && Frame(root, s, r) && Shape(s.files.c) && Shape(r.files.c)
    requires Components(x) && x != [] && Walk(s.files.c, x).Some?
    ensures Walk(r.files.c, x) == Walk(s.files.c, x)
  {
    hide Sound, Shape, Walk, PointersStay;
  }

  lemma {:induction false} SamePointers(s: Populated, r: Populated, e: nat)
    requires r.handles == s.handles
    ensures PointerAt(r, e) == PointerAt(s, e)
  {}

  /** The first item and then the rest. */
  lemma {:induction false} RestSettles(little: bool, root: seq<FileHandles.Word>, s: Populated, m: Populated,
                                       r: Populated,
                    prefix: seq<seq<byte>>, items: seq<Listed>)
    requires Sound(root, s) && Sound(root, m) && Sound(root, r)
    requires Shape(s.files.c) && Shape(m.files.c) && Shape(r.files.c) && FileHandles.IsHandle(root)
    requires items != [] && Proper(items) && Components(prefix)
    requires Frame(root, s, m) && Frame(root, m, r)
    requires OnlyItems(s, m, prefix, [items[0]]) && OnlyItems(m, r, prefix, items[1..])
    requires Kept(items[0]) ==>
               && EntryAt(little, root, m, prefix + [Name(items[0])], items[0])
               && (Descends(items[0]) ==> Settled(little, root, m, prefix + [Name(items[0])], items[0].below))
    requires Settled(little, root, r, prefix, items[1..])
    ensures Frame(root, s, r) && OnlyItems(s, r, prefix, items) && Settled(little, root, r, prefix, items)
  {
    hide Sound, Frame, Shape, Walk, Name, Kept, Descends, PointerAt, Component, Settled, EntryAt;
    FrameTransitive(root, s, m, r);
    forall x | Components(x) && x != [] && Walk(s.files.c, x).Some? && Clear(prefix, items, x)
      ensures PointerAt(r, Walk(s.files.c, x).value) == PointerAt(s, Walk(s.files.c, x).value)
    {
      FrameWalk(root, s, m, x);
      ClearParts(prefix, items, x);
    }
    if Kept(items[0]) && LastOfName(items, 0) {
      FirstStays(little, root, m, r, prefix, items);
    }
    SettledFromParts(little, root, r, prefix, items);
  }

  lemma {:induction false} ClearParts(prefix: seq<seq<byte>>, items: seq<Listed>, x: seq<seq<byte>>)
    requires items != [] && Clear(prefix, items, x)
    ensures Clear(prefix, [items[0]], x) && Clear(prefix, items[1..], x)
  {
    hide Name, Kept;
  }

  /** Later items have other names, so they leave the first one's subtree alone. */
  lemma {:induction false} FirstStays(little: bool, root: seq<FileHandles.Word>, m: Populated, r: Populated,
                                      prefix: seq<seq<byte>>,
                   items: seq<Listed>)
    requires Sound(root, m) && Sound(root, r) && Shape(m.files.c) && Shape(r.files.c) && FileHandles.IsHandle(root)
    requires items != [] && Proper(items) && Components(prefix) && Kept(items[0]) && LastOfName(items, 0)
    requires Frame(root, m, r) && OnlyItems(m, r, prefix, items[1..])
    requires EntryAt(little, root, m, prefix + [Name(items[0])], items[0])
    requires Descends(items[0]) ==> Settled(little, root, m, prefix + [Name(items[0])], items[0].below)
    ensures EntryAt(little, root, r, prefix + [Name(items[0])], items[0])
    ensures Descends(items[0]) ==> Settled(little, root, r, prefix + [Name(items[0])], items[0].below)
  {
    hide Sound, Frame, Shape, Walk, Name, Kept, Descends, PointerAt, Component, Settled, EntryAt;
    var q := prefix + [Name(items[0])];
    ProperFirst(items);
    ComponentsSnoc(prefix, Name(items[0]));
    forall x | q <= x
      ensures Clear(prefix, items[1..], x)
    {
      forall j | 0 <= j < |items[1..]| && Kept(items[1..][j])
        ensures !(prefix + [Name(items[1..][j])] <= x)
      {
        assert items[1..][j] == items[j + 1];
        assert x[|prefix|] == q[|prefix|];
      }
    }
    EntryHasWalk(little, root, m, q, items[0]);
    assert Quiet(m, r, q, false);
    EntryStays(little, root, m, r, q, items[0]);
    if Descends(items[0]) {
      SettledStays(little, root, m, r, q, items[0].below);
    }
  }

  lemma {:induction false} SettledFromParts(little: bool, root: seq<FileHandles.Word>, r: Populated,
                                            prefix: seq<seq<byte>>,
                         items: seq<Listed>)
    requires Shape(r.files.c) && FileHandles.IsHandle(root) && items != []
    requires Kept(items[0]) && LastOfName(items, 0) ==>
               && EntryAt(little, root, r, prefix + [Name(items[0])], items[0])
               && (Descends(items[0]) ==> Settled(little, root, r, prefix + [Name(items[0])], items[0].below))
    requires Settled(little, root, r, prefix, items[1..])
    ensures Settled(little, root, r, prefix, items)
  {
    hide Shape, Name, Kept, Descends, EntryAt;
    forall i | 0 <= i < |items| && Kept(items[i]) && LastOfName(items, i)
      ensures EntryAt(little, root, r, prefix + [Name(items[i])], items[i])
      ensures Descends(items[i]) ==> Settled(little, root, r, prefix + [Name(items[i])], items[i].below)
    {
      if i > 0 {
        assert items[1..][i - 1] == items[i];
        assert forall j :: i - 1 < j < |items[1..]| ==> items[1..][j] == items[j + 1];
        assert LastOfName(items[1..], i - 1);
      }
    }
  }

  /**
   After the whole listing: LookupPath's walk finds every file and directory listed, at any depth, each
   recoverable handle is read back from its entry, and nothing that was there before is lost.
   */
  lemma {:induction false} PopulateSettles(little: bool, root: seq<FileHandles.Word>, s: Populated, dir: nat,
                                           prefix: seq<seq<byte>>, items: seq<Listed>)
    requires Sound(root, s) && Shape(s.files.c) && dir < s.files.c.dirsSize && Proper(items)
    requires FileHandles.IsHandle(root) && Components(prefix) && WalkDir(s.files.c, prefix) == Some(dir)
    requires PopulateAll(little, root, s, dir, items).Done?
    ensures var r := PopulateAll(little, root, s, dir, items).value;
            && Sound(root, r) && Shape(r.files.c)
            && Frame(root, s, r) && OnlyItems(s, r, prefix, items) && Settled(little, root, r, prefix, items)
            && ExactWalks(s.files.c, r.files.c, prefix, items)
    decreases items, 1
  {
    hide Inv, Shape, EntryKey, Enter, StoreHandle, Name, Component, FileHandles.Within, FileHandles.LimbsOk, Proper,
      Descends, Kept, WalkDir, Walk, Frame, OnlyItems, Settled, EntryAt, HandlesBut,
      ExactWalks, WalksBut, FileAt, HandleAt, FilesKept;
    if items == [] {
      NothingListed(little, root, s, prefix);
      ExactNothing(s.files.c, prefix, items);
    } else {
      var m := FirstSettles(little, root, s, dir, prefix, items);
      ProperFirst(items);
      PopulateSettles(little, root, m, dir, prefix, items[1..]);
      RestSettles(little, root, s, m, PopulateAll(little, root, s, dir, items).value, prefix, items);
      ExactRest(s.files.c, m.files.c, PopulateAll(little, root, s, dir, items).value.files.c, prefix, items);
    }
  }

  /** The first item, and everything below it; `m` is the cache before the others. */
  lemma {:induction false} FirstSettles(little: bool, root: seq<FileHandles.Word>, s: Populated, dir: nat,
                                        prefix: seq<seq<byte>>, items: seq<Listed>) returns (m: Populated)
    requires Sound(root, s) && Shape(s.files.c) && dir < s.files.c.dirsSize && Proper(items) && items != []
    requires FileHandles.IsHandle(root) && Components(prefix) && WalkDir(s.files.c, prefix) == Some(dir)
    requires PopulateAll(little, root, s, dir, items).Done?
    ensures Sound(root, m) && Shape(m.files.c) && dir < m.files.c.dirsSize && WalkDir(m.files.c, prefix) == Some(dir)
    ensures Proper(items[1..])
    ensures PopulateAll(little, root, s, dir, items) == PopulateAll(little, root, m, dir, items[1..])
    ensures Frame(root, s, m) && OnlyItems(s, m, prefix, [items[0]])
    ensures ExactWalks(s.files.c, m.files.c, prefix, [items[0]])
    ensures Kept(items[0]) ==>
              && EntryAt(little, root, m, prefix + [Name(items[0])], items[0])
              && (Descends(items[0]) ==> Settled(little, root, m, prefix + [Name(items[0])], items[0].below))
    decreases items, 0
  {
    hide Inv, Shape, EntryKey, Enter, StoreHandle, Name, Component, FileHandles.Within, FileHandles.LimbsOk, Proper,
      Descends, Kept, WalkDir, Walk, Frame, OnlyItems, Settled, EntryAt, HandlesBut, PointersStay, CacheRuns.KeepsWalks,
      ExactWalks, WalksBut, FileAt, HandleAt, FilesKept;
    var item := items[0];
    var q := prefix + [Name(item)];
    ProperFirst(items);
    SoundParts(root, s);
    ItemKinds(item);
    Entered(s.files, dir, item, prefix);
    EnterSound(root, s, dir, item);
    var (f, e) := Enter(s.files, dir, item).value;
    var s1 := s.(files := f);
    FilesFrame(root, s, s1);
    if Kept(item) {
      ComponentsSnoc(prefix, Name(item));
      var s2 := s1;
      if Descends(item) {
        DescendsIsDirectory(item);
        PopulateSettles(little, root, s1, f.c.meta[e.value].link.dir, q, item.below);
        s2 := PopulateAll(little, root, s1, f.c.meta[e.value].link.dir, item.below).value;
      } else {
        NothingChanged(root, s1, q, item.below);
      }
      FrameWalk(root, s1, s2, q);
      StoreSettles(little, root, s2, e, item.entry.handle, q);
      m := StoreHandle(little, root, s2, e, item.entry.handle).value;
      ItemSettles(little, root, s, s1, s2, m, q, items, prefix);
      FileThere(s1, e, item, q, s.files);
      FileStays(root, s1, s2, q, item);
      FileStays(root, s2, m, q, item);
      EntryIs(little, root, m, q, item);
      ExactItem(s.files.c, s1.files.c, s2.files.c, prefix, item);
    } else {
      Skipped(little, root, s, dir, item);
      m := s;
      NothingChanged(root, s, prefix, [item]);
      ExactNothing(s.files.c, prefix, [item]);
    }
    FrameDir(root, s, m, prefix);
  }

  /** Where Entered leaves a file. */
  lemma {:induction false} FileThere(r: Populated, e: Option<nat>, item: Listed, q: seq<seq<byte>>, s: FileState)
    requires Shape(r.files.c) && q != []
    requires OfType(item, 1) ==>
               && e.Some? && Walk(r.files.c, q) == e && e.value < |r.files.c.meta|
               && r.files.c.meta[e.value].kind == FileKind && r.files.c.meta[e.value].link == FileLink(s.filesSize)
               && s.filesSize < |s.files| && r.files.filesSize == s.filesSize + 1
               && r.files.files == s.files[s.filesSize := File(0, item.entry.attribs.value.size % 0x1_0000_0000, None)]
    ensures FileAt(r, q, item)
  {
    hide Shape, Walk;
  }

  lemma {:induction false} FilesFrame(root: seq<FileHandles.Word>, s: Populated, r: Populated)
    requires Sound(root, s) && Sound(root, r) && Shape(s.files.c) && Shape(r.files.c) && FileHandles.IsHandle(root)
    requires r.limbs == s.limbs && CacheRuns.KeepsWalks(s.files.c, r.files.c) && FilesKept(s.files, r.files)
    ensures Frame(root, s, r)
  {
    hide Sound, Shape, CacheRuns.KeepsWalks, FileHandles.Within, FileHandles.PtrToHandle, FilesKept;
  }

  lemma {:induction false} FrameDir(root: seq<FileHandles.Word>, s: Populated, r: Populated, q: seq<seq<byte>>)
    requires Sound(root, s) && Sound(root, r) && Frame(root, s, r) && Shape(s.files.c) && Shape(r.files.c)
    requires Components(q) && WalkDir(s.files.c, q).Some?
    ensures WalkDir(r.files.c, q) == WalkDir(s.files.c, q) && WalkDir(s.files.c, q).value < r.files.c.dirsSize
  {
    hide Sound, Shape, WalkDir, PointersStay;
    InvWalkBound(r.files.c, q);
  }

  lemma {:induction false} NothingChanged(root: seq<FileHandles.Word>, s: Populated, prefix: seq<seq<byte>>,
                                          items: seq<Listed>)
    requires Sound(root, s) && Shape(s.files.c) && FileHandles.IsHandle(root)
    ensures Frame(root, s, s) && OnlyItems(s, s, prefix, items)
  {
    hide Inv, Shape, Walk, WalkDir, FileHandles.Within, FileHandles.PtrToHandle, FileHandles.LimbsOk;
  }

  /** An item that becomes no entry and comes with no handle changes nothing. */
  lemma {:induction false} Skipped(little: bool, root: seq<FileHandles.Word>, s: Populated, dir: nat, item: Listed)
    requires Sound(root, s) && Shape(s.files.c) && dir < s.files.c.dirsSize && ProperItem(item) && !Kept(item)
    requires FileHandles.IsHandle(root) && FileHandles.LimbsOk(s.limbs)
    ensures Enter(s.files, dir, item) == Done((s.files, None)) && !Descends(item)
    ensures StoreHandle(little, root, s, None, item.entry.handle).Done? ==>
              StoreHandle(little, root, s, None, item.entry.handle) == Done(s)
  {
    hide Inv, Shape, Name;
  }

  lemma {:induction false} NothingListed(little: bool, root: seq<FileHandles.Word>, s: Populated,
                                         prefix: seq<seq<byte>>)
    requires Sound(root, s) && Shape(s.files.c) && FileHandles.IsHandle(root)
    ensures Frame(root, s, s) && OnlyItems(s, s, prefix, []) && Settled(little, root, s, prefix, [])
  {
    hide Inv, Shape, Walk, WalkDir, FileHandles.Within, FileHandles.PtrToHandle, FileHandles.LimbsOk;
  }

  // A directory listed into an empty cache

  /** A name without NUL is its own C string. */
  lemma {:induction false} NameIs(item: Listed)
    requires 0 !in item.entry.name
    ensures Name(item) == Bytes(item.entry.name)
  {
    var s := Bytes(item.entry.name);
    assert (s + [0])[0..0 + |s|] == s;
    StringFromNoNul(s + [0], 0, s);
  }

  /** The path of a settled entry is looked up in the table. */
  lemma {:induction false} EntryLookedUp(little: bool, root: seq<FileHandles.Word>, r: Populated, q: seq<seq<byte>>,
                      handle: Option<seq<Xdr.Octet>>)
    requires Sound(root, r) && Shape(r.files.c) && FileHandles.IsHandle(root) && Components(q) && q != []
    requires |Join(q)| < TWO_TO_16 && HandleAt(little, root, r, q, handle)
    ensures |Join(q)| >= 1 && LookupPath(r.files.c, Join(q)).Some?
    ensures LookupPath(r.files.c, Join(q)) == Walk(r.files.c, q)
  {
    hide Inv, Shape, Walk, Component, Join, LookupPath, FileHandles.Within, FileHandles.LimbsOk;
    JoinNotEmpty(q);
    LookupPathIsWalk(r.files.c, q);
  }

  /** The cache as InitCache leaves it, but with the root's slot taken. */
  lemma {:induction false} EmptySound(root: seq<FileHandles.Word>, nodes: seq<Node>, text: seq<byte>, entries: nat,
                                      dirs: seq<Dir>,
                   toc: seq<TocEntry>, metadataSize: nat, files: seq<File>, limbs: seq<FileHandles.Word>)
    requires |nodes| > 0 && |dirs| > 0 && 1 <= metadataSize <= entries
    requires CacheRuns.InitialState(nodes, text, entries, dirs, toc, metadataSize).Done?
    requires FileHandles.IsHandle(root) && |limbs| <= FileHandles.TWO_TO_27
    ensures var c := CacheRuns.InitialState(nodes, text, entries, dirs, toc, metadataSize).value;
            && Sound(root, Populated(FileState(c, files, 0), FileHandles.Limbs(limbs, 0), map[]))
            && Shape(c) && 0 < c.dirsSize && WalkDir(c, []) == Some(0) && NothingFound(c)
  {
    hide Inv, Shape, CacheRuns.InitialState, EntryKey, NothingFound;
    CacheRuns.InitialInvariant(nodes, text, entries, dirs, toc, metadataSize);
    var c := CacheRuns.InitialState(nodes, text, entries, dirs, toc, metadataSize).value;
    WalkFromRoot(c);
    ShapeBounds(c);
    EmptyRoot(c);
  }

  /** No walk arrives. */
  ghost predicate NothingFound(c: State)
    requires Shape(c)
  {
    forall q :: Components(q) && q != [] ==> Walk(c, q).None?
  }

  lemma {:induction false} EmptyRoot(c: State)
    requires Inv(c) && Shape(c) && 0 < c.dirsSize <= |c.dirs| && c.dirs[0].size == 0
    ensures NothingFound(c)
  {
    hide Inv, Shape, WalkDir, EntryKey, Component;
    forall q | Components(q) && q != []
      ensures Walk(c, q).None?
    {
      EmptyRootWalk(c, q);
    }
  }

  lemma {:induction false} EmptyRootWalk(c: State, q: seq<seq<byte>>)
    requires Inv(c) && Shape(c) && 0 < c.dirsSize <= |c.dirs| && c.dirs[0].size == 0
    requires Components(q) && q != []
    ensures WalkDir(c, q).None? && Walk(c, q).None?
    decreases |q|
  {
    hide Inv, Shape, WalkDir, EntryKey, Component;
    var init, last := q[..|q| - 1], q[|q| - 1];
    assert q == init + [last];
    ComponentsInit(q);
    WalkDirSnoc(c, init, last);
    assert Component(last);
    ComponentKey(last);
    WalkFromRoot(c);
    CacheRuns.InvRootDir(c);
    if init == [] {
      EmptyDirectory(c, 0, last, EntryKey(last));
    } else {
      EmptyRootWalk(c, init);
    }
  }

  /** Populating an empty cache makes exactly the listed paths findable: by LookupPath, at any depth. */
  lemma {:induction false} CacheIsTheListing(little: bool, root: seq<FileHandles.Word>, s: Populated,
                                             items: seq<Listed>, q: seq<seq<byte>>)
    requires Sound(root, s) && Shape(s.files.c) && 0 < s.files.c.dirsSize && WalkDir(s.files.c, []) == Some(0)
    requires NothingFound(s.files.c) && FileHandles.IsHandle(root) && Proper(items)
    requires PopulateAll(little, root, s, 0, items).Done?
    requires Components(q) && q != [] && |Join(q)| < TWO_TO_16
    ensures var c := PopulateAll(little, root, s, 0, items).value.files.c;
            |Join(q)| >= 1 && Shape(c) && (LookupPath(c, Join(q)).Some? <==> InListing([], items, q))
  {
    hide Inv, Shape, WalkDir, Walk, PopulateAll, LookupPath, InListing, Settled, Frame, OnlyItems, Join, Component,
      FileHandles.Within, FileHandles.LimbsOk;
    PopulateSettles(little, root, s, 0, [], items);
    JoinNotEmpty(q);
    LookupPathIsWalk(PopulateAll(little, root, s, 0, items).value.files.c, q);
  }

  // Two levels

  lemma {:induction false} ListedName(items: seq<Listed>, i: nat)
    requires Proper(items) && i < |items| && (OfType(items[i], 1) || OfType(items[i], 2)) && 0 !in items[i].entry.name
    ensures Kept(items[i]) && Component(Bytes(items[i].entry.name)) && Name(items[i]) == Bytes(items[i].entry.name)
    ensures Proper(items[i].below)
  {
    hide Component, Name, Kept, OfType;
    ItemKinds(items[i]);
    NameIs(items[i]);
  }

  /**
   Below a directory (type 2) whose name has at least three bytes, the first two not dots (46), every file (type 1)
   and directory listed there is found, with its handle where it can be had back.
   */
  lemma {:induction false} TwoLevels(little: bool, root: seq<FileHandles.Word>, s: Populated, dir: nat,
                                     prefix: seq<seq<byte>>, items: seq<Listed>, i: nat, j: nat)
    requires Sound(root, s) && Shape(s.files.c) && dir < s.files.c.dirsSize && Proper(items)
    requires FileHandles.IsHandle(root) && Components(prefix) && WalkDir(s.files.c, prefix) == Some(dir)
    requires PopulateAll(little, root, s, dir, items).Done?
    requires i < |items| && OfType(items[i], 2) && 0 !in items[i].entry.name
    requires var name := items[i].entry.name; |name| >= 3 && name[0] != 46 && name[1] != 46
    requires var below := items[i].below;
             j < |below| && (OfType(below[j], 1) || OfType(below[j], 2)) && 0 !in below[j].entry.name
    ensures var r, below := PopulateAll(little, root, s, dir, items).value, items[i].below;
            var q := prefix + [Bytes(items[i].entry.name), Bytes(below[j].entry.name)];
            && Shape(r.files.c) && Walk(r.files.c, q).Some?
            && (LastOfName(items, i) && LastOfName(below, j) ==> EntryAt(little, root, r, q, below[j]))
  {
    hide Inv, Shape, WalkDir, Walk, PopulateAll, InListing, Frame, OnlyItems, Component, Components, Name, Kept,
      Descends, OfType, FileHandles.Within, FileHandles.LimbsOk, EntryAt, LastOfName, Proper;
    var r, below := PopulateAll(little, root, s, dir, items).value, items[i].below;
    ListedName(items, i);
    ListedName(below, j);
    ItemKinds(items[i]);
    ItemKinds(below[j]);
    var x, y := Bytes(items[i].entry.name), Bytes(below[j].entry.name);
    var p := prefix + [x];
    var q := p + [y];
    assert q == prefix + [x, y];
    ComponentsSnoc(prefix, x);
    ComponentsSnoc(p, y);
    PopulateSettles(little, root, s, dir, prefix, items);
    ListingOfOne(p, below[j], q);
    ListingAt(p, below, j, q);
    ListingOfOne(prefix, items[i], q);
    ListingAt(prefix, items, i, q);
    if LastOfName(items, i) && LastOfName(below, j) {
      assert Settled(little, root, r, p, below);
    }
  }

  lemma {:induction false} ListedBelow(prefix: seq<seq<byte>>, items: seq<Listed>, q: seq<seq<byte>>)
    requires InListing(prefix, items, q)
    ensures prefix <= q && |q| > |prefix|
    decreases items
  {
    hide Name, OfType;
    var i: nat :| i < |items| && InListing(prefix, [items[i]], q) by { OneOfListing(prefix, items, q); }
    ListingOfOne(prefix, items[i], q);
    if q != prefix + [Name(items[i])] {
      ListedBelow(prefix + [Name(items[i])], items[i].below, q);
    }
  }

  /** Below a directory with any other name nothing is found that was not found before. */
  lemma {:induction false} NothingBelow(little: bool, root: seq<FileHandles.Word>, s: Populated, dir: nat,
                                        prefix: seq<seq<byte>>, items: seq<Listed>, i: nat, q: seq<seq<byte>>)
    requires Sound(root, s) && Shape(s.files.c) && dir < s.files.c.dirsSize && Proper(items)
    requires FileHandles.IsHandle(root) && Components(prefix) && WalkDir(s.files.c, prefix) == Some(dir)
    requires PopulateAll(little, root, s, dir, items).Done?
    requires i < |items| && OfType(items[i], 2) && 0 !in items[i].entry.name
    requires var name := items[i].entry.name; |name| < 3 || name[0] == 46 || name[1] == 46
    requires Components(q) && prefix + [Bytes(items[i].entry.name)] <= q && |q| > |prefix| + 1
    ensures var r := PopulateAll(little, root, s, dir, items).value;
            Shape(r.files.c) && Walk(r.files.c, q) == Walk(s.files.c, q)
  {
    hide Inv, Shape, WalkDir, Walk, PopulateAll, InListing, OnlyItems, Settled, Component, Components, Name, Kept,
      Descends, OfType, FileHandles.Within, FileHandles.LimbsOk, Proper, PointersStay;
    PopulateSettles(little, root, s, dir, prefix, items);
    ListedName(items, i);
    if InListing(prefix, items, q) {
      var k: nat :| k < |items| && InListing(prefix, [items[k]], q) by { OneOfListing(prefix, items, q); }
      ListingOfOne(prefix, items[k], q);
      ListedBelow(prefix + [Name(items[k])], items[k].below, q);
      assert Name(items[k]) == q[|prefix|] == Bytes(items[i].entry.name);
      ItemKinds(items[k]);
      assert false;
    }
  }

  /** A callback that never refuses is given the whole directory. */
  lemma {:induction false} AllDelivered(es: seq<DirListing.DirEntry>, log: seq<DirListing.Delivery>,
                                        goOn: seq<DirListing.Delivery> -> bool)
    requires DirListing.EntriesOk(es) && forall l :: goOn(l)
    ensures Paging.Delivered(es, log, goOn) == |es|
    decreases |es|
  {
    if es != [] {
      assert DirListing.EntryOk(es[0]);
      AllDelivered(es[1..], log + [DirListing.DeliveryOf(es[0])], goOn);
    }
  }

  /** What the server gave for an entry can be had back from the cache. */
  ghost predicate Recovered(little: bool, root: seq<FileHandles.Word>, r: Populated, q: seq<seq<byte>>,
                            given: Option<seq<Xdr.Octet>>)
    requires Shape(r.files.c) && FileHandles.IsHandle(root) && q != []
  {
    && |Join(q)| >= 1 && LookupPath(r.files.c, Join(q)).Some?
    && (given.Some? && |given.value| <= Xdr.HANDLE_SIZE && SentHandles.Measurable(given.value) && given.value != [] ==>
          var f := Xdr.InHandle(given.value);
          var v := PointerAt(r, LookupPath(r.files.c, Join(q)).value);
          && v.Some? && FileHandles.PtrToHandle(root, r.limbs, v.value) == Done(SentHandles.HostHandle(little, f))
          && SentHandles.Sent(f) == given.value)
  }

  lemma {:induction false} SettledRecovers(little: bool, root: seq<FileHandles.Word>, r: Populated, q: seq<seq<byte>>,
                        given: Option<seq<Xdr.Octet>>)
    requires Sound(root, r) && Shape(r.files.c) && FileHandles.IsHandle(root) && Components(q) && q != []
    requires |Join(q)| < TWO_TO_16 && (given.Some? ==> |given.value| <= Xdr.HANDLE_SIZE)
    requires HandleAt(little, root, r, q, if given.Some? then Some(Xdr.InHandle(given.value)) else None)
    ensures Recovered(little, root, r, q, given)
  {
    hide Sound, Shape, Walk, Component, Join, LookupPath, FileHandles.PtrToHandle, SentHandles.HostHandle,
      SentHandles.Sent, Xdr.InHandle, FileHandles.HandleLength, FileHandles.NothingAfter, SentHandles.Measurable;
    EntryLookedUp(little, root, r, q, if given.Some? then Some(Xdr.InHandle(given.value)) else None);
    if given.Some? && SentHandles.Measurable(given.value) && given.value != [] {
      SentHandles.MeasurableWords(little, given.value);
      SentHandles.SentIsGiven(given.value);
    }
  }

  /**
   The whole client: a directory is listed from a server as in Paging.ListDirectory, with this callback,
   into an empty cache.  Then LookupPath finds each file and directory listed, files have the size listed, and the
   handle the server gave is recovered from the cache and would be sent as it was given, if it is measurable.
   */
  lemma {:induction false} ListingIsCached(little: bool, root: seq<FileHandles.Word>, s: Populated,
                                           es: seq<DirListing.DirEntry>,
                        goOn: seq<DirListing.Delivery> -> bool, log: seq<DirListing.Delivery>, items: seq<Listed>,
                          i: nat)
    requires Sound(root, s) && Shape(s.files.c) && 0 < s.files.c.dirsSize && WalkDir(s.files.c, []) == Some(0)
    requires FileHandles.IsHandle(root) && DirListing.EntriesOk(es) && forall l :: goOn(l)
    requires log == Paging.Deliveries(es)[..Paging.Delivered(es, [], goOn)]
    requires |items| == |log| && (forall j :: 0 <= j < |items| ==> items[j].entry == log[j]) && Proper(items)
    requires PopulateAll(little, root, s, 0, items).Done?
    requires i < |es| && 0 !in es[i].name && es[i].attribs.Some? && es[i].attribs.value.kind in {1, 2}
    requires i < |items| ==> LastOfName(items, i)
    ensures |items| == |es|
    ensures var r := PopulateAll(little, root, s, 0, items).value;
            && Sound(root, r) && Shape(r.files.c) && Recovered(little, root, r, [Bytes(es[i].name)], es[i].handle)
            && FileAt(r, [Bytes(es[i].name)], items[i])
  {
    hide Sound, Shape, WalkDir, PopulateAll, Paging.Deliveries, Name, Settled, EntryAt, HandleAt, FileAt, Recovered,
      Frame, OnlyItems, ExactWalks, Descends, Walk,
      Component, Xdr.InHandle, LastOfName;
    AllDelivered(es, [], goOn);
    PopulateSettles(little, root, s, 0, [], items);
    var r := PopulateAll(little, root, s, 0, items).value;
    assert DirListing.EntryOk(es[i]) && items[i].entry == DirListing.DeliveryOf(es[i]);
    NameIs(items[i]);
    SettledEntry(little, root, r, [], items, i);
    var name := Bytes(es[i].name);
    assert [] + [name] == [name];
    EntryIs(little, root, r, [name], items[i]);
    ShortPath(name);
    SettledRecovers(little, root, r, [name], es[i].handle);
  }

  lemma {:induction false} SettledEntry(little: bool, root: seq<FileHandles.Word>, r: Populated, prefix: seq<seq<byte>>,
                     items: seq<Listed>, i: nat)
    requires Shape(r.files.c) && FileHandles.IsHandle(root) && i < |items| && Kept(items[i]) && LastOfName(items, i)
    requires Settled(little, root, r, prefix, items) && Proper(items)
    ensures EntryAt(little, root, r, prefix + [Name(items[i])], items[i]) && Component(Name(items[i]))
  {
    hide Shape, Name, Component, EntryAt, LastOfName, Kept;
  }

  lemma {:induction false} ShortPath(name: seq<byte>)
    requires Component(name) && |name| < DirListing.NAME_BUFFER
    ensures Components([name]) && |Join([name])| < TWO_TO_16
  {
    assert [name][..0] == [];
  }
}
