/**
 AddFile of cache/cached_tree.c, on values: file contents cached under full paths, rewritten only
 when size or checksum differ.
 */
module FileCache {
  import opened Outcomes
  import opened Crc32c
  import opened NameCache
  import opened DirectoryTree
  import opened PathCreation

  /** A cached_file_t; `data` is None while the pointer is null. */
  datatype File = File(crc: bv32, size: nat, data: Option<seq<byte>>)

  const EMPTY_FILE := File(0, 0, None)

  /** The directory state and the arena of files. */
  datatype FileState = FileState(c: State, files: seq<File>, filesSize: nat)

  function Data(f: File): seq<byte> {
    if f.data.Some? then f.data.value else []
  }

  /** The part of AddFile that compares and copies. */
  function Rewrite(f: File, content: seq<byte>): Outcome<File> {
    var crc := Crc(INITIAL, content);
    if |content| == f.size && crc == f.crc then Done(f)
    else if |content| != f.size then Done(File(crc, |content|, Some(content)))
    else if f.data.None? && content != [] then Stopped(NullPointer)
    else Done(File(crc, |content|, if f.data.None? then None else Some(content)))
  }

  /** Stored size and checksum match the data; an unwritten file is empty. */
  predicate FileOk(f: File) {
    f == EMPTY_FILE || (f.size == |Data(f)| && f.crc == Crc(INITIAL, Data(f)))
  }

  /** A rewrite is skipped for data of the same size and checksum, and for no other. */
  lemma RewriteWhen(f: File, content: seq<byte>)
    requires FileOk(f)
    ensures var same := |content| == |Data(f)| && Crc(0xFFFF_FFFF, content) == Crc(0xFFFF_FFFF, Data(f));
            && Rewrite(f, content).Done?
            && Data(Rewrite(f, content).value) == if same then Data(f) else content
  {
    hide Crc;
    EmptyCrc();
    assert f == EMPTY_FILE ==> Data(f) == [];
    assert |content| == 0 ==> content == [];
  }

  /** A rewrite may only be skipped for data of the same size and checksum; a small change never is. */
  lemma RewriteCorrect(f: File, content: seq<byte>)
    requires FileOk(f)
    ensures Rewrite(f, content).Done?
    ensures var g := Rewrite(f, content).value;
            && FileOk(g) && g != EMPTY_FILE && g.size == |content| && g.crc == Crc(INITIAL, content)
            && (Data(g) == content ||
               (g == f && |Data(f)| == |content| && Crc(INITIAL, Data(f)) == Crc(INITIAL, content)))
            && forall k: nat :: DifferWithinFour(Data(f), content, k) ==> Data(g) == content
  {
    hide Crc, DifferWithinFour;
    EmptyCrc();
    var g := Rewrite(f, content).value;
    forall k: nat | DifferWithinFour(Data(f), content, k)
      ensures Data(g) == content
    {
      if g == f {
        SmallChangeChangesCrc(INITIAL, Data(f), content, k);
      }
    }
  }

  lemma EmptyCrc()
    ensures Crc(INITIAL, []) == INITIAL != 0
  {}

  // The files among the entries

  predicate FileEntryOk(s: FileState, e: nat)
    requires e < |s.c.meta|
  {
    s.c.meta[e].link.FileLink? && s.c.meta[e].link.file < s.filesSize
  }

  ghost predicate FilesInv(s: FileState) {
    && Inv(s.c)
    && s.filesSize <= |s.files|
    && (forall e :: 0 <= e < |s.c.meta| && s.c.meta[e].kind == FileKind ==> FileEntryOk(s, e))
    && (forall e, f :: 0 <= e < f < |s.c.meta| && s.c.meta[e].kind == FileKind && s.c.meta[f].kind == FileKind ==>
          s.c.meta[e].link != s.c.meta[f].link)
    && (forall i :: 0 <= i < s.filesSize ==> FileOk(s.files[i]))
  }

  /** The entry a new file is created under gets its type, its record and the flag. */
  function MakeFile(s: FileState, e: nat, isVirtual: bool): Outcome<FileState>
    requires e < |s.c.meta|
  {
    if s.filesSize >= |s.files| then Stopped(AssertFailed)
    else
      Done(FileState(
        s.c.(meta := s.c.meta[e := s.c.meta[e].(kind := FileKind, link := FileLink(s.filesSize),
          isVirtual := isVirtual || s.c.meta[e].isVirtual)]),
        s.files[s.filesSize := EMPTY_FILE],
        s.filesSize + 1))
  }

  /** CreateFileEntry: a file of a given name in directory `d`; the name must be free. */
  function CreateFile(s: FileState, d: nat, name: seq<byte>): Outcome<(FileState, nat)>
    requires Shape(s.c) && d < s.c.dirsSize
  {
    var (c, e) :- CreateEntry(s.c, d, name, EntryKey(name));
    if e.None? then Stopped(AssertFailed)
    else if e.value >= |c.meta| then Stopped(OutOfBounds)
    else
      var r :- MakeFile(s.(c := c), e.value, false);
      Done((r, e.value))
  }

  /** `uint16_t path_length = strlen(full_path)`. */
  function PathLength(path: seq<byte>): nat {
    |path| % TWO_TO_16
  }

  /** AddFile up to the comparison of contents: the entry at the path, created if it is missing. */
  function FindOrMakeFile(s: FileState, path: seq<byte>, isVirtual: bool): Outcome<(FileState, nat)>
    requires Shape(s.c)
  {
    var n := PathLength(path);
    if n == 0 then Stopped(OutOfBounds)
    else
      match LookupPath(s.c, path[..n])
      case Some(e) => if e < |s.c.meta| then Done((s, e)) else Stopped(OutOfBounds)
      case None =>
        var (c, e) :- CreateFromPath(s.c, path + [0], n);
        if e.None? then Stopped(NullPointer)
        else if e.value >= |c.meta| then Stopped(OutOfBounds)
        else
          var r :- MakeFile(s.(c := c), e.value, isVirtual);
          Done((r, e.value))
  }

  /** AddFile for a C string `path`; `content` is None for a null pointer. */
  function AddFile(s: FileState, path: seq<byte>, content: Option<seq<byte>>,
                   isVirtual: bool): Outcome<(FileState, nat)>
    requires Shape(s.c)
  {
    var (r, e) :- FindOrMakeFile(s, path, isVirtual);
    if e >= |r.c.meta| || r.c.meta[e].isVirtual != isVirtual then Stopped(AssertFailed)
    else if r.c.meta[e].kind != FileKind then Stopped(AssertFailed)
    else if content.None? then Done((r, e))
    else if !r.c.meta[e].link.FileLink? || r.c.meta[e].link.file >= |r.files| then Stopped(NullPointer)
    else
      var f :- Rewrite(r.files[r.c.meta[e].link.file], content.value);
      Done((r.(files := r.files[r.c.meta[e].link.file := f]), e))
  }

  /** Of a path of 65536 bytes or more only as many count as its length modulo 65536 says. */
  lemma LongPathCut(s: FileState, path: seq<byte>, content: Option<seq<byte>>, isVirtual: bool)
    requires Shape(s.c)
    ensures var n := |path| % 0x1_0000;
            if n == 0 then AddFile(s, path, content, isVirtual) == Stopped(OutOfBounds)
            else LookupPath(s.c, path[..n]).Some? ==>
                   AddFile(s, path, content, isVirtual) == AddFile(s, path[..n], content, isVirtual)
  {
    hide Shape, LookupPath, Rewrite, CreateFromPath;
    var n := |path| % 0x1_0000;
    assert path[..n][..n] == path[..n];
  }

  // Creating the entry of a new file

  /**
   When LookupPath finds nothing at the path, creation by path makes a new entry in a free slot, which
   is no directory's.
   */
  lemma NewPathEntry(c: State, comps: seq<seq<byte>>, mem: seq<byte>, n: nat)
    requires Inv(c) && Shape(c) && Components(comps) && comps != []
    requires 1 <= n <= |mem| && mem[..n] == Join(comps) && n < TWO_TO_16
    requires CreateFromPath(c, mem, n).Done? && LookupPath(c, mem[..n]) == None
    ensures var (r, e) := CreateFromPath(c, mem, n).value;
            && Inv(r) && Shape(r) && EntriesKept(c, r)
            && e.Some? && 0 < e.value < |r.meta| && r.meta[e.value].kind != DirectoryKind
            && forall d: nat :: !Owns(c, d, e.value)
  {
    hide Inv, WalkDir, Component, Components, EntryKey, Lookup, Standing, CreateFromPath, LookupPath, FinalSegment,
      Shape, OnlyAlong, EntriesKept, Join;
    var m, d, b, key := CreateFromPathSplits(c, comps, mem, n);
    StandingParts(m, comps, |comps| - 1, d, mem, n, b);
    StandingBegin(m, comps, |comps| - 1, d, mem, n, b);
    LastTwo(comps);
    LookupPathIsWalk(c, comps);
    var init := comps[..|comps| - 1];
    if WalkDir(c, init).None? {
      if KeyLength(key) <= |mem[b..]| {
        EmptyDirectory(m, d, mem[b..], key);
      }
    } else {
      LookupTrims(c, d, mem[b..], key);
      assert Lookup(m, d, mem[b..], key) == None;
    }
    FinalSegmentFresh(m, d, mem[b..], key);
    var (r, e) := CreateFromPath(c, mem, n).value;
    EntriesKeptTransitive(c, m, r);
    NotOwnedBefore(c, m, e.value);
  }

  lemma NotOwnedBefore(c: State, m: State, e: nat)
    requires EntriesKept(c, m) && e < |m.meta| && forall d: nat :: !Owns(m, d, e)
    ensures forall d: nat :: !Owns(c, d, e)
  {}

  lemma FinalSegmentFresh(m: State, d: nat, name: seq<byte>, key: Key)
    requires Inv(m) && Shape(m) && d < m.dirsSize && KeyLength(key) > 0
    requires FinalSegment(m, d, name, key).Done?
    requires KeyLength(key) <= |name| ==> Lookup(m, d, name, key) == None
    ensures var (r, e) := FinalSegment(m, d, name, key).value;
            && Inv(r) && Shape(r) && EntriesKept(m, r)
            && e.Some? && 0 < e.value < |r.meta| && r.meta[e.value].kind != DirectoryKind
            && |m.meta| == |r.meta| && forall x: nat :: !Owns(m, x, e.value)
  {
    hide ArenasApart, EntriesNamed, TableSound, Lookup, Extends, Stored, CreateEntry, NameCache.Valid,
      NameCache.WellFormed, Owns, EntriesKept;
    CreateEntryAdds(m, d, name, key);
    CreateEntryEntriesKept(m, d, name, key);
    var (r, e) := CreateEntry(m, d, name, key).value;
    GrownOwns(m, r, d, e.value, r.meta[e.value].name, key);
    SlotNotRoot(m, r, d, e.value, r.meta[e.value].name, key);
  }

  /** `r` differs from `c` only in one entry, which is no directory and keeps its key and name. */
  ghost predicate Retyped(c: State, r: State, e: nat) {
    && e < |c.meta| == |r.meta|
    && r == c.(meta := c.meta[e := r.meta[e]])
    && r.meta[e].key == c.meta[e].key && r.meta[e].name == c.meta[e].name
    && c.meta[e].kind != DirectoryKind && r.meta[e].kind != DirectoryKind
    && e != ROOT
  }

  lemma RetypedShape(c: State, r: State, e: nat)
    requires Inv(c) && Retyped(c, r, e)
    ensures Shape(r) && RootDir(r) == 0 && ArenasApart(r)
  {
    hide EntriesNamed, TableSound, NameCache.WellFormed, NameCache.Valid;
    forall x | 0 <= x < r.dirsSize
      ensures SliceOk(r, x) && OffRoot(r, x)
    {
      assert SliceOk(c, x) && OffRoot(c, x);
    }
    forall i | 0 <= i < r.tocSize
      ensures LinksToDir(r, r.toc[i].entry)
    {
      assert TocOk(c, i) by { TocOkAt(c, i); }
    }
    forall x | 0 <= x < |r.meta| && r.meta[x].kind == DirectoryKind
      ensures LinksToDir(r, x)
    {
      assert LinksToDir(c, x);
    }
    forall a, b | 0 <= a < b < r.dirsSize
      ensures Apart(r, a, b)
    {
      assert Apart(c, a, b);
    }
  }

  lemma TocOkAt(c: State, i: nat)
    requires Inv(c) && i < c.tocSize
    ensures TocsNamed(c) && TocOk(c, i) && c.tocSize + 1 == c.dirsSize
  {}

  lemma RetypedEntries(c: State, r: State, e: nat)
    requires Inv(c) && Retyped(c, r, e) && Shape(r)
    ensures EntriesNamed(r)
  {
    hide ArenasApart, TableSound, NameCache.WellFormed, NameCache.Valid, Stored;
    forall d: nat, x: nat | Owns(r, d, x)
      ensures x < |r.meta| && Named(r, x)
    {
      assert Owns(c, d, x);
      assert Named(c, x);
    }
    forall d: nat, x: nat, f: nat | Owns(r, d, x) && Owns(r, d, f) && x < f < |r.meta|
      ensures !SameName(r, x, f)
    {
      assert Owns(c, d, x) && Owns(c, d, f);
      assert !SameName(c, x, f);
    }
    forall x | 0 <= x < |r.meta| && r.meta[x].kind == DirectoryKind
      ensures DirEntryOk(r, x)
    {
      assert DirEntryOk(c, x);
    }
  }

  lemma RetypedTable(c: State, r: State, e: nat)
    requires Inv(c) && Retyped(c, r, e) && Shape(r)
    ensures TableSound(r)
  {
    hide ArenasApart, EntriesNamed, NameCache.WellFormed, NameCache.Valid, Stored, Component, EntryKey, TocOk, HangsIn;
    TableCounts(c);
    assert TocsNamed(r) by {
      forall i | 0 <= i < r.tocSize
        ensures TocNamed(r, i)
      {
        assert TocNamed(c, i);
      }
    }
    forall i | 0 <= i < r.tocSize
      ensures TocOk(r, i)
    {
      RetypedTocOk(c, r, e, i);
    }
  }

  lemma RetypedTocOk(c: State, r: State, e: nat, i: nat)
    requires Inv(c) && Retyped(c, r, e) && Shape(r) && TocsNamed(r) && i < r.tocSize
    ensures TocOk(r, i)
  {
    hide ArenasApart, EntriesNamed, TableSound, NameCache.WellFormed, NameCache.Valid, Stored, Component, EntryKey,
      TocOk;
    TableCounts(c);
    var p, f := TableEntry(c, i + 1);
    assert PathOf(r, i + 1) == PathOf(c, i + 1) by { assert TocNamed(c, i) && TocNamed(r, i); }
    assert PathOf(r, p) == PathOf(c, p) by { assert p > 0 ==> TocNamed(c, p - 1) && TocNamed(r, p - 1); }
    assert Owns(r, p, f);
    assert Named(r, f) && EntryName(r, f) == EntryName(c, f);
    assert HangsIn(r, i, p);
    NewTocOk(r, i, p);
  }

  lemma RetypedInv(c: State, r: State, e: nat)
    requires Inv(c) && Retyped(c, r, e)
    ensures Inv(r)
  {
    hide ArenasApart, EntriesNamed, TableSound, NameCache.WellFormed, NameCache.Valid, Retyped;
    assert r.names == c.names by { RetypedNames(c, r, e); }
    RetypedShape(c, r, e);
    RetypedEntries(c, r, e);
    RetypedTable(c, r, e);
  }

  lemma RetypedNames(c: State, r: State, e: nat)
    requires Retyped(c, r, e)
    ensures r.names == c.names
  {}

  lemma {:induction false} RetypedFind(c: State, r: State, e: nat, d: nat, name: seq<byte>, key: Key, k: nat)
    requires Shape(c) && Shape(r) && Retyped(c, r, e) && d < c.dirsSize && KeyLength(key) <= |name| &&
             k <= c.dirs[d].size
    ensures FindEntry(r, d, name, key, k) == FindEntry(c, d, name, key, k)
    decreases c.dirs[d].size - k
  {
    hide NameCache.WellFormed;
    assert SliceOk(c, d) && SliceOk(r, d);
    if k < c.dirs[d].size {
      RetypedFind(c, r, e, d, name, key, k + 1);
    }
  }

  lemma {:induction false} RetypedLookup(c: State, r: State, e: nat, d: nat, name: seq<byte>, key: Key)
    requires Shape(c) && Shape(r) && Retyped(c, r, e) && d < c.dirsSize && KeyLength(key) <= |name|
    ensures Lookup(r, d, name, key) == Lookup(c, d, name, key)
  {
    hide FindEntry, NameCache.WellFormed;
    RetypedFind(c, r, e, d, name, key, 0);
  }

  /** Giving an entry the type of a file changes no walk. */
  lemma {:induction false} RetypedWalks(c: State, r: State, e: nat, q: seq<seq<byte>>)
    requires Inv(c) && Shape(c) && Shape(r) && Retyped(c, r, e)
    ensures WalkDir(r, q) == WalkDir(c, q) && (q != [] ==> Walk(r, q) == Walk(c, q))
    decreases |q|
  {
    hide Inv, EntryKey, Lookup;
    if q == [] {
      RetypedRoot(c, r, e);
    } else {
      var init, last := q[..|q| - 1], q[|q| - 1];
      RetypedWalks(c, r, e, init);
      match WalkDir(c, init) {
        case None =>
        case Some(d) =>
          RetypedLookup(c, r, e, d, last, EntryKey(last));
          match Lookup(c, d, last, EntryKey(last)) {
            case None =>
            case Some(f) =>
              FindEntryInDirectory(c, d, last, EntryKey(last), f);
              assert f != e ==> r.meta[f] == c.meta[f];
          }
      }
    }
  }

  lemma {:induction false} FindEntryInDirectory(c: State, d: nat, name: seq<byte>, key: Key, f: nat)
    requires Shape(c) && d < c.dirsSize && KeyLength(key) <= |name| && Lookup(c, d, name, key) == Some(f)
    ensures f < |c.meta| && (c.meta[f].kind == DirectoryKind ==> LinksToDir(c, f))
  {
    hide NameCache.WellFormed, FindEntry;
    FindEntryInSlice(c, d, name, key, 0);
  }

  lemma {:induction false} RetypedRoot(c: State, r: State, e: nat)
    requires Inv(c) && Shape(c) && Shape(r) && Retyped(c, r, e)
    ensures RootDir(r) == RootDir(c)
  {
    hide Inv;
  }

  // AddFile

  /** What is stored for the file at entry `e`; nothing for other entries. */
  function Cached(s: FileState, e: nat): seq<byte> {
    if e < |s.c.meta| && s.c.meta[e].kind == FileKind && s.c.meta[e].link.FileLink? && s.c.meta[e].link.file < |s.files|
    then Data(s.files[s.c.meta[e].link.file]) else []
  }

  lemma MakeFileKeeps(s: FileState, c: State, e: nat, isVirtual: bool)
    requires FilesInv(s) && Inv(c) && EntriesKept(s.c, c) && 0 < e < |c.meta| && c.meta[e].kind != DirectoryKind
    requires MakeFile(s.(c := c), e, isVirtual).Done?
    ensures var r := MakeFile(s.(c := c), e, isVirtual).value;
            && FilesInv(r) && Cached(r, e) == [] && r.c.meta[e].kind == FileKind &&
               r.c.meta[e].link == FileLink(s.filesSize)
            && |r.c.meta| == |c.meta| && |r.files| == |s.files|
            && (forall x :: 0 <= x < |c.meta| && x != e ==> r.c.meta[x] == c.meta[x])
            && (forall i :: 0 <= i < s.filesSize ==> r.files[i] == s.files[i])
  {
    hide Inv, Owns;
    var r := MakeFile(s.(c := c), e, isVirtual).value;
    RetypedInv(c, r.c, e);
    forall x | 0 <= x < |r.c.meta| && r.c.meta[x].kind == FileKind
      ensures FileEntryOk(r, x)
    {
      if x != e {
        assert FileEntryOk(s, x);
      }
    }
    forall x, y | 0 <= x < y < |r.c.meta| && r.c.meta[x].kind == FileKind && r.c.meta[y].kind == FileKind
      ensures r.c.meta[x].link != r.c.meta[y].link
    {
      assert x != e ==> FileEntryOk(s, x);
      assert y != e ==> FileEntryOk(s, y);
    }
  }

  /** The entry of the file at the path: found by LookupPath, or new and empty. */
  lemma FindOrMakeFileKeeps(s: FileState, comps: seq<seq<byte>>, isVirtual: bool)
    requires FilesInv(s) && Shape(s.c) && Components(comps) && comps != [] && |Join(comps)| < TWO_TO_16
    requires FindOrMakeFile(s, Join(comps), isVirtual).Done?
    ensures var (r, e) := FindOrMakeFile(s, Join(comps), isVirtual).value;
            && FilesInv(r) && e < |r.c.meta|
            && (if LookupPath(s.c, Join(comps)).Some? then r == s && Some(e) == LookupPath(s.c, Join(comps))
                else
                  && Cached(r, e) == [] && r.c.meta[e].kind == FileKind && r.c.meta[e].link == FileLink(s.filesSize)
                  && r.filesSize == s.filesSize + 1 && forall d: nat :: !Owns(s.c, d, e))
            && (forall d: nat, x: nat :: Owns(s.c, d, x) && x != e ==> Cached(r, x) == Cached(s, x))
  {
    hide Inv, Shape, LookupPath, CreateFromPath, Component, Owns, EntriesKept, Cached;
    var path := Join(comps);
    var n := PathLength(path);
    assert n == |path| && path[..n] == path;
    if LookupPath(s.c, path).None? {
      assert (path + [0])[..n] == path;
      NewPathEntry(s.c, comps, path + [0], n);
      var (c, e) := CreateFromPath(s.c, path + [0], n).value;
      MakeFileKeeps(s, c, e.value, isVirtual);
      var r := MakeFile(s.(c := c), e.value, isVirtual).value;
      forall d: nat, x: nat | Owns(s.c, d, x) && x != e.value
        ensures Cached(r, x) == Cached(s, x)
      {
        OtherFileKept(s, c, r, d, x);
      }
    }
  }

  lemma OtherFileKept(s: FileState, c: State, r: FileState, d: nat, x: nat)
    requires FilesInv(s) && EntriesKept(s.c, c) && Owns(s.c, d, x)
    requires |r.c.meta| == |c.meta| && (x < |c.meta| ==> r.c.meta[x] == c.meta[x])
    requires |r.files| == |s.files| && forall i :: 0 <= i < s.filesSize ==> r.files[i] == s.files[i]
    ensures Cached(r, x) == Cached(s, x)
  {
    hide Inv;
    assert x < |s.c.meta| && s.c.meta[x].kind == FileKind ==> FileEntryOk(s, x);
  }

  /**
   When AddFile succeeds.  What LookupPath finds must be a file with the flag given.  Otherwise the path has to be
   created, a record must be left, and the slot taken must not carry the flag against the caller's wish.
   */
  lemma AddFileDoneWhen(s: FileState, comps: seq<seq<byte>>, content: Option<seq<byte>>, isVirtual: bool)
    requires FilesInv(s) && Shape(s.c) && Components(comps) && comps != [] && |Join(comps)| < TWO_TO_16
    ensures |Join(comps)| >= 1
    ensures match LookupPath(s.c, Join(comps))
            case Some(e) =>
              && e < |s.c.meta|
              && (AddFile(s, Join(comps), content, isVirtual).Done? <==>
                    s.c.meta[e].kind == FileKind && s.c.meta[e].isVirtual == isVirtual)
              && (AddFile(s, Join(comps), content, isVirtual).Stopped? ==>
                    AddFile(s, Join(comps), content, isVirtual).reason == AssertFailed)
            case None =>
              var made := CreateFromPath(s.c, Join(comps) + [0], |Join(comps)|);
              && (made.Done? ==> made.value.1.Some? && made.value.1.value < |s.c.meta|)
              && (AddFile(s, Join(comps), content, isVirtual).Done? <==>
                    && made.Done? && s.filesSize < |s.files|
                    && (s.c.meta[made.value.1.value].isVirtual ==> isVirtual))
  {
    hide Inv, Shape, LookupPath, CreateFromPath, Component, Owns, Cached, Rewrite, FindOrMakeFile, Walk;
    var path := Join(comps);
    JoinNotEmpty(comps);
    assert path[..|path|] == path;
    match LookupPath(s.c, path) {
      case Some(e) =>
        LookupPathInArena(s.c, comps);
        FoundFile(s, path, content, isVirtual, e);
      case None =>
        var made := CreateFromPath(s.c, path + [0], |path|);
        if made.Done? {
          assert (path + [0])[..|path|] == path;
          NewPathEntry(s.c, comps, path + [0], |path|);
          MadeFile(s, path, content, isVirtual, made.value.0, made.value.1.value);
        } else {
          NotMade(s, path, isVirtual);
        }
    }
  }

  lemma NotMade(s: FileState, path: seq<byte>, isVirtual: bool)
    requires Shape(s.c) && 1 <= |path| < TWO_TO_16 && path[..|path|] == path
    requires LookupPath(s.c, path) == None && CreateFromPath(s.c, path + [0], |path|).Stopped?
    ensures FindOrMakeFile(s, path, isVirtual).Stopped?
  {
    hide Shape, LookupPath, CreateFromPath;
    assert PathLength(path) == |path|;
  }

  /** What LookupPath finds is an entry. */
  lemma LookupPathInArena(c: State, comps: seq<seq<byte>>)
    requires Inv(c) && Shape(c) && Components(comps) && comps != [] && 1 <= |Join(comps)| < TWO_TO_16
    ensures LookupPath(c, Join(comps)).Some? ==> LookupPath(c, Join(comps)).value < |c.meta|
  {
    hide Inv, Shape, LookupPath, WalkDir, EntryKey, Lookup, Component, Join;
    LookupPathIsWalk(c, comps);
    if Walk(c, comps).Some? {
      var last := comps[|comps| - 1];
      InvWalkBound(c, comps[..|comps| - 1]);
      FindEntryInDirectory(c, WalkDir(c, comps[..|comps| - 1]).value, last, EntryKey(last), Walk(c, comps).value);
    }
  }

  lemma FoundFile(s: FileState, path: seq<byte>, content: Option<seq<byte>>, isVirtual: bool, e: nat)
    requires FilesInv(s) && Shape(s.c) && 1 <= |path| < TWO_TO_16 && path[..|path|] == path
    requires LookupPath(s.c, path) == Some(e) && e < |s.c.meta|
    ensures FindOrMakeFile(s, path, isVirtual) == Done((s, e))
    ensures AddFile(s, path, content, isVirtual).Done? <==>
            s.c.meta[e].kind == FileKind && s.c.meta[e].isVirtual == isVirtual
    ensures AddFile(s, path, content, isVirtual).Stopped? ==>
              AddFile(s, path, content, isVirtual).reason == AssertFailed
  {
    hide Inv, Shape, LookupPath, CreateFromPath, Rewrite;
    assert PathLength(path) == |path|;
    if s.c.meta[e].kind == FileKind {
      assert FileEntryOk(s, e);
      if content.Some? {
        RewriteCorrect(s.files[s.c.meta[e].link.file], content.value);
      }
    }
  }

  lemma MadeFile(s: FileState, path: seq<byte>, content: Option<seq<byte>>, isVirtual: bool, c: State, e: nat)
    requires FilesInv(s) && Shape(s.c) && 1 <= |path| < TWO_TO_16 && path[..|path|] == path
    requires LookupPath(s.c, path) == None
    requires CreateFromPath(s.c, path + [0], |path|) == Done((c, Some(e)))
    requires Inv(c) && EntriesKept(s.c, c) && 0 < e < |c.meta| && c.meta[e].kind != DirectoryKind
    ensures AddFile(s, path, content, isVirtual).Done? <==>
            s.filesSize < |s.files| && (s.c.meta[e].isVirtual ==> isVirtual)
    ensures s.filesSize < |s.files| ==> FindOrMakeFile(s, path, isVirtual) == Done((NewFile(s, c, e, isVirtual), e))
  {
    hide Inv, Shape, LookupPath, CreateFromPath, Rewrite, Owns;
    assert PathLength(path) == |path|;
    if s.filesSize < |s.files| {
      MakeFileKeeps(s, c, e, isVirtual);
      if content.Some? {
        RewriteCorrect(EMPTY_FILE, content.value);
      }
    }
  }

  /** The entry at `e` made a file with the next record. */
  function NewFile(s: FileState, c: State, e: nat, isVirtual: bool): FileState
    requires e < |c.meta| && s.filesSize < |s.files|
  {
    MakeFile(s.(c := c), e, isVirtual).value
  }

  /**
   AddFile.  Sizes and checksums keep matching the data.  Afterwards the file holds the new content, unless
   it held data of the same size and checksum; content that differs from the cached data only within four
   consecutive bytes is always stored.  No other file changes, and only a new file takes a record, the next.
   */
  lemma AddFileCorrect(s: FileState, comps: seq<seq<byte>>, content: Option<seq<byte>>, isVirtual: bool)
    requires FilesInv(s) && Shape(s.c) && Components(comps) && comps != [] && |Join(comps)| < TWO_TO_16
    requires AddFile(s, Join(comps), content, isVirtual).Done?
    ensures var (r, e) := AddFile(s, Join(comps), content, isVirtual).value;
            && FilesInv(r) && e < |r.c.meta| && r.c.meta[e].kind == FileKind && r.c.meta[e].isVirtual == isVirtual
            && (match LookupPath(s.c, Join(comps))
                case Some(f) => e == f && r.c == s.c && r.filesSize == s.filesSize
                case None => r.filesSize == s.filesSize + 1 && r.c.meta[e].link == FileLink(s.filesSize))
            && (forall d: nat, x: nat :: Owns(s.c, d, x) && x != e ==> Cached(r, x) == Cached(s, x))
    ensures var (r, e) := AddFile(s, Join(comps), content, isVirtual).value;
            var was := if LookupPath(s.c, Join(comps)).Some? then Cached(s, e) else [];
            match content
            case None => Cached(r, e) == was
            case Some(data) =>
              && Cached(r, e) ==
                 (if |was| == |data| && Crc(0xFFFF_FFFF, was) == Crc(0xFFFF_FFFF, data) then was else data)
              && (forall k: nat :: DifferWithinFour(was, data, k) ==> Cached(r, e) == data)
  {
    hide Inv, Shape, LookupPath, FindOrMakeFile, Component, Owns, Rewrite, Crc, DifferWithinFour, Join;
    FindOrMakeFileKeeps(s, comps, isVirtual);
    var (m, e) := FindOrMakeFile(s, Join(comps), isVirtual).value;
    assert FileEntryOk(m, e);
    if content.Some? {
      var i := m.c.meta[e].link.file;
      RewriteCorrect(m.files[i], content.value);
      RewriteWhen(m.files[i], content.value);
      var r := AddFile(s, Join(comps), content, isVirtual).value.0;
      forall d: nat, x: nat | Owns(s.c, d, x) && x != e
        ensures Cached(r, x) == Cached(s, x)
      {
        UntouchedFile(m, e, r, x);
      }
    }
  }

  /**
   The file is found again at its path exactly when it was there before or its entry got its own key; then another
   AddFile with the same flag succeeds, and for the same entry.
   */
  lemma AddFileAgain(s: FileState, comps: seq<seq<byte>>, content: Option<seq<byte>>, again: Option<seq<byte>>,
                     isVirtual: bool)
    requires FilesInv(s) && Shape(s.c) && Components(comps) && comps != [] && |Join(comps)| < TWO_TO_16
    requires AddFile(s, Join(comps), content, isVirtual).Done?
    ensures var path := Join(comps); var (r, e) := AddFile(s, path, content, isVirtual).value;
            && |path| >= 1 && Shape(r.c)
            && (LookupPath(r.c, path) == Some(e) <==> LookupPath(s.c, path).Some? || LastKeyRight(s.c, comps))
            && (LookupPath(r.c, path) == Some(e) ==>
                  AddFile(r, path, again, isVirtual).Done? && AddFile(r, path, again, isVirtual).value.1 == e)
  {
    hide Inv, Shape, LookupPath, CreateFromPath, Component, Owns, Cached, FindOrMakeFile, AddFile, LastKeyRight,
      FilesInv,
      Components;
    var path := Join(comps);
    var (r, e) := AddFile(s, path, content, isVirtual).value;
    JoinNotEmpty(comps);
    AddFileCorrect(s, comps, content, isVirtual);
    FilesInvShape(s);
    FilesInvShape(r);
    if LookupPath(s.c, path).None? {
      AddedFileFound(s, comps, content, isVirtual);
    }
    if LookupPath(r.c, path) == Some(e) {
      AddFileDoneWhen(r, comps, again, isVirtual);
      if AddFile(r, path, again, isVirtual).Done? {
        AddFileCorrect(r, comps, again, isVirtual);
      }
    }
  }

  lemma FilesInvShape(s: FileState)
    requires FilesInv(s)
    ensures Inv(s.c) && Shape(s.c)
  {
    hide Inv, Shape;
    InvShape(s.c);
  }

  lemma AddedFileFound(s: FileState, comps: seq<seq<byte>>, content: Option<seq<byte>>, isVirtual: bool)
    requires FilesInv(s) && Inv(s.c) && Shape(s.c) && Components(comps) && comps != [] && |Join(comps)| < TWO_TO_16
    requires |Join(comps)| >= 1 && LookupPath(s.c, Join(comps)).None?
    requires AddFile(s, Join(comps), content, isVirtual).Done?
    ensures var (r, e) := AddFile(s, Join(comps), content, isVirtual).value;
            Shape(r.c) && (LookupPath(r.c, Join(comps)) == Some(e) <==> LastKeyRight(s.c, comps))
  {
    hide Inv, Shape, LookupPath, CreateFromPath, Component, Owns, Cached, Walk, LastKeyRight, Rewrite, EntriesKept,
      Join, LookupsOnlyAlong;
    var path := Join(comps);
    assert path[..|path|] == path && (path + [0])[..|path|] == path;
    AddFileDoneWhen(s, comps, content, isVirtual);
    NewPathEntry(s.c, comps, path + [0], |path|);
    CreateFromPathCorrect(s.c, comps, path + [0], |path|);
    var (c, o) := CreateFromPath(s.c, path + [0], |path|).value;
    MadeFile(s, path, content, isVirtual, c, o.value);
    var (r, e) := AddFile(s, path, content, isVirtual).value;
    RetypedInv(c, r.c, e);
    InvShape(r.c);
    RetypedWalks(c, r.c, e, comps);
    LookupPathIsWalk(c, comps);
    LookupPathIsWalk(r.c, comps);
  }

  lemma UntouchedFile(m: FileState, e: nat, r: FileState, x: nat)
    requires FilesInv(m) && e < |m.c.meta| && m.c.meta[e].kind == FileKind && FileEntryOk(m, e) && x != e
    requires r == m.(files := r.files) && |r.files| == |m.files|
    requires forall i :: 0 <= i < |m.files| && i != m.c.meta[e].link.file ==> r.files[i] == m.files[i]
    ensures Cached(r, x) == Cached(m, x)
  {
    hide Inv;
    if x < |m.c.meta| && m.c.meta[x].kind == FileKind {
      assert FileEntryOk(m, x);
      assert m.c.meta[if x < e then x else e].link != m.c.meta[if x < e then e else x].link;
    }
  }

  /** Creations in between leave the files alone. */
  lemma CreationKeepsFiles(s: FileState, c: State)
    requires FilesInv(s) && Inv(c) && EntriesKept(s.c, c)
    ensures FilesInv(s.(c := c))
  {
    hide Inv, Owns;
    forall e | 0 <= e < |c.meta| && c.meta[e].kind == FileKind
      ensures FileEntryOk(s.(c := c), e)
    {
      assert FileEntryOk(s, e);
    }
  }

  /**
   CreateFileEntry: entry `e` of directory `d` is a file of this name, with the next record, which is empty.  Every
   other entry and every other lookup, all earlier records and all directories are as before.
   */
  ghost predicate FileMade(s: FileState, r: FileState, d: nat, e: nat, name: seq<byte>)
    requires Shape(s.c) && Shape(r.c) && Component(name)
  {
    && 0 < e < |r.c.meta| == |s.c.meta| && r.c.dirsSize == s.c.dirsSize
    && r.c.meta[e].kind == FileKind && r.c.meta[e].link == FileLink(s.filesSize)
    && r.c.meta[e].isVirtual == s.c.meta[e].isVirtual
    && s.filesSize < |s.files| && r.filesSize == s.filesSize + 1 && r.files == s.files[s.filesSize := File(0, 0, None)]
    && (forall x :: 0 <= x < |s.c.meta| && x != e ==> r.c.meta[x] == s.c.meta[x])
    && (forall x: nat :: !Owns(s.c, x, e)) && Owns(r.c, d, e)
    && (forall x: nat, t :: x < s.c.dirsSize && Component(t) ==>
          InDirectory(r.c, x, t) == if x == d && t == name then Some(e) else InDirectory(s.c, x, t))
  }

  /** What LookupInDirectory finds under a name and its own key. */
  function InDirectory(c: State, d: nat, name: seq<byte>): Option<nat>
    requires Shape(c) && d < c.dirsSize && Component(name)
  {
    ComponentKey(name);
    Lookup(c, d, name, EntryKey(name))
  }

  /** CreateFileEntry makes a file of a free name, and keeps the invariants. */
  lemma CreateFileKeeps(s: FileState, d: nat, name: seq<byte>)
    requires FilesInv(s) && Shape(s.c) && d < s.c.dirsSize && Component(name) && CreateFile(s, d, name).Done?
    ensures KeyLength(EntryKey(name)) == |name| && Lookup(s.c, d, name, EntryKey(name)) == None
    ensures var (r, e) := CreateFile(s, d, name).value;
            FilesInv(r) && Shape(r.c) && Cached(r, e) == [] && FileMade(s, r, d, e, name)
  {
    hide Inv, Shape, EntryKey, Lookup, CreateEntry, EntriesKept, MakeFile, AddedTo, Component, Owns,
      FileMade;
    CreateFileSteps(s, d, name);
    CreatedFileIs(s, d, name);
    ComponentKey(name);
    var (c, o) := CreateEntry(s.c, d, name, EntryKey(name)).value;
    var (r, e) := CreateFile(s, d, name).value;
    CreateEntryEntriesKept(s.c, d, name, EntryKey(name));
    MakeFileKeeps(s, c, e, false);
  }

  /** The parts of CreateFileEntry, with no assumption about the files. */
  lemma CreateFileSteps(s: FileState, d: nat, name: seq<byte>)
    requires Inv(s.c) && Shape(s.c) && d < s.c.dirsSize && Component(name) && CreateFile(s, d, name).Done?
    ensures KeyLength(EntryKey(name)) == |name| && Lookup(s.c, d, name, EntryKey(name)) == None
    ensures CreateEntry(s.c, d, name, EntryKey(name)).Done?
    ensures var (r, e) := CreateFile(s, d, name).value;
            var (c, o) := CreateEntry(s.c, d, name, EntryKey(name)).value;
            && o == Some(e) && 0 < e < |c.meta| && c.meta[e].kind != DirectoryKind && c.dirsSize == s.c.dirsSize
            && MakeFile(s.(c := c), e, false) == Done(r) && Retyped(c, r.c, e)
            && AddedTo(s.c, c, d, e, name, EntryKey(name))
            && Inv(c) && Shape(c) && Inv(r.c) && Shape(r.c)
  {
    hide Inv, Shape, EntryKey, Lookup, CreateEntry, EntriesKept, AddedTo, Component, Owns;
    ComponentKey(name);
    var key := EntryKey(name);
    CreateEntryKeepsInv(s.c, d, name, key);
    CreateEntryAdds(s.c, d, name, key);
    CreateEntryDirs(s.c, d, name, key);
    var (c, o) := CreateEntry(s.c, d, name, key).value;
    var (r, e) := CreateFile(s, d, name).value;
    AddedOffRoot(s.c, c, d, e, name, key);
    AddedInv(s.c, d, e, c, name, key);
    AddedSlot(s.c, c, d, e, name, key);
    RetypedInv(c, r.c, e);
    InvShape(c);
    InvShape(r.c);
  }

  lemma CreatedFileIs(s: FileState, d: nat, name: seq<byte>)
    requires Inv(s.c) && Shape(s.c) && d < s.c.dirsSize && Component(name) && CreateFile(s, d, name).Done?
    ensures var (r, e) := CreateFile(s, d, name).value; Shape(r.c) && FileMade(s, r, d, e, name)
  {
    hide Inv, Shape, EntryKey, Lookup, CreateEntry, AddedTo, Component, Owns, CreateFile;
    CreateFileSteps(s, d, name);
    var (r, e) := CreateFile(s, d, name).value;
    var c := CreateEntry(s.c, d, name, EntryKey(name)).value.0;
    AddedSlot(s.c, c, d, e, name, EntryKey(name));
    SameOwners(c, r.c, d, e);
    forall x: nat, t | x < s.c.dirsSize && Component(t)
      ensures InDirectory(r.c, x, t) == if x == d && t == name then Some(e) else InDirectory(s.c, x, t)
    {
      ComponentKey(t);
      AddedLookup(s.c, c, d, e, name, EntryKey(name), x, t, EntryKey(t));
      RetypedLookup(c, r.c, e, x, t, EntryKey(t));
    }
  }

  lemma SameOwners(c: State, r: State, d: nat, e: nat)
    requires Retyped(c, r, e)
    ensures Owns(r, d, e) <==> Owns(c, d, e)
  {}

  lemma CreateEntryDirs(c: State, d: nat, name: seq<byte>, key: Key)
    requires Inv(c) && Shape(c) && d < c.dirsSize && 0 < KeyLength(key) <= |name| && CreateEntry(c, d, name, key).Done?
    ensures var r := CreateEntry(c, d, name, key).value.0; r.dirsSize == c.dirsSize && |r.meta| == |c.meta|
  {
    hide ArenasApart, EntriesNamed, TableSound, Lookup, Extends, Stored, CreateEntry, NameCache.Valid,
      NameCache.WellFormed, Owns;
    CreateEntryEffect(c, d, name, key);
  }

  /** The new slot: nobody's before, the directory's now; all other entries and its flag are as before. */
  lemma AddedSlot(c: State, r: State, d: nat, e: nat, name: seq<byte>, key: Key)
    requires AddedTo(c, r, d, e, name, key)
    ensures e < |r.meta| == |c.meta| && r.meta[e].isVirtual == c.meta[e].isVirtual
    ensures Shape(c) && d < c.dirsSize && KeyLength(key) <= |name| && Lookup(c, d, name, key) == None
    ensures forall x :: 0 <= x < |c.meta| && x != e ==> r.meta[x] == c.meta[x]
    ensures (forall x: nat :: !Owns(c, x, e)) && Owns(r, d, e)
  {
    hide Inv, Owns, Lookup;
    InvShape(c);
    GrownOwns(c, r, d, e, r.meta[e].name, key);
  }

  lemma AddedOffRoot(c: State, r: State, d: nat, e: nat, name: seq<byte>, key: Key)
    requires AddedTo(c, r, d, e, name, key)
    ensures 0 < e < |r.meta|
  {
    hide Inv;
    SlotNotRoot(c, r, d, e, r.meta[e].name, key);
  }

  /** Before any file is added. */
  lemma NoFilesYet(c: State, files: seq<File>)
    requires Inv(c) && forall e :: 0 <= e < |c.meta| ==> c.meta[e].kind != FileKind
    ensures FilesInv(FileState(c, files, 0))
  {
    hide Inv;
  }

  // Where the source takes the record of a new file from

  /** The sizes of cached_file_t and cached_dir_t where pointers have eight bytes. */
  const FILE_RECORD := 24
  const DIR_RECORD := 32

  datatype Record = FileRecord | DirRecord

  predicate Overlap(a: nat, aSize: nat, b: nat, bSize: nat) {
    a < b + bSize && b < a + aSize
  }

  function RecordSize(r: Record): nat {
    if r.FileRecord? then FILE_RECORD else DIR_RECORD
  }

  /**
   Records `i` and `j` of an arena from which both kinds are taken with one counter: a file's index
   counts in file records, `(cached_file_t*)cache->dir_entries + i`, a directory's in directory records.
   */
  predicate Collide(arena: seq<Record>, i: nat, j: nat)
    requires i < |arena| && j < |arena|
  {
    Overlap(RecordSize(arena[i]) * i, RecordSize(arena[i]), RecordSize(arena[j]) * j, RecordSize(arena[j]))
  }

  /**
   A file record lies over an earlier record exactly when that is a directory's at one of two places;
   no other record lies over an earlier one.
   */
  lemma CarvedRecordOverlaps(arena: seq<Record>, j: nat, i: nat)
    requires j < i < |arena|
    ensures Collide(arena, i, j) <==>
            arena[i].FileRecord? && arena[j].DirRecord? && (j == 3 * i / 4 || j == (3 * i + 2) / 4)
  {}

  /** So once the root directory has record 0, the records stay apart exactly as long as no file gets one. */
  lemma ArenaApartWhen(arena: seq<Record>)
    requires arena != [] && arena[0].DirRecord?
    ensures (forall i, j :: 0 <= j < i < |arena| ==> !Collide(arena, i, j)) <==> FileRecord !in arena
  {
    hide Collide;
    forall i, j | 0 <= j < i < |arena|
      ensures Collide(arena, i, j) ==> arena[i].FileRecord?
    {
      CarvedRecordOverlaps(arena, j, i);
    }
    if FileRecord in arena {
      var i := FirstFile(arena, |arena|);
      CarvedRecordOverlaps(arena, 3 * i / 4, i);
    }
  }

  lemma {:induction false} FirstFile(arena: seq<Record>, n: nat) returns (i: nat)
    requires n <= |arena| && FileRecord in arena[..n]
    ensures i < n && arena[i].FileRecord? && forall j :: 0 <= j < i ==> arena[j].DirRecord?
    decreases n
  {
    if FileRecord in arena[..n - 1] {
      i := FirstFile(arena, n - 1);
    } else {
      i := n - 1;
      assert forall j :: 0 <= j < n - 1 ==> arena[..n - 1][j] == arena[j];
    }
  }
}
