/** The initial state of the cache, and what holds after every run of creations. */
module CacheRuns {
  import opened Outcomes
  import opened Crc32c
  import opened NameCache
  import opened DirectoryTree
  import opened PathCreation

  // InitCache and ResetCache

  /** The string table after ResetCache: only the root node, which no name matches. */
  function ResetNames(nodes: seq<Node>, text: seq<byte>): Names
    requires |nodes| > 0
  {
    Names(nodes[0 := nodes[0].(key := ROOT_KEY, left := 0, right := 0)], 1, text, 0)
  }

  /**
   InitCache, with the value of metadata_size that ResetCache leaves as a parameter.  The entries are
   zeroed memory; the other arenas may hold anything.
   */
  function InitialState(nodes: seq<Node>, text: seq<byte>, entries: nat, dirs: seq<Dir>, toc: seq<TocEntry>,
                        metadataSize: nat): Outcome<State>
    requires |nodes| > 0 && |dirs| > 0 && metadataSize <= entries && 0 < entries
  {
    var zeroed := seq(entries, i => Entry(0, 0, NoKind, false, Null));
    var (names, ptr) :- GetOrAddName(ResetNames(nodes, text), [SLASH], EntryKey([SLASH]));
    Done(State(names,
               zeroed[ROOT := zeroed[ROOT].(link := DirLink(0))], metadataSize,
               dirs[0 := Dir(0, 0, 0, ptr)], 1,
               toc, 0))
  }

  lemma ResetNamesValid(nodes: seq<Node>, text: seq<byte>)
    requires |nodes| > 0
    ensures NameCache.Valid(ResetNames(nodes, text))
  {
    assert LinksOk(ResetNames(nodes, text), 0);
  }

  lemma InitialStateIs(nodes: seq<Node>, text: seq<byte>, entries: nat, dirs: seq<Dir>, toc: seq<TocEntry>,
                       metadataSize: nat, meta: seq<Entry>)
    requires |nodes| > 0 && |dirs| > 0 && metadataSize <= entries && 0 < entries
    requires |meta| == entries && meta[ROOT] == Entry(0, 0, NoKind, false, DirLink(0))
    requires forall e :: 0 < e < entries ==> meta[e] == Entry(0, 0, NoKind, false, Null)
    requires NameCache.WellFormed(ResetNames(nodes, text))
    requires GetOrAddName(ResetNames(nodes, text), [SLASH], EntryKey([SLASH])).Done?
    ensures var (names, ptr) := GetOrAddName(ResetNames(nodes, text), [SLASH], EntryKey([SLASH])).value;
            InitialState(nodes, text, entries, dirs, toc, metadataSize) ==
            Done(State(names, meta, metadataSize, dirs[0 := Dir(0, 0, 0, ptr)], 1, toc, 0))
  {
    hide GetOrAddName, EntryKey, ResetNames, NameCache.WellFormed;
    var zeroed := seq(entries, i => Entry(0, 0, NoKind, false, Null));
    assert meta == zeroed[ROOT := zeroed[ROOT].(link := DirLink(0))];
  }

  /** The invariant holds at first exactly when the root's slot is counted as taken. */
  lemma InitialInvariant(nodes: seq<Node>, text: seq<byte>, entries: nat, dirs: seq<Dir>, toc: seq<TocEntry>,
                         metadataSize: nat)
    requires |nodes| > 0 && |dirs| > 0 && metadataSize <= entries && 0 < entries
    requires InitialState(nodes, text, entries, dirs, toc, metadataSize).Done?
    ensures var c := InitialState(nodes, text, entries, dirs, toc, metadataSize).value;
            && Shape(c) && NameCache.Valid(c.names) && RootDir(c) == 0
            && c.dirsSize == 1 && c.dirs[0].size == 0 && c.dirs[0].capacity == 0 && c.tocSize == 0
            && c.metaSize == metadataSize && |c.meta| == entries && (forall e :: 0 <= e < |c.meta| ==>
                 c.meta[e] == Entry(0, 0, NoKind, false, if e == 0 then DirLink(0) else Null))
            && |c.dirs| == |dirs| && c.toc == toc
            && |c.names.nodes| == |nodes| && |c.names.text| == |text|
            && c.names.nodeSize == 2 && c.names.textSize == 4 && c.names.nodes[0].key == 0x7FFF
            && Denotes(c.names, c.dirs[0].fullPath, EntryKey([47]), [47])
            && (Inv(c) <==> metadataSize >= 1)
  {
    hide NameCache.WellFormed, NameCache.Valid, Extends, Denotes, Stored, GetOrAddName, ResetNames, EntryKey;
    ResetNamesValid(nodes, text);
    ValidIsWellFormed(ResetNames(nodes, text));
    SlashKey();
    GetOrAddNameEffect(ResetNames(nodes, text), [SLASH], EntryKey([SLASH]));
    FirstName(nodes, text);
    var c := InitialState(nodes, text, entries, dirs, toc, metadataSize).value;
    ValidIsWellFormed(c.names);
    assert SliceOk(c, 0);
    assert Shape(c);
    assert forall d: nat, e: nat :: !Owns(c, d, e);
    assert EntriesNamed(c) && TableSound(c);
  }

  lemma InitialShape(nodes: seq<Node>, text: seq<byte>, entries: nat, dirs: seq<Dir>, toc: seq<TocEntry>,
                     metadataSize: nat)
    requires |nodes| > 0 && |dirs| > 0 && metadataSize <= entries && 0 < entries
    requires InitialState(nodes, text, entries, dirs, toc, metadataSize).Done?
    ensures Shape(InitialState(nodes, text, entries, dirs, toc, metadataSize).value)
  {
    hide InitialState, Shape, Inv, EntryKey, Denotes, NameCache.WellFormed, NameCache.Valid;
    InitialInvariant(nodes, text, entries, dirs, toc, metadataSize);
  }

  /** The root's name is the first after the tree's own root node. */
  lemma FirstName(nodes: seq<Node>, text: seq<byte>)
    requires |nodes| > 0 && NameCache.WellFormed(ResetNames(nodes, text))
    requires GetOrAddName(ResetNames(nodes, text), [SLASH], EntryKey([SLASH])).Done?
    ensures var (n, ptr) := GetOrAddName(ResetNames(nodes, text), [SLASH], EntryKey([SLASH])).value;
            && |n.nodes| == |nodes| && |n.text| == |text| && n.nodeSize == 2 && n.textSize == 4 && ptr == 4
            && n.nodes[0].key == 0x7FFF
    ensures [SLASH][..1] == [47]
  {
    hide EntryKey, Search;
    SlashKey();
    assert [SLASH][..1] == [SLASH];
    SearchSound(ResetNames(nodes, text), [SLASH], EntryKey([SLASH]), 0);
  }

  /** There is room for the root's name, so initialisation succeeds. */
  lemma InitialStateDone(nodes: seq<Node>, text: seq<byte>, entries: nat, dirs: seq<Dir>, toc: seq<TocEntry>,
                         metadataSize: nat)
    requires |nodes| > 1 && |text| > 1 && |dirs| > 0 && metadataSize <= entries && 0 < entries
    ensures InitialState(nodes, text, entries, dirs, toc, metadataSize).Done?
  {
    hide EntryKey, Inserted;
    ResetNamesValid(nodes, text);
    SlashKey();
    var n := ResetNames(nodes, text);
    assert [SLASH][..1] == [SLASH];
    SearchSound(n, [SLASH], EntryKey([SLASH]), 0);
  }

  lemma SlashKey()
    ensures KeyLength(EntryKey([SLASH])) == 1
  {
    hide EntryKey;
  }

  /**
   The first directory created in the root is found under its path exactly when metadata_size starts
   at 1 or more.  ResetCache leaves 0, so the first slot handed out is the root entry itself.
   */
  lemma RootSlotMustBeTaken(nodes: seq<Node>, text: seq<byte>, entries: nat, dirs: seq<Dir>, toc: seq<TocEntry>,
                            metadataSize: nat, name: seq<byte>)
    requires |nodes| > 0 && |dirs| > 0 && metadataSize <= entries && 0 < entries
    requires InitialState(nodes, text, entries, dirs, toc, metadataSize).Done?
    requires Component(name) && |name| + 1 < TWO_TO_16
    ensures var c := InitialState(nodes, text, entries, dirs, toc, metadataSize).value;
            && Shape(c) && 0 < c.dirsSize && KeyLength(EntryKey(name)) == |name|
            && (Subdirectory(c, 0, name, EntryKey(name)).Done? ==>
                 var (r, e) := Subdirectory(c, 0, name, EntryKey(name)).value;
                 Shape(r) && e.Some? && (LookupPath(r, [SLASH] + name) == e <==> metadataSize >= 1))
  {
    hide Inv, EntryKey, Subdirectory, Lookup, LookupPath, Grown, InitialState, Component;
    InitialInvariant(nodes, text, entries, dirs, toc, metadataSize);
    ComponentKey(name);
    var c := InitialState(nodes, text, entries, dirs, toc, metadataSize).value;
    if Subdirectory(c, 0, name, EntryKey(name)).Done? {
      var (r, e) := Subdirectory(c, 0, name, EntryKey(name)).value;
      SubdirectoryShape(c, 0, name, EntryKey(name));
      EmptyDirectory(c, 0, name, EntryKey(name));
      OneComponentPath(r, name);
      if metadataSize >= 1 {
        SubdirectoryAdds(c, 0, name, EntryKey(name));
        AddedInv(c, 0, e.value, r, name, EntryKey(name));
        AddedLookup(c, r, 0, e.value, name, EntryKey(name), 0, name, EntryKey(name));
        InvRootDir(r);
      } else {
        RootOverwritten(c, name);
        EmptyDirectory(r, 1, name, EntryKey(name));
      }
    }
  }

  lemma InvRootDir(c: State)
    requires Inv(c)
    ensures Shape(c) && RootDir(c) == 0
  {}

  /** LookupPath of "/name" looks in the root's directory. */
  lemma OneComponentPath(c: State, name: seq<byte>)
    requires Shape(c) && Component(name)
    ensures LookupPath(c, [SLASH] + name) == Lookup(c, RootDir(c), name, EntryKey(name))
  {
    hide NameCache.WellFormed, EntryKey, Lookup, LookupPath;
    var path := [SLASH] + name;
    LastSlashOfJoin([SLASH] + name, |path| - 1, [], name);
    assert [] + [SLASH] + name == path;
    LookupPathSplits(c, path, 0);
    assert path[1..] == name;
  }

  /**
   From metadata_size 0 the first subdirectory takes the root's slot: the root now leads to the new,
   empty directory.
   */
  lemma RootOverwritten(c: State, name: seq<byte>)
    requires Shape(c) && c.metaSize == 0 && c.dirsSize == 1 && RootDir(c) == 0
    requires c.dirs[0].size == 0 && c.dirs[0].capacity == 0
    requires KeyLength(EntryKey(name)) <= |name| && Subdirectory(c, 0, name, EntryKey(name)).Done?
    ensures var (r, e) := Subdirectory(c, 0, name, EntryKey(name)).value;
            Shape(r) && e == Some(ROOT) && RootDir(r) == 1 && r.dirsSize == 2 && r.dirs[1].size == 0
  {
    hide NameCache.WellFormed, EntryKey, GetOrAddName, FullPath;
    SubdirectoryShape(c, 0, name, EntryKey(name));
  }

  // Runs

  /** The creations.  Directories are named by their index, as callers hold pointers to them. */
  datatype Op =
    | MakeDirectory(dir: nat, name: seq<byte>)
    | MakeEntry(dir: nat, name: seq<byte>)
    | MakePath(comps: seq<seq<byte>>, beyond: seq<byte>)

  predicate OpOk(op: Op) {
    match op
    case MakeDirectory(_, name) => Component(name)
    case MakeEntry(_, name) => Component(name)
    case MakePath(comps, _) => Components(comps) && comps != [] && |Join(comps)| < TWO_TO_16
  }

  predicate OpsOk(ops: seq<Op>) {
    forall op :: op in ops ==> OpOk(op)
  }

  function Step(c: State, op: Op): Outcome<(State, Option<nat>)>
    requires Shape(c) && OpOk(op)
  {
    match op
    case MakeDirectory(d, name) =>
      if d >= c.dirsSize then Stopped(NullPointer) else Subdirectory(c, d, name, EntryKey(name))
    case MakeEntry(d, name) =>
      if d >= c.dirsSize then Stopped(NullPointer) else CreateEntry(c, d, name, EntryKey(name))
    case MakePath(comps, beyond) =>
      CreateFromPath(c, Join(comps) + beyond, |Join(comps)|)
  }

  lemma StepShape(c: State, op: Op)
    requires Shape(c) && OpOk(op) && Step(c, op).Done?
    ensures Shape(Step(c, op).value.0)
  {
    hide Shape, EntryKey, Subdirectory, CreateEntry;
    match op {
      case MakeDirectory(d, name) => SubdirectoryShape(c, d, name, EntryKey(name));
      case MakeEntry(d, name) => CreateEntryShape(c, d, name, EntryKey(name));
      case MakePath(comps, beyond) => CreateFromPathShape(c, Join(comps) + beyond, |Join(comps)|);
    }
  }

  lemma CreateFromPathShape(c: State, mem: seq<byte>, n: nat)
    requires Shape(c) && 1 <= n <= |mem| && CreateFromPath(c, mem, n).Done?
    ensures Shape(CreateFromPath(c, mem, n).value.0)
  {
    hide Shape, FinalSegment, BeforeLast;
    var r := BeforeLast(c, mem, n).value;
    FinalSegmentShape(r.c, r.d, mem[r.begin..], r.key);
  }

  lemma FinalSegmentShape(c: State, d: nat, name: seq<byte>, key: Key)
    requires Shape(c) && d < c.dirsSize && FinalSegment(c, d, name, key).Done?
    ensures Shape(FinalSegment(c, d, name, key).value.0)
  {
    hide Shape, Lookup, CreateEntry;
    if Lookup(c, d, name, key).None? {
      CreateEntryShape(c, d, name, key);
    }
  }

  function Run(c: State, ops: seq<Op>): (r: Outcome<State>)
    requires Shape(c) && OpsOk(ops)
    ensures r.Done? ==> Shape(r.value)
    decreases |ops|
  {
    hide Shape, OpOk;
    if ops == [] then Done(c)
    else
      assert OpOk(ops[0]);
      var (c1, _) :- Step(c, ops[0]);
      StepShape(c, ops[0]);
      Run(c1, ops[1..])
  }

  /** A run of one is a step, and runs compose. */
  lemma {:induction false} RunsCompose(c: State, a: seq<Op>, b: seq<Op>, op: Op)
    requires Shape(c) && OpsOk(a) && OpsOk(b) && OpOk(op)
    ensures OpsOk([op]) && OpsOk(a + b)
    ensures Run(c, [op]) == (match Step(c, op) case Done((r, _)) => Done(r) case Stopped(reason) => Stopped(reason))
    ensures Run(c, a + b) == (match Run(c, a) case Done(m) => Run(m, b) case Stopped(reason) => Stopped(reason))
    decreases |a|
  {
    hide Shape, OpOk, Step;
    if a == [] {
      assert a + b == b;
    } else {
      assert (a + b)[0] == a[0] && (a + b)[1..] == a[1..] + b;
      if Step(c, a[0]).Done? {
        StepShape(c, a[0]);
        RunsCompose(Step(c, a[0]).value.0, a[1..], b, op);
      }
    }
    OneStep(c, op);
  }

  lemma OneStep(c: State, op: Op)
    requires Shape(c) && OpOk(op)
    ensures OpsOk([op])
    ensures Run(c, [op]) == (match Step(c, op) case Done((r, _)) => Done(r) case Stopped(reason) => Stopped(reason))
  {
    hide Shape, OpOk, Step;
    assert [op][1..] == [];
    if Step(c, op).Done? {
      StepShape(c, op);
    }
  }

  /** Nothing that a walk finds is ever lost or moved. */
  ghost predicate KeepsWalks(c: State, r: State)
    requires Shape(c) && Shape(r)
  {
    && (forall q :: Components(q) && WalkDir(c, q).Some? ==> WalkDir(r, q) == WalkDir(c, q))
    && (forall q :: Components(q) && q != [] && Walk(c, q).Some? ==> Walk(r, q) == Walk(c, q))
  }

  lemma AddedKeepsWalks(c: State, r: State, d: nat, e: nat, name: seq<byte>, key: Key)
    requires AddedTo(c, r, d, e, name, key) && Shape(c) && Shape(r)
    ensures KeepsWalks(c, r)
  {
    hide Inv, Shape, AddedTo, WalkDir, EntryKey, Lookup, Components;
    forall q | Components(q)
      ensures WalkDir(c, q).Some? ==> WalkDir(r, q) == WalkDir(c, q)
    {
      AddedWalkDir(c, r, d, e, name, key, q);
    }
    forall q | Components(q) && q != []
      ensures Walk(c, q).Some? ==> Walk(r, q) == Walk(c, q)
    {
      AddedWalk(c, r, d, e, name, key, q);
      AddedLookupWasNone(c, r, d, e, name, key);
    }
  }

  lemma AddedLookupWasNone(c: State, r: State, d: nat, e: nat, name: seq<byte>, key: Key)
    requires AddedTo(c, r, d, e, name, key)
    ensures Inv(c) && Shape(c) && d < c.dirsSize && KeyLength(key) == |name| && Lookup(c, d, name, key) == None
  {}

  lemma OnlyAlongKeepsWalks(c: State, r: State, comps: seq<seq<byte>>)
    requires Shape(c) && Shape(r) && OnlyAlong(c, r, comps)
    ensures KeepsWalks(c, r)
  {
    hide Shape, WalkDir, Walk, Components;
  }

  lemma StepKeeps(c: State, op: Op)
    requires Inv(c) && Shape(c) && OpOk(op) && Step(c, op).Done?
    ensures var r := Step(c, op).value.0; Inv(r) && Shape(r) && KeepsWalks(c, r)
  {
    hide Inv, Shape, WalkDir, Walk, EntryKey, Component, Subdirectory, CreateEntry, CreateFromPath, Lookup, AddedTo,
      KeepsWalks;
    StepShape(c, op);
    match op {
      case MakeDirectory(d, name) =>
        ComponentKey(name);
        SubdirectoryAdds(c, d, name, EntryKey(name));
        var (r, e) := Step(c, op).value;
        match Lookup(c, d, name, EntryKey(name)) {
          case Some(f) => KeepsItself(c);
          case None =>
            AddedKeepsWalks(c, r, d, e.value, name, EntryKey(name));
            AddedInv(c, d, e.value, r, name, EntryKey(name));
        }
      case MakeEntry(d, name) =>
        ComponentKey(name);
        CreateEntryAdds(c, d, name, EntryKey(name));
        var (r, e) := Step(c, op).value;
        match e {
          case None => KeepsItself(c);
          case Some(f) =>
            AddedKeepsWalks(c, r, d, f, name, EntryKey(name));
            AddedInv(c, d, f, r, name, EntryKey(name));
        }
      case MakePath(comps, beyond) =>
        PathKeeps(c, comps, Join(comps) + beyond, |Join(comps)|);
    }
  }

  lemma KeepsItself(c: State)
    requires Shape(c)
    ensures KeepsWalks(c, c)
  {}

  lemma PathKeeps(c: State, comps: seq<seq<byte>>, mem: seq<byte>, n: nat)
    requires Inv(c) && Shape(c) && Components(comps) && comps != []
    requires 1 <= n <= |mem| && mem[..n] == Join(comps) && n < TWO_TO_16
    requires CreateFromPath(c, mem, n).Done?
    ensures var r := CreateFromPath(c, mem, n).value.0; Inv(r) && Shape(r) && KeepsWalks(c, r)
  {
    hide Inv, Shape, WalkDir, Walk, EntryKey, Component, Components, CreateFromPath, Lookup, OnlyAlong, KeepsWalks,
      FinalSegment;
    var m, d, b, key := CreateFromPathSplits(c, comps, mem, n);
    LastTwo(comps);
    FinalSegmentKeeps(m, comps, d, mem, n, b, key);
    OnlyAlongKeepsWalks(c, m, comps[..|comps| - 1]);
    KeepsTransitive(c, m, CreateFromPath(c, mem, n).value.0);
  }

  lemma FinalSegmentKeeps(m: State, comps: seq<seq<byte>>, d: nat, mem: seq<byte>, n: nat, b: nat, key: Key)
    requires comps != [] && Standing(m, comps, |comps| - 1, d, mem, n, b) && Shape(m) && d < m.dirsSize &&
             b <= n <= |mem|
    requires KeyLength(key) > 0 && FinalSegment(m, d, mem[b..], key).Done?
    ensures var r := FinalSegment(m, d, mem[b..], key).value.0; Inv(r) && Shape(r) && KeepsWalks(m, r)
  {
    hide Inv, Shape, WalkDir, Walk, EntryKey, Component, Components, Lookup, Standing, FinalSegment;
    FinalSegmentCorrect(m, comps, d, mem, n, b, key);
  }

  lemma KeepsTransitive(c: State, m: State, r: State)
    requires Shape(c) && Shape(m) && Shape(r) && KeepsWalks(c, m) && KeepsWalks(m, r)
    ensures KeepsWalks(c, r)
  {
    hide Shape, WalkDir, Walk, Components;
  }

  lemma {:induction false} RunKeeps(c: State, ops: seq<Op>)
    requires Inv(c) && Shape(c) && OpsOk(ops) && Run(c, ops).Done?
    ensures var r := Run(c, ops).value; Inv(r) && Shape(r) && KeepsWalks(c, r)
    decreases |ops|
  {
    hide Inv, Shape, Step, KeepsWalks, OpOk;
    if ops == [] {
      KeepsItself(c);
    } else {
      StepKeeps(c, ops[0]);
      var c1 := Step(c, ops[0]).value.0;
      RunKeeps(c1, ops[1..]);
      KeepsTransitive(c, c1, Run(c, ops).value);
    }
  }

  /**
   The index theorem.  After every run of creations from an initial state whose root slot is taken,
   LookupPath on every well-formed path returns exactly what the walk from the root finds.
   */
  lemma IndexAgreesAfterEveryRun(nodes: seq<Node>, text: seq<byte>, entries: nat, dirs: seq<Dir>, toc: seq<TocEntry>,
                                 metadataSize: nat,
                                 ops: seq<Op>, comps: seq<seq<byte>>)
    requires |nodes| > 0 && |dirs| > 0 && 1 <= metadataSize <= entries
    requires InitialState(nodes, text, entries, dirs, toc, metadataSize).Done?
    requires OpsOk(ops) && Components(comps) && comps != [] && |Join(comps)| < TWO_TO_16
    ensures var c := InitialState(nodes, text, entries, dirs, toc, metadataSize).value;
            Shape(c) &&
              (Run(c, ops).Done? ==>
                Inv(Run(c, ops).value) && LookupPath(Run(c, ops).value, Join(comps)) == Walk(Run(c, ops).value, comps))
  {
    hide Inv, Shape, Run, LookupPath, Walk, InitialState, Components, OpsOk;
    InitialInvariant(nodes, text, entries, dirs, toc, metadataSize);
    var c := InitialState(nodes, text, entries, dirs, toc, metadataSize).value;
    if Run(c, ops).Done? {
      RunKeeps(c, ops);
      LookupPathIsWalk(Run(c, ops).value, comps);
    }
  }

  /** What a lookup finds, every later run finds again, at the same place. */
  lemma LookupsPersist(c: State, ops: seq<Op>, comps: seq<seq<byte>>)
    requires Inv(c) && Shape(c) && OpsOk(ops) && Run(c, ops).Done?
    requires Components(comps) && comps != [] && |Join(comps)| < TWO_TO_16
    requires LookupPath(c, Join(comps)).Some?
    ensures LookupPath(Run(c, ops).value, Join(comps)) == LookupPath(c, Join(comps))
  {
    hide Inv, Shape, Run, LookupPath, Walk, Components, OpsOk;
    RunKeeps(c, ops);
    LookupPathIsWalk(c, comps);
    LookupPathIsWalk(Run(c, ops).value, comps);
  }

  /**
   The table of contents: one entry for every directory but the root, carrying the path that leads to
   it; no two directories share a path, whatever their keys.
   */
  lemma TableHoldsThePaths(c: State, a: seq<seq<byte>>, b: seq<seq<byte>>)
    requires Inv(c) && Shape(c) && Components(a) && Components(b)
    ensures c.tocSize + 1 == c.dirsSize && TocsNamed(c)
    ensures forall d :: 0 <= d < c.dirsSize ==> (WalkDir(c, a) == Some(d) <==> PathOf(c, d) == Join(a))
    ensures WalkDir(c, a).Some? && WalkDir(c, a) == WalkDir(c, b) ==> a == b
    ensures forall d, x :: 0 <= d < c.dirsSize && 0 <= x < c.dirsSize && PathOf(c, d) == PathOf(c, x) ==> d == x
  {
    hide ArenasApart, EntriesNamed, TableSound, NameCache.Valid, WalkDir, Component, Join, PathOf;
    WalkReachesPath(c, a);
    if WalkDir(c, a).Some? && WalkDir(c, a) == WalkDir(c, b) {
      WalkInjective(c, a, b);
    }
    forall d, x | 0 <= d < c.dirsSize && 0 <= x < c.dirsSize && PathOf(c, d) == PathOf(c, x)
      ensures d == x
    {
      var q := PathComponents(c, d);
      WalkReachesPath(c, q);
    }
  }

  /** The components of a directory's path. */
  lemma {:induction false} PathComponents(c: State, d: nat) returns (q: seq<seq<byte>>)
    requires Inv(c) && d < c.dirsSize
    ensures c.tocSize + 1 == c.dirsSize && TocsNamed(c) && Components(q) && Join(q) == PathOf(c, d)
    decreases d
  {
    hide ArenasApart, EntriesNamed, TableSound, NameCache.Valid, WalkDir, Component, NameCache.WellFormed;
    TableCounts(c);
    if d == 0 {
      q := [];
      RootPath(c);
    } else {
      var p, e := TableEntry(c, d);
      var init := PathComponents(c, p);
      q := init + [EntryName(c, e)];
      JoinSnoc(init, EntryName(c, e));
      ComponentsSnoc(init, EntryName(c, e));
    }
  }

  predicate InSlice(c: State, d: nat, i: int)
    requires d < |c.dirs|
  {
    c.dirs[d].first <= i < c.dirs[d].first + c.dirs[d].capacity
  }

  /**
   The arenas after every run: whole slices lie within the slots handed out, apart from each other and
   from the root's slot, used slots lie in their slice, and no directory holds a name twice under one key.
   */
  lemma SlicesApart(c: State, d: nat, x: nat, e: nat, f: nat)
    requires Inv(c) && Shape(c) && d < c.dirsSize && x < c.dirsSize
    ensures c.dirs[d].capacity > 0 ==>
            0 < c.dirs[d].first && c.dirs[d].first + c.dirs[d].capacity <= c.metaSize <= |c.meta|
    ensures d != x ==> forall i :: !(InSlice(c, d, i) && InSlice(c, x, i))
    ensures Owns(c, d, e) ==> InSlice(c, d, e)
    ensures Owns(c, d, e) && Owns(c, x, e) ==> d == x
    ensures Owns(c, d, e) && Owns(c, d, f) && e != f ==>
              && e < |c.meta| && f < |c.meta| && Named(c, e) && Named(c, f)
              && !(c.meta[e].key == c.meta[f].key && EntryName(c, e) == EntryName(c, f))
  {
    hide TableSound, NameCache.WellFormed, Stored, Extends, Denotes;
    assert SliceOk(c, d) && OffRoot(c, d);
    assert d != x ==> Apart(c, if d < x then d else x, if d < x then x else d);
    if Owns(c, d, e) && Owns(c, x, e) {
      OwnerUnique(c, d, x, e);
    }
    if Owns(c, d, e) && Owns(c, d, f) && e != f {
      assert Named(c, e) && Named(c, f);
      assert !SameName(c, if e < f then e else f, if e < f then f else e);
      DenotesExact(c.names, c.meta[e].name, c.meta[e].key, EntryName(c, e), c.meta[f].name, c.meta[f].key,
        EntryName(c, f));
    }
  }

  /** Creations move and change no entry in use. */
  lemma StepEntriesKept(c: State, op: Op)
    requires Inv(c) && Shape(c) && OpOk(op) && Step(c, op).Done?
    ensures EntriesKept(c, Step(c, op).value.0)
  {
    hide Inv, Shape, Component, Components, EntryKey, Subdirectory, CreateEntry, CreateFromPath, Join, EntriesKept;
    match op {
      case MakeDirectory(d, name) =>
        ComponentKey(name);
        SubdirectoryEntriesKept(c, d, name, EntryKey(name));
      case MakeEntry(d, name) =>
        ComponentKey(name);
        CreateEntryEntriesKept(c, d, name, EntryKey(name));
      case MakePath(comps, beyond) =>
        JoinNotEmpty(comps);
        assert (Join(comps) + beyond)[..|Join(comps)|] == Join(comps);
        PathEntriesKept(c, comps, Join(comps) + beyond, |Join(comps)|);
    }
  }

  lemma PathEntriesKept(c: State, comps: seq<seq<byte>>, mem: seq<byte>, n: nat)
    requires Inv(c) && Shape(c) && Components(comps) && comps != []
    requires 1 <= n <= |mem| && mem[..n] == Join(comps) && n < TWO_TO_16
    requires CreateFromPath(c, mem, n).Done?
    ensures EntriesKept(c, CreateFromPath(c, mem, n).value.0)
  {
    hide Inv, Shape, WalkDir, Component, EntryKey, Lookup, CreateEntry, CreateFromPath, Join, EntriesKept, Standing;
    var m, d, b, key := CreateFromPathSplits(c, comps, mem, n);
    StandingParts(m, comps, |comps| - 1, d, mem, n, b);
    LastTwo(comps);
    match Lookup(m, d, mem[b..], key) {
      case Some(f) =>
      case None =>
        CreateEntryEntriesKept(m, d, mem[b..], key);
        EntriesKeptTransitive(c, m, CreateFromPath(c, mem, n).value.0);
    }
  }
}
