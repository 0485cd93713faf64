/** Runs of everything that creates directories, entries and files, from the initial state. */
module FileRuns {
  import opened Outcomes
  import opened Crc32c
  import opened NameCache
  import opened DirectoryTree
  import opened PathCreation
  import opened FileCache
  import CacheRuns

  datatype Act =
    | Create(op: CacheRuns.Op)
    | CreateIn(dir: nat, name: seq<byte>)
    | Write(comps: seq<seq<byte>>, content: Option<seq<byte>>, isVirtual: bool)

  predicate ActOk(act: Act) {
    match act
    case Create(op) => CacheRuns.OpOk(op)
    case CreateIn(_, name) => Component(name)
    case Write(comps, _, _) => Components(comps) && comps != [] && |Join(comps)| < TWO_TO_16
  }

  predicate ActsOk(acts: seq<Act>) {
    forall i :: 0 <= i < |acts| ==> ActOk(acts[i])
  }

  /** A creation, CreateFileEntry, or AddFile. */
  function Perform(s: FileState, act: Act): Outcome<FileState>
    requires Shape(s.c) && ActOk(act)
  {
    match act
    case Create(op) =>
      var (c, _) :- CacheRuns.Step(s.c, op);
      Done(s.(c := c))
    case CreateIn(d, name) =>
      if d >= s.c.dirsSize then Stopped(NullPointer)
      else
        var (r, _) :- CreateFile(s, d, name);
        Done(r)
    case Write(comps, content, isVirtual) =>
      var (r, _) :- AddFile(s, Join(comps), content, isVirtual);
      Done(r)
  }

  lemma PerformKeeps(s: FileState, act: Act)
    requires FilesInv(s) && Shape(s.c) && ActOk(act) && Perform(s, act).Done?
    ensures FilesInv(Perform(s, act).value)
  {
    hide Inv, Shape, CacheRuns.Step, CreateFile, AddFile, EntriesKept, CacheRuns.KeepsWalks, Join, Component, Cached;
    match act {
      case Create(op) =>
        CacheRuns.StepKeeps(s.c, op);
        CacheRuns.StepEntriesKept(s.c, op);
        CreationKeepsFiles(s, CacheRuns.Step(s.c, op).value.0);
      case CreateIn(d, name) => CreateFileKeeps(s, d, name);
      case Write(comps, content, isVirtual) => AddFileCorrect(s, comps, content, isVirtual);
    }
  }

  ghost function PerformAll(s: FileState, acts: seq<Act>): Outcome<FileState>
    requires FilesInv(s) && ActsOk(acts)
    decreases |acts|
  {
    hide Inv, Shape, ActOk, Perform;
    if acts == [] then Done(s)
    else
      InvShape(s.c);
      assert ActOk(acts[0]);
      var r :- Perform(s, acts[0]);
      PerformKeeps(s, acts[0]);
      PerformAll(r, acts[1..])
  }

  /** A run of one is an act, and runs compose. */
  lemma {:induction false} ActsCompose(s: FileState, a: seq<Act>, b: seq<Act>)
    requires FilesInv(s) && ActsOk(a) && ActsOk(b)
    ensures ActsOk(a + b)
    ensures |a| == 1 ==> Shape(s.c) && PerformAll(s, a) == Perform(s, a[0])
    ensures PerformAll(s, a).Done? ==>
              FilesInv(PerformAll(s, a).value) && PerformAll(s, a + b) == PerformAll(PerformAll(s, a).value, b)
    ensures PerformAll(s, a).Stopped? ==> PerformAll(s, a + b) == PerformAll(s, a)
    decreases |a|
  {
    hide FilesInv, Inv, Shape, ActOk, Perform;
    FilesInvShape(s);
    if a == [] {
      assert a + b == b;
    } else {
      assert (a + b)[0] == a[0] && (a + b)[1..] == a[1..] + b;
      assert ActOk(a[0]);
      if Perform(s, a[0]).Done? {
        PerformKeeps(s, a[0]);
        ActsCompose(Perform(s, a[0]).value, a[1..], b);
      }
    }
  }

  lemma {:induction false} RunKeepsFiles(s: FileState, acts: seq<Act>)
    requires FilesInv(s) && ActsOk(acts) && PerformAll(s, acts).Done?
    ensures FilesInv(PerformAll(s, acts).value)
    decreases |acts|
  {
    hide FilesInv, Inv, Shape, ActOk, Perform;
    if acts != [] {
      FilesInvShape(s);
      assert ActOk(acts[0]);
      PerformKeeps(s, acts[0]);
      RunKeepsFiles(Perform(s, acts[0]).value, acts[1..]);
    }
  }

  /**
   From an initial state with the root's slot taken, after every run of creations, CreateFileEntry and
   AddFile: size and checksum of every file match its data, and LookupPath still agrees with the walk.
   */
  lemma ChecksumsMatch(nodes: seq<Node>, text: seq<byte>, entries: nat, dirs: seq<Dir>, toc: seq<TocEntry>,
                       metadataSize: nat,
                       files: seq<File>, acts: seq<Act>)
    requires |nodes| > 0 && |dirs| > 0 && 1 <= metadataSize <= entries
    requires CacheRuns.InitialState(nodes, text, entries, dirs, toc, metadataSize).Done? && ActsOk(acts)
    ensures var s := FileState(CacheRuns.InitialState(nodes, text, entries, dirs, toc, metadataSize).value, files, 0);
            && FilesInv(s)
            && (PerformAll(s, acts).Done? ==>
                  var r := PerformAll(s, acts).value;
                  && FilesInv(r) && Shape(r.c)
                  && (forall i :: 0 <= i < r.filesSize ==> FileOk(r.files[i]))
                  && (forall comps :: Components(comps) && comps != [] && |Join(comps)| < TWO_TO_16 ==>
                        Join(comps) != [] && LookupPath(r.c, Join(comps)) == Walk(r.c, comps)))
  {
    hide Inv, Shape, CacheRuns.InitialState, ActOk, PerformAll, LookupPath, Walk, Join, Components, FileOk;
    CacheRuns.InitialInvariant(nodes, text, entries, dirs, toc, metadataSize);
    var s := FileState(CacheRuns.InitialState(nodes, text, entries, dirs, toc, metadataSize).value, files, 0);
    NoFilesYet(s.c, files);
    if PerformAll(s, acts).Done? {
      RunKeepsFiles(s, acts);
      var r := PerformAll(s, acts).value;
      FilesInvShape(r);
      forall comps | Components(comps) && comps != [] && |Join(comps)| < TWO_TO_16
        ensures Join(comps) != [] && LookupPath(r.c, Join(comps)) == Walk(r.c, comps)
      {
        JoinNotEmpty(comps);
        LookupPathIsWalk(r.c, comps);
      }
    }
  }
}
