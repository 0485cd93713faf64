/**
 GetOrCreateEntryFromFullPath of cache/cached_tree.c, on values: creating an entry together with the
 directories missing above it.
 */
module PathCreation {
  import opened Outcomes
  import opened Crc32c
  import opened NameCache
  import opened DirectoryTree

  lemma TakenSlotKeepsShape(c: State, d: nat)
    requires Shape(c) && d < c.dirsSize && TakeSlot(c, d).Done?
    ensures TookSlot(c, TakeSlot(c, d).value.0, d, TakeSlot(c, d).value.1) && Shape(TakeSlot(c, d).value.0)
  {
    TakeSlotEffect(c, d);
  }

  lemma NamedEntryKeepsShape(c: State, names: Names, e: nat, name: nat, key: Key)
    requires Shape(c) && NameCache.WellFormed(names) && e < |c.meta|
    ensures Shape(c.(names := names, meta := c.meta[e := c.meta[e].(key := key, name := name)]))
  {
    var r := c.(names := names, meta := c.meta[e := c.meta[e].(key := key, name := name)]);
    forall x | 0 <= x < r.dirsSize
      ensures SliceOk(r, x)
    {
      assert SliceOk(c, x);
    }
    forall i | 0 <= i < r.tocSize
      ensures LinksToDir(r, r.toc[i].entry)
    {
      assert LinksToDir(c, c.toc[i].entry);
    }
    forall x | 0 <= x < |r.meta| && r.meta[x].kind == DirectoryKind
      ensures LinksToDir(r, x)
    {
      assert LinksToDir(c, x);
    }
  }

  lemma CreateEntryShape(c: State, d: nat, name: seq<byte>, key: Key)
    requires Shape(c) && d < c.dirsSize && KeyLength(key) <= |name|
    requires CreateEntry(c, d, name, key).Done?
    ensures Shape(CreateEntry(c, d, name, key).value.0)
    ensures CreateEntry(c, d, name, key).value.0.dirsSize == c.dirsSize
  {
    hide Shape, GetOrAddName, TakeSlot;
    if Lookup(c, d, name, key).None? {
      TakenSlotKeepsShape(c, d);
      var (c1, e) := TakeSlot(c, d).value;
      assert NameCache.WellFormed(c1.names) by { ShapeNames(c1); }
      GetOrAddNameWellFormed(c1.names, name, key);
      var (names, ptr) := GetOrAddName(c1.names, name, key).value;
      NamedEntryKeepsShape(c1, names, e, ptr, key);
    }
  }

  lemma ShapeNames(c: State)
    requires Shape(c)
    ensures NameCache.WellFormed(c.names)
  {}

  lemma RegisterDirectoryShape(c: State, d: nat, e: nat)
    requires Shape(c) && d < c.dirsSize && LinksToDir(c, e)
    requires RegisterDirectory(c, d, e).Done?
    ensures Shape(RegisterDirectory(c, d, e).value)
    ensures RegisterDirectory(c, d, e).value.dirsSize == c.dirsSize
    ensures RegisterDirectory(c, d, e).value.meta == c.meta
  {
    hide NameCache.WellFormed, GetOrAddName, FullPath, EntryKey;
    var path := FullPath(c, d, e).value;
    GetOrAddNameWellFormed(c.names, path, EntryKey(path));
    var r := RegisterDirectory(c, d, e).value;
    forall x | 0 <= x < r.dirsSize
      ensures SliceOk(r, x)
    {
      assert SliceOk(c, x);
    }
    forall i | 0 <= i < r.tocSize
      ensures LinksToDir(r, r.toc[i].entry)
    {
      if i < c.tocSize { assert LinksToDir(c, c.toc[i].entry); }
    }
    forall x | 0 <= x < |r.meta| && r.meta[x].kind == DirectoryKind
      ensures LinksToDir(r, x)
    {
      assert LinksToDir(c, x);
    }
  }

  lemma SubdirectoryShape(c: State, d: nat, name: seq<byte>, key: Key)
    requires Shape(c) && d < c.dirsSize && KeyLength(key) <= |name|
    requires Subdirectory(c, d, name, key).Done?
    ensures var (r, e) := Subdirectory(c, d, name, key).value;
            Shape(r) && c.dirsSize <= r.dirsSize && (e.Some? ==> LinksToDir(r, e.value))
  {
    hide NameCache.WellFormed, GetOrAddName, TakeSlot, RegisterDirectory;
    FindEntryInSlice(c, d, name, key, 0);
    match Lookup(c, d, name, key) {
      case Some(f) =>
        assert c.meta[f].kind == DirectoryKind ==> LinksToDir(c, f);
      case None =>
        TakenSlotKeepsShape(c, d);
        var (c1, e) := TakeSlot(c, d).value;
        GetOrAddNameWellFormed(c1.names, name, key);
        var (names, ptr) := GetOrAddName(c1.names, name, key).value;
        LinkDirectoryShape(c1, e, names, ptr, key);
        RegisterDirectoryShape(LinkDirectory(c1, e, names, ptr, key), d, e);
    }
  }

  /** Where the creation loop stops: the state, the directory, the last segment's start and `segment_key`. */
  datatype Reached = Reached(c: State, d: nat, begin: nat, key: Key)

  /**
   The loop over the segments that are followed by a '/'.  `mem` is the memory at full_path, of which
   the first `n` bytes are the path; the loop stands at byte `b` in directory `d`.
   */
  function MakeAncestors(c: State, d: nat, mem: seq<byte>, n: nat, b: nat, key: Key): (r: Outcome<Reached>)
    requires Shape(c) && d < c.dirsSize && b <= n <= |mem|
    ensures r.Done? ==> Shape(r.value.c) && r.value.d < r.value.c.dirsSize && r.value.begin <= n
    decreases n - b
  {
    var p := NextSlash(mem[..n], b);
    if p == n then Done(Reached(c, d, b, key))
    else
      var segmentKey := EntryKey(mem[b..p]);
      var (c1, e) :- Subdirectory(c, d, mem[b..], segmentKey);
      SubdirectoryShape(c, d, mem[b..], segmentKey);
      if e.None? then Stopped(NullPointer)
      else MakeAncestors(c1, c1.meta[e.value].link.dir, mem, n, p + 1, segmentKey)
  }

  /** One turn of the loop, whatever the path is. */
  lemma AncestorsTurn(c: State, d: nat, mem: seq<byte>, n: nat, b: nat, key: Key)
    requires Shape(c) && d < c.dirsSize && b <= n <= |mem|
    ensures var p := NextSlash(mem[..n], b);
            if p == n then MakeAncestors(c, d, mem, n, b, key) == Done(Reached(c, d, b, key))
            else
              && KeyLength(EntryKey(mem[b..p])) <= |mem[b..]|
              && match Subdirectory(c, d, mem[b..], EntryKey(mem[b..p]))
                 case Stopped(reason) => MakeAncestors(c, d, mem, n, b, key) == Stopped(reason)
                 case Done((r, None)) => MakeAncestors(c, d, mem, n, b, key) == Stopped(NullPointer)
                 case Done((r, Some(e))) =>
                   && Shape(r) && e < |r.meta| && r.meta[e].link.DirLink? && r.meta[e].link.dir < r.dirsSize
                   && MakeAncestors(c, d, mem, n, b, key) ==
                      MakeAncestors(r, r.meta[e].link.dir, mem, n, p + 1, EntryKey(mem[b..p]))
  {
    hide Shape, Subdirectory, EntryKey, NextSlash;
    var p := NextSlash(mem[..n], b);
    if p != n && Subdirectory(c, d, mem[b..], EntryKey(mem[b..p])).Done? {
      SubdirectoryShape(c, d, mem[b..], EntryKey(mem[b..p]));
    }
  }

  /** The last segment: `key` decides how many bytes at `name` are taken for it. */
  function FinalSegment(c: State, d: nat, name: seq<byte>, key: Key): Outcome<(State, Option<nat>)>
    requires Shape(c) && d < c.dirsSize
  {
    if |name| < KeyLength(key) then Stopped(OutOfBounds)
    else
      match Lookup(c, d, name, key)
      case Some(e) => Done((c, Some(e)))
      case None => CreateEntry(c, d, name, key)
  }

  /**
   Up to the last segment: where it is to go, where it begins, and `segment_key`.  If the parent
   directory is not found the loop creates it, and the key is computed only if it is still 0.
   */
  function BeforeLast(c: State, mem: seq<byte>, n: nat): (r: Outcome<Reached>)
    requires Shape(c) && 1 <= n <= |mem|
    ensures r.Done? ==> Shape(r.value.c) && r.value.d < r.value.c.dirsSize && r.value.begin <= n
  {
    if mem[0] != SLASH then Stopped(AssertFailed)
    else
      var (parent, start) := LookupParent(c, mem[..n]);
      match parent
      case Some(p) => Done(Reached(c, c.meta[p].link.dir, start, EntryKey(mem[start..n])))
      case None =>
        var r :- MakeAncestors(c, RootDir(c), mem, n, 1, 0);
        Done(r.(key := if r.key == 0 then EntryKey(mem[r.begin..n]) else r.key))
  }

  /** GetOrCreateEntryFromFullPath. */
  function CreateFromPath(c: State, mem: seq<byte>, n: nat): Outcome<(State, Option<nat>)>
    requires Shape(c) && 1 <= n <= |mem|
  {
    var r :- BeforeLast(c, mem, n);
    FinalSegment(r.c, r.d, mem[r.begin..], r.key)
  }

  /** The same with the last segment's own key in every case. */
  function CreateAsIntended(c: State, mem: seq<byte>, n: nat): Outcome<(State, Option<nat>)>
    requires Shape(c) && 1 <= n <= |mem|
  {
    var r :- BeforeLast(c, mem, n);
    FinalSegment(r.c, r.d, mem[r.begin..], EntryKey(mem[r.begin..n]))
  }

  // Paths and their components

  lemma {:induction false} JoinInjective(a: seq<seq<byte>>, b: seq<seq<byte>>)
    requires Components(a) && Components(b) && Join(a) == Join(b)
    ensures a == b
    decreases |a|
  {
    if a == [] {
      if b != [] { JoinNotEmpty(b); }
    } else {
      JoinNotEmpty(a);
      assert b != [];
      var i, j := |a| - 1, |b| - 1;
      assert Component(a[i]) && Component(b[j]);
      SplitAtLastSlash(Join(a[..i]), a[i], Join(b[..j]), b[j]);
      JoinInjective(a[..i], b[..j]);
      assert a == a[..i] + [a[i]] && b == b[..j] + [b[j]];
    }
  }

  /** Only one list of components leads to a directory. */
  lemma WalkInjective(c: State, a: seq<seq<byte>>, b: seq<seq<byte>>)
    requires Inv(c) && Components(a) && Components(b)
    requires WalkDir(c, a).Some? && WalkDir(c, a) == WalkDir(c, b)
    ensures a == b
  {
    hide ArenasApart, EntriesNamed, TableSound, WalkDir, Join, Component;
    WalkReachesPath(c, a);
    WalkReachesPath(c, b);
    JoinInjective(a, b);
  }

  lemma JoinSnoc(a: seq<seq<byte>>, s: seq<byte>)
    ensures Join(a + [s]) == Join(a) + [SLASH] + s
  {
    assert (a + [s])[..|a|] == a;
  }

  lemma WalkDirSnoc(c: State, a: seq<seq<byte>>, s: seq<byte>)
    requires Shape(c)
    ensures WalkDir(c, a + [s]) == (
              match WalkDir(c, a)
              case None => None
              case Some(d) =>
                match Lookup(c, d, s, EntryKey(s))
                case None => None
                case Some(e) => if e < |c.meta| && c.meta[e].kind == DirectoryKind &&
                  c.meta[e].link.DirLink? then Some(c.meta[e].link.dir) else None)
  {
    hide NameCache.WellFormed, EntryKey;
    assert (a + [s])[..|a|] == a;
    match WalkDir(c, a) {
      case None =>
      case Some(d) =>
        FindEntryInSlice(c, d, s, EntryKey(s), 0);
        match Lookup(c, d, s, EntryKey(s)) {
          case None =>
          case Some(e) => assert c.meta[e].kind == DirectoryKind ==> LinksToDir(c, e);
        }
    }
  }

  lemma {:induction false} JoinPrefix(comps: seq<seq<byte>>, k: nat)
    requires k <= |comps|
    ensures Join(comps[..k]) <= Join(comps)
    ensures k < |comps| ==> Join(comps[..k]) + [SLASH] + comps[k] <= Join(comps)
    decreases |comps|
  {
    if k < |comps| {
      var init := comps[..|comps| - 1];
      if k < |init| {
        assert init[..k] == comps[..k] && init[k] == comps[k];
        JoinPrefix(init, k);
      }
    } else {
      assert comps[..k] == comps;
    }
  }

  /** After the first `k` components comes a '/', the next component, and then a '/' or the end. */
  lemma SegmentAt(comps: seq<seq<byte>>, path: seq<byte>, k: nat)
    requires Components(comps) && k < |comps| && path == Join(comps)
    ensures var b := |Join(comps[..k])| + 1;
            && b + |comps[k]| <= |path|
            && path[b..b + |comps[k]|] == comps[k]
            && NextSlash(path, b) == b + |comps[k]|
            && (b + |comps[k]| == |path| <==> k == |comps| - 1)
            && |Join(comps[..k + 1])| == b + |comps[k]|
  {
    hide Join, NextSlash;
    var b := |Join(comps[..k])| + 1;
    assert Component(comps[k]);
    var t := Join(comps[..k]) + [SLASH] + comps[k];
    JoinTo(comps, k);
    JoinPrefix(comps, k);
    StandsAt(path, Join(comps[..k]), comps[k]);
    if k < |comps| - 1 {
      JoinPrefix(comps, k + 1);
      StandsAt(path, t, comps[k + 1]);
    } else {
      assert comps[..k + 1] == comps;
    }
    NextSlashIs(path, b, b + |comps[k]|);
  }

  lemma JoinTo(comps: seq<seq<byte>>, k: nat)
    requires k < |comps|
    ensures Join(comps[..k + 1]) == Join(comps[..k]) + [SLASH] + comps[k]
  {
    assert comps[..k + 1] == comps[..k] + [comps[k]];
    JoinSnoc(comps[..k], comps[k]);
  }

  lemma StandsAt(path: seq<byte>, parent: seq<byte>, s: seq<byte>)
    requires parent + [SLASH] + s <= path
    ensures path[|parent|] == SLASH && path[|parent| + 1..|parent| + 1 + |s|] == s
  {
    var t := parent + [SLASH] + s;
    assert path[..|t|] == t;
    assert path[|parent|] == t[|parent|];
    assert path[|parent| + 1..|t|] == t[|parent| + 1..];
  }

  lemma {:induction false} NextSlashIs(path: seq<byte>, b: nat, p: nat)
    requires b <= p <= |path|
    requires SLASH !in path[b..p] && (p < |path| ==> path[p] == SLASH)
    ensures NextSlash(path, b) == p
    decreases p - b
  {
    if b < p {
      assert path[b] == path[b..p][0];
      assert forall s :: s in path[b + 1..p] ==> s in path[b..p];
      NextSlashIs(path, b + 1, p);
    }
  }

  // What one run of the creation loop changes

  /** Every walk is as before, unless it runs along `comps` and found nothing. */
  ghost predicate OnlyAlong(c: State, r: State, comps: seq<seq<byte>>)
    requires Shape(c) && Shape(r)
  {
    && (forall q :: Components(q) ==> WalkDir(r, q) == WalkDir(c, q) || (WalkDir(c, q) == None && q <= comps))
    && (forall q :: Components(q) && q != [] ==> Walk(r, q) == Walk(c, q) || (Walk(c, q) == None && q <= comps))
  }

  lemma OnlyAlongStep(c: State, d: nat, e: nat, r: State, name: seq<byte>, prefix: seq<seq<byte>>)
    requires AddedTo(c, r, d, e, name, EntryKey(name)) && Component(name)
    requires Components(prefix) && WalkDir(c, prefix) == Some(d)
    ensures OnlyAlong(c, r, prefix + [name])
  {
    hide Inv, WalkDir, Walk, AddedTo, Component, EntryKey;
    AddedInv(c, d, e, r, name, EntryKey(name));
    var comps := prefix + [name];
    forall q | Components(q)
      ensures WalkDir(r, q) == WalkDir(c, q) || (WalkDir(c, q) == None && q <= comps)
    {
      AddedWalkDir(c, r, d, e, name, EntryKey(name), q);
      if WalkDir(r, q) != WalkDir(c, q) {
        WalkInjective(c, q[..|q| - 1], prefix);
        assert q == comps;
      }
    }
    forall q | Components(q) && q != []
      ensures Walk(r, q) == Walk(c, q) || (Walk(c, q) == None && q <= comps)
    {
      AddedWalk(c, r, d, e, name, EntryKey(name), q);
      if WalkDir(c, q[..|q| - 1]) == Some(d) && q[|q| - 1] == name {
        WalkInjective(c, q[..|q| - 1], prefix);
        assert q == comps;
        AddedWasMissing(c, d, e, r, name, q);
      }
    }
  }

  lemma AddedInv(c: State, d: nat, e: nat, r: State, name: seq<byte>, key: Key)
    requires AddedTo(c, r, d, e, name, key)
    ensures Inv(c) && Inv(r) && Shape(c) && Shape(r) && d < c.dirsSize
  {}

  lemma AddedWasMissing(c: State, d: nat, e: nat, r: State, name: seq<byte>, q: seq<seq<byte>>)
    requires AddedTo(c, r, d, e, name, EntryKey(name))
    requires q != [] && WalkDir(c, q[..|q| - 1]) == Some(d) && q[|q| - 1] == name
    ensures Walk(c, q) == None
  {
    hide Inv, Grown, WalkDir, Lookup, EntryKey;
    AddedInv(c, d, e, r, name, EntryKey(name));
  }

  lemma OnlyAlongCompose(c: State, m: State, r: State, a: seq<seq<byte>>, b: seq<seq<byte>>)
    requires Shape(c) && Shape(m) && Shape(r)
    requires OnlyAlong(c, m, a) && OnlyAlong(m, r, b) && a <= b
    ensures OnlyAlong(c, r, b)
  {
    hide Shape, WalkDir, Walk, Components;
  }

  // The creation loop

  /** The loop stands after the first `k` components, in the directory they lead to. */
  ghost predicate Standing(c: State, comps: seq<seq<byte>>, k: nat, d: nat, mem: seq<byte>, n: nat, b: nat) {
    && Inv(c) && Components(comps) && k < |comps|
    && n <= |mem| && mem[..n] == Join(comps) && n < TWO_TO_16
    && b == |Join(comps[..k])| + 1 && b <= n
    && d < c.dirsSize && WalkDir(c, comps[..k]) == Some(d)
  }

  lemma StandingParts(c: State, comps: seq<seq<byte>>, k: nat, d: nat, mem: seq<byte>, n: nat, b: nat)
    requires Standing(c, comps, k, d, mem, n, b)
    ensures Inv(c) && Shape(c) && Components(comps) && Components(comps[..k]) && k < |comps| && Component(comps[k])
    ensures b + |comps[k]| <= n <= |mem| && d < c.dirsSize && WalkDir(c, comps[..k]) == Some(d)
    ensures mem[b..b + |comps[k]|] == comps[k] && NextSlash(mem[..n], b) == b + |comps[k]|
    ensures b + |comps[k]| == n <==> k == |comps| - 1
    ensures mem[b..][..|comps[k]|] == comps[k]
    ensures |Join(comps[..k + 1])| == b + |comps[k]|
  {
    hide Inv, Shape, WalkDir, Join, NextSlash, Component;
    SegmentAt(comps, mem[..n], k);
    var m := |comps[k]|;
    assert mem[..n][b..b + m] == mem[b..b + m] == mem[b..][..m];
    InvShape(c);
    InvWalkBound(c, comps[..k]);
  }

  /** One turn of the loop goes one component further. */
  lemma StandingStep(c: State, comps: seq<seq<byte>>, k: nat, d: nat, mem: seq<byte>, n: nat, b: nat)
    requires Standing(c, comps, k, d, mem, n, b) && k + 1 < |comps|
    requires n <= |mem| && b + |comps[k]| < n && d < c.dirsSize && Shape(c)
    requires KeyLength(EntryKey(comps[k])) <= |mem[b..]|
    requires Subdirectory(c, d, mem[b..], EntryKey(comps[k])).Done?
    ensures var (r, e) := Subdirectory(c, d, mem[b..], EntryKey(comps[k])).value;
            e.Some? ==>
              && e.value < |r.meta| && r.meta[e.value].link.DirLink?
              && Standing(r, comps, k + 1, r.meta[e.value].link.dir, mem, n, b + |comps[k]| + 1)
              && OnlyAlong(c, r, comps[..k + 1])
  {
    hide Inv, WalkDir, Walk, AddedTo, Component, EntryKey, Subdirectory, Lookup, OnlyAlong, Standing;
    StandingParts(c, comps, k, d, mem, n, b);
    var name, key := mem[b..], EntryKey(comps[k]);
    ComponentKey(comps[k]);
    SubdirectoryAdds(c, d, name, key);
    var (r, e) := Subdirectory(c, d, name, key).value;
    SubdirectoryShape(c, d, name, key);
    if e.Some? {
      assert comps[..k + 1] == comps[..k] + [comps[k]];
      LookupTrims(c, d, name, key);
      WalkDirSnoc(c, comps[..k], comps[k]);
      WalkDirSnoc(r, comps[..k], comps[k]);
      match Lookup(c, d, name, key) {
        case Some(f) =>
          OnlyAlongItself(c, comps[..k + 1]);
          StandingMoved(c, comps, k, d, mem, n, b, r, r.meta[e.value].link.dir);
        case None =>
          OnlyAlongStep(c, d, e.value, r, comps[k], comps[..k]);
          AddedInv(c, d, e.value, r, comps[k], key);
          AddedWalkDir(c, r, d, e.value, comps[k], key, comps[..k]);
          AddedLookup(c, r, d, e.value, comps[k], key, d, comps[k], key);
          AddedDirs(c, d, e.value, r, comps[k], key);
          StandingMoved(c, comps, k, d, mem, n, b, r, r.meta[e.value].link.dir);
      }
    }
  }

  lemma AddedDirs(c: State, d: nat, e: nat, r: State, name: seq<byte>, key: Key)
    requires AddedTo(c, r, d, e, name, key)
    ensures c.dirsSize <= r.dirsSize && e < |r.meta|
  {}

  lemma OnlyAlongItself(c: State, comps: seq<seq<byte>>)
    requires Shape(c)
    ensures OnlyAlong(c, c, comps)
  {}

  lemma StandingMoved(c: State, comps: seq<seq<byte>>, k: nat, d: nat, mem: seq<byte>, n: nat, b: nat, r: State, x: nat)
    requires Standing(c, comps, k, d, mem, n, b) && k + 1 < |comps|
    requires Inv(r) && x < r.dirsSize && WalkDir(r, comps[..k + 1]) == Some(x)
    ensures Standing(r, comps, k + 1, x, mem, n, b + |comps[k]| + 1)
  {
    hide Inv, WalkDir;
    SegmentAt(comps, mem[..n], k);
  }

  /** At the last component the loop ends. */
  lemma AncestorsLast(c: State, comps: seq<seq<byte>>, d: nat, mem: seq<byte>, n: nat, b: nat, key: Key)
    requires comps != [] && Standing(c, comps, |comps| - 1, d, mem, n, b)
    requires Shape(c) && d < c.dirsSize && b <= n <= |mem|
    ensures MakeAncestors(c, d, mem, n, b, key) == Done(Reached(c, d, b, key))
  {
    hide Inv, Shape, WalkDir, Component, Components, EntryKey, Standing, Subdirectory, Join;
    StandingParts(c, comps, |comps| - 1, d, mem, n, b);
  }

  /** Before it, the loop goes on in the next directory, `x` of state `r`, at byte `b1`. */
  lemma AncestorsNext(c: State, comps: seq<seq<byte>>, k: nat, d: nat, mem: seq<byte>, n: nat, b: nat, key: Key)
    returns (r: State, x: nat, b1: nat)
    requires Standing(c, comps, k, d, mem, n, b) && k + 1 < |comps|
    requires Shape(c) && d < c.dirsSize && b <= n <= |mem|
    requires MakeAncestors(c, d, mem, n, b, key).Done?
    ensures KeyLength(EntryKey(comps[k])) <= |mem[b..]|
    ensures Subdirectory(c, d, mem[b..], EntryKey(comps[k])).Done?
    ensures var (m, e) := Subdirectory(c, d, mem[b..], EntryKey(comps[k])).value;
            m == r && e.Some? && e.value < |r.meta| && r.meta[e.value].link == DirLink(x)
    ensures Standing(r, comps, k + 1, x, mem, n, b1) && OnlyAlong(c, r, comps[..k + 1])
    ensures Shape(r) && x < r.dirsSize && b1 <= n
    ensures MakeAncestors(c, d, mem, n, b, key) == MakeAncestors(r, x, mem, n, b1, EntryKey(comps[k]))
  {
    hide Inv, Shape, WalkDir, Walk, Component, Components, EntryKey, Subdirectory, Lookup, OnlyAlong, Standing, Join,
      NextSlash;
    StandingParts(c, comps, k, d, mem, n, b);
    ComponentKey(comps[k]);
    StandingStep(c, comps, k, d, mem, n, b);
    var (m, e) := Subdirectory(c, d, mem[b..], EntryKey(comps[k])).value;
    SubdirectoryShape(c, d, mem[b..], EntryKey(comps[k]));
    r, x, b1 := m, m.meta[e.value].link.dir, b + |comps[k]| + 1;
    StandingParts(r, comps, k + 1, x, mem, n, b1);
  }

  /** The whole loop: it ends in the directory above the last component, and only ancestors are new. */
  lemma {:induction false} MakeAncestorsCorrect(c: State, comps: seq<seq<byte>>, k: nat, d: nat, mem: seq<byte>, n: nat,
                                                b: nat, key: Key)
    requires Standing(c, comps, k, d, mem, n, b) && k < |comps|
    requires Shape(c) && d < c.dirsSize && b <= n <= |mem|
    requires MakeAncestors(c, d, mem, n, b, key).Done?
    ensures var r := MakeAncestors(c, d, mem, n, b, key).value;
            && Standing(r.c, comps, |comps| - 1, r.d, mem, n, r.begin)
            && OnlyAlong(c, r.c, comps[..|comps| - 1])
            && r.key == (if k == |comps| - 1 then key else EntryKey(comps[|comps| - 2]))
    decreases |comps| - k
  {
    hide Inv, Shape, MakeAncestors, EntryKey, Subdirectory, OnlyAlong, Standing;
    if k == |comps| - 1 {
      AncestorsLast(c, comps, d, mem, n, b, key);
      OnlyAlongItself(c, comps[..|comps| - 1]);
    } else {
      var r, x, b1 := AncestorsNext(c, comps, k, d, mem, n, b, key);
      MakeAncestorsCorrect(r, comps, k + 1, x, mem, n, b1, EntryKey(comps[k]));
      assert comps[..k + 1] <= comps[..|comps| - 1];
      OnlyAlongCompose(c, r, MakeAncestors(c, d, mem, n, b, key).value.c, comps[..k + 1], comps[..|comps| - 1]);
    }
  }

  /** If the directory above the last component was missing, the one now there is still empty. */
  lemma {:induction false} MakeAncestorsEmpty(c: State, comps: seq<seq<byte>>, k: nat, d: nat, mem: seq<byte>, n: nat,
                                              b: nat, key: Key)
    requires Standing(c, comps, k, d, mem, n, b) && k < |comps|
    requires Shape(c) && d < c.dirsSize && b <= n <= |mem|
    requires MakeAncestors(c, d, mem, n, b, key).Done?
    requires WalkDir(c, comps[..|comps| - 1]).None?
    ensures var r := MakeAncestors(c, d, mem, n, b, key).value; r.d < |r.c.dirs| && r.c.dirs[r.d].size == 0
    decreases |comps| - k
  {
    hide Inv, Shape, MakeAncestors, WalkDir, EntryKey, Subdirectory, OnlyAlong, Standing, Component, Components, Join;
    StandingParts(c, comps, k, d, mem, n, b);
    if k < |comps| - 1 {
      var r, x, b1 := AncestorsNext(c, comps, k, d, mem, n, b, key);
      if WalkDir(r, comps[..|comps| - 1]).None? {
        MakeAncestorsEmpty(r, comps, k + 1, x, mem, n, b1, EntryKey(comps[k]));
      } else {
        AppearedHere(c, r, comps, k);
        assert comps[..k] + [comps[k]] == comps[..k + 1] == comps[..|comps| - 1];
        ComponentKey(comps[k]);
        NewDirectoryEmpty(c, d, mem[b..], EntryKey(comps[k]), comps[k], comps[..k]);
        AncestorsLast(r, comps, x, mem, n, b1, EntryKey(comps[k]));
      }
    }
  }

  lemma AppearedHere(c: State, r: State, comps: seq<seq<byte>>, k: nat)
    requires Shape(c) && Shape(r) && Components(comps) && k + 1 < |comps|
    requires OnlyAlong(c, r, comps[..k + 1])
    requires WalkDir(c, comps[..|comps| - 1]).None? && WalkDir(r, comps[..|comps| - 1]).Some?
    ensures k + 2 == |comps|
  {
    hide WalkDir, Walk, Shape, Component;
    assert comps[..|comps| - 1] <= comps[..k + 1];
  }

  /** A subdirectory that was not a directory before the call is new, hence empty. */
  lemma NewDirectoryEmpty(c: State, d: nat, name: seq<byte>, key: Key, s: seq<byte>, prefix: seq<seq<byte>>)
    requires Inv(c) && Shape(c) && d < c.dirsSize && 0 < KeyLength(key) <= |name|
    requires s == name[..KeyLength(key)] && Component(s) && key == EntryKey(s)
    requires Subdirectory(c, d, name, key).Done? && Subdirectory(c, d, name, key).value.1.Some?
    requires WalkDir(c, prefix) == Some(d) && WalkDir(c, prefix + [s]) == None
    ensures var (r, e) := Subdirectory(c, d, name, key).value;
            && e.value < |r.meta| && r.meta[e.value].link == DirLink(c.dirsSize)
            && c.dirsSize < |r.dirs| && r.dirs[c.dirsSize].size == 0
  {
    hide Inv, Component, EntryKey, Subdirectory, Lookup, WalkDir;
    SubdirectoryAdds(c, d, name, key);
    LookupTrims(c, d, name, key);
    WalkDirSnoc(c, prefix, s);
    match Lookup(c, d, name, key) {
      case Some(f) => TableEntryOf(c, f);
      case None =>
    }
    AddedDirs(c, d, Subdirectory(c, d, name, key).value.1.value, Subdirectory(c, d, name, key).value.0, s, key);
  }

  // What creation leaves alone

  /** Used entries are untouched, no entry becomes a file, and none changes its flag. */
  ghost predicate EntriesKept(c: State, r: State) {
    && |r.meta| == |c.meta|
    && (forall d: nat, x: nat :: Owns(c, d, x) && x < |c.meta| ==> Owns(r, d, x) && r.meta[x] == c.meta[x])
    && (forall x :: 0 <= x < |r.meta| && r.meta[x].kind == FileKind ==>
       c.meta[x].kind == FileKind && r.meta[x].link == c.meta[x].link)
    && (forall x :: 0 <= x < |r.meta| ==> r.meta[x].isVirtual == c.meta[x].isVirtual)
  }

  lemma EntriesKeptTransitive(c: State, m: State, r: State)
    requires EntriesKept(c, m) && EntriesKept(m, r)
    ensures EntriesKept(c, r)
  {
    hide Owns;
  }

  lemma CreateEntryEntriesKept(c: State, d: nat, name: seq<byte>, key: Key)
    requires Inv(c) && Shape(c) && d < c.dirsSize && 0 < KeyLength(key) <= |name| && CreateEntry(c, d, name, key).Done?
    ensures EntriesKept(c, CreateEntry(c, d, name, key).value.0)
  {
    hide ArenasApart, EntriesNamed, TableSound, Lookup, Extends, Stored, CreateEntry, NameCache.Valid,
      NameCache.WellFormed, Owns;
    CreateEntryEffect(c, d, name, key);
    var (r, e) := CreateEntry(c, d, name, key).value;
    if e.Some? {
      assert NewDirsEmpty(c, r);
      GrownOwns(c, r, d, e.value, r.meta[e.value].name, key);
    }
  }

  lemma SubdirectoryEntriesKept(c: State, d: nat, name: seq<byte>, key: Key)
    requires Inv(c) && Shape(c) && d < c.dirsSize && 0 < KeyLength(key) <= |name| && Component(name[..KeyLength(key)])
    requires Subdirectory(c, d, name, key).Done?
    ensures EntriesKept(c, Subdirectory(c, d, name, key).value.0)
  {
    hide ArenasApart, EntriesNamed, TableSound, Lookup, Extends, Stored, Denotes, Subdirectory, NameCache.Valid,
      NameCache.WellFormed, Owns, PathOf,
      Component, EntryKey;
    TableCounts(c);
    SubdirectoryEffect(c, d, name, key);
    var (r, e) := Subdirectory(c, d, name, key).value;
    if Lookup(c, d, name, key).None? {
      assert NewDirsEmpty(c, r);
      GrownOwns(c, r, d, e.value, r.meta[e.value].name, key);
    }
  }

  lemma {:induction false} MakeAncestorsEntriesKept(c: State, comps: seq<seq<byte>>, k: nat, d: nat, mem: seq<byte>,
                                                    n: nat, b: nat, key: Key)
    requires Standing(c, comps, k, d, mem, n, b) && k < |comps|
    requires Shape(c) && d < c.dirsSize && b <= n <= |mem|
    requires MakeAncestors(c, d, mem, n, b, key).Done?
    ensures EntriesKept(c, MakeAncestors(c, d, mem, n, b, key).value.c)
    decreases |comps| - k
  {
    hide Inv, Shape, MakeAncestors, WalkDir, EntryKey, Subdirectory, OnlyAlong, Standing, Component, Components, Join,
      EntriesKept;
    StandingParts(c, comps, k, d, mem, n, b);
    if k == |comps| - 1 {
      AncestorsLast(c, comps, d, mem, n, b, key);
      KeptItself(c);
    } else {
      var r, x, b1 := AncestorsNext(c, comps, k, d, mem, n, b, key);
      ComponentKey(comps[k]);
      SubdirectoryEntriesKept(c, d, mem[b..], EntryKey(comps[k]));
      MakeAncestorsEntriesKept(r, comps, k + 1, x, mem, n, b1, EntryKey(comps[k]));
      EntriesKeptTransitive(c, r, MakeAncestors(c, d, mem, n, b, key).value.c);
    }
  }

  lemma KeptItself(c: State)
    ensures EntriesKept(c, c)
  {}

  // The whole operation

  /** The last components of a path whose parent directory is the walk's `d`. */
  lemma LookupParentIsWalk(c: State, comps: seq<seq<byte>>, path: seq<byte>)
    requires Inv(c) && Components(comps) && comps != [] && path == Join(comps) && 1 <= |path| < TWO_TO_16
    ensures var (parent, start) := LookupParent(c, path);
            var init := comps[..|comps| - 1];
            && start == |Join(init)| + 1 && path[start..] == comps[|comps| - 1]
            && match WalkDir(c, init)
               case Some(d) => parent.Some? && parent.value < |c.meta| && c.meta[parent.value].link == DirLink(d)
               case None => parent == None
  {
    hide ArenasApart, EntriesNamed, TableSound, NameCache.WellFormed, NameCache.Valid, EntryKey, PathOf, WalkDir,
      FindToc, LastSlash, Component;
    var init, last := comps[..|comps| - 1], comps[|comps| - 1];
    assert Component(last);
    ComponentParts(last);
    LastSlashOfJoin(path, |path| - 1, Join(init), last);
    assert path[..|Join(init)|] == Join(init) && path[|Join(init)| + 1..] == last;
    if init == [] {
      WalkFromRoot(c);
    } else {
      JoinLong(init);
      TocAgrees(c, path, init);
      match WalkDir(c, init) {
        case None =>
        case Some(d) => var p, e := TableEntry(c, d);
      }
    }
  }

  lemma ComponentParts(s: seq<byte>)
    requires Component(s)
    ensures SLASH !in s && |s| > 0
  {}

  lemma JoinLong(comps: seq<seq<byte>>)
    requires Components(comps) && comps != []
    ensures |Join(comps)| > 1
  {
    assert Component(comps[|comps| - 1]);
  }

  /** When the parent directory exists, or the two keys happen to agree, the last segment gets the right key. */
  ghost predicate LastKeyRight(c: State, comps: seq<seq<byte>>)
    requires Shape(c) && comps != []
  {
    || WalkDir(c, comps[..|comps| - 1]).Some?
    || (|comps| > 1 && EntryKey(comps[|comps| - 1]) == EntryKey(comps[|comps| - 2]))
  }

  /**
   The state before the last segment is handled: the parent directory exists, only ancestors are new,
   and the key is the last segment's own only if its parent was there; otherwise it is stale.
   */
  lemma CreateFromPathSplits(c: State, comps: seq<seq<byte>>, mem: seq<byte>, n: nat)
    returns (m: State, d: nat, b: nat, key: Key)
    requires Inv(c) && Components(comps) && comps != []
    requires 1 <= n <= |mem| && mem[..n] == Join(comps) && n < TWO_TO_16
    requires Shape(c)
    requires BeforeLast(c, mem, n).Done? || CreateFromPath(c, mem, n).Done? || CreateAsIntended(c, mem, n).Done?
    ensures Standing(m, comps, |comps| - 1, d, mem, n, b) && Shape(m)
    ensures b <= n && d < m.dirsSize
    ensures BeforeLast(c, mem, n) == Done(Reached(m, d, b, key))
    ensures CreateFromPath(c, mem, n) == FinalSegment(m, d, mem[b..], key)
    ensures CreateAsIntended(c, mem, n) == FinalSegment(m, d, mem[b..], EntryKey(comps[|comps| - 1]))
    ensures OnlyAlong(c, m, comps[..|comps| - 1])
    ensures EntriesKept(c, m)
    ensures WalkDir(c, comps[..|comps| - 1]).None? ==> d < |m.dirs| && m.dirs[d].size == 0
    ensures WalkDir(c, comps[..|comps| - 1]).Some? ==> m == c
    ensures key == if WalkDir(c, comps[..|comps| - 1]).Some? then EntryKey(comps[|comps| - 1])
            else EntryKey(comps[|comps| - 2])
    ensures WalkDir(c, comps[..|comps| - 1]).None? ==> |comps| > 1
  {
    hide Inv, WalkDir, Walk, Component, EntryKey, Lookup, OnlyAlong, FinalSegment, MakeAncestors, LookupParent,
      EntriesKept, Join, NextSlash;
    JoinNotEmpty(comps);
    assert mem[0] == mem[..n][0];
    LookupParentIsWalk(c, comps, mem[..n]);
    var init := comps[..|comps| - 1];
    var (parent, start) := LookupParent(c, mem[..n]);
    assert mem[start..n] == mem[..n][start..];
    InvShape(c);
    RootStanding(c, comps, mem, n);
    WalkFromRoot(c);
    assert |comps| == 1 ==> init == [];
    match WalkDir(c, init) {
      case Some(x) =>
        m, d, b, key := c, x, start, EntryKey(comps[|comps| - 1]);
        OnlyAlongItself(c, init);
        KeptItself(c);
        assert Standing(m, comps, |comps| - 1, d, mem, n, b) by { InvWalkBound(c, init); }
        InvWalkBound(c, init);
      case None =>
        MakeAncestorsCorrect(c, comps, 0, RootDir(c), mem, n, 1, 0);
        MakeAncestorsEntriesKept(c, comps, 0, RootDir(c), mem, n, 1, 0);
        MakeAncestorsEmpty(c, comps, 0, RootDir(c), mem, n, 1, 0);
        var r := MakeAncestors(c, RootDir(c), mem, n, 1, 0).value;
        m, d, b, key := r.c, r.d, r.begin, r.key;
        assert Component(comps[|comps| - 2]);
        ComponentKey(comps[|comps| - 2]);
        InvShape(m);
        LastSegment(m, comps, d, mem, n, b);
    }
  }

  lemma LastSegment(m: State, comps: seq<seq<byte>>, d: nat, mem: seq<byte>, n: nat, b: nat)
    requires comps != [] && Standing(m, comps, |comps| - 1, d, mem, n, b)
    ensures b <= n <= |mem| && d < m.dirsSize && mem[b..n] == comps[|comps| - 1]
  {
    hide Inv, WalkDir, Standing;
    StandingParts(m, comps, |comps| - 1, d, mem, n, b);
  }

  lemma InvWalkBound(c: State, comps: seq<seq<byte>>)
    requires Shape(c)
    ensures WalkDir(c, comps).Some? ==> WalkDir(c, comps).value < c.dirsSize
  {}

  lemma RootStanding(c: State, comps: seq<seq<byte>>, mem: seq<byte>, n: nat)
    requires Inv(c) && Components(comps) && comps != []
    requires 1 <= n <= |mem| && mem[..n] == Join(comps) && n < TWO_TO_16
    ensures Shape(c) && RootDir(c) < c.dirsSize && Standing(c, comps, 0, RootDir(c), mem, n, 1)
  {
    hide ArenasApart, EntriesNamed, TableSound, NameCache.WellFormed, NameCache.Valid;
    assert comps[..0] == [];
  }

  /** Every lookup is as before, unless its path runs along `comps` and found nothing. */
  ghost predicate LookupsOnlyAlong(c: State, r: State, comps: seq<seq<byte>>)
    requires Shape(c) && Shape(r)
  {
    forall q :: Components(q) && q != [] && |Join(q)| < TWO_TO_16 ==>
      || LookupPath(r, Join(q)) == LookupPath(c, Join(q))
      || (LookupPath(c, Join(q)) == None && q <= comps)
  }

  lemma LookupsFollowWalks(c: State, r: State, comps: seq<seq<byte>>)
    requires Inv(c) && Inv(r) && Shape(c) && Shape(r) && OnlyAlong(c, r, comps)
    ensures LookupsOnlyAlong(c, r, comps)
  {
    hide Inv, Shape, WalkDir, Walk, LookupPath, Join, Components;
    forall q | Components(q) && q != [] && |Join(q)| < TWO_TO_16
      ensures LookupPath(r, Join(q)) == LookupPath(c, Join(q)) || (LookupPath(c, Join(q)) == None && q <= comps)
    {
      JoinNotEmpty(q);
      LookupPathIsWalk(c, q);
      LookupPathIsWalk(r, q);
    }
  }

  /**
   The walks after the last segment: in directory `d` the name `s` leads to `e`, to which it led before
   if it led anywhere; no other walk has changed.
   */
  ghost predicate FinalWalks(m: State, r: State, d: nat, s: seq<byte>, key: Key, e: Option<nat>)
    requires Shape(m) && Shape(r)
  {
    && (forall q :: Components(q) ==> WalkDir(r, q) == WalkDir(m, q))
    && (forall q :: Components(q) && q != [] ==>
          if WalkDir(m, q[..|q| - 1]) == Some(d) && q[|q| - 1] == s && EntryKey(s) == key
          then Walk(r, q) == e && (Walk(m, q) == None || Walk(m, q) == e)
          else Walk(r, q) == Walk(m, q))
  }

  lemma FinalWalksAt(m: State, r: State, d: nat, s: seq<byte>, key: Key, e: Option<nat>, q: seq<seq<byte>>)
    requires Shape(m) && Shape(r) && FinalWalks(m, r, d, s, key, e) && Components(q)
    ensures WalkDir(r, q) == WalkDir(m, q)
    ensures q != [] ==>
              if WalkDir(m, q[..|q| - 1]) == Some(d) && q[|q| - 1] == s && EntryKey(s) == key
              then Walk(r, q) == e && (Walk(m, q) == None || Walk(m, q) == e)
              else Walk(r, q) == Walk(m, q)
  {
    hide Shape, WalkDir, Walk, EntryKey, Components;
  }

  /** The last segment under the key it is given, in the directory above it. */
  lemma FinalSegmentCorrect(m: State, comps: seq<seq<byte>>, d: nat, mem: seq<byte>, n: nat, b: nat, key: Key)
    requires comps != [] && Standing(m, comps, |comps| - 1, d, mem, n, b) && Shape(m) && d < m.dirsSize &&
             b <= n <= |mem|
    requires KeyLength(key) > 0 && FinalSegment(m, d, mem[b..], key).Done?
    ensures KeyLength(key) <= |mem[b..]|
    ensures var (r, e) := FinalSegment(m, d, mem[b..], key).value;
            var s := mem[b..][..KeyLength(key)];
            && Inv(r) && Shape(r) && e.Some? && WalkDir(r, comps[..|comps| - 1]) == Some(d)
            && FinalWalks(m, r, d, s, key, e)
  {
    hide Inv, Shape, WalkDir, Component, Components, EntryKey, Lookup, AddedTo, CreateEntry, Standing, Join;
    StandingParts(m, comps, |comps| - 1, d, mem, n, b);
    var name := mem[b..];
    var s := name[..KeyLength(key)];
    var (r, e) := FinalSegment(m, d, name, key).value;
    LookupTrims(m, d, name, key);
    match Lookup(m, d, name, key) {
      case Some(f) =>
      case None =>
        CreateEntryAdds(m, d, name, key);
        AddedInv(m, d, e.value, r, s, key);
        forall q | Components(q)
          ensures WalkDir(r, q) == WalkDir(m, q)
        {
          AddedWalkDir(m, r, d, e.value, s, key, q);
        }
        forall q | Components(q) && q != []
          ensures if WalkDir(m, q[..|q| - 1]) == Some(d) && q[|q| - 1] == s && EntryKey(s) == key
                  then Walk(r, q) == e && Walk(m, q) == None
                  else Walk(r, q) == Walk(m, q)
        {
          AddedWalk(m, r, d, e.value, s, key, q);
        }
    }
  }

  /** The entry the last segment returns stands in that directory, with the key and name given. */
  ghost predicate Holds(r: State, d: nat, e: Option<nat>, s: seq<byte>, key: Key) {
    && Inv(r) && e.Some? && Owns(r, d, e.value) && e.value < |r.meta| && Named(r, e.value)
    && r.meta[e.value].key == key && EntryName(r, e.value) == s
  }

  lemma FinalSegmentHolds(m: State, d: nat, name: seq<byte>, key: Key)
    requires Inv(m) && Shape(m) && d < m.dirsSize && KeyLength(key) > 0 && FinalSegment(m, d, name, key).Done?
    ensures KeyLength(key) <= |name|
    ensures var (r, e) := FinalSegment(m, d, name, key).value; Holds(r, d, e, name[..KeyLength(key)], key)
  {
    hide Inv, Shape, EntryKey, Lookup, CreateEntry, Owns, AddedTo;
    var (r, e) := FinalSegment(m, d, name, key).value;
    var s := name[..KeyLength(key)];
    match Lookup(m, d, name, key) {
      case Some(f) =>
      case None =>
        CreateEntryAdds(m, d, name, key);
        AddedInv(m, d, e.value, r, s, key);
        AddedDirs(m, d, e.value, r, s, key);
        AddedLookup(m, r, d, e.value, s, key, d, name, key);
    }
    LookupIsMap(r, d, name, key);
  }

  /**
   Creation by full path as intended.  Whatever ancestors are missing, LookupPath then finds the entry
   at that path, all directories above it exist, a second call returns the entry and changes nothing,
   and no other lookup has changed, except that missing ancestors have appeared.
   */
  lemma CreateAsIntendedCorrect(c: State, comps: seq<seq<byte>>, mem: seq<byte>, n: nat)
    requires Inv(c) && Shape(c) && Components(comps) && comps != []
    requires 1 <= n <= |mem| && mem[..n] == Join(comps) && n < TWO_TO_16
    requires CreateAsIntended(c, mem, n).Done?
    ensures var (r, e) := CreateAsIntended(c, mem, n).value;
            && Inv(r) && Shape(r) && e.Some?
            && (forall k :: 0 <= k < |comps| ==> WalkDir(r, comps[..k]).Some?)
            && LookupPath(r, mem[..n]) == e
            && CreateAsIntended(r, mem, n) == Done((r, e))
            && LookupsOnlyAlong(c, r, comps)
  {
    hide Inv, WalkDir, Walk, Component, Components, EntryKey, Lookup, Standing, CreateFromPath, CreateAsIntended,
      LookupPath, FinalSegment, LookupsOnlyAlong, OnlyAlong, Shape, BeforeLast, Join, EntriesKept, FinalWalks;
    var m, d, b, key := CreateFromPathSplits(c, comps, mem, n);
    var last := comps[|comps| - 1];
    StandingParts(m, comps, |comps| - 1, d, mem, n, b);
    LastTwo(comps);
    FinalSegmentCorrect(m, comps, d, mem, n, b, EntryKey(last));
    var (r, e) := CreateAsIntended(c, mem, n).value;
    LookupPathIsWalk(r, comps);
    JoinNotEmpty(comps);
    FinalWalksAt(m, r, d, last, EntryKey(last), e, comps);
    OnlyAlongFinal(c, m, r, comps, d, last, e);
    LookupsFollowWalks(c, r, comps);
    SecondCall(r, comps, d, mem, n, e.value);
    WalkPrefixes(r, comps[..|comps| - 1]);
    forall k | 0 <= k < |comps|
      ensures WalkDir(r, comps[..k]).Some?
    {
      assert comps[..|comps| - 1][..k] == comps[..k];
    }
  }

  /** A walk that arrives has passed through a directory at every step. */
  lemma {:induction false} WalkPrefixes(c: State, comps: seq<seq<byte>>)
    requires Shape(c) && WalkDir(c, comps).Some?
    ensures forall k :: 0 <= k <= |comps| ==> WalkDir(c, comps[..k]).Some?
    decreases |comps|
  {
    hide Shape, EntryKey, Lookup;
    assert comps[..|comps|] == comps;
    if comps != [] {
      var init := comps[..|comps| - 1];
      WalkPrefixes(c, init);
      assert forall k :: 0 <= k <= |init| ==> init[..k] == comps[..k];
    }
  }

  /** The code does what is intended exactly when the last segment gets the right key. */
  lemma AsIntendedWhen(c: State, comps: seq<seq<byte>>, mem: seq<byte>, n: nat)
    requires Inv(c) && Shape(c) && Components(comps) && comps != []
    requires 1 <= n <= |mem| && mem[..n] == Join(comps) && n < TWO_TO_16
    requires CreateFromPath(c, mem, n).Done? || CreateAsIntended(c, mem, n).Done?
    ensures CreateFromPath(c, mem, n) == CreateAsIntended(c, mem, n) <==> LastKeyRight(c, comps)
  {
    hide Inv, Shape, WalkDir, Component, Components, EntryKey, Standing, CreateFromPath, CreateAsIntended,
      LookupPath, FinalSegment, LookupsOnlyAlong, OnlyAlong, LastKeyRight;
    var m, d, b, key := CreateFromPathSplits(c, comps, mem, n);
    if LastKeyRight(c, comps) {
      assert key == EntryKey(comps[|comps| - 1]) by { RightKey(c, comps, key); }
    } else if CreateFromPath(c, mem, n) == CreateAsIntended(c, mem, n) {
      CreateAsIntendedCorrect(c, comps, mem, n);
      EntryFoundWhen(c, comps, mem, n);
    }
  }

  lemma RightKey(c: State, comps: seq<seq<byte>>, key: Key)
    requires Shape(c) && comps != [] && LastKeyRight(c, comps)
    requires WalkDir(c, comps[..|comps| - 1]).None? ==> |comps| > 1
    requires key == if WalkDir(c, comps[..|comps| - 1]).Some? then EntryKey(comps[|comps| - 1])
             else EntryKey(comps[|comps| - 2])
    ensures key == EntryKey(comps[|comps| - 1])
  {}

  lemma EntryFoundWhen(c: State, comps: seq<seq<byte>>, mem: seq<byte>, n: nat)
    requires Inv(c) && Shape(c) && Components(comps) && comps != []
    requires 1 <= n <= |mem| && mem[..n] == Join(comps) && n < TWO_TO_16
    requires CreateFromPath(c, mem, n).Done?
    ensures var (r, e) := CreateFromPath(c, mem, n).value;
            && Inv(r) && Shape(r) && e.Some?
            && WalkDir(r, comps[..|comps| - 1]).Some?
            && (LookupPath(r, mem[..n]) == e <==> LastKeyRight(c, comps))
  {
    hide Inv, WalkDir, Walk, Component, Components, EntryKey, Lookup, Standing, CreateFromPath, LookupPath,
      FinalSegment, Shape, FinalWalks, Join, EntriesKept, BeforeLast, OnlyAlong, LastKeyRight;
    var m, d, b, key := CreateFromPathSplits(c, comps, mem, n);
    StandingParts(m, comps, |comps| - 1, d, mem, n, b);
    LastTwo(comps);
    FinalSegmentCorrect(m, comps, d, mem, n, b, key);
    var (r, e) := CreateFromPath(c, mem, n).value;
    LookupPathIsWalk(r, comps);
    JoinNotEmpty(comps);
    FinalWalk(c, m, r, comps, d, mem[b..][..KeyLength(key)], key, e);
  }

  /**
   Creation by full path as the code has it.  The entry it returns is the one LookupPath finds at that
   path exactly when LastKeyRight holds; then it does what is intended, and all that is proved of that
   holds.  Otherwise see CreateFromPathStale.
   */
  lemma CreateFromPathCorrect(c: State, comps: seq<seq<byte>>, mem: seq<byte>, n: nat)
    requires Inv(c) && Shape(c) && Components(comps) && comps != []
    requires 1 <= n <= |mem| && mem[..n] == Join(comps) && n < TWO_TO_16
    requires CreateFromPath(c, mem, n).Done?
    ensures var (r, e) := CreateFromPath(c, mem, n).value;
            && Inv(r) && Shape(r) && e.Some?
            && WalkDir(r, comps[..|comps| - 1]).Some?
            && (LookupPath(r, mem[..n]) == e <==> LastKeyRight(c, comps))
            && (LastKeyRight(c, comps) ==> CreateFromPath(r, mem, n) == Done((r, e)) && LookupsOnlyAlong(c, r, comps))
  {
    hide Inv, WalkDir, Components, Join, CreateFromPath, CreateAsIntended, LookupPath, LookupsOnlyAlong, Shape;
    EntryFoundWhen(c, comps, mem, n);
    if LastKeyRight(c, comps) {
      AsIntendedWhen(c, comps, mem, n);
      CreateAsIntendedCorrect(c, comps, mem, n);
      AsIntendedWhen(CreateFromPath(c, mem, n).value.0, comps, mem, n);
    }
  }

  /** The keys of the last two components. */
  lemma LastTwo(comps: seq<seq<byte>>)
    requires Components(comps) && comps != []
    ensures var last := comps[|comps| - 1];
            Component(last) && KeyLength(EntryKey(last)) == |last| > 0
    ensures |comps| > 1 ==> var prev := comps[|comps| - 2]; Component(prev) && KeyLength(EntryKey(prev)) == |prev| > 0
  {
    hide EntryKey;
    ComponentKey(comps[|comps| - 1]);
    if |comps| > 1 {
      ComponentKey(comps[|comps| - 2]);
    }
  }

  lemma FinalWalk(c: State, m: State, r: State, comps: seq<seq<byte>>, d: nat, s: seq<byte>, key: Key, e: Option<nat>)
    requires Shape(c) && Shape(m) && Shape(r) && Components(comps) && comps != []
    requires OnlyAlong(c, m, comps[..|comps| - 1])
    requires WalkDir(m, comps[..|comps| - 1]) == Some(d) && e.Some?
    requires key == if WalkDir(c, comps[..|comps| - 1]).Some? then EntryKey(comps[|comps| - 1])
             else EntryKey(comps[|comps| - 2])
    requires WalkDir(c, comps[..|comps| - 1]).None? ==> |comps| > 1
    requires key == EntryKey(comps[|comps| - 1]) ==> s == comps[|comps| - 1]
    requires FinalWalks(m, r, d, s, key, e)
    ensures Walk(r, comps) == e <==> LastKeyRight(c, comps)
  {
    hide WalkDir, EntryKey, Lookup, Shape, Components, FinalWalks;
    FinalWalksAt(m, r, d, s, key, e, comps);
    assert !(comps <= comps[..|comps| - 1]);
  }

  lemma OnlyAlongFinal(c: State, m: State, r: State, comps: seq<seq<byte>>, d: nat, last: seq<byte>, e: Option<nat>)
    requires Inv(m) && Shape(c) && Shape(m) && Shape(r) && Components(comps) && comps != [] &&
             last == comps[|comps| - 1]
    requires OnlyAlong(c, m, comps[..|comps| - 1])
    requires WalkDir(m, comps[..|comps| - 1]) == Some(d)
    requires FinalWalks(m, r, d, last, EntryKey(last), e)
    ensures OnlyAlong(c, r, comps)
  {
    hide Inv, WalkDir, Walk, EntryKey, Shape, Components, OnlyAlong, FinalWalks;
    OnlyAlongWiden(c, m, comps[..|comps| - 1], comps);
    FinalWalksAt(m, r, d, last, EntryKey(last), e, comps);
    forall q | Components(q)
      ensures WalkDir(r, q) == WalkDir(m, q)
    {
      FinalWalksAt(m, r, d, last, EntryKey(last), e, q);
    }
    forall q | Components(q) && q != []
      ensures Walk(r, q) == Walk(m, q) || (Walk(m, q) == None && q == comps)
    {
      FinalWalksAt(m, r, d, last, EntryKey(last), e, q);
      FinalWalkAt(m, r, comps, d, q, e);
    }
    OnlyAlongExtend(c, m, r, comps);
  }

  lemma FinalWalkAt(m: State, r: State, comps: seq<seq<byte>>, d: nat, q: seq<seq<byte>>, e: Option<nat>)
    requires Inv(m) && Shape(m) && Shape(r) && Components(comps) && Components(q) && comps != [] && q != []
    requires WalkDir(m, comps[..|comps| - 1]) == Some(d)
    requires (WalkDir(m, q[..|q| - 1]) == Some(d) && q[|q| - 1] == comps[|comps| - 1]) || Walk(r, q) == Walk(m, q)
    requires Walk(r, q) == e || Walk(r, q) == Walk(m, q)
    requires Walk(m, comps) == None || Walk(m, comps) == e
    ensures Walk(r, q) == Walk(m, q) || (Walk(m, q) == None && q == comps)
  {
    hide Inv, WalkDir, Walk, Shape, Components;
    if Walk(r, q) != Walk(m, q) {
      ComponentsInit(q);
      ComponentsInit(comps);
      WalkInjective(m, q[..|q| - 1], comps[..|comps| - 1]);
      assert q == q[..|q| - 1] + [q[|q| - 1]] && comps == comps[..|comps| - 1] + [comps[|comps| - 1]];
    }
  }

  lemma OnlyAlongExtend(c: State, m: State, r: State, comps: seq<seq<byte>>)
    requires Shape(c) && Shape(m) && Shape(r) && OnlyAlong(c, m, comps)
    requires forall q :: Components(q) ==> WalkDir(r, q) == WalkDir(m, q)
    requires forall q :: Components(q) && q != [] ==> Walk(r, q) == Walk(m, q) || (Walk(m, q) == None && q == comps)
    ensures OnlyAlong(c, r, comps)
  {
    hide WalkDir, Walk, Shape, Components;
  }

  lemma OnlyAlongWiden(c: State, r: State, a: seq<seq<byte>>, b: seq<seq<byte>>)
    requires Shape(c) && Shape(r)
    requires OnlyAlong(c, r, a) && a <= b
    ensures OnlyAlong(c, r, b)
  {
    hide Shape, WalkDir, Walk, Components;
  }

  lemma ComponentsInit(q: seq<seq<byte>>)
    requires Components(q) && q != []
    ensures Components(q[..|q| - 1])
  {}

  lemma SecondCall(r: State, comps: seq<seq<byte>>, d: nat, mem: seq<byte>, n: nat, e: nat)
    requires Inv(r) && Shape(r) && Components(comps) && comps != []
    requires 1 <= n <= |mem| && mem[..n] == Join(comps) && n < TWO_TO_16
    requires WalkDir(r, comps[..|comps| - 1]) == Some(d) && Walk(r, comps) == Some(e)
    ensures CreateAsIntended(r, mem, n) == Done((r, Some(e)))
  {
    hide Inv, WalkDir, EntryKey, Lookup, Shape, Component, LookupParent;
    LookupParentIsWalk(r, comps, mem[..n]);
    JoinNotEmpty(comps);
    assert mem[0] == mem[..n][0];
    var (parent, start) := LookupParent(r, mem[..n]);
    var last := comps[|comps| - 1];
    assert mem[start..n] == mem[..n][start..] == last;
    LastTwo(comps);
    InvWalkBound(r, comps[..|comps| - 1]);
    LookupTrims(r, d, mem[start..], EntryKey(last));
    assert mem[start..][..|last|] == last;
  }

  /**
   What a stale key changes: ancestors along `init` that were missing, and beneath them the name `s`,
   which a walk meets only if it is a component with that very key.
   */
  ghost predicate StaleChange(c: State, r: State, init: seq<seq<byte>>, s: seq<byte>, key: Key, e: Option<nat>)
    requires Shape(c) && Shape(r)
  {
    && (forall q :: Components(q) ==> WalkDir(r, q) == WalkDir(c, q) || (WalkDir(c, q) == None && q <= init))
    && (forall q :: Components(q) && q != [] ==>
          || Walk(r, q) == Walk(c, q)
          || (Walk(c, q) == None && q <= init)
          || (Walk(c, q) == None && q == init + [s] && EntryKey(s) == key && Walk(r, q) == e))
  }

  /**
   With a stale key the path itself is not found.  The directory above it now holds an entry with the
   previous component's key, named by as many bytes as that component has, taken from where the last
   component begins; nothing else has changed but the missing ancestors.
   */
  lemma CreateFromPathStale(c: State, comps: seq<seq<byte>>, mem: seq<byte>, n: nat)
    requires Inv(c) && Shape(c) && Components(comps) && comps != []
    requires 1 <= n <= |mem| && mem[..n] == Join(comps) && n < TWO_TO_16
    requires CreateFromPath(c, mem, n).Done? && !LastKeyRight(c, comps)
    ensures |comps| > 1
    ensures var (r, e) := CreateFromPath(c, mem, n).value;
            var init, prev := comps[..|comps| - 1], comps[|comps| - 2];
            var b := |Join(init)| + 1;
            && Inv(r) && Shape(r) && e.Some?
            && LookupPath(r, mem[..n]) == None
            && b + |prev| <= |mem| && WalkDir(r, init).Some?
            && var s := mem[b..][..|prev|];
               && Holds(r, WalkDir(r, init).value, e, s, EntryKey(prev))
               && StaleChange(c, r, init, s, EntryKey(prev), e)
               && (Component(s) && EntryKey(s) == EntryKey(prev) ==> Walk(r, init + [s]) == e)
  {
    hide Inv, WalkDir, Walk, Component, Components, EntryKey, Lookup, Standing, CreateFromPath, LookupPath,
      FinalSegment, Shape, OnlyAlong, Join, Holds, StaleChange, FinalWalks, EntriesKept, BeforeLast;
    EntryFoundWhen(c, comps, mem, n);
    var m, d, b, key := CreateFromPathSplits(c, comps, mem, n);
    var init := comps[..|comps| - 1];
    StandingParts(m, comps, |comps| - 1, d, mem, n, b);
    LastTwo(comps);
    FinalSegmentCorrect(m, comps, d, mem, n, b, key);
    FinalSegmentHolds(m, d, mem[b..], key);
    StandingBegin(m, comps, |comps| - 1, d, mem, n, b);
    var (r, e) := CreateFromPath(c, mem, n).value;
    var s := mem[b..][..KeyLength(key)];
    NothingBelowInit(c, m, comps);
    LookupPathIsWalk(r, comps);
    FinalWalksAt(m, r, d, s, key, e, comps);
    StaleChanges(c, m, r, init, d, s, key, e);
    if Component(s) && EntryKey(s) == key {
      ComponentsSnoc(init, s);
      assert (init + [s])[..|init|] == init;
      FinalWalksAt(m, r, d, s, key, e, init + [s]);
    }
  }

  lemma StaleChanges(c: State, m: State, r: State, init: seq<seq<byte>>, d: nat, s: seq<byte>, key: Key, e: Option<nat>)
    requires Inv(m) && Shape(c) && Shape(m) && Shape(r) && Components(init)
    requires OnlyAlong(c, m, init) && WalkDir(m, init) == Some(d) && WalkDir(c, init) == None
    requires FinalWalks(m, r, d, s, key, e)
    ensures StaleChange(c, r, init, s, key, e)
  {
    hide Inv, Shape, WalkDir, Walk, Components, EntryKey, OnlyAlong, FinalWalks;
    forall q | Components(q)
      ensures WalkDir(r, q) == WalkDir(c, q) || (WalkDir(c, q) == None && q <= init)
    {
      OnlyAlongAt(c, m, init, q);
      FinalWalksAt(m, r, d, s, key, e, q);
    }
    forall q | Components(q) && q != []
      ensures Walk(r, q) == Walk(c, q) || (Walk(c, q) == None && q <= init)
           || (Walk(c, q) == None && q == init + [s] && EntryKey(s) == key && Walk(r, q) == e)
    {
      OnlyAlongAt(c, m, init, q);
      FinalWalksAt(m, r, d, s, key, e, q);
      if Walk(r, q) != Walk(m, q) {
        ComponentsInit(q);
        WalkInjective(m, q[..|q| - 1], init);
        assert q == init + [s];
        WalkNeedsDir(c, q);
      }
    }
  }

  lemma OnlyAlongAt(c: State, m: State, init: seq<seq<byte>>, q: seq<seq<byte>>)
    requires Shape(c) && Shape(m) && OnlyAlong(c, m, init) && Components(q)
    ensures WalkDir(m, q) == WalkDir(c, q) || (WalkDir(c, q) == None && q <= init)
    ensures q != [] ==> Walk(m, q) == Walk(c, q) || (Walk(c, q) == None && q <= init)
  {
    hide Shape, WalkDir, Walk, Components;
  }

  lemma WalkNeedsDir(c: State, q: seq<seq<byte>>)
    requires Shape(c) && q != [] && WalkDir(c, q[..|q| - 1]) == None
    ensures Walk(c, q) == None
  {}

  lemma NothingBelowInit(c: State, m: State, comps: seq<seq<byte>>)
    requires Shape(c) && Shape(m) && Components(comps) && comps != []
    requires OnlyAlong(c, m, comps[..|comps| - 1]) && WalkDir(c, comps[..|comps| - 1]) == None
    ensures Walk(m, comps) == None
  {
    hide Shape, WalkDir, Lookup, Components;
    assert !(comps <= comps[..|comps| - 1]);
  }

  lemma ComponentsSnoc(a: seq<seq<byte>>, s: seq<byte>)
    requires Components(a) && Component(s)
    ensures Components(a + [s])
  {
    hide Component;
  }

  lemma StandingBegin(c: State, comps: seq<seq<byte>>, k: nat, d: nat, mem: seq<byte>, n: nat, b: nat)
    requires Standing(c, comps, k, d, mem, n, b)
    ensures k <= |comps| && b == |Join(comps[..k])| + 1
  {
    hide Inv, WalkDir;
  }

  const LETTER_A: byte := 97
  const LETTER_B: byte := 98

  /** "/a/ab" with no "a" in the root: what appears is "/a/a". */
  lemma StaleKeyExample(c: State)
    requires Inv(c) && Shape(c) && WalkDir(c, [[LETTER_A]]) == None
    requires CreateFromPath(c, [SLASH, LETTER_A, SLASH, LETTER_A, LETTER_B, 0], 5).Done?
    ensures var (r, e) := CreateFromPath(c, [SLASH, LETTER_A, SLASH, LETTER_A, LETTER_B, 0], 5).value;
            && Inv(r) && Shape(r)
            && LookupPath(r, [SLASH, LETTER_A, SLASH, LETTER_A, LETTER_B]) == None
            && LookupPath(r, [SLASH, LETTER_A, SLASH, LETTER_A]) == e && e.Some?
  {
    hide Inv, WalkDir, Walk, EntryKey, CreateFromPath, LookupPath, Shape;
    var mem: seq<byte> := [SLASH, LETTER_A, SLASH, LETTER_A, LETTER_B, 0];
    var a: seq<byte> := [LETTER_A];
    var comps := [a, [LETTER_A, LETTER_B]];
    assert comps[..1] == [a];
    assert [a][..0] == [];
    assert Join([a]) == [SLASH, LETTER_A];
    assert Join(comps) == Join(comps[..1]) + [SLASH] + comps[1];
    assert mem[..5] == Join(comps);
    assert Component(a) && Component(comps[1]);
    ComponentKey(a);
    ComponentKey(comps[1]);
    CreateFromPathStale(c, comps, mem, 5);
    var (r, e) := CreateFromPath(c, mem, 5).value;
    assert mem[3..][..1] == a;
    assert [a] + [a] == [a, a] && [a, a][..1] == [a];
    assert Join([a, a]) == Join([a, a][..1]) + [SLASH] + a == [SLASH, LETTER_A, SLASH, LETTER_A];
    LookupPathIsWalk(r, [a, a]);
    assert mem[..5] == [SLASH, LETTER_A, SLASH, LETTER_A, LETTER_B];
  }
}
