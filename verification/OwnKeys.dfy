/**
 Names in a directory.  Entries are told apart by key and name, so a name can occur twice under two
 keys; it does not while every entry has its own name's key.
 */
module OwnKeys {
  import opened Outcomes
  import opened Crc32c
  import opened NameCache
  import opened DirectoryTree
  import opened PathCreation
  import opened CacheRuns

  ghost predicate HasOwnKey(c: State, e: nat)
    requires NameCache.WellFormed(c.names) && e < |c.meta| && Named(c, e)
  {
    c.meta[e].key == EntryKey(EntryName(c, e))
  }

  /** Every entry in use has the key of its name. */
  ghost predicate KeysOwn(c: State)
    requires Inv(c)
  {
    forall d: nat, e: nat :: Owns(c, d, e) ==> e < |c.meta| && Named(c, e) && HasOwnKey(c, e)
  }

  /** Then no directory holds a name twice. */
  ghost predicate NamesUnique(c: State)
    requires Inv(c)
  {
    forall d: nat, e: nat, f: nat :: Owns(c, d, e) && Owns(c, d, f) && e != f ==>
      e < |c.meta| && f < |c.meta| && Named(c, e) && Named(c, f) && EntryName(c, e) != EntryName(c, f)
  }

  lemma OwnKeysUnique(c: State)
    requires Inv(c) && KeysOwn(c)
    ensures NamesUnique(c)
  {
    hide Inv, EntryKey;
    InvShape(c);
    forall d: nat, e: nat, f: nat | Owns(c, d, e) && Owns(c, d, f) && e != f
      ensures e < |c.meta| && f < |c.meta| && Named(c, e) && Named(c, f) && EntryName(c, e) != EntryName(c, f)
    {
      SlicesApart(c, d, d, e, f);
    }
  }

  /** An addition keeps the keys right exactly when the new entry gets its own name's key. */
  lemma AddedOwnKey(c: State, r: State, d: nat, e: nat, name: seq<byte>, key: Key)
    requires AddedTo(c, r, d, e, name, key) && Inv(c) && Inv(r) && KeysOwn(c)
    ensures KeysOwn(r) <==> key == EntryKey(name)
  {
    hide Inv, Grown, Owns, NewDirsEmpty, EntryKey, Lookup, NameCache.WellFormed, Stored;
    AddedFacts(c, r, d, e, name, key);
    InvNames(c);
    InvNames(r);
    assert HasOwnKey(r, e) <==> key == EntryKey(name);
    forall x: nat, f: nat | Owns(r, x, f) && f != e
      ensures f < |r.meta| && Named(r, f) && HasOwnKey(r, f)
    {
      assert Owns(c, x, f) && HasOwnKey(c, f);
    }
  }

  lemma AddedFacts(c: State, r: State, d: nat, e: nat, name: seq<byte>, key: Key)
    requires AddedTo(c, r, d, e, name, key)
    ensures Inv(c) && Inv(r) && Owns(r, d, e) && |r.meta| == |c.meta|
    ensures e < |r.meta| && Named(r, e) && EntryName(r, e) == name && r.meta[e].key == key
    ensures forall x: nat, f: nat :: Owns(r, x, f) && f != e ==> Owns(c, x, f)
    ensures forall x: nat, f: nat :: Owns(c, x, f) ==>
            && Owns(r, x, f) && f != e && f < |c.meta| && Named(c, f) && Named(r, f)
            && EntryName(r, f) == EntryName(c, f) && r.meta[f] == c.meta[f]
  {
    hide Inv, Owns, Grown, NewDirsEmpty, EntryKey, Lookup, Stored, Extends, NameCache.Valid, NameCache.WellFormed;
    var ptr := r.meta[e].name;
    AddedShape(c, r, d, e, name, key);
    GrownOwns(c, r, d, e, ptr, key);
    GrownNames(c, r, d, e, ptr, key);
    GrownParts(c, r, d, e, ptr, key);
  }

  lemma AddedShape(c: State, r: State, d: nat, e: nat, name: seq<byte>, key: Key)
    requires AddedTo(c, r, d, e, name, key)
    ensures Inv(c) && Inv(r) && Shape(c) && Shape(r) && d < c.dirsSize && NewDirsEmpty(c, r)
  {
    hide Inv;
    InvShape(c);
    InvShape(r);
  }

  lemma CreateEntryOwnKey(c: State, d: nat, name: seq<byte>, key: Key)
    requires Inv(c) && Shape(c) && KeysOwn(c) && d < c.dirsSize && 0 < KeyLength(key) <= |name|
    requires CreateEntry(c, d, name, key).Done?
    ensures var (r, e) := CreateEntry(c, d, name, key).value;
            Inv(r) && (KeysOwn(r) <==> e == None || key == EntryKey(name[..KeyLength(key)]))
  {
    hide Inv, Shape, AddedTo, EntryKey, Lookup, CreateEntry, KeysOwn;
    CreateEntryKeepsInv(c, d, name, key);
    CreateEntryAdds(c, d, name, key);
    var (r, e) := CreateEntry(c, d, name, key).value;
    if e.Some? {
      AddedOwnKey(c, r, d, e.value, name[..KeyLength(key)], key);
    }
  }

  lemma SubdirectoryOwnKey(c: State, d: nat, name: seq<byte>, key: Key)
    requires Inv(c) && Shape(c) && KeysOwn(c) && d < c.dirsSize && 0 < KeyLength(key) <= |name|
    requires Component(name[..KeyLength(key)]) && key == EntryKey(name[..KeyLength(key)])
    requires Subdirectory(c, d, name, key).Done?
    ensures var r := Subdirectory(c, d, name, key).value.0; Inv(r) && KeysOwn(r)
  {
    hide Inv, Shape, AddedTo, EntryKey, Component, Lookup, Subdirectory, KeysOwn;
    SubdirectoryKeepsInv(c, d, name, key);
    SubdirectoryAdds(c, d, name, key);
    if Lookup(c, d, name, key).None? {
      var (r, e) := Subdirectory(c, d, name, key).value;
      AddedOwnKey(c, r, d, e.value, name[..KeyLength(key)], key);
    }
  }

  lemma {:induction false} MakeAncestorsOwnKey(c: State, comps: seq<seq<byte>>, k: nat, d: nat, mem: seq<byte>, n: nat,
                                               b: nat, key: Key)
    requires Standing(c, comps, k, d, mem, n, b) && k < |comps| && Inv(c) && KeysOwn(c)
    requires Shape(c) && d < c.dirsSize && b <= n <= |mem|
    requires MakeAncestors(c, d, mem, n, b, key).Done?
    ensures var r := MakeAncestors(c, d, mem, n, b, key).value.c; Inv(r) && KeysOwn(r)
    decreases |comps| - k
  {
    hide Inv, Shape, MakeAncestors, WalkDir, EntryKey, Subdirectory, OnlyAlong, Standing, Component, Components, Join,
      KeysOwn;
    StandingParts(c, comps, k, d, mem, n, b);
    if k == |comps| - 1 {
      AncestorsLast(c, comps, d, mem, n, b, key);
    } else {
      var r, x, b1 := AncestorsNext(c, comps, k, d, mem, n, b, key);
      ComponentKey(comps[k]);
      SubdirectoryOwnKey(c, d, mem[b..], EntryKey(comps[k]));
      MakeAncestorsOwnKey(r, comps, k + 1, x, mem, n, b1, EntryKey(comps[k]));
    }
  }

  lemma BeforeLastOwnKey(c: State, comps: seq<seq<byte>>, mem: seq<byte>, n: nat)
    requires Inv(c) && Shape(c) && KeysOwn(c) && Components(comps) && comps != []
    requires 1 <= n <= |mem| && mem[..n] == Join(comps) && n < TWO_TO_16
    requires BeforeLast(c, mem, n).Done?
    ensures var r := BeforeLast(c, mem, n).value.c; Inv(r) && KeysOwn(r)
  {
    hide Inv, Shape, KeysOwn, WalkDir, Component, Components, EntryKey, Standing, MakeAncestors, LookupParent, Join;
    RootStanding(c, comps, mem, n);
    if LookupParent(c, mem[..n]).0.None? {
      MakeAncestorsOwnKey(c, comps, 0, RootDir(c), mem, n, 1, 0);
    }
  }

  /** The last segment gets the key of its name, or some entry does not have its own. */
  lemma FinalSegmentOwnKey(m: State, d: nat, name: seq<byte>, key: Key)
    requires Inv(m) && Shape(m) && KeysOwn(m) && d < m.dirsSize && KeyLength(key) > 0
    requires FinalSegment(m, d, name, key).Done?
    ensures KeyLength(key) <= |name|
    ensures var r := FinalSegment(m, d, name, key).value.0;
            Inv(r) && (KeysOwn(r) <==> key == EntryKey(name[..KeyLength(key)]))
  {
    hide Inv, Shape, EntryKey, Lookup, CreateEntry, Owns;
    match Lookup(m, d, name, key) {
      case Some(f) =>
        LookupIsMap(m, d, name, key);
        InvNames(m);
        assert HasOwnKey(m, f);
      case None =>
        CreateEntryOwnKey(m, d, name, key);
        CreateEntryAdds(m, d, name, key);
    }
  }

  /** The bytes a stale key takes for the last component, and whether it is their key. */
  predicate StaleNameFits(comps: seq<seq<byte>>, mem: seq<byte>) {
    && |comps| > 1
    && var b := |Join(comps[..|comps| - 1])| + 1;
       var prev := comps[|comps| - 2];
       b + |prev| <= |mem| && EntryKey(mem[b..b + |prev|]) == EntryKey(prev)
  }

  /**
   Creation by path as the code has it keeps the keys right exactly when the last one is, or fits the
   bytes it takes.
   */
  lemma CreateFromPathOwnKey(c: State, comps: seq<seq<byte>>, mem: seq<byte>, n: nat)
    requires Inv(c) && Shape(c) && KeysOwn(c) && Components(comps) && comps != []
    requires 1 <= n <= |mem| && mem[..n] == Join(comps) && n < TWO_TO_16
    requires CreateFromPath(c, mem, n).Done?
    ensures var r := CreateFromPath(c, mem, n).value.0;
            Inv(r) && (KeysOwn(r) <==> LastKeyRight(c, comps) || StaleNameFits(comps, mem))
  {
    hide Inv, Shape, KeysOwn, WalkDir, Component, Components, EntryKey, Standing, CreateFromPath, FinalSegment,
      OnlyAlong, EntriesKept, Join, BeforeLast;
    var m, d, b, key := CreateFromPathSplits(c, comps, mem, n);
    BeforeLastOwnKey(c, comps, mem, n);
    StandingParts(m, comps, |comps| - 1, d, mem, n, b);
    StandingBegin(m, comps, |comps| - 1, d, mem, n, b);
    LastTwo(comps);
    FinalSegmentOwnKey(m, d, mem[b..], key);
    if WalkDir(c, comps[..|comps| - 1]).None? {
      var prev := comps[|comps| - 2];
      assert mem[b..][..|prev|] == mem[b..b + |prev|];
    }
  }

  lemma CreateAsIntendedOwnKey(c: State, comps: seq<seq<byte>>, mem: seq<byte>, n: nat)
    requires Inv(c) && Shape(c) && KeysOwn(c) && Components(comps) && comps != []
    requires 1 <= n <= |mem| && mem[..n] == Join(comps) && n < TWO_TO_16
    requires CreateAsIntended(c, mem, n).Done?
    ensures var r := CreateAsIntended(c, mem, n).value.0; Inv(r) && Shape(r) && KeysOwn(r)
  {
    hide Inv, Shape, KeysOwn, WalkDir, Component, Components, EntryKey, Standing, CreateAsIntended, FinalSegment,
      OnlyAlong, EntriesKept, Join, BeforeLast;
    var m, d, b, key := CreateFromPathSplits(c, comps, mem, n);
    BeforeLastOwnKey(c, comps, mem, n);
    StandingParts(m, comps, |comps| - 1, d, mem, n, b);
    LastTwo(comps);
    FinalSegmentOwnKey(m, d, mem[b..], EntryKey(comps[|comps| - 1]));
    InvShape(CreateAsIntended(c, mem, n).value.0);
  }

  // Runs

  /** The step with creation by path as intended. */
  function IntendedStep(c: State, op: Op): Outcome<(State, Option<nat>)>
    requires Shape(c) && OpOk(op)
  {
    match op
    case MakePath(comps, beyond) => CreateAsIntended(c, Join(comps) + beyond, |Join(comps)|)
    case _ => Step(c, op)
  }

  lemma IntendedStepOwnKey(c: State, op: Op)
    requires Inv(c) && Shape(c) && KeysOwn(c) && OpOk(op) && IntendedStep(c, op).Done?
    ensures var r := IntendedStep(c, op).value.0; Inv(r) && Shape(r) && KeysOwn(r)
  {
    hide Inv, Shape, KeysOwn, Component, Components, EntryKey, CreateEntry, Subdirectory, CreateFromPath,
      CreateAsIntended, Join;
    match op {
      case MakePath(comps, beyond) =>
        JoinNotEmpty(comps);
        assert (Join(comps) + beyond)[..|Join(comps)|] == Join(comps);
        CreateAsIntendedOwnKey(c, comps, Join(comps) + beyond, |Join(comps)|);
      case _ => DirectStepOwnKey(c, op);
    }
  }

  lemma DirectStepOwnKey(c: State, op: Op)
    requires Inv(c) && Shape(c) && KeysOwn(c) && OpOk(op) && !op.MakePath? && Step(c, op).Done?
    ensures var r := Step(c, op).value.0; Inv(r) && Shape(r) && KeysOwn(r)
  {
    hide Inv, Shape, KeysOwn, Component, EntryKey, CreateEntry, Subdirectory;
    StepShape(c, op);
    ComponentKey(op.name);
    match op {
      case MakeDirectory(d, name) => SubdirectoryOwnKey(c, d, name, EntryKey(name));
      case MakeEntry(d, name) => CreateEntryOwnKey(c, d, name, EntryKey(name));
    }
  }

  /** A step of the code keeps the keys right unless it creates a path whose last key is stale and does not fit. */
  lemma StepOwnKey(c: State, op: Op)
    requires Inv(c) && Shape(c) && KeysOwn(c) && OpOk(op) && Step(c, op).Done?
    ensures var r := Step(c, op).value.0;
            Inv(r) && (KeysOwn(r) <==>
              !op.MakePath? || LastKeyRight(c, op.comps) || StaleNameFits(op.comps, Join(op.comps) + op.beyond))
  {
    hide Inv, Shape, KeysOwn, Component, Components, EntryKey, CreateEntry, Subdirectory, CreateFromPath, Join,
      LastKeyRight, StaleNameFits;
    match op {
      case MakePath(comps, beyond) =>
        JoinNotEmpty(comps);
        assert (Join(comps) + beyond)[..|Join(comps)|] == Join(comps);
        CreateFromPathOwnKey(c, comps, Join(comps) + beyond, |Join(comps)|);
      case _ => DirectStepOwnKey(c, op);
    }
  }

  function IntendedRun(c: State, ops: seq<Op>): Outcome<State>
    requires Inv(c) && Shape(c) && KeysOwn(c) && OpsOk(ops)
    decreases |ops|
  {
    hide Inv, Shape, KeysOwn, OpOk, IntendedStep;
    if ops == [] then Done(c)
    else
      assert OpOk(ops[0]);
      var (c1, _) :- IntendedStep(c, ops[0]);
      IntendedStepOwnKey(c, ops[0]);
      IntendedRun(c1, ops[1..])
  }

  lemma {:induction false} IntendedRunOwnKey(c: State, ops: seq<Op>)
    requires Inv(c) && Shape(c) && KeysOwn(c) && OpsOk(ops) && IntendedRun(c, ops).Done?
    ensures var r := IntendedRun(c, ops).value; Inv(r) && Shape(r) && KeysOwn(r)
    decreases |ops|
  {
    hide Inv, Shape, KeysOwn, OpOk, IntendedStep;
    if ops != [] {
      assert OpOk(ops[0]);
      IntendedStepOwnKey(c, ops[0]);
      IntendedRunOwnKey(IntendedStep(c, ops[0]).value.0, ops[1..]);
    }
  }

  /**
   From an initial state with the root's slot taken, after every run of creations with paths created as
   intended, every entry has its own name's key and no directory holds a name twice.
   */
  lemma NamesUniqueAfterEveryRun(nodes: seq<Node>, text: seq<byte>, entries: nat, dirs: seq<Dir>, toc: seq<TocEntry>,
                                 metadataSize: nat, ops: seq<Op>)
    requires |nodes| > 0 && |dirs| > 0 && 1 <= metadataSize <= entries
    requires InitialState(nodes, text, entries, dirs, toc, metadataSize).Done? && OpsOk(ops)
    ensures var c := InitialState(nodes, text, entries, dirs, toc, metadataSize).value;
            && Inv(c) && Shape(c) && KeysOwn(c)
            && (IntendedRun(c, ops).Done? ==>
                  var r := IntendedRun(c, ops).value;
                  Inv(r) && KeysOwn(r) && NamesUnique(r))
  {
    hide Inv, Shape, NamesUnique, InitialState, IntendedRun, OpOk, HasOwnKey;
    InitialInvariant(nodes, text, entries, dirs, toc, metadataSize);
    var c := InitialState(nodes, text, entries, dirs, toc, metadataSize).value;
    assert forall d: nat, e: nat :: !Owns(c, d, e);
    if IntendedRun(c, ops).Done? {
      IntendedRunOwnKey(c, ops);
      OwnKeysUnique(IntendedRun(c, ops).value);
    }
  }

  // A name that occurs twice

  const LETTER_C: byte := 99
  const LETTER_X: byte := 120
  const XX: seq<byte> := [LETTER_X, LETTER_X]
  const AB: seq<byte> := [LETTER_A, LETTER_B]
  const ABC: seq<byte> := [LETTER_A, LETTER_B, LETTER_C]

  lemma CrcOfTwo(c: bv32, a: byte, b: byte)
    ensures Crc(c, [a, b]) == Update(Update(c, a), b)
  {
    hide Update;
    assert [a, b][1..] == [b] && [b][1..] == [];
    assert Crc(Update(c, a), [b]) == Crc(Update(Update(c, a), b), [b][1..]);
  }

  lemma UpdatesOfXX()
    ensures Update(0xFFFF_FFFF, 120) == 0x56C3_A06C && Update(0x56C3_A06C, 120) == 0xD792_93D0
  {}

  lemma UpdatesOfAB()
    ensures Update(0xFFFF_FFFF, 97) == 0x3E2F_BCCF && Update(0x3E2F_BCCF, 98) == 0x1D5D_D6C9
  {}

  lemma LowHalves()
    ensures LowHalf(0xD792_93D0) == 0x93D0 && LowHalf(0x1D5D_D6C9) == 0xD6C9
  {}

  /** The names "xx" and "ab" have different keys. */
  lemma KeysDiffer()
    ensures EntryKey(XX) == 0x2_93D0 && EntryKey(AB) == 0x2_D6C9
  {
    hide Update, LowHalf, Crc;
    CrcOfTwo(INITIAL, LETTER_X, LETTER_X);
    CrcOfTwo(INITIAL, LETTER_A, LETTER_B);
    UpdatesOfXX();
    UpdatesOfAB();
    LowHalves();
  }

  lemma ComponentsHere()
    ensures Component(XX) && Component(AB) && Component(ABC)
    ensures Components([XX, AB]) && Components([XX, ABC]) && Components([XX])
    ensures Join([XX]) == [SLASH] + XX
    ensures Join([XX, ABC]) == [SLASH] + XX + [SLASH] + ABC && Join([XX, AB]) == [SLASH] + XX + [SLASH] + AB
    ensures [XX, ABC][..1] == [XX] && [XX, AB][..1] == [XX]
  {
    assert [XX][..0] == [];
    assert Join([]) == [];
  }

  /** Creating "/xx/abc" with no "xx" in the root leaves an entry "ab" in "/xx", under the key of "xx". */
  lemma FirstAB(c: State, mem: seq<byte>) returns (d: nat, e: nat)
    requires Inv(c) && Shape(c) && WalkDir(c, [XX]) == None
    requires |mem| == 8 && mem == Join([XX, ABC]) + [0] && CreateFromPath(c, mem, 7).Done?
    ensures var r := CreateFromPath(c, mem, 7).value.0;
            Inv(r) && Shape(r) && WalkDir(r, [XX]) == Some(d) && Holds(r, d, Some(e), AB, EntryKey(XX))
  {
    hide Inv, Shape, WalkDir, Walk, EntryKey, CreateFromPath, LookupPath, Holds, StaleChange, Component, Components,
      Join;
    ComponentsHere();
    KeyLengthsDiffer();
    var comps := [XX, ABC];
    assert mem[..7] == Join(comps);
    CreateFromPathStale(c, comps, mem, 7);
    assert mem[4..][..2] == AB;
    var r := CreateFromPath(c, mem, 7).value.0;
    d, e := WalkDir(r, [XX]).value, CreateFromPath(c, mem, 7).value.1.value;
  }

  lemma KeyLengthsDiffer()
    ensures EntryKey(XX) != EntryKey(ABC)
  {
    hide EntryKey;
    assert KeyLength(EntryKey(XX)) == 2 && KeyLength(EntryKey(ABC)) == 3;
  }

  /** Creating "/xx/ab" then adds a second entry "ab", under its own key. */
  lemma SecondAB(c: State, mem: seq<byte>, d: nat, e: nat) returns (f: nat)
    requires Inv(c) && Shape(c) && WalkDir(c, [XX]) == Some(d) && Holds(c, d, Some(e), AB, EntryKey(XX))
    requires |mem| == 7 && mem == Join([XX, AB]) + [0] && CreateFromPath(c, mem, 6).Done?
    ensures var r := CreateFromPath(c, mem, 6).value.0;
            Holds(r, d, Some(e), AB, EntryKey(XX)) && Holds(r, d, Some(f), AB, EntryKey(AB))
  {
    hide Inv, Shape, WalkDir, EntryKey, CreateFromPath, FinalSegment, Holds, Component, Components, Join, Standing,
      OnlyAlong, EntriesKept, BeforeLast;
    ComponentsHere();
    var comps := [XX, AB];
    assert mem[..6] == Join(comps);
    var m, x, b, key := CreateFromPathSplits(c, comps, mem, 6);
    LastTwo(comps);
    StandingParts(m, comps, 1, x, mem, 6, b);
    FinalSegmentHolds(c, d, mem[b..], key);
    FinalSegmentKeepsHeld(c, d, mem[b..], key, d, e, AB, EntryKey(XX));
    HoldsSome(CreateFromPath(c, mem, 6).value.0, d, CreateFromPath(c, mem, 6).value.1, AB, EntryKey(AB));
    f := CreateFromPath(c, mem, 6).value.1.value;
  }

  lemma HoldsSome(r: State, d: nat, e: Option<nat>, s: seq<byte>, key: Key)
    requires Holds(r, d, e, s, key)
    ensures Inv(r) && e.Some?
  {}

  lemma FinalSegmentKeepsHeld(c: State, d: nat, name: seq<byte>, key: Key, x: nat, e: nat, s: seq<byte>, k: Key)
    requires Inv(c) && Shape(c) && d < c.dirsSize && KeyLength(key) > 0 && FinalSegment(c, d, name, key).Done?
    requires Holds(c, x, Some(e), s, k)
    ensures Holds(FinalSegment(c, d, name, key).value.0, x, Some(e), s, k)
  {
    hide Inv, Shape, EntryKey, Lookup, CreateEntry, Owns, AddedTo;
    if Lookup(c, d, name, key).None? {
      CreateEntryAdds(c, d, name, key);
      var (r, f) := CreateEntry(c, d, name, key).value;
      AddedFacts(c, r, d, f.value, name[..KeyLength(key)], key);
    }
  }

  /** A run of the code after which one directory holds two entries of one name. */
  lemma NameTwice(c: State) returns (d: nat, e: nat, f: nat)
    requires Inv(c) && Shape(c) && WalkDir(c, [XX]) == None
    requires OpsOk([MakePath([XX, ABC], [0]), MakePath([XX, AB], [0])])
    requires Run(c, [MakePath([XX, ABC], [0]), MakePath([XX, AB], [0])]).Done?
    ensures var r := Run(c, [MakePath([XX, ABC], [0]), MakePath([XX, AB], [0])]).value;
            && Inv(r) && !NamesUnique(r) && e != f
            && Holds(r, d, Some(e), AB, EntryKey(XX)) && Holds(r, d, Some(f), AB, EntryKey(AB))
  {
    hide Inv, Shape, WalkDir, EntryKey, CreateFromPath, Component, Components, Join, OpOk, Holds, NamesUnique;
    ComponentsHere();
    var ops := [MakePath([XX, ABC], [0]), MakePath([XX, AB], [0])];
    assert ops[1..] == [ops[1]] && ops[1..][1..] == [];
    assert ops[0] in ops && ops[1] in ops;
    var c1 := Step(c, ops[0]).value.0;
    StepShape(c, ops[0]);
    d, e := FirstAB(c, Join([XX, ABC]) + [0]);
    f := SecondAB(c1, Join([XX, AB]) + [0], d, e);
    StepShape(c1, ops[1]);
    assert Run(c, ops) == Run(c1, [ops[1]]) == Run(Step(c1, ops[1]).value.0, []);
    TwoOfOneName(Run(c, ops).value, d, e, f);
  }

  lemma TwoOfOneName(r: State, d: nat, e: nat, f: nat)
    requires Holds(r, d, Some(e), AB, EntryKey(XX)) && Holds(r, d, Some(f), AB, EntryKey(AB))
    ensures Inv(r) && e != f && !NamesUnique(r)
  {
    hide Inv, EntryKey, Owns;
    KeysDiffer();
  }
}
