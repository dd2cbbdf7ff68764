/** File names, which a directory keeps apart as long as dir_add's scans see enough of it (filesys/directory.c). What
    FileOps says of sectors holds in every run; what is said here of names needs, at each dir_add, that its scans were not
    cut short to harm. */
module FileNames {
  import opened Options
  import opened FileSystem
  import opened FileOps

  // ----- one call of dir_add

  /** The directory after dir_add. */
  function Added(dir: seq<Entry>, name: Name, sector: nat, seenNames: nat, seenSlots: nat, written: bool): seq<Entry> {
    var slot := AddSlot(dir, name, seenNames, seenSlots, written);
    if slot.Some? then dir[slot.value := Entry(true, name, sector)] else dir
  }

  predicate EntriesKept(dir: seq<Entry>, after: seq<Entry>) {
    |after| == |dir| && forall i :: 0 <= i < |dir| && dir[i].inUse ==> after[i] == dir[i]
  }

  /** dir_add refuses the name or cannot write; or the directory is full and seen to be; or the name is new and the scan
      for a free slot reaches the first one. */
  predicate Harmless(dir: seq<Entry>, name: Name, seenNames: nat, seenSlots: nat, written: bool) {
    var found, free := Lookup(dir, name, 0), FreeSlot(dir, 0);
    || !ValidName(name) || !written
    || (found.Some? && found.value < seenNames)
    || (free == |dir| && |dir| <= seenSlots)
    || (found.None? && free <= seenSlots)
  }

  /** dir_add keeps every entry, and names apart, exactly when its scans were harmless. */
  lemma HarmlessIff(dir: seq<Entry>, name: Name, sector: nat, seenNames: nat, seenSlots: nat, written: bool)
    requires NamesUnique(dir) && !InDir(dir, sector)
    ensures var after := Added(dir, name, sector, seenNames, seenSlots, written);
            NamesUnique(after) && EntriesKept(dir, after) <==> Harmless(dir, name, seenNames, seenSlots, written)
  {
    hide Lookup, FreeSlot, Seen;
    LookupSeen(dir, name, seenNames);
    FreeSlotSeen(dir, seenSlots);
    var after := Added(dir, name, sector, seenNames, seenSlots, written);
    var slot := AddSlot(dir, name, seenNames, seenSlots, written);
    if slot.Some? {
      var i := slot.value;
      assert after[i] == Entry(true, name, sector);
      if dir[i].inUse {
        assert dir[i].sector != sector;
      } else if Lookup(dir, name, 0).Some? {
        var j := Lookup(dir, name, 0).value;
        assert after[j].inUse && after[j].name == after[i].name && i != j;
      }
    }
  }

  /** With every read served, dir_add is harmless. */
  lemma FullScansHarmless(dir: seq<Entry>, name: Name, seenNames: nat, seenSlots: nat, written: bool)
    requires |dir| <= seenNames && |dir| <= seenSlots
    ensures Harmless(dir, name, seenNames, seenSlots, written)
  {
  }

  /** A short read on the first slot makes dir_add overwrite the file that is there. */
  lemma ShortReadOverwrites()
    ensures var dir := [Entry(true, [97], 5)];
            DirOk(dir) && Lookup(Added(dir, [98], 7, 1, 0, true), [97], 0) == None
  {
  }

  /** One that hides a name makes it add the name again. */
  lemma ShortReadDoubles()
    ensures var dir := [Entry(true, [97], 5), Entry(false, [], 0)];
            DirOk(dir) && !NamesUnique(Added(dir, [97], 7, 0, 2, true))
  {
    var dir := [Entry(true, [97], 5), Entry(false, [], 0)];
    assert Seen(dir, 2) == dir && Seen(dir, 0) == [];
    assert FreeSlot(dir, 0) == FreeSlot(dir, 1) == 1;
    var after := Added(dir, [97], 7, 0, 2, true);
    assert after[0].name == after[1].name;
  }

  // ----- runs

  /** Names are apart, and every open file that was not removed has one. */
  ghost predicate Tidy(s: State) {
    NamesUnique(s.dir) && forall f: nat :: f in s.open && f > ROOT_DIR && !s.open[f].removed ==> InDir(s.dir, f)
  }

  /** A call's scans do no harm: only dir_add's can, and only if the call gets as far as writing. */
  ghost predicate StepHarmless(s: State, act: Action) {
    act.DoCreate? && Create(s, act.name, act.size, act.create).1 ==>
      Harmless(s.dir, act.name, act.create.seenNames, act.create.seenSlots, act.create.entryWritten)
  }

  /** The directory after a create, and that it adds a sector no entry had. */
  lemma CreateDir(s: State, name: Name, size: nat, env: CreateEnv)
    requires Inv(s)
    ensures var (t, ok) := Create(s, name, size, env);
            && t.open == s.open
            && (!ok ==> t.dir == s.dir)
            && (ok ==>
                  var a := Allocate(s.freeMap, 1, env.sectorWritten);
                  && a.Some? && a.value > ROOT_DIR && !InDir(s.dir, a.value) && env.entryWritten
                  && AddSlot(s.dir, name, env.seenNames, env.seenSlots, true).Some?
                  && t.dir == Added(s.dir, name, a.value, env.seenNames, env.seenSlots, true))
  {
    hide Allocate, Inv, Lookup, FreeSlot, Seen;
    if Create(s, name, size, env).1 {
      UnmarkedFree(s, Allocate(s.freeMap, 1, env.sectorWritten).value);
    }
  }

  /** A create keeps names apart and every entry in place exactly when it fails or its scans were harmless. */
  lemma CreateTidyIff(s: State, name: Name, size: nat, env: CreateEnv)
    requires Inv(s) && NamesUnique(s.dir)
    ensures var t := Create(s, name, size, env).0;
            NamesUnique(t.dir) && EntriesKept(s.dir, t.dir) <==> StepHarmless(s, DoCreate(name, size, env))
  {
    hide Create, Inv, Lookup, FreeSlot, Seen, Allocate, Added, NamesUnique, AddSlot, InDir;
    CreateDir(s, name, size, env);
    if Create(s, name, size, env).1 {
      HarmlessIff(s.dir, name, Allocate(s.freeMap, 1, env.sectorWritten).value, env.seenNames, env.seenSlots, true);
    }
  }

  lemma KeptInDir(dir: seq<Entry>, after: seq<Entry>, f: nat)
    requires EntriesKept(dir, after) && InDir(dir, f)
    ensures InDir(after, f)
  {
    var i :| 0 <= i < |dir| && dir[i].inUse && dir[i].sector == f;
    assert after[i].inUse && after[i].sector == f;
  }

  lemma CreateTidy(s: State, name: Name, size: nat, env: CreateEnv)
    requires Inv(s) && Tidy(s) && StepHarmless(s, DoCreate(name, size, env))
    ensures Tidy(Create(s, name, size, env).0)
  {
    hide Create, Inv, Lookup, FreeSlot, NamesUnique, InDir, EntriesKept, StepHarmless;
    CreateDir(s, name, size, env);
    CreateTidyIff(s, name, size, env);
    var t := Create(s, name, size, env).0;
    forall f: nat | f in t.open && f > ROOT_DIR && !t.open[f].removed ensures InDir(t.dir, f) {
      KeptInDir(s.dir, t.dir, f);
    }
  }

  lemma OpenTidy(s: State, f: nat, memory: bool)
    requires Inv(s) && Tidy(s) && f in s.inodes && (f in s.open || InDir(s.dir, f))
    ensures Tidy(InodeOpen(s, f, memory).0)
  {
    hide Inv, NamesUnique, InDir;
  }

  lemma CloseTidy(s: State, f: nat)
    requires Tidy(s) && CanClose(s, f)
    ensures Tidy(InodeClose(s, f)) && InodeClose(s, f).dir == s.dir
  {
    hide NamesUnique, InDir;
  }

  lemma UnlinkTidy(t: State, i: nat)
    requires Inv(t) && Tidy(t) && i < |t.dir| && t.dir[i].inUse && t.dir[i].sector in t.open
    ensures Tidy(Unlinked(t, i))
  {
    hide InDir, FileOk, Disjoint, Live;
    Unlinking(t, i);
  }

  lemma OpenCallTidy(s: State, name: Name, env: OpenEnv)
    requires Inv(s) && Tidy(s)
    ensures Tidy(Open(s, name, env).0)
  {
    hide Inv, Tidy, Lookup, Seen, InodeOpen, InodeClose, CanClose, InDir, Live;
    var i := Lookup(Seen(s.dir, env.seen), name, 0);
    if env.dirOpened && i.Some? {
      var f := s.dir[i.value].sector;
      NamedLive(s, i.value);
      OpenTidy(s, f, env.inodeMemory);
      LookupOpenKeeps(s, name, env.seen, env.inodeMemory);
      var (t, r) := LookupOpen(s, name, env.seen, env.inodeMemory);
      if r.Some? {
        CloseAllowed(t, f);
        CloseTidy(t, f);
      }
    }
  }

  lemma RemoveTidy(s: State, name: Name, env: RemoveEnv)
    requires Inv(s) && Tidy(s)
    ensures Tidy(Remove(s, name, env).0)
  {
    hide Inv, Tidy, Lookup, Seen, InodeClose, CanClose, InDir, Live, Unlinked;
    var i := if env.dirOpened then Lookup(Seen(s.dir, env.seen), name, 0) else None;
    if i.Some? {
      var f := s.dir[i.value].sector;
      NamedLive(s, i.value);
      OpenKeeps(s, f, env.inodeMemory);
      OpenTidy(s, f, env.inodeMemory);
      if InodeOpen(s, f, env.inodeMemory).1 {
        var t := InodeOpen(s, f, env.inodeMemory).0;
        CloseAllowed(t, f);
        CloseTidy(t, f);
        UnlinkKeeps(t, i.value);
        UnlinkTidy(t, i.value);
        CloseUnlinked(t, i.value);
        CloseTidy(Unlinked(t, i.value), f);
      }
    }
  }

  lemma CloseUnlinked(t: State, i: nat)
    requires Inv(t) && i < |t.dir| && t.dir[i].inUse && t.dir[i].sector in t.open
    ensures CanClose(Unlinked(t, i), t.dir[i].sector)
  {
    hide Inv;
    UnlinkKeeps(t, i);
    CloseAllowed(Unlinked(t, i), t.dir[i].sector);
  }

  lemma StepTidy(s: State, act: Action)
    requires Inv(s) && Enabled(s, act) && Tidy(s) && StepHarmless(s, act)
    ensures Tidy(Next(s, act))
  {
    hide Inv, Tidy, Create, Open, Remove, StepHarmless, InodeOpen, InodeClose, CanClose;
    match act
    case DoCreate(name, size, env) => CreateTidy(s, name, size, env);
    case DoOpen(name, env) => OpenCallTidy(s, name, env);
    case DoRemove(name, env) => RemoveTidy(s, name, env);
    case DoReopen(f, memory) =>
      OpenIsOk(s, f);
      OpenTidy(s, f, true);
      OpenCanClose(s, f, true);
    case DoClose(f) =>
      CloseAllowed(s, f);
      CloseTidy(s, f);
  }

  ghost predicate RunHarmless(s: State, run: seq<Action>)
    requires Inv(s)
    decreases |run|
  {
    run != [] && Enabled(s, run[0]) ==>
      StepHarmless(s, run[0]) && (NextKeeps(s, run[0]); RunHarmless(Next(s, run[0]), run[1..]))
  }

  /** In every run whose dir_adds scan harmlessly, names stay apart and no file loses its name but by remove. */
  lemma {:induction false} NamesInEveryRun(s: State, run: seq<Action>)
    requires Inv(s) && Tidy(s) && RunHarmless(s, run) && After(s, run).Some?
    ensures Tidy(After(s, run).value)
    decreases |run|
  {
    hide Inv, Tidy, Next, StepHarmless;
    if run != [] {
      NextKeeps(s, run[0]);
      StepTidy(s, run[0]);
      NamesInEveryRun(Next(s, run[0]), run[1..]);
    }
  }

  /** A formatted device starts such a run. */
  lemma FormatTidy(n: nat)
    requires Format(n).Some?
    ensures Inv(Format(n).value) && Tidy(Format(n).value)
  {
    hide Inv, Allocate;
    FormatOk(n);
  }

  // ----- what the calls mean for names

  /** A created file is in a slot under its name, in sectors that no file had; looking the name up finds it exactly when no
      earlier slot has the name, as after a harmless scan. */
  lemma CreateFinds(s: State, name: Name, size: nat, env: CreateEnv)
    requires Inv(s) && Create(s, name, size, env).1
    ensures var t := Create(s, name, size, env).0;
            var slot := AddSlot(s.dir, name, env.seenNames, env.seenSlots, true);
            && slot.Some? && |t.dir| == |s.dir| && t.dir[slot.value].inUse && t.dir[slot.value].name == name
            && (var f := t.dir[slot.value].sector;
                && f in t.inodes && t.inodes[f].length == size
                && forall k: nat :: Owns(t, f, k) ==> k < |s.freeMap| && !s.freeMap[k])
            && (var was := Lookup(s.dir, name, 0);
                Lookup(t.dir, name, 0) == slot <==> was.None? || slot.value <= was.value)
            && (Harmless(s.dir, name, env.seenNames, env.seenSlots, true) ==> Lookup(t.dir, name, 0) == slot)
  {
    hide Inv, Allocate, Lookup, FreeSlot, Seen, InDir;
    CreateDir(s, name, size, env);
    CreateExtent(s, name, size, env);
    LookupSeen(s.dir, name, env.seenNames);
    FreeSlotSeen(s.dir, env.seenSlots);
    var t := Create(s, name, size, env).0;
    FilledLookup(s.dir, name, AddSlot(s.dir, name, env.seenNames, env.seenSlots, true).value, Allocate(s.freeMap, 1, env.sectorWritten).value);
  }

  lemma CreateExtent(s: State, name: Name, size: nat, env: CreateEnv)
    requires Inv(s) && Create(s, name, size, env).1
    ensures var f := Allocate(s.freeMap, 1, env.sectorWritten).value;
            var t := Create(s, name, size, env).0;
            && f in t.inodes && t.inodes[f].length == size
            && forall k: nat :: Owns(t, f, k) ==> k < |s.freeMap| && !s.freeMap[k]
  {
    hide Inv, Allocate, AddSlot;
  }

  lemma FilledLookup(dir: seq<Entry>, name: Name, i: nat, f: nat)
    requires i < |dir|
    ensures var was := Lookup(dir, name, 0);
            Lookup(dir[i := Entry(true, name, f)], name, 0) == Some(i) <==> was.None? || i <= was.value
  {
    hide Lookup;
    var after := dir[i := Entry(true, name, f)];
    var was, now := Lookup(dir, name, 0), Lookup(after, name, 0);
    assert after[i].inUse && after[i].name == name;
    assert now.Some? && now.value <= i;
    assert forall j :: 0 <= j < |dir| && j != i ==> after[j] == dir[j];
  }

  /** A remove erases the first slot seen with the name and no other; where names are apart the name is then gone. */
  lemma RemoveForgets(s: State, name: Name, env: RemoveEnv)
    requires Inv(s) && Remove(s, name, env).1
    ensures var t := Remove(s, name, env).0;
            var i := Lookup(s.dir, name, 0);
            && i.Some? && i.value < env.seen
            && t.dir == s.dir[i.value := s.dir[i.value].(inUse := false)]
            && (NamesUnique(s.dir) ==> Lookup(t.dir, name, 0) == None)
  {
    hide InDir, Live, FileOk, Disjoint, CanClose, OpenOk, Lookup, Seen;
    LookupSeen(s.dir, name, env.seen);
  }
}
