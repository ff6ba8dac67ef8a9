/** Splitting a volume into chunks and putting it together again (split.go, recombine.go), over the
    filesystem of Unpack: any step may fail and others work in the same directory. */
module SplitRecombine {
  import opened Common
  import opened SplitNames
  import Unpack

  type Machine = Unpack.Machine
  type Path = Unpack.Path

  const MIB: nat := 1024 * 1024

  // ----- sizes -----

  datatype Unit = KiB | MiB | GiB | TiB | Total

  function UnitBytes(u: Unit): nat
  {
    match u
    case KiB => 1024
    case MiB => 1024 * 1024
    case GiB => 1024 * 1024 * 1024
    case TiB => 1024 * 1024 * 1024 * 1024
    case Total => 1
  }

  // The binary units: each is 1024 of the one before.
  lemma UnitScale()
    ensures UnitBytes(KiB) == 1024 && UnitBytes(MiB) == 1024 * UnitBytes(KiB)
    ensures UnitBytes(GiB) == 1024 * UnitBytes(MiB) && UnitBytes(TiB) == 1024 * UnitBytes(GiB)
  {
  }

  // ChunkSizeToBytes: refused exactly when the product is no int64.
  function ChunkSizeToBytes(size: nat, u: Unit): (r: Option<nat>)
    requires size <= MAX_INT
    ensures r == if size * UnitBytes(u) <= MAX_INT then Some(size * UnitBytes(u)) else None
  {
    if u == Total then Some(size)
    else if size > MAX_INT / UnitBytes(u) then None
    else Some(size * UnitBytes(u))
  }

  function Ceil(a: nat, b: nat): (n: nat)
    requires b > 0
    ensures a == 0 <==> n == 0
    ensures a > 0 ==> (n - 1) * b < a <= n * b
  {
    CeilBounds(a, b);
    (a + b - 1) / b
  }

  lemma CeilBounds(a: nat, b: nat)
    requires b > 0
    ensures var n := (a + b - 1) / b; n >= 0 && (a == 0 <==> n == 0) && (a > 0 ==> (n - 1) * b < a <= n * b)
  {
    var n := (a + b - 1) / b;
    var r := (a + b - 1) % b;
    assert a + b - 1 == b * n + r && 0 <= r < b;
    assert (n - 1) * b == b * n - b;
    assert n <= 0 ==> b * n <= 0;
    assert n > 0 ==> b * n >= b;
  }

  function Min(a: nat, b: nat): nat { if a <= b then a else b }

  // The bytes of chunk i: of length size, but for the end of the data.
  function Piece(data: seq<int>, size: nat, i: nat): seq<int>
  {
    data[Min(i * size, |data|)..Min((i + 1) * size, |data|)]
  }

  function Pieces(data: seq<int>, size: nat, n: nat): seq<int>
  {
    if n == 0 then [] else Pieces(data, size, n - 1) + Piece(data, size, n - 1)
  }

  lemma {:induction false} PiecesArePrefix(data: seq<int>, size: nat, n: nat)
    ensures Pieces(data, size, n) == data[..Min(n * size, |data|)]
  {
    if n > 0 {
      PiecesArePrefix(data, size, n - 1);
      assert (n - 1) * size <= n * size by { assert n * size == (n - 1) * size + size; }
    }
  }

  /** The plan of a split: n pieces of total bytes, each but the last of exactly size bytes, the last
      one not empty; joined they are the data. */
  lemma PlanIsExact(data: seq<int>, size: nat)
    requires size > 0 && |data| > 0
    ensures var n := Ceil(|data|, size);
            && n > 0 && Pieces(data, size, n) == data
            && (forall i: nat :: i < n - 1 ==> |Piece(data, size, i)| == size)
            && 0 < |Piece(data, size, n - 1)| <= size
  {
    var n := Ceil(|data|, size);
    PiecesArePrefix(data, size, n);
    forall i: nat | i < n - 1
      ensures |Piece(data, size, i)| == size
    {
      assert (i + 1) * size == i * size + size;
      Grows(i + 1, n - 1, size);
    }
    assert n * size == (n - 1) * size + size;
  }

  lemma Grows(a: nat, b: nat, size: nat)
    requires a <= b
    ensures a * size <= b * size
  {
    assert b * size == a * size + (b - a) * size;
    assert (b - a) * size >= 0;
  }

  // ----- reading -----

  /** A file read from an open descriptor, as short as the system likes. */
  class Source {
    const data: seq<int>
    const faultless: bool
    var pos: nat

    ghost predicate Valid()
      reads this
    {
      pos <= |data|
    }

    constructor (data: seq<int>, faultless: bool)
      ensures Valid() && this.data == data && this.faultless == faultless && pos == 0
    {
      this.data, this.faultless, pos := data, faultless, 0;
    }

    method Read(max: nat) returns (p: seq<int>, eof: bool, failed: bool)
      requires Valid() && max > 0
      modifies this
      ensures Valid() && old(pos) <= pos && p == data[old(pos)..pos] && |p| <= max
      ensures (eof ==> pos == |data|) && (p == [] ==> eof || failed) && (faultless ==> !failed)
    {
      var n: int, fail: bool := *, *;
      if fail && !faultless {
        return [], false, true;
      }
      if pos == |data| {
        return [], true, false;
      }
      if n < 1 || n > Min(max, |data| - pos) {
        n := Min(max, |data| - pos);
      }
      p, eof, failed := data[pos..pos + n], false, false;
      pos := pos + n;
    }
  }

  // One chunk into its stage: reads of at most 1 MiB until the chunk is full or the input ends.
  method FillStage(m: Machine, src: Source, id: nat, size: nat) returns (ok: bool, done: nat)
    requires m.Valid() && src.Valid() && id in m.files && id in m.nodes && m.nodes[id] == Unpack.File([])
    modifies m, src
    ensures m.Valid() && src.Valid() && m.files == old(m.files) && m.dirs == old(m.dirs) && m.added == old(m.added)
    ensures m.OthersKept(id) && (m.quiet ==> m.names == old(m.names)) && m.unsynced <= old(m.unsynced) + {id}
    ensures old(src.pos) <= src.pos
    ensures ok ==> done == src.pos - old(src.pos) == Min(size, |src.data| - old(src.pos))
                   && id in m.nodes && m.nodes[id] == Unpack.File(src.data[old(src.pos)..src.pos])
    ensures m.faultless && src.faultless ==> ok
  {
    m.FilesExist();
    hide Unpack.Machine.Valid;
    done := 0;
    var room := MIB;
    while done < size
      invariant m.Valid() && src.Valid() && m.files == old(m.files) && m.dirs == old(m.dirs) && m.added == old(m.added)
      invariant m.OthersKept(id) && (m.quiet ==> m.names == old(m.names)) && m.unsynced <= old(m.unsynced) + {id}
      invariant 0 < room && done == src.pos - old(src.pos) <= size
      invariant id in m.nodes && m.nodes[id] == Unpack.File(src.data[old(src.pos)..src.pos])
      decreases |src.data| - src.pos
    {
      var going := m.Step();
      if !going {
        return false, done;
      }
      if size - done < room {
        room := size - done;
      }
      ghost var at := src.pos;
      var p, eof, failed := src.Read(room);
      if p != [] {
        var wrote := m.Write(id, p);
        if !wrote {
          return false, done;
        }
        assert src.data[old(src.pos)..at] + p == src.data[old(src.pos)..src.pos];
        done := done + |p|;
      }
      if eof {
        break;
      }
      if failed {
        return false, done;
      }
    }
    ok := true;
  }

  // ----- what a split owns -----

  // ownedFilePath: a name and the identity created under it.
  datatype Owned = Owned(path: Path, info: nat)

  // Identities are of this run; a name of the run that is owned is owned under its identity.
  ghost predicate Holding(m: Machine, o: Owned)
    reads m
  {
    o.info in m.files && (o.path in m.added ==> m.added[o.path] == o.info)
  }

  ghost predicate HoldingAll(m: Machine, owned: seq<Owned>)
    reads m
  {
    forall i :: 0 <= i < |owned| ==> Holding(m, owned[i])
  }

  ghost function Paths(owned: seq<Owned>, k: nat): set<Path>
  {
    set i | k <= i < |owned| :: owned[i].path
  }

  // ownedFilePath.remove: a name that is gone, or is someone else's by now, is left alone.
  method RemoveOwned(m: Machine, o: Owned) returns (clean: bool)
    requires m.Valid() && Holding(m, o)
    modifies m
    ensures m.Valid() && m.files == old(m.files) && m.dirs == old(m.dirs) && m.FilesKept()
    ensures m.added == if clean then old(m.added) - {o.path} else old(m.added)
    ensures m.FileNames() == old(m.FileNames()) - if clean then {o.path} else {}
    ensures m.quiet ==> m.names == if clean && o.path in old(m.added) then old(m.names) - {o.path} else old(m.names)
    ensures m.quiet && m.faultless ==> clean
  {
    hide Unpack.Machine.Valid;
    var current := m.Lstat(o.path);
    if current.Fault? {
      return false;
    }
    if !Unpack.SameFile(current, o.info) {
      NotOurs(m, o, current);
      m.Forget(o.path);
      return true;
    }
    m.FoundOwn(o.path);
    clean := m.Remove(o.path);
  }

  lemma NotOurs(m: Machine, o: Owned, current: Unpack.Stat)
    requires m.Valid() && Holding(m, o) && !current.Fault? && !Unpack.SameFile(current, o.info)
    requires current.Found? ==> o.path in m.names && m.names[o.path] == current.id && current.id in m.nodes && m.nodes[current.id] == current.node
    requires current.Missing? ==> o.path !in m.names
    ensures o.path in m.names ==> !m.Own(m.names[o.path])
    ensures m.quiet ==> o.path !in m.added
  {
    assert m.NameOk(o.path) && m.NodeOk(o.info);
  }

  // A file of this run found under its own name.
  ghost function Sighting(o: Owned): (Path, nat)
  {
    (o.path, o.info)
  }

  // The last looks of this run found every one of these under its name.
  ghost predicate JustSeen(m: Machine, owned: seq<Owned>)
    reads m
  {
    EndsWith(m.sightings, owned)
  }

  ghost predicate EndsWith(log: seq<(Path, nat)>, owned: seq<Owned>)
  {
    |owned| <= |log| && forall i :: 0 <= i < |owned| ==> log[|log| - |owned| + i] == Sighting(owned[i])
  }

  lemma EndsWithNext(log: seq<(Path, nat)>, owned: seq<Owned>, i: nat)
    requires i < |owned| && EndsWith(log, owned[..i])
    ensures EndsWith(log + [Sighting(owned[i])], owned[..i + 1])
  {
  }

  lemma EndsWithNone(log: seq<(Path, nat)>, owned: seq<Owned>)
    ensures EndsWith(log, owned[..0])
  {
  }

  // ownedFilePath.matches
  method Matches(m: Machine, o: Owned) returns (same: bool)
    requires m.Valid() && Holding(m, o)
    modifies m`names, m`nodes, m`next, m`sightings
    ensures m.Valid() && m.Same()
    ensures old(m.sightings) <= m.sightings && (same ==> m.sightings == old(m.sightings) + [Sighting(o)])
    ensures m.quiet && m.faultless && o.path in m.added ==> same
  {
    hide Unpack.Machine.Valid;
    if m.quiet && o.path in m.added {
      m.QuietName(o.path);
    }
    m.FilesExist();
    var current := m.Lstat(o.path);
    same := Unpack.SameFile(current, o.info);
  }

  // StagedFile.Cleanup: unlike a chunk, a stage that is not found under its name is a failure.
  method Unstage(m: Machine, o: Owned) returns (gone: bool, clean: bool)
    requires m.Valid() && Holding(m, o)
    modifies m
    ensures clean ==> m.unclosed == old(m.unclosed)
    ensures m.Valid() && m.files == old(m.files) && m.dirs == old(m.dirs) && m.unsynced == old(m.unsynced) && m.FilesStay()
    ensures m.added == if gone then old(m.added) - {o.path} else old(m.added)
    ensures m.FileNames() == old(m.FileNames()) - if gone then {o.path} else {}
    ensures clean ==> gone
    ensures m.quiet && m.faultless && o.path in old(m.added) ==> clean
  {
    hide Unpack.Machine.Valid;
    if m.quiet && o.path in m.added {
      m.QuietName(o.path);
    }
    m.FilesExist();
    gone := false;
    clean := m.Close();
    var current := m.Lstat(o.path);
    if !Unpack.SameFile(current, o.info) {
      return gone, false;
    }
    m.FoundOwn(o.path);
    gone := m.Remove(o.path);
    clean := clean && gone;
  }

  // cleanupSplitOnError: the stage, if one is active, then every chunk.
  method CleanupSplit(m: Machine, stage: seq<Owned>, chunks: seq<Owned>) returns (clean: bool)
    requires m.Valid() && HoldingAll(m, stage) && HoldingAll(m, chunks) && |stage| <= 1
    modifies m
    ensures clean ==> m.unclosed == old(m.unclosed)
    ensures m.Valid() && m.files == old(m.files) && m.dirs == old(m.dirs)
    ensures m.FileNames() <= old(m.FileNames())
    ensures clean ==> m.FileNames() == old(m.FileNames()) - Paths(stage, 0) - Paths(chunks, 0)
    ensures forall p <- m.added :: p in old(m.added) && m.added[p] == old(m.added)[p]
    ensures stage == [] && chunks == [] ==> clean && m.added == old(m.added)
    ensures m.quiet && m.faultless && (stage == [] || stage[0].path in old(m.added)) ==> clean
  {
    hide Unpack.Machine.Valid;
    clean := true;
    if |stage| == 1 {
      var gone, whole := Unstage(m, stage[0]);
      clean := gone && whole;
      assert Paths(stage, 0) == {stage[0].path};
      assert m.added == old(m.added) || m.added == old(m.added) - {stage[0].path};
      forall i | 0 <= i < |chunks|
        ensures Holding(m, chunks[i])
      {
        assert old(Holding(m, chunks[i]));
      }
    }
    for i := 0 to |chunks|
      invariant m.Valid() && m.files == old(m.files) && m.dirs == old(m.dirs) && HoldingAll(m, chunks)
      invariant m.FileNames() <= old(m.FileNames())
      invariant forall p <- m.added :: p in old(m.added) && m.added[p] == old(m.added)[p]
      invariant stage == [] && chunks == [] ==> clean && m.added == old(m.added)
      invariant clean ==> m.unclosed == old(m.unclosed)
      invariant m.quiet && m.faultless && (stage == [] || stage[0].path in old(m.added)) ==> clean
      invariant clean ==> m.FileNames() - Paths(chunks, i) == old(m.FileNames()) - Paths(stage, 0) - Paths(chunks, 0)
    {
      PathsStep(chunks, i);
      var removed := RemoveOwned(m, chunks[i]);
      clean := clean && removed;
    }
    assert Paths(chunks, |chunks|) == {};
  }

  lemma PathsStep(owned: seq<Owned>, i: nat)
    requires i < |owned|
    ensures Paths(owned, i) == Paths(owned, i + 1) + {owned[i].path}
  {
    forall p | p in Paths(owned, i)
      ensures p in Paths(owned, i + 1) + {owned[i].path}
    {
      var j :| i <= j < |owned| && owned[j].path == p;
      assert j == i || p in Paths(owned, i + 1);
    }
  }

  // ----- splitting -----

  // What a step leaves of the run's earlier files: their content, and their being synced.
  twostate predicate Earlier(m: Machine)
    reads m
  {
    && old(m.files) <= m.files && m.dirs == old(m.dirs) && m.FilesStay()
    && (forall i <- m.unsynced :: i in old(m.unsynced) || i !in old(m.files))
  }

  // The names after at most one new one.
  ghost predicate AtMostNew(before: map<Path, nat>, after: map<Path, nat>, made: seq<Owned>)
  {
    |made| <= 1 && after == if made == [] then before else before[made[0].path := made[0].info]
  }

  // Only the first Stat of a new inode ever fails on this machine, and it always does.
  ghost predicate Forgetful(m: Machine)
  {
    m.steady && forall id: nat :: m.Loses(id)
  }

  // A name of this run whose identity was never learnt.
  ghost predicate Forgotten(m: Machine, p: Path)
    reads m
  {
    p in m.added && m.added[p] in m.files && m.Loses(m.added[p])
  }

  // A stage is created and filled; its identity may be lost on the way.
  method StageChunk(m: Machine, src: Source, stage: Path, size: nat) returns (ok: bool, active: seq<Owned>, done: nat, ghost lost: set<Path>)
    requires m.Valid() && src.Valid() && stage != []
    modifies m, src
    ensures m.unclosed == old(m.unclosed)
    ensures m.Valid() && src.Valid() && Earlier(m) && HoldingAll(m, active) && old(src.pos) <= src.pos
    ensures lost == {} ==> AtMostNew(old(m.added), m.added, active)
    ensures active != [] ==> active[0].path == stage && stage in m.added
    ensures m.quiet && Forgetful(m) && stage !in old(m.names) && |stage| == 1 ==> lost == {stage}
    ensures lost != {} ==> Forgotten(m, stage) && !ok && active == [] && lost == {stage} && lost <= m.FileNames() && m.added - {stage} == old(m.added) - {stage}
    ensures ok ==> |active| == 1 && active[0].path == stage && active[0].info !in old(m.files) && active[0].info in m.nodes
                   && m.nodes[active[0].info] == Unpack.File(src.data[old(src.pos)..src.pos])
                   && done == src.pos - old(src.pos) == Min(size, |src.data| - old(src.pos))
    ensures ok ==> active[0].info !in m.unsynced
    ensures m.quiet && (active != [] || lost != {}) ==> stage !in old(m.names)
    ensures m.faultless && src.faultless && m.quiet && stage !in old(m.names) && |stage| == 1 ==> ok
  {
    hide Unpack.Machine.Valid;
    ok, active, done, lost := false, [], 0, {};
    var made := m.Create(stage);
    if made.None? {
      return;
    }
    var id := made.value;
    var identity := m.StatOpen(id);
    if identity.None? {
      lost := {stage};
      return;
    }
    active := [Owned(stage, id)];
    ok, done := FillStage(m, src, id, size);
    if !ok {
      return;
    }
    ok := m.Sync(id);
    if !ok {
      return;
    }
    ok := m.Step();
  }

  // The exclusive final file, a copy of the stage, synced, and still ours.
  method PublishChunk(m: Machine, final: Path, sid: nat, done: nat) returns (ok: bool, made: seq<Owned>, settled: bool)
    requires m.Valid() && final != [] && sid in m.files && sid in m.nodes && m.nodes[sid].File?
    modifies m
    ensures m.unclosed == old(m.unclosed)
    ensures m.Valid() && Earlier(m) && HoldingAll(m, made) && |made| <= 1
    ensures m.added - {final} == old(m.added) - {final}
    ensures m.faultless ==> settled
    ensures settled ==> AtMostNew(old(m.added), m.added, made) && (made != [] ==> made[0].path == final && made[0].info !in old(m.files))
    ensures ok ==> settled && |made| == 1 && made[0].info in m.nodes && m.nodes[made[0].info] == old(m.nodes[sid]) && made[0].info !in m.unsynced
    ensures ok ==> JustSeen(m, made)
    ensures m.quiet && ok ==> final !in old(m.names)
    ensures m.faultless && m.quiet && final !in old(m.names) && |final| == 1 && done == |old(m.nodes[sid].data)| ==> ok
  {
    m.FilesExist();
    hide Unpack.Machine.Valid;
    ok, made, settled := false, [], true;
    var created := m.Create(final);
    if created.None? {
      return;
    }
    var id := created.value;
    var identity := m.StatOpen(id);
    if identity.None? {
      return false, [], false;
    }
    made := [Owned(final, id)];
    ok := CopyChunk(m, made[0], sid, done);
  }

  method CopyChunk(m: Machine, o: Owned, sid: nat, done: nat) returns (ok: bool)
    requires m.Valid() && Holding(m, o) && o.info != sid && o.info in m.nodes && m.nodes[o.info] == Unpack.File([]) && o.path in m.added
    requires sid in m.files && sid in m.nodes && m.nodes[sid].File?
    modifies m
    ensures m.Valid() && m.files == old(m.files) && m.dirs == old(m.dirs) && m.added == old(m.added) && m.OthersKept(o.info)
    ensures m.unsynced <= old(m.unsynced) + {o.info}
    ensures ok ==> o.info in m.nodes && m.nodes[o.info] == old(m.nodes[sid]) && o.info !in m.unsynced
    ensures ok ==> JustSeen(m, [o])
    ensures m.quiet && m.faultless && done == |old(m.nodes[sid].data)| ==> ok
  {
    hide Unpack.Machine.Valid;
    var bytes := m.nodes[sid].data;
    ok := m.Write(o.info, bytes);
    if !ok {
      return;
    }
    if |bytes| != done {
      return false;
    }
    ok := m.Sync(o.info);
    if !ok {
      return;
    }
    ok := m.Step();
    if !ok {
      return;
    }
    ok := Matches(m, o);
  }

  ghost predicate Known(before: map<Path, nat>, files: set<nat>, dirs: set<nat>)
  {
    forall p <- before :: before[p] in files || before[p] in dirs
  }

  ghost function FileNamesOf(added: map<Path, nat>, files: set<nat>): set<Path>
  {
    set p | p in added && added[p] in files
  }

  lemma NamesKnown(m: Machine)
    requires m.Valid()
    ensures Known(m.added, m.files, m.dirs) && m.FileNames() == FileNamesOf(m.added, m.files)
  {
    m.ListedExist();
  }

  // A name of a file of this run is an earlier one or one of those that may have changed.
  lemma GrownNames(m: Machine, before: map<Path, nat>, files: set<nat>, changed: set<Path>)
    requires m.Valid() && Known(before, files, m.dirs) && m.added - changed == before - changed
    ensures m.FileNames() <= FileNamesOf(before, files) + changed
  {
    forall p | p in m.FileNames() && p !in changed
      ensures p in FileNamesOf(before, files)
    {
      assert p in m.added - changed && p in before - changed;
      assert (m.added - changed)[p] == (before - changed)[p];
      m.NotDir(m.added[p]);
    }
  }

  lemma NewPaths(before: map<Path, nat>, after: map<Path, nat>, made: seq<Owned>)
    requires AtMostNew(before, after, made)
    ensures after - Paths(made, 0) == before - Paths(made, 0)
  {
    if made != [] {
      assert Paths(made, 0) == {made[0].path};
    }
  }

  // The chunk gets its name, and the stage loses its own.
  method PublishAndUnstage(m: Machine, stage: Owned, final: Path, done: nat)
    returns (ok: bool, active: seq<Owned>, made: seq<Owned>, settled: bool)
    requires m.Valid() && final != [] && stage.path != final && stage.info in m.files && stage.info in m.nodes && m.nodes[stage.info].File?
    requires stage.path in m.added && m.added[stage.path] == stage.info
    modifies m
    ensures settled ==> m.unclosed == old(m.unclosed)
    ensures m.Valid() && Earlier(m) && |active| <= 1 && |made| <= 1 && HoldingAll(m, active) && HoldingAll(m, made)
    ensures m.added - {stage.path, final} == old(m.added) - {stage.path, final}
    ensures settled ==> m.FileNames() <= old(m.FileNames()) + Paths(active, 0) + Paths(made, 0)
    ensures active in {[], [stage]} && (!ok && settled ==> active == [stage])
    ensures active != [] ==> stage.path in m.added
    ensures m.quiet && m.faultless ==> settled
    ensures ok ==> settled && active == [] && |made| == 1 && made[0].path == final && made[0].info !in old(m.files)
                   && made[0].info in m.nodes && m.nodes[made[0].info] == old(m.nodes[stage.info]) && made[0].info !in m.unsynced
                   && m.added == old(m.added)[final := made[0].info] - {stage.path}
    ensures m.quiet && ok ==> final !in old(m.names)
    ensures m.faultless && m.quiet && final !in old(m.names) && |final| == 1 && done == |old(m.nodes[stage.info].data)| ==> ok
  {
    NamesKnown(m);
    hide Unpack.Machine.Valid;
    ghost var before, files := m.added, m.files;
    active := [stage];
    ok, made, settled := PublishChunk(m, final, stage.info, done);
    if settled {
      NewPaths(before, m.added, made);
      GrownNames(m, before, files, Paths(made, 0));
    }
    MinusMore(m.added, before, {final}, {stage.path, final});
    assert stage.path in m.added - {final} && (m.added - {final})[stage.path] == (before - {final})[stage.path];
    if !ok {
      return;
    }
    var gone, whole := Unstage(m, stage);
    if !whole {
      return false, [], made, false;
    }
    active := [];
  }

  // On a quiet machine a name outside base and list is free, and only such a name is.
  lemma FreeName(m: Machine, p: Path)
    requires m.Valid() && m.quiet && p != []
    ensures p !in m.names <==> m.Free(p)
  {
    m.QuietPath(p);
    if p !in m.names {
      m.Unlisted(p);
    }
  }

  // One round of the loop over the chunks.
  method SplitNext(m: Machine, src: Source, base: string, i: nat, size: nat, stage: string)
    returns (ok: bool, active: seq<Owned>, made: seq<Owned>, settled: bool, ghost lost: set<Path>)
    requires m.Valid() && src.Valid() && stage != ChunkName(base, i)
    modifies m, src
    ensures settled ==> m.unclosed == old(m.unclosed)
    ensures m.Valid() && src.Valid() && Earlier(m) && |active| <= 1 && |made| <= 1 && HoldingAll(m, active) && HoldingAll(m, made)
    ensures old(src.pos) <= src.pos
    ensures settled ==> m.FileNames() <= old(m.FileNames()) + Paths(active, 0) + Paths(made, 0) + lost
    ensures m.added - {[stage], [ChunkName(base, i)]} == old(m.added) - {[stage], [ChunkName(base, i)]}
    ensures lost != {} ==> Forgotten(m, [stage]) && !ok && active == [] && made == [] && lost == {[stage]} && lost <= m.FileNames()
    ensures active != [] ==> active[0].path in m.added
    ensures m.quiet && m.faultless ==> settled
    ensures m.quiet && Forgetful(m) && [stage] !in old(m.names) ==> settled && lost == {[stage]}
    ensures ok ==> settled && active == [] && |made| == 1 && made[0].path == [ChunkName(base, i)]
                   && made[0].info in m.nodes && m.nodes[made[0].info] == Unpack.File(src.data[old(src.pos)..src.pos])
                   && made[0].info !in m.unsynced && src.pos == old(src.pos) + Min(size, |src.data| - old(src.pos))
    ensures m.quiet && ok ==> [stage] !in old(m.names) && [ChunkName(base, i)] !in old(m.names)
                              && m.added == old(m.added)[[ChunkName(base, i)] := made[0].info] - {[stage]}
    ensures m.faultless && src.faultless && m.quiet && [stage] !in old(m.names) && [ChunkName(base, i)] !in old(m.names) ==> ok
  {
    NamesKnown(m);
    hide Unpack.Machine.Valid;
    ghost var before, files := m.added, m.files;
    var done;
    var final := [ChunkName(base, i)];
    assert final[0] != [stage][0];
    made, settled := [], true;
    if m.quiet {
      FreeName(m, final);
    }
    ok, active, done, lost := StageChunk(m, src, [stage], size);
    if m.quiet {
      FreeName(m, final);
    }
    if lost == {} {
      NewPaths(before, m.added, active);
      GrownNames(m, before, files, Paths(active, 0));
      assert active != [] ==> Paths(active, 0) == {[stage]};
    } else {
      GrownNames(m, before, files, lost);
    }
    ghost var staged := m.added;
    assert staged - {[stage]} == before - {[stage]};
    MinusMore(staged, before, {[stage]}, {[stage], final});
    if !ok {
      return;
    }
    var o := active[0];
    ok, active, made, settled := PublishAndUnstage(m, o, final, done);
    assert ok ==> [stage] !in m.FileNames();
    PathsStep([o], 0);
    assert [stage] in Paths([o], 0);
  }

  lemma MinusMore(a: map<Path, nat>, b: map<Path, nat>, s: set<Path>, t: set<Path>)
    requires a - s == b - s && s <= t
    ensures a - t == b - t
  {
    assert a - t == (a - s) - t && b - t == (b - s) - t;
  }

  // A finished chunk: synced under its identity, with its piece of the input.
  ghost predicate ChunkDone(v: Unpack.Inodes, added: map<Path, nat>, quiet: bool, base: string, o: Owned, piece: seq<int>, j: nat)
  {
    && o.info in v.files && o.info !in v.unsynced && o.info in v.nodes && v.nodes[o.info] == Unpack.File(piece)
    && o.path == [ChunkName(base, j)] && (o.path in added ==> added[o.path] == o.info) && (quiet ==> o.path in added)
  }

  ghost predicate DoneIn(v: Unpack.Inodes, added: map<Path, nat>, quiet: bool, base: string, owned: seq<Owned>, data: seq<int>, size: nat)
  {
    forall j: nat :: j < |owned| ==> ChunkDone(v, added, quiet, base, owned[j], Piece(data, size, j), j)
  }

  ghost predicate Done(m: Machine, base: string, owned: seq<Owned>, data: seq<int>, size: nat)
    reads m
  {
    DoneIn(m.View(), m.added, m.quiet, base, owned, data, size)
  }

  // Whatever a round does, it does not disturb the chunks before it.
  lemma StillDone(m: Machine, base: string, owned: seq<Owned>, data: seq<int>, size: nat, before: Unpack.Inodes, added: map<Path, nat>, stage: string)
    requires DoneIn(before, added, m.quiet, base, owned, data, size) && !IsSplitArtifact(base, stage) && |owned| < MAX_INT
    requires m.added - {[stage], [ChunkName(base, |owned|)]} == added - {[stage], [ChunkName(base, |owned|)]}
    requires before.files <= m.files && (forall i <- m.unsynced :: i in before.unsynced || i !in before.files)
    requires forall i <- before.files :: i in before.nodes && i in m.nodes && m.nodes[i] == before.nodes[i]
    ensures Done(m, base, owned, data, size) && HoldingAll(m, owned)
  {
    var changed: set<Path> := {[stage], [ChunkName(base, |owned|)]};
    forall j: nat | j < |owned|
      ensures ChunkDone(m.View(), m.added, m.quiet, base, owned[j], Piece(data, size, j), j) && Holding(m, owned[j])
    {
      ChunkIndex(base, j);
      ChunkIsArtifact(base, ChunkName(base, j));
      ChunkNamesDiffer(base, |owned|, j);
      assert ChunkDone(before, added, m.quiet, base, owned[j], Piece(data, size, j), j);
      hide ChunkName, Piece, IsSplitArtifact, IndexOf;
      SameBeside(m.added, added, changed, owned[j].path);
    }
  }

  lemma SameBeside(a: map<Path, nat>, b: map<Path, nat>, changed: set<Path>, p: Path)
    requires a - changed == b - changed && p !in changed
    ensures p in a <==> p in b
    ensures p in a ==> a[p] == b[p]
  {
    assert p in a <==> p in a - changed;
    assert p in b <==> p in b - changed;
    assert p in a ==> (a - changed)[p] == a[p];
    assert p in b ==> (b - changed)[p] == b[p];
  }

  lemma NextPosition(i: nat, size: nat, length: nat)
    ensures Min(i * size, length) + Min(size, length - Min(i * size, length)) == Min((i + 1) * size, length)
  {
    assert (i + 1) * size == i * size + size;
  }

  lemma PathsAppend(owned: seq<Owned>, o: Owned)
    ensures Paths(owned + [o], 0) == Paths(owned, 0) + {o.path}
  {
    var all := owned + [o];
    forall p | p in Paths(all, 0)
      ensures p in Paths(owned, 0) + {o.path}
    {
      var j :| 0 <= j < |all| && all[j].path == p;
      assert j < |owned| ==> owned[j].path == p;
    }
    forall p | p in Paths(owned, 0)
      ensures p in Paths(all, 0)
    {
      var j :| 0 <= j < |owned| && owned[j].path == p;
      assert all[j].path == p;
    }
    assert all[|owned|].path == o.path;
  }

  // One more chunk.
  method SplitMore(m: Machine, src: Source, base: string, owned: seq<Owned>, size: nat, stage: string)
    returns (ok: bool, active: seq<Owned>, chunks: seq<Owned>, settled: bool, ghost lost: set<Path>)
    requires m.Valid() && src.Valid() && !IsSplitArtifact(base, stage) && |owned| < MAX_INT
    requires Done(m, base, owned, src.data, size) && src.pos == Min(|owned| * size, |src.data|)
    requires m.FileNames() <= Paths(owned, 0)
    modifies m, src
    ensures settled ==> m.unclosed == old(m.unclosed)
    ensures m.Valid() && src.Valid() && |active| <= 1 && HoldingAll(m, active) && HoldingAll(m, chunks) && m.dirs == old(m.dirs)
    ensures settled ==> m.FileNames() <= Paths(active, 0) + Paths(chunks, 0) + lost
    ensures lost != {} ==> Forgotten(m, [stage]) && !ok && active == [] && chunks == owned && lost == {[stage]} && lost <= m.FileNames()
    ensures active != [] ==> active[0].path in m.added
    ensures m.quiet && m.faultless ==> settled
    ensures m.quiet && Forgetful(m) && [stage] !in old(m.names) ==> settled && lost == {[stage]}
    ensures ok ==> settled && active == [] && |chunks| == |owned| + 1
                   && Done(m, base, chunks, src.data, size) && src.pos == Min(|chunks| * size, |src.data|)
    ensures m.quiet && ok ==> [stage] !in old(m.names) && [ChunkName(base, |owned|)] !in old(m.names)
    ensures m.quiet && ok ==> m.added.Keys == old(m.added).Keys + {[ChunkName(base, |owned|)]}
    ensures m.faultless && src.faultless && m.quiet && [stage] !in old(m.names) && [ChunkName(base, |owned|)] !in old(m.names) ==> ok
  {
    var i := |owned|;
    NextPosition(i, size, |src.data|);
    assert stage != ChunkName(base, i) by {
      ChunkIndex(base, i);
      ChunkIsArtifact(base, ChunkName(base, i));
    }
    if m.quiet {
      FreeName(m, [stage]);
    }
    hide Unpack.Machine.Valid, ChunkName, IsSplitArtifact, DoneIn;
    ghost var added, before := m.added, m.View();
    var made;
    ok, active, made, settled, lost := SplitNext(m, src, base, i, size, stage);
    chunks := owned + made;
    StillDone(m, base, owned, src.data, size, before, added, stage);
    AppendPaths(owned, made);
    if ok {
      DoneMore(m, base, owned, made[0], src.data, size);
      assert chunks == owned + [made[0]];
    }
  }

  lemma AppendPaths(owned: seq<Owned>, made: seq<Owned>)
    requires |made| <= 1
    ensures Paths(owned + made, 0) == Paths(owned, 0) + Paths(made, 0)
  {
    if made == [] {
      assert owned + made == owned && Paths(made, 0) == {};
    } else {
      assert made == [made[0]];
      PathsAppend(owned, made[0]);
      assert Paths(made, 0) == {made[0].path};
    }
  }

  lemma DoneMore(m: Machine, base: string, owned: seq<Owned>, o: Owned, data: seq<int>, size: nat)
    requires Done(m, base, owned, data, size) && ChunkDone(m.View(), m.added, m.quiet, base, o, Piece(data, size, |owned|), |owned|)
    ensures Done(m, base, owned + [o], data, size)
  {
  }

  // A run that has not begun.
  ghost predicate Fresh(m: Machine)
    reads m
  {
    m.files == {} && m.dirs == {} && m.added == map[]
  }

  // Random stage names look like no chunk; on a machine where all goes well they are also free.
  ghost predicate StageNames(m: Machine, base: string, draw: nat -> string)
  {
    forall i: nat :: !IsSplitArtifact(base, draw(i))
  }

  ghost predicate FreeStages(m: Machine, draw: nat -> string)
  {
    forall i: nat :: [draw(i)] !in m.base
  }

  ghost predicate NoArtifact(m: Machine, base: string)
  {
    forall s: string :: [s] in m.base ==> !IsSplitArtifact(base, s)
  }

  ghost function ChunkPaths(base: string, k: nat): set<Path>
  {
    set i | 0 <= i < k :: [ChunkName(base, i)]
  }

  lemma ChunkPathsStep(base: string, k: nat)
    requires k < MAX_INT
    ensures ChunkPaths(base, k + 1) == ChunkPaths(base, k) + {[ChunkName(base, k)]}
    ensures [ChunkName(base, k)] !in ChunkPaths(base, k)
  {
    forall p | p in ChunkPaths(base, k + 1)
      ensures p in ChunkPaths(base, k) + {[ChunkName(base, k)]}
    {
      var i :| 0 <= i < k + 1 && p == [ChunkName(base, i)];
      assert i == k || p in ChunkPaths(base, k);
    }
    if [ChunkName(base, k)] in ChunkPaths(base, k) {
      var i :| 0 <= i < k && [ChunkName(base, k)] == [ChunkName(base, i)];
      assert [ChunkName(base, k)][0] == [ChunkName(base, i)][0];
      ChunkNamesDiffer(base, i, k);
    }
    assert [ChunkName(base, k)] in ChunkPaths(base, k + 1);
    assert ChunkPaths(base, k) <= ChunkPaths(base, k + 1);
  }

  lemma OtherName(base: string, k: nat, s: string)
    requires !IsSplitArtifact(base, s) && k <= MAX_INT
    ensures [s] !in ChunkPaths(base, k)
  {
    if [s] in ChunkPaths(base, k) {
      var i :| 0 <= i < k && [s] == [ChunkName(base, i)];
      assert [s][0] == [ChunkName(base, i)][0];
      ChunkIndex(base, i);
      ChunkIsArtifact(base, s);
    }
  }

  lemma DonePaths(m: Machine, base: string, owned: seq<Owned>, data: seq<int>, size: nat)
    requires Done(m, base, owned, data, size)
    ensures Paths(owned, 0) == ChunkPaths(base, |owned|) && HoldingAll(m, owned)
  {
    forall j: nat | j < |owned|
      ensures owned[j].path == [ChunkName(base, j)] && Holding(m, owned[j])
    {
      assert ChunkDone(m.View(), m.added, m.quiet, base, owned[j], Piece(data, size, j), j);
    }
    forall p | p in Paths(owned, 0)
      ensures p in ChunkPaths(base, |owned|)
    {
      var j :| 0 <= j < |owned| && owned[j].path == p;
      assert p == [ChunkName(base, j)];
    }
    forall p | p in ChunkPaths(base, |owned|)
      ensures p in Paths(owned, 0)
    {
      var j :| 0 <= j < |owned| && p == [ChunkName(base, j)];
      assert owned[j].path == p;
    }
  }

  lemma StageFree(m: Machine, base: string, k: nat, draw: nat -> string)
    requires m.Valid() && m.quiet && k < MAX_INT && m.added.Keys == ChunkPaths(base, k)
    requires StageNames(m, base, draw) && FreeStages(m, draw)
    ensures [draw(k)] !in m.names
  {
    OtherName(base, k, draw(k));
    FreeName(m, [draw(k)]);
  }

  // While no artifact was there and stage names are free, the next two names are.
  lemma NextFree(m: Machine, base: string, k: nat, draw: nat -> string)
    requires m.Valid() && m.quiet && k < MAX_INT && m.added.Keys == ChunkPaths(base, k)
    requires StageNames(m, base, draw) && NoArtifact(m, base) && FreeStages(m, draw)
    ensures [draw(k)] !in m.names && [ChunkName(base, k)] !in m.names
  {
    OtherName(base, k, draw(k));
    ChunkPathsStep(base, k);
    ChunkIndex(base, k);
    ChunkIsArtifact(base, ChunkName(base, k));
    FreeName(m, [draw(k)]);
    FreeName(m, [ChunkName(base, k)]);
  }

  // Nothing, or the one stage whose identity was never learnt.
  ghost predicate LostStage(m: Machine, draw: nat -> string, lost: set<Path>)
    reads m
  {
    lost == {} || exists k: nat :: lost == {[draw(k)]} && Forgotten(m, [draw(k)])
  }

  // The loop over the chunks.
  method SplitLoop(m: Machine, src: Source, base: string, n: nat, size: nat, draw: nat -> string)
    returns (ok: bool, active: seq<Owned>, owned: seq<Owned>, settled: bool, ghost lost: set<Path>)
    requires m.Valid() && src.Valid() && StageNames(m, base, draw) && n <= MAX_INT && Fresh(m) && src.pos == 0
    modifies m, src
    ensures settled ==> m.unclosed == old(m.unclosed)
    ensures m.Valid() && src.Valid() && |active| <= 1 && HoldingAll(m, active) && HoldingAll(m, owned) && m.dirs == {}
    ensures settled ==> m.FileNames() <= Paths(active, 0) + Paths(owned, 0) + lost
    ensures lost != {} ==> !ok && active == [] && lost <= m.FileNames() && lost !! Paths(owned, 0) && LostStage(m, draw, lost)
    ensures active != [] ==> active[0].path in m.added
    ensures m.quiet && m.faultless ==> settled
    ensures m.quiet && Forgetful(m) && FreeStages(m, draw) && n > 0 ==> settled && owned == [] && lost == {[draw(0)]}
    ensures ok ==> settled && active == [] && |owned| == n && Done(m, base, owned, src.data, size) && src.pos == Min(n * size, |src.data|)
    ensures m.quiet && ok ==> m.added.Keys == ChunkPaths(base, n)
    ensures m.faultless && src.faultless && m.quiet && NoArtifact(m, base) && FreeStages(m, draw) ==> ok
  {
    hide Unpack.Machine.Valid, IsSplitArtifact, ChunkName, DoneIn, StageNames, NoArtifact, FreeStages;
    ok, active, owned, settled, lost := true, [], [], true, {};
    assert Done(m, base, owned, src.data, size) by { NothingDone(m, base, src.data, size); }
    while |owned| < n
      invariant m.Valid() && src.Valid() && m.dirs == {} && |owned| <= n && ok && active == [] && settled && lost == {}
      invariant Done(m, base, owned, src.data, size) && src.pos == Min(|owned| * size, |src.data|)
      invariant m.FileNames() <= Paths(owned, 0) && m.unclosed == old(m.unclosed)
      invariant m.quiet ==> m.added.Keys == ChunkPaths(base, |owned|)
      invariant m.quiet && Forgetful(m) && FreeStages(m, draw) ==> owned == []
      decreases n - |owned|
    {
      var k := |owned|;
      DonePaths(m, base, owned, src.data, size);
      ok := m.Step();
      if !ok {
        return;
      }
      if m.quiet && FreeStages(m, draw) {
        StageFree(m, base, k, draw);
        if NoArtifact(m, base) {
          NextFree(m, base, k, draw);
        }
      }
      assert !IsSplitArtifact(base, draw(k)) by { Drawn(m, base, draw, k); }
      OtherName(base, k, draw(k));
      ChunkPathsStep(base, k);
      ok, active, owned, settled, lost := SplitMore(m, src, base, owned, size, draw(k));
      if !ok {
        return;
      }
    }
    DonePaths(m, base, owned, src.data, size);
  }

  lemma Drawn(m: Machine, base: string, draw: nat -> string, k: nat)
    requires StageNames(m, base, draw)
    ensures !IsSplitArtifact(base, draw(k))
  {
  }

  lemma NothingDone(m: Machine, base: string, data: seq<int>, size: nat)
    ensures Done(m, base, [], data, size)
  {
  }

  // The names of a directory.
  method ReadDir(m: Machine) returns (ok: bool, entries: set<string>)
    requires m.Valid()
    modifies m`names, m`nodes, m`next
    ensures m.Valid() && m.Same()
    ensures m.quiet ==> forall s :: s in entries <==> [s] in m.names
    ensures m.faultless || m.steady ==> ok
  {
    hide Unpack.Machine.Valid;
    m.Disturb();
    ok := m.Step();
    entries := set p | p in m.names && |p| == 1 :: p[0];
    forall s
      ensures s in entries <==> [s] in m.names
    {
      assert [s][0] == s;
      if s in entries {
        var p :| p in m.names && |p| == 1 && p[0] == s;
        assert p == [s];
      }
    }
  }

  // Every completed chunk is still under its name.
  method MatchAll(m: Machine, base: string, owned: seq<Owned>, data: seq<int>, size: nat) returns (same: bool)
    requires m.Valid() && Done(m, base, owned, data, size) && HoldingAll(m, owned)
    modifies m`names, m`nodes, m`next, m`sightings
    ensures m.Valid() && m.Same() && Done(m, base, owned, data, size)
    ensures same ==> JustSeen(m, owned)
    ensures m.quiet && m.faultless ==> same
  {
    m.FilesExist();
    hide Unpack.Machine.Valid, EndsWith, Sighting;
    same := true;
    var i := 0;
    EndsWithNone(m.sightings, owned);
    while i < |owned| && same
      invariant m.Valid() && m.Same() && i <= |owned| && Done(m, base, owned, data, size)
      invariant m.quiet && m.faultless ==> same
      invariant same ==> JustSeen(m, owned[..i])
    {
      ghost var before, added := m.View(), m.added;
      assert ChunkDone(m.View(), m.added, m.quiet, base, owned[i], Piece(data, size, i), i);
      ghost var log := m.sightings;
      same := Matches(m, owned[i]);
      if same {
        EndsWithNext(log, owned, i);
      }
      SameDone(m, base, owned, data, size, before, added);
      i := i + 1;
    }
    assert owned[..|owned|] == owned;
  }

  lemma SameDone(m: Machine, base: string, owned: seq<Owned>, data: seq<int>, size: nat, before: Unpack.Inodes, added: map<Path, nat>)
    requires DoneIn(before, added, m.quiet, base, owned, data, size) && m.added == added
    requires before.files == m.files && m.unsynced == before.unsynced
    requires forall i <- before.files :: i in before.nodes && i in m.nodes && m.nodes[i] == before.nodes[i]
    ensures Done(m, base, owned, data, size)
  {
    forall j: nat | j < |owned|
      ensures ChunkDone(m.View(), m.added, m.quiet, base, owned[j], Piece(data, size, j), j)
    {
      assert ChunkDone(before, added, m.quiet, base, owned[j], Piece(data, size, j), j);
    }
  }

  // The chunk size in bytes; for a total, the size that divides the file into that many parts.
  function ChunkBytes(total: nat, chunkSize: nat, u: Unit): Option<nat>
    requires 0 < chunkSize <= MAX_INT
  {
    if u == Total then Some(Ceil(total, chunkSize)) else ChunkSizeToBytes(chunkSize, u)
  }

  /** When a request can be met: a size that fits, no chunk in the way, and as many bytes to read as the
      file was said to have. */
  ghost predicate Splittable(m: Machine, base: string, data: seq<int>, total: nat, chunkSize: int, u: Unit, minimum: nat)
  {
    && 0 < chunkSize <= MAX_INT && NoArtifact(m, base)
    && var size := ChunkBytes(total, chunkSize, u);
       size.Some? && size.value > 0 && size.value >= minimum && Min(Ceil(total, size.value) * size.value, |data|) == total
  }

  // What a finished split leaves: the pieces of the data, each under its own name, and no other name.
  ghost predicate SplitInto(m: Machine, base: string, owned: seq<Owned>, data: seq<int>, size: nat)
    reads m
  {
    && size > 0 && |owned| == Ceil(|data|, size) <= MAX_INT && Done(m, base, owned, data, size) && HoldingAll(m, owned)
    && (m.quiet ==> m.added.Keys == ChunkPaths(base, |owned|))
  }

  // When the input gave total bytes, its pieces are those of its first total bytes.
  lemma Truncated(m: Machine, base: string, owned: seq<Owned>, data: seq<int>, size: nat, total: nat)
    requires Done(m, base, owned, data, size) && Min(|owned| * size, |data|) == total
    ensures Done(m, base, owned, data[..total], size)
  {
    forall j: nat | j < |owned|
      ensures ChunkDone(m.View(), m.added, m.quiet, base, owned[j], Piece(data[..total], size, j), j)
    {
      assert ChunkDone(m.View(), m.added, m.quiet, base, owned[j], Piece(data, size, j), j);
      Grows(j, |owned|, size);
      Grows(j + 1, |owned|, size);
      assert Piece(data, size, j) == Piece(data[..total], size, j);
    }
  }

  lemma CountBound(total: nat, size: nat)
    requires size > 0
    ensures Ceil(total, size) <= total
  {
    var n := Ceil(total, size);
    if n > 0 {
      Grows(1, size, n - 1);
      assert (n - 1) * size == size * (n - 1);
    }
  }

  // What a failed split leaves when its cleanup reports nothing wrong: no name of a file of the run, but
  // for one stage at most, of which not even the identity was learnt.
  ghost predicate Gone(m: Machine, draw: nat -> string)
    reads m
  {
    LostStage(m, draw, m.FileNames())
  }

  lemma GoneFrom(m: Machine, draw: nat -> string, before: map<Path, nat>, files: set<nat>, lost: set<Path>)
    requires lost == {} || exists k: nat :: lost == {[draw(k)]} && [draw(k)] in before && before[[draw(k)]] in files && m.Loses(before[[draw(k)]])
    requires m.FileNames() == lost && files <= m.files && forall p <- m.added :: p in before && m.added[p] == before[p]
    ensures Gone(m, draw)
  {
    if lost != {} {
      var k: nat :| lost == {[draw(k)]} && [draw(k)] in before && before[[draw(k)]] in files && m.Loses(before[[draw(k)]]);
      assert [draw(k)] in m.FileNames();
      assert Forgotten(m, [draw(k)]);
    }
  }

  // The chunks, the last checks, and the deferred cleanup.
  method SplitChecked(m: Machine, src: Source, total: nat, base: string, n: nat, size: nat, draw: nat -> string)
    returns (ok: bool, chunks: seq<Owned>, clean: bool)
    requires m.Valid() && src.Valid() && Fresh(m) && src.pos == 0 && StageNames(m, base, draw) && n <= MAX_INT
    modifies m, src
    ensures clean ==> m.unclosed == old(m.unclosed)
    ensures m.Valid() && m.dirs == {}
    ensures ok ==> JustSeen(m, chunks)
    ensures ok ==> |chunks| == n && Min(n * size, |src.data|) == total && HoldingAll(m, chunks)
                   && Done(m, base, chunks, src.data, size) && (m.quiet ==> m.added.Keys == ChunkPaths(base, n))
    ensures !ok && clean ==> Gone(m, draw)
    ensures m.quiet && m.faultless ==> clean
    ensures m.quiet && m.faultless && src.faultless && NoArtifact(m, base) && FreeStages(m, draw) && Min(n * size, |src.data|) == total ==> ok
    ensures m.quiet && Forgetful(m) && FreeStages(m, draw) && n > 0 ==> !ok && clean && m.FileNames() == {[draw(0)]}
  {
    hide Unpack.Machine.Valid, IsSplitArtifact, ChunkName, DoneIn, StageNames, NoArtifact, FreeStages;
    var active, settled;
    ghost var lost;
    ok, active, chunks, settled, lost := SplitLoop(m, src, base, n, size, draw);
    if ok {
      ok := MatchAll(m, base, chunks, src.data, size);
      NamesKnown(m);
    }
    if ok && src.pos != total {
      ok := false;
    }
    if ok {
      ok := m.Step();
    }
    clean := true;
    if !ok {
      clean := Undo(m, active, chunks, draw, settled, lost);
    }
  }

  // The deferred cleanup; settled says that nothing was lost track of but what lost names.
  method Undo(m: Machine, active: seq<Owned>, chunks: seq<Owned>, draw: nat -> string, settled: bool, ghost lost: set<Path>) returns (clean: bool)
    requires m.Valid() && |active| <= 1 && HoldingAll(m, active) && HoldingAll(m, chunks) && m.dirs == {}
    requires settled ==> m.FileNames() <= Paths(active, 0) + Paths(chunks, 0) + lost
    requires lost != {} ==> active == [] && lost <= m.FileNames() && lost !! Paths(chunks, 0) && LostStage(m, draw, lost)
    requires active != [] ==> active[0].path in m.added
    modifies m
    ensures clean ==> settled && m.unclosed == old(m.unclosed)
    ensures m.Valid() && m.dirs == {}
    ensures clean ==> Gone(m, draw) && m.FileNames() == lost
    ensures m.quiet && m.faultless && settled ==> clean
    ensures settled && active == [] && chunks == [] ==> clean
  {
    NamesKnown(m);
    hide Unpack.Machine.Valid;
    ghost var before, files := m.added, m.files;
    clean := CleanupSplit(m, active, chunks);
    clean := clean && settled;
    if clean {
      GoneFrom(m, draw, before, files, lost);
    }
  }

  // The refusals, in order.
  method SplitUnlessRefused(m: Machine, src: Source, total: nat, base: string, chunkSize: int, u: Unit, minimum: nat, draw: nat -> string)
    returns (ok: bool, chunks: seq<Owned>, clean: bool, size: nat)
    requires m.Valid() && src.Valid() && Fresh(m) && src.pos == 0 && StageNames(m, base, draw)
    requires chunkSize <= MAX_INT && total <= MAX_INT && (u == Total ==> total > 0)
    modifies m, src
    ensures clean ==> m.unclosed == old(m.unclosed)
    ensures m.Valid() && m.dirs == {}
    ensures ok ==> JustSeen(m, chunks)
    ensures ok ==> total <= |src.data| && SplitInto(m, base, chunks, src.data[..total], size)
    ensures !ok && clean ==> Gone(m, draw)
    ensures m.quiet && m.faultless ==> clean
    ensures ok && m.quiet ==> Splittable(m, base, src.data, total, chunkSize, u, minimum)
    ensures m.quiet && m.faultless && src.faultless && FreeStages(m, draw) && Splittable(m, base, src.data, total, chunkSize, u, minimum) ==> ok
    ensures m.quiet && Forgetful(m) && FreeStages(m, draw) && total > 0 && Splittable(m, base, src.data, total, chunkSize, u, minimum) ==>
              !ok && clean && m.FileNames() == {[draw(0)]}
  {
    hide Unpack.Machine.Valid, IsSplitArtifact, ChunkName, DoneIn, Done, SplitInto, HoldingAll, ChunkPaths, StageNames, FreeStages, Ceil, Min, Gone;
    ok, chunks, clean, size := false, [], true, 0;
    NoNames(m, draw);
    if chunkSize <= 0 {
      return;
    }
    var bytes := ChunkBytes(total, chunkSize, u);
    if bytes.None? {
      return;
    }
    size := bytes.value;
    if minimum > 0 && size < minimum {
      return;
    }
    var listed, entries := ReadDir(m);
    NoNames(m, draw);
    if !listed {
      return;
    }
    if m.quiet {
      Artifacts(m, base);
    }
    if exists s <- entries :: IsSplitArtifact(base, s) {
      return;
    }
    CountBound(total, size);
    ok, chunks, clean := SplitChecked(m, src, total, base, Ceil(total, size), size, draw);
    if ok {
      FinishedSplit(m, base, chunks, src.data, size, total);
    }
  }

  /** split without the directory barrier: on success the chunks hold the file. On failure, when the
      cleanup reports nothing wrong, no name holds a file of this run but for one stage at most, of which
      not even the identity was learnt. On a quiet faultless machine the cleanup is clean, and a failed
      split leaves the names as they were. */
  method Split(m: Machine, src: Source, total: nat, base: string, chunkSize: int, u: Unit, minimum: nat, draw: nat -> string)
    returns (ok: bool, chunks: seq<Owned>, clean: bool, size: nat)
    requires m.Valid() && src.Valid() && Fresh(m) && src.pos == 0 && StageNames(m, base, draw)
    requires chunkSize <= MAX_INT && total <= MAX_INT && (u == Total ==> total > 0)
    modifies m, src
    ensures clean ==> m.unclosed == old(m.unclosed)
    ensures m.Valid() && m.dirs == {}
    ensures ok ==> JustSeen(m, chunks)
    ensures ok ==> total <= |src.data| && SplitInto(m, base, chunks, src.data[..total], size)
    ensures !ok && clean ==> Gone(m, draw)
    ensures !ok && clean ==> forall p <- m.names :: m.names[p] in m.files ==> m.Loses(m.names[p]) && exists k: nat :: p == [draw(k)]
    ensures !ok && clean ==> forall p, q :: p in m.names && q in m.names && m.names[p] in m.files && m.names[q] in m.files ==> p == q
    ensures m.quiet && m.faultless ==> clean && (!ok ==> m.names == m.base)
    ensures m.quiet ==> Unpack.OthersUntouched(m)
    ensures ok && m.quiet ==> Splittable(m, base, src.data, total, chunkSize, u, minimum)
    ensures m.quiet && m.faultless && src.faultless && FreeStages(m, draw) && Splittable(m, base, src.data, total, chunkSize, u, minimum) ==> ok
    ensures m.quiet && Forgetful(m) && FreeStages(m, draw) && total > 0 && Splittable(m, base, src.data, total, chunkSize, u, minimum) ==>
              !ok && clean && [draw(0)] in m.names && m.names[[draw(0)]] in m.files
  {
    hide Splittable, SplitInto, StageNames, FreeStages, Fresh, Unpack.Machine.Valid, Gone, Unpack.OthersUntouched, Forgetful;
    ok, chunks, clean, size := SplitUnlessRefused(m, src, total, base, chunkSize, u, minimum, draw);
    if m.quiet {
      Unpack.QuietUntouched(m);
    }
    if !ok && clean {
      NoDirs(m);
      OnlyForgotten(m, draw);
    }
  }

  // In terms of names: what is gone is gone.
  lemma OnlyForgotten(m: Machine, draw: nat -> string)
    requires m.Valid() && Gone(m, draw) && m.DirNames() == {}
    ensures forall p <- m.names :: m.names[p] in m.files ==> p in m.FileNames() && m.Loses(m.names[p]) && exists k: nat :: p == [draw(k)]
    ensures forall p, q :: p in m.names && q in m.names && m.names[p] in m.files && m.names[q] in m.files ==> p == q
    ensures m.quiet && m.faultless ==> m.names == m.base
    ensures m.quiet ==> forall p <- m.FileNames() :: p in m.names && m.names[p] in m.files
  {
    forall p | p in m.names && m.names[p] in m.files
      ensures p in m.FileNames() && m.Loses(m.names[p]) && exists k: nat :: p == [draw(k)]
    {
      m.FoundOwn(p);
    }
    if m.quiet {
      forall p | p in m.FileNames()
        ensures p in m.names && m.names[p] in m.files
      {
        m.QuietName(p);
      }
      if m.faultless {
        Unpack.NoFileLeft(m);
      }
    }
  }

  lemma NoDirs(m: Machine)
    requires m.dirs == {}
    ensures m.DirNames() == {}
  {
  }

  lemma FinishedSplit(m: Machine, base: string, owned: seq<Owned>, data: seq<int>, size: nat, total: nat)
    requires size > 0 && |owned| == Ceil(total, size) <= MAX_INT && Min(|owned| * size, |data|) == total
    requires Done(m, base, owned, data, size) && HoldingAll(m, owned) && (m.quiet ==> m.added.Keys == ChunkPaths(base, |owned|))
    ensures total <= |data| && SplitInto(m, base, owned, data[..total], size)
  {
    Truncated(m, base, owned, data, size, total);
  }

  lemma NoNames(m: Machine, draw: nat -> string)
    requires Fresh(m)
    ensures m.FileNames() == {} && Gone(m, draw)
  {
  }

  lemma Artifacts(m: Machine, base: string)
    requires m.Valid() && Fresh(m) && m.quiet
    ensures NoArtifact(m, base) <==> forall s: string :: [s] in m.names ==> !IsSplitArtifact(base, s)
  {
    forall s: string
      ensures [s] in m.names <==> [s] in m.base
    {
      FreeName(m, [s]);
    }
  }

  // ----- counting the chunks -----

  ghost function Names(m: Machine): set<string>
    reads m
  {
    set p | p in m.names && |p| == 1 :: p[0]
  }

  lemma NamesAre(m: Machine, s: string)
    ensures s in Names(m) <==> [s] in m.names
  {
    assert [s][0] == s;
    if s in Names(m) {
      var p :| p in m.names && |p| == 1 && p[0] == s;
      assert p == [s];
    }
  }

  // Readdirnames: each name once, in any order.
  method ReadNames(m: Machine) returns (ok: bool, listing: seq<string>)
    requires m.Valid()
    modifies m`names, m`nodes, m`next
    ensures m.Valid() && m.Same() && Distinct(listing)
    ensures m.quiet ==> Elements(listing) == Names(m)
    ensures m.faultless ==> ok
  {
    hide Unpack.Machine.Valid;
    var entries;
    ok, entries := ReadDir(m);
    ghost var all := entries;
    listing := [];
    while entries != {}
      invariant Distinct(listing) && (forall s <- listing :: s !in entries)
      invariant Elements(listing) + entries == all
    {
      var s :| s in entries;
      listing, entries := listing + [s], entries - {s};
    }
    if m.quiet {
      forall s
        ensures s in Elements(listing) <==> s in Names(m)
      {
        NamesAre(m, s);
      }
    }
  }

  // The indices, sorted, must be 0, 1, ...
  method CheckIndices(base: string, ghost listing: seq<string>, indexes: seq<nat>) returns (ok: bool, n: nat)
    requires Distinct(listing) && indexes == Indices(base, listing)
    ensures forall k: nat :: ok && k == n <==> Complete(base, Elements(listing), k)
    ensures n <= MAX_INT + 1
  {
    var sorted := Sort(indexes);
    n := |sorted|;
    ok := n > 0 && Consecutive(sorted);
    forall k: nat
      ensures ok && k == n <==> Complete(base, Elements(listing), k)
    {
      CompleteIffConsecutive(base, listing, sorted, k);
    }
    if ok {
      IndicesBound(base, listing);
      assert sorted[n - 1] in multiset(sorted) && sorted[n - 1] == n - 1;
      assert n - 1 in multiset(indexes);
      assert n - 1 in Indices(base, listing);
    } else {
      n := 0;
    }
  }

  // countChunks: exactly the complete sets are counted.
  method CountChunks(m: Machine, base: string) returns (ok: bool, n: nat)
    requires m.Valid()
    modifies m`names, m`nodes, m`next, m`sightings
    ensures m.Valid() && m.Same()
    ensures m.quiet && ok ==> Complete(base, old(Names(m)), n)
    ensures n <= MAX_INT + 1
    ensures m.quiet && m.faultless && (exists k: nat :: Complete(base, old(Names(m)), k)) ==> ok
  {
    m.FilesExist();
    hide Unpack.Machine.Valid, IndexOf, Complete;
    n := 0;
    var listing;
    ok, listing := ReadNames(m);
    if !ok {
      return;
    }
    var indexes := [];
    var i := 0;
    while i < |listing|
      invariant m.Valid() && m.Same() && i <= |listing| && ok && indexes == Indices(base, listing[..i])
      invariant m.quiet ==> Elements(listing) == Names(m)
    {
      var name := listing[i];
      var index := IndexOf(base, name);
      assert listing[..i + 1][..i] == listing[..i];
      if index.Some? {
        if m.quiet {
          NamesAre(m, name);
        }
        var stat := m.Lstat([name]);
        if !stat.Found? {
          return false, 0;
        }
        indexes := indexes + [index.value];
      }
      i := i + 1;
    }
    assert listing[..i] == listing;
    ok, n := CheckIndices(base, listing, indexes);
    assert m.quiet ==> Names(m) == old(Names(m));
  }

  // ----- recombining -----

  // The bytes under the canonical name of chunk i, if a file is there.
  ghost function ContentIn(names: map<Path, nat>, nodes: map<nat, Unpack.Node>, base: string, i: nat): Option<seq<int>>
  {
    var p := [ChunkName(base, i)];
    if p in names && names[p] in nodes && nodes[names[p]].File? then Some(nodes[names[p]].data) else None
  }

  // The first n chunks, joined.
  ghost function GatheredIn(names: map<Path, nat>, nodes: map<nat, Unpack.Node>, base: string, n: nat): seq<int>
  {
    if n == 0 then []
    else
      var c := ContentIn(names, nodes, base, n - 1);
      GatheredIn(names, nodes, base, n - 1) + if c.Some? then c.value else []
  }

  ghost predicate AllIn(names: map<Path, nat>, nodes: map<nat, Unpack.Node>, base: string, n: nat)
  {
    forall i: nat :: i < n ==> ContentIn(names, nodes, base, i).Some?
  }

  // Every name is of a file or directory of this run, or of something that was there from the start.
  ghost predicate Rooted(names: map<Path, nat>, v: Unpack.Inodes, baseNodes: map<nat, Unpack.Node>)
  {
    forall p <- names ::
      var id := names[p];
      id in v.nodes && (id in v.files || (id in v.dirs && v.nodes[id] == Unpack.Dir) || (id in baseNodes && v.nodes[id] == baseNodes[id]))
  }

  lemma QuietRooted(m: Machine)
    requires m.Valid() && m.quiet
    ensures Rooted(m.names, m.View(), m.baseNodes)
  {
    forall p | p in m.names
      ensures var id := m.names[p];
              id in m.nodes && (id in m.files || (id in m.dirs && m.nodes[id] == Unpack.Dir) || (id in m.baseNodes && m.nodes[id] == m.baseNodes[id]))
    {
      assert m.NameOk(p) && m.NodeOk(m.names[p]);
    }
  }

  // The earlier files of this run are as they were.
  ghost predicate KeptSince(m: Machine, v: Unpack.Inodes)
    reads m
  {
    v.files <= m.files && v.dirs <= m.dirs && v.linked <= m.linked && v.doubts <= m.doubts && forall i <- v.files :: i in v.nodes && i in m.nodes && m.nodes[i] == v.nodes[i]
  }

  // So while only a new output is written the chunks stay what they were.
  lemma ContentSame(m: Machine, base: string, i: nat, v: Unpack.Inodes, names: map<Path, nat>, output: Path, out: nat)
    requires m.Valid() && m.quiet && KeptSince(m, v) && Rooted(names, v, m.baseNodes)
    requires output != [ChunkName(base, i)] && m.names == names[output := out]
    ensures ContentIn(m.names, m.nodes, base, i) == ContentIn(names, v.nodes, base, i)
  {
    var p := [ChunkName(base, i)];
    if p in names {
      assert m.NodeOk(names[p]);
    }
  }

  // One chunk, read to its end in short reads and appended to the output.
  method AppendChunk(m: Machine, src: Source, out: nat) returns (ok: bool)
    requires m.Valid() && src.Valid() && src.pos == 0 && out in m.files && out in m.nodes && m.nodes[out].File?
    modifies m, src
    ensures m.Valid() && m.files == old(m.files) && m.dirs == old(m.dirs) && m.added == old(m.added)
    ensures m.OthersKept(out) && (m.quiet ==> m.names == old(m.names))
    ensures out in m.nodes && m.nodes[out].File? && (ok ==> m.nodes[out] == Unpack.File(old(m.nodes[out].data) + src.data))
    ensures m.faultless && src.faultless ==> ok
  {
    m.FilesExist();
    hide Unpack.Machine.Valid;
    ghost var start := m.nodes[out].data;
    assert start + src.data[..0] == start;
    while true
      invariant m.Valid() && src.Valid() && m.files == old(m.files) && m.dirs == old(m.dirs) && m.added == old(m.added)
      invariant m.OthersKept(out) && (m.quiet ==> m.names == old(m.names))
      invariant out in m.nodes && m.nodes[out] == Unpack.File(start + src.data[..src.pos])
      decreases |src.data| - src.pos
    {
      var going := m.Step();
      if !going {
        return false;
      }
      ghost var at := src.pos;
      var p, eof, failed := src.Read(MIB);
      assert src.data[..at] + p == src.data[..src.pos];
      if p != [] {
        var wrote := m.Write(out, p);
        if !wrote {
          return false;
        }
        assert start + src.data[..at] + p == start + (src.data[..at] + p);
      }
      if eof {
        break;
      }
      if failed {
        return false;
      }
    }
    assert src.data[..src.pos] == src.data;
    ok := true;
  }

  // Opens chunk i: its bytes as they are then.
  method OpenChunk(m: Machine, base: string, i: nat) returns (src: seq<Source>)
    requires m.Valid()
    modifies m`names, m`nodes, m`next, m`sightings
    ensures m.Valid() && m.Same() && |src| <= 1
    ensures forall s <- src :: fresh(s) && s.Valid() && s.pos == 0 && s.faultless == m.faultless
    ensures m.quiet && src != [] ==> ContentIn(m.names, m.nodes, base, i) == Some(src[0].data)
    ensures m.quiet && m.faultless && ContentIn(m.names, m.nodes, base, i).Some? ==> src != []
  {
    hide Unpack.Machine.Valid;
    src := [];
    var found := m.Lstat([ChunkName(base, i)]);
    if found.Found? && found.node.File? {
      var s := new Source(found.node.data, m.faultless);
      src := [s];
    }
  }

  // The loop over the chunks.
  method CopyChunks(m: Machine, base: string, n: nat, output: Path, out: nat, ghost v: Unpack.Inodes, ghost names: map<Path, nat>)
    returns (ok: bool)
    requires m.Valid() && out in m.files && out !in v.files && out in m.nodes && m.nodes[out] == Unpack.File([]) && KeptSince(m, v)
    requires forall i: nat :: i < n ==> output != [ChunkName(base, i)]
    requires m.quiet ==> m.names == names[output := out] && Rooted(names, v, m.baseNodes)
    modifies m
    ensures m.unclosed == old(m.unclosed)
    ensures m.Valid() && m.files == old(m.files) && m.dirs == old(m.dirs) && m.added == old(m.added) && KeptSince(m, v)
    ensures m.quiet ==> m.names == old(m.names)
    ensures m.quiet && ok ==> AllIn(names, v.nodes, base, n) && out in m.nodes && m.nodes[out] == Unpack.File(GatheredIn(names, v.nodes, base, n))
    ensures m.quiet && m.faultless && AllIn(names, v.nodes, base, n) ==> ok
  {
    hide Unpack.Machine.Valid, ContentIn, Rooted;
    ok := true;
    for i := 0 to n
      invariant ok && m.Valid() && m.files == old(m.files) && m.dirs == old(m.dirs) && m.added == old(m.added) && KeptSince(m, v)
      invariant m.quiet ==> m.names == old(m.names) && AllIn(names, v.nodes, base, i)
      invariant out in m.nodes && m.nodes[out].File? && m.unclosed == old(m.unclosed)
      invariant m.quiet ==> m.nodes[out] == Unpack.File(GatheredIn(names, v.nodes, base, i))
    {
      ok := m.Step();
      if !ok {
        return;
      }
      var source := OpenChunk(m, base, i);
      if m.quiet {
        ContentSame(m, base, i, v, names, output, out);
      }
      if source == [] {
        return false;
      }
      assert source[0] in source;
      ok := AppendChunk(m, source[0], out);
      if !ok {
        return;
      }
      ok := m.Step();
      if !ok {
        return;
      }
    }
  }

  // When a set can be recombined: complete, every chunk a file of its canonical name, the output name free.
  ghost predicate Recombinable(m: Machine, base: string, output: Path)
    reads m
  {
    && output !in m.names && m.IsDir(Unpack.Parent(output))
    && exists n: nat :: Complete(base, Names(m), n) && AllIn(m.names, m.nodes, base, n)
  }

  // The chunks into an output just created, then the last check.
  method FillOutput(m: Machine, base: string, n: nat, o: Owned, ghost v: Unpack.Inodes, ghost names: map<Path, nat>) returns (ok: bool)
    requires m.Valid() && Holding(m, o) && o.path in m.added && o.info !in v.files && KeptSince(m, v)
    requires o.info in m.nodes && m.nodes[o.info] == Unpack.File([])
    requires forall i: nat :: i < n ==> o.path != [ChunkName(base, i)]
    requires m.quiet ==> m.names == names[o.path := o.info] && Rooted(names, v, m.baseNodes)
    modifies m
    ensures m.unclosed == old(m.unclosed)
    ensures m.Valid() && m.files == old(m.files) && m.dirs == old(m.dirs) && m.added == old(m.added) && KeptSince(m, v)
    ensures m.quiet ==> m.names == old(m.names)
    ensures ok ==> JustSeen(m, [o])
    ensures ok ==> o.info !in m.unsynced
    ensures m.quiet && ok ==> AllIn(names, v.nodes, base, n) && o.info in m.nodes
                              && m.nodes[o.info] == Unpack.File(GatheredIn(names, v.nodes, base, n))
    ensures m.quiet && m.faultless && AllIn(names, v.nodes, base, n) ==> ok
  {
    hide Unpack.Machine.Valid, Rooted, AllIn, GatheredIn;
    ok := CopyChunks(m, base, n, o.path, o.info, v, names);
    if !ok {
      return;
    }
    ok := m.Sync(o.info);
    if !ok {
      return;
    }
    ok := Matches(m, o);
  }

  // After a failure with a clean removal: the output is not there, unless not even its identity was learnt.
  ghost predicate Cleared(m: Machine, before: set<Path>, output: Path)
    reads m
  {
    forall p <- m.FileNames() :: p in before || (p == output && Forgotten(m, output))
  }

  // The output is created, filled, and taken away again if that fails.
  method WriteOutput(m: Machine, base: string, output: Path, n: nat) returns (ok: bool, out: nat, clean: bool)
    requires m.Valid() && output != [] && forall i: nat :: i < n ==> output != [ChunkName(base, i)]
    modifies m
    ensures m.Valid() && old(m.files) <= m.files && m.dirs == old(m.dirs) && m.FilesKept()
    ensures ok ==> JustSeen(m, [Owned(output, out)])
    ensures ok ==> out in m.files && out !in old(m.files) && out !in m.unsynced && m.added == old(m.added)[output := out]
    ensures m.quiet && ok ==>
              && AllIn(old(m.names), old(m.nodes), base, n) && output !in old(m.names) && m.names == old(m.names)[output := out]
              && out in m.nodes && m.nodes[out] == Unpack.File(GatheredIn(old(m.names), old(m.nodes), base, n))
    ensures !ok && clean ==> Cleared(m, old(m.FileNames()), output)
    ensures m.quiet && !ok && clean ==>
              m.names == old(m.names) || (output in m.names && m.Loses(m.names[output]) && m.names == old(m.names)[output := m.names[output]])
    ensures m.quiet && m.faultless ==> clean
    ensures m.quiet && m.faultless && output !in old(m.names) && old(m.IsDir(Unpack.Parent(output))) && AllIn(old(m.names), old(m.nodes), base, n) ==> ok
  {
    m.FilesExist();
    NamesKnown(m);
    if m.quiet {
      QuietRooted(m);
    }
    hide Unpack.Machine.Valid, Rooted, AllIn, GatheredIn;
    ghost var v, names, added := m.View(), m.names, m.added;
    ok, out, clean := false, 0, true;
    var made := m.Create(output);
    if made.None? {
      return;
    }
    out := made.value;
    GrownNames(m, added, v.files, {output});
    var identity := m.StatOpen(out);
    if identity.None? {
      return;
    }
    ok, clean := FillOrRemove(m, base, n, Owned(output, out), v, names);
  }

  method FillOrRemove(m: Machine, base: string, n: nat, o: Owned, ghost v: Unpack.Inodes, ghost names: map<Path, nat>) returns (ok: bool, clean: bool)
    requires m.Valid() && Holding(m, o) && o.path in m.added && o.info !in v.files && KeptSince(m, v)
    requires o.info in m.nodes && m.nodes[o.info] == Unpack.File([])
    requires forall i: nat :: i < n ==> o.path != [ChunkName(base, i)]
    requires m.quiet ==> o.path !in names && m.names == names[o.path := o.info] && Rooted(names, v, m.baseNodes)
    modifies m
    ensures m.unclosed == old(m.unclosed)
    ensures m.Valid() && m.files == old(m.files) && m.dirs == old(m.dirs) && KeptSince(m, v)
    ensures ok ==> JustSeen(m, [o])
    ensures ok ==> clean && o.info !in m.unsynced && m.added == old(m.added)
    ensures m.quiet && ok ==> m.names == old(m.names) && AllIn(names, v.nodes, base, n) && o.info in m.nodes
                              && m.nodes[o.info] == Unpack.File(GatheredIn(names, v.nodes, base, n))
    ensures !ok && clean ==> m.FileNames() == old(m.FileNames()) - {o.path} && (m.quiet ==> m.names == names)
    ensures m.quiet && m.faultless ==> clean && (AllIn(names, v.nodes, base, n) ==> ok)
  {
    hide Unpack.Machine.Valid, Rooted, AllIn, GatheredIn;
    clean := true;
    ok := FillOutput(m, base, n, o, v, names);
    if ok {
      ok := m.Step();
    }
    if !ok {
      clean := RemoveOwned(m, o);
    }
  }

  /** Recombine into a new output: on success it holds exactly the chunks in order, synced. After a failure
      with a clean removal the output is not there, unless not even its identity was learnt, and nothing
      else is touched. On a quiet machine only a complete set is accepted; on a faultless one the removal
      is clean. */
  method Recombine(m: Machine, base: string, output: Path) returns (ok: bool, out: nat, clean: bool, ghost n: nat)
    requires m.Valid() && output != [] && forall i: nat :: i <= MAX_INT ==> output != [ChunkName(base, i)]
    modifies m
    ensures m.Valid() && old(m.files) <= m.files && m.dirs == old(m.dirs) && m.FilesKept()
    ensures ok ==> JustSeen(m, [Owned(output, out)])
    ensures ok ==> out in m.files && out !in old(m.files) && out !in m.unsynced && m.added == old(m.added)[output := out]
    ensures m.quiet && ok ==>
              && Complete(base, old(Names(m)), n) && AllIn(old(m.names), old(m.nodes), base, n) && output !in old(m.names)
              && m.names == old(m.names)[output := out]
              && out in m.nodes && m.nodes[out] == Unpack.File(GatheredIn(old(m.names), old(m.nodes), base, n))
    ensures !ok && clean ==> Cleared(m, old(m.FileNames()), output)
    ensures m.quiet && !ok && clean ==>
              m.names == old(m.names) || (output in m.names && m.Loses(m.names[output]) && m.names == old(m.names)[output := m.names[output]])
    ensures m.quiet && m.faultless ==> clean && (!ok ==> m.names == old(m.names))
    ensures m.quiet ==> Unpack.OthersUntouched(m)
    ensures m.quiet && m.faultless && old(Recombinable(m, base, output)) ==> ok
    ensures m.quiet && m.faultless && |output| == 1 ==> (ok <==> old(Recombinable(m, base, output)))
  {
    m.FilesExist();
    hide Unpack.Machine.Valid, Rooted, AllIn, GatheredIn, Complete, Unpack.OthersUntouched;
    n, out, clean := 0, 0, true;
    var count;
    ok, count := CountChunks(m, base);
    if ok {
      n := count;
      if m.quiet && old(Recombinable(m, base, output)) {
        CountIsKnown(base, old(Names(m)), old(m.names), old(m.nodes), n);
      }
      ok, out, clean := WriteOutput(m, base, output, count);
    }
    if m.quiet {
      Unpack.QuietUntouched(m);
    }
  }

  // A set is complete for one count only.
  lemma CountIsKnown(base: string, names: set<string>, entries: map<Path, nat>, nodes: map<nat, Unpack.Node>, n: nat)
    requires Complete(base, names, n) && exists k: nat :: Complete(base, names, k) && AllIn(entries, nodes, base, k)
    ensures AllIn(entries, nodes, base, n)
  {
    var k: nat :| Complete(base, names, k) && AllIn(entries, nodes, base, k);
    assert NamesIndex(base, names, n) <==> n < k;
    assert NamesIndex(base, names, k) <==> k < n;
  }

  // ----- there and back -----

  lemma ChunkAmong(base: string, k: nat, s: string)
    requires k <= MAX_INT
    ensures [s] in ChunkPaths(base, k) <==> exists i: nat :: i < k && s == ChunkName(base, i)
  {
    if [s] in ChunkPaths(base, k) {
      var i :| 0 <= i < k && [s] == [ChunkName(base, i)];
      assert [s][0] == [ChunkName(base, i)][0];
    }
  }

  // After a split the only names that stand for a chunk are those it made.
  lemma OnlyChunks(m: Machine, base: string, k: nat, s: string)
    requires m.Valid() && m.quiet && m.added.Keys == ChunkPaths(base, k) && NoArtifact(m, base) && k <= MAX_INT
    ensures s in Names(m) && IndexOf(base, s).Some? ==> exists i: nat :: i < k && s == ChunkName(base, i)
    ensures forall i: nat :: i < k ==> ChunkName(base, i) in Names(m)
  {
    NamesAre(m, s);
    FreeName(m, [s]);
    ChunkAmong(base, k, s);
    if IndexOf(base, s).Some? {
      ChunkIsArtifact(base, s);
    }
    forall i: nat | i < k
      ensures ChunkName(base, i) in Names(m)
    {
      assert [ChunkName(base, i)] in m.added;
      m.QuietName([ChunkName(base, i)]);
      NamesAre(m, ChunkName(base, i));
    }
  }

  lemma SplitIsComplete(m: Machine, base: string, k: nat)
    requires m.Valid() && m.quiet && m.added.Keys == ChunkPaths(base, k) && NoArtifact(m, base) && 0 < k <= MAX_INT
    ensures Complete(base, Names(m), k)
  {
    hide Unpack.Machine.Valid, NoArtifact, ChunkPaths, IsSplitArtifact, IndexOf, ChunkName;
    forall s, t | s in Names(m) && t in Names(m) && IndexOf(base, s).Some? && IndexOf(base, s) == IndexOf(base, t)
      ensures s == t && IndexOf(base, s).value < k
    {
      OnlyChunks(m, base, k, s);
      OnlyChunks(m, base, k, t);
      var i: nat :| i < k && s == ChunkName(base, i);
      var j: nat :| j < k && t == ChunkName(base, j);
      ChunkIndex(base, i);
      ChunkIndex(base, j);
    }
    forall i: nat
      ensures NamesIndex(base, Names(m), i) <==> i < k
    {
      OnlyChunks(m, base, k, ChunkName(base, i));
      ChunkIndex(base, i);
      if NamesIndex(base, Names(m), i) {
        var s :| s in Names(m) && IndexOf(base, s) == Some(i);
        assert IndexOf(base, s).value < k;
      }
    }
  }

  // Its chunks hold, in order, the pieces of the data.
  lemma {:induction false} SplitGathers(m: Machine, base: string, owned: seq<Owned>, data: seq<int>, size: nat, n: nat)
    requires m.Valid() && m.quiet && Done(m, base, owned, data, size) && n <= |owned|
    ensures AllIn(m.names, m.nodes, base, n) && GatheredIn(m.names, m.nodes, base, n) == Pieces(data, size, n)
  {
    if n > 0 {
      SplitGathers(m, base, owned, data, size, n - 1);
      var o := owned[n - 1];
      assert ChunkDone(m.View(), m.added, m.quiet, base, o, Piece(data, size, n - 1), n - 1);
      m.QuietName(o.path);
    }
  }

  /** Split, then Recombine, on a quiet machine: however short the reads, the output is the input; and
      when nothing fails both succeed. */
  method SplitThenRecombine(m: Machine, src: Source, base: string, chunkSize: int, u: Unit, minimum: nat, draw: nat -> string, output: string)
    returns (split: bool, joined: bool, out: nat)
    requires m.Valid() && m.quiet && src.Valid() && Fresh(m) && src.pos == 0 && StageNames(m, base, draw)
    requires chunkSize <= MAX_INT && 0 < |src.data| <= MAX_INT && !IsSplitArtifact(base, output)
    modifies m, src
    ensures joined ==> split && [output] in m.names && m.names[[output]] == out && out in m.nodes && m.nodes[out] == Unpack.File(src.data)
    ensures m.faultless && src.faultless && FreeStages(m, draw) && [output] !in m.base && Splittable(m, base, src.data, |src.data|, chunkSize, u, minimum) ==>
              joined
  {
    hide SplitInto, StageNames, FreeStages, Fresh, IsSplitArtifact, Unpack.Machine.Valid, Complete, Recombinable, ChunkName;
    joined, out := false, 0;
    var chunks, clean, size;
    split, chunks, clean, size := Split(m, src, |src.data|, base, chunkSize, u, minimum, draw);
    assert src.data[..|src.data|] == src.data;
    if !split {
      return;
    }
    SplitReady(m, base, chunks, src.data, size, output);
    NotChunk(base, output);
    var swept;
    ghost var count;
    joined, out, swept, count := Recombine(m, base, [output]);
  }

  lemma NotChunk(base: string, s: string)
    requires !IsSplitArtifact(base, s)
    ensures forall i: nat :: i <= MAX_INT ==> [s] != [ChunkName(base, i)]
  {
    forall i: nat | i <= MAX_INT
      ensures [s] != [ChunkName(base, i)]
    {
      assert [s][0] == s && [ChunkName(base, i)][0] == ChunkName(base, i);
      ChunkIndex(base, i);
      ChunkIsArtifact(base, ChunkName(base, i));
    }
  }

  // What a finished split means for Recombine.
  lemma SplitReady(m: Machine, base: string, owned: seq<Owned>, data: seq<int>, size: nat, output: string)
    requires m.Valid() && m.quiet && SplitInto(m, base, owned, data, size) && NoArtifact(m, base) && data != []
    requires !IsSplitArtifact(base, output)
    ensures Complete(base, Names(m), |owned|) && AllIn(m.names, m.nodes, base, |owned|)
    ensures GatheredIn(m.names, m.nodes, base, |owned|) == data
    ensures [output] !in m.base ==> Recombinable(m, base, [output])
    ensures forall n: nat :: Complete(base, Names(m), n) ==> n == |owned|
  {
    PlanIsExact(data, size);
    SplitIsComplete(m, base, |owned|);
    SplitGathers(m, base, owned, data, size, |owned|);
    OtherName(base, |owned|, output);
    FreeName(m, [output]);
    forall n: nat | Complete(base, Names(m), n)
      ensures n == |owned|
    {
      assert NamesIndex(base, Names(m), n) <==> n < |owned|;
      assert NamesIndex(base, Names(m), |owned|) <==> |owned| < n;
    }
  }

  // The two names count as a complete set, and the set cannot be recombined.
  lemma NotCanonical(m: Machine, output: Path)
    requires m.names.Keys == {["b.0"], ["b.01"]}
    ensures Complete("b", Names(m), 2) && !AllIn(m.names, m.nodes, "b", 2) && !Recombinable(m, "b", output)
  {
    CountedByIndex();
    forall s
      ensures s in Names(m) <==> s in {"b.0", "b.01"}
    {
      NamesAre(m, s);
      assert [s][0] == s && ["b.0"][0] == "b.0" && ["b.01"][0] == "b.01";
    }
    assert Names(m) == {"b.0", "b.01"};
    assert [ChunkName("b", 1)] !in m.names by {
      assert "b.1"[2] != "b.0"[2] && |"b.1"| != |"b.01"|;
      assert ["b.1"][0] != ["b.0"][0] && ["b.1"][0] != ["b.01"][0];
    }
    assert ContentIn(m.names, m.nodes, "b", 1).None?;
    if exists n: nat :: Complete("b", Names(m), n) && AllIn(m.names, m.nodes, "b", n) {
      CountIsKnown("b", Names(m), m.names, m.nodes, 2);
    }
  }

  // A machine whose only fault is that the identity of a new file cannot be learnt: the split of one byte
  // fails, its cleanup reports nothing wrong, and its stage is still there.
  method StageStaysBehind() returns (m: Machine, ok: bool, clean: bool)
    ensures m.Valid() && !ok && clean
    ensures ["s"] in m.names && m.names[["s"]] in m.files
  {
    m := new Unpack.Machine(true, false, true, _ => true, map[], map[], 0);
    var src := new Source([7], true);
    var draw: nat -> string := _ => "s";
    assert UnitBytes(KiB) == 1024 && ChunkBytes(1, 1, KiB) == Some(1024);
    assert Ceil(1, 1024) == 1;
    assert !IsSplitArtifact("b", "s") by {
      assert !("b" + "." <= "s");
    }
    assert m.base == map[];
    assert Splittable(m, "b", src.data, 1, 1, KiB, 0);
    var chunks, size;
    ok, chunks, clean, size := Split(m, src, 1, "b", 1, KiB, 0, draw);
  }
}
