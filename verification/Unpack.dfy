/** Transactional extraction (unpack.go): everything is staged first, then published without
    replacing anything, and the reported state is true whatever filesystem step fails. */
module Unpack {
  import opened Common

  // A path below the extraction root, by components; [] is the root.
  type Path = seq<string>

  datatype Node = File(data: seq<int>) | Dir | Symlink

  // Lstat and Stat.
  datatype Stat = Missing | Fault | Found(id: nat, node: Node)

  // What is known of inodes at one moment.
  datatype Inodes = Inodes(files: set<nat>, dirs: set<nat>, nodes: map<nat, Node>, unsynced: set<nat>, linked: set<(Path, nat)>, doubts: set<Path>)

  function Parent(p: Path): Path
  {
    if p == [] then [] else p[..|p| - 1]
  }

  /** The filesystem below the root. Any step may fail and then has no effect, except that a failing
      write leaves any content. Unless it is quiet, others add, remove and replace names between any
      two steps, but give no new name to an inode of this run. Identities are not reused. */
  class Machine {
    const quiet: bool
    const faultless: bool
    // A steady machine has one kind of fault only: the first Stat of the new inodes that it loses.
    const steady: bool
    const loses: nat -> bool
    var names: map<Path, nat>
    var nodes: map<nat, Node>
    var next: nat
    // Directories whose entries this run changed since their last sync, and files written since theirs.
    var dirty: set<Path>
    var unsynced: set<nat>
    // What this run created.
    var files: set<nat>
    var dirs: set<nat>

    ghost const base: map<Path, nat>
    ghost const baseNodes: map<nat, Node>
    // The names that may hold something this run created.
    ghost var added: map<Path, nat>
    // Every name this run ever gave to an inode, by creating it or by a link.
    ghost var linked: set<(Path, nat)>
    // The names whose removal was asked for and not proven, and whether the root was found to have moved.
    ghost var doubts: set<Path>
    ghost var moved: bool
    // The last look at the root found it in its place.
    ghost var rooted: bool
    // The closes of the cleanup that failed.
    ghost var unclosed: nat
    // What a look at a name found, look after look.
    ghost var sightings: seq<(Path, nat)>

    constructor (quiet: bool, faultless: bool, steady: bool, loses: nat -> bool, names: map<Path, nat>, nodes: map<nat, Node>, next: nat)
      requires forall p <- names :: names[p] in nodes
      requires forall i <- nodes :: i < next
      requires forall p <- names :: InTree(names, nodes, p)
      ensures Valid() && base == this.names == names && baseNodes == this.nodes == nodes
      ensures added == map[] && files == {} && dirs == {} && dirty == {} && unsynced == {} && doubts == {} && !moved
      ensures this.quiet == quiet && this.faultless == faultless && this.steady == steady && this.loses == loses
    {
      this.steady, this.loses := steady, loses;
      this.quiet, this.faultless, this.names, this.nodes, this.next := quiet, faultless, names, nodes, next;
      base, baseNodes, added, linked := names, nodes, map[], {};
      dirty, unsynced, files, dirs := {}, {}, {}, {};
      doubts, moved, rooted, sightings, unclosed := {}, false, false, [], 0;
    }

    // A filesystem is a tree: a name stands in the root or in a directory.
    static predicate InTree(names: map<Path, nat>, nodes: map<nat, Node>, p: Path)
    {
      p == [] || Parent(p) == [] || (Parent(p) in names && names[Parent(p)] in nodes && nodes[names[Parent(p)]] == Dir)
    }

    ghost predicate Own(i: nat)
      reads this`files, this`dirs
    {
      i in files || i in dirs
    }

    // Every name of something of this run is on the list; on a quiet machine the names are exactly
    // the original ones and the list.
    ghost predicate NameOk(p: Path)
      reads this
    {
      && (p in names ==> names[p] in nodes && (Own(names[p]) ==> p in added && added[p] == names[p]))
      && (p in added ==> Own(added[p]) && (p, added[p]) in linked)
      && (p in base ==> base[p] in baseNodes && InTree(base, baseNodes, p))
      && (quiet ==>
            && (p in base ==> p !in added && p in names && names[p] == base[p])
            && (p in added ==> p in names && names[p] == added[p])
            && (p in names ==> p in base || p in added))
    }

    ghost predicate NodeOk(i: nat)
      reads this
    {
      && (i in nodes ==> i < next)
      && (i in files ==> i !in dirs && i in nodes && nodes[i].File?)
      && (i in dirs ==> i in nodes && nodes[i] == Dir)
      && (i in baseNodes ==> i < next && !Own(i) && (quiet ==> i in nodes && nodes[i] == baseNodes[i]))
      && (i in unsynced ==> i in files)
    }

    ghost predicate Valid()
      reads this
    {
      (forall p :: NameOk(p)) && (forall i :: NodeOk(i))
    }

    lemma FilesExist()
      requires Valid()
      ensures forall i <- files :: i in nodes && nodes[i].File?
      ensures forall p <- names :: names[p] in nodes
    {
      forall i | i in files
        ensures i in nodes && nodes[i].File?
      {
        assert NodeOk(i);
      }
      forall p | p in names
        ensures names[p] in nodes
      {
        assert NameOk(p);
      }
    }

    // What was known of a name before a step.
    twostate lemma Seen(q: Path)
      requires old(Valid())
      ensures old(NameOk(q)) && old(NodeOk(next))
      ensures q in old(names) ==> old(NodeOk(names[q]))
      ensures q in old(added) ==> old(NodeOk(added[q]))
    {
      assert old(NameOk(q));
    }

    // What others may do between two steps.
    predicate Tolerable(names': map<Path, nat>, nodes': map<nat, Node>, next': nat)
      reads this
    {
      && next <= next'
      && (forall i <- nodes' :: i < next')
      && (forall i <- files :: i in nodes' && i in nodes && nodes'[i] == nodes[i])
      && (forall i <- dirs :: i in nodes' && i in nodes && nodes'[i] == nodes[i])
      && (forall p <- names' :: names'[p] in nodes')
      && (forall p <- names' :: names'[p] in files || names'[p] in dirs ==> p in names && names[p] == names'[p])
    }

    // The names on the list stay, each with what it held.
    twostate predicate NamesKept()
      reads this
    {
      forall p <- old(added) :: p in added && added[p] == old(added)[p]
    }

    twostate predicate FilesKept()
      reads this
    {
      FilesStay() && unclosed == old(unclosed)
    }

    twostate predicate FilesStay()
      reads this
    {
      old(linked) <= linked && old(doubts) <= doubts && forall i <- old(files) :: i in old(nodes) && i in nodes && nodes[i] == old(nodes[i])
    }

    // Nothing of this run changed; on a quiet machine nothing at all.
    twostate predicate Same()
      reads this
    {
      Alike() && unclosed == old(unclosed)
    }

    twostate predicate Alike()
      reads this
    {
      && files == old(files) && dirs == old(dirs) && added == old(added) && dirty == old(dirty) && unsynced == old(unsynced)
      && FilesStay()
      && (quiet ==> names == old(names) && nodes == old(nodes))
    }

    method Disturb()
      requires Valid()
      modifies this`names, this`nodes, this`next
      ensures Valid() && Same()
    {
      FilesExist();
      label D:
      var names', nodes', next' := *, *, *;
      if !quiet && Tolerable(names', nodes', next') {
        names, nodes, next := names', nodes', next';
        forall q ensures NameOk(q) { Seen@D(q); }
        forall i: nat ensures NodeOk(i) { assert old@D(NodeOk(i)); }
      }
    }

    predicate IsDir(p: Path)
      reads this
    {
      p == [] || (p in names && names[p] in nodes && nodes[names[p]] == Dir)
    }

    method Lstat(p: Path) returns (s: Stat)
      requires Valid()
      modifies this`names, this`nodes, this`next, this`sightings
      ensures Valid() && Same()
      ensures sightings == old(sightings) + if s.Found? then [(p, s.id)] else []
      ensures s.Found? ==> p in names && names[p] == s.id && s.id in nodes && nodes[s.id] == s.node
      ensures s.Missing? ==> p !in names
      ensures faultless ==> !s.Fault?
    {
      Disturb();
      FilesExist();
      var fault: bool := *;
      s := if fault && !faultless then Fault else if p in names then Found(names[p], nodes[names[p]]) else Missing;
      label D:
      sightings := sightings + if s.Found? then [(p, s.id)] else [];
      forall q ensures NameOk(q) { Seen@D(q); }
      forall i: nat ensures NodeOk(i) { assert old@D(NodeOk(i)); }
    }

    // The identity of this new inode cannot be learnt.
    predicate Loses(id: nat)
    {
      loses(id) && !faultless
    }

    // Stat of an open file: its identity. It is asked once for each new inode.
    method StatOpen(id: nat) returns (s: Option<nat>)
      requires Valid() && id in files
      ensures s == if Loses(id) then None else Some(id)
    {
      s := if Loses(id) then None else Some(id);
    }

    // The names stay in order when a new inode of this run is put under a free one.
    twostate lemma InsertedNames(p: Path)
      requires old(Valid()) && p !in old(names) && names == old(names)[p := old(next)] && added == old(added)[p := old(next)]
      requires old(next) in nodes && nodes == old(nodes)[old(next) := nodes[old(next)]] && linked == old(linked) + {(p, old(next))}
      requires (files == old(files) + {old(next)} && dirs == old(dirs)) || (files == old(files) && dirs == old(dirs) + {old(next)})
      ensures forall q :: NameOk(q)
    {
      assert old(NodeOk(next));
      forall q
        ensures NameOk(q)
      {
        Seen(q);
      }
    }

    twostate lemma InsertedNodes(node: Node)
      requires old(Valid()) && nodes == old(nodes)[old(next) := node] && node in {File([]), Dir} && next == old(next) + 1
      requires files == old(files) + (if node.File? then {old(next)} else {}) && dirs == old(dirs) + (if node.File? then {} else {old(next)})
      requires unsynced == old(unsynced) + (if node.File? then {old(next)} else {})
      ensures forall i :: NodeOk(i)
    {
      forall i: nat
        ensures NodeOk(i)
      {
        assert old(NodeOk(i)) && old(NodeOk(next));
      }
    }

    // A new inode under a name that is free.
    method InsertFile(p: Path) returns (id: nat)
      requires Valid() && p !in names
      modifies this
      ensures Valid() && id == old(next) && id in nodes && nodes[id] == File([])
      ensures id !in old(files) && id !in old(dirs) && id !in old(nodes) && OthersKept(id)
      ensures files == old(files) + {id} && dirs == old(dirs) && unsynced == old(unsynced) + {id}
      ensures added == old(added)[p := id] && names == old(names)[p := id] && dirty == old(dirty) + {Parent(p)}
    {
      FilesExist();
      assert NodeOk(next);
      hide NameOk, NodeOk;
      id := next;
      nodes, names, added := nodes[id := File([])], names[p := id], added[p := id];
      files, unsynced, dirty, next, linked := files + {id}, unsynced + {id}, dirty + {Parent(p)}, next + 1, linked + {(p, id)};
      InsertedNames(p);
      InsertedNodes(File([]));
    }

    method InsertDir(p: Path) returns (id: nat)
      requires Valid() && p !in names
      modifies this
      ensures Valid() && id == old(next) && id in nodes && nodes[id] == Dir
      ensures id !in old(files) && id !in old(dirs) && id !in old(nodes) && OthersKept(id)
      ensures files == old(files) && dirs == old(dirs) + {id} && unsynced == old(unsynced)
      ensures added == old(added)[p := id] && names == old(names)[p := id] && dirty == old(dirty) + {Parent(p)}
    {
      FilesExist();
      assert NodeOk(next);
      hide NameOk, NodeOk;
      id := next;
      nodes, names, added := nodes[id := Dir], names[p := id], added[p := id];
      dirs, dirty, next, linked := dirs + {id}, dirty + {Parent(p)}, next + 1, linked + {(p, id)};
      InsertedNames(p);
      InsertedNodes(Dir);
    }

    // O_CREATE|O_EXCL.
    method Create(p: Path) returns (id: Option<nat>)
      requires Valid() && p != []
      modifies this
      ensures Valid()
      ensures id.None? ==> Same()
      ensures id.Some? ==>
                && id.value !in old(files) && id.value !in old(dirs) && files == old(files) + {id.value} && dirs == old(dirs)
                && id.value in nodes && nodes[id.value] == File([]) && OthersKept(id.value)
                && added == old(added)[p := id.value] && dirty == old(dirty) + {Parent(p)} && unsynced == old(unsynced) + {id.value}
                && (quiet ==> p !in old(names) && names == old(names)[p := id.value])
      ensures quiet && (faultless || steady) && p !in old(names) && old(IsDir(Parent(p))) ==> id.Some?
    {
      hide Valid;
      FilesExist();
      Disturb();
      var fault: bool := *;
      if p in names || (fault && !((faultless || steady) && IsDir(Parent(p)))) {
        return None;
      }
      var made := InsertFile(p);
      id := Some(made);
    }

    // Every other file of this run keeps its content.
    twostate predicate OthersKept(id: nat)
      reads this
    {
      old(linked) <= linked && old(doubts) <= doubts && unclosed == old(unclosed) && forall i <- old(files) :: i != id ==> i in old(nodes) && i in nodes && nodes[i] == old(nodes[i])
    }

    method Mkdir(p: Path) returns (id: Option<nat>)
      requires Valid() && p != []
      modifies this
      ensures Valid() && files == old(files) && unsynced == old(unsynced)
      ensures FilesKept()
      ensures id.None? ==> Same()
      ensures id.Some? ==>
                && id.value !in old(dirs) && id.value !in files && dirs == old(dirs) + {id.value}
                && added == old(added)[p := id.value] && dirty == old(dirty) + {Parent(p)}
                && (quiet ==> p !in old(names) && names == old(names)[p := id.value] && id.value !in old(nodes))
      ensures quiet && faultless && p !in old(names) && old(IsDir(Parent(p))) ==> id.Some?
    {
      hide Valid;
      FilesExist();
      Disturb();
      var fault: bool := *;
      if p in names || (fault && !(faultless && IsDir(Parent(p)))) {
        return None;
      }
      var made := InsertDir(p);
      id := Some(made);
    }

    // A hard link: atomic, and refused when the new name exists.
    method Link(from: Path, to: Path) returns (ok: bool, ghost id: nat)
      requires Valid() && to != [] && (quiet ==> from in added && added[from] in files)
      modifies this
      ensures Valid() && files == old(files) && dirs == old(dirs) && unsynced == old(unsynced) && FilesKept()
      ensures !ok ==> Same()
      ensures ok ==>
                && added == (if id in files then old(added)[to := id] else old(added)) && dirty == old(dirty) + {Parent(to)}
                && from != to
                && (quiet ==> from in old(names) && id == old(names)[from] && to !in old(names) && names == old(names)[to := id])
      ensures quiet && faultless && from in old(names) && old(names)[from] in files && to !in old(names) && old(IsDir(Parent(to))) ==> ok
    {
      FilesExist();
      Disturb();
      label D:
      FilesExist();
      var fault: bool := *;
      id := 0;
      assert NameOk(from) && (from in names ==> NodeOk(names[from]));
      if from !in names || nodes[names[from]] == Dir || to in names || (fault && !(faultless && IsDir(Parent(to)))) {
        return false, id;
      }
      ok, id := true, names[from];
      if names[from] in files {
        added := added[to := names[from]];
      }
      dirty, names, linked := dirty + {Parent(to)}, names[to := names[from]], linked + {(to, names[from])};
      forall q ensures NameOk(q) { Seen@D(q); }
      forall i: nat ensures NodeOk(i) { assert old@D(NodeOk(i)); }
    }

    // Nothing stands in the directory p.
    predicate Empty(p: Path)
      reads this`names
    {
      forall q <- names :: q == [] || Parent(q) != p
    }

    // Only names given by this run are ever removed, and no directory with something in it.
    method Remove(p: Path) returns (ok: bool)
      requires Valid() && (quiet ==> p in added)
      modifies this
      ensures Valid() && files == old(files) && dirs == old(dirs) && unsynced == old(unsynced) && FilesKept()
      ensures !ok ==> Same() && p in doubts
      ensures ok ==> added == old(added) - {p} && dirty == old(dirty) + {Parent(p)} && (quiet ==> names == old(names) - {p})
      ensures quiet && faultless && (old(added)[p] in files || old(Empty(p))) ==> ok
    {
      FilesExist();
      Disturb();
      label D:
      FilesExist();
      assert NameOk(p);
      var fault: bool := *;
      if p !in names || (nodes[names[p]] == Dir && !Empty(p)) || (fault && !faultless) {
        doubts := doubts + {p};
        forall q ensures NameOk(q) { Seen@D(q); }
        forall i: nat ensures NodeOk(i) { assert old@D(NodeOk(i)); }
        return false;
      }
      names, added, dirty := names - {p}, added - {p}, dirty + {Parent(p)};
      ok := true;
      forall q ensures NameOk(q) { Seen@D(q); }
      forall i: nat ensures NodeOk(i) { assert old@D(NodeOk(i)); }
    }

    // The look at a name before it is removed: whether it is still the file or directory that this run put there.
    method Inspect(p: Path, id: nat, dir: bool) returns (same: bool)
      requires Valid()
      modifies this`names, this`nodes, this`next, this`sightings, this`doubts
      ensures Valid() && Same()
      ensures same ==> p in names && names[p] == id && id in nodes && (if dir then nodes[id] == Dir else nodes[id].File?)
      ensures doubts == old(doubts) + if same then {} else {p}
      ensures quiet && faultless && p in old(names) && old(names)[p] == id && id in nodes && (if dir then nodes[id] == Dir else nodes[id].File?) ==> same
    {
      FilesExist();
      var s := Lstat(p);
      label D:
      same := s.Found? && s.id == id && if dir then s.node == Dir else s.node.File?;
      doubts := doubts + if same then {} else {p};
      forall q ensures NameOk(q) { Seen@D(q); }
      forall i: nat ensures NodeOk(i) { assert old@D(NodeOk(i)); }
    }

    // verifyExtractionRootPath: whether the root is still where it was.
    method VerifyRoot() returns (ok: bool)
      requires Valid()
      modifies this`moved, this`rooted
      ensures Valid() && moved == (old(moved) || !ok) && rooted == ok
      ensures faultless || steady ==> ok
    {
      var fault: bool := *;
      ok := faultless || steady || !fault;
      label D:
      moved, rooted := moved || !ok, ok;
      forall q ensures NameOk(q) { Seen@D(q); }
      forall i: nat ensures NodeOk(i) { assert old@D(NodeOk(i)); }
    }

    method Write(id: nat, data: seq<int>) returns (ok: bool)
      requires Valid() && id in files && id in nodes && nodes[id].File?
      modifies this
      ensures Valid() && files == old(files) && dirs == old(dirs) && added == old(added) && dirty == old(dirty)
      ensures unsynced == old(unsynced) + {id} && OthersKept(id) && (quiet ==> names == old(names))
      ensures id in nodes && nodes[id].File? && (ok ==> nodes[id] == File(old(nodes[id].data) + data))
      ensures faultless ==> ok
    {
      FilesExist();
      Disturb();
      label D:
      FilesExist();
      var fault: bool, left: seq<int> := *, *;
      ok := faultless || !fault;
      nodes := nodes[id := File(if ok then nodes[id].data + data else left)];
      unsynced := unsynced + {id};
      forall q ensures NameOk(q) { Seen@D(q); }
      forall i: nat ensures NodeOk(i) { assert old@D(NodeOk(i)); }
    }

    method Sync(id: nat) returns (ok: bool)
      requires Valid() && id in files
      modifies this
      ensures Valid() && files == old(files) && dirs == old(dirs) && added == old(added) && dirty == old(dirty)
      ensures FilesKept() && (quiet ==> names == old(names))
      ensures unsynced == old(unsynced) - if ok then {id} else {}
      ensures faultless ==> ok
    {
      FilesExist();
      Disturb();
      label D:
      FilesExist();
      var fault: bool := *;
      ok := faultless || !fault;
      if ok {
        unsynced := unsynced - {id};
      }
      forall q ensures NameOk(q) { Seen@D(q); }
      forall i: nat ensures NodeOk(i) { assert old@D(NodeOk(i)); }
    }

    // Open, check that it is a directory, sync.
    method SyncDirectory(p: Path) returns (ok: bool)
      requires Valid()
      modifies this
      ensures Valid() && files == old(files) && dirs == old(dirs) && added == old(added) && unsynced == old(unsynced)
      ensures FilesKept() && (quiet ==> names == old(names))
      ensures dirty == old(dirty) - if ok then {p} else {}
      ensures quiet && faultless && old(IsDir(p)) ==> ok
    {
      FilesExist();
      Disturb();
      label D:
      FilesExist();
      var fault: bool := *;
      ok := IsDir(p) && (faultless || !fault);
      if ok {
        dirty := dirty - {p};
      }
      forall q ensures NameOk(q) { Seen@D(q); }
      forall i: nat ensures NodeOk(i) { assert old@D(NodeOk(i)); }
    }

    // A name that no longer holds anything of this run is dropped from the list.
    ghost method Forget(p: Path)
      requires Valid() && (p in names ==> !Own(names[p]))
      modifies this`added
      ensures Valid() && added == old(added) - {p}
    {
      label D:
      added := added - {p};
      forall q ensures NameOk(q) { Seen@D(q); }
      forall i: nat ensures NodeOk(i) { assert old@D(NodeOk(i)); }
    }

    // A step that touches nothing: a close, a cancellation check, the archive, the disk probe.
    method Step() returns (ok: bool)
      ensures faultless || steady ==> ok
    {
      var fault: bool := *;
      ok := faultless || steady || !fault;
    }

    // A close on the way out.
    method Close() returns (ok: bool)
      requires Valid()
      modifies this`unclosed
      ensures Valid() && Alike()
      ensures unclosed == old(unclosed) + if ok then 0 else 1
      ensures faultless || steady ==> ok
    {
      FilesExist();
      ok := Step();
      label D:
      unclosed := unclosed + if ok then 0 else 1;
      forall q ensures NameOk(q) { Seen@D(q); }
      forall i: nat ensures NodeOk(i) { assert old@D(NodeOk(i)); }
    }

    ghost function View(): Inodes
      reads this
    {
      Inodes(files, dirs, nodes, unsynced, linked, doubts)
    }

    // On a quiet machine: a name nobody has, and a name that is a directory.
    ghost predicate Free(p: Path)
      reads this
    {
      p != [] && p !in base && p !in added
    }

    ghost predicate DirPath(p: Path)
      reads this
    {
      DirPathOf(added, dirs, p)
    }

    ghost predicate DirPathOf(added: map<Path, nat>, dirs: set<nat>, p: Path)
    {
      p == [] || (p in base && base[p] in baseNodes && baseNodes[base[p]] == Dir) || (p in added && added[p] in dirs)
    }

    lemma QuietPath(p: Path)
      requires Valid() && quiet
      ensures Free(p) ==> p !in names
      ensures DirPath(p) ==> IsDir(p)
      ensures p in names && p != [] && IsDir(p) ==> DirPath(p)
    {
      assert NameOk(p);
      if p in base {
        assert NodeOk(base[p]);
      }
      if p in added {
        assert NodeOk(added[p]);
      }
    }

    // The names that hold a file of this run.
    ghost function FileNames(): set<Path>
      reads this
    {
      set p | p in added && added[p] in files
    }

    // The directories this run created.
    ghost function DirNames(): set<Path>
      reads this
    {
      set p | p in added && added[p] in dirs
    }

    ghost function DirMap(): map<Path, nat>
      reads this
    {
      map p | p in added && added[p] in dirs :: added[p]
    }

    lemma QuietName(p: Path)
      requires Valid() && quiet && p in added
      ensures p in names && names[p] == added[p]
      ensures added[p] in files ==> added[p] in nodes && nodes[added[p]].File?
      ensures added[p] in dirs ==> IsDir(p)
    {
      assert NameOk(p) && NodeOk(added[p]);
    }

    lemma Listed(p: Path)
      requires Valid() && quiet && p in added
      ensures p in names && names[p] == added[p] && (added[p] in dirs ==> added[p] in nodes && nodes[added[p]] == Dir)
    {
      assert NameOk(p) && NodeOk(added[p]);
    }

    lemma ListedExist()
      requires Valid()
      ensures forall p <- added :: added[p] in nodes && (added[p] in files || added[p] in dirs)
    {
      forall p | p in added
        ensures added[p] in nodes && (added[p] in files || added[p] in dirs)
      {
        assert NameOk(p) && NodeOk(added[p]);
      }
    }

    lemma ListedLinked(p: Path)
      requires Valid() && p in added
      ensures (p, added[p]) in linked
    {
      assert NameOk(p);
    }

    lemma Unlisted(p: Path)
      requires Valid() && quiet && p !in names
      ensures p !in added && p !in base
    {
      assert NameOk(p);
    }

    lemma DirIsNoFile(i: nat)
      requires Valid() && i in dirs
      ensures i !in files
    {
      assert NodeOk(i);
    }

    lemma NotDir(i: nat)
      requires Valid() && i in files
      ensures i !in dirs
    {
      assert NodeOk(i);
    }

    lemma FoundOwn(p: Path)
      requires Valid() && p in names && (names[p] in files || names[p] in dirs)
      ensures p in added && added[p] == names[p] && (p, names[p]) in linked
    {
      assert NameOk(p);
    }
    // Publishing one entry adds its target to the names accounted for.
    twostate lemma NamesAfterPublish(r: Round)
      requires old(Valid()) && Valid() && r.Ready() && r.o.Published?
      requires Effect(old(added), added, r.Stage(), r.Target(), r.o) && Sparing(old(View()), View(), r.Info(), r.o)
      requires old(FileNames()) <= Stages(r.staged, 0) + Targets(r.staged, 0, r.k)
      ensures FileNames() <= Stages(r.After(), 0) + Targets(r.After(), 0, r.k + 1)
    {
      var staged, k, after := r.staged, r.k, r.After();
      forall p | p in FileNames()
        ensures p in Stages(after, 0) + Targets(after, 0, k + 1)
      {
        if p == staged[k].target {
          assert after[k].target == p;
        } else {
          assert old(NameOk(p)) && NodeOk(added[p]);
          assert p in old(FileNames());
          if p in Stages(staged, 0) {
            var i :| 0 <= i < |staged| && staged[i].stage == Some(p);
            assert after[i].stage == Some(p);
          } else {
            var i :| 0 <= i < k && staged[i].target == p;
            assert after[i].target == p;
          }
        }
      }
    }

    // It leaves the later targets free and their directories in place.
    twostate lemma StillOpen(r: Round)
      requires old(Valid()) && Valid() && r.Ready() && r.o.Published? && Effect(old(added), added, r.Stage(), r.Target(), r.o)
      requires Sparing(old(View()), View(), r.Info(), r.o)
      requires r.Stage() in old(added) && old(added)[r.Stage()] in old(files) && r.Target() !in old(added)
      requires TargetsDistinct(r.staged) && old(OpenFrom(this, r.staged, r.k))
      ensures OpenFrom(this, r.After(), r.k + 1)
    {
      assert old(NodeOk(added[r.Stage()]));
    }

    // Whatever becomes of the target, the directories of this run stay.
    twostate lemma DirsKept(r: Round)
      requires old(Valid()) && Valid() && r.Ready() && quiet && Effect(old(added), added, r.Stage(), r.Target(), r.o)
      requires Sparing(old(View()), View(), r.Info(), r.o) && r.Info() in old(nodes)
      requires r.Stage() in old(added) && old(added)[r.Stage()] in old(files)
      requires r.Target() in old(names) ==> added == old(added)
      requires r.Target() in added ==> r.Target() in old(added) || added[r.Target()] in files
      ensures DirMap() == old(DirMap())
    {
      var stage, target := r.Stage(), r.Target();
      assert old(NameOk(target)) && old(NodeOk(added[stage]));
      forall p
        ensures (p in added && added[p] in dirs) <==> (p in old(added) && old(added)[p] in dirs)
        ensures p in added && added[p] in dirs ==> added[p] == old(added)[p]
      {
        if p != target {
          assert p in added - {target} <==> p in added;
          assert p in old(added) - {target} <==> p in old(added);
        } else if p in added {
          assert NodeOk(added[p]);
        }
      }
    }

    // It keeps what the other entries hold.
    twostate lemma ElementsKept(r: Round)
      requires old(Valid()) && r.Ready() && old(Progress(this, r.staged, r.datas, r.k)) && r.o.Published?
      requires Effect(old(added), added, r.Stage(), r.Target(), r.o) && Sparing(old(View()), View(), r.Info(), r.o)
      requires quiet ==> r.Target() !in old(added)
      requires (r.Target(), r.o.info) in linked
      ensures forall i :: 0 <= i < |r.staged| ==> ElementAfter(this, r, i)
    {
      var staged, datas, k := r.staged, r.datas, r.k;
      assert old(Waiting(this, staged[k], datas[k]));
      forall i | 0 <= i < |staged|
        ensures ElementAfter(this, r, i)
      {
        if i != k {
          assert old(if i < k then Placed(this, staged[i], datas[i]) else Waiting(this, staged[i], datas[i]));
          assert staged[i].info != staged[k].info;
        }
      }
    }

    // A proven failure leaves no name behind.
    twostate lemma FailureHeld(r: Round)
      requires old(Valid()) && Valid() && r.Ready() && old(Progress(this, r.staged, r.datas, r.k)) && r.o.Failed?
      requires Effect(old(added), added, r.Stage(), r.Target(), r.o) && Sparing(old(View()), View(), r.Info(), r.o)
      ensures StillHeld(this, r.staged, r.k, r.o.proven)
    {
      var staged, datas, k := r.staged, r.datas, r.k;
      forall i | 0 <= i < |staged|
        ensures staged[i].info.Some? ==> staged[i].info.value in files
      {
        assert i < k ==> old(Placed(this, staged[i], datas[i]));
        assert k <= i ==> old(Waiting(this, staged[i], datas[i]));
      }
      if r.o.proven {
        forall p | p in FileNames()
          ensures p in Stages(staged, 0) + Targets(staged, 0, k)
        {
          assert added == old(added) || p != staged[k].target;
          assert p in added - {staged[k].target} || p == staged[k].target;
          assert p in old(added) && old(added)[p] == added[p];
          assert old(NameOk(p)) && NodeOk(added[p]);
          assert p in old(FileNames());
        }
      }
    }
  }

  datatype Entry = Entry(path: Path, dir: bool, data: seq<int>)

  // stagedUnpackEntry; info is the identity of the stage, later of the published file.
  datatype Staged = Staged(file: bool, stage: Option<Path>, target: Path, info: Option<nat>)

  predicate SameFile(s: Stat, info: nat)
  {
    s.Found? && s.node.File? && s.id == info
  }

  // A removal was not proven, or the identity of a new file could not be learnt.
  ghost predicate Doubtful(m: Machine)
    reads m
  {
    m.doubts != {} || exists id <- m.files :: m.Loses(id)
  }

  // ownedUnpackFile.remove
  method RemoveOwned(m: Machine, target: Path, info: nat) returns (ok: bool)
    requires m.Valid() && info in m.files
    modifies m
    ensures m.Valid() && m.files == old(m.files) && m.dirs == old(m.dirs) && m.unsynced == old(m.unsynced) && m.FilesKept()
    ensures if ok then m.added == old(m.added) - {target} && m.dirty == old(m.dirty) + {Parent(target)} else m.Same()
    ensures m.FileNames() == old(m.FileNames()) - if ok then {target} else {}
    ensures m.DirMap() == old(m.DirMap()) && (!ok ==> target in m.doubts)
    ensures m.quiet && m.faultless && target in old(m.added) && old(m.added)[target] == info ==> ok
  {
    m.FilesExist();
    hide Machine.Valid;
    if m.quiet && target in m.added {
      m.QuietName(target);
    }
    var same := m.Inspect(target, info, false);
    if !same {
      return false;
    }
    m.FoundOwn(target);
    m.NotDir(info);
    ok := m.Remove(target);
  }

  lemma PutBack(a: map<Path, nat>, b: map<Path, nat>, k: Path)
    requires a - {k} == b - {k} && k in a
    ensures a == b[k := a[k]]
  {
    forall p | p != k
      ensures p in a <==> p in b
      ensures p in a ==> a[p] == b[p]
    {
      assert p in a <==> p in a - {k};
      assert p in b <==> p in b - {k};
      assert p in a ==> (a - {k})[p] == (b - {k})[p];
    }
  }

  datatype Outcome = Published(info: nat) | Failed(proven: bool)

  // What publishing one entry may do to the names: a failure adds at most the target, and not even
  // that when its absence was proven.
  ghost predicate Effect(before: map<Path, nat>, after: map<Path, nat>, stage: Path, target: Path, o: Outcome)
  {
    match o
    case Published(info) => after == before[target := info] - {stage}
    case Failed(proven) => after - {target} == before - {target} && (proven ==> after == before || target !in after)
  }

  // After the link: the target is inspected and the stage name dropped.
  method FinishLink(m: Machine, stage: Path, target: Path, info: nat, ghost before: map<Path, nat>) returns (o: Outcome)
    requires m.Valid() && info in m.files && stage != target && target != []
    requires m.added - {target} == before - {target} && (m.quiet ==> m.added == before[target := info])
    requires m.quiet ==> stage in m.added && m.added[stage] in m.files
    modifies m
    ensures m.Valid() && m.files == old(m.files) && m.dirs == old(m.dirs) && m.unsynced == old(m.unsynced) && m.FilesKept()
    ensures Effect(before, m.added, stage, target, o) && (o.Published? ==> o.info == info && (target, info) in m.linked)
    ensures m.dirty <= old(m.dirty) + {Parent(target), Parent(stage)}
    ensures m.quiet && m.faultless ==> o.Published?
    ensures o.Failed? && !o.proven ==> Doubtful(m)
    ensures m.quiet && target in m.added ==> m.added[target] in m.files
  {
    hide Machine.Valid;
    if m.quiet {
      m.QuietName(target);
    }
    var current := m.Lstat(target);
    if !SameFile(current, info) {
      var removed := RemoveOwned(m, target, info);
      return Failed(removed);
    }
    m.FoundOwn(target);
    PutBack(m.added, before, target);
    var dropped := m.Remove(stage);
    if !dropped {
      var removed := RemoveOwned(m, target, info);
      return Failed(removed);
    }
    o := Published(info);
  }

  // The open stage is copied into the new target and synced.
  method CopyInto(m: Machine, stage: Path, info: nat, tid: nat) returns (ok: bool)
    requires m.Valid() && info in m.files && tid in m.files && tid != info && m.nodes.Keys >= {info, tid}
    requires m.nodes[info].File? && m.nodes[tid] == File([])
    modifies m
    ensures m.Valid() && m.files == old(m.files) && m.dirs == old(m.dirs) && m.added == old(m.added) && m.dirty == old(m.dirty)
    ensures m.OthersKept(tid) && m.unsynced <= old(m.unsynced) + {tid} && (m.quiet ==> m.names == old(m.names))
    ensures ok ==> tid in m.nodes && m.nodes[tid] == old(m.nodes[info]) && tid !in m.unsynced
    ensures m.quiet && m.faultless && stage in old(m.names) && old(m.names)[stage] == info ==> ok
  {
    hide Machine.Valid;
    var found := m.Lstat(stage);
    if !SameFile(found, info) {
      return false;
    }
    ok := m.Write(tid, m.nodes[info].data);
    if ok {
      ok := m.Step();
    }
    if ok {
      ok := m.Sync(tid);
    }
    if ok {
      ok := m.Step();
    }
  }

  // What publishing leaves alone, and what it promises of the published file.
  ghost predicate Sparing(before: Inodes, after: Inodes, info: nat, o: Outcome)
  {
    && before.files <= after.files && after.dirs == before.dirs && before.linked <= after.linked
    && (forall i <- before.files :: i in before.nodes && i in after.nodes && after.nodes[i] == before.nodes[i])
    && (forall i <- after.unsynced :: i in before.unsynced || i !in before.files)
    && (o.Published? && info in before.nodes ==>
          && o.info in after.files && o.info !in after.unsynced
          && o.info in after.nodes && after.nodes[o.info] == before.nodes[info]
          && (o.info == info || o.info !in before.files))
  }

  // Copies, checks that the target is still ours, and drops the stage name last.
  method CopyThenUnstage(m: Machine, stage: Path, target: Path, info: nat, tid: nat) returns (ok: bool)
    requires m.Valid() && info in m.files && tid in m.files && tid != info && m.nodes.Keys >= {info, tid}
    requires m.nodes[info].File? && m.nodes[tid] == File([]) && stage != target
    requires target in m.added && m.added[target] == tid
    requires m.quiet ==> stage in m.added && m.added[stage] == info
    modifies m
    ensures m.Valid() && m.files == old(m.files) && m.dirs == old(m.dirs)
    ensures m.added == old(m.added) - (if ok then {stage} else {})
    ensures m.dirty == old(m.dirty) + (if ok then {Parent(stage)} else {})
    ensures m.OthersKept(tid) && m.unsynced <= old(m.unsynced) + {tid}
    ensures ok ==> tid in m.nodes && m.nodes[tid] == old(m.nodes[info]) && tid !in m.unsynced
    ensures m.quiet && m.faultless ==> ok
  {
    hide Machine.Valid;
    if m.quiet {
      m.QuietName(stage);
      m.QuietName(target);
    }
    ok := CopyInto(m, stage, info, tid);
    if !ok {
      return;
    }
    m.FilesExist();
    if m.quiet {
      m.QuietName(target);
    }
    var current := m.Lstat(target);
    if !SameFile(current, tid) {
      return false;
    }
    ok := m.Remove(stage);
  }

  // Without hard links: an exclusive copy, rolled back on any failure.
  method PublishByCopy(m: Machine, stage: Path, target: Path, info: nat) returns (o: Outcome)
    requires m.Valid() && info in m.files && info !in m.unsynced && stage != target && target != []
    requires m.quiet ==> stage in m.added && m.added[stage] == info
    modifies m
    ensures m.unclosed == old(m.unclosed)
    ensures m.Valid() && Effect(old(m.added), m.added, stage, target, o) && Sparing(old(m.View()), m.View(), info, o)
    ensures o.Published? ==> (target, o.info) in m.linked
    ensures m.dirty <= old(m.dirty) + {Parent(target), Parent(stage)}
    ensures m.quiet && o.Published? ==> target !in old(m.names)
    ensures m.quiet && target in old(m.names) ==> m.added == old(m.added)
    ensures m.quiet && m.faultless && target !in old(m.names) && old(m.IsDir(Parent(target))) ==> o.Published?
    ensures m.quiet && target in m.added ==> target in old(m.added) || m.added[target] in m.files
    ensures o.Failed? && !o.proven ==> Doubtful(m)
    ensures m.quiet && m.faultless && o.Failed? ==> o.proven && m.added == old(m.added)
  {
    m.FilesExist();
    hide Machine.Valid, Effect;
    ghost var before := m.added;
    NoEffect(before, stage, target);
    if m.quiet {
      m.QuietName(stage);
    }
    var current := m.Lstat(target);
    if !current.Missing? {
      return Failed(true);
    }
    var made := m.Create(target);
    if made.None? {
      return Failed(true);
    }
    var tid := made.value;
    assert tid != info;
    m.ListedLinked(target);
    var identity := m.StatOpen(tid);
    if identity.None? {
      CopyUndone(before, m.added, stage, target, tid, false);
      return Failed(false);
    }
    o := FinishCopy(m, stage, target, info, tid);
    if o.Published? {
      CopyDone(before, stage, target, tid);
    } else {
      CopyUndone(before, m.added, stage, target, tid, o.proven);
    }
  }

  // The copy, and its removal if it fails.
  method FinishCopy(m: Machine, stage: Path, target: Path, info: nat, tid: nat) returns (o: Outcome)
    requires m.Valid() && info in m.files && tid in m.files && tid != info && m.nodes.Keys >= {info, tid}
    requires m.nodes[info].File? && m.nodes[tid] == File([]) && stage != target
    requires target in m.added && m.added[target] == tid
    requires m.quiet ==> stage in m.added && m.added[stage] == info
    modifies m
    ensures m.Valid() && m.files == old(m.files) && m.dirs == old(m.dirs) && m.OthersKept(tid) && m.unsynced <= old(m.unsynced) + {tid}
    ensures m.dirty <= old(m.dirty) + {Parent(stage), Parent(target)}
    ensures o.Published? ==> o.info == tid && tid in m.nodes && m.nodes[tid] == old(m.nodes[info]) && tid !in m.unsynced && m.added == old(m.added) - {stage}
    ensures o.Failed? ==> m.added == if o.proven then old(m.added) - {target} else old(m.added)
    ensures o.Failed? && !o.proven ==> Doubtful(m)
    ensures m.quiet && m.faultless ==> o.Published?
  {
    hide Machine.Valid;
    var done := CopyThenUnstage(m, stage, target, info, tid);
    if done {
      return Published(tid);
    }
    var removed := RemoveOwned(m, target, tid);
    o := Failed(removed);
  }

  lemma NoEffect(before: map<Path, nat>, stage: Path, target: Path)
    ensures Effect(before, before, stage, target, Failed(true))
  {
  }

  lemma CopyDone(before: map<Path, nat>, stage: Path, target: Path, id: nat)
    ensures Effect(before, before[target := id] - {stage}, stage, target, Published(id))
  {
  }

  lemma CopyUndone(before: map<Path, nat>, after: map<Path, nat>, stage: Path, target: Path, id: nat, removed: bool)
    requires after == if removed then before[target := id] - {target} else before[target := id]
    ensures Effect(before, after, stage, target, Failed(removed))
  {
    assert before[target := id] - {target} == before - {target};
    assert removed ==> after - {target} == before - {target};
  }

  // publishStagedUnpackEntry
  method Publish(m: Machine, s: Staged) returns (o: Outcome)
    requires m.Valid() && s.stage.Some? && s.info.Some? && s.info.value in m.files && s.info.value !in m.unsynced
    requires s.stage.value != s.target && s.target != []
    requires m.quiet ==> s.stage.value in m.added && m.added[s.stage.value] == s.info.value
    modifies m
    ensures m.unclosed == old(m.unclosed)
    ensures m.Valid() && Effect(old(m.added), m.added, s.stage.value, s.target, o) && Sparing(old(m.View()), m.View(), s.info.value, o)
    ensures o.Published? ==> (s.target, o.info) in m.linked
    ensures m.dirty <= old(m.dirty) + {Parent(s.target), Parent(s.stage.value)}
    ensures m.quiet && o.Published? ==> s.target !in old(m.names)
    ensures m.quiet && s.target in old(m.names) ==> m.added == old(m.added)
    ensures m.quiet && m.faultless && s.target !in old(m.names) && old(m.IsDir(Parent(s.target))) ==> o.Published?
    ensures m.quiet && s.target in m.added ==> s.target in old(m.added) || m.added[s.target] in m.files
    ensures o.Failed? && !o.proven ==> Doubtful(m)
    ensures m.quiet && m.faultless && o.Failed? ==> o.proven && m.added == old(m.added)
  {
    var stage, info := s.stage.value, s.info.value;
    m.FilesExist();
    hide Machine.Valid;
    if m.quiet {
      m.QuietName(stage);
    }
    var current := m.Lstat(stage);
    if !SameFile(current, info) {
      return Failed(true);
    }
    ghost var before := m.added;
    var linked, id := m.Link(stage, s.target);
    if linked {
      o := FinishLink(m, stage, s.target, info, before);
    } else {
      o := PublishByCopy(m, stage, s.target, info);
    }
  }

  // ----- the staged entries as a whole -----

  // The names the entries account for: stages not yet dropped, and the targets of a range.
  ghost function Stages(staged: seq<Staged>, a: nat): set<Path>
  {
    set i | a <= i < |staged| && staged[i].stage.Some? :: staged[i].stage.value
  }

  ghost function Targets(staged: seq<Staged>, a: nat, b: nat): set<Path>
    requires b <= |staged|
  {
    set i | a <= i < b :: staged[i].target
  }

  // The bytes of an entry sit, synced, under one identity.
  ghost predicate Holds(m: Machine, s: Staged, data: seq<int>)
    reads m
  {
    && s.info.Some? && s.info.value in m.files && s.info.value !in m.unsynced
    && s.info.value in m.nodes && m.nodes[s.info.value] == File(data)
  }

  ghost predicate Waiting(m: Machine, s: Staged, data: seq<int>)
    reads m
  {
    && Holds(m, s, data) && s.stage.Some? && Parent(s.stage.value) == [] && s.target != [] && s.stage.value != s.target
    && (m.quiet ==> s.stage.value in m.added && m.added[s.stage.value] == s.info.value)
  }

  ghost predicate Placed(m: Machine, s: Staged, data: seq<int>)
    reads m
  {
    && Holds(m, s, data) && s.stage.None? && (s.target, s.info.value) in m.linked
    && (m.quiet ==> s.target in m.added && m.added[s.target] == s.info.value)
  }

  ghost predicate Distinct(staged: seq<Staged>)
  {
    forall i, j :: 0 <= i < j < |staged| ==> staged[i].info != staged[j].info
  }

  // The first k are published, the others wait.
  ghost predicate Progress(m: Machine, staged: seq<Staged>, datas: seq<seq<int>>, k: nat)
    reads m
  {
    && k <= |staged| == |datas|
    && (forall i :: 0 <= i < k ==> Placed(m, staged[i], datas[i]))
    && (forall i :: k <= i < |staged| ==> Waiting(m, staged[i], datas[i]))
    && Distinct(staged)
    && m.FileNames() <= Stages(staged, 0) + Targets(staged, 0, k)
  }

  // After a failed publish the names of this run are accounted for, except perhaps the target.
  ghost predicate StillHeld(m: Machine, staged: seq<Staged>, k: nat, proven: bool)
    reads m
  {
    && k <= |staged|
    && (forall i :: 0 <= i < |staged| && staged[i].info.Some? ==> staged[i].info.value in m.files)
    && (proven ==> m.FileNames() <= Stages(staged, 0) + Targets(staged, 0, k))
  }

  function AfterPublish(s: Staged, info: nat): Staged
  {
    s.(stage := None, info := Some(info))
  }

  // Publishing entry k of staged, and how it ended.
  datatype Round = Round(staged: seq<Staged>, datas: seq<seq<int>>, k: nat, o: Outcome) {
    ghost predicate Ready() { k < |staged| == |datas| && staged[k].stage.Some? && staged[k].info.Some? }
    ghost function Stage(): Path requires Ready() { staged[k].stage.value }
    ghost function Target(): Path requires Ready() { staged[k].target }
    ghost function Info(): nat requires Ready() { staged[k].info.value }
    ghost function After(): seq<Staged> requires Ready() && o.Published? { staged[k := AfterPublish(staged[k], o.info)] }
  }

  ghost predicate ElementAfter(m: Machine, r: Round, i: nat)
    requires r.Ready() && i < |r.staged| && r.o.Published?
    reads m
  {
    && (if i <= r.k then Placed(m, r.After()[i], r.datas[i]) else Waiting(m, r.After()[i], r.datas[i]))
    && (i != r.k ==> r.staged[i].info != Some(r.o.info))
  }

  lemma ProgressFrom(m: Machine, r: Round)
    requires r.Ready() && r.o.Published? && Distinct(r.staged)
    requires m.FileNames() <= Stages(r.After(), 0) + Targets(r.After(), 0, r.k + 1)
    requires forall i :: 0 <= i < |r.staged| ==> ElementAfter(m, r, i)
    ensures Progress(m, r.After(), r.datas, r.k + 1)
  {
    hide Placed, Waiting, Stages, Targets, Machine.FileNames;
    var after := r.After();
    forall i | 0 <= i < |r.staged|
      ensures if i <= r.k then Placed(m, after[i], r.datas[i]) else Waiting(m, after[i], r.datas[i])
      ensures i != r.k ==> after[i].info != Some(r.o.info)
    {
      assert ElementAfter(m, r, i);
    }
  }

  ghost predicate TargetsDistinct(staged: seq<Staged>)
  {
    forall i, j :: 0 <= i < j < |staged| ==> staged[i].target != staged[j].target
  }

  // The targets from k on can still be published.
  ghost predicate OpenFrom(m: Machine, staged: seq<Staged>, k: nat)
    reads m
  {
    forall i :: k <= i < |staged| ==> m.Free(staged[i].target) && m.DirPath(Parent(staged[i].target))
  }

  // One round of the publishing loop.
  method PublishNext(m: Machine, staged: seq<Staged>, ghost datas: seq<seq<int>>, k: nat) returns (after: seq<Staged>, o: Outcome)
    requires m.Valid() && k < |staged| && Progress(m, staged, datas, k)
    modifies m
    ensures m.unclosed == old(m.unclosed)
    ensures m.Valid() && m.dirs == old(m.dirs) && old(m.files) <= m.files
    ensures m.quiet ==> m.DirMap() == old(m.DirMap())
    ensures o.Published? ==> Progress(m, after, datas, k + 1)
    ensures o.Failed? ==> after == staged && StillHeld(m, staged, k, o.proven)
    ensures |after| == |staged| && forall i :: 0 <= i < |staged| ==> after[i].target == staged[i].target && after[i].file == staged[i].file
    ensures m.dirty <= old(m.dirty) + {Parent(staged[k].target), []}
    ensures m.quiet && o.Published? && TargetsDistinct(staged) && old(OpenFrom(m, staged, k)) ==> OpenFrom(m, after, k + 1)
    ensures m.quiet && m.faultless && old(OpenFrom(m, staged, k)) ==> o.Published?
    ensures o.Failed? && !o.proven ==> Doubtful(m)
    ensures m.quiet && m.faultless && o.Failed? ==> o.proven && m.added == old(m.added)
  {
    var s := staged[k];
    assert Waiting(m, s, datas[k]);
    if m.quiet {
      m.QuietPath(s.target);
      m.QuietPath(Parent(s.target));
      if s.target in m.added {
        m.QuietName(s.target);
      }
    }
    hide Machine.Valid, Effect, Stages, Targets, Placed, ElementAfter, Machine.FileNames;
    o := Publish(m, s);
    ghost var r := Round(staged, datas, k, o);
    if m.quiet {
      m.DirsKept(r);
    }
    if o.Published? {
      after := staged[k := AfterPublish(s, o.info)];
      m.NamesAfterPublish(r);
      m.ElementsKept(r);
      ProgressFrom(m, r);
      if m.quiet && TargetsDistinct(staged) && old(OpenFrom(m, staged, k)) {
        m.StillOpen(r);
      }
    } else {
      after := staged;
      m.FailureHeld(r);
    }
  }

  // Each stage that is left is on the list with its own inode, under a name of its own.
  ghost predicate KeptIn(added: map<Path, nat>, staged: seq<Staged>)
  {
    && (forall i :: 0 <= i < |staged| && staged[i].stage.Some? ==>
          staged[i].info.Some? && staged[i].stage.value in added && added[staged[i].stage.value] == staged[i].info.value)
    && (forall i, j :: 0 <= i < j < |staged| && staged[i].stage.Some? ==> staged[j].stage != staged[i].stage)
  }

  // And so are the targets i..k.
  ghost predicate FirmIn(added: map<Path, nat>, staged: seq<Staged>, i: nat, k: nat)
    requires k <= |staged|
  {
    && KeptIn(added, staged) && Distinct(staged)
    && (forall j :: i <= j < k ==> staged[j].info.Some? && staged[j].target in added && added[staged[j].target] == staged[j].info.value && staged[j].stage.None?)
  }

  lemma ProgressIsFirm(m: Machine, staged: seq<Staged>, datas: seq<seq<int>>, k: nat)
    requires m.quiet && Progress(m, staged, datas, k)
    ensures FirmIn(m.added, staged, 0, k)
  {
    forall i | 0 <= i < |staged|
      ensures staged[i].info.Some? && if i < k then Placed(m, staged[i], datas[i]) else Waiting(m, staged[i], datas[i])
    {
      assert if i < k then Placed(m, staged[i], datas[i]) else Waiting(m, staged[i], datas[i]);
    }
  }

  // Every removal of a target leaves the others where they are.
  lemma FirmStep(before: map<Path, nat>, after: map<Path, nat>, staged: seq<Staged>, i: nat, k: nat)
    requires i < k <= |staged| && FirmIn(before, staged, i, k) && after == before - {staged[i].target}
    ensures FirmIn(after, staged, i + 1, k)
  {
    forall j | 0 <= j < |staged| && j != i && staged[j].info.Some?
      ensures staged[j].info != staged[i].info
    {
    }
  }

  // Removes what was published before a failure.
  method Rollback(m: Machine, staged: seq<Staged>, k: nat, proven: bool) returns (complete: bool)
    requires m.Valid() && StillHeld(m, staged, k, proven) && forall i :: 0 <= i < k ==> staged[i].info.Some?
    modifies m
    ensures m.unclosed == old(m.unclosed)
    ensures m.Valid() && m.files == old(m.files) && m.dirs == old(m.dirs) && m.DirMap() == old(m.DirMap())
    ensures complete ==> m.FileNames() <= Stages(staged, 0)
    ensures old(m.doubts) <= m.doubts && (proven && !complete ==> Doubtful(m))
    ensures m.quiet && m.faultless && proven && FirmIn(old(m.added), staged, 0, k) ==> complete && KeptIn(m.added, staged)
  {
    complete := proven;
    hide Machine.Valid, Stages, KeptIn, Distinct;
    ghost var firm := m.quiet && m.faultless && proven && FirmIn(m.added, staged, 0, k);
    for i := 0 to k
      invariant m.unclosed == old(m.unclosed)
      invariant m.Valid() && m.files == old(m.files) && m.dirs == old(m.dirs) && m.DirMap() == old(m.DirMap())
      invariant complete ==> m.FileNames() <= Stages(staged, 0) + Targets(staged, i, k)
      invariant old(m.doubts) <= m.doubts && (proven && !complete ==> m.doubts != {})
      invariant firm ==> complete && FirmIn(m.added, staged, i, k)
    {
      ghost var before := m.added;
      var removed := RemoveOwned(m, staged[i].target, staged[i].info.value);
      TargetsStep(staged, i, k);
      complete := complete && removed;
      if firm {
        FirmStep(before, m.added, staged, i, k);
      }
    }
  }

  lemma TargetsStep(staged: seq<Staged>, i: nat, k: nat)
    requires i < k <= |staged|
    ensures Targets(staged, i, k) == Targets(staged, i + 1, k) + {staged[i].target}
  {
    forall p | p in Targets(staged, i, k)
      ensures p in Targets(staged, i + 1, k) + {staged[i].target}
    {
      var j :| i <= j < k && staged[j].target == p;
      assert j == i || p in Targets(staged, i + 1, k);
    }
    assert staged[i].target in Targets(staged, i, k);
  }

  // stagedUnpackEntry.cleanup: proven says that the stage name is gone, clean that nothing failed.
  method CleanupStaged(m: Machine, s: Staged) returns (proven: bool, clean: bool)
    requires m.Valid() && (s.info.Some? ==> s.info.value in m.files)
    modifies m
    ensures clean ==> m.unclosed == old(m.unclosed)
    ensures m.Valid() && m.files == old(m.files) && m.dirs == old(m.dirs)
    ensures if proven && s.stage.Some? then m.added == old(m.added) - {s.stage.value} else m.Alike()
    ensures m.FileNames() == old(m.FileNames()) - if proven && s.stage.Some? then {s.stage.value} else {}
    ensures s.stage.None? ==> proven && (!s.file ==> clean)
    ensures (clean ==> proven) && m.DirMap() == old(m.DirMap())
    ensures old(m.doubts) <= m.doubts && (!proven ==> s.stage.Some? && (s.info.None? || m.doubts != {}))
    ensures m.quiet && m.faultless && (s.stage.Some? ==> s.info.Some? && s.stage.value in old(m.added) && old(m.added)[s.stage.value] == s.info.value) ==>
              proven && clean
  {
    m.FilesExist();
    hide Machine.Valid;
    clean := true;
    if s.file {
      clean := m.Close();
    }
    if s.stage.None? {
      return true, clean;
    }
    if s.info.None? {
      return false, false;
    }
    if m.quiet && s.stage.value in m.added {
      m.QuietName(s.stage.value);
    }
    var same := m.Inspect(s.stage.value, s.info.value, false);
    if !same {
      return false, false;
    }
    m.FoundOwn(s.stage.value);
    m.NotDir(s.info.value);
    proven := m.Remove(s.stage.value);
    clean := clean && proven;
  }

  // The deferred cleanup of every staged entry.
  method CleanupStages(m: Machine, staged: seq<Staged>) returns (proven: bool, clean: bool)
    requires m.Valid() && InfosIn(m, staged)
    modifies m
    ensures clean ==> m.unclosed == old(m.unclosed)
    ensures m.Valid() && m.files == old(m.files) && m.dirs == old(m.dirs) && old(m.doubts) <= m.doubts
    ensures proven && old(m.FileNames()) <= Stages(staged, 0) ==> m.FileNames() == {}
    ensures m.DirMap() == old(m.DirMap())
    ensures (forall i :: 0 <= i < |staged| ==> staged[i].stage.None? && !staged[i].file) ==> proven && clean && m.Alike()
    ensures (clean ==> proven) && (!proven ==> Doubtful(m))
    ensures m.quiet && m.faultless ==> proven && clean
  {
    m.FilesExist();
    hide Machine.Valid, KeptIn;
    proven, clean := true, true;
    ghost var empty := forall i :: 0 <= i < |staged| ==> staged[i].stage.None? && !staged[i].file;
    KeptFromStart(m.added, staged);
    for i := 0 to |staged|
      invariant clean ==> m.unclosed == old(m.unclosed)
      invariant m.Valid() && m.files == old(m.files) && m.dirs == old(m.dirs) && (clean ==> proven)
      invariant proven && old(m.FileNames()) <= Stages(staged, 0) ==> m.FileNames() <= Stages(staged, i)
      invariant m.DirMap() == old(m.DirMap())
      invariant empty ==> proven && clean && m.Alike()
      invariant old(m.doubts) <= m.doubts && (!proven ==> Doubtful(m))
      invariant m.quiet && m.faultless ==> proven && clean && KeptIn(m.added, staged[i..])
    {
      StagesStep(staged, i);
      ghost var before := m.added;
      KeptHere(before, staged, i);
      var gone, whole := CleanupStaged(m, staged[i]);
      KeptStep(before, m.added, staged, i);
      proven, clean := proven && gone, clean && gone && whole;
    }
  }

  lemma KeptFromStart(added: map<Path, nat>, staged: seq<Staged>)
    ensures KeptIn(added, staged) ==> KeptIn(added, staged[0..])
  {
    assert staged[0..] == staged;
  }

  lemma KeptHere(added: map<Path, nat>, staged: seq<Staged>, i: nat)
    requires i < |staged|
    ensures KeptIn(added, staged[i..]) && staged[i].stage.Some? ==>
              staged[i].info.Some? && staged[i].stage.value in added && added[staged[i].stage.value] == staged[i].info.value
  {
    assert staged[i..][0] == staged[i];
  }

  lemma KeptStep(before: map<Path, nat>, after: map<Path, nat>, staged: seq<Staged>, i: nat)
    requires i < |staged| && forall p <- before :: (p in after && after[p] == before[p]) || staged[i].stage == Some(p)
    ensures KeptIn(before, staged[i..]) ==> KeptIn(after, staged[i + 1..])
  {
    assert staged[i..][1..] == staged[i + 1..];
    assert staged[i..][0] == staged[i];
  }

  lemma StagesStep(staged: seq<Staged>, i: nat)
    requires i < |staged|
    ensures Stages(staged, i) == Stages(staged, i + 1) + if staged[i].stage.Some? then {staged[i].stage.value} else {}
  {
    forall p | p in Stages(staged, i)
      ensures p in Stages(staged, i + 1) || staged[i].stage == Some(p)
    {
      var j :| i <= j < |staged| && staged[j].stage == Some(p);
      assert j == i || p in Stages(staged, i + 1);
    }
    assert staged[i].stage.Some? ==> staged[i].stage.value in Stages(staged, i);
  }

  // ----- directories -----

  // ownedUnpackDirs: what this run created, in order; unproven when an identity was lost.
  datatype OwnedDir = OwnedDir(path: Path, id: nat)
  datatype OwnedDirs = OwnedDirs(entries: seq<OwnedDir>, unproven: bool)

  ghost function Paths(entries: seq<OwnedDir>): set<Path>
  {
    set d | d in entries :: d.path
  }

  ghost function Parents(entries: seq<OwnedDir>): set<Path>
  {
    set d | d in entries :: Parent(d.path)
  }

  // On a quiet machine the list is exact, unless unproven.
  ghost predicate RecordedIn(m: Machine, added: map<Path, nat>, dirs: set<nat>, c: OwnedDirs)
  {
    && (forall d <- c.entries ::
          d.path in added && added[d.path] == d.id && d.id in dirs && m.DirPathOf(added, dirs, Parent(d.path)))
    && (!c.unproven ==> forall p <- added :: added[p] in dirs ==> p in Paths(c.entries))
    && Ordered(c.entries) && (m.faultless ==> !c.unproven)
  }

  // Every directory is listed once, after the directory it stands in.
  ghost predicate Ordered(entries: seq<OwnedDir>)
  {
    && (forall i :: 0 <= i < |entries| ==> entries[i].path != [])
    && (forall i, j :: 0 <= j < i < |entries| ==> Parent(entries[j].path) != entries[i].path && entries[j].path != entries[i].path)
  }

  ghost predicate Recorded(m: Machine, c: OwnedDirs)
    reads m
  {
    m.quiet ==> RecordedIn(m, m.added, m.dirs, c)
  }

  // ownedUnpackDirs.check: a directory of ours must still be the one that was created.
  predicate Consistent(c: OwnedDirs, p: Path, s: Stat)
  {
    forall d <- c.entries :: d.path == p ==> s.Found? && s.node == Dir && s.id == d.id
  }

  // The first i directories are still there, and nothing else of this run is.
  ghost predicate Remaining(m: Machine, entries: seq<OwnedDir>, i: nat)
    requires i <= |entries|
    reads m
  {
    && (forall p <- m.added :: exists j :: 0 <= j < i && entries[j].path == p)
    && (forall j :: 0 <= j < i ==> entries[j].path in m.added && m.added[entries[j].path] == entries[j].id)
  }

  lemma AllRemaining(m: Machine, c: OwnedDirs)
    requires m.Valid() && RecordedIn(m, m.added, m.dirs, c) && !c.unproven && m.FileNames() == {}
    ensures Remaining(m, c.entries, |c.entries|)
  {
    m.ListedExist();
    hide Machine.Valid;
    forall p | p in m.added
      ensures exists j :: 0 <= j < |c.entries| && c.entries[j].path == p
    {
      assert p !in m.FileNames();
      var d :| d in c.entries && d.path == p;
      var j :| 0 <= j < |c.entries| && c.entries[j] == d;
      assert c.entries[j].path == p;
    }
    forall j | 0 <= j < |c.entries|
      ensures c.entries[j].path in m.added && m.added[c.entries[j].path] == c.entries[j].id
    {
      assert c.entries[j] in c.entries;
    }
  }

  // The newest of them has nothing in it.
  lemma NothingInside(m: Machine, entries: seq<OwnedDir>, i: nat)
    requires m.Valid() && m.quiet && i < |entries| && Ordered(entries) && Remaining(m, entries, i + 1)
    ensures m.Empty(entries[i].path)
  {
    var p := entries[i].path;
    assert m.NameOk(p);
    forall q | q in m.names && q != []
      ensures Parent(q) != p
    {
      assert m.NameOk(q);
      if q in m.added {
        var j :| 0 <= j < i + 1 && entries[j].path == q;
      }
    }
  }

  lemma OneLess(m: Machine, entries: seq<OwnedDir>, i: nat, before: map<Path, nat>)
    requires i < |entries| && Ordered(entries) && m.added == before - {entries[i].path}
    requires forall p <- before :: exists j :: 0 <= j < i + 1 && entries[j].path == p
    requires forall j :: 0 <= j < i + 1 ==> entries[j].path in before && before[entries[j].path] == entries[j].id
    ensures Remaining(m, entries, i)
  {
    forall p | p in m.added
      ensures exists j :: 0 <= j < i && entries[j].path == p
    {
      var j :| 0 <= j < i + 1 && entries[j].path == p;
      assert j != i;
    }
    forall j | 0 <= j < i
      ensures entries[j].path in m.added && m.added[entries[j].path] == entries[j].id
    {
      assert entries[j].path != entries[i].path;
    }
  }

  // ownedUnpackDirs.cleanup, newest first.
  method CleanupDirs(m: Machine, c: OwnedDirs) returns (clean: bool)
    requires m.Valid() && Recorded(m, c)
    modifies m
    ensures m.unclosed == old(m.unclosed)
    ensures m.Valid() && m.files == old(m.files) && m.dirs == old(m.dirs) && old(m.doubts) <= m.doubts
    ensures m.FileNames() <= old(m.FileNames())
    ensures m.quiet ==> m.FileNames() == old(m.FileNames())
    ensures m.quiet && clean ==> m.DirNames() == {}
    ensures m.quiet && m.faultless && old(m.FileNames()) == {} ==> clean
    ensures c == OwnedDirs([], false) ==> clean
  {
    hide Machine.Valid, Machine.FileNames, Machine.DirNames, Remaining, Paths, RecordedIn, Ordered;
    ghost var sweep := m.quiet && m.faultless && m.FileNames() == {};
    if m.quiet {
      RecordedFacts(m, c);
      if sweep {
        AllRemaining(m, c);
      }
    }
    clean := !c.unproven;
    for i := |c.entries| downto 0
      invariant m.unclosed == old(m.unclosed)
      invariant m.Valid() && m.files == old(m.files) && m.dirs == old(m.dirs) && old(m.doubts) <= m.doubts
      invariant m.FileNames() <= old(m.FileNames()) && (m.quiet ==> m.FileNames() == old(m.FileNames()))
      invariant clean ==> !c.unproven
      invariant m.quiet && clean ==> m.DirNames() <= Paths(c.entries[..i])
      invariant sweep ==> clean && Remaining(m, c.entries, i)
      invariant c.entries == [] ==> clean == !c.unproven
    {
      PathsNext(c.entries, i);
      clean := CleanupDir(m, c, i, clean);
    }
    PathsNone(c.entries);
  }

  lemma RecordedFacts(m: Machine, c: OwnedDirs)
    requires RecordedIn(m, m.added, m.dirs, c)
    ensures Ordered(c.entries) && (m.faultless ==> !c.unproven)
    ensures forall i :: 0 <= i < |c.entries| ==> c.entries[i].id in m.dirs
    ensures !c.unproven ==> m.DirNames() <= Paths(c.entries[..|c.entries|])
  {
    assert c.entries[..|c.entries|] == c.entries;
    forall i | 0 <= i < |c.entries|
      ensures c.entries[i].id in m.dirs
    {
      assert c.entries[i] in c.entries;
    }
  }

  lemma PathsNext(entries: seq<OwnedDir>, i: nat)
    requires i < |entries|
    ensures Paths(entries[..i + 1]) == Paths(entries[..i]) + {entries[i].path}
  {
    assert entries[..i + 1] == entries[..i] + [entries[i]];
    PathsAppend(entries[..i], entries[i]);
  }

  lemma PathsNone(entries: seq<OwnedDir>)
    ensures Paths(entries[..0]) == {}
  {
  }

  method CleanupDir(m: Machine, c: OwnedDirs, i: nat, before: bool) returns (clean: bool)
    requires m.Valid() && i < |c.entries| && (m.quiet ==> c.entries[i].id in m.dirs)
    modifies m
    ensures m.unclosed == old(m.unclosed)
    ensures m.Valid() && m.files == old(m.files) && m.dirs == old(m.dirs) && old(m.doubts) <= m.doubts
    ensures m.FileNames() <= old(m.FileNames()) && (m.quiet ==> m.FileNames() == old(m.FileNames()))
    ensures clean ==> before && m.DirNames() == old(m.DirNames()) - {c.entries[i].path}
    ensures m.quiet && m.faultless && before && Ordered(c.entries) && old(Remaining(m, c.entries, i + 1)) ==> clean && Remaining(m, c.entries, i)
  {
    ghost var added := m.added;
    ghost var sweep := m.quiet && m.faultless && Ordered(c.entries) && Remaining(m, c.entries, i + 1);
    if sweep {
      NothingInside(m, c.entries, i);
      assert c.entries[i].path in m.added && m.added[c.entries[i].path] == c.entries[i].id;
    }
    hide Machine.Valid, Ordered, Machine.Empty;
    var removed := RemoveDir(m, c.entries[i]);
    if sweep {
      OneLess(m, c.entries, i, added);
    }
    clean := before && removed;
  }

  method RemoveDir(m: Machine, d: OwnedDir) returns (ok: bool)
    requires m.Valid() && (m.quiet ==> d.id in m.dirs)
    modifies m
    ensures m.unclosed == old(m.unclosed)
    ensures m.Valid() && m.files == old(m.files) && m.dirs == old(m.dirs)
    ensures m.FileNames() <= old(m.FileNames()) && (m.quiet ==> m.FileNames() == old(m.FileNames()))
    ensures m.DirNames() == old(m.DirNames()) - if ok then {d.path} else {}
    ensures old(m.doubts) <= m.doubts
    ensures m.quiet && m.faultless && d.path in old(m.added) && old(m.added)[d.path] == d.id && old(m.Empty(d.path)) ==>
              ok && m.added == old(m.added) - {d.path}
  {
    hide Machine.Valid;
    if m.quiet && d.path in m.added {
      m.Listed(d.path);
    }
    var same := m.Inspect(d.path, d.id, true);
    if !same {
      return false;
    }
    if m.quiet {
      m.FoundOwn(d.path);
      m.DirIsNoFile(d.id);
    }
    ok := m.Remove(d.path);
  }

  // A missing directory is made, inspected and recorded.
  method MakeDirectory(m: Machine, next: Path, c: OwnedDirs) returns (ok: bool, c': OwnedDirs)
    requires m.Valid() && Recorded(m, c) && next != [] && (m.quiet ==> next !in m.names && m.DirPath(Parent(next)))
    modifies m
    ensures m.Valid() && m.files == old(m.files) && m.unsynced == old(m.unsynced) && m.FilesKept() && m.FileNames() <= old(m.FileNames())
    ensures m.quiet ==> m.FileNames() == old(m.FileNames())
    ensures m.quiet ==> m.NamesKept()
    ensures Recorded(m, c') && (ok ==> c'.unproven == c.unproven)
    ensures ok ==> m.dirty <= old(m.dirty) + Parents(c'.entries) && c.entries <= c'.entries
    ensures m.quiet && ok ==> Grown(old(m.added), old(m.dirs), m.added, m.dirs, next)
    ensures m.quiet && m.faultless ==> ok
  {
    if m.quiet {
      m.QuietPath(Parent(next));
      m.Unlisted(next);
      m.ListedExist();
    }
    m.FilesExist();
    hide Machine.Valid, RecordedIn, Paths;
    var made := m.Mkdir(next);
    if made.None? {
      return false, c;
    }
    if m.quiet {
      m.QuietName(next);
      RecordedGrows(m, c, next, made.value, old(m.added), old(m.dirs));
    }
    ok, c' := RecordDirectory(m, next, c, made.value);
    if ok {
      ParentRecorded(next, c, c');
    }
  }

  lemma ParentRecorded(next: Path, c: OwnedDirs, c': OwnedDirs)
    requires exists d <- c'.entries :: d.path == next
    ensures Parent(next) in Parents(c'.entries)
  {
  }

  // ownedUnpackDirs.record: the new directory is inspected and listed.
  method RecordDirectory(m: Machine, next: Path, c: OwnedDirs, ghost id: nat) returns (ok: bool, c': OwnedDirs)
    requires m.Valid() && next != [] && (forall d <- c.entries :: d.path == next ==> !m.quiet)
    requires m.quiet ==> next in m.names && m.names[next] == id && id in m.nodes && m.nodes[id] == Dir
    requires m.quiet ==> RecordedIn(m, m.added, m.dirs, c.(entries := c.entries + [OwnedDir(next, id)]))
    requires m.quiet && !m.faultless ==> RecordedIn(m, m.added, m.dirs, c.(unproven := true))
    modifies m
    ensures m.unclosed == old(m.unclosed)
    ensures m.Valid() && m.Same() && Recorded(m, c') && (ok ==> c'.unproven == c.unproven && c.entries <= c'.entries)
    ensures ok ==> exists d <- c'.entries :: d.path == next
    ensures m.quiet && m.faultless ==> ok
  {
    hide Machine.Valid, RecordedIn;
    var info := m.Lstat(next);
    if !(info.Found? && info.node == Dir) || !Consistent(c, next, info) {
      assert m.quiet ==> !m.faultless;
      return false, c.(unproven := true);
    }
    if exists d <- c.entries :: d.path == next {
      return true, c;
    }
    c' := c.(entries := c.entries + [OwnedDir(next, info.id)]);
    assert c'.entries[|c.entries|] in c'.entries;
    ok := true;
  }

  lemma RecordedGrows(m: Machine, c: OwnedDirs, next: Path, id: nat, added: map<Path, nat>, dirs: set<nat>)
    requires RecordedIn(m, added, dirs, c) && m.DirPathOf(added, dirs, Parent(next)) && next != [] && next !in added && next !in m.base
    requires m.added == added[next := id] && m.dirs == dirs + {id} && forall p <- added :: added[p] != id
    ensures !m.faultless ==> RecordedIn(m, m.added, m.dirs, c.(unproven := true))
    ensures forall d <- c.entries :: d.path != next
    ensures RecordedIn(m, m.added, m.dirs, c.(entries := c.entries + [OwnedDir(next, id)]))
  {
    PathsAppend(c.entries, OwnedDir(next, id));
    var all := c.entries + [OwnedDir(next, id)];
    assert forall d :: d in all <==> d in c.entries || d == OwnedDir(next, id);
    forall j | 0 <= j < |c.entries|
      ensures Parent(all[j].path) != next && all[j].path != next
    {
      assert c.entries[j] in c.entries;
    }
  }

  lemma PathsAppend(entries: seq<OwnedDir>, d: OwnedDir)
    ensures Paths(entries + [d]) == Paths(entries) + {d.path} && Parent(d.path) in Parents(entries + [d])
  {
    assert forall e :: e in entries + [d] <==> e in entries || e == d;
    assert d in entries + [d];
  }

  // One new directory, and no other change.
  ghost predicate Grown(added: map<Path, nat>, dirs: set<nat>, added': map<Path, nat>, dirs': set<nat>, p: Path)
  {
    exists id :: id !in dirs && p !in added && added' == added[p := id] && dirs' == dirs + {id}
  }

  // One component of prepareExtractionPath; leaf when it names a file.
  method Component(m: Machine, next: Path, leaf: bool, c: OwnedDirs) returns (ok: bool, c': OwnedDirs)
    requires m.Valid() && Recorded(m, c) && next != [] && (m.quiet ==> m.DirPath(Parent(next)))
    modifies m
    ensures m.Valid() && m.files == old(m.files) && m.unsynced == old(m.unsynced) && m.FilesKept() && m.FileNames() <= old(m.FileNames())
    ensures m.quiet ==> m.FileNames() == old(m.FileNames())
    ensures m.quiet ==> m.NamesKept()
    ensures Recorded(m, c') && (ok ==> c'.unproven == c.unproven)
    ensures ok ==> m.dirty <= old(m.dirty) + Parents(c'.entries) && c.entries <= c'.entries
    ensures m.quiet && ok && !leaf ==> m.DirPath(next)
    ensures m.quiet && ok ==>
              if leaf then m.added == old(m.added) && m.dirs == old(m.dirs)
              else Grown(old(m.added), old(m.dirs), m.added, m.dirs, next) || (m.added == old(m.added) && m.dirs == old(m.dirs))
    ensures m.quiet && m.faultless && old(m.Free(next) || (!leaf && m.DirPath(next))) ==> ok
  {
    if m.quiet {
      m.QuietPath(next);
      if next in m.added {
        m.Listed(next);
      }
    }
    m.FilesExist();
    hide Machine.Valid;
    var info := m.Lstat(next);
    if !Consistent(c, next, info) {
      assert m.quiet ==> !m.faultless;
      return false, c.(unproven := true);
    }
    if info.Missing? {
      if leaf {
        return true, c;
      }
      ok, c' := MakeDirectory(m, next, c);
      return;
    }
    ok := info.Found? && info.node != Symlink && leaf == info.node.File?;
    c' := c;
  }

  // The directories a path needs: all its proper prefixes, and itself when it names a directory.
  ghost function Scope(path: Path, dir: bool): set<Path>
  {
    set j | 1 <= j <= |path| && (dir || j < |path|) :: path[..j]
  }

  // Since then only directories in scope were added.
  ghost predicate Extends(m: Machine, added: map<Path, nat>, dirs: set<nat>, scope: set<Path>)
    reads m
  {
    ExtendsIn(m.added, m.dirs, added, dirs, scope)
  }

  ghost predicate ExtendsIn(added': map<Path, nat>, dirs': set<nat>, added: map<Path, nat>, dirs: set<nat>, scope: set<Path>)
  {
    && dirs <= dirs'
    && (forall p <- added :: p in added' && added'[p] == added[p])
    && (forall p <- added' :: p in added || (p in scope && added'[p] in dirs'))
  }

  // Nothing stands where the path needs a directory, nor where it wants its file.
  ghost predicate Passable(m: Machine, path: Path, dir: bool)
    reads m
  {
    && (forall p <- Scope(path, dir) :: m.Free(p) || m.DirPath(p))
    && (!dir ==> m.Free(path))
  }

  // The first i + 1 components: a directory in scope, or the file itself.
  lemma ScopeAt(path: Path, dir: bool, i: nat)
    requires i < |path|
    ensures path[..i + 1] != [] && Parent(path[..i + 1]) == path[..i]
    ensures if i + 1 == |path| && !dir then path[..i + 1] == path && path !in Scope(path, dir) else path[..i + 1] in Scope(path, dir)
  {
    assert path[..i + 1][..i] == path[..i];
  }

  lemma ParentsGrow(a: seq<OwnedDir>, b: seq<OwnedDir>)
    requires a <= b
    ensures Parents(a) <= Parents(b)
  {
    assert forall d :: d in a ==> d in b;
  }

  // ExtendsIn: since a moment only directories in scope were added, and the listed ones are where they were.
  lemma ExtendsMore(m: Machine, added: map<Path, nat>, dirs: set<nat>, scope: set<Path>, added': map<Path, nat>, dirs': set<nat>, p: Path, leaf: bool)
    requires ExtendsIn(added', dirs', added, dirs, scope) && (!leaf ==> p in scope)
    requires if leaf then m.added == added' && m.dirs == dirs'
             else Grown(added', dirs', m.added, m.dirs, p) || (m.added == added' && m.dirs == dirs')
    ensures Extends(m, added, dirs, scope)
    ensures forall q :: m.DirPathOf(added', dirs', q) ==> m.DirPath(q)
  {
  }

  // So far the path is made of directories, and nothing else was added.
  ghost predicate Walked(m: Machine, path: Path, dir: bool, i: nat, added: map<Path, nat>, dirs: set<nat>)
    reads m
  {
    && i <= |path| && Extends(m, added, dirs, Scope(path, dir))
    && (forall j :: 0 <= j <= i && (dir || j < |path|) ==> m.DirPath(path[..j]))
  }

  ghost predicate PassableIn(m: Machine, added: map<Path, nat>, dirs: set<nat>, path: Path, dir: bool)
    reads m
  {
    && (forall p <- Scope(path, dir) :: (p != [] && p !in m.base && p !in added) || m.DirPathOf(added, dirs, p))
    && (!dir ==> path != [] && path !in m.base && path !in added)
  }

  lemma NextPassable(m: Machine, path: Path, dir: bool, i: nat, added: map<Path, nat>, dirs: set<nat>)
    requires Walked(m, path, dir, i, added, dirs) && i < |path| && PassableIn(m, added, dirs, path, dir)
    ensures var next, leaf := path[..i + 1], i + 1 == |path| && !dir; m.Free(next) || (!leaf && m.DirPath(next))
  {
    ScopeAt(path, dir, i);
  }

  lemma WalkedNext(m: Machine, path: Path, dir: bool, i: nat, added: map<Path, nat>, dirs: set<nat>, added': map<Path, nat>, dirs': set<nat>)
    requires i < |path| && ExtendsIn(added', dirs', added, dirs, Scope(path, dir))
    requires forall j :: 0 <= j <= i && (dir || j < |path|) ==> m.DirPathOf(added', dirs', path[..j])
    requires var p, leaf := path[..i + 1], i + 1 == |path| && !dir;
             if leaf then m.added == added' && m.dirs == dirs'
             else m.DirPath(p) && (Grown(added', dirs', m.added, m.dirs, p) || (m.added == added' && m.dirs == dirs'))
    ensures Walked(m, path, dir, i + 1, added, dirs)
  {
    var leaf := i + 1 == |path| && !dir;
    ScopeAt(path, dir, i);
    hide Scope, ExtendsIn;
    ExtendsMore(m, added, dirs, Scope(path, dir), added', dirs', path[..i + 1], leaf);
  }

  method PreparePath(m: Machine, path: Path, dir: bool, c: OwnedDirs) returns (ok: bool, c': OwnedDirs)
    requires m.Valid() && Recorded(m, c)
    modifies m
    ensures m.Valid() && m.files == old(m.files) && m.unsynced == old(m.unsynced) && m.FilesKept() && m.FileNames() <= old(m.FileNames())
    ensures m.quiet ==> m.FileNames() == old(m.FileNames())
    ensures m.quiet ==> m.NamesKept()
    ensures Recorded(m, c') && (ok ==> c'.unproven == c.unproven)
    ensures ok ==> m.dirty <= old(m.dirty) + Parents(c'.entries) && c.entries <= c'.entries
    ensures m.quiet && ok ==> Extends(m, old(m.added), old(m.dirs), Scope(path, dir)) && forall p <- Scope(path, dir) :: m.DirPath(p)
    ensures m.quiet && m.faultless && old(Passable(m, path, dir)) ==> ok
  {
    m.FilesExist();
    ok, c' := true, c;
    ghost var added, dirs := m.added, m.dirs;
    ghost var passable := Passable(m, path, dir);
    assert passable ==> PassableIn(m, added, dirs, path, dir);
    hide Machine.Valid, Recorded, Machine.FileNames, Parents, Walked, PassableIn, Passable, Machine.DirPath, Machine.Free, Grown;
    assert Walked(m, path, dir, 0, added, dirs) by { WalkedNone(m, path, dir); }
    for i := 0 to |path|
      invariant m.Valid() && m.files == old(m.files) && m.unsynced == old(m.unsynced) && m.FilesKept()
      invariant m.FileNames() <= old(m.FileNames()) && (m.quiet ==> m.FileNames() == old(m.FileNames()))
      invariant Recorded(m, c') && c'.unproven == c.unproven && c.entries <= c'.entries
      invariant m.dirty <= old(m.dirty) + Parents(c'.entries)
      invariant m.quiet ==> m.NamesKept()
      invariant m.quiet ==> Walked(m, path, dir, i, added, dirs)
      invariant passable ==> PassableIn(m, added, dirs, path, dir)
    {
      ok, c' := PrepareStep(m, path, dir, i, c', added, dirs);
      if !ok {
        return;
      }
    }
    if m.quiet {
      WalkedAll(m, path, dir, added, dirs);
    }
  }

  lemma WalkedNone(m: Machine, path: Path, dir: bool)
    ensures Walked(m, path, dir, 0, m.added, m.dirs)
  {
    assert path[..0] == [];
  }

  lemma WalkedAll(m: Machine, path: Path, dir: bool, added: map<Path, nat>, dirs: set<nat>)
    requires Walked(m, path, dir, |path|, added, dirs)
    ensures Extends(m, added, dirs, Scope(path, dir)) && forall p <- Scope(path, dir) :: m.DirPath(p)
  {
  }

  // One component, with what is known of those before it.
  method PrepareStep(m: Machine, path: Path, dir: bool, i: nat, c: OwnedDirs, ghost added: map<Path, nat>, ghost dirs: set<nat>)
    returns (ok: bool, c': OwnedDirs)
    requires m.Valid() && Recorded(m, c) && i < |path| && (m.quiet ==> Walked(m, path, dir, i, added, dirs))
    modifies m
    ensures m.Valid() && m.files == old(m.files) && m.unsynced == old(m.unsynced) && m.FilesKept() && m.FileNames() <= old(m.FileNames())
    ensures m.quiet ==> m.FileNames() == old(m.FileNames())
    ensures m.quiet ==> m.NamesKept()
    ensures Recorded(m, c') && (ok ==> c'.unproven == c.unproven)
    ensures ok ==> m.dirty <= old(m.dirty) + Parents(c'.entries) && Parents(c.entries) <= Parents(c'.entries) && c.entries <= c'.entries
    ensures m.quiet && ok ==> Walked(m, path, dir, i + 1, added, dirs)
    ensures m.quiet && m.faultless && old(PassableIn(m, added, dirs, path, dir)) ==> ok
    ensures PassableIn(m, added, dirs, path, dir) == old(PassableIn(m, added, dirs, path, dir))
  {
    ScopeAt(path, dir, i);
    if m.quiet && PassableIn(m, added, dirs, path, dir) {
      NextPassable(m, path, dir, i, added, dirs);
    }
    hide Machine.Valid, Recorded, Machine.FileNames, Parents, Scope, ExtendsIn, Grown;
    var leaf := i + 1 == |path| && !dir;
    ghost var added', dirs' := m.added, m.dirs;
    ok, c' := Component(m, path[..i + 1], leaf, c);
    if ok {
      ParentsGrow(c.entries, c'.entries);
      if m.quiet {
        WalkedNext(m, path, dir, i, added, dirs, added', dirs');
      }
    }
  }

  // ----- the first pass -----

  ghost function AllScope(entries: seq<Entry>): set<Path>
  {
    if entries == [] then {} else
      var e := entries[|entries| - 1];
      AllScope(entries[..|entries| - 1]) + Scope(e.path, e.dir)
  }

  lemma {:induction false} ScopeIn(entries: seq<Entry>, i: nat)
    requires i < |entries|
    ensures Scope(entries[i].path, entries[i].dir) <= AllScope(entries)
  {
    if i < |entries| - 1 {
      ScopeIn(entries[..|entries| - 1], i);
    }
  }

  predicate DistinctTargets(entries: seq<Entry>)
  {
    forall i, j :: 0 <= i < j < |entries| && !entries[i].dir && !entries[j].dir ==> entries[i].path != entries[j].path
  }

  // The archive fits what stood below the root: wherever it needs a directory there was one or
  // nothing, where it puts a file there was nothing, and it contradicts itself nowhere.
  ghost predicate Fits(base: map<Path, nat>, nodes: map<nat, Node>, e: Entry)
  {
    && (forall p <- Scope(e.path, e.dir) :: p in base ==> base[p] in nodes && nodes[base[p]] == Dir)
    && (!e.dir ==> e.path !in base)
  }

  ghost predicate Extractable(base: map<Path, nat>, nodes: map<nat, Node>, entries: seq<Entry>)
  {
    && DistinctTargets(entries)
    && (forall e <- entries :: e.path != [] && Fits(base, nodes, e) && (!e.dir ==> e.path !in AllScope(entries)))
  }

  lemma {:induction false} AllScopePrefix(entries: seq<Entry>, i: nat)
    requires i <= |entries|
    ensures AllScope(entries[..i]) <= AllScope(entries)
  {
    if i < |entries| {
      AllScopePrefix(entries[..|entries| - 1], i);
      assert entries[..|entries| - 1][..i] == entries[..i];
    } else {
      assert entries[..i] == entries;
    }
  }

  // Making directories for some entries does not get in the way of another.
  lemma StillPassable(m: Machine, scope: set<Path>, entries: seq<Entry>, e: Entry)
    requires Extends(m, map[], {}, scope) && scope <= AllScope(entries)
    requires Extractable(m.base, m.baseNodes, entries) && e in entries
    ensures Passable(m, e.path, e.dir)
  {
    forall p | p in Scope(e.path, e.dir)
      ensures p != [] && (m.Free(p) || m.DirPath(p))
    {
      assert e in entries;
    }
  }

  // One entry of the first pass.
  method FirstEntry(m: Machine, e: Entry, seen: set<Path>, c: OwnedDirs) returns (ok: bool, c': OwnedDirs, seen': set<Path>)
    requires m.Valid() && Recorded(m, c)
    modifies m
    ensures m.unclosed == old(m.unclosed)
    ensures m.Valid() && m.files == old(m.files) && m.unsynced == old(m.unsynced) && m.FileNames() <= old(m.FileNames())
    ensures Recorded(m, c') && (ok ==> c'.unproven == c.unproven)
    ensures ok ==> m.dirty <= old(m.dirty) + Parents(c'.entries) && c.entries <= c'.entries
    ensures ok ==> if e.dir then seen' == seen else e.path !in seen && seen' == seen + {e.path}
    ensures m.quiet && ok ==>
              Extends(m, old(m.added), old(m.dirs), Scope(e.path, e.dir)) && forall p <- Scope(e.path, e.dir) :: m.DirPath(p)
    ensures m.quiet && m.faultless && old(Passable(m, e.path, e.dir)) && (e.dir || e.path !in seen) ==> ok
  {
    c', seen' := c, seen;
    hide Machine.Valid, Parents;
    ok := m.Step();
    if !ok {
      return;
    }
    ok, c' := PreparePath(m, e.path, e.dir, c);
    if !ok || e.dir {
      return;
    }
    if e.path in seen {
      return false, c', seen;
    }
    seen' := seen + {e.path};
    if m.quiet {
      m.QuietPath(e.path);
      OutsideScope(e.path);
    }
    var current := m.Lstat(e.path);
    ok := current.Missing?;
  }

  lemma OutsideScope(path: Path)
    ensures path !in Scope(path, false)
  {
  }

  method FirstPass(m: Machine, entries: seq<Entry>) returns (ok: bool, c: OwnedDirs)
    requires m.Valid() && m.dirs == {} && m.added == map[] && m.dirty == {} && forall e <- entries :: e.path != []
    modifies m
    ensures m.unclosed == old(m.unclosed)
    ensures m.Valid() && m.files == old(m.files) && m.unsynced == old(m.unsynced) && m.FileNames() == {} && Recorded(m, c)
    ensures ok ==> !c.unproven && DistinctTargets(entries) && m.dirty <= Parents(c.entries)
    ensures m.quiet && ok ==> Extends(m, map[], {}, AllScope(entries)) && forall p <- AllScope(entries) :: m.DirPath(p)
    ensures m.quiet && m.faultless && Extractable(m.base, m.baseNodes, entries) ==> ok
  {
    ok, c := true, OwnedDirs([], false);
    var seen: set<Path> := {};
    assert AllScope(entries[..0]) == {};
    assert m.FileNames() == {};
    hide Machine.Valid, Machine.FileNames, Scope, Paths, Passable, Fits, Machine.DirPath, Machine.Free;
    for i := 0 to |entries|
      invariant m.unclosed == old(m.unclosed)
      invariant m.Valid() && m.files == old(m.files) && m.unsynced == old(m.unsynced) && m.FileNames() == {}
      invariant Recorded(m, c) && !c.unproven && m.dirty <= Parents(c.entries)
      invariant Seen(entries[..i], seen)
      invariant m.quiet ==> Extends(m, map[], {}, AllScope(entries[..i])) && forall p <- AllScope(entries[..i]) :: m.DirPath(p)
    {
      var e := entries[i];
      AllScopePrefix(entries, i);
      if m.quiet && Extractable(m.base, m.baseNodes, entries) {
        StillPassable(m, AllScope(entries[..i]), entries, e);
      }
      ghost var added, dirs, seenBefore := m.added, m.dirs, seen;
      ok, c, seen := FirstEntry(m, e, seen, c);
      SeenStep(entries, i, seenBefore);
      if !ok {
        return;
      }
      if m.quiet {
        ScopeStep(m, entries, i, added, dirs);
      }
    }
    assert entries[..|entries|] == entries;
    ok := true;
  }

  // seen holds the file targets so far, which are all different.
  ghost predicate Seen(entries: seq<Entry>, seen: set<Path>)
  {
    && DistinctTargets(entries)
    && (forall e <- entries :: !e.dir ==> e.path in seen)
    && (forall p <- seen :: exists e :: e in entries && !e.dir && e.path == p)
  }

  lemma SeenStep(entries: seq<Entry>, i: nat, seen: set<Path>)
    requires i < |entries| && Seen(entries[..i], seen)
    ensures entries[i].dir ==> Seen(entries[..i + 1], seen)
    ensures !entries[i].dir && entries[i].path !in seen ==> Seen(entries[..i + 1], seen + {entries[i].path})
    ensures !entries[i].dir && entries[i].path in seen ==> !DistinctTargets(entries)
  {
    var before, after := entries[..i], entries[..i + 1];
    assert forall e :: e in after <==> e in before || e == entries[i];
    if !entries[i].dir && entries[i].path in seen {
      var e :| e in before && !e.dir && e.path == entries[i].path;
      var j :| 0 <= j < i && before[j] == e;
      assert entries[j].path == entries[i].path;
    }
  }

  lemma ScopeStep(m: Machine, entries: seq<Entry>, i: nat, added: map<Path, nat>, dirs: set<nat>)
    requires i < |entries| && Extends(m, added, dirs, Scope(entries[i].path, entries[i].dir))
    requires forall p <- Scope(entries[i].path, entries[i].dir) :: m.DirPath(p)
    requires forall p <- added :: p in AllScope(entries[..i]) && added[p] in dirs
    requires forall p <- AllScope(entries[..i]) ::
               m.DirPathOf(added, dirs, p)
    ensures Extends(m, map[], {}, AllScope(entries[..i + 1])) && forall p <- AllScope(entries[..i + 1]) :: m.DirPath(p)
  {
    assert entries[..i + 1] == entries[..i] + [entries[i]];
    hide Scope;
  }

  // ----- the second pass -----

  // Decompressing into the stage, read by read, then sync, close and a last look at the name.
  method FillStage(m: Machine, stage: Path, id: nat, data: seq<int>) returns (ok: bool, open: bool)
    requires m.Valid() && id in m.files && id in m.nodes && m.nodes[id] == File([])
    modifies m
    ensures m.Valid() && m.files == old(m.files) && m.dirs == old(m.dirs) && m.added == old(m.added) && m.dirty == old(m.dirty)
    ensures m.OthersKept(id) && m.unsynced <= old(m.unsynced) + {id}
    ensures ok ==> !open && id in m.nodes && m.nodes[id] == File(data) && id !in m.unsynced
    ensures m.quiet && m.faultless && stage in m.added && m.added[stage] == id ==> ok
  {
    open := true;
    var done := 0;
    m.FilesExist();
    hide Machine.Valid;
    while done < |data|
      invariant done <= |data| && m.Valid() && id in m.nodes && m.nodes[id] == File(data[..done])
      invariant m.files == old(m.files) && m.dirs == old(m.dirs) && m.added == old(m.added) && m.dirty == old(m.dirty)
      invariant m.OthersKept(id) && m.unsynced <= old(m.unsynced) + {id}
    {
      ok := m.Step();
      if !ok {
        return;
      }
      var n: nat := *;
      var count := if 0 < n <= |data| - done then n else |data| - done;
      ok := m.Write(id, data[done..done + count]);
      if !ok {
        return;
      }
      assert data[..done] + data[done..done + count] == data[..done + count];
      done := done + count;
    }
    assert data[..done] == data;
    ok := m.Step();
    if ok {
      ok := m.Sync(id);
    }
    if ok {
      ok := m.Step();
    }
    if !ok {
      return;
    }
    open := false;
    m.FilesExist();
    if m.quiet && stage in m.added {
      m.QuietName(stage);
    }
    var current := m.Lstat(stage);
    ok := SameFile(current, id);
  }

  // Since then only the stage and directories in scope were added.
  ghost predicate Staging(m: Machine, added: map<Path, nat>, dirs: set<nat>, scope: set<Path>, stage: Path)
    reads m
  {
    && dirs <= m.dirs && stage !in added && stage !in m.base
    && (forall p <- added :: p in m.added && m.added[p] == added[p])
    && (forall p <- m.added :: p in added || p == stage || (p in scope && m.added[p] in m.dirs))
  }

  // The stage is created exclusively, identified and filled.
  method MakeStage(m: Machine, e: Entry, stage: Path) returns (ok: bool, made: seq<Staged>)
    requires m.Valid() && e.path != [] && stage != [] && Parent(stage) == [] && stage != e.path
    modifies m
    ensures m.Valid() && m.dirs == old(m.dirs)
    ensures |made| <= 1 && (made != [] ==> made[0].stage == Some(stage) && made[0].target == e.path)
    ensures made != [] && made[0].info.Some? ==> made[0].info.value in m.files && made[0].info.value !in old(m.files)
    ensures old(m.files) <= m.files && m.FilesKept() && m.FileNames() <= old(m.FileNames()) + if made == [] then {} else {stage}
    ensures m.DirNames() <= old(m.DirNames())
    ensures m.added == old(m.added) || (stage in m.added && m.added[stage] in m.files && m.added == old(m.added)[stage := m.added[stage]])
    ensures m.quiet && m.added != old(m.added) ==> stage !in old(m.names)
    ensures ok && m.quiet ==> stage in m.added && stage !in old(m.names)
    ensures ok ==> made != [] && !made[0].file && Waiting(m, made[0], e.data) && m.unsynced <= old(m.unsynced)
    ensures m.dirty <= old(m.dirty) + {[]}
    ensures made != [] && made[0].info.None? ==> Doubtful(m)
    ensures m.quiet ==> m.NamesKept()
    ensures m.quiet && m.faultless && made != [] ==>
              made[0].info.Some? && stage !in old(m.added) && stage in m.added && m.added[stage] == made[0].info.value
    ensures m.quiet && m.faultless && stage !in old(m.names) ==> ok
  {
    m.FilesExist();
    m.ListedExist();
    hide Machine.Valid;
    made := [];
    if m.quiet && stage !in m.names {
      m.Unlisted(stage);
    }
    var created := m.Create(stage);
    if created.None? {
      return false, made;
    }
    var id := created.value;
    m.NotDir(id);
    made := [Staged(true, Some(stage), e.path, None)];
    var identity := m.StatOpen(id);
    if identity.None? {
      return false, made;
    }
    made := [Staged(true, Some(stage), e.path, Some(id))];
    var open: bool;
    ok, open := FillStage(m, stage, id, e.data);
    made := [Staged(open, Some(stage), e.path, Some(id))];
  }

  // One file entry: its path is checked again, then it is staged.
  method StageEntry(m: Machine, e: Entry, stage: Path, c: OwnedDirs) returns (ok: bool, c': OwnedDirs, made: seq<Staged>)
    requires m.Valid() && Recorded(m, c) && e.path != [] && stage != [] && Parent(stage) == [] && stage != e.path
    modifies m
    ensures m.Valid() && Recorded(m, c') && (ok ==> c'.unproven == c.unproven)
    ensures |made| <= 1 && (made != [] ==> made[0].stage == Some(stage) && made[0].target == e.path)
    ensures made != [] && made[0].info.Some? ==> made[0].info.value in m.files && made[0].info.value !in old(m.files)
    ensures old(m.files) <= m.files && m.FilesKept() && m.FileNames() <= old(m.FileNames()) + if made == [] then {} else {stage}
    ensures ok ==> made != [] && !made[0].file && Waiting(m, made[0], e.data)
    ensures made != [] && made[0].info.None? ==> Doubtful(m)
    ensures m.quiet ==> m.NamesKept()
    ensures m.quiet && m.faultless && made != [] ==>
              made[0].info.Some? && stage !in old(m.added) && stage in m.added && m.added[stage] == made[0].info.value
    ensures ok ==> m.unsynced <= old(m.unsynced) && m.dirty <= old(m.dirty) + Parents(c'.entries) + {[]} && c.entries <= c'.entries
    ensures m.quiet && ok ==> Staging(m, old(m.added), old(m.dirs), Scope(e.path, false), stage) && m.DirPath(Parent(e.path))
    ensures m.quiet && m.faultless && old(Passable(m, e.path, false) && m.Free(stage)) && stage !in Scope(e.path, false) ==> ok
  {
    m.FilesExist();
    hide Machine.Valid, Parents, Machine.FileNames, Waiting, Paths, Scope, Machine.DirNames, RecordedIn;
    c', made := c, [];
    ok := m.Step();
    if !ok {
      return;
    }
    ok, c' := PreparePath(m, e.path, false, c);
    if !ok {
      return;
    }
    ok := m.Step();
    if !ok {
      return;
    }
    if m.quiet {
      m.QuietPath(stage);
      ParentInScope(e.path);
      if stage !in m.names {
        m.Unlisted(stage);
      }
    }
    ghost var added, dirs := m.added, m.dirs;
    ok, made := MakeStage(m, e, stage);
    if m.quiet && m.added != added {
      m.NotDir(m.added[stage]);
      RecordedBeside(m, c', stage, added);
    }
  }

  lemma RecordedBeside(m: Machine, c: OwnedDirs, stage: Path, added: map<Path, nat>)
    requires RecordedIn(m, added, m.dirs, c) && stage !in added && stage in m.added && m.added[stage] !in m.dirs
    requires m.added == added[stage := m.added[stage]]
    ensures RecordedIn(m, m.added, m.dirs, c)
  {
  }

  lemma ParentInScope(path: Path)
    ensures Parent(path) == [] || Parent(path) in Scope(path, false)
  {
    if |path| > 1 {
      assert path[..|path| - 1] in Scope(path, false);
    }
  }

  function Files(entries: seq<Entry>): seq<Entry>
  {
    if entries == [] then [] else
      Files(entries[..|entries| - 1]) + if entries[|entries| - 1].dir then [] else [entries[|entries| - 1]]
  }

  // Every file entry so far is completely staged.
  ghost predicate Stocked(m: Machine, staged: seq<Staged>, fs: seq<Entry>)
    reads m
  {
    && |staged| == |fs| && Distinct(staged)
    && (forall i :: 0 <= i < |fs| ==> Waiting(m, staged[i], fs[i].data) && !staged[i].file && staged[i].target == fs[i].path)
  }

  ghost predicate InfosIn(m: Machine, staged: seq<Staged>)
    reads m
  {
    && (forall i :: 0 <= i < |staged| && staged[i].info.Some? ==> staged[i].info.value in m.files)
    && (forall i :: 0 <= i < |staged| && staged[i].stage.Some? && staged[i].info.None? ==> Doubtful(m))
    && (m.quiet && m.faultless ==> KeptIn(m.added, staged))
  }

  ghost predicate Held(m: Machine, staged: seq<Staged>)
    reads m
  {
    InfosIn(m, staged) && m.FileNames() <= Stages(staged, 0)
  }

  lemma StagesAppend(staged: seq<Staged>, s: Staged)
    ensures Stages(staged + [s], 0) == Stages(staged, 0) + if s.stage.Some? then {s.stage.value} else {}
  {
    var all := staged + [s];
    forall p | p in Stages(staged, 0)
      ensures p in Stages(all, 0)
    {
      var i :| 0 <= i < |staged| && staged[i].stage == Some(p);
      assert all[i].stage == Some(p);
    }
    assert all[|staged|] == s;
  }

  // The list on a quiet machine while staging: directories the archive needs, and stages.
  ghost predicate Accounted(m: Machine, scope: set<Path>, stages: set<Path>)
    reads m
  {
    && (forall p <- m.added :: (p in scope && m.added[p] in m.dirs) || p in stages)
    && (forall p <- scope :: m.DirPath(p))
  }

  ghost function Drawn(draw: seq<string>, k: nat): set<Path>
    requires k <= |draw|
  {
    set i | 0 <= i < k :: [draw[i]]
  }

  // The random names of this run differ from one another and from what is there.
  ghost predicate FreshNames(base: map<Path, nat>, entries: seq<Entry>, draw: seq<string>)
    requires |draw| == |entries|
  {
    && (forall i, j :: 0 <= i < j < |entries| ==> draw[i] != draw[j])
    && (forall i :: 0 <= i < |entries| ==> [draw[i]] !in base && [draw[i]] !in AllScope(entries))
  }

  // One file entry of the second pass.
  method StageNext(m: Machine, e: Entry, stage: Path, c: OwnedDirs, staged: seq<Staged>, ghost fs: seq<Entry>)
    returns (ok: bool, c': OwnedDirs, staged': seq<Staged>)
    requires m.Valid() && Recorded(m, c) && e.path != [] && stage != [] && Parent(stage) == [] && stage != e.path
    requires Stocked(m, staged, fs) && Held(m, staged)
    modifies m
    ensures m.unclosed == old(m.unclosed)
    ensures m.Valid() && Recorded(m, c') && Held(m, staged') && (ok ==> c'.unproven == c.unproven)
    ensures ok ==> Stocked(m, staged', fs + [e])
    ensures ok ==> m.dirty <= old(m.dirty) + Parents(c'.entries) + {[]} && c.entries <= c'.entries
    ensures m.quiet && ok ==> Staging(m, old(m.added), old(m.dirs), Scope(e.path, false), stage) && m.DirPath(Parent(e.path))
    ensures m.quiet && m.faultless && old(Passable(m, e.path, false) && m.Free(stage)) && stage !in Scope(e.path, false) ==> ok
  {
    var made;
    ok, c', made := StageEntry(m, e, stage, c);
    staged' := staged + made;
    if made != [] {
      assert made == [made[0]];
      StagesAppend(staged, made[0]);
    } else {
      assert staged' == staged;
    }
    hide Machine.Valid, Recorded, Stages, Machine.FileNames, Parents, Scope, Passable, Paths;
    forall i | 0 <= i < |staged|
      ensures ok ==> Waiting(m, staged[i], fs[i].data)
    {
      assert old(Waiting(m, staged[i], fs[i].data));
    }
  }

  // Staging one entry keeps the list accounted for.
  lemma AccountedStep(m: Machine, added: map<Path, nat>, dirs: set<nat>, scope: set<Path>, stages: set<Path>, stage: Path, own: set<Path>)
    requires Staging(m, added, dirs, own, stage) && own <= scope
    requires forall p <- added :: (p in scope && added[p] in dirs) || p in stages
    requires forall p <- scope ::
               m.DirPathOf(added, dirs, p)
    ensures Accounted(m, scope, stages + {stage})
  {
  }

  // While staging, the next entry still fits and the next random name is free.
  lemma NextFits(m: Machine, entries: seq<Entry>, draw: seq<string>, i: nat)
    requires i < |entries| == |draw| && Accounted(m, AllScope(entries), Drawn(draw, i)) && m.Valid()
    requires Extractable(m.base, m.baseNodes, entries) && FreshNames(m.base, entries, draw)
    requires forall n <- draw :: [n] != entries[i].path
    ensures Passable(m, entries[i].path, entries[i].dir) && m.Free([draw[i]]) && [draw[i]] !in Scope(entries[i].path, entries[i].dir)
  {
    ScopeIn(entries, i);
    assert entries[i] in entries;
    hide Scope, AllScope, Machine.DirPath, Machine.Valid;
    var e := entries[i];
    forall p | p in Scope(e.path, e.dir)
      ensures m.DirPath(p)
    {
    }
    assert [draw[i]] !in m.added;
    assert [draw[i]] !in m.base;
  }

  // Nothing but directories is needed below the stages and the targets.
  lemma DrawnStep(draw: seq<string>, k: nat)
    requires k < |draw|
    ensures Drawn(draw, k + 1) == Drawn(draw, k) + {[draw[k]]}
  {
    forall p | p in Drawn(draw, k + 1)
      ensures p in Drawn(draw, k) + {[draw[k]]}
    {
      var i: nat :| i < k + 1 && [draw[i]] == p;
      assert i == k || p in Drawn(draw, k);
    }
  }

  method SecondPass(m: Machine, entries: seq<Entry>, draw: seq<string>, c: OwnedDirs)
    returns (ok: bool, c': OwnedDirs, staged: seq<Staged>)
    requires m.Valid() && Recorded(m, c) && m.FileNames() == {} && m.files == {} && !c.unproven
    requires |draw| == |entries|
    requires forall e <- entries :: e.path != [] && forall n <- draw :: [n] != e.path
    requires m.dirty <= Parents(c.entries)
    requires m.quiet ==> Accounted(m, AllScope(entries), {})
    modifies m
    ensures m.unclosed == old(m.unclosed)
    ensures m.Valid() && Recorded(m, c') && Held(m, staged)
    ensures ok ==> !c'.unproven && Stocked(m, staged, Files(entries)) && m.dirty <= Parents(c'.entries) + {[]}
    ensures m.quiet && ok ==> Accounted(m, AllScope(entries), Drawn(draw, |entries|))
    ensures m.quiet && m.faultless && Extractable(m.base, m.baseNodes, entries) && FreshNames(m.base, entries, draw) ==> ok
  {
    ok, c', staged := true, c, [];
    assert entries[..0] == [] && Drawn(draw, 0) == {};
    hide Machine.Valid, Recorded, Stages, Machine.FileNames, Parents, Scope, Passable, Paths, AllScope, Waiting, Drawn, Accounted,
         Extractable, FreshNames, Machine.DirPath, Machine.Free, Staging;
    for i := 0 to |entries|
      invariant m.unclosed == old(m.unclosed)
      invariant m.Valid() && Recorded(m, c') && Held(m, staged) && !c'.unproven
      invariant Stocked(m, staged, Files(entries[..i])) && m.dirty <= Parents(c'.entries) + {[]}
      invariant m.quiet ==> Accounted(m, AllScope(entries), Drawn(draw, i))
    {
      ok := m.Step();
      if !ok {
        return;
      }
      var e, stage := entries[i], [draw[i]];
      FilesStep(entries, i);
      DrawnStep(draw, i);
      if e.dir {
        AccountedMore(m, AllScope(entries), Drawn(draw, i), stage);
        continue;
      }
      if m.quiet && Extractable(m.base, m.baseNodes, entries) && FreshNames(m.base, entries, draw) {
        NextFits(m, entries, draw, i);
      }
      ghost var added, dirs := m.added, m.dirs;
      AccountedFacts(m, AllScope(entries), Drawn(draw, i));
      ok, c', staged := StageNext(m, e, stage, c', staged, Files(entries[..i]));
      if !ok {
        return;
      }
      if m.quiet {
        ScopeIn(entries, i);
        AccountedStep(m, added, dirs, AllScope(entries), Drawn(draw, i), stage, Scope(e.path, e.dir));
      }
    }
    assert entries[..|entries|] == entries;
    ok := true;
  }

  lemma FilesStep(entries: seq<Entry>, i: nat)
    requires i < |entries|
    ensures Files(entries[..i + 1]) == Files(entries[..i]) + if entries[i].dir then [] else [entries[i]]
  {
    assert entries[..i + 1][..i] == entries[..i];
  }

  lemma AccountedMore(m: Machine, scope: set<Path>, stages: set<Path>, stage: Path)
    ensures Accounted(m, scope, stages) ==> Accounted(m, scope, stages + {stage})
  {
  }

  lemma AccountedFacts(m: Machine, scope: set<Path>, stages: set<Path>)
    requires m.quiet ==> Accounted(m, scope, stages)
    ensures m.quiet ==> forall p <- m.added :: (p in scope && m.added[p] in m.dirs) || p in stages
    ensures m.quiet ==> forall p <- scope ::
               m.DirPathOf(m.added, m.dirs, p)
  {
  }

  // ----- publication -----

  datatype State = NotPublished | PublishedDurable | DurabilityUncertain | Indeterminate

  ghost function TargetParents(staged: seq<Staged>): set<Path>
  {
    set i | 0 <= i < |staged| :: Parent(staged[i].target)
  }

  ghost predicate SameTargets(a: seq<Staged>, b: seq<Staged>)
  {
    |a| == |b| && forall i :: 0 <= i < |a| ==> a[i].target == b[i].target && a[i].file == b[i].file
  }

  // The loop over the staged entries, with its rollback.
  method PublishAll(m: Machine, staged: seq<Staged>, ghost datas: seq<seq<int>>)
    returns (ok: bool, after: seq<Staged>, state: State)
    requires m.Valid() && Progress(m, staged, datas, 0) && TargetsDistinct(staged)
    modifies m
    ensures m.unclosed == old(m.unclosed)
    ensures m.Valid() && m.dirs == old(m.dirs) && SameTargets(staged, after) && InfosIn(m, after)
    ensures m.quiet ==> m.DirMap() == old(m.DirMap())
    ensures ok ==> Progress(m, after, datas, |staged|) && m.dirty <= old(m.dirty) + TargetParents(staged) + {[]}
    ensures !ok ==> state in {NotPublished, Indeterminate}
    ensures !ok && state == NotPublished ==> m.FileNames() <= Stages(after, 0)
    ensures !ok && state == Indeterminate ==> Doubtful(m)
    ensures m.quiet && m.faultless && !ok ==> state == NotPublished
    ensures m.quiet && m.faultless && old(OpenFrom(m, staged, 0)) ==> ok
  {
    after, state := staged, NotPublished;
    hide Machine.Valid, Placed, Waiting, Stages, Machine.FileNames, OpenFrom, Progress, KeptIn, Distinct, Machine.DirMap;
    var k := 0;
    while k < |staged|
      invariant m.unclosed == old(m.unclosed)
      invariant k <= |staged| && m.Valid() && m.dirs == old(m.dirs) && SameTargets(staged, after) && TargetsDistinct(after)
      invariant m.quiet ==> m.DirMap() == old(m.DirMap())
      invariant Progress(m, after, datas, k) && m.dirty <= old(m.dirty) + TargetParents(staged) + {[]}
      invariant m.quiet && old(OpenFrom(m, staged, 0)) ==> OpenFrom(m, after, k)
    {
      InfosOfProgress(m, after, datas, k);
      if m.quiet {
        ProgressIsFirm(m, after, datas, k);
      }
      ok := m.Step();
      if !ok {
        var complete := Rollback(m, after, k, true);
        state := if complete then NotPublished else Indeterminate;
        return;
      }
      var o;
      assert Parent(after[k].target) in TargetParents(staged) by {
        assert staged[k].target == after[k].target;
      }
      ghost var before := after;
      after, o := PublishNext(m, after, datas, k);
      if o.Failed? {
        var complete := Rollback(m, after, k, o.proven);
        ok, state := false, if complete then NotPublished else Indeterminate;
        return;
      }
      k := k + 1;
    }
    InfosOfProgress(m, after, datas, k);
    ok := true;
  }

  lemma InfosOfProgress(m: Machine, staged: seq<Staged>, datas: seq<seq<int>>, k: nat)
    requires Progress(m, staged, datas, k)
    ensures StillHeld(m, staged, k, true) && InfosIn(m, staged) && forall i :: 0 <= i < |staged| ==> staged[i].info.Some?
  {
    forall i | 0 <= i < |staged|
      ensures staged[i].info.Some? && staged[i].info.value in m.files
    {
      assert if i < k then Placed(m, staged[i], datas[i]) else Waiting(m, staged[i], datas[i]);
    }
  }

  // syncModifiedUnpackDirectories: the root, the parents of the targets, the parents of the
  // directories made. The order does not matter here.
  method SyncModified(m: Machine, staged: seq<Staged>, c: OwnedDirs) returns (durable: bool, clean: bool)
    requires m.Valid() && m.dirty <= Parents(c.entries) + {[]} + TargetParents(staged)
    modifies m
    ensures clean <==> m.unclosed == old(m.unclosed)
    ensures m.Valid() && m.files == old(m.files) && m.dirs == old(m.dirs) && m.added == old(m.added) && m.unsynced == old(m.unsynced)
    ensures m.FilesStay() && (durable ==> m.dirty == {})
    ensures m.quiet && m.faultless && old(forall p <- Parents(c.entries) + TargetParents(staged) :: m.DirPath(p)) ==> durable && clean
  {
    hide Machine.Valid;
    var modified: set<Path> := {[]} + (set s | s in staged :: Parent(s.target)) + (set d | d in c.entries :: Parent(d.path));
    assert modified == Parents(c.entries) + {[]} + TargetParents(staged);
    durable, clean := SyncEach(m, modified);
  }

  // The loop over the directories, in any order; the root is one at the start.
  method SyncEach(m: Machine, directories: set<Path>) returns (durable: bool, clean: bool)
    requires m.Valid() && m.dirty <= directories
    modifies m
    ensures clean <==> m.unclosed == old(m.unclosed)
    ensures m.Valid() && m.files == old(m.files) && m.dirs == old(m.dirs) && m.added == old(m.added) && m.unsynced == old(m.unsynced)
    ensures m.FilesStay() && (durable ==> m.dirty == {})
    ensures m.quiet && m.faultless && old(forall p <- directories :: m.DirPath(p)) ==> durable && clean
  {
    m.FilesExist();
    var modified := directories;
    ghost var ready := m.quiet && m.faultless && forall p <- directories :: m.DirPath(p);
    durable, clean := true, true;
    hide Machine.Valid;
    while modified != {}
      invariant m.Valid() && m.files == old(m.files) && m.dirs == old(m.dirs) && m.added == old(m.added)
      invariant m.unsynced == old(m.unsynced) && m.FilesStay()
      invariant (durable ==> m.dirty <= modified) && old(m.unclosed) <= m.unclosed && (clean <==> m.unclosed == old(m.unclosed))
      invariant ready ==> durable && clean && forall p <- modified :: m.DirPath(p)
      decreases |modified|
    {
      var p :| p in modified;
      if m.quiet {
        m.QuietPath(p);
      }
      var synced := m.SyncDirectory(p);
      var closed := m.Close();
      durable, clean := durable && synced, clean && closed;
      modified := modified - {p};
    }
  }

  // ----- the whole extraction -----

  // Every file of the archive stands complete and synced under its name, and this run left no other file.
  ghost predicate Extracted(m: Machine, entries: seq<Entry>)
    reads m
  {
    && (forall e <- entries :: !e.dir ==>
          && e.path in m.names && m.names[e.path] in m.files && m.names[e.path] !in m.unsynced
          && m.names[e.path] in m.nodes && m.nodes[m.names[e.path]] == File(e.data))
    && (forall p <- m.names :: m.names[p] in m.files ==> exists e <- entries :: !e.dir && e.path == p)
  }

  // Nothing that was there before has changed.
  ghost predicate OthersUntouched(m: Machine)
    reads m
  {
    forall p <- m.base ::
      && p in m.names && m.names[p] == m.base[p] && m.base[p] in m.baseNodes
      && m.base[p] in m.nodes && m.nodes[m.base[p]] == m.baseNodes[m.base[p]]
  }

  lemma QuietUntouched(m: Machine)
    requires m.Valid() && m.quiet
    ensures OthersUntouched(m)
  {
    forall p | p in m.base
      ensures p in m.names && m.names[p] == m.base[p] && m.base[p] in m.baseNodes
      ensures m.base[p] in m.nodes && m.nodes[m.base[p]] == m.baseNodes[m.base[p]]
    {
      assert m.NameOk(p) && m.NodeOk(m.base[p]);
    }
  }

  lemma NoFileLeft(m: Machine)
    requires m.Valid() && m.FileNames() == {}
    ensures forall p <- m.names :: m.names[p] !in m.files
    ensures m.quiet && m.DirNames() == {} ==> m.names == m.base
  {
    forall p | p in m.names
      ensures m.names[p] !in m.files
    {
      assert m.NameOk(p);
      assert p !in m.FileNames();
    }
    if m.quiet && m.DirNames() == {} {
      forall p
        ensures p in m.names <==> p in m.base
        ensures p in m.base ==> m.names[p] == m.base[p]
      {
        assert m.NameOk(p);
        assert p !in m.FileNames() && p !in m.DirNames();
      }
    }
  }

  function Datas(fs: seq<Entry>): seq<seq<int>>
  {
    seq(|fs|, i requires 0 <= i < |fs| => fs[i].data)
  }

  lemma {:induction false} FilesAre(entries: seq<Entry>)
    ensures forall e :: e in Files(entries) <==> e in entries && !e.dir
    ensures DistinctTargets(entries) ==> forall i, j :: 0 <= i < j < |Files(entries)| ==> Files(entries)[i].path != Files(entries)[j].path
  {
    if entries != [] {
      var init, last := entries[..|entries| - 1], entries[|entries| - 1];
      FilesAre(init);
      assert entries == init + [last];
      if DistinctTargets(entries) && !last.dir {
        forall i | 0 <= i < |Files(init)|
          ensures Files(init)[i].path != last.path
        {
          assert Files(init)[i] in Files(init);
        }
      }
    }
  }

  // What the second pass leaves is what publishing starts from.
  lemma ReadyToPublish(m: Machine, staged: seq<Staged>, entries: seq<Entry>)
    requires Stocked(m, staged, Files(entries)) && Held(m, staged) && DistinctTargets(entries)
    ensures Progress(m, staged, Datas(Files(entries)), 0) && TargetsDistinct(staged)
  {
    FilesAre(entries);
    hide Waiting, Stages, Machine.FileNames, Files;
  }

  lemma TargetsOpen(m: Machine, staged: seq<Staged>, entries: seq<Entry>, draw: seq<string>)
    requires |draw| == |entries|
    requires Stocked(m, staged, Files(entries)) && Accounted(m, AllScope(entries), Drawn(draw, |entries|))
    requires Extractable(m.base, m.baseNodes, entries)
    requires forall e <- entries, n <- draw :: [n] != e.path
    ensures OpenFrom(m, staged, 0)
  {
    FilesAre(entries);
    forall i | 0 <= i < |staged|
      ensures m.Free(staged[i].target) && m.DirPath(Parent(staged[i].target))
    {
      var e := Files(entries)[i];
      assert e in Files(entries);
      var j :| 0 <= j < |entries| && entries[j] == e;
      ScopeIn(entries, j);
      ParentInScope(e.path);
    }
  }

  // All the directories that are synced exist.
  lemma ModifiedAreDirs(m: Machine, staged: seq<Staged>, c: OwnedDirs, entries: seq<Entry>)
    requires |staged| == |Files(entries)| && forall i :: 0 <= i < |staged| ==> staged[i].target == Files(entries)[i].path
    requires forall p <- AllScope(entries) :: m.DirPath(p)
    ensures forall p <- TargetParents(staged) :: m.DirPath(p)
  {
    FilesAre(entries);
    forall i | 0 <= i < |staged|
      ensures m.DirPath(Parent(staged[i].target))
    {
      var e := Files(entries)[i];
      assert e in Files(entries);
      var j :| 0 <= j < |entries| && entries[j] == e;
      ScopeIn(entries, j);
      ParentInScope(e.path);
    }
  }

  // Published: every entry is held whole and synced; on a quiet machine the directories are there too.
  ghost predicate Delivered(m: Machine, staged: seq<Staged>, entries: seq<Entry>)
    reads m
  {
    && Progress(m, staged, Datas(Files(entries)), |staged|)
    && (forall i :: 0 <= i < |staged| ==> staged[i].target == Files(entries)[i].path)
    && (m.quiet ==> forall p <- AllScope(entries) :: m.DirPath(p))
  }

  // The file linked to this path under this identity holds these bytes, synced.
  ghost predicate StoredAt(v: Inodes, e: Entry, id: nat)
  {
    (e.path, id) in v.linked && id in v.files && id !in v.unsynced && id in v.nodes && v.nodes[id] == File(e.data)
  }

  // Every file of the archive was given its path, each under an identity of its own.
  ghost predicate StoredAs(v: Inodes, fs: seq<Entry>, ids: seq<nat>)
  {
    && |ids| == |fs| && (forall i :: 0 <= i < |fs| ==> StoredAt(v, fs[i], ids[i]))
    && (forall i, j :: 0 <= i < j < |ids| ==> ids[i] != ids[j])
  }

  ghost predicate AllStored(v: Inodes, entries: seq<Entry>)
  {
    exists ids :: StoredAs(v, Files(entries), ids)
  }

  lemma StillStored(before: Inodes, after: Inodes, entries: seq<Entry>)
    requires AllStored(before, entries) && before.linked <= after.linked && before.files <= after.files && after.unsynced <= before.unsynced
    requires forall i <- before.files :: i in before.nodes && i in after.nodes && after.nodes[i] == before.nodes[i]
    ensures AllStored(after, entries)
  {
    var ids :| StoredAs(before, Files(entries), ids);
    forall i | 0 <= i < |ids|
      ensures StoredAt(after, Files(entries)[i], ids[i])
    {
      assert StoredAt(before, Files(entries)[i], ids[i]);
    }
    assert StoredAs(after, Files(entries), ids);
  }

  lemma DeliveredIsStored(m: Machine, staged: seq<Staged>, entries: seq<Entry>)
    requires Delivered(m, staged, entries)
    ensures AllStored(m.View(), entries)
  {
    var fs := Files(entries);
    FilesAre(entries);
    var datas := Datas(fs);
    forall i | 0 <= i < |fs|
      ensures staged[i].info.Some? && StoredAt(m.View(), fs[i], staged[i].info.value)
    {
      assert Placed(m, staged[i], datas[i]);
    }
    var ids := seq(|fs|, i requires 0 <= i < |fs| && staged[i].info.Some? => staged[i].info.value);
    assert StoredAs(m.View(), fs, ids);
  }

  lemma DeliveredEntry(m: Machine, staged: seq<Staged>, entries: seq<Entry>, e: Entry) returns (i: nat)
    requires Delivered(m, staged, entries) && e in entries && !e.dir
    ensures i < |staged| && staged[i].target == e.path && Placed(m, staged[i], e.data)
  {
    FilesAre(entries);
    assert e in Files(entries);
    i :| 0 <= i < |Files(entries)| && Files(entries)[i] == e;
    assert Placed(m, staged[i], Datas(Files(entries))[i]);
  }

  lemma DeliveredIsExtracted(m: Machine, staged: seq<Staged>, entries: seq<Entry>)
    requires m.Valid() && m.quiet && Delivered(m, staged, entries)
    ensures Extracted(m, entries)
  {
    forall e | e in entries && !e.dir
      ensures e.path in m.names && m.names[e.path] in m.files && m.names[e.path] !in m.unsynced
      ensures m.names[e.path] in m.nodes && m.nodes[m.names[e.path]] == File(e.data)
    {
      var i := DeliveredEntry(m, staged, entries, e);
      m.QuietName(e.path);
    }
    forall p | p in m.names && m.names[p] in m.files
      ensures exists e <- entries :: !e.dir && e.path == p
    {
      OnlyTargets(m, staged, entries, p);
    }
  }

  lemma OnlyTargets(m: Machine, staged: seq<Staged>, entries: seq<Entry>, p: Path)
    requires m.Valid() && Delivered(m, staged, entries) && p in m.names && m.names[p] in m.files
    ensures exists e <- entries :: !e.dir && e.path == p
  {
    m.FoundOwn(p);
    assert p in m.FileNames();
    var datas := Datas(Files(entries));
    forall i | 0 <= i < |staged|
      ensures staged[i].stage.None?
    {
      assert Placed(m, staged[i], datas[i]);
    }
    assert p in Targets(staged, 0, |staged|);
    var i :| 0 <= i < |staged| && staged[i].target == p;
    FilesAre(entries);
    assert Files(entries)[i] in Files(entries);
  }

  // Only an archive that fits can be published.
  lemma DeliveredFits(m: Machine, staged: seq<Staged>, entries: seq<Entry>)
    requires m.Valid() && m.quiet && Delivered(m, staged, entries) && DistinctTargets(entries)
    requires forall e <- entries :: e.path != []
    ensures Extractable(m.base, m.baseNodes, entries)
  {
    forall e | e in entries
      ensures Fits(m.base, m.baseNodes, e) && (!e.dir ==> e.path !in AllScope(entries))
    {
      var j :| 0 <= j < |entries| && entries[j] == e;
      ScopeIn(entries, j);
      if !e.dir {
        var i := DeliveredEntry(m, staged, entries, e);
        assert m.NameOk(e.path) && m.NodeOk(m.added[e.path]);
      }
      forall p | p in Scope(e.path, e.dir) && p in m.base
        ensures m.base[p] in m.baseNodes && m.baseNodes[m.base[p]] == Dir
      {
        assert m.NameOk(p) && m.DirPath(p) && p != [];
      }
    }
  }

  // Publishing every staged entry of the archive.
  method Deliver(m: Machine, staged: seq<Staged>, entries: seq<Entry>, c: OwnedDirs)
    returns (ok: bool, after: seq<Staged>, state: State)
    requires m.Valid() && Recorded(m, c) && Stocked(m, staged, Files(entries)) && Held(m, staged) && DistinctTargets(entries)
    requires m.dirty <= Parents(c.entries) + {[]}
    requires m.quiet ==> forall p <- AllScope(entries) :: m.DirPath(p)
    modifies m
    ensures m.unclosed == old(m.unclosed)
    ensures m.Valid() && Recorded(m, c) && InfosIn(m, after)
    ensures ok ==> m.dirty <= Parents(c.entries) + {[]} + TargetParents(after)
    ensures ok ==> forall i :: 0 <= i < |after| ==> after[i].stage.None? && !after[i].file
    ensures ok ==> Delivered(m, after, entries)
    ensures !ok ==> state in {NotPublished, Indeterminate}
    ensures !ok && state == NotPublished ==> m.FileNames() <= Stages(after, 0)
    ensures !ok && state == Indeterminate ==> Doubtful(m)
    ensures m.quiet && m.faultless && !ok ==> state == NotPublished
    ensures m.quiet && m.faultless && old(OpenFrom(m, staged, 0)) ==> ok
  {
    ReadyToPublish(m, staged, entries);
    ghost var datas, scope := Datas(Files(entries)), AllScope(entries);
    hide Machine.Valid, Waiting, Stages, Machine.FileNames, OpenFrom, Parents, Paths, Files, AllScope, Datas;
    ok, after, state := PublishAll(m, staged, datas);
    if m.quiet {
      RecordedKept(m, c, old(m.added), old(m.dirs));
    }
    if ok {
      forall i | 0 <= i < |after|
        ensures after[i].stage.None? && Parent(after[i].target) in TargetParents(after)
      {
        assert Placed(m, after[i], datas[i]);
      }
      assert TargetParents(staged) <= TargetParents(after);
    }
  }

  lemma RecordedKept(m: Machine, c: OwnedDirs, added: map<Path, nat>, dirs: set<nat>)
    requires m.dirs == dirs && m.DirMap() == (map p | p in added && added[p] in dirs :: added[p])
    requires RecordedIn(m, added, dirs, c)
    ensures RecordedIn(m, m.added, m.dirs, c)
    ensures forall p :: m.DirPathOf(added, dirs, p) ==> m.DirPath(p)
  {
    var before := map p | p in added && added[p] in dirs :: added[p];
    forall p | p in added && added[p] in dirs
      ensures p in m.added && m.added[p] == added[p]
    {
      assert p in before;
      assert p in m.DirMap() && m.DirMap()[p] == added[p];
    }
    forall p | p in m.added && m.added[p] in m.dirs
      ensures p in added && added[p] in dirs
    {
      assert p in m.DirMap();
      assert p in before;
    }
  }

  // Syncing what was modified keeps what was delivered.
  method SyncDelivered(m: Machine, staged: seq<Staged>, entries: seq<Entry>, c: OwnedDirs) returns (durable: bool, clean: bool)
    requires m.Valid() && Recorded(m, c) && InfosIn(m, staged) && m.dirty <= Parents(c.entries) + {[]} + TargetParents(staged)
    requires Delivered(m, staged, entries)
    modifies m
    ensures clean <==> m.unclosed == old(m.unclosed)
    ensures m.Valid() && Recorded(m, c) && InfosIn(m, staged) && m.files == old(m.files) && (durable ==> m.dirty == {})
    ensures Delivered(m, staged, entries)
    ensures m.quiet && m.faultless && old(forall p <- Parents(c.entries) + TargetParents(staged) :: m.DirPath(p)) ==> durable && clean
  {
    ghost var datas := Datas(Files(entries));
    ghost var added, dirs := m.added, m.dirs;
    hide Machine.Valid, Stages, Parents, Paths, Files, AllScope, Datas, TargetParents, Targets;
    durable, clean := SyncModified(m, staged, c);
    forall i | 0 <= i < |staged|
      ensures Placed(m, staged[i], datas[i])
    {
      assert old(Placed(m, staged[i], datas[i]));
    }
  }

  // Nothing has been done yet.
  ghost predicate Untouched(m: Machine)
    reads m
  {
    && m.Valid() && m.added == map[] && m.files == {} && m.dirs == {} && m.dirty == {} && m.unsynced == {}
    && m.doubts == {} && !m.moved && m.unclosed == 0
  }

  // On a faultless quiet machine, the entries that fit are published.
  ghost predicate Smooth(m: Machine, entries: seq<Entry>, draw: seq<string>)
    requires |draw| == |entries|
  {
    m.quiet && m.faultless && Extractable(m.base, m.baseNodes, entries) && FreshNames(m.base, entries, draw)
  }

  // Both passes: everything staged, nothing published.
  method Stage(m: Machine, entries: seq<Entry>, draw: seq<string>) returns (ok: bool, c: OwnedDirs, staged: seq<Staged>)
    requires Untouched(m) && |draw| == |entries| && forall e <- entries :: e.path != [] && forall n <- draw :: [n] != e.path
    modifies m
    ensures m.unclosed == old(m.unclosed)
    ensures m.Valid() && Recorded(m, c) && Held(m, staged)
    ensures ok ==> Stocked(m, staged, Files(entries)) && DistinctTargets(entries) && m.dirty <= Parents(c.entries) + {[]}
    ensures ok && m.quiet ==> Accounted(m, AllScope(entries), Drawn(draw, |entries|))
    ensures Smooth(m, entries, draw) ==> ok
  {
    staged := [];
    hide Machine.Valid, Stages, Parents, Paths, Files, AllScope, Drawn, Machine.DirPath, RecordedIn, Extractable, FreshNames,
         Accounted, Scope, Waiting;
    ok, c := FirstPass(m, entries);
    if !ok {
      return;
    }
    ok := m.Step();
    if !ok {
      return;
    }
    if m.quiet {
      FirstAccounted(m, AllScope(entries));
    }
    ok, c, staged := SecondPass(m, entries, draw, c);
  }

  lemma FirstAccounted(m: Machine, scope: set<Path>)
    requires Extends(m, map[], {}, scope) && forall p <- scope :: m.DirPath(p)
    ensures Accounted(m, scope, {})
  {
  }

  // Then the archive is closed and the stages looked at once more.
  method StageAndCheck(m: Machine, entries: seq<Entry>, draw: seq<string>) returns (ok: bool, c: OwnedDirs, staged: seq<Staged>)
    requires Untouched(m) && |draw| == |entries| && forall e <- entries :: e.path != [] && forall n <- draw :: [n] != e.path
    modifies m
    ensures m.unclosed == old(m.unclosed)
    ensures m.Valid() && Recorded(m, c) && Held(m, staged)
    ensures ok ==> Stocked(m, staged, Files(entries)) && DistinctTargets(entries) && m.dirty <= Parents(c.entries) + {[]}
    ensures ok && m.quiet ==> forall p <- AllScope(entries) :: m.DirPath(p)
    ensures Smooth(m, entries, draw) ==> ok && OpenFrom(m, staged, 0)
  {
    hide Machine.Valid, Waiting, Stages, Parents, Paths, Files, AllScope, Drawn, RecordedIn, Extractable, FreshNames, OpenFrom,
         TargetParents, Machine.FileNames, Stocked, Machine.DirPath, Untouched, DistinctTargets;
    ok, c, staged := Stage(m, entries, draw);
    if !ok {
      return;
    }
    if Smooth(m, entries, draw) {
      TargetsOpen(m, staged, entries, draw);
    }
    ok := m.Step();
  }

  // Publication, then the directory syncs.
  method PublishAndSync(m: Machine, entries: seq<Entry>, c: OwnedDirs, staged: seq<Staged>)
    returns (state: State, after: seq<Staged>, complete: bool)
    requires m.Valid() && Recorded(m, c) && Stocked(m, staged, Files(entries)) && Held(m, staged) && DistinctTargets(entries)
    requires m.dirty <= Parents(c.entries) + {[]} && forall e <- entries :: e.path != []
    requires m.quiet ==> forall p <- AllScope(entries) :: m.DirPath(p)
    modifies m
    ensures complete ==> m.unclosed == old(m.unclosed)
    ensures state in {PublishedDurable, DurabilityUncertain} ==> (complete <==> m.unclosed == old(m.unclosed))
    ensures m.Valid() && Recorded(m, c) && InfosIn(m, after)
    ensures state == NotPublished ==> m.FileNames() <= Stages(after, 0)
    ensures state == Indeterminate ==> !complete && Doubtful(m)
    ensures m.quiet && m.faultless ==> complete && state in {NotPublished, PublishedDurable}
    ensures state in {PublishedDurable, DurabilityUncertain} ==>
              && (forall i :: 0 <= i < |after| ==> after[i].stage.None? && !after[i].file)
              && AllStored(m.View(), entries) && (m.quiet ==> Extracted(m, entries) && Extractable(m.base, m.baseNodes, entries))
    ensures state == PublishedDurable ==> m.dirty == {}
    ensures m.quiet && m.faultless && old(OpenFrom(m, staged, 0)) ==> state == PublishedDurable && complete
  {
    hide Machine.Valid, Waiting, Stages, Parents, Paths, Files, AllScope, RecordedIn, Extractable, OpenFrom,
         TargetParents, Machine.FileNames, Extracted, Stocked, Machine.DirPath, DistinctTargets, Delivered, AllStored;
    var ok;
    ok, after, state := Deliver(m, staged, entries, c);
    if !ok {
      complete := state == NotPublished;
      return;
    }
    if m.quiet {
      ParentsAreDirs(m, after, entries, c);
    }
    var durable, clean := SyncDelivered(m, after, entries, c);
    state, complete := if durable then PublishedDurable else DurabilityUncertain, clean;
    DeliveredIsStored(m, after, entries);
    if m.quiet {
      DeliveredIsExtracted(m, after, entries);
      DeliveredFits(m, after, entries);
    }
  }

  // Everything before the deferred cleanup.
  method Engine(m: Machine, entries: seq<Entry>, draw: seq<string>)
    returns (state: State, c: OwnedDirs, staged: seq<Staged>, complete: bool)
    requires Untouched(m) && |draw| == |entries| && forall e <- entries :: e.path != [] && forall n <- draw :: [n] != e.path
    modifies m
    ensures complete ==> m.unclosed == 0
    ensures state in {PublishedDurable, DurabilityUncertain} ==> (complete <==> m.unclosed == 0)
    ensures m.Valid() && Recorded(m, c) && InfosIn(m, staged)
    ensures state == NotPublished ==> m.FileNames() <= Stages(staged, 0)
    ensures state == Indeterminate ==> !complete && Doubtful(m)
    ensures m.quiet && m.faultless ==> complete && state in {NotPublished, PublishedDurable}
    ensures state in {PublishedDurable, DurabilityUncertain} ==>
              && (forall i :: 0 <= i < |staged| ==> staged[i].stage.None? && !staged[i].file)
              && AllStored(m.View(), entries) && (m.quiet ==> Extracted(m, entries) && Extractable(m.base, m.baseNodes, entries))
    ensures state == PublishedDurable ==> m.dirty == {}
    ensures Smooth(m, entries, draw) ==> state == PublishedDurable && complete
  {
    assert m.unclosed == 0;
    hide Machine.Valid, Waiting, Stages, Parents, Paths, Files, AllScope, RecordedIn, Extractable, OpenFrom, FreshNames,
         TargetParents, Machine.FileNames, Extracted, Stocked, Machine.DirPath, DistinctTargets, Untouched, AllStored;
    var ok;
    ok, c, staged := StageAndCheck(m, entries, draw);
    state, complete := NotPublished, true;
    if ok {
      state, staged, complete := PublishAndSync(m, entries, c, staged);
    }
  }

  lemma ParentsAreDirs(m: Machine, staged: seq<Staged>, entries: seq<Entry>, c: OwnedDirs)
    requires m.quiet && Delivered(m, staged, entries) && RecordedIn(m, m.added, m.dirs, c)
    ensures forall p <- Parents(c.entries) + TargetParents(staged) :: m.DirPath(p)
  {
    ModifiedAreDirs(m, staged, c, entries);
    forall p | p in Parents(c.entries)
      ensures m.DirPath(p)
    {
      var d :| d in c.entries && Parent(d.path) == p;
    }
  }

  // UnpackWithResult. complete is the absence of the cleanup error. Whatever step fails:
  // NotPublished leaves no file of this run; what was there before is never replaced; and
  // PublishedDurable means every entry is there, whole, with every changed directory synced.
  method Unpack(m: Machine, entries: seq<Entry>, draw: seq<string>) returns (state: State, complete: bool)
    requires Untouched(m) && |draw| == |entries| && forall e <- entries :: e.path != [] && forall n <- draw :: [n] != e.path
    modifies m
    ensures complete ==> m.unclosed == 0
    ensures state in {PublishedDurable, DurabilityUncertain} ==> (complete <==> m.unclosed == 0)
    ensures state == NotPublished ==> forall p <- m.names :: m.names[p] !in m.files
    ensures m.quiet ==> OthersUntouched(m)
    ensures m.quiet && state in {PublishedDurable, DurabilityUncertain} ==> Extracted(m, entries)
    ensures state in {PublishedDurable, DurabilityUncertain} ==> AllStored(m.View(), entries)
    ensures state == PublishedDurable ==> m.dirty == {}
    ensures m.quiet && state == NotPublished && complete ==> m.names == m.base
    ensures state == Indeterminate ==> Doubtful(m) || m.moved
    ensures state in {PublishedDurable, DurabilityUncertain} ==> m.rooted
    ensures m.quiet && m.faultless ==> complete && state in {NotPublished, PublishedDurable} && (state == NotPublished ==> m.names == m.base)
    ensures m.quiet && m.faultless && FreshNames(m.base, entries, draw) ==>
              (state == PublishedDurable <==> Extractable(m.base, m.baseNodes, entries))
  {
    var c, staged;
    state, c, staged, complete := Engine(m, entries, draw);
    hide Machine.Valid, Stages, Parents, Paths, Files, AllScope, RecordedIn, Extractable, FreshNames, Extracted,
         Machine.FileNames, Machine.DirNames, OthersUntouched, AllStored;
    ghost var added, dirs, stored := m.added, m.dirs, m.View();
    var proven, clean := CleanupStages(m, staged);
    if state in {PublishedDurable, DurabilityUncertain} {
      StillStored(stored, m.View(), entries);
    }
    if m.quiet {
      RecordedKept(m, c, added, dirs);
    }
    complete := complete && clean;
    if !proven && state == NotPublished {
      state := Indeterminate;
    }
    if state in {NotPublished, Indeterminate} {
      var removed := CleanupDirs(m, c);
      complete := complete && removed;
    }
    var closed := m.Close();
    complete := complete && closed;
    if state in {PublishedDurable, DurabilityUncertain} {
      var here := m.VerifyRoot();
      state := if here then state else Indeterminate;
    }
    if state == NotPublished {
      NoFileLeft(m);
    }
    if m.quiet {
      QuietUntouched(m);
    }
  }
}
