/** The memory fill of Argon2 (processBlocks of argon2.go) as a matrix of blocks: what running the
    lanes one after another computes, and that every interleaving of the lanes' memory accesses
    inside a slice computes the same. */
module Argon2Fill {
  import opened Argon2Index
  import Blamka

  type Block = Blamka.Block

  datatype Mode = Argon2d | Argon2i | Argon2id

  // compress stands for the block compression G without the final xor.
  datatype Config = Config(g: Geometry, time: nat, mode: Mode, compress: (Block, Block) -> Block)

  // Rows are lanes. B[i][j] of RFC 9106 is m[i][j].
  type Matrix = seq<seq<Block>>

  ghost predicate Shaped(g: Geometry, m: Matrix)
  {
    |m| == g.threads && forall i :: 0 <= i < |m| ==> |m[i]| == g.Columns()
  }

  ghost predicate InMatrix(g: Geometry, p: Place)
  {
    0 <= p.row < g.threads && 0 <= p.column < g.Columns()
  }

  function Get(m: Matrix, p: Place): Block
    requires 0 <= p.row < |m| && 0 <= p.column < |m[p.row]|
  {
    m[p.row][p.column]
  }

  function Put(m: Matrix, p: Place, b: Block): Matrix
    requires 0 <= p.row < |m| && 0 <= p.column < |m[p.row]|
  {
    var row: seq<Block> := m[p.row][p.column := b];
    m[p.row := row]
  }

  // ----- one block -----

  predicate DataIndependent(cfg: Config, pass: nat, slice: nat)
  {
    cfg.mode == Argon2i || (cfg.mode == Argon2id && pass == 0 && slice < SYNC_POINTS / 2)
  }

  function ModeNumber(mode: Mode): nat
  {
    match mode case Argon2d => 0 case Argon2i => 1 case Argon2id => 2
  }

  // The generator's input block: position, parameters and the counter of 128-word batches.
  function AddressInput(cfg: Config, pass: nat, slice: nat, lane: nat, counter: nat): Block
  {
    Blamka.ZeroBlock()[0 := pass % U64][1 := lane % U64][2 := slice % U64][3 := cfg.g.Memory() % U64]
        [4 := cfg.time % U64][5 := ModeNumber(cfg.mode)][6 := counter % U64]
  }

  function Addresses(cfg: Config, pass: nat, slice: nat, lane: nat, counter: nat): Block
  {
    cfg.compress(cfg.compress(AddressInput(cfg, pass, slice, lane, counter), Blamka.ZeroBlock()), Blamka.ZeroBlock())
  }

  function Own(g: Geometry, c: Cursor): Place
  {
    Place(c.lane, c.Column(g))
  }

  function Previous(g: Geometry, c: Cursor): Place
    requires g.segments >= 1
  {
    Place(c.lane, c.PreviousColumn(g))
  }

  lemma OwnPlaces(g: Geometry, c: Cursor)
    requires g.Valid() && c.Valid(g)
    ensures InMatrix(g, Own(g, c)) && InMatrix(g, Previous(g, c))
    ensures InSegment(g, c.slice, Own(g, c))
  {
    SmallColumns(c.slice, g.segments);
  }

  // The segment of every lane that is being filled.
  predicate InSegment(g: Geometry, slice: nat, p: Place)
  {
    slice * g.segments <= p.column < slice * g.segments + g.segments
  }

  // The pseudo-random word that selects the reference block.
  function RandomWord(cfg: Config, c: Cursor, previous: Block): uint64
  {
    if DataIndependent(cfg, c.pass, c.slice) then
      Addresses(cfg, c.pass, c.slice, c.lane, c.index / Blamka.BLOCK_LENGTH + 1)[c.index % Blamka.BLOCK_LENGTH]
    else previous[0]
  }

  function Mix(cfg: Config, own: Block, previous: Block, reference: Block): Block
  {
    Blamka.BlockXor(own, cfg.compress(previous, reference))
  }

  function FillBlock(cfg: Config, m: Matrix, c: Cursor): (r: Matrix)
    requires cfg.g.Valid() && c.Valid(cfg.g) && Shaped(cfg.g, m)
    ensures Shaped(cfg.g, r)
  {
    OwnPlaces(cfg.g, c);
    var previous := Get(m, Previous(cfg.g, c));
    var random := RandomWord(cfg, c, previous);
    IndexAlphaIsSafe(random, cfg.g, c);
    var reference := Get(m, ReferencePlace(random, cfg.g, c));
    Put(m, Own(cfg.g, c), Mix(cfg, Get(m, Own(cfg.g, c)), previous, reference))
  }

  // ----- lanes one after another -----

  function StartIndex(pass: nat, slice: nat): nat
  {
    if pass == 0 && slice == 0 then 2 else 0
  }

  // The first k blocks of one lane's segment.
  function RunLane(cfg: Config, m: Matrix, pass: nat, slice: nat, lane: nat, k: nat): (r: Matrix)
    requires cfg.g.Valid() && Shaped(cfg.g, m)
    requires pass < U32 && slice < SYNC_POINTS && lane < cfg.g.threads && k <= cfg.g.segments
    ensures Shaped(cfg.g, r)
  {
    if k <= StartIndex(pass, slice) then m
    else FillBlock(cfg, RunLane(cfg, m, pass, slice, lane, k - 1), Cursor(pass, slice, lane, k - 1))
  }

  function RunLanes(cfg: Config, m: Matrix, pass: nat, slice: nat, lanes: nat): (r: Matrix)
    requires cfg.g.Valid() && Shaped(cfg.g, m)
    requires pass < U32 && slice < SYNC_POINTS && lanes <= cfg.g.threads
    ensures Shaped(cfg.g, r)
  {
    if lanes == 0 then m
    else RunLane(cfg, RunLanes(cfg, m, pass, slice, lanes - 1), pass, slice, lanes - 1, cfg.g.segments)
  }

  // The first k slices, four to a pass.
  function RunSlices(cfg: Config, m: Matrix, k: nat): (r: Matrix)
    requires cfg.g.Valid() && Shaped(cfg.g, m) && k <= SYNC_POINTS * U32
    ensures Shaped(cfg.g, r)
  {
    if k == 0 then m
    else RunLanes(cfg, RunSlices(cfg, m, k - 1), (k - 1) / SYNC_POINTS, (k - 1) % SYNC_POINTS, cfg.g.threads)
  }

  // ----- lanes interleaved -----

  // What a goroutine has read for its current block.
  datatype Registers =
    | Empty
    | GotRandom(random: uint64)
    | GotPrevious(random: uint64, previous: Block)
    | GotReference(previous: Block, reference: Block)

  datatype Goroutine = Goroutine(index: nat, registers: Registers)

  datatype SliceState = SliceState(m: Matrix, lanes: seq<Goroutine>)

  ghost predicate WellFormed(cfg: Config, pass: nat, slice: nat, s: SliceState)
  {
    && cfg.g.Valid() && pass < U32 && slice < SYNC_POINTS
    && Shaped(cfg.g, s.m) && |s.lanes| == cfg.g.threads
    && forall l :: 0 <= l < |s.lanes| ==> StartIndex(pass, slice) <= s.lanes[l].index <= cfg.g.segments
  }

  predicate Done(cfg: Config, s: SliceState, l: nat)
    requires l < |s.lanes|
  {
    s.lanes[l].index >= cfg.g.segments
  }

  // One memory access of lane l: the random word, the previous block, the reference block, or
  // the read-modify-write of its own block. A finished lane does nothing.
  function StepLane(cfg: Config, pass: nat, slice: nat, s: SliceState, l: nat): (s': SliceState)
    requires WellFormed(cfg, pass, slice, s) && l < cfg.g.threads
    ensures WellFormed(cfg, pass, slice, s')
  {
    if Done(cfg, s, l) then s
    else
      var c := Cursor(pass, slice, l, s.lanes[l].index);
      OwnPlaces(cfg.g, c);
      match s.lanes[l].registers
      case Empty =>
        var random := RandomWord(cfg, c, Get(s.m, Previous(cfg.g, c)));
        s.(lanes := s.lanes[l := Goroutine(c.index, GotRandom(random))])
      case GotRandom(random) =>
        var previous := Get(s.m, Previous(cfg.g, c));
        s.(lanes := s.lanes[l := Goroutine(c.index, GotPrevious(random, previous))])
      case GotPrevious(random, previous) =>
        IndexAlphaIsSafe(random, cfg.g, c);
        var reference := Get(s.m, ReferencePlace(random, cfg.g, c));
        s.(lanes := s.lanes[l := Goroutine(c.index, GotReference(previous, reference))])
      case GotReference(previous, reference) =>
        var own := Own(cfg.g, c);
        SliceState(Put(s.m, own, Mix(cfg, Get(s.m, own), previous, reference)),
                   s.lanes[l := Goroutine(c.index + 1, Empty)])
  }

  // The lanes take the memory accesses the schedule names, in that order.
  function Interleave(cfg: Config, pass: nat, slice: nat, s: SliceState, schedule: seq<nat>): (s': SliceState)
    requires WellFormed(cfg, pass, slice, s)
    requires forall i :: 0 <= i < |schedule| ==> schedule[i] < cfg.g.threads
    ensures WellFormed(cfg, pass, slice, s')
  {
    if schedule == [] then s
    else StepLane(cfg, pass, slice, Interleave(cfg, pass, slice, s, schedule[..|schedule| - 1]), schedule[|schedule| - 1])
  }

  function Launch(cfg: Config, pass: nat, slice: nat, m: Matrix): SliceState
  {
    SliceState(m, seq(cfg.g.threads, _ => Goroutine(StartIndex(pass, slice), Empty)))
  }

  // ----- what a lane computes does not depend on the others -----

  // Lane l alone changes only its own segment.
  lemma {:induction false} RunLaneFrame(cfg: Config, m: Matrix, pass: nat, slice: nat, l: nat, k: nat, p: Place)
    requires cfg.g.Valid() && Shaped(cfg.g, m) && InMatrix(cfg.g, p)
    requires pass < U32 && slice < SYNC_POINTS && l < cfg.g.threads && k <= cfg.g.segments
    requires p.row != l || !InSegment(cfg.g, slice, p)
    ensures Get(RunLane(cfg, m, pass, slice, l, k), p) == Get(m, p)
  {
    hide RandomWord, ReferencePlace, Mix, IndexAlpha;
    if k > StartIndex(pass, slice) {
      var c := Cursor(pass, slice, l, k - 1);
      RunLaneFrame(cfg, m, pass, slice, l, k - 1, p);
      OwnPlaces(cfg.g, c);
      assert p != Own(cfg.g, c);
    }
  }

  // A place lane l may read while the slice is being filled.
  ghost predicate Readable(g: Geometry, slice: nat, l: nat, p: Place)
  {
    InMatrix(g, p) && (p.row == l || !InSegment(g, slice, p))
  }

  // No block step reads a place another lane may write in the same slice.
  lemma AccessesAreReadable(cfg: Config, c: Cursor, random: uint64)
    requires cfg.g.Valid() && c.Valid(cfg.g)
    ensures Readable(cfg.g, c.slice, c.lane, Own(cfg.g, c))
    ensures Readable(cfg.g, c.slice, c.lane, Previous(cfg.g, c))
    ensures Readable(cfg.g, c.slice, c.lane, ReferencePlace(random, cfg.g, c))
  {
    OwnPlaces(cfg.g, c);
    IndexAlphaIsSafe(random, cfg.g, c);
    Successor(c.slice, cfg.g.segments);
  }

  // One block step reads only places its lane may read, so agreeing there is enough.
  lemma FillBlockCongruence(cfg: Config, m0: Matrix, m1: Matrix, c: Cursor)
    requires cfg.g.Valid() && c.Valid(cfg.g) && Shaped(cfg.g, m0) && Shaped(cfg.g, m1)
    requires forall p :: Readable(cfg.g, c.slice, c.lane, p) ==> Get(m0, p) == Get(m1, p)
    ensures forall p :: Readable(cfg.g, c.slice, c.lane, p) ==>
              Get(FillBlock(cfg, m0, c), p) == Get(FillBlock(cfg, m1, c), p)
  {
    AccessesAreReadable(cfg, c, RandomWord(cfg, c, Get(m0, Previous(cfg.g, c))));
  }

  lemma {:induction false} RunLaneCongruence(cfg: Config, m0: Matrix, m1: Matrix, pass: nat, slice: nat, l: nat, k: nat)
    requires cfg.g.Valid() && Shaped(cfg.g, m0) && Shaped(cfg.g, m1)
    requires pass < U32 && slice < SYNC_POINTS && l < cfg.g.threads && k <= cfg.g.segments
    requires forall p :: Readable(cfg.g, slice, l, p) ==> Get(m0, p) == Get(m1, p)
    ensures forall p :: Readable(cfg.g, slice, l, p) ==>
              Get(RunLane(cfg, m0, pass, slice, l, k), p) == Get(RunLane(cfg, m1, pass, slice, l, k), p)
  {
    if k > StartIndex(pass, slice) {
      RunLaneCongruence(cfg, m0, m1, pass, slice, l, k - 1);
      FillBlockCongruence(cfg, RunLane(cfg, m0, pass, slice, l, k - 1), RunLane(cfg, m1, pass, slice, l, k - 1),
                          Cursor(pass, slice, l, k - 1));
    }
  }

  // ----- the invariant of every interleaving -----

  // Lane l's own view of memory when it stands at index k.
  function View(cfg: Config, pass: nat, slice: nat, m0: Matrix, l: nat, k: nat): Matrix
    requires cfg.g.Valid() && Shaped(cfg.g, m0)
    requires pass < U32 && slice < SYNC_POINTS && l < cfg.g.threads && k <= cfg.g.segments
  {
    RunLane(cfg, m0, pass, slice, l, k)
  }

  // A place of the active segments holds what its lane alone would have computed so far;
  // every other place is as it was.
  ghost predicate PlaceInvariant(cfg: Config, pass: nat, slice: nat, m0: Matrix, s: SliceState, p: Place)
    requires WellFormed(cfg, pass, slice, s) && Shaped(cfg.g, m0) && InMatrix(cfg.g, p)
  {
    Get(s.m, p) == if InSegment(cfg.g, slice, p)
                   then Get(View(cfg, pass, slice, m0, p.row, s.lanes[p.row].index), p)
                   else Get(m0, p)
  }

  ghost predicate MemoryInvariant(cfg: Config, pass: nat, slice: nat, m0: Matrix, s: SliceState)
    requires WellFormed(cfg, pass, slice, s) && Shaped(cfg.g, m0)
  {
    forall p :: InMatrix(cfg.g, p) ==> PlaceInvariant(cfg, pass, slice, m0, s, p)
  }

  // What a lane has loaded is what it would have loaded alone.
  ghost predicate RegistersInvariant(cfg: Config, pass: nat, slice: nat, m0: Matrix, l: nat, r: Goroutine)
    requires cfg.g.Valid() && Shaped(cfg.g, m0) && pass < U32 && slice < SYNC_POINTS && l < cfg.g.threads
    requires StartIndex(pass, slice) <= r.index <= cfg.g.segments
  {
    r.registers != Empty ==>
      && r.index < cfg.g.segments
      && var c := Cursor(pass, slice, l, r.index);
         OwnPlaces(cfg.g, c);
         var view := View(cfg, pass, slice, m0, l, r.index);
         var previous := Get(view, Previous(cfg.g, c));
         var random := RandomWord(cfg, c, previous);
         IndexAlphaIsSafe(random, cfg.g, c);
         match r.registers
         case Empty => true
         case GotRandom(x) => x == random
         case GotPrevious(x, p) => x == random && p == previous
         case GotReference(p, q) => p == previous && q == Get(view, ReferencePlace(random, cfg.g, c))
  }

  ghost predicate Invariant(cfg: Config, pass: nat, slice: nat, m0: Matrix, s: SliceState)
  {
    && WellFormed(cfg, pass, slice, s) && Shaped(cfg.g, m0)
    && MemoryInvariant(cfg, pass, slice, m0, s)
    && forall l :: 0 <= l < cfg.g.threads ==> RegistersInvariant(cfg, pass, slice, m0, l, s.lanes[l])
  }

  // A lane reads the same blocks in any interleaving as alone.
  lemma LaneReadsItsView(cfg: Config, pass: nat, slice: nat, m0: Matrix, s: SliceState, l: nat, p: Place)
    requires Invariant(cfg, pass, slice, m0, s) && l < cfg.g.threads && Readable(cfg.g, slice, l, p)
    ensures Get(s.m, p) == Get(View(cfg, pass, slice, m0, l, s.lanes[l].index), p)
  {
    assert PlaceInvariant(cfg, pass, slice, m0, s, p);
    if !InSegment(cfg.g, slice, p) {
      RunLaneFrame(cfg, m0, pass, slice, l, s.lanes[l].index, p);
    }
  }

  // The write of lane l stores what its view has at the next index.
  lemma WriteMatchesView(cfg: Config, pass: nat, slice: nat, m0: Matrix, s: SliceState, l: nat)
    requires Invariant(cfg, pass, slice, m0, s) && l < cfg.g.threads && !Done(cfg, s, l)
    requires s.lanes[l].registers.GotReference?
    ensures var c := Cursor(pass, slice, l, s.lanes[l].index);
            && InMatrix(cfg.g, Own(cfg.g, c))
            && var b := Mix(cfg, Get(s.m, Own(cfg.g, c)), s.lanes[l].registers.previous, s.lanes[l].registers.reference);
            && StepLane(cfg, pass, slice, s, l)
               == SliceState(Put(s.m, Own(cfg.g, c), b), s.lanes[l := Goroutine(c.index + 1, Empty)])
            && View(cfg, pass, slice, m0, l, c.index + 1)
               == Put(View(cfg, pass, slice, m0, l, c.index), Own(cfg.g, c), b)
  {
    var c := Cursor(pass, slice, l, s.lanes[l].index);
    AccessesAreReadable(cfg, c, 0);
    LaneReadsItsView(cfg, pass, slice, m0, s, l, Own(cfg.g, c));
    assert RegistersInvariant(cfg, pass, slice, m0, l, s.lanes[l]);
  }

  lemma PutGet(g: Geometry, m: Matrix, at: Place, b: Block, p: Place)
    requires Shaped(g, m) && InMatrix(g, at) && InMatrix(g, p)
    ensures Shaped(g, Put(m, at, b))
    ensures Get(Put(m, at, b), p) == if p == at then b else Get(m, p)
  {
  }

  lemma WriteKeepsPlace(cfg: Config, pass: nat, slice: nat, m0: Matrix, s: SliceState, l: nat, p: Place)
    requires Invariant(cfg, pass, slice, m0, s) && l < cfg.g.threads && !Done(cfg, s, l)
    requires s.lanes[l].registers.GotReference? && InMatrix(cfg.g, p)
    ensures PlaceInvariant(cfg, pass, slice, m0, StepLane(cfg, pass, slice, s, l), p)
  {
    var c := Cursor(pass, slice, l, s.lanes[l].index);
    WriteMatchesView(cfg, pass, slice, m0, s, l);
    var own, view := Own(cfg.g, c), View(cfg, pass, slice, m0, l, c.index);
    var b := Mix(cfg, Get(s.m, own), s.lanes[l].registers.previous, s.lanes[l].registers.reference);
    OwnPlaces(cfg.g, c);
    PutGet(cfg.g, s.m, own, b, p);
    PutGet(cfg.g, view, own, b, p);
    assert PlaceInvariant(cfg, pass, slice, m0, s, p);
  }

  lemma StepKeepsMemory(cfg: Config, pass: nat, slice: nat, m0: Matrix, s: SliceState, l: nat)
    requires Invariant(cfg, pass, slice, m0, s) && l < cfg.g.threads && !Done(cfg, s, l)
    ensures MemoryInvariant(cfg, pass, slice, m0, StepLane(cfg, pass, slice, s, l))
  {
    forall p | InMatrix(cfg.g, p)
      ensures PlaceInvariant(cfg, pass, slice, m0, StepLane(cfg, pass, slice, s, l), p)
    {
      if s.lanes[l].registers.GotReference? {
        WriteKeepsPlace(cfg, pass, slice, m0, s, l, p);
      } else {
        assert PlaceInvariant(cfg, pass, slice, m0, s, p);
      }
    }
  }

  lemma StepKeepsRegisters(cfg: Config, pass: nat, slice: nat, m0: Matrix, s: SliceState, l: nat)
    requires Invariant(cfg, pass, slice, m0, s) && l < cfg.g.threads && !Done(cfg, s, l)
    ensures RegistersInvariant(cfg, pass, slice, m0, l, StepLane(cfg, pass, slice, s, l).lanes[l])
  {
    hide FillBlock, RunLane, IndexAlpha, ReferencePlace, Mix, RandomWord;
    var c := Cursor(pass, slice, l, s.lanes[l].index);
    var view := View(cfg, pass, slice, m0, l, c.index);
    var random := RandomWord(cfg, c, Get(view, Previous(cfg.g, c)));
    AccessesAreReadable(cfg, c, random);
    LaneReadsItsView(cfg, pass, slice, m0, s, l, Previous(cfg.g, c));
    LaneReadsItsView(cfg, pass, slice, m0, s, l, ReferencePlace(random, cfg.g, c));
  }

  lemma StepKeepsInvariant(cfg: Config, pass: nat, slice: nat, m0: Matrix, s: SliceState, l: nat)
    requires Invariant(cfg, pass, slice, m0, s) && l < cfg.g.threads
    ensures Invariant(cfg, pass, slice, m0, StepLane(cfg, pass, slice, s, l))
  {
    if !Done(cfg, s, l) {
      StepKeepsMemory(cfg, pass, slice, m0, s, l);
      StepKeepsRegisters(cfg, pass, slice, m0, s, l);
      var s' := StepLane(cfg, pass, slice, s, l);
      forall i | 0 <= i < cfg.g.threads
        ensures RegistersInvariant(cfg, pass, slice, m0, i, s'.lanes[i])
      {
        assert i != l ==> s'.lanes[i] == s.lanes[i];
      }
    }
  }

  lemma {:induction false} InterleaveKeepsInvariant(cfg: Config, pass: nat, slice: nat, m0: Matrix, s: SliceState, schedule: seq<nat>)
    requires Invariant(cfg, pass, slice, m0, s)
    requires forall i :: 0 <= i < |schedule| ==> schedule[i] < cfg.g.threads
    ensures Invariant(cfg, pass, slice, m0, Interleave(cfg, pass, slice, s, schedule))
  {
    if schedule != [] {
      var n := |schedule| - 1;
      InterleaveKeepsInvariant(cfg, pass, slice, m0, s, schedule[..n]);
      StepKeepsInvariant(cfg, pass, slice, m0, Interleave(cfg, pass, slice, s, schedule[..n]), schedule[n]);
    }
  }

  // ----- every lane finishes -----

  function Accesses(r: Registers): nat
  {
    match r case Empty => 0 case GotRandom(_) => 1 case GotPrevious(_, _) => 2 case GotReference(_, _) => 3
  }

  // Memory accesses lane l still has to make.
  function Remaining(cfg: Config, r: Goroutine): int
  {
    if r.index >= cfg.g.segments then 0 else 4 * (cfg.g.segments - r.index) - Accesses(r.registers)
  }

  function Turns(schedule: seq<nat>, l: nat): nat
  {
    if schedule == [] then 0
    else Turns(schedule[..|schedule| - 1], l) + if schedule[|schedule| - 1] == l then 1 else 0
  }

  // A lane is done exactly when the schedule has given it its turns: no lane waits for another.
  lemma {:induction false} LaneNeverWaits(cfg: Config, pass: nat, slice: nat, s: SliceState, schedule: seq<nat>, l: nat)
    requires WellFormed(cfg, pass, slice, s) && l < cfg.g.threads
    requires forall i :: 0 <= i < |schedule| ==> schedule[i] < cfg.g.threads
    ensures var left := Remaining(cfg, s.lanes[l]) - Turns(schedule, l);
            Remaining(cfg, Interleave(cfg, pass, slice, s, schedule).lanes[l]) == if left < 0 then 0 else left
    ensures Done(cfg, Interleave(cfg, pass, slice, s, schedule), l)
       <==> Turns(schedule, l) >= Remaining(cfg, s.lanes[l])
  {
    hide FillBlock, IndexAlpha, ReferencePlace, Mix, RandomWord, Shaped;
    if schedule != [] {
      LaneNeverWaits(cfg, pass, slice, s, schedule[..|schedule| - 1], l);
    }
  }

  // ----- lane determinism -----

  lemma {:induction false} RunLanesAt(cfg: Config, m0: Matrix, pass: nat, slice: nat, lanes: nat, p: Place)
    requires cfg.g.Valid() && Shaped(cfg.g, m0) && InMatrix(cfg.g, p)
    requires pass < U32 && slice < SYNC_POINTS && lanes <= cfg.g.threads
    ensures Get(RunLanes(cfg, m0, pass, slice, lanes), p)
         == if p.row < lanes && InSegment(cfg.g, slice, p)
            then Get(View(cfg, pass, slice, m0, p.row, cfg.g.segments), p)
            else Get(m0, p)
  {
    hide RunLane, FillBlock, Geometry.Valid, InSegment;
    if lanes > 0 {
      var l, n := lanes - 1, cfg.g.segments;
      var before := RunLanes(cfg, m0, pass, slice, l);
      RunLanesAt(cfg, m0, pass, slice, l, p);
      if p.row == l && InSegment(cfg.g, slice, p) {
        forall r | Readable(cfg.g, slice, l, r)
          ensures Get(before, r) == Get(m0, r)
        {
          RunLanesAt(cfg, m0, pass, slice, l, r);
        }
        RunLaneCongruence(cfg, before, m0, pass, slice, l, n);
      } else {
        RunLaneFrame(cfg, before, pass, slice, l, n, p);
      }
    }
  }

  lemma SameMatrix(g: Geometry, a: Matrix, b: Matrix)
    requires Shaped(g, a) && Shaped(g, b)
    requires forall p :: InMatrix(g, p) ==> Get(a, p) == Get(b, p)
    ensures a == b
  {
    forall i | 0 <= i < |a|
      ensures a[i] == b[i]
    {
      forall j | 0 <= j < |a[i]|
        ensures a[i][j] == b[i][j]
      {
        assert Get(a, Place(i, j)) == Get(b, Place(i, j));
      }
    }
  }

  lemma LaunchInvariant(cfg: Config, pass: nat, slice: nat, m0: Matrix)
    requires cfg.g.Valid() && Shaped(cfg.g, m0) && pass < U32 && slice < SYNC_POINTS
    ensures Invariant(cfg, pass, slice, m0, Launch(cfg, pass, slice, m0))
  {
    var s := Launch(cfg, pass, slice, m0);
    forall l: nat | l < cfg.g.threads
      ensures View(cfg, pass, slice, m0, l, s.lanes[l].index) == m0
    {
    }
  }

  // The invariant leaves no freedom once every lane is done.
  lemma DoneIsSequential(cfg: Config, pass: nat, slice: nat, m0: Matrix, s: SliceState)
    requires Invariant(cfg, pass, slice, m0, s)
    requires forall l :: 0 <= l < cfg.g.threads ==> Done(cfg, s, l)
    ensures s.m == RunLanes(cfg, m0, pass, slice, cfg.g.threads)
  {
    forall p | InMatrix(cfg.g, p)
      ensures Get(s.m, p) == Get(RunLanes(cfg, m0, pass, slice, cfg.g.threads), p)
    {
      assert PlaceInvariant(cfg, pass, slice, m0, s, p);
      assert Done(cfg, s, p.row);
      RunLanesAt(cfg, m0, pass, slice, cfg.g.threads, p);
    }
    SameMatrix(cfg.g, s.m, RunLanes(cfg, m0, pass, slice, cfg.g.threads));
  }

  // Every schedule that brings all lanes to the end of the slice leaves the memory that
  // running the lanes one after another leaves.
  lemma SliceIsDeterministic(cfg: Config, pass: nat, slice: nat, m0: Matrix, schedule: seq<nat>)
    requires cfg.g.Valid() && Shaped(cfg.g, m0) && pass < U32 && slice < SYNC_POINTS
    requires forall i :: 0 <= i < |schedule| ==> schedule[i] < cfg.g.threads
    requires WellFormed(cfg, pass, slice, Launch(cfg, pass, slice, m0))
    requires forall l :: 0 <= l < cfg.g.threads ==>
               Done(cfg, Interleave(cfg, pass, slice, Launch(cfg, pass, slice, m0), schedule), l)
    ensures Interleave(cfg, pass, slice, Launch(cfg, pass, slice, m0), schedule).m
         == RunLanes(cfg, m0, pass, slice, cfg.g.threads)
  {
    var s := Launch(cfg, pass, slice, m0);
    LaunchInvariant(cfg, pass, slice, m0);
    InterleaveKeepsInvariant(cfg, pass, slice, m0, s, schedule);
    DoneIsSequential(cfg, pass, slice, m0, Interleave(cfg, pass, slice, s, schedule));
  }

  // A run of the whole fill: one schedule per slice, each ended by the barrier.
  ghost predicate ParallelRun(cfg: Config, schedules: seq<seq<nat>>, states: seq<Matrix>)
  {
    && cfg.g.Valid()
    && |schedules| <= SYNC_POINTS * U32 && |states| == |schedules| + 1
    && (forall k :: 0 <= k < |states| ==> Shaped(cfg.g, states[k]))
    && forall k :: 0 <= k < |schedules| ==> ParallelSlice(cfg, k, schedules[k], states[k], states[k + 1])
  }

  ghost predicate ParallelSlice(cfg: Config, k: nat, schedule: seq<nat>, m: Matrix, m': Matrix)
    requires cfg.g.Valid() && k < SYNC_POINTS * U32 && Shaped(cfg.g, m)
  {
    var pass, slice := k / SYNC_POINTS, k % SYNC_POINTS;
    var start := Launch(cfg, pass, slice, m);
    && (forall i :: 0 <= i < |schedule| ==> schedule[i] < cfg.g.threads)
    && WellFormed(cfg, pass, slice, start)
    && var end := Interleave(cfg, pass, slice, start, schedule);
       (forall l :: 0 <= l < cfg.g.threads ==> Done(cfg, end, l)) && end.m == m'
  }

  lemma ParallelSliceIsRun(cfg: Config, k: nat, schedule: seq<nat>, m: Matrix, m': Matrix)
    requires cfg.g.Valid() && k < SYNC_POINTS * U32 && Shaped(cfg.g, m) && ParallelSlice(cfg, k, schedule, m, m')
    ensures m' == RunLanes(cfg, m, k / SYNC_POINTS, k % SYNC_POINTS, cfg.g.threads)
  {
    SliceIsDeterministic(cfg, k / SYNC_POINTS, k % SYNC_POINTS, m, schedule);
  }

  // Lane determinism over all passes and slices.
  lemma {:induction false} FillIsDeterministic(cfg: Config, schedules: seq<seq<nat>>, states: seq<Matrix>, k: nat)
    requires ParallelRun(cfg, schedules, states) && k <= |schedules|
    ensures states[k] == RunSlices(cfg, states[0], k)
  {
    if k > 0 {
      hide ParallelSlice, RunLanes;
      FillIsDeterministic(cfg, schedules, states, k - 1);
      assert ParallelSlice(cfg, k - 1, schedules[k - 1], states[k - 1], states[k]);
      ParallelSliceIsRun(cfg, k - 1, schedules[k - 1], states[k - 1], states[k]);
    }
  }
}
