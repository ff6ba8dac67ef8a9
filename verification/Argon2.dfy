/** Key derivation (deriveKey, initBlocks, processBlocks and extractKey of argon2.go) over a
    workspace of blocks, against section 3.2 of RFC 9106. */
module Argon2 {
  import opened Common
  import opened Argon2Index
  import opened Argon2Fill
  import Argon2Workspace
  import Blamka
  import VariableHash

  type Workspace = Argon2Workspace.Workspace
  type Bytes = VariableHash.Bytes

  function Standard(g: Geometry, time: nat, mode: Mode): (cfg: Config)
    ensures cfg.g == g && cfg.time == time && cfg.mode == mode
  {
    Config(g, time, mode, (x, y) => Blamka.Compress(x, y))
  }

  // Block B[i][j] of the matrix sits at offset i*lanes + j of the workspace.
  ghost predicate Represents(g: Geometry, flat: seq<Block>, m: Matrix)
  {
    && Shaped(g, m) && |flat| == g.Memory()
    && forall p :: InMatrix(g, p) ==> 0 <= p.Offset(g) < |flat| && flat[p.Offset(g)] == Get(m, p)
  }

  lemma OffsetInBounds(g: Geometry, p: Place)
    requires g.Valid() && InMatrix(g, p)
    ensures 0 <= p.Offset(g) < g.Memory()
    ensures 0 <= p.row * g.Columns()
  {
    LaneOffset(p.row, g.threads, g.Columns(), p.column);
  }

  lemma OffsetInjective(g: Geometry, p: Place, r: Place)
    requires g.Valid() && InMatrix(g, p) && InMatrix(g, r) && p.Offset(g) == r.Offset(g)
    ensures p == r
  {
    Blamka.DivModUnique(p.Offset(g), g.Columns(), p.row, p.column);
    Blamka.DivModUnique(r.Offset(g), g.Columns(), r.row, r.column);
  }

  lemma StoreRepresents(g: Geometry, flat: seq<Block>, m: Matrix, at: Place, b: Block)
    requires g.Valid() && Represents(g, flat, m) && InMatrix(g, at)
    ensures 0 <= at.Offset(g) < |flat|
    ensures Represents(g, flat[at.Offset(g) := b], Put(m, at, b))
  {
    OffsetInBounds(g, at);
    forall p | InMatrix(g, p)
      ensures 0 <= p.Offset(g) < |flat| && flat[at.Offset(g) := b][p.Offset(g)] == Get(Put(m, at, b), p)
    {
      OffsetInBounds(g, p);
      PutGet(g, m, at, b, p);
      if p.Offset(g) == at.Offset(g) {
        OffsetInjective(g, p, at);
      }
    }
    PutGet(g, m, at, b, at);
  }

  // ----- processSegment -----

  // The 32-bit offsets of a block and of its predecessor; offset - 1 may wrap below zero
  // before lanes is added back.
  function PreviousOffset(offset: uint32, lanes: uint32, slice: nat, index: nat): uint32
  {
    var prev := Sub32(offset, 1);
    if index == 0 && slice == 0 then Add32(prev, lanes) else prev
  }

  lemma Offsets(g: Geometry, c: Cursor)
    requires g.Valid() && c.Valid(g)
    ensures InMatrix(g, Own(g, c)) && InMatrix(g, Previous(g, c))
    ensures 0 <= Own(g, c).Offset(g) < g.Memory() && 0 <= Previous(g, c).Offset(g) < g.Memory()
    ensures 0 <= c.lane * g.Columns() && 0 <= c.slice * g.segments
    ensures Own(g, c).Offset(g) == c.lane * g.Columns() + c.slice * g.segments + c.index
    ensures g.Columns() < U32
    ensures PreviousOffset(Own(g, c).Offset(g), g.Columns(), c.slice, c.index) == Previous(g, c).Offset(g)
  {
    OwnPlaces(g, c);
    OffsetInBounds(g, Own(g, c));
    OffsetInBounds(g, Previous(g, c));
    SmallColumns(c.slice, g.segments);
    SegmentsFit(g);
    assert 0 <= g.Memory() < U32;
    if c.index == 0 && c.slice == 0 {
      assert Previous(g, c).Offset(g) == Own(g, c).Offset(g) + g.Columns() - 1;
    } else {
      assert Previous(g, c).Offset(g) == Own(g, c).Offset(g) - 1;
    }
    hide Geometry.Memory, Geometry.Valid, Geometry.Columns, Place.Offset;
    WrapAround(Own(g, c).Offset(g), g.Columns(), c.slice, c.index);
  }

  lemma WrapAround(offset: uint32, lanes: uint32, slice: nat, index: nat)
    requires lanes >= 1 && ((index == 0 && slice == 0) || offset >= 1)
    requires offset + lanes - 1 < U32 || index != 0 || slice != 0
    ensures PreviousOffset(offset, lanes, slice, index)
         == if index == 0 && slice == 0 then offset + lanes - 1 else offset - 1
  {
  }

  // One iteration of the loop: the block at c is mixed from its predecessor and its reference.
  method FillOne(ws: Workspace, ghost cfg: Config, ghost m: Matrix, c: Cursor, g: Geometry, random: uint64)
    requires cfg.g == g && g.Valid() && c.Valid(g) && cfg == Standard(g, cfg.time, cfg.mode)
    requires ws.Valid() && ws.memory == g.Memory() && Represents(g, ws.Flat(), m)
    requires InMatrix(g, Previous(g, c)) && random == RandomWord(cfg, c, Get(m, Previous(g, c)))
    modifies ws.chunks
    ensures Represents(g, ws.Flat(), FillBlock(cfg, m, c))
  {
    Offsets(g, c);
    IndexAlphaIsPlace(random, g, c);
    IndexAlphaIsSafe(random, g, c);
    var lanes: uint32 := SYNC_POINTS * g.segments;
    var offset: uint32 := c.lane * lanes + c.slice * g.segments + c.index;
    var prev := PreviousOffset(offset, lanes, c.slice, c.index);
    var newOffset := IndexAlpha(random, lanes, g.segments, g.threads, c.pass, c.slice, c.lane, c.index);
    ghost var own, previous, reference := Own(g, c), Previous(g, c), ReferencePlace(random, g, c);
    assert offset == own.Offset(g) && prev == previous.Offset(g) && newOffset == reference.Offset(g);
    hide Represents, IndexAlpha, ReferencePlace, SafeReference, PreviousOffset, Place.Offset, Geometry.Memory,
         Geometry.Valid, Blamka.Compress, Blamka.BlockXor;
    ReadBlock(g, ws.Flat(), m, own);
    ReadBlock(g, ws.Flat(), m, previous);
    ReadBlock(g, ws.Flat(), m, reference);
    var out := ws.At(offset);
    var in1 := ws.At(prev);
    var in2 := ws.At(newOffset);
    var mixed := Blamka.BlockXor(out, Blamka.Compress(in1, in2));
    StoreRepresents(g, ws.Flat(), m, own, mixed);
    ws.Store(offset, mixed);
  }

  lemma ReadBlock(g: Geometry, flat: seq<Block>, m: Matrix, p: Place)
    requires g.Valid() && Represents(g, flat, m) && InMatrix(g, p)
    ensures 0 <= p.Offset(g) < |flat| && Shaped(g, m) && flat[p.Offset(g)] == Get(m, p)
  {
  }

  // Batches generated when the loop stands at this index, before it looks at it.
  function Batches(index: nat): nat
  {
    (index + Blamka.BLOCK_LENGTH - 1) / Blamka.BLOCK_LENGTH
  }

  // What the address generator is to produce: the input block and the 128 addresses of each batch.
  datatype Batch = Batch(input: nat -> Block, addresses: nat -> Block)
  {
    ghost predicate CorrectAt(k: nat)
      requires k < U32
    {
      && input(k)[6] == k
      && input(k + 1) == input(k)[6 := k + 1]
      && addresses(k) == Blamka.Compress(Blamka.Compress(input(k), Blamka.ZeroBlock()), Blamka.ZeroBlock())
    }

    ghost predicate Valid()
    {
      forall k: nat :: k < U32 ==> CorrectAt(k)
    }
  }

  ghost function SegmentBatch(cfg: Config, n: nat, slice: nat, lane: nat): Batch
  {
    Batch(k => AddressInput(cfg, n, slice, lane, k), k => Addresses(cfg, n, slice, lane, k))
  }

  lemma SegmentBatchValid(g: Geometry, time: nat, mode: Mode, n: nat, slice: nat, lane: nat)
    ensures SegmentBatch(Standard(g, time, mode), n, slice, lane).Valid()
  {
    var cfg := Standard(g, time, mode);
    forall k: nat | k < U32
      ensures SegmentBatch(cfg, n, slice, lane).CorrectAt(k)
    {
      InputCounts(cfg, n, slice, lane, k);
    }
  }

  lemma InputCounts(cfg: Config, n: nat, slice: nat, lane: nat, k: nat)
    requires k < U32
    ensures AddressInput(cfg, n, slice, lane, k)[6] == k
    ensures AddressInput(cfg, n, slice, lane, k + 1) == AddressInput(cfg, n, slice, lane, k)[6 := k + 1]
  {
  }

  // The generator's arrays when the loop stands at this index.
  ghost predicate GeneratorAt(b: Batch, index: nat,
                              addresses: array<Blamka.Word>, input: array<Blamka.Word>, zero: array<Blamka.Word>)
    reads addresses, input, zero
  {
    && addresses.Length == input.Length == zero.Length == Blamka.BLOCK_LENGTH
    && addresses != input && addresses != zero && input != zero
    && b.Valid() && zero[..] == Blamka.ZeroBlock()
    && input[..] == b.input(Batches(index))
    && (index % Blamka.BLOCK_LENGTH != 0 ==> addresses[..] == b.addresses(Batches(index)))
  }

  // The two compressions of the address generator, the second in place.
  method Generate(addresses: array<Blamka.Word>, input: array<Blamka.Word>, zero: array<Blamka.Word>)
    requires addresses.Length == input.Length == zero.Length == Blamka.BLOCK_LENGTH
    requires addresses != input && addresses != zero
    modifies addresses
    ensures addresses[..] == Blamka.Compress(Blamka.Compress(input[..], zero[..]), zero[..])
  {
    hide Blamka.Compress;
    Blamka.ProcessBlockGeneric(addresses, input, zero, false);
    Blamka.ProcessBlockGeneric(addresses, addresses, zero, false);
  }

  lemma NextBatch(b: Batch, k: nat)
    requires b.Valid() && k < U32 - 1
    ensures b.input(k)[6] == k && b.input(k + 1) == b.input(k)[6 := k + 1]
    ensures b.addresses(k + 1) == Blamka.Compress(Blamka.Compress(b.input(k + 1), Blamka.ZeroBlock()), Blamka.ZeroBlock())
  {
    hide Blamka.Compress, Blamka.ZeroBlock;
    assert b.CorrectAt(k) && b.CorrectAt(k + 1);
  }

  // Counts the batch up and generates its 128 addresses.
  method NextAddresses(ghost b: Batch, ghost counter: nat,
                       addresses: array<Blamka.Word>, input: array<Blamka.Word>, zero: array<Blamka.Word>)
    requires addresses.Length == input.Length == zero.Length == Blamka.BLOCK_LENGTH
    requires addresses != input && addresses != zero && input != zero
    requires b.Valid() && zero[..] == Blamka.ZeroBlock()
    requires counter < U32 - 1 && input[..] == b.input(counter)
    modifies addresses, input
    ensures input[..] == b.input(counter + 1) && addresses[..] == b.addresses(counter + 1)
  {
    hide Blamka.Compress, Blamka.ZeroBlock, Batch.Valid;
    NextBatch(b, counter);
    ghost var before: Block := input[..];
    input[6] := input[6] + 1;
    assert input[..] == before[6 := counter + 1];
    Generate(addresses, input, zero);
  }

  // The data-independent word for this index.
  method IndependentWord(ghost b: Batch, index: uint32,
                         addresses: array<Blamka.Word>, input: array<Blamka.Word>, zero: array<Blamka.Word>)
    returns (random: uint64)
    requires GeneratorAt(b, index, addresses, input, zero) && index < U32 - 1
    modifies addresses, input
    ensures GeneratorAt(b, index + 1, addresses, input, zero)
    ensures random == b.addresses(index / Blamka.BLOCK_LENGTH + 1)[index % Blamka.BLOCK_LENGTH]
  {
    if index % Blamka.BLOCK_LENGTH == 0 {
      NextAddresses(b, Batches(index), addresses, input, zero);
    }
    random := addresses[index % Blamka.BLOCK_LENGTH];
  }

  // The data-dependent word for this index.
  method DependentWord(ws: Workspace, g: Geometry, c: Cursor, ghost m: Matrix) returns (random: uint64)
    requires g.Valid() && c.Valid(g) && ws.Valid() && ws.memory == g.Memory() && Represents(g, ws.Flat(), m)
    requires InMatrix(g, Previous(g, c))
    ensures random == Get(m, Previous(g, c))[0]
  {
    Offsets(g, c);
    var lanes: uint32 := SYNC_POINTS * g.segments;
    var previous := ws.At(PreviousOffset(c.lane * lanes + c.slice * g.segments + c.index, lanes, c.slice, c.index));
    random := previous[0];
  }

  // The pseudo-random word of the block at c.
  method SegmentWord(ws: Workspace, g: Geometry, ghost cfg: Config, c: Cursor, ghost m: Matrix, independent: bool,
                     addresses: array<Blamka.Word>, input: array<Blamka.Word>, zero: array<Blamka.Word>)
    returns (random: uint64)
    requires cfg.g == g && g.Valid() && c.Valid(g) && ws.Valid() && ws.memory == g.Memory() && c.index < U32 - 1
    requires Represents(g, ws.Flat(), m) && InMatrix(g, Previous(g, c))
    requires independent <==> DataIndependent(cfg, c.pass, c.slice)
    requires independent ==> GeneratorAt(SegmentBatch(cfg, c.pass, c.slice, c.lane), c.index, addresses, input, zero)
    modifies addresses, input
    ensures independent ==> GeneratorAt(SegmentBatch(cfg, c.pass, c.slice, c.lane), c.index + 1, addresses, input, zero)
    ensures random == RandomWord(cfg, c, Get(m, Previous(g, c)))
  {
    if independent {
      random := IndependentWord(SegmentBatch(cfg, c.pass, c.slice, c.lane), c.index, addresses, input, zero);
    } else {
      random := DependentWord(ws, g, c, m);
    }
  }

  method FillInput(g: Geometry, time: uint32, mode: Mode, n: uint32, slice: uint32, lane: uint32, input: array<Blamka.Word>)
    requires g.Valid() && input.Length == Blamka.BLOCK_LENGTH && input[..] == Blamka.ZeroBlock()
    modifies input
    ensures input[..] == AddressInput(Standard(g, time, mode), n, slice, lane, 0)
  {
    input[0], input[1], input[2] := n, lane, slice;
    input[3], input[4], input[5] := g.Memory(), time, ModeNumber(mode);
  }

  // In the very first segment, whose first two blocks exist, the first batch is taken before
  // the loop.
  method FirstBatch(ghost b: Batch, n: uint32, slice: uint32, mode: Mode, independent: bool,
                    addresses: array<Blamka.Word>, input: array<Blamka.Word>, zero: array<Blamka.Word>)
    returns (index: uint32)
    requires independent ==> GeneratorAt(b, 0, addresses, input, zero)
    requires n == 0 && slice == 0 && (mode == Argon2i || mode == Argon2id) ==> independent
    modifies addresses, input
    ensures index == StartIndex(n, slice)
    ensures independent && (n == 0 && slice == 0 ==> mode == Argon2i || mode == Argon2id) ==>
              GeneratorAt(b, index, addresses, input, zero)
  {
    index := 0;
    if n == 0 && slice == 0 {
      index := 2;
      if mode == Argon2i || mode == Argon2id {
        NextAddresses(b, 0, addresses, input, zero);
      }
    }
  }

  lemma RepresentsShaped(g: Geometry, flat: seq<Block>, m: Matrix)
    requires Represents(g, flat, m)
    ensures Shaped(g, m)
  {
  }

  lemma RunLaneStart(cfg: Config, m: Matrix, n: nat, slice: nat, lane: nat)
    requires cfg.g.Valid() && Shaped(cfg.g, m)
    requires n < U32 && slice < SYNC_POINTS && lane < cfg.g.threads
    ensures RunLane(cfg, m, n, slice, lane, StartIndex(n, slice)) == m
  {
  }

  lemma RunLaneStep(cfg: Config, m: Matrix, n: nat, slice: nat, lane: nat, index: nat)
    requires cfg.g.Valid() && Shaped(cfg.g, m)
    requires n < U32 && slice < SYNC_POINTS && lane < cfg.g.threads
    requires StartIndex(n, slice) <= index < cfg.g.segments
    ensures RunLane(cfg, m, n, slice, lane, index + 1)
         == FillBlock(cfg, RunLane(cfg, m, n, slice, lane, index), Cursor(n, slice, lane, index))
  {
  }

  method ProcessSegment(ws: Workspace, g: Geometry, time: uint32, mode: Mode,
                        n: uint32, slice: uint32, lane: uint32, ghost m: Matrix)
    requires g.Valid() && slice < SYNC_POINTS && lane < g.threads
    requires ws.Valid() && ws.memory == g.Memory() && Represents(g, ws.Flat(), m)
    modifies ws.chunks
    ensures Represents(g, ws.Flat(), RunLane(Standard(g, time, mode), m, n, slice, lane, g.segments))
  {
    ghost var cfg := Standard(g, time, mode);
    SegmentsFit(g);
    SegmentBatchValid(g, time, mode, n, slice, lane);
    hide RunLane, Represents, SegmentBatch, Batch.Valid, AddressInput;
    var addresses := new Blamka.Word[Blamka.BLOCK_LENGTH](_ => 0);
    var input := new Blamka.Word[Blamka.BLOCK_LENGTH](_ => 0);
    var zero := new Blamka.Word[Blamka.BLOCK_LENGTH](_ => 0);
    var independent := mode == Argon2i || (mode == Argon2id && n == 0 && slice < SYNC_POINTS / 2);
    if independent {
      FillInput(g, time, mode, n, slice, lane, input);
    }
    var index := FirstBatch(SegmentBatch(cfg, n, slice, lane), n, slice, mode, independent, addresses, input, zero);
    FillFrom(ws, cfg, m, n, slice, lane, index, g, independent, addresses, input, zero);
  }

  method FillFrom(ws: Workspace, ghost cfg: Config, ghost m: Matrix, n: uint32, slice: uint32, lane: uint32,
                  start: uint32, g: Geometry, independent: bool,
                  addresses: array<Blamka.Word>, input: array<Blamka.Word>, zero: array<Blamka.Word>)
    requires g.Valid() && slice < SYNC_POINTS && lane < g.threads && start == StartIndex(n, slice)
    requires cfg.g == g && cfg == Standard(g, cfg.time, cfg.mode)
    requires ws.Valid() && ws.memory == g.Memory() && Represents(g, ws.Flat(), m)
    requires independent <==> DataIndependent(cfg, n, slice)
    requires independent ==> GeneratorAt(SegmentBatch(cfg, n, slice, lane), start, addresses, input, zero)
    modifies ws.chunks, addresses, input
    ensures Represents(g, ws.Flat(), RunLane(cfg, m, n, slice, lane, g.segments))
  {
    hide RunLane, FillBlock, Represents, GeneratorAt, SegmentBatch, Standard, DataIndependent, Batches, Shaped;
    RepresentsShaped(g, ws.Flat(), m);
    RunLaneStart(cfg, m, n, slice, lane);
    var index := start;
    while index < g.segments
      invariant start <= index <= g.segments
      invariant Represents(g, ws.Flat(), RunLane(cfg, m, n, slice, lane, index))
      invariant independent ==> GeneratorAt(SegmentBatch(cfg, n, slice, lane), index, addresses, input, zero)
    {
      RunLaneStep(cfg, m, n, slice, lane, index);
      ghost var current := RunLane(cfg, m, n, slice, lane, index);
      FillNext(ws, cfg, current, Cursor(n, slice, lane, index), g, independent, addresses, input, zero);
      index := index + 1;
    }
  }

  // The loop body of processSegment.
  method FillNext(ws: Workspace, ghost cfg: Config, ghost m: Matrix, c: Cursor, g: Geometry, independent: bool,
                  addresses: array<Blamka.Word>, input: array<Blamka.Word>, zero: array<Blamka.Word>)
    requires cfg.g == g && g.Valid() && c.Valid(g) && cfg == Standard(g, cfg.time, cfg.mode)
    requires ws.Valid() && ws.memory == g.Memory() && Represents(g, ws.Flat(), m)
    requires independent <==> DataIndependent(cfg, c.pass, c.slice)
    requires independent ==> GeneratorAt(SegmentBatch(cfg, c.pass, c.slice, c.lane), c.index, addresses, input, zero)
    modifies ws.chunks, addresses, input
    ensures independent ==> GeneratorAt(SegmentBatch(cfg, c.pass, c.slice, c.lane), c.index + 1, addresses, input, zero)
    ensures Represents(g, ws.Flat(), FillBlock(cfg, m, c))
  {
    OwnPlaces(g, c);
    SegmentsFit(g);
    hide FillBlock, Represents, GeneratorAt, SegmentBatch, RandomWord;
    var random := SegmentWord(ws, g, cfg, c, m, independent, addresses, input, zero);
    FillOne(ws, cfg, m, c, g, random);
  }

  lemma SegmentsFit(g: Geometry)
    requires g.Valid()
    ensures g.segments < U32 / 4 && g.Columns() < U32 && g.threads < U32
  {
    MultiplyMonotone(1, g.threads, g.Columns());
    MultiplyMonotone(1, g.Columns(), g.threads);
    Commute(g.threads, g.Columns());
  }

  // ----- processBlocks, lanes in order -----

  // Every lane of one slice.
  method ProcessSlice(ws: Workspace, g: Geometry, time: uint32, mode: Mode, n: uint32, slice: uint32, ghost m: Matrix)
    requires g.Valid() && slice < SYNC_POINTS && Shaped(g, m)
    requires ws.Valid() && ws.memory == g.Memory() && Represents(g, ws.Flat(), m)
    modifies ws.chunks
    ensures Represents(g, ws.Flat(), RunLanes(Standard(g, time, mode), m, n, slice, g.threads))
  {
    ghost var cfg := Standard(g, time, mode);
    SegmentsFit(g);
    hide Represents, Standard, Shaped, RunLane, RunLanes, RunSlices, Geometry.Memory, Geometry.Valid;
    RunLanesStep(cfg, m, n, slice, 0);
    for lane := 0 to g.threads
      invariant Represents(g, ws.Flat(), RunLanes(cfg, m, n, slice, lane))
    {
      RunLanesStep(cfg, m, n, slice, lane);
      ProcessSegment(ws, g, time, mode, n, slice, lane, RunLanes(cfg, m, n, slice, lane));
    }
  }

  lemma RunLanesStep(cfg: Config, m: Matrix, n: nat, slice: nat, lane: nat)
    requires cfg.g.Valid() && Shaped(cfg.g, m) && n < U32 && slice < SYNC_POINTS && lane < cfg.g.threads
    ensures RunLanes(cfg, m, n, slice, 0) == m
    ensures RunLanes(cfg, m, n, slice, lane + 1)
         == RunLane(cfg, RunLanes(cfg, m, n, slice, lane), n, slice, lane, cfg.g.segments)
  {
  }

  // The k-th slice of the whole fill.
  method ProcessSliceNumber(ws: Workspace, g: Geometry, time: uint32, mode: Mode, n: uint32, slice: uint32, ghost m: Matrix)
    requires g.Valid() && Shaped(g, m) && slice < SYNC_POINTS
    requires ws.Valid() && ws.memory == g.Memory()
    requires Represents(g, ws.Flat(), RunSlices(Standard(g, time, mode), m, SYNC_POINTS * n + slice))
    modifies ws.chunks
    ensures Represents(g, ws.Flat(), RunSlices(Standard(g, time, mode), m, SYNC_POINTS * n + slice + 1))
  {
    hide Represents, Standard, Shaped, RunLanes, RunSlices, Geometry.Memory, Geometry.Valid;
    ghost var before := RunSlices(Standard(g, time, mode), m, SYNC_POINTS * n + slice);
    ProcessSlice(ws, g, time, mode, n, slice, before);
    RunSlicesStep(Standard(g, time, mode), m, n, slice);
  }

  // The four slices of one pass, each ended by the barrier.
  method ProcessPass(ws: Workspace, g: Geometry, time: uint32, mode: Mode, n: uint32, ghost m: Matrix)
    requires g.Valid() && Shaped(g, m)
    requires ws.Valid() && ws.memory == g.Memory()
    requires Represents(g, ws.Flat(), RunSlices(Standard(g, time, mode), m, SYNC_POINTS * n))
    modifies ws.chunks
    ensures Represents(g, ws.Flat(), RunSlices(Standard(g, time, mode), m, SYNC_POINTS * (n + 1)))
  {
    hide Represents, Standard, Shaped, RunLanes, RunSlices, Geometry.Memory, Geometry.Valid;
    for slice := 0 to SYNC_POINTS
      invariant Represents(g, ws.Flat(), RunSlices(Standard(g, time, mode), m, SYNC_POINTS * n + slice))
    {
      ProcessSliceNumber(ws, g, time, mode, n, slice, m);
    }
  }

  method ProcessBlocks(ws: Workspace, g: Geometry, time: uint32, mode: Mode, ghost m: Matrix)
    requires g.Valid() && Shaped(g, m)
    requires ws.Valid() && ws.memory == g.Memory() && Represents(g, ws.Flat(), m)
    modifies ws.chunks
    ensures Represents(g, ws.Flat(), RunSlices(Standard(g, time, mode), m, SYNC_POINTS * time))
  {
    hide Represents, Standard, Shaped, RunLanes, RunSlices, Geometry.Memory, Geometry.Valid;
    RunSlicesStart(Standard(g, time, mode), m);
    for n := 0 to time
      invariant Represents(g, ws.Flat(), RunSlices(Standard(g, time, mode), m, SYNC_POINTS * n))
    {
      ProcessPass(ws, g, time, mode, n, m);
    }
  }

  lemma RunSlicesStart(cfg: Config, m: Matrix)
    requires cfg.g.Valid() && Shaped(cfg.g, m)
    ensures RunSlices(cfg, m, 0) == m
  {
  }

  lemma RunSlicesStep(cfg: Config, m: Matrix, n: nat, slice: nat)
    requires cfg.g.Valid() && Shaped(cfg.g, m) && n < U32 && slice < SYNC_POINTS
    ensures RunSlices(cfg, m, SYNC_POINTS * n + slice + 1)
         == RunLanes(cfg, RunSlices(cfg, m, SYNC_POINTS * n + slice), n, slice, cfg.g.threads)
  {
    hide RunLanes, Shaped, Geometry.Valid;
    SliceNumber(n, slice);
  }

  lemma SliceNumber(n: nat, slice: nat)
    requires slice < SYNC_POINTS
    ensures (SYNC_POINTS * n + slice) / SYNC_POINTS == n && (SYNC_POINTS * n + slice) % SYNC_POINTS == slice
  {
  }

  // ----- initBlocks -----

  // Little-endian bytes of a word, lowest first.
  function LEBytes(w: nat, n: nat): Bytes
  {
    if n == 0 then [] else [w % 256] + LEBytes(w / 256, n - 1)
  }

  function LEValue(b: Bytes): nat
  {
    if b == [] then 0 else b[0] + 256 * LEValue(b[1..])
  }

  // Reading back what was written recovers every n-byte number.
  lemma {:induction false} LERoundTrip(w: nat, n: nat)
    requires w < Pow256(n)
    ensures |LEBytes(w, n)| == n && LEValue(LEBytes(w, n)) == w
  {
    if n > 0 {
      LERoundTrip(w / 256, n - 1);
      assert LEBytes(w, n)[1..] == LEBytes(w / 256, n - 1);
    }
  }

  lemma {:induction false} LEValueBound(b: Bytes)
    ensures LEValue(b) < Pow256(|b|)
  {
    if b != [] {
      LEValueBound(b[1..]);
    }
  }

  lemma Pow256Of8()
    ensures Pow256(8) == U64
  {
    assert Pow256(4) == U32;
  }

  function WordAt(b: Bytes, i: nat): Blamka.Word
    requires 8 * i + 8 <= |b|
  {
    LEValueBound(b[8 * i..8 * i + 8]);
    Pow256Of8();
    LEValue(b[8 * i..8 * i + 8])
  }

  // 128 little-endian words of a 1024-byte string.
  function LoadBlock(b: Bytes): Block
    requires |b| == 1024
  {
    seq(Blamka.BLOCK_LENGTH, i requires 0 <= i < Blamka.BLOCK_LENGTH => WordAt(b, i))
  }

  // The first n words of a block as bytes.
  function StoreBlock(b: Block, n: nat): Bytes
    requires n <= Blamka.BLOCK_LENGTH
  {
    if n == 0 then [] else StoreBlock(b, n - 1) + LEBytes(b[n - 1], 8)
  }

  lemma {:induction false} StoredWords(b: Block, n: nat, i: nat)
    requires i < n <= Blamka.BLOCK_LENGTH
    ensures |StoreBlock(b, n)| == 8 * n && StoreBlock(b, n)[8 * i..8 * i + 8] == LEBytes(b[i], 8)
    decreases n
  {
    Pow256Of8();
    LERoundTrip(b[n - 1], 8);
    hide LEBytes;
    var before, last := StoreBlock(b, n - 1), LEBytes(b[n - 1], 8);
    assert StoreBlock(b, n) == before + last;
    if n > 1 {
      StoredWords(b, n - 1, if i < n - 1 then i else 0);
    }
    assert |before| == 8 * (n - 1);
    if i < n - 1 {
      assert (before + last)[8 * i..8 * i + 8] == before[8 * i..8 * i + 8];
    } else {
      assert (before + last)[8 * i..8 * i + 8] == last;
    }
  }

  // A stored block takes 1024 bytes and reads back.
  lemma StoredBlock(b: Block)
    ensures |StoreBlock(b, Blamka.BLOCK_LENGTH)| == 1024
    ensures LoadBlock(StoreBlock(b, Blamka.BLOCK_LENGTH)) == b
  {
    StoredWords(b, Blamka.BLOCK_LENGTH, 0);
    var s := StoreBlock(b, Blamka.BLOCK_LENGTH);
    hide StoreBlock, LEBytes, LEValue;
    forall i | 0 <= i < Blamka.BLOCK_LENGTH
      ensures WordAt(s, i) == b[i]
    {
      StoredWords(b, Blamka.BLOCK_LENGTH, i);
      Pow256Of8();
      LERoundTrip(b[i], 8);
    }
  }

  // Section 3.2, steps 3 and 4: H'^(1024)(H0 || LE32(column) || LE32(lane)).
  function FirstBlock(h: VariableHash.Digest, h0: Bytes, lane: nat, column: nat): Block
    requires VariableHash.IsDigest(h)
  {
    var seed := h0 + VariableHash.LE32(column) + VariableHash.LE32(lane);
    VariableHash.HPrimeLength(h, 1024, seed);
    LoadBlock(VariableHash.HPrime(h, 1024, seed))
  }

  function PartialBlock(h: VariableHash.Digest, h0: Bytes, n: nat, i: nat, j: nat): Block
    requires VariableHash.IsDigest(h)
  {
    if i < n && j < 2 then FirstBlock(h, h0, i, j) else Blamka.ZeroBlock()
  }

  function PartialRow(h: VariableHash.Digest, g: Geometry, h0: Bytes, n: nat, i: nat): seq<Block>
    requires VariableHash.IsDigest(h)
  {
    seq(g.Columns(), j requires 0 <= j => PartialBlock(h, h0, n, i, j))
  }

  // The matrix with the first two columns of the first n lanes filled in, the rest zero.
  function PartialMatrix(h: VariableHash.Digest, g: Geometry, h0: Bytes, n: nat): Matrix
    requires VariableHash.IsDigest(h)
  {
    seq(g.threads, i requires 0 <= i => PartialRow(h, g, h0, n, i))
  }

  function InitialMatrix(h: VariableHash.Digest, g: Geometry, h0: Bytes): (m: Matrix)
    requires VariableHash.IsDigest(h)
    ensures Shaped(g, m)
  {
    PartialMatrix(h, g, h0, g.threads)
  }

  lemma PartialStep(h: VariableHash.Digest, g: Geometry, h0: Bytes, lane: nat)
    requires VariableHash.IsDigest(h) && g.Valid() && lane < g.threads
    ensures Shaped(g, PartialMatrix(h, g, h0, lane)) && Shaped(g, PartialMatrix(h, g, h0, lane + 1))
    ensures var m1 := Put(PartialMatrix(h, g, h0, lane), Place(lane, 0), FirstBlock(h, h0, lane, 0));
            && Shaped(g, m1)
            && Put(m1, Place(lane, 1), FirstBlock(h, h0, lane, 1)) == PartialMatrix(h, g, h0, lane + 1)
  {
    hide FirstBlock;
    var m0 := PartialMatrix(h, g, h0, lane);
    var m1 := Put(m0, Place(lane, 0), FirstBlock(h, h0, lane, 0));
    var m2 := Put(m1, Place(lane, 1), FirstBlock(h, h0, lane, 1));
    assert m2[lane] == PartialMatrix(h, g, h0, lane + 1)[lane];
    assert forall i :: 0 <= i < g.threads && i != lane ==> m2[i] == m0[i] == PartialMatrix(h, g, h0, lane + 1)[i];
  }

  lemma ZeroRepresents(h: VariableHash.Digest, g: Geometry, h0: Bytes)
    requires VariableHash.IsDigest(h) && g.Valid()
    ensures Represents(g, seq(g.Memory(), _ => Blamka.ZeroBlock()), PartialMatrix(h, g, h0, 0))
  {
    hide FirstBlock, Blamka.ZeroBlock;
    forall p | InMatrix(g, p)
      ensures 0 <= p.Offset(g) < g.Memory()
    {
      OffsetInBounds(g, p);
    }
  }

  method NewWorkspace(memory: nat, chunked: bool) returns (ws: Workspace)
    ensures ws.Valid() && ws.memory == memory && ws.chunked == chunked && fresh(ws.chunks)
    ensures ws.Flat() == seq(memory, _ => Blamka.ZeroBlock())
  {
    if chunked {
      ws := new Argon2Workspace.Workspace.Chunked(memory);
    } else {
      ws := new Argon2Workspace.Workspace.Contiguous(memory);
    }
  }

  method InitBlocks(h: VariableHash.Digest, g: Geometry, h0: Bytes, chunked: bool) returns (ws: Workspace)
    requires VariableHash.IsDigest(h) && g.Valid() && |h0| == 64
    ensures ws.Valid() && ws.memory == g.Memory() && ws.chunked == chunked && fresh(ws.chunks)
    ensures Represents(g, ws.Flat(), InitialMatrix(h, g, h0))
  {
    ws := NewWorkspace(g.Memory(), chunked);
    ZeroRepresents(h, g, h0);
    SegmentsFit(g);
    hide Represents, PartialMatrix, Argon2Workspace.Workspace.Flat, Argon2Workspace.Workspace.Valid;
    var block0 := new VariableHash.Byte[1024](_ => 0);
    for lane := 0 to g.threads
      invariant fresh(ws.chunks) && fresh(block0)
      invariant Represents(g, ws.Flat(), PartialMatrix(h, g, h0, lane))
    {
      InitLane(h, g, h0, ws, lane, block0);
    }
  }

  // The two hashed blocks of one lane, through the shared 1024-byte buffer.
  method InitLane(h: VariableHash.Digest, g: Geometry, h0: Bytes, ws: Workspace, lane: uint32,
                  block0: array<VariableHash.Byte>)
    requires VariableHash.IsDigest(h) && g.Valid() && lane < g.threads && block0.Length == 1024
    requires ws.Valid() && ws.memory == g.Memory()
    requires Represents(g, ws.Flat(), PartialMatrix(h, g, h0, lane))
    modifies ws.chunks, block0
    ensures Represents(g, ws.Flat(), PartialMatrix(h, g, h0, lane + 1))
  {
    PartialStep(h, g, h0, lane);
    assert 2 <= g.Columns();
    hide Represents, PartialMatrix, FirstBlock, Put;
    ghost var m0 := PartialMatrix(h, g, h0, lane);
    InitOne(h, g, h0, ws, lane, 0, m0, block0);
    InitOne(h, g, h0, ws, lane, 1, Put(m0, Place(lane, 0), FirstBlock(h, h0, lane, 0)), block0);
  }

  method InitOne(h: VariableHash.Digest, g: Geometry, h0: Bytes, ws: Workspace, lane: uint32, column: uint32,
                 ghost m: Matrix, block0: array<VariableHash.Byte>)
    requires VariableHash.IsDigest(h) && g.Valid() && lane < g.threads && column < 2 && block0.Length == 1024
    requires ws.Valid() && ws.memory == g.Memory() && Represents(g, ws.Flat(), m) && Shaped(g, m)
    modifies ws.chunks, block0
    ensures Represents(g, ws.Flat(), Put(m, Place(lane, column), FirstBlock(h, h0, lane, column)))
  {
    hide Represents;
    var panicked := VariableHash.Blake2bHash(h, block0, h0 + VariableHash.LE32(column) + VariableHash.LE32(lane));
    var block := LoadBlock(block0[..]);
    assert block == FirstBlock(h, h0, lane, column);
    Blamka.DivModUnique(g.Memory(), g.threads, g.Columns(), 0);
    var j := lane * (g.Memory() / g.threads);
    StoreRepresents(g, ws.Flat(), m, Place(lane, column), block);
    ws.Store(j + column, block);
  }

  // ----- extractKey -----

  // B[0][q-1] xor ... xor B[n-1][q-1] (section 3.2, step 7).
  function LastColumnXor(g: Geometry, m: Matrix, n: nat): Block
    requires g.Valid() && Shaped(g, m) && 1 <= n <= g.threads
  {
    var last := Get(m, Place(n - 1, g.Columns() - 1));
    if n == 1 then last else Blamka.BlockXor(LastColumnXor(g, m, n - 1), last)
  }

  // The code starts from the last lane's block and mixes the others into it.
  function Accumulated(g: Geometry, m: Matrix, n: nat): Block
    requires g.Valid() && Shaped(g, m) && n < g.threads
  {
    if n == 0 then Get(m, Place(g.threads - 1, g.Columns() - 1))
    else Blamka.BlockXor(Accumulated(g, m, n - 1), Get(m, Place(n - 1, g.Columns() - 1)))
  }

  lemma {:induction false} AccumulatedIsXor(g: Geometry, m: Matrix, n: nat)
    requires g.Valid() && Shaped(g, m) && n < g.threads
    ensures var own := Get(m, Place(g.threads - 1, g.Columns() - 1));
            Accumulated(g, m, n) == if n == 0 then own else Blamka.BlockXor(LastColumnXor(g, m, n), own)
  {
    hide Blamka.BlockXor, Geometry.Memory;
    var own := Get(m, Place(g.threads - 1, g.Columns() - 1));
    if n > 0 {
      AccumulatedIsXor(g, m, n - 1);
      var x := Get(m, Place(n - 1, g.Columns() - 1));
      Blamka.BlockXorExchange(own, x, x);
      if n > 1 {
        Blamka.BlockXorExchange(LastColumnXor(g, m, n - 1), own, x);
      }
    }
  }

  // The matrix when n lanes have been mixed into the very last block.
  ghost function Mixed(g: Geometry, m: Matrix, n: nat): Matrix
    requires g.Valid() && Shaped(g, m) && n < g.threads
  {
    Put(m, Place(g.threads - 1, g.Columns() - 1), Accumulated(g, m, n))
  }

  method MixLane(ws: Workspace, g: Geometry, lane: uint32, ghost m: Matrix)
    requires g.Valid() && Shaped(g, m) && lane + 1 < g.threads
    requires ws.Valid() && ws.memory == g.Memory() && Represents(g, ws.Flat(), Mixed(g, m, lane))
    modifies ws.chunks
    ensures Represents(g, ws.Flat(), Mixed(g, m, lane + 1))
  {
    Blamka.DivModUnique(g.Memory(), g.threads, g.Columns(), 0);
    var lanes := g.Memory() / g.threads;
    ghost var last, source := Place(g.threads - 1, g.Columns() - 1), Place(lane, g.Columns() - 1);
    LastOffset(g);
    OffsetInBounds(g, source);
    MixStep(g, m, lane);
    assert lane * lanes + lanes - 1 == source.Offset(g);
    hide Represents, Blamka.BlockXor, Geometry.Memory, Geometry.Valid, Place.Offset, Mixed, Accumulated, Put;
    ReadBlock(g, ws.Flat(), Mixed(g, m, lane), source);
    ReadBlock(g, ws.Flat(), Mixed(g, m, lane), last);
    var v := ws.At(lane * lanes + lanes - 1);
    var own := ws.At(ws.memory - 1);
    var mixed := Blamka.BlockXor(own, v);
    StoreRepresents(g, ws.Flat(), Mixed(g, m, lane), last, mixed);
    ws.Store(ws.memory - 1, mixed);
  }

  lemma MixStep(g: Geometry, m: Matrix, lane: nat)
    requires g.Valid() && Shaped(g, m) && lane + 1 < g.threads
    ensures var last, source := Place(g.threads - 1, g.Columns() - 1), Place(lane, g.Columns() - 1);
            && InMatrix(g, last) && InMatrix(g, source) && Shaped(g, Mixed(g, m, lane))
            && Put(Mixed(g, m, lane), last, Blamka.BlockXor(Get(Mixed(g, m, lane), last), Get(Mixed(g, m, lane), source)))
               == Mixed(g, m, lane + 1)
  {
    hide Blamka.BlockXor, Geometry.Memory;
    var last, source := Place(g.threads - 1, g.Columns() - 1), Place(lane, g.Columns() - 1);
    PutGet(g, m, last, Accumulated(g, m, lane), last);
    PutGet(g, m, last, Accumulated(g, m, lane), source);
    PutTwice(g, m, last, Accumulated(g, m, lane), Accumulated(g, m, lane + 1));
  }

  lemma PutTwice(g: Geometry, m: Matrix, at: Place, a: Block, b: Block)
    requires Shaped(g, m) && InMatrix(g, at)
    ensures Shaped(g, Put(m, at, a)) && Put(Put(m, at, a), at, b) == Put(m, at, b)
  {
    assert m[at.row][at.column := a][at.column := b] == m[at.row][at.column := b];
  }

  lemma LastOffset(g: Geometry)
    requires g.Valid()
    ensures var last := Place(g.threads - 1, g.Columns() - 1);
            InMatrix(g, last) && last.Offset(g) == g.Memory() - 1
  {
    MultiplyStep(g.threads, g.Columns());
  }

  // The tag: H'^(keyLen) of the xor of the last column.
  function Tag(h: VariableHash.Digest, g: Geometry, m: Matrix, keyLen: nat): Bytes
    requires VariableHash.IsDigest(h) && g.Valid() && Shaped(g, m)
  {
    VariableHash.HPrime(h, keyLen, StoreBlock(LastColumnXor(g, m, g.threads), Blamka.BLOCK_LENGTH))
  }

  // Hashing to zero bytes panics; otherwise the key is the tag of the memory.
  method ExtractKey(h: VariableHash.Digest, ws: Workspace, g: Geometry, keyLen: nat, ghost m: Matrix)
    returns (panicked: bool, key: Bytes)
    requires VariableHash.IsDigest(h) && g.Valid() && Shaped(g, m)
    requires ws.Valid() && ws.memory == g.Memory() && Represents(g, ws.Flat(), m)
    modifies ws.chunks
    ensures panicked <==> keyLen == 0
    ensures !panicked ==> key == Tag(h, g, m, keyLen)
  {
    hide LastColumnXor, StoreBlock, VariableHash.HPrime, Represents, Shaped, Geometry.Valid, Geometry.Memory;
    var block := LastBlock(ws, g, m);
    var out := new VariableHash.Byte[keyLen](_ => 0);
    panicked := VariableHash.Blake2bHash(h, out, StoreBlock(block, Blamka.BLOCK_LENGTH));
    key := out[..];
  }

  // The last column of every lane, folded into the last block.
  method LastBlock(ws: Workspace, g: Geometry, ghost m: Matrix) returns (block: Block)
    requires g.Valid() && Shaped(g, m)
    requires ws.Valid() && ws.memory == g.Memory() && Represents(g, ws.Flat(), m)
    modifies ws.chunks
    ensures block == LastColumnXor(g, m, g.threads)
  {
    LastOffset(g);
    hide Represents, LastColumnXor, Shaped;
    MixLanes(ws, g, m);
    ReadLast(g, m, ws.Flat());
    block := ws.At(ws.memory - 1);
  }

  method MixLanes(ws: Workspace, g: Geometry, ghost m: Matrix)
    requires g.Valid() && Shaped(g, m)
    requires ws.Valid() && ws.memory == g.Memory() && Represents(g, ws.Flat(), m)
    modifies ws.chunks
    ensures Represents(g, ws.Flat(), Mixed(g, m, g.threads - 1))
  {
    OwnLast(g, m);
    SegmentsFit(g);
    hide Represents, Geometry.Memory, Mixed;
    for lane := 0 to g.threads - 1
      invariant Represents(g, ws.Flat(), Mixed(g, m, lane))
    {
      MixLane(ws, g, lane, m);
    }
  }

  lemma ReadLast(g: Geometry, m: Matrix, flat: seq<Block>)
    requires g.Valid() && Shaped(g, m) && Represents(g, flat, Mixed(g, m, g.threads - 1))
    ensures 0 <= g.Memory() - 1 < |flat| && flat[g.Memory() - 1] == LastColumnXor(g, m, g.threads)
  {
    var n, last := g.threads - 1, Place(g.threads - 1, g.Columns() - 1);
    LastOffset(g);
    MixedLast(g, m);
    hide Represents, Blamka.BlockXor, Mixed, LastColumnXor;
    ReadBlock(g, flat, Mixed(g, m, n), last);
  }

  lemma MixedLast(g: Geometry, m: Matrix)
    requires g.Valid() && Shaped(g, m)
    ensures var n, last := g.threads - 1, Place(g.threads - 1, g.Columns() - 1);
            InMatrix(g, last) && Shaped(g, Mixed(g, m, n)) && Get(Mixed(g, m, n), last) == LastColumnXor(g, m, g.threads)
  {
    var n, last := g.threads - 1, Place(g.threads - 1, g.Columns() - 1);
    LastOffset(g);
    AccumulatedIsXor(g, m, n);
    PutGet(g, m, last, Accumulated(g, m, n), last);
  }

  lemma OwnLast(g: Geometry, m: Matrix)
    requires g.Valid() && Shaped(g, m)
    ensures Mixed(g, m, 0) == m
  {
    LastOffset(g);
    assert m[g.threads - 1][g.Columns() - 1 := m[g.threads - 1][g.Columns() - 1]] == m[g.threads - 1];
  }

  // ----- deriveKey -----

  datatype Parameters = Parameters(
    password: Bytes, salt: Bytes, secret: Bytes, data: Bytes,
    time: uint32, memory: uint32, threads: nat, keyLen: uint32, mode: Mode)

  function LengthPrefixed(b: Bytes): Bytes
  {
    VariableHash.LE32(|b|) + b
  }

  const VERSION := 0x13

  // What initHash feeds its hash.
  function Numbers(p: Parameters): (b: Bytes)
    ensures |b| == 24
  {
    VariableHash.LE32(p.threads) + VariableHash.LE32(p.keyLen) + VariableHash.LE32(p.memory)
    + VariableHash.LE32(p.time) + VariableHash.LE32(VERSION) + VariableHash.LE32(ModeNumber(p.mode))
  }

  function Strings(p: Parameters): Bytes
  {
    LengthPrefixed(p.password) + LengthPrefixed(p.salt) + LengthPrefixed(p.secret) + LengthPrefixed(p.data)
  }

  // H_0 (section 3.2, step 1), over the memory size as the caller gave it.
  function H0(h: VariableHash.Digest, p: Parameters): Bytes
  {
    h(64, Numbers(p) + Strings(p))
  }

  // A 32-bit word reads back as written, modulo 2^32.
  lemma LE32Value(n: nat)
    ensures |VariableHash.LE32(n)| == 4 && LEValue(VariableHash.LE32(n)) == n % U32
  {
    var b := VariableHash.LE32(n);
    var x: int, y: int, z: int := b[1], b[2], b[3];
    assert b[1..][1..][1..][1..] == [];
    assert LEValue(b[1..][1..][1..]) == z;
    assert LEValue(b[1..][1..]) == y + 256 * z;
    assert LEValue(b[1..]) == x + 256 * (y + 256 * z);
    FourBytes(n);
  }

  lemma FourBytes(n: nat)
    ensures n % 256 + 256 * (n / 0x100 % 256 + 256 * (n / 0x1_0000 % 256 + 256 * (n / 0x100_0000 % 256))) == n % U32
  {
    var a, b, c, d := n / 256, n / 0x1_0000, n / 0x100_0000, n / U32;
    NextByte(n, 1);
    NextByte(n, 0x100);
    NextByte(n, 0x1_0000);
    NextByte(n, 0x100_0000);
    Blamka.DivModUnique(n, U32, d, n % 256 + 256 * (a % 256 + 256 * (b % 256 + 256 * (c % 256))));
  }

  lemma NextByte(n: nat, unit: nat)
    requires unit > 0
    ensures n / unit == n / (256 * unit) * 256 + n / unit % 256
  {
    var q, r := n / unit, n % unit;
    var a, b := q / 256, q % 256;
    assert q == b + 256 * a && n == q * unit + r;
    Regroup(a, b, unit);
    BelowUnit(b, r, unit);
    Blamka.DivModUnique(n, 256 * unit, a, r + b * unit);
  }

  lemma Regroup(a: nat, b: nat, unit: nat)
    ensures (b + 256 * a) * unit == b * unit + a * (256 * unit)
  {
    Blamka.Distribute(unit, b, 256 * a);
    Blamka.Reassociate(a, 256, unit);
  }

  lemma BelowUnit(b: nat, r: nat, unit: nat)
    requires b < 256 && r < unit
    ensures 0 <= b * unit && r + b * unit < 256 * unit
  {
    var spare := 255 - b;
    assert spare * unit >= 0;
    assert b * unit + spare * unit == 255 * unit;
  }

  // The six numbers, in the order of the RFC.
  lemma H0Numbers(p: Parameters)
    ensures var m := Numbers(p);
            && LEValue(m[..4]) == p.threads % U32 && LEValue(m[4..8]) == p.keyLen && LEValue(m[8..12]) == p.memory
            && LEValue(m[12..16]) == p.time && LEValue(m[16..20]) == 0x13 && LEValue(m[20..]) == (match p.mode case Argon2d => 0 case Argon2i => 1 case Argon2id => 2)
  {
    var m := Numbers(p);
    hide VariableHash.LE32, LEValue;
    LE32Value(p.threads);
    LE32Value(p.keyLen);
    LE32Value(p.memory);
    LE32Value(p.time);
    LE32Value(VERSION);
    LE32Value(ModeNumber(p.mode));
    assert m[..4] == VariableHash.LE32(p.threads) && m[4..8] == VariableHash.LE32(p.keyLen) && m[8..12] == VariableHash.LE32(p.memory);
    assert m[12..16] == VariableHash.LE32(p.time) && m[16..20] == VariableHash.LE32(VERSION) && m[20..] == VariableHash.LE32(ModeNumber(p.mode));
  }

  // The strings are told apart by their lengths: no two choices of password, salt, secret and data are
  // hashed alike.
  lemma H0Strings(p: Parameters, q: Parameters)
    requires |p.password| < U32 && |p.salt| < U32 && |p.secret| < U32 && |p.data| < U32
    requires |q.password| < U32 && |q.salt| < U32 && |q.secret| < U32 && |q.data| < U32
    requires Strings(p) == Strings(q)
    ensures p.password == q.password && p.salt == q.salt && p.secret == q.secret && p.data == q.data
  {
    hide LengthPrefixed;
    FirstString(p.password, LengthPrefixed(p.salt) + LengthPrefixed(p.secret) + LengthPrefixed(p.data),
                q.password, LengthPrefixed(q.salt) + LengthPrefixed(q.secret) + LengthPrefixed(q.data), Strings(p));
    FirstString(p.salt, LengthPrefixed(p.secret) + LengthPrefixed(p.data), q.salt, LengthPrefixed(q.secret) + LengthPrefixed(q.data),
                LengthPrefixed(p.salt) + LengthPrefixed(p.secret) + LengthPrefixed(p.data));
    FirstString(p.secret, LengthPrefixed(p.data), q.secret, LengthPrefixed(q.data), LengthPrefixed(p.secret) + LengthPrefixed(p.data));
    FirstString(p.data, [], q.data, [], LengthPrefixed(p.data));
  }

  lemma FirstString(a: Bytes, rest: Bytes, b: Bytes, more: Bytes, whole: Bytes)
    requires |a| < U32 && |b| < U32 && whole == LengthPrefixed(a) + rest == LengthPrefixed(b) + more
    ensures a == b && rest == more
  {
    hide VariableHash.LE32, LEValue;
    SplitAfter(VariableHash.LE32(|a|), a, rest, whole);
    SplitAfter(VariableHash.LE32(|b|), b, more, whole);
    SameLength(|a|, |b|);
  }

  lemma SameLength(n: nat, m: nat)
    requires n < U32 && m < U32 && VariableHash.LE32(n) == VariableHash.LE32(m)
    ensures n == m
  {
    hide VariableHash.LE32, LEValue;
    LE32Value(n);
    LE32Value(m);
  }

  lemma SplitAfter(l: Bytes, a: Bytes, rest: Bytes, whole: Bytes)
    requires |l| == 4 && whole == l + a + rest
    ensures |whole| >= 4 + |a| && whole[..4] == l && whole[4..4 + |a|] == a && whole[4 + |a|..] == rest
  {
  }

  // The memory rounded down to four segments per lane, at least two blocks in each.
  function RoundedMemory(memory: uint32, threads: nat): uint32
    requires 1 <= threads < 256
  {
    var unit := SYNC_POINTS * threads;
    var rounded := memory / unit * unit;
    if rounded < 2 * unit then 2 * unit else rounded
  }

  function GeometryOf(memory: uint32, threads: nat): Geometry
    requires 1 <= threads < 256
  {
    Geometry(RoundedMemory(memory, threads) / threads / SYNC_POINTS, threads)
  }

  // Rounding gives a whole number of segments, never shorter than two blocks, and never more
  // memory than asked for unless the minimum applies.
  lemma RoundingFits(memory: uint32, threads: nat)
    requires 1 <= threads < 256
    ensures GeometryOf(memory, threads).Valid()
    ensures GeometryOf(memory, threads).Memory() == RoundedMemory(memory, threads)
    ensures var r := RoundedMemory(memory, threads);
            if memory < 2 * SYNC_POINTS * threads then r == 2 * SYNC_POINTS * threads
            else memory - SYNC_POINTS * threads < r <= memory
  {
    var unit := SYNC_POINTS * threads;
    var k := memory / unit;
    assert memory == k * unit + memory % unit;
    var n := if k < 2 then 2 else k;
    if k < 2 {
      MultiplyMonotone(k, 1, unit);
    } else {
      MultiplyMonotone(2, k, unit);
    }
    assert RoundedMemory(memory, threads) == n * unit;
    assert n * unit == (n * SYNC_POINTS) * threads;
    Blamka.DivModUnique(n * unit, threads, n * SYNC_POINTS, 0);
    Commute(threads, SYNC_POINTS * n);
  }

  // The tag of section 3.2, with lanes run in order inside each slice.
  function DerivedKey(h: VariableHash.Digest, p: Parameters): Bytes
    requires VariableHash.IsDigest(h) && p.time >= 1 && 1 <= p.threads < 256
  {
    RoundingFits(p.memory, p.threads);
    var g := GeometryOf(p.memory, p.threads);
    var start := InitialMatrix(h, g, H0(h, p));
    Tag(h, g, RunSlices(Standard(g, p.time, p.mode), start, SYNC_POINTS * p.time), p.keyLen)
  }

  // Panics on zero passes, zero lanes or an empty key; otherwise the key is the RFC's tag, and
  // the chunked workspace gives the same key as the contiguous one.
  method DeriveKey(h: VariableHash.Digest, p: Parameters, chunked: bool) returns (panicked: bool, key: Bytes)
    requires VariableHash.IsDigest(h) && p.threads < 256
    ensures panicked <==> p.time < 1 || p.threads < 1 || p.keyLen == 0
    ensures !panicked ==> key == DerivedKey(h, p)
  {
    panicked, key := true, [];
    if p.time < 1 || p.threads < 1 {
      return;
    }
    RoundingFits(p.memory, p.threads);
    var g := GeometryOf(p.memory, p.threads);
    var h0 := H0(h, p);
    hide InitialMatrix, Represents, RunSlices, Tag, Geometry.Memory, Geometry.Valid, GeometryOf, H0;
    var ws := InitBlocks(h, g, h0, chunked);
    ghost var start := InitialMatrix(h, g, h0);
    RepresentsShaped(g, ws.Flat(), start);
    ProcessBlocks(ws, g, p.time, p.mode, start);
    panicked, key := ExtractKey(h, ws, g, p.keyLen, RunSlices(Standard(g, p.time, p.mode), start, SYNC_POINTS * p.time));
  }

  // All 4 * time slices, each run by its own schedule and ended by the barrier, from the initial memory.
  ghost predicate ParallelFill(h: VariableHash.Digest, p: Parameters, schedules: seq<seq<nat>>, states: seq<Matrix>)
    requires VariableHash.IsDigest(h) && 1 <= p.threads < 256 && p.time >= 1
  {
    RoundingFits(p.memory, p.threads);
    var g := GeometryOf(p.memory, p.threads);
    && |schedules| == SYNC_POINTS * p.time && ParallelRun(Standard(g, p.time, p.mode), schedules, states)
    && states[0] == InitialMatrix(h, g, H0(h, p))
  }

  ghost function LastState(h: VariableHash.Digest, p: Parameters, schedules: seq<seq<nat>>, states: seq<Matrix>): (m: Matrix)
    requires VariableHash.IsDigest(h) && 1 <= p.threads < 256 && p.time >= 1 && ParallelFill(h, p, schedules, states)
    ensures GeometryOf(p.memory, p.threads).Valid() && Shaped(GeometryOf(p.memory, p.threads), m)
  {
    RoundingFits(p.memory, p.threads);
    states[SYNC_POINTS * p.time]
  }

  /** However the lanes of every slice interleave, the memory left is the one ExtractKey takes DerivedKey
      from. */
  lemma ParallelKey(h: VariableHash.Digest, p: Parameters, schedules: seq<seq<nat>>, states: seq<Matrix>)
    requires VariableHash.IsDigest(h) && 1 <= p.threads < 256 && p.time >= 1 && ParallelFill(h, p, schedules, states)
    ensures Tag(h, GeometryOf(p.memory, p.threads), LastState(h, p, schedules, states), p.keyLen) == DerivedKey(h, p)
  {
    RoundingFits(p.memory, p.threads);
    hide InitialMatrix, RunSlices, Tag, Geometry.Memory, Geometry.Valid, GeometryOf, H0, ParallelSlice;
    FillIsDeterministic(Standard(GeometryOf(p.memory, p.threads), p.time, p.mode), schedules, states, SYNC_POINTS * p.time);
  }

  // The same with the last step as the program takes it, on a workspace holding the memory a run left.
  method ExtractParallel(h: VariableHash.Digest, p: Parameters, ws: Workspace, ghost schedules: seq<seq<nat>>, ghost states: seq<Matrix>)
    returns (panicked: bool, key: Bytes)
    requires VariableHash.IsDigest(h) && 1 <= p.threads < 256 && p.time >= 1 && ParallelFill(h, p, schedules, states)
    requires var g := GeometryOf(p.memory, p.threads);
             ws.Valid() && g.Valid() && ws.memory == g.Memory() && Represents(g, ws.Flat(), LastState(h, p, schedules, states))
    modifies ws.chunks
    ensures panicked <==> p.keyLen == 0
    ensures !panicked ==> key == DerivedKey(h, p)
  {
    ParallelKey(h, p, schedules, states);
    var g := GeometryOf(p.memory, p.threads);
    hide ParallelFill, LastState, Represents, Tag, Geometry.Memory, Geometry.Valid, GeometryOf;
    panicked, key := ExtractKey(h, ws, g, p.keyLen, LastState(h, p, schedules, states));
  }
}
