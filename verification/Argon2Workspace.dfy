/** The block workspace: one contiguous allocation, or the 4096-block chunks of 32-bit builds
    (workspace_contiguous.go, workspace_32bit.go). */
module Argon2Workspace {
  import Blamka

  type Block = Blamka.Block

  const CHUNK_BLOCKS := 4096

  // Blocks in the i-th allocation of a chunked workspace.
  function ChunkSize(memory: nat, i: nat): int
  {
    if memory - i * CHUNK_BLOCKS < CHUNK_BLOCKS then memory - i * CHUNK_BLOCKS else CHUNK_BLOCKS
  }

  function ChunkCount(memory: nat): nat
  {
    memory / CHUNK_BLOCKS + if memory % CHUNK_BLOCKS != 0 then 1 else 0
  }

  // The chunks, laid end to end, are exactly the memory: none is empty, all but the last are full, with 4 MiB.
  lemma ChunksTileMemory(memory: nat, i: nat)
    requires i < ChunkCount(memory)
    ensures 0 < ChunkSize(memory, i) <= CHUNK_BLOCKS && 8 * Blamka.BLOCK_LENGTH * CHUNK_BLOCKS == 4 * 1024 * 1024
    ensures i + 1 < ChunkCount(memory) ==> ChunkSize(memory, i) == CHUNK_BLOCKS
    ensures i + 1 == ChunkCount(memory) ==> i * CHUNK_BLOCKS + ChunkSize(memory, i) == memory
  {
  }

  // newWorkspace: full chunks, then what is left.
  method NewChunks(memory: nat) returns (chunks: seq<array<Block>>)
    ensures |chunks| == ChunkCount(memory)
    ensures forall i :: 0 <= i < |chunks| ==> fresh(chunks[i]) && chunks[i].Length == ChunkSize(memory, i)
    ensures forall i, j :: 0 <= i < j < |chunks| ==> chunks[i] != chunks[j]
    ensures forall i, k :: 0 <= i < |chunks| && 0 <= k < chunks[i].Length ==> chunks[i][k] == Blamka.ZeroBlock()
  {
    var count := memory / CHUNK_BLOCKS;
    if memory % CHUNK_BLOCKS != 0 {
      count := count + 1;
    }
    chunks := [];
    var left := memory;
    for i := 0 to count
      invariant |chunks| == i && left == (if i < count then memory - i * CHUNK_BLOCKS else 0)
      invariant forall k :: 0 <= k < i ==> fresh(chunks[k]) && chunks[k].Length == ChunkSize(memory, k)
      invariant forall k, l :: 0 <= k < l < i ==> chunks[k] != chunks[l]
      invariant forall k, b :: 0 <= k < i && 0 <= b < chunks[k].Length ==> chunks[k][b] == Blamka.ZeroBlock()
    {
      var size := if left < CHUNK_BLOCKS then left else CHUNK_BLOCKS;
      var chunk := new Block[size](_ => Blamka.ZeroBlock());
      chunks := chunks + [chunk];
      left := left - size;
    }
  }

  class Workspace {
    const memory: nat
    const chunked: bool
    const chunks: seq<array<Block>>

    ghost predicate Valid()
    {
      && (forall i, j :: 0 <= i < j < |chunks| ==> chunks[i] != chunks[j])
      && if chunked then
           && |chunks| == ChunkCount(memory)
           && forall i :: 0 <= i < |chunks| ==> chunks[i].Length == ChunkSize(memory, i)
         else
           |chunks| == 1 && chunks[0].Length == memory
    }

    // index>>12 and index&4095 when chunked.
    function Chunk(index: nat): nat { if chunked then index / CHUNK_BLOCKS else 0 }
    function Slot(index: nat): nat { if chunked then index % CHUNK_BLOCKS else index }

    // at(index) stays inside its chunk, and different indexes have different places.
    lemma AtPlaces(k: nat, l: nat)
      requires Valid() && k < memory && l < memory
      ensures Chunk(k) < |chunks| && Slot(k) < chunks[Chunk(k)].Length
      ensures k != l ==> Chunk(l) < |chunks| && (chunks[Chunk(k)] != chunks[Chunk(l)] || Slot(k) != Slot(l))
    {
    }

    ghost function BlockAt(index: nat): Block
      requires Valid() && index < memory
      reads chunks
    {
      AtPlaces(index, index);
      chunks[Chunk(index)][Slot(index)]
    }

    // The memory as one sequence of blocks.
    ghost function Flat(): seq<Block>
      requires Valid()
      reads chunks
    {
      seq(memory, k requires 0 <= k < memory reads chunks => BlockAt(k))
    }

    constructor Contiguous(memory: nat)
      ensures Valid() && this.memory == memory && fresh(chunks) && !chunked
      ensures Flat() == seq(memory, _ => Blamka.ZeroBlock())
    {
      var chunk := new Block[memory](_ => Blamka.ZeroBlock());
      this.memory, chunked, chunks := memory, false, [chunk];
    }

    constructor Chunked(memory: nat)
      ensures Valid() && this.memory == memory && fresh(chunks) && chunked
      ensures forall i :: 0 <= i < |chunks| ==> 0 < chunks[i].Length <= CHUNK_BLOCKS
      ensures Flat() == seq(memory, _ => Blamka.ZeroBlock())
    {
      var cs := NewChunks(memory);
      this.memory, chunked, chunks := memory, true, cs;
    }

    // *B.at(index)
    method At(index: nat) returns (b: Block)
      requires Valid() && index < memory
      ensures b == Flat()[index]
    {
      AtPlaces(index, index);
      b := chunks[Chunk(index)][Slot(index)];
    }

    // *B.at(index) = b changes that block of the memory and no other.
    method Store(index: nat, b: Block)
      requires Valid() && index < memory
      modifies chunks
      ensures Flat() == old(Flat())[index := b]
    {
      AtPlaces(index, index);
      chunks[Chunk(index)][Slot(index)] := b;
      forall k | 0 <= k < memory
        ensures BlockAt(k) == if k == index then b else old(BlockAt(k))
      {
        AtPlaces(k, index);
      }
    }
  }
}
