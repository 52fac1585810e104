/**
 * Model of `SaeaSharedBuffer` (src/AsyncSocket.Core/IoCompletionPort/SaeaSharedBuffer.cs):
 * one contiguous byte array of `ChunkSizeInBytes * PoolSize` bytes, cut into chunks
 * identified by ids `0..PoolSize-1`, and a stack of the ids not yet handed out.
 * `AssignBuffer` binds the top chunk to a context for good; ids are never returned.
 */
module SharedBuffer {
  import opened EventArgs

  const Int32Max: int := 0x7FFF_FFFF

  /** First byte of chunk `id`. */
  function ChunkOffset(chunkSize: nat, id: nat): nat
  {
    chunkSize * id
  }

  /** A chunk of a pool of `poolSize` chunks lies inside the buffer. */
  lemma ChunkInBounds(chunkSize: nat, poolSize: nat, id: nat)
    requires id < poolSize
    ensures ChunkOffset(chunkSize, id) + chunkSize <= chunkSize * poolSize
  {
    assert chunkSize * id + chunkSize == chunkSize * (id + 1);
    MulMonotonic(chunkSize, id + 1, poolSize);
  }

  lemma MulMonotonic(c: nat, a: nat, b: nat)
    requires a <= b
    ensures c * a <= c * b
  {
    assert c * b == c * a + c * (b - a);
  }

  /** Distinct chunks do not overlap. */
  lemma ChunksDisjoint(chunkSize: nat, i: nat, j: nat)
    requires i < j
    ensures ChunkOffset(chunkSize, i) + chunkSize <= ChunkOffset(chunkSize, j)
  {
    assert chunkSize * i + chunkSize == chunkSize * (i + 1);
    MulMonotonic(chunkSize, i + 1, j);
  }

  /** `new ConcurrentStack<int>(Enumerable.Range(0, n))`: 0 pushed first, so `n - 1` is on top. */
  function InitialChunkIds(n: nat): (ids: seq<nat>)
    ensures |ids| == n
    ensures forall i :: 0 <= i < n ==> ids[i] == i
    ensures forall i, j :: 0 <= i < j < n ==> ids[i] != ids[j]
    ensures forall k: nat :: k < n ==> k in ids
    ensures forall k :: k in ids ==> k < n
    ensures n > 0 ==> ids[n - 1] == n - 1
  {
    var ids: seq<nat> := seq(n, i => i);
    assert forall k: nat | k < n :: k in ids by {
      forall k: nat | k < n ensures k in ids {
        assert ids[k] == k;
      }
    }
    ids
  }

  class SaeaSharedBuffer {
    const buffer: array<bv8>
    const PoolSize: nat
    const ChunkSizeInBytes: nat
    /** The free ids; the last one is the top of the stack. */
    var chunkIds: seq<nat>
    /** The ids handed out so far. */
    ghost var handedOut: set<nat>

    ghost predicate Valid()
      reads this
    {
      && buffer.Length == ChunkSizeInBytes * PoolSize
      && (forall i, j :: 0 <= i < j < |chunkIds| ==> chunkIds[i] != chunkIds[j])
      && (forall i :: 0 <= i < |chunkIds| ==> chunkIds[i] < PoolSize && chunkIds[i] !in handedOut)
      && (forall id :: id in handedOut ==> id < PoolSize)
      && |chunkIds| + |handedOut| == PoolSize
    }

    constructor (bufferChunkSizeInBytes: nat, poolSize: nat)
      requires bufferChunkSizeInBytes * poolSize <= Int32Max
      ensures Valid() && fresh(buffer)
      ensures PoolSize == poolSize && ChunkSizeInBytes == bufferChunkSizeInBytes
      ensures buffer.Length == bufferChunkSizeInBytes * poolSize
      ensures forall i :: 0 <= i < buffer.Length ==> buffer[i] == 0
      ensures chunkIds == InitialChunkIds(poolSize) && handedOut == {}
    {
      PoolSize := poolSize;
      ChunkSizeInBytes := bufferChunkSizeInBytes;
      buffer := new bv8[bufferChunkSizeInBytes * poolSize](_ => 0);
      chunkIds := InitialChunkIds(poolSize);
      handedOut := {};
    }

    /**
     * Binds the chunk on top of the id stack to `saea`: the shared buffer, offset
     * `ChunkSizeInBytes * id`, count `ChunkSizeInBytes`. Throws `InvalidOperationException`
     * and changes nothing when no id is left.
     */
    method AssignBuffer(saea: SocketAsyncEventArgs) returns (r: Outcome)
      requires Valid()
      modifies this, saea
      ensures Valid()
      ensures r == Done <==> old(|chunkIds|) > 0
      ensures r != Done ==>
        r == Threw(InvalidOperation) && chunkIds == old(chunkIds) && handedOut == old(handedOut) && unchanged(saea)
      ensures r == Done ==>
        var id := old(chunkIds[|chunkIds| - 1]);
        && chunkIds == old(chunkIds[..|chunkIds| - 1])
        && id < PoolSize && id !in old(handedOut) && handedOut == old(handedOut) + {id}
        && saea.Valid()
        && saea.State() == old(saea.State()).(buffer := buffer, offset := ChunkOffset(ChunkSizeInBytes, id), count := ChunkSizeInBytes)
    {
      if |chunkIds| > 0 {
        var chunkId := chunkIds[|chunkIds| - 1];
        chunkIds := chunkIds[..|chunkIds| - 1];
        ChunkInBounds(ChunkSizeInBytes, PoolSize, chunkId);
        saea.SetBuffer(buffer, ChunkOffset(ChunkSizeInBytes, chunkId), ChunkSizeInBytes);
        assert chunkId !in handedOut;
        handedOut := handedOut + {chunkId};
        return Done;
      }
      return Threw(InvalidOperation);
    }
  }

  /**
   * A fresh buffer of `n` chunks hands out exactly `n` chunks, pairwise disjoint and in
   * bounds, the first being chunk `n - 1`; the next call throws.
   */
  method ExhaustFreshBuffer(chunkSize: nat, n: nat) returns (offsets: seq<nat>, last: Outcome)
    requires chunkSize * n <= Int32Max
    ensures |offsets| == n
    ensures forall k :: 0 <= k < n ==> offsets[k] == ChunkOffset(chunkSize, n - 1 - k)
    ensures forall k :: 0 <= k < n ==> offsets[k] + chunkSize <= chunkSize * n
    ensures forall k, l :: 0 <= k < l < n ==> offsets[l] + chunkSize <= offsets[k]
    ensures last == Threw(InvalidOperation)
  {
    var arena := new SaeaSharedBuffer(chunkSize, n);
    offsets := [];
    while |offsets| < n
      invariant arena.Valid() && arena.PoolSize == n && arena.ChunkSizeInBytes == chunkSize
      invariant |offsets| <= n
      invariant arena.chunkIds == InitialChunkIds(n - |offsets|)
      invariant forall k :: 0 <= k < |offsets| ==> offsets[k] == ChunkOffset(chunkSize, n - 1 - k)
      modifies arena
    {
      var saea := new SocketAsyncEventArgs();
      var r := arena.AssignBuffer(saea);
      assert r == Done;
      offsets := offsets + [saea.offset];
    }
    var saea := new SocketAsyncEventArgs();
    last := arena.AssignBuffer(saea);
    forall k | 0 <= k < n ensures offsets[k] + chunkSize <= chunkSize * n {
      ChunkInBounds(chunkSize, n, n - 1 - k);
    }
    forall k, l | 0 <= k < l < n ensures offsets[l] + chunkSize <= offsets[k] {
      ChunksDisjoint(chunkSize, n - 1 - l, n - 1 - k);
    }
  }
}
