/** The chunked read of a memory pool: a chain of work requests, and what the adapter does with it. */
module ChunkedRead {
  import opened MachineWords

  const NULL := -1

  /** A read of `length` bytes at `remote` to `local`, and the index of the next request of the chain. */
  datatype WorkRequest = WorkRequest(local: nat, length: nat, remote: nat, signaled: bool, next: int)

  function Chunks(bytes: nat, chunk: nat): nat
    requires chunk > 0
  {
    if bytes % chunk != 0 then bytes / chunk + 1 else bytes / chunk
  }

  /** The count is kept in an `int`, and one that is not positive posts nothing. */
  function Posted(bytes: nat, chunk: nat): (n: nat)
    requires chunk > 0
    ensures n <= Chunks(bytes, chunk) && (n == Chunks(bytes, chunk) <==> Chunks(bytes, chunk) < 0x8000_0000)
  {
    var n := ToInt32(Chunks(bytes, chunk));
    if n > 0 then n else 0
  }

  /** The length of chunk i of n, before it is put into its field: only the last chunk may be shorter. */
  function ChunkLength(i: nat, n: nat, bytes: nat, chunk: nat): nat
    requires chunk > 0
  {
    if bytes % chunk != 0 && i == n - 1 then bytes % chunk else chunk
  }

  /** Request i of a chain of n; the length is a 32-bit field. */
  function Request(i: nat, n: nat, local: nat, remote: nat, offset: nat, bytes: nat, chunk: nat): WorkRequest
    requires chunk > 0
  {
    var at := offset + i * chunk;
    WorkRequest(local + at, ChunkLength(i, n, bytes, chunk) % TWO_TO_THE_32, remote + at, i == n - 1,
                if i != n - 1 then i + 1 else NULL)
  }

  function Chain(local: nat, remote: nat, offset: nat, bytes: nat, chunk: nat): (c: seq<WorkRequest>)
    requires chunk > 0
    ensures |c| == Posted(bytes, chunk)
  {
    var n := Posted(bytes, chunk);
    seq(n, i requires 0 <= i < n => Request(i, n, local, remote, offset, bytes, chunk))
  }

  /** The loop of ReadInternal, filling the array of work requests. */
  method FillRequests(local: nat, remote: nat, offset: nat, bytes: nat, chunk: nat) returns (wrs: array<WorkRequest>)
    requires chunk > 0
    ensures wrs[..] == Chain(local, remote, offset, bytes, chunk)
  {
    var numChunks := ToInt32(if bytes % chunk != 0 then bytes / chunk + 1 else bytes / chunk);
    var remainder := bytes % chunk;
    var isMultiple := remainder == 0;
    wrs := new WorkRequest[if numChunks > 0 then numChunks else 0];
    var i := 0;
    ghost var c := Chain(local, remote, offset, bytes, chunk);
    while i < numChunks
      invariant 0 <= i <= |c| == wrs.Length && forall k | 0 <= k < i :: wrs[k] == c[k]
    {
      var chunkOffset := offset + i * chunk;
      var length := if isMultiple then chunk else if i == numChunks - 1 then remainder else chunk;
      wrs[i] := WorkRequest(local + chunkOffset, length % TWO_TO_THE_32, remote + chunkOffset, i == numChunks - 1,
                            if i != numChunks - 1 then i + 1 else NULL);
      assert c[i] == Request(i, |c|, local, remote, offset, bytes, chunk);
      i := i + 1;
    }
    assert wrs[..] == c;
  }

  // ---------------------------------------------------------------------------------------------------------------
  // The adapter
  // ---------------------------------------------------------------------------------------------------------------

  /** The memory with the bytes peer[from..to] at `at`. */
  function Copy(memory: seq<byte>, at: nat, peer: seq<byte>, from: nat, to: nat): (r: seq<byte>)
    requires from <= to <= |peer| && at + (to - from) <= |memory|
    ensures |r| == |memory|
  {
    memory[..at] + peer[from..to] + memory[at + (to - from)..]
  }

  /** The requests read and write inside memories of these sizes. */
  predicate Inside(wrs: seq<WorkRequest>, size: nat, peerSize: nat) {
    forall i | 0 <= i < |wrs| :: wrs[i].local + wrs[i].length <= size && wrs[i].remote + wrs[i].length <= peerSize
  }

  predicate Links(wrs: seq<WorkRequest>) {
    forall i | 0 <= i < |wrs| :: wrs[i].next == NULL || i < wrs[i].next < |wrs|
  }

  /** The local memory after the chain from request i on, and the work requests that completed with a signal. */
  function Run(wrs: seq<WorkRequest>, i: int, memory: seq<byte>, peer: seq<byte>): (r: (seq<byte>, seq<nat>))
    requires Links(wrs) && (i == NULL || 0 <= i < |wrs|) && Inside(wrs, |memory|, |peer|)
    ensures |r.0| == |memory|
    decreases if i == NULL then 0 else |wrs| - i
  {
    if i == NULL then (memory, [])
    else
      var wr := wrs[i];
      var rest := Run(wrs, wr.next, Copy(memory, wr.local, peer, wr.remote, wr.remote + wr.length), peer);
      (rest.0, if wr.signaled then [i] + rest.1 else rest.1)
  }

  // ---------------------------------------------------------------------------------------------------------------
  // Theorems
  // ---------------------------------------------------------------------------------------------------------------

  lemma ChunkBounds(i: nat, n: nat, bytes: nat, chunk: nat)
    requires chunk > 0 && i < n <= Chunks(bytes, chunk)
    ensures 0 < ChunkLength(i, n, bytes, chunk) <= chunk
    ensures i * chunk + ChunkLength(i, n, bytes, chunk) <= bytes
    ensures i < n - 1 ==> i * chunk + ChunkLength(i, n, bytes, chunk) == (i + 1) * chunk
    ensures i == n - 1 ==> (i * chunk + ChunkLength(i, n, bytes, chunk) == bytes <==> n == Chunks(bytes, chunk))
  {
    var q := bytes / chunk;
    assert bytes == q * chunk + bytes % chunk;
    assert (i + 1) * chunk == i * chunk + chunk;
    if i < q {
      MultiplyMonotone(i + 1, q, chunk);
    }
    if i + 1 < q {
      MultiplyMonotone(i + 2, q, chunk);
      assert (i + 2) * chunk == (i + 1) * chunk + chunk;
    }
  }

  lemma MultiplyMonotone(a: nat, b: nat, c: nat)
    requires a <= b
    ensures a * c <= b * c
  {
    assert (b - a) * c >= 0;
  }

  /** The regions read and written lie inside both memories. */
  predicate Fits(local: nat, remote: nat, offset: nat, bytes: nat, memory: seq<byte>, peer: seq<byte>) {
    local + offset + bytes <= |memory| && remote + offset + bytes <= |peer|
  }

  lemma ChainRuns(local: nat, remote: nat, offset: nat, bytes: nat, chunk: nat, memory: seq<byte>, peer: seq<byte>)
    requires chunk > 0 && Fits(local, remote, offset, bytes, memory, peer)
    ensures Links(Chain(local, remote, offset, bytes, chunk))
    ensures Inside(Chain(local, remote, offset, bytes, chunk), |memory|, |peer|)
  {
    hide Chunks, ChunkLength, Posted;
    var c := Chain(local, remote, offset, bytes, chunk);
    forall i | 0 <= i < |c|
      ensures c[i].local + c[i].length <= |memory| && c[i].remote + c[i].length <= |peer|
    {
      ChunkBounds(i, |c|, bytes, chunk);
    }
  }

  /** Copying a piece of the peer's memory and then what follows it copies both. */
  lemma CopyOn(memory: seq<byte>, peer: seq<byte>, at: nat, from: nat, mid: nat, to: nat)
    requires from <= mid <= to <= |peer| && at + (to - from) <= |memory|
    ensures Copy(Copy(memory, at, peer, from, mid), at + (mid - from), peer, mid, to) == Copy(memory, at, peer, from, to)
  {
  }

  /** The count and the lengths of the chunks fit their fields. */
  predicate LengthsFit(bytes: nat, chunk: nat)
    requires chunk > 0
  {
    0 < Chunks(bytes, chunk) < 0x8000_0000 && (chunk < TWO_TO_THE_32 || bytes < TWO_TO_THE_32)
  }

  lemma RequestIs(i: nat, done: nat, local: nat, remote: nat, offset: nat, bytes: nat, chunk: nat)
    requires chunk > 0 && LengthsFit(bytes, chunk) && i < Posted(bytes, chunk)
    requires done == i * chunk
    ensures var n, length := Posted(bytes, chunk), ChunkLength(i, Posted(bytes, chunk), bytes, chunk);
            && Chain(local, remote, offset, bytes, chunk)[i]
               == WorkRequest(local + offset + done, length, remote + offset + done, i == n - 1,
                              if i != n - 1 then i + 1 else NULL)
            && if i == n - 1 then done + length == bytes else done + length <= bytes && done + length == (i + 1) * chunk
  {
    ChunkBounds(i, Posted(bytes, chunk), bytes, chunk);
  }

  lemma RunStep(wrs: seq<WorkRequest>, i: nat, memory: seq<byte>, peer: seq<byte>)
    requires Links(wrs) && i < |wrs| && Inside(wrs, |memory|, |peer|)
    ensures var wr := wrs[i];
            && wr.remote + wr.length <= |peer| && wr.local + wr.length <= |memory|
            && (wr.next == NULL || i < wr.next < |wrs|)
            && var rest := Run(wrs, wr.next, Copy(memory, wr.local, peer, wr.remote, wr.remote + wr.length), peer);
               Run(wrs, i, memory, peer) == (rest.0, if wr.signaled then [i] + rest.1 else rest.1)
  {
  }

  lemma RunEnds(wrs: seq<WorkRequest>, memory: seq<byte>, peer: seq<byte>)
    requires Links(wrs) && Inside(wrs, |memory|, |peer|)
    ensures Run(wrs, NULL, memory, peer) == (memory, [])
  {
  }

  /** The chain from request i on copies what is left, and signals once, at its end. */
  lemma {:induction false} RestIsCopied(i: nat, done: nat, local: nat, remote: nat, offset: nat, bytes: nat, chunk: nat,
                                        memory: seq<byte>, peer: seq<byte>)
    requires chunk > 0 && LengthsFit(bytes, chunk) && Fits(local, remote, offset, bytes, memory, peer)
    requires i < Posted(bytes, chunk) && done == i * chunk <= bytes
    requires var c := Chain(local, remote, offset, bytes, chunk);
             Links(c) && Inside(c, |memory|, |peer|)
    ensures Run(Chain(local, remote, offset, bytes, chunk), i, memory, peer)
         == (Copy(memory, local + offset + done, peer, remote + offset + done, remote + offset + bytes),
             [Posted(bytes, chunk) - 1])
    decreases Posted(bytes, chunk) - i
  {
    hide Chain, Chunks, Posted, ChunkLength, LengthsFit, Copy, Inside, Links, Run;
    var c, n := Chain(local, remote, offset, bytes, chunk), Posted(bytes, chunk);
    var mid := done + ChunkLength(i, n, bytes, chunk);
    RequestIs(i, done, local, remote, offset, bytes, chunk);
    RunStep(c, i, memory, peer);
    var after := Copy(memory, local + offset + done, peer, remote + offset + done, remote + offset + mid);
    if i < n - 1 {
      RestIsCopied(i + 1, mid, local, remote, offset, bytes, chunk, after, peer);
      CopyOn(memory, peer, local + offset + done, remote + offset + done, remote + offset + mid, remote + offset + bytes);
    } else {
      RunEnds(c, after, peer);
      assert [i] + [] == [n - 1];
    }
  }

  lemma CopiedExactly(memory: seq<byte>, at: nat, peer: seq<byte>, from: nat, to: nat)
    requires from <= to <= |peer| && at + (to - from) <= |memory|
    ensures forall i | 0 <= i < |memory| ::
              Copy(memory, at, peer, from, to)[i] == if at <= i < at + (to - from) then peer[i - at + from] else memory[i]
  {
  }

  /** A read copies exactly the bytes asked for and touches no others; one completion is all there is to poll, and it
      comes when all is copied. */
  lemma ReadIsExact(local: nat, remote: nat, offset: nat, bytes: nat, chunk: nat, memory: seq<byte>, peer: seq<byte>)
    requires chunk > 0 && LengthsFit(bytes, chunk) && Fits(local, remote, offset, bytes, memory, peer)
    ensures var c := Chain(local, remote, offset, bytes, chunk);
            && c != [] && Links(c) && Inside(c, |memory|, |peer|)
            && Run(c, 0, memory, peer)
               == (Copy(memory, local + offset, peer, remote + offset, remote + offset + bytes), [|c| - 1])
            && forall i | 0 <= i < |memory| ::
                 Run(c, 0, memory, peer).0[i]
                 == if local + offset <= i < local + offset + bytes then peer[i - local + remote] else memory[i]
  {
    hide Run, Copy, Chain, Links, Inside, ChunkLength;
    CopiedExactly(memory, local + offset, peer, remote + offset, remote + offset + bytes);
    ChainRuns(local, remote, offset, bytes, chunk, memory, peer);
    RestIsCopied(0, 0, local, remote, offset, bytes, chunk, memory, peer);
  }

  /** Whatever it copies, a chain that is posted signals once, at its end, and so the read returns as complete. */
  lemma {:induction false} SignalsOnce(i: nat, local: nat, remote: nat, offset: nat, bytes: nat, chunk: nat,
                                       memory: seq<byte>, peer: seq<byte>)
    requires chunk > 0 && i < Posted(bytes, chunk)
    requires var c := Chain(local, remote, offset, bytes, chunk);
             Links(c) && Inside(c, |memory|, |peer|)
    ensures Run(Chain(local, remote, offset, bytes, chunk), i, memory, peer).1 == [Posted(bytes, chunk) - 1]
    decreases Posted(bytes, chunk) - i
  {
    hide Run, Copy, ChunkLength, Links, Inside, Posted;
    var c, n := Chain(local, remote, offset, bytes, chunk), Posted(bytes, chunk);
    RunStep(c, i, memory, peer);
    var wr := c[i];
    var after := Copy(memory, wr.local, peer, wr.remote, wr.remote + wr.length);
    if i < n - 1 {
      SignalsOnce(i + 1, local, remote, offset, bytes, chunk, after, peer);
    } else {
      RunEnds(c, after, peer);
    }
  }

  lemma {:induction false} UntouchedStays(wrs: seq<WorkRequest>, i: int, memory: seq<byte>, peer: seq<byte>, p: nat)
    requires Links(wrs) && (i == NULL || 0 <= i < |wrs|) && Inside(wrs, |memory|, |peer|)
    requires p < |memory| && forall j | 0 <= j < |wrs| :: p < wrs[j].local || wrs[j].local + wrs[j].length <= p
    ensures Run(wrs, i, memory, peer).0[p] == memory[p]
    decreases if i == NULL then 0 else |wrs| - i
  {
    if i != NULL {
      var wr := wrs[i];
      UntouchedStays(wrs, wr.next, Copy(memory, wr.local, peer, wr.remote, wr.remote + wr.length), peer, p);
    }
  }

  /** When the chunks and the read are both of 2^32 bytes or more, the length of a chunk does not fit its field, and a
      byte of the read is not copied. */
  lemma LongChunkIsCut(local: nat, remote: nat, offset: nat, bytes: nat, chunk: nat, memory: seq<byte>, peer: seq<byte>)
    returns (p: nat)
    requires chunk >= TWO_TO_THE_32 && bytes >= TWO_TO_THE_32 && Fits(local, remote, offset, bytes, memory, peer)
    ensures p < bytes && (Chunks(bytes, chunk) < 0x8000_0000 ==> Chain(local, remote, offset, bytes, chunk) != [])
    ensures var c := Chain(local, remote, offset, bytes, chunk);
            && Links(c) && Inside(c, |memory|, |peer|)
            && (c != [] ==> Run(c, 0, memory, peer).0[local + offset + p] == memory[local + offset + p])
  {
    hide Run;
    var c := Chain(local, remote, offset, bytes, chunk);
    ChainRuns(local, remote, offset, bytes, chunk, memory, peer);
    if c == [] {
      return 0;
    }
    ChunkBounds(0, |c|, bytes, chunk);
    p := c[0].length;
    forall i | 0 <= i < |c|
      ensures local + offset + p < c[i].local || c[i].local + c[i].length <= local + offset + p
    {
      if i > 0 {
        MultiplyMonotone(1, i, chunk);
      }
    }
    UntouchedStays(c, 0, memory, peer, local + offset + p);
  }

  /** From 2^31 chunks on their count does not fit an `int`, and the last byte of the read is not copied. */
  lemma LongChainIsCut(local: nat, remote: nat, offset: nat, bytes: nat, chunk: nat, memory: seq<byte>, peer: seq<byte>)
    requires chunk > 0 && Chunks(bytes, chunk) >= 0x8000_0000 && Fits(local, remote, offset, bytes, memory, peer)
    ensures bytes > 0
    ensures var c := Chain(local, remote, offset, bytes, chunk);
            && |c| < Chunks(bytes, chunk) && Links(c) && Inside(c, |memory|, |peer|)
            && (c != [] ==> Run(c, 0, memory, peer).0[local + offset + bytes - 1] == memory[local + offset + bytes - 1])
  {
    hide Run;
    var c := Chain(local, remote, offset, bytes, chunk);
    ChainRuns(local, remote, offset, bytes, chunk, memory, peer);
    forall i | 0 <= i < |c|
      ensures c[i].local + c[i].length <= local + offset + bytes - 1
    {
      ChunkBounds(i, |c|, bytes, chunk);
      LastByteIsLeft(i, |c|, bytes, chunk);
    }
    if c != [] {
      UntouchedStays(c, 0, memory, peer, local + offset + bytes - 1);
    }
  }

  /** A chain of too few chunks ends before the last byte. */
  lemma LastByteIsLeft(i: nat, n: nat, bytes: nat, chunk: nat)
    requires chunk > 0 && i < n < Chunks(bytes, chunk)
    ensures i * chunk + ChunkLength(i, n, bytes, chunk) < bytes
  {
    ChunkBounds(i, n, bytes, chunk);
    ChunkBounds(n - 1, n, bytes, chunk);
    if i < n - 1 {
      MultiplyMonotone(i + 1, n - 1, chunk);
    }
  }

  lemma OneIsPosted(local: nat, remote: nat, offset: nat)
    ensures Chain(local, remote, offset, TWO_TO_THE_32 + 1, 1)
         == [WorkRequest(local + offset, 1, remote + offset, true, NULL)]
  {
    assert Chunks(TWO_TO_THE_32 + 1, 1) == TWO_TO_THE_32 + 1;
    assert ToInt32(TWO_TO_THE_32 + 1) == 1;
    assert Request(0, 1, local, remote, offset, TWO_TO_THE_32 + 1, 1)
        == WorkRequest(local + offset, 1, remote + offset, true, NULL);
  }

  /** A read of 2^32 + 1 single bytes posts one request, which copies one byte and signals that the read is complete. */
  lemma OneByteIsRead(local: nat, remote: nat, offset: nat, memory: seq<byte>, peer: seq<byte>)
    requires Fits(local, remote, offset, TWO_TO_THE_32 + 1, memory, peer)
    ensures var c := Chain(local, remote, offset, TWO_TO_THE_32 + 1, 1);
            && |c| == 1 && Links(c) && Inside(c, |memory|, |peer|)
            && Run(c, 0, memory, peer) == (Copy(memory, local + offset, peer, remote + offset, remote + offset + 1), [0])
  {
    hide Run, Copy, Chain;
    OneIsPosted(local, remote, offset);
    OneRequest(local + offset, remote + offset, memory, peer);
  }

  lemma OneRequest(local: nat, remote: nat, memory: seq<byte>, peer: seq<byte>)
    requires local < |memory| && remote < |peer|
    ensures var c := [WorkRequest(local, 1, remote, true, NULL)];
            && Links(c) && Inside(c, |memory|, |peer|)
            && Run(c, 0, memory, peer) == (Copy(memory, local, peer, remote, remote + 1), [0])
  {
    hide Run, Copy;
    var c := [WorkRequest(local, 1, remote, true, NULL)];
    RunStep(c, 0, memory, peer);
    RunEnds(c, Copy(memory, local, peer, remote, remote + 1), peer);
    assert [0] + [] == [0];
  }

  ghost predicate CopiesExactly(local: nat, remote: nat, offset: nat, bytes: nat, chunk: nat,
                                memory: seq<byte>, peer: seq<byte>)
    requires chunk > 0
  {
    var c := Chain(local, remote, offset, bytes, chunk);
    && c != [] && Links(c) && Inside(c, |memory|, |peer|) && Fits(local, remote, offset, bytes, memory, peer)
    && Run(c, 0, memory, peer).0 == Copy(memory, local + offset, peer, remote + offset, remote + offset + bytes)
  }

  /** A read is exact, whatever the memories hold, exactly when there is something to read and the count and the lengths
      of the chunks fit their fields. */
  lemma ExactWhenLengthsFit(local: nat, remote: nat, offset: nat, bytes: nat, chunk: nat)
    requires chunk > 0
    ensures (forall memory: seq<byte>, peer: seq<byte> | Fits(local, remote, offset, bytes, memory, peer) ::
               CopiesExactly(local, remote, offset, bytes, chunk, memory, peer))
            <==> 0 < Chunks(bytes, chunk) < 0x8000_0000 && (chunk < TWO_TO_THE_32 || bytes < TWO_TO_THE_32)
  {
    hide Chain, Run, Links, Inside, Chunks;
    if LengthsFit(bytes, chunk) {
      forall memory: seq<byte>, peer: seq<byte> | Fits(local, remote, offset, bytes, memory, peer)
        ensures CopiesExactly(local, remote, offset, bytes, chunk, memory, peer)
      {
        ReadIsExact(local, remote, offset, bytes, chunk, memory, peer);
      }
    } else {
      var memory: seq<byte> := seq(local + offset + bytes, _ => 0);
      var peer: seq<byte> := seq(remote + offset + bytes, _ => 1);
      assert Fits(local, remote, offset, bytes, memory, peer);
      SomethingIsLeft(local, remote, offset, bytes, chunk, memory, peer);
    }
  }

  lemma CopiedAt(memory: seq<byte>, at: nat, peer: seq<byte>, from: nat, to: nat, p: nat)
    requires from <= to <= |peer| && at + (to - from) <= |memory| && p < to - from
    ensures Copy(memory, at, peer, from, to)[at + p] == peer[from + p]
  {
  }

  lemma SomethingIsLeft(local: nat, remote: nat, offset: nat, bytes: nat, chunk: nat, memory: seq<byte>, peer: seq<byte>)
    requires chunk > 0 && !LengthsFit(bytes, chunk) && Fits(local, remote, offset, bytes, memory, peer)
    requires (forall b | b in memory :: b == 0) && (forall b | b in peer :: b == 1)
    ensures !CopiesExactly(local, remote, offset, bytes, chunk, memory, peer)
  {
    hide Chain, Run, Links, Inside, Copy;
    if Chain(local, remote, offset, bytes, chunk) != [] {
      var p := 0;
      if Chunks(bytes, chunk) >= 0x8000_0000 {
        LongChainIsCut(local, remote, offset, bytes, chunk, memory, peer);
        p := bytes - 1;
      } else {
        p := LongChunkIsCut(local, remote, offset, bytes, chunk, memory, peer);
      }
      CopiedAt(memory, local + offset, peer, remote + offset, remote + offset + bytes, p);
      assert memory[local + offset + p] in memory && peer[remote + offset + p] in peer;
    }
  }
}
