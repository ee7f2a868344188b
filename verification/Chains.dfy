/** The chunk of an evbuffer: one allocation with slack before and after its data. */
module Chains {
  import opened Bytes

  /** sizeof(struct evbuffer_chain), MIN_BUFFER_SIZE and EVBUFFER_CHAIN_MAX of a 64-bit platform. */
  const CHAIN_SIZE := 48
  const MIN_BUFFER_SIZE := 1024
  const CHAIN_MAX := SSIZE_MAX
  const MAX_TO_COPY_IN_EXPAND := 4096
  const MAX_TO_REALIGN_IN_EXPAND := 2048
  const CHAIN_MAX_AUTO_SIZE := 4096

  /** A chain of 'size' bytes would be larger than any allocation may be. */
  predicate TooLarge(size: nat) {
    size > CHAIN_MAX - CHAIN_SIZE
  }

  class Chain {
    var next: Chain?
    const buffer: array<Byte>
    var misalign: nat
    var off: nat

    constructor (capacity: nat)
      requires capacity > 0 && !TooLarge(capacity)
      ensures buffer.Length == capacity && fresh(buffer)
      ensures next == null && misalign == 0 && off == 0 && data == [] && Valid()
    {
      next := null;
      buffer := new Byte[capacity](_ => 0);
      misalign, off := 0, 0;
      data := [];
    }

    /** The bytes this chain stores. */
    ghost var data: seq<Byte>

    ghost predicate Valid()
      reads `misalign, `off, `data, buffer
    {
      && 0 < buffer.Length && !TooLarge(buffer.Length) && misalign + off <= buffer.Length
      && |data| == off
      && forall i | 0 <= i < off :: data[i] == buffer[misalign + i]
    }

    /** CHAIN_SPACE_LEN: writable bytes behind the data. */
    function Space(): nat
      requires Valid()
      reads `misalign, `off, `data, buffer
    {
      buffer.Length - misalign - off
    }

    predicate ShouldRealign(datlen: nat)
      reads `off
    {
      buffer.Length - off >= datlen && off < buffer.Length / 2 && off <= MAX_TO_REALIGN_IN_EXPAND
    }

    /** memcpy into this chain's allocation. */
    method Copy(at: nat, src: seq<Byte>)
      requires at + |src| <= buffer.Length
      modifies buffer
      ensures forall i | 0 <= i < buffer.Length ::
        buffer[i] == if at <= i < at + |src| then src[i - at] else old(buffer[i])
    {
      forall i | 0 <= i < |src| {
        buffer[at + i] := src[i];
      }
    }

    /** 'n' bytes of the data, from position 'at' on. */
    function Read(at: nat, n: nat): (s: seq<Byte>)
      requires Valid() && at + n <= off
      reads `misalign, `off, `data, buffer
      ensures s == data[at..at + n]
    {
      buffer[misalign + at..misalign + at + n]
    }

    /** Write behind the data. */
    method Append(src: seq<Byte>)
      requires Valid() && |src| <= Space()
      modifies `off, `data, buffer
      ensures Valid() && off == old(off) + |src| && data == old(data) + src
    {
      Copy(misalign + off, src);
      off, data := off + |src|, data + src;
    }

    /** Write before the data. */
    method Prepend(src: seq<Byte>)
      requires Valid() && |src| <= misalign
      modifies `off, `misalign, `data, buffer
      ensures Valid() && off == old(off) + |src| && misalign == old(misalign) - |src|
      ensures data == src + old(data)
    {
      Copy(misalign - |src|, src);
      off, misalign, data := off + |src|, misalign - |src|, src + data;
    }

    /** evbuffer_chain_align: memmove the data to the start of the allocation. */
    method Align()
      requires Valid()
      modifies `misalign, buffer
      ensures Valid() && misalign == 0
    {
      Copy(0, buffer[misalign..misalign + off]);
      misalign := 0;
    }

    /** Take the next 'n' bytes of the space, whatever was written there, into the data. */
    method Commit(n: nat)
      requires Valid() && n <= Space()
      modifies `off, `data
      ensures Valid() && off == old(off) + n
      ensures data == old(data) + old(buffer[misalign + off..misalign + off + n])
    {
      off, data := off + n, data + buffer[misalign + off..misalign + off + n];
    }

    /** Give up the first 'n' bytes of the data. */
    method Consume(n: nat)
      requires Valid() && n <= off
      modifies `off, `misalign, `data
      ensures Valid() && off == old(off) - n && misalign == old(misalign) + n
      ensures data == old(data)[n..]
    {
      misalign, off, data := misalign + n, off - n, data[n..];
    }
  }

  /** The doubling that rounds an allocation up. */
  function RoundUp(toAlloc: nat, size: nat): (r: nat)
    requires toAlloc > 0
    ensures toAlloc <= r && size <= r
    ensures r == toAlloc || r < 2 * size
    decreases size - toAlloc
  {
    if toAlloc >= size then toAlloc else RoundUp(2 * toAlloc, size)
  }

  ghost function Pow2(k: nat): nat {
    if k == 0 then 1 else 2 * Pow2(k - 1)
  }

  lemma {:induction false} RoundUpExact(toAlloc: nat, size: nat) returns (k: nat)
    requires toAlloc > 0
    ensures RoundUp(toAlloc, size) == toAlloc * Pow2(k) && (k > 0 ==> toAlloc * Pow2(k - 1) < size)
    decreases size - toAlloc
  {
    if toAlloc >= size {
      k := 0;
    } else {
      k := RoundUpExact(2 * toAlloc, size);
      Doubled(toAlloc, k);
      if k > 0 {
        Doubled(toAlloc, k - 1);
      }
      k := k + 1;
    }
  }

  lemma Doubled(a: nat, k: nat)
    ensures 2 * a * Pow2(k) == a * Pow2(k + 1)
  {
  }

  /** Below the limit a chunk with its header is the least power of two times the smallest allocation. */
  lemma CapacityExact(size: nat) returns (k: nat)
    requires size + CHAIN_SIZE < CHAIN_MAX / 2
    ensures Capacity(size) + CHAIN_SIZE == MIN_BUFFER_SIZE * Pow2(k)
    ensures size <= Capacity(size) && (k > 0 ==> MIN_BUFFER_SIZE * Pow2(k - 1) < size + CHAIN_SIZE)
  {
    k := RoundUpExact(MIN_BUFFER_SIZE, size + CHAIN_SIZE);
  }

  /** The data capacity evbuffer_chain_new gives a request for 'size' bytes. */
  function Capacity(size: nat): (r: nat)
    ensures 0 < r && size <= r
    ensures !TooLarge(size) ==> !TooLarge(r)
    ensures MIN_BUFFER_SIZE <= size + CHAIN_SIZE < CHAIN_MAX / 2 ==> r < 2 * size + CHAIN_SIZE
  {
    var need := size + CHAIN_SIZE;
    if need < CHAIN_MAX / 2 then RoundUp(MIN_BUFFER_SIZE, need) - CHAIN_SIZE else size
  }

  /**
   * evbuffer_chain_new. 'mem' says whether malloc succeeds; a request beyond
   * EVBUFFER_CHAIN_MAX fails whatever 'mem' says.
   */
  method ChainNew(size: nat, mem: bool) returns (chain: Chain?)
    ensures chain == null <==> TooLarge(size) || !mem
    ensures chain != null ==>
              && fresh(chain) && fresh(chain.buffer) && chain.Valid()
              && chain.next == null && chain.misalign == 0 && chain.off == 0 && chain.data == []
              && chain.buffer.Length == Capacity(size)
  {
    if TooLarge(size) || !mem {
      return null;
    }
    var need := size + CHAIN_SIZE;
    var toAlloc;
    if need < CHAIN_MAX / 2 {
      toAlloc := MIN_BUFFER_SIZE;
      while toAlloc < need
        invariant 0 < toAlloc && RoundUp(toAlloc, need) == RoundUp(MIN_BUFFER_SIZE, need)
      {
        toAlloc := toAlloc * 2;
      }
    } else {
      toAlloc := need;
    }
    chain := new Chain(toAlloc - CHAIN_SIZE);
  }
}
