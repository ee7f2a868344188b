/**
 * Runs that begin with a new evbuffer and end where evbuffer_remove_buffer, evbuffer_commit_space
 * and a reserve of one vector do not do what is expected of them.
 */
module EvBufferGaps {
  import opened Bytes
  import opened Chains
  import opened EvBuffers
  import opened EvBufferRemove
  import opened EvBufferExpand
  import opened EvBufferReserve
  import opened EvBufferSingle

  /** What the smallest allocation holds. */
  const SMALLEST := MIN_BUFFER_SIZE - CHAIN_SIZE

  /** 'k' empty chains of the smallest size. */
  ghost predicate EmptyRow(buf: EvBuffer, k: nat)
    reads buf, (set c: Chain | c in buf.view.chains)`misalign
  {
    && |buf.view.chains| == k && buf.view.lwd == 0 && buf.Contents() == [] && AtStart(buf.view.chains)
    && forall c | c in buf.view.chains :: c.buffer.Length == SMALLEST
  }

  lemma RowFacts(buf: EvBuffer, k: nat)
    requires buf.Valid() && EmptyRow(buf, k)
    ensures |buf.view.pieces| == k && forall i | 0 <= i < k :: buf.view.pieces[i] == []
    ensures forall i | 0 <= i < k :: SpaceOf(buf.view.chains[i]) == SMALLEST
    ensures buf.totalLen == 0
  {
    buf.Ends();
    buf.Length();
    FlattenNothing(buf.view.pieces);
    forall i | 0 <= i < k ensures SpaceOf(buf.view.chains[i]) == SMALLEST {
      buf.ChainAt(i);
      assert buf.view.chains[i] in buf.view.chains;
    }
  }

  lemma {:induction false} TotalOfRow(cs: seq<Chain>)
    requires forall i | 0 <= i < |cs| :: SpaceOf(cs[i]) == SMALLEST
    ensures Total(Spaces(cs)) == SMALLEST * |cs|
  {
    if cs != [] {
      assert Spaces(cs)[1..] == Spaces(cs[1..]);
      TotalOfRow(cs[1..]);
    }
  }

  lemma {:induction false} VecTotalAtMost(vecs: seq<Iovec>, most: nat)
    requires forall i | 0 <= i < |vecs| :: vecs[i].len <= most
    ensures VecTotal(vecs) <= most * |vecs|
  {
    if vecs != [] {
      VecTotalAtMost(vecs[1..], most);
    }
  }

  lemma SmallestCapacity()
    ensures Capacity(1) == SMALLEST && !TooLarge(9 * SMALLEST)
  {
  }

  /** After the reserve the row is one chain longer, or as long as it was. */
  lemma LongerRow(cs: seq<Chain>, l: nat, buf: EvBuffer, k: nat)
    requires buf.Valid() && l == buf.view.lwd == 0 && |cs| == k > 0 && buf.Contents() == [] && AtStart(cs)
    requires forall c | c in cs :: c.buffer.Length == SMALLEST
    requires buf.view.chains == cs || OneMore(cs, l, buf.view.chains, SMALLEST * k + 1)
    ensures EmptyRow(buf, k) || EmptyRow(buf, k + 1)
  {
    if buf.view.chains != cs {
      var all := buf.view.chains;
      FlattenNothing(buf.view.pieces);
      forall i | 0 <= i < k ensures SpaceOf(cs[i]) == SMALLEST {
        assert cs[i] == all[..k][i] && cs[i] in cs;
        buf.ChainAt(i);
      }
      assert cs[0..] == cs;
      TotalOfRow(cs);
      SmallestCapacity();
      assert all == cs + [all[k]];
    }
  }

  /** The vectors offer more than one chain fewer has. */
  lemma NotShorter(buf: EvBuffer, k: nat, f: nat, vecs: seq<Iovec>)
    requires buf.Valid() && EmptyRow(buf, k) && Describes(buf.view.chains, f, vecs)
    ensures VecTotal(vecs) <= SMALLEST * |vecs| && |vecs| <= k
  {
    RowFacts(buf, k);
    VecTotalAtMost(vecs, SMALLEST);
  }

  lemma NoVecs(buf: EvBuffer)
    ensures Describes(buf.view.chains, 0, [])
  {
  }

  /** Reserve a byte more than the row of chains has. */
  method OneMoreChain(buf: EvBuffer, i: nat, n: nat) returns (vecs: seq<Iovec>)
    requires buf.Valid() && EmptyRow(buf, i) && !buf.freezeEnd && i + 1 < n && i < 8
    modifies buf`first, buf`last, buf`lastWithDatap, buf`totalLen, buf`view, set c: Chain | c in buf.view.chains
    ensures buf.Valid() && EmptyRow(buf, i + 1) && OldOrFresh(buf)
    ensures |vecs| == i + 1 && Describes(buf.view.chains, 0, vecs)
  {
    hide Flatten, LastWithData, Stores, Linked, Distinct, Chain.Valid, EvBuffer.Valid, EvBuffer.Listed, Describes;
    hide Spaces, Total, OneMore, VecTotal;
    ghost var cs := buf.view.chains;
    ghost var f;
    var r;
    SmallestCapacity();
    r, vecs, f := ReserveSpace(buf, SMALLEST * i + 1, n, true);
    if i > 0 {
      LongerRow(cs, 0, buf, i);
    }
    if |buf.view.chains| == i {
      NotShorter(buf, i, f, vecs);
      assert false;
    }
    NotShorter(buf, i + 1, f, vecs);
    RowFacts(buf, i + 1);
  }

  /** A new buffer with 'k' empty chains, and the vectors for the space of all of them. */
  method EmptyChains(k: nat) returns (buf: EvBuffer, vecs: seq<Iovec>)
    requires 1 <= k <= 8
    ensures fresh(buf) && buf.Valid() && EmptyRow(buf, k) && !buf.freezeStart && !buf.freezeEnd
    ensures forall c | c in buf.view.chains :: fresh(c) && fresh(c.buffer)
    ensures |vecs| == k && Describes(buf.view.chains, 0, vecs)
  {
    hide Flatten, LastWithData, Stores, Linked, Distinct, Chain.Valid, EvBuffer.Valid, EvBuffer.Listed, Describes;
    buf := new EvBuffer();
    buf.Cursor();
    vecs := [];
    NoVecs(buf);
    for i := 0 to k
      invariant fresh(buf) && buf.Valid() && EmptyRow(buf, i) && !buf.freezeStart && !buf.freezeEnd
      invariant forall c | c in buf.view.chains :: fresh(c) && fresh(c.buffer)
      invariant |vecs| == i && Describes(buf.view.chains, 0, vecs)
    {
      vecs := OneMoreChain(buf, i, k + 1);
    }
  }

  /** Commit 'lens[i]' bytes of each chain of a row. */
  method CommitRow(buf: EvBuffer, vecs: seq<Iovec>, lens: seq<nat>)
    requires buf.Valid() && EmptyRow(buf, |lens|) && !buf.freezeEnd && 2 <= |lens| <= 8
    requires |vecs| == |lens| && Describes(buf.view.chains, 0, vecs)
    requires forall i | 0 <= i < |lens| :: lens[i] <= SMALLEST
    modifies buf`last, buf`lastWithDatap, buf`totalLen, buf`view
    modifies (set c: Chain | c in buf.view.chains)`off, (set c: Chain | c in buf.view.chains)`data
    ensures buf.Valid() && buf.view.chains == old(buf.view.chains)
    ensures |buf.view.pieces| == |lens| && forall i | 0 <= i < |lens| :: |buf.view.pieces[i]| == lens[i]
  {
    hide Flatten, LastWithData, Stores, Linked, Distinct, Chain.Valid, EvBuffer.Valid, EvBuffer.Listed;
    RowFacts(buf, |lens|);
    var part := seq(|lens|, i requires 0 <= i < |lens| => Iovec(vecs[i].base, vecs[i].pos, lens[i]));
    VecTotalAtMost(part, SMALLEST);
    var r := CommitSpace(buf, part);
  }

  lemma OneLink(buf: EvBuffer, k: nat)
    requires buf.Valid() && LastWithData(buf.view.pieces, k)
    ensures buf.view.lwd == k
  {
    LastWithDataUnique(buf.view.pieces, buf.view.lwd, k);
  }

  /** Moving two of the three bytes of [1, 0, 1, 1] leaves the link of the target wrong. */
  method MovedGap() returns (src: EvBuffer, dst: EvBuffer)
    ensures src.Listed() && dst.Listed() && !(src.Valid() && dst.Valid())
  {
    hide Flatten, LastWithData, Stores, Linked, Distinct, Chain.Valid, EvBuffer.Valid, EvBuffer.Listed, Describes;
    hide LinksFollow;
    var vecs;
    src, vecs := EmptyChains(4);
    CommitRow(src, vecs, [1, 0, 1, 1]);
    dst := new EvBuffer();
    GapThatMoves(src.view.pieces);
    OneLink(src, 3);
    src.Length();
    dst.Length();
    var _ := SplitFront(src, dst, 2);
  }

  /** Moving one of the two bytes of [0, 2] leaves the link of the source wrong. */
  method StayedGap() returns (src: EvBuffer, dst: EvBuffer)
    ensures src.Listed() && dst.Listed() && !(src.Valid() && dst.Valid())
  {
    hide Flatten, LastWithData, Stores, Linked, Distinct, Chain.Valid, EvBuffer.Valid, EvBuffer.Listed, Describes;
    hide LinksFollow;
    var vecs;
    src, vecs := EmptyChains(2);
    CommitRow(src, vecs, [0, 2]);
    dst := new EvBuffer();
    GapThatStays(src.view.pieces);
    OneLink(src, 1);
    src.Length();
    dst.Length();
    var _ := SplitFront(src, dst, 1);
  }

  /** A byte committed through one vector into the third of three empty chains leaves the link wrong. */
  method LostThird() returns (buf: EvBuffer)
    ensures buf.Listed() && |buf.Contents()| == 1 && !buf.Valid()
  {
    hide Flatten, LastWithData, Stores, Linked, Distinct, Chain.Valid, EvBuffer.Valid, EvBuffer.Listed;
    var vecs;
    buf, vecs := EmptyChains(3);
    RowFacts(buf, 3);
    buf.Ends();
    var last := vecs[2].(len := 1);
    OneTotal([last]);
    OneVec([last]);
    var r := CommitSpace(buf, [last]);
  }

  lemma NearlyFull(buf: EvBuffer)
    requires buf.Valid() && |buf.view.chains| == 3 && AtStart(buf.view.chains)
    requires forall c | c in buf.view.chains :: c.buffer.Length == SMALLEST
    requires var p := buf.view.pieces; |p| == 3 && |p[0]| == SMALLEST - 6 && p[1] == p[2] == []
    ensures SettlesInside(buf, 7) && buf.totalLen == SMALLEST - 6
  {
    hide Flatten, LastWithData, Stores, Linked, Distinct, Chain.Valid, EvBuffer.Valid, EvBuffer.Listed;
    var p := buf.view.pieces;
    LastIsFirst(p);
    OneLink(buf, 0);
    buf.Length();
    buf.ChainAt(0);
    buf.ChainAt(1);
    assert buf.view.chains[0] in buf.view.chains && buf.view.chains[1] in buf.view.chains;
  }

  lemma LastIsFirst(p: seq<seq<Byte>>)
    requires p != [] && forall i | 1 <= i < |p| :: p[i] == []
    ensures LastWithData(p, 0) && Flatten(p) == p[0]
  {
    FlattenAllEmpty(p[1..]);
  }

  /** A reserve of one vector that settles for the second of three chains, whose commit is refused. */
  method RefusedVector() returns (n: int, r: int)
    ensures n == 1 && r == -1
  {
    hide Flatten, LastWithData, Stores, Linked, Distinct, Chain.Valid, EvBuffer.Valid, EvBuffer.Listed, Describes;
    var buf, vecs := EmptyChains(3);
    CommitRow(buf, vecs, [SMALLEST - 6, 0, 0]);
    NearlyFull(buf);
    n, r := ReserveAndCommit(buf, 7, 7, true);
  }
}
