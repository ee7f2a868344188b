/** evbuffer_expand: room for all of the bytes to come in one chain. */
module EvBufferSingle {
  import opened Bytes
  import opened Chains
  import opened EvBuffers
  import opened EvBufferAdd
  import opened EvBufferExpand
  import opened EvBufferReserve

  /** Chain 'result' is the last one with data or the one behind it, and has the room. */
  ghost predicate OffersRoom(buf: EvBuffer, result: Chain, datlen: nat)
    reads buf, (set c: Chain | c in buf.view.chains)`misalign, (set c: Chain | c in buf.view.chains)`off
    reads result`misalign, result`off
  {
    && SpaceOf(result) >= datlen
    && exists i | buf.view.lwd <= i <= buf.view.lwd + 1 && i < |buf.view.chains| :: buf.view.chains[i] == result
  }

  /**
   * The last chain with data has space, but not enough; it is neither realigned nor resized, and
   * the chain behind it has the room.
   */
  ghost predicate SettlesForNext(buf: EvBuffer, datlen: nat)
    reads buf, set c: Chain | c in buf.view.chains
  {
    var k := buf.view.lwd;
    && k + 1 < |buf.view.chains| && SpaceOf(buf.view.chains[k + 1]) >= datlen
    && var c := buf.view.chains[k];
       && 0 < SpaceOf(c) < datlen && c.off > 0 && !c.ShouldRealign(datlen)
       && (SpaceOf(c) < c.buffer.Length / 8 || c.off > MAX_TO_COPY_IN_EXPAND || datlen >= CHAIN_MAX - c.off)
  }

  lemma SettlesPath(buf: EvBuffer, datlen: nat)
    requires buf.Valid()
    ensures SettlesForNext(buf, datlen) ==>
              var k := buf.view.lwd;
              k + 1 < |buf.view.chains| && 0 < SpaceOf(buf.view.chains[k]) < datlen && buf.view.chains[k].off > 0
  {
  }

  /** Expanding has settled for the next chain, and changed nothing. */
  twostate predicate Untouched(buf: EvBuffer, datlen: nat)
    reads buf, set c: Chain | c in buf.view.chains
  {
    buf.view == old(buf.view) && SettlesForNext(buf, datlen)
  }

  /** Expanding settles for the next chain although more chains follow it. */
  ghost predicate SettlesInside(buf: EvBuffer, datlen: nat)
    reads buf, set c: Chain | c in buf.view.chains
  {
    SettlesForNext(buf, datlen) && |buf.view.chains| > buf.view.lwd + 2
  }

  /** The chain is the last one or the first one evbuffer_commit_space looks at. */
  ghost predicate Reachable(buf: EvBuffer, chain: Chain)
    reads buf, (set c: Chain | c in buf.view.chains)`misalign, (set c: Chain | c in buf.view.chains)`off
  {
    var cs := buf.view.chains;
    && buf.view.lwd < |cs|
    && (chain == cs[|cs| - 1] || (FirstIndex(buf) < |cs| && chain == cs[FirstIndex(buf)]))
  }

  /** Put a new, empty chain behind the data. */
  method InsertNew(buf: EvBuffer, datlen: nat, mem: bool) returns (result: Chain?)
    requires buf.Valid()
    modifies buf`first, buf`last, buf`lastWithDatap, buf`totalLen, buf`view, (set c: Chain | c in buf.view.chains)`next
    ensures buf.Valid() && OldOrFresh(buf) && buf.Contents() == old(buf.Contents())
    ensures result == null <==> !mem || TooLarge(datlen)
    ensures result != null ==> OffersRoom(buf, result, datlen) && Reachable(buf, result)
    ensures old(buf.NoGap()) ==> buf.NoGap()
  {
    hide Stores, Linked, Distinct, Apart, Flatten, LastWithData, Chain.Valid;
    buf.Cursor();
    ghost var v := buf.view;
    result := ChainNew(datlen, mem);
    if result == null {
      return;
    }
    InsertFilled(buf, result, []);
    InsertKeepsNoGap(v.pieces, v.lwd, v.CutIndex(), []);
    buf.ChainAt(v.CutIndex());
    assert buf.view.chains[v.CutIndex()] == result;
  }

  /** A list with a new chain in place of chain 'k' has no chain twice either. */
  lemma SwappedDiffer(cs: seq<Chain>, k: nat, tmp: Chain)
    requires Distinct(cs) && k < |cs| && forall c | c in cs :: c != tmp && c.buffer != tmp.buffer
    ensures var more := [tmp] + cs[k + 1..]; Distinct(more) && Apart(cs[..k], more) && Distinct(cs[..k] + more)
  {
    var more := [tmp] + cs[k + 1..];
    var all := cs[..k] + more;
    assert all == cs[k := tmp];
    forall i, j | 0 <= i < |all| && 0 <= j < |all| && i != j
      ensures all[i] != all[j] && all[i].buffer != all[j].buffer
    {
      assert Pick(i) && Pick(j) && cs[i] in cs && cs[j] in cs;
    }
    assert all[k..] == more;
    DistinctSlice(all, k, |all|);
    forall i, j | 0 <= i < k && 0 <= j < |more| ensures cs[..k][i] != more[j] && cs[..k][i].buffer != more[j].buffer {
      assert Pick(i) && Pick(k + j) && cs[..k][i] == all[i] && more[j] == all[k + j];
    }
  }

  lemma SwappedEnds(cs: seq<Chain>, k: nat, tmp: Chain)
    requires k < |cs|
    ensures var all := cs[..k] + ([tmp] + cs[k + 1..]);
            && all == cs[k := tmp] && LinkTo(all, k) == LinkTo(cs, k)
            && LinkTo(all, |all|) == (if k + 1 == |cs| then tmp else LinkTo(cs, |cs|))
            && forall c | c in all :: c == tmp || c in cs
  {
    var all := cs[..k] + ([tmp] + cs[k + 1..]);
    assert all == cs[k := tmp];
  }

  lemma LastIs(cs: seq<Chain>, k: nat)
    requires Distinct(cs) && k < |cs|
    ensures LinkTo(cs, |cs|) == cs[k] <==> k + 1 == |cs|
    ensures At(cs, k + 1) == At(cs[k + 1..], 0) && forall tmp :: At([tmp] + cs[k + 1..], 0) == tmp
    ensures forall c | c in cs[k + 1..] :: c in cs
  {
    OthersDiffer(cs, k);
  }

  lemma StoresSwapped(cs: seq<Chain>, ps: seq<seq<Byte>>, k: nat, tmp: Chain)
    requires Stores(cs, ps) && k < |cs| && tmp.Valid() && tmp.data == ps[k]
    ensures Stores(cs[k := tmp], ps)
  {
  }

  lemma ResizeFacts(v: View, tmp: Chain) returns (w: View)
    requires v.Valid() && Stores(v.chains, v.pieces) && Linked(v.chains) && v.lwd < |v.chains|
    requires tmp.Valid() && tmp.next == null && tmp.data == v.pieces[v.lwd]
    requires forall c | c in v.chains :: c != tmp && c.buffer != tmp.buffer
    ensures var more := [tmp] + v.chains[v.lwd + 1..];
            && w == View(v.chains[..v.lwd] + more, v.pieces, v.lwd) && w.Valid() && Stores(w.chains, w.pieces)
            && Distinct(more) && Apart(v.chains[..v.lwd], more) && Linked(v.chains[v.lwd + 1..])
  {
    hide Flatten, LastWithData, Distinct, Apart, Linked, Stores, Chain.Valid, LinkTo, At;
    var k := v.lwd;
    LinkedSuffix(v.chains, k + 1);
    SwappedDiffer(v.chains, k, tmp);
    StoresSwapped(v.chains, v.pieces, k, tmp);
    SwappedEnds(v.chains, k, tmp);
    w := View(v.chains[..k] + ([tmp] + v.chains[k + 1..]), v.pieces, k);
  }

  /** Replace the last chain with data by 'tmp', which holds the same bytes. */
  method Replace(buf: EvBuffer, chain: Chain, tmp: Chain)
    requires buf.Valid() && buf.view.lwd < |buf.view.chains| && chain == buf.view.chains[buf.view.lwd]
    requires tmp.Valid() && tmp.next == null && tmp.data == chain.data
    requires forall c | c in buf.view.chains :: c != tmp && c.buffer != tmp.buffer
    modifies buf`first, buf`last, buf`lastWithDatap, buf`totalLen, buf`view, tmp`next,
      (set c: Chain | c in buf.view.chains)`next
    ensures buf.Valid() && buf.view.pieces == old(buf.view.pieces) && buf.view.lwd == old(buf.view.lwd)
    ensures buf.view.lwd < |buf.view.chains| && buf.view.chains[buf.view.lwd] == tmp
    ensures forall c | c in buf.view.chains :: c == tmp || c in old(buf.view.chains)
  {
    hide Stores, Linked, Distinct, Apart, Flatten, LastWithData, Chain.Valid, EvBuffer.Valid, EvBuffer.Listed;
    hide LinkTo, At;
    ghost var v := buf.view;
    buf.Parts();
    buf.ChainAt(v.lwd);
    ghost var w := ResizeFacts(v, tmp);
    SwappedEnds(v.chains, v.lwd, tmp);
    LastIs(v.chains, v.lwd);
    ghost var b := v.chains[v.lwd + 1..];
    LinkBefore(tmp, chain.next, b);
    buf.Relink(buf.lastWithDatap, tmp, v.lwd, [tmp] + b, w.pieces);
    buf.SetEnds(if buf.last == chain then tmp else buf.last, buf.lastWithDatap, buf.totalLen, w);
    buf.Parts();
  }

  /** The first chain with writable space, if any, has room, or can be realigned or replaced to have it. */
  method ExpandSingle(buf: EvBuffer, datlen: nat, mem: bool) returns (result: Chain?)
    requires buf.Valid()
    modifies buf`first, buf`last, buf`lastWithDatap, buf`totalLen, buf`view
    modifies set c: Chain | c in buf.view.chains, set c: Chain | c in buf.view.chains :: c.buffer
    ensures buf.Valid() && OldOrFresh(buf) && buf.Contents() == old(buf.Contents())
    ensures result == null ==> !mem || TooLarge(datlen + MAX_TO_COPY_IN_EXPAND)
    ensures result != null ==> OffersRoom(buf, result, datlen)
    ensures old(SettlesForNext(buf, datlen)) ==> Untouched(buf, datlen) && result == buf.view.chains[buf.view.lwd + 1]
    ensures result != null && !old(SettlesInside(buf, datlen)) ==> Reachable(buf, result)
    ensures old(buf.NoGap()) ==> buf.NoGap()
  {
    hide Stores, Linked, Distinct, Apart, Flatten, LastWithData, Chain.Valid, EvBuffer.Valid, SettlesForNext;
    SettlesPath(buf, datlen);
    buf.Cursor();
    if buf.LastWithDataChain() == null {
      result := InsertNew(buf, datlen, mem);
      return;
    }
    var chain;
    ghost var f;
    chain, f := FirstWithSpace(buf);
    if chain == null {
      result := InsertNew(buf, datlen, mem);
      return;
    }
    buf.ChainAt(f);
    if chain.Space() >= datlen {
      return chain;
    }
    if chain.off == 0 {
      result := InsertNew(buf, datlen, mem);
      return;
    }
    EmptyBehind(buf, f);
    result := ExpandUsed(buf, chain, datlen, mem);
  }

  /** evbuffer_expand_singlechain, when the last chain with data has space, but not enough. */
  method ExpandUsed(buf: EvBuffer, chain: Chain, datlen: nat, mem: bool) returns (result: Chain?)
    requires buf.Valid() && buf.view.lwd < |buf.view.chains| && chain == buf.view.chains[buf.view.lwd]
    requires SpaceOf(chain) < datlen && chain.off > 0
    modifies buf`first, buf`last, buf`lastWithDatap, buf`totalLen, buf`view
    modifies set c: Chain | c in buf.view.chains, set c: Chain | c in buf.view.chains :: c.buffer
    ensures buf.Valid() && OldOrFresh(buf) && buf.Contents() == old(buf.Contents())
    ensures result == null ==> !mem || TooLarge(datlen + MAX_TO_COPY_IN_EXPAND)
    ensures result != null ==> OffersRoom(buf, result, datlen)
    ensures old(SettlesForNext(buf, datlen)) ==> Untouched(buf, datlen) && result == buf.view.chains[buf.view.lwd + 1]
    ensures result != null && !old(SettlesInside(buf, datlen)) ==> Reachable(buf, result)
    ensures old(buf.NoGap()) ==> buf.NoGap()
  {
    hide Stores, Linked, Distinct, Apart, Flatten, LastWithData, Chain.Valid, EvBuffer.Valid;
    buf.ChainAt(buf.view.lwd);
    assert chain in buf.view.chains;
    if chain.ShouldRealign(datlen) {
      Realign(buf, chain);
      return chain;
    }
    if chain.Space() < chain.buffer.Length / 8 || chain.off > MAX_TO_COPY_IN_EXPAND || datlen >= CHAIN_MAX - chain.off {
      if chain.next != null && NextSpace(buf, chain) >= datlen {
        return chain.next;
      }
      result := InsertNew(buf, datlen, mem);
      return;
    }
    var tmp := ChainNew(chain.off + datlen, mem);
    if tmp == null {
      return null;
    }
    tmp.Append(chain.Read(0, chain.off));
    assert tmp.data == chain.data;
    Replace(buf, chain, tmp);
    return tmp;
  }

  function NextSpace(buf: EvBuffer, chain: Chain): int
    requires chain.next != null
    reads chain, chain.next
  {
    SpaceOf(chain.next)
  }

  /** The vector for the whole space of a chain expanding has offered. */
  method VectorFor(buf: EvBuffer, chain: Chain, size: nat) returns (vec: Iovec, ghost i: nat)
    requires buf.Valid() && OffersRoom(buf, chain, size)
    ensures buf.view.lwd <= i <= buf.view.lwd + 1 && i < |buf.view.chains| && buf.view.chains[i] == chain
    ensures PointsAtSpace(vec, chain) && size <= vec.len == SpaceOf(chain)
    ensures forall k | 0 <= k < |buf.view.chains| && buf.view.chains[k] == chain :: k == i
  {
    hide Stores, Linked, Distinct, Apart, Flatten, LastWithData, Chain.Valid, EvBuffer.Valid;
    i :| buf.view.lwd <= i <= buf.view.lwd + 1 && i < |buf.view.chains| && buf.view.chains[i] == chain;
    buf.ChainAt(i);
    ChainsDiffer(buf, i);
    vec := Iovec(chain.buffer, chain.misalign + chain.off, chain.Space());
  }

  /** evbuffer_reserve_space for one vector. */
  method ReserveOne(buf: EvBuffer, size: int, mem: bool) returns (n: int, vec: Iovec, ghost i: nat)
    requires buf.Valid() && -SSIZE_MAX - 1 <= size <= SSIZE_MAX
    modifies buf`first, buf`last, buf`lastWithDatap, buf`totalLen, buf`view
    modifies set c: Chain | c in buf.view.chains, set c: Chain | c in buf.view.chains :: c.buffer
    ensures buf.Valid() && OldOrFresh(buf) && buf.Contents() == old(buf.Contents())
    ensures n == 1 || n == -1
    ensures buf.freezeEnd ==> n == -1 && buf.view == old(buf.view)
    ensures !buf.freezeEnd && mem && !TooLarge(AsSizeT(size) + MAX_TO_COPY_IN_EXPAND) ==> n == 1
    ensures n == 1 ==> buf.view.lwd <= i <= buf.view.lwd + 1 && i < |buf.view.chains|
                       && PointsAtSpace(vec, buf.view.chains[i]) && size <= vec.len == SpaceOf(buf.view.chains[i])
    ensures !buf.freezeEnd && old(SettlesForNext(buf, AsSizeT(size)))
      ==> n == 1 && Untouched(buf, AsSizeT(size)) && i == buf.view.lwd + 1
    ensures n == 1 && !old(SettlesInside(buf, AsSizeT(size))) ==> Reachable(buf, buf.view.chains[i])
    ensures old(buf.NoGap()) ==> buf.NoGap()
  {
    hide Stores, Linked, Distinct, Apart, Flatten, LastWithData, Chain.Valid, EvBuffer.Valid, SettlesForNext;
    hide OffersRoom;
    var none := new Byte[0];
    vec, i := Iovec(none, 0, 0), 0;
    if buf.freezeEnd {
      return -1, vec, i;
    }
    SettlesPath(buf, AsSizeT(size));
    var chain := ExpandSingle(buf, AsSizeT(size), mem);
    if chain == null {
      return -1, vec, i;
    }
    vec, i := VectorFor(buf, chain, AsSizeT(size));
    n := 1;
  }

  /**
   * The vector of a one-vector reserve is one that evbuffer_commit_space accepts exactly when its
   * chain is the last one or the first one that has space. Where expanding settled for the empty
   * chain behind a last chain with data that still has space, and more chains follow, it is not.
   */
  lemma OneVectorCommits(buf: EvBuffer, vec: Iovec, i: nat)
    requires buf.Valid() && buf.view.lwd <= i <= buf.view.lwd + 1 && i < |buf.view.chains|
    requires PointsAtSpace(vec, buf.view.chains[i]) && vec.len <= SpaceOf(buf.view.chains[i])
    ensures (OnlyLast(buf, [vec]) && vec.len <= SpaceOf(buf.last)) || Describes(buf.view.chains, FirstIndex(buf), [vec])
      <==> i + 1 == |buf.view.chains| || i == FirstIndex(buf)
  {
    hide Flatten, LastWithData, Stores, Linked, Distinct, Chain.Valid;
    OthersDiffer(buf.view.chains, i);
    buf.Ends();
  }

  lemma PartCommits(buf: EvBuffer, vec: Iovec, i: nat)
    requires buf.Valid() && buf.view.lwd <= i <= buf.view.lwd + 1 && i < |buf.view.chains|
    requires PointsAtSpace(vec, buf.view.chains[i]) && vec.len <= SpaceOf(buf.view.chains[i])
    ensures Acceptable(buf, [vec]) <==> Reachable(buf, buf.view.chains[i])
    ensures VecTotal([vec]) == vec.len
  {
    hide Flatten, LastWithData, Stores, Linked, Distinct, Chain.Valid, Describes, VecTotal;
    OneVectorCommits(buf, vec, i);
    OneTotal([vec]);
    OthersDiffer(buf.view.chains, i);
    buf.Ends();
  }

  lemma SettledUnreachable(buf: EvBuffer, datlen: nat)
    requires buf.Valid() && SettlesInside(buf, datlen)
    ensures !Reachable(buf, buf.view.chains[buf.view.lwd + 1])
  {
    ChainsDiffer(buf, buf.view.lwd + 1);
  }

  lemma ChainsDiffer(buf: EvBuffer, i: nat)
    requires buf.Valid() && i < |buf.view.chains|
    ensures forall k | 0 <= k < |buf.view.chains| && k != i :: buf.view.chains[k] != buf.view.chains[i]
  {
    OthersDiffer(buf.view.chains, i);
  }

  lemma SettledNotCommittable(buf: EvBuffer, size: nat, vec: Iovec)
    requires buf.Valid() && SettlesForNext(buf, size) && |buf.view.chains| > buf.view.lwd + 2
    requires PointsAtSpace(vec, buf.view.chains[buf.view.lwd + 1])
      && vec.len <= SpaceOf(buf.view.chains[buf.view.lwd + 1])
    ensures !OnlyLast(buf, [vec]) && !Describes(buf.view.chains, FirstIndex(buf), [vec])
  {
    hide Flatten, LastWithData, Stores, Linked, Distinct, Chain.Valid;
    OneVectorCommits(buf, vec, buf.view.lwd + 1);
    OthersDiffer(buf.view.chains, buf.view.lwd + 1);
    buf.Ends();
  }

  /**
   * Reserve and commit at once, where the reserve settles for the chain behind the last one with
   * data and more chains follow: the commit is refused, and nothing has changed.
   */
  method ReserveRefused(buf: EvBuffer, size: nat, mem: bool) returns (r: int)
    requires buf.Valid() && size <= SSIZE_MAX && !buf.freezeEnd
    requires SettlesForNext(buf, size) && |buf.view.chains| > buf.view.lwd + 2
    modifies buf`first, buf`last, buf`lastWithDatap, buf`totalLen, buf`view
    modifies set c: Chain | c in buf.view.chains, set c: Chain | c in buf.view.chains :: c.buffer
    ensures r == -1 && buf.Valid() && buf.view == old(buf.view)
  {
    hide Stores, Linked, Distinct, Apart, Flatten, LastWithData, Chain.Valid, EvBuffer.Valid, EvBuffer.Listed;
    hide SettlesForNext, Describes, FirstIndex, VecBytes, OnlyLast;
    var n, vec;
    ghost var i;
    n, vec, i := ReserveOne(buf, size, mem);
    SettledNotCommittable(buf, size, vec);
    r := CommitSpace(buf, [vec]);
  }

  /**
   * Reserve one vector and commit up to 'used' of its bytes. The commit accepts the vector exactly
   * when the reserve did not settle for a chain with more chains behind it.
   */
  method ReserveAndCommit(buf: EvBuffer, size: int, used: nat, mem: bool) returns (n: int, r: int)
    requires buf.Valid() && -SSIZE_MAX - 1 <= size <= SSIZE_MAX && buf.totalLen + used <= SIZE_MAX
    modifies buf`first, buf`last, buf`lastWithDatap, buf`totalLen, buf`view
    modifies set c: Chain | c in buf.view.chains, set c: Chain | c in buf.view.chains :: c.buffer
    ensures n == 1 || n == -1
    ensures !buf.freezeEnd && mem && !TooLarge(AsSizeT(size) + MAX_TO_COPY_IN_EXPAND) ==> n == 1
    ensures n == 1 ==> (r == 0 <==> !old(SettlesInside(buf, AsSizeT(size))))
    ensures buf.freezeEnd ==> n == -1
    ensures r != 0 ==> r == -1 && buf.Valid() && buf.Contents() == old(buf.Contents())
    ensures r == 0 ==> n == 1 && buf.Listed() && old(buf.Contents()) <= buf.Contents()
  {
    hide Stores, Linked, Distinct, Apart, Flatten, LastWithData, Chain.Valid, EvBuffer.Valid, EvBuffer.Listed;
    hide SettlesForNext, Describes, FirstIndex, VecBytes, OnlyLast;
    var vec;
    ghost var i;
    ghost var inside := SettlesInside(buf, AsSizeT(size));
    buf.Length();
    n, vec, i := ReserveOne(buf, size, mem);
    if n != 1 {
      return n, -1;
    }
    if inside {
      SettledUnreachable(buf, AsSizeT(size));
    }
    var part := vec.(len := if used < vec.len then used else vec.len);
    PartCommits(buf, part, i);
    buf.Length();
    r := CommitSpace(buf, [part]);
  }
}
