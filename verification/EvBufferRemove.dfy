/** evbuffer_remove_buffer: moving the front of one evbuffer to the end of another. */
module EvBufferRemove {
  import opened Bytes
  import opened Chains
  import opened EvBuffers
  import opened EvBufferAdd
  import opened EvBufferDrain
  import opened EvBufferMove

  /** advance_last_with_data on the list 'cs', whose pieces are 'ps', from piece 'j' on. */
  method AdvanceLastWithData(buf: EvBuffer, ghost cs: seq<Chain>, ghost ps: seq<seq<Byte>>, ghost j: nat)
    returns (n: nat)
    requires Linked(cs) && Stores(cs, ps) && j < |cs|
    requires buf.first == At(cs, 0) && buf.lastWithDatap == LinkTo(cs, j)
    modifies buf`lastWithDatap
    ensures buf.lastWithDatap == LinkTo(cs, Advance(ps, j)) && n == Advance(ps, j) - j
  {
    var lwdp, chain := buf.lastWithDatap, buf.LastWithDataChain();
    ghost var i := j;
    n := 0;
    while chain.next != null && chain.next.off != 0
      invariant j <= i < |cs| && n == i - j && chain == cs[i] && lwdp == LinkTo(cs, i)
      invariant Advance(ps, i) == Advance(ps, j)
      decreases |cs| - i
    {
      lwdp := chain;
      chain, n, i := chain.next, n + 1, i + 1;
    }
    buf.lastWithDatap := lwdp;
  }

  /** The walk over the chains that move as a whole. */
  method RemoveWalk(src: EvBuffer, datlen: nat)
    returns (chain: Chain, previous: Chain, lwdp: Chain?, nread: nat, left: nat, ghost i: nat)
    requires src.Valid() && datlen < src.totalLen
    ensures i <= src.view.lwd < |src.view.chains| && chain == src.view.chains[i]
    ensures left < |src.view.pieces[i]| && nread == |Flatten(src.view.pieces[..i])| && datlen == nread + left
    ensures lwdp == if i == 0 || i < src.view.lwd then src.lastWithDatap else null
    ensures previous == src.view.chains[if i > 0 then i - 1 else 0]
  {
    hide Flatten;
    ghost var v := src.view;
    FrontOfString(v.pieces);
    FlattenToLast(v.pieces, v.lwd);
    if v.lwd > 0 {
      OthersDiffer(v.chains, v.lwd - 1);
    }
    chain, previous, lwdp, nread, left, i := src.first, src.first, src.lastWithDatap, 0, datlen, 0;
    while chain.off <= left
      invariant i <= v.lwd && chain == v.chains[i] && previous == v.chains[if i > 0 then i - 1 else 0]
      invariant nread == |Flatten(v.pieces[..i])| && datlen == nread + left
      invariant lwdp == if i == 0 || i < v.lwd then src.lastWithDatap else null
      decreases v.lwd - i
    {
      FlattenAround(v.pieces, i);
      if i == v.lwd {
        assert false;
      }
      nread, left, previous := nread + chain.off, left - chain.off, chain;
      if lwdp == chain {
        lwdp := null;
      }
      chain, i := chain.next, i + 1;
    }
  }

  /** previous->next = NULL, where 'previous' ends the first 'i' chains. */
  method Detach(previous: Chain, ghost cs: seq<Chain>, ghost i: nat)
    requires Linked(cs) && Distinct(cs) && 0 < i <= |cs| && previous == cs[i - 1]
    modifies previous`next
    ensures Linked(cs[..i])
  {
    OthersDiffer(cs, i - 1);
    previous.next := null;
    ghost var t := cs[..i];
    forall j {:trigger t[j].next} | 0 <= j < |t| ensures t[j].next == At(t, j + 1) {
      assert t[j] == cs[j];
    }
  }

  /** The view once the chains 'cs' stand behind the data and advance_last_with_data has run. */
  ghost function Taken(v: View, cs: seq<Chain>, ps: seq<seq<Byte>>): View
    requires v.Valid() && |cs| == |ps| > 0
  {
    var k := v.CutIndex();
    View(v.chains[..k] + cs, v.pieces[..k] + ps, Advance(v.pieces[..k] + ps, v.lwd))
  }

  lemma TakeFacts(v: View, cs: seq<Chain>, ps: seq<seq<Byte>>) returns (w: View)
    requires v.Valid() && Stores(v.chains, v.pieces)
    requires Stores(cs, ps) && Distinct(cs) && Apart(v.chains, cs) && Flatten(ps) != []
    ensures v.CutIndex() <= |v.chains| && |ps| == |cs| > 0 && w == Taken(v, cs, ps)
    ensures Distinct(w.chains) && Stores(w.chains, w.pieces) && Apart(v.chains[..v.CutIndex()], cs)
    ensures Flatten(w.pieces) == Flatten(v.pieces) + Flatten(ps)
    ensures v.lwd < |w.chains| && LinkTo(w.chains, v.lwd) == LinkTo(v.chains, v.lwd)
    ensures LinkTo(w.chains, |w.chains|) == cs[|cs| - 1]
  {
    hide Linked, Distinct, Apart, Flatten, Chain.Valid, Advance;
    var k := v.CutIndex();
    EmptyString();
    if v.pieces != [] {
      CutKeepsContents(v.pieces, v.lwd, k);
    }
    FlattenConcat(v.pieces[..k], ps);
    w := Taken(v, cs, ps);
    ApartSlice(v.chains, cs, 0, k);
    DistinctSlice(v.chains, 0, k);
    DistinctConcat(v.chains[..k], cs);
    StoresSlice(v.chains, v.pieces, 0, k);
    StoresConcat(v.chains[..k], v.pieces[..k], cs, ps);
  }

  /** When the link is right again: no empty chain stands before a moved one with data. */
  lemma TakenLink(v: View, cs: seq<Chain>, ps: seq<seq<Byte>>)
    requires v.Valid() && |cs| == |ps| && Flatten(ps) != []
    ensures |ps| > 0
    ensures var w := Taken(v, cs, ps);
            && (LastWithData(w.pieces, w.lwd) <==> Gapless(ps, if Flatten(v.pieces) != [] then 0 else 1))
            && (NoGapBefore(v.pieces, v.lwd) && NoGapBefore(ps, |ps|) ==> NoGapBefore(w.pieces, w.lwd))
  {
    EmptyString();
    hide Flatten, Advance, Gapless;
    AdvanceBehind(v.pieces, v.lwd, v.CutIndex(), ps);
    if Flatten(v.pieces) != [] {
      LastHasData(v.pieces, v.lwd);
    } else {
      NoData(v.pieces);
    }
  }

  lemma NoData(p: seq<seq<Byte>>)
    requires Flatten(p) == []
    ensures AllEmpty(p)
  {
    FlattenNothing(p);
  }

  /**
   * Put the chains 'cs', which hold data, behind the data of 'dst'. The bytes are all there; the
   * link is right exactly when 'cs' has no empty chain in front of its last one with data.
   */
  method TakeOver(dst: EvBuffer, head: Chain, tail: Chain, nread: nat, ghost cs: seq<Chain>, ghost ps: seq<seq<Byte>>)
    requires dst.Valid() && Linked(cs) && Stores(cs, ps) && Distinct(cs) && Apart(dst.view.chains, cs)
    requires cs != [] && head == cs[0] && tail == cs[|cs| - 1]
    requires nread == |Flatten(ps)| > 0 && dst.totalLen + nread <= SIZE_MAX
    modifies dst`first, dst`last, dst`lastWithDatap, dst`totalLen, dst`view, (set c: Chain | c in dst.view.chains)`next
    ensures dst.Listed() && dst.Contents() == old(dst.Contents()) + Flatten(ps)
    ensures dst.Valid() <==> Gapless(ps, if old(dst.totalLen) > 0 then 0 else 1)
    ensures dst.view.chains == old(dst.view.chains)[..old(dst.view.CutIndex())] + cs
    ensures old(dst.NoGap()) && NoGapBefore(ps, |ps|) ==> dst.NoGap()
  {
    hide Stores, Linked, Distinct, Apart, Flatten, LastWithData, Advance, Gapless, NoGapBefore, AllEmpty;
    ghost var v := dst.view;
    ghost var w := TakeFacts(v, cs, ps);
    TakenLink(v, cs, ps);
    var chp := dst.FreeTrailingEmptyChains();
    dst.Relink(chp, head, v.CutIndex(), cs, w.pieces);
    var _ := AdvanceLastWithData(dst, w.chains, w.pieces, v.lwd);
    dst.SetEnds(tail, dst.lastWithDatap, dst.totalLen + nread, w);
  }

  /** How many chains evbuffer_remove_buffer moves as a whole for 'n' bytes. */
  ghost function WholePieces(p: seq<seq<Byte>>, n: nat): (i: nat)
    ensures i <= |p|
  {
    if p == [] || |p[0]| > n then 0 else 1 + WholePieces(p[1..], n - |p[0]|)
  }

  /** The bytes that stand in these chains. */
  ghost function WholeBytes(p: seq<seq<Byte>>, n: nat): (r: nat)
    ensures r <= n && r <= |Flatten(p)|
  {
    WholePiecesFit(p, n);
    FlattenMonotone(p, WholePieces(p, n), |p|);
    |Flatten(p[..WholePieces(p, n)])|
  }

  lemma {:induction false} WholePiecesFit(p: seq<seq<Byte>>, n: nat)
    ensures |Flatten(p[..WholePieces(p, n)])| <= n
  {
    if p != [] && |p[0]| <= n {
      assert p[..WholePieces(p, n)][1..] == p[1..][..WholePieces(p[1..], n - |p[0]|)];
      WholePiecesFit(p[1..], n - |p[0]|);
    }
  }

  lemma {:induction false} WholePiecesAt(p: seq<seq<Byte>>, i: nat, left: nat)
    requires i < |p| && left < |p[i]|
    ensures WholePieces(p, |Flatten(p[..i])| + left) == i
  {
    if i > 0 {
      assert p[..i][1..] == p[1..][..i - 1];
      WholePiecesAt(p[1..], i - 1, left);
    }
  }

  /** The first piece that is not taken as a whole has bytes to spare. */
  lemma {:induction false} WholePiecesEnd(p: seq<seq<Byte>>, n: nat)
    requires n < |Flatten(p)|
    ensures var i := WholePieces(p, n); i < |p| && p[i] != []
  {
    if p != [] && |p[0]| <= n {
      WholePiecesEnd(p[1..], n - |p[0]|);
    }
  }

  /**
   * When evbuffer_remove_buffer leaves both links right, for a source with the chains 'p' that gives
   * up 'n' bytes and keeps some; 'behind' says whether the target holds data. Where the chains
   * that could move hold no bytes they stay, but the link is reset when it was the last one's;
   * otherwise no empty chain may stand before a moved one with data.
   */
  ghost predicate LinksFollow(p: seq<seq<Byte>>, lwd: nat, n: nat, behind: bool) {
    var i := WholePieces(p, n);
    if Flatten(p[..i]) == [] then i == 0 || i < lwd else Gapless(p[..i], if behind then 0 else 1)
  }

  /** A source without gaps is one. */
  lemma {:induction false} NoGapFollows(p: seq<seq<Byte>>, lwd: nat, n: nat, behind: bool)
    requires LastWithData(p, lwd) && NoGapBefore(p, lwd) && n < |Flatten(p)|
    ensures LinksFollow(p, lwd, n, behind)
  {
    WholePiecesEnd(p, n);
    WholePrefix(p, lwd, WholePieces(p, n));
  }

  /** A source with gaps may be one as well. */
  lemma GapThatFollows()
    ensures var p: seq<seq<Byte>> := [[1], [], [2]];
            LastWithData(p, 2) && !NoGapBefore(p, 2) && LinksFollow(p, 2, 1, false)
  {
    var p: seq<seq<Byte>> := [[1], [], [2]];
    assert WholePieces(p, 1) == 2 by {
      assert p[1..][0] == [] && p[1..][1..] == [[2]];
    }
    assert Flatten(p[..2]) != [];
  }

  /** Moving two bytes out of such a source leaves the target's link before an empty chain, with data behind. */
  lemma GapThatMoves(p: seq<seq<Byte>>)
    requires |p| == 4 && p[1] == [] && |p[0]| == |p[2]| == |p[3]| == 1
    ensures LastWithData(p, 3) && |Flatten(p)| == 3 && forall behind :: !LinksFollow(p, 3, 2, behind)
  {
    hide Flatten, WholePieces;
    FlattenAround(p, 0);
    FlattenAround(p, 1);
    FlattenAround(p, 2);
    FlattenAround(p, 3);
    EmptyString();
    assert p[..0] == [] && p[..4] == p;
    WholePiecesAt(p, 3, 0);
    assert p[..3][1] == [] && p[..3][2] != [];
  }

  /** Taking one byte from such a source resets its own link although its first chain stays. */
  lemma GapThatStays(p: seq<seq<Byte>>)
    requires |p| == 2 && p[0] == [] && |p[1]| == 2
    ensures LastWithData(p, 1) && |Flatten(p)| == 2 && forall behind :: !LinksFollow(p, 1, 1, behind)
  {
    assert p[1..] == [p[1]];
    FlattenOne(p[1]);
    assert WholePieces(p, 1) == 1;
    assert p[..1] == [[]] && Flatten(p[..1]) == [];
  }

  lemma SplitFacts(cs: seq<Chain>, ps: seq<seq<Byte>>, other: seq<Chain>, i: nat)
    requires Stores(cs, ps) && Distinct(cs) && Apart(other, cs) && i <= |cs|
    ensures Stores(cs[..i], ps[..i]) && Distinct(cs[..i]) && Apart(other, cs[..i]) && Apart(other, cs[i..])
    ensures Apart(cs[..i], cs[i..])
  {
    StoresSlice(cs, ps, 0, i);
    DistinctSlice(cs, 0, i);
    var a, b := cs[..i], cs[i..];
    forall m, n | 0 <= m < |other| && 0 <= n < |a| ensures other[m] != a[n] && other[m].buffer != a[n].buffer {
      assert Pick(m) && Pick(n);
    }
    forall m, n | 0 <= m < |other| && 0 <= n < |b| ensures other[m] != b[n] && other[m].buffer != b[n].buffer {
      assert Pick(m) && Pick(n + i);
    }
    forall m, n | 0 <= m < |a| && 0 <= n < |b| ensures a[m] != b[n] && a[m].buffer != b[n].buffer {
      assert Pick(m) && Pick(n + i);
    }
  }

  /** Give up the first 'i' chains of 'src', and the first bytes of the next one. */
  method SplitOff(src: EvBuffer, dst: EvBuffer, chain: Chain, previous: Chain, lwdp: Chain?, datlen: nat, left: nat,
                  ghost i: nat)
    requires src.Valid() && dst.Valid() && src != dst && Apart(dst.view.chains, src.view.chains)
    requires 0 < i <= src.view.lwd < |src.view.chains| && chain == src.view.chains[i]
      && previous == src.view.chains[i - 1]
    requires left < |src.view.pieces[i]| && datlen == |Flatten(src.view.pieces[..i])| + left < src.totalLen
    requires lwdp == if i < src.view.lwd then src.lastWithDatap else null
    modifies src`first, src`last, src`lastWithDatap, src`totalLen, src`view, set c: Chain | c in src.view.chains
    ensures src.Valid() && src.Contents() == old(src.Contents())[datlen..]
    ensures src.view.chains == old(src.view.chains)[i..]
    ensures old(src.NoGap()) ==> src.NoGap()
    ensures dst.Valid() && Linked(old(src.view.chains)[..i])
      && Stores(old(src.view.chains)[..i], old(src.view.pieces)[..i])
    ensures Distinct(old(src.view.chains)[..i]) && Apart(dst.view.chains, old(src.view.chains)[..i])
    ensures Apart(dst.view.chains, src.view.chains) && Apart(old(src.view.chains)[..i], src.view.chains)
  {
    hide Stores, Linked, Distinct, Apart, Flatten, LastWithData, Chain.Valid, EvBuffer.Listed, EvBuffer.Valid;
    ghost var v := src.view;
    src.Parts();
    SplitFacts(v.chains, v.pieces, dst.view.chains, i);
    NotAmong(dst.view.chains, v.chains, i);
    NotAmong(dst.view.chains, v.chains, i - 1);
    NotAmong(v.chains[..i], v.chains[i..], 0);
    OthersDiffer(v.chains, i - 1);
    assert v.chains[i..][0] == chain && chain in v.chains && previous in v.chains;
    DropFront(src, chain, lwdp, datlen, left, i);
    Detach(previous, v.chains, i);
  }

  /** Without gaps, moving any chain as a whole moves some bytes. */
  lemma WholePrefix(p: seq<seq<Byte>>, lwd: nat, i: nat)
    requires NoGapBefore(p, lwd) && i <= lwd
    ensures Flatten(p[..i]) == [] <==> i == 0
  {
    if i > 0 {
      assert p[..i][0] == p[0];
    }
  }

  lemma PrefixNoGap(p: seq<seq<Byte>>, lwd: nat, i: nat)
    requires i <= lwd && i <= |p|
    ensures NoGapBefore(p, lwd) ==> NoGapBefore(p[..i], |p[..i]|)
  {
  }

  /** Move the chains that move as a whole, and with them some bytes. 'src' loses its first 'datlen' bytes. */
  method MoveWhole(src: EvBuffer, dst: EvBuffer, chain: Chain, previous: Chain, lwdp: Chain?, datlen: nat,
                   nread: nat, left: nat, ghost i: nat)
    requires src.Valid() && dst.Valid() && src != dst && Apart(dst.view.chains, src.view.chains)
    requires dst.totalLen + src.totalLen <= SIZE_MAX && nread > 0
    requires 0 < i <= src.view.lwd < |src.view.chains| && chain == src.view.chains[i]
      && previous == src.view.chains[i - 1]
    requires left < |src.view.pieces[i]| && nread == |Flatten(src.view.pieces[..i])|
      && datlen == nread + left < src.totalLen
    requires lwdp == if i < src.view.lwd then src.lastWithDatap else null
    modifies src`first, src`last, src`lastWithDatap, src`totalLen, src`view, set c: Chain | c in src.view.chains
    modifies dst`first, dst`last, dst`lastWithDatap, dst`totalLen, dst`view, (set c: Chain | c in dst.view.chains)`next
    ensures src.Valid() && src.Contents() == old(src.Contents())[datlen..]
    ensures dst.Listed() && dst.Contents() == old(dst.Contents()) + old(src.Contents())[..nread]
    ensures dst.Valid() <==> Gapless(old(src.view.pieces)[..i], if old(dst.totalLen) > 0 then 0 else 1)
    ensures dst.totalLen == old(dst.totalLen) + nread
    ensures old(src.NoGap()) ==> src.NoGap()
    ensures old(src.NoGap()) && old(dst.NoGap()) ==> dst.NoGap()
    ensures Apart(dst.view.chains, src.view.chains)
    ensures forall c | c in dst.view.chains :: c in old(dst.view.chains) || c in old(src.view.chains)
    ensures forall c | c in src.view.chains :: c in old(src.view.chains)
  {
    hide Stores, Linked, Distinct, Apart, Flatten, LastWithData, Chain.Valid, EvBuffer.Listed, EvBuffer.Valid;
    hide Gapless, NoGapBefore;
    ghost var v := src.view;
    var head := src.first;
    src.Ends();
    src.Length();
    FlattenMonotone(v.pieces, i, |v.pieces|);
    PrefixNoGap(v.pieces, v.lwd, i);
    assert v.chains[..i][0] == v.chains[0] && v.chains[..i][i - 1] == previous;
    SplitOff(src, dst, chain, previous, lwdp, datlen, left, i);
    TakeOverBeside(src, dst, head, previous, nread, v.chains[..i], v.pieces[..i]);
  }

  /** TakeOver leaves the buffer the chains came from alone. */
  method TakeOverBeside(src: EvBuffer, dst: EvBuffer, head: Chain, tail: Chain, nread: nat,
                        ghost cs: seq<Chain>, ghost ps: seq<seq<Byte>>)
    requires src.Valid() && src != dst && Apart(dst.view.chains, src.view.chains) && Apart(cs, src.view.chains)
    requires dst.Valid() && Linked(cs) && Stores(cs, ps) && Distinct(cs) && Apart(dst.view.chains, cs)
    requires cs != [] && head == cs[0] && tail == cs[|cs| - 1]
    requires nread == |Flatten(ps)| > 0 && dst.totalLen + nread <= SIZE_MAX
    modifies dst`first, dst`last, dst`lastWithDatap, dst`totalLen, dst`view, (set c: Chain | c in dst.view.chains)`next
    ensures src.Valid() && dst.Listed() && Apart(dst.view.chains, src.view.chains)
    ensures dst.Valid() <==> Gapless(ps, if old(dst.totalLen) > 0 then 0 else 1)
    ensures dst.Contents() == old(dst.Contents()) + Flatten(ps) && dst.totalLen == old(dst.totalLen) + nread
    ensures forall c | c in dst.view.chains :: c in old(dst.view.chains) || c in cs
    ensures old(dst.NoGap()) && NoGapBefore(ps, |ps|) ==> dst.NoGap()
  {
    hide Stores, Linked, Distinct, Apart, Flatten, LastWithData, Chain.Valid, NoGapBefore, Gapless;
    dst.Cursor();
    ApartUnion(dst.view.chains, cs, src.view.chains, dst.view.CutIndex());
    NotInMoved(src.view.chains, dst.view.chains);
    TakeOver(dst, head, tail, nread, cs, ps);
  }

  lemma ApartUnion(a: seq<Chain>, b: seq<Chain>, d: seq<Chain>, k: nat)
    requires Apart(a, d) && Apart(b, d)
    ensures k <= |a| ==> Apart(a[..k] + b, d)
  {
    if k <= |a| {
      var cs := a[..k] + b;
      forall m, n | 0 <= m < |cs| && 0 <= n < |d| ensures cs[m] != d[n] && cs[m].buffer != d[n].buffer {
        assert Pick(m) && Pick(m - k) && Pick(n);
      }
    }
  }

  lemma NotInMoved(a: seq<Chain>, b: seq<Chain>)
    requires Apart(b, a)
    ensures forall c | c in a :: c !in b
  {
    forall c | c in a ensures c !in b {
      if c in b {
        var m :| 0 <= m < |b| && b[m] == c;
        var n :| 0 <= n < |a| && a[n] == c;
        assert Pick(m) && Pick(n);
      }
    }
  }

  /**
   * evbuffer_remove_buffer, for the sources it is right for: SplitFront shows that the links are
   * right before the last bytes are added exactly for those. The result of the evbuffer_add that
   * moves the last bytes is ignored, so those bytes are lost when it cannot allocate.
   */
  method RemoveBuffer(src: EvBuffer, dst: EvBuffer, datlen: nat, mem: bool) returns (r: int)
    requires src.Valid() && dst.Valid()
    requires src != dst ==> Apart(dst.view.chains, src.view.chains) && dst.totalLen + src.totalLen <= SIZE_MAX
    requires src != dst && 0 < datlen < src.totalLen && !dst.freezeEnd && !src.freezeStart
      ==> LinksFollow(src.view.pieces, src.view.lwd, datlen, dst.totalLen > 0)
    modifies src`first, src`last, src`lastWithDatap, src`totalLen, src`view, set c: Chain | c in src.view.chains
    modifies dst, set c: Chain | c in dst.view.chains
    modifies set c: Chain | c in src.view.chains :: c.buffer, set c: Chain | c in dst.view.chains :: c.buffer
    ensures dst.freezeStart == old(dst.freezeStart) && dst.freezeEnd == old(dst.freezeEnd)
    ensures src.Valid() && dst.Valid()
    ensures src != dst ==> Apart(dst.view.chains, src.view.chains)
    ensures var n := if datlen < old(src.totalLen) then datlen else old(src.totalLen);
            if datlen == 0 || src == dst then
              r == 0 && src.Contents() == old(src.Contents()) && dst.Contents() == old(dst.Contents())
            else if old(dst.freezeEnd) || old(src.freezeStart) then
              r == -1 && src.Contents() == old(src.Contents()) && dst.Contents() == old(dst.Contents())
            else
              r == ToInt(n) && src.Contents() == old(src.Contents())[n..]
              && (dst.Contents() == old(dst.Contents()) + old(src.Contents())[..n]
                  || (!mem && n < old(src.totalLen)
                      && dst.Contents() == old(dst.Contents())
                        + old(src.Contents())[..WholeBytes(old(src.view.pieces), n)]))
    ensures old(src.NoGap()) && old(dst.NoGap()) ==> src.NoGap() && dst.NoGap()
  {
    hide Stores, Linked, Distinct, Apart, Flatten, LastWithData, Chain.Valid;
    if datlen == 0 || dst == src {
      return 0;
    }
    if dst.freezeEnd || src.freezeStart {
      return -1;
    }
    if datlen >= src.totalLen {
      var n := src.totalLen;
      var _ := AddBuffer(dst, src);
      return ToInt(n);
    }
    r := RemovePart(src, dst, datlen, mem);
  }

  lemma TailBytes(p: seq<seq<Byte>>, i: nat, left: nat)
    requires i < |p| && left < |p[i]|
    ensures var n := |Flatten(p[..i])|;
            n + left <= |Flatten(p)| && Flatten(p)[..n + left] == Flatten(p)[..n] + p[i][0..left]
  {
    PieceSlice(p, i, 0, left);
  }

  /**
   * Take 'datlen' bytes off 'src', which keeps some: whole chains go to 'dst', and the bytes that
   * remain to be copied are returned. No byte is lost or moved out of order whatever the chains
   * are; both links are right exactly when LinksFollow says so.
   */
  method SplitFront(src: EvBuffer, dst: EvBuffer, datlen: nat) returns (bytes: seq<Byte>)
    requires src.Valid() && dst.Valid() && src != dst && Apart(dst.view.chains, src.view.chains)
    requires dst.totalLen + src.totalLen <= SIZE_MAX && 0 < datlen < src.totalLen
    modifies src`first, src`last, src`lastWithDatap, src`totalLen, src`view, set c: Chain | c in src.view.chains
    modifies dst`first, dst`last, dst`lastWithDatap, dst`totalLen, dst`view, (set c: Chain | c in dst.view.chains)`next
    ensures src.Listed() && dst.Listed() && Apart(dst.view.chains, src.view.chains)
    ensures src.Valid() && dst.Valid()
      <==> LinksFollow(old(src.view.pieces), old(src.view.lwd), datlen, old(dst.totalLen) > 0)
    ensures src.Contents() == old(src.Contents())[datlen..]
    ensures var whole := WholeBytes(old(src.view.pieces), datlen);
            && whole <= old(src.totalLen)
            && dst.Contents() == old(dst.Contents()) + old(src.Contents())[..whole]
            && dst.totalLen == old(dst.totalLen) + whole && whole + |bytes| == datlen
            && old(src.Contents())[..datlen] == old(src.Contents())[..whole] + bytes
    ensures !TooLarge(|bytes|)
    ensures forall c | c in dst.view.chains :: c in old(dst.view.chains) || c in old(src.view.chains)
    ensures old(src.NoGap()) ==> src.NoGap()
    ensures old(src.NoGap()) && old(dst.NoGap()) ==> dst.NoGap()
  {
    hide Stores, Linked, Distinct, Apart, Flatten, LastWithData, Chain.Valid, EvBuffer.Listed, WholePieces, Gapless,
      NoGapBefore;
    ghost var v := src.view;
    var chain, previous, lwdp, nread, left;
    ghost var i;
    src.Length();
    src.Ends();
    chain, previous, lwdp, nread, left, i := RemoveWalk(src, datlen);
    WholePiecesAt(v.pieces, i, left);
    src.ChainAt(i);
    bytes := chain.Read(0, left);
    TailBytes(v.pieces, i, left);
    if nread > 0 {
      FrontOfString(v.pieces);
      MoveWhole(src, dst, chain, previous, lwdp, datlen, nread, left, i);
    } else {
      SplitNone(src, dst, chain, lwdp, datlen, left, i);
    }
  }

  /** evbuffer_remove_buffer, when the source keeps some data. */
  method RemovePart(src: EvBuffer, dst: EvBuffer, datlen: nat, mem: bool) returns (r: int)
    requires src.Valid() && dst.Valid() && src != dst && Apart(dst.view.chains, src.view.chains)
    requires dst.totalLen + src.totalLen <= SIZE_MAX && 0 < datlen < src.totalLen && !dst.freezeEnd
    requires LinksFollow(src.view.pieces, src.view.lwd, datlen, dst.totalLen > 0)
    modifies src`first, src`last, src`lastWithDatap, src`totalLen, src`view, set c: Chain | c in src.view.chains
    modifies dst, set c: Chain | c in dst.view.chains
    modifies set c: Chain | c in src.view.chains :: c.buffer, set c: Chain | c in dst.view.chains :: c.buffer
    ensures dst.freezeStart == old(dst.freezeStart) && dst.freezeEnd == old(dst.freezeEnd)
    ensures src.Valid() && dst.Valid() && Apart(dst.view.chains, src.view.chains)
    ensures r == ToInt(datlen) && src.Contents() == old(src.Contents())[datlen..]
    ensures dst.Contents() == old(dst.Contents()) + old(src.Contents())[..datlen]
      || (!mem && dst.Contents() == old(dst.Contents())
          + old(src.Contents())[..WholeBytes(old(src.view.pieces), datlen)])
    ensures old(src.NoGap()) ==> src.NoGap()
    ensures old(src.NoGap()) && old(dst.NoGap()) ==> dst.NoGap()
  {
    hide Stores, Linked, Distinct, Apart, Flatten, LastWithData, Chain.Valid, EvBuffer.Valid, EvBuffer.Listed;
    hide WholeBytes, ToInt, NoGapBefore, LinksFollow;
    ghost var a, b := src.view.chains, dst.view.chains;
    ghost var s, d := src.Contents(), dst.Contents();
    src.Length();
    var bytes := SplitFront(src, dst, datlen);
    forall c | c in dst.view.chains
      ensures c.buffer in (set d: Chain | d in a :: d.buffer) || c.buffer in (set d: Chain | d in b :: d.buffer)
    {
      assert c in a || c in b;
    }
    var _ := AddTail(src, dst, bytes, mem);
    ghost var whole := WholeBytes(old(src.view.pieces), datlen);
    Assoc(d, s[..whole], bytes);
    return ToInt(datlen);
  }

  /** The list with the first 'n' bytes of piece 'i' gone, before which there are none. */
  lemma KeepFacts(p: seq<seq<Byte>>, lwd: nat, i: nat, n: nat)
    requires LastWithData(p, lwd) && i <= lwd && i < |p| && n < |p[i]| && Flatten(p[..i]) == []
    ensures n < |Flatten(p)| && Flatten(p[i := p[i][n..]]) == Flatten(p)[n..]
    ensures LastWithData(p[i := p[i][n..]], if i == 0 || i < lwd then lwd else 0) <==> i == 0 || i < lwd
    ensures NoGapBefore(p, lwd) ==> i == 0 && NoGapBefore(p[i := p[i][n..]], lwd)
  {
    hide Flatten;
    FlattenAround(p, i);
    FlattenUpdate(p, i, p[i][n..]);
    NoData(p[..i]);
    if i > 0 {
      assert p[..i][0] == p[0];
    }
  }

  /** No byte moves with a whole chain: all chains stay, and 'src' only loses its first 'datlen' bytes. */
  method SplitNone(src: EvBuffer, dst: EvBuffer, chain: Chain, lwdp: Chain?, datlen: nat, left: nat, ghost i: nat)
    requires src.Valid() && dst.Valid() && src != dst && Apart(dst.view.chains, src.view.chains)
    requires i <= src.view.lwd < |src.view.chains| && chain == src.view.chains[i]
    requires lwdp == if i == 0 || i < src.view.lwd then src.lastWithDatap else null
    requires left < |src.view.pieces[i]| && datlen == left < src.totalLen && Flatten(src.view.pieces[..i]) == []
    modifies src`first, src`last, src`lastWithDatap, src`totalLen, src`view, chain`off, chain`misalign, chain`data
    ensures src.Listed() && src.Contents() == old(src.Contents())[datlen..]
    ensures src.Valid() <==> i == 0 || i < old(src.view.lwd)
    ensures src.view.chains == old(src.view.chains)
    ensures old(src.NoGap()) ==> src.NoGap()
    ensures dst.Valid()
  {
    hide Stores, Linked, Distinct, Apart, Flatten, LastWithData, Chain.Valid, NoGapBefore;
    ghost var v := src.view;
    NotAmong(dst.view.chains, v.chains, i);
    KeepFacts(v.pieces, v.lwd, i, left);
    src.ChainAt(i);
    ConsumeFrom(chain, left, v.chains, v.pieces, i);
    src.SetEnds(src.last, lwdp, src.totalLen - datlen,
                View(v.chains, v.pieces[i := v.pieces[i][left..]], if i == 0 || i < v.lwd then v.lwd else 0));
  }

  /** evbuffer_add to a buffer that shares no chain with 'src', which stays as it is. */
  method AddTail(src: EvBuffer, dst: EvBuffer, bytes: seq<Byte>, mem: bool) returns (r: int)
    requires src.Valid() && dst.Valid() && src != dst && Apart(dst.view.chains, src.view.chains)
    modifies dst, set c: Chain | c in dst.view.chains, set c: Chain | c in dst.view.chains :: c.buffer
    ensures src.Valid() && dst.Valid() && Apart(dst.view.chains, src.view.chains)
    ensures r == 0 || r == -1
    ensures dst.Contents() == if r == 0 then old(dst.Contents()) + bytes else old(dst.Contents())
    ensures old(dst.freezeEnd) || |bytes| > SIZE_MAX - old(dst.totalLen) ==> r == -1
    ensures !old(dst.freezeEnd) && |bytes| <= SIZE_MAX - old(dst.totalLen) && mem && !TooLarge(|bytes|) ==> r == 0
    ensures OldOrFresh(dst) && dst.freezeStart == old(dst.freezeStart) && dst.freezeEnd == old(dst.freezeEnd)
    ensures old(dst.NoGap()) ==> dst.NoGap()
  {
    hide Stores, Linked, Distinct, Flatten, LastWithData, Chain.Valid;
    ghost var a, b := dst.view.chains, src.view.chains;
    NotShared(a, b);
    r := Add(dst, bytes, mem);
    forall m, n | 0 <= m < |dst.view.chains| && 0 <= n < |b|
      ensures dst.view.chains[m] != b[n] && dst.view.chains[m].buffer != b[n].buffer
    {
      assert dst.view.chains[m] in dst.view.chains && b[n] in b;
    }
  }

  lemma NotShared(a: seq<Chain>, b: seq<Chain>)
    requires Apart(a, b)
    ensures forall c, d | c in a && d in b :: c != d && c.buffer != d.buffer
  {
    forall c, d | c in a && d in b ensures c != d && c.buffer != d.buffer {
      var m :| 0 <= m < |a| && a[m] == c;
      var n :| 0 <= n < |b| && b[n] == d;
      assert Pick(m) && Pick(n);
    }
  }
}
