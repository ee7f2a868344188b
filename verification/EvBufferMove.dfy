/** Moving whole chains between two evbuffers. */
module EvBufferMove {
  import opened Bytes
  import opened Chains
  import opened EvBuffers
  import opened EvBufferAdd
  import opened EvBufferDrain

  /** COPY_CHAIN: 'dst' takes over the list of 'src'. */
  method CopyChain(dst: EvBuffer, src: EvBuffer)
    requires src.Valid() && src != dst
    modifies dst`first, dst`last, dst`lastWithDatap, dst`totalLen, dst`view
    ensures dst.Valid() && dst.view == src.view
  {
    dst.first := src.first;
    dst.SetEnds(src.last, src.lastWithDatap, src.totalLen, src.view);
  }

  /** APPEND_CHAIN: the list of 'src' goes behind the data of 'dst'. */
  method AppendChain(dst: EvBuffer, src: EvBuffer)
    requires dst.Valid() && src.Valid() && src != dst && Apart(dst.view.chains, src.view.chains)
    requires 0 < dst.totalLen && 0 < src.totalLen && dst.totalLen + src.totalLen <= SIZE_MAX
    modifies dst`first, dst`last, dst`lastWithDatap, dst`totalLen, dst`view, (set c: Chain | c in dst.view.chains)`next
    ensures dst.Valid() && dst.Contents() == old(dst.Contents()) + old(src.Contents())
    ensures dst.view.chains == old(dst.view.chains)[..old(dst.view.lwd) + 1] + old(src.view.chains)
    ensures old(dst.NoGap()) && old(src.NoGap()) ==> dst.NoGap()
  {
    hide Stores, Linked, Distinct, Apart, Flatten, LastWithData;
    ghost var v := dst.view;
    ghost var w := AppendFacts(v, src.view);
    var chp := dst.FreeTrailingEmptyChains();
    dst.Relink(chp, src.first, v.lwd + 1, src.view.chains, w.pieces);
    dst.SetEnds(src.last, if src.lastWithDatap == null then chp else src.lastWithDatap, dst.totalLen + src.totalLen, w);
  }

  lemma AppendFacts(v: View, u: View) returns (w: View)
    requires v.Valid() && u.Valid() && Stores(v.chains, v.pieces) && Stores(u.chains, u.pieces)
    requires Flatten(v.pieces) != [] && Flatten(u.pieces) != [] && Apart(v.chains, u.chains)
    ensures v.CutIndex() == v.lwd + 1 <= |v.chains|
    ensures w == View(v.chains[..v.lwd + 1] + u.chains, v.pieces[..v.lwd + 1] + u.pieces, v.lwd + 1 + u.lwd)
    ensures w.Valid() && Stores(w.chains, w.pieces)
    ensures Apart(v.chains[..v.lwd + 1], u.chains)
    ensures Flatten(w.pieces) == Flatten(v.pieces) + Flatten(u.pieces)
    ensures LinkTo(w.chains, w.lwd) == if u.lwd == 0 then v.chains[v.lwd] else LinkTo(u.chains, u.lwd)
    ensures LinkTo(w.chains, |w.chains|) == LinkTo(u.chains, |u.chains|)
    ensures NoGapBefore(v.pieces, v.lwd) && NoGapBefore(u.pieces, u.lwd) ==> NoGapBefore(w.pieces, w.lwd)
  {
    hide Stores, Linked, Distinct, Apart, Flatten, LastWithData;
    var k := v.lwd + 1;
    JoinPieces(v.pieces, v.lwd, u.pieces, u.lwd);
    w := View(v.chains[..k] + u.chains, v.pieces[..k] + u.pieces, k + u.lwd);
    ApartSlice(v.chains, u.chains, 0, k);
    DistinctSlice(v.chains, 0, k);
    DistinctConcat(v.chains[..k], u.chains);
    StoresSlice(v.chains, v.pieces, 0, k);
    StoresConcat(v.chains[..k], v.pieces[..k], u.chains, u.pieces);
  }

  /** evbuffer_add_buffer. Both buffers' bytes lie in one address space, so their sum fits a size_t. */
  method AddBuffer(outbuf: EvBuffer, inbuf: EvBuffer) returns (r: int)
    requires outbuf.Valid() && inbuf.Valid()
    requires outbuf != inbuf ==> Apart(outbuf.view.chains, inbuf.view.chains)
    requires outbuf != inbuf ==> outbuf.totalLen + inbuf.totalLen <= SIZE_MAX
    modifies outbuf`first, outbuf`last, outbuf`lastWithDatap, outbuf`totalLen, outbuf`view,
      (set c: Chain | c in outbuf.view.chains)`next
    modifies inbuf`first, inbuf`last, inbuf`lastWithDatap, inbuf`totalLen, inbuf`view
    ensures outbuf.Valid() && inbuf.Valid()
    ensures r == if old(inbuf.totalLen) > 0 && outbuf != inbuf && (outbuf.freezeEnd || inbuf.freezeStart) then -1 else 0
    ensures r == -1 || outbuf == inbuf || old(inbuf.totalLen) == 0
      ==> outbuf.Contents() == old(outbuf.Contents()) && inbuf.Contents() == old(inbuf.Contents())
    ensures r == 0 && outbuf != inbuf
      ==> outbuf.Contents() == old(outbuf.Contents()) + old(inbuf.Contents()) && inbuf.Contents() == []
    ensures outbuf != inbuf ==> Apart(outbuf.view.chains, inbuf.view.chains)
    ensures forall c | c in outbuf.view.chains :: c in old(outbuf.view.chains) || c in old(inbuf.view.chains)
    ensures old(outbuf.NoGap()) && old(inbuf.NoGap()) ==> outbuf.NoGap() && inbuf.NoGap()
  {
    hide Stores, Linked, Distinct, Apart, Flatten, LastWithData;
    if inbuf.totalLen == 0 || outbuf == inbuf {
      return 0;
    }
    if outbuf.freezeEnd || inbuf.freezeStart {
      return -1;
    }
    if outbuf.totalLen == 0 {
      CopyChain(outbuf, inbuf);
    } else {
      AppendChain(outbuf, inbuf);
    }
    ZeroChain(inbuf);
    ApartNothing(outbuf.view.chains);
    return 0;
  }

  lemma LinkedConcat(a: seq<Chain>, b: seq<Chain>)
    requires Linked(b) && a != []
    requires forall i {:trigger a[i].next} | 0 <= i < |a| - 1 :: a[i].next == a[i + 1]
    requires a[|a| - 1].next == At(b, 0)
    ensures Linked(a + b)
  {
    var cs := a + b;
    forall i {:trigger cs[i].next} | 0 <= i < |cs| ensures cs[i].next == At(cs, i + 1) {
      if |a| <= i {
        assert cs[i] == b[i - |a|];
      }
    }
  }

  /** last->next = head, where 'last' ends the list 'a' and 'head' starts the list 'b'. */
  method LinkLast(last: Chain, head: Chain?, ghost a: seq<Chain>, ghost b: seq<Chain>)
    requires Linked(a) && Linked(b) && Distinct(a) && Apart(a, b)
    requires a != [] && last == a[|a| - 1] && head == At(b, 0)
    modifies last`next
    ensures Linked(a + b)
  {
    OthersDiffer(a, |a| - 1);
    ApartDiffer(a, b, |a| - 1);
    last.next := head;
    LinkedConcat(a, b);
  }

  lemma PrependFacts(v: View, u: View) returns (w: View)
    requires v.Valid() && u.Valid() && Stores(v.chains, v.pieces) && Stores(u.chains, u.pieces)
    requires Flatten(v.pieces) != [] && Flatten(u.pieces) != [] && Apart(u.chains, v.chains)
    ensures w == View(u.chains + v.chains, u.pieces + v.pieces, |u.chains| + v.lwd)
    ensures u.chains != [] && v.chains != [] && w.Valid() && Stores(w.chains, w.pieces)
    ensures Flatten(w.pieces) == Flatten(u.pieces) + Flatten(v.pieces)
    ensures LinkTo(w.chains, w.lwd) == if v.lwd == 0 then u.chains[|u.chains| - 1] else LinkTo(v.chains, v.lwd)
    ensures LinkTo(w.chains, |w.chains|) == LinkTo(v.chains, |v.chains|)
    ensures NoGapBefore(w.pieces, w.lwd) <==> NoGapBefore(u.pieces, |u.pieces|) && NoGapBefore(v.pieces, v.lwd)
  {
    hide Stores, Linked, Distinct, Apart, Flatten, LastWithData;
    LastHasData(u.pieces, u.lwd);
    LastHasData(v.pieces, v.lwd);
    StackPieces(u.pieces, v.pieces, v.lwd);
    w := View(u.chains + v.chains, u.pieces + v.pieces, |u.chains| + v.lwd);
    DistinctConcat(u.chains, v.chains);
    StoresConcat(u.chains, u.pieces, v.chains, v.pieces);
  }

  /** PREPEND_CHAIN: the list of 'src' goes before the list of 'dst'. */
  method PrependChain(dst: EvBuffer, src: EvBuffer)
    requires dst.Valid() && src.Valid() && src != dst && Apart(src.view.chains, dst.view.chains)
    requires 0 < dst.totalLen && 0 < src.totalLen && dst.totalLen + src.totalLen <= SIZE_MAX
    modifies dst`first, dst`last, dst`lastWithDatap, dst`totalLen, dst`view, (set c: Chain | c in src.view.chains)`next
    ensures dst.Valid() && dst.Contents() == old(src.Contents()) + old(dst.Contents())
    ensures dst.view.chains == old(src.view.chains) + old(dst.view.chains)
    ensures dst.NoGap() <==> old(NoGapBefore(src.view.pieces, |src.view.pieces|)) && old(dst.NoGap())
  {
    hide Stores, Linked, Distinct, Apart, Flatten, LastWithData;
    ghost var w := PrependFacts(dst.view, src.view);
    LinkLast(src.last, dst.first, src.view.chains, dst.view.chains);
    dst.first := src.first;
    var lwdp := dst.lastWithDatap;
    if lwdp == null {
      lwdp := src.last;
    }
    dst.SetEnds(dst.last, lwdp, dst.totalLen + src.totalLen, w);
  }

  /** evbuffer_prepend_buffer. */
  method PrependBuffer(outbuf: EvBuffer, inbuf: EvBuffer) returns (r: int)
    requires outbuf.Valid() && inbuf.Valid()
    requires outbuf != inbuf ==> Apart(inbuf.view.chains, outbuf.view.chains)
    requires outbuf != inbuf ==> outbuf.totalLen + inbuf.totalLen <= SIZE_MAX
    modifies outbuf`first, outbuf`last, outbuf`lastWithDatap, outbuf`totalLen, outbuf`view,
      (set c: Chain | c in inbuf.view.chains)`next
    modifies inbuf`first, inbuf`last, inbuf`lastWithDatap, inbuf`totalLen, inbuf`view
    ensures outbuf.Valid() && inbuf.Valid()
    ensures r == if old(inbuf.totalLen) > 0 && outbuf != inbuf && (outbuf.freezeStart || inbuf.freezeStart)
                    then -1 else 0
    ensures r == -1 || outbuf == inbuf || old(inbuf.totalLen) == 0
      ==> outbuf.view == old(outbuf.view) && inbuf.view == old(inbuf.view)
    ensures r == 0 && outbuf != inbuf && old(inbuf.totalLen) > 0
      ==> outbuf.Contents() == old(inbuf.Contents()) + old(outbuf.Contents()) && inbuf.Contents() == []
    ensures r == 0 && outbuf != inbuf && old(inbuf.totalLen) > 0
      ==> inbuf.view.chains == [] && forall c | c in outbuf.view.chains ::
        c in old(outbuf.view.chains) || c in old(inbuf.view.chains)
    ensures r == 0 && outbuf != inbuf && old(inbuf.totalLen) > 0 && old(outbuf.totalLen) == 0
      ==> outbuf.view == old(inbuf.view)
    ensures r == 0 && outbuf != inbuf && old(inbuf.totalLen) > 0 && old(outbuf.totalLen) > 0
      ==> (outbuf.NoGap() <==> old(NoGapBefore(inbuf.view.pieces, |inbuf.view.pieces|)) && old(outbuf.NoGap()))
  {
    hide Stores, Linked, Distinct, Apart, Flatten, LastWithData;
    if inbuf.totalLen == 0 || inbuf == outbuf {
      return 0;
    }
    if outbuf.freezeStart || inbuf.freezeStart {
      return -1;
    }
    if outbuf.totalLen == 0 {
      CopyChain(outbuf, inbuf);
      assert outbuf.Contents() == old(inbuf.Contents()) + old(outbuf.Contents());
    } else {
      PrependChain(outbuf, inbuf);
    }
    ZeroChain(inbuf);
    return 0;
  }
}
