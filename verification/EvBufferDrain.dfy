/** Taking bytes off the front of an evbuffer, and reading them. */
module EvBufferDrain {
  import opened Bytes
  import opened Chains
  import opened EvBuffers

  /** ZERO_CHAIN. */
  method ZeroChain(buf: EvBuffer)
    modifies buf`first, buf`last, buf`lastWithDatap, buf`totalLen, buf`view
    ensures buf.Valid() && buf.NoGap() && buf.view.chains == [] && buf.Contents() == []
  {
    buf.first, buf.last, buf.lastWithDatap, buf.totalLen := null, null, null, 0;
    buf.view := View([], [], 0);
  }

  /** What the link 'lwdp' points at: null stands for the head of the list. */
  function Deref(buf: EvBuffer, lwdp: Chain?): Chain?
    reads buf, lwdp
  {
    if lwdp == null then buf.first else lwdp.next
  }

  /** The walk of evbuffer_drain over the chains it frees. */
  method DrainWalk(buf: EvBuffer, len: nat) returns (chain: Chain, lwdp: Chain?, remaining: nat, ghost i: nat)
    requires buf.Valid() && len < buf.totalLen
    ensures i <= buf.view.lwd < |buf.view.chains| && chain == buf.view.chains[i]
    ensures remaining < |buf.view.pieces[i]| && len == |Flatten(buf.view.pieces[..i])| + remaining
    ensures lwdp == if i == 0 || i < buf.view.lwd then buf.lastWithDatap else null
  {
    hide Flatten;
    ghost var v := buf.view;
    assert v.pieces != [] by {
      EmptyString();
    }
    FlattenToLast(v.pieces, v.lwd);
    assert v.pieces[..0] == [] && Flatten([]) == [] by {
      EmptyString();
    }
    OthersDiffer(v.chains, v.lwd);
    if v.lwd > 0 {
      OthersDiffer(v.chains, v.lwd - 1);
    }
    chain, lwdp, remaining, i := buf.first, buf.lastWithDatap, len, 0;
    while remaining >= chain.off
      invariant i <= v.lwd && chain == v.chains[i]
      invariant len == |Flatten(v.pieces[..i])| + remaining
      invariant lwdp == if i == 0 || i < v.lwd then buf.lastWithDatap else null
      decreases v.lwd - i
    {
      FlattenAround(v.pieces, i);
      if i == v.lwd {
        assert false;
      }
      var next := chain.next;
      remaining := remaining - chain.off;
      if chain == Deref(buf, lwdp) {
        lwdp := null;
      }
      if lwdp == chain {
        lwdp := null;
      }
      chain, i := next, i + 1;
    }
  }

  /** evbuffer_drain. */
  method Drain(buf: EvBuffer, len: nat) returns (r: int)
    requires buf.Valid()
    modifies buf`first, buf`last, buf`lastWithDatap, buf`totalLen, buf`view, set c: Chain | c in buf.view.chains
    ensures buf.Valid() && OldOrFresh(buf)
    ensures r == if old(buf.freezeStart) && old(buf.totalLen) > 0 then -1 else 0
    ensures r == -1 ==> buf.Contents() == old(buf.Contents())
    ensures r == 0 ==> buf.Contents() == if len >= old(buf.totalLen) then [] else old(buf.Contents())[len..]
    ensures old(buf.NoGap()) ==> buf.NoGap()
  {
    hide Stores, Linked, Distinct, Apart, Flatten, LastWithData;
    var oldLen := buf.totalLen;
    if oldLen == 0 {
      return 0;
    }
    if buf.freezeStart {
      return -1;
    }
    if len >= oldLen {
      ZeroChain(buf);
    } else {
      var chain, lwdp, remaining;
      ghost var i;
      chain, lwdp, remaining, i := DrainWalk(buf, len);
      DropFront(buf, chain, lwdp, len, remaining, i);
    }
    return 0;
  }

  /** The view of the list from chain 'i' on, less the first bytes of that chain. */
  ghost function Dropped(v: View, i: nat, remaining: nat): View
    requires i <= v.lwd && i < |v.chains| == |v.pieces| && remaining <= |v.pieces[i]|
  {
    View(v.chains[i..], v.pieces[i..][0 := v.pieces[i][remaining..]], v.lwd - i)
  }

  lemma DropFacts(v: View, i: nat, remaining: nat)
    requires v.Valid() && Linked(v.chains) && Stores(v.chains, v.pieces)
    requires i <= v.lwd && i < |v.chains| && remaining < |v.pieces[i]|
    ensures var w := Dropped(v, i, remaining);
            && w.Valid() && Linked(w.chains) && Stores(w.chains, v.pieces[i..])
            && LinkTo(w.chains, w.lwd) == (if i == v.lwd then null else LinkTo(v.chains, v.lwd))
            && LinkTo(w.chains, |w.chains|) == LinkTo(v.chains, |v.chains|)
            && |Flatten(v.pieces[..i])| + remaining <= |Flatten(v.pieces)|
            && Flatten(w.pieces) == Flatten(v.pieces)[|Flatten(v.pieces[..i])| + remaining..]
            && (NoGapBefore(v.pieces, v.lwd) ==> NoGapBefore(w.pieces, w.lwd))
    ensures v.chains[i].Valid() && v.chains[i].off == |v.pieces[i]| && v.pieces[i..][0] == v.pieces[i]
  {
    hide Flatten;
    DropPieces(v.pieces, v.lwd, i, remaining);
    DistinctSlice(v.chains, i, |v.chains|);
    LinkedSuffix(v.chains, i);
  }

  /** The end of evbuffer_drain: the list now starts at chain 'i', less its first bytes. */
  method DropFront(buf: EvBuffer, chain: Chain, lwdp: Chain?, len: nat, remaining: nat, ghost i: nat)
    requires buf.Valid() && len < buf.totalLen
    requires i <= buf.view.lwd < |buf.view.chains| && chain == buf.view.chains[i]
    requires remaining < |buf.view.pieces[i]| && len == |Flatten(buf.view.pieces[..i])| + remaining
    requires lwdp == if i == 0 || i < buf.view.lwd then buf.lastWithDatap else null
    modifies buf`first, buf`last, buf`lastWithDatap, buf`totalLen, buf`view, chain`off, chain`misalign, chain`data
    ensures buf.Valid() && buf.Contents() == old(buf.Contents())[len..]
    ensures buf.view.chains == old(buf.view.chains)[i..]
    ensures old(buf.NoGap()) ==> buf.NoGap()
  {
    hide Stores, Linked, Distinct, Apart, Flatten, LastWithData, Chain.Valid;
    ghost var v := buf.view;
    ghost var w := Dropped(v, i, remaining);
    DropFacts(v, i, remaining);
    ConsumeFrom(chain, remaining, w.chains, v.pieces[i..], 0);
    buf.first := chain;
    buf.SetEnds(buf.last, lwdp, buf.totalLen - len, w);
  }

  /** Where a position points: nowhere, or into one chain. */
  datatype Start = FromFirst | From(ptr: EvPtr)

  /** The copy loop of evbuffer_copyout_from: 'n' bytes from position 'posInChain' of chain 'i' on. */
  method CopyChains(buf: EvBuffer, start: Chain?, startPos: nat, n: nat, ghost k: nat) returns (out: seq<Byte>)
    requires buf.Valid() && n > 0
    requires k < |buf.view.chains| && start == buf.view.chains[k] && startPos <= |buf.view.pieces[k]|
    requires |Flatten(buf.view.pieces[..k])| + startPos + n <= buf.totalLen
    ensures var from := |Flatten(buf.view.pieces[..k])| + startPos; out == buf.Contents()[from..from + n]
  {
    hide Flatten, Stores, Linked, Distinct, LastWithData, Chain.Valid, EvBuffer.Valid, Chain.Read;
    buf.Length();
    buf.Ends();
    ghost var from := |Flatten(buf.view.pieces[..k])| + startPos;
    var chain, posInChain: nat, left: nat := start, startPos, n;
    ghost var i := k;
    out := [];
    buf.ChainAt(k);
    while left > 0 && left >= chain.off - posInChain
      invariant left <= n && |out| == n - left && from + |out| <= buf.totalLen && i <= |buf.view.chains|
        && chain == At(buf.view.chains, i)
      invariant from + |out| == |Flatten(buf.view.pieces[..i])| + posInChain
      invariant if chain == null then left == 0
                else chain.Valid() && chain.off == |buf.view.pieces[i]| && posInChain <= chain.off
      invariant out == buf.Contents()[from..from + |out|]
      decreases |buf.view.chains| - i
    {
      var copylen := chain.off - posInChain;
      buf.ChainAt(i);
      CopyStep(buf.view.pieces, from, out, i, posInChain, copylen);
      out := out + chain.Read(posInChain, copylen);
      left := left - copylen;
      chain, posInChain, i := chain.next, 0, i + 1;
      if chain == null {
        WholeString(buf.view.pieces);
      } else {
        buf.ChainAt(i);
      }
    }
    if left > 0 {
      buf.ChainAt(i);
      CopyStep(buf.view.pieces, from, out, i, posInChain, left);
      out := out + chain.Read(posInChain, left);
    }
  }

  /** evbuffer_copyout_from. */
  method CopyoutFrom(buf: EvBuffer, start: Start, datlen: nat) returns (r: int, out: seq<Byte>)
    requires buf.Valid() && (start.From? ==> PtrAt(buf.view, buf.totalLen, start.ptr))
    ensures var from := if start.From? then start.ptr.pos else 0;
            var n := if datlen + from > buf.totalLen then buf.totalLen - from else datlen;
            if start.From? && datlen > SSIZE_MAX - from then r == -1
            else if n == 0 then r == 0 && out == []
            else if buf.freezeStart then r == -1 && out == []
            else r == ToSsize(n) && out == buf.Contents()[from..from + n]
  {
    hide Flatten, Stores, Linked, Distinct, LastWithData, Chain.Valid;
    var chain, posInChain: nat, left: nat, from: nat := buf.first, 0, datlen, 0;
    ghost var i := 0;
    FrontOfString(buf.view.pieces);
    WholeString(buf.view.pieces);
    if start.From? {
      i := PtrIndex(buf.view, buf.totalLen, start.ptr);
      from := start.ptr.pos;
      if datlen > SSIZE_MAX - from {
        return -1, [];
      }
      chain, posInChain := start.ptr.chain, start.ptr.posInChain;
    }
    if left + from > buf.totalLen {
      left := buf.totalLen - from;
    }
    if left == 0 {
      return 0, [];
    }
    if buf.freezeStart {
      return -1, [];
    }
    out := CopyChains(buf, chain, posInChain, left, i);
    r := ToSsize(left);
  }

  /** Copying 'n' more bytes of piece 'i' extends a copied stretch of the string. */
  lemma CopyStep(p: seq<seq<Byte>>, from: nat, out: seq<Byte>, i: nat, a: nat, n: nat)
    requires i < |p| && a + n <= |p[i]| && from + |out| == |Flatten(p[..i])| + a
    requires from + |out| <= |Flatten(p)| && out == Flatten(p)[from..from + |out|]
    ensures from + |out| + n <= |Flatten(p)|
    ensures out + p[i][a..a + n] == Flatten(p)[from..from + |out| + n]
    ensures |Flatten(p[..i + 1])| == |Flatten(p[..i])| + |p[i]|
  {
    PieceSlice(p, i, a, a + n);
  }

  lemma FrontOfString(p: seq<seq<Byte>>)
    ensures p[..0] == [] && Flatten(p[..0]) == [] && (p == [] ==> Flatten(p) == [])
  {
  }

  lemma WholeString(p: seq<seq<Byte>>)
    ensures p[..|p|] == p
  {
  }

  /** evbuffer_copyout. */
  method Copyout(buf: EvBuffer, datlen: nat) returns (r: int, out: seq<Byte>)
    requires buf.Valid()
    ensures var n := if datlen > buf.totalLen then buf.totalLen else datlen;
            if n > 0 && buf.freezeStart then r == -1 && out == []
            else r == ToSsize(n) && out == buf.Contents()[..n]
  {
    r, out := CopyoutFrom(buf, FromFirst, datlen);
  }

  /** evbuffer_remove. A count beyond SSIZE_MAX turns negative, and nothing is drained. */
  method Remove(buf: EvBuffer, datlen: nat) returns (r: int, out: seq<Byte>)
    requires buf.Valid()
    modifies buf`first, buf`last, buf`lastWithDatap, buf`totalLen, buf`view, set c: Chain | c in buf.view.chains
    ensures buf.Valid() && OldOrFresh(buf)
    ensures var n := if datlen > old(buf.totalLen) then old(buf.totalLen) else datlen;
            if n > 0 && old(buf.freezeStart) then r == -1 && out == [] && buf.Contents() == old(buf.Contents())
            else if n <= SSIZE_MAX then r == ToInt(n) && out + buf.Contents() == old(buf.Contents()) && |out| == n
            else r == ToInt(ToSsize(n)) && buf.Contents() == old(buf.Contents()) && out == buf.Contents()[..n]
    ensures old(buf.NoGap()) ==> buf.NoGap()
  {
    hide Flatten, Stores, Linked, Distinct, LastWithData;
    var n;
    n, out := CopyoutFrom(buf, FromFirst, datlen);
    if n > 0 {
      var d := Drain(buf, n);
      if d < 0 {
        n := -1;
      }
    }
    r := ToInt(n);
  }
}
