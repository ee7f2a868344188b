/** evbuffer_pullup: making the front of an evbuffer contiguous. */
module EvBufferPullup {
  import opened Bytes
  import opened Chains
  import opened EvBuffers
  import opened EvBufferAdd
  import opened EvBufferDrain

  /** What pulling up needs to know of a list of which 'tmp' is not a part from chain 'j' on. */
  ghost predicate Outside(v: View, tmp: Chain, j: nat) {
    j <= |v.chains| && forall i | j <= i < |v.chains| :: v.chains[i] != tmp && v.chains[i].buffer != tmp.buffer
  }

  ghost predicate TailStores(v: View, j: nat)
    reads (set c: Chain | c in v.chains)`misalign, (set c: Chain | c in v.chains)`off,
      (set c: Chain | c in v.chains)`data
    reads set c: Chain | c in v.chains :: c.buffer
  {
    && |v.chains| == |v.pieces|
    && forall i | j <= i < |v.chains| :: v.chains[i].Valid() && v.chains[i].data == v.pieces[i]
  }

  /** Append to a chain outside the tail of the list. */
  method AppendOutside(tmp: Chain, src: seq<Byte>, ghost v: View, ghost j: nat)
    requires Outside(v, tmp, j) && TailStores(v, j) && tmp.Valid() && |src| <= tmp.Space()
    modifies tmp`off, tmp`data, tmp.buffer
    ensures TailStores(v, j) && tmp.Valid() && tmp.data == old(tmp.data) + src
    ensures tmp.off == old(tmp.off) + |src|
  {
    tmp.Append(src);
  }

  lemma TailChain(v: View, j: nat, i: nat)
    requires TailStores(v, j) && Linked(v.chains) && j <= i < |v.chains|
    ensures var c := v.chains[i];
            c.Valid() && c.data == v.pieces[i] && c.off == |v.pieces[i]| && c.next == At(v.chains, i + 1)
  {
  }

  /** Copy and free every chain that is entirely pulled into 'tmp'. */
  method PullLoop(buf: EvBuffer, tmp: Chain, start: Chain?, need: nat, lastWithData: Chain?, ghost v: View,
                  ghost j: nat)
    returns (chain: Chain?, left: nat, removedLast: bool, removedLink: bool, ghost i: nat)
    requires v.Valid() && Linked(v.chains) && Outside(v, tmp, j) && TailStores(v, j) && 0 < v.lwd
    requires tmp.Valid() && tmp.data == Flatten(v.pieces[..j]) && need <= tmp.Space()
    requires |tmp.data| + need <= |Flatten(v.pieces)|
    requires start == At(v.chains, j) && j <= v.lwd && lastWithData == At(v.chains, v.lwd)
    requires buf.lastWithDatap == LinkTo(v.chains, v.lwd)
    modifies tmp`off, tmp`data, tmp.buffer
    ensures TailStores(v, j) && tmp.Valid()
    ensures j <= i <= |v.chains| && chain == At(v.chains, i) && tmp.data == Flatten(v.pieces[..i])
    ensures |tmp.data| + left == old(|tmp.data|) + need && left <= tmp.Space()
    ensures if i < |v.chains| then left < |v.pieces[i]| else left == 0
    ensures removedLast <==> v.lwd < i
    ensures removedLink <==> j < v.lwd <= i
  {
    hide Flatten, Distinct, TailStores, Outside, Linked, Chain.Valid;
    OthersDiffer(v.chains, v.lwd);
    OthersDiffer(v.chains, v.lwd - 1);
    chain, left, removedLast, removedLink, i := start, need, false, false, j;
    if chain != null {
      TailChain(v, j, i);
    }
    while chain != null && left >= chain.off
      invariant TailStores(v, j) && tmp.Valid()
      invariant j <= i <= |v.chains| && chain == At(v.chains, i) && tmp.data == Flatten(v.pieces[..i])
      invariant |tmp.data| + left == old(|tmp.data|) + need && left <= tmp.Space()
      invariant i < |v.chains| ==> chain.off == |v.pieces[i]|
      invariant removedLast <==> v.lwd < i
      invariant removedLink <==> j < v.lwd <= i
      decreases |v.chains| - i
    {
      TailChain(v, j, i);
      FlattenAround(v.pieces, i);
      PullOne(v.pieces, i);
      var next := chain.next;
      var off := chain.off;
      if chain == lastWithData {
        removedLast := true;
      }
      if chain == buf.lastWithDatap {
        removedLink := true;
      }
      AppendOutside(tmp, chain.Read(0, off), v, j);
      left := left - off;
      chain, i := next, i + 1;
      if chain != null {
        TailChain(v, j, i);
      }
    }
    if i == |v.chains| {
      WholeString(v.pieces);
    }
  }

  lemma PullOne(p: seq<seq<Byte>>, i: nat)
    requires i < |p|
    ensures Flatten(p[..i]) + p[i][0..|p[i]|] == Flatten(p[..i + 1])
  {
    FlattenConcat(p[..i], [p[i]]);
    FlattenOne(p[i]);
    assert p[..i + 1] == p[..i] + [p[i]];
  }

  /** The list after pulling up: 'tmp', then what is left of chain 'i' and all behind it. */
  ghost function PulledView(v: View, tmp: Chain, i: nat, n: nat): View
    requires |v.chains| == |v.pieces| && i <= |v.chains|
    requires if i < |v.pieces| then n <= |v.pieces[i]| && i <= v.lwd else n == 0
  {
    View([tmp] + v.chains[i..], Pulled(v.pieces, i, n), if i == |v.chains| then 0 else v.lwd - i + 1)
  }

  /** Copy the part of chain 'i' that belongs to the front. */
  method CopyPart(tmp: Chain, chain: Chain?, left: nat, ghost v: View, ghost i: nat)
    requires v.Valid() && Outside(v, tmp, i) && TailStores(v, i)
    requires tmp.Valid() && tmp.data == Flatten(v.pieces[..i]) && left <= tmp.Space()
    requires chain == At(v.chains, i) && if i < |v.chains| then left < |v.pieces[i]| && i <= v.lwd else left == 0
    modifies tmp`off, tmp`data, tmp.buffer
    modifies (if chain == null then {} else {chain})`off, (if chain == null then {} else {chain})`misalign,
      (if chain == null then {} else {chain})`data
    ensures Stores([tmp] + v.chains[i..], Pulled(v.pieces, i, left))
    ensures chain != null ==> chain.off > 0
  {
    hide Flatten, LastWithData, Distinct;
    if chain != null {
      OthersDiffer(v.chains, i);
      tmp.Append(chain.Read(0, left));
      chain.Consume(left);
    } else {
      WholeString(v.pieces);
    }
  }

  lemma PullFacts(v: View, tmp: Chain, i: nat, n: nat) returns (w: View)
    requires v.Valid() && Linked(v.chains) && Outside(v, tmp, i) && 0 < v.lwd
    requires if i < |v.pieces| then n < |v.pieces[i]| else n == 0
    requires Flatten(v.pieces) != [] && 0 < |Flatten(v.pieces[..i])| + n
    ensures i < |v.pieces| ==> i <= v.lwd
    ensures w == PulledView(v, tmp, i, n) && w.Valid() && Linked(v.chains[i..])
    ensures Flatten(w.pieces) == Flatten(v.pieces)
      && w.pieces[0] == Flatten(v.pieces[..i]) + if i < |v.pieces| then v.pieces[i][..n] else []
    ensures NoGapBefore(v.pieces, v.lwd) ==> NoGapBefore(w.pieces, w.lwd)
    ensures forall c | c in v.chains[i..] :: c != tmp && c.buffer != tmp.buffer
    ensures i < |v.pieces| ==> |w.pieces| > 1 && w.pieces[1] != []
    ensures LinkTo(w.chains, w.lwd)
         == if v.lwd < i then null else if v.lwd == i then tmp else LinkTo(v.chains, v.lwd)
    ensures LinkTo(w.chains, |w.chains|) == if i == |v.chains| then tmp else LinkTo(v.chains, |v.chains|)
  {
    hide Flatten;
    PulledSame(v.pieces, v.lwd, i, n);
    if i == |v.pieces| {
      WholeString(v.pieces);
    }
    w := PulledView(v, tmp, i, n);
    DistinctSlice(v.chains, i, |v.chains|);
    LinkedSuffix(v.chains, i);
    var a, b := [tmp], v.chains[i..];
    forall j | 0 <= j < |b| ensures b[j] != tmp && b[j].buffer != tmp.buffer {
      assert b[j] == v.chains[i + j];
    }
    DistinctConcat(a, b);
  }

  /** The end of evbuffer_pullup: link 'tmp' before what is left, and repair the cached ends. */
  method PullFinish(buf: EvBuffer, tmp: Chain, chain: Chain?, left: nat, removedLast: bool, removedLink: bool,
                    ghost v: View, ghost i: nat, ghost j: nat)
    requires v == buf.view && v.Valid() && i <= |v.chains| && Linked(v.chains) && Outside(v, tmp, i)
      && TailStores(v, i) && 0 < v.lwd
    requires tmp.Valid() && tmp.data == Flatten(v.pieces[..i]) && left <= tmp.Space()
    requires chain == At(v.chains, i) && if i < |v.pieces| then left < |v.pieces[i]| else left == 0
    requires 0 < |tmp.data| + left && buf.first == tmp
    requires buf.last == LinkTo(v.chains, |v.chains|) && buf.lastWithDatap == LinkTo(v.chains, v.lwd)
    requires buf.totalLen == |Flatten(v.pieces)| <= SIZE_MAX && buf.totalLen > 0
    requires removedLast <==> v.lwd < i
    requires j <= v.lwd && (removedLink <==> j < v.lwd <= i) && (j == v.lwd ==> LinkTo(v.chains, v.lwd) == tmp)
    modifies buf`last, buf`lastWithDatap, buf`totalLen, buf`view, tmp, tmp.buffer, if chain == null then {} else {chain}
    ensures buf.Valid() && buf.Contents() == Flatten(v.pieces) && buf.view == PulledView(v, tmp, i, left)
    ensures buf.view.pieces != [] && |buf.view.pieces[0]| == |Flatten(v.pieces[..i])| + left
    ensures NoGapBefore(v.pieces, v.lwd) ==> buf.NoGap()
  {
    hide Stores, Linked, Distinct, Flatten, LastWithData, TailStores, Outside, Chain.Valid;
    ghost var w := PullFacts(v, tmp, i, left);
    CopyPart(tmp, chain, left, v, i);
    LinkBefore(tmp, chain, v.chains[i..]);
    var last, lwdp := buf.last, buf.lastWithDatap;
    if chain == null {
      last := tmp;
    }
    if removedLast {
      lwdp := null;
    } else if removedLink {
      lwdp := if tmp.next != null && tmp.next.off != 0 then tmp else null;
    }
    buf.SetEnds(last, lwdp, buf.totalLen, w);
  }

  lemma FirstTooShort(buf: EvBuffer, size: nat)
    requires buf.Valid() && 0 < size <= buf.totalLen
    ensures buf.view.chains != [] && buf.first == buf.view.chains[0]
    ensures var c := buf.view.chains[0]; c.Valid() && c.data == buf.view.pieces[0] && c.off == |c.data|
    ensures buf.first.off < size ==> 0 < buf.view.lwd < |buf.view.chains|
  {
    if buf.view.lwd == 0 {
      FlattenToLast(buf.view.pieces, 0);
      assert buf.view.pieces[..0] == [];
    }
  }

  lemma StartOutside(buf: EvBuffer, tmp: Chain, j: nat)
    requires buf.Valid() && 0 < buf.view.lwd < |buf.view.chains| && tmp.Valid()
    requires if j == 1 then tmp == buf.first
             else j == 0 && tmp.data == [] && forall c | c in buf.view.chains :: c != tmp && c.buffer != tmp.buffer
    ensures Outside(buf.view, tmp, j) && TailStores(buf.view, j)
    ensures tmp.data == Flatten(buf.view.pieces[..j]) && tmp.off == |tmp.data|
    ensures (if j == 1 then buf.first.next else buf.first) == At(buf.view.chains, j)
    ensures j == buf.view.lwd ==> LinkTo(buf.view.chains, buf.view.lwd) == tmp
  {
    if j == 1 {
      OthersDiffer(buf.view.chains, 0);
      FlattenOne(buf.view.pieces[0]);
      assert buf.view.pieces[..1] == [buf.view.pieces[0]];
    }
  }

  lemma LaterOutside(v: View, tmp: Chain, j: nat, i: nat)
    requires Outside(v, tmp, j) && TailStores(v, j) && j <= i <= |v.chains|
    ensures Outside(v, tmp, i) && TailStores(v, i)
  {
  }

  lemma FrontPiece(p: seq<seq<Byte>>)
    requires p != []
    ensures |p[0]| <= |Flatten(p)| && Flatten(p)[..|p[0]|] == p[0]
  {
  }

  /**
   * evbuffer_pullup, when the first chain is too short. 'tmp' is the first chain itself, with room
   * for all bytes, or a new chain.
   */
  method PullInto(buf: EvBuffer, tmp: Chain, size: nat)
    requires buf.Valid() && buf.first != null && buf.first.off < size <= buf.totalLen
    requires tmp.Valid() && tmp.off + tmp.Space() >= size
    requires tmp == buf.first
      || (tmp.data == [] && forall c | c in buf.view.chains :: c != tmp && c.buffer != tmp.buffer)
    modifies buf`first, buf`last, buf`lastWithDatap, buf`totalLen, buf`view
    modifies tmp, tmp.buffer, set c: Chain | c in buf.view.chains
    ensures buf.Valid() && buf.Contents() == old(buf.Contents())
    ensures buf.first == tmp && buf.view.pieces[0] == buf.Contents()[..size]
    ensures forall c | c in buf.view.chains :: c == tmp || c in old(buf.view.chains)
    ensures old(buf.NoGap()) ==> buf.NoGap()
  {
    hide Stores, Linked, Distinct, Flatten, LastWithData, TailStores, Outside, Chain.Valid, Pulled;
    FirstTooShort(buf, size);
    ghost var v := buf.view;
    ghost var j := if tmp == buf.first then 1 else 0;
    StartOutside(buf, tmp, j);
    var lastWithData := buf.LastWithDataChain();
    buf.Cursor();
    var start := if tmp == buf.first then buf.first.next else buf.first;
    var need := size - tmp.off;
    buf.first := tmp;
    var chain, left, removedLast, removedLink;
    ghost var i;
    chain, left, removedLast, removedLink, i := PullLoop(buf, tmp, start, need, lastWithData, v, j);
    LaterOutside(v, tmp, j, i);
    PullFinish(buf, tmp, chain, left, removedLast, removedLink, v, i, j);
    FrontPiece(buf.view.pieces);
    forall c | c in buf.view.chains ensures c == tmp || c in v.chains {
      assert buf.view.chains == [tmp] + v.chains[i..];
    }
  }

  /** evbuffer_pullup; the result is the chain whose data the returned pointer leads to. */
  method Pullup(buf: EvBuffer, size: int, mem: bool) returns (result: Chain?)
    requires buf.Valid()
    modifies buf`first, buf`last, buf`lastWithDatap, buf`totalLen, buf`view
    modifies set c: Chain | c in buf.view.chains, set c: Chain | c in buf.view.chains :: c.buffer
    ensures buf.Valid() && OldOrFresh(buf) && buf.Contents() == old(buf.Contents())
    ensures var n := if size < 0 then old(buf.totalLen) else size;
            if n == 0 || n > old(buf.totalLen) then result == null
            else if result == null then !mem || TooLarge(n)
            else result == buf.first && buf.view.chains != [] && result == buf.view.chains[0]
                 && n <= |result.data| && result.data[..n] == buf.Contents()[..n]
    ensures var n := if size < 0 then old(buf.totalLen) else size;
            if n == 0 || n > old(buf.totalLen) then buf.view == old(buf.view)
            else
              && old(buf.first != null)
              && (result == old(buf.first) <==> old(buf.first.buffer.Length - buf.first.misalign) >= n)
    ensures old(buf.NoGap()) ==> buf.NoGap()
  {
    hide Stores, Linked, Distinct, Flatten, LastWithData, TailStores, Outside, Pulled;
    var n := if size < 0 then buf.totalLen else size;
    if n == 0 || n > buf.totalLen {
      return null;
    }
    FirstTooShort(buf, n);
    FrontPiece(buf.view.pieces);
    var chain := buf.first;
    if chain.off >= n {
      assert chain.data[..n] == buf.Contents()[..n];
      return chain;
    }
    var tmp: Chain?;
    assert chain in buf.view.chains;
    if chain.buffer.Length - chain.misalign >= n {
      tmp := chain;
    } else {
      tmp := ChainNew(n, mem);
      if tmp == null {
        return null;
      }
    }
    PullInto(buf, tmp, n);
    FirstTooShort(buf, n);
    return tmp;
  }
}
