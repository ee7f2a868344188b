/**
 * The evbuffer: a byte queue kept as a linked list of chains, with a cached length, a cached
 * last chain and a cached link to the last chain that holds data.
 */
module EvBuffers {
  import opened Bytes
  import opened Chains

  ghost function At(cs: seq<Chain>, i: nat): Chain? {
    if i < |cs| then cs[i] else null
  }

  /** The link that points at chain 'i': null stands for the head of the list. */
  ghost function LinkTo(cs: seq<Chain>, i: nat): Chain?
    requires i <= |cs|
  {
    if i == 0 then null else cs[i - 1]
  }

  /** Names a position for the quantifiers over pairs below, which are used one position at a time. */
  ghost predicate Pick(i: int) {
    true
  }

  /** No chain and no allocation occurs twice. */
  ghost predicate Distinct(cs: seq<Chain>) {
    forall i, j {:trigger Pick(i), Pick(j)} | 0 <= i < |cs| && 0 <= j < |cs| && i != j && Pick(i) && Pick(j) ::
      cs[i] != cs[j] && cs[i].buffer != cs[j].buffer
  }

  /** The two lists share no chain and no allocation. */
  ghost predicate Apart(a: seq<Chain>, b: seq<Chain>) {
    forall i, j {:trigger Pick(i), Pick(j)} | 0 <= i < |a| && 0 <= j < |b| && Pick(i) && Pick(j) ::
      a[i] != b[j] && a[i].buffer != b[j].buffer
  }

  /** Chain 'k' differs from every other chain of the list. */
  lemma OthersDiffer(cs: seq<Chain>, k: nat)
    requires Distinct(cs) && k < |cs|
    ensures forall i | 0 <= i < |cs| && i != k :: cs[i] != cs[k] && cs[i].buffer != cs[k].buffer
  {
    assert Pick(k);
    forall i | 0 <= i < |cs| && i != k ensures cs[i] != cs[k] && cs[i].buffer != cs[k].buffer {
      assert Pick(i);
    }
  }

  lemma ApartDiffer(a: seq<Chain>, b: seq<Chain>, k: nat)
    requires Apart(a, b) && k < |a|
    ensures forall j | 0 <= j < |b| :: a[k] != b[j] && a[k].buffer != b[j].buffer
  {
    assert Pick(k);
    forall j | 0 <= j < |b| ensures a[k] != b[j] && a[k].buffer != b[j].buffer {
      assert Pick(j);
    }
  }

  /** No chain of 'a' is chain 'k' of 'b'. */
  lemma NotAmong(a: seq<Chain>, b: seq<Chain>, k: nat)
    requires Apart(a, b) && k < |b|
    ensures forall c | c in a :: c != b[k] && c.buffer != b[k].buffer
  {
    assert Pick(k);
    forall i | 0 <= i < |a| ensures a[i] != b[k] && a[i].buffer != b[k].buffer {
      assert Pick(i);
    }
  }

  lemma DistinctSlice(cs: seq<Chain>, i: nat, j: nat)
    requires Distinct(cs) && i <= j <= |cs|
    ensures Distinct(cs[i..j])
  {
    var t := cs[i..j];
    forall m, n | 0 <= m < |t| && 0 <= n < |t| && m != n ensures t[m] != t[n] && t[m].buffer != t[n].buffer {
      assert Pick(i + m) && Pick(i + n);
    }
  }

  lemma ApartSlice(a: seq<Chain>, b: seq<Chain>, i: nat, j: nat)
    requires Apart(a, b) && i <= j <= |a|
    ensures Apart(a[i..j], b)
  {
    var t := a[i..j];
    forall m, n | 0 <= m < |t| && 0 <= n < |b| ensures t[m] != b[n] && t[m].buffer != b[n].buffer {
      assert Pick(i + m) && Pick(n);
    }
  }

  lemma ApartNothing(cs: seq<Chain>)
    ensures Apart(cs, [])
  {
  }

  lemma DistinctConcat(a: seq<Chain>, b: seq<Chain>)
    requires Distinct(a) && Distinct(b) && Apart(a, b)
    ensures Distinct(a + b)
  {
    var cs := a + b;
    forall m, n | 0 <= m < |cs| && 0 <= n < |cs| && m != n ensures cs[m] != cs[n] && cs[m].buffer != cs[n].buffer {
      assert Pick(m) && Pick(n) && Pick(m - |a|) && Pick(n - |a|);
    }
  }

  /** 'cs' is a linked list, front to back. */
  ghost predicate Linked(cs: seq<Chain>)
    reads (set c: Chain | c in cs)`next
  {
    forall i {:trigger cs[i].next} | 0 <= i < |cs| :: cs[i].next == At(cs, i + 1)
  }

  lemma LinkedSuffix(cs: seq<Chain>, i: nat)
    requires Linked(cs) && i <= |cs|
    ensures Linked(cs[i..])
  {
    var t := cs[i..];
    forall j {:trigger t[j].next} | 0 <= j < |t| ensures t[j].next == At(t, j + 1) {
      assert t[j] == cs[i + j];
    }
  }

  /** The chains store exactly the given pieces. */
  ghost predicate Stores(cs: seq<Chain>, pieces: seq<seq<Byte>>)
    reads (set c: Chain | c in cs)`misalign, (set c: Chain | c in cs)`off, (set c: Chain | c in cs)`data
    reads set c: Chain | c in cs :: c.buffer
  {
    && |cs| == |pieces|
    && forall i | 0 <= i < |cs| :: cs[i].Valid() && cs[i].data == pieces[i]
  }

  lemma StoresConcat(a: seq<Chain>, p: seq<seq<Byte>>, b: seq<Chain>, q: seq<seq<Byte>>)
    requires Stores(a, p) && Stores(b, q)
    ensures Stores(a + b, p + q)
  {
  }

  lemma StoresSlice(a: seq<Chain>, p: seq<seq<Byte>>, i: nat, j: nat)
    requires Stores(a, p) && i <= j <= |a|
    ensures Stores(a[i..j], p[i..j])
  {
  }

  /** struct evbuffer_ptr. */
  datatype EvPtr = EvPtr(pos: int, chain: Chain?, posInChain: nat)

  /** The position is in chain 'i', or behind the last chain. */
  ghost predicate PtrIn(v: View, total: nat, p: EvPtr, i: nat) {
    && |v.chains| == |v.pieces| && i <= |v.chains| && p.chain == At(v.chains, i) && 0 <= p.pos <= total
    && if i < |v.chains| then p.posInChain <= |v.pieces[i]| && p.pos == |Flatten(v.pieces[..i])| + p.posInChain
       else p.pos == total && p.posInChain == 0
  }

  /** The position lies in the buffer the view describes, or at its very end. */
  ghost predicate PtrAt(v: View, total: nat, p: EvPtr) {
    exists i :: PtrIn(v, total, p, i)
  }

  lemma PtrIndex(v: View, total: nat, p: EvPtr) returns (i: nat)
    requires v.Valid() && total == |Flatten(v.pieces)| && PtrAt(v, total, p)
    ensures PtrIn(v, total, p, i) && 0 <= p.pos <= total
    ensures p.pos == |Flatten(v.pieces[..i])| + p.posInChain
  {
    i :| PtrIn(v, total, p, i);
    if i < |v.chains| {
      FlattenAround(v.pieces, i);
    } else {
      assert v.pieces[..i] == v.pieces;
    }
  }

  /** Every chain of the buffer was in it before or has just been allocated. */
  twostate predicate OldOrFresh(buf: EvBuffer)
    reads buf
  {
    forall c | c in buf.view.chains :: c in old(buf.view.chains) || (fresh(c) && fresh(c.buffer))
  }

  lemma ApartFromNew(cs: seq<Chain>, chain: Chain)
    requires forall c | c in cs :: c != chain && c.buffer != chain.buffer
    ensures Apart(cs, [chain])
  {
    forall i | 0 <= i < |cs| ensures cs[i] != chain && cs[i].buffer != chain.buffer {
      assert cs[i] in cs;
    }
  }

  /** Chain 'k' gets 'src' written behind its data. */
  method AppendTo(chain: Chain, src: seq<Byte>, ghost cs: seq<Chain>, ghost pieces: seq<seq<Byte>>, ghost k: nat)
    requires Stores(cs, pieces) && Distinct(cs) && k < |cs| && chain == cs[k]
    requires |src| <= chain.Space()
    modifies chain`off, chain`data, chain.buffer
    ensures Stores(cs, pieces[k := pieces[k] + src])
  {
    OthersDiffer(cs, k);
    chain.Append(src);
  }

  /** Chain 'k' gets 'src' written before its data. */
  method PrependTo(chain: Chain, src: seq<Byte>, ghost cs: seq<Chain>, ghost pieces: seq<seq<Byte>>, ghost k: nat)
    requires Stores(cs, pieces) && Distinct(cs) && k < |cs| && chain == cs[k]
    requires |src| <= chain.misalign
    modifies chain`off, chain`misalign, chain`data, chain.buffer
    ensures Stores(cs, pieces[k := src + pieces[k]])
  {
    OthersDiffer(cs, k);
    chain.Prepend(src);
  }

  /** Chain 'k' gives up the first 'n' bytes of its data. */
  method ConsumeFrom(chain: Chain, n: nat, ghost cs: seq<Chain>, ghost pieces: seq<seq<Byte>>, ghost k: nat)
    requires Stores(cs, pieces) && Distinct(cs) && k < |cs| && chain == cs[k] && n <= chain.off
    modifies chain`off, chain`misalign, chain`data
    ensures Stores(cs, pieces[k := pieces[k][n..]])
  {
    OthersDiffer(cs, k);
    chain.Consume(n);
  }

  lemma Singleton(chain: Chain)
    requires chain.Valid() && chain.next == null
    ensures Linked([chain]) && Distinct([chain]) && Stores([chain], [chain.data]) && chain.off == |chain.data|
  {
  }

  /** The chains front to back, what each stores, and the index of the last one with data. */
  datatype View = View(chains: seq<Chain>, pieces: seq<seq<Byte>>, lwd: nat) {
    ghost predicate Valid() {
      |chains| == |pieces| && lwd <= |chains| && LastWithData(pieces, lwd) && Distinct(chains)
    }

    /** Where the first empty chain from the last one with data on stands. */
    ghost function CutIndex(): nat {
      if lwd < |pieces| && pieces[lwd] != [] then lwd + 1 else lwd
    }
  }

  /** Which ends of a buffer are frozen. */
  datatype Frozen = Frozen(front: bool, back: bool)

  class EvBuffer {
    var first: Chain?
    var last: Chain?
    /** The chain whose 'next' field last_with_datap points at; null stands for &buf->first. */
    var lastWithDatap: Chain?
    var totalLen: nat
    var freezeStart: bool
    var freezeEnd: bool

    /** What the fields stand for. */
    ghost var view: View

    /**
     * The list, its cached length and its cached last chain; last_with_datap leads to chain
     * 'view.lwd', whatever that one holds.
     */
    ghost predicate Listed()
      reads this, set c: Chain | c in view.chains, set c: Chain | c in view.chains :: c.buffer
    {
      && |view.chains| == |view.pieces| && view.lwd <= |view.chains| && Distinct(view.chains)
      && Linked(view.chains) && Stores(view.chains, view.pieces)
      && first == At(view.chains, 0)
      && last == LinkTo(view.chains, |view.chains|)
      && lastWithDatap == LinkTo(view.chains, view.lwd)
      && totalLen == |Contents()| <= SIZE_MAX
    }

    /** The same, and last_with_datap is what evbuffer-internal.h documents it to be. */
    ghost predicate Valid()
      reads this, set c: Chain | c in view.chains, set c: Chain | c in view.chains :: c.buffer
    {
      Listed() && LastWithData(view.pieces, view.lwd)
    }

    /** No empty chain lies before the last one that holds data. */
    ghost predicate NoGap()
      reads this
    {
      NoGapBefore(view.pieces, view.lwd)
    }

    /** The flat byte string this buffer stands for. */
    ghost function Contents(): seq<Byte>
      reads this
    {
      Flatten(view.pieces)
    }

    /** evbuffer_new. */
    constructor ()
      ensures Valid() && NoGap() && Contents() == [] && view.chains == []
      ensures !freezeStart && !freezeEnd
    {
      first, last, lastWithDatap, totalLen := null, null, null, 0;
      freezeStart, freezeEnd := false, false;
      view := View([], [], 0);
    }

    /** *buf->last_with_datap. */
    function LastWithDataChain(): Chain?
      reads this, lastWithDatap
    {
      if lastWithDatap == null then first else lastWithDatap.next
    }

    /** What a valid buffer says about the chain last_with_datap leads to. */
    lemma Cursor()
      requires Valid()
      ensures LastWithDataChain() == At(view.chains, view.lwd)
      ensures if view.chains == [] then view.lwd == 0 else view.lwd < |view.chains|
      ensures view.lwd <= view.CutIndex() <= |view.chains|
      ensures view.chains != [] ==>
        var c := view.chains[view.lwd]; c.Valid() && c.data == view.pieces[view.lwd] && c.off == |c.data|
    {
    }

    lemma Ends()
      requires Valid()
      ensures |view.chains| == |view.pieces| && last == LinkTo(view.chains, |view.chains|)
        && first == At(view.chains, 0)
      ensures view.chains != [] ==> view.lwd < |view.chains|
    {
    }

    /** The parts of a valid buffer, and that they are all of it. */
    lemma Parts()
      ensures Valid() <==>
        && |view.chains| == |view.pieces| && view.lwd <= |view.chains| && Distinct(view.chains)
        && Linked(view.chains) && Stores(view.chains, view.pieces)
        && first == At(view.chains, 0) && last == LinkTo(view.chains, |view.chains|)
        && lastWithDatap == LinkTo(view.chains, view.lwd) && totalLen == |Contents()| <= SIZE_MAX
        && LastWithData(view.pieces, view.lwd)
    {
      hide Stores, Linked, Distinct, Flatten, LastWithData, At, LinkTo;
    }

    lemma Length()
      requires Valid()
      ensures totalLen == |Contents()| <= SIZE_MAX
    {
    }

    /** What a valid buffer says about chain 'i'. */
    lemma ChainAt(i: nat)
      requires Valid() && i < |view.chains|
      ensures |view.chains| == |view.pieces|
      ensures var c := view.chains[i];
              && c.Valid() && c.data == view.pieces[i] && c.off == |c.data| && !TooLarge(c.off)
              && c.next == At(view.chains, i + 1)
    {
    }

    /**
     * evbuffer_free_trailing_empty_chains, up to the write through the link it returns: the list
     * is to be cut at the first empty chain at or after the last one with data. The chains behind
     * that link are given up when the caller writes the link.
     */
    method FreeTrailingEmptyChains() returns (ch: Chain?)
      requires Valid()
      ensures view.CutIndex() <= |view.chains| && ch == LinkTo(view.chains, view.CutIndex())
    {
      ghost var k := view.lwd;
      ch := lastWithDatap;
      var victim := LastWithDataChain();
      while victim != null && victim.off != 0
        invariant view.lwd <= k <= view.CutIndex() <= |view.chains|
        invariant ch == LinkTo(view.chains, k)
        invariant victim == At(view.chains, k)
        decreases |view.chains| - k
      {
        ch, k := victim, k + 1;
        victim := victim.next;
      }
    }

    /** *ch = head: the list goes on behind its first 'k' chains with the list 'more'. */
    method Relink(ch: Chain?, head: Chain?, ghost k: nat, ghost more: seq<Chain>,
                  ghost pieces: seq<seq<Byte>>)
      requires Linked(view.chains) && k <= |view.chains| && ch == LinkTo(view.chains, k) && first == At(view.chains, 0)
      requires Linked(more) && head == At(more, 0)
      requires Distinct(view.chains) && Distinct(more) && Apart(view.chains[..k], more)
      requires Stores(view.chains[..k] + more, pieces)
      modifies `first, (set c: Chain | c in view.chains)`next
      ensures Linked(view.chains[..k] + more) && Distinct(view.chains[..k] + more)
      ensures first == At(view.chains[..k] + more, 0) && Stores(view.chains[..k] + more, pieces)
    {
      ghost var cs := view.chains[..k];
      DistinctSlice(view.chains, 0, k);
      DistinctConcat(cs, more);
      if k > 0 {
        OthersDiffer(view.chains, k - 1);
        ApartDiffer(cs, more, k - 1);
      }
      if ch == null {
        first := head;
      } else {
        ch.next := head;
      }
    }

    /** Write the cached ends and the cached length. */
    method SetEnds(last: Chain?, lastWithDatap: Chain?, totalLen: nat, ghost view: View)
      modifies `last, `lastWithDatap, `totalLen, `view
      ensures this.last == last && this.lastWithDatap == lastWithDatap && this.totalLen == totalLen && this.view == view
    {
      this.last, this.lastWithDatap, this.totalLen, this.view := last, lastWithDatap, totalLen, view;
    }

    lemma InsertFacts(chain: Chain) returns (v: View)
      requires Valid() && chain.Valid() && chain.next == null && Apart(view.chains, [chain])
      ensures LastWithDataChain() == At(view.chains, view.lwd)
      ensures view.lwd <= view.CutIndex() <= |view.chains|
      ensures if view.chains == [] then view.lwd == 0 else view.lwd < |view.chains|
      ensures v == Inserted(view, chain, chain.data) && v.Valid()
      ensures Flatten(v.pieces) == Contents() + chain.data && |chain.data| == chain.off
      ensures Apart(view.chains[..view.CutIndex()], [chain]) && Stores(v.chains, v.pieces)
      ensures Linked([chain]) && Distinct([chain])
    {
      hide Stores, Linked, Distinct, Apart, Flatten, LastWithData, Chain.Valid;
      Cursor();
      var k := view.CutIndex();
      InsertPiece(view.pieces, view.lwd, k, chain.data);
      v := Inserted(view, chain, chain.data);
      Singleton(chain);
      ApartSlice(view.chains, [chain], 0, k);
      DistinctSlice(view.chains, 0, k);
      DistinctConcat(view.chains[..k], [chain]);
      StoresSlice(view.chains, view.pieces, 0, k);
      StoresConcat(view.chains[..k], view.pieces[..k], [chain], [chain.data]);
    }

    /** evbuffer_chain_insert: put 'chain' behind the data, freeing trailing empty chains. */
    method ChainInsert(chain: Chain)
      requires Valid() && chain.Valid() && chain.next == null
      requires Apart(view.chains, [chain])
      requires totalLen + chain.off <= SIZE_MAX
      modifies `first, `last, `lastWithDatap, `totalLen, `view, (set c: Chain | c in view.chains)`next
      ensures Valid() && Contents() == old(Contents()) + chain.data
      ensures view == Inserted(old(view), chain, chain.data)
    {
      hide Stores, Linked, Distinct, Apart, Flatten, LastWithData, Chain.Valid;
      ghost var v := InsertFacts(chain);
      var chp: Chain?, lwdp := null, lastWithDatap;
      if LastWithDataChain() != null {
        chp := FreeTrailingEmptyChains();
        lwdp := if chain.off != 0 then chp else lwdp;
      }
      Relink(chp, chain, view.CutIndex(), [chain], v.pieces);
      SetEnds(chain, lwdp, totalLen + chain.off, v);
    }
  }

  ghost function Inserted(v: View, chain: Chain, data: seq<Byte>): View
    requires v.CutIndex() <= |v.chains| && v.CutIndex() <= |v.pieces|
  {
    var k := v.CutIndex();
    View(v.chains[..k] + [chain], v.pieces[..k] + [data], if data != [] then k else v.lwd)
  }
}
