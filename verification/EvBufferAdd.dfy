/** Adding bytes at either end of an evbuffer. */
module EvBufferAdd {
  import opened Bytes
  import opened Chains
  import opened EvBuffers

  /** Put 'src' behind the data of the chain last_with_datap leads to. */
  method FillLast(buf: EvBuffer, chain: Chain, src: seq<Byte>)
    requires buf.Valid() && buf.view.chains != [] && chain == buf.view.chains[buf.view.lwd]
    requires |src| <= chain.Space() && buf.totalLen + |src| <= SIZE_MAX
    modifies buf`totalLen, buf`view, chain`off, chain`data, chain.buffer
    ensures buf.Valid() && buf.Contents() == old(buf.Contents()) + src
    ensures buf.view.chains == old(buf.view.chains) && buf.view.lwd == old(buf.view.lwd)
    ensures old(buf.NoGap()) ==> buf.NoGap()
  {
    hide Stores, Linked, Distinct, Apart, Flatten, LastWithData;
    ghost var v := buf.view;
    buf.Cursor();
    ExtendLastPiece(v.pieces, v.lwd, src);
    AppendTo(chain, src, v.chains, v.pieces, v.lwd);
    buf.totalLen := buf.totalLen + |src|;
    buf.view := v.(pieces := v.pieces[v.lwd := v.pieces[v.lwd] + src]);
  }

  /** Insert a chain that holds 'src' behind the data. */
  method InsertFilled(buf: EvBuffer, tmp: Chain, src: seq<Byte>)
    requires buf.Valid() && tmp.Valid() && tmp.next == null && tmp.data == [] && |src| <= tmp.Space()
    requires forall c | c in buf.view.chains :: c != tmp && c.buffer != tmp.buffer
    requires buf.totalLen + |src| <= SIZE_MAX
    modifies buf`first, buf`last, buf`lastWithDatap, buf`totalLen, buf`view, (set c: Chain | c in buf.view.chains)`next
    modifies tmp`off, tmp`data, tmp.buffer
    ensures buf.Valid() && buf.Contents() == old(buf.Contents()) + src
    ensures buf.view == Inserted(old(buf.view), tmp, src)
  {
    hide Stores, Linked, Distinct, Flatten, LastWithData;
    tmp.Append(src);
    assert tmp.data == src;
    ApartFromNew(buf.view.chains, tmp);
    buf.ChainInsert(tmp);
  }

  /** evbuffer_add. */
  method Add(buf: EvBuffer, data: seq<Byte>, mem: bool) returns (r: int)
    requires buf.Valid()
    modifies buf, set c: Chain | c in buf.view.chains, set c: Chain | c in buf.view.chains :: c.buffer
    ensures buf.Valid() && OldOrFresh(buf)
    ensures r == 0 || r == -1
    ensures buf.Contents() == if r == 0 then old(buf.Contents()) + data else old(buf.Contents())
    ensures old(buf.freezeEnd) || |data| > SIZE_MAX - old(buf.totalLen) ==> r == -1
    ensures !old(buf.freezeEnd) && |data| <= SIZE_MAX - old(buf.totalLen) && mem && !TooLarge(|data|) ==> r == 0
    ensures old(buf.NoGap()) ==> buf.NoGap()
    ensures buf.freezeStart == old(buf.freezeStart) && buf.freezeEnd == old(buf.freezeEnd)
  {
    hide Stores, Linked, Distinct, Apart, Flatten, LastWithData;
    if buf.freezeEnd {
      return -1;
    }
    if |data| > SIZE_MAX - buf.totalLen {
      return -1;
    }
    buf.Cursor();
    var chain := if buf.LastWithDataChain() == null then buf.last else buf.LastWithDataChain();
    if chain == null {
      chain := ChainNew(|data|, mem);
      if chain == null {
        return -1;
      }
      InsertFilled(buf, chain, []);
    }
    r := AddTo(buf, chain, data, mem);
  }

  /** The last chain has been allocated for 'size' bytes. */
  ghost predicate EndsWithNew(buf: EvBuffer, size: nat)
    reads buf
  {
    buf.view.chains != [] && buf.view.chains[|buf.view.chains| - 1].buffer.Length == Capacity(size)
  }

  /** What is asked for behind a chain of 'length' bytes: twice as much up to a limit, or what the data needs. */
  function NextSize(length: nat, datlen: nat): (size: nat)
    ensures size >= datlen && size >= length
  {
    var size := if length <= CHAIN_MAX_AUTO_SIZE / 2 then 2 * length else length;
    if datlen > size then datlen else size
  }

  /** evbuffer_add, once there is a chain. */
  method AddTo(buf: EvBuffer, chain: Chain, data: seq<Byte>, mem: bool) returns (r: int)
    requires buf.Valid() && buf.view.chains != [] && chain == buf.view.chains[buf.view.lwd]
    requires |data| <= SIZE_MAX - buf.totalLen
    modifies buf`first, buf`last, buf`lastWithDatap, buf`totalLen, buf`view
    modifies set c: Chain | c in buf.view.chains, set c: Chain | c in buf.view.chains :: c.buffer
    ensures buf.Valid() && OldOrFresh(buf)
    ensures r == 0 || r == -1
    ensures buf.Contents() == if r == 0 then old(buf.Contents()) + data else old(buf.Contents())
    ensures r == -1 ==> !mem || TooLarge(|data|)
    ensures |data| <= old(chain.Space()) ==> r == 0
    ensures r == 0 && |data| > old(chain.Space()) && !old(chain.ShouldRealign(|data|)) ==>
      EndsWithNew(buf, NextSize(chain.buffer.Length, |data|))
    ensures old(buf.NoGap()) ==> buf.NoGap()
  {
    hide Stores, Linked, Distinct, Apart, Flatten, LastWithData;
    buf.Cursor();
    var remain := chain.Space();
    if remain >= |data| {
      FillLast(buf, chain, data);
      return 0;
    }
    if chain.ShouldRealign(|data|) {
      Realign(buf, chain);
      FillLast(buf, chain, data);
      return 0;
    }
    var toAlloc := chain.buffer.Length;
    if toAlloc <= CHAIN_MAX_AUTO_SIZE / 2 {
      toAlloc := toAlloc * 2;
    }
    if |data| > toAlloc {
      toAlloc := |data|;
    }
    var tmp := ChainNew(toAlloc, mem);
    if tmp == null {
      return -1;
    }
    SpillInto(buf, chain, tmp, data);
    return 0;
  }

  /** Fill up the last chain with data, and put the rest into a new chain behind it. */
  method SpillInto(buf: EvBuffer, chain: Chain, tmp: Chain, data: seq<Byte>)
    requires buf.Valid() && buf.view.chains != [] && chain == buf.view.chains[buf.view.lwd]
    requires tmp.Valid() && tmp.next == null && tmp.data == []
    requires forall c | c in buf.view.chains :: c != tmp && c.buffer != tmp.buffer
    requires chain.Space() < |data| <= tmp.Space() && |data| <= SIZE_MAX - buf.totalLen
    modifies buf`first, buf`last, buf`lastWithDatap, buf`totalLen, buf`view
    modifies set c: Chain | c in buf.view.chains, set c: Chain | c in buf.view.chains :: c.buffer
    modifies tmp`off, tmp`data, tmp.buffer
    ensures buf.Valid() && buf.Contents() == old(buf.Contents()) + data
    ensures forall c | c in buf.view.chains :: c in old(buf.view.chains) || c == tmp
    ensures buf.view.chains != [] && buf.view.chains[|buf.view.chains| - 1] == tmp
    ensures old(buf.NoGap()) ==> buf.NoGap()
  {
    hide Stores, Linked, Distinct, Apart, Flatten, LastWithData;
    buf.Cursor();
    assert chain in buf.view.chains;
    var remain := chain.Space();
    if remain > 0 {
      FillLast(buf, chain, data[..remain]);
    }
    buf.Cursor();
    ghost var v := buf.view;
    InsertFilled(buf, tmp, data[remain..]);
    InsertKeepsNoGap(v.pieces, v.lwd, v.CutIndex(), data[remain..]);
    assert data == data[..remain] + data[remain..];
  }

  /** evbuffer_chain_align on the chain last_with_datap leads to. */
  method Realign(buf: EvBuffer, chain: Chain)
    requires buf.Valid() && buf.view.chains != [] && chain == buf.view.chains[buf.view.lwd]
    modifies chain`misalign, chain.buffer
    ensures buf.Valid() && chain.misalign == 0
  {
    OthersDiffer(buf.view.chains, buf.view.lwd);
    chain.Align();
  }

  /** The room evbuffer_prepend finds before the data without allocating. */
  ghost function FrontRoom(buf: EvBuffer): nat
    reads buf, buf.view.chains
  {
    if buf.view.chains == [] then 0
    else var c := buf.view.chains[0]; if c.off == 0 then c.buffer.Length else c.misalign
  }

  /** Put 'src' before the data of the first chain. */
  method FillFirst(buf: EvBuffer, chain: Chain, src: seq<Byte>)
    requires buf.Valid() && buf.view.chains != [] && chain == buf.view.chains[0]
    requires |src| <= chain.misalign && buf.totalLen + |src| <= SIZE_MAX
    modifies buf`totalLen, buf`view, chain`off, chain`misalign, chain`data, chain.buffer
    ensures buf.Valid() && buf.Contents() == src + old(buf.Contents())
    ensures buf.view.chains == old(buf.view.chains) && buf.view.lwd == old(buf.view.lwd)
    ensures buf.view.pieces[0] == src + old(buf.view.pieces[0])
    ensures old(buf.NoGap()) ==> buf.NoGap()
  {
    hide Stores, Linked, Distinct, Apart, Flatten, LastWithData;
    ghost var v := buf.view;
    ExtendFirstPiece(v.pieces, v.lwd, src);
    PrependTo(chain, src, v.chains, v.pieces, 0);
    buf.totalLen := buf.totalLen + |src|;
    buf.view := v.(pieces := v.pieces[0 := src + v.pieces[0]]);
  }

  /** An empty first chain is empty at the beginning rather than at the end. */
  method SlideEmpty(buf: EvBuffer, chain: Chain)
    requires buf.Valid() && buf.view.chains != [] && chain == buf.view.chains[0] && chain.off == 0
    modifies chain`misalign
    ensures buf.Valid() && chain.misalign == chain.buffer.Length
  {
    OthersDiffer(buf.view.chains, 0);
    chain.misalign := chain.buffer.Length;
  }

  /** tmp->next = chain, where 'chain' starts the list 'cs'. */
  method LinkBefore(tmp: Chain, chain: Chain?, ghost cs: seq<Chain>)
    requires Linked(cs) && chain == At(cs, 0) && forall c | c in cs :: c != tmp
    modifies tmp`next
    ensures Linked([tmp] + cs) && tmp.next == chain
  {
    tmp.next := chain;
    ghost var all := [tmp] + cs;
    forall i {:trigger all[i].next} | 0 <= i < |all| ensures all[i].next == At(all, i + 1) {
      if i > 0 {
        assert all[i] == cs[i - 1] && cs[i - 1] in cs;
      }
    }
  }

  /** Link the new chain 'tmp', which holds 'src', before the first one. */
  method LinkFirst(buf: EvBuffer, tmp: Chain, src: seq<Byte>)
    requires buf.Valid() && buf.view.chains != [] && buf.view.pieces[0] != []
    requires tmp.Valid() && tmp.data == src && src != []
    requires forall c | c in buf.view.chains :: c != tmp && c.buffer != tmp.buffer
    requires buf.totalLen + |src| <= SIZE_MAX
    modifies buf`first, buf`lastWithDatap, buf`totalLen, buf`view, tmp`next
    ensures buf.Valid() && buf.Contents() == src + old(buf.Contents())
    ensures buf.view.chains == [tmp] + old(buf.view.chains)
    ensures old(buf.NoGap()) ==> buf.NoGap()
  {
    hide Stores, Linked, Distinct, Apart, Flatten, LastWithData, Chain.Valid;
    ghost var v := buf.view;
    ghost var w := View([tmp] + v.chains, [src] + v.pieces, v.lwd + 1);
    var chain := buf.first;
    NewFirstPiece(v.pieces, v.lwd, src);
    FirstFacts(tmp, src, v.chains, v.pieces);
    if buf.lastWithDatap == null {
      buf.lastWithDatap := tmp;
    }
    LinkBefore(tmp, chain, v.chains);
    buf.first, buf.totalLen, buf.view := tmp, buf.totalLen + |src|, w;
  }

  lemma FirstFacts(tmp: Chain, src: seq<Byte>, cs: seq<Chain>, pieces: seq<seq<Byte>>)
    requires tmp.Valid() && tmp.data == src && Stores(cs, pieces) && Distinct(cs)
    requires forall c | c in cs :: c != tmp && c.buffer != tmp.buffer
    ensures Stores([tmp] + cs, [src] + pieces) && Distinct([tmp] + cs)
  {
    forall i | 0 <= i < |cs| ensures cs[i] != tmp && cs[i].buffer != tmp.buffer {
      assert cs[i] in cs;
    }
    DistinctConcat([tmp], cs);
    StoresConcat([tmp], [src], cs, pieces);
  }

  /**
   * evbuffer_prepend. When no chain can be allocated for what does not fit before the first
   * chain's data, the part that did fit has been written already.
   */
  method Prepend(buf: EvBuffer, data: seq<Byte>, mem: bool) returns (r: int)
    requires buf.Valid()
    modifies buf, set c: Chain | c in buf.view.chains, set c: Chain | c in buf.view.chains :: c.buffer
    ensures buf.Valid() && OldOrFresh(buf)
    ensures r == 0 || r == -1
    ensures r == 0 ==> buf.Contents() == data + old(buf.Contents())
    ensures old(buf.freezeStart) || |data| > SIZE_MAX - old(buf.totalLen)
      ==> r == -1 && buf.Contents() == old(buf.Contents())
    ensures !old(buf.freezeStart) && |data| <= SIZE_MAX - old(buf.totalLen) && r == -1
      ==> old(FrontRoom(buf)) <= |data| && buf.Contents() == data[|data| - old(FrontRoom(buf))..] + old(buf.Contents())
    ensures !old(buf.freezeStart) && |data| <= SIZE_MAX - old(buf.totalLen) && mem && !TooLarge(|data|) ==> r == 0
    ensures old(buf.NoGap()) ==> buf.NoGap()
    ensures buf.freezeStart == old(buf.freezeStart) && buf.freezeEnd == old(buf.freezeEnd)
  {
    hide Stores, Linked, Distinct, Apart, Flatten, LastWithData;
    if buf.freezeStart {
      return -1;
    }
    if |data| > SIZE_MAX - buf.totalLen {
      return -1;
    }
    var chain := buf.first;
    if chain == null {
      chain := ChainNew(|data|, mem);
      if chain == null {
        assert data[|data|..] == [];
        return -1;
      }
      buf.Cursor();
      InsertFilled(buf, chain, []);
      assert buf.view.chains == [chain];
    }
    r := PrependBefore(buf, chain, data, mem);
  }

  /** evbuffer_prepend, once there is a chain. */
  method PrependBefore(buf: EvBuffer, chain: Chain, data: seq<Byte>, mem: bool) returns (r: int)
    requires buf.Valid() && buf.view.chains != [] && chain == buf.view.chains[0]
    requires |data| <= SIZE_MAX - buf.totalLen
    modifies buf`first, buf`lastWithDatap, buf`totalLen, buf`view
    modifies set c: Chain | c in buf.view.chains, set c: Chain | c in buf.view.chains :: c.buffer
    ensures buf.Valid() && OldOrFresh(buf)
    ensures r == 0 || r == -1
    ensures r == 0 ==> buf.Contents() == data + old(buf.Contents())
    ensures r == -1 ==> !mem || TooLarge(|data|)
    ensures r == -1
      ==> old(FrontRoom(buf)) < |data|
          && buf.Contents() == data[|data| - old(FrontRoom(buf))..] + old(buf.Contents())
    ensures old(buf.NoGap()) ==> buf.NoGap()
  {
    hide Stores, Linked, Distinct, Apart, Flatten, LastWithData, EvBuffer.Valid, Chain.Valid;
    FirstChain(buf);
    assert chain in buf.view.chains;
    if chain.off == 0 {
      SlideEmpty(buf, chain);
    }
    var room := chain.misalign;
    if room >= |data| {
      FillFirst(buf, chain, data);
      return 0;
    }
    var rest := data[..|data| - room];
    assert data == rest + data[|data| - room..];
    if room > 0 {
      FillFirst(buf, chain, data[|data| - room..]);
      FirstChain(buf);
    }
    var tmp := ChainNew(|rest|, mem);
    if tmp == null {
      return -1;
    }
    tmp.misalign := tmp.buffer.Length;
    tmp.Prepend(rest);
    LinkFirst(buf, tmp, rest);
    return 0;
  }

  lemma FirstChain(buf: EvBuffer)
    requires buf.Valid() && buf.view.chains != []
    ensures var c := buf.view.chains[0];
            c.Valid() && buf.view.pieces != [] && buf.view.pieces[0] == c.data && c.off == |c.data|
    ensures buf.totalLen == |buf.Contents()|
  {
  }
}
