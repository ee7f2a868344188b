/** Reserving space in an evbuffer for the caller to fill, and committing what was filled. */
module EvBufferReserve {
  import opened Bytes
  import opened Chains
  import opened EvBuffers
  import opened EvBufferAdd
  import opened EvBufferDrain
  import opened EvBufferRemove
  import opened EvBufferExpand

  /** struct evbuffer_iovec: 'len' bytes of an allocation from 'pos' on. */
  datatype Iovec = Iovec(base: array<Byte>, pos: nat, len: nat)

  /** The vector starts where the space of chain 'c' starts. */
  predicate PointsAtSpace(vec: Iovec, c: Chain)
    reads c`misalign, c`off
  {
    vec.base == c.buffer && vec.pos == c.misalign + c.off
  }

  /** The chain the first vector is about, and the link to it. */
  method FirstWithSpace(buf: EvBuffer) returns (chain: Chain?, ghost f: nat)
    requires buf.Valid() && buf.view.chains != []
    ensures buf.view.lwd < |buf.view.chains| && f <= |buf.view.chains| && chain == At(buf.view.chains, f)
    ensures f == if SpaceOf(buf.view.chains[buf.view.lwd]) == 0 then buf.view.lwd + 1 else buf.view.lwd
  {
    hide Flatten;
    buf.Cursor();
    chain, f := buf.LastWithDataChain(), buf.view.lwd;
    if chain.Space() == 0 {
      chain, f := chain.next, f + 1;
    }
  }

  /** The vectors describe the space of the chains from chain 'f' on. */
  ghost predicate Describes(cs: seq<Chain>, f: nat, vecs: seq<Iovec>)
    reads (set c: Chain | c in cs)`misalign, (set c: Chain | c in cs)`off
  {
    && f + |vecs| <= |cs|
    && forall i | 0 <= i < |vecs| :: PointsAtSpace(vecs[i], cs[f + i]) && vecs[i].len <= SpaceOf(cs[f + i])
  }

  /** Each vector is all of the space of its chain. */
  ghost predicate WholeSpaces(cs: seq<Chain>, f: nat, vecs: seq<Iovec>)
    requires f + |vecs| <= |cs|
    reads (set c: Chain | c in cs)`misalign, (set c: Chain | c in cs)`off
  {
    forall i | 0 <= i < |vecs| :: vecs[i].len == SpaceOf(cs[f + i])
  }

  ghost function VecTotal(vecs: seq<Iovec>): nat {
    if vecs == [] then 0 else vecs[0].len + VecTotal(vecs[1..])
  }

  lemma {:induction false} VecTotalSnoc(vecs: seq<Iovec>, x: Iovec)
    ensures VecTotal(vecs + [x]) == VecTotal(vecs) + x.len
  {
    if vecs == [] {
      assert vecs + [x] == [x];
      assert [x][1..] == [];
    } else {
      assert (vecs + [x])[1..] == vecs[1..] + [x];
      VecTotalSnoc(vecs[1..], x);
    }
  }

  /** Chains whose space falls short of what 'n' chains offer are followed by another one. */
  lemma {:induction false} SumNeedsChain(sp: seq<int>, k: nat, n: nat)
    requires k <= |sp| && k <= n && SumFirst(sp, k) < SumFirst(sp, n)
    ensures k < |sp| && k < n && SumFirst(sp, k + 1) == SumFirst(sp, k) + sp[k]
  {
    if k > 0 {
      SumNeedsChain(sp[1..], k - 1, n - 1);
    }
  }

  lemma FirstRoom(buf: EvBuffer, f: nat, n: nat, want: nat)
    requires buf.Valid() && HasRoom(buf, n, want) && f <= |buf.view.chains|
    requires f == if SpaceOf(buf.view.chains[buf.view.lwd]) == 0 then buf.view.lwd + 1 else buf.view.lwd
    ensures SumFirst(Spaces(buf.view.chains[f..]), n) >= want && |Spaces(buf.view.chains[f..])| == |buf.view.chains| - f
  {
    hide SumFirst;
    assert buf.view.chains[buf.view.lwd..][1..] == buf.view.chains[buf.view.lwd + 1..];
    assert Spaces(buf.view.chains[buf.view.lwd..])[1..] == Spaces(buf.view.chains[buf.view.lwd + 1..]);
  }

  /** evbuffer_read_setup_vecs_: vectors for the space of the chains from the first one with space on. */
  method ReadSetupVecs(buf: EvBuffer, howmuch: nat, n: nat, exact: bool) returns (vecs: seq<Iovec>, ghost f: nat)
    requires buf.Valid() && HasRoom(buf, n, howmuch)
    ensures buf.view.lwd <= f <= buf.view.lwd + 1 && f <= |buf.view.chains|
    ensures f == buf.view.lwd <==> SpaceOf(buf.view.chains[buf.view.lwd]) != 0
    ensures |vecs| <= n && Describes(buf.view.chains, f, vecs)
    ensures VecTotal(vecs) >= howmuch && (exact ==> VecTotal(vecs) == howmuch)
    ensures !exact ==> WholeSpaces(buf.view.chains, f, vecs)
    ensures vecs != [] ==> VecTotal(vecs[..|vecs| - 1]) < howmuch
  {
    hide Flatten, LastWithData, Stores, Linked, Distinct, Chain.Valid, EvBuffer.Valid, Spaces, SumFirst, Room,
      VecTotal, Describes, HasRoom, WholeSpaces, EvBuffer.Listed, At;
    EnoughChains(buf, n, howmuch);
    var chain;
    chain, f := FirstWithSpace(buf);
    FirstRoom(buf, f, n, howmuch);
    ghost var cs := buf.view.chains;
    ghost var sp := Spaces(cs[f..]);
    NothingYet(cs, f, sp);
    var soFar := 0;
    vecs := [];
    while |vecs| < n && soFar < howmuch
      invariant |vecs| <= n && f + |vecs| <= |cs| && chain == At(cs, f + |vecs|)
      invariant soFar == VecTotal(vecs) && (soFar == SumFirst(sp, |vecs|) || soFar >= howmuch)
      invariant exact ==> soFar <= howmuch
      invariant Describes(cs, f, vecs) && (!exact ==> WholeSpaces(cs, f, vecs))
      invariant vecs != [] ==> VecTotal(vecs[..|vecs| - 1]) < howmuch
    {
      SumNeedsChain(sp, |vecs|, n);
      SpaceAt(cs, f, |vecs|);
      AtChain(cs, f + |vecs|);
      var vec, next := NextVec(buf, chain, howmuch - soFar, exact, f + |vecs|);
      VecTotalSnoc(vecs, vec);
      DescribesSnoc(cs, f, vecs, vec);
      WholeSnoc(cs, f, vecs, vec);
      vecs, soFar, chain := vecs + [vec], soFar + vec.len, next;
    }
  }

  /** The vector for the space of chain 'k', or for as much of it as is still wanted. */
  method NextVec(buf: EvBuffer, chain: Chain, rest: nat, exact: bool, ghost k: nat) returns (vec: Iovec, next: Chain?)
    requires buf.Valid() && k < |buf.view.chains| && chain == buf.view.chains[k]
    ensures PointsAtSpace(vec, chain) && next == At(buf.view.chains, k + 1)
    ensures vec.len == if exact && SpaceOf(chain) > rest then rest else SpaceOf(chain)
  {
    hide Flatten, LastWithData, Stores, Linked, Distinct, EvBuffer.Valid;
    buf.ChainAt(k);
    var avail := chain.Space();
    if avail > rest && exact {
      avail := rest;
    }
    vec, next := Iovec(chain.buffer, chain.misalign + chain.off, avail), chain.next;
  }

  lemma EnoughChains(buf: EvBuffer, n: nat, want: nat)
    requires HasRoom(buf, n, want)
    ensures buf.view.lwd < |buf.view.chains|
  {
  }

  lemma NothingYet(cs: seq<Chain>, f: nat, sp: seq<int>)
    requires f <= |cs|
    ensures VecTotal([]) == 0 && SumFirst(sp, 0) == 0 && Describes(cs, f, []) && WholeSpaces(cs, f, [])
  {
  }

  lemma DescribesSnoc(cs: seq<Chain>, f: nat, vecs: seq<Iovec>, vec: Iovec)
    requires Describes(cs, f, vecs) && f + |vecs| < |cs|
    requires var c := cs[f + |vecs|]; PointsAtSpace(vec, c) && vec.len <= SpaceOf(c)
    ensures Describes(cs, f, vecs + [vec])
  {
  }

  lemma WholeSnoc(cs: seq<Chain>, f: nat, vecs: seq<Iovec>, vec: Iovec)
    requires f + |vecs| < |cs|
    ensures WholeSpaces(cs, f, vecs) && vec.len == SpaceOf(cs[f + |vecs|]) ==> WholeSpaces(cs, f, vecs + [vec])
    ensures (vecs + [vec])[..|vecs|] == vecs
  {
  }

  lemma SpaceAt(cs: seq<Chain>, f: nat, j: nat)
    requires f + j < |cs|
    ensures |Spaces(cs[f..])| == |cs| - f && Spaces(cs[f..])[j] == SpaceOf(cs[f + j])
  {
  }

  /** What a signed size is once it is passed as a size_t. */
  function AsSizeT(size: int): (r: nat)
    requires -SSIZE_MAX - 1 <= size <= SSIZE_MAX
    ensures r <= SIZE_MAX && (r - size) % (SIZE_MAX + 1) == 0
  {
    if size < 0 then size + SIZE_MAX + 1 else size
  }

  /** evbuffer_reserve_space, for two vectors or more. */
  method ReserveSpace(buf: EvBuffer, size: int, nVecs: int, mem: bool) returns (n: int, vecs: seq<Iovec>, ghost f: nat)
    requires buf.Valid() && -SSIZE_MAX - 1 <= size <= SSIZE_MAX && nVecs != 1
    modifies buf`first, buf`last, buf`lastWithDatap, buf`totalLen, buf`view, set c: Chain | c in buf.view.chains
    ensures buf.Valid() && OldOrFresh(buf) && buf.Contents() == old(buf.Contents())
    ensures n == -1 || (n == |vecs| <= nVecs && VecTotal(vecs) >= size && Describes(buf.view.chains, f, vecs)
                        && buf.view.lwd < |buf.view.chains| && WholeSpaces(buf.view.chains, f, vecs)
                        && (n > 0 ==> VecTotal(vecs[..n - 1]) < size)
                        && f == buf.view.lwd + if SpaceOf(buf.view.chains[buf.view.lwd]) == 0 then 1 else 0)
    ensures buf.freezeEnd || nVecs < 1 ==> n == -1 && buf.view == old(buf.view)
    ensures !buf.freezeEnd && nVecs >= 2 && mem && size >= 0 && !TooLarge(size) ==> n >= 0
    ensures n >= 0 ==> Grown(old(buf.view.chains), old(buf.view.lwd), buf, AsSizeT(size), nVecs)
    ensures old(buf.NoGap()) ==> buf.NoGap()
  {
    hide Flatten, LastWithData, Stores, Linked, Distinct, Spaces, Room, VecTotal, Describes, Grown, WholeSpaces;
    vecs, f := [], 0;
    if buf.freezeEnd {
      return -1, vecs, f;
    }
    if nVecs < 1 {
      return -1, vecs, f;
    }
    var r := ExpandFast(buf, AsSizeT(size), nVecs, mem);
    if r < 0 {
      return -1, vecs, f;
    }
    if size < 0 {
      return -1, vecs, f;
    }
    vecs, f := ReadSetupVecs(buf, size, nVecs, false);
    n := |vecs|;
  }

  /** The bytes a vector holds. */
  ghost function VecPart(v: Iovec): seq<Byte>
    requires v.pos + v.len <= v.base.Length
    reads v.base
  {
    v.base[v.pos..v.pos + v.len]
  }

  /** The bytes each vector holds. */
  ghost function VecParts(vecs: seq<Iovec>): (parts: seq<seq<Byte>>)
    requires forall v | v in vecs :: v.pos + v.len <= v.base.Length
    reads set v: Iovec | v in vecs :: v.base
    ensures |parts| == |vecs| && forall i | 0 <= i < |vecs| :: parts[i] == VecPart(vecs[i])
  {
    if vecs == [] then [] else [VecPart(vecs[0])] + VecParts(vecs[1..])
  }

  /** The bytes the vectors hold together. */
  ghost function VecBytes(vecs: seq<Iovec>): seq<Byte>
    requires forall v | v in vecs :: v.pos + v.len <= v.base.Length
    reads set v: Iovec | v in vecs :: v.base
  {
    Flatten(VecParts(vecs))
  }

  /** From the 'f'-th piece on the parts have been added to the pieces, one to each. */
  ghost predicate Filled(p: seq<seq<Byte>>, q: seq<seq<Byte>>, f: nat, parts: seq<seq<Byte>>) {
    && f + |parts| <= |p| == |q|
    && forall i | 0 <= i < |p| :: q[i] == p[i] + if f <= i < f + |parts| then parts[i - f] else []
  }

  lemma FilledNone(p: seq<seq<Byte>>, f: nat)
    requires f <= |p|
    ensures Filled(p, p, f, [])
  {
    assert forall i | 0 <= i < |p| :: p[i] + [] == p[i];
  }

  lemma FilledStep(p: seq<seq<Byte>>, q: seq<seq<Byte>>, f: nat, parts: seq<seq<Byte>>, i: nat)
    requires i < |parts| && Filled(p, q, f, parts[..i]) && f + i < |p|
    ensures Filled(p, q[f + i := q[f + i] + parts[i]], f, parts[..i + 1])
    ensures Flatten(parts[..i + 1]) == Flatten(parts[..i]) + parts[i]
  {
    hide Flatten;
    assert q[f + i] == p[f + i] + [] == p[f + i];
    assert parts[..i + 1] == parts[..i] + [parts[i]];
    FlattenConcat(parts[..i], [parts[i]]);
    FlattenOne(parts[i]);
  }

  /** Chain 'i' takes 'n' bytes of its space, whatever was written there, into its data. */
  method CommitTo(chain: Chain, n: nat, ghost cs: seq<Chain>, ghost pieces: seq<seq<Byte>>, ghost i: nat)
    requires Stores(cs, pieces) && Distinct(cs) && i < |cs| && chain == cs[i] && n <= SpaceOf(chain)
    modifies chain`off, chain`data
    ensures Stores(cs,
                   pieces[i := pieces[i]
                          + old(chain.buffer[chain.misalign + chain.off..chain.misalign + chain.off + n])])
    ensures chain.off == old(chain.off) + n
  {
    OthersDiffer(cs, i);
    chain.Commit(n);
  }

  /** Commit 'n' bytes of chain 'i', at or behind the last one with data; 'link' leads to it. */
  method CommitOne(buf: EvBuffer, link: Chain?, chain: Chain, n: nat, ghost i: nat)
    requires buf.Valid() && buf.view.lwd <= i < |buf.view.chains| && chain == buf.view.chains[i]
    requires link == LinkTo(buf.view.chains, i)
    requires n <= SpaceOf(chain) && buf.totalLen + n <= SIZE_MAX
    modifies buf`last, buf`lastWithDatap, buf`totalLen, buf`view, chain`off, chain`data
    ensures buf.Valid()
    ensures buf.Contents() == old(buf.Contents())
      + old(chain.buffer[chain.misalign + chain.off..chain.misalign + chain.off + n])
    ensures buf.view.chains == old(buf.view.chains) && buf.view.lwd == if n > 0 then i else old(buf.view.lwd)
    ensures chain.off == old(chain.off) + n && buf.totalLen == old(buf.totalLen) + n
    ensures n > 0 ==> buf.view.pieces[i] != []
    ensures i < old(|buf.view.pieces|) && buf.view.pieces == old(buf.view.pieces[i := buf.view.pieces[i]
      + chain.buffer[chain.misalign + chain.off..chain.misalign + chain.off + n]])
    ensures old(buf.NoGap())
      && (i == old(buf.view.lwd) || n == 0 || (i == old(buf.view.lwd) + 1 && old(buf.view.pieces[buf.view.lwd] != [])))
      ==> buf.NoGap()
  {
    hide Flatten, LastWithData, Stores, Linked, Distinct, Chain.Valid;
    ghost var v := buf.view;
    buf.ChainAt(i);
    ghost var src := chain.buffer[chain.misalign + chain.off..chain.misalign + chain.off + n];
    FillPiece(v.pieces, v.lwd, i, src);
    CommitTo(chain, n, v.chains, v.pieces, i);
    ghost var w := View(v.chains, v.pieces[i := v.pieces[i] + src], if n > 0 then i else v.lwd);
    buf.SetEnds(buf.last, if n > 0 then link else buf.lastWithDatap, buf.totalLen + n, w);
  }

  /** Pass 1 of evbuffer_commit_space: do the vectors describe the space of the chains from 'start' on? */
  method CheckVecs(buf: EvBuffer, start: Chain?, vecs: seq<Iovec>, ghost f: nat) returns (ok: bool)
    requires buf.Valid() && f <= |buf.view.chains| && start == At(buf.view.chains, f)
    ensures ok <==> Describes(buf.view.chains, f, vecs)
  {
    hide Flatten, LastWithData, Stores, Linked, Distinct;
    var chain := start;
    for i := 0 to |vecs|
      invariant f + i <= |buf.view.chains| && chain == At(buf.view.chains, f + i)
      invariant Describes(buf.view.chains, f, vecs[..i])
    {
      if chain == null {
        return false;
      }
      buf.ChainAt(f + i);
      if !PointsAtSpace(vecs[i], chain) || vecs[i].len > chain.Space() {
        return false;
      }
      chain := chain.next;
    }
    assert vecs[..|vecs|] == vecs;
    return true;
  }

  lemma VecsInBounds(buf: EvBuffer, f: nat, vecs: seq<Iovec>)
    requires buf.Valid() && Describes(buf.view.chains, f, vecs)
    ensures forall v | v in vecs :: v.pos + v.len <= v.base.Length
  {
    forall i | 0 <= i < |vecs| ensures vecs[i].pos + vecs[i].len <= vecs[i].base.Length {
      buf.ChainAt(f + i);
    }
  }

  /** One step of pass 2: commit one vector, and go on to the next chain. */
  method CommitNext(buf: EvBuffer, link: Chain?, chain: Chain, vec: Iovec, ghost k: nat, ghost part: seq<Byte>)
    returns (nextLink: Chain?, next: Chain?)
    requires buf.Valid() && buf.view.lwd <= k < |buf.view.chains| && chain == buf.view.chains[k]
    requires link == LinkTo(buf.view.chains, k)
    requires PointsAtSpace(vec, chain) && vec.len <= SpaceOf(chain) && buf.totalLen + vec.len <= SIZE_MAX
    requires vec.pos + vec.len <= vec.base.Length && part == vec.base[vec.pos..vec.pos + vec.len]
    modifies buf`last, buf`lastWithDatap, buf`totalLen, buf`view, chain`off, chain`data
    ensures buf.Valid() && buf.view.chains == old(buf.view.chains) && buf.view.lwd <= k + 1
    ensures nextLink == LinkTo(buf.view.chains, k + 1) && next == At(buf.view.chains, k + 1)
    ensures buf.Contents() == old(buf.Contents()) + part
    ensures k < old(|buf.view.pieces|) && buf.view.pieces == old(buf.view.pieces[k := buf.view.pieces[k] + part])
    ensures buf.totalLen == old(buf.totalLen) + vec.len
    ensures forall j | 0 <= j < |buf.view.chains| && j != k :: buf.view.chains[j] != chain
  {
    hide Flatten, LastWithData, Stores, Linked, Distinct, Chain.Valid, LinkTo, EvBuffer.Valid;
    buf.ChainAt(k);
    NextLink(buf, k);
    OthersDiffer(buf.view.chains, k);
    nextLink, next := chain, chain.next;
    CommitOne(buf, link, chain, vec.len, k);
  }

  /** Pass 2 of evbuffer_commit_space: adjust the chains. The source adds up the length at the end. */
  method CommitVecs(buf: EvBuffer, firstLink: Chain?, start: Chain?, vecs: seq<Iovec>, ghost f: nat)
    requires buf.Valid() && Describes(buf.view.chains, f, vecs) && buf.view.lwd <= f
    requires firstLink == LinkTo(buf.view.chains, f) && start == At(buf.view.chains, f)
    requires buf.totalLen + VecTotal(vecs) <= SIZE_MAX
    requires forall v | v in vecs :: v.pos + v.len <= v.base.Length
    modifies buf`last, buf`lastWithDatap, buf`totalLen, buf`view
    modifies (set c: Chain | c in buf.view.chains)`off, (set c: Chain | c in buf.view.chains)`data
    ensures buf.Valid() && buf.Contents() == old(buf.Contents()) + VecBytes(vecs)
    ensures buf.view.chains == old(buf.view.chains) && Filled(old(buf.view.pieces), buf.view.pieces, f, VecParts(vecs))
  {
    hide Flatten, LastWithData, Stores, Linked, Distinct, VecTotal, Chain.Valid, LinkTo, At, EvBuffer.Valid, Filled;
    hide EvBuffer.Listed, VecParts, PointsAtSpace;
    ghost var p, s := buf.view.pieces, buf.Contents();
    ghost var parts, cs := VecParts(vecs), buf.view.chains;
    buf.Ends();
    FilledNone(p, f);
    EmptyString();
    assert parts[..0] == [] && vecs[0..] == vecs;
    var link, chain := firstLink, start;
    for i := 0 to |vecs|
      invariant buf.Valid() && buf.view.chains == cs && buf.view.lwd <= f + i
      invariant link == LinkTo(cs, f + i) && chain == At(cs, f + i)
      invariant buf.Contents() == s + Flatten(parts[..i])
      invariant |p| == |cs| && Filled(p, buf.view.pieces, f, parts[..i])
      invariant buf.totalLen + VecTotal(vecs[i..]) <= SIZE_MAX
      invariant forall j | i <= j < |vecs| :: PointsAtSpace(vecs[j], cs[f + j]) && vecs[j].len <= SpaceOf(cs[f + j])
    {
      AtChain(cs, f + i);
      VecStep(vecs, i);
      FilledStep(p, buf.view.pieces, f, parts, i);
      Assoc(s, Flatten(parts[..i]), parts[i]);
      link, chain := CommitNext(buf, link, chain, vecs[i], f + i, parts[i]);
    }
    assert parts[..|vecs|] == parts;
  }

  lemma AtChain(cs: seq<Chain>, k: nat)
    requires k < |cs|
    ensures At(cs, k) == cs[k]
  {
  }

  lemma NextLink(buf: EvBuffer, i: nat)
    requires buf.Valid() && i < |buf.view.chains|
    ensures LinkTo(buf.view.chains, i + 1) == buf.view.chains[i] && Distinct(buf.view.chains)
    ensures |buf.view.chains| == |buf.view.pieces|
  {
  }

  lemma VecStep(vecs: seq<Iovec>, i: nat)
    requires i < |vecs| && forall v | v in vecs :: v.pos + v.len <= v.base.Length
    ensures vecs[i] in vecs && VecTotal(vecs[i..]) == vecs[i].len + VecTotal(vecs[i + 1..])
  {
    assert vecs[i..][1..] == vecs[i + 1..];
  }

  /** The only vector starts at the space of the last chain. */
  predicate OnlyLast(buf: EvBuffer, vecs: seq<Iovec>)
    reads buf, buf.last
  {
    |vecs| == 1 && buf.last != null && PointsAtSpace(vecs[0], buf.last)
  }

  /** The first chain with space, as evbuffer_commit_space looks for it. */
  ghost function FirstIndex(buf: EvBuffer): nat
    requires buf.view.lwd < |buf.view.chains|
    reads buf, (set c: Chain | c in buf.view.chains)`misalign, (set c: Chain | c in buf.view.chains)`off
  {
    if SpaceOf(buf.view.chains[buf.view.lwd]) == 0 then buf.view.lwd + 1 else buf.view.lwd
  }

  /** The last piece has been extended by 'bytes'. */
  ghost predicate EndsWith(p: seq<seq<Byte>>, q: seq<seq<Byte>>, bytes: seq<Byte>) {
    p != [] && q == p[|p| - 1 := p[|p| - 1] + bytes]
  }

  lemma EndsWithNone(p: seq<seq<Byte>>, bytes: seq<Byte>)
    requires p != [] && |bytes| == 0
    ensures EndsWith(p, p, bytes)
  {
    assert p[|p| - 1] + bytes == p[|p| - 1];
  }

  /** The vectors evbuffer_commit_space accepts, when the end is not frozen. */
  ghost predicate Acceptable(buf: EvBuffer, vecs: seq<Iovec>)
    reads buf, buf.last, (set c: Chain | c in buf.view.chains)`misalign, (set c: Chain | c in buf.view.chains)`off
  {
    if vecs == [] then true
    else if OnlyLast(buf, vecs) then vecs[0].len <= SpaceOf(buf.last)
    else buf.view.lwd < |buf.view.chains| && Describes(buf.view.chains, FirstIndex(buf), vecs)
  }

  /**
   * evbuffer_commit_space. The bytes are always the right ones. advance_last_with_data stops at an
   * empty chain, so bytes committed through a single vector that starts at the space of the last
   * chain leave the link right exactly when at most one chain lies behind the last one with data.
   */
  method CommitSpace(buf: EvBuffer, vecs: seq<Iovec>) returns (r: int)
    requires buf.Valid() && (Acceptable(buf, vecs) ==> buf.totalLen + VecTotal(vecs) <= SIZE_MAX)
    modifies buf`last, buf`lastWithDatap, buf`totalLen, buf`view
    modifies (set c: Chain | c in buf.view.chains)`off, (set c: Chain | c in buf.view.chains)`data
    ensures buf.Listed() && buf.view.chains == old(buf.view.chains)
    ensures r == if !buf.freezeEnd && old(Acceptable(buf, vecs)) then 0 else -1
    ensures buf.Valid() <==>
      !(r == 0 && old(OnlyLast(buf, vecs)) && vecs[0].len > 0 && |buf.view.chains| > old(buf.view.lwd) + 2)
    ensures r == -1 ==> buf.view == old(buf.view)
    ensures r == 0 ==> forall v | v in vecs :: v.pos + v.len <= v.base.Length
    ensures r == 0 ==> buf.Contents() == old(buf.Contents()) + VecBytes(vecs)
    ensures r == 0 && old(OnlyLast(buf, vecs)) ==> EndsWith(old(buf.view.pieces), buf.view.pieces, VecBytes(vecs))
    ensures r == 0 && vecs != [] && old(!OnlyLast(buf, vecs)) ==>
      && old(buf.view.lwd < |buf.view.chains|)
      && Filled(old(buf.view.pieces), buf.view.pieces, old(FirstIndex(buf)), VecParts(vecs))
  {
    hide Flatten, LastWithData, Stores, Linked, Distinct, VecBytes, VecTotal, Chain.Valid, EvBuffer.Listed;
    hide Describes, VecParts, Filled;
    if buf.freezeEnd {
      return -1;
    }
    buf.Cursor();
    EmptyVecs(buf, vecs);
    if |vecs| == 0 {
      return 0;
    }
    if OnlyLast(buf, vecs) {
      OneTotal(vecs);
      r := CommitLast(buf, vecs[0]);
      if r == 0 {
        OneVec(vecs);
      }
      return;
    }
    if buf.LastWithDataChain() == null {
      return -1;
    }
    var link, chain := buf.lastWithDatap, buf.LastWithDataChain();
    buf.ChainAt(buf.view.lwd);
    ghost var f := buf.view.lwd;
    Ends(buf);
    if chain.Space() == 0 {
      link, chain := chain, chain.next;
      f := f + 1;
    }
    var ok := CheckVecs(buf, chain, vecs, f);
    if !ok {
      return -1;
    }
    VecsInBounds(buf, f, vecs);
    CommitVecs(buf, link, chain, vecs, f);
    return 0;
  }

  lemma Ends(buf: EvBuffer)
    requires buf.Valid()
    ensures buf.lastWithDatap == LinkTo(buf.view.chains, buf.view.lwd)
    ensures buf.view.lwd < |buf.view.chains|
      ==> LinkTo(buf.view.chains, buf.view.lwd + 1) == buf.view.chains[buf.view.lwd]
    ensures buf.last != null ==> buf.view.chains != [] && buf.last == buf.view.chains[|buf.view.chains| - 1]
    ensures buf.view.chains != [] ==> buf.last != null && buf.first == buf.view.chains[0]
    ensures buf.totalLen <= SIZE_MAX
  {
  }

  lemma EmptyVecs(buf: EvBuffer, vecs: seq<Iovec>)
    ensures vecs == [] ==> VecBytes(vecs) == []
  {
    EmptyString();
  }

  lemma OneVec(vecs: seq<Iovec>)
    requires |vecs| == 1 && vecs[0].pos + vecs[0].len <= vecs[0].base.Length
    ensures VecBytes(vecs) == vecs[0].base[vecs[0].pos..vecs[0].pos + vecs[0].len]
  {
    FlattenOne(VecParts(vecs)[0]);
  }

  lemma OneTotal(vecs: seq<Iovec>)
    requires |vecs| == 1
    ensures VecTotal(vecs) == vecs[0].len
  {
    assert vecs[1..] == [];
  }

  lemma LastFacts(buf: EvBuffer, n: nat) returns (ps: seq<seq<Byte>>)
    requires buf.Valid() && buf.last != null && 0 < n <= SpaceOf(buf.last)
    ensures var i := |buf.view.chains| - 1; var c := buf.last;
            && 0 <= i && c.Valid()
            && ps == buf.view.pieces[i := buf.view.pieces[i] + c.buffer[c.misalign + c.off..c.misalign + c.off + n]]
            && Flatten(ps) == buf.Contents() + c.buffer[c.misalign + c.off..c.misalign + c.off + n]
    ensures |ps| == |buf.view.chains| && Distinct(buf.view.chains)
    ensures buf.view.lwd < |ps| && (LastWithData(ps, Advance(ps, buf.view.lwd)) <==> |ps| <= buf.view.lwd + 2)
  {
    hide Flatten, Advance, LastWithData;
    var i, c := |buf.view.chains| - 1, buf.last;
    buf.Cursor();
    buf.ChainAt(i);
    var src := c.buffer[c.misalign + c.off..c.misalign + c.off + n];
    FillPiece(buf.view.pieces, buf.view.lwd, i, src);
    ps := buf.view.pieces[i := buf.view.pieces[i] + src];
    AdvanceToEnd(buf.view.pieces, buf.view.lwd, src);
  }

  /** evbuffer_commit_space, for one vector that starts at the space of the last chain. */
  method CommitLast(buf: EvBuffer, vec: Iovec) returns (r: int)
    requires buf.Valid() && buf.last != null && PointsAtSpace(vec, buf.last)
    requires vec.len <= SpaceOf(buf.last) ==> buf.totalLen + vec.len <= SIZE_MAX
    modifies buf`last, buf`lastWithDatap, buf`totalLen, buf`view
    modifies (set c: Chain | c in buf.view.chains)`off, (set c: Chain | c in buf.view.chains)`data
    ensures buf.Listed() && buf.view.chains == old(buf.view.chains)
    ensures r == if vec.len <= old(SpaceOf(buf.last)) then 0 else -1
    ensures buf.Valid() <==> !(r == 0 && vec.len > 0 && |buf.view.chains| > old(buf.view.lwd) + 2)
    ensures r == -1 ==> buf.view == old(buf.view)
    ensures r == 0 ==> vec.pos + vec.len <= vec.base.Length
    ensures r == 0 ==> buf.Contents() == old(buf.Contents()) + vec.base[vec.pos..vec.pos + vec.len]
    ensures r == 0
      ==> EndsWith(old(buf.view.pieces), buf.view.pieces, vec.base[vec.pos..vec.pos + vec.len])
  {
    hide Flatten, LastWithData, Stores, Linked, Distinct, Chain.Valid, Describes, Advance;
    var last := buf.last;
    ghost var i := |buf.view.chains| - 1;
    ghost var v := buf.view;
    Ends(buf);
    buf.Cursor();
    buf.ChainAt(i);
    if vec.len > last.Space() {
      return -1;
    }
    if vec.len == 0 {
      EndsWithNone(v.pieces, vec.base[vec.pos..vec.pos + vec.len]);
      return 0;
    }
    ghost var ps := LastFacts(buf, vec.len);
    CommitTo(last, vec.len, v.chains, v.pieces, i);
    var _ := AdvanceLastWithData(buf, v.chains, ps, v.lwd);
    buf.SetEnds(last, buf.lastWithDatap, buf.totalLen + vec.len, View(v.chains, ps, Advance(ps, v.lwd)));
    return 0;
  }

  /**
   * Committing a byte of the last of three chains through one vector, when only the first one has
   * data: the link stays at the first chain, with data behind it.
   */
  lemma ThirdChainLost()
    ensures var p: seq<seq<Byte>> := [[1], [], []];
            LastWithData(p, 0) && forall x: Byte :: !LastWithData(p[2 := [x]], Advance(p[2 := [x]], 0))
  {
    var p: seq<seq<Byte>> := [[1], [], []];
    forall x: Byte ensures !LastWithData(p[2 := [x]], Advance(p[2 := [x]], 0)) {
      assert p[2] + [x] == [x];
      AdvanceToEnd(p, 0, [x]);
    }
  }
}
