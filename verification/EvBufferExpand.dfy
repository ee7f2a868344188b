/** Making room at the end of an evbuffer without adding bytes. */
module EvBufferExpand {
  import opened Bytes
  import opened Chains
  import opened EvBuffers
  import opened EvBufferAdd
  import opened EvBufferDrain

  function SpaceOf(c: Chain): int
    reads c`misalign, c`off
  {
    c.buffer.Length - c.misalign - c.off
  }

  /** The space behind the data of each chain. */
  ghost function Spaces(cs: seq<Chain>): (sp: seq<int>)
    reads (set c: Chain | c in cs)`misalign, (set c: Chain | c in cs)`off
    ensures |sp| == |cs|
    ensures forall i | 0 <= i < |cs| :: sp[i] == SpaceOf(cs[i])
  {
    if cs == [] then [] else [SpaceOf(cs[0])] + Spaces(cs[1..])
  }

  /** The space in the first 'n' chains. */
  ghost function SumFirst(sp: seq<int>, n: nat): int {
    if sp == [] || n == 0 then 0 else sp[0] + SumFirst(sp[1..], n - 1)
  }

  /** The space in 'n' chains from the first one on, or from the second one on if the first is full. */
  ghost function Room(sp: seq<int>, n: nat): int {
    if sp != [] && sp[0] == 0 then SumFirst(sp[1..], n) else SumFirst(sp, n)
  }

  /** The space in all chains, and the number of chains that have any. */
  ghost function Total(sp: seq<int>): int {
    if sp == [] then 0 else sp[0] + Total(sp[1..])
  }

  ghost function Used(sp: seq<int>): nat {
    if sp == [] then 0 else (if sp[0] == 0 then 0 else 1) + Used(sp[1..])
  }

  ghost predicate NonNegative(sp: seq<int>) {
    forall i | 0 <= i < |sp| :: 0 <= sp[i]
  }

  lemma {:induction false} SumCovers(a: seq<int>, b: seq<int>, n: nat)
    requires NonNegative(a + b) && (forall i | 0 <= i < |a| :: a[i] > 0) && Used(a) <= n
    ensures Total(a) <= SumFirst(a + b, n) && Used(a) == |a|
  {
    if a == [] {
      assert a + b == b;
      SumNonNegative(b, n);
    } else {
      assert (a + b)[1..] == a[1..] + b;
      assert NonNegative((a + b)[1..]);
      SumCovers(a[1..], b, n - 1);
    }
  }

  lemma {:induction false} SumNonNegative(sp: seq<int>, n: nat)
    requires NonNegative(sp)
    ensures 0 <= SumFirst(sp, n)
  {
    if sp != [] && n > 0 {
      SumNonNegative(sp[1..], n - 1);
    }
  }

  /** Scanned chains of which at most 'n' have space: their space is within the room of 'n' chains. */
  lemma {:induction false} RoomCovers(a: seq<int>, b: seq<int>, n: nat)
    requires NonNegative(a + b) && (forall i | 1 <= i < |a| :: a[i] > 0) && Used(a) <= n
    ensures Total(a) <= Room(a + b, n)
  {
    hide SumFirst, Total, Used;
    if a == [] {
      assert a + b == b;
      NothingUsed();
      RoomNonNegative(b, n);
    } else if a[0] == 0 {
      FirstFull(a);
      SumCoversTail(a, b, n);
    } else {
      assert (a + b)[0] == a[0];
      SumCovers(a, b, n);
    }
  }

  lemma RoomNonNegative(sp: seq<int>, n: nat)
    requires NonNegative(sp)
    ensures 0 <= Room(sp, n)
  {
    hide SumFirst;
    SumNonNegative(sp, n);
    if sp != [] {
      SumNonNegative(sp[1..], n);
    }
  }

  lemma FirstFull(a: seq<int>)
    requires a != [] && a[0] == 0
    ensures Total(a) == Total(a[1..]) && Used(a) == Used(a[1..])
  {
  }

  lemma SumCoversTail(a: seq<int>, b: seq<int>, n: nat)
    requires a != [] && NonNegative(a + b) && (forall i | 1 <= i < |a| :: a[i] > 0) && Used(a[1..]) <= n
    ensures Total(a[1..]) <= SumFirst((a + b)[1..], n)
  {
    hide SumFirst, Total, Used;
    var t := a[1..];
    assert (a + b)[1..] == t + b;
    assert forall i | 0 <= i < |t + b| :: (t + b)[i] == (a + b)[i + 1];
    SumCovers(t, b, n);
  }

  lemma {:induction false} TotalSnoc(a: seq<int>, x: int)
    ensures Total(a + [x]) == Total(a) + x && Used(a + [x]) == Used(a) + if x == 0 then 0 else 1
  {
    if a == [] {
      assert a + [x] == [x];
    } else {
      assert (a + [x])[1..] == a[1..] + [x];
      TotalSnoc(a[1..], x);
    }
  }

  /** The data of each chain starts where its allocation does. */
  ghost predicate AtStart(cs: seq<Chain>)
    reads (set c: Chain | c in cs)`misalign
  {
    forall c | c in cs :: c.misalign == 0
  }

  /** The space of a chain at the end of the list; an empty one is realigned first. */
  method SpaceInChain(buf: EvBuffer, chain: Chain, ghost i: nat) returns (space: nat)
    requires buf.Valid() && i < |buf.view.chains| && chain == buf.view.chains[i]
    modifies chain`misalign
    ensures buf.Valid() && space == SpaceOf(chain) && chain.Valid()
    ensures chain.off == 0 ==> chain.misalign == 0 && 0 < space
    ensures old(AtStart(buf.view.chains)) ==> AtStart(buf.view.chains)
    ensures forall j | 0 <= j < |buf.view.chains| && j != i ::
      SpaceOf(buf.view.chains[j]) == old(SpaceOf(buf.view.chains[j]))
  {
    hide Flatten, LastWithData;
    OthersDiffer(buf.view.chains, i);
    if chain.off != 0 {
      space := chain.Space();
    } else {
      chain.misalign := 0;
      space := chain.buffer.Length;
    }
  }

  lemma {:induction false} SpacesFrom(cs: seq<Chain>, l: nat, sp: seq<int>)
    requires l + |sp| <= |cs|
    requires forall j | 0 <= j < |sp| :: sp[j] == SpaceOf(cs[l + j])
    requires forall j | 0 <= j < |cs| :: SpaceOf(cs[j]) >= 0
    ensures Spaces(cs[l..]) == sp + Spaces(cs[l + |sp|..])
    ensures NonNegative(Spaces(cs[l..]))
  {
    hide SpaceOf;
    var t, u := Spaces(cs[l..]), sp + Spaces(cs[l + |sp|..]);
    forall i | 0 <= i < |t| ensures t[i] == SpaceOf(cs[l + i]) == u[i] {
      assert cs[l..][i] == cs[l + i];
    }
    assert t == u;
  }

  lemma AllSpaces(buf: EvBuffer)
    requires buf.Valid()
    ensures forall j | 0 <= j < |buf.view.chains| :: SpaceOf(buf.view.chains[j]) >= 0
  {
    forall j | 0 <= j < |buf.view.chains| ensures SpaceOf(buf.view.chains[j]) >= 0 {
      buf.ChainAt(j);
    }
  }

  lemma EmptyBehind(buf: EvBuffer, i: nat)
    requires buf.Valid() && buf.view.lwd <= i < |buf.view.chains|
    ensures i > buf.view.lwd ==> buf.view.chains[i].off == 0
  {
    buf.ChainAt(i);
  }

  lemma {:induction false} ScanEnough(buf: EvBuffer, sp: seq<int>, n: nat)
    requires buf.Valid() && buf.view.lwd + |sp| <= |buf.view.chains| && Used(sp) <= n
    requires forall j | 1 <= j < |sp| :: sp[j] > 0
    requires forall j | 0 <= j < |sp| :: sp[j] == SpaceOf(buf.view.chains[buf.view.lwd + j])
    ensures Room(Spaces(buf.view.chains[buf.view.lwd..]), n) >= Total(sp)
  {
    hide Flatten, LastWithData, Stores, Linked, Distinct, Room, Total, Used, Spaces, SpaceOf, EvBuffer.Valid;
    AllSpaces(buf);
    SpacesFrom(buf.view.chains, buf.view.lwd, sp);
    RoomCovers(sp, Spaces(buf.view.chains[buf.view.lwd + |sp|..]), n);
  }

  lemma ScanAll(buf: EvBuffer, sp: seq<int>)
    requires buf.Valid() && buf.view.lwd + |sp| == |buf.view.chains|
    requires forall j | 0 <= j < |sp| :: sp[j] == SpaceOf(buf.view.chains[buf.view.lwd + j])
    ensures Spaces(buf.view.chains[buf.view.lwd..]) == sp && NonNegative(sp)
  {
    hide Flatten, LastWithData, Stores, Linked, Distinct;
    AllSpaces(buf);
    SpacesFrom(buf.view.chains, buf.view.lwd, sp);
    assert sp + Spaces(buf.view.chains[buf.view.lwd + |sp|..]) == sp;
  }

  /** The scan of evbuffer_expand_fast_ over the chains that have space, from the last one with data on. */
  method ScanSpace(buf: EvBuffer, datlen: nat, n: nat) returns (avail: nat, used: nat)
    requires buf.Valid() && buf.view.chains != [] && n >= 2
    modifies (set c: Chain | c in buf.view.chains)`misalign
    ensures buf.Valid() && used <= n && used <= |buf.view.chains| - buf.view.lwd
    ensures old(AtStart(buf.view.chains)) ==> AtStart(buf.view.chains)
    ensures avail >= datlen ==> Room(Spaces(buf.view.chains[buf.view.lwd..]), n) >= datlen
    ensures avail < datlen && used < n
      ==> var sp := Spaces(buf.view.chains[buf.view.lwd..]);
          NonNegative(sp) && Total(sp) == avail && Used(sp) == used && forall j | 1 <= j < |sp| :: sp[j] > 0
    ensures avail < datlen ==> SpaceOf(buf.view.chains[buf.view.lwd]) <= avail
  {
    hide Flatten, LastWithData, Stores, Linked, Distinct, Chain.Valid, EvBuffer.Valid, Total, Used, Room, Spaces,
      AtStart, SpaceOf, EvBuffer.Listed;
    ghost var cs, l := buf.view.chains, buf.view.lwd;
    ghost var i := l;
    ghost var sp: seq<int> := [];
    buf.Cursor();
    var chain := buf.LastWithDataChain();
    NothingUsed();
    avail, used := 0, 0;
    while chain != null
      invariant buf.Valid() && l <= i <= |cs| && chain == At(cs, i) && used <= i - l
      invariant old(AtStart(cs)) ==> AtStart(cs)
      invariant |sp| == i - l && forall j | 0 <= j < |sp| :: sp[j] == SpaceOf(cs[l + j])
      invariant forall j | 1 <= j < |sp| :: sp[j] > 0
      invariant avail == Total(sp) && used == Used(sp) && used < n
      invariant i > l ==> avail < datlen && SpaceOf(cs[l]) <= avail
      decreases |cs| - i
    {
      EmptyBehind(buf, i);
      var space := SpaceInChain(buf, chain, i);
      TotalSnoc(sp, space);
      sp := sp + [space];
      avail := avail + space;
      if space > 0 {
        used := used + 1;
      }
      if avail >= datlen {
        ScanEnough(buf, sp, n);
        return;
      }
      if used == n {
        return;
      }
      buf.ChainAt(i);
      chain, i := chain.next, i + 1;
    }
    ScanAll(buf, sp);
  }

  lemma NothingUsed()
    ensures Total([]) == 0 && Used([]) == 0
  {
  }

  lemma SwapFacts(v: View, k: nat, tail: seq<Chain>) returns (w: View)
    requires v.Valid() && Stores(v.chains, v.pieces) && k <= |v.chains| && Apart(v.chains, tail) && Distinct(tail)
    requires |tail| <= 1 && (tail != [] ==> tail[0].Valid() && tail[0].data == [])
    requires v.lwd < k || (k == 0 && v.lwd == 0 && v.chains != [] && v.pieces[0] == [])
    ensures w == View(v.chains[..k] + tail, v.pieces[..k] + seq(|tail|, _ => []), v.lwd)
    ensures w.Valid() && Stores(w.chains, w.pieces) && Flatten(w.pieces) == Flatten(v.pieces)
    ensures Apart(v.chains[..k], tail) && LinkTo(w.chains, w.lwd) == LinkTo(v.chains, v.lwd)
    ensures NoGapBefore(v.pieces, v.lwd) ==> NoGapBefore(w.pieces, w.lwd)
  {
    hide Distinct, Apart, Flatten;
    var empties := seq(|tail|, _ => []);
    SwapTail(v.pieces, v.lwd, k, empties);
    w := View(v.chains[..k] + tail, v.pieces[..k] + empties, v.lwd);
    ApartSlice(v.chains, tail, 0, k);
    DistinctSlice(v.chains, 0, k);
    DistinctConcat(v.chains[..k], tail);
    StoresSlice(v.chains, v.pieces, 0, k);
    StoresConcat(v.chains[..k], v.pieces[..k], tail, empties);
  }

  /** Replace everything behind the first 'k' chains, none of which holds data, by 'tmp', or by nothing. */
  method SwapEmpties(buf: EvBuffer, ch: Chain?, tmp: Chain?, ghost k: nat)
    requires buf.Valid() && k <= |buf.view.chains| && ch == LinkTo(buf.view.chains, k)
    requires buf.view.lwd < k || (k == 0 && buf.view.lwd == 0 && buf.view.chains != [] && buf.view.pieces[0] == [])
    requires tmp != null ==> tmp.Valid() && tmp.data == [] && tmp.next == null
    requires tmp != null ==> forall c | c in buf.view.chains :: c != tmp && c.buffer != tmp.buffer
    modifies buf`first, buf`last, buf`lastWithDatap, buf`totalLen, buf`view, (set c: Chain | c in buf.view.chains)`next
    ensures buf.Valid() && buf.Contents() == old(buf.Contents()) && buf.view.lwd == old(buf.view.lwd)
    ensures buf.view.chains == old(buf.view.chains)[..k] + if tmp == null then [] else [tmp]
    ensures old(buf.NoGap()) ==> buf.NoGap()
  {
    hide Stores, Linked, Distinct, Apart, Flatten, LastWithData, Chain.Valid;
    ghost var tail: seq<Chain> := if tmp == null then [] else [tmp];
    if tmp != null {
      Singleton(tmp);
      ApartFromNew(buf.view.chains, tmp);
    } else {
      NoChains();
      ApartNothing(buf.view.chains);
    }
    ghost var w := SwapFacts(buf.view, k, tail);
    buf.Relink(ch, tmp, k, tail, w.pieces);
    buf.SetEnds(if tmp == null then ch else tmp, buf.lastWithDatap, buf.totalLen, w);
  }

  lemma NoChains()
    ensures Linked([]) && Distinct([])
  {
  }

  lemma RoomSnoc(sp: seq<int>, x: int, n: nat)
    requires NonNegative(sp) && 0 < x && Used(sp) < n && forall j | 1 <= j < |sp| :: sp[j] > 0
    ensures Room(sp + [x], n) >= Total(sp) + x
  {
    TotalSnoc(sp, x);
    RoomCovers(sp + [x], [], n);
    assert sp + [x] + [] == sp + [x];
  }

  /** The room a buffer offers in at most 'n' chains from the last one with data on. */
  ghost predicate HasRoom(buf: EvBuffer, n: nat, datlen: nat)
    reads buf, (set c: Chain | c in buf.view.chains)`misalign, (set c: Chain | c in buf.view.chains)`off
  {
    buf.view.lwd < |buf.view.chains| && Room(Spaces(buf.view.chains[buf.view.lwd..]), n) >= datlen
  }

  /** A chain as it has been allocated. */
  predicate NewFor(c: Chain, size: nat)
    reads c`misalign, c`off
  {
    !TooLarge(size) && c.buffer.Length == Capacity(size) && c.misalign == 0 && c.off == 0
  }

  /** Behind the chains 'cs', which from 'l' on have too little space, stands a new one that makes up for it. */
  ghost predicate OneMore(cs: seq<Chain>, l: nat, all: seq<Chain>, datlen: nat)
    requires l <= |cs|
    reads (set c: Chain | c in cs)`misalign, (set c: Chain | c in cs)`off
    reads (set c: Chain | c in all)`misalign, (set c: Chain | c in all)`off
  {
    && |all| == |cs| + 1 && all[..|cs|] == cs && 0 <= Total(Spaces(cs[l..])) < datlen
    && NewFor(all[|cs|], datlen - Total(Spaces(cs[l..])))
  }

  /** What becomes of a list with fewer than 'n' chains from the last one with data on: one more chain at most. */
  twostate predicate Grown(cs: seq<Chain>, l: nat, buf: EvBuffer, datlen: nat, n: nat)
    reads buf, (set c: Chain | c in buf.view.chains)`misalign, (set c: Chain | c in buf.view.chains)`off
    reads (set c: Chain | c in cs)`misalign, (set c: Chain | c in cs)`off
  {
    && buf.view.lwd == l
    && (cs == [] ==> |buf.view.chains| == 1 && NewFor(buf.view.chains[0], datlen))
    && (l < |cs| < l + n ==>
          (old(AtStart(cs)) ==> AtStart(cs)) && (buf.view.chains == cs || OneMore(cs, l, buf.view.chains, datlen)))
  }

  /** The list is empty: allocate one chain. */
  method ExpandEmpty(buf: EvBuffer, datlen: nat, n: nat, mem: bool) returns (r: int)
    requires buf.Valid() && buf.view.chains == [] && n >= 2
    modifies buf`first, buf`last, buf`lastWithDatap, buf`totalLen, buf`view
    ensures buf.Valid() && OldOrFresh(buf) && buf.Contents() == old(buf.Contents())
    ensures r == 0 || (r == -1 && (!mem || TooLarge(datlen)))
    ensures r == 0 ==> HasRoom(buf, n, datlen) && buf.view.lwd == 0
    ensures r == 0 ==> |buf.view.chains| == 1 && NewFor(buf.view.chains[0], datlen)
    ensures old(buf.NoGap()) ==> buf.NoGap()
  {
    hide Stores, Linked, Distinct, Apart, Flatten, LastWithData, Chain.Valid, Room, Total, Used, Spaces;
    buf.Cursor();
    var chain := ChainNew(datlen, mem);
    if chain == null {
      return -1;
    }
    InsertFilled(buf, chain, []);
    assert buf.view.chains == [chain] && buf.view.pieces == [[]];
    buf.ChainAt(0);
    FreshRoom(buf, chain, n, datlen);
    return 0;
  }

  /** evbuffer_expand_fast_. */
  method ExpandFast(buf: EvBuffer, datlen: nat, n: nat, mem: bool) returns (r: int)
    requires buf.Valid() && n >= 2
    modifies buf`first, buf`last, buf`lastWithDatap, buf`totalLen, buf`view, set c: Chain | c in buf.view.chains
    ensures buf.Valid() && OldOrFresh(buf) && buf.Contents() == old(buf.Contents())
    ensures r == 0 || (r == -1 && (!mem || TooLarge(datlen)))
    ensures r == 0 ==> HasRoom(buf, n, datlen) && Grown(old(buf.view.chains), old(buf.view.lwd), buf, datlen, n)
    ensures old(buf.NoGap()) ==> buf.NoGap()
  {
    hide Stores, Linked, Distinct, Apart, Flatten, LastWithData, Chain.Valid, Room, Total, Used, Spaces, AtStart,
      OneMore, EvBuffer.Valid, EvBuffer.Listed, NewFor;
    buf.Cursor();
    buf.Ends();
    NoLast(buf.view.chains);
    if buf.last == null {
      r := ExpandEmpty(buf, datlen, n, mem);
      return;
    }
    var avail, used := ScanSpace(buf, datlen, n);
    if avail >= datlen {
      return 0;
    }
    if used < n {
      r := ExpandBehind(buf, datlen, n, avail, mem);
    } else {
      r := ExpandNuke(buf, datlen, n, mem);
    }
  }

  lemma NoLast(cs: seq<Chain>)
    ensures LinkTo(cs, |cs|) == null <==> cs == []
  {
  }

  lemma FreshRoom(buf: EvBuffer, chain: Chain, n: nat, datlen: nat)
    requires buf.Valid() && buf.view.chains == [chain] && n >= 2
    requires chain.misalign == 0 && chain.off == 0 && datlen <= chain.buffer.Length && 0 < chain.buffer.Length
    ensures HasRoom(buf, n, datlen)
  {
    var sp := Spaces([chain]);
    assert [chain][0..] == [chain] && [chain][1..] == [];
    assert sp == [chain.buffer.Length] && sp[1..] == [];
    assert SumFirst(sp, n) == sp[0] + SumFirst([], n - 1);
  }

  lemma {:induction false} SpacesSnoc(cs: seq<Chain>, c: Chain)
    ensures Spaces(cs + [c]) == Spaces(cs) + [SpaceOf(c)]
  {
  }

  lemma BehindRoom(buf: EvBuffer, cs: seq<Chain>, tmp: Chain, sp: seq<int>, n: nat, datlen: nat)
    requires buf.view.lwd < |cs| && buf.view.chains == cs + [tmp] && sp == Spaces(cs[buf.view.lwd..])
    requires NonNegative(sp) && Used(sp) < n && forall j | 1 <= j < |sp| :: sp[j] > 0
    requires tmp.misalign == 0 && tmp.off == 0 && 0 < tmp.buffer.Length
    requires Total(sp) + tmp.buffer.Length >= datlen
    ensures HasRoom(buf, n, datlen)
  {
    hide Room, Total, Used, SumFirst, Spaces;
    RoomSnoc(sp, tmp.buffer.Length, n);
    SpacesSnoc(cs[buf.view.lwd..], tmp);
    assert buf.view.chains[buf.view.lwd..] == cs[buf.view.lwd..] + [tmp];
  }

  /** The scan ran off the end of the list: add one more chain. */
  method ExpandBehind(buf: EvBuffer, datlen: nat, n: nat, avail: nat, mem: bool) returns (r: int)
    requires buf.Valid() && buf.view.chains != [] && buf.view.lwd < |buf.view.chains| && avail < datlen
    requires var sp := Spaces(buf.view.chains[buf.view.lwd..]);
      NonNegative(sp) && Total(sp) == avail && Used(sp) < n
      && forall j | 1 <= j < |sp| :: sp[j] > 0
    modifies buf`first, buf`last, buf`lastWithDatap, buf`totalLen, buf`view, (set c: Chain | c in buf.view.chains)`next
    ensures buf.Valid() && OldOrFresh(buf) && buf.Contents() == old(buf.Contents())
    ensures r == 0 || (r == -1 && (!mem || TooLarge(datlen)))
    ensures r == 0 ==> HasRoom(buf, n, datlen) && buf.view.lwd == old(buf.view.lwd)
    ensures r == 0 ==> OneMore(old(buf.view.chains), buf.view.lwd, buf.view.chains, datlen)
    ensures old(buf.NoGap()) ==> buf.NoGap()
  {
    hide Stores, Linked, Distinct, Apart, Flatten, LastWithData, Chain.Valid, EvBuffer.Valid, EvBuffer.Listed,
      NoGapBefore, Room, Total, Used, Spaces, OneMore, HasRoom, NonNegative;
    buf.Cursor();
    buf.Ends();
    ghost var cs := buf.view.chains;
    ghost var sp := Spaces(cs[buf.view.lwd..]);
    var tmp := ChainNew(datlen - avail, mem);
    if tmp == null {
      return -1;
    }
    FreshValid(tmp);
    SwapEmpties(buf, buf.last, tmp, |cs|);
    BehindRoom(buf, cs, tmp, sp, n, datlen);
    BehindIsOneMore(buf, cs, tmp, datlen);
    return 0;
  }

  lemma BehindIsOneMore(buf: EvBuffer, cs: seq<Chain>, tmp: Chain, datlen: nat)
    requires buf.view.lwd < |cs| && buf.view.chains == cs + [tmp]
    requires var avail := Total(Spaces(cs[buf.view.lwd..])); 0 <= avail < datlen && NewFor(tmp, datlen - avail)
    ensures OneMore(cs, buf.view.lwd, buf.view.chains, datlen)
  {
    hide Total, Spaces, NewFor;
  }

  lemma FreshValid(tmp: Chain)
    requires tmp.Valid()
    ensures 0 < tmp.buffer.Length
  {
  }

  lemma PairRoom(buf: EvBuffer, c: Chain, tmp: Chain, n: nat, datlen: nat)
    requires buf.view.lwd + 2 == |buf.view.chains| && buf.view.chains[buf.view.lwd..] == [c, tmp] && n >= 2
    requires SpaceOf(c) >= 0 && tmp.misalign == 0 && tmp.off == 0 && 0 < tmp.buffer.Length
    requires SpaceOf(c) + tmp.buffer.Length >= datlen
    ensures HasRoom(buf, n, datlen)
  {
    var sp := Spaces([c, tmp]);
    assert sp == [SpaceOf(c), tmp.buffer.Length] && sp[1..] == [tmp.buffer.Length] && sp[1..][1..] == [];
    assert SumFirst(sp[1..], n) == SumFirst(sp[1..], n - 1) == tmp.buffer.Length;
  }

  /** When the last chain with data is empty, it is the first one, and no chain holds data. */
  lemma NothingStored(buf: EvBuffer)
    requires buf.Valid() && buf.view.chains != [] && buf.view.chains[buf.view.lwd].off == 0
    ensures buf.view.lwd == 0 && buf.view.pieces != [] && buf.view.pieces[0] == []
    ensures AllEmpty(buf.view.pieces) && buf.Contents() == []
  {
    hide Flatten;
    buf.Cursor();
    FlattenAllEmpty(buf.view.pieces);
  }

  /** The space lies in too many chains: replace all empty ones by one. */
  method ExpandNuke(buf: EvBuffer, datlen: nat, n: nat, mem: bool) returns (r: int)
    requires buf.Valid() && buf.view.chains != [] && buf.view.lwd < |buf.view.chains| && n >= 2
    requires SpaceOf(buf.view.chains[buf.view.lwd]) < datlen
    modifies buf`first, buf`last, buf`lastWithDatap, buf`totalLen, buf`view, (set c: Chain | c in buf.view.chains)`next
    ensures buf.Valid() && OldOrFresh(buf) && buf.Contents() == old(buf.Contents())
    ensures r == 0 || (r == -1 && (!mem || TooLarge(datlen)))
    ensures r == 0 ==> HasRoom(buf, n, datlen) && buf.view.lwd == old(buf.view.lwd)
    ensures r == -1 ==>
      buf.view.chains == old(if buf.view.chains[buf.view.lwd].off == 0 then [] else buf.view.chains[..buf.view.lwd + 1])
    ensures old(buf.NoGap()) ==> buf.NoGap()
  {
    hide Stores, Linked, Distinct, Apart, Flatten, LastWithData, Chain.Valid, EvBuffer.Valid, NoGapBefore, Room, Total,
      Used, Spaces;
    buf.Cursor();
    if buf.view.chains[buf.view.lwd].off == 0 {
      NothingStored(buf);
    }
    ghost var k := buf.view.lwd + 1;
    ghost var cs := buf.view.chains;
    var chain := buf.LastWithDataChain();
    var rmvAll := chain.off == 0;
    var avail := if rmvAll then 0 else chain.Space();
    var tmp := ChainNew(datlen - avail, mem);
    if tmp == null {
      if rmvAll {
        ZeroChain(buf);
      } else {
        SwapEmpties(buf, chain, null, k);
      }
      return -1;
    }
    FreshValid(tmp);
    if rmvAll {
      SwapEmpties(buf, null, tmp, 0);
      assert buf.view.chains == [tmp];
      FreshRoom(buf, tmp, n, datlen);
    } else {
      SwapEmpties(buf, chain, tmp, k);
      assert buf.view.chains[buf.view.lwd..] == [chain, tmp];
      PairRoom(buf, chain, tmp, n, datlen);
    }
    return 0;
  }
}
