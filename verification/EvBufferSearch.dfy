/** Positions in an evbuffer, and searching it for bytes, for strings and for ends of lines. */
module EvBufferSearch {
  import opened Bytes
  import opened Chains
  import opened EvBuffers
  import opened EvBufferDrain

  const NOT_FOUND := EvPtr(-1, null, 0)

  /** memchr over the data of one chain. */
  method FindByte(chain: Chain, from: nat, to: nat, c: Byte) returns (r: int)
    requires chain.Valid() && from <= to <= chain.off
    ensures r == -1 || (from <= r < to && chain.data[r] == c)
    ensures forall j | from <= j < (if r == -1 then to else r) :: chain.data[j] != c
  {
    for i := from to to
      invariant forall j | from <= j < i :: chain.data[j] != c
    {
      if chain.buffer[chain.misalign + i] == c {
        return i;
      }
    }
    return -1;
  }

  /** Position 'a' of chain 'i' in the flat string. */
  lemma FlatAt(p: seq<seq<Byte>>, i: nat, a: nat)
    requires i < |p| && a <= |p[i]|
    ensures |Flatten(p[..i])| + |p[i]| == |Flatten(p[..i + 1])| <= |Flatten(p)|
    ensures a < |p[i]| ==> Flatten(p)[|Flatten(p[..i])| + a] == p[i][a]
  {
    FlattenAround(p, i);
  }

  /** No byte of the stretch is in the set. */
  ghost predicate Without(s: seq<Byte>, a: int, b: int, cs: set<Byte>) {
    forall k | 0 <= a <= k < b && k < |s| :: s[k] !in cs
  }

  /** A stretch of one chain without the bytes of a set is a stretch of the flat string without them. */
  lemma WithoutInPiece(p: seq<seq<Byte>>, i: nat, a: nat, b: nat, cs: set<Byte>)
    requires i < |p| && a <= b <= |p[i]| && forall j | a <= j < b :: p[i][j] !in cs
    ensures |Flatten(p[..i])| + |p[i]| == |Flatten(p[..i + 1])| <= |Flatten(p)|
    ensures Without(Flatten(p), |Flatten(p[..i])| + a, |Flatten(p[..i])| + b, cs)
    ensures b < |p[i]| ==> Flatten(p)[|Flatten(p[..i])| + b] == p[i][b]
  {
    FlattenAround(p, i);
    var n := |Flatten(p[..i])|;
    forall k | n + a <= k < n + b ensures Flatten(p)[k] !in cs {
      assert p[i][k - n] == Flatten(p)[k];
    }
  }

  /** evbuffer_strchr: the first 'c' at or after the position. */
  method Strchr(buf: EvBuffer, it: EvPtr, c: Byte) returns (found: bool, r: EvPtr)
    requires buf.Valid() && PtrAt(buf.view, buf.totalLen, it)
    ensures buf.Contents() == Flatten(buf.view.pieces) && |buf.Contents()| == buf.totalLen
    ensures found ==> PtrAt(buf.view, buf.totalLen, r) && r.chain != null && it.pos <= r.pos < buf.totalLen
    ensures found ==> buf.Contents()[r.pos] == c && Without(buf.Contents(), it.pos, r.pos, {c})
    ensures !found ==> Without(buf.Contents(), it.pos, buf.totalLen, {c})
  {
    hide Flatten, LastWithData, Stores, Linked, Distinct, Chain.Valid, EvBuffer.Valid;
    ghost var p := buf.view.pieces;
    Sizes(buf);
    ghost var i := PtrIndex(buf.view, buf.totalLen, it);
    var chain, a: nat, pos := it.chain, it.posInChain, it.pos;
    while chain != null
      invariant i <= |buf.view.chains| && chain == At(buf.view.chains, i)
      invariant chain != null ==> a <= |p[i]| && pos == |Flatten(p[..i])| + a
      invariant chain == null ==> pos == buf.totalLen
      invariant it.pos <= pos && Without(buf.Contents(), it.pos, pos, {c})
      decreases |buf.view.chains| - i
    {
      buf.ChainAt(i);
      var k := FindByte(chain, a, chain.off, c);
      WithoutInPiece(p, i, a, if k < 0 then chain.off else k, {c});
      if k >= 0 {
        r := EvPtr(pos + k - a, chain, k);
        assert PtrIn(buf.view, buf.totalLen, r, i);
        return true, r;
      }
      pos, a, chain, i := pos + chain.off - a, 0, chain.next, i + 1;
      if chain == null {
        WholeString(p);
      }
    }
    return false, NOT_FOUND;
  }

  lemma Sizes(buf: EvBuffer)
    requires buf.Valid()
    ensures |buf.Contents()| == buf.totalLen && buf.view.Valid()
  {
  }

  datatype PtrHow = PtrSetTo | PtrAdd

  /** The position is on a byte of the buffer. */
  ghost predicate OnByte(v: View, total: nat, p: EvPtr) {
    exists i | 0 <= i < |v.chains| == |v.pieces| :: PtrIn(v, total, p, i) && p.posInChain < |v.pieces[i]|
  }

  /** evbuffer_ptr_set. */
  method PtrSet(buf: EvBuffer, pos: EvPtr, position: nat, how: PtrHow) returns (result: int, r: EvPtr)
    requires buf.Valid() && (how.PtrAdd? ==> pos.pos < 0 || PtrAt(buf.view, buf.totalLen, pos))
    ensures result == 0 || result == -1
    ensures how.PtrAdd? && (pos.pos < 0 || SIZE_MAX - position < pos.pos) ==> result == -1 && r == pos
    ensures how.PtrSetTo? || !(pos.pos < 0 || SIZE_MAX - position < pos.pos) ==>
      var target := if how.PtrSetTo? then position else pos.pos + position;
      if target <= buf.totalLen then
        result == 0 && r.pos == target && PtrAt(buf.view, buf.totalLen, r)
        && (if target < buf.totalLen then OnByte(buf.view, buf.totalLen, r) else r.chain == null)
      else result == -1 && r == NOT_FOUND
  {
    hide Flatten, LastWithData, Stores, Linked, Distinct, Chain.Valid, EvBuffer.Valid;
    ghost var p := buf.view.pieces;
    ghost var i := 0;
    Sizes(buf);
    FirstOf(buf);
    var chain, left: nat, a: nat, target: int := buf.first, position, 0, position;
    if how.PtrAdd? {
      if pos.pos < 0 || SIZE_MAX - position < pos.pos {
        return -1, pos;
      }
      i := PtrIndex(buf.view, buf.totalLen, pos);
      chain, a, target := pos.chain, pos.posInChain, pos.pos + position;
    }
    while chain != null && a + left >= chain.off
      invariant i <= |buf.view.chains| && chain == At(buf.view.chains, i)
      invariant chain != null ==> a <= |p[i]|
      invariant target == |Flatten(p[..i])| + a + left && (chain == null ==> a == 0)
      decreases |buf.view.chains| - i
    {
      buf.ChainAt(i);
      FlatAt(p, i, a);
      left := left - (chain.off - a);
      chain, a, i := chain.next, 0, i + 1;
    }
    if chain != null {
      buf.ChainAt(i);
      FlatAt(p, i, a + left);
      r := EvPtr(target, chain, a + left);
      assert PtrIn(buf.view, buf.totalLen, r, i);
      return 0, r;
    }
    assert i == |p| && p[..i] == p;
    if left == 0 {
      r := EvPtr(target, null, 0);
      assert PtrIn(buf.view, buf.totalLen, r, |buf.view.chains|);
      return 0, r;
    }
    return -1, NOT_FOUND;
  }

  lemma FirstOf(buf: EvBuffer)
    requires buf.Valid()
    ensures buf.first == At(buf.view.chains, 0) && |buf.view.chains| == |buf.view.pieces|
    ensures Flatten(buf.view.pieces[..0]) == []
  {
  }

  /** evbuffer_ptr_subtract. */
  method PtrSubtract(buf: EvBuffer, pos: EvPtr, howfar: nat) returns (result: int, r: EvPtr)
    requires buf.Valid() && (pos.pos < 0 || PtrAt(buf.view, buf.totalLen, pos))
    ensures if howfar > pos.pos then result == -1 && r == pos
            else result == 0 && r.pos == pos.pos - howfar && PtrAt(buf.view, buf.totalLen, r)
    ensures 0 < howfar <= pos.pos ==> OnByte(buf.view, buf.totalLen, r)
  {
    hide Flatten, LastWithData, Stores, Linked, Distinct, Chain.Valid, EvBuffer.Valid;
    if pos.pos < 0 {
      return -1, pos;
    }
    ghost var i := PtrIndexIn(buf, pos);
    if howfar > pos.pos {
      return -1, pos;
    }
    if pos.chain != null && howfar <= pos.posInChain {
      r := pos.(posInChain := pos.posInChain - howfar, pos := pos.pos - howfar);
      assert PtrIn(buf.view, buf.totalLen, r, i);
      return 0, r;
    }
    result, r := PtrSet(buf, pos, pos.pos - howfar, PtrSetTo);
  }

  lemma PtrIndexIn(buf: EvBuffer, p: EvPtr) returns (i: nat)
    requires buf.Valid() && PtrAt(buf.view, buf.totalLen, p)
    ensures PtrIn(buf.view, buf.totalLen, p, i) && 0 <= p.pos <= buf.totalLen
    ensures |buf.view.chains| == |buf.view.pieces|
  {
    i := PtrIndex(buf.view, buf.totalLen, p);
  }

  /** evbuffer_getchr, on a byte of the buffer or at its end. */
  method Getchr(buf: EvBuffer, it: EvPtr) returns (c: int)
    requires buf.Valid() && (it.chain == null || OnByte(buf.view, buf.totalLen, it))
    ensures it.chain == null ==> c == -1
    ensures it.chain != null ==> 0 <= it.pos < |buf.Contents()| && c == buf.Contents()[it.pos]
  {
    hide Flatten, LastWithData, Stores, Linked, Distinct;
    if it.chain == null {
      return -1;
    }
    ghost var i :| 0 <= i < |buf.view.chains| && PtrIn(buf.view, buf.totalLen, it, i)
      && it.posInChain < |buf.view.pieces[i]|;
    buf.ChainAt(i);
    FlatAt(buf.view.pieces, i, it.posInChain);
    c := it.chain.buffer[it.chain.misalign + it.posInChain];
  }

  /** The number of bytes from 'k' on that are in the set. */
  ghost function Span(s: seq<Byte>, k: nat, chrset: set<Byte>): nat
    requires k <= |s|
    decreases |s| - k
  {
    if k < |s| && s[k] in chrset then 1 + Span(s, k + 1, chrset) else 0
  }

  lemma {:induction false} SpanMaximal(s: seq<Byte>, k: nat, chrset: set<Byte>)
    requires k <= |s|
    ensures var n := Span(s, k, chrset);
            && k + n <= |s| && (forall j | k <= j < k + n :: s[j] in chrset)
            && (k + n < |s| ==> s[k + n] !in chrset)
    decreases |s| - k
  {
    if k < |s| && s[k] in chrset {
      SpanMaximal(s, k + 1, chrset);
    }
  }

  /** evbuffer_strspn: how many bytes from the position on are in the set. */
  method Strspn(buf: EvBuffer, ptr: EvPtr, chrset: set<Byte>) returns (count: nat)
    requires buf.Valid() && PtrAt(buf.view, buf.totalLen, ptr)
    ensures 0 <= ptr.pos <= |buf.Contents()| && count == Span(buf.Contents(), ptr.pos, chrset)
  {
    hide Flatten, LastWithData, Stores, Linked, Distinct, Chain.Valid, EvBuffer.Valid;
    ghost var p := buf.view.pieces;
    Sizes(buf);
    WholeString(p);
    ghost var c := PtrIndex(buf.view, buf.totalLen, ptr);
    var chain, i: nat := ptr.chain, ptr.posInChain;
    count := 0;
    if chain == null {
      return;
    }
    while true
      invariant c < |buf.view.chains| && chain == buf.view.chains[c] && i <= |p[c]|
      invariant ptr.pos + count == |Flatten(p[..c])| + i <= |buf.Contents()|
      invariant Span(buf.Contents(), ptr.pos, chrset) == count + Span(buf.Contents(), ptr.pos + count, chrset)
      decreases |buf.view.chains| - c
    {
      buf.ChainAt(c);
      while i < chain.off
        invariant i <= |p[c]| && ptr.pos + count == |Flatten(p[..c])| + i <= |buf.Contents()|
        invariant Span(buf.Contents(), ptr.pos, chrset) == count + Span(buf.Contents(), ptr.pos + count, chrset)
      {
        FlatAt(p, c, i);
        if chain.buffer[chain.misalign + i] !in chrset {
          ReadByte(chain, i);
          return;
        }
        ReadByte(chain, i);
        i, count := i + 1, count + 1;
      }
      FlatAt(p, c, i);
      if chain.next == null {
        return;
      }
      chain, i, c := chain.next, 0, c + 1;
    }
  }

  lemma ReadByte(chain: Chain, i: nat)
    requires chain.Valid() && i < chain.off
    ensures chain.buffer[chain.misalign + i] == chain.data[i]
  {
  }

  /** 'what' stands in 's' at 'k'. */
  ghost predicate MatchAt(s: seq<Byte>, what: seq<Byte>, k: int) {
    0 <= k && k + |what| <= |s| && s[k..k + |what|] == what
  }

  /** The first 'at' bytes of 'mem' stand in 's' at 'k'. */
  ghost predicate AgreeTo(s: seq<Byte>, mem: seq<Byte>, k: nat, at: nat) {
    k + at <= |s| && at <= |mem| && forall j | 0 <= j < at :: s[k + j] == mem[j]
  }

  lemma AgreeAll(s: seq<Byte>, mem: seq<Byte>, k: nat)
    requires k + |mem| <= |s|
    ensures AgreeTo(s, mem, k, |mem|) <==> MatchAt(s, mem, k)
    ensures AgreeTo(s, mem, k, 0)
  {
    if MatchAt(s, mem, k) {
      var a := s[k..k + |mem|];
      assert forall j | 0 <= j < |mem| :: a[j] == s[k + j];
    }
  }

  /** Comparing 'n' more bytes, all of which lie in piece 'i'. */
  lemma AgreeStep(p: seq<seq<Byte>>, i: nat, position: nat, mem: seq<Byte>, k: nat, at: nat, n: nat)
    requires i < |p| && position + n <= |p[i]| && at + n <= |mem| && k + |mem| <= |Flatten(p)|
    requires |Flatten(p[..i])| + position == k + at && AgreeTo(Flatten(p), mem, k, at)
    ensures |Flatten(p[..i + 1])| == |Flatten(p[..i])| + |p[i]|
    ensures if p[i][position..position + n] == mem[at..at + n] then AgreeTo(Flatten(p), mem, k, at + n)
            else !AgreeTo(Flatten(p), mem, k, |mem|)
  {
    hide Flatten;
    var s := Flatten(p);
    FlattenAround(p, i);
    var x, y := p[i][position..position + n], mem[at..at + n];
    assert forall j | 0 <= j < n :: x[j] == s[k + (at + j)];
    assert forall j | 0 <= j < n :: y[j] == mem[at + j];
    if AgreeTo(s, mem, k, |mem|) {
      assert forall j | 0 <= j < n :: x[j] == y[j];
    } else if x == y {
      forall j | 0 <= j < at + n ensures s[k + j] == mem[j] {
        if at <= j {
          assert x[j - at] == y[j - at];
        }
      }
    }
  }

  /** At the first place where they differ, 's' from 'k' on is below 'mem'. */
  ghost predicate Below(s: seq<Byte>, mem: seq<Byte>, k: nat) {
    exists j | 0 <= j < |mem| && k + j < |s| :: AgreeTo(s, mem, k, j) && s[k + j] < mem[j]
  }

  lemma FirstDifference(s: seq<Byte>, mem: seq<Byte>, k: nat, j: nat)
    requires k + |mem| <= |s| && j < |mem| && AgreeTo(s, mem, k, j) && s[k + j] != mem[j]
    ensures Below(s, mem, k) <==> s[k + j] < mem[j]
    ensures !MatchAt(s, mem, k)
  {
    AgreeAll(s, mem, k);
  }

  /** memcmp: the sign of the first difference. */
  method MemCmp(x: seq<Byte>, y: seq<Byte>) returns (r: int, ghost j: nat)
    requires |x| == |y|
    ensures j <= |x| && forall m | 0 <= m < j :: x[m] == y[m]
    ensures r == if j == |x| then 0 else x[j] as int - y[j] as int
    ensures r == 0 <==> x == y
  {
    for i := 0 to |x|
      invariant forall m | 0 <= m < i :: x[m] == y[m]
    {
      if x[i] != y[i] {
        return x[i] as int - y[i] as int, i;
      }
    }
    return 0, |x|;
  }

  /** A difference in a piece is one in the flat string. */
  lemma DifferInPiece(p: seq<seq<Byte>>, i: nat, position: nat, mem: seq<Byte>, k: nat, at: nat,
                      x: seq<Byte>, y: seq<Byte>, j: nat)
    requires i < |p| && position + |x| <= |p[i]| && x == p[i][position..position + |x|]
    requires at + |x| <= |mem| && y == mem[at..at + |x|] && j < |x|
    requires k + |mem| <= |Flatten(p)| && |Flatten(p[..i])| + position == k + at && AgreeTo(Flatten(p), mem, k, at)
    requires x[j] != y[j] && forall m | 0 <= m < j :: x[m] == y[m]
    ensures Below(Flatten(p), mem, k) <==> x[j] < y[j]
    ensures !MatchAt(Flatten(p), mem, k)
  {
    hide Flatten, Below, MatchAt;
    var s := Flatten(p);
    FlattenAround(p, i);
    assert forall m | 0 <= m < |x| :: x[m] == s[k + (at + m)] && y[m] == mem[at + m];
    forall m | 0 <= m < at + j ensures s[k + m] == mem[m] {
      if at <= m {
        assert x[m - at] == y[m - at];
      }
    }
    FirstDifference(s, mem, k, at + j);
  }

  /** Compare as many of the next 'len' bytes of 'mem' as chain 'i' has behind 'position'. */
  method CompareChunk(buf: EvBuffer, chain: Chain, position: nat, mem: seq<Byte>, at: nat, len: nat, ghost k: nat,
                      ghost i: nat)
    returns (r: int, n: nat)
    requires buf.Valid() && i < |buf.view.chains| && chain == buf.view.chains[i] && position <= |buf.view.pieces[i]|
    requires len > 0 && at + len == |mem| && k + |mem| <= |buf.Contents()| && AgreeTo(buf.Contents(), mem, k, at)
    requires |Flatten(buf.view.pieces[..i])| + position == k + at
    ensures n == if len + position > chain.off then chain.off - position else len
    ensures chain.off == |buf.view.pieces[i]| && chain.next == At(buf.view.chains, i + 1)
    ensures r == 0 ==> at + n <= |mem| && AgreeTo(buf.Contents(), mem, k, at + n)
    ensures r != 0 ==> !MatchAt(buf.Contents(), mem, k) && (r < 0 <==> Below(buf.Contents(), mem, k))
    ensures |Flatten(buf.view.pieces[..i + 1])| == |Flatten(buf.view.pieces[..i])| + |buf.view.pieces[i]|
  {
    hide Flatten, LastWithData, Stores, Linked, Distinct, Chain.Valid, EvBuffer.Valid, AgreeTo, Below, MatchAt;
    buf.ChainAt(i);
    n := if len + position > chain.off then chain.off - position else len;
    var x, y := chain.Read(position, n), mem[at..at + n];
    ghost var j;
    r, j := MemCmp(x, y);
    AgreeStep(buf.view.pieces, i, position, mem, k, at, n);
    if r != 0 {
      DifferInPiece(buf.view.pieces, i, position, mem, k, at, x, y, j);
    }
  }

  /** evbuffer_ptr_memcmp: the sign of the first difference, or -1 when 'mem' does not fit behind the position. */
  method PtrMemcmp(buf: EvBuffer, pos: EvPtr, mem: seq<Byte>) returns (r: int)
    requires buf.Valid() && (pos.pos < 0 || PtrAt(buf.view, buf.totalLen, pos))
    ensures |buf.Contents()| == buf.totalLen
    ensures r == 0 <==> MatchAt(buf.Contents(), mem, pos.pos)
    ensures pos.pos < 0 || pos.pos + |mem| > buf.totalLen ==> r == -1
    ensures 0 <= pos.pos <= pos.pos + |mem| <= buf.totalLen ==> (r < 0 <==> Below(buf.Contents(), mem, pos.pos))
  {
    hide Flatten, LastWithData, Stores, Linked, Distinct, Chain.Valid, EvBuffer.Valid, PtrAt, AgreeTo, Below, MatchAt;
    ghost var p, s := buf.view.pieces, buf.Contents();
    Sizes(buf);
    if pos.pos < 0 {
      NoRoomNoMatch(s, mem, pos.pos);
      return -1;
    }
    ghost var i := PtrIndex(buf.view, buf.totalLen, pos);
    if pos.pos + |mem| > buf.totalLen {
      NoRoomNoMatch(s, mem, pos.pos);
      return -1;
    }
    AgreeAll(s, mem, pos.pos);
    var chain, position: nat, len: nat, at: nat := pos.chain, pos.posInChain, |mem|, 0;
    while len > 0 && chain != null
      invariant i <= |buf.view.chains| && chain == At(buf.view.chains, i) && at + len == |mem|
      invariant AgreeTo(s, mem, pos.pos, at)
      invariant len > 0 ==> pos.pos + at == |Flatten(p[..i])| + position
      invariant len > 0 && chain != null ==> position <= |p[i]|
      invariant chain == null && len > 0 ==> position == 0
      decreases |buf.view.chains| - i
    {
      var n;
      r, n := CompareChunk(buf, chain, position, mem, at, len, pos.pos, i);
      if r != 0 {
        return;
      }
      at, len, position, chain, i := at + n, len - n, 0, chain.next, i + 1;
    }
    if len > 0 {
      WholeString(p);
      assert false;
    }
    NotBelow(s, mem, pos.pos);
    return 0;
  }

  lemma NoRoomNoMatch(s: seq<Byte>, mem: seq<Byte>, k: int)
    requires k < 0 || k + |mem| > |s|
    ensures !MatchAt(s, mem, k)
  {
  }

  lemma NotBelow(s: seq<Byte>, mem: seq<Byte>, k: nat)
    requires AgreeTo(s, mem, k, |mem|)
    ensures !Below(s, mem, k)
  {
  }

  /** No match of 'what' starts in the stretch. */
  ghost predicate NoMatch(s: seq<Byte>, what: seq<Byte>, a: int, b: int) {
    forall k | a <= k < b :: !MatchAt(s, what, k)
  }

  lemma WithoutNoMatch(s: seq<Byte>, what: seq<Byte>, a: int, b: int)
    requires what != [] && 0 <= a && Without(s, a, b, {what[0]})
    ensures NoMatch(s, what, a, b)
  {
  }

  /** The first byte of 'what' stands at 'k' of chain 'i': compare there, and step on if it is no match. */
  method TryMatch(buf: EvBuffer, what: seq<Byte>, p: EvPtr, k: nat, ghost i: nat, ghost from: int)
    returns (same: bool, r: EvPtr, ghost j: nat)
    requires buf.Valid() && PtrIn(buf.view, buf.totalLen, p, i) && i < |buf.view.chains| && what != []
    requires p.posInChain <= k < |buf.view.pieces[i]| && 0 <= from <= p.pos
      && NoMatch(buf.Contents(), what, from, p.pos)
    requires Without(buf.Contents(), p.pos, p.pos + k - p.posInChain, {what[0]})
    ensures PtrIn(buf.view, buf.totalLen, r, j) && from <= r.pos && NoMatch(buf.Contents(), what, from, r.pos)
    ensures if same then MatchAt(buf.Contents(), what, r.pos) else r.pos > p.pos
    ensures j == i || j == i + 1
  {
    hide Flatten, LastWithData, Stores, Linked, Distinct, Chain.Valid, EvBuffer.Valid, MatchAt, NoMatch, Without;
    ghost var s := buf.Contents();
    Sizes(buf);
    buf.ChainAt(i);
    j := i;
    r := EvPtr(p.pos + k - p.posInChain, p.chain, k);
    FlatAt(buf.view.pieces, i, k);
    assert PtrIn(buf.view, buf.totalLen, r, i);
    SkipTo(s, what, from, p.pos, r.pos);
    var cmp := PtrMemcmp(buf, r, what);
    same := cmp == 0;
    if same {
      return;
    }
    SkipOne(s, what, from, r.pos);
    r := r.(pos := r.pos + 1, posInChain := k + 1);
    if r.posInChain == r.chain.off {
      r := r.(chain := r.chain.next, posInChain := 0);
      j := i + 1;
      AtNext(buf, j);
    }
  }

  /** evbuffer_search_range. */
  method SearchRange(buf: EvBuffer, what: seq<Byte>, start: Start, end: Start) returns (r: EvPtr)
    requires buf.Valid() && (start.From? ==> PtrAt(buf.view, buf.totalLen, start.ptr))
    requires end.From? ==> PtrAt(buf.view, buf.totalLen, end.ptr)
    ensures var from := if start.From? then start.ptr.pos else 0;
            var to := if end.From? then end.ptr.pos else |buf.Contents()|;
            if what == [] || |what| > SSIZE_MAX then r.pos == from && PtrAt(buf.view, buf.totalLen, r)
            else if r.pos >= 0 then
              && PtrAt(buf.view, buf.totalLen, r) && from <= r.pos && r.pos + |what| <= to
              && MatchAt(buf.Contents(), what, r.pos) && NoMatch(buf.Contents(), what, from, r.pos)
            else r == NOT_FOUND && NoMatch(buf.Contents(), what, from, to - |what| + 1)
  {
    hide Flatten, LastWithData, Stores, Linked, Distinct, Chain.Valid, EvBuffer.Valid, MatchAt, NoMatch, Without;
    ghost var p, s := buf.view.pieces, buf.Contents();
    r := if start.From? then start.ptr else EvPtr(0, buf.first, 0);
    var lastChain := if end.From? then end.ptr.chain else null;
    ghost var i := SearchStart(buf, r, start);
    ghost var from, to := r.pos, if end.From? then end.ptr.pos else |s|;
    if |what| == 0 || |what| > SSIZE_MAX {
      return;
    }
    var chain := r.chain;
    NoMatchYet(s, what, from);
    while chain != null
      invariant chain == r.chain && PtrIn(buf.view, buf.totalLen, r, i)
      invariant from <= r.pos && NoMatch(s, what, from, r.pos)
      decreases |buf.view.chains| - i, if chain == null then 0 else buf.totalLen - r.pos
    {
      buf.ChainAt(i);
      var k := FindByte(chain, r.posInChain, chain.off, what[0]);
      WithoutInPiece(p, i, r.posInChain, if k < 0 then chain.off else k, {what[0]});
      if k >= 0 {
        var same;
        same, r, i := TryMatch(buf, what, r, k, i, from);
        if same {
          if end.From? && r.pos + |what| > end.ptr.pos {
            Late(s, what, from, r.pos, to);
            return NOT_FOUND;
          }
          MatchFits(s, what, r.pos);
          return;
        }
        chain := r.chain;
      } else {
        SkipTo(s, what, from, r.pos, r.pos + chain.off - r.posInChain);
        if chain == lastChain {
          EndInChain(buf, chain, end.ptr, i);
          Late(s, what, from, r.pos + chain.off - r.posInChain, to);
          return NOT_FOUND;
        }
        r := EvPtr(r.pos + chain.off - r.posInChain, chain.next, 0);
        chain := chain.next;
        i := i + 1;
        AtNext(buf, i);
      }
    }
    Late(s, what, from, r.pos, to);
    return NOT_FOUND;
  }

  lemma SearchStart(buf: EvBuffer, r: EvPtr, start: Start) returns (i: nat)
    requires buf.Valid() && (start.From? ==> PtrAt(buf.view, buf.totalLen, start.ptr))
    requires r == if start.From? then start.ptr else EvPtr(0, buf.first, 0)
    ensures PtrIn(buf.view, buf.totalLen, r, i) && |buf.Contents()| == buf.totalLen
  {
    if start.From? {
      i := PtrIndex(buf.view, buf.totalLen, r);
    } else {
      i := 0;
    }
  }

  lemma NoMatchYet(s: seq<Byte>, what: seq<Byte>, from: int)
    ensures NoMatch(s, what, from, from)
  {
  }

  lemma SkipTo(s: seq<Byte>, what: seq<Byte>, from: int, a: int, b: int)
    requires what != [] && 0 <= a && NoMatch(s, what, from, a) && Without(s, a, b, {what[0]})
    ensures NoMatch(s, what, from, b)
  {
    WithoutNoMatch(s, what, a, b);
  }

  lemma SkipOne(s: seq<Byte>, what: seq<Byte>, from: int, a: int)
    requires NoMatch(s, what, from, a) && !MatchAt(s, what, a)
    ensures NoMatch(s, what, from, a + 1)
  {
  }

  lemma Late(s: seq<Byte>, what: seq<Byte>, from: int, a: int, to: int)
    requires NoMatch(s, what, from, a) && to - |what| < a
    ensures NoMatch(s, what, from, to - |what| + 1)
  {
  }

  lemma MatchFits(s: seq<Byte>, what: seq<Byte>, k: int)
    requires MatchAt(s, what, k)
    ensures 0 <= k && k + |what| <= |s|
  {
  }

  /** The start of chain 'i', or the end of the buffer, as a position. */
  lemma AtNext(buf: EvBuffer, i: nat)
    requires buf.Valid() && i <= |buf.view.chains|
    ensures PtrIn(buf.view, buf.totalLen, EvPtr(|Flatten(buf.view.pieces[..i])|, At(buf.view.chains, i), 0), i)
  {
    FlattenMonotone(buf.view.pieces, i, i);
    WholeString(buf.view.pieces);
  }

  /** A position whose chain is chain 'i' does not lie behind that chain. */
  lemma EndInChain(buf: EvBuffer, chain: Chain, p: EvPtr, i: nat)
    requires buf.Valid() && PtrAt(buf.view, buf.totalLen, p) && i < |buf.view.chains|
    requires chain == buf.view.chains[i] && p.chain == chain
    ensures p.pos <= |Flatten(buf.view.pieces[..i])| + |buf.view.pieces[i]|
  {
    var j := PtrIndex(buf.view, buf.totalLen, p);
    OthersDiffer(buf.view.chains, i);
  }

  const CR: Byte := 13
  const LF: Byte := 10
  const NUL: Byte := 0
  const CHUNK_SZ := 128

  /** find_eol_char: the first CR or LF of one chain, looked for in chunks. */
  method FindEolChar(chain: Chain, from: nat) returns (r: int)
    requires chain.Valid() && from <= chain.off
    ensures r == -1 || (from <= r < chain.off && chain.data[r] in {CR, LF})
    ensures forall j | from <= j < (if r == -1 then chain.off else r) :: chain.data[j] !in {CR, LF}
  {
    var s := from;
    while s < chain.off
      invariant from <= s && forall j | from <= j < s && j < chain.off :: chain.data[j] !in {CR, LF}
    {
      var chunk := if s + CHUNK_SZ < chain.off then CHUNK_SZ else chain.off - s;
      var cr := FindByte(chain, s, s + chunk, CR);
      var lf := FindByte(chain, s, s + chunk, LF);
      if cr >= 0 {
        return if lf >= 0 && lf < cr then lf else cr;
      } else if lf >= 0 {
        return lf;
      }
      s := s + CHUNK_SZ;
    }
    return -1;
  }

  /** evbuffer_find_eol_char. */
  method FindEol(buf: EvBuffer, it: EvPtr) returns (found: bool, r: EvPtr)
    requires buf.Valid() && PtrAt(buf.view, buf.totalLen, it)
    ensures |buf.Contents()| == buf.totalLen
    ensures found ==> PtrAt(buf.view, buf.totalLen, r) && r.chain != null && it.pos <= r.pos < buf.totalLen
    ensures found ==> buf.Contents()[r.pos] in {CR, LF} && Without(buf.Contents(), it.pos, r.pos, {CR, LF})
    ensures !found ==> Without(buf.Contents(), it.pos, buf.totalLen, {CR, LF})
  {
    hide Flatten, LastWithData, Stores, Linked, Distinct, Chain.Valid, EvBuffer.Valid;
    ghost var p := buf.view.pieces;
    Sizes(buf);
    ghost var i := PtrIndex(buf.view, buf.totalLen, it);
    var chain, a: nat, pos := it.chain, it.posInChain, it.pos;
    while chain != null
      invariant i <= |buf.view.chains| && chain == At(buf.view.chains, i)
      invariant chain != null ==> a <= |p[i]| && pos == |Flatten(p[..i])| + a
      invariant chain == null ==> pos == buf.totalLen
      invariant it.pos <= pos && Without(buf.Contents(), it.pos, pos, {CR, LF})
      decreases |buf.view.chains| - i
    {
      buf.ChainAt(i);
      var k := FindEolChar(chain, a);
      WithoutInPiece(p, i, a, if k < 0 then chain.off else k, {CR, LF});
      if k >= 0 {
        r := EvPtr(pos + k - a, chain, k);
        assert PtrIn(buf.view, buf.totalLen, r, i);
        return true, r;
      }
      pos, a, chain, i := pos + chain.off - a, 0, chain.next, i + 1;
      if chain == null {
        WholeString(p);
      }
    }
    return false, NOT_FOUND;
  }

  datatype EolStyle = Any | Crlf | CrlfStrict | Lf | Nul

  /** A line terminator of the given style, 'n' bytes long, stands in 's' at 'k'. */
  ghost predicate TermAt(s: seq<Byte>, style: EolStyle, k: int, n: nat) {
    0 <= k < |s| &&
    match style
    case Any => s[k] in {CR, LF} && n == Span(s, k, {CR, LF})
    case Crlf => (n == 1 && s[k] == LF) || (n == 2 && MatchAt(s, [CR, LF], k))
    case CrlfStrict => n == 2 && MatchAt(s, [CR, LF], k)
    case Lf => n == 1 && s[k] == LF
    case Nul => n == 1 && s[k] == NUL
  }

  /** No terminator starts in the stretch. */
  ghost predicate NoTerm(s: seq<Byte>, style: EolStyle, a: int, b: int) {
    forall k, n | a <= k < b :: !TermAt(s, style, k, n)
  }

  /** The bytes evbuffer_search_eol looks for first. */
  function Starters(style: EolStyle): set<Byte> {
    match style
    case Any => {CR, LF}
    case Crlf => {LF}
    case CrlfStrict => {}
    case Lf => {LF}
    case Nul => {NUL}
  }

  /** A chain position without any byte a terminator may start with. */
  lemma NoTermWithout(s: seq<Byte>, style: EolStyle, a: int, b: int)
    requires 0 <= a
    requires Without(s, a, b, Starters(style))
    ensures !style.CrlfStrict? && !style.Crlf? ==> NoTerm(s, style, a, b)
    ensures style.Crlf? ==> NoTerm(s, style, a, b - 1) && (b >= |s| ==> NoTerm(s, style, a, b))
    ensures style.Crlf? && 0 < b <= |s| && s[b - 1] != CR ==> NoTerm(s, style, a, b)
  {
    if style.Crlf? {
      forall k | a <= k < b && MatchAt(s, [CR, LF], k) ensures k + 1 == b < |s| && s[k] == CR {
        assert s[k..k + 2][1] == s[k + 1] && s[k..k + 2][0] == s[k];
      }
    }
  }

  /** evbuffer_search_eol. */
  method SearchEol(buf: EvBuffer, start: Start, style: EolStyle) returns (r: EvPtr, extra: nat)
    requires buf.Valid() && (start.From? ==> PtrAt(buf.view, buf.totalLen, start.ptr))
    ensures var from := if start.From? then start.ptr.pos else 0;
            if r.pos >= 0 then
              && PtrAt(buf.view, buf.totalLen, r) && from <= r.pos
              && TermAt(buf.Contents(), style, r.pos, extra) && NoTerm(buf.Contents(), style, from, r.pos)
            else r == NOT_FOUND && extra == 0 && NoTerm(buf.Contents(), style, from, |buf.Contents()|)
  {
    hide Flatten, LastWithData, Stores, Linked, Distinct, Chain.Valid, EvBuffer.Valid, MatchAt, NoMatch, Without,
      NoTerm;
    ghost var s := buf.Contents();
    if start.From? && start.ptr.chain == null {
      AtEnd(buf, start.ptr, style);
      return NOT_FOUND, 0;
    }
    var it := if start.From? then start.ptr else EvPtr(0, buf.first, 0);
    ghost var _ := SearchStart(buf, it, start);
    match style
    case Any => r, extra := SearchAny(buf, it);
    case CrlfStrict =>
      r := SearchRange(buf, [CR, LF], From(it), FromFirst);
      StrictTerm(s, it.pos, r.pos);
      if r.pos >= 0 {
        extra := 2;
      } else {
        extra := 0;
      }
    case Crlf => r, extra := SearchCrlf(buf, it);
    case Lf => r, extra := SearchOne(buf, it, LF, Lf);
    case Nul => r, extra := SearchOne(buf, it, NUL, Nul);
  }

  lemma AtEnd(buf: EvBuffer, p: EvPtr, style: EolStyle)
    requires buf.Valid() && PtrAt(buf.view, buf.totalLen, p) && p.chain == null
    ensures NoTerm(buf.Contents(), style, p.pos, |buf.Contents()|)
  {
    var i := PtrIndex(buf.view, buf.totalLen, p);
  }

  lemma StrictTerm(s: seq<Byte>, from: int, k: int)
    requires 0 <= from
    requires if k >= 0 then MatchAt(s, [CR, LF], k) && NoMatch(s, [CR, LF], from, k)
             else NoMatch(s, [CR, LF], from, |s| - 1)
    ensures if k >= 0 then TermAt(s, CrlfStrict, k, 2) && NoTerm(s, CrlfStrict, from, k)
            else NoTerm(s, CrlfStrict, from, |s|)
  {
  }

  method SearchOne(buf: EvBuffer, it: EvPtr, c: Byte, ghost style: EolStyle) returns (r: EvPtr, extra: nat)
    requires buf.Valid() && PtrAt(buf.view, buf.totalLen, it) && it.pos >= 0
    requires (style == Lf && c == LF) || (style == Nul && c == NUL)
    ensures if r.pos >= 0 then
              && PtrAt(buf.view, buf.totalLen, r) && it.pos <= r.pos
              && TermAt(buf.Contents(), style, r.pos, extra) && NoTerm(buf.Contents(), style, it.pos, r.pos)
            else r == NOT_FOUND && extra == 0 && NoTerm(buf.Contents(), style, it.pos, |buf.Contents()|)
  {
    hide Flatten, LastWithData, Stores, Linked, Distinct, Chain.Valid, EvBuffer.Valid, Without, NoTerm;
    var found;
    found, r := Strchr(buf, it, c);
    NoTermWithout(buf.Contents(), style, it.pos, if found then r.pos else |buf.Contents()|);
    if !found {
      return NOT_FOUND, 0;
    }
    return r, 1;
  }

  method SearchAny(buf: EvBuffer, it: EvPtr) returns (r: EvPtr, extra: nat)
    requires buf.Valid() && PtrAt(buf.view, buf.totalLen, it) && it.pos >= 0
    ensures if r.pos >= 0 then
              && PtrAt(buf.view, buf.totalLen, r) && it.pos <= r.pos
              && TermAt(buf.Contents(), Any, r.pos, extra) && NoTerm(buf.Contents(), Any, it.pos, r.pos)
            else r == NOT_FOUND && extra == 0 && NoTerm(buf.Contents(), Any, it.pos, |buf.Contents()|)
  {
    hide Flatten, LastWithData, Stores, Linked, Distinct, Chain.Valid, EvBuffer.Valid, Without, NoTerm, Span;
    var found;
    found, r := FindEol(buf, it);
    NoTermWithout(buf.Contents(), Any, it.pos, if found then r.pos else |buf.Contents()|);
    if !found {
      return NOT_FOUND, 0;
    }
    extra := Strspn(buf, r, {CR, LF});
  }

  /** Look for an LF, optionally preceded by a CR that is not before the start. */
  method SearchCrlf(buf: EvBuffer, it: EvPtr) returns (r: EvPtr, extra: nat)
    requires buf.Valid() && PtrAt(buf.view, buf.totalLen, it) && it.pos >= 0
    ensures if r.pos >= 0 then
              && PtrAt(buf.view, buf.totalLen, r) && it.pos <= r.pos
              && TermAt(buf.Contents(), Crlf, r.pos, extra) && NoTerm(buf.Contents(), Crlf, it.pos, r.pos)
            else r == NOT_FOUND && extra == 0 && NoTerm(buf.Contents(), Crlf, it.pos, |buf.Contents()|)
  {
    hide Flatten, LastWithData, Stores, Linked, Distinct, Chain.Valid, EvBuffer.Valid, Without, NoTerm;
    var found;
    found, r := Strchr(buf, it, LF);
    NoTermWithout(buf.Contents(), Crlf, it.pos, if found then r.pos else |buf.Contents()|);
    if !found {
      return NOT_FOUND, 0;
    }
    if r.pos == it.pos {
      EmptyStretch(buf.Contents(), Crlf, it.pos);
      return r, 1;
    }
    var res, it2 := PtrSubtract(buf, r, 1);
    if res == 0 {
      var c := Getchr(buf, it2);
      if c == CR {
        assert buf.Contents()[it2.pos..it2.pos + 2] == [CR, LF];
        ByteIsPtr(buf, it2);
        return it2, 2;
      }
    }
    return r, 1;
  }

  lemma EmptyStretch(s: seq<Byte>, style: EolStyle, a: int)
    ensures NoTerm(s, style, a, a)
  {
  }

  lemma ByteIsPtr(buf: EvBuffer, p: EvPtr)
    requires buf.Valid() && OnByte(buf.view, buf.totalLen, p)
    ensures PtrAt(buf.view, buf.totalLen, p)
  {
  }

  datatype Line = NoLine | Line(text: seq<Byte>)

  /** How far an ev_ssize_t can tell positions: behind that they turn negative and count as not found. */
  function Tellable(length: nat): nat {
    if length <= SSIZE_MAX then length else SSIZE_MAX + 1
  }

  /** evbuffer_readln; 'mem' says whether the line can be allocated. */
  method Readln(buf: EvBuffer, style: EolStyle, mem: bool) returns (line: Line, nRead: nat)
    requires buf.Valid()
    modifies buf`first, buf`last, buf`lastWithDatap, buf`totalLen, buf`view, set c: Chain | c in buf.view.chains
    ensures buf.Valid() && OldOrFresh(buf)
    ensures line.NoLine? ==> buf.Contents() == old(buf.Contents()) && nRead == 0
    ensures line.NoLine?
      <==> buf.freezeStart || !mem || NoTerm(old(buf.Contents()), style, 0, Tellable(|old(buf.Contents())|))
    ensures line.Line? ==> nRead == |line.text| && exists n: nat ::
      && TermAt(old(buf.Contents()), style, nRead, n) && NoTerm(old(buf.Contents()), style, 0, nRead)
      && nRead + n <= |old(buf.Contents())|
      && old(buf.Contents()) == line.text + old(buf.Contents())[nRead..nRead + n] + buf.Contents()
    ensures old(buf.NoGap()) ==> buf.NoGap()
  {
    hide Flatten, LastWithData, Stores, Linked, Distinct, Chain.Valid, EvBuffer.Valid, NoTerm, TermAt;
    ghost var s := buf.Contents();
    if buf.freezeStart {
      return NoLine, 0;
    }
    buf.Length();
    var it, extra := SearchEol(buf, FromFirst, style);
    if it.pos < 0 {
      FewerTerms(s, style, |s|, Tellable(|s|));
      return NoLine, 0;
    }
    TermFits(s, style, it.pos, extra);
    if ToSsize(it.pos) < 0 {
      FewerTerms(s, style, it.pos, Tellable(|s|));
      return NoLine, 0;
    }
    if !mem {
      return NoLine, 0;
    }
    var n, text := Remove(buf, it.pos);
    buf.Length();
    var _ := Drain(buf, extra);
    nRead := it.pos;
    line := Line(text);
    SplitLine(s, text, nRead, extra, buf.Contents());
  }

  lemma FewerTerms(s: seq<Byte>, style: EolStyle, a: int, b: int)
    requires NoTerm(s, style, 0, a) && b <= a
    ensures NoTerm(s, style, 0, b)
  {
  }

  lemma TermFits(s: seq<Byte>, style: EolStyle, k: int, n: nat)
    requires TermAt(s, style, k, n)
    ensures 0 <= k && 0 < n && k + n <= |s| && (k <= SSIZE_MAX ==> !NoTerm(s, style, 0, Tellable(|s|)))
  {
    if style.Any? {
      SpanMaximal(s, k, {CR, LF});
    }
  }

  lemma SplitLine(s: seq<Byte>, text: seq<Byte>, k: nat, n: nat, rest: seq<Byte>)
    requires k + n <= |s| && |text| == k
    requires text + s[k..] == s && rest == s[k..][n..]
    ensures s == text + s[k..k + n] + rest
  {
  }
}
