/** Bytes, byte strings cut into pieces, and the flat string the pieces stand for. */
module Bytes {
  type Byte = x: int | 0 <= x < 256

  /** SIZE_MAX and SSIZE_MAX of a 64-bit platform. */
  const SIZE_MAX := 0xffff_ffff_ffff_ffff
  const SSIZE_MAX := 0x7fff_ffff_ffff_ffff

  /** The concatenation of all pieces, front to back. */
  ghost function Flatten(pieces: seq<seq<Byte>>): seq<Byte> {
    if pieces == [] then [] else pieces[0] + Flatten(pieces[1..])
  }

  ghost predicate AllEmpty(pieces: seq<seq<Byte>>) {
    forall i | 0 <= i < |pieces| :: pieces[i] == []
  }

  /** 'k' is the last piece that holds data, or 0 when no piece does. */
  ghost predicate LastWithData(pieces: seq<seq<Byte>>, k: nat) {
    && (if pieces == [] then k == 0 else k < |pieces|)
    && (forall i | k < i < |pieces| :: pieces[i] == [])
    && (k > 0 ==> pieces[k] != [])
  }

  /** No piece before piece 'k' is empty. */
  ghost predicate NoGapBefore(pieces: seq<seq<Byte>>, k: nat) {
    k <= |pieces| && forall i | 0 <= i < k :: pieces[i] != []
  }

  lemma {:induction false} FlattenConcat(a: seq<seq<Byte>>, b: seq<seq<Byte>>)
    ensures Flatten(a + b) == Flatten(a) + Flatten(b)
  {
    if a == [] {
      assert a + b == b;
    } else {
      assert (a + b)[1..] == a[1..] + b;
      FlattenConcat(a[1..], b);
    }
  }

  lemma {:induction false} FlattenSplit(p: seq<seq<Byte>>, k: nat)
    requires k <= |p|
    ensures Flatten(p) == Flatten(p[..k]) + Flatten(p[k..])
  {
    FlattenConcat(p[..k], p[k..]);
    assert p == p[..k] + p[k..];
  }

  lemma {:induction false} FlattenOne(x: seq<Byte>)
    ensures Flatten([x]) == x
  {
    assert [x][1..] == [];
  }

  lemma {:induction false} FlattenAllEmpty(p: seq<seq<Byte>>)
    requires AllEmpty(p)
    ensures Flatten(p) == []
  {
    if p != [] {
      FlattenAllEmpty(p[1..]);
    }
  }

  lemma {:induction false} FlattenNothing(p: seq<seq<Byte>>)
    requires Flatten(p) == []
    ensures AllEmpty(p)
  {
    if p != [] {
      FlattenNothing(p[1..]);
      assert forall i | 1 <= i < |p| :: p[i] == p[1..][i - 1];
    }
  }

  /** Flattening isolates any one piece. */
  lemma {:induction false} FlattenAround(p: seq<seq<Byte>>, k: nat)
    requires k < |p|
    ensures Flatten(p) == Flatten(p[..k]) + p[k] + Flatten(p[k + 1..])
    ensures |Flatten(p[..k + 1])| == |Flatten(p[..k])| + |p[k]|
  {
    FlattenSplit(p, k);
    assert p[k..][1..] == p[k + 1..];
    FlattenConcat(p[..k], [p[k]]);
    FlattenOne(p[k]);
    assert p[..k + 1] == p[..k] + [p[k]];
  }

  /** Replacing one piece changes only that stretch of the flat string. */
  lemma {:induction false} FlattenUpdate(p: seq<seq<Byte>>, k: nat, x: seq<Byte>)
    requires k < |p|
    ensures Flatten(p[k := x]) == Flatten(p[..k]) + x + Flatten(p[k + 1..])
  {
    var q := p[k := x];
    FlattenAround(q, k);
    assert q[..k] == p[..k] && q[k + 1..] == p[k + 1..];
  }

  /** Everything up to the last piece with data is the whole string. */
  lemma {:induction false} FlattenToLast(p: seq<seq<Byte>>, k: nat)
    requires LastWithData(p, k) && p != []
    ensures Flatten(p) == Flatten(p[..k + 1])
    ensures Flatten(p) == Flatten(p[..k]) + p[k]
    ensures Flatten(p[k + 1..]) == []
  {
    FlattenAround(p, k);
    FlattenSplit(p, k + 1);
    FlattenAllEmpty(p[k + 1..]);
  }

  /** The index of the last piece with data is determined by the pieces. */
  lemma {:induction false} LastWithDataUnique(p: seq<seq<Byte>>, j: nat, k: nat)
    requires LastWithData(p, j) && LastWithData(p, k)
    ensures j == k
  {
  }

  /** A prefix of pieces holds a prefix of the string. */
  lemma {:induction false} FlattenMonotone(p: seq<seq<Byte>>, i: nat, j: nat)
    requires i <= j <= |p|
    ensures |Flatten(p[..i])| <= |Flatten(p[..j])| <= |Flatten(p)|
    ensures Flatten(p[..i]) <= Flatten(p[..j]) <= Flatten(p)
  {
    FlattenSplit(p[..j], i);
    FlattenSplit(p, j);
    assert p[..j][..i] == p[..i];
  }

  /** Cutting off empty pieces at the end keeps the string. */
  lemma {:induction false} CutKeepsContents(p: seq<seq<Byte>>, lwd: nat, k: nat)
    requires LastWithData(p, lwd) && lwd <= k <= |p|
    requires k == lwd < |p| ==> p[lwd] == []
    ensures Flatten(p[..k]) == Flatten(p)
  {
    FlattenSplit(p, k);
    FlattenAllEmpty(p[k..]);
  }

  /** A piece put where the trailing empty pieces were cut off extends the string. */
  lemma {:induction false} InsertPiece(p: seq<seq<Byte>>, lwd: nat, k: nat, data: seq<Byte>)
    requires LastWithData(p, lwd)
    requires k == if lwd < |p| && p[lwd] != [] then lwd + 1 else lwd
    ensures k <= |p| && Flatten(p[..k] + [data]) == Flatten(p) + data
    ensures LastWithData(p[..k] + [data], if data != [] then k else lwd)
  {
    hide Flatten;
    if p != [] {
      CutKeepsContents(p, lwd, k);
    }
    FlattenConcat(p[..k], [data]);
    FlattenOne(data);
  }

  /** Bytes put behind the last data extend the string. */
  lemma {:induction false} ExtendLastPiece(p: seq<seq<Byte>>, lwd: nat, src: seq<Byte>)
    requires LastWithData(p, lwd) && p != []
    ensures Flatten(p[lwd := p[lwd] + src]) == Flatten(p) + src
    ensures LastWithData(p[lwd := p[lwd] + src], lwd)
  {
    FlattenToLast(p, lwd);
    FlattenUpdate(p, lwd, p[lwd] + src);
  }

  lemma {:induction false} InsertKeepsNoGap(p: seq<seq<Byte>>, lwd: nat, k: nat, data: seq<Byte>)
    requires k <= |p| && k == if lwd < |p| && p[lwd] != [] then lwd + 1 else lwd
    ensures NoGapBefore(p, lwd) ==> NoGapBefore(p[..k] + [data], if data != [] then k else lwd)
  {
  }

  /** Bytes put before the first piece come first in the string. */
  lemma {:induction false} ExtendFirstPiece(p: seq<seq<Byte>>, lwd: nat, src: seq<Byte>)
    requires LastWithData(p, lwd) && p != []
    ensures Flatten(p[0 := src + p[0]]) == src + Flatten(p)
    ensures LastWithData(p[0 := src + p[0]], lwd)
    ensures NoGapBefore(p, lwd) ==> NoGapBefore(p[0 := src + p[0]], lwd)
  {
    FlattenAround(p, 0);
    FlattenUpdate(p, 0, src + p[0]);
  }

  /** A new first piece comes first in the string. */
  lemma {:induction false} NewFirstPiece(p: seq<seq<Byte>>, lwd: nat, src: seq<Byte>)
    requires LastWithData(p, lwd) && p != [] && p[0] != [] && src != []
    ensures Flatten([src] + p) == src + Flatten(p)
    ensures LastWithData([src] + p, lwd + 1)
    ensures NoGapBefore(p, lwd) ==> NoGapBefore([src] + p, lwd + 1)
  {
    FlattenConcat([src], p);
    FlattenOne(src);
    assert lwd == 0 ==> ([src] + p)[1] == p[0];
  }

  /** A stretch of one piece is a stretch of the string. */
  lemma {:induction false} PieceSlice(p: seq<seq<Byte>>, i: nat, a: nat, b: nat)
    requires i < |p| && a <= b <= |p[i]|
    ensures |Flatten(p[..i + 1])| == |Flatten(p[..i])| + |p[i]| <= |Flatten(p)|
    ensures Flatten(p)[|Flatten(p[..i])| + a..|Flatten(p[..i])| + b] == p[i][a..b]
  {
    FlattenAround(p, i);
  }

  /** Dropping bytes that end within piece 'i'. */
  lemma {:induction false} DropPieces(p: seq<seq<Byte>>, lwd: nat, i: nat, n: nat)
    requires LastWithData(p, lwd) && i < |p| && n < |p[i]|
    ensures i <= lwd && |Flatten(p[..i])| + n < |Flatten(p)|
    ensures Flatten(p[i..][0 := p[i][n..]]) == Flatten(p)[|Flatten(p[..i])| + n..]
    ensures LastWithData(p[i..][0 := p[i][n..]], lwd - i)
    ensures NoGapBefore(p, lwd) ==> NoGapBefore(p[i..][0 := p[i][n..]], lwd - i)
  {
    FlattenAround(p, i);
    FlattenUpdate(p[i..], 0, p[i][n..]);
    assert p[i..][1..] == p[i + 1..];
  }

  /** A list that holds data, put behind the data of another: the data joins up. */
  lemma {:induction false} JoinPieces(p: seq<seq<Byte>>, lwd: nat, q: seq<seq<Byte>>, m: nat)
    requires LastWithData(p, lwd) && LastWithData(q, m) && Flatten(p) != [] && Flatten(q) != []
    ensures lwd < |p| && m < |q| && p[lwd] != [] && q[m] != []
    ensures Flatten(p[..lwd + 1] + q) == Flatten(p) + Flatten(q)
    ensures LastWithData(p[..lwd + 1] + q, lwd + 1 + m)
    ensures NoGapBefore(p, lwd) && NoGapBefore(q, m) ==> NoGapBefore(p[..lwd + 1] + q, lwd + 1 + m)
  {
    hide Flatten;
    LastHasData(p, lwd);
    LastHasData(q, m);
    FlattenToLast(p, lwd);
    FlattenConcat(p[..lwd + 1], q);
  }

  /** If there is any data, the last piece with data is not empty. */
  lemma {:induction false} LastHasData(p: seq<seq<Byte>>, lwd: nat)
    requires LastWithData(p, lwd) && Flatten(p) != []
    ensures p != [] && lwd < |p| && p[lwd] != []
  {
    if p[lwd] == [] {
      FlattenAllEmpty(p);
    }
  }

  /** A list put before another one that holds data. */
  lemma {:induction false} StackPieces(p: seq<seq<Byte>>, q: seq<seq<Byte>>, m: nat)
    requires LastWithData(q, m) && Flatten(q) != []
    ensures Flatten(p + q) == Flatten(p) + Flatten(q)
    ensures LastWithData(p + q, |p| + m)
    ensures NoGapBefore(p + q, |p| + m) <==> NoGapBefore(p, |p|) && NoGapBefore(q, m)
  {
    LastHasData(q, m);
    FlattenConcat(p, q);
    var s := p + q;
    if NoGapBefore(s, |p| + m) {
      assert forall i | 0 <= i < |p| :: p[i] == s[i];
      assert forall i | 0 <= i < m :: q[i] == s[|p| + i];
    }
  }

  lemma {:induction false} Assoc(a: seq<Byte>, b: seq<Byte>, c: seq<Byte>)
    ensures a + b + c == a + (b + c)
  {
  }

  /** What an int keeps of a count: its low 32 bits, as a signed number. */
  function ToInt(n: int): (r: int)
    ensures -0x8000_0000 <= r < 0x8000_0000 && (n - r) % 0x1_0000_0000 == 0
  {
    var m := n % 0x1_0000_0000;
    if m >= 0x8000_0000 then m - 0x1_0000_0000 else m
  }

  /** What an ev_ssize_t keeps of a size_t. */
  function ToSsize(n: nat): (r: int)
    requires n <= SIZE_MAX
    ensures -SSIZE_MAX - 1 <= r <= SSIZE_MAX && (r == n <==> n <= SSIZE_MAX) && (r < 0 <==> n > SSIZE_MAX)
  {
    if n <= SSIZE_MAX then n else n - (SIZE_MAX + 1)
  }

  /** Where advance_last_with_data stops when it starts at piece 'j': before the first empty piece. */
  ghost function Advance(p: seq<seq<Byte>>, j: nat): (r: nat)
    requires j < |p|
    ensures j <= r < |p|
    decreases |p| - j
  {
    if j + 1 < |p| && p[j + 1] != [] then Advance(p, j + 1) else j
  }

  /** advance_last_with_data finds the last piece with data exactly when no empty piece lies between. */
  lemma {:induction false} AdvanceExact(p: seq<seq<Byte>>, j: nat, lwd: nat)
    requires LastWithData(p, lwd) && j <= lwd && j < |p|
    ensures Advance(p, j) == lwd <==> forall i | j < i <= lwd :: p[i] != []
    decreases |p| - j
  {
    if j < lwd {
      if p[j + 1] != [] {
        AdvanceExact(p, j + 1, lwd);
      }
    }
  }

  lemma {:induction false} SomeLast(p: seq<seq<Byte>>) returns (m: nat)
    ensures LastWithData(p, m)
  {
    if p == [] || p[|p| - 1] != [] {
      m := if p == [] then 0 else |p| - 1;
    } else {
      var q := p[..|p| - 1];
      m := SomeLast(q);
      assert forall i | 0 <= i < |q| :: p[i] == q[i];
    }
  }

  /** From piece 's' on, no empty piece stands before one with data. */
  ghost predicate Gapless(p: seq<seq<Byte>>, s: nat) {
    forall j, m | s <= j < m < |p| && p[m] != [] :: p[j] != []
  }

  lemma {:induction false} GaplessToLast(p: seq<seq<Byte>>, s: nat, m: nat)
    requires LastWithData(p, m) && m < |p| && p[m] != []
    ensures Gapless(p, s) <==> forall i | s <= i <= m :: p[i] != []
  {
  }

  /**
   * The list 'q', put behind the data of 'p': advance_last_with_data, which starts at the last
   * piece of 'p' with data, finds the last piece with data exactly when 'q' has no empty piece
   * before it. Where 'p' holds no data the search starts at the first piece of 'q'.
   */
  lemma {:induction false} AdvanceBehind(p: seq<seq<Byte>>, lwd: nat, k: nat, q: seq<seq<Byte>>)
    requires LastWithData(p, lwd) && k == (if lwd < |p| && p[lwd] != [] then lwd + 1 else lwd) && Flatten(q) != []
    ensures k <= |p| && lwd < |p[..k] + q|
    ensures LastWithData(p[..k] + q, Advance(p[..k] + q, lwd)) <==> Gapless(q, if k > lwd then 0 else 1)
  {
    hide Flatten, Advance;
    var w := p[..k] + q;
    var m := SomeLast(q);
    LastHasData(q, m);
    assert forall i | 0 <= i < |q| :: w[k + i] == q[i];
    AdvanceExact(w, lwd, k + m);
    GaplessToLast(q, if k > lwd then 0 else 1, m);
  }

  /**
   * Bytes put into the very last piece: advance_last_with_data, from the last piece with data on,
   * arrives there exactly when at most one piece lies behind that one.
   */
  lemma {:induction false} AdvanceToEnd(p: seq<seq<Byte>>, lwd: nat, x: seq<Byte>)
    requires LastWithData(p, lwd) && p != [] && x != []
    ensures var q := p[|p| - 1 := p[|p| - 1] + x]; LastWithData(q, Advance(q, lwd)) <==> |p| <= lwd + 2
  {
    var q := p[|p| - 1 := p[|p| - 1] + x];
    AdvanceExact(q, lwd, |p| - 1);
    if |p| > lwd + 2 {
      assert q[lwd + 1] == [];
    }
  }

  /** The first 'i' pieces and a part of the next one pulled together into one piece. */
  ghost function Pulled(p: seq<seq<Byte>>, i: nat, n: nat): seq<seq<Byte>>
    requires i <= |p| && (if i < |p| then n <= |p[i]| else n == 0)
  {
    if i == |p| then [Flatten(p)] else [Flatten(p[..i]) + p[i][..n]] + p[i..][0 := p[i][n..]]
  }

  lemma {:induction false} PulledFlat(p: seq<seq<Byte>>, i: nat, n: nat)
    requires i < |p| && n <= |p[i]|
    ensures Flatten(Pulled(p, i, n)) == Flatten(p)
  {
    hide Flatten;
    var a, b, c := Flatten(p[..i]), p[i], Flatten(p[i + 1..]);
    var rest := p[i..][0 := b[n..]];
    FlattenAround(p, i);
    FlattenUpdate(p[i..], 0, b[n..]);
    assert p[i..][1..] == p[i + 1..];
    assert p[i..][..0] == [] && Flatten([]) == [] by {
      EmptyString();
    }
    FlattenConcat([a + b[..n]], rest);
    FlattenOne(a + b[..n]);
    assert Flatten(rest) == b[n..] + c;
    assert a + b + c == (a + b[..n]) + (b[n..] + c);
  }

  lemma {:induction false} EmptyString()
    ensures Flatten([]) == []
  {
  }

  lemma {:induction false} PulledSame(p: seq<seq<Byte>>, lwd: nat, i: nat, n: nat)
    requires LastWithData(p, lwd) && i <= |p| && (if i < |p| then n < |p[i]| else n == 0)
    requires Flatten(p) != [] && 0 < |Flatten(p[..i])| + n
    ensures Flatten(Pulled(p, i, n)) == Flatten(p)
    ensures i < |p| ==> i <= lwd
    ensures LastWithData(Pulled(p, i, n), if i == |p| then 0 else lwd - i + 1)
    ensures NoGapBefore(p, lwd) ==> NoGapBefore(Pulled(p, i, n), if i == |p| then 0 else lwd - i + 1)
  {
    hide Flatten;
    if i == |p| {
      FlattenOne(Flatten(p));
    } else {
      PulledFlat(p, i, n);
    }
  }

  /** Replacing empty pieces behind the data by one empty piece, or by none, keeps the string. */
  lemma {:induction false} SwapTail(p: seq<seq<Byte>>, lwd: nat, k: nat, tail: seq<seq<Byte>>)
    requires LastWithData(p, lwd) && k <= |p| && (lwd < k || (k == lwd && (k < |p| ==> p[k] == []))) && AllEmpty(tail)
    requires tail == [] ==> k > lwd || k == 0
    ensures Flatten(p[..k] + tail) == Flatten(p)
    ensures LastWithData(p[..k] + tail, lwd)
    ensures NoGapBefore(p, lwd) ==> NoGapBefore(p[..k] + tail, lwd)
  {
    CutKeepsContents(p, lwd, k);
    FlattenConcat(p[..k], tail);
    FlattenAllEmpty(tail);
  }

  /** Bytes put into a piece at or behind the last one with data extend the string. */
  lemma {:induction false} FillPiece(p: seq<seq<Byte>>, lwd: nat, i: nat, src: seq<Byte>)
    requires LastWithData(p, lwd) && lwd <= i < |p|
    ensures Flatten(p[i := p[i] + src]) == Flatten(p) + src
    ensures LastWithData(p[i := p[i] + src], if src != [] then i else lwd)
    ensures NoGapBefore(p, lwd) && (i == lwd || src == [] || (i == lwd + 1 && p[lwd] != []))
      ==> NoGapBefore(p[i := p[i] + src], if src != [] then i else lwd)
  {
    hide Flatten;
    FlattenAround(p, i);
    FlattenUpdate(p, i, p[i] + src);
    FlattenAllEmpty(p[i + 1..]);
  }
}
