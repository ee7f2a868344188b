/** The RC4 generator and the unbiased bounded draw. */
module Arc4 {
  import opened Bytes

  const UINT32 := 0x1_0000_0000

  /** struct arc4_stream, as a value. */
  datatype Stream = Stream(i: Byte, j: Byte, s: seq<Byte>) {
    ghost predicate Valid() {
      |s| == 256
    }
  }

  /** Addition of unsigned chars. */
  function Plus(a: int, b: int): Byte {
    (a + b) % 256
  }

  function Identity(): (s: seq<Byte>)
    ensures |s| == 256
  {
    seq(256, n requires 0 <= n < 256 => n)
  }

  /** Every byte occurs exactly once. */
  ghost predicate IsPermutation(s: seq<Byte>) {
    |s| == 256 && multiset(s) == multiset(Identity())
  }

  function Swapped(s: seq<Byte>, a: nat, b: nat): (t: seq<Byte>)
    requires a < |s| && b < |s|
    ensures |t| == |s|
  {
    s[a := s[b]][b := s[a]]
  }

  /** One turn of the generator, and the byte it gives. */
  function Turn(st: Stream): Stream
    requires st.Valid()
  {
    var i := Plus(st.i, 1);
    var j := Plus(st.j, st.s[i]);
    Stream(i, j, Swapped(st.s, i, j))
  }

  function Output(st: Stream): Byte
    requires st.Valid()
  {
    var t := Turn(st);
    t.s[Plus(t.s[t.i], t.s[t.j])]
  }

  /** The turn before: what is known of the new state determines the old one. */
  function Unturn(t: Stream): Stream
    requires t.Valid()
  {
    var s := Swapped(t.s, t.i, t.j);
    var si: int := s[t.i];
    Stream(Plus(t.i, -1), Plus(t.j, -si), s)
  }

  /** No two states lead to the same state: the generator never falls into a shorter cycle from outside. */
  lemma TurnReversible(st: Stream)
    requires st.Valid()
    ensures Turn(st).Valid() && Unturn(Turn(st)) == st
  {
    var t := Turn(st);
    assert Swapped(t.s, t.i, t.j) == st.s;
    PlusUndone(st.i, 1);
    PlusUndone(st.j, st.s[t.i]);
  }

  lemma PlusUndone(a: Byte, b: Byte)
    ensures var minus: int := b; Plus(Plus(a, b), -minus) == a
  {
  }

  lemma SwapKeeps(s: seq<Byte>, a: nat, b: nat)
    requires a < |s| && b < |s|
    ensures multiset(Swapped(s, a, b)) == multiset(s)
  {
  }

  /** A permutation holds every byte at exactly one place. */
  lemma OncePlaced(s: seq<Byte>, v: Byte)
    requires IsPermutation(s)
    ensures exists k :: 0 <= k < 256 && s[k] == v && forall m | 0 <= m < 256 && s[m] == v :: m == k
  {
    OnceInIdentity(v);
    assert v in multiset(s);
    var k :| 0 <= k < 256 && s[k] == v;
    forall m | 0 <= m < 256 && s[m] == v ensures m == k {
      if m != k {
        TwiceCounted(s, k, m);
      }
    }
  }

  lemma OnceInIdentity(v: Byte)
    ensures multiset(Identity())[v] == 1
  {
    var a := Identity();
    assert a == a[..v] + [v] + a[v + 1..];
    assert multiset(a) == multiset(a[..v]) + multiset{v} + multiset(a[v + 1..]);
    assert v !in a[..v] && v !in a[v + 1..];
  }

  lemma TwiceCounted(s: seq<Byte>, k: nat, m: nat)
    requires k < |s| && m < |s| && k != m && s[k] == s[m]
    ensures multiset(s)[s[k]] >= 2
  {
    var a, b := if k < m then k else m, if k < m then m else k;
    assert s == s[..a] + [s[a]] + s[a + 1..b] + [s[b]] + s[b + 1..];
    assert multiset(s) == multiset(s[..a]) + multiset{s[a]} + multiset(s[a + 1..b]) + multiset{s[b]}
      + multiset(s[b + 1..]);
  }

  /** Four bytes, the first one the most significant. */
  function Word(a: int, b: int, c: int, d: int): int {
    a * 0x100_0000 + b * 0x1_0000 + c * 0x100 + d
  }

  /** Each byte of a word comes out at its place. */
  lemma WordBytes(a: Byte, b: Byte, c: Byte, d: Byte)
    ensures var w := Word(a, b, c, d);
            && 0 <= w < UINT32 && w / 0x100_0000 == a && w / 0x1_0000 % 256 == b && w / 0x100 % 256 == c && w % 256 == d
  {
    var w := Word(a, b, c, d);
    assert w / 0x100 == a * 0x1_0000 + b * 0x100 + c;
    assert w / 0x1_0000 == a * 0x100 + b;
  }

  lemma PlusPlus(a: int, b: int, c: int)
    ensures Plus(Plus(a, b), c) == Plus(a, b + c)
  {
  }

  lemma PlusZero(a: Byte)
    ensures Plus(a, 0) == a
  {
  }

  /** One round of mixing the byte 'd' in. */
  function Round(p: Stream, d: Byte): (t: Stream)
    requires p.Valid()
    ensures t.Valid()
  {
    var i := Plus(p.i, 1);
    var j := Plus(Plus(p.j, p.s[i]), d);
    Stream(i, j, Swapped(p.s, i, j))
  }

  /** The first 'n' rounds of mixing 'dat' in, from index 'i' on. */
  ghost function Mixed(st: Stream, dat: seq<Byte>, n: nat): (t: Stream)
    requires st.Valid() && dat != []
    ensures t.Valid()
  {
    if n == 0 then st
    else Round(Mixed(st, dat, n - 1), dat[(n - 1) % |dat|])
  }

  /** The round before, for a known byte. */
  function Unround(t: Stream, d: Byte): Stream
    requires t.Valid()
  {
    var s := Swapped(t.s, t.i, t.j);
    var moved: int := s[t.i] + d;
    Stream(Plus(t.i, -1), Plus(t.j, -moved), s)
  }

  /** A round can be undone by who knows its byte. */
  lemma RoundReversible(p: Stream, d: Byte)
    requires p.Valid()
    ensures Unround(Round(p, d), d) == p
  {
    hide Plus, Swapped;
    var t := Round(p, d);
    SwappedBack(p.s, t.i, t.j);
    PlusUndone(p.i, 1);
    JUndone(p.j, p.s[t.i], d);
  }

  lemma SwappedBack(s: seq<Byte>, a: nat, b: nat)
    requires a < |s| && b < |s|
    ensures Swapped(Swapped(s, a, b), a, b) == s && Swapped(s, a, b)[b] == s[a]
  {
  }

  lemma JUndone(j: Byte, a: Byte, d: Byte)
    ensures var moved: int := a + d; Plus(Plus(Plus(j, a), d), -moved) == j
  {
  }

  /** The byte is how much farther than the permutation says the second index moves. */
  lemma RoundDetermined(p: Stream, d: Byte)
    requires p.Valid()
    ensures var t := Round(p, d); var moved: int := p.j + p.s[t.i]; Plus(t.j, -moved) == d
  {
    ByteLeft(p.j, p.s[Plus(p.i, 1)], d);
  }

  lemma ByteLeft(j: Byte, a: Byte, d: Byte)
    ensures var moved: int := j + a; Plus(Plus(Plus(j, a), d), -moved) == d
  {
  }

  /** Another byte makes another permutation at once. */
  lemma OtherByte(p: Stream, d: Byte, d': Byte)
    requires p.Valid() && IsPermutation(p.s) && d != d'
    ensures Round(p, d).s != Round(p, d').s
  {
    hide IsPermutation, Plus;
    var t, t' := Round(p, d), Round(p, d');
    RoundDetermined(p, d);
    RoundDetermined(p, d');
    OncePlaced(p.s, p.s[t.j]);
    assert t.s[t.i] == p.s[t.j] && t'.s[t.i] == p.s[t'.j];
  }

  /** Every round keeps the permutation. */
  lemma {:induction false} MixedPermutes(st: Stream, dat: seq<Byte>, n: nat)
    requires st.Valid() && IsPermutation(st.s) && dat != []
    ensures IsPermutation(Mixed(st, dat, n).s)
  {
    hide Swapped;
    if n > 0 {
      MixedPermutes(st, dat, n - 1);
      var p := Mixed(st, dat, n - 1);
      var t := Round(p, dat[(n - 1) % |dat|]);
      SwapKeeps(p.s, t.i, t.j);
    }
  }

  /**
   * Every byte that is mixed in matters: data that differ in just one of the bytes that the 'n'
   * rounds use, and use once, lead to different states.
   */
  lemma {:induction false} EveryByteMatters(st: Stream, dat: seq<Byte>, m: nat, d: Byte, n: nat)
    requires st.Valid() && IsPermutation(st.s) && m < n <= |dat| && d != dat[m]
    ensures Mixed(st, dat, n) != Mixed(st, dat[m := d], n)
  {
    hide Round, Unround, IsPermutation, Mixed;
    var dat' := dat[m := d];
    NextRound(st, dat, n - 1);
    NextRound(st, dat', n - 1);
    var p, p' := Mixed(st, dat, n - 1), Mixed(st, dat', n - 1);
    if m == n - 1 {
      SameBefore(st, dat, dat', m);
      MixedPermutes(st, dat, m);
      OtherByte(p, dat[m], d);
    } else {
      EveryByteMatters(st, dat, m, d, n - 1);
      RoundReversible(p, dat[n - 1]);
      RoundReversible(p', dat[n - 1]);
    }
  }

  lemma {:induction false} NextRound(st: Stream, dat: seq<Byte>, n: nat)
    requires st.Valid() && n < |dat|
    ensures Mixed(st, dat, n + 1) == Round(Mixed(st, dat, n), dat[n])
  {
    hide Round;
    assert n % |dat| == n;
  }

  lemma {:induction false} SameBefore(st: Stream, dat: seq<Byte>, dat': seq<Byte>, n: nat)
    requires st.Valid() && dat != [] && |dat| == |dat'| && n <= |dat|
    requires forall k | 0 <= k < n :: dat[k] == dat'[k]
    ensures Mixed(st, dat, n) == Mixed(st, dat', n)
  {
    hide Round, Mixed;
    if n > 0 {
      SameBefore(st, dat, dat', n - 1);
      NextRound(st, dat, n - 1);
      NextRound(st, dat', n - 1);
    } else {
      NoRound(st, dat);
      NoRound(st, dat');
    }
  }

  lemma NoRound(st: Stream, dat: seq<Byte>)
    requires st.Valid() && dat != []
    ensures Mixed(st, dat, 0) == st
  {
  }

  /** 256 rounds of mixing in, from the index before, behind which the second index joins the first. */
  ghost function MixedIn(st: Stream, dat: seq<Byte>): (t: Stream)
    requires st.Valid() && dat != []
    ensures t.Valid()
  {
    Stream(Plus(st.i, 255), Plus(st.i, 255), Mixed(Stream(Plus(st.i, -1), st.j, st.s), dat, 256).s)
  }

  /** The same for all of the data, 256 bytes farther on each time. */
  ghost function AllMixed(st: Stream, dat: seq<Byte>): (t: Stream)
    requires st.Valid()
    ensures t.Valid()
    decreases |dat|
  {
    if dat == [] then st
    else AllMixed(MixedIn(st, dat), if |dat| <= 256 then [] else dat[256..])
  }

  /** Later blocks are mixed in like the first one: another last byte makes another permutation. */
  lemma {:induction false} LastByteMatters(st: Stream, dat: seq<Byte>, d: Byte)
    requires st.Valid() && IsPermutation(st.s) && dat != [] && |dat| % 256 == 0 && d != dat[|dat| - 1]
    ensures AllMixed(st, dat).s != AllMixed(st, dat[|dat| - 1 := d]).s
    decreases |dat|
  {
    hide Round, IsPermutation, Mixed;
    var last := |dat| - 1;
    var dat' := dat[last := d];
    var p := Stream(Plus(st.i, -1), st.j, st.s);
    if |dat| == 256 {
      NextRound(p, dat, 255);
      NextRound(p, dat', 255);
      SameBefore(p, dat, dat', 255);
      MixedPermutes(p, dat, 255);
      OtherByte(Mixed(p, dat, 255), dat[255], d);
    } else {
      SameBefore(p, dat, dat', 256);
      MixedPermutes(p, dat, 256);
      assert dat'[256..] == dat[256..][last - 256 := d];
      LastByteMatters(MixedIn(st, dat), dat[256..], d);
    }
  }

  class Generator {
    var i: Byte
    var j: Byte
    const s: array<Byte>

    ghost predicate Valid()
      reads this, s
    {
      s.Length == 256 && IsPermutation(s[..])
    }

    ghost function State(): (st: Stream)
      requires s.Length == 256
      reads this, s
      ensures st.Valid()
    {
      Stream(i, j, s[..])
    }

    /** arc4_init. */
    constructor ()
      ensures Valid() && State() == Stream(0, 0, Identity()) && fresh(s)
    {
      s := new Byte[256](_ => 0);
      i, j := 0, 0;
      new;
      for n := 0 to 256
        invariant forall k | 0 <= k < n :: s[k] == k
        invariant i == 0 && j == 0
      {
        s[n] := n;
      }
      assert s[..] == Identity();
    }

    /** The exchange of s[i] and s[j], where 'si' is s[i]. */
    method Exchange(si: Byte)
      requires Valid() && si == s[i]
      modifies s
      ensures Valid() && State() == Stream(i, j, Swapped(old(s[..]), i, j))
      ensures s[i] == old(s[j]) && s[j] == si
    {
      ghost var before := s[..];
      s[i] := s[j];
      s[j] := si;
      assert s[..] == Swapped(before, i, j);
      SwapKeeps(before, i, j);
    }

    /** arc4_addrandom. */
    method AddRandom(dat: seq<Byte>)
      requires Valid() && dat != []
      modifies this, s
      ensures Valid() && j == i == Plus(old(i), 255)
      ensures State() == MixedIn(old(State()), dat)
    {
      hide IsPermutation, Swapped, Plus;
      PlusPlus(i, -1, 256);
      i := Plus(i, -1);
      ghost var start := State();
      PlusZero(i);
      for n := 0 to 256
        invariant Valid() && State() == Mixed(start, dat, n) && i == Plus(start.i, n)
      {
        PlusPlus(start.i, n, 1);
        i := Plus(i, 1);
        var si := s[i];
        j := Plus(Plus(j, si), dat[n % |dat|]);
        Exchange(si);
      }
      j := i;
    }

    /** arc4_getbyte. */
    method GetByte() returns (b: Byte)
      requires Valid()
      modifies this, s
      ensures Valid() && State() == Turn(old(State())) && b == Output(old(State()))
      ensures i == Plus(old(i), 1) && j == Plus(old(j), old(s[..])[i]) && b == s[Plus(s[i], s[j])]
      ensures s[i] == old(s[..])[j] && s[j] == old(s[..])[i]
    {
      hide IsPermutation, Swapped;
      i := Plus(i, 1);
      var si := s[i];
      j := Plus(j, si);
      var sj := s[j];
      Exchange(si);
      b := s[Plus(si, sj)];
    }

    /** arc4_getword. */
    method GetWord() returns (w: nat)
      requires Valid()
      modifies this, s
      ensures Valid() && w < UINT32
      ensures var a := old(State()); var b := Turn(a); var c := Turn(b); var d := Turn(c);
              State() == Turn(d)
              && w == Word(Output(a), Output(b), Output(c), Output(d)) && w / 0x100_0000 == Output(a)
    {
      hide IsPermutation, Turn, Output;
      var a := GetByte();
      var b := GetByte();
      var c := GetByte();
      var d := GetByte();
      WordBytes(a, b, c, d);
      w := Word(a, b, c, d);
    }

    /** arc4random_addrandom, once the generator is initialized: 256 bytes of 'dat' at a time. */
    method AddAll(dat: seq<Byte>)
      requires Valid()
      modifies this, s
      ensures Valid() && State() == AllMixed(old(State()), dat)
    {
      hide IsPermutation, MixedIn;
      var k := 0;
      assert dat[0..] == dat;
      while k < |dat|
        invariant Valid()
        invariant AllMixed(State(), if k < |dat| then dat[k..] else []) == AllMixed(old(State()), dat)
      {
        assert k + 256 < |dat| ==> dat[k..][256..] == dat[k + 256..];
        AddRandom(dat[k..]);
        k := k + 256;
      }
    }
  }

  /* ------------------------------------ Bounded draws ------------------------------------ */

  function Uint32(x: int): (r: nat)
    ensures r < UINT32
  {
    x % UINT32
  }

  /** (0xffffffff - upper_bound * 2) + 1, in 32-bit arithmetic. */
  function TwiceBelow(bound: nat): nat {
    Uint32(Uint32(0xffff_ffff - Uint32(bound * 2)) + 1)
  }

  /** 'min' of arc4random_uniform, in 32-bit arithmetic. */
  function LeastAccepted(bound: nat): nat
    requires 2 <= bound < UINT32
  {
    if bound > 0x8000_0000 then Uint32(1 + (UINT32 - 1 - bound)) else TwiceBelow(bound) % bound
  }

  lemma TwiceBelowExact(bound: nat)
    requires 2 <= bound <= 0x8000_0000
    ensures TwiceBelow(bound) == UINT32 - bound * 2
  {
  }

  /** The 32-bit expression is 2^32 mod the bound, and more than half of all draws are accepted. */
  lemma LeastAcceptedExact(bound: nat)
    requires 2 <= bound < UINT32
    ensures LeastAccepted(bound) == UINT32 % bound && LeastAccepted(bound) < 0x8000_0000
  {
    hide TwiceBelow;
    if bound > 0x8000_0000 {
      RemainderUnique(UINT32, bound, 1, UINT32 - bound);
    } else {
      TwiceBelowExact(bound);
      TwoLess(bound);
    }
  }

  /** Taking the bound away twice leaves the remainder as it is. */
  lemma TwoLess(bound: nat)
    requires 0 < bound <= 0x8000_0000
    ensures (UINT32 - bound * 2) % bound == UINT32 % bound < bound
  {
    var x := UINT32 - bound * 2;
    var q, r := x / bound, x % bound;
    assert bound * (q + 2) == bound * q + bound * 2;
    RemainderUnique(UINT32, bound, q + 2, r);
  }

  lemma RemainderUnique(a: nat, b: nat, q: nat, r: nat)
    requires b > 0 && a == b * q + r && r < b
    ensures a % b == r && a / b == q
  {
    var d := a / b - q;
    assert b * d == r - a % b;
    MulSign(b, d);
  }

  lemma MulSign(b: nat, d: int)
    requires b > 0
    ensures d > 0 ==> b * d >= b
    ensures d < 0 ==> b * d <= 0 - b
  {
  }

  /** arc4random_uniform, with the results of arc4random in turn; None when they run out. */
  method Uniform(bound: nat, draws: seq<nat>) returns (found: bool, r: nat, used: nat)
    requires bound < UINT32 && forall d | d in draws :: d < UINT32
    ensures bound < 2 ==> found && r == 0 && used == 0
    ensures bound >= 2 && found ==>
      && 0 < used <= |draws| && draws[used - 1] >= LeastAccepted(bound) && r == draws[used - 1] % bound < bound
      && forall k | 0 <= k < used - 1 :: draws[k] < LeastAccepted(bound)
    ensures !found ==> bound >= 2 && forall k | 0 <= k < |draws| :: draws[k] < LeastAccepted(bound)
  {
    if bound < 2 {
      return true, 0, 0;
    }
    var min := LeastAccepted(bound);
    used := 0;
    while used < |draws|
      invariant used <= |draws| && forall k | 0 <= k < used :: draws[k] < min
    {
      r := draws[used];
      used := used + 1;
      if r >= min {
        return true, r % bound, used;
      }
    }
    return false, 0, used;
  }

  /** The draws from 'lo' to 'hi' that give 'x'. */
  ghost function Giving(lo: nat, hi: nat, bound: nat, x: nat): set<nat>
    requires bound > 0
  {
    set d: nat | lo <= d < hi && d % bound == x
  }

  /** Of any 'k' times 'bound' draws in a row, 'k' give 'x'. */
  lemma {:induction false} GivingBlocks(lo: nat, bound: nat, x: nat, k: nat)
    requires x < bound
    ensures |Giving(lo, lo + k * bound, bound, x)| == k
  {
    if k == 0 {
      assert Giving(lo, lo, bound, x) == {};
    } else {
      var mid := lo + (k - 1) * bound;
      GivingBlocks(lo, bound, x, k - 1);
      var d := OneInBlock(mid, bound, x);
      assert lo + k * bound == mid + bound;
      assert Giving(lo, mid + bound, bound, x) == Giving(lo, mid, bound, x) + {d};
    }
  }

  lemma OneInBlock(lo: nat, bound: nat, x: nat) returns (d: nat)
    requires x < bound
    ensures lo <= d < lo + bound && d % bound == x
    ensures forall e: nat | lo <= e < lo + bound && e % bound == x :: e == d
  {
    var r, q := lo % bound, lo / bound;
    assert lo == bound * q + r;
    if x >= r {
      d := lo + (x - r);
      RemainderUnique(d, bound, q, x);
    } else {
      d := lo + (bound - r + x);
      assert bound * (q + 1) == bound * q + bound;
      RemainderUnique(d, bound, q + 1, x);
    }
    forall e: nat | lo <= e < lo + bound && e % bound == x ensures e == d {
      SameResidue(d, e, bound);
    }
  }

  lemma SameResidue(d: nat, e: nat, bound: nat)
    requires bound > 0 && d % bound == e % bound && d - e < bound && e - d < bound
    ensures d == e
  {
    var k := e / bound - d / bound;
    assert e - d == bound * k;
    MulSign(bound, k);
  }

  /** Unbiased: each result below the bound has exactly floor(2^32 / bound) of the accepted draws. */
  lemma Unbiased(bound: nat, x: nat)
    requires 2 <= bound < UINT32 && x < bound
    ensures |Giving(LeastAccepted(bound), UINT32, bound, x)| == UINT32 / bound
  {
    LeastAcceptedExact(bound);
    var lo, k := LeastAccepted(bound), UINT32 / bound;
    assert UINT32 == lo + k * bound;
    GivingBlocks(lo, bound, x, k);
  }

  /** The first bytes of a generator that nothing has been mixed into. */
  lemma FirstTurns()
    ensures var a := Stream(0, 0, Identity()); var b := Turn(a); var c := Turn(b); var d := Turn(c);
            Output(a) == 2 && Output(b) == 5 && Output(c) == 7 && Output(d) == 13
  {
    var a := Stream(0, 0, Identity());
    var b := Turn(a);
    assert b == Stream(1, 1, Identity());
    var c := Turn(b);
    assert c == Stream(2, 3, Identity()[2 := 3][3 := 2]);
    var d := Turn(c);
    assert d == Stream(3, 5, Identity()[2 := 3][3 := 5][5 := 2]);
  }

  /** The first word of a new generator. */
  method FirstWord() returns (w: nat)
    ensures w == 0x205070d
  {
    hide Turn, Output, IsPermutation;
    FirstTurns();
    var rs := new Generator();
    w := rs.GetWord();
  }
}
