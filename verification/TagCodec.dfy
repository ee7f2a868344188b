/** The wire format of tagged data: tags in 7-bit groups, integers in nibbles, length-prefixed records. */
module TagCodec {
  import opened Bytes
  import opened Options

  const UINT32 := 0x1_0000_0000
  const UINT64 := 0x1_0000_0000_0000_0000

  /* ---------------------------------------- Tags ---------------------------------------- */

  /** The least significant group comes first; the high bit says that more groups follow. */
  function EncodeTag(tag: nat): (s: seq<Byte>)
    ensures 1 <= |s|
  {
    if tag < 128 then [tag] else [tag % 128 + 128] + EncodeTag(tag / 128)
  }

  /** The number and the end of the tag whose group 'i' is byte 'i'. */
  function DecodeTag(s: seq<Byte>, i: nat): (r: Option<(nat, nat)>)
    ensures r.Some? ==> i < r.value.1 <= |s|
    decreases |s| - i
  {
    if i >= |s| || i > 4 || (i == 4 && s[i] % 128 > 15) then None
    else if s[i] < 128 then Some((s[i] % 128, i + 1))
    else
      match DecodeTag(s, i + 1)
      case None => None
      case Some(rest) => Some((s[i] % 128 + 128 * rest.0, rest.1))
  }

  /** The groups as digits of base 128, least significant first. */
  function GroupValue(s: seq<Byte>): nat {
    if s == [] then 0 else s[0] % 128 + 128 * GroupValue(s[1..])
  }

  /** The bytes of a tag are its 7-bit groups, least significant first, and all but the last have the high bit. */
  lemma {:induction false} TagGroups(tag: nat)
    ensures GroupValue(EncodeTag(tag)) == tag
    ensures forall i | 0 <= i < |EncodeTag(tag)| :: EncodeTag(tag)[i] >= 128 <==> i < |EncodeTag(tag)| - 1
    ensures tag > 0 ==> EncodeTag(tag)[|EncodeTag(tag)| - 1] > 0
  {
    if tag >= 128 {
      TagGroups(tag / 128);
      assert EncodeTag(tag)[1..] == EncodeTag(tag / 128);
    }
  }

  /** The bytes of the tag that the head of the source file writes as 82 66. */
  lemma TagExample()
    ensures EncodeTag(0x166) == [0xe6, 0x02]
  {
    assert EncodeTag(2) == [2];
  }

  /** What is left of 32 bits behind 'i' groups. */
  function Room(i: nat): nat {
    match i
    case 0 => UINT32
    case 1 => 0x200_0000
    case 2 => 0x4_0000
    case 3 => 0x800
    case 4 => 16
    case _ => 0
  }

  lemma {:induction false} TagRoundTrip(pre: seq<Byte>, tag: nat, rest: seq<Byte>)
    requires |pre| <= 4 && tag < Room(|pre|)
    ensures DecodeTag(pre + EncodeTag(tag) + rest, |pre|) == Some((tag, |pre| + |EncodeTag(tag)|))
    decreases tag
  {
    var s := pre + EncodeTag(tag) + rest;
    if tag < 128 {
      assert s[|pre|] == tag;
    } else {
      var lower: Byte := tag % 128 + 128;
      assert s == (pre + [lower]) + EncodeTag(tag / 128) + rest;
      TagRoundTrip(pre + [lower], tag / 128, rest);
      assert s[|pre|] == lower;
    }
  }

  lemma {:induction false} TagFits(s: seq<Byte>, i: nat)
    requires i <= 4 && DecodeTag(s, i).Some?
    ensures DecodeTag(s, i).value.0 < Room(i) && DecodeTag(s, i).value.1 <= 5
    decreases |s| - i
  {
    if s[i] >= 128 {
      TagFits(s, i + 1);
    }
  }

  lemma {:induction false} TagSize(tag: nat, i: nat)
    requires i <= 4 && tag < Room(i)
    ensures |EncodeTag(tag)| <= 5 - i
  {
    if tag >= 128 {
      TagSize(tag / 128, i + 1);
    }
  }

  /** The loop of evtag_encode_tag. */
  method EncodeTagInternal(tag: nat) returns (data: array<Byte>, bytes: nat)
    requires tag < UINT32
    ensures fresh(data) && bytes <= data.Length == 5 && data[..bytes] == EncodeTag(tag)
  {
    data := new Byte[5](_ => 0);
    bytes := 0;
    var t: nat := tag;
    TagSize(tag, 0);
    while true
      invariant bytes <= 4 && t < Room(bytes) && data[..bytes] + EncodeTag(t) == EncodeTag(tag)
      decreases t
    {
      TagSize(t, bytes);
      ghost var before := data[..bytes];
      var lower: Byte := t % 128;
      var more := t / 128;
      if more != 0 {
        lower := lower + 128;
      }
      data[bytes] := lower;
      bytes := bytes + 1;
      assert data[..bytes] == before + [lower];
      if more == 0 {
        break;
      }
      Assoc(before, [lower], EncodeTag(more));
      t := more;
    }
  }

  /** A number read so far, with the groups still to come above it. */
  function Scaled(number: nat, weight: nat, rest: Option<(nat, nat)>): Option<(nat, nat)> {
    match rest
    case None => None
    case Some(v) => Some((number + weight * v.0, v.1))
  }

  lemma {:induction false} ScaleStep(s: seq<Byte>, i: nat, number: nat, weight: nat)
    ensures Scaled(number, weight, DecodeTag(s, i)) ==
      if i >= |s| || i > 4 || (i == 4 && s[i] % 128 > 15) then None
      else if s[i] < 128 then Some((number + (s[i] % 128) * weight, i + 1))
      else Scaled(number + (s[i] % 128) * weight, weight * 128, DecodeTag(s, i + 1))
  {
    if i < |s| && s[i] >= 128 && DecodeTag(s, i).Some? {
      Horner(weight, s[i] % 128, DecodeTag(s, i + 1).value.0);
    }
  }

  lemma Horner(weight: nat, group: nat, rest: nat)
    ensures weight * (group + 128 * rest) == group * weight + (weight * 128) * rest
  {
    assert weight * (128 * rest) == (weight * 128) * rest;
  }

  /** Five groups that all promise another one, and still fit 32 bits. */
  predicate Overlong(data: seq<Byte>) {
    |data| == 5 && (forall i | 0 <= i < 5 :: data[i] >= 128) && data[4] % 128 <= 15
  }

  /** The first 'n' groups have all been read and promise another one. */
  predicate ReadOn(data: seq<Byte>, n: nat) {
    n <= |data| && (forall i | 0 <= i < n :: data[i] >= 128) && (n == 5 ==> data[4] % 128 <= 15)
  }

  /**
   * The loop of decode_tag_internal over the first min(len, 5) bytes; 'stray' is what stands behind
   * them. The loop looks at a byte before it looks at the shift, so it reads 'stray' exactly when
   * more than five bytes are buffered and the first five are an overlong tag; it never uses it.
   */
  method DecodeTagLoop(data: seq<Byte>, len: nat, stray: Byte) returns (r: Option<(nat, nat)>, looked: nat)
    requires |data| == if len < 5 then len else 5
    ensures r == DecodeTag(data, 0)
    ensures looked <= |data| + 1
    ensures looked > |data| <==> len > 5 && Overlong(data)
  {
    var number: nat, shift: nat, weight: nat, count: nat := 0, 0, 1, 0;
    hide Scaled, DecodeTag;
    Unscaled(DecodeTag(data, 0));
    while count < len
      invariant count <= |data| && shift == 7 * count && ReadOn(data, count)
      invariant DecodeTag(data, 0) == Scaled(number, weight, DecodeTag(data, count))
    {
      ScaleStep(data, count, number, weight);
      var lower: nat := if count < |data| then data[count] else stray;
      if shift >= 28 {
        if shift > 28 {
          return None, count + 1;
        }
        if lower % 128 > 15 {
          return None, count + 1;
        }
      }
      number := number + (lower % 128) * weight;
      if lower < 128 {
        return Some((number, count + 1)), count + 1;
      }
      shift, weight, count := shift + 7, weight * 128, count + 1;
    }
    ScaleStep(data, count, number, weight);
    return None, count;
  }

  lemma Unscaled(r: Option<(nat, nat)>)
    ensures Scaled(0, 1, r) == r
  {
  }

  /* -------------------------------------- Integers -------------------------------------- */

  /** n >> (4 * i). */
  function Shift(n: nat, i: nat): nat {
    if i == 0 then n else Shift(n, i - 1) / 16
  }

  /** The number of nibbles an integer takes. */
  function Digits(n: nat): (m: nat)
    ensures 1 <= m
  {
    if n < 16 then 1 else 1 + Digits(n / 16)
  }

  /** Nibble 'k' of the encoding, counted from 1: the least significant one shares byte 0 with the count. */
  function Nibble(n: nat, k: nat): (x: nat)
    requires k >= 1
    ensures x < 16
  {
    Shift(n, k - 1) % 16
  }

  function EncodeInt(n: nat): (s: seq<Byte>)
    requires Digits(n) <= 16
    ensures |s| == Digits(n) / 2 + 1
  {
    seq(Digits(n) / 2 + 1,
        i requires 0 <= i => (if i == 0 then Digits(n) - 1 else Nibble(n, 2 * i)) * 16 + Nibble(n, 2 * i + 1))
  }

  function NibbleAt(s: seq<Byte>, k: nat): (x: nat)
    requires k / 2 < |s|
    ensures x < 16
  {
    if k % 2 == 1 then s[k / 2] % 16 else s[k / 2] / 16
  }

  /** The nibbles 'j' to 'm' as a number, least significant first. */
  function ValueOf(s: seq<Byte>, j: nat, m: nat): nat
    requires m / 2 < |s| && j <= m + 1
    decreases m + 1 - j
  {
    if j > m then 0 else NibbleAt(s, j) + 16 * ValueOf(s, j + 1, m)
  }

  /** The bytes of an integer: its number of nibbles less one, and the nibbles from the least significant one on. */
  lemma IntExample()
    ensures EncodeInt(0x123) == [0x23, 0x21]
  {
    assert Shift(0x123, 1) == 0x12 && Shift(0x123, 2) == 1;
    assert Digits(1) == 1 && Digits(0x12) == 2 && Digits(0x123) == 3;
    var s := EncodeInt(0x123);
    assert s[0] == 2 * 16 + Nibble(0x123, 1) && s[1] == Nibble(0x123, 2) * 16 + Nibble(0x123, 3);
  }

  /** The number at the front of 's', and how many bytes encode it. */
  function DecodeInt(s: seq<Byte>, maxNibbles: nat): (r: Option<(nat, nat)>)
    ensures r.Some? ==> 1 <= r.value.1 <= |s|
  {
    if s == [] then None
    else
      var m := s[0] / 16 + 1;
      if m > maxNibbles || m / 2 + 1 > |s| then None else Some((ValueOf(s, 1, m), m / 2 + 1))
  }

  lemma {:induction false} ShiftFirst(n: nat, i: nat)
    ensures Shift(n / 16, i) == Shift(n, i + 1)
  {
    if i > 0 {
      ShiftFirst(n, i - 1);
    }
  }

  /** The digits of a number are those before its shifts become 0. */
  lemma {:induction false} DigitsEnd(n: nat, i: nat)
    ensures Shift(n, i) == 0 <==> n == 0 || i >= Digits(n)
    decreases n
  {
    if n < 16 {
      ShiftSmall(n, i);
    } else if i == 0 {
    } else {
      DigitsEnd(n / 16, i - 1);
      ShiftFirst(n, i - 1);
    }
  }

  lemma {:induction false} ShiftSmall(n: nat, i: nat)
    requires n < 16
    ensures Shift(n, i) == if i == 0 then n else 0
  {
    if i > 0 {
      ShiftSmall(n, i - 1);
    }
  }

  lemma {:induction false} ValueIsShift(s: seq<Byte>, n: nat, j: nat, m: nat)
    requires m / 2 < |s| && 1 <= j <= m + 1 && Shift(n, m) == 0
    requires forall k | 1 <= k <= m :: NibbleAt(s, k) == Nibble(n, k)
    ensures ValueOf(s, j, m) == Shift(n, j - 1)
    decreases m + 1 - j
  {
    if j <= m {
      ValueIsShift(s, n, j + 1, m);
    }
  }

  lemma NibblePair(high: nat, low: nat)
    requires low < 16
    ensures (high * 16 + low) / 16 == high && (high * 16 + low) % 16 == low
  {
  }

  /** Byte and nibble positions of an encoding agree, whatever follows it. */
  lemma {:induction false} EncodedNibbles(n: nat, rest: seq<Byte>)
    requires Digits(n) <= 16
    ensures var s := EncodeInt(n) + rest;
            && s[0] / 16 == Digits(n) - 1 && |s| > Digits(n) / 2
            && forall k | 1 <= k <= Digits(n) :: NibbleAt(s, k) == Nibble(n, k)
  {
    hide Nibble, Digits;
    var e, m := EncodeInt(n), Digits(n);
    var s := e + rest;
    assert s[0] == e[0] == (m - 1) * 16 + Nibble(n, 1);
    NibblePair(m - 1, Nibble(n, 1));
    forall k | 1 <= k <= m ensures NibbleAt(s, k) == Nibble(n, k) {
      assert s[k / 2] == e[k / 2];
      if k > 1 {
        NibblePair(Nibble(n, k / 2 * 2), Nibble(n, k / 2 * 2 + 1));
      }
    }
  }

  /** Every integer of at most 'maxNibbles' nibbles comes back from its encoding, whatever follows it. */
  lemma {:induction false} IntRoundTrip(n: nat, maxNibbles: nat, rest: seq<Byte>)
    requires Digits(n) <= maxNibbles <= 16
    ensures DecodeInt(EncodeInt(n) + rest, maxNibbles) == Some((n, |EncodeInt(n)|))
  {
    hide Nibble, NibbleAt, Digits, EncodeInt;
    EncodedNibbles(n, rest);
    DigitsEnd(n, Digits(n));
    NothingAbove(n);
    ValueIsShift(EncodeInt(n) + rest, n, 1, Digits(n));
  }

  lemma {:induction false} NothingAbove(n: nat)
    ensures Shift(n, Digits(n)) == 0
  {
    DigitsEnd(n, Digits(n));
    if n == 0 {
      ShiftSmall(n, Digits(n));
    }
  }

  lemma {:induction false} ShiftFour(n: nat, i: nat)
    ensures Shift(n, i + 4) == Shift(n, i) / 0x1_0000
  {
    var a := Shift(n, i);
    assert Shift(n, i + 1) == a / 16;
    assert Shift(n, i + 2) == a / 16 / 16;
    assert Shift(n, i + 3) == a / 16 / 16 / 16;
  }

  /** A number below 2^32 has at most 8 nibbles, one below 2^64 at most 16. */
  lemma {:induction false} DigitsFit(n: nat)
    ensures n < UINT32 ==> Digits(n) <= 8
    ensures n < UINT64 ==> Digits(n) <= 16
  {
    hide Digits;
    DigitsEnd(n, 8);
    DigitsEnd(n, 16);
    ShiftFour(n, 0);
    ShiftFour(n, 4);
    ShiftFour(n, 8);
    ShiftFour(n, 12);
    if n == 0 {
      OneDigit();
    }
  }

  lemma OneDigit()
    ensures Digits(0) == 1
  {
  }

  /** 'number' replaces nibble 'k'. */
  method SetNibble(data: array<Byte>, k: nat, number: nat)
    requires 1 <= k && k / 2 < data.Length
    requires NibbleAt(data[..], k) == 0
    modifies data
    ensures forall j | 1 <= j && j / 2 < data.Length ::
      NibbleAt(data[..], j) == if j == k then number % 16 else NibbleAt(old(data[..]), j)
    ensures data[0] / 16 == old(data[0]) / 16
  {
    if k % 2 == 1 {
      data[k / 2] := data[k / 2] - data[k / 2] % 16 + number % 16;
    } else {
      data[k / 2] := data[k / 2] % 16 + (number % 16) * 16;
    }
  }

  /** encode_int_internal and encode_int64_internal: 'data' has one byte more than the integer. */
  method EncodeIntInternal(data: array<Byte>, number: nat) returns (len: nat)
    requires 2 <= data.Length <= 9 && Digits(number) <= 2 * (data.Length - 1)
    modifies data
    ensures len <= data.Length && data[..len] == EncodeInt(number)
  {
    hide Shift, Nibble, NibbleAt, Digits, EncodeInt;
    forall i | 0 <= i < data.Length {
      data[i] := 0;
    }
    AllZero(data[..]);
    ShiftStep(number, 0);
    var off: nat, n: nat := 1, number;
    while n != 0
      invariant 1 <= off && n == Shift(number, off - 1) && (n == 0 ==> off == 1 || off - 1 >= Digits(number))
      invariant forall k | 1 <= k && k / 2 < data.Length ::
        NibbleAt(data[..], k) == if k < off then Nibble(number, k) else 0
      invariant data[0] / 16 == 0 && off <= Digits(number) + 1
      decreases n
    {
      DigitsEnd(number, off - 1);
      ShiftStep(number, off - 1);
      SetNibble(data, off, n);
      n := n / 16;
      off := off + 1;
      DigitsEnd(number, off - 1);
    }
    DigitsEnd(number, off - 1);
    var nibbles := if off > 2 then off - 2 else 0;
    ZeroDigits(number);
    assert nibbles == Digits(number) - 1;
    ghost var s := data[..];
    data[0] := data[0] % 16 + nibbles % 16 * 16;
    len := (off + 1) / 2;
    Packed(number, s, data[..], len);
  }

  lemma ZeroDigits(n: nat)
    ensures n == 0 ==> Digits(n) == 1
  {
  }

  lemma AllZero(s: seq<Byte>)
    requires forall i | 0 <= i < |s| :: s[i] == 0
    ensures forall k: nat | k / 2 < |s| :: NibbleAt(s, k) == 0
  {
  }

  lemma ShiftStep(n: nat, i: nat)
    ensures Shift(n, 0) == n && Shift(n, i + 1) == Shift(n, i) / 16 && Nibble(n, i + 1) == Shift(n, i) % 16
  {
  }

  /** Bytes with the right nibbles and the right count are the encoding. */
  lemma {:induction false} Packed(n: nat, s: seq<Byte>, t: seq<Byte>, len: nat)
    requires 0 < |s| == |t| && Digits(n) <= 16 && len == Digits(n) / 2 + 1 <= |t|
    requires t == s[0 := s[0] % 16 + (Digits(n) - 1) * 16]
    requires forall k | 1 <= k && k / 2 < |s| :: NibbleAt(s, k) == if k <= Digits(n) then Nibble(n, k) else 0
    ensures t[..len] == EncodeInt(n)
  {
    hide Nibble, Digits;
    var m := Digits(n);
    forall k | m < k ensures Nibble(n, k) == 0 {
      NoNibble(n, k);
    }
    forall i | 0 <= i < len ensures t[i] == EncodeInt(n)[i] {
      assert NibbleAt(s, 2 * i + 1) == s[i] % 16;
      assert i > 0 ==> NibbleAt(s, 2 * i) == s[i] / 16;
    }
  }

  lemma {:induction false} NoNibble(n: nat, k: nat)
    requires k > Digits(n)
    ensures Nibble(n, k) == 0
  {
    DigitsEnd(n, k - 1);
    if n == 0 {
      ShiftSmall(n, k - 1);
    }
  }

  /** The loop of DECODE_INT_INTERNAL, most significant nibble first. */
  method DecodeNibbles(data: seq<Byte>, m: nat) returns (number: nat)
    requires m / 2 < |data|
    ensures number == ValueOf(data, 1, m)
  {
    number := 0;
    var nibbles: nat := m;
    while nibbles > 0
      invariant nibbles <= m && number == ValueOf(data, nibbles + 1, m)
    {
      number := number * 16;
      if nibbles % 2 == 1 {
        number := number + data[nibbles / 2] % 16;
      } else {
        number := number + data[nibbles / 2] / 16;
      }
      nibbles := nibbles - 1;
    }
  }

  /* -------------------------------------- Records -------------------------------------- */

  datatype Record = Record(tag: nat, payload: seq<Byte>)

  /** A 32-bit tag and a payload whose length fits an int. */
  predicate Sendable(r: Record) {
    r.tag < UINT32 && |r.payload| < 0x8000_0000
  }

  function Marshalled(r: Record): seq<Byte>
    requires |r.payload| < UINT32
  {
    DigitsFit(|r.payload|);
    EncodeTag(r.tag) + EncodeInt(|r.payload|) + r.payload
  }

  datatype Header = Header(tag: nat, length: nat, size: nat)

  /** The tag and the payload length at the front of 's', and how many bytes they take. */
  function HeaderOf(s: seq<Byte>): (h: Option<Header>)
    ensures h.Some? ==> 2 <= h.value.size <= |s|
  {
    match DecodeTag(s, 0)
    case None => None
    case Some(t) =>
      match DecodeInt(s[t.1..], 8)
      case None => None
      case Some(n) => Some(Header(t.0, n.0, t.1 + n.1))
  }

  function Pow16(n: nat): nat {
    if n == 0 then 1 else 16 * Pow16(n - 1)
  }

  lemma {:induction false} ValueFits(s: seq<Byte>, j: nat, m: nat)
    requires m / 2 < |s| && j <= m + 1
    ensures ValueOf(s, j, m) < Pow16(m + 1 - j)
    decreases m + 1 - j
  {
    if j <= m {
      ValueFits(s, j + 1, m);
    }
  }

  lemma {:induction false} Pow16Grows(m: nat)
    requires m <= 8
    ensures Pow16(m) <= UINT32
  {
    assert Pow16(4) == 0x1_0000 && Pow16(8) == UINT32 by {
      assert Pow16(2) == 256 && Pow16(6) == 256 * Pow16(4);
    }
    if m < 8 {
      assert Pow16(m) <= Pow16(8) by {
        PowersOrdered(m, 8);
      }
    }
  }

  lemma {:induction false} PowersOrdered(a: nat, b: nat)
    requires a <= b
    ensures Pow16(a) <= Pow16(b)
    decreases b
  {
    if a < b {
      PowersOrdered(a, b - 1);
    }
  }

  /** A header's numbers fit 32 bits each, and its bytes are ten at most. */
  lemma {:induction false} HeaderFits(s: seq<Byte>)
    requires HeaderOf(s).Some?
    ensures var h := HeaderOf(s).value; h.tag < UINT32 && h.length < UINT32 && h.size <= 10
  {
    hide DecodeTag, ValueOf, Pow16;
    TagFits(s, 0);
    var t := s[DecodeTag(s, 0).value.1..];
    var m := t[0] / 16 + 1;
    ValueFits(t, 1, m);
    Pow16Grows(m);
  }

  ghost function Stream(rs: seq<Record>): seq<Byte>
    requires forall r | r in rs :: Sendable(r)
  {
    if rs == [] then []
    else
      assert Sendable(rs[0]);
      Marshalled(rs[0]) + Stream(rs[1..])
  }

  /** What unmarshalling one record takes off the front of 's'. */
  ghost function ReadRecord(s: seq<Byte>): Option<(Record, seq<Byte>)> {
    match HeaderOf(s)
    case None => None
    case Some(h) =>
      if |s| - h.size < h.length then None
      else Some((Record(h.tag, s[h.size..h.size + h.length]), s[h.size + h.length..]))
  }

  /** What unmarshalling 'n' records takes off the front of 's'. */
  ghost function ReadStream(s: seq<Byte>, n: nat): Option<(seq<Record>, seq<Byte>)> {
    if n == 0 then Some(([], s))
    else
      match ReadRecord(s)
      case None => None
      case Some(first) =>
        match ReadStream(first.1, n - 1)
        case None => None
        case Some(more) => Some(([first.0] + more.0, more.1))
  }

  lemma {:induction false} RecordRoundTrip(r: Record, rest: seq<Byte>)
    requires r.tag < UINT32 && |r.payload| < UINT32
    ensures HeaderOf(Marshalled(r) + rest) == Some(Header(r.tag, |r.payload|, |Marshalled(r)| - |r.payload|))
    ensures ReadRecord(Marshalled(r) + rest) == Some((r, rest))
  {
    hide DecodeTag, DecodeInt, EncodeTag, EncodeInt, Digits;
    DigitsFit(|r.payload|);
    var t, n, p := EncodeTag(r.tag), EncodeInt(|r.payload|), r.payload;
    var s := Marshalled(r) + rest;
    var tail := n + (p + rest);
    assert s == t + tail by {
      Assoc(t, n, p);
      Assoc(t, n + p, rest);
      Assoc(n, p, rest);
    }
    assert [] + t + tail == t + tail;
    TagRoundTrip([], r.tag, tail);
    assert s[|t|..] == tail;
    IntRoundTrip(|p|, 8, p + rest);
    assert s[|t| + |n|..|t| + |n| + |p|] == p && s[|t| + |n| + |p|..] == rest;
  }

  /** A list of records, marshalled one after the other, comes back; trailing bytes stay as they are. */
  lemma {:induction false} StreamRoundTrip(rs: seq<Record>, trailing: seq<Byte>)
    requires forall r | r in rs :: Sendable(r)
    ensures ReadStream(Stream(rs) + trailing, |rs|) == Some((rs, trailing))
  {
    hide Marshalled, ReadRecord;
    if rs == [] {
      assert Stream(rs) + trailing == trailing;
    } else {
      assert rs[0] in rs && forall r | r in rs[1..] :: r in rs;
      Assoc(Marshalled(rs[0]), Stream(rs[1..]), trailing);
      RecordRoundTrip(rs[0], Stream(rs[1..]) + trailing);
      StreamRoundTrip(rs[1..], trailing);
      assert [rs[0]] + rs[1..] == rs;
    }
  }
}
