/** Tagged data in evbuffers, when every allocation succeeds. */
module Tagging {
  import opened Bytes
  import opened Chains
  import opened EvBuffers
  import opened EvBufferAdd
  import opened EvBufferDrain
  import opened EvBufferRemove
  import opened EvBufferPullup
  import opened TagCodec
  import opened Options

  /** evbuffer_pullup of 'n' bytes, read. */
  method Front(buf: EvBuffer, n: nat) returns (ok: bool, bytes: seq<Byte>)
    requires buf.Valid() && !TooLarge(n)
    modifies buf`first, buf`last, buf`lastWithDatap, buf`totalLen, buf`view
    modifies set c: Chain | c in buf.view.chains, set c: Chain | c in buf.view.chains :: c.buffer
    ensures buf.Valid() && OldOrFresh(buf) && buf.Contents() == old(buf.Contents())
    ensures ok <==> 0 < n <= |buf.Contents()|
    ensures ok ==> bytes == buf.Contents()[..n]
    ensures old(buf.NoGap()) ==> buf.NoGap()
  {
    hide Flatten, LastWithData, Stores, Linked, Distinct, Chain.Valid, EvBuffer.Valid, NoGapBefore;
    buf.Length();
    var chain := Pullup(buf, n, true);
    if chain == null {
      return false, [];
    }
    buf.ChainAt(0);
    bytes := chain.Read(0, n);
    assert chain.data[0..n] == chain.data[..n];
    ok := true;
  }

  /** Reading a tag needs at most the first five bytes. */
  lemma {:induction false} TagInFront(s: seq<Byte>, i: nat, n: nat)
    requires n <= |s| && (n == |s| || n >= 5)
    ensures DecodeTag(s[..n], i) == DecodeTag(s, i)
    decreases |s| - i
  {
    if i < |s| && i <= 4 {
      TagInFront(s, i + 1, n);
    }
  }

  /**
   * decode_tag_internal. A buffer whose front is frozen can be read but not drained. Of the five
   * bytes asked for, a sixth one is looked at exactly when the first five are an overlong tag.
   */
  method DecodeTagInternal(buf: EvBuffer, dodrain: bool) returns (r: int, tag: nat, ghost looked: nat)
    requires buf.Valid()
    modifies buf`first, buf`last, buf`lastWithDatap, buf`totalLen, buf`view
    modifies set c: Chain | c in buf.view.chains, set c: Chain | c in buf.view.chains :: c.buffer
    ensures buf.Valid() && OldOrFresh(buf) && (old(buf.NoGap()) ==> buf.NoGap())
    ensures looked <= 6 && (looked == 6 <==> |old(buf.Contents())| > 5 && Overlong(old(buf.Contents())[..5]))
    ensures match DecodeTag(old(buf.Contents()), 0)
            case None => r == -1 && buf.Contents() == old(buf.Contents())
            case Some(v) =>
              && r == v.1 && tag == v.0
              && buf.Contents() == old(buf.Contents())[if dodrain && !buf.freezeStart then v.1 else 0..]
  {
    hide Flatten, LastWithData, Stores, Linked, Distinct, Chain.Valid, EvBuffer.Valid, NoGapBefore, DecodeTag;
    buf.Length();
    ghost var s := buf.Contents();
    var len := buf.totalLen;
    var n := if len < 5 then len else 5;
    TagInFront(s, 0, n);
    tag, looked := 0, 0;
    var ok, data := Front(buf, n);
    if !ok {
      NoTag(s);
      return -1, tag, looked;
    }
    var stray: Byte :| true;
    var found, last := DecodeTagLoop(data, len, stray);
    looked := last;
    if found.None? {
      return -1, tag, looked;
    }
    tag, r := found.value.0, found.value.1;
    if dodrain {
      buf.Length();
      var _ := Drain(buf, r);
      assert s[|s|..] == [];
    }
  }

  /** Six bytes in a new buffer, of which the tag decoder asks for five and looks at all. */
  method SixthByteSeen() returns (buf: EvBuffer, ghost looked: nat)
    ensures buf.Valid() && |buf.Contents()| == 6 && looked == 6
  {
    hide Flatten, LastWithData, Stores, Linked, Distinct, Chain.Valid, EvBuffer.Valid, NoGapBefore, DecodeTag;
    buf := new EvBuffer();
    buf.Length();
    var data: seq<Byte> := [128, 128, 128, 128, 128, 0];
    var _ := Add(buf, data, true);
    assert buf.Contents() == data;
    assert data[..5] == [128, 128, 128, 128, 128];
    OverlongTag(data);
    var r, tag;
    r, tag, looked := DecodeTagInternal(buf, false);
    assert data[0..] == data;
  }

  lemma OverlongTag(s: seq<Byte>)
    requires |s| == 6 && s[..5] == [128, 128, 128, 128, 128]
    ensures DecodeTag(s, 0) == None
  {
    assert forall i | 0 <= i < 5 :: s[i] == s[..5][i];
    assert DecodeTag(s, 5) == None && DecodeTag(s, 4) == None;
    assert DecodeTag(s, 3) == None && DecodeTag(s, 2) == None;
  }

  lemma NoTag(s: seq<Byte>)
    ensures s == [] ==> DecodeTag(s, 0) == None
  {
  }

  /** decode_int_internal and decode_int64_internal, for 8 and 16 nibbles. */
  method DecodeIntInternal(buf: EvBuffer, offset: nat, maxNibbles: nat) returns (r: int, number: nat)
    requires buf.Valid() && offset <= 5 && maxNibbles <= 16
    modifies buf`first, buf`last, buf`lastWithDatap, buf`totalLen, buf`view
    modifies set c: Chain | c in buf.view.chains, set c: Chain | c in buf.view.chains :: c.buffer
    ensures buf.Valid() && OldOrFresh(buf) && buf.Contents() == old(buf.Contents())
      && (old(buf.NoGap()) ==> buf.NoGap())
    ensures offset >= |buf.Contents()| ==> r == -1
    ensures offset < |buf.Contents()| ==>
      match DecodeInt(buf.Contents()[offset..], maxNibbles)
      case None => r == -1
      case Some(v) => r == v.1 && number == v.0
  {
    hide Flatten, LastWithData, Stores, Linked, Distinct, Chain.Valid, EvBuffer.Valid, NoGapBefore, ValueOf;
    buf.Length();
    ghost var s := buf.Contents();
    number := 0;
    if buf.totalLen <= offset {
      return -1, number;
    }
    var len := buf.totalLen - offset;
    var _, first := Front(buf, offset + 1);
    var nibbles := first[offset] / 16 + 1;
    if nibbles > maxNibbles || nibbles / 2 + 1 > len {
      return -1, number;
    }
    len := nibbles / 2 + 1;
    var _, data := Front(buf, offset + len);
    assert data[offset..] == s[offset..][..len];
    number := DecodeNibbles(data[offset..], nibbles);
    ValueInFront(s[offset..], len, 1, nibbles);
    r := len;
  }

  lemma {:induction false} ValueInFront(s: seq<Byte>, n: nat, j: nat, m: nat)
    requires m / 2 < n <= |s| && j <= m + 1
    ensures ValueOf(s[..n], j, m) == ValueOf(s, j, m)
    decreases m + 1 - j
  {
    if j <= m {
      ValueInFront(s, n, j + 1, m);
    }
  }

  /** evtag_marshal. */
  method Marshal(buf: EvBuffer, tag: nat, data: seq<Byte>)
    requires buf.Valid() && tag < UINT32 && |data| < UINT32
    modifies buf, set c: Chain | c in buf.view.chains, set c: Chain | c in buf.view.chains :: c.buffer
    ensures buf.Valid() && OldOrFresh(buf) && (old(buf.NoGap()) ==> buf.NoGap())
    ensures buf.freezeStart == old(buf.freezeStart) && buf.freezeEnd == old(buf.freezeEnd)
    ensures old(buf.freezeEnd) ==> buf.Contents() == old(buf.Contents())
    ensures !old(buf.freezeEnd) && old(buf.totalLen) + |Marshalled(Record(tag, data))| <= SIZE_MAX
      ==> buf.Contents() == old(buf.Contents()) + Marshalled(Record(tag, data))
  {
    hide Flatten, LastWithData, Stores, Linked, Distinct, Chain.Valid, EvBuffer.Valid, NoGapBefore, EncodeTag,
      EncodeInt, Digits;
    buf.Length();
    ghost var s := buf.Contents();
    var t, bytes := EncodeTagInternal(tag);
    var _ := Add(buf, t[..bytes], true);
    buf.Length();
    DigitsFit(|data|);
    var d := new Byte[5];
    var len := EncodeIntInternal(d, |data|);
    var _ := Add(buf, d[..len], true);
    buf.Length();
    var _ := Add(buf, data, true);
    buf.Length();
    MarshalledParts(s, tag, data);
  }

  lemma {:induction false} MarshalledParts(s: seq<Byte>, tag: nat, data: seq<Byte>)
    requires |data| < UINT32
    ensures Digits(|data|) <= 16
    ensures var a, b := EncodeTag(tag), EncodeInt(|data|);
            && Marshalled(Record(tag, data)) == a + b + data
            && s + a + b + data == s + Marshalled(Record(tag, data))
  {
    hide EncodeTag, EncodeInt, Digits;
    DigitsFit(|data|);
    var a, b := EncodeTag(tag), EncodeInt(|data|);
    Assoc(s, a, b);
    Assoc(s, a + b, data);
  }

  /** evtag_decode_int and evtag_decode_int64. */
  method TakeInt(buf: EvBuffer, maxNibbles: nat) returns (r: int, number: nat)
    requires buf.Valid() && maxNibbles <= 16
    modifies buf`first, buf`last, buf`lastWithDatap, buf`totalLen, buf`view
    modifies set c: Chain | c in buf.view.chains, set c: Chain | c in buf.view.chains :: c.buffer
    ensures buf.Valid() && OldOrFresh(buf) && (old(buf.NoGap()) ==> buf.NoGap())
    ensures match DecodeInt(old(buf.Contents()), maxNibbles)
            case None => r == -1 && buf.Contents() == old(buf.Contents())
            case Some(v) =>
              && r == 0 && number == v.0
              && buf.Contents() == old(buf.Contents())[if buf.freezeStart then 0 else v.1..]
  {
    hide Flatten, LastWithData, Stores, Linked, Distinct, Chain.Valid, EvBuffer.Valid, NoGapBefore, DecodeInt;
    ghost var s := buf.Contents();
    NoInt(s, maxNibbles);
    var res;
    res, number := DecodeIntInternal(buf, 0, maxNibbles);
    if res != -1 {
      buf.Length();
      var _ := Drain(buf, res);
      assert s[|s|..] == [];
    }
    r := if res == -1 then -1 else 0;
  }

  lemma NoInt(s: seq<Byte>, maxNibbles: nat)
    ensures s == [] ==> DecodeInt(s, maxNibbles) == None
    ensures s[0..] == s
  {
  }

  /**
   * The header evtag_unmarshal_header sees. When the front is frozen the tag's bytes cannot be
   * drained, so they are read once more as the length, and nothing goes.
   */
  function HeaderSeen(s: seq<Byte>, frozen: bool): (h: Option<Header>)
    ensures h.Some? ==> h.value.size <= |s|
  {
    if !frozen then HeaderOf(s)
    else
      match DecodeTag(s, 0)
      case None => None
      case Some(t) =>
        match DecodeInt(s, 8)
        case None => None
        case Some(n) => Some(Header(t.0, n.0, 0))
  }

  lemma {:induction false} HeaderSeenFits(s: seq<Byte>, frozen: bool)
    requires HeaderSeen(s, frozen).Some?
    ensures var h := HeaderSeen(s, frozen).value; h.tag < UINT32 && h.length < UINT32 && h.size <= 10
  {
    if frozen {
      hide DecodeTag, ValueOf, Pow16;
      TagFits(s, 0);
      var m := s[0] / 16 + 1;
      ValueFits(s, 1, m);
      Pow16Grows(m);
    } else {
      HeaderFits(s);
    }
  }

  /** How many bytes are gone when the header cannot be read: those of the tag, once that is complete. */
  function TagGone(s: seq<Byte>, frozen: bool): (n: nat)
    ensures n <= |s|
  {
    match DecodeTag(s, 0)
    case None => 0
    case Some(t) => if frozen then 0 else t.1
  }

  /** What evtag_unmarshal_header leaves of 's', and what it gives. */
  ghost predicate HeaderTaken(s: seq<Byte>, frozen: bool, s': seq<Byte>, r: int, tag: nat) {
    match HeaderSeen(s, frozen)
    case None => r == -1 && s' == s[TagGone(s, frozen)..]
    case Some(h) => s' == s[h.size..] && tag == h.tag && r == if |s'| < h.length then -1 else ToInt(h.length)
  }

  lemma TakenIsInt(s: seq<Byte>, frozen: bool, s': seq<Byte>, r: int, tag: nat)
    requires HeaderTaken(s, frozen, s', r, tag)
    ensures r >= 0 ==> !TooLarge(r)
  {
    hide HeaderSeen;
  }

  /** evtag_unmarshal_header. The bytes it has read are gone even when it fails. */
  method UnmarshalHeader(buf: EvBuffer) returns (r: int, tag: nat)
    requires buf.Valid()
    modifies buf`first, buf`last, buf`lastWithDatap, buf`totalLen, buf`view
    modifies set c: Chain | c in buf.view.chains, set c: Chain | c in buf.view.chains :: c.buffer
    ensures buf.Valid() && OldOrFresh(buf) && (old(buf.NoGap()) ==> buf.NoGap())
    ensures HeaderTaken(old(buf.Contents()), buf.freezeStart, buf.Contents(), r, tag)
  {
    hide Flatten, LastWithData, Stores, Linked, Distinct, Chain.Valid, EvBuffer.Valid, NoGapBefore;
    hide DecodeTag, DecodeInt, HeaderTaken;
    ghost var s := buf.Contents();
    var used;
    ghost var looked;
    used, tag, looked := DecodeTagInternal(buf, true);
    if used == -1 {
      NoHeader(s, buf.freezeStart, s, tag);
      return -1, tag;
    }
    buf.Length();
    var res, len := TakeInt(buf, 8);
    if res == -1 {
      NoHeader(s, buf.freezeStart, buf.Contents(), tag);
      return -1, tag;
    }
    buf.Length();
    TwoParts(s, buf.freezeStart);
    if buf.totalLen < len {
      return -1, tag;
    }
    r := ToInt(len);
  }

  lemma NoHeader(s: seq<Byte>, frozen: bool, t: seq<Byte>, tag: nat)
    requires match DecodeTag(s, 0)
             case None => t == s
             case Some(v) => t == s[if frozen then 0 else v.1..] && DecodeInt(t, 8) == None
    ensures HeaderTaken(s, frozen, t, -1, tag)
  {
    hide DecodeTag, DecodeInt;
    assert s[0..] == s;
  }

  lemma TwoParts(s: seq<Byte>, frozen: bool)
    requires DecodeTag(s, 0).Some?
    ensures var v := DecodeTag(s, 0).value; var t := s[if frozen then 0 else v.1..];
            DecodeInt(t, 8).Some? ==>
              var n := DecodeInt(t, 8).value; var rest := t[if frozen then 0 else n.1..];
              HeaderTaken(s, frozen, rest, if |rest| < n.0 then -1 else ToInt(n.0), v.0)
  {
    hide DecodeTag, DecodeInt, ToInt;
    assert s[0..] == s;
    var v := DecodeTag(s, 0).value;
    Behind(s, if frozen then 0 else v.1, s[if frozen then 0 else v.1..]);
  }

  lemma Behind(s: seq<Byte>, n: nat, t: seq<Byte>)
    requires n <= |s| && t == s[n..]
    ensures forall k | 0 <= k <= |t| :: t[k..] == s[n + k..]
  {
  }

  lemma SharedNone(a: seq<Chain>, b: seq<Chain>)
    requires forall c, d | c in a && d in b :: c != d && c.buffer != d.buffer
    ensures Apart(a, b)
  {
    forall m, n | 0 <= m < |a| && 0 <= n < |b| ensures a[m] != b[n] && a[m].buffer != b[n].buffer {
      assert a[m] in a && b[n] in b;
    }
  }

  /** The header of the next record of 'src', and its payload if it is all there. */
  method HeaderAndFront(src: EvBuffer, dst: EvBuffer) returns (len: int, tag: nat, payload: seq<Byte>)
    requires src.Valid() && dst.Valid() && src != dst && Apart(dst.view.chains, src.view.chains)
    modifies src`first, src`last, src`lastWithDatap, src`totalLen, src`view
    modifies set c: Chain | c in src.view.chains, set c: Chain | c in src.view.chains :: c.buffer
    ensures src.Valid() && dst.Valid() && OldOrFresh(src) && (old(src.NoGap()) ==> src.NoGap())
    ensures Apart(dst.view.chains, src.view.chains)
    ensures HeaderTaken(old(src.Contents()), src.freezeStart, src.Contents(), len, tag)
    ensures 0 <= len <= |src.Contents()| ==> payload == src.Contents()[..len]
  {
    hide Flatten, LastWithData, Stores, Linked, Distinct, Apart, Chain.Valid, EvBuffer.Valid, NoGapBefore, HeaderTaken;
    NotShared(dst.view.chains, src.view.chains);
    assert dst.Valid();
    len, tag := UnmarshalHeader(src);
    payload := [];
    TakenIsInt(old(src.Contents()), src.freezeStart, src.Contents(), len, tag);
    if len >= 0 {
      var ok, bytes := Front(src, len);
      payload := if ok then bytes else [];
    }
    SharedNone(dst.view.chains, src.view.chains);
  }

  /**
   * What evtag_unmarshal does to the bytes 's' of the source and 'd' of the destination; what
   * counts is whether the source's front and the destination's back are frozen.
   */
  ghost predicate Unmarshalled(s: seq<Byte>, d: seq<Byte>, frozen: Frozen, r: int, tag: nat, s': seq<Byte>,
                               d': seq<Byte>) {
    match HeaderSeen(s, frozen.front)
    case None => r == -1 && s' == s[TagGone(s, frozen.front)..] && d' == d
    case Some(h) =>
      var n := if |s| - h.size < h.length then -1 else ToInt(h.length);
      if n < 0 || frozen.back || n > SIZE_MAX - |d| then r == -1 && s' == s[h.size..] && d' == d
      else
        && r == n && n == h.length && tag == h.tag && h.size + n <= |s|
        && s' == s[h.size + (if frozen.front then 0 else n)..] && d' == d + s[h.size..h.size + n]
  }

  /** evtag_unmarshal. */
  method Unmarshal(src: EvBuffer, dst: EvBuffer) returns (r: int, tag: nat)
    requires src.Valid() && dst.Valid() && src != dst && Apart(dst.view.chains, src.view.chains)
    modifies src`first, src`last, src`lastWithDatap, src`totalLen, src`view
    modifies set c: Chain | c in src.view.chains, set c: Chain | c in src.view.chains :: c.buffer
    modifies dst, set c: Chain | c in dst.view.chains, set c: Chain | c in dst.view.chains :: c.buffer
    ensures src.Valid() && dst.Valid() && OldOrFresh(src)
    ensures dst.freezeStart == old(dst.freezeStart) && dst.freezeEnd == old(dst.freezeEnd)
    ensures Unmarshalled(old(src.Contents()), old(dst.Contents()), Frozen(src.freezeStart, old(dst.freezeEnd)),
                         r, tag, src.Contents(), dst.Contents())
  {
    hide Flatten, LastWithData, Stores, Linked, Distinct, Apart, Chain.Valid, EvBuffer.Valid, NoGapBefore, HeaderSeen,
      ToInt;
    ghost var s, d := src.Contents(), dst.Contents();
    NotShared(dst.view.chains, src.view.chains);
    dst.Length();
    var payload;
    r, tag, payload := HeaderAndFront(src, dst);
    src.Length();
    ghost var t := src.Contents();
    if r < 0 {
      // A length beyond INT_MAX turns negative; no chain holds as many bytes as that asks for.
      return -1, tag;
    }
    HeaderSeenFits(s, src.freezeStart);
    ghost var h := HeaderSeen(s, src.freezeStart).value;
    LengthIsInt(h.length);
    var added := AddTail(src, dst, payload, true);
    if added == -1 {
      return -1, tag;
    }
    DrainApart(src, dst, r);
    Moved(s, d, Frozen(src.freezeStart, dst.freezeEnd), tag, h, src.Contents(), payload);
  }

  /** The last step: the payload has been added, and drained if the front is not frozen. */
  lemma Moved(s: seq<Byte>, d: seq<Byte>, frozen: Frozen, tag: nat, h: Header, s': seq<Byte>, payload: seq<Byte>)
    requires HeaderSeen(s, frozen.front) == Some(h) && h.tag == tag && !frozen.back
    requires ToInt(h.length) == h.length && h.size + h.length <= |s| && |d| + h.length <= SIZE_MAX
    requires payload == s[h.size..][..h.length]
    requires s' == if frozen.front then s[h.size..]
                   else if h.length >= |s| - h.size then [] else s[h.size..][h.length..]
    ensures Unmarshalled(s, d, frozen, h.length, tag, s', d + payload)
  {
    hide HeaderSeen, ToInt;
    Within(s, h.size, h.length, s[h.size..]);
    Behind(s, h.size, s[h.size..]);
  }

  /** With room at the destination, unmarshalling is reading one record off the front. */
  lemma UnmarshalReads(s: seq<Byte>, d: seq<Byte>, r: int, tag: nat, s': seq<Byte>, d': seq<Byte>)
    requires Unmarshalled(s, d, Frozen(false, false), r, tag, s', d') && |s| + |d| <= SIZE_MAX
    ensures r >= 0 <==> ReadRecord(s).Some? && HeaderOf(s).value.length < 0x8000_0000
    ensures r >= 0 ==> d <= d' && ReadRecord(s) == Some((Record(tag, d'[|d|..]), s'))
  {
    hide HeaderOf;
    if HeaderOf(s).Some? {
      HeaderFits(s);
    }
  }

  lemma LengthIsInt(n: nat)
    requires n < UINT32
    ensures ToInt(n) >= 0 ==> ToInt(n) == n && !TooLarge(n)
  {
  }

  lemma Within(s: seq<Byte>, k: nat, n: nat, t: seq<Byte>)
    requires k + n <= |s| && t == s[k..]
    ensures t[..n] == s[k..k + n] && (n == |t| ==> s[k + n..] == [])
  {
  }

  method DrainApart(src: EvBuffer, dst: EvBuffer, n: nat)
    requires src.Valid() && dst.Valid() && src != dst && Apart(dst.view.chains, src.view.chains)
    modifies src`first, src`last, src`lastWithDatap, src`totalLen, src`view, set c: Chain | c in src.view.chains
    ensures src.Valid() && dst.Valid() && OldOrFresh(src)
    ensures src.Contents() == if src.freezeStart then old(src.Contents())
                              else if n >= |old(src.Contents())| then [] else old(src.Contents())[n..]
  {
    hide Flatten, LastWithData, Stores, Linked, Distinct, Apart, Chain.Valid, EvBuffer.Valid, NoGapBefore;
    NotShared(dst.view.chains, src.view.chains);
    assert dst.Valid();
    src.Length();
    var _ := Drain(src, n);
  }

  /** How many bytes evtag_consume takes off a buffer that starts with a whole record and is not frozen. */
  function ConsumedBytes(s: seq<Byte>, h: Header): (n: nat)
    requires |s| - h.size >= h.length
    ensures h.size <= n <= |s|
  {
    var len, left := ToInt(h.length), |s| - h.size;
    if len == -1 then h.size
    else
      var drained := if len < 0 then len + SIZE_MAX + 1 else len;
      h.size + if drained < left then drained else left
  }

  /** What evtag_consume makes of 's': a length beyond INT_MAX turns negative, and drains everything. */
  ghost predicate ConsumedAs(s: seq<Byte>, frozen: bool, s': seq<Byte>, r: int) {
    match HeaderSeen(s, frozen)
    case None => r == -1 && s' == s[TagGone(s, frozen)..]
    case Some(h) =>
      if |s| - h.size < h.length then r == -1 && s' == s[h.size..]
      else
        && r == (if ToInt(h.length) == -1 then -1 else 0)
        && s' == s[if frozen then 0 else ConsumedBytes(s, h)..]
  }

  lemma ConsumeFails(s: seq<Byte>, frozen: bool, t: seq<Byte>, tag: nat)
    requires HeaderTaken(s, frozen, t, -1, tag)
    ensures ConsumedAs(s, frozen, t, -1)
  {
    hide ToInt, HeaderOf;
    if HeaderSeen(s, frozen).Some? {
      HeaderSeenFits(s, frozen);
    }
  }

  lemma ConsumeDrains(s: seq<Byte>, frozen: bool, t: seq<Byte>, len: int, tag: nat, u: seq<Byte>)
    requires HeaderTaken(s, frozen, t, len, tag) && len != -1 && |s| <= SIZE_MAX
    requires var d := if len < 0 then len + SIZE_MAX + 1 else len;
             u == if frozen then t else if d >= |t| then [] else t[d..]
    ensures ConsumedAs(s, frozen, u, 0)
  {
    hide ToInt, HeaderOf;
    HeaderSeenFits(s, frozen);
    var h := HeaderSeen(s, frozen).value;
    LengthIsInt(h.length);
    Behind(s, h.size, t);
    assert t[|t|..] == [] && s[|s|..] == [];
  }

  /** evbuffer_drain, whatever it returns. */
  method DrainIfMay(buf: EvBuffer, n: nat)
    requires buf.Valid()
    modifies buf`first, buf`last, buf`lastWithDatap, buf`totalLen, buf`view, set c: Chain | c in buf.view.chains
    ensures buf.Valid() && OldOrFresh(buf)
    ensures buf.Contents() == if buf.freezeStart then old(buf.Contents())
                              else if n >= |old(buf.Contents())| then [] else old(buf.Contents())[n..]
  {
    hide Flatten, LastWithData, Stores, Linked, Distinct, Chain.Valid, EvBuffer.Valid, NoGapBefore;
    buf.Length();
    var _ := Drain(buf, n);
  }

  /** evtag_consume. */
  method Consume(buf: EvBuffer) returns (r: int)
    requires buf.Valid()
    modifies buf`first, buf`last, buf`lastWithDatap, buf`totalLen, buf`view
    modifies set c: Chain | c in buf.view.chains, set c: Chain | c in buf.view.chains :: c.buffer
    ensures buf.Valid() && OldOrFresh(buf)
    ensures ConsumedAs(old(buf.Contents()), buf.freezeStart, buf.Contents(), r)
  {
    hide Flatten, LastWithData, Stores, Linked, Distinct, Chain.Valid, EvBuffer.Valid, NoGapBefore, HeaderSeen, ToInt,
      HeaderTaken, ConsumedAs;
    ghost var s := buf.Contents();
    buf.Length();
    var len, tag := UnmarshalHeader(buf);
    ghost var t := buf.Contents();
    if len == -1 {
      ConsumeFails(s, buf.freezeStart, t, tag);
      return -1;
    }
    TakenIsSsize(s, buf.freezeStart, t, len, tag);
    DrainIfMay(buf, if len < 0 then len + SIZE_MAX + 1 else len);
    ConsumeDrains(s, buf.freezeStart, t, len, tag, buf.Contents());
    return 0;
  }

  lemma TakenIsSsize(s: seq<Byte>, frozen: bool, s': seq<Byte>, r: int, tag: nat)
    requires HeaderTaken(s, frozen, s', r, tag)
    ensures -0x8000_0000 <= r < 0x8000_0000
  {
    hide HeaderSeen;
  }

  /** evtag_peek_length. */
  method PeekLength(buf: EvBuffer) returns (r: int, length: nat)
    requires buf.Valid()
    modifies buf`first, buf`last, buf`lastWithDatap, buf`totalLen, buf`view
    modifies set c: Chain | c in buf.view.chains, set c: Chain | c in buf.view.chains :: c.buffer
    ensures buf.Valid() && OldOrFresh(buf) && buf.Contents() == old(buf.Contents())
    ensures match HeaderOf(buf.Contents())
            case None => r == -1
            case Some(h) => r == 0 && length == (h.size + h.length) % UINT32
  {
    hide Flatten, LastWithData, Stores, Linked, Distinct, Chain.Valid, EvBuffer.Valid, NoGapBefore, DecodeTag,
      DecodeInt;
    ghost var s := buf.Contents();
    assert s[0..] == s;
    var len, _, _ := DecodeTagInternal(buf, false);
    if len == -1 {
      return -1, 0;
    }
    TagSizeOf(s);
    NoInt(s[len..], 8);
    var res;
    res, length := DecodeIntInternal(buf, len, 8);
    if res == -1 {
      return -1, length;
    }
    length := (length + res + len) % UINT32;
    r := 0;
  }

  lemma TagSizeOf(s: seq<Byte>)
    ensures DecodeTag(s, 0).Some? ==> DecodeTag(s, 0).value.1 <= 5
  {
    if DecodeTag(s, 0).Some? {
      TagFits(s, 0);
    }
  }

  /**
   * For a whole record the length peeked is the length consumed, except when a payload of 2 GB or
   * more turns negative on the way.
   */
  lemma PeekedIsConsumed(s: seq<Byte>, h: Header)
    requires HeaderOf(s) == Some(h) && |s| - h.size >= h.length && |s| <= SSIZE_MAX
    ensures (h.size + h.length) % UINT32 == ConsumedBytes(s, h)
      <==> h.length < 0x8000_0000 || (h.length < UINT32 - 1 && h.size + h.length < UINT32 && |s| == h.size + h.length)
  {
    hide HeaderOf;
    HeaderFits(s);
  }

  /** A record of 2 GB with a byte behind it: peeking gives its length, consuming takes everything. */
  lemma LargeRecordConsumed(payload: seq<Byte>)
    requires |payload| == 0x8000_0000
    ensures var s := Marshalled(Record(0, payload)) + [0];
            HeaderOf(s).Some? && var h := HeaderOf(s).value;
                                 && h.length == |payload| && |s| - h.size > h.length
                                 && (h.size + h.length) % UINT32 == |s| - 1 && ConsumedBytes(s, h) == |s|
  {
    hide EncodeTag, EncodeInt, HeaderOf, Digits;
    var r := Record(0, payload);
    var s := Marshalled(r) + [0];
    RecordRoundTrip(r, [0]);
    HeaderFits(s);
  }
}
