/** Records sent through an evbuffer: marshalled one after the other, and unmarshalled again. */
module TagRuns {
  import opened Bytes
  import opened Chains
  import opened EvBuffers
  import opened EvBufferAdd
  import opened EvBufferDrain
  import opened TagCodec
  import opened Tagging
  import opened Options

  lemma {:induction false} StreamSnoc(rs: seq<Record>, r: Record)
    requires Sendable(r) && forall x | x in rs :: Sendable(x)
    ensures Stream(rs + [r]) == Stream(rs) + Marshalled(r)
  {
    hide Marshalled;
    if rs == [] {
      assert [r][1..] == [] && [] + [r] == [r];
    } else {
      assert rs[0] in rs && (rs + [r])[1..] == rs[1..] + [r];
      StreamSnoc(rs[1..], r);
      Assoc(Marshalled(rs[0]), Stream(rs[1..]), Marshalled(r));
    }
  }

  lemma {:induction false} StreamPrefix(rs: seq<Record>, i: nat)
    requires i < |rs| && forall x | x in rs :: Sendable(x)
    ensures rs[i] in rs && Stream(rs[..i + 1]) == Stream(rs[..i]) + Marshalled(rs[i])
    ensures |Stream(rs[..i + 1])| <= |Stream(rs)|
    decreases |rs| - i
  {
    hide Marshalled, Stream;
    assert rs[..i + 1] == rs[..i] + [rs[i]];
    StreamSnoc(rs[..i], rs[i]);
    if i + 1 < |rs| {
      StreamPrefix(rs, i + 1);
      assert rs[..i + 1][..i + 1] == rs[..i + 1];
    } else {
      assert rs[..i + 1] == rs;
    }
  }

  /** Marshal the records in order. */
  method MarshalAll(buf: EvBuffer, rs: seq<Record>)
    requires buf.Valid() && !buf.freezeEnd && forall r | r in rs :: Sendable(r)
    requires buf.totalLen + |Stream(rs)| <= SIZE_MAX
    modifies buf, set c: Chain | c in buf.view.chains, set c: Chain | c in buf.view.chains :: c.buffer
    ensures buf.Valid() && OldOrFresh(buf) && buf.Contents() == old(buf.Contents()) + Stream(rs)
    ensures buf.freezeStart == old(buf.freezeStart) && buf.freezeEnd == old(buf.freezeEnd)
  {
    hide Flatten, LastWithData, Stores, Linked, Distinct, Chain.Valid, EvBuffer.Valid, NoGapBefore, Marshalled, Stream;
    ghost var s := buf.Contents();
    buf.Length();
    NothingSent(s, rs);
    for i := 0 to |rs|
      invariant buf.Valid() && OldOrFresh(buf) && buf.Contents() == s + Stream(rs[..i])
      invariant buf.freezeStart == old(buf.freezeStart) && buf.freezeEnd == old(buf.freezeEnd)
    {
      StreamPrefix(rs, i);
      buf.Length();
      Assoc(s, Stream(rs[..i]), Marshalled(rs[i]));
      Marshal(buf, rs[i].tag, rs[i].payload);
    }
    assert rs[..|rs|] == rs;
  }

  lemma NothingSent(s: seq<Byte>, rs: seq<Record>)
    ensures s + Stream(rs[..0]) == s
  {
  }

  /** Reading one record more reads it off what the others leave. */
  lemma {:induction false} ReadSnoc(s: seq<Byte>, n: nat)
    ensures ReadStream(s, n + 1) ==
      match ReadStream(s, n)
      case None => None
      case Some(first) =>
        match ReadRecord(first.1)
        case None => None
        case Some(next) => Some((first.0 + [next.0], next.1))
    decreases n
  {
    hide ReadRecord;
    assert forall r: Record :: [r] + [] == [] + [r];
    if n > 0 && ReadRecord(s).Some? {
      var first := ReadRecord(s).value;
      ReadSnoc(first.1, n - 1);
      if ReadStream(s, n).Some? && ReadRecord(ReadStream(s, n).value.1).Some? {
        var more, next := ReadStream(first.1, n - 1).value.0, ReadRecord(ReadStream(s, n).value.1).value.0;
        assert [first.0] + (more + [next]) == ([first.0] + more) + [next];
      }
    }
  }

  /** 'n' records can be read, and the length of each payload fits an int. */
  ghost predicate AllReadable(s: seq<Byte>, n: nat) {
    ReadStream(s, n).Some? && forall r | r in ReadStream(s, n).value.0 :: |r.payload| < 0x8000_0000
  }

  lemma {:induction false} ReadableSnoc(s: seq<Byte>, n: nat, i: nat)
    requires i <= n && AllReadable(s, n)
    ensures AllReadable(s, i)
    decreases n - i
  {
    hide ReadRecord, ReadStream;
    if i < n {
      ReadableSnoc(s, n, i + 1);
      ReadSnoc(s, i);
    }
  }

  /** Unmarshal one record into a buffer of its own, and read it there. */
  method UnmarshalNext(src: EvBuffer) returns (ok: bool, r: Record)
    requires src.Valid() && !src.freezeStart
    modifies src`first, src`last, src`lastWithDatap, src`totalLen, src`view
    modifies set c: Chain | c in src.view.chains, set c: Chain | c in src.view.chains :: c.buffer
    ensures src.Valid() && OldOrFresh(src)
    ensures ok <==> ReadRecord(old(src.Contents())).Some?
                    && |ReadRecord(old(src.Contents())).value.0.payload| < 0x8000_0000
    ensures ok ==> ReadRecord(old(src.Contents())) == Some((r, src.Contents()))
    ensures !ok ==> src.Contents() == LeftBy(old(src.Contents()))
    ensures src.freezeStart == old(src.freezeStart) && src.freezeEnd == old(src.freezeEnd)
  {
    hide Flatten, LastWithData, Stores, Linked, Distinct, Chain.Valid, EvBuffer.Valid, EvBuffer.Listed, NoGapBefore;
    hide HeaderOf;
    ghost var s := src.Contents();
    src.Length();
    var dst := new EvBuffer();
    NothingShared(src.view.chains);
    var n, tag := Unmarshal(src, dst);
    assert s == old(src.Contents());
    UnmarshalReads(s, [], n, tag, src.Contents(), dst.Contents());
    PayloadIsLength(s);
    if n < 0 {
      return false, Record(0, []);
    }
    dst.Length();
    var _, bytes := Copyout(dst, dst.totalLen);
    assert dst.Contents()[0..] == dst.Contents() == bytes;
    r, ok := Record(tag, bytes), true;
  }

  lemma NothingShared(cs: seq<Chain>)
    ensures Apart([], cs)
  {
  }

  lemma PayloadIsLength(s: seq<Byte>)
    ensures ReadRecord(s).Some? ==> |ReadRecord(s).value.0.payload| == HeaderOf(s).value.length
  {
    hide HeaderOf;
  }

  /** Unmarshal 'n' records, or as many as come before the first one that fails. */
  method UnmarshalAll(src: EvBuffer, n: nat) returns (ok: bool, rs: seq<Record>)
    requires src.Valid() && !src.freezeStart
    modifies src`first, src`last, src`lastWithDatap, src`totalLen, src`view
    modifies set c: Chain | c in src.view.chains, set c: Chain | c in src.view.chains :: c.buffer
    ensures src.Valid() && OldOrFresh(src)
    ensures ok <==> AllReadable(old(src.Contents()), n)
    ensures ok ==> ReadStream(old(src.Contents()), n) == Some((rs, src.Contents()))
  {
    hide Flatten, LastWithData, Stores, Linked, Distinct, Chain.Valid, EvBuffer.Valid, EvBuffer.Listed, ReadRecord;
    ghost var s := src.Contents();
    rs := [];
    for i := 0 to n
      invariant src.Valid() && OldOrFresh(src) && AllReadable(s, i)
      invariant ReadStream(s, i) == Some((rs, src.Contents()))
    {
      ReadSnoc(s, i);
      var r;
      ok, r := UnmarshalNext(src);
      if !ok {
        NotAll(s, i, n);
        return;
      }
      rs := rs + [r];
    }
    ok := true;
  }

  /** If record 'i' cannot be read, or is too long, not all can. */
  lemma NotAll(s: seq<Byte>, i: nat, n: nat)
    requires i < n && !AllReadable(s, i + 1)
    ensures !AllReadable(s, n)
  {
    if AllReadable(s, n) {
      ReadableSnoc(s, n, i + 1);
    }
  }

  /** Whatever is sent comes back, in order, and nothing is left. */
  method SendAll(rs: seq<Record>) returns (back: seq<Record>)
    requires (forall r | r in rs :: Sendable(r)) && |Stream(rs)| <= SIZE_MAX
    ensures back == rs
  {
    hide Flatten, LastWithData, Stores, Linked, Distinct, Chain.Valid, EvBuffer.Valid, EvBuffer.Listed;
    hide ReadStream, Stream;
    var buf := new EvBuffer();
    buf.Length();
    MarshalAll(buf, rs);
    StreamRoundTrip(rs, []);
    assert [] + Stream(rs) == Stream(rs) == Stream(rs) + [];
    var ok;
    ok, back := UnmarshalAll(buf, |rs|);
    assert buf.Contents() == [];
  }

  /* ------------------------- Records that arrive in two pieces ------------------------- */

  /** What evtag_unmarshal leaves of 's' when it fails, and the front is not frozen. */
  ghost function LeftBy(s: seq<Byte>): (t: seq<Byte>)
    ensures |t| <= |s|
  {
    match HeaderOf(s)
    case None => s[TagGone(s, false)..]
    case Some(h) => s[h.size..]
  }

  /** The first bytes of a tag are not a tag. */
  lemma {:induction false} CutTag(pre: seq<Byte>, tag: nat, n: nat)
    requires n < |EncodeTag(tag)|
    ensures DecodeTag(pre + EncodeTag(tag)[..n], |pre|) == None
    decreases tag
  {
    if n > 0 {
      var lower: Byte := tag % 128 + 128;
      assert EncodeTag(tag) == [lower] + EncodeTag(tag / 128);
      assert pre + EncodeTag(tag)[..n] == (pre + [lower]) + EncodeTag(tag / 128)[..n - 1];
      CutTag(pre + [lower], tag / 128, n - 1);
    }
  }

  /** The first bytes of an integer are not an integer. */
  lemma CutInt(v: nat, n: nat)
    requires Digits(v) <= 16 && n < |EncodeInt(v)|
    ensures DecodeInt(EncodeInt(v)[..n], 8) == None
  {
    EncodedNibbles(v, []);
    assert EncodeInt(v) + [] == EncodeInt(v);
  }

  lemma {:induction false} DigitsOfSmall(v: nat, m: nat)
    requires v < Pow16(m) && m >= 1
    ensures Digits(v) <= m
  {
    if v >= 16 {
      DigitsOfSmall(v / 16, m - 1);
    }
  }

  /** No encoding of an integer is shorter than the encoder's. */
  lemma IntSize(s: seq<Byte>)
    requires DecodeInt(s, 8).Some?
    ensures DecodeInt(s, 8).value.1 > Digits(DecodeInt(s, 8).value.0) / 2
  {
    var m := s[0] / 16 + 1;
    ValueFits(s, 1, m);
    DigitsOfSmall(ValueOf(s, 1, m), m);
  }

  /** The length and the payload of a record are not that record once more. */
  lemma NotOnceMore(r: Record)
    requires Sendable(r)
    ensures Digits(|r.payload|) <= 16
    ensures ReadRecord(EncodeInt(|r.payload|) + r.payload) != Some((r, [])) && ReadRecord(r.payload) != Some((r, []))
  {
    hide DecodeTag, DecodeInt, EncodeInt, Digits;
    DigitsFit(|r.payload|);
    var s := EncodeInt(|r.payload|) + r.payload;
    if ReadRecord(s) == Some((r, [])) {
      var t := DecodeTag(s, 0).value;
      IntSize(s[t.1..]);
      assert false;
    }
  }

  /** The header of bytes that start with a whole tag. */
  lemma HeaderBehind(tag: nat, tail: seq<Byte>)
    requires tag < UINT32
    ensures var t := |EncodeTag(tag)|; var s := EncodeTag(tag) + tail;
            && TagGone(s, false) == t && s[t..] == tail
            && HeaderOf(s) == match DecodeInt(tail, 8)
                              case None => None
                              case Some(n) => Some(Header(tag, n.0, t + n.1))
  {
    hide DecodeTag, DecodeInt, EncodeTag;
    var t := EncodeTag(tag);
    var s := t + tail;
    assert [] + t + tail == s && s[|t|..] == tail;
    TagRoundTrip([], tag, tail);
  }

  lemma CutTwice(s: seq<Byte>, a: nat, b: nat, tail: seq<Byte>)
    requires a + b <= |s| && s[a..] == tail
    ensures b <= |tail| && s[a + b..] == tail[b..]
  {
  }

  /** The first piece has the tag and 'tail', the beginning of the length and the payload. */
  lemma BehindTag(r: Record, tail: seq<Byte>, more: seq<Byte>)
    requires Sendable(r) && Digits(|r.payload|) <= 16 && more != []
    requires tail + more == EncodeInt(|r.payload|) + r.payload
    ensures var s := EncodeTag(r.tag) + tail; var e := EncodeInt(|r.payload|);
            && ReadRecord(s) == None
            && LeftBy(s) + more == if |tail| < |e| then e + r.payload else r.payload
  {
    hide DecodeInt, EncodeTag, EncodeInt, Digits, HeaderOf, TagGone;
    DigitsFit(|r.payload|);
    var t, e := |EncodeTag(r.tag)|, EncodeInt(|r.payload|);
    var s := EncodeTag(r.tag) + tail;
    HeaderBehind(r.tag, tail);
    if |tail| < |e| {
      CutInt(|r.payload|, |tail|);
      CommonFront(tail, more, e, r.payload);
    } else {
      var part := tail[|e|..];
      CommonBack(tail, more, e, r.payload);
      IntRoundTrip(|r.payload|, 8, part);
      CutTwice(s, t, |e|, tail);
    }
  }

  lemma CommonFront(a: seq<Byte>, b: seq<Byte>, c: seq<Byte>, d: seq<Byte>)
    requires a + b == c + d && |a| <= |c|
    ensures a == c[..|a|]
  {
    assert a == (a + b)[..|a|];
  }

  lemma CommonBack(a: seq<Byte>, b: seq<Byte>, c: seq<Byte>, d: seq<Byte>)
    requires a + b == c + d && |c| <= |a|
    ensures a == c + a[|c|..] && a[|c|..] + b == d
  {
    assert a[..|c|] == (a + b)[..|c|] == c;
    assert d == (c + d)[|c|..] == (a + b)[|c|..];
  }

  /** What is left after a first piece of 'n' bytes, and what comes behind it. */
  lemma Pieces(r: Record, n: nat)
    requires Sendable(r) && n < |Marshalled(r)|
    ensures Digits(|r.payload|) <= 16
    ensures var m := Marshalled(r); var t := |EncodeTag(r.tag)|; var e := EncodeInt(|r.payload|);
            && ReadRecord(m[..n]) == None
            && LeftBy(m[..n]) + m[n..]
               == if n < t then m else if n < t + |e| then e + r.payload else r.payload
  {
    hide DecodeInt, EncodeTag, EncodeInt, Digits;
    DigitsFit(|r.payload|);
    var m, t, e := Marshalled(r), EncodeTag(r.tag), EncodeInt(|r.payload|);
    var s := m[..n];
    assert s + m[n..] == m;
    if n < |t| {
      CutTag([], r.tag, n);
      assert [] + t[..n] == s && s[0..] == s;
    } else {
      hide ReadRecord, LeftBy, DecodeTag;
      var tail := s[|t|..];
      assert t + tail == s;
      assert tail + m[n..] == m[|t|..] == e + r.payload;
      BehindTag(r, tail, m[n..]);
    }
  }

  /**
   * A record of which only 'n' bytes are there cannot be unmarshalled; once the others have come, it
   * can exactly when the first attempt had not got as far as the end of the tag.
   */
  lemma SecondTry(r: Record, n: nat)
    requires Sendable(r) && n < |Marshalled(r)|
    ensures var m := Marshalled(r);
            && ReadRecord(m[..n]) == None
            && (ReadRecord(LeftBy(m[..n]) + m[n..]) == Some((r, [])) <==> n < |EncodeTag(r.tag)|)
  {
    hide ReadRecord, LeftBy, Marshalled, EncodeTag;
    Pieces(r, n);
    NotOnceMore(r);
    RecordRoundTrip(r, []);
    assert Marshalled(r) + [] == Marshalled(r);
  }

  /** The same with a buffer: the record's bytes come in two pieces, with an attempt behind each. */
  method SendInPieces(r: Record, n: nat) returns (buf: EvBuffer, ok: bool, back: Record)
    requires Sendable(r) && n < |Marshalled(r)| <= SIZE_MAX && !TooLarge(|Marshalled(r)|)
    ensures buf.Valid()
    ensures ok && back == r && buf.Contents() == [] <==> n < |EncodeTag(r.tag)|
  {
    hide Flatten, LastWithData, Stores, Linked, Distinct, Chain.Valid, EvBuffer.Valid, EvBuffer.Listed, NoGapBefore;
    hide ReadRecord, LeftBy, Marshalled;
    SecondTry(r, n);
    buf := new EvBuffer();
    buf.Length();
    var bytes := Sent(r);
    var _ := Add(buf, bytes[..n], true);
    assert buf.Contents() == bytes[..n];
    buf.Length();
    var first, _ := UnmarshalNext(buf);
    buf.Length();
    var _ := Add(buf, bytes[n..], true);
    buf.Length();
    ok, back := UnmarshalNext(buf);
  }

  /** The bytes of a record. */
  method Sent(r: Record) returns (bytes: seq<Byte>)
    requires Sendable(r)
    ensures bytes == Marshalled(r)
  {
    var data, n := EncodeTagInternal(r.tag);
    DigitsFit(|r.payload|);
    var d := new Byte[5];
    var len := EncodeIntInternal(d, |r.payload|);
    bytes := data[..n] + d[..len] + r.payload;
  }
}
