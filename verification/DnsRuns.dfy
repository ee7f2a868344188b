/** A message whose names are written into an array one after the other, and read back from it. */
module DnsRuns {
  import opened Bytes
  import opened DnsNames
  import opened DnsRoundTrip
  import opened DnsCompression

  /** The names written so far, in front of those of 'm'. */
  ghost function Onto(starts: seq<nat>, ends: seq<nat>, m: Message): Message {
    if m.Unwritten? then m else Message(m.p, m.tab, starts + m.starts, ends + m.ends)
  }

  lemma OntoNothing(m: Message)
    ensures Onto([], [], m) == m
  {
    if m.Message? {
      assert [] + m.starts == m.starts && [] + m.ends == m.ends;
    }
  }

  /** One step of the writer, seen from the whole message. */
  lemma {:induction false} WriteStep(items: seq<Item>, i: nat, p: seq<Byte>, tab: seq<Entry>, bufLen: nat,
                                     starts: seq<nat>, ends: seq<nat>)
    requires i < |items|
    ensures var pre := p + items[i].gap;
            var e := Encode(items[i].name, |pre|, bufLen, true, tab);
            Onto(starts, ends, Write(items[i..], p, tab, bufLen)) ==
              if e.Failed? then Unwritten
              else Onto(starts + [|pre|], ends + [|pre + e.bytes|],
                        Write(items[i + 1..], pre + e.bytes, e.tab, bufLen))
  {
    hide Encode;
    var pre := p + items[i].gap;
    var e := Encode(items[i].name, |pre|, bufLen, true, tab);
    assert items[i..][0] == items[i] && items[i..][1..] == items[i + 1..];
    if e.Encoded? {
      var rest := Write(items[i + 1..], pre + e.bytes, e.tab, bufLen);
      if rest.Message? {
        assert starts + ([|pre|] + rest.starts) == (starts + [|pre|]) + rest.starts;
        assert ends + ([|pre + e.bytes|] + rest.ends) == (ends + [|pre + e.bytes|]) + rest.ends;
      }
    }
  }

  /** Nothing can be written from behind the end of the buffer on. */
  lemma NoRoomLeft(name: seq<Byte>, j: nat, bufLen: nat, useTable: bool, tab: seq<Entry>)
    requires j > bufLen
    ensures Encode(name, j, bufLen, useTable, tab).Failed?
  {
  }

  lemma LastStep(items: seq<Item>, p: seq<Byte>, tab: seq<Entry>, bufLen: nat, starts: seq<nat>, ends: seq<nat>)
    ensures Onto(starts, ends, Write(items[|items|..], p, tab, bufLen)) == Message(p, tab, starts, ends)
  {
    assert starts + [] == starts && ends + [] == ends;
  }

  /** A name that a caller of dnsname_to_labels may pass and that is not refused for its length. */
  predicate Writable(name: seq<Byte>) {
    CString(name) && |name| <= 255
  }

  /** Write bytes other than names. */
  method PutGap(buf: array<Byte>, j: nat, gap: seq<Byte>)
    requires j + |gap| <= buf.Length
    modifies buf
    ensures buf[..j + |gap|] == old(buf[..j]) + gap
  {
    ghost var before := buf[..j];
    forall i | 0 <= i < |gap| {
      buf[j + i] := gap[i];
    }
    assert buf[..j] == before && buf[j..j + |gap|] == gap;
    assert buf[..j + |gap|] == buf[..j] + buf[j..j + |gap|];
  }

  /** Write the next name: the encoding stands behind everything before it. */
  method PutName(buf: array<Byte>, bufLen: nat, j: nat, name: seq<Byte>, table: LabelTable) returns (r: int)
    requires j <= bufLen < buf.Length && Writable(name) && table.Valid()
    modifies buf, table, table.labels
    ensures table.Valid()
    ensures match Encode(name, j, bufLen, true, old(table.Entries()))
            case Failed(code) => r == code < 0
            case Encoded(bytes, tab) =>
              r == j + |bytes| <= bufLen + 1 && buf[..r] == old(buf[..j]) + bytes && table.Entries() == tab
  {
    hide Encode;
    ghost var e := Encode(name, j, bufLen, true, table.Entries());
    ghost var before := buf[..j];
    FailedIsNegative(name, j, bufLen, table.Entries());
    r := DnsnameToLabels(buf, bufLen, j, name, table);
    if e.Encoded? {
      EncodeFits(name, j, bufLen, true, old(table.Entries()));
      assert buf[..j] == before;
      assert buf[..r] == buf[..j] + buf[j..r];
    }
  }

  lemma {:induction false} FailedIsNegative(name: seq<Byte>, j: nat, bufLen: nat, tab: seq<Entry>)
    ensures var e := Encode(name, j, bufLen, true, tab); e.Failed? ==> e.code < 0
    decreases |name|
  {
    hide Lookup, Remember, FirstDot;
    var d := FirstDot(name);
    if d < |name| {
      FailedIsNegative(name[d + 1..], j + d + 1, bufLen, Remember(tab, name, j));
    }
  }

  /** Write the items, each name behind its gap, through one table; the array has a byte to spare. */
  method WriteAll(buf: array<Byte>, bufLen: nat, items: seq<Item>)
    returns (ok: bool, end: nat, starts: seq<nat>, ends: seq<nat>)
    requires bufLen < buf.Length && forall x | x in items :: Writable(x.name)
    modifies buf
    ensures ok <==> Write(items, [], [], bufLen).Message?
    ensures end <= bufLen + 1
    ensures ok ==>
              Write(items, [], [], bufLen) == Message(buf[..end], Write(items, [], [], bufLen).tab, starts, ends)
  {
    hide Encode, Write, Onto;
    var table := new LabelTable();
    starts, ends, end := [], [], 0;
    OntoNothing(Write(items, [], [], bufLen));
    assert items[0..] == items && buf[..0] == [];
    for i := 0 to |items|
      invariant table.Valid() && fresh(table) && fresh(table.labels) && end <= bufLen + 1
      invariant Write(items, [], [], bufLen)
        == Onto(starts, ends, Write(items[i..], buf[..end], table.Entries(), bufLen))
    {
      ghost var p := buf[..end];
      var x := items[i];
      assert x in items;
      WriteStep(items, i, p, table.Entries(), bufLen, starts, ends);
      if end + |x.gap| > bufLen {
        NoRoomLeft(x.name, end + |x.gap|, bufLen, true, table.Entries());
        return false, end, starts, ends;
      }
      PutGap(buf, end, x.gap);
      var r := PutName(buf, bufLen, end + |x.gap|, x.name, table);
      if r < 0 {
        return false, end, starts, ends;
      }
      starts, ends, end := starts + [end + |x.gap|], ends + [r], r;
    }
    LastStep(items, buf[..end], table.Entries(), bufLen, starts, ends);
    ok := true;
  }

  /** The text up to the first zero. */
  method TextOf(a: array<Byte>) returns (text: seq<Byte>)
    requires exists k :: 0 <= k < a.Length && a[k] == 0
    ensures CString(text) && |text| < a.Length && a[..|text|] == text && a[|text|] == 0
  {
    var n := 0;
    while a[n] != 0
      invariant n < a.Length && CString(a[..n])
      invariant exists k :: n <= k < a.Length && a[k] == 0
      decreases a.Length - n
    {
      n := n + 1;
    }
    text := a[..n];
  }

  lemma SameText(a: seq<Byte>, x: seq<Byte>, y: seq<Byte>)
    requires |x| < |a| && |y| < |a| && CString(x) && CString(y) && a[..|x|] == x && a[..|y|] == y
    requires a[|x|] == 0 && a[|y|] == 0
    ensures x == y
  {
  }

  /** Parse the name at 'start' of the first 'length' bytes. */
  method ReadName(packet: array<Byte>, length: nat, start: nat, ghost name: seq<Byte>)
    returns (r: int, next: nat, text: seq<Byte>)
    requires length <= packet.Length && Writable(name)
    requires var w := Walk(packet[..length], start, length); w.Name? && Dotted(w.labels) == name
    ensures r == 0 && text == name && next == Walk(packet[..length], start, length).next
  {
    hide Walk, Dotted;
    var out := new Byte[256];
    r, next := NameParse(packet, length, start, out);
    text := TextOf(out);
    SameText(out[..], text, name);
  }

  /** Name 'i' has been read, and its end is where the writer stopped. */
  ghost predicate Got(items: seq<Item>, texts: seq<seq<Byte>>, nexts: seq<nat>, ends: seq<nat>) {
    && |texts| == |nexts| <= |items| && |texts| <= |ends|
    && forall i | 0 <= i < |texts| :: texts[i] == items[i].name && nexts[i] == ends[i]
  }

  /**
   * Names without empty labels, written with dnsname_to_labels through one table into an array,
   * come back from name_parse with their text and the writer's end offset.
   */
  method WriteAndRead(bufLen: nat, items: seq<Item>)
    returns (ok: bool, texts: seq<seq<Byte>>, nexts: seq<nat>, ghost ends: seq<nat>)
    requires bufLen < MAX_OFFSET && forall x | x in items :: Writable(x.name) && NoEmptyLabel(x.name)
    ensures ok <==> Write(items, [], [], bufLen).Message?
    ensures ok ==> ends == Write(items, [], [], bufLen).ends && |texts| == |items| && Got(items, texts, nexts, ends)
  {
    hide Write, Walk, Dotted, NoEmptyLabel;
    var buf := new Byte[bufLen + 1];
    var end, starts, stops;
    texts, nexts := [], [];
    ok, end, starts, stops := WriteAll(buf, bufLen, items);
    ends := stops;
    ghost var m := Write(items, [], [], bufLen);
    if !ok {
      return;
    }
    for i := 0 to |items|
      invariant |texts| == i && Got(items, texts, nexts, ends) && buf[..end] == m.p
    {
      assert items[i] in items;
      RoundTrip(items, [], bufLen, i);
      var r, next, text := ReadName(buf, end, starts[i], items[i].name);
      texts, nexts := texts + [text], nexts + [next];
    }
  }

  /** A name written twice through a new table, as a question and its answer are: the second time it is a pointer. */
  method WriteTwice(buf: array<Byte>, bufLen: nat, name: seq<Byte>) returns (first: int, second: int)
    requires bufLen < buf.Length && Writable(name)
    modifies buf
    ensures first >= 0 <==> Fits(name, 0, bufLen, []) && NoLongBefore(name, |name| + 1, [])
    ensures first < 0 ==> second < 0
    ensures first >= 0 ==> first == |name| + if name == [] || name[|name| - 1] == DOT then 1 else 2
    ensures first >= 0 ==>
              if first + 2 <= bufLen then second == first + 2 <= buf.Length && buf[first..second] == [192, 0]
              else second == -2
  {
    hide Encode, Fits, NoLongBefore;
    var table := new LabelTable();
    EncodeExact(name, 0, bufLen, true, []);
    assert buf[..0] == [];
    first := PutName(buf, bufLen, 0, name, table);
    if first < 0 {
      return first, -1;
    }
    ghost var e, p := Encode(name, 0, bufLen, true, []), buf[..first];
    SpelledLength(name, 0, bufLen, true, []);
    if first > bufLen {
      return first, -2;
    }
    SecondTime(name, 0, [], bufLen, table.Entries(), first);
    second := PutName(buf, bufLen, first, name, table);
    if first + 2 <= bufLen {
      assert buf[..second][first..] == Pointer(0);
    }
  }
}
