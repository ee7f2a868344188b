/** Names that are written, with or without compression, and read back. */
module DnsRoundTrip {
  import opened Bytes
  import opened DnsNames

  /** The labels of a name up to its first empty one, where its encoding ends for a reader. */
  ghost function Labels(name: seq<Byte>): seq<seq<Byte>>
    decreases |name|
  {
    var d := FirstDot(name);
    if d == 0 then []
    else if d == |name| then [name]
    else [name[..d]] + Labels(name[d + 1..])
  }

  /** No label is empty. */
  ghost predicate NoEmptyLabel(name: seq<Byte>) {
    forall i | 0 <= i < |name| && name[i] == DOT :: 0 < i < |name| - 1 && name[i + 1] != DOT
  }

  /** No label but the last is empty. */
  ghost predicate NoInnerEmpty(name: seq<Byte>) {
    forall i | 0 <= i < |name| && name[i] == DOT :: 0 < i && (i + 1 < |name| ==> name[i + 1] != DOT)
  }

  /** The first label of a name with a dot, and the rest behind the dot. */
  lemma FirstLabel(name: seq<Byte>)
    requires 0 < FirstDot(name) < |name|
    ensures var d := FirstDot(name); var rest := name[d + 1..];
            && name == name[..d] + [DOT] + rest
            && (NoEmptyLabel(name) <==> FirstDot(rest) > 0 && NoEmptyLabel(rest))
            && (NoInnerEmpty(name) <==> (rest == [] || FirstDot(rest) > 0) && NoInnerEmpty(rest))
  {
    hide FirstDot;
    var d := FirstDot(name);
    var rest := name[d + 1..];
    StartsWithDot(rest);
    SplitAt(name, d, rest);
    if NoEmptyLabel(name) {
      EmptyInRest(name, d, rest);
    }
    if FirstDot(rest) > 0 && NoEmptyLabel(rest) {
      EmptyInName(name, d, rest);
    }
    if NoInnerEmpty(name) {
      InnerInRest(name, d, rest);
    }
    if (rest == [] || FirstDot(rest) > 0) && NoInnerEmpty(rest) {
      InnerInName(name, d, rest);
    }
  }

  lemma StartsWithDot(name: seq<Byte>)
    ensures FirstDot(name) == 0 <==> name == [] || name[0] == DOT
  {
  }

  lemma SplitAt(name: seq<Byte>, d: nat, rest: seq<Byte>)
    requires d < |name| && name[d] == DOT && rest == name[d + 1..]
    ensures name == name[..d] + [DOT] + rest
  {
  }

  lemma EmptyInRest(name: seq<Byte>, d: nat, rest: seq<Byte>)
    requires d < |name| && name[d] == DOT && rest == name[d + 1..] && NoEmptyLabel(name)
    ensures rest != [] && rest[0] != DOT && NoEmptyLabel(rest)
  {
    forall i | 0 <= i < |rest| && rest[i] == DOT ensures 0 < i < |rest| - 1 && rest[i + 1] != DOT {
      assert name[d + 1 + i] == DOT;
    }
  }

  lemma EmptyInName(name: seq<Byte>, d: nat, rest: seq<Byte>)
    requires 0 < d < |name| && rest == name[d + 1..] && rest != [] && rest[0] != DOT && NoEmptyLabel(rest)
    requires forall i | 0 <= i < d :: name[i] != DOT
    ensures NoEmptyLabel(name)
  {
    forall i | 0 <= i < |name| && name[i] == DOT ensures 0 < i < |name| - 1 && name[i + 1] != DOT {
      if i > d {
        assert rest[i - d - 1] == DOT;
      }
    }
  }

  lemma InnerInRest(name: seq<Byte>, d: nat, rest: seq<Byte>)
    requires d < |name| && name[d] == DOT && rest == name[d + 1..] && NoInnerEmpty(name)
    ensures (rest == [] || rest[0] != DOT) && NoInnerEmpty(rest)
  {
    forall i | 0 <= i < |rest| && rest[i] == DOT ensures 0 < i && (i + 1 < |rest| ==> rest[i + 1] != DOT) {
      assert name[d + 1 + i] == DOT;
    }
  }

  lemma InnerInName(name: seq<Byte>, d: nat, rest: seq<Byte>)
    requires 0 < d < |name| && rest == name[d + 1..] && (rest == [] || rest[0] != DOT) && NoInnerEmpty(rest)
    requires forall i | 0 <= i < d :: name[i] != DOT
    ensures NoInnerEmpty(name)
  {
    forall i | 0 <= i < |name| && name[i] == DOT ensures 0 < i && (i + 1 < |name| ==> name[i + 1] != DOT) {
      if i > d {
        assert rest[i - d - 1] == DOT;
      }
    }
  }

  lemma DottedCons(l: seq<Byte>, tail: seq<seq<Byte>>)
    ensures Dotted([l] + tail) == if tail == [] then l else l + [DOT] + Dotted(tail)
  {
    assert ([l] + tail)[1..] == tail;
  }

  lemma NoLabels()
    ensures Dotted([]) == []
  {
  }

  lemma SameTail(l: seq<Byte>, a: seq<Byte>, b: seq<Byte>)
    ensures l + [DOT] + a == l + [DOT] + b <==> a == b
  {
    assert (l + [DOT] + a)[|l| + 1..] == a && (l + [DOT] + b)[|l| + 1..] == b;
  }

  /** The text read back is the name, exactly when the name has no empty label. */
  lemma {:induction false} TextOfLabels(name: seq<Byte>)
    ensures |Dotted(Labels(name))| <= |name|
    ensures Dotted(Labels(name)) == name <==> NoEmptyLabel(name)
    decreases |name|
  {
    hide Dotted;
    var d := FirstDot(name);
    if d == 0 {
      NoLabels();
      if name != [] {
        assert name[0] == DOT;
      }
    } else if d == |name| {
      DottedCons(name, []);
      assert [name] + [] == [name];
    } else {
      hide NoEmptyLabel;
      var rest := name[d + 1..];
      TextOfLabels(rest);
      FirstLabel(name);
      DottedCons(name[..d], Labels(rest));
      SameTail(name[..d], Dotted(Labels(rest)), rest);
    }
  }

  /** A walk that succeeds finds the same name in a longer message, and with more pointers to spare. */
  lemma {:induction false} WalkGrows(p: seq<Byte>, q: seq<Byte>, j: nat, left: nat, left': nat)
    requires p <= q && left <= left' && Walk(p, j, left).Name?
    ensures Walk(q, j, left') == Walk(p, j, left)
    decreases left, |p| - j
  {
    if p[j] == 0 {
    } else if p[j] >= 64 {
      WalkGrows(p, q, Target(p[j], p[j + 1]), left - 1, left' - 1);
    } else {
      WalkGrows(p, q, j + 1 + p[j], left, left');
      assert q[j + 1..j + 1 + p[j]] == p[j + 1..j + 1 + p[j]];
    }
  }

  /** The name at offset 'j' has these labels, whatever lies behind it. */
  ghost predicate Reads(p: seq<Byte>, j: nat, left: nat, labels: seq<seq<Byte>>) {
    Walk(p, j, left).Name? && Walk(p, j, left).labels == labels
  }

  /** Every entry of the table points, before offset 'start', at bytes that read as its name. */
  ghost predicate Sound(tab: seq<Entry>, p: seq<Byte>, start: nat) {
    forall e | e in tab :: e.pos < start && Reads(p, e.pos, e.pos, Labels(e.v))
  }

  lemma SoundGrows(tab: seq<Entry>, p: seq<Byte>, q: seq<Byte>, start: nat, start': nat)
    requires Sound(tab, p, start) && p <= q && start <= start'
    ensures Sound(tab, q, start')
  {
    forall e | e in tab ensures e.pos < start' && Reads(q, e.pos, e.pos, Labels(e.v)) {
      WalkGrows(p, q, e.pos, e.pos, e.pos);
    }
  }

  /** A name that is found is one of the older entries: the others are longer. */
  lemma {:induction false} FoundBefore(tab: seq<Entry>, own: seq<Entry>, name: seq<Byte>)
    requires Lookup(tab + own, name) >= 0 && forall e | e in own :: |e.v| > |name|
    ensures Entry(name, Lookup(tab + own, name)) in tab
  {
    if tab == [] {
      assert tab + own == own;
      if own != [] {
        NotFound(own, name);
      }
    } else {
      assert (tab + own)[1..] == tab[1..] + own;
      if tab[0].v != name {
        FoundBefore(tab[1..], own, name);
      }
    }
  }

  lemma {:induction false} NotFound(own: seq<Entry>, name: seq<Byte>)
    requires forall e | e in own :: |e.v| > |name|
    ensures Lookup(own, name) == -1
  {
    if own != [] {
      assert own[0] in own;
      NotFound(own[1..], name);
    }
  }

  lemma {:induction false} ReadPointer(p: seq<Byte>, j: nat, left: nat, ref: nat)
    requires ref < MAX_OFFSET && j + 2 <= |p| && p[j..j + 2] == Pointer(ref) && left > 0
    requires ref < |p| && Walk(p, ref, left - 1).Name?
    ensures Walk(p, j, left) == Name(Walk(p, ref, left - 1).labels, j + 2)
  {
    assert p[j] == p[j..j + 2][0] && p[j + 1] == p[j..j + 2][1];
    assert Target(p[j], p[j + 1]) == ref;
  }

  lemma ReadLabel(p: seq<Byte>, j: nat, left: nat, l: seq<Byte>, d: nat)
    requires 0 < |l| == d <= 63 && j + 1 + d <= |p| && p[j..j + 1 + d] == [d] + l && Walk(p, j + 1 + d, left).Name?
    ensures var rest := Walk(p, j + 1 + d, left); Walk(p, j, left) == Name([l] + rest.labels, rest.next)
  {
    assert p[j] == p[j..j + 1 + d][0];
    assert p[j + 1..j + 1 + d] == p[j..j + 1 + d][1..];
  }

  /** The entries that 'tab'' has beyond 'tab' point at bytes from 'j' on that read as their names. */
  ghost predicate NewEntries(p: seq<Byte>, j: nat, start: nat, tab: seq<Entry>, tab': seq<Entry>) {
    && tab <= tab'
    && forall i | |tab| <= i < |tab'| :: j <= tab'[i].pos < |p| && Reads(p, tab'[i].pos, start, Labels(tab'[i].v))
  }

  /** The name that starts at 'j' and fills the rest of the message reads as its labels. */
  ghost predicate Readable(p: seq<Byte>, j: nat, name: seq<Byte>, start: nat, useTable: bool) {
    && Reads(p, j, start, Labels(name))
    && (NoInnerEmpty(name) ==> Walk(p, j, start).next == |p|)
    && (!useTable && Walk(p, j, start).next == |p| ==> NoInnerEmpty(name))
  }

  /** The name being written started at 'start'; 'own' are the entries it has added so far. */
  lemma {:induction false} EncodeReads(pre: seq<Byte>, name: seq<Byte>, bufLen: nat, useTable: bool,
                                       tab: seq<Entry>, own: seq<Entry>, start: nat)
    requires start <= |pre| && Sound(tab, pre, start) && forall e | e in own :: |e.v| > |name|
    requires var e := Encode(name, |pre|, bufLen, useTable, tab + own); e.Encoded? && |pre| + |e.bytes| <= MAX_OFFSET
    ensures var e := Encode(name, |pre|, bufLen, useTable, tab + own);
            && Readable(pre + e.bytes, |pre|, name, start, useTable)
            && NewEntries(pre + e.bytes, |pre|, start, tab + own, e.tab)
    decreases |name|
  {
    hide Walk, Readable, NewEntries, Sound, Reads, Lookup, Remember, Labels, FirstDot, Encode;
    var d := FirstDot(name);
    if useTable && Lookup(tab + own, name) >= 0 {
      EncodePointer(pre, name, bufLen, tab, own, start);
    } else if d == |name| {
      EncodeLast(pre, name, bufLen, useTable, tab + own, start);
    } else {
      var e := Encode(name, |pre|, bufLen, useTable, tab + own);
      EncodeUnfolded(name, |pre|, bufLen, useTable, tab + own);
      var head: seq<Byte> := [d] + name[..d];
      var rest := name[d + 1..];
      var own' := OwnEntries(tab, own, name, |pre|, useTable);
      var e' := Encode(rest, |pre + head|, bufLen, useTable, tab + own');
      Assoc(pre, head, e'.bytes);
      SoundGrows(tab, pre, pre + head, start, start);
      EncodeReads(pre + head, rest, bufLen, useTable, tab, own', start);
      assert pre + e.bytes == pre + (head + e'.bytes) && e.tab == e'.tab;
      HeadThere(pre, head, e'.bytes);
      EncodeMore(pre + e.bytes, |pre|, name, start, useTable, tab + own, tab + own', e.tab);
    }
  }

  lemma HeadThere(pre: seq<Byte>, head: seq<Byte>, tail: seq<Byte>)
    ensures (pre + (head + tail))[|pre|..|pre| + |head|] == head
  {
  }

  /** The table after the label at 'pos' has been remembered, if there was room. */
  lemma OwnEntries(tab: seq<Entry>, own: seq<Entry>, name: seq<Byte>, pos: nat, useTable: bool)
    returns (own': seq<Entry>)
    ensures tab + own' == if useTable then Remember(tab + own, name, pos) else tab + own
    ensures own' == own || (useTable && own' == own + [Entry(name, pos)])
    ensures tab + own' == tab + own || (useTable && tab + own' == tab + own + [Entry(name, pos)])
  {
    if useTable && |tab + own| != MAX_LABELS {
      own' := own + [Entry(name, pos)];
      assert tab + own' == tab + own + [Entry(name, pos)];
    } else {
      own' := own;
    }
  }

  lemma {:induction false} EncodePointer(pre: seq<Byte>, name: seq<Byte>, bufLen: nat, tab: seq<Entry>,
                                         own: seq<Entry>, start: nat)
    requires start <= |pre| && Sound(tab, pre, start) && forall e | e in own :: |e.v| > |name|
    requires Lookup(tab + own, name) >= 0
    requires var e := Encode(name, |pre|, bufLen, true, tab + own); e.Encoded? && |pre| + |e.bytes| <= MAX_OFFSET
    ensures var e := Encode(name, |pre|, bufLen, true, tab + own);
            && Readable(pre + e.bytes, |pre|, name, start, true)
            && NewEntries(pre + e.bytes, |pre|, start, tab + own, e.tab)
  {
    hide Walk;
    var ref := Lookup(tab + own, name);
    var p := pre + Pointer(ref);
    FoundBefore(tab, own, name);
    WalkGrows(pre, p, ref, ref, start - 1);
    assert p[|pre|..|pre| + 2] == Pointer(ref);
    ReadPointer(p, |pre|, start, ref);
  }

  /** The last label of a name. */
  lemma {:induction false} EncodeLast(pre: seq<Byte>, name: seq<Byte>, bufLen: nat, useTable: bool, tab: seq<Entry>,
                                      start: nat)
    requires !(useTable && Lookup(tab, name) >= 0) && FirstDot(name) == |name|
    requires Encode(name, |pre|, bufLen, useTable, tab).Encoded?
    ensures var e := Encode(name, |pre|, bufLen, useTable, tab);
            && Readable(pre + e.bytes, |pre|, name, start, useTable)
            && NewEntries(pre + e.bytes, |pre|, start, tab, e.tab)
  {
    var e := Encode(name, |pre|, bufLen, useTable, tab);
    var p := pre + e.bytes;
    if name == [] {
      assert p[|pre|] == 0;
    } else {
      assert p[|pre| + 1 + |name|] == 0;
      assert p[|pre|..|pre| + 1 + |name|] == [|name|] + name;
      ReadLabel(p, |pre|, start, name, |name|);
      assert [name] + [] == [name];
    }
  }

  /** A label that more follow. */
  lemma EncodeMore(p: seq<Byte>, j: nat, name: seq<Byte>, start: nat, useTable: bool,
                   tab: seq<Entry>, tab': seq<Entry>, tab'': seq<Entry>)
    requires var d := FirstDot(name);
      && d < |name| && d <= 63 && j + 1 + d < |p| && p[j..j + 1 + d] == [d] + name[..d]
      && Readable(p, j + 1 + d, name[d + 1..], start, useTable) && NewEntries(p, j + 1 + d, start, tab', tab'')
    requires tab' == tab || (useTable && tab' == tab + [Entry(name, j)])
    ensures Readable(p, j, name, start, useTable) && NewEntries(p, j, start, tab, tab'')
  {
    hide Walk, Labels, FirstDot, NoInnerEmpty;
    ReadMore(p, j, name, start, useTable);
  }

  lemma {:induction false} ReadMore(p: seq<Byte>, j: nat, name: seq<Byte>, start: nat, useTable: bool)
    requires var d := FirstDot(name);
      && d < |name| && d <= 63 && j + 1 + d < |p| && p[j..j + 1 + d] == [d] + name[..d]
      && Readable(p, j + 1 + d, name[d + 1..], start, useTable)
    ensures Readable(p, j, name, start, useTable)
  {
    hide Walk, NoInnerEmpty, Labels, FirstDot;
    var d := FirstDot(name);
    LabelsStep(name);
    if d == 0 {
      assert p[j] == p[j..j + 1 + d][0] == 0;
      ReadZero(p, j, start);
      LeadingDot(name);
    } else {
      var l, rest := name[..d], name[d + 1..];
      ReadLabel(p, j, start, l, d);
      FirstLabel(name);
      if rest != [] && FirstDot(rest) == 0 {
        LeadingDot(rest);
      }
    }
  }

  lemma {:induction false} LabelsStep(name: seq<Byte>)
    requires FirstDot(name) < |name|
    ensures var d := FirstDot(name); Labels(name) == if d == 0 then [] else [name[..d]] + Labels(name[d + 1..])
  {
    hide FirstDot;
  }

  lemma LeadingDot(name: seq<Byte>)
    requires name != [] && FirstDot(name) == 0
    ensures !NoInnerEmpty(name)
  {
    assert name[0] == DOT;
  }

  lemma ReadZero(p: seq<Byte>, j: nat, left: nat)
    requires j < |p| && p[j] == 0
    ensures Walk(p, j, left) == Name([], j + 1)
  {
  }

  /** One encoded name keeps every older entry of the table right, and its new ones are right too. */
  lemma EncodeKeepsSound(pre: seq<Byte>, name: seq<Byte>, bufLen: nat, tab: seq<Entry>)
    requires Sound(tab, pre, |pre|)
    requires var e := Encode(name, |pre|, bufLen, true, tab); e.Encoded? && |pre| + |e.bytes| <= MAX_OFFSET
    ensures var e := Encode(name, |pre|, bufLen, true, tab); var p := pre + e.bytes;
            Readable(p, |pre|, name, |pre|, true) && Sound(e.tab, p, |p|)
  {
    hide Encode, Walk, Labels, Readable;
    var e := Encode(name, |pre|, bufLen, true, tab);
    var p := pre + e.bytes;
    assert tab + [] == tab;
    EncodeReads(pre, name, bufLen, true, tab, [], |pre|);
    SoundGrows(tab, pre, p, |pre|, |p|);
    forall i | 0 <= i < |e.tab| ensures e.tab[i].pos < |p| && Reads(p, e.tab[i].pos, e.tab[i].pos, Labels(e.tab[i].v)) {
      if i < |tab| {
        assert e.tab[i] == tab[i];
      } else {
        WalkGrows(p, p, e.tab[i].pos, |pre|, e.tab[i].pos);
      }
    }
  }

  /** A name in a message, and the other bytes in front of it. */
  datatype Item = Item(gap: seq<Byte>, name: seq<Byte>)

  datatype Message = Unwritten | Message(p: seq<Byte>, tab: seq<Entry>, starts: seq<nat>, ends: seq<nat>)

  /** The names of 'items' encoded in turn through one table, behind message 'p'. */
  ghost function Write(items: seq<Item>, p: seq<Byte>, tab: seq<Entry>, bufLen: nat): (m: Message)
    ensures m.Message? ==> |m.starts| == |m.ends| == |items|
    decreases |items|
  {
    if items == [] then Message(p, tab, [], [])
    else
      var pre := p + items[0].gap;
      var e := Encode(items[0].name, |pre|, bufLen, true, tab);
      if e.Failed? then Unwritten
      else
        var rest := Write(items[1..], pre + e.bytes, e.tab, bufLen);
        if rest.Unwritten? then Unwritten
        else Message(rest.p, rest.tab, [|pre|] + rest.starts, [|pre + e.bytes|] + rest.ends)
  }

  lemma {:induction false} WriteGrows(items: seq<Item>, p: seq<Byte>, tab: seq<Entry>, bufLen: nat)
    requires Write(items, p, tab, bufLen).Message?
    ensures p <= Write(items, p, tab, bufLen).p
    decreases |items|
  {
    hide Encode;
    if items != [] {
      var pre := p + items[0].gap;
      var e := Encode(items[0].name, |pre|, bufLen, true, tab);
      WriteGrows(items[1..], pre + e.bytes, e.tab, bufLen);
    }
  }

  /** Name 'i' of the message reads as its labels and ends where the encoder said. */
  ghost predicate ReadsBack(m: Message, name: seq<Byte>, i: nat)
    requires m.Message? && |m.starts| == |m.ends| && i < |m.starts|
  {
    var w := Walk(m.p, m.starts[i], |m.p|);
    w.Name? && w.labels == Labels(name) && (NoInnerEmpty(name) ==> w.next == m.ends[i])
  }

  /**
   * Every name of a message below offset 0x4000 reads back as its labels, however the names share
   * their endings; and every entry of the table points at bytes that read as its name.
   */
  lemma {:induction false} AllReadBack(items: seq<Item>, p: seq<Byte>, tab: seq<Entry>, bufLen: nat)
    requires Sound(tab, p, |p|)
    requires var m := Write(items, p, tab, bufLen); m.Message? && |m.p| <= MAX_OFFSET
    ensures var m := Write(items, p, tab, bufLen);
            && Sound(m.tab, m.p, |m.p|)
            && forall i | 0 <= i < |items| :: ReadsBack(m, items[i].name, i)
    decreases |items|
  {
    hide Encode, Walk, Sound, Labels, NoInnerEmpty;
    if items != [] {
      var m := Write(items, p, tab, bufLen);
      var name, pre := items[0].name, p + items[0].gap;
      SoundGrows(tab, p, pre, |p|, |pre|);
      var e := Encode(name, |pre|, bufLen, true, tab);
      var q := pre + e.bytes;
      var rest := Write(items[1..], q, e.tab, bufLen);
      WriteGrows(items[1..], q, e.tab, bufLen);
      EncodeKeepsSound(pre, name, bufLen, tab);
      AllReadBack(items[1..], q, e.tab, bufLen);
      WalkGrows(q, m.p, |pre|, |pre|, |m.p|);
      forall i | 0 <= i < |items| ensures ReadsBack(m, items[i].name, i) {
        if i > 0 {
          assert ReadsBack(rest, items[1..][i - 1].name, i - 1);
        }
      }
    }
  }

  /**
   * The round trip: names without empty labels, written in turn from an empty table, come back
   * from name_parse with their text and the encoder's end offset.
   */
  lemma RoundTrip(items: seq<Item>, p: seq<Byte>, bufLen: nat, i: nat)
    requires i < |items| && NoEmptyLabel(items[i].name)
    requires var m := Write(items, p, [], bufLen); m.Message? && |m.p| <= MAX_OFFSET
    ensures var m := Write(items, p, [], bufLen); var w := Walk(m.p, m.starts[i], |m.p|);
            w.Name? && Dotted(w.labels) == items[i].name && w.next == m.ends[i]
  {
    hide Write, Walk, Labels, Dotted;
    AllReadBack(items, p, [], bufLen);
    TextOfLabels(items[i].name);
    assert ReadsBack(Write(items, p, [], bufLen), items[i].name, i);
  }

  /** Without a table the encoder's end is the reader's end exactly for names without an inner empty label. */
  lemma PlainName(pre: seq<Byte>, name: seq<Byte>, bufLen: nat)
    requires var e := Encode(name, |pre|, bufLen, false, []); e.Encoded? && |pre| + |e.bytes| <= MAX_OFFSET
    ensures var p := pre + Encode(name, |pre|, bufLen, false, []).bytes; var w := Walk(p, |pre|, |p|);
            w.Name? && (w.next == |p| <==> NoInnerEmpty(name)) && (Dotted(w.labels) == name <==> NoEmptyLabel(name))
  {
    hide Encode, Walk, Labels, Dotted, NoEmptyLabel, NoInnerEmpty;
    var p := pre + Encode(name, |pre|, bufLen, false, []).bytes;
    var none: seq<Entry> := [];
    assert none + none == none;
    EncodeReads(pre, name, bufLen, false, [], [], |pre|);
    WalkGrows(p, p, |pre|, |pre|, |p|);
    TextOfLabels(name);
  }

  /** The name "a..b" comes back as "a", and ends earlier. */
  lemma EmptyLabelLost()
    ensures var name: seq<Byte> := [97, DOT, DOT, 98]; var e := Encode(name, 0, 100, false, []);
            e.Encoded? && var w := Walk(e.bytes, 0, |e.bytes|);
                          w.Name? && w.next < |e.bytes| && Dotted(w.labels) != name
  {
    hide Walk;
    var name: seq<Byte> := [97, DOT, DOT, 98];
    EncodeUnfolded(name, 0, 100, false, []);
    assert FirstDot(name) == 1 && name[2..] == [DOT, 98];
    EncodeUnfolded([DOT, 98], 2, 100, false, []);
    assert [DOT, 98][1..] == [98] && FirstDot([DOT, 98]) == 0;
    EncodeUnfolded([98], 3, 100, false, []);
    assert FirstDot([98]) == 1;
    var e := Encode(name, 0, 100, false, []);
    assert [] + e.bytes == e.bytes;
    PlainName([], name, 100);
    assert name[1] == DOT && name[2] == DOT;
  }
}
