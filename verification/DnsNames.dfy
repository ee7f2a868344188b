/** Domain names in DNS messages: RFC 1035, sections 3.1 and 4.1.4. */
module DnsNames {
  import opened Bytes

  const DOT: Byte := 46
  const MAX_LABELS := 128
  const MAX_OFFSET := 0x4000

  /* ---------------------------------- Reading a name ---------------------------------- */

  /** A name's labels, and the offset behind it. */
  datatype Parsed = Malformed | Name(labels: seq<seq<Byte>>, next: nat)

  function Target(high: Byte, low: Byte): nat {
    (high % 64) * 256 + low
  }

  /** The name at offset 'j' of message 'p', when at most 'left' pointers may be followed. */
  ghost function Walk(p: seq<Byte>, j: nat, left: nat): (r: Parsed)
    ensures r.Name? ==> j < r.next <= |p|
    decreases left, |p| - j
  {
    if j >= |p| then Malformed
    else if p[j] == 0 then Name([], j + 1)
    else if p[j] >= 64 then
      if j + 1 >= |p| || Target(p[j], p[j + 1]) >= |p| || left == 0 then Malformed
      else
        var rest := Walk(p, Target(p[j], p[j + 1]), left - 1);
        if rest.Malformed? then Malformed else Name(rest.labels, j + 2)
    else if j + 1 + p[j] > |p| then Malformed
    else
      var rest := Walk(p, j + 1 + p[j], left);
      if rest.Malformed? then Malformed else Name([p[j + 1..j + 1 + p[j]]] + rest.labels, rest.next)
  }

  /** The labels as text. */
  function Dotted(labels: seq<seq<Byte>>): seq<Byte> {
    if labels == [] then []
    else if |labels| == 1 then labels[0]
    else labels[0] + [DOT] + Dotted(labels[1..])
  }

  lemma {:induction false} DottedSnoc(ls: seq<seq<Byte>>, l: seq<Byte>)
    ensures Dotted(ls + [l]) == if ls == [] then l else Dotted(ls) + [DOT] + l
  {
    if |ls| == 1 {
      assert (ls + [l])[1..] == [l];
    } else if |ls| > 1 {
      assert (ls + [l])[1..] == ls[1..] + [l];
      DottedSnoc(ls[1..], l);
      assert (ls[0] + [DOT] + Dotted(ls[1..])) + [DOT] + l == ls[0] + [DOT] + (Dotted(ls[1..]) + [DOT] + l);
    }
  }

  lemma {:induction false} DottedGrows(ls: seq<seq<Byte>>, more: seq<seq<Byte>>)
    ensures |Dotted(ls + more)| >= |Dotted(ls)|
    decreases |more|
  {
    if more == [] {
      assert ls + more == ls;
    } else {
      assert ls + more == (ls + [more[0]]) + more[1..];
      DottedGrows(ls + [more[0]], more[1..]);
      DottedSnoc(ls, more[0]);
    }
  }

  /** What a walk yields that has read 'done' and stands before 'rest'. */
  ghost function Resume(done: seq<seq<Byte>>, nameEnd: int, rest: Parsed): Parsed
    requires nameEnd >= -1
  {
    if rest.Malformed? then Malformed
    else Name(done + rest.labels, if nameEnd >= 0 then nameEnd else rest.next)
  }

  /** Reading one more label: the text grows by at least that label and its dot. */
  lemma {:induction false} LabelStep(p: seq<Byte>, j: nat, left: nat, done: seq<seq<Byte>>)
    requires j < |p| && 0 < p[j] < 64
    ensures var rest := Walk(p, j, left);
            var size := |Dotted(done)| + (if done == [] then 0 else 1) + p[j];
            if j + 1 + p[j] > |p| then rest.Malformed?
            else
              var l := p[j + 1..j + 1 + p[j]];
              && Dotted(done + [l]) == (if done == [] then l else Dotted(done) + [DOT] + l)
              && |Dotted(done + [l])| == size
              && (rest.Name? ==> |Dotted(done + rest.labels)| >= size)
              && forall e: int | e >= -1 :: Resume(done, e, rest) == Resume(done + [l], e, Walk(p, j + 1 + p[j], left))
  {
    if j + 1 + p[j] <= |p| {
      var l := p[j + 1..j + 1 + p[j]];
      DottedSnoc(done, l);
      var rest := Walk(p, j + 1 + p[j], left);
      if rest.Name? {
        DottedGrows(done + [l], rest.labels);
        assert done + ([l] + rest.labels) == (done + [l]) + rest.labels;
      }
    }
  }

  /** The other bytes a walk can stand before. */
  lemma OtherSteps(p: seq<Byte>, j: nat, left: nat, done: seq<seq<Byte>>)
    ensures j >= |p| ==> Walk(p, j, left).Malformed?
    ensures j < |p| && p[j] == 0 ==> forall e: int | e >= -1 ::
      Resume(done, e, Walk(p, j, left)) == Name(done, if e >= 0 then e else j + 1)
    ensures j < |p| && p[j] >= 64 ==>
      if j + 1 >= |p| || Target(p[j], p[j + 1]) >= |p| || left == 0 then Walk(p, j, left).Malformed?
      else forall e: int | e >= -1 ::
        Resume(done, e, Walk(p, j, left))
          == Resume(done, if e >= 0 then e else j + 2, Walk(p, Target(p[j], p[j + 1]), left - 1))
  {
    assert done + [] == done;
  }

  /** memcpy(cp, packet + j, label_len), behind a dot unless the label is the first one. */
  method PutLabel(nameOut: array<Byte>, at: nat, packet: array<Byte>, j: nat, labelLen: nat, ghost text: seq<Byte>,
                  ghost p: seq<Byte>)
    returns (cp: nat)
    requires packet != nameOut && j + labelLen <= |p| <= packet.Length && p == packet[..|p|]
    requires |text| == at <= nameOut.Length && nameOut[..at] == text
    requires at + (if at == 0 then 0 else 1) + labelLen < nameOut.Length
    modifies nameOut
    ensures cp == at + (if at == 0 then 0 else 1) + labelLen
    ensures nameOut[..cp] == (if at == 0 then [] else text + [DOT]) + p[j..j + labelLen]
  {
    cp := at;
    if cp != 0 {
      nameOut[cp] := DOT;
      cp := cp + 1;
    }
    ghost var head := if at == 0 then [] else text + [DOT];
    assert nameOut[..cp] == head;
    ghost var src, to := p[j..j + labelLen], head + p[j..j + labelLen];
    forall i | 0 <= i < labelLen {
      nameOut[cp + i] := packet[j + i];
    }
    forall k | 0 <= k < |to| ensures nameOut[k] == to[k] {
      if k < cp {
        assert nameOut[k] == head[k];
      } else {
        assert nameOut[cp + (k - cp)] == packet[j + (k - cp)] == p[j + (k - cp)] == src[k - cp];
      }
    }
    cp := cp + labelLen;
  }

  /**
   * name_parse. On success the text and a terminating zero are in 'nameOut', and 'next' is the
   * new *idx; on failure 'next' is 'idx'.
   */
  method NameParse(packet: array<Byte>, length: nat, idx: nat, nameOut: array<Byte>) returns (r: int, next: nat)
    requires length <= packet.Length && packet != nameOut
    modifies nameOut
    ensures var name := Walk(packet[..length], idx, length);
            if name.Name? && |Dotted(name.labels)| < nameOut.Length then
              var text := Dotted(name.labels);
              r == 0 && next == name.next && nameOut[..|text|] == text && nameOut[|text|] == 0
            else r == -1 && next == idx
  {
    hide Walk, Dotted, Resume, Target;
    ghost var p := packet[..length];
    ghost var done: seq<seq<Byte>> := [];
    var nameEnd: int, j: nat, ptrCount: nat, cp: nat := -1, idx, 0, 0;
    NothingRead(Walk(p, idx, length));
    while true
      invariant ptrCount <= length && nameEnd >= -1
      invariant Walk(p, idx, length) == Resume(done, nameEnd, Walk(p, j, length - ptrCount))
      invariant cp == |Dotted(done)| <= nameOut.Length && nameOut[..cp] == Dotted(done)
      invariant done == [] <==> cp == 0
      decreases length - ptrCount, length - j
    {
      OtherSteps(p, j, length - ptrCount, done);
      BadStep(done, nameEnd, Walk(p, j, length - ptrCount));
      if j >= length {
        return -1, idx;
      }
      var labelLen := packet[j];
      if labelLen == 0 {
        j := j + 1;
        break;
      }
      if labelLen >= 64 {
        if j + 1 >= length {
          return -1, idx;
        }
        var ptrLow := packet[j + 1];
        if nameEnd < 0 {
          nameEnd := j + 2;
        }
        j := Target(labelLen, ptrLow);
        if j >= length {
          return -1, idx;
        }
        ptrCount := ptrCount + 1;
        if ptrCount > length {
          return -1, idx;
        }
        continue;
      }
      LabelStep(p, j, length - ptrCount, done);
      j := j + 1;
      if cp != 0 && cp + 1 >= nameOut.Length {
        return -1, idx;
      }
      if cp + (if cp == 0 then 0 else 1) + labelLen >= nameOut.Length {
        return -1, idx;
      }
      if j + labelLen > length {
        return -1, idx;
      }
      cp := PutLabel(nameOut, cp, packet, j, labelLen, Dotted(done), p);
      done := done + [p[j..j + labelLen]];
      j := j + labelLen;
    }
    if cp >= nameOut.Length {
      return -1, idx;
    }
    nameOut[cp] := 0;
    return 0, if nameEnd < 0 then j else nameEnd;
  }

  lemma NothingRead(w: Parsed)
    ensures w == Resume([], -1, w) && Dotted([]) == []
  {
    if w.Name? {
      assert [] + w.labels == w.labels;
    }
  }

  lemma BadStep(done: seq<seq<Byte>>, nameEnd: int, w: Parsed)
    requires nameEnd >= -1
    ensures Resume(done, nameEnd, w).Name? <==> w.Name?
    ensures w.Name? ==> Resume(done, nameEnd, w).labels == done + w.labels
  {
  }

  /** The bits 01 and 10, which section 4.1.4 of RFC 1035 reserves, are read as a pointer as well. */
  lemma ReservedBits()
    ensures Walk([0, 0x40, 0], 1, 3) == Walk([0, 0x80, 0], 1, 3) == Walk([0, 0xc0, 0], 1, 3) == Name([], 3)
  {
    assert forall b: Byte :: Walk([0, b, 0], 0, 2) == Name([], 1);
  }

  /** A pointer to itself is given up, however many pointers may be followed. */
  lemma {:induction false} SelfPointer(left: nat)
    ensures Walk([0xc0, 0], 0, left) == Malformed
    decreases left
  {
    if left > 0 {
      SelfPointer(left - 1);
    }
  }

  /* ---------------------------------- Writing a name ---------------------------------- */

  /** struct dnslabel_entry: the name whose encoding starts at offset 'pos'. */
  datatype Entry = Entry(v: seq<Byte>, pos: nat)

  function Lookup(tab: seq<Entry>, name: seq<Byte>): int {
    if tab == [] then -1 else if tab[0].v == name then tab[0].pos else Lookup(tab[1..], name)
  }

  function Remember(tab: seq<Entry>, name: seq<Byte>, pos: nat): seq<Entry> {
    if |tab| == MAX_LABELS then tab else tab + [Entry(name, pos)]
  }

  /** struct dnslabel_table. */
  class LabelTable {
    var nLabels: nat
    const labels: array<Entry>

    ghost predicate Valid()
      reads this
    {
      labels.Length == MAX_LABELS && nLabels <= MAX_LABELS
    }

    ghost function Entries(): seq<Entry>
      requires Valid()
      reads this, labels
    {
      labels[..nLabels]
    }

    /** dnslabel_table_init. */
    constructor ()
      ensures Valid() && fresh(labels) && Entries() == []
    {
      nLabels := 0;
      labels := new Entry[MAX_LABELS];
    }

    /** dnslabel_table_get_pos. */
    method GetPos(name: seq<Byte>) returns (pos: int)
      requires Valid()
      ensures pos == Lookup(Entries(), name)
      ensures if pos < 0 then pos == -1 && forall e | e in Entries() :: e.v != name
              else Entry(name, pos) in Entries()
    {
      var i := 0;
      while i < nLabels
        invariant i <= nLabels && Lookup(Entries(), name) == Lookup(Entries()[i..], name)
        invariant forall k | 0 <= k < i :: Entries()[k].v != name
      {
        if labels[i].v == name {
          return labels[i].pos;
        }
        assert Entries()[i..][1..] == Entries()[i + 1..];
        i := i + 1;
      }
      return -1;
    }

    /** dnslabel_table_add, when the name can be duplicated. */
    method Add(name: seq<Byte>, pos: nat) returns (r: int)
      requires Valid()
      modifies this`nLabels, labels
      ensures Valid() && Entries() == Remember(old(Entries()), name, pos)
      ensures Entries() == if |old(Entries())| < MAX_LABELS then old(Entries()) + [Entry(name, pos)] else old(Entries())
      ensures r == if |old(Entries())| == MAX_LABELS then -1 else 0
    {
      if nLabels == MAX_LABELS {
        return -1;
      }
      labels[nLabels] := Entry(name, pos);
      nLabels := nLabels + 1;
      return 0;
    }
  }

  /** strchr(name, '.'), or the end of the name. */
  function FirstDot(name: seq<Byte>): (d: nat)
    ensures d <= |name| && (d < |name| ==> name[d] == DOT) && forall i | 0 <= i < d :: name[i] != DOT
  {
    if name == [] || name[0] == DOT then 0 else 1 + FirstDot(name[1..])
  }

  datatype Encoded = Failed(code: int) | Encoded(bytes: seq<Byte>, tab: seq<Entry>)

  /** A pointer to offset 'ref', with the two top bits set. */
  function Pointer(ref: nat): (p: seq<Byte>)
    ensures |p| == 2 && (p[0] as int) * 256 + (p[1] as int) == 0xc000 + ref % MAX_OFFSET
  {
    [192 + ref % MAX_OFFSET / 256, ref % 256]
  }

  /** What encoding 'name' at offset 'j' writes, and what the table is then. */
  ghost function Encode(name: seq<Byte>, j: nat, bufLen: nat, useTable: bool, tab: seq<Entry>): (e: Encoded)
    ensures e.Encoded? ==> e.bytes != []
    decreases |name|
  {
    if useTable && Lookup(tab, name) >= 0 then
      if j + 2 > bufLen then Failed(-2) else Encoded(Pointer(Lookup(tab, name)), tab)
    else
      var d := FirstDot(name);
      if d > 63 then Failed(-1)
      else if j + d + 1 > bufLen then Failed(-2)
      else
        var tab' := if useTable then Remember(tab, name, j) else tab;
        if d == |name| then Encoded([d] + name + (if d == 0 then [] else [0]), tab')
        else
          var rest := Encode(name[d + 1..], j + d + 1, bufLen, useTable, tab');
          if rest.Failed? then rest else Encoded([d] + name[..d] + rest.bytes, rest.tab)
  }

  /** A C string. */
  predicate CString(name: seq<Byte>) {
    forall i | 0 <= i < |name| :: name[i] != 0
  }

  /** The entries of the table, if there is one. */
  ghost function EntriesOf(table: LabelTable?): seq<Entry>
    requires table != null ==> table.Valid()
    reads table, if table == null then {} else {table.labels}
  {
    if table == null then [] else table.Entries()
  }

  /** What was written before, in front of what is written from here on. */
  ghost function Behind(bytes: seq<Byte>, e: Encoded): Encoded {
    if e.Failed? then e else Encoded(bytes + e.bytes, e.tab)
  }

  lemma {:induction false} EncodeUnfolded(name: seq<Byte>, j: nat, bufLen: nat, useTable: bool, tab: seq<Entry>)
    requires !(useTable && Lookup(tab, name) >= 0)
    ensures var d := FirstDot(name);
            var tab' := if useTable then Remember(tab, name, j) else tab;
            var e := Encode(name, j, bufLen, useTable, tab);
            if d > 63 then e == Failed(-1)
            else if j + d + 1 > bufLen then e == Failed(-2)
            else if d == |name| then e == Encoded([d] + name + (if d == 0 then [] else [0]), tab')
            else e == Behind([d] + name[..d], Encode(name[d + 1..], j + d + 1, bufLen, useTable, tab'))
  {
    hide FirstDot, Lookup, Remember;
  }

  lemma BehindBehind(a: seq<Byte>, b: seq<Byte>, e: Encoded)
    ensures Behind(a, Behind(b, e)) == Behind(a + b, e)
  {
    if e.Encoded? {
      Assoc(a, b, e.bytes);
    }
  }

  lemma {:induction false} EncodeStep(name: seq<Byte>, j: nat, bufLen: nat, useTable: bool, tab: seq<Entry>,
                                      bytes: seq<Byte>)
    requires !(useTable && Lookup(tab, name) >= 0)
    ensures var d := FirstDot(name);
            var tab' := if useTable then Remember(tab, name, j) else tab;
            var e := Behind(bytes, Encode(name, j, bufLen, useTable, tab));
            if d > 63 then e == Failed(-1)
            else if j + d + 1 > bufLen then e == Failed(-2)
            else if d == |name| then e == Encoded(bytes + ([d] + name) + (if d == 0 then [] else [0]), tab')
            else e == Behind(bytes + ([d] + name[..d]), Encode(name[d + 1..], j + d + 1, bufLen, useTable, tab'))
  {
    hide Encode, FirstDot, Lookup, Remember;
    EncodeUnfolded(name, j, bufLen, useTable, tab);
    var d := FirstDot(name);
    var tab' := if useTable then Remember(tab, name, j) else tab;
    if d > 63 || j + d + 1 > bufLen {
    } else if d == |name| {
      Assoc(bytes, [d] + name, if d == 0 then [] else [0]);
    } else {
      BehindBehind(bytes, [d] + name[..d], Encode(name[d + 1..], j + d + 1, bufLen, useTable, tab'));
    }
  }

  /** The name, or what stands behind one of its dots, is in the table. */
  ghost predicate Shares(name: seq<Byte>, tab: seq<Entry>)
    decreases |name|
  {
    Lookup(tab, name) >= 0 || (var d := FirstDot(name); d < |name| && Shares(name[d + 1..], tab))
  }

  lemma {:induction false} LookupSkips(tab: seq<Entry>, e: Entry, name: seq<Byte>)
    requires e.v != name
    ensures Lookup(tab + [e], name) == Lookup(tab, name)
  {
    if tab != [] {
      assert (tab + [e])[1..] == tab[1..] + [e];
      LookupSkips(tab[1..], e, name);
    }
  }

  lemma {:induction false} SharesSkips(name: seq<Byte>, tab: seq<Entry>, e: Entry)
    requires |e.v| > |name|
    ensures Shares(name, tab + [e]) == Shares(name, tab)
    decreases |name|
  {
    hide FirstDot, Lookup;
    LookupSkips(tab, e, name);
    if FirstDot(name) < |name| {
      SharesSkips(name[FirstDot(name) + 1..], tab, e);
    }
  }

  /**
   * The closing zero, which is written without a look at 'bufLen', comes to stand behind the
   * first 'bufLen' bytes: the name does not end in a dot, it fits exactly, and no ending of it is shared.
   */
  ghost predicate ZeroBehind(name: seq<Byte>, j: nat, bufLen: nat, useTable: bool, tab: seq<Entry>) {
    && name != [] && name[|name| - 1] != DOT && j + |name| + 1 == bufLen
    && !(useTable && Shares(name, tab))
  }

  /** An encoding ends at most one byte behind 'bufLen', and does so exactly when ZeroBehind says so. */
  lemma {:induction false} EncodeFits(name: seq<Byte>, j: nat, bufLen: nat, useTable: bool, tab: seq<Entry>)
    requires Encode(name, j, bufLen, useTable, tab).Encoded?
    ensures var e := Encode(name, j, bufLen, useTable, tab);
            && j + |e.bytes| <= bufLen + 1
            && (j + |e.bytes| > bufLen <==> ZeroBehind(name, j, bufLen, useTable, tab))
    decreases |name|
  {
    hide Encode, FirstDot, Lookup, Remember, Shares;
    SharesUnfolded(name, tab);
    if useTable && Lookup(tab, name) >= 0 {
      PointerUnfolded(name, j, bufLen, tab);
    } else {
      EncodeUnfolded(name, j, bufLen, useTable, tab);
      var d := FirstDot(name);
      if d < |name| {
        var rest := name[d + 1..];
        var tab' := if useTable then Remember(tab, name, j) else tab;
        EncodeFits(rest, j + d + 1, bufLen, useTable, tab');
        RememberShares(rest, tab, name, j);
        assert rest != [] ==> rest[|rest| - 1] == name[|name| - 1];
      }
    }
  }

  lemma {:induction false} PointerUnfolded(name: seq<Byte>, j: nat, bufLen: nat, tab: seq<Entry>)
    requires Lookup(tab, name) >= 0
    ensures var e := Encode(name, j, bufLen, true, tab); e.Encoded? ==> |e.bytes| == 2 && j + 2 <= bufLen
  {
  }

  lemma {:induction false} SharesUnfolded(name: seq<Byte>, tab: seq<Entry>)
    ensures var d := FirstDot(name);
            Shares(name, tab) <==> Lookup(tab, name) >= 0 || (d < |name| && Shares(name[d + 1..], tab))
  {
    hide FirstDot, Lookup;
  }

  lemma RememberShares(rest: seq<Byte>, tab: seq<Entry>, name: seq<Byte>, j: nat)
    requires |rest| < |name|
    ensures Shares(rest, Remember(tab, name, j)) == Shares(rest, tab)
  {
    SharesSkips(rest, tab, Entry(name, j));
  }

  /** The name "a" in two bytes: three are written. */
  lemma ZeroBehindTwo()
    ensures Encode([97], 0, 2, false, []) == Encoded([1, 97, 0], []) && ZeroBehind([97], 0, 2, false, [])
  {
    assert FirstDot([97]) == 1;
  }

  /** Only offsets j0 to j differ. */
  ghost predicate Untouched(before: seq<Byte>, now: seq<Byte>, j0: nat, j: nat) {
    |before| == |now| && forall i | 0 <= i < |now| && !(j0 <= i < j) :: now[i] == before[i]
  }

  /** The result code, the buffer and the table are what the encoding says. */
  ghost predicate Outcome(e: Encoded, r: int, before: seq<Byte>, now: seq<Byte>, j0: nat, tab: seq<Entry>) {
    match e
    case Failed(code) => r == code && Untouched(before, now, j0, |now|)
    case Encoded(bytes, t) =>
      r == j0 + |bytes| <= |now| && now[j0..r] == bytes && Untouched(before, now, j0, r) && tab == t
  }

  lemma FailedOutcome(code: int, before: seq<Byte>, now: seq<Byte>, j0: nat, j: nat, tab: seq<Entry>)
    requires Untouched(before, now, j0, j) && j <= |now|
    ensures Outcome(Failed(code), code, before, now, j0, tab)
  {
  }

  /** The length byte and the label at offset 'j'. */
  method WriteLabel(buf: array<Byte>, j: nat, name: seq<Byte>, ghost j0: nat, ghost before: seq<Byte>)
    requires j0 <= j && j + 1 + |name| <= buf.Length && |name| <= 63 && Untouched(before, buf[..], j0, j)
    modifies buf
    ensures Untouched(before, buf[..], j0, j + 1 + |name|)
    ensures buf[j0..j + 1 + |name|] == old(buf[j0..j]) + ([|name|] + name)
    ensures buf[j + |name|] == if name == [] then 0 else name[|name| - 1]
  {
    buf[j] := |name|;
    forall i | 0 <= i < |name| {
      buf[j + 1 + i] := name[i];
    }
  }

  /** The end of a name whose rest is in the table. */
  method WritePointer(buf: array<Byte>, bufLen: nat, j: nat, ref: nat, ghost name: seq<Byte>, ghost tab: seq<Entry>,
                      ghost j0: nat, ghost before: seq<Byte>) returns (r: int)
    requires j0 <= j <= bufLen <= buf.Length && ref == Lookup(tab, name) && Untouched(before, buf[..], j0, j)
    modifies buf
    ensures Outcome(Behind(old(buf[j0..j]), Encode(name, j, bufLen, true, tab)), r, before, buf[..], j0, tab)
  {
    if j + 2 > bufLen {
      return -2;
    }
    buf[j], buf[j + 1] := Pointer(ref)[0], Pointer(ref)[1];
    assert buf[j0..j + 2] == old(buf[j0..j]) + Pointer(ref);
    return j + 2;
  }

  /** The closing zero, unless the last label was empty and has written it. */
  method CloseName(buf: array<Byte>, j: nat, ghost tab: seq<Entry>, ghost j0: nat, ghost before: seq<Byte>)
    returns (r: int)
    requires j0 < j <= buf.Length && Untouched(before, buf[..], j0, j)
    requires buf[j - 1] != 0 ==> j < buf.Length
    modifies buf
    ensures var z := if old(buf[j - 1]) != 0 then [0] else [];
            Outcome(Encoded(old(buf[j0..j]) + z, tab), r, before, buf[..], j0, tab)
  {
    if j == 0 || buf[j - 1] != 0 {
      buf[j] := 0;
      assert buf[j0..j + 1] == old(buf[j0..j]) + [0];
      return j + 1;
    }
    assert buf[j0..j] + [] == buf[j0..j];
    return j;
  }

  lemma NothingWritten(e: Encoded, name: seq<Byte>, before: seq<Byte>, j0: nat)
    ensures Behind([], e) == e && name[0..] == name && Untouched(before, before, j0, j0)
  {
    if e.Encoded? {
      assert [] + e.bytes == e.bytes;
    }
  }

  /** One label of a name whose rest 'name' is not in the table; 'd' is its length. */
  method PutNextLabel(buf: array<Byte>, bufLen: nat, j: nat, name: seq<Byte>, table: LabelTable?,
                      ghost j0: nat, ghost before: seq<Byte>) returns (code: int, d: nat)
    requires j0 <= j <= bufLen <= buf.Length && Untouched(before, buf[..], j0, j) && CString(name)
    requires table != null ==> table.Valid() && Lookup(table.Entries(), name) < 0
    modifies buf, if table == null then {} else {table, table.labels}
    ensures (table != null ==> table.Valid()) && d == FirstDot(name)
    ensures var e := Behind(old(buf[j0..j]), Encode(name, j, bufLen, table != null, old(EntriesOf(table))));
            if code < 0 then e == Failed(code) && Untouched(before, buf[..], j0, j)
            else
              && j + 1 + d <= bufLen && Untouched(before, buf[..], j0, j + 1 + d)
              && (d < |name| ==>
                  e == Behind(buf[j0..j + 1 + d],
                            Encode(name[d + 1..], j + 1 + d, bufLen, table != null, EntriesOf(table))))
              && (d == |name| ==>
                  e == Encoded(buf[j0..j + 1 + d] + (if buf[j + d] != 0 then [0] else []), EntriesOf(table)))
  {
    hide Encode, Lookup, Remember, Behind, Untouched;
    d := FirstDot(name);
    EncodeStep(name, j, bufLen, table != null, EntriesOf(table), buf[j0..j]);
    if d > 63 {
      return -1, d;
    }
    if j + d + 1 > bufLen {
      return -2, d;
    }
    if table != null {
      var _ := table.Add(name, j);
    }
    assert d == |name| ==> name[..d] == name;
    WriteLabel(buf, j, name[..d], j0, before);
    code := 0;
  }

  /**
   * dnsname_to_labels. The closing zero is written without a look at 'bufLen', so where it comes
   * to stand behind the first 'bufLen' bytes the array must have one byte more.
   */
  method DnsnameToLabels(buf: array<Byte>, bufLen: nat, j0: nat, name: seq<Byte>, table: LabelTable?) returns (r: int)
    requires j0 <= bufLen <= buf.Length && CString(name) && (table != null ==> table.Valid())
    requires bufLen == buf.Length && |name| <= 255
             && Encode(name, j0, bufLen, table != null, EntriesOf(table)).Encoded?
      ==> !ZeroBehind(name, j0, bufLen, table != null, EntriesOf(table))
    modifies buf, if table == null then {} else {table, table.labels}
    ensures table != null ==> table.Valid()
    ensures if |name| > 255 then r == -2 && buf[..] == old(buf[..])
            else Outcome(Encode(name, j0, bufLen, table != null, old(EntriesOf(table))), r, old(buf[..]), buf[..], j0,
                         EntriesOf(table))
  {
    hide Encode, Lookup, Remember, Behind, FirstDot, Untouched, Outcome, ZeroBehind;
    if |name| > 255 {
      return -2;
    }
    var p: nat, j: nat := 0, j0;
    ghost var before := buf[..];
    ghost var e := Encode(name, j0, bufLen, table != null, EntriesOf(table));
    NothingWritten(e, name, before, j0);
    if e.Encoded? {
      EncodeFits(name, j0, bufLen, table != null, EntriesOf(table));
    }
    assert buf[j0..j] == [];
    while true
      invariant p <= |name| && j0 <= j <= bufLen && (table != null ==> table.Valid())
      invariant Untouched(before, buf[..], j0, j)
      invariant e == Behind(buf[j0..j], Encode(name[p..], j, bufLen, table != null, EntriesOf(table)))
      decreases |name| - p
    {
      if table != null {
        var ref := table.GetPos(name[p..]);
        if ref >= 0 {
          r := WritePointer(buf, bufLen, j, ref, name[p..], EntriesOf(table), j0, before);
          return;
        }
      }
      var code, d := PutNextLabel(buf, bufLen, j, name[p..], table, j0, before);
      if code < 0 {
        FailedOutcome(code, before, buf[..], j0, j, EntriesOf(table));
        return code;
      }
      j := j + 1 + d;
      if p + d == |name| {
        r := CloseName(buf, j, EntriesOf(table), j0, before);
        return;
      }
      assert name[p..][d + 1..] == name[p + d + 1..];
      p := p + d + 1;
    }
  }
}
