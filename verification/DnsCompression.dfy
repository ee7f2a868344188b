/** What the encoder writes out and what it shares: sections 2.3.4 and 4.1.4 of RFC 1035. */
module DnsCompression {
  import opened Bytes
  import opened DnsNames
  import opened DnsRoundTrip

  /** A label starts at byte 'k' of the name, or an empty one behind its last dot. */
  ghost predicate Starts(name: seq<Byte>, k: nat) {
    k <= |name| && (k == 0 || name[k - 1] == DOT)
  }

  /** The table has an entry for this ending. */
  ghost predicate Known(tab: seq<Entry>, ending: seq<Byte>) {
    exists e | e in tab :: e.v == ending
  }

  /** No ending that starts before byte 'k' is known. */
  ghost predicate NoneBefore(name: seq<Byte>, k: nat, tab: seq<Entry>) {
    k <= |name| + 1 && forall i | 0 <= i < k && Starts(name, i) :: !Known(tab, name[i..])
  }

  /** The label at byte 'k' is written out. */
  ghost predicate Spelled(name: seq<Byte>, k: nat, tab: seq<Entry>) {
    Starts(name, k) && NoneBefore(name, k + 1, tab)
  }

  /** The ending at byte 'k' is the longest one that is known. */
  ghost predicate Shared(name: seq<Byte>, k: nat, tab: seq<Entry>) {
    Starts(name, k) && Known(tab, name[k..]) && NoneBefore(name, k, tab)
  }

  /** The number of dots. */
  ghost function Dots(s: seq<Byte>): nat {
    if s == [] then 0 else (if s[0] == DOT then 1 else 0) + Dots(s[1..])
  }

  lemma {:induction false} KnownIsFound(tab: seq<Entry>, name: seq<Byte>)
    ensures Known(tab, name) <==> Lookup(tab, name) >= 0
    ensures Known(tab, name) ==> Entry(name, Lookup(tab, name)) in tab
  {
    if tab != [] {
      KnownIsFound(tab[1..], name);
      if Known(tab, name) && tab[0].v != name {
        var e :| e in tab && e.v == name;
        assert e in tab[1..];
      }
    }
  }

  /** The labels of the rest of a name, behind its first label. */
  lemma RestStarts(name: seq<Byte>, k: nat)
    requires var d := FirstDot(name); d < |name|
    ensures var d := FirstDot(name); var rest := name[d + 1..];
            && (0 < k <= d ==> !Starts(name, k))
            && (d < k <= |name| ==>
                  (Starts(name, k) <==> Starts(rest, k - d - 1)) && name[k..] == rest[k - d - 1..])
  {
    hide FirstDot;
  }

  /** The same endings shorter than 'n' are known to both tables. */
  ghost predicate SameShorter(tab: seq<Entry>, tab': seq<Entry>, n: nat) {
    forall ending | |ending| < n :: Known(tab', ending) <==> Known(tab, ending)
  }

  /** Entering the whole name makes no ending of it known. */
  lemma RememberShorter(tab: seq<Entry>, name: seq<Byte>, j: nat)
    ensures SameShorter(tab, Remember(tab, name, j), |name|)
  {
    forall ending | |ending| < |name| ensures Known(Remember(tab, name, j), ending) <==> Known(tab, ending) {
      if Known(tab, ending) {
        var e :| e in tab && e.v == ending;
        assert e in Remember(tab, name, j);
      }
    }
  }

  /** An ending of the rest of a name is one of the name. */
  lemma RestKnown(name: seq<Byte>, tab: seq<Entry>, tab': seq<Entry>, i: nat)
    requires var d := FirstDot(name); d < i <= |name| && SameShorter(tab, tab', |name|)
    ensures var d := FirstDot(name); var rest := name[d + 1..];
            && (Starts(name, i) <==> Starts(rest, i - d - 1))
            && (Known(tab', rest[i - d - 1..]) <==> Known(tab, name[i..]))
  {
    hide FirstDot, Known, Starts;
    RestStarts(name, i);
  }

  /** What is known of the rest of a name. */
  lemma RestNone(name: seq<Byte>, tab: seq<Entry>, tab': seq<Entry>, k: nat)
    requires var d := FirstDot(name); d < |name| && d < k <= |name| + 1 && !Known(tab, name)
    requires SameShorter(tab, tab', |name|)
    ensures var d := FirstDot(name); NoneBefore(name, k, tab) <==> NoneBefore(name[d + 1..], k - d - 1, tab')
  {
    hide FirstDot, Known, Starts, SameShorter;
    var d := FirstDot(name);
    var rest := name[d + 1..];
    if NoneBefore(name, k, tab) {
      forall i | 0 <= i < k - d - 1 && Starts(rest, i) ensures !Known(tab', rest[i..]) {
        RestKnown(name, tab, tab', i + d + 1);
      }
    }
    if NoneBefore(rest, k - d - 1, tab') {
      forall i | 0 <= i < k && Starts(name, i) ensures !Known(tab, name[i..]) {
        RestStarts(name, i);
        if i > 0 {
          RestKnown(name, tab, tab', i);
        }
        assert name[0..] == name;
      }
    }
  }

  lemma {:induction false} DotsBehind(name: seq<Byte>, k: nat)
    requires var d := FirstDot(name); d < k <= |name|
    ensures var d := FirstDot(name); Dots(name[..k]) == 1 + Dots(name[d + 1..][..k - d - 1])
    decreases |name|
  {
    var d := FirstDot(name);
    assert name[..k][1..] == name[1..][..k - 1];
    if d == 0 {
      assert name[0] == DOT;
    } else {
      DotsBehind(name[1..], k - 1);
      assert name[1..][d..] == name[d + 1..];
    }
  }

  /** What follows the first label, when the name itself is not known. */
  lemma Unfold(name: seq<Byte>, j: nat, bufLen: nat, useTable: bool, tab: seq<Entry>)
    requires !(useTable && Known(tab, name))
    ensures var d := FirstDot(name);
            var tab' := if useTable then Remember(tab, name, j) else tab;
            var e := Encode(name, j, bufLen, useTable, tab);
            if d > 63 then e == Failed(-1)
            else if j + d + 1 > bufLen then e == Failed(-2)
            else if d == |name| then e == Encoded([d] + name + (if d == 0 then [] else [0]), tab')
            else e == DnsNames.Behind([d] + name[..d], Encode(name[d + 1..], j + d + 1, bufLen, useTable, tab'))
  {
    KnownIsFound(tab, name);
    EncodeUnfolded(name, j, bufLen, useTable, tab);
  }

  /** Entries are only added, and not beyond the table's end. */
  lemma {:induction false} EntriesStay(name: seq<Byte>, j: nat, bufLen: nat, useTable: bool, tab: seq<Entry>)
    requires Encode(name, j, bufLen, useTable, tab).Encoded?
    ensures tab <= Encode(name, j, bufLen, useTable, tab).tab
    decreases |name|
  {
    hide FirstDot, Encode;
    if useTable && Known(tab, name) {
      PointerWritten(name, j, bufLen, tab);
    } else {
      Unfold(name, j, bufLen, useTable, tab);
      var d := FirstDot(name);
      if d < |name| {
        EntriesStay(name[d + 1..], j + d + 1, bufLen, useTable, if useTable then Remember(tab, name, j) else tab);
      }
    }
  }

  /** A known name is a pointer: two bytes, and no new entry. */
  lemma PointerWritten(name: seq<Byte>, j: nat, bufLen: nat, tab: seq<Entry>)
    requires Known(tab, name)
    ensures var e := Encode(name, j, bufLen, true, tab);
            if j + 2 > bufLen then e == Failed(-2)
            else
              exists ref: nat | Entry(name, ref) in tab :: e == Encoded(Pointer(ref), tab)
  {
    KnownIsFound(tab, name);
  }

  /** While the table has room, every ending whose first label is written out is entered where that label stands. */
  lemma {:induction false} EntriesMade(name: seq<Byte>, j: nat, bufLen: nat, tab: seq<Entry>, k: nat)
    requires Encode(name, j, bufLen, true, tab).Encoded?
    requires Spelled(name, k, tab) && |tab| + Dots(name[..k]) < MAX_LABELS
    ensures Entry(name[k..], j + k) in Encode(name, j, bufLen, true, tab).tab
    decreases |name|
  {
    hide FirstDot, Encode, Known, Starts, NoneBefore, SameShorter, Remember, Dots;
    SpelledUnknown(name, k, tab);
    Unfold(name, j, bufLen, true, tab);
    Remembered(tab, name, j);
    var d := FirstDot(name);
    var tab' := Remember(tab, name, j);
    if k == 0 {
      assert name[0..] == name && name[..0] == [];
      NoDots();
      if d < |name| {
        EntriesStay(name[d + 1..], j + d + 1, bufLen, true, tab');
      }
    } else {
      RestStarts(name, k);
      RememberShorter(tab, name, j);
      RestNone(name, tab, tab', k + 1);
      DotsBehind(name, k);
      EntriesMade(name[d + 1..], j + d + 1, bufLen, tab', k - d - 1);
    }
  }

  lemma SpelledUnknown(name: seq<Byte>, k: nat, tab: seq<Entry>)
    requires Spelled(name, k, tab)
    ensures !Known(tab, name) && k <= |name| && (k > 0 ==> FirstDot(name) < k)
  {
    hide Known, FirstDot;
    assert name[0..] == name && Starts(name, 0);
  }

  lemma Remembered(tab: seq<Entry>, name: seq<Byte>, j: nat)
    ensures |tab| < MAX_LABELS ==>
              |Remember(tab, name, j)| == |tab| + 1 && Remember(tab, name, j)[|tab|] == Entry(name, j)
    ensures forall e | e in Remember(tab, name, j) && |e.v| < |name| :: e in tab
  {
  }

  lemma NoDots()
    ensures Dots([]) == 0
  {
  }

  /** No other entries are made. */
  lemma {:induction false} EntriesOnly(name: seq<Byte>, j: nat, bufLen: nat, tab: seq<Entry>, i: nat) returns (k: nat)
    requires var e := Encode(name, j, bufLen, true, tab); e.Encoded? && |tab| <= i < |e.tab|
    ensures Spelled(name, k, tab) && Encode(name, j, bufLen, true, tab).tab[i] == Entry(name[k..], j + k)
    decreases |name|
  {
    hide FirstDot, Encode, Known;
    assert name[0..] == name && Starts(name, 0);
    if Known(tab, name) {
      PointerWritten(name, j, bufLen, tab);
    }
    Unfold(name, j, bufLen, true, tab);
    var d := FirstDot(name);
    var tab' := Remember(tab, name, j);
    if d < |name| {
      EntriesStay(name[d + 1..], j + d + 1, bufLen, true, tab');
    }
    if i < |tab'| {
      k := 0;
    } else {
      k := EntriesOnly(name[d + 1..], j + d + 1, bufLen, tab', i);
      k := k + d + 1;
      RestStarts(name, k);
      RememberShorter(tab, name, j);
      RestNone(name, tab, tab', k + 1);
    }
  }

  /** A name whose longest known ending starts at byte 'k' takes 'k' bytes and a pointer. */
  lemma {:induction false} SharedLength(name: seq<Byte>, j: nat, bufLen: nat, tab: seq<Entry>, k: nat)
    requires Encode(name, j, bufLen, true, tab).Encoded? && Shared(name, k, tab)
    ensures var bytes := Encode(name, j, bufLen, true, tab).bytes;
            |bytes| == k + 2 && exists ref: nat | Entry(name[k..], ref) in tab :: bytes[k..] == Pointer(ref)
    decreases |name|
  {
    hide FirstDot, Encode, Known, Starts, NoneBefore, SameShorter, Remember, Pointer;
    SharedWhere(name, k, tab);
    var bytes := Encode(name, j, bufLen, true, tab).bytes;
    if k == 0 {
      PointerWritten(name, j, bufLen, tab);
      assert bytes[0..] == bytes && name[0..] == name;
    } else {
      Unfold(name, j, bufLen, true, tab);
      RestStarts(name, k);
      var d := FirstDot(name);
      var rest, tab' := name[d + 1..], Remember(tab, name, j);
      RememberShorter(tab, name, j);
      RestNone(name, tab, tab', k);
      SharedLength(rest, j + d + 1, bufLen, tab', k - d - 1);
      Remembered(tab, name, j);
      var more := Encode(rest, j + d + 1, bufLen, true, tab').bytes;
      assert bytes[k..] == more[k - d - 1..];
    }
  }

  lemma SharedWhere(name: seq<Byte>, k: nat, tab: seq<Entry>)
    requires Shared(name, k, tab)
    ensures k <= |name| && (Known(tab, name) <==> k == 0) && (k > 0 ==> FirstDot(name) < k)
  {
    hide Known;
    assert name[0..] == name && Starts(name, 0);
  }

  /** The label at byte 'k' is longer than a label may be. */
  ghost predicate TooLong(name: seq<Byte>, k: nat) {
    k <= |name| && FirstDot(name[k..]) > 63
  }

  /** Some label to be written out is too long, and everything before it fits. */
  ghost predicate BadLabel(name: seq<Byte>, j: nat, bufLen: nat, tab: seq<Entry>) {
    exists k | 0 <= k <= |name| && Spelled(name, k, tab) ::
      TooLong(name, k) && (k == 0 || j + k <= bufLen) && NoLongBefore(name, k, tab)
  }

  ghost predicate NoLongBefore(name: seq<Byte>, k: nat, tab: seq<Entry>) {
    forall i | 0 <= i < k && Spelled(name, i, tab) :: !TooLong(name, i)
  }

  /** The labels and a pointer, or the labels of the whole name, fit. The closing zero does not count. */
  ghost predicate Fits(name: seq<Byte>, j: nat, bufLen: nat, tab: seq<Entry>) {
    if exists k | 0 <= k <= |name| :: Shared(name, k, tab)
    then exists k | 0 <= k <= |name| && Shared(name, k, tab) :: j + k + 2 <= bufLen
    else j + |name| + 1 <= bufLen
  }

  /** The labels written out, and the ending shared, are those of the rest of the name. */
  lemma RestLabels(name: seq<Byte>, tab: seq<Entry>, tab': seq<Entry>, k: nat)
    requires var d := FirstDot(name); d < |name| && !Known(tab, name) && SameShorter(tab, tab', |name|)
    requires k <= |name|
    ensures var d := FirstDot(name); var rest := name[d + 1..];
            && (Spelled(name, k, tab) <==> k == 0 || (k > d && Spelled(rest, k - d - 1, tab')))
            && (Shared(name, k, tab) <==> k > d && Shared(rest, k - d - 1, tab'))
            && (k > d ==> (TooLong(name, k) <==> TooLong(rest, k - d - 1)))
            && (TooLong(name, 0) <==> d > 63)
  {
    hide FirstDot, Known, Starts, NoneBefore, SameShorter;
    FirstLabelAt(name, tab);
    var d := FirstDot(name);
    RestStarts(name, k);
    if k > d {
      RestKnown(name, tab, tab', k);
      RestNone(name, tab, tab', k);
      RestNone(name, tab, tab', k + 1);
    }
  }

  lemma FirstLabelAt(name: seq<Byte>, tab: seq<Entry>)
    ensures name[0..] == name && Starts(name, 0) && NoneBefore(name, 0, tab)
    ensures NoneBefore(name, 1, tab) <==> !Known(tab, name)
  {
    hide Known;
  }

  /** The parts of 'Fits' and 'BadLabel' for a name that starts with an unknown label. */
  lemma {:induction false} RestFits(name: seq<Byte>, j: nat, bufLen: nat, tab: seq<Entry>, tab': seq<Entry>)
    requires var d := FirstDot(name); d < |name| && !Known(tab, name) && SameShorter(tab, tab', |name|)
    ensures var d := FirstDot(name); Fits(name, j, bufLen, tab) <==> Fits(name[d + 1..], j + d + 1, bufLen, tab')
  {
    hide FirstDot, Shared, Known, SameShorter;
    var d := FirstDot(name);
    var rest := name[d + 1..];
    forall k | 0 <= k <= |name|
      ensures Shared(name, k, tab) <==> k > d && Shared(rest, k - d - 1, tab')
    {
      RestLabels(name, tab, tab', k);
    }
    forall k | 0 <= k <= |rest| ensures Shared(rest, k, tab') ==> Shared(name, k + d + 1, tab) {
      assert k + d + 1 <= |name|;
    }
  }

  lemma RestLong(name: seq<Byte>, tab: seq<Entry>, tab': seq<Entry>, k: nat)
    requires var d := FirstDot(name); d < |name| && d <= 63 && d < k <= |name| + 1
    requires !Known(tab, name) && SameShorter(tab, tab', |name|)
    ensures var d := FirstDot(name); NoLongBefore(name, k, tab) <==> NoLongBefore(name[d + 1..], k - d - 1, tab')
  {
    hide FirstDot, Spelled, TooLong, Known, SameShorter;
    var d := FirstDot(name);
    var rest := name[d + 1..];
    if NoLongBefore(name, k, tab) {
      forall i | 0 <= i < k - d - 1 && Spelled(rest, i, tab') ensures !TooLong(rest, i) {
        RestLabels(name, tab, tab', i + d + 1);
      }
    }
    if NoLongBefore(rest, k - d - 1, tab') {
      forall i | 0 <= i < k && Spelled(name, i, tab) ensures !TooLong(name, i) {
        RestLabels(name, tab, tab', i);
      }
    }
  }

  lemma {:induction false} RestBad(name: seq<Byte>, j: nat, bufLen: nat, tab: seq<Entry>, tab': seq<Entry>)
    requires var d := FirstDot(name); d < |name| && d <= 63 && j + d + 1 <= bufLen
    requires !Known(tab, name) && SameShorter(tab, tab', |name|)
    ensures var d := FirstDot(name); var rest := name[d + 1..];
            BadLabel(name, j, bufLen, tab) <==> BadLabel(rest, j + d + 1, bufLen, tab')
  {
    hide FirstDot, Spelled, TooLong, Known, SameShorter, NoLongBefore;
    var d := FirstDot(name);
    var rest := name[d + 1..];
    if BadLabel(name, j, bufLen, tab) {
      var k :| 0 <= k <= |name| && Spelled(name, k, tab) && TooLong(name, k)
               && (k == 0 || j + k <= bufLen) && NoLongBefore(name, k, tab);
      RestLabels(name, tab, tab', k);
      RestLong(name, tab, tab', k);
      assert Spelled(rest, k - d - 1, tab');
    }
    if BadLabel(rest, j + d + 1, bufLen, tab') {
      var k :| 0 <= k <= |rest| && Spelled(rest, k, tab') && TooLong(rest, k)
               && (k == 0 || j + d + 1 + k <= bufLen) && NoLongBefore(rest, k, tab');
      RestLabels(name, tab, tab', k + d + 1);
      RestLong(name, tab, tab', k + d + 1);
      assert Spelled(name, k + d + 1, tab);
    }
  }

  /** The first label of an unknown name is too long, or does not fit. */
  lemma FirstFails(name: seq<Byte>, j: nat, bufLen: nat, tab: seq<Entry>)
    requires !Known(tab, name)
    ensures FirstDot(name) > 63 ==> BadLabel(name, j, bufLen, tab) && !NoLongBefore(name, |name| + 1, tab)
    ensures FirstDot(name) <= 63 && j + FirstDot(name) + 1 > bufLen
      ==> !BadLabel(name, j, bufLen, tab) && !Fits(name, j, bufLen, tab)
  {
    hide FirstDot, Known;
    assert name[0..] == name && Starts(name, 0);
    assert Spelled(name, 0, tab);
    var d := FirstDot(name);
    assert forall k | 0 < k <= |name| && Starts(name, k) :: k > d;
  }

  /** A known name, or one without dots. */
  lemma NoRest(name: seq<Byte>, j: nat, bufLen: nat, tab: seq<Entry>)
    ensures Known(tab, name) ==>
              && !BadLabel(name, j, bufLen, tab) && NoLongBefore(name, |name| + 1, tab)
              && (Fits(name, j, bufLen, tab) <==> j + 2 <= bufLen)
    ensures !Known(tab, name) && FirstDot(name) == |name| ==>
              && (BadLabel(name, j, bufLen, tab) <==> |name| > 63)
              && (NoLongBefore(name, |name| + 1, tab) <==> |name| <= 63)
              && (Fits(name, j, bufLen, tab) <==> j + |name| + 1 <= bufLen)
  {
    hide FirstDot, Known;
    assert name[0..] == name && Starts(name, 0);
    if Known(tab, name) {
      assert Shared(name, 0, tab);
    } else if FirstDot(name) == |name| {
      assert forall k | 0 < k <= |name| :: !Starts(name, k);
      assert Spelled(name, 0, tab);
    }
  }

  /**
   * When a name can be encoded, and with what code it fails otherwise: a label written out may have
   * at most 63 bytes, the endings that are known do not count, and what is written must fit.
   */
  lemma {:induction false} EncodeExact(name: seq<Byte>, j: nat, bufLen: nat, useTable: bool, tab: seq<Entry>)
    ensures var known := if useTable then tab else [];
            var e := Encode(name, j, bufLen, useTable, tab);
            && (e.Encoded? <==> Fits(name, j, bufLen, known) && NoLongBefore(name, |name| + 1, known))
            && (e == Failed(-1) <==> BadLabel(name, j, bufLen, known))
            && (e.Failed? ==> e.code == -1 || e.code == -2)
    decreases |name|
  {
    hide FirstDot, Encode, Known, Fits, BadLabel, NoLongBefore;
    var known := if useTable then tab else [];
    NoRest(name, j, bufLen, known);
    NothingKnown(name);
    if Known(known, name) {
      PointerWritten(name, j, bufLen, tab);
    } else {
      Unfold(name, j, bufLen, useTable, tab);
      FirstFails(name, j, bufLen, known);
      var d := FirstDot(name);
      if d <= 63 && j + d + 1 <= bufLen && d < |name| {
        var tab' := if useTable then Remember(tab, name, j) else tab;
        var known' := if useTable then tab' else [];
        RememberShorter(tab, name, j);
        RestFits(name, j, bufLen, known, known');
        RestBad(name, j, bufLen, known, known');
        RestLong(name, known, known', |name| + 1);
        EncodeExact(name[d + 1..], j + d + 1, bufLen, useTable, tab');
      }
    }
  }

  lemma NothingKnown(name: seq<Byte>)
    ensures !Known([], name)
  {
  }

  /** A name of which no ending is known takes its own length, one more for the first label, and the closing zero. */
  lemma {:induction false} SpelledLength(name: seq<Byte>, j: nat, bufLen: nat, useTable: bool, tab: seq<Entry>)
    requires Encode(name, j, bufLen, useTable, tab).Encoded?
    requires useTable ==> NoneBefore(name, |name| + 1, tab)
    ensures |Encode(name, j, bufLen, useTable, tab).bytes|
            == |name| + if name == [] || name[|name| - 1] == DOT then 1 else 2
    decreases |name|
  {
    hide FirstDot, Encode, Known, SameShorter;
    assert name[0..] == name && Starts(name, 0);
    Unfold(name, j, bufLen, useTable, tab);
    var d := FirstDot(name);
    if d < |name| {
      var rest := name[d + 1..];
      var tab' := if useTable then Remember(tab, name, j) else tab;
      if useTable {
        RememberShorter(tab, name, j);
        RestNone(name, tab, tab', |name| + 1);
      }
      SpelledLength(rest, j + d + 1, bufLen, useTable, tab');
      assert rest != [] ==> rest[|rest| - 1] == name[|name| - 1];
    }
  }

  /** A name written while the table has room is two bytes from then on: a pointer to where it was written first. */
  lemma SecondTime(name: seq<Byte>, j: nat, tab: seq<Entry>, bufLen: nat, later: seq<Entry>, k: nat)
    requires var e := Encode(name, j, bufLen, true, tab); e.Encoded? && e.tab <= later
    requires !Known(tab, name) && |tab| < MAX_LABELS
    ensures Encode(name, k, bufLen, true, later)
            == if k + 2 <= bufLen then Encoded(Pointer(j), later) else Failed(-2)
  {
    hide FirstDot, Encode;
    assert name[0..] == name && name[..0] == [] && Spelled(name, 0, tab);
    Unfold(name, j, bufLen, true, tab);
    var tab' := Remember(tab, name, j);
    if FirstDot(name) < |name| {
      EntriesStay(name[FirstDot(name) + 1..], j + FirstDot(name) + 1, bufLen, true, tab');
    }
    assert tab + [Entry(name, j)] <= later;
    FoundThere(tab, name, j, later);
    KnownPointer(name, k, bufLen, later);
  }

  lemma KnownPointer(name: seq<Byte>, k: nat, bufLen: nat, tab: seq<Entry>)
    requires Lookup(tab, name) >= 0
    ensures Encode(name, k, bufLen, true, tab)
            == if k + 2 <= bufLen then Encoded(Pointer(Lookup(tab, name)), tab) else Failed(-2)
  {
  }

  lemma {:induction false} FoundThere(tab: seq<Entry>, name: seq<Byte>, j: nat, later: seq<Entry>)
    requires !Known(tab, name) && tab + [Entry(name, j)] <= later
    ensures Lookup(later, name) == j
  {
    if tab == [] {
      assert later[0] == Entry(name, j);
    } else {
      assert tab[0] in tab && later[0] == tab[0];
      assert forall e | e in tab[1..] :: e in tab;
      assert tab[1..] + [Entry(name, j)] <= later[1..];
      FoundThere(tab[1..], name, j, later[1..]);
    }
  }

  /** Reading the pointer goes on where the name was written first. */
  lemma PointerFollowed(p: seq<Byte>, k: nat, left: nat, j: nat)
    requires j < MAX_OFFSET && j < |p| && k + 2 <= |p| && p[k..k + 2] == Pointer(j) && left > 0
    requires Walk(p, j, left - 1).Name?
    ensures Walk(p, k, left) == Name(Walk(p, j, left - 1).labels, k + 2)
  {
    ReadPointer(p, k, left, j);
  }
}
