/** Timeouts of equal length, kept in ordered lists; the list's index hides in tv_usec. */
module CommonTimeouts {
  const MICROSECONDS := 0x10_0000
  const MAGIC := 0x5000_0000
  const MAX_COMMON_TIMEOUTS := 256

  datatype Timeval = Timeval(sec: int, usec: nat)

  /* ------------------------------------ tv_usec ------------------------------------ */

  /** usec | COMMON_TIMEOUT_MAGIC | (idx << COMMON_TIMEOUT_IDX_SHIFT), for microseconds of 20 bits. */
  function Packed(usec: nat, idx: nat): nat {
    usec + MAGIC + idx * MICROSECONDS
  }

  function IndexOf(usec: nat): nat {
    usec / MICROSECONDS % 256
  }

  function MicrosOf(usec: nat): nat {
    usec % MICROSECONDS
  }

  /** is_common_timeout, in a base with 'n' common timeouts. */
  predicate IsCommon(usec: nat, n: nat) {
    usec / 0x1000_0000 % 16 == 5 && IndexOf(usec) < n
  }

  /** What is packed into tv_usec comes out again, and shows as common exactly for the lists there are. */
  lemma PackedRoundTrip(usec: nat, idx: nat, n: nat)
    requires usec < MICROSECONDS && idx < MAX_COMMON_TIMEOUTS
    ensures IndexOf(Packed(usec, idx)) == idx && MicrosOf(Packed(usec, idx)) == usec
    ensures IsCommon(Packed(usec, idx), n) <==> idx < n
    ensures Packed(usec, idx) / 0x1000_0000 == 5
  {
    var x := Packed(usec, idx);
    assert x == (0x500 + idx) * MICROSECONDS + usec;
    assert x / MICROSECONDS == 0x500 + idx;
    assert x / 0x1000_0000 == (x / MICROSECONDS) / 0x100 by {
      Quotients(x);
    }
  }

  lemma Quotients(x: nat)
    ensures x / 0x1000_0000 == (x / MICROSECONDS) / 0x100
  {
  }

  /** A time of day below one second does not look like a common timeout. */
  lemma PlainIsNotCommon(usec: nat, n: nat)
    requires usec < MICROSECONDS
    ensures !IsCommon(usec, n)
  {
  }

  /** A time without its packing. */
  function Unpacked(t: Timeval): Timeval {
    Timeval(t.sec, MicrosOf(t.usec))
  }

  /** A time in microseconds. */
  function Micros(t: Timeval): int {
    t.sec * 1000000 + t.usec
  }

  /* ------------------------------- The table of durations ------------------------------- */

  /** The duration event_base_init_common_timeout looks for. */
  function Normal(d: Timeval, n: nat): (t: Timeval)
    ensures t.usec <= 1000000
  {
    if d.usec > 1000000 then
      var usec := if IsCommon(d.usec, n) then MicrosOf(d.usec) else d.usec;
      Timeval(d.sec + usec / 1000000, usec % 1000000)
    else d
  }

  /** The duration a caller means: a packed one stands for what is packed into it. */
  function Meant(d: Timeval, n: nat): Timeval {
    if IsCommon(d.usec, n) then Unpacked(d) else d
  }

  /** Normalising keeps the length of a duration, and is done to those with more than a second in their second part. */
  lemma NormalExact(d: Timeval, n: nat)
    ensures Micros(Normal(d, n)) == Micros(Meant(d, n))
    ensures d.usec <= 1000000 ==> Normal(d, n) == d
    ensures d.usec > 1000000 ==> Normal(d, n).usec < 1000000
  {
  }

  class Durations {
    var lists: seq<Timeval>

    ghost predicate Valid()
      reads this
    {
      && |lists| <= MAX_COMMON_TIMEOUTS
      && (forall i | 0 <= i < |lists| :: IndexOf(lists[i].usec) == i && IsCommon(lists[i].usec, |lists|))
      && (forall i, j | 0 <= i < j < |lists| :: Plain(i) != Plain(j))
    }

    /** The duration of list 'i' without its packing. */
    ghost function Plain(i: nat): Timeval
      requires i < |lists|
      reads this
    {
      Timeval(lists[i].sec, MicrosOf(lists[i].usec))
    }

    constructor ()
      ensures Valid() && lists == []
    {
      lists := [];
    }

    /**
     * event_base_init_common_timeout: the list for a duration, an old one if there is one; -1 when
     * there are too many.
     */
    method InitCommonTimeout(d: Timeval) returns (i: int)
      requires Valid()
      modifies this
      ensures Valid() && old(lists) <= lists
      ensures i >= 0 ==> i < |lists| && Plain(i) == Normal(d, |old(lists)|)
      ensures i >= 0 ==> Micros(Plain(i)) == Micros(Meant(d, |old(lists)|))
      ensures i < 0 <==> |old(lists)| == MAX_COMMON_TIMEOUTS
                         && forall k | 0 <= k < |old(lists)| :: old(Plain(k)) != Normal(d, |old(lists)|)
      ensures i >= 0 ==> IsCommon(lists[i].usec, |lists|) && IndexOf(lists[i].usec) == i
      ensures lists != old(lists) ==> i == |old(lists)| == |lists| - 1
      ensures (exists k :: 0 <= k < |old(lists)| && old(Plain(k)) == Normal(d, |old(lists)|)) ==> lists == old(lists)
    {
      NormalExact(d, |lists|);
      var duration := Normal(d, |lists|);
      var n := |lists|;
      for k := 0 to n
        invariant forall m | 0 <= m < k :: Plain(m) != duration
      {
        if duration.sec == lists[k].sec && duration.usec == MicrosOf(lists[k].usec) {
          return k;
        }
      }
      if n == MAX_COMMON_TIMEOUTS {
        return -1;
      }
      PackedRoundTrip(duration.usec, n, n + 1);
      lists := lists + [Timeval(duration.sec, Packed(duration.usec, n))];
      assert forall k | 0 <= k < n :: Plain(k) == old(Plain(k));
      return n;
    }
  }

  /* ------------------------------------ One list ------------------------------------ */

  /** An event and its deadline; all of one list carry the same packed index. */
  datatype Timed = Timed(ev: nat, timeout: Timeval)

  /** evutil_timercmp(a, b, <=). */
  predicate NotAfter(a: Timeval, b: Timeval) {
    if a.sec == b.sec then a.usec <= b.usec else a.sec <= b.sec
  }

  /** Comparing times is comparing microseconds, for times with less than a second in their second part. */
  lemma NotAfterExact(a: Timeval, b: Timeval)
    requires a.usec < 1000000 && b.usec < 1000000
    ensures NotAfter(a, b) <==> Micros(a) <= Micros(b)
  {
  }

  /** Packed deadlines of one list compare as what is packed into them. */
  lemma PackedOrder(a: Timeval, b: Timeval, idx: nat)
    requires idx < MAX_COMMON_TIMEOUTS
    requires exists usec | 0 <= usec < MICROSECONDS :: a.usec == Packed(usec, idx)
    requires exists usec | 0 <= usec < MICROSECONDS :: b.usec == Packed(usec, idx)
    ensures NotAfter(a, b) <==> NotAfter(Unpacked(a), Unpacked(b))
  {
    var x :| 0 <= x < MICROSECONDS && a.usec == Packed(x, idx);
    var y :| 0 <= y < MICROSECONDS && b.usec == Packed(y, idx);
    PackedRoundTrip(x, idx, 0);
    PackedRoundTrip(y, idx, 0);
  }

  ghost predicate Sorted(q: seq<Timed>) {
    forall i, j | 0 <= i < j < |q| :: NotAfter(q[i].timeout, q[j].timeout)
  }

  /** The events of one deadline, in order. */
  ghost function With(q: seq<Timed>, t: Timeval): seq<Timed> {
    if q == [] then [] else (if q[0].timeout == t then [q[0]] else []) + With(q[1..], t)
  }

  lemma {:induction false} WithConcat(a: seq<Timed>, b: seq<Timed>, t: Timeval)
    ensures With(a + b, t) == With(a, t) + With(b, t)
  {
    if a == [] {
      assert a + b == b;
    } else {
      assert (a + b)[1..] == a[1..] + b;
      WithConcat(a[1..], b, t);
    }
  }

  lemma {:induction false} WithNone(q: seq<Timed>, t: Timeval)
    requires forall i | 0 <= i < |q| :: q[i].timeout != t
    ensures With(q, t) == []
  {
    if q != [] {
      WithNone(q[1..], t);
    }
  }

  /** Where a new event goes: behind the last one that is not after it. */
  ghost function Place(q: seq<Timed>, t: Timeval): (k: nat)
    ensures k <= |q| && (k > 0 ==> NotAfter(q[k - 1].timeout, t))
    ensures forall i | k <= i < |q| :: !NotAfter(q[i].timeout, t)
  {
    if q == [] then 0
    else if NotAfter(q[|q| - 1].timeout, t) then |q|
    else Place(q[..|q| - 1], t)
  }

  lemma {:induction false} PlaceStep(q: seq<Timed>, t: Timeval)
    ensures Place(q, t) == if q == [] then 0
                           else if NotAfter(q[|q| - 1].timeout, t) then |q| else Place(q[..|q| - 1], t)
  {
  }

  ghost function Inserted(q: seq<Timed>, e: Timed): seq<Timed> {
    var k := Place(q, e.timeout);
    q[..k] + [e] + q[k..]
  }

  lemma {:induction false} InsertedSorted(q: seq<Timed>, e: Timed)
    requires Sorted(q)
    ensures Sorted(Inserted(q, e))
  {
    hide Place;
    var k, r := Place(q, e.timeout), Inserted(q, e);
    forall i | 0 <= i < k ensures NotAfter(q[i].timeout, e.timeout) {
      assert i < k - 1 ==> NotAfter(q[i].timeout, q[k - 1].timeout);
    }
    forall i, j | 0 <= i < j < |r| ensures NotAfter(r[i].timeout, r[j].timeout) {
      var m, n := if i <= k then i else i - 1, if j <= k then j else j - 1;
      assert r[i] == if i == k then e else q[m];
      assert r[j] == if j == k then e else q[n];
    }
  }

  lemma {:induction false} InsertedSame(q: seq<Timed>, e: Timed)
    ensures multiset(Inserted(q, e)) == multiset(q) + multiset{e}
  {
    var k := Place(q, e.timeout);
    assert q == q[..k] + q[k..];
    assert multiset(q) == multiset(q[..k]) + multiset(q[k..]);
  }

  lemma {:induction false} InsertedWith(q: seq<Timed>, e: Timed, t: Timeval)
    ensures With(Inserted(q, e), t) == With(q + [e], t)
  {
    hide With, Place;
    var k := Place(q, e.timeout);
    var a, b := q[..k], q[k..];
    assert q == a + b && Inserted(q, e) == a + [e] + b;
    WithConcat(a + [e], b, t);
    WithConcat(a, [e], t);
    WithConcat(a, b, t);
    WithConcat(q, [e], t);
    if e.timeout == t {
      WithNone(b, t);
    } else {
      WithNone([e], t);
    }
    OneEmpty(With(a, t), With([e], t), With(b, t));
  }

  lemma OneEmpty(a: seq<Timed>, x: seq<Timed>, b: seq<Timed>)
    requires x == [] || b == []
    ensures a + x + b == a + b + x
  {
  }

  /** Insertion keeps the order, loses nothing, and puts an event behind those of the same deadline. */
  lemma {:induction false} InsertedFacts(q: seq<Timed>, e: Timed, t: Timeval)
    requires Sorted(q)
    ensures Sorted(Inserted(q, e)) && multiset(Inserted(q, e)) == multiset(q) + multiset{e}
    ensures With(Inserted(q, e), t) == With(q + [e], t)
  {
    InsertedSorted(q, e);
    InsertedSame(q, e);
    InsertedWith(q, e, t);
  }

  ghost function InsertAll(q: seq<Timed>, es: seq<Timed>): seq<Timed>
    decreases |es|
  {
    if es == [] then q else InsertAll(Inserted(q, es[0]), es[1..])
  }

  /** However the deadlines come, the list is the stable sort of what was added to it. */
  lemma {:induction false} InsertAllStable(q: seq<Timed>, es: seq<Timed>, t: Timeval)
    requires Sorted(q)
    ensures Sorted(InsertAll(q, es)) && multiset(InsertAll(q, es)) == multiset(q + es)
    ensures With(InsertAll(q, es), t) == With(q + es, t)
    decreases |es|
  {
    hide Inserted, With, Sorted;
    if es == [] {
      assert q + es == q;
    } else {
      var q' := Inserted(q, es[0]);
      InsertedFacts(q, es[0], t);
      InsertAllStable(q', es[1..], t);
      assert q + es == (q + [es[0]]) + es[1..];
      WithConcat(q', es[1..], t);
      WithConcat(q + [es[0]], es[1..], t);
    }
  }

  /** struct common_timeout_list. */
  class TimeoutList {
    var events: seq<Timed>
    const idx: nat
    /** The deadline the list's own timer is set to, once it has been set. */
    var timer: Timeval

    ghost predicate Valid()
      reads this
    {
      && idx < MAX_COMMON_TIMEOUTS && Sorted(events)
      && forall i | 0 <= i < |events| :: exists usec | 0 <= usec < MICROSECONDS ::
        events[i].timeout.usec == Packed(usec, idx)
    }

    constructor (idx: nat)
      requires idx < MAX_COMMON_TIMEOUTS
      ensures Valid() && events == []
    {
      this.idx, events, timer := idx, [], Timeval(0, 0);
    }

    /** insert_common_timeout_inorder: a search from the end. */
    method InsertInOrder(e: Timed)
      requires Valid() && exists usec | 0 <= usec < MICROSECONDS :: e.timeout.usec == Packed(usec, idx)
      modifies this`events
      ensures Valid() && events == Inserted(old(events), e)
    {
      hide Sorted, Place;
      InsertedSorted(events, e);
      var k: nat := |events|;
      assert events[..k] == events;
      while k > 0
        invariant events == old(events) && k <= |events| && Place(events[..k], e.timeout) == Place(events, e.timeout)
      {
        if NotAfter(events[k - 1].timeout, e.timeout) {
          break;
        }
        PlaceStep(events[..k], e.timeout);
        assert events[..k][..k - 1] == events[..k - 1];
        k := k - 1;
      }
      PlaceStep(events[..k], e.timeout);
      events := events[..k] + [e] + events[k..];
    }

    /** Earlier events have earlier deadlines, in microseconds. */
    lemma InOrder(i: nat, j: nat)
      requires Valid() && i < j < |events|
      requires forall e | e in events :: MicrosOf(e.timeout.usec) < 1000000
      ensures Micros(Unpacked(events[i].timeout)) <= Micros(Unpacked(events[j].timeout))
    {
      var a, b := events[i].timeout, events[j].timeout;
      assert events[i] in events && events[j] in events;
      PackedOrder(a, b, idx);
      NotAfterExact(Unpacked(a), Unpacked(b));
    }

    /**
     * common_timeout_callback: 'activated' are the events made active, in turn, namely those whose
     * deadline is not after 'now'. The time now carries no packing.
     */
    method Callback(now: Timeval) returns (activated: seq<Timed>)
      requires Valid()
      modifies this
      ensures Valid() && activated + events == old(events)
      ensures forall e | e in activated :: NotAfter(Unpacked(e.timeout), now)
      ensures forall e | e in events :: !NotAfter(Unpacked(e.timeout), now)
      ensures forall e | e in old(events) && MicrosOf(e.timeout.usec) < 1000000 && now.usec < 1000000 ::
        e in activated <==> Micros(Unpacked(e.timeout)) <= Micros(now)
      ensures events != [] ==> timer == Unpacked(events[0].timeout)
      ensures events == [] ==> timer == old(timer)
    {
      activated := [];
      while events != [] && !(events[0].timeout.sec > now.sec
                              || (events[0].timeout.sec == now.sec && MicrosOf(events[0].timeout.usec) > now.usec))
        invariant Valid() && activated + events == old(events)
        invariant forall e | e in activated :: NotAfter(Unpacked(e.timeout), now)
        invariant timer == old(timer)
        decreases |events|
      {
        activated := activated + [events[0]];
        events := events[1..];
      }
      if events != [] {
        forall i | 0 <= i < |events| ensures !NotAfter(Unpacked(events[i].timeout), now) {
          if i > 0 {
            PackedOrder(events[0].timeout, events[i].timeout, idx);
          }
        }
        timer := Timeval(events[0].timeout.sec, MicrosOf(events[0].timeout.usec));
      }
      forall e | e in old(events) && MicrosOf(e.timeout.usec) < 1000000 && now.usec < 1000000
        ensures NotAfter(Unpacked(e.timeout), now) <==> Micros(Unpacked(e.timeout)) <= Micros(now)
      {
        NotAfterExact(Unpacked(e.timeout), now);
      }
    }
  }
}
