/** The event base's queues of callbacks, their membership flags and the counters over them. */
module EventBases {
  import opened Lists

  /** An event_callback or event; one flag for each EVLIST_ bit the queues use. */
  class Callback {
    var timeout: bool
    var inserted: bool
    var active: bool
    var activeLater: bool
    var finalizing: bool
    const isInternal: bool
    /** EVLIST_INIT: the callback is part of a whole event. */
    const isEvent: bool
    const isDeferred: bool
    var pri: nat

    constructor (isInternal: bool, isEvent: bool, isDeferred: bool, pri: nat)
      ensures this.isInternal == isInternal && this.isEvent == isEvent && this.isDeferred == isDeferred
        && this.pri == pri
      ensures !timeout && !inserted && !active && !activeLater && !finalizing
    {
      this.isInternal, this.isEvent, this.isDeferred, this.pri := isInternal, isEvent, isDeferred, pri;
      timeout, inserted, active, activeLater, finalizing := false, false, false, false, false;
    }

    /** What INCR_EVENT_COUNT adds for one membership of this callback. */
    function Unit(): (u: nat)
      ensures u <= 1 && (u == 0 <==> isInternal)
    {
      if isInternal then 0 else 1
    }

    ghost function Now(): Snap
      reads this
    {
      Snap(timeout, inserted, active, activeLater, pri, Unit())
    }
  }

  /** A callback's flags at one moment. */
  datatype Snap = Snap(timeout: bool, inserted: bool, active: bool, activeLater: bool, pri: nat, unit: nat) {
    /** The memberships the event count stands for. */
    function Weight(): nat {
      (if timeout then unit else 0) + (if inserted then unit else 0)
      + (if active then unit else 0) + (if activeLater then unit else 0)
    }
  }

  ghost function Sum(ss: seq<Snap>): nat {
    if ss == [] then 0 else ss[0].Weight() + Sum(ss[1..])
  }

  lemma {:induction false} SumUpdate(ss: seq<Snap>, i: nat, s: Snap)
    requires i < |ss|
    ensures Sum(ss[i := s]) == Sum(ss) - ss[i].Weight() + s.Weight()
  {
    if i > 0 {
      assert ss[i := s][1..] == ss[1..][i - 1 := s];
      SumUpdate(ss[1..], i - 1, s);
    } else {
      assert ss[i := s][1..] == ss[1..];
    }
  }

  lemma {:induction false} SumSnoc(ss: seq<Snap>, s: Snap)
    ensures Sum(ss + [s]) == Sum(ss) + s.Weight()
  {
    if ss == [] {
      assert ss + [s] == [s];
    } else {
      assert (ss + [s])[1..] == ss[1..] + [s];
      SumSnoc(ss[1..], s);
    }
  }

  /** The queues of a base; the min-heap of timeouts is a set. */
  datatype Queues = Queues(active: seq<seq<Callback>>, later: seq<Callback>, timeouts: set<Callback>)

  /**
   * The flags say where each callback is; the queues hold callbacks of this base only, each once,
   * and active ones under their priority.
   */
  ghost predicate Agree(all: seq<Callback>, ss: seq<Snap>, q: Queues) {
    && NoDup(all) && |ss| == |all|
    && (forall k | 0 <= k < |all| :: ss[k].pri < |q.active| && !(ss[k].active && ss[k].activeLater))
    && (forall k | 0 <= k < |all| :: ss[k].active <==> all[k] in q.active[ss[k].pri])
    && (forall k | 0 <= k < |all| :: ss[k].activeLater <==> all[k] in q.later)
    && (forall k | 0 <= k < |all| :: ss[k].timeout <==> all[k] in q.timeouts)
    && NoDup(q.later) && (forall i | 0 <= i < |q.active| :: NoDup(q.active[i]))
    && (forall i, c | 0 <= i < |q.active| && c in q.active[i] ::
          exists k :: 0 <= k < |all| && all[k] == c && ss[k].pri == i)
    && (forall c | c in q.later :: c in all) && (forall c | c in q.timeouts :: c in all)
  }

  lemma ActiveAdded(all: seq<Callback>, ss: seq<Snap>, q: Queues, k: nat)
    requires Agree(all, ss, q) && k < |all| && !ss[k].active && !ss[k].activeLater
    ensures var p := ss[k].pri;
            Agree(all, ss[k := ss[k].(active := true)], q.(active := q.active[p := q.active[p] + [all[k]]]))
    ensures Total(q.active[ss[k].pri := q.active[ss[k].pri] + [all[k]]]) == Total(q.active) + 1
    ensures Sum(ss[k := ss[k].(active := true)]) == Sum(ss) + ss[k].unit
  {
    hide Total, Sum;
    var p := ss[k].pri;
    WithLast(q.active[p], all[k]);
    TotalUpdate(q.active, p, q.active[p] + [all[k]]);
    SumUpdate(ss, k, ss[k].(active := true));
  }

  lemma ActiveRemoved(all: seq<Callback>, ss: seq<Snap>, q: Queues, k: nat)
    requires Agree(all, ss, q) && k < |all| && ss[k].active
    ensures var p := ss[k].pri;
            Agree(all, ss[k := ss[k].(active := false)], q.(active := q.active[p := Without(q.active[p], all[k])]))
    ensures Total(q.active[ss[k].pri := Without(q.active[ss[k].pri], all[k])]) == Total(q.active) - 1
    ensures Sum(ss[k := ss[k].(active := false)]) == Sum(ss) - ss[k].unit
  {
    hide Total, Sum, Without;
    var p := ss[k].pri;
    WithoutFacts(q.active[p], all[k]);
    TotalUpdate(q.active, p, Without(q.active[p], all[k]));
    SumUpdate(ss, k, ss[k].(active := false));
  }

  lemma LaterAdded(all: seq<Callback>, ss: seq<Snap>, q: Queues, k: nat)
    requires Agree(all, ss, q) && k < |all| && !ss[k].active && !ss[k].activeLater
    ensures Agree(all, ss[k := ss[k].(activeLater := true)], q.(later := q.later + [all[k]]))
    ensures Sum(ss[k := ss[k].(activeLater := true)]) == Sum(ss) + ss[k].unit
  {
    hide Sum;
    WithLast(q.later, all[k]);
    SumUpdate(ss, k, ss[k].(activeLater := true));
  }

  lemma LaterRemoved(all: seq<Callback>, ss: seq<Snap>, q: Queues, k: nat)
    requires Agree(all, ss, q) && k < |all| && ss[k].activeLater
    ensures Agree(all, ss[k := ss[k].(activeLater := false)], q.(later := Without(q.later, all[k])))
    ensures |Without(q.later, all[k])| == |q.later| - 1
    ensures Sum(ss[k := ss[k].(activeLater := false)]) == Sum(ss) - ss[k].unit
  {
    hide Sum, Without;
    WithoutFacts(q.later, all[k]);
    SumUpdate(ss, k, ss[k].(activeLater := false));
  }

  lemma TimeoutSet(all: seq<Callback>, ss: seq<Snap>, q: Queues, k: nat, on: bool)
    requires Agree(all, ss, q) && k < |all| && ss[k].timeout != on
    ensures Agree(all, ss[k := ss[k].(timeout := on)],
                  q.(timeouts := if on then q.timeouts + {all[k]} else q.timeouts - {all[k]}))
    ensures Sum(ss[k := ss[k].(timeout := on)]) == Sum(ss) + if on then ss[k].unit else -(ss[k].unit as int)
  {
    hide Sum;
    SumUpdate(ss, k, ss[k].(timeout := on));
  }

  lemma InsertedSet(all: seq<Callback>, ss: seq<Snap>, q: Queues, k: nat, on: bool)
    requires Agree(all, ss, q) && k < |all| && ss[k].inserted != on
    ensures Agree(all, ss[k := ss[k].(inserted := on)], q)
    ensures Sum(ss[k := ss[k].(inserted := on)]) == Sum(ss) + if on then ss[k].unit else -(ss[k].unit as int)
  {
    hide Sum;
    SumUpdate(ss, k, ss[k].(inserted := on));
  }

  lemma PrioritySet(all: seq<Callback>, ss: seq<Snap>, q: Queues, k: nat, pri: nat)
    requires Agree(all, ss, q) && k < |all| && !ss[k].active && pri < |q.active|
    ensures Agree(all, ss[k := ss[k].(pri := pri)], q) && Sum(ss[k := ss[k].(pri := pri)]) == Sum(ss)
  {
    hide Sum;
    SumUpdate(ss, k, ss[k].(pri := pri));
  }

  lemma CallbackAdded(all: seq<Callback>, ss: seq<Snap>, q: Queues, c: Callback, s: Snap)
    requires Agree(all, ss, q) && c !in all && s.pri < |q.active|
    requires !s.timeout && !s.inserted && !s.active && !s.activeLater
    ensures |ss| == |all| && Agree(all + [c], ss + [s], q) && Sum(ss + [s]) == Sum(ss)
  {
    hide Sum;
    SumSnoc(ss, s);
    WithLast(all, c);
    forall i, d | 0 <= i < |q.active| && d in q.active[i]
      ensures exists k :: 0 <= k < |all + [c]| && (all + [c])[k] == d && (ss + [s])[k].pri == i
    {
      var k :| 0 <= k < |all| && all[k] == d && ss[k].pri == i;
      assert (all + [c])[k] == d && (ss + [s])[k].pri == i;
    }
    assert c !in q.active[s.pri];
  }

  /** The callbacks of this priority, in their order. */
  ghost function AtPriority(q: seq<Callback>, i: nat): seq<Callback>
    reads (set c: Callback | c in q)`pri
  {
    if q == [] then []
    else
      assert q[0] in q && forall c | c in q[1..] :: c in q;
      (if q[0].pri == i then [q[0]] else []) + AtPriority(q[1..], i)
  }

  /** How many of the callbacks are deferred ones. */
  function Deferreds(q: seq<Callback>): nat {
    if q == [] then 0 else (if q[0].isDeferred then 1 else 0) + Deferreds(q[1..])
  }

  /** Moving the first later callback to its priority's queue keeps what comes out in the end. */
  lemma MoveKeeps(active: seq<seq<Callback>>, later: seq<Callback>)
    requires later != [] && later[0].pri < |active|
    ensures var c := later[0]; var moved := active[c.pri := active[c.pri] + [c]];
            forall i | 0 <= i < |active| :: moved[i] + AtPriority(later[1..], i) == active[i] + AtPriority(later, i)
  {
  }

  lemma NoneLeft()
    ensures forall i: nat :: AtPriority([], i) == []
  {
  }

  /** struct event_base, as far as its queues go. */
  class EventBase {
    var queues: Queues
    var eventCount: int
    var eventCountActive: int
    var eventCountMax: int
    var eventCountActiveMax: int
    var nDeferredsQueued: nat

    /** The callbacks of this base, and their flags. */
    ghost var all: seq<Callback>
    ghost var snaps: seq<Snap>

    /** Flags, queues and counters fit together. */
    ghost predicate Valid()
      reads this, set c: Callback | c in all
    {
      && Agree(all, snaps, queues)
      && (forall k | 0 <= k < |all| :: snaps[k] == all[k].Now())
      && eventCountActive == Total(queues.active) + |queues.later|
      && eventCount == Sum(snaps)
      && eventCount <= eventCountMax && eventCountActive <= eventCountActiveMax
    }

    constructor (npriorities: nat)
      ensures Valid() && all == [] && queues == Queues(Empties(npriorities), [], {})
      ensures eventCount == eventCountActive == 0
    {
      queues := Queues(Empties(npriorities), [], {});
      eventCount, eventCountActive, eventCountMax, eventCountActiveMax, nDeferredsQueued := 0, 0, 0, 0, 0;
      all, snaps := [], [];
      NothingQueued<Callback>(npriorities);
    }

    /** A new callback of this base, in no queue yet. */
    method Assign(c: Callback)
      requires Valid() && c !in all && c.pri < |queues.active|
      requires !c.timeout && !c.inserted && !c.active && !c.activeLater
      modifies this`all, this`snaps
      ensures Valid() && all == old(all) + [c]
    {
      hide Total, Sum, Agree;
      CallbackAdded(all, snaps, queues, c, c.Now());
      all, snaps := all + [c], snaps + [c.Now()];
    }

    /** INCR_EVENT_COUNT. */
    method IncrCount(c: Callback)
      modifies this`eventCount, this`eventCountMax
      ensures eventCount == old(eventCount) + c.Unit()
      ensures eventCountMax == if eventCount > old(eventCountMax) then eventCount else old(eventCountMax)
    {
      eventCount := eventCount + c.Unit();
      if eventCount > eventCountMax {
        eventCountMax := eventCount;
      }
    }

    method IncrActive()
      modifies this`eventCountActive, this`eventCountActiveMax
      ensures eventCountActive == old(eventCountActive) + 1
      ensures eventCountActiveMax == if eventCountActive > old(eventCountActiveMax) then eventCountActive
        else old(eventCountActiveMax)
    {
      eventCountActive := eventCountActive + 1;
      if eventCountActive > eventCountActiveMax {
        eventCountActiveMax := eventCountActive;
      }
    }

    /** event_queue_insert_active: behind the others of its priority; a second insertion does nothing. */
    method InsertActive(c: Callback)
      requires Valid() && c in all && !c.activeLater
      modifies this`queues, this`eventCount, this`eventCountMax, this`eventCountActive, this`eventCountActiveMax,
        this`snaps, c`active
      ensures Valid() && c.active
      ensures queues == if old(c.active) then old(queues)
                        else old(queues.(active := queues.active[c.pri := queues.active[c.pri] + [c]]))
      ensures eventCount == old(eventCount) + if old(c.active) then 0 else c.Unit()
      ensures eventCountMax == if eventCount > old(eventCountMax) then eventCount else old(eventCountMax)
      ensures eventCountActiveMax == if eventCountActive > old(eventCountActiveMax) then eventCountActive
        else old(eventCountActiveMax)
    {
      hide Total, Sum, Agree;
      if c.active {
        return;
      }
      ghost var k := IndexOf(all, c);
      Listed(k);
      ActiveAdded(all, snaps, queues, k);
      IncrCount(c);
      c.active := true;
      IncrActive();
      queues := queues.(active := queues.active[c.pri := queues.active[c.pri] + [c]]);
      snaps := snaps[k := c.Now()];
    }

    /** Callback 'k' is listed once, and its priority has a queue. */
    lemma Listed(k: nat)
      requires Valid() && k < |all|
      ensures |snaps| == |all| && (forall m | 0 <= m < |all| && m != k :: all[m] != all[k])
      ensures all[k].pri < |queues.active| && !(all[k].active && all[k].activeLater)
    {
      forall m | 0 <= m < |all| && m != k ensures all[m] != all[k] {
        assert all[if m < k then m else k] != all[if m < k then k else m];
      }
    }

    /** event_queue_remove_active. */
    method RemoveActive(c: Callback)
      requires Valid() && c in all && c.active
      modifies this`queues, this`eventCount, this`eventCountActive, this`snaps, c`active
      ensures Valid() && !c.active
      ensures queues == old(queues.(active := queues.active[c.pri := Without(queues.active[c.pri], c)]))
      ensures eventCount == old(eventCount) - c.Unit()
    {
      hide Total, Sum, Agree, Without;
      ghost var k := IndexOf(all, c);
      Listed(k);
      ActiveRemoved(all, snaps, queues, k);
      eventCount := eventCount - c.Unit();
      c.active := false;
      eventCountActive := eventCountActive - 1;
      queues := queues.(active := queues.active[c.pri := Without(queues.active[c.pri], c)]);
      snaps := snaps[k := c.Now()];
    }

    /** event_queue_insert_active_later. */
    method InsertActiveLater(c: Callback)
      requires Valid() && c in all
      modifies this`queues, this`eventCount, this`eventCountMax, this`eventCountActive, this`eventCountActiveMax,
        this`snaps, c`activeLater
      ensures Valid()
      ensures if old(c.active || c.activeLater) then
                queues == old(queues) && c.activeLater == old(c.activeLater) && eventCount == old(eventCount)
              else
                queues == old(queues).(later := old(queues).later + [c]) && c.activeLater
                  && eventCount == old(eventCount) + c.Unit()
      ensures eventCountMax == if eventCount > old(eventCountMax) then eventCount else old(eventCountMax)
      ensures eventCountActiveMax == if eventCountActive > old(eventCountActiveMax) then eventCountActive
        else old(eventCountActiveMax)
    {
      hide Total, Sum, Agree;
      if c.activeLater || c.active {
        return;
      }
      ghost var k := IndexOf(all, c);
      Listed(k);
      LaterAdded(all, snaps, queues, k);
      IncrCount(c);
      c.activeLater := true;
      IncrActive();
      queues := queues.(later := queues.later + [c]);
      snaps := snaps[k := c.Now()];
    }

    /** event_queue_remove_active_later. */
    method RemoveActiveLater(c: Callback)
      requires Valid() && c in all && c.activeLater
      modifies this`queues, this`eventCount, this`eventCountActive, this`snaps, c`activeLater
      ensures Valid() && !c.activeLater && queues == old(queues).(later := Without(old(queues).later, c))
      ensures eventCount == old(eventCount) - c.Unit()
    {
      hide Total, Sum, Agree, Without;
      ghost var k := IndexOf(all, c);
      Listed(k);
      LaterRemoved(all, snaps, queues, k);
      eventCount := eventCount - c.Unit();
      c.activeLater := false;
      eventCountActive := eventCountActive - 1;
      queues := queues.(later := Without(queues.later, c));
      snaps := snaps[k := c.Now()];
    }

    /** event_queue_insert_timeout and event_queue_remove_timeout. */
    method InsertTimeout(c: Callback)
      requires Valid() && c in all && !c.timeout
      modifies this`queues, this`eventCount, this`eventCountMax, this`snaps, c`timeout
      ensures Valid() && c.timeout && queues == old(queues).(timeouts := old(queues).timeouts + {c})
      ensures eventCount == old(eventCount) + c.Unit()
      ensures eventCountMax == if eventCount > old(eventCountMax) then eventCount else old(eventCountMax)
    {
      hide Total, Sum, Agree;
      ghost var k := IndexOf(all, c);
      Listed(k);
      TimeoutSet(all, snaps, queues, k, true);
      IncrCount(c);
      c.timeout := true;
      queues := queues.(timeouts := queues.timeouts + {c});
      snaps := snaps[k := c.Now()];
    }

    method RemoveTimeout(c: Callback)
      requires Valid() && c in all && c.timeout
      modifies this`queues, this`eventCount, this`snaps, c`timeout
      ensures Valid() && !c.timeout && queues == old(queues).(timeouts := old(queues).timeouts - {c})
      ensures eventCount == old(eventCount) - c.Unit()
    {
      hide Total, Sum, Agree;
      ghost var k := IndexOf(all, c);
      Listed(k);
      TimeoutSet(all, snaps, queues, k, false);
      eventCount := eventCount - c.Unit();
      c.timeout := false;
      queues := queues.(timeouts := queues.timeouts - {c});
      snaps := snaps[k := c.Now()];
    }

    /** event_queue_insert_inserted and event_queue_remove_inserted. */
    method InsertInserted(c: Callback)
      requires Valid() && c in all && !c.inserted
      modifies this`eventCount, this`eventCountMax, this`snaps, c`inserted
      ensures Valid() && c.inserted && eventCount == old(eventCount) + c.Unit()
      ensures eventCountMax == if eventCount > old(eventCountMax) then eventCount else old(eventCountMax)
    {
      hide Total, Sum, Agree;
      ghost var k := IndexOf(all, c);
      Listed(k);
      InsertedSet(all, snaps, queues, k, true);
      IncrCount(c);
      c.inserted := true;
      snaps := snaps[k := c.Now()];
    }

    method RemoveInserted(c: Callback)
      requires Valid() && c in all && c.inserted
      modifies this`eventCount, this`snaps, c`inserted
      ensures Valid() && !c.inserted && eventCount == old(eventCount) - c.Unit()
    {
      hide Total, Sum, Agree;
      ghost var k := IndexOf(all, c);
      Listed(k);
      InsertedSet(all, snaps, queues, k, false);
      eventCount := eventCount - c.Unit();
      c.inserted := false;
      snaps := snaps[k := c.Now()];
    }

    /** event_callback_activate_nolock_. */
    method Activate(c: Callback) returns (r: int)
      requires Valid() && c in all
      modifies this`queues, this`eventCount, this`eventCountMax, this`eventCountActive, this`eventCountActiveMax,
        this`snaps
      modifies c`active, c`activeLater
      ensures Valid()
      ensures c.finalizing || old(c.active)
        ==> r == 0 && queues == old(queues) && c.active == old(c.active) && c.activeLater == old(c.activeLater)
      ensures !c.finalizing && !old(c.active)
        ==> r == (if old(c.activeLater) then 0 else 1) && c.active && !c.activeLater
            && queues.active == old(queues.active[c.pri := queues.active[c.pri] + [c]])
            && queues.later == (if old(c.activeLater) then Without(old(queues.later), c) else old(queues.later))
            && queues.timeouts == old(queues.timeouts)
      ensures eventCount
           == old(eventCount) + if c.finalizing || old(c.active) || old(c.activeLater) then 0 else c.Unit()
      ensures eventCountMax == if eventCount > old(eventCountMax) then eventCount else old(eventCountMax)
      ensures eventCountActiveMax == if eventCountActive > old(eventCountActiveMax) then eventCountActive
        else old(eventCountActiveMax)
    {
      hide Total, Sum, Agree, Without;
      Listed(IndexOf(all, c));
      r := 1;
      if c.finalizing {
        return 0;
      }
      if c.activeLater {
        RemoveActiveLater(c);
        r := 0;
      } else if c.active {
        return 0;
      }
      InsertActive(c);
    }

    /** event_callback_activate_later_nolock_. */
    method ActivateLater(c: Callback) returns (r: int)
      requires Valid() && c in all
      modifies this`queues, this`eventCount, this`eventCountMax, this`eventCountActive, this`eventCountActiveMax,
        this`snaps, c`activeLater
      ensures Valid() && r == if old(c.active || c.activeLater) then 0 else 1
      ensures queues == if r == 0 then old(queues) else old(queues).(later := old(queues).later + [c])
      ensures c.activeLater == (old(c.activeLater) || r == 1)
      ensures eventCount == old(eventCount) + if r == 1 then c.Unit() else 0
      ensures eventCountMax == if eventCount > old(eventCountMax) then eventCount else old(eventCountMax)
      ensures eventCountActiveMax == if eventCountActive > old(eventCountActiveMax) then eventCountActive
        else old(eventCountActiveMax)
    {
      if c.active || c.activeLater {
        return 0;
      }
      InsertActiveLater(c);
      return 1;
    }

    /** event_del_nolock_, as far as the queues go: the event is in none of them any more. */
    method Del(c: Callback, evenIfFinalizing: bool)
      requires Valid() && c in all
      modifies this`queues, this`eventCount, this`eventCountActive, this`snaps
      modifies c`timeout, c`active, c`activeLater, c`inserted
      ensures Valid()
      ensures c.finalizing && !evenIfFinalizing
        ==> queues == old(queues) && eventCount == old(eventCount) && c.Now() == old(c.Now())
      ensures !c.finalizing || evenIfFinalizing ==>
        && !c.timeout && !c.active && !c.activeLater && !c.inserted
        && queues.timeouts == old(queues.timeouts) - {c}
        && queues.active == (if old(c.active) then old(queues.active[c.pri := Without(queues.active[c.pri], c)])
                             else old(queues.active))
        && queues.later == (if old(c.activeLater) then Without(old(queues.later), c) else old(queues.later))
        && eventCount == old(eventCount - c.Now().Weight())
    {
      hide Total, Sum, Agree, Without, EventBase.Valid;
      if !evenIfFinalizing && c.finalizing {
        return;
      }
      ghost var k := IndexOf(all, c);
      Listed(k);
      NotTimed(k);
      if c.timeout {
        RemoveTimeout(c);
      }
      if c.active {
        RemoveActive(c);
      } else if c.activeLater {
        RemoveActiveLater(c);
      }
      if c.inserted {
        RemoveInserted(c);
      }
    }

    lemma NotTimed(k: nat)
      requires Valid() && k < |all|
      ensures !all[k].timeout ==> queues.timeouts - {all[k]} == queues.timeouts
    {
    }

    /** event_callback_cancel_nolock_. */
    method Cancel(c: Callback, evenIfFinalizing: bool)
      requires Valid() && c in all
      modifies this`queues, this`eventCount, this`eventCountActive, this`snaps
      modifies c`timeout, c`active, c`activeLater, c`inserted
      ensures Valid()
      ensures c.finalizing && !evenIfFinalizing
        ==> queues == old(queues) && eventCount == old(eventCount) && c.Now() == old(c.Now())
      ensures !c.finalizing || evenIfFinalizing ==>
        && !c.active && !c.activeLater && (c.isEvent ==> !c.timeout && !c.inserted)
        && queues.timeouts == (if c.isEvent then old(queues.timeouts) - {c} else old(queues.timeouts))
        && queues.active == (if old(c.active) then old(queues.active[c.pri := Without(queues.active[c.pri], c)])
                             else old(queues.active))
        && queues.later == (if old(c.activeLater) then Without(old(queues).later, c) else old(queues.later))
        && eventCount == old(eventCount) - (if c.isEvent then old(c.Now().Weight())
                                            else if old(c.active || c.activeLater) then c.Unit() else 0)
      ensures !c.isEvent ==> c.timeout == old(c.timeout) && c.inserted == old(c.inserted)
    {
      hide Total, Sum, Agree, Without;
      if c.finalizing && !evenIfFinalizing {
        return;
      }
      if c.isEvent {
        Del(c, evenIfFinalizing);
        return;
      }
      ghost var k := IndexOf(all, c);
      Listed(k);
      if c.active {
        RemoveActive(c);
      } else if c.activeLater {
        RemoveActiveLater(c);
      }
    }

    /** event_priority_set. */
    method SetPriority(c: Callback, pri: int) returns (r: int)
      requires Valid() && c in all
      modifies this`snaps, c`pri
      ensures Valid() && r == if c.active || pri < 0 || pri >= |queues.active| then -1 else 0
      ensures c.pri == if r == 0 then pri else old(c.pri)
    {
      hide Total, Sum, Agree;
      if c.active {
        return -1;
      }
      if pri < 0 || pri >= |queues.active| {
        return -1;
      }
      ghost var k := IndexOf(all, c);
      Listed(k);
      PrioritySet(all, snaps, queues, k, pri);
      c.pri := pri;
      snaps := snaps[k := c.Now()];
      return 0;
    }

    /** The first callback of the later queue goes to the active queue of its priority; the counts stay. */
    method MoveFirst(c: Callback)
      requires Valid() && queues.later != [] && c == queues.later[0]
      modifies this`queues, this`snaps, this`nDeferredsQueued, c`active, c`activeLater
      ensures Valid() && c in all && c.active && !c.activeLater && queues.later == old(queues).later[1..]
      ensures c.pri < |old(queues).active| && queues.timeouts == old(queues).timeouts
      ensures queues.active == old(queues.active[c.pri := queues.active[c.pri] + [c]])
      ensures nDeferredsQueued == old(nDeferredsQueued) + if c.isDeferred then 1 else 0
    {
      hide Total, Sum, Agree, Without;
      FirstLater(c);
      ghost var k := IndexOf(all, c);
      Listed(k);
      LaterRemoved(all, snaps, queues, k);
      FrontRemoved(queues.later);
      ghost var ss, q := snaps[k := snaps[k].(activeLater := false)], queues.(later := queues.later[1..]);
      ActiveAdded(all, ss, q, k);
      assert ss[k := ss[k].(active := true)] == snaps[k := snaps[k].(activeLater := false, active := true)];
      queues := queues.(later := queues.later[1..]);
      c.activeLater, c.active := false, true;
      queues := queues.(active := queues.active[c.pri := queues.active[c.pri] + [c]]);
      nDeferredsQueued := nDeferredsQueued + if c.isDeferred then 1 else 0;
      snaps := snaps[k := c.Now()];
    }

    lemma FirstLater(c: Callback)
      requires Valid() && queues.later != [] && c == queues.later[0]
      ensures c in all && c.activeLater && !c.active && c.pri < |queues.active|
    {
      assert c in queues.later;
      var k := IndexOf(all, c);
      assert snaps[k] == c.Now();
    }

    /** event_queue_make_later_events_active: each goes behind the others of its priority, in order. */
    method MakeLaterActive()
      requires Valid()
      modifies this`queues, this`snaps, this`nDeferredsQueued, (set c: Callback | c in all)`active,
        (set c: Callback | c in all)`activeLater
      ensures Valid() && all == old(all) && queues.later == [] && queues.timeouts == old(queues.timeouts)
      ensures forall c | c in all :: !c.activeLater && c.active == old(c.active || c.activeLater)
      ensures |queues.active| == |old(queues.active)|
      ensures forall i | 0 <= i < |queues.active| ::
        queues.active[i] == old(queues.active)[i] + AtPriority(old(queues.later), i)
      ensures nDeferredsQueued == old(nDeferredsQueued) + Deferreds(old(queues.later))
    {
      hide Total, Sum, Agree, Without, AtPriority;
      Marked();
      while queues.later != []
        invariant Valid() && all == old(all) && queues.timeouts == old(queues.timeouts)
        invariant forall c | c in all :: (c.active || c.activeLater) == old(c.active || c.activeLater)
        invariant |queues.active| == |old(queues.active)|
        invariant forall i | 0 <= i < |queues.active| ::
          queues.active[i] + AtPriority(queues.later, i) == old(queues.active)[i] + AtPriority(old(queues.later), i)
        invariant nDeferredsQueued + Deferreds(queues.later) == old(nDeferredsQueued) + Deferreds(old(queues.later))
        decreases |queues.later|
      {
        FirstLater(queues.later[0]);
        MoveKeeps(queues.active, queues.later);
        MoveFirst(queues.later[0]);
      }
      NoneLeft();
      Marked();
    }

    lemma Marked()
      requires Valid()
      ensures forall c | c in all :: c.activeLater ==> queues.later != []
      ensures forall c | c in all :: !(c.active && c.activeLater)
    {
      forall c | c in all ensures (c.activeLater ==> queues.later != []) && !(c.active && c.activeLater) {
        var k := IndexOf(all, c);
        assert snaps[k] == c.Now();
      }
    }

    /** What event_base_assert_ok_nolock_ asserts about these queues. */
    ghost predicate QueuesOk()
      reads this
      reads set i, m | 0 <= i < |queues.active| && 0 <= m < |queues.active[i]| :: queues.active[i][m]
      reads set c: Callback | c in queues.later
    {
      && (forall i, m | 0 <= i < |queues.active| && 0 <= m < |queues.active[i]| :: ActiveOk(i, m))
      && (forall m | 0 <= m < |queues.later| :: queues.later[m].activeLater && !queues.later[m].active)
      && eventCountActive == Total(queues.active) + |queues.later|
    }

    ghost predicate ActiveOk(i: nat, m: nat)
      requires i < |queues.active| && m < |queues.active[i]|
      reads this, queues.active[i][m]
    {
      var c := queues.active[i][m];
      c.active && !c.activeLater && c.pri == i
    }

    /** No assertion fails in a valid base. */
    lemma ValidIsOk()
      requires Valid()
      ensures QueuesOk()
    {
      hide Agree, Total, Sum;
      forall i, m | 0 <= i < |queues.active| && 0 <= m < |queues.active[i]| ensures ActiveOk(i, m) {
        InQueue(i, m);
      }
      forall m | 0 <= m < |queues.later| ensures queues.later[m].activeLater && !queues.later[m].active {
        InLater(m);
      }
    }

    /** The part of event_base_assert_ok_nolock_ about these queues: whether every assertion holds. */
    method AssertOk() returns (ok: bool)
      ensures ok <==> QueuesOk()
    {
      ok := true;
      var count := 0;
      for i := 0 to |queues.active|
        invariant ok <==> forall h, m | 0 <= h < i && 0 <= m < |queues.active[h]| :: ActiveOk(h, m)
        invariant count == Total(queues.active[..i])
      {
        TotalSnoc(queues.active, i);
        for m := 0 to |queues.active[i]|
          invariant ok <==> (forall h, n | 0 <= h < i && 0 <= n < |queues.active[h]| :: ActiveOk(h, n))
                            && forall n | 0 <= n < m :: ActiveOk(i, n)
          invariant count == Total(queues.active[..i]) + m
        {
          var c := queues.active[i][m];
          assert ActiveOk(i, m) <==> c.active && !c.activeLater && c.pri == i;
          ok := ok && c.active && !c.activeLater && c.pri == i;
          count := count + 1;
        }
      }
      assert queues.active[..|queues.active|] == queues.active;
      ghost var sofar := ok;
      for m := 0 to |queues.later|
        invariant ok <==> sofar && forall n | 0 <= n < m :: queues.later[n].activeLater && !queues.later[n].active
        invariant count == Total(queues.active) + m
      {
        var c := queues.later[m];
        ok := ok && c.activeLater && !c.active;
        count := count + 1;
      }
      ok := ok && count == eventCountActive;
    }

    lemma InQueue(i: nat, m: nat)
      requires Valid() && i < |queues.active| && m < |queues.active[i]|
      ensures var c := queues.active[i][m]; c in all && c.active && !c.activeLater && c.pri == i
    {
      var c := queues.active[i][m];
      assert c in queues.active[i];
      var k :| 0 <= k < |all| && all[k] == c && snaps[k].pri == i;
      assert snaps[k] == c.Now();
    }

    lemma InLater(m: nat)
      requires Valid() && m < |queues.later|
      ensures var c := queues.later[m]; c in all && c.activeLater && !c.active
    {
      var c := queues.later[m];
      assert c in queues.later;
      var k := IndexOf(all, c);
      assert snaps[k] == c.Now();
    }
  }
}
