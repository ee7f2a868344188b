/** What token buckets let through over whole runs, with a tick counter that wraps. */
module RateRuns {
  import opened Bytes
  import opened RateLimit
  import opened Options

  function Max(a: int, b: int): int {
    if a < b then b else a
  }

  /** The limit and the time of the last update, once 'now' has been seen; times do not wrap here. */
  function Advanced(limit: int, mark: int, maximum: nat, rate: nat, now: int): (int, int) {
    var n := Ticks(Wrap(now, UINT32), Wrap(mark, UINT32));
    if n == 0 then (limit, mark) else (AddTokens(limit, maximum, rate, n), now)
  }

  /** The wrapped counters measure true distances up to INT_MAX, and never more than the true distance. */
  lemma TicksTrue(now: int, mark: int)
    ensures mark <= now ==> Ticks(Wrap(now, UINT32), Wrap(mark, UINT32)) <= now - mark
    ensures mark <= now <= mark + INT_MAX ==> Ticks(Wrap(now, UINT32), Wrap(mark, UINT32)) == now - mark
    ensures mark - INT_MAX <= now <= mark ==> Ticks(Wrap(now, UINT32), Wrap(mark, UINT32)) == 0
  {
    var a, b := now / UINT32, mark / UINT32;
    assert now == a * UINT32 + Wrap(now, UINT32) && mark == b * UINT32 + Wrap(mark, UINT32);
    SameRemainder(Wrap(now, UINT32) - Wrap(mark, UINT32), a - b);
    var k := Wrap(now - mark, UINT32);
    assert Wrap(Wrap(now, UINT32) - Wrap(mark, UINT32), UINT32) == k;
  }

  lemma SameRemainder(x: int, k: int)
    ensures Wrap(x + k * UINT32, UINT32) == Wrap(x, UINT32)
  {
    var q := x / UINT32;
    assert x + k * UINT32 == (q + k) * UINT32 + Wrap(x, UINT32);
  }

  /** Time adds no more than 'rate' a tick, never fills beyond the maximum, and never takes away. */
  lemma AdvancedBound(limit: int, mark: int, maximum: nat, rate: nat, now: int)
    requires 1 <= rate <= maximum <= SSIZE_MAX && -SSIZE_MAX - 1 <= limit <= maximum && mark - INT_MAX <= now
    ensures var (l, m) := Advanced(limit, mark, maximum, rate, now);
            && mark <= m && limit <= l <= maximum && l <= limit + rate * (m - mark)
            && (mark <= now <= mark + INT_MAX ==> m == now && l == Min(maximum, limit + rate * (now - mark)))
  {
    TicksTrue(now, mark);
    var n := Ticks(Wrap(now, UINT32), Wrap(mark, UINT32));
    if n > 0 {
      AddTokensExact(limit, maximum, rate, n);
      assert n * rate >= 0;
      MulMonotone(rate, n, now - mark);
      assert rate * n == n * rate;
    } else if mark <= now <= mark + INT_MAX {
      assert now == mark && rate * (now - mark) == 0;
    }
  }

  /* ------------------------------ One bufferevent's own bucket ------------------------------ */

  /** A read or write of 'bytes' bytes at time 'now', after bufferevent_get_rlim_max_ has allowed it. */
  datatype Use = Use(now: int, bytes: nat)

  ghost function Used(uses: seq<Use>): nat {
    if uses == [] then 0 else uses[0].bytes + Used(uses[1..])
  }

  /** The uses lead from one limit and time to another; the clock never falls back by more than INT_MAX ticks. */
  ghost predicate OwnRun(cfg: Cfg, w: bool, limit: int, mark: int, uses: seq<Use>, limit': int, mark': int)
    decreases |uses|
  {
    if uses == [] then limit' == limit && mark' == mark
    else
      var u := uses[0];
      var (l, m) := Advanced(limit, mark, cfg.maximum.Of(w), cfg.rate.Of(w), u.now);
      mark - INT_MAX <= u.now && u.bytes <= Max(0, l) && OwnRun(cfg, w, l - u.bytes, m, uses[1..], limit', mark')
  }

  /** Over any run the bytes let through are at most what the bucket held and what time added. */
  lemma {:induction false} OwnBound(cfg: Cfg, w: bool, limit: int, mark: int, uses: seq<Use>, limit': int, mark': int)
    requires Accepted(cfg) && 0 <= limit <= cfg.maximum.Of(w) && OwnRun(cfg, w, limit, mark, uses, limit', mark')
    ensures 0 <= limit' <= cfg.maximum.Of(w) && mark <= mark'
    ensures Used(uses) <= limit + cfg.rate.Of(w) * (mark' - mark) - limit'
    decreases |uses|
  {
    hide Advanced;
    if uses != [] {
      var (l, m) := Advanced(limit, mark, cfg.maximum.Of(w), cfg.rate.Of(w), uses[0].now);
      AdvancedBound(limit, mark, cfg.maximum.Of(w), cfg.rate.Of(w), uses[0].now);
      OwnBound(cfg, w, l - uses[0].bytes, m, uses[1..], limit', mark');
      Distribute(cfg.rate.Of(w), mark' - m, m - mark);
    }
  }

  lemma Distribute(a: int, b: int, c: int)
    ensures a * (b + c) == a * b + a * c
  {
  }

  /** The bound is attained: one use may take all that the bucket holds and time has added. */
  lemma OwnSharp(cfg: Cfg, w: bool, limit: int, mark: int, now: int)
    requires Accepted(cfg) && 0 <= limit <= cfg.maximum.Of(w) && mark <= now <= mark + INT_MAX
    ensures var all := Min(cfg.maximum.Of(w), limit + cfg.rate.Of(w) * (now - mark));
            all >= 0 && OwnRun(cfg, w, limit, mark, [Use(now, all)], 0, now) && Used([Use(now, all)]) == all
  {
    hide Advanced;
    AdvancedBound(limit, mark, cfg.maximum.Of(w), cfg.rate.Of(w), now);
    var all := Min(cfg.maximum.Of(w), limit + cfg.rate.Of(w) * (now - mark));
    var uses := [Use(now, all)];
    assert uses[1..] == [];
  }

  /* ---------------------------------------- Groups ---------------------------------------- */

  /** The refill timer at time 'now', or a transfer by one of 'n' members. */
  datatype Event = Timer(now: int, busy: bool) | Transfer(n: nat, bytes: nat, busy: bool)

  ghost function Moved(events: seq<Event>): nat {
    if events == [] then 0 else (if events[0].Transfer? then events[0].bytes else 0) + Moved(events[1..])
  }

  ghost predicate GroupRun(cfg: Cfg, w: bool, minShare: nat, f: Flow, mark: int, events: seq<Event>, f': Flow,
                           mark': int)
    decreases |events|
  {
    if events == [] then f' == f && mark' == mark
    else
      match events[0]
      case Timer(now, busy) =>
        var (l, m) := Advanced(f.limit, mark, cfg.maximum.Of(w), cfg.rate.Of(w), now);
        mark - INT_MAX <= now && GroupRun(cfg, w, minShare, Refilled(f, l, minShare, busy), m, events[1..], f', mark')
      case Transfer(n, bytes, busy) =>
        && n > 0 && bytes <= Max(0, Share(f.limit, f.suspended, minShare, n))
        && GroupRun(cfg, w, minShare, Charged(f, bytes, busy), mark, events[1..], f', mark')
  }

  /** How far one transfer can overdraw the group's bucket. */
  function Overdraft(minShare: nat): nat {
    if minShare == 0 then 0 else minShare - 1
  }

  /** A group that lets its members go has bytes left, and is overdrawn by less than one minimum share. */
  ghost predicate Solvent(f: Flow, maximum: nat, minShare: nat) {
    && 0 <= f.limit + Overdraft(minShare) && f.limit <= maximum
    && (!f.suspended ==> Min(1, minShare) <= f.limit)
    && (f.pending ==> !f.suspended)
  }

  lemma ShareAffordable(f: Flow, maximum: nat, minShare: nat, n: nat, bytes: nat, busy: bool)
    requires Solvent(f, maximum, minShare) && n > 0 && bytes <= Max(0, Share(f.limit, f.suspended, minShare, n))
    ensures Solvent(Charged(f, bytes, busy), maximum, minShare) && Charged(f, bytes, busy).limit == f.limit - bytes
  {
    if !f.suspended {
      DivLess(f.limit, n, f.limit + 1);
      MulMonotone(f.limit + 1, 1, n);
      assert TruncDiv(f.limit, n) <= f.limit;
    }
  }

  /** Over any run a group lets through at most what its bucket held, what time added, and one overdraft. */
  lemma {:induction false} GroupBound(cfg: Cfg, w: bool, minShare: nat, f: Flow, mark: int, events: seq<Event>,
                                      f': Flow, mark': int)
    requires Accepted(cfg) && minShare <= SSIZE_MAX && Solvent(f, cfg.maximum.Of(w), minShare)
    requires GroupRun(cfg, w, minShare, f, mark, events, f', mark')
    ensures Solvent(f', cfg.maximum.Of(w), minShare) && mark <= mark'
    ensures Moved(events) <= f.limit + cfg.rate.Of(w) * (mark' - mark) - f'.limit
    ensures Moved(events) <= cfg.maximum.Of(w) + cfg.rate.Of(w) * (mark' - mark) + Overdraft(minShare)
    decreases |events|
  {
    hide Advanced, Charged;
    if events != [] {
      match events[0] {
        case Timer(now, busy) =>
          var (l, m) := Advanced(f.limit, mark, cfg.maximum.Of(w), cfg.rate.Of(w), now);
          AdvancedBound(f.limit, mark, cfg.maximum.Of(w), cfg.rate.Of(w), now);
          GroupBound(cfg, w, minShare, Refilled(f, l, minShare, busy), m, events[1..], f', mark');
          Distribute(cfg.rate.Of(w), mark' - m, m - mark);
        case Transfer(n, bytes, busy) =>
          ShareAffordable(f, cfg.maximum.Of(w), minShare, n, bytes, busy);
          GroupBound(cfg, w, minShare, Charged(f, bytes, busy), mark, events[1..], f', mark');
      }
    }
  }

  /** This bound is attained as well, overdraft included, by two transfers of one member. */
  lemma GroupSharp(cfg: Cfg, w: bool, minShare: nat, mark: int, busy: bool)
    requires Accepted(cfg) && 1 <= minShare
    ensures var maximum := cfg.maximum.Of(w); var f := Flow(maximum, false, false);
            var events := [Transfer(1, maximum - 1, busy), Transfer(1, minShare, busy)];
            && Solvent(f, maximum, minShare)
            && GroupRun(cfg, w, minShare, f, mark, events, Flow(1 - minShare, true, false), mark)
            && Moved(events) == maximum + Overdraft(minShare)
  {
    var maximum := cfg.maximum.Of(w);
    var f := Flow(maximum, false, false);
    var events := [Transfer(1, maximum - 1, busy), Transfer(1, minShare, busy)];
    assert events[1..] == [Transfer(1, minShare, busy)] && events[1..][1..] == [];
    assert Charged(f, maximum - 1, busy) == Flow(1, false, false);
    assert Moved(events[1..]) == minShare + Moved([]);
  }

  /** No starvation: two timer ticks at most, and a suspended group lets its members go. */
  lemma SuspendedTwoTicks(cfg: Cfg, w: bool, minShare: nat, f: Flow, mark: int, now: int, busy: bool, later: int,
                          busy': bool)
    requires Accepted(cfg) && minShare <= cfg.rate.Of(w) && Solvent(f, cfg.maximum.Of(w), minShare)
    requires mark < now <= mark + INT_MAX && now < later <= now + INT_MAX
    ensures var (l, m) := Advanced(f.limit, mark, cfg.maximum.Of(w), cfg.rate.Of(w), now);
            var g := Refilled(f, l, minShare, busy);
            var (l', _) := Advanced(g.limit, m, cfg.maximum.Of(w), cfg.rate.Of(w), later);
            !Refilled(g, l', minShare, busy').suspended
  {
    hide Advanced;
    var maximum, rate := cfg.maximum.Of(w), cfg.rate.Of(w);
    AdvancedBound(f.limit, mark, maximum, rate, now);
    var (l, m) := Advanced(f.limit, mark, maximum, rate, now);
    AdvancedBound(l, m, maximum, rate, later);
    MulMonotone(rate, 1, now - mark);
    MulMonotone(rate, 1, later - now);
  }

  /** A group's side after its timer has fired at time 'now'. */
  function Fired(cfg: Cfg, w: bool, minShare: nat, f: Flow, mark: int, now: int, busy: bool): Flow {
    Refilled(f, Advanced(f.limit, mark, cfg.maximum.Of(w), cfg.rate.Of(w), now).0, minShare, busy)
  }

  /** What RefillCallback does to one side, with times that do not wrap. */
  lemma FiredIs(cfg: Cfg, w: bool, minShare: nat, f: Flow, mark: int, now: int, busy: bool, limit: int)
    requires var n := Ticks(Wrap(now, UINT32), Wrap(mark, UINT32));
      limit == if n == 0 then f.limit else AddTokens(f.limit, cfg.maximum.Of(w), cfg.rate.Of(w), n)
    ensures Refilled(f, limit, minShare, busy) == Fired(cfg, w, minShare, f, mark, now, busy)
  {
    hide AddTokens, Ticks, Wrap;
  }

  /** A group in use: nobody is held up behind its back, and neither side is overdrawn by more than may be. */
  ghost predicate InUse(g: Group)
    reads g, g.bucket, (set m: Member | m in g.members)`suspendedGroup
  {
    && Accepted(g.cfg) && g.Distinct() && g.Settled()
    && forall w :: g.minShare <= g.cfg.rate.Of(w) && Solvent(g.FlowOf(w), g.cfg.maximum.Of(w), g.minShare)
  }

  /** Time, and being let go, keep a side solvent. */
  lemma FiredSolvent(cfg: Cfg, w: bool, minShare: nat, f: Flow, mark: int, now: int, busy: bool)
    requires Accepted(cfg) && Solvent(f, cfg.maximum.Of(w), minShare) && minShare <= SSIZE_MAX
    requires mark <= now
    ensures Solvent(Fired(cfg, w, minShare, f, mark, now, busy), cfg.maximum.Of(w), minShare)
  {
    hide Advanced;
    AdvancedBound(f.limit, mark, cfg.maximum.Of(w), cfg.rate.Of(w), now);
  }

  /**
   * The refill timer of a group at time 'now'. Where the group is not suspended any more, no member
   * that can be locked is held up by it.
   */
  method Fire(g: Group, mark: int, now: int, busy: set<Member>, first: nat)
    requires InUse(g) && (g.members != [] ==> first < |g.members|) && g.bucket.lastUpdated == Wrap(mark, UINT32)
    requires mark < now <= mark + INT_MAX
    modifies g.bucket, g`suspended, g`pendingUnsuspend, (set m: Member | m in g.members)`suspendedGroup
    ensures InUse(g) && g.bucket.lastUpdated == Wrap(now, UINT32)
    ensures forall w ::
      g.FlowOf(w) == Fired(g.cfg, w, g.minShare, old(g.FlowOf(w)), mark, now, exists m :: m in g.members && m in busy)
    ensures forall m, w | m in g.members && m !in busy && !g.suspended.Of(w) :: !m.suspendedGroup.Of(w)
  {
    hide Advanced, AddTokens, Ticks, Wrap, Refilled, Fired, Solvent;
    ghost var f, t := g.FlowOf(false), g.FlowOf(true);
    ghost var some := exists m :: m in g.members && m in busy;
    TicksTrue(now, mark);
    g.RefillCallback(Wrap(now, UINT32), busy, first);
    OneSide(g, false, f, mark, now, some);
    OneSide(g, true, t, mark, now, some);
  }

  lemma OneSide(g: Group, w: bool, f: Flow, mark: int, now: int, busy: bool)
    requires Accepted(g.cfg) && g.minShare <= g.cfg.rate.Of(w) && Solvent(f, g.cfg.maximum.Of(w), g.minShare)
    requires mark <= now
    requires var n := Ticks(Wrap(now, UINT32), Wrap(mark, UINT32));
      var limit := if n == 0 then f.limit else AddTokens(f.limit, g.cfg.maximum.Of(w), g.cfg.rate.Of(w), n);
      g.FlowOf(w) == Refilled(f, limit, g.minShare, busy)
    ensures g.FlowOf(w) == Fired(g.cfg, w, g.minShare, f, mark, now, busy)
    ensures Solvent(g.FlowOf(w), g.cfg.maximum.Of(w), g.minShare)
  {
    hide AddTokens, Ticks, Wrap, Refilled, Fired, Solvent;
    var n := Ticks(Wrap(now, UINT32), Wrap(mark, UINT32));
    var limit := if n == 0 then f.limit else AddTokens(f.limit, g.cfg.maximum.Of(w), g.cfg.rate.Of(w), n);
    FiredIs(g.cfg, w, g.minShare, f, mark, now, busy, limit);
    FiredSolvent(g.cfg, w, g.minShare, f, mark, now, busy);
  }

  /** The same for the members: the second timer tick lets every one go that can be locked then. */
  method TwoTicks(g: Group, mark: int, now: int, busy: set<Member>, later: int, busy': set<Member>, first: nat)
    requires InUse(g) && (g.members != [] ==> first < |g.members|) && g.bucket.lastUpdated == Wrap(mark, UINT32)
    requires mark < now <= mark + INT_MAX && now < later <= now + INT_MAX
    modifies g.bucket, g`suspended, g`pendingUnsuspend, (set m: Member | m in g.members)`suspendedGroup
    ensures forall w :: !g.suspended.Of(w)
    ensures forall m, w | m in g.members && m !in busy' :: !m.suspendedGroup.Of(w)
  {
    hide Advanced, AddTokens, Ticks, Wrap, Refilled, Fired, Solvent, InUse;
    ghost var f, t := g.FlowOf(false), g.FlowOf(true);
    Parts(g);
    Fire(g, mark, now, busy, first);
    Fire(g, now, later, busy', first);
    ghost var some, some' := exists m :: m in g.members && m in busy, exists m :: m in g.members && m in busy';
    SecondTick(g.cfg, false, g.minShare, f, mark, now, some, later, some');
    SecondTick(g.cfg, true, g.minShare, t, mark, now, some, later, some');
    assert g.suspended.Of(false) == g.FlowOf(false).suspended && g.suspended.Of(true) == g.FlowOf(true).suspended;
  }

  lemma Parts(g: Group)
    requires InUse(g)
    ensures Accepted(g.cfg) && forall w ::
      g.minShare <= g.cfg.rate.Of(w) && Solvent(g.FlowOf(w), g.cfg.maximum.Of(w), g.minShare)
  {
  }

  lemma SecondTick(cfg: Cfg, w: bool, minShare: nat, f: Flow, mark: int, now: int, busy: bool, later: int, busy': bool)
    requires Accepted(cfg) && minShare <= cfg.rate.Of(w) && Solvent(f, cfg.maximum.Of(w), minShare)
    requires mark < now <= mark + INT_MAX && now < later <= now + INT_MAX
    ensures !Fired(cfg, w, minShare, Fired(cfg, w, minShare, f, mark, now, busy), now, later, busy').suspended
  {
    hide Advanced;
    AdvancedBound(f.limit, mark, cfg.maximum.Of(w), cfg.rate.Of(w), now);
    SuspendedTwoTicks(cfg, w, minShare, f, mark, now, busy, later, busy');
  }
}
