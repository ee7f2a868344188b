/** Token buckets of single bufferevents and of groups of them. */
module RateLimit {
  import opened Bytes
  import opened Options

  const INT_MAX := 0x7fff_ffff
  const UINT32 := 0x1_0000_0000
  const UINT64 := 0x1_0000_0000_0000_0000

  /** The read and the write half of a pair of fields. */
  datatype Sides<T> = Sides(read: T, write: T) {
    function Of(isWrite: bool): T {
      if isWrite then write else read
    }

    function With(isWrite: bool, x: T): (s: Sides<T>)
      ensures s.Of(isWrite) == x && s.Of(!isWrite) == Of(!isWrite)
    {
      if isWrite then Sides(read, x) else Sides(x, write)
    }
  }

  /** struct ev_token_bucket_cfg. */
  datatype Cfg = Cfg(rate: Sides<nat>, maximum: Sides<nat>)

  /** What ev_token_bucket_cfg_new accepts. */
  predicate Accepted(cfg: Cfg) {
    && 1 <= cfg.rate.read <= cfg.maximum.read <= SSIZE_MAX
    && 1 <= cfg.rate.write <= cfg.maximum.write <= SSIZE_MAX
  }

  /** ev_token_bucket_cfg_new, when the memory is there. */
  method CfgNew(readRate: nat, readBurst: nat, writeRate: nat, writeBurst: nat) returns (cfg: Option<Cfg>)
    ensures var c := Cfg(Sides(readRate, writeRate), Sides(readBurst, writeBurst));
            cfg == if Accepted(c) then Some(c) else None
  {
    if readRate > readBurst || writeRate > writeBurst || readRate < 1 || writeRate < 1 {
      return None;
    }
    if readRate > SSIZE_MAX || writeRate > SSIZE_MAX || readBurst > SSIZE_MAX || writeBurst > SSIZE_MAX {
      return None;
    }
    return Some(Cfg(Sides(readRate, writeRate), Sides(readBurst, writeBurst)));
  }

  /** The low 'modulus' of a signed or unsigned difference, as unsigned arithmetic has it. */
  function Wrap(x: int, modulus: nat): (r: nat)
    requires modulus > 0
    ensures r < modulus
  {
    x % modulus
  }

  /** A size_t, stored in an ev_ssize_t. */
  function Signed(x: nat): int
    requires x < UINT64
  {
    if x <= SSIZE_MAX then x else x - UINT64
  }

  /** The ticks ev_token_bucket_update_ sees from 'last' to 'current'; 0 when time stood still or rolled back. */
  function Ticks(current: int, last: int): (n: nat)
    ensures n <= INT_MAX
  {
    var n := Wrap(current - last, UINT32);
    if n > INT_MAX then 0 else n
  }

  /** The limit after 'n' ticks, in the overflow-avoiding form of the code. */
  function AddTokens(limit: int, maximum: nat, rate: nat, n: nat): int
    requires n > 0
  {
    if Wrap(maximum - limit, UINT64) / n < rate then maximum
    else Signed(Wrap(limit + n * rate, UINT64))
  }

  function Min(a: int, b: int): int {
    if a < b then a else b
  }

  lemma DivLess(a: nat, n: nat, r: nat)
    requires n > 0
    ensures a / n < r <==> a < n * r
  {
    var q := a / n;
    assert n * q <= a < n * q + n;
    if q < r {
      assert n * (q + 1) <= n * r by {
        MulMonotone(n, q + 1, r);
      }
    } else {
      MulMonotone(n, r, q);
    }
  }

  lemma MulMonotone(n: nat, a: nat, b: nat)
    requires a <= b
    ensures n * a <= n * b
  {
  }

  /**
   * The division form meets the naive one exactly for buckets that are not over-full; an
   * over-full one still does when the ticks would carry it around the whole 64-bit range.
   */
  lemma AddTokensExact(limit: int, maximum: nat, rate: nat, n: nat)
    requires 0 < n <= INT_MAX && rate <= maximum <= SSIZE_MAX && -SSIZE_MAX - 1 <= limit <= SSIZE_MAX
    ensures AddTokens(limit, maximum, rate, n) == Min(maximum, limit + n * rate)
      <==> limit <= maximum || UINT64 + maximum - limit <= n * rate
  {
    hide Wrap, Signed, Min;
    var room := RoomLeft(limit, maximum);
    DivLess(room, n, rate);
    WrappedSum(limit, maximum, n * rate, room);
  }

  lemma RoomLeft(limit: int, maximum: nat) returns (room: nat)
    requires maximum <= SSIZE_MAX && -SSIZE_MAX - 1 <= limit <= SSIZE_MAX
    ensures room == Wrap(maximum - limit, UINT64)
    ensures room == if limit <= maximum then maximum - limit else UINT64 + maximum - limit
  {
    room := Wrap(maximum - limit, UINT64);
  }

  /** The same for a sum of tokens, whatever the ticks. */
  lemma WrappedSum(limit: int, maximum: nat, tokens: nat, room: nat)
    requires maximum <= SSIZE_MAX && -SSIZE_MAX - 1 <= limit <= SSIZE_MAX
    requires room == if limit <= maximum then maximum - limit else UINT64 + maximum - limit
    ensures (if room < tokens then maximum else Signed(Wrap(limit + tokens, UINT64))) == Min(maximum, limit + tokens)
      <==> limit <= maximum || UINT64 + maximum - limit <= tokens
  {
    if room >= tokens {
      var sum := limit + tokens;
      assert Wrap(sum, UINT64) == if sum < 0 then sum + UINT64 else if sum < UINT64 then sum else sum - UINT64;
    }
  }

  /** struct ev_token_bucket. */
  class TokenBucket {
    var limit: Sides<int>
    var lastUpdated: int

    constructor (cfg: Cfg, currentTick: int)
      ensures limit == Sides(cfg.rate.read, cfg.rate.write) && lastUpdated == currentTick
    {
      limit, lastUpdated := Sides(cfg.rate.read, cfg.rate.write), currentTick;
    }

    /** ev_token_bucket_init_, for a bucket that is in use. */
    method Reinit(cfg: Cfg)
      modifies this
      ensures limit == Sides(Min(old(limit.read), cfg.maximum.read), Min(old(limit.write), cfg.maximum.write))
      ensures lastUpdated == old(lastUpdated)
    {
      if limit.read > cfg.maximum.read {
        limit := limit.(read := cfg.maximum.read);
      }
      if limit.write > cfg.maximum.write {
        limit := limit.(write := cfg.maximum.write);
      }
    }

    /** ev_token_bucket_update_. */
    method Update(cfg: Cfg, currentTick: int) returns (r: int)
      requires 0 <= currentTick < UINT32 && 0 <= lastUpdated < UINT32
      modifies this
      ensures r == if Ticks(currentTick, old(lastUpdated)) == 0 then 0 else 1
      ensures r == 0 ==> limit == old(limit) && lastUpdated == old(lastUpdated)
      ensures r == 1 ==> lastUpdated == currentTick && forall w ::
        limit.Of(w) == AddTokens(old(limit.Of(w)), cfg.maximum.Of(w), cfg.rate.Of(w),
                                 Ticks(currentTick, old(lastUpdated)))
    {
      var nTicks := Wrap(currentTick - lastUpdated, UINT32);
      if nTicks == 0 || nTicks > INT_MAX {
        return 0;
      }
      if Wrap(cfg.maximum.read - limit.read, UINT64) / nTicks < cfg.rate.read {
        limit := limit.(read := cfg.maximum.read);
      } else {
        limit := limit.(read := Signed(Wrap(limit.read + nTicks * cfg.rate.read, UINT64)));
      }
      if Wrap(cfg.maximum.write - limit.write, UINT64) / nTicks < cfg.rate.write {
        limit := limit.(write := cfg.maximum.write);
      } else {
        limit := limit.(write := Signed(Wrap(limit.write + nTicks * cfg.rate.write, UINT64)));
      }
      lastUpdated := currentTick;
      return 1;
    }
  }

  /** Signed division in C. */
  function TruncDiv(a: int, n: nat): int
    requires n > 0
  {
    if a >= 0 then a / n else -(-a / n)
  }

  /** What one of 'n' members of a group may transfer. */
  function Share(limit: int, suspended: bool, minShare: int, n: nat): int
    requires n > 0
  {
    if suspended then 0
    else if TruncDiv(limit, n) < minShare then minShare else TruncDiv(limit, n)
  }

  lemma TruncDivBounds(a: int, n: nat)
    requires n > 0
    ensures a >= 0 ==> TruncDiv(a, n) * n <= a < (TruncDiv(a, n) + 1) * n
    ensures a < 0 ==> TruncDiv(a, n) <= 0
  {
  }

  /**
   * A group that is not suspended gives each of its 'n' members an equal part of what it has left,
   * rounded down, but never less than the minimum share; one that is gives nothing.
   */
  lemma ShareExact(limit: int, suspended: bool, minShare: nat, n: nat)
    requires n > 0
    ensures var share := Share(limit, suspended, minShare, n);
            if suspended then share == 0
            else
              && share >= minShare && (share + 1) * n > limit
              && (share > minShare ==> share * n <= limit)
  {
    TruncDivBounds(limit, n);
    var d := TruncDiv(limit, n);
    if d < minShare {
      MulMonotone(n, if d >= 0 then d + 1 else 0, minShare + 1);
      assert limit >= 0 ==> (d + 1) * n <= (minShare + 1) * n;
    }
  }

  /** One side of a group's bucket, whether it is suspended, and whether members wait to be let go. */
  datatype Flow = Flow(limit: int, suspended: bool, pending: bool)

  /** The group after a member has transferred 'bytes'; 'busy' if some member could not be locked. */
  function Charged(f: Flow, bytes: nat, busy: bool): Flow {
    var left := f.limit - bytes;
    if left <= 0 then Flow(left, true, false)
    else if f.suspended then Flow(left, false, busy)
    else Flow(left, false, f.pending)
  }

  /** The group after its timer has brought the limit to 'limit'. */
  function Refilled(f: Flow, limit: int, minShare: nat, busy: bool): Flow {
    if f.pending || (f.suspended && limit >= minShare) then Flow(limit, false, busy)
    else Flow(limit, f.suspended, f.pending)
  }

  /** A bufferevent, as far as it is rate-limited: which sides its own bucket and its group suspend. */
  class Member {
    const maxSingle: Sides<int>
    const cfg: Option<Cfg>
    const bucket: TokenBucket
    var suspendedBw: Sides<bool>
    var suspendedGroup: Sides<bool>
    var refillPending: bool

    constructor (maxSingle: Sides<int>, cfg: Option<Cfg>, bucket: TokenBucket)
      ensures this.maxSingle == maxSingle && this.cfg == cfg && this.bucket == bucket
      ensures suspendedBw == suspendedGroup == Sides(false, false) && !refillPending
    {
      this.maxSingle, this.cfg, this.bucket := maxSingle, cfg, bucket;
      suspendedBw, suspendedGroup, refillPending := Sides(false, false), Sides(false, false), false;
    }

    /** bufferevent_get_rlim_max_. */
    method RlimMax(group: Group?, isWrite: bool, tick: int) returns (max: int)
      requires 0 <= tick < UINT32 && 0 <= bucket.lastUpdated < UINT32 && (group != null ==> group.members != [])
      requires group != null ==> group.bucket != bucket
      modifies bucket, this`suspendedGroup
      ensures cfg.None? || Ticks(tick, old(bucket.lastUpdated)) == 0
        ==> bucket.limit == old(bucket.limit) && bucket.lastUpdated == old(bucket.lastUpdated)
      ensures cfg.Some? && Ticks(tick, old(bucket.lastUpdated)) > 0 ==> bucket.lastUpdated == tick && forall w ::
        bucket.limit.Of(w) == AddTokens(old(bucket.limit.Of(w)), cfg.value.maximum.Of(w), cfg.value.rate.Of(w),
                                        Ticks(tick, old(bucket.lastUpdated)))
      ensures var own := if cfg.Some? then bucket.limit.Of(isWrite) else maxSingle.Of(isWrite);
              var both := if group == null then own else Min(own, group.ShareOf(isWrite));
              max == if both < 0 then 0 else both
      ensures suspendedGroup == if group != null && group.suspended.Of(isWrite)
                                then old(suspendedGroup).With(isWrite, true)
                                else old(suspendedGroup)
      ensures group != null && old(group.Settled()) ==> group.Settled()
    {
      max := maxSingle.Of(isWrite);
      if cfg.Some? {
        if tick != bucket.lastUpdated {
          var _ := bucket.Update(cfg.value, tick);
        }
        max := bucket.limit.Of(isWrite);
      }
      if group != null {
        var share;
        if group.suspended.Of(isWrite) {
          suspendedGroup := suspendedGroup.With(isWrite, true);
          share := 0;
        } else {
          share := TruncDiv(group.bucket.limit.Of(isWrite), |group.members|);
          if share < group.minShare {
            share := group.minShare;
          }
        }
        if max > share {
          max := share;
        }
      }
      if max < 0 {
        max := 0;
      }
    }

    /** The half of bufferevent_decrement_*_buckets_ that charges the member's own bucket. */
    method DecrementOwn(isWrite: bool, bytes: nat)
      modifies bucket`limit, this`suspendedBw, this`refillPending
      ensures cfg.None? ==> bucket.limit == old(bucket.limit) && suspendedBw == old(suspendedBw)
      ensures cfg.Some? ==> bucket.limit == old(bucket.limit).With(isWrite, old(bucket.limit.Of(isWrite)) - bytes)
      ensures cfg.Some? ==> suspendedBw == old(suspendedBw).With(isWrite, bucket.limit.Of(isWrite) <= 0)
      ensures cfg.Some? && bucket.limit.Of(isWrite) <= 0 ==> refillPending
      ensures cfg.Some? && bucket.limit.Of(isWrite) > 0
        ==> refillPending == (old(refillPending) && (!old(suspendedBw).Of(isWrite) || old(suspendedBw).Of(!isWrite)))
    {
      if cfg.Some? {
        var left := bucket.limit.Of(isWrite) - bytes;
        bucket.limit := bucket.limit.With(isWrite, left);
        if left <= 0 {
          suspendedBw := suspendedBw.With(isWrite, true);
          refillPending := true;
        } else if suspendedBw.Of(isWrite) {
          if !suspendedBw.Of(!isWrite) {
            refillPending := false;
          }
          suspendedBw := suspendedBw.With(isWrite, false);
        }
      }
    }

    /** bufferevent_decrement_*_limit: a negative 'decr' gives tokens back. */
    method DecrementLimit(isWrite: bool, decr: int)
      requires cfg.Some? && -SSIZE_MAX - 1 <= bucket.limit.Of(isWrite) - decr <= SSIZE_MAX
      modifies bucket`limit, this`suspendedBw, this`refillPending
      ensures bucket.limit == old(bucket.limit).With(isWrite, old(bucket.limit.Of(isWrite)) - decr)
      ensures var was, now := old(bucket.limit.Of(isWrite)), bucket.limit.Of(isWrite);
              if (was > 0) == (now > 0) then suspendedBw == old(suspendedBw) && refillPending == old(refillPending)
              else
                && suspendedBw == old(suspendedBw).With(isWrite, now <= 0)
                && refillPending == (now <= 0 || (old(refillPending) && old(suspendedBw).Of(!isWrite)))
    {
      var oldLimit := bucket.limit.Of(isWrite);
      var newLimit := oldLimit - decr;
      bucket.limit := bucket.limit.With(isWrite, newLimit);
      if oldLimit > 0 && newLimit <= 0 {
        suspendedBw := suspendedBw.With(isWrite, true);
        refillPending := true;
      } else if oldLimit <= 0 && newLimit > 0 {
        if !suspendedBw.Of(!isWrite) {
          refillPending := false;
        }
        suspendedBw := suspendedBw.With(isWrite, false);
      }
    }

    /** bev_refill_callback_: the timer has fired. */
    method Refill(tick: int)
      requires 0 <= tick < UINT32 && 0 <= bucket.lastUpdated < UINT32 && cfg.Some?
      modifies bucket, this`suspendedBw, this`refillPending
      ensures Ticks(tick, old(bucket.lastUpdated)) == 0 ==> bucket.limit == old(bucket.limit)
      ensures Ticks(tick, old(bucket.lastUpdated)) > 0 ==> forall w ::
        bucket.limit.Of(w) == AddTokens(old(bucket.limit.Of(w)), cfg.value.maximum.Of(w), cfg.value.rate.Of(w),
                                        Ticks(tick, old(bucket.lastUpdated)))
      ensures forall w :: suspendedBw.Of(w) == (old(suspendedBw).Of(w) && bucket.limit.Of(w) <= 0)
      ensures refillPending == (suspendedBw.read || suspendedBw.write)
    {
      refillPending := false;
      var _ := bucket.Update(cfg.value, tick);
      var again := false;
      if suspendedBw.read {
        if bucket.limit.read > 0 {
          suspendedBw := suspendedBw.(read := false);
        } else {
          again := true;
        }
      }
      if suspendedBw.write {
        if bucket.limit.write > 0 {
          suspendedBw := suspendedBw.(write := false);
        } else {
          again := true;
        }
      }
      if again {
        refillPending := true;
      }
    }
  }

  /** struct bufferevent_rate_limit_group. */
  class Group {
    var cfg: Cfg
    const bucket: TokenBucket
    var members: seq<Member>
    var suspended: Sides<bool>
    var pendingUnsuspend: Sides<bool>
    var minShare: nat
    var configuredMinShare: nat
    var total: Sides<nat>

    ghost predicate Distinct()
      reads this
    {
      forall i, j | 0 <= i < j < |members| :: members[i] != members[j]
    }

    /**
     * A member's side is held up by the group only while the group's is suspended, or while the
     * group knows that somebody is still to be let go.
     */
    ghost predicate Settled()
      reads this, (set m: Member | m in members)`suspendedGroup
    {
      forall m, w | m in members && m.suspendedGroup.Of(w) :: suspended.Of(w) || pendingUnsuspend.Of(w)
    }

    /** bufferevent_rate_limit_group_new. */
    constructor (cfg: Cfg, tick: int)
      requires Accepted(cfg)
      ensures this.cfg == cfg && fresh(bucket) && bucket.lastUpdated == tick
      ensures bucket.limit == Sides(cfg.rate.read, cfg.rate.write)
      ensures Settled() && members == [] && suspended == pendingUnsuspend == Sides(false, false) && total == Sides(0, 0)
      ensures configuredMinShare == 64 && minShare == Min(64, Min(cfg.rate.read, cfg.rate.write))
    {
      this.cfg := cfg;
      bucket := new TokenBucket(cfg, tick);
      members, suspended, pendingUnsuspend, total := [], Sides(false, false), Sides(false, false), Sides(0, 0);
      new;
      var _ := SetMinShare(64);
    }

    function ShareOf(isWrite: bool): int
      requires members != []
      reads this, bucket
    {
      Share(bucket.limit.Of(isWrite), suspended.Of(isWrite), minShare, |members|)
    }

    /** bufferevent_rate_limit_group_set_min_share: never above one tick's worth. */
    method SetMinShare(share: nat) returns (r: int)
      modifies this`minShare, this`configuredMinShare
      ensures r == if share > SSIZE_MAX then -1 else 0
      ensures r == -1 ==> minShare == old(minShare) && configuredMinShare == old(configuredMinShare)
      ensures r == 0 ==> configuredMinShare == share && minShare == Min(share, Min(cfg.rate.read, cfg.rate.write))
    {
      if share > SSIZE_MAX {
        return -1;
      }
      configuredMinShare := share;
      var s := share;
      if s > cfg.rate.read {
        s := cfg.rate.read;
      }
      if s > cfg.rate.write {
        s := cfg.rate.write;
      }
      minShare := s;
      return 0;
    }

    /** bufferevent_rate_limit_group_set_cfg. */
    method SetCfg(cfg: Cfg)
      requires Accepted(cfg) && configuredMinShare <= SSIZE_MAX
      modifies this`cfg, this`minShare, this`configuredMinShare, bucket
      ensures this.cfg == cfg && configuredMinShare == old(configuredMinShare)
      ensures minShare == Min(configuredMinShare, Min(cfg.rate.read, cfg.rate.write))
      ensures bucket.lastUpdated == old(bucket.lastUpdated)
      ensures forall w :: bucket.limit.Of(w) == Min(old(bucket.limit.Of(w)), cfg.maximum.Of(w))
    {
      this.cfg := cfg;
      bucket.Reinit(cfg);
      var _ := SetMinShare(configuredMinShare);
    }

    /** bev_group_suspend_*_; members in 'busy' cannot be locked, and find out later. */
    method Suspend(isWrite: bool, busy: set<Member>)
      requires Distinct()
      modifies this`suspended, this`pendingUnsuspend, (set m: Member | m in members)`suspendedGroup
      ensures suspended == old(suspended).With(isWrite, true)
        && pendingUnsuspend == old(pendingUnsuspend).With(isWrite, false)
      ensures forall m | m in members ::
        m.suspendedGroup == if m in busy then old(m.suspendedGroup) else old(m.suspendedGroup).With(isWrite, true)
    {
      suspended := suspended.With(isWrite, true);
      pendingUnsuspend := pendingUnsuspend.With(isWrite, false);
      for i := 0 to |members|
        invariant suspended == old(suspended).With(isWrite, true)
          && pendingUnsuspend == old(pendingUnsuspend).With(isWrite, false)
        invariant forall k | 0 <= k < |members| ::
          members[k].suspendedGroup == if k >= i || members[k] in busy then old(members[k].suspendedGroup)
                                       else old(members[k].suspendedGroup).With(isWrite, true)
      {
        if members[i] !in busy {
          members[i].suspendedGroup := members[i].suspendedGroup.With(isWrite, true);
        }
      }
    }

    /** One member's turn in bev_group_unsuspend_*_. */
    method Wake(m: Member, isWrite: bool, busy: set<Member>) returns (again: bool)
      modifies m`suspendedGroup
      ensures again == (m in busy)
      ensures m.suspendedGroup
        == if m in busy then old(m.suspendedGroup) else old(m.suspendedGroup).With(isWrite, false)
    {
      if m !in busy {
        m.suspendedGroup := m.suspendedGroup.With(isWrite, false);
      }
      again := m in busy;
    }

    /** The turns of members 'lo' to 'hi'. */
    method WakeRange(lo: nat, hi: nat, isWrite: bool, busy: set<Member>) returns (again: bool)
      requires Distinct() && lo <= hi <= |members|
      modifies (set m: Member | m in members)`suspendedGroup
      ensures again <==> exists k | lo <= k < hi :: members[k] in busy
      ensures forall k | 0 <= k < |members| ::
        members[k].suspendedGroup == if !(lo <= k < hi) || members[k] in busy then old(members[k].suspendedGroup)
                                     else old(members[k].suspendedGroup).With(isWrite, false)
    {
      again := false;
      for i := lo to hi
        invariant again <==> exists k | lo <= k < i :: members[k] in busy
        invariant forall k | 0 <= k < |members| ::
          members[k].suspendedGroup == if !(lo <= k < i) || members[k] in busy then old(members[k].suspendedGroup)
                                       else old(members[k].suspendedGroup).With(isWrite, false)
      {
        var b := Wake(members[i], isWrite, busy);
        again := again || b;
      }
    }

    /**
     * bev_group_unsuspend_*_, which visits every member once, from member 'first' on and around;
     * members in 'busy' cannot be locked, and are left for the next refill.
     */
    method Unsuspend(isWrite: bool, busy: set<Member>, first: nat)
      requires Distinct() && (members != [] ==> first < |members|)
      modifies this`suspended, this`pendingUnsuspend, (set m: Member | m in members)`suspendedGroup
      ensures suspended == old(suspended).With(isWrite, false)
      ensures pendingUnsuspend == old(pendingUnsuspend).With(isWrite, exists m :: m in members && m in busy)
      ensures forall m | m in members ::
        m.suspendedGroup == if m in busy then old(m.suspendedGroup) else old(m.suspendedGroup).With(isWrite, false)
    {
      suspended := suspended.With(isWrite, false);
      var n := |members|;
      var start := if n == 0 then 0 else first;
      var again := WakeRange(start, n, isWrite, busy);
      var more := WakeRange(0, start, isWrite, busy);
      pendingUnsuspend := pendingUnsuspend.With(isWrite, again || more);
    }

    ghost function FlowOf(isWrite: bool): Flow
      reads this, bucket
    {
      Flow(bucket.limit.Of(isWrite), suspended.Of(isWrite), pendingUnsuspend.Of(isWrite))
    }

    /** The half of bufferevent_decrement_*_buckets_ that charges the group. */
    method Decrement(isWrite: bool, bytes: nat, busy: set<Member>, first: nat)
      requires Distinct() && (members != [] ==> first < |members|)
      modifies bucket`limit, this`total, this`suspended, this`pendingUnsuspend,
        (set m: Member | m in members)`suspendedGroup
      ensures FlowOf(isWrite) == Charged(old(FlowOf(isWrite)), bytes, exists m :: m in members && m in busy)
      ensures FlowOf(!isWrite) == old(FlowOf(!isWrite))
      ensures total == old(total).With(isWrite, old(total.Of(isWrite)) + bytes)
      ensures bucket.limit.Of(isWrite) == old(bucket.limit.Of(isWrite)) - bytes
      ensures suspended.Of(isWrite) <==> bucket.limit.Of(isWrite) <= 0
      ensures forall m | m in members ::
        m.suspendedGroup == if m !in busy && (suspended.Of(isWrite) || old(suspended.Of(isWrite)))
                            then old(m.suspendedGroup).With(isWrite, suspended.Of(isWrite))
                            else old(m.suspendedGroup)
      ensures old(Settled()) ==> Settled()
    {
      bucket.limit := bucket.limit.With(isWrite, bucket.limit.Of(isWrite) - bytes);
      total := total.With(isWrite, total.Of(isWrite) + bytes);
      if bucket.limit.Of(isWrite) <= 0 {
        Suspend(isWrite, busy);
      } else if suspended.Of(isWrite) {
        Unsuspend(isWrite, busy, first);
      }
    }

    /**
     * With somebody still to be let go, or enough for a minimum share, one side of the group is not
     * suspended any more, and neither is that side of any member that can be locked.
     */
    twostate predicate Freed(isWrite: bool, busy: set<Member>)
      reads this, bucket, (set m: Member | m in members)`suspendedGroup
    {
      var go := old(pendingUnsuspend.Of(isWrite))
                || (old(suspended.Of(isWrite)) && bucket.limit.Of(isWrite) >= minShare);
      && suspended.Of(isWrite) == (old(suspended.Of(isWrite)) && !go) && members == old(members)
      && forall m | m in old(members) ::
           m.suspendedGroup.Of(isWrite) == (old(m.suspendedGroup.Of(isWrite)) && (!go || m in busy))
    }

    /** One side's turn in bev_group_refill_callback_. */
    method LetGo(isWrite: bool, busy: set<Member>, first: nat)
      requires Distinct() && (members != [] ==> first < |members|)
      modifies this`suspended, this`pendingUnsuspend, (set m: Member | m in members)`suspendedGroup
      ensures FlowOf(isWrite)
           == Refilled(old(FlowOf(isWrite)), bucket.limit.Of(isWrite), minShare, exists m :: m in members && m in busy)
      ensures FlowOf(!isWrite) == old(FlowOf(!isWrite))
      ensures Freed(isWrite, busy) && forall m | m in members ::
        m.suspendedGroup.Of(!isWrite) == old(m.suspendedGroup.Of(!isWrite))
      ensures old(Settled()) ==> Settled()
    {
      if pendingUnsuspend.Of(isWrite) || (suspended.Of(isWrite) && bucket.limit.Of(isWrite) >= minShare) {
        Unsuspend(isWrite, busy, first);
      }
    }

    method LetBothGo(busy: set<Member>, first: nat)
      requires Distinct() && (members != [] ==> first < |members|)
      modifies this`suspended, this`pendingUnsuspend, (set m: Member | m in members)`suspendedGroup
      ensures forall w ::
        FlowOf(w) == Refilled(old(FlowOf(w)), bucket.limit.Of(w), minShare, exists m :: m in members && m in busy)
      ensures Freed(false, busy) && Freed(true, busy) && (old(Settled()) ==> Settled())
    {
      hide Settled;
      LetGo(false, busy, first);
      LetGo(true, busy, first);
    }

    /** bev_group_refill_callback_. */
    method RefillCallback(tick: int, busy: set<Member>, first: nat)
      requires Distinct() && (members != [] ==> first < |members|)
      requires 0 <= tick < UINT32 && 0 <= bucket.lastUpdated < UINT32
      modifies bucket, this`suspended, this`pendingUnsuspend, (set m: Member | m in members)`suspendedGroup
      ensures var n := Ticks(tick, old(bucket.lastUpdated));
              && bucket.lastUpdated == (if n == 0 then old(bucket.lastUpdated) else tick)
              && forall w ::
                var f := old(FlowOf(w));
                var limit := if n == 0 then f.limit else AddTokens(f.limit, cfg.maximum.Of(w), cfg.rate.Of(w), n);
                FlowOf(w) == Refilled(f, limit, minShare, exists m :: m in members && m in busy)
      ensures Freed(false, busy) && Freed(true, busy) && (old(Settled()) ==> Settled())
    {
      hide Settled, Distinct, AddTokens, Ticks, Wrap;
      var _ := bucket.Update(cfg, tick);
      LetBothGo(busy, first);
    }
  }

  /** A bucket of ten that is given ten more than it has used: the next tick adds to it all the same. */
  method OverFilled() returns (m: Member)
    ensures m.cfg == Some(Cfg(Sides(1, 1), Sides(10, 10))) && m.bucket.limit.read == 12
  {
    var cfg := Cfg(Sides(1, 1), Sides(10, 10));
    var bucket := new TokenBucket(cfg, 0);
    m := new Member(Sides(100, 100), Some(cfg), bucket);
    m.DecrementLimit(false, -10);
    var _ := bucket.Update(cfg, 1);
    assert Ticks(1, 0) == 1;
    assert bucket.limit.Of(false) == AddTokens(11, 10, 1, 1);
  }
}
