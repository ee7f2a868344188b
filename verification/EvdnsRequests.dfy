/** The DNS client's requests: in flight under their transaction ids, or waiting their turn. */
module EvdnsRequests {
  import opened Lists

  const NO_ID := 0xffff

  class Nameserver {
    var requestsInflight: int
    /** Whether the server is thought to be up. */
    var state: bool

    constructor (state: bool)
      ensures requestsInflight == 0 && this.state == state
    {
      requestsInflight, this.state := 0, state;
    }
  }

  class Request {
    var transId: nat
    var ns: Nameserver?

    constructor ()
      ensures transId == NO_ID && ns == null
    {
      transId, ns := NO_ID, null;
    }
  }

  /** A request's id and server at one moment. */
  datatype Info = Info(id: nat, ns: Nameserver?)

  /** The lists of requests: one for each value of id mod n_req_heads, and the waiting ones. */
  datatype Queues = Queues(heads: seq<seq<Request>>, waiting: seq<Request>)

  /**
   * Requests in flight have a server and different ids, and stand in the list of their id;
   * waiting ones have no server; every request is in one list.
   */
  ghost predicate Placed(q: Queues, info: map<Request, Info>) {
    && |q.heads| > 0
    && (forall h, r | 0 <= h < |q.heads| && r in q.heads[h] ::
          r in info && info[r].ns != null && info[r].id < NO_ID && info[r].id % |q.heads| == h)
    && (forall h | 0 <= h < |q.heads| :: NoDup(q.heads[h]))
    && (forall h, r, s | 0 <= h < |q.heads| && r in q.heads[h] && s in q.heads[h] && info[r].id == info[s].id :: r == s)
    && (forall r | r in q.waiting :: r in info && info[r].ns == null) && NoDup(q.waiting)
    && (forall r | r in info :: if info[r].ns == null then r in q.waiting else r in q.heads[info[r].id % |q.heads|])
  }

  /** The requests in flight at server 'ns'. */
  ghost function CountIn(q: seq<Request>, info: map<Request, Info>, ns: Nameserver): nat {
    if q == [] then 0 else (if q[0] in info && info[q[0]].ns == ns then 1 else 0) + CountIn(q[1..], info, ns)
  }

  ghost function Load(heads: seq<seq<Request>>, info: map<Request, Info>, ns: Nameserver): nat {
    if heads == [] then 0 else CountIn(heads[0], info, ns) + Load(heads[1..], info, ns)
  }

  lemma {:induction false} CountSnoc(q: seq<Request>, info: map<Request, Info>, r: Request, ns: Nameserver)
    ensures CountIn(q + [r], info, ns) == CountIn(q, info, ns) + if r in info && info[r].ns == ns then 1 else 0
  {
    if q == [] {
      assert q + [r] == [r];
      assert [r][1..] == q;
    } else {
      assert (q + [r])[1..] == q[1..] + [r];
      CountSnoc(q[1..], info, r, ns);
    }
  }

  lemma {:induction false} CountWithout(q: seq<Request>, info: map<Request, Info>, r: Request, ns: Nameserver)
    requires r in q && NoDup(q)
    ensures CountIn(Without(q, r), info, ns) == CountIn(q, info, ns) - if r in info && info[r].ns == ns then 1 else 0
  {
    if q[0] != r {
      CountWithout(q[1..], info, r, ns);
    }
  }

  /** Only what is said about the list's own requests counts. */
  lemma {:induction false} CountSame(q: seq<Request>, info: map<Request, Info>, info': map<Request, Info>,
                                     ns: Nameserver)
    requires forall r | r in q :: r in info && r in info' && info[r].ns == info'[r].ns
    ensures CountIn(q, info, ns) == CountIn(q, info', ns)
  {
    if q != [] {
      assert forall r | r in q[1..] :: r in q;
      CountSame(q[1..], info, info', ns);
    }
  }

  lemma {:induction false} LoadSame(heads: seq<seq<Request>>, info: map<Request, Info>, info': map<Request, Info>,
                                    ns: Nameserver)
    requires forall h, r | 0 <= h < |heads| && r in heads[h] :: r in info && r in info' && info[r].ns == info'[r].ns
    ensures Load(heads, info, ns) == Load(heads, info', ns)
  {
    if heads != [] {
      assert forall r | r in heads[0] :: r in info;
      CountSame(heads[0], info, info', ns);
      assert forall h | 0 <= h < |heads[1..]| :: heads[1..][h] == heads[h + 1];
      LoadSame(heads[1..], info, info', ns);
    }
  }

  lemma {:induction false} LoadUpdate(heads: seq<seq<Request>>, info: map<Request, Info>, h: nat, q: seq<Request>,
                                      ns: Nameserver)
    requires h < |heads|
    ensures Load(heads[h := q], info, ns) == Load(heads, info, ns) - CountIn(heads[h], info, ns) + CountIn(q, info, ns)
  {
    if h > 0 {
      assert heads[h := q][1..] == heads[1..][h - 1 := q];
      LoadUpdate(heads[1..], info, h - 1, q, ns);
    } else {
      assert heads[h := q][1..] == heads[1..];
    }
  }

  /** Request 'r' enters the list of its id. */
  ghost function Entered(q: Queues, r: Request, id: nat): Queues
    requires |q.heads| > 0
  {
    var h := id % |q.heads|;
    q.(heads := q.heads[h := q.heads[h] + [r]])
  }

  ghost function Left(q: Queues, r: Request, id: nat): Queues
    requires |q.heads| > 0
  {
    var h := id % |q.heads|;
    q.(heads := q.heads[h := Without(q.heads[h], r)])
  }

  ghost predicate InFlight(q: Queues, info: map<Request, Info>, id: nat)
    requires Placed(q, info)
  {
    exists r | r in q.heads[id % |q.heads|] :: info[r].id == id
  }

  lemma {:induction false} EnterFlight(q: Queues, info: map<Request, Info>, r: Request, id: nat, ns: Nameserver)
    requires Placed(q, info) && r !in info && id < NO_ID && !InFlight(q, info, id)
    ensures Placed(Entered(q, r, id), info[r := Info(id, ns)]) && Total(Entered(q, r, id).heads) == Total(q.heads) + 1
    ensures forall m ::
      Load(Entered(q, r, id).heads, info[r := Info(id, ns)], m) == Load(q.heads, info, m) + if m == ns then 1 else 0
  {
    hide Total, Load, CountIn;
    var h := id % |q.heads|;
    var q', info' := Entered(q, r, id), info[r := Info(id, ns)];
    WithLast(q.heads[h], r);
    TotalUpdate(q.heads, h, q.heads[h] + [r]);
    forall m ensures Load(q'.heads, info', m) == Load(q.heads, info, m) + if m == ns then 1 else 0 {
      LoadUpdate(q.heads, info', h, q.heads[h] + [r], m);
      CountSnoc(q.heads[h], info', r, m);
      LoadSame(q.heads, info, info', m);
    }
  }

  lemma {:induction false} LeaveFlight(q: Queues, info: map<Request, Info>, r: Request)
    requires Placed(q, info) && r in info && info[r].ns != null
    ensures Placed(Left(q, r, info[r].id), info - {r}) && Total(Left(q, r, info[r].id).heads) == Total(q.heads) - 1
    ensures forall m ::
      Load(Left(q, r, info[r].id).heads, info - {r}, m) == Load(q.heads, info, m) - if m == info[r].ns then 1 else 0
  {
    hide Total, Load, CountIn, Without;
    var h := info[r].id % |q.heads|;
    var q' := Left(q, r, info[r].id);
    WithoutFacts(q.heads[h], r);
    TotalUpdate(q.heads, h, Without(q.heads[h], r));
    forall m ensures Load(q'.heads, info - {r}, m) == Load(q.heads, info, m) - if m == info[r].ns then 1 else 0 {
      LoadUpdate(q.heads, info, h, Without(q.heads[h], r), m);
      CountWithout(q.heads[h], info, r, m);
      LoadSame(q'.heads, info, info - {r}, m);
    }
  }

  lemma {:induction false} EnterWaiting(q: Queues, info: map<Request, Info>, r: Request, id: nat)
    requires Placed(q, info) && r !in info
    ensures Placed(q.(waiting := q.waiting + [r]), info[r := Info(id, null)])
    ensures forall m :: Load(q.heads, info[r := Info(id, null)], m) == Load(q.heads, info, m)
  {
    hide Load;
    WithLast(q.waiting, r);
    forall m ensures Load(q.heads, info[r := Info(id, null)], m) == Load(q.heads, info, m) {
      LoadSame(q.heads, info, info[r := Info(id, null)], m);
    }
  }

  lemma {:induction false} LeaveWaiting(q: Queues, info: map<Request, Info>, r: Request)
    requires Placed(q, info) && r in info && info[r].ns == null
    ensures Placed(q.(waiting := Without(q.waiting, r)), info - {r}) && |Without(q.waiting, r)| == |q.waiting| - 1
    ensures forall m :: Load(q.heads, info - {r}, m) == Load(q.heads, info, m)
  {
    hide Load, Without;
    WithoutFacts(q.waiting, r);
    forall m ensures Load(q.heads, info - {r}, m) == Load(q.heads, info, m) {
      LoadSame(q.heads, info, info - {r}, m);
    }
  }

  lemma {:induction false} CountChange(q: seq<Request>, info: map<Request, Info>, r: Request, i: Info, ns: Nameserver)
    requires NoDup(q) && forall s | s in q :: s in info
    ensures CountIn(q, info[r := i], ns) == CountIn(q, info, ns)
      + if r in q then (if i.ns == ns then 1 else 0) - (if info[r].ns == ns then 1 else 0) else 0
  {
    if q != [] {
      assert forall s | s in q[1..] :: s in q;
      CountChange(q[1..], info, r, i, ns);
    }
  }

  lemma {:induction false} LoadChange(heads: seq<seq<Request>>, info: map<Request, Info>, r: Request, i: Info, h: nat,
                                      ns: Nameserver)
    requires h < |heads| && r in heads[h] && NoDup(heads[h]) && r in info
    requires forall g, s | 0 <= g < |heads| && s in heads[g] :: s in info && (s == r ==> g == h)
    ensures Load(heads, info[r := i], ns) == Load(heads, info, ns)
      + (if i.ns == ns then 1 else 0) - (if info[r].ns == ns then 1 else 0)
  {
    var rest := heads[h := []];
    LoadUpdate(heads, info, h, [], ns);
    LoadUpdate(heads, info[r := i], h, [], ns);
    LoadSame(rest, info, info[r := i], ns);
    CountChange(heads[h], info, r, i, ns);
  }

  /** request_swap_ns changes nothing about the lists. */
  lemma {:induction false} SwapKeeps(q: Queues, info: map<Request, Info>, r: Request, ns: Nameserver)
    requires Placed(q, info) && r in info && info[r].ns != null
    ensures Placed(q, info[r := Info(info[r].id, ns)])
    ensures forall m :: Load(q.heads, info[r := Info(info[r].id, ns)], m)
                     == Load(q.heads, info, m) + (if m == ns then 1 else 0) - (if m == info[r].ns then 1 else 0)
  {
    hide Load, CountIn;
    var i, h := Info(info[r].id, ns), info[r].id % |q.heads|;
    forall m
      ensures Load(q.heads, info[r := i], m)
           == Load(q.heads, info, m) + (if m == ns then 1 else 0) - (if m == info[r].ns then 1 else 0)
    {
      LoadChange(q.heads, info, r, i, h, m);
    }
  }

  /** The ids of all requests in flight differ. */
  ghost predicate IdsDiffer(info: map<Request, Info>) {
    forall r, s | r in info && s in info && info[r].ns != null && info[s].ns != null
      && info[r].id == info[s].id :: r == s
  }

  /** The lists 'rest' still to be moved and the lists 'heads' built so far. */
  ghost predicate Rehashing(rest: seq<seq<Request>>, heads: seq<seq<Request>>, info: map<Request, Info>) {
    && |heads| > 0
    && (forall h, r | 0 <= h < |heads| && r in heads[h] ::
          r in info && info[r].ns != null && info[r].id < NO_ID && info[r].id % |heads| == h)
    && (forall h | 0 <= h < |heads| :: NoDup(heads[h]))
    && (forall i | 0 <= i < |rest| :: NoDup(rest[i]))
    && (forall i, r | 0 <= i < |rest| && r in rest[i] :: r in info && info[r].ns != null && info[r].id < NO_ID
          && info[r].id % |rest| == i && r !in heads[info[r].id % |heads|])
    && (forall r | r in info && info[r].ns != null ::
          r in heads[info[r].id % |heads|] || (|rest| > 0 && r in rest[info[r].id % |rest|]))
  }

  /** The first request of list 'i' moves to the list its id has among the new ones. */
  lemma {:induction false} MoveStep(rest: seq<seq<Request>>, heads: seq<seq<Request>>, info: map<Request, Info>, i: nat)
    requires Rehashing(rest, heads, info) && i < |rest| && rest[i] != []
    ensures var r := rest[i][0]; var g := info[r].id % |heads|;
            var rest', heads' := rest[i := rest[i][1..]], heads[g := heads[g] + [r]];
            && Rehashing(rest', heads', info)
            && Total(rest') + Total(heads') == Total(rest) + Total(heads)
            && forall m :: Load(rest', info, m) + Load(heads', info, m) == Load(rest, info, m) + Load(heads, info, m)
  {
    hide Load, Total;
    var r := rest[i][0];
    var g := info[r].id % |heads|;
    WithLast(heads[g], r);
    assert rest[i] == [r] + rest[i][1..];
    TotalUpdate(rest, i, rest[i][1..]);
    TotalUpdate(heads, g, heads[g] + [r]);
    forall m ensures Load(rest[i := rest[i][1..]], info, m) + Load(heads[g := heads[g] + [r]], info, m)
                  == Load(rest, info, m) + Load(heads, info, m) {
      LoadUpdate(rest, info, i, rest[i][1..], m);
      LoadUpdate(heads, info, g, heads[g] + [r], m);
      CountSnoc(heads[g], info, r, m);
    }
  }

  /** When all has been moved the new lists are right, and the ids still differ. */
  lemma {:induction false} Rehashed(q: Queues, rest: seq<seq<Request>>, heads: seq<seq<Request>>,
                                    info: map<Request, Info>)
    requires Placed(q, info) && Rehashing(rest, heads, info) && forall i | 0 <= i < |rest| :: rest[i] == []
    ensures Placed(q.(heads := heads), info)
    ensures Total(rest) == 0 && forall m :: Load(rest, info, m) == 0
  {
    AllMoved(rest, info);
    assert IdsDiffer(info);
  }

  lemma {:induction false} AllMoved(rest: seq<seq<Request>>, info: map<Request, Info>)
    requires forall i | 0 <= i < |rest| :: rest[i] == []
    ensures Total(rest) == 0 && forall m :: Load(rest, info, m) == 0
  {
    if rest != [] {
      AllMoved(rest[1..], info);
    }
  }

  lemma {:induction false} NoneMoved(q: Queues, info: map<Request, Info>, n: nat)
    requires Placed(q, info) && n > 0
    ensures Rehashing(q.heads, Empties(n), info) && Total(Empties<Request>(n)) == 0
    ensures forall m :: Load(Empties(n), info, m) == 0
  {
    NothingQueued<Request>(n);
    AllMoved(Empties(n), info);
  }

  /** Some id is not in flight when fewer than 65535 requests are. */
  lemma {:induction false} FreeId(q: Queues, info: map<Request, Info>)
    requires Placed(q, info) && Total(q.heads) < NO_ID
    ensures exists id: nat :: id < NO_ID && !InFlight(q, info, id)
  {
    var id := FreeBelow(NO_ID, UsedIds(q.heads, info));
    assert !InFlight(q, info, id);
  }

  lemma FreeBelow(n: nat, used: set<nat>) returns (id: nat)
    requires |used| < n
    ensures id < n && id !in used
  {
    var all := Below(n);
    SubsetSize(all, used);
    id :| id in all && id !in used;
  }

  lemma SubsetSize(a: set<nat>, b: set<nat>)
    ensures a <= b ==> |a| <= |b|
  {
    if a <= b {
      assert b == a + (b - a);
    }
  }

  function Below(n: nat): (s: set<nat>)
    ensures |s| == n && forall k: nat :: k in s <==> k < n
  {
    if n == 0 then {} else Below(n - 1) + {n - 1}
  }

  /** The ids of the listed requests: no more than there are requests. */
  ghost function UsedIds(heads: seq<seq<Request>>, info: map<Request, Info>): (s: set<nat>)
    requires forall h, r | 0 <= h < |heads| && r in heads[h] :: r in info
    ensures |s| <= Total(heads) && forall h, r | 0 <= h < |heads| && r in heads[h] :: info[r].id in s
  {
    if heads == [] then {}
    else
      assert forall h | 0 <= h < |heads[1..]| :: heads[1..][h] == heads[h + 1];
      ListIds(heads[0], info) + UsedIds(heads[1..], info)
  }

  ghost function ListIds(q: seq<Request>, info: map<Request, Info>): (s: set<nat>)
    requires forall r | r in q :: r in info
    ensures |s| <= |q| && forall r | r in q :: info[r].id in s
  {
    if q == [] then {} else
      assert q[0] in q && forall r | r in q[1..] :: r in q;
      {info[q[0]].id} + ListIds(q[1..], info)
  }

  /** struct evdns_base, as far as requests go. */
  class DnsBase {
    var queues: Queues
    var servers: seq<Nameserver>
    var serverHead: nat
    var globalGoodNameservers: nat
    var requestsInflight: int
    var requestsWaiting: int
    var maxRequestsInflight: nat

    ghost var info: map<Request, Info>

    /** Lists, ids and counters fit together. */
    ghost predicate Valid()
      reads this, (set r: Request | r in info), (set n: Nameserver | n in servers)
    {
      && Placed(queues, info)
      && (forall r | r in info :: info[r] == Info(r.transId, r.ns))
      && requestsInflight == Total(queues.heads) && requestsWaiting == |queues.waiting|
      && NoDup(servers) && (servers != [] ==> serverHead < |servers|)
      && (forall r | r in info && info[r].ns != null :: info[r].ns in servers)
      && (forall n | n in servers :: n.requestsInflight == Load(queues.heads, info, n))
      && (globalGoodNameservers > 0 <==> exists n | n in servers :: n.state)
      && 1 <= maxRequestsInflight < NO_ID
    }

    /** Nothing waits while there is room and a server. */
    ghost predicate Pumped()
      reads this
    {
      requestsInflight >= maxRequestsInflight || queues.waiting == [] || servers == []
    }

    constructor (servers: seq<Nameserver>, max: nat)
      requires NoDup(servers) && 1 <= max < NO_ID && forall n | n in servers :: n.requestsInflight == 0 && n.state
      ensures Valid() && Pumped() && this.servers == servers && info == map[] && queues.waiting == []
      ensures requestsInflight == 0 && maxRequestsInflight == max
    {
      var heads := Empties<Request>((max + 4) / 5);
      queues, this.servers, serverHead := Queues(heads, []), servers, 0;
      globalGoodNameservers, requestsInflight, requestsWaiting, maxRequestsInflight := |servers|, 0, 0, max;
      info := map[];
      NothingQueued<Request>((max + 4) / 5);
      AllMoved(heads, map[]);
      assert servers != [] ==> servers[0] in servers;
    }

    /** request_find_from_trans_id. */
    method FindFromTransId(transId: nat) returns (req: Request?)
      requires Valid()
      ensures req == null ==> !InFlight(queues, info, transId)
      ensures req != null ==> req in info && req.ns != null && req.transId == transId
    {
      var head := queues.heads[transId % |queues.heads|];
      for i := 0 to |head|
        invariant forall k | 0 <= k < i :: head[k].transId != transId
      {
        if head[i].transId == transId {
          assert head[i] in head;
          return head[i];
        }
      }
      return null;
    }

    /** nameserver_pick: the first server from the head on that is up, and the turn goes to the next. */
    method NameserverPick() returns (ns: Nameserver?)
      requires Valid()
      modifies this`serverHead
      ensures Valid()
      ensures ns == null <==> servers == []
      ensures ns != null ==> ns in servers && PicksNext(servers, old(serverHead), serverHead, ns)
      ensures ns == null ==> serverHead == old(serverHead)
    {
      hide Placed, Total, Load;
      if servers == [] {
        return null;
      }
      var n := |servers|;
      if globalGoodNameservers == 0 {
        serverHead := Turn(serverHead, n);
        return servers[serverHead];
      }
      var startedAt := serverHead;
      ghost var k := 0;
      while true
        invariant k < n && serverHead == Around(startedAt, k, n)
        invariant forall i | 0 <= i < k :: !servers[Around(startedAt, i, n)].state
        decreases n - k
      {
        if servers[serverHead].state {
          ns := servers[serverHead];
          serverHead := Turn(serverHead, n);
          assert Picks(servers, startedAt, serverHead, ns, k);
          return;
        }
        serverHead, k := Turn(serverHead, n), k + 1;
        if serverHead == startedAt {
          // Every server is down: the count of good ones says otherwise.
          AllSeen(servers, startedAt);
          assert false;
        }
      }
    }

    /** Some request in flight has this id. */
    predicate Taken(id: nat)
      requires |queues.heads| > 0
      reads this, set r: Request | r in queues.heads[id % |queues.heads|]
    {
      exists r | r in queues.heads[id % |queues.heads|] :: r.transId == id
    }

    lemma TakenMeans(id: nat)
      requires Valid()
      ensures Taken(id) <==> InFlight(queues, info, id)
    {
    }

    /** transaction_id_pick: any id that is not in flight. */
    method TransactionIdPick() returns (id: nat)
      requires Valid() && requestsInflight < NO_ID
      ensures id < NO_ID && !InFlight(queues, info, id)
    {
      FreeId(queues, info);
      ghost var free: nat :| free < NO_ID && !InFlight(queues, info, free);
      TakenMeans(free);
      id :| id < NO_ID && !Taken(id);
      TakenMeans(id);
    }

    /** Request 'req', which is in no list, goes in flight at server 'ns'. */
    method Launch(req: Request, id: nat, ns: Nameserver)
      requires Valid() && req !in info && id < NO_ID && !InFlight(queues, info, id) && ns in servers
      modifies this`queues, this`requestsInflight, this`info, req, ns`requestsInflight
      ensures Valid() && info == old(info)[req := Info(id, ns)] && req.transId == id && req.ns == ns
      ensures queues == Entered(old(queues), req, id) && requestsInflight == old(requestsInflight) + 1
    {
      hide Placed, Total, Load, InFlight;
      HeadsExist();
      EnterFlight(queues, info, req, id, ns);
      req.transId, req.ns := id, ns;
      var h := id % |queues.heads|;
      queues := queues.(heads := queues.heads[h := queues.heads[h] + [req]]);
      requestsInflight := requestsInflight + 1;
      ns.requestsInflight := ns.requestsInflight + 1;
      info := info[req := Info(id, ns)];
    }

    lemma HeadsExist()
      requires Valid()
      ensures |queues.heads| > 0
    {
    }

    /** The servers' own counters sum to the number of requests in flight. */
    lemma CountersSum()
      requires Valid()
      ensures SumLoads(servers, queues.heads, info) == requestsInflight
      ensures forall n | n in servers :: n.requestsInflight == Load(queues.heads, info, n)
    {
      LoadsSum(servers, queues.heads, info);
    }

    /** request_new and request_submit, for a query without search domains. */
    method Submit(req: Request)
      requires Valid() && req !in info
      modifies this`queues, this`requestsInflight, this`requestsWaiting, this`serverHead, this`info, req
      modifies (set n: Nameserver | n in servers)`requestsInflight
      ensures Valid() && info.Keys == old(info).Keys + {req} && (old(Pumped()) ==> Pumped())
      ensures forall r | r in old(info) :: info[r] == old(info)[r]
      ensures if old(requestsInflight) < maxRequestsInflight && servers != [] then
                && req.ns != null && PicksNext(servers, old(serverHead), serverHead, req.ns)
                && req.transId < NO_ID && !InFlight(old(queues), old(info), req.transId)
                && queues == Entered(old(queues), req, req.transId)
                && requestsInflight == old(requestsInflight) + 1
              else
                req.ns == null && queues == old(queues).(waiting := old(queues).waiting + [req])
                && requestsInflight == old(requestsInflight) && serverHead == old(serverHead)
    {
      hide Placed, Total, Load, InFlight, PicksNext;
      var issuingNow := requestsInflight < maxRequestsInflight;
      var transId: nat, ns: Nameserver? := NO_ID, null;
      if issuingNow {
        transId := TransactionIdPick();
        ns := NameserverPick();
      }
      if ns != null {
        Launch(req, transId, ns);
      } else {
        Wait(req, transId);
      }
    }

    /** Request 'req', which is in no list, waits its turn. */
    method Wait(req: Request, transId: nat)
      requires Valid() && req !in info
      modifies this`queues, this`requestsWaiting, this`info, req
      ensures Valid() && info == old(info)[req := Info(transId, null)] && req.ns == null
      ensures queues == old(queues).(waiting := old(queues).waiting + [req])
    {
      hide Placed, Total, Load;
      EnterWaiting(queues, info, req, transId);
      req.transId, req.ns := transId, null;
      queues := queues.(waiting := queues.waiting + [req]);
      requestsWaiting := requestsWaiting + 1;
      info := info[req := Info(transId, null)];
    }

    /** Request 'req' leaves its list. */
    method Drop(req: Request)
      requires Valid() && req in info
      modifies this`queues, this`requestsInflight, this`requestsWaiting, this`info
      modifies (set n: Nameserver | n in servers)`requestsInflight
      ensures Valid() && info == old(info) - {req}
      ensures if req.ns != null then
                queues == Left(old(queues), req, req.transId) && requestsInflight == old(requestsInflight) - 1
              else
                queues == old(queues).(waiting := Without(old(queues).waiting, req))
                  && requestsInflight == old(requestsInflight)
    {
      hide Placed, Total, Load, Without;
      HeadsExist();
      if req.ns != null {
        LeaveFlight(queues, info, req);
        var h := req.transId % |queues.heads|;
        queues := queues.(heads := queues.heads[h := Without(queues.heads[h], req)]);
        requestsInflight := requestsInflight - 1;
        req.ns.requestsInflight := req.ns.requestsInflight - 1;
      } else {
        LeaveWaiting(queues, info, req);
        queues := queues.(waiting := Without(queues.waiting, req));
        requestsWaiting := requestsWaiting - 1;
      }
      info := info - {req};
    }

    /** request_finished, as far as the lists go; the pump then fills the room. */
    method Finished(req: Request) returns (ghost heads: seq<nat>)
      requires Valid() && req in info
      modifies this`queues, this`requestsInflight, this`requestsWaiting, this`serverHead, this`info
      modifies set r: Request | r in info, (set n: Nameserver | n in servers)`requestsInflight
      ensures Valid() && Pumped() && info.Keys == old(info).Keys - {req}
      ensures Launched(servers, info, heads, if old(req.ns) == null then Without(old(queues).waiting, req)
                                             else old(queues).waiting, queues.waiting)
      ensures heads[0] == old(serverHead) && heads[|heads| - 1] == serverHead
      ensures forall r | r in info && old(r.ns) != null :: info[r] == old(info)[r]
    {
      hide Placed, Total, Load, Without;
      Drop(req);
      heads := Pump();
    }

    /** One turn of the pump: the request that has waited longest goes in flight. */
    method PumpOne(ns: Nameserver)
      requires Valid() && queues.waiting != [] && requestsInflight < maxRequestsInflight && ns in servers
      modifies this`queues, this`requestsInflight, this`requestsWaiting, this`info
      modifies queues.waiting[0], (set n: Nameserver | n in servers)`requestsInflight
      ensures Valid() && queues.waiting == old(queues).waiting[1..] && info.Keys == old(info).Keys
      ensures forall r | r in info && r != old(queues).waiting[0] :: info[r] == old(info)[r]
      ensures requestsInflight == old(requestsInflight) + 1 && old(queues).waiting[0] in old(info)
      ensures info[old(queues).waiting[0]].ns == ns
    {
      hide Placed, Total, Load, Without, InFlight;
      var req := queues.waiting[0];
      FirstWaits();
      FrontRemoved(queues.waiting);
      Drop(req);
      var id := TransactionIdPick();
      Launch(req, id, ns);
    }

    lemma FirstWaits()
      requires Valid() && queues.waiting != []
      ensures var r := queues.waiting[0]; r in info && r.ns == null && info[r].ns == null
    {
      assert queues.waiting[0] in queues.waiting;
    }

    /**
     * evdns_requests_pump_waiting_queue: it stops only at the limit, with nothing waiting, or with no
     * server. Those that have waited longest go, each to the server whose turn it is; 'heads' is the
     * head of the server list before and after each turn.
     */
    method Pump() returns (ghost heads: seq<nat>)
      requires Valid()
      modifies this`queues, this`requestsInflight, this`requestsWaiting, this`serverHead, this`info
      modifies set r: Request | r in info, (set n: Nameserver | n in servers)`requestsInflight
      ensures Valid() && Pumped() && info.Keys == old(info).Keys
      ensures Launched(servers, info, heads, old(queues).waiting, queues.waiting)
      ensures heads[0] == old(serverHead) && heads[|heads| - 1] == serverHead
      ensures requestsInflight == old(requestsInflight) + |heads| - 1
      ensures forall r | r in info && old(r.ns) != null :: info[r] == old(info)[r]
      ensures old(requestsInflight) <= maxRequestsInflight ==> requestsInflight <= maxRequestsInflight
    {
      hide Placed, Total, Load, Without, PicksNext, Launched, NoDup, Valid;
      WaitingCount();
      WaitDiffer();
      heads := [serverHead];
      NoneLaunched(servers, info, serverHead, queues.waiting);
      while requestsInflight < maxRequestsInflight && requestsWaiting != 0
        invariant Valid() && info.Keys == old(info).Keys && requestsWaiting == |queues.waiting|
        invariant Launched(servers, info, heads, old(queues).waiting, queues.waiting)
        invariant |heads| > 0 && heads[0] == old(serverHead) && heads[|heads| - 1] == serverHead
        invariant requestsInflight == old(requestsInflight) + |heads| - 1
        invariant forall r | r in info && old(r.ns) != null :: info[r] == old(info)[r]
        invariant old(requestsInflight) <= maxRequestsInflight ==> requestsInflight <= maxRequestsInflight
        decreases |queues.waiting|
      {
        FirstWaits();
        ghost var known, waits := info, queues.waiting;
        var ns := NameserverPick();
        if ns == null {
          return;
        }
        PumpOne(ns);
        WaitingCount();
        OneMoreLaunched(servers, known, info, heads, old(queues).waiting, waits, serverHead);
        heads := heads + [serverHead];
      }
    }

    lemma ListFacts()
      requires Valid()
      ensures servers != [] ==> serverHead < |servers|
    {
    }

    lemma WaitDiffer()
      requires Valid()
      ensures NoDup(queues.waiting)
    {
    }

    lemma WaitingCount()
      requires Valid()
      ensures requestsWaiting == |queues.waiting| && forall r | r in info :: info[r] == Info(r.transId, r.ns)
    {
    }

    /** request_swap_ns. */
    method SwapNs(req: Request, ns: Nameserver?)
      requires Valid() && req in info && req.ns != null && (ns != null ==> ns in servers)
      modifies this`info, req`ns, (set n: Nameserver | n in servers)`requestsInflight
      ensures Valid() && req.ns == if ns == null then old(req.ns) else ns
      ensures info == old(info)[req := Info(req.transId, req.ns)]
    {
      hide Placed, Total, Load, Without;
      if ns != null && req.ns != ns {
        SwapKeeps(queues, info, req, ns);
        req.ns.requestsInflight := req.ns.requestsInflight - 1;
        ns.requestsInflight := ns.requestsInflight + 1;
        req.ns := ns;
        info := info[req := Info(req.transId, ns)];
      } else {
        assert info[req := Info(req.transId, req.ns)] == info;
      }
    }

    /** The requests of the old lists, moved to 'n' new ones. */
    method Rehash(n: nat) returns (heads: seq<seq<Request>>)
      requires Valid() && n > 0
      ensures |heads| == n && Placed(queues.(heads := heads), info) && Total(heads) == Total(queues.heads)
      ensures forall m :: Load(heads, info, m) == Load(queues.heads, info, m)
    {
      hide Placed, Total, Load, Rehashing;
      heads := Empties(n);
      var rest := queues.heads;
      NoneMoved(queues, info, n);
      WaitingCount();
      for i := 0 to |rest|
        invariant |heads| == n && |rest| == |queues.heads| && Rehashing(rest, heads, info)
        invariant forall k | 0 <= k < i :: rest[k] == []
        invariant Total(rest) + Total(heads) == Total(queues.heads)
        invariant forall m :: Load(rest, info, m) + Load(heads, info, m) == Load(queues.heads, info, m)
      {
        while rest[i] != []
          invariant |heads| == n && |rest| == |queues.heads| && Rehashing(rest, heads, info)
          invariant forall k | 0 <= k < i :: rest[k] == []
          invariant Total(rest) + Total(heads) == Total(queues.heads)
          invariant forall m :: Load(rest, info, m) + Load(heads, info, m) == Load(queues.heads, info, m)
          decreases |rest[i]|
        {
          MoveStep(rest, heads, info, i);
          Known(rest, heads, i);
          var req := rest[i][0];
          var g := req.transId % n;
          rest, heads := rest[i := rest[i][1..]], heads[g := heads[g] + [req]];
        }
      }
      Rehashed(queues, rest, heads, info);
    }

    lemma Known(rest: seq<seq<Request>>, heads: seq<seq<Request>>, i: nat)
      requires Valid() && Rehashing(rest, heads, info) && i < |rest| && rest[i] != []
      ensures rest[i][0] in info && info[rest[i][0]].id == rest[i][0].transId
    {
      assert rest[i][0] in rest[i];
    }

    /**
     * evdns_base_set_max_requests_inflight; 'mem' says whether the new heads can be allocated. It
     * does not start the pump: when there is room under the new limit, what waits goes on waiting.
     * Its callers pass at most 65000.
     */
    method SetMaxRequestsInflight(maxinflight: int, mem: bool) returns (r: int)
      requires Valid() && maxinflight < NO_ID
      modifies this`queues, this`maxRequestsInflight
      ensures Valid() && queues.waiting == old(queues).waiting
      ensures r == if mem then 0 else -1
      ensures r == -1 ==> queues == old(queues) && maxRequestsInflight == old(maxRequestsInflight)
      ensures r == 0 ==> maxRequestsInflight == (if maxinflight < 1 then 1 else maxinflight)
                         && |queues.heads| == (maxRequestsInflight + 4) / 5
      ensures r == 0 ==> (Pumped() <==> requestsInflight >= (if maxinflight < 1 then 1 else maxinflight)
                                        || old(queues).waiting == [] || servers == [])
    {
      hide Placed, Total, Load;
      var max := if maxinflight < 1 then 1 else maxinflight;
      if !mem {
        return -1;
      }
      var heads := Rehash((max + 4) / 5);
      queues := queues.(heads := heads);
      maxRequestsInflight := max;
      return 0;
    }
  }

  /** One request in flight and one waiting; raising the limit to two leaves it waiting. */
  method RaisedLimitWaits() returns (base: DnsBase)
    ensures base.Valid() && !base.Pumped()
    ensures base.requestsInflight == 1 && base.maxRequestsInflight == 2 && |base.queues.waiting| == 1
  {
    hide DnsBase.Valid, DnsBase.Pumped;
    var ns := new Nameserver(true);
    base := new DnsBase([ns], 1);
    var first := new Request();
    base.Submit(first);
    var second := new Request();
    base.Submit(second);
    var _ := base.SetMaxRequestsInflight(2, true);
  }

  /** The counts of the servers sum to the number of requests in flight. */
  ghost function SumLoads(servers: seq<Nameserver>, heads: seq<seq<Request>>, info: map<Request, Info>): nat {
    if servers == [] then 0 else Load(heads, info, servers[0]) + SumLoads(servers[1..], heads, info)
  }

  lemma {:induction false} LoadsSum(servers: seq<Nameserver>, heads: seq<seq<Request>>, info: map<Request, Info>)
    requires NoDup(servers)
    requires forall h, r | 0 <= h < |heads| && r in heads[h] :: r in info && info[r].ns in servers
    ensures SumLoads(servers, heads, info) == Total(heads)
    decreases |heads|
  {
    if heads == [] {
      NoLoad(servers, info);
    } else {
      assert forall h | 0 <= h < |heads[1..]| :: heads[1..][h] == heads[h + 1];
      LoadsSum(servers, heads[1..], info);
      SumSplit(servers, heads, info);
      CountsSum(servers, heads[0], info);
    }
  }

  ghost function SumCounts(servers: seq<Nameserver>, q: seq<Request>, info: map<Request, Info>): nat {
    if servers == [] then 0 else CountIn(q, info, servers[0]) + SumCounts(servers[1..], q, info)
  }

  lemma {:induction false} NoLoad(servers: seq<Nameserver>, info: map<Request, Info>)
    ensures SumLoads(servers, [], info) == 0
  {
    if servers != [] {
      NoLoad(servers[1..], info);
    }
  }

  lemma {:induction false} SumSplit(servers: seq<Nameserver>, heads: seq<seq<Request>>, info: map<Request, Info>)
    requires heads != []
    ensures SumLoads(servers, heads, info) == SumCounts(servers, heads[0], info) + SumLoads(servers, heads[1..], info)
  {
    if servers != [] {
      SumSplit(servers[1..], heads, info);
    }
  }

  lemma {:induction false} CountsSum(servers: seq<Nameserver>, q: seq<Request>, info: map<Request, Info>)
    requires NoDup(servers) && forall r | r in q :: r in info && info[r].ns in servers
    ensures SumCounts(servers, q, info) == |q|
  {
    if q == [] {
      NoCount(servers, info);
    } else {
      assert forall r | r in q[1..] :: r in q;
      CountsSum(servers, q[1..], info);
      OneMore(servers, q, info);
    }
  }

  lemma {:induction false} NoCount(servers: seq<Nameserver>, info: map<Request, Info>)
    ensures SumCounts(servers, [], info) == 0
  {
    if servers != [] {
      NoCount(servers[1..], info);
    }
  }

  lemma {:induction false} OneMore(servers: seq<Nameserver>, q: seq<Request>, info: map<Request, Info>)
    requires NoDup(servers) && q != [] && q[0] in info
    ensures SumCounts(servers, q, info) == SumCounts(servers, q[1..], info) + if info[q[0]].ns in servers then 1 else 0
  {
    if servers != [] {
      OneMore(servers[1..], q, info);
      assert servers == [servers[0]] + servers[1..];
      assert servers[0] !in servers[1..];
    }
  }

  /** The position 'i' places behind 'a' in a circular list of 'n'. */
  function Around(a: nat, i: nat, n: nat): nat
    requires a < n && i < n
  {
    if a + i < n then a + i else a + i - n
  }

  /** Server 'ns' is the first that is up from 'head' on, 'k' places behind; the turn goes to the one after it. */
  ghost predicate Picks(servers: seq<Nameserver>, head: nat, head': nat, ns: Nameserver?, k: nat)
    reads (set n: Nameserver | n in servers)`state
  {
    && head < |servers| && k < |servers|
    && (forall i | 0 <= i < k :: !servers[Around(head, i, |servers|)].state)
    && ns == servers[Around(head, k, |servers|)] && servers[Around(head, k, |servers|)].state
    && head' == Turn(Around(head, k, |servers|), |servers|)
  }

  lemma AllSeen(servers: seq<Nameserver>, head: nat)
    requires head < |servers| && forall i | 0 <= i < |servers| :: !servers[Around(head, i, |servers|)].state
    ensures forall n | n in servers :: !n.state
  {
    forall j | 0 <= j < |servers| ensures !servers[j].state {
      assert j == Around(head, if j >= head then j - head else j + |servers| - head, |servers|);
    }
  }

  lemma UpPicksHead(servers: seq<Nameserver>, head: nat, head': nat, ns: Nameserver?, k: nat)
    requires Picks(servers, head, head', ns, k) && servers[head].state
    ensures ns == servers[head] && head' == Turn(head, |servers|)
  {
    assert servers[Around(head, 0, |servers|)] == servers[head];
  }

  /** The first server that is up, if any is; the next one otherwise. */
  ghost predicate PicksNext(servers: seq<Nameserver>, head: nat, head': nat, ns: Nameserver)
    reads (set n: Nameserver | n in servers)`state
  {
    if exists n | n in servers :: n.state then PicksFirstUp(servers, head, head', ns)
    else head' < |servers| && head' == Turn(head, |servers|) && ns == servers[head']
  }

  ghost predicate PicksFirstUp(servers: seq<Nameserver>, head: nat, head': nat, ns: Nameserver?)
    reads (set n: Nameserver | n in servers)`state
  {
    exists k :: Picks(servers, head, head', ns, k)
  }

  /**
   * The requests that are not in 'after' any more went, in their order, to the servers picked in a
   * row, with the list's head at 'heads' before and after each.
   */
  ghost predicate Launched(servers: seq<Nameserver>, info: map<Request, Info>, heads: seq<nat>,
                           before: seq<Request>, after: seq<Request>)
    reads (set n: Nameserver | n in servers)`state
  {
    && 0 < |heads| <= |before| + 1 && after == before[|heads| - 1..]
    && forall i | 0 <= i < |heads| - 1 ::
         && before[i] in info && info[before[i]].ns != null
         && PicksNext(servers, heads[i], heads[i + 1], info[before[i]].ns)
  }

  lemma NoneLaunched(servers: seq<Nameserver>, info: map<Request, Info>, head: nat, q: seq<Request>)
    ensures Launched(servers, info, [head], q, q)
  {
  }

  lemma OneMoreLaunched(servers: seq<Nameserver>, info: map<Request, Info>, info': map<Request, Info>,
                        heads: seq<nat>, before: seq<Request>, q: seq<Request>, head: nat)
    requires Launched(servers, info, heads, before, q) && q != [] && NoDup(before)
    requires info'.Keys == info.Keys && forall r | r in info && r != q[0] :: info'[r] == info[r]
    requires q[0] in info' && info'[q[0]].ns != null
    requires PicksNext(servers, heads[|heads| - 1], head, info'[q[0]].ns)
    ensures Launched(servers, info', heads + [head], before, q[1..])
  {
    hide PicksNext;
  }

  /** The picks 'picked' in a row, with the list's head at 'heads' before and after each. */
  ghost predicate InARow(servers: seq<Nameserver>, heads: seq<nat>, picked: seq<Nameserver?>)
    reads (set n: Nameserver | n in servers)`state
  {
    && |heads| == |picked| + 1
    && forall i | 0 <= i < |picked| :: picked[i] != null && PicksNext(servers, heads[i], heads[i + 1], picked[i])
  }

  lemma Remainder(x: nat, q: int, r: nat, n: nat)
    requires r < n && x == q * n + r
    ensures x % n == r
  {
    var d := q - x / n;
    assert d * n == x % n - r;
    Multiple(d, n);
  }

  lemma Multiple(d: int, n: nat)
    ensures d > 0 ==> d * n >= n
    ensures d < 0 ==> d * n + n <= 0
  {
    if d > 0 {
      NotNegative(d - 1, n);
      assert d * n == (d - 1) * n + n;
    } else if d < 0 {
      NotNegative(-d - 1, n);
      assert d * n + n == -((-d - 1) * n);
    }
  }

  lemma NotNegative(a: nat, b: nat)
    ensures a * b >= 0
  {
  }

  lemma TurnRound(a: nat, n: nat)
    requires n > 0
    ensures Turn(a % n, n) == (a + 1) % n
  {
    var q := a / n;
    if a % n + 1 == n {
      assert a + 1 == (q + 1) * n + 0;
      Remainder(a + 1, q + 1, 0, n);
    } else {
      Remainder(a + 1, q, a % n + 1, n);
    }
  }

  /** Load balancing: with every server up, any number of picks in a row goes round and round the list. */
  lemma {:induction false} PicksGoRound(servers: seq<Nameserver>, heads: seq<nat>, picked: seq<Nameserver?>, m: nat)
    requires InARow(servers, heads, picked) && m < |picked| && forall n | n in servers :: n.state
    requires heads[0] < |servers|
    ensures picked[m] == servers[(heads[0] + m) % |servers|]
    ensures heads[m + 1] == (heads[0] + m + 1) % |servers|
  {
    var n := |servers|;
    if m > 0 {
      PicksGoRound(servers, heads, picked, m - 1);
    } else {
      Remainder(heads[0], 0, heads[0], n);
    }
    PickTurns(servers, heads[m], heads[m + 1], picked[m]);
    TurnRound(heads[0] + m, n);
  }

  lemma PickTurns(servers: seq<Nameserver>, h: nat, h': nat, ns: Nameserver)
    requires h < |servers| && PicksNext(servers, h, h', ns) && forall n | n in servers :: n.state
    ensures ns == servers[h] && h' == Turn(h, |servers|)
  {
    assert servers[h] in servers;
    var k :| Picks(servers, h, h', ns, k);
    UpPicksHead(servers, h, h', ns, k);
  }

  /** The servers that are up, in their order. */
  ghost function Up(q: seq<Nameserver>): seq<Nameserver>
    reads (set n: Nameserver | n in q)`state
  {
    if q == [] then []
    else
      assert forall n | n in q[1..] :: n in q;
      (if q[0].state then [q[0]] else []) + Up(q[1..])
  }

  /** The servers from the head on and around. */
  ghost function From(servers: seq<Nameserver>, head: nat): seq<Nameserver>
    requires head <= |servers|
  {
    servers[head..] + servers[..head]
  }

  lemma {:induction false} UpConcat(a: seq<Nameserver>, b: seq<Nameserver>)
    ensures Up(a + b) == Up(a) + Up(b)
  {
    if a == [] {
      assert a + b == b;
    } else {
      assert (a + b)[1..] == a[1..] + b;
      UpConcat(a[1..], b);
    }
  }

  lemma {:induction false} UpNone(q: seq<Nameserver>)
    requires forall n | n in q :: !n.state
    ensures Up(q) == []
  {
    if q != [] {
      UpNone(q[1..]);
    }
  }

  lemma {:induction false} UpLess(q: seq<Nameserver>)
    requires NoDup(q)
    ensures NoDup(Up(q)) && forall n :: n in Up(q) <==> n in q && n.state
  {
    if q != [] {
      assert q == [q[0]] + q[1..] && forall n | n in q[1..] :: n != q[0];
      UpLess(q[1..]);
    }
  }

  /** A pick takes the first of the servers that are up, which then is the last in turn. */
  lemma PickRotates(servers: seq<Nameserver>, h: nat, h': nat, ns: Nameserver, k: nat)
    requires Picks(servers, h, h', ns, k)
    ensures h' < |servers| && Up(From(servers, h)) != [] && ns == Up(From(servers, h))[0]
    ensures Up(From(servers, h')) == Up(From(servers, h))[1..] + [ns]
  {
    hide Up;
    var q := From(servers, h);
    var d, e := q[..k], q[k + 1..];
    forall i | 0 <= i < |q| ensures q[i] == servers[Around(h, i, |servers|)] {
    }
    assert q == d + [ns] + e;
    assert From(servers, h') == e + d + [ns];
    forall n | n in d ensures !n.state {
      var i :| 0 <= i < k && d[i] == n;
    }
    UpNone(d);
    UpOne(ns);
    UpConcat(d + [ns], e);
    UpConcat(d, [ns]);
    UpConcat(e + d, [ns]);
    UpConcat(e, d);
    assert Up(q) == [ns] + Up(e);
  }

  lemma UpOne(ns: Nameserver)
    requires ns.state
    ensures Up([ns]) == [ns]
  {
  }

  ghost function Rotated(q: seq<Nameserver>, k: nat): seq<Nameserver>
    requires k <= |q|
  {
    q[k..] + q[..k]
  }

  /**
   * Load balancing with servers down: any number of picks in a row goes round and round the servers
   * that are up, so none of them is picked again before all the others have been.
   */
  lemma {:induction false} PicksShareLoad(servers: seq<Nameserver>, heads: seq<nat>, picked: seq<Nameserver?>, m: nat)
    requires InARow(servers, heads, picked) && m < |picked| && (exists n | n in servers :: n.state)
    requires heads[0] < |servers|
    ensures heads[m + 1] < |servers|
    ensures var up := Up(From(servers, heads[0]));
            && 0 < |up| && picked[m] == up[m % |up|]
            && Up(From(servers, heads[m + 1])) == Rotated(up, (m + 1) % |up|)
  {
    hide Up, From;
    var up := Up(From(servers, heads[0]));
    if m > 0 {
      PicksShareLoad(servers, heads, picked, m - 1);
    } else {
      assert Rotated(up, 0) == up;
    }
    var h, h', ns: Nameserver := heads[m], heads[m + 1], picked[m];
    assert PicksNext(servers, h, h', ns);
    var k :| Picks(servers, h, h', ns, k);
    PickRotates(servers, h, h', ns, k);
    if m == 0 {
      Remainder(0, 0, 0, |up|);
    }
    RotatedOn(up, m);
  }

  lemma RotatedOn(q: seq<Nameserver>, m: nat)
    requires q != []
    ensures var r := Rotated(q, m % |q|);
            r[0] == q[m % |q|] && r[1..] + [r[0]] == Rotated(q, (m + 1) % |q|)
  {
    var n := |q|;
    TurnRound(m, n);
    var k := m % n;
    if k + 1 == n {
      assert Rotated(q, 0) == q;
    }
  }

  /** What the pump launches goes round the list as well. */
  lemma LaunchedGoRound(servers: seq<Nameserver>, info: map<Request, Info>, heads: seq<nat>,
                        before: seq<Request>, after: seq<Request>, m: nat)
    requires Launched(servers, info, heads, before, after) && m < |heads| - 1 && forall n | n in servers :: n.state
    requires heads[0] < |servers|
    ensures before[m] in info && info[before[m]].ns == servers[(heads[0] + m) % |servers|]
  {
    hide PicksNext;
    var picked := seq(|heads| - 1, i requires 0 <= i < |heads| - 1 => info[before[i]].ns);
    PicksGoRound(servers, heads, picked, m);
  }

  /** Queries for which there is room, with every server up: each goes to the server behind the last one's. */
  method SubmitAll(base: DnsBase, reqs: seq<Request>)
    requires base.Valid() && base.servers != [] && forall n | n in base.servers :: n.state
    requires NoDup(reqs) && forall r | r in reqs :: r !in base.info
    requires base.requestsInflight + |reqs| <= base.maxRequestsInflight
    modifies base`queues, base`requestsInflight, base`requestsWaiting, base`serverHead, base`info
    modifies set r: Request | r in reqs, (set n: Nameserver | n in base.servers)`requestsInflight
    ensures base.Valid() && old(base.serverHead) < |base.servers|
    ensures forall i | 0 <= i < |reqs| ::
      reqs[i] in base.info && base.info[reqs[i]].ns == base.servers[(old(base.serverHead) + i) % |base.servers|]
  {
    hide DnsBase.Valid, DnsBase.Pumped, PicksNext, Placed, InFlight, NoDup, InARow, Entered;
    ghost var heads, picked := [base.serverHead], [];
    NonePicked(base.servers, base.serverHead);
    base.ListFacts();
    for i := 0 to |reqs|
      invariant base.Valid() && forall k | i <= k < |reqs| :: reqs[k] !in base.info
      invariant base.requestsInflight == old(base.requestsInflight) + i
      invariant |heads| == |picked| + 1 == i + 1 && heads[0] == old(base.serverHead) && heads[i] == base.serverHead
      invariant InARow(base.servers, heads, picked)
      invariant forall k | 0 <= k < i :: reqs[k] in base.info && base.info[reqs[k]].ns == picked[k]
    {
      Differ(reqs, i);
      var req := reqs[i];
      base.Submit(req);
      base.WaitingCount();
      OneMorePicked(base.servers, heads, picked, req.ns, base.serverHead);
      picked, heads := picked + [req.ns], heads + [base.serverHead];
    }
    AllGoRound(base.servers, heads, picked);
  }

  lemma AllGoRound(servers: seq<Nameserver>, heads: seq<nat>, picked: seq<Nameserver?>)
    requires InARow(servers, heads, picked) && forall n | n in servers :: n.state
    requires |heads| > 0 && heads[0] < |servers|
    ensures forall i | 0 <= i < |picked| :: picked[i] == servers[(heads[0] + i) % |servers|]
  {
    hide InARow;
    forall i | 0 <= i < |picked| ensures picked[i] == servers[(heads[0] + i) % |servers|] {
      PicksGoRound(servers, heads, picked, i);
    }
  }

  lemma NonePicked(servers: seq<Nameserver>, head: nat)
    ensures InARow(servers, [head], [])
  {
  }

  lemma OneMorePicked(servers: seq<Nameserver>, heads: seq<nat>, picked: seq<Nameserver?>, ns: Nameserver, head: nat)
    requires InARow(servers, heads, picked) && PicksNext(servers, heads[|heads| - 1], head, ns)
    ensures InARow(servers, heads + [head], picked + [ns])
  {
    hide PicksNext;
  }

  lemma Differ(reqs: seq<Request>, i: nat)
    requires NoDup(reqs) && i < |reqs|
    ensures forall k | 0 <= k < |reqs| && k != i :: reqs[k] != reqs[i]
  {
  }
}
