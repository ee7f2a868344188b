/** The order server's assignment pass: a customer's dishes are handed to the cooks who are free. */
module Orders {
  import opened Options

  const MENU_ARR_SIZE := 32

  datatype UserState = UNKNOWN | CUSTOMER | COOK_FREE | COOK_BUSY
  datatype MenuState = UNDEFINED | CAPABLE | NEW | ASSIGNED | COMPLETED

  class Client {
    var state: UserState
    var assignedClient: Client?
    var numOfOrders: nat
    const menu: array<MenuState>

    constructor ()
      ensures state == UNKNOWN && assignedClient == null && numOfOrders == 0 && fresh(menu)
        && menu.Length == MENU_ARR_SIZE
      ensures forall i | 0 <= i < MENU_ARR_SIZE :: menu[i] == UNDEFINED
    {
      state, assignedClient, numOfOrders := UNKNOWN, null, 0;
      menu := new MenuState[MENU_ARR_SIZE](_ => UNDEFINED);
    }
  }

  /** What the server tells the customer when dishes are left over. */
  datatype Message = NoneServiceable | SomeMissing(missed: seq<nat>)

  /** A cook_order packet: the dishes that are ASSIGNED in it. */
  datatype Packet = Packet(cook: Client, orders: seq<MenuState>)

  /** No two clients are the same or share their menu. */
  ghost predicate Separate(clients: seq<Client>, customer: Client) {
    && (forall i, j | 0 <= i < j < |clients| :: clients[i] != clients[j] && clients[i].menu != clients[j].menu)
    && (forall i | 0 <= i < |clients| :: clients[i].menu.Length == MENU_ARR_SIZE)
    && customer.menu.Length == MENU_ARR_SIZE
    && (forall i | 0 <= i < |clients| && clients[i] != customer :: clients[i].menu != customer.menu)
  }

  /** The dishes the customer still waits for that the cook can make. */
  ghost function Takes(want: seq<MenuState>, can: seq<MenuState>): set<nat>
    requires |want| == |can|
  {
    set d: nat | d < |want| && want[d] == NEW && can[d] == CAPABLE
  }

  lemma TakesUpTo(want: seq<MenuState>, can: seq<MenuState>, i: nat)
    requires |want| == |can| && i <= |want|
    ensures Takes(want[..0], can[..0]) == {}
    ensures i < |want| ==> (i in Takes(want, can) <==> want[i] == NEW && can[i] == CAPABLE)
    ensures i < |want| ==> |Takes(want[..i + 1], can[..i + 1])|
                           == |Takes(want[..i], can[..i])| + if want[i] == NEW && can[i] == CAPABLE then 1 else 0
  {
    if i < |want| {
      var a, b := Takes(want[..i], can[..i]), Takes(want[..i + 1], can[..i + 1]);
      assert b == if want[i] == NEW && can[i] == CAPABLE then a + {i} else a;
    }
  }

  /** One free cook's turn. */
  method Offer(cook: Client, customer: Client) returns (orders: seq<MenuState>, taken: nat)
    requires cook.menu.Length == customer.menu.Length == MENU_ARR_SIZE && cook.menu != customer.menu
    modifies cook.menu, customer.menu
    ensures |orders| == MENU_ARR_SIZE && taken == |Takes(old(customer.menu[..]), old(cook.menu[..]))|
    ensures forall d | 0 <= d < MENU_ARR_SIZE ::
      if d in Takes(old(customer.menu[..]), old(cook.menu[..])) then
        orders[d] == customer.menu[d] == cook.menu[d] == ASSIGNED
      else orders[d] == UNDEFINED && customer.menu[d] == old(customer.menu[d]) && cook.menu[d] == old(cook.menu[d])
  {
    ghost var want, can := customer.menu[..], cook.menu[..];
    ghost var takes := Takes(want, can);
    hide Takes;
    orders, taken := seq(MENU_ARR_SIZE, _ => UNDEFINED), 0;
    TakesUpTo(want, can, 0);
    for i := 0 to MENU_ARR_SIZE
      invariant |orders| == MENU_ARR_SIZE && taken == |Takes(want[..i], can[..i])|
      invariant forall d | 0 <= d < i ::
        if d in takes then orders[d] == customer.menu[d] == cook.menu[d] == ASSIGNED
        else orders[d] == UNDEFINED && customer.menu[d] == old(customer.menu[d]) && cook.menu[d] == old(cook.menu[d])
      invariant forall d | i <= d < MENU_ARR_SIZE ::
        orders[d] == UNDEFINED && customer.menu[d] == old(customer.menu[d]) && cook.menu[d] == old(cook.menu[d])
    {
      TakesUpTo(want, can, i);
      if customer.menu[i] == NEW && cook.menu[i] == CAPABLE {
        orders := orders[i := ASSIGNED];
        customer.menu[i] := ASSIGNED;
        cook.menu[i] := ASSIGNED;
        taken := taken + 1;
      }
    }
    assert want[..MENU_ARR_SIZE] == want && can[..MENU_ARR_SIZE] == can;
  }

  /** The clients' states and menus, and the customer's dishes, when the pass starts. */
  datatype Start = Start(states: seq<UserState>, menus: seq<seq<MenuState>>, want: seq<MenuState>) {
    ghost predicate Valid() {
      && |menus| == |states| && |want| == MENU_ARR_SIZE
      && forall j | 0 <= j < |menus| :: |menus[j]| == MENU_ARR_SIZE
    }

    /** Client 'j' is a free cook who can make dish 'd'. */
    ghost predicate CanServe(j: nat, d: nat)
      requires Valid() && j < |states| && d < MENU_ARR_SIZE
    {
      states[j] == COOK_FREE && menus[j][d] == CAPABLE
    }

    /** One of the first 'k' clients is a free cook who can make dish 'd'. */
    ghost predicate Served(d: nat, k: nat)
      requires Valid() && k <= |states| && d < MENU_ARR_SIZE
    {
      exists j | 0 <= j < k :: CanServe(j, d)
    }

    /** Dish 'd' is wanted, and client 'j' is the first free cook who can make it. */
    ghost predicate Gets(j: nat, d: nat)
      requires Valid() && j < |states| && d < MENU_ARR_SIZE
    {
      want[d] == NEW && CanServe(j, d) && !Served(d, j)
    }

    ghost predicate GetsSome(j: nat)
      requires Valid() && j < |states|
    {
      exists d | 0 <= d < MENU_ARR_SIZE :: Gets(j, d)
    }

    /** The wanted dishes, and those that one of the first 'k' clients can make. */
    ghost function Wanted(): set<nat>
      requires Valid()
    {
      set d: nat | d < MENU_ARR_SIZE && want[d] == NEW
    }

    ghost function Assigned(k: nat): set<nat>
      requires Valid() && k <= |states|
    {
      set d: nat | d < MENU_ARR_SIZE && want[d] == NEW && Served(d, k)
    }
  }

  ghost function StatesOf(clients: seq<Client>): (r: seq<UserState>)
    reads set c: Client | c in clients
    ensures |r| == |clients| && forall j | 0 <= j < |clients| :: r[j] == clients[j].state
  {
    if clients == [] then [] else [clients[0].state] + StatesOf(clients[1..])
  }

  ghost function MenusOf(clients: seq<Client>): (r: seq<seq<MenuState>>)
    reads set c: Client | c in clients :: c.menu
    ensures |r| == |clients| && forall j | 0 <= j < |clients| :: r[j] == clients[j].menu[..]
  {
    if clients == [] then [] else [clients[0].menu[..]] + MenusOf(clients[1..])
  }

  /** What client 'j' is sent, if anything. */
  ghost function OrdersOf(s: Start, j: nat): (r: seq<MenuState>)
    requires s.Valid() && j < |s.states|
    ensures |r| == MENU_ARR_SIZE && forall d | 0 <= d < MENU_ARR_SIZE ::
      r[d] == if s.Gets(j, d) then ASSIGNED else UNDEFINED
  {
    seq(MENU_ARR_SIZE, d requires 0 <= d < MENU_ARR_SIZE => if s.Gets(j, d) then ASSIGNED else UNDEFINED)
  }

  /** One packet for each of the first 'k' clients who gets something. */
  ghost function PacketsOf(s: Start, clients: seq<Client>, k: nat): seq<Packet>
    requires s.Valid() && |s.states| == |clients| && k <= |clients|
  {
    if k == 0 then []
    else PacketsOf(s, clients, k - 1) + if s.GetsSome(k - 1) then [Packet(clients[k - 1], OrdersOf(s, k - 1))] else []
  }

  ghost predicate WantAfter(s: Start, menu: array<MenuState>, k: nat)
    requires s.Valid() && k <= |s.states|
    reads menu
  {
    && menu.Length == MENU_ARR_SIZE
    && forall d | 0 <= d < MENU_ARR_SIZE ::
      menu[d] == if s.want[d] == NEW && s.Served(d, k) then ASSIGNED else s.want[d]
  }

  ghost predicate MenuAfter(s: Start, menu: array<MenuState>, j: nat, k: nat)
    requires s.Valid() && j < |s.states|
    reads menu
  {
    && menu.Length == MENU_ARR_SIZE
    && forall d | 0 <= d < MENU_ARR_SIZE :: menu[d] == if j < k && s.Gets(j, d) then ASSIGNED else s.menus[j][d]
  }

  /** After the first 'k' clients have had their turn. */
  ghost predicate After(s: Start, clients: seq<Client>, customer: Client, k: nat)
    requires s.Valid() && |s.states| == |clients| && k <= |clients|
    reads customer.menu, (set c: Client | c in clients)`state, set c: Client | c in clients :: c.menu
  {
    && WantAfter(s, customer.menu, k)
    && (forall j | 0 <= j < |clients| && clients[j].menu != customer.menu :: MenuAfter(s, clients[j].menu, j, k))
    && (forall j | 0 <= j < |clients| :: clients[j].state == if j < k && s.GetsSome(j) then COOK_BUSY else s.states[j])
  }

  /** The free cooks among the first 'k' clients have been given the customer, whether they take a dish or not. */
  ghost predicate CooksAfter(s: Start, clients: seq<Client>, customer: Client, before: seq<Client?>, k: nat)
    requires |s.states| == |clients| == |before|
    reads (set c: Client | c in clients)`assignedClient
  {
    forall j | 0 <= j < |clients| ::
      clients[j].assignedClient == if j < k && s.states[j] == COOK_FREE then customer else before[j]
  }

  ghost function CustomersOf(clients: seq<Client>): (r: seq<Client?>)
    reads (set c: Client | c in clients)`assignedClient
    ensures |r| == |clients| && forall j | 0 <= j < |clients| :: r[j] == clients[j].assignedClient
  {
    if clients == [] then [] else [clients[0].assignedClient] + CustomersOf(clients[1..])
  }

  /** Every wanted dish some free cook can make goes to exactly one of them. */
  lemma {:induction false} OneCook(s: Start, d: nat, k: nat)
    requires s.Valid() && k <= |s.states| && d < MENU_ARR_SIZE && s.want[d] == NEW
    ensures s.Served(d, k) <==> exists j | 0 <= j < k :: s.Gets(j, d)
    ensures forall i, j | 0 <= i < |s.states| && 0 <= j < |s.states| && s.Gets(i, d) && s.Gets(j, d) :: i == j
  {
    if k > 0 && s.Served(d, k) {
      if s.Served(d, k - 1) {
        OneCook(s, d, k - 1);
      } else {
        assert s.Gets(k - 1, d);
      }
    }
  }

  /** Client 'k' has nothing to do with the pass: no free cook. */
  lemma NotFree(s: Start, clients: seq<Client>, customer: Client, k: nat)
    requires s.Valid() && |s.states| == |clients| && k < |clients| && After(s, clients, customer, k)
    requires s.states[k] != COOK_FREE
    ensures After(s, clients, customer, k + 1) && !s.GetsSome(k) && s.Assigned(k + 1) == s.Assigned(k)
  {
    forall d | 0 <= d < MENU_ARR_SIZE ensures s.Served(d, k + 1) == s.Served(d, k) && !s.Gets(k, d) {
      assert !s.CanServe(k, d);
    }
  }

  /** The dishes cook 'k' takes are those it gets, and they add to the dishes assigned so far. */
  lemma TakesGets(s: Start, want: seq<MenuState>, can: seq<MenuState>, k: nat)
    requires s.Valid() && k < |s.states| && s.states[k] == COOK_FREE && |want| == MENU_ARR_SIZE && can == s.menus[k]
    requires forall d | 0 <= d < MENU_ARR_SIZE ::
      want[d] == if s.want[d] == NEW && s.Served(d, k) then ASSIGNED else s.want[d]
    ensures forall d | 0 <= d < MENU_ARR_SIZE :: d in Takes(want, can) <==> s.Gets(k, d)
    ensures forall d | 0 <= d < MENU_ARR_SIZE && s.Gets(k, d) :: s.want[d] == NEW
    ensures forall d | 0 <= d < MENU_ARR_SIZE ::
      s.want[d] == NEW ==> (s.Served(d, k + 1) <==> s.Served(d, k) || s.Gets(k, d))
    ensures |s.Assigned(k + 1)| == |s.Assigned(k)| + |Takes(want, can)|
    ensures |Takes(want, can)| > 0 <==> s.GetsSome(k)
  {
    var takes := Takes(want, can);
    forall d | 0 <= d < MENU_ARR_SIZE && s.want[d] == NEW
      ensures s.Served(d, k + 1) <==> s.Served(d, k) || s.Gets(k, d)
    {
      if s.Gets(k, d) {
        assert s.CanServe(k, d);
      }
    }
    assert s.Assigned(k + 1) == s.Assigned(k) + takes;
    assert s.Assigned(k) !! takes;
    if |takes| > 0 {
      var d :| d in takes;
      assert s.Gets(k, d);
    } else {
      assert takes == {};
    }
  }

  /** The dishes of a free cook's turn. */
  method TakeDishes(cook: Client, customer: Client, ghost s: Start, ghost k: nat)
    returns (taken: nat, orders: seq<MenuState>)
    requires s.Valid() && k < |s.states| && s.states[k] == COOK_FREE && cook.menu != customer.menu
    requires WantAfter(s, customer.menu, k) && MenuAfter(s, cook.menu, k, k)
    modifies cook.menu, customer.menu
    ensures WantAfter(s, customer.menu, k + 1) && MenuAfter(s, cook.menu, k, k + 1)
    ensures |s.Assigned(k + 1)| == |s.Assigned(k)| + taken && (taken > 0 <==> s.GetsSome(k))
    ensures orders == OrdersOf(s, k)
  {
    hide Start.Served, Start.CanServe, Start.Gets, Start.GetsSome, Takes;
    assert cook.menu[..] == s.menus[k];
    TakesGets(s, customer.menu[..], cook.menu[..], k);
    orders, taken := Offer(cook, customer);
  }

  /** A free cook's turn in the pass. */
  method Turn(cook: Client, customer: Client, ghost s: Start, ghost clients: seq<Client>, ghost k: nat)
    returns (taken: nat, orders: seq<MenuState>)
    requires s.Valid() && |s.states| == |clients| && k < |clients| && cook == clients[k]
    requires Separate(clients, customer) && After(s, clients, customer, k) && cook.state == COOK_FREE
      && cook != customer
    modifies cook`state, cook`assignedClient, cook.menu, customer.menu
    ensures After(s, clients, customer, k + 1) && cook.assignedClient == customer
    ensures |s.Assigned(k + 1)| == |s.Assigned(k)| + taken && (taken > 0 <==> s.GetsSome(k))
    ensures orders == OrdersOf(s, k)
  {
    hide Start.Served, Start.CanServe, Start.Gets, Start.GetsSome, WantAfter, MenuAfter;
    OthersStay(s, clients, customer, k);
    cook.assignedClient := customer;
    taken, orders := TakeDishes(cook, customer, s, k);
    if taken > 0 {
      cook.state := COOK_BUSY;
    }
  }

  lemma OthersStay(s: Start, clients: seq<Client>, customer: Client, k: nat)
    requires s.Valid() && |s.states| == |clients| && k < |clients| && After(s, clients, customer, k)
    ensures forall j | 0 <= j < |clients| && j != k && clients[j].menu != customer.menu ::
      MenuAfter(s, clients[j].menu, j, k + 1)
  {
  }

  lemma AssignedWanted(s: Start, k: nat)
    requires s.Valid() && k <= |s.states|
    ensures s.Assigned(k) <= s.Wanted() && |s.Assigned(k)| <= |s.Wanted()|
    ensures |s.Assigned(k)| == |s.Wanted()| <==> forall d | 0 <= d < MENU_ARR_SIZE && s.want[d] == NEW :: s.Served(d, k)
  {
    Cardinality(s.Assigned(k), s.Wanted());
    if forall d | 0 <= d < MENU_ARR_SIZE && s.want[d] == NEW :: s.Served(d, k) {
      assert s.Assigned(k) == s.Wanted();
    } else {
      var d :| 0 <= d < MENU_ARR_SIZE && s.want[d] == NEW && !s.Served(d, k);
      assert d in s.Wanted() && d !in s.Assigned(k);
    }
  }

  lemma Cardinality(a: set<nat>, b: set<nat>)
    requires a <= b
    ensures |a| <= |b| && (|a| == |b| ==> a == b)
  {
    assert b == a + (b - a);
  }

  /** When every wanted dish is served client 'k' gets nothing. */
  lemma NothingForNext(s: Start, clients: seq<Client>, customer: Client, k: nat)
    requires s.Valid() && |s.states| == |clients| && k < |clients| && After(s, clients, customer, k)
    requires |s.Assigned(k)| == |s.Wanted()|
    ensures After(s, clients, customer, k + 1) && !s.GetsSome(k) && |s.Assigned(k + 1)| == |s.Wanted()|
  {
    hide Start.CanServe;
    AssignedWanted(s, k);
    AssignedWanted(s, k + 1);
  }

  lemma {:induction false} NothingMore(s: Start, clients: seq<Client>, customer: Client, k: nat)
    requires s.Valid() && |s.states| == |clients| && k <= |clients| && After(s, clients, customer, k)
    requires |s.Assigned(k)| == |s.Wanted()|
    ensures After(s, clients, customer, |clients|) && |s.Assigned(|clients|)| == |s.Wanted()|
    ensures PacketsOf(s, clients, |clients|) == PacketsOf(s, clients, k)
    decreases |clients| - k
  {
    hide After, PacketsOf, Start.Assigned, Start.Wanted, Start.GetsSome;
    if k < |clients| {
      NothingForNext(s, clients, customer, k);
      NextPacket(s, clients, k);
      NothingMore(s, clients, customer, k + 1);
    }
  }

  /** The pass ends after 'stop' clients: at the end, or with the cook whose dishes bring the count to 'n'. */
  ghost predicate Stops(s: Start, n: nat, stop: nat)
    requires s.Valid()
  {
    && stop <= |s.states|
    && (stop < |s.states| ==> stop > 0 && s.GetsSome(stop - 1) && |s.Assigned(stop)| == n)
    && forall k | 0 <= k < stop - 1 && s.GetsSome(k) :: |s.Assigned(k + 1)| != n
  }

  /** The loop of cust_order over the client list. */
  method Pass(clients: seq<Client>, customer: Client, ghost s: Start, ghost before: seq<Client?>)
    returns (given: nat, packets: seq<Packet>, ghost stop: nat)
    requires s.Valid() && |s.states| == |clients| && Separate(clients, customer) && After(s, clients, customer, 0)
    requires customer.state == CUSTOMER && |before| == |clients| && CooksAfter(s, clients, customer, before, 0)
    modifies (set c: Client | c in clients)`state, (set c: Client | c in clients)`assignedClient
    modifies customer.menu, set c: Client | c in clients :: c.menu
    ensures stop <= |clients| && Stops(s, customer.numOfOrders, stop)
    ensures After(s, clients, customer, stop) && customer.state == CUSTOMER
    ensures given == |s.Assigned(stop)| && packets == PacketsOf(s, clients, stop)
    ensures CooksAfter(s, clients, customer, before, stop)
  {
    hide Start.Served, Start.CanServe, Start.Gets, Start.GetsSome, Start.Assigned, Takes, After, Separate, PacketsOf;
    given, packets, stop := 0, [], |clients|;
    NoneYet(s, clients);
    for k := 0 to |clients|
      invariant After(s, clients, customer, k) && customer.state == CUSTOMER
      invariant given == |s.Assigned(k)| && packets == PacketsOf(s, clients, k)
      invariant CooksAfter(s, clients, customer, before, k)
      invariant forall j | 0 <= j < k && s.GetsSome(j) :: |s.Assigned(j + 1)| != customer.numOfOrders
    {
      var cook := clients[k];
      NextPacket(s, clients, k);
      StateNow(s, clients, customer, k);
      Unlike(clients, customer, k);
      if cook.state == COOK_FREE {
        var taken, orders := Turn(cook, customer, s, clients, k);
        given := given + taken;
        if taken == 0 {
          continue;
        }
        packets := packets + [Packet(cook, orders)];
        if customer.numOfOrders == given {
          stop := k + 1;
          return;
        }
      } else {
        NotFree(s, clients, customer, k);
      }
    }
  }

  lemma Unlike(clients: seq<Client>, customer: Client, k: nat)
    requires Separate(clients, customer) && k < |clients|
    ensures forall j | 0 <= j < |clients| && j != k :: clients[j] != clients[k]
  {
  }

  lemma NoneYet(s: Start, clients: seq<Client>)
    requires s.Valid() && |s.states| == |clients|
    ensures s.Assigned(0) == {} && PacketsOf(s, clients, 0) == []
  {
  }

  lemma NextPacket(s: Start, clients: seq<Client>, k: nat)
    requires s.Valid() && |s.states| == |clients| && k < |clients|
    ensures PacketsOf(s, clients, k + 1)
         == PacketsOf(s, clients, k) + if s.GetsSome(k) then [Packet(clients[k], OrdersOf(s, k))] else []
  {
  }

  lemma StateNow(s: Start, clients: seq<Client>, customer: Client, k: nat)
    requires s.Valid() && |s.states| == |clients| && k < |clients| && After(s, clients, customer, k)
    ensures clients[k].state == s.states[k]
  {
  }

  /** The dishes of an order: the bytes before the first UNKNOWN one. */
  function Listed(orders: seq<nat>): (n: nat)
    ensures n <= |orders| && (forall i | 0 <= i < n :: orders[i] != 0) && (n < |orders| ==> orders[n] == 0)
  {
    if orders == [] || orders[0] == 0 then 0 else 1 + Listed(orders[1..])
  }

  ghost function DishSet(orders: seq<nat>, n: nat): set<nat>
    requires n <= |orders|
  {
    set i | 0 <= i < n :: orders[i]
  }

  /** At most as many different dishes as numbers; exactly as many if no number is repeated. */
  lemma {:induction false} DishCount(orders: seq<nat>, n: nat)
    requires n <= |orders|
    ensures |DishSet(orders, n)| <= n
    ensures (forall i, j | 0 <= i < j < n :: orders[i] != orders[j]) ==> |DishSet(orders, n)| == n
  {
    if n > 0 {
      DishCount(orders, n - 1);
      assert DishSet(orders, n) == DishSet(orders, n - 1) + {orders[n - 1]};
    }
  }

  /** The first loop of cust_order: the dishes become NEW. */
  method TakeOrder(customer: Client, orders: seq<nat>)
    requires customer.menu.Length == MENU_ARR_SIZE && |orders| == MENU_ARR_SIZE
    requires forall i | 0 <= i < Listed(orders) :: orders[i] < MENU_ARR_SIZE
    modifies customer.menu, customer`numOfOrders
    ensures customer.numOfOrders == Listed(orders)
    ensures forall d | 0 <= d < MENU_ARR_SIZE ::
      customer.menu[d] == if d in DishSet(orders, Listed(orders)) then NEW else old(customer.menu[d])
  {
    customer.numOfOrders := 0;
    var i := 0;
    while i < MENU_ARR_SIZE && orders[i] != 0
      invariant i <= Listed(orders) && customer.numOfOrders == i
      invariant forall d | 0 <= d < MENU_ARR_SIZE ::
        customer.menu[d] == if d in DishSet(orders, i) then NEW else old(customer.menu[d])
    {
      assert DishSet(orders, i + 1) == DishSet(orders, i) + {orders[i]};
      customer.menu[orders[i]] := NEW;
      customer.numOfOrders := customer.numOfOrders + 1;
      i := i + 1;
    }
  }

  /** The dishes that are still NEW, in order. */
  method Missing(menu: array<MenuState>) returns (missed: seq<nat>)
    requires menu.Length == MENU_ARR_SIZE
    ensures forall d: nat :: d in missed <==> d < MENU_ARR_SIZE && menu[d] == NEW
    ensures forall i, j | 0 <= i < j < |missed| :: missed[i] < missed[j]
  {
    missed := [];
    for i := 0 to MENU_ARR_SIZE
      invariant forall d: nat :: d in missed <==> d < i && menu[d] == NEW
      invariant forall m | 0 <= m < |missed| :: missed[m] < i
      invariant forall m, n | 0 <= m < n < |missed| :: missed[m] < missed[n]
    {
      if menu[i] == NEW {
        missed := missed + [i];
      }
    }
  }

  /** The start of the pass, when the order has been taken. */
  ghost function StartOf(clients: seq<Client>, customer: Client): (s: Start)
    requires Separate(clients, customer)
    reads customer.menu, set c: Client | c in clients, set c: Client | c in clients :: c.menu
    ensures s.Valid() && |s.states| == |clients|
    ensures forall j | 0 <= j < |clients| :: s.states[j] == clients[j].state && s.menus[j] == clients[j].menu[..]
    ensures s.want == customer.menu[..]
  {
    Start(StatesOf(clients), MenusOf(clients), customer.menu[..])
  }

  lemma StartsAfterNone(clients: seq<Client>, customer: Client)
    requires Separate(clients, customer)
    ensures After(StartOf(clients, customer), clients, customer, 0)
  {
  }

  /** What is wanted are the dishes of the order, if none were wanted before. */
  lemma WantedDishes(s: Start, orders: seq<nat>)
    requires s.Valid() && |orders| == MENU_ARR_SIZE && forall i | 0 <= i < Listed(orders) :: orders[i] < MENU_ARR_SIZE
    requires forall d | 0 <= d < MENU_ARR_SIZE :: s.want[d] == NEW <==> d in DishSet(orders, Listed(orders))
    ensures |s.Wanted()| <= Listed(orders)
    ensures (forall i, j | 0 <= i < j < Listed(orders) :: orders[i] != orders[j]) ==> |s.Wanted()| == Listed(orders)
  {
    DishCount(orders, Listed(orders));
    assert s.Wanted() == DishSet(orders, Listed(orders));
  }

  /** Dishes stay NEW exactly when fewer were assigned than wanted. */
  lemma Shortfall(s: Start, menu: array<MenuState>, k: nat)
    requires s.Valid() && k <= |s.states| && WantAfter(s, menu, k)
    ensures |s.Assigned(k)| != |s.Wanted()| <==> exists d | 0 <= d < MENU_ARR_SIZE :: menu[d] == NEW
  {
    AssignedWanted(s, k);
  }

  /** What one more client adds to the dishes assigned. */
  lemma AssignedStep(s: Start, k: nat)
    requires s.Valid() && k < |s.states|
    ensures |s.Assigned(k)| <= |s.Assigned(k + 1)|
    ensures |s.Assigned(k)| < |s.Assigned(k + 1)| <==> s.GetsSome(k)
  {
    var a, b := s.Assigned(k), s.Assigned(k + 1);
    Cardinality(a, b);
    if s.GetsSome(k) {
      var d :| 0 <= d < MENU_ARR_SIZE && s.Gets(k, d);
      assert s.CanServe(k, d);
      assert d in b && d !in a;
    } else {
      forall d | d in b ensures d in a {
        if d !in a {
          assert s.Gets(k, d);
        }
      }
      assert a == b;
    }
  }

  lemma {:induction false} AssignedGrows(s: Start, k: nat, m: nat)
    requires s.Valid() && k <= m <= |s.states|
    ensures |s.Assigned(k)| <= |s.Assigned(m)|
    decreases m
  {
    hide Start.Assigned, Start.GetsSome;
    if k < m {
      AssignedGrows(s, k, m - 1);
      AssignedStep(s, m - 1);
    }
  }

  /** Handing out dishes client by client, the count comes to 'n'; before any cook it is not looked at. */
  ghost predicate Met(s: Start, n: nat)
    requires s.Valid()
  {
    if n == 0 then |s.Assigned(|s.states|)| == 0 else exists k | 0 <= k <= |s.states| :: |s.Assigned(k)| == n
  }

  /** The client whose turn brings the count to 'n'. */
  lemma {:induction false} MeetingTurn(s: Start, n: nat, k: nat) returns (m: nat)
    requires s.Valid() && 0 < n && k <= |s.states| && |s.Assigned(k)| == n
    ensures 0 < m <= k && |s.Assigned(m)| == n && s.GetsSome(m - 1)
  {
    assert s.Assigned(0) == {};
    AssignedStep(s, k - 1);
    if s.GetsSome(k - 1) {
      m := k;
    } else {
      m := MeetingTurn(s, n, k - 1);
    }
  }

  lemma StopFacts(s: Start, n: nat, stop: nat)
    requires s.Valid() && Stops(s, n, stop)
    ensures stop <= |s.states|
    ensures stop < |s.states| ==> stop > 0 && s.GetsSome(stop - 1) && |s.Assigned(stop)| == n
  {
  }

  lemma NotBeforeStop(s: Start, n: nat, stop: nat, m: nat)
    requires s.Valid() && Stops(s, n, stop) && 0 < m < stop && s.GetsSome(m - 1)
    ensures |s.Assigned(m)| != n
  {
    var k := m - 1;
    assert k < stop - 1 && s.GetsSome(k);
  }

  /** The pass ends with the number ordered exactly when the count comes to it at all. */
  lemma StopsMet(s: Start, n: nat, stop: nat)
    requires s.Valid() && Stops(s, n, stop)
    ensures stop <= |s.states| && (|s.Assigned(stop)| == n <==> Met(s, n))
    ensures !Met(s, n) ==> stop == |s.states|
  {
    hide Start.Assigned, Start.GetsSome, Stops;
    StopFacts(s, n, stop);
    if stop < |s.states| {
      AssignedStep(s, stop - 1);
    }
    if n == 0 {
      AssignedGrows(s, stop, |s.states|);
    } else if Met(s, n) {
      var k :| 0 <= k <= |s.states| && |s.Assigned(k)| == n;
      var m := MeetingTurn(s, n, k);
      if m < stop {
        NotBeforeStop(s, n, stop, m);
      }
    }
  }

  /** Some wanted dish no free cook can make. */
  ghost predicate Unservable(s: Start)
    requires s.Valid()
  {
    exists d | 0 <= d < MENU_ARR_SIZE :: s.want[d] == NEW && !s.Served(d, |s.states|)
  }

  /**
   * The message goes out when the count never comes to the number ordered. For any order, whatever
   * waits from earlier ones, it says whether a dish stays NEW exactly when as many dishes are
   * wanted as numbers were ordered, or the count never comes to that number and some wanted dish
   * cannot be made: all of which is settled before the first cook is asked.
   */
  lemma MessageExact(s: Start, menu: array<MenuState>, n: nat, stop: nat)
    requires s.Valid() && stop <= |s.states| && Stops(s, n, stop) && WantAfter(s, menu, stop)
    ensures |s.Assigned(stop)| != n <==> !Met(s, n)
    ensures (|s.Assigned(stop)| != n <==> exists d | 0 <= d < MENU_ARR_SIZE :: menu[d] == NEW)
            <==> |s.Wanted()| == n || (!Met(s, n) && Unservable(s))
  {
    hide Start.Assigned, Start.GetsSome, Start.Wanted, Start.Served, Stops, Met;
    StopsMet(s, n, stop);
    Shortfall(s, menu, stop);
    AssignedWanted(s, |s.states|);
  }

  /** Where no more dishes are wanted than were ordered, stopping early leaves nothing undone. */
  lemma StopsWithAll(s: Start, clients: seq<Client>, customer: Client, n: nat, stop: nat)
    requires s.Valid() && |s.states| == |clients| && Stops(s, n, stop) && After(s, clients, customer, stop)
    requires |s.Wanted()| <= n
    ensures After(s, clients, customer, |clients|)
    ensures |s.Assigned(stop)| == |s.Assigned(|clients|)|
    ensures PacketsOf(s, clients, stop) == PacketsOf(s, clients, |clients|)
  {
    hide After, PacketsOf, Start.Assigned, Start.Wanted, Start.GetsSome;
    if stop < |clients| {
      AssignedWanted(s, stop);
      NothingMore(s, clients, customer, stop);
    }
  }

  /** A free cook who can only make dish 1, and a customer who waits for dish 2. */
  method CookAndCustomer() returns (cook: Client, customer: Client)
    ensures cook != customer && Separate([cook, customer], customer) && cook.menu.Length == MENU_ARR_SIZE
    ensures cook.state == COOK_FREE && customer.state == CUSTOMER
    ensures forall d | 0 <= d < MENU_ARR_SIZE :: customer.menu[d] == if d == 2 then NEW else UNDEFINED
    ensures forall d | 0 <= d < MENU_ARR_SIZE :: cook.menu[d] == if d == 1 then CAPABLE else UNDEFINED
    ensures fresh(cook) && fresh(customer) && fresh(cook.menu) && fresh(customer.menu)
  {
    customer := new Client();
    cook := new Client();
    customer.state, cook.state := CUSTOMER, COOK_FREE;
    customer.menu[2] := NEW;
    cook.menu[1] := CAPABLE;
  }

  /**
   * With dish 2 of an earlier order still waiting and a cook who can only make dish 1, an order for
   * dish 1 is met: no message goes out although dish 2 stays NEW.
   */
  method EarlierDishUntold() returns (customer: Client, message: Option<Message>)
    ensures customer.menu.Length == MENU_ARR_SIZE && customer.menu[2] == NEW && message == None
  {
    hide After, PacketsOf, WantAfter, Listed, DishSet, Start.Served, Start.Wanted, Start.Assigned, Start.Gets,
      Start.GetsSome;
    hide Stops, MenuAfter;
    var cook;
    cook, customer := CookAndCustomer();
    var orders: seq<nat> := seq(MENU_ARR_SIZE, i => if i == 0 then 1 else 0);
    OneListed(orders);
    ghost var s, stop;
    var r, packets;
    r, packets, message, s, stop := CustOrder([cook, customer], customer, orders);
    assert [cook, customer][0] == cook && [cook, customer][1] == customer;
    WantsAfter(s, [cook, customer], customer, stop);
    OneDish(s, customer.menu, stop);
  }

  lemma OneListed(orders: seq<nat>)
    requires |orders| == MENU_ARR_SIZE && orders[0] == 1 && orders[1] == 0
    ensures Listed(orders) == 1 && DishSet(orders, 1) == {1}
  {
    assert orders[1..][0] == 0;
  }

  /** Only the first client is a free cook, who takes dish 1; dish 2 is left. */
  lemma OneDish(s: Start, menu: array<MenuState>, stop: nat)
    requires s.Valid() && |s.states| == 2 && s.states[0] == COOK_FREE && Stops(s, 1, stop)
    requires forall d | 0 <= d < MENU_ARR_SIZE ::
      (s.want[d] == NEW <==> d in {1, 2}) && (s.menus[0][d] == CAPABLE <==> d == 1)
    requires forall d | 0 <= d < MENU_ARR_SIZE :: s.menus[1][d] != CAPABLE || s.states[1] != COOK_FREE
    requires stop <= 2 && WantAfter(s, menu, stop)
    ensures |s.Assigned(stop)| == 1 && menu[2] == NEW
  {
    assert s.CanServe(0, 1) && s.Gets(0, 1) && s.GetsSome(0);
    forall k | 1 <= k <= 2 ensures s.Assigned(k) == {1} && !s.Served(2, k) {
      forall d | 0 <= d < MENU_ARR_SIZE ensures s.Served(d, k) <==> d == 1 {
        assert !s.CanServe(1, d);
      }
    }
  }

  /**
   * cust_order; 's' is the situation once the order is taken, and the pass ends after 'stop'
   * clients. Where no dish of an earlier order waits, every dish goes to the first free cook who
   * can make it.
   */
  method CustOrder(clients: seq<Client>, customer: Client, orders: seq<nat>)
    returns (r: int, packets: seq<Packet>, message: Option<Message>, ghost s: Start, ghost stop: nat)
    requires Separate(clients, customer)
    requires |orders| == MENU_ARR_SIZE && forall i | 0 <= i < Listed(orders) :: orders[i] < MENU_ARR_SIZE
    modifies customer`state, customer`numOfOrders
    modifies (set c: Client | c in clients)`state, (set c: Client | c in clients)`assignedClient
    modifies customer.menu, set c: Client | c in clients :: c.menu
    ensures r == if old(customer.state) == UNKNOWN || old(customer.state) == CUSTOMER then 0 else 1
    ensures r == 1 ==> packets == [] && message == None && Unchanged(clients, customer)
    ensures s.Valid() && |s.states| == |clients|
    ensures forall j | 0 <= j < |clients| && clients[j] != customer ::
      s.states[j] == old(clients[j].state) && s.menus[j] == old(clients[j].menu[..])
    ensures forall j | 0 <= j < |clients| && r == 0 && clients[j] == customer :: s.states[j] == CUSTOMER
    ensures r == 0 ==> customer.state == CUSTOMER && forall d | 0 <= d < MENU_ARR_SIZE ::
      s.want[d] == if d in DishSet(orders, Listed(orders)) then NEW else old(customer.menu[d])
    ensures stop <= |clients|
    ensures r == 0 ==> Stops(s, Listed(orders), stop) && After(s, clients, customer, stop)
                       && packets == PacketsOf(s, clients, stop)
                       && (message.Some? <==> |s.Assigned(stop)| != Listed(orders))
    ensures r == 0 ==> (message.Some? <==> !Met(s, Listed(orders)))
    ensures r == 0 ==>
      ((message.Some? <==> exists d | 0 <= d < MENU_ARR_SIZE :: customer.menu[d] == NEW)
       <==> |s.Wanted()| == Listed(orders) || (!Met(s, Listed(orders)) && Unservable(s)))
    ensures r == 0 && (forall d | 0 <= d < MENU_ARR_SIZE :: old(customer.menu[d]) != NEW) ==>
      After(s, clients, customer, |clients|) && packets == PacketsOf(s, clients, |clients|)
    ensures r == 0 && (forall d | 0 <= d < MENU_ARR_SIZE :: old(customer.menu[d]) != NEW)
            && (forall i, j | 0 <= i < j < Listed(orders) :: orders[i] != orders[j]) ==>
      (message.Some? <==> exists d | 0 <= d < MENU_ARR_SIZE :: customer.menu[d] == NEW)
    ensures r == 0 ==> customer.numOfOrders == Listed(orders)
                       && CooksAfter(s, clients, customer, old(CustomersOf(clients)), stop)
    ensures r == 0 && message.Some? ==> stop == |clients|
    ensures r == 0 && message.Some? ==> Tells(message.value, customer.menu, s.Assigned(|clients|) == {})
  {
    hide After, PacketsOf, WantAfter, MenuAfter, Listed, DishSet, Start.Served, Start.Wanted, Start.Assigned, StatesOf,
      MenusOf;
    hide Stops, Met, Unservable, Separate, CooksAfter, Tells;
    packets, message, stop := [], None, 0;
    MenusApart(clients, customer);
    ghost var before := CustomersOf(clients);
    s := StartOf(clients, customer);
    if customer.state == UNKNOWN {
      customer.state := CUSTOMER;
    }
    if customer.state != CUSTOMER {
      return 1, packets, message, s, stop;
    }
    TakeOrder(customer, orders);
    assert CustomersOf(clients) == before;
    s := StartOf(clients, customer);
    packets, message, stop := Serve(clients, customer, s);
    if forall d | 0 <= d < MENU_ARR_SIZE :: old(customer.menu[d]) != NEW {
      WantedDishes(s, orders);
      StopsWithAll(s, clients, customer, Listed(orders), stop);
    }
    r := 0;
  }

  lemma MenusApart(clients: seq<Client>, customer: Client)
    requires Separate(clients, customer)
    ensures customer.menu.Length == MENU_ARR_SIZE
    ensures forall j | 0 <= j < |clients| && clients[j] != customer :: clients[j].menu != customer.menu
  {
  }

  /** cust_order once the order has been taken: the pass, and the message. */
  method Serve(clients: seq<Client>, customer: Client, ghost s: Start)
    returns (packets: seq<Packet>, message: Option<Message>, ghost stop: nat)
    requires Separate(clients, customer) && customer.state == CUSTOMER && s == StartOf(clients, customer)
    modifies (set c: Client | c in clients)`state, (set c: Client | c in clients)`assignedClient
    modifies customer.menu, set c: Client | c in clients :: c.menu
    ensures customer.state == CUSTOMER
    ensures stop <= |clients| && Stops(s, customer.numOfOrders, stop) && After(s, clients, customer, stop)
    ensures packets == PacketsOf(s, clients, stop)
    ensures CooksAfter(s, clients, customer, old(CustomersOf(clients)), stop)
    ensures message.Some? <==> |s.Assigned(stop)| != customer.numOfOrders
    ensures message.Some? <==> !Met(s, customer.numOfOrders)
    ensures (message.Some? <==> exists d | 0 <= d < MENU_ARR_SIZE :: customer.menu[d] == NEW)
       <==> |s.Wanted()| == customer.numOfOrders || (!Met(s, customer.numOfOrders) && Unservable(s))
    ensures message.Some? ==> stop == |clients|
    ensures message.Some? ==> Tells(message.value, customer.menu, s.Assigned(|clients|) == {})
  {
    hide After, PacketsOf, WantAfter, MenuAfter, Start.Served, Start.Wanted, Start.Assigned, StatesOf, MenusOf;
    hide Stops, Met, Unservable, Separate, Tells;
    ghost var before := CustomersOf(clients);
    MenusApart(clients, customer);
    StartsAfterNone(clients, customer);
    var given;
    given, packets, stop := Pass(clients, customer, s, before);
    WantsAfter(s, clients, customer, stop);
    MessageExact(s, customer.menu, customer.numOfOrders, stop);
    StopsMet(s, customer.numOfOrders, stop);
    NoneIsEmpty(s.Assigned(stop));
    message := Shortage(customer, given);
  }

  lemma NoneIsEmpty(a: set<nat>)
    ensures |a| == 0 <==> a == {}
  {
  }

  /** No dish could be given to a cook, or these are the dishes left, in order. */
  ghost predicate Tells(message: Message, menu: array<MenuState>, none: bool)
    reads menu
  {
    && menu.Length == MENU_ARR_SIZE
    && match message
       case NoneServiceable => none
       case SomeMissing(missed) =>
         && !none && (forall d: nat :: d in missed <==> d < MENU_ARR_SIZE && menu[d] == NEW)
         && forall i, j | 0 <= i < j < |missed| :: missed[i] < missed[j]
  }

  /** Nothing has been done to any client. */
  twostate predicate Unchanged(clients: seq<Client>, customer: Client)
    reads customer, customer.menu, (set c: Client | c in clients), set c: Client | c in clients :: c.menu
  {
    && customer.state == old(customer.state) && customer.numOfOrders == old(customer.numOfOrders)
    && customer.menu[..] == old(customer.menu[..])
    && forall c | c in clients ::
         c.state == old(c.state) && c.assignedClient == old(c.assignedClient) && c.menu[..] == old(c.menu[..])
  }

  /** The message to the customer, if not every number of the order was assigned. */
  method Shortage(customer: Client, given: nat) returns (message: Option<Message>)
    requires customer.menu.Length == MENU_ARR_SIZE
    ensures message.Some? <==> customer.numOfOrders != given
    ensures message.Some? ==> Tells(message.value, customer.menu, given == 0)
  {
    if customer.numOfOrders == given {
      return None;
    }
    if given == 0 {
      return Some(NoneServiceable);
    }
    var missed := Missing(customer.menu);
    return Some(SomeMissing(missed));
  }

  lemma WantsAfter(s: Start, clients: seq<Client>, customer: Client, k: nat)
    requires s.Valid() && |s.states| == |clients| && k <= |clients| && After(s, clients, customer, k)
    ensures WantAfter(s, customer.menu, k)
  {
  }
}
