/** The circular lists that hold DNS requests. */
module RequestRings {
  import opened Lists

  class Node {
    var next: Node?
    var prev: Node?

    constructor ()
      ensures next == null && prev == null
    {
      next, prev := null, null;
    }
  }

  /** The nodes of 'q', in this order, form the circular list with this head. */
  ghost predicate Ring(head: Node?, q: seq<Node>)
    reads set n: Node | n in q
  {
    && head == (if q == [] then null else q[0])
    && NoDup(q)
    && (forall i {:trigger q[i].next} | 0 <= i < |q| - 1 :: q[i].next == q[i + 1])
    && (forall i {:trigger q[i].prev} | 1 <= i < |q| :: q[i].prev == q[i - 1])
    && (q != [] ==> q[|q| - 1].next == q[0] && q[0].prev == q[|q| - 1])
  }

  /** evdns_request_insert: at the tail. */
  method Insert(req: Node, head: Node?, ghost q: seq<Node>) returns (head': Node)
    requires Ring(head, q) && req !in q
    modifies req, set n: Node | n in q
    ensures Ring(head', q + [req])
  {
    if head == null {
      req.next, req.prev := req, req;
      return req;
    }
    ghost var r := q + [req];
    assert forall i | 0 <= i < |q| :: q[i] in q && r[i] == q[i];
    req.prev := head.prev;
    req.prev.next := req;
    req.next := head;
    head.prev := req;
    return head;
  }

  /** The node behind and before node 'i', once node 'k' is out. */
  function Behind(i: nat, k: nat, n: nat): nat {
    if Turn(i, n) == k then Turn(k, n) else Turn(i, n)
  }

  function Back(i: nat, n: nat): int {
    if i == 0 then n - 1 else i - 1
  }

  function Ahead(i: nat, k: nat, n: nat): int
    requires i < n && k < n
  {
    if Back(i, n) == k then Back(k, n) else Back(i, n)
  }

  /** Node 'k' has been cut out of the links of the others. */
  ghost predicate Unlinked(q: seq<Node>, k: nat)
    requires k < |q|
    reads set n: Node | n in q
  {
    && (forall i {:trigger q[i].next} | 0 <= i < |q| && i != k :: q[i].next == q[Behind(i, k, |q|)])
    && (forall i {:trigger q[i].prev} | 0 <= i < |q| && i != k :: q[i].prev == q[Ahead(i, k, |q|)])
  }

  lemma RingUnlinked(q: seq<Node>, k: nat)
    requires k < |q| && |q| > 1 && Unlinked(q, k) && NoDup(q)
    ensures Ring(if k == 0 then q[1] else q[0], q[..k] + q[k + 1..])
  {
    var r := q[..k] + q[k + 1..];
    forall i {:trigger r[i].next} | 0 <= i < |r| - 1 ensures r[i].next == r[i + 1] {
      assert r[i] == q[if i < k then i else i + 1];
    }
    forall i {:trigger r[i].prev} | 1 <= i < |r| ensures r[i].prev == r[i - 1] {
      assert r[i] == q[if i < k then i else i + 1];
    }
    assert r[0] == q[if k == 0 then 1 else 0] && r[|r| - 1] == q[if k == |q| - 1 then |q| - 2 else |q| - 1];
  }

  /** The two links of evdns_request_remove. */
  method Unlink(req: Node, ghost head: Node, ghost q: seq<Node>, ghost k: nat)
    requires Ring(head, q) && k < |q| && |q| > 1 && q[k] == req
    requires req.next == q[Turn(k, |q|)] && req.prev == q[Back(k, |q|)]
    modifies set n: Node | n in q
    ensures Unlinked(q, k) && req.next == old(req.next)
  {
    hide Turn, Back, Ring;
    ghost var n := |q|;
    ghost var a, b := Turn(k, n), Back(k, n);
    AllLinks(head, q);
    Positions(k, n);
    assert q[a] in q && q[b] in q;
    req.next.prev := req.prev;
    req.prev.next := req.next;
  }

  lemma AllLinks(head: Node?, q: seq<Node>)
    requires Ring(head, q)
    ensures forall i {:trigger q[i].next} | 0 <= i < |q| ::
      0 <= Turn(i, |q|) < |q| && q[i].next == q[Turn(i, |q|)]
    ensures forall i {:trigger q[i].prev} | 0 <= i < |q| ::
      0 <= Back(i, |q|) < |q| && q[i].prev == q[Back(i, |q|)]
    ensures NoDup(q)
  {
    forall i | 0 <= i < |q|
      ensures q[i].next == q[Turn(i, |q|)] && 0 <= Back(i, |q|) < |q| && q[i].prev == q[Back(i, |q|)]
    {
      Neighbours(head, q, i);
    }
  }

  lemma Positions(k: nat, n: nat)
    requires k < n
    ensures 0 <= Back(k, n) < n && 0 <= Turn(k, n) < n && (n > 1 ==> Turn(k, n) != k && Back(k, n) != k)
    ensures forall i: nat | i < n :: Turn(i, n) == k <==> i == Back(k, n)
    ensures forall i: nat | i < n :: Back(i, n) == k <==> i == Turn(k, n)
  {
  }

  /** evdns_request_remove: node 'k' of the list. */
  method Remove(req: Node, head: Node, ghost q: seq<Node>, ghost k: nat) returns (head': Node?)
    requires Ring(head, q) && k < |q| && q[k] == req
    modifies set n: Node | n in q
    ensures Ring(head', q[..k] + q[k + 1..]) && req.next == null && req.prev == null
  {
    head' := head;
    assert req in q;
    Neighbours(head, q, k);
    if req.next == req {
      assert q[..k] + q[k + 1..] == [];
      head' := null;
    } else {
      Unlink(req, head, q, k);
      if head == req {
        head' := req.next;
      }
      RingUnlinked(q, k);
    }
    ghost var r := q[..k] + q[k + 1..];
    assert req !in r;
    req.next, req.prev := null, null;
  }

  lemma Neighbours(head: Node?, q: seq<Node>, k: nat)
    requires Ring(head, q) && k < |q|
    ensures q[k].next == q[Turn(k, |q|)] && q[k].prev == q[Back(k, |q|)]
    ensures q[k].next == q[k] <==> |q| == 1
    ensures forall i | 0 <= i < |q| :: q[i] == q[k] <==> i == k
  {
  }
}
