/** Lists without repetitions, and lists of such lists. */
module Lists {
  ghost predicate NoDup<T>(q: seq<T>) {
    forall i, j | 0 <= i < j < |q| :: q[i] != q[j]
  }

  /** The list with the first 'c' taken out. */
  function Without<T(==)>(q: seq<T>, c: T): (r: seq<T>)
    ensures |r| <= |q| && forall d | d in r :: d in q
  {
    if q == [] then [] else if q[0] == c then q[1..] else [q[0]] + Without(q[1..], c)
  }

  /** Removing leaves the others. */
  lemma {:induction false} WithoutFacts<T>(q: seq<T>, c: T)
    requires NoDup(q)
    ensures NoDup(Without(q, c)) && forall d :: d in Without(q, c) <==> d in q && d != c
    ensures |Without(q, c)| == if c in q then |q| - 1 else |q|
  {
    if q != [] {
      assert q == [q[0]] + q[1..];
      if q[0] == c {
        assert forall d | d in q[1..] :: d != c;
      } else {
        WithoutFacts(q[1..], c);
        assert q[0] !in q[1..];
      }
    }
  }

  /** Removing is cutting the list at the one place where the element stands, and keeps the order. */
  lemma {:induction false} WithoutIsCut<T>(q: seq<T>, k: nat)
    requires NoDup(q) && k < |q|
    ensures Without(q, q[k]) == q[..k] + q[k + 1..]
  {
    if k > 0 {
      var t := q[1..];
      assert q[0] != q[k] && t[k - 1] == q[k];
      WithoutIsCut(t, k - 1);
      CutBehindFirst(q, k);
    }
  }

  lemma CutBehindFirst<T>(q: seq<T>, k: nat)
    requires 0 < k < |q|
    ensures [q[0]] + (q[1..][..k - 1] + q[1..][k..]) == q[..k] + q[k + 1..]
  {
  }

  lemma WithLast<T>(q: seq<T>, c: T)
    requires NoDup(q) && c !in q
    ensures NoDup(q + [c])
  {
  }

  lemma FrontRemoved<T>(q: seq<T>)
    requires q != []
    ensures Without(q, q[0]) == q[1..]
  {
  }

  ghost function IndexOf<T>(q: seq<T>, c: T): (k: nat)
    requires c in q
    ensures k < |q| && q[k] == c
  {
    if q[0] == c then 0 else 1 + IndexOf(q[1..], c)
  }

  ghost function Total<T>(qs: seq<seq<T>>): nat {
    if qs == [] then 0 else |qs[0]| + Total(qs[1..])
  }

  lemma {:induction false} TotalUpdate<T>(qs: seq<seq<T>>, i: nat, q: seq<T>)
    requires i < |qs|
    ensures Total(qs[i := q]) == Total(qs) - |qs[i]| + |q|
  {
    if i > 0 {
      assert qs[i := q][1..] == qs[1..][i - 1 := q];
      TotalUpdate(qs[1..], i - 1, q);
    } else {
      assert qs[i := q][1..] == qs[1..];
    }
  }

  lemma {:induction false} TotalSnoc<T>(qs: seq<seq<T>>, i: nat)
    requires i < |qs|
    ensures Total(qs[..i + 1]) == Total(qs[..i]) + |qs[i]|
    decreases |qs|
  {
    if i > 0 {
      assert qs[..i + 1][1..] == qs[1..][..i] && qs[..i][1..] == qs[1..][..i - 1];
      TotalSnoc(qs[1..], i - 1);
    } else {
      assert qs[..1][1..] == qs[..0];
    }
  }

  function Empties<T>(n: nat): (qs: seq<seq<T>>)
    ensures |qs| == n && forall i | 0 <= i < n :: qs[i] == []
  {
    seq(n, _ => [])
  }

  lemma {:induction false} NothingQueued<T>(n: nat)
    ensures Total(Empties<T>(n)) == 0
  {
    if n > 0 {
      assert Empties<T>(n)[1..] == Empties<T>(n - 1);
      NothingQueued<T>(n - 1);
    }
  }

  /** The position behind 'i' in a circular list of 'n'. */
  function Turn(i: nat, n: nat): nat {
    if i + 1 == n then 0 else i + 1
  }
}
