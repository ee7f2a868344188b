/** Whole runs of operations on one evbuffer, against the same operations on a flat byte string. */
module EvBufferRun {
  import opened Bytes
  import opened Chains
  import opened EvBuffers
  import opened EvBufferAdd
  import opened EvBufferDrain
  import opened EvBufferPullup

  datatype Op =
    | OpAdd(data: seq<Byte>)
    | OpPrepend(data: seq<Byte>)
    | OpDrain(n: nat)
    | OpCopyout(n: nat)
    | OpRemove(n: nat)
    | OpPullup(size: int)

  /** What the caller gets back: a return code, and the bytes the operation hands out. */
  datatype Out = Out(code: int, bytes: seq<Byte>)

  function Least(a: nat, b: nat): nat {
    if a < b then a else b
  }

  /** The operation on a flat byte string whose ends may be frozen. */
  ghost function Flat(s: seq<Byte>, frozen: Frozen, op: Op): (seq<Byte>, Out)
    requires |s| <= SIZE_MAX
  {
    match op
    case OpAdd(d) => if frozen.back || |d| > SIZE_MAX - |s| then (s, Out(-1, [])) else (s + d, Out(0, []))
    case OpPrepend(d) => if frozen.front || |d| > SIZE_MAX - |s| then (s, Out(-1, [])) else (d + s, Out(0, []))
    case OpDrain(n) => if frozen.front && s != [] then (s, Out(-1, [])) else (s[Least(n, |s|)..], Out(0, []))
    case OpCopyout(n) =>
      var k := Least(n, |s|);
      if frozen.front && k > 0 then (s, Out(-1, [])) else (s, Out(ToSsize(k), s[..k]))
    case OpRemove(n) =>
      var k := Least(n, |s|);
      if frozen.front && k > 0 then (s, Out(-1, []))
      else (if k <= SSIZE_MAX then s[k..] else s, Out(ToInt(ToSsize(k)), s[..k]))
    case OpPullup(size) =>
      var n := if size < 0 then |s| else size;
      (s, Out(0, if n > |s| || TooLarge(n) then [] else s[..n]))
  }

  ghost function FlatRun(s: seq<Byte>, frozen: Frozen, ops: seq<Op>): (r: (seq<Byte>, seq<Out>))
    requires |s| <= SIZE_MAX
    ensures |r.0| <= SIZE_MAX && |r.1| == |ops|
    decreases |ops|
  {
    if ops == [] then (s, [])
    else
      var (t, o) := Flat(s, frozen, ops[0]);
      var (u, os) := FlatRun(t, frozen, ops[1..]);
      (u, [o] + os)
  }

  /** The byte strings handed in are no longer than one allocation can be. */
  predicate Storable(op: Op) {
    (op.OpAdd? || op.OpPrepend?) ==> !TooLarge(|op.data|)
  }

  /** An operation, and whether an allocation it asks for succeeds. */
  datatype Call = Call(op: Op, mem: bool)

  /** What an operation that lacks memory leaves: nothing new, but for the end of a prepended string. */
  ghost predicate Refused(s: seq<Byte>, op: Op, t: seq<Byte>, out: Out) {
    match op
    case OpAdd(_) => t == s && out == Out(-1, [])
    case OpPrepend(d) => out == Out(-1, []) && exists k :: 0 <= k <= |d| && t == d[k..] + s
    case OpPullup(_) => t == s && out == Out(0, [])
    case _ => false
  }

  /** 't' and 'out' are what the operation gives on a flat string, or it has lacked memory. */
  ghost predicate Meets(s: seq<Byte>, frozen: Frozen, call: Call, t: seq<Byte>, out: Out) {
    && |s| <= SIZE_MAX && |t| <= SIZE_MAX
    && ((t, out) == Flat(s, frozen, call.op) || (!(call.mem && Storable(call.op)) && Refused(s, call.op, t, out)))
  }

  /** A course of such operations that leads from 's' to 't'. */
  ghost predicate Course(s: seq<Byte>, frozen: Frozen, calls: seq<Call>, t: seq<Byte>, outs: seq<Out>)
    decreases |calls|
  {
    if calls == [] then t == s && outs == []
    else outs != [] && exists u :: Meets(s, frozen, calls[0], u, outs[0]) && Course(u, frozen, calls[1..], t, outs[1..])
  }

  ghost function Ops(calls: seq<Call>): (ops: seq<Op>)
    ensures |ops| == |calls|
  {
    if calls == [] then [] else [calls[0].op] + Ops(calls[1..])
  }

  /** Where no allocation fails there is only one course: the one on the flat string. */
  lemma {:induction false} CourseIsFlat(s: seq<Byte>, frozen: Frozen, calls: seq<Call>, t: seq<Byte>, outs: seq<Out>)
    requires |s| <= SIZE_MAX && forall c | c in calls :: c.mem && Storable(c.op)
    ensures Course(s, frozen, calls, t, outs) <==> (t, outs) == FlatRun(s, frozen, Ops(calls))
    decreases |calls|
  {
    hide Flat, Storable;
    if calls != [] {
      var c, rest := calls[0], calls[1..];
      assert c in calls && forall d | d in rest :: d in calls;
      var (u, o) := Flat(s, frozen, c.op);
      FlatBound(s, frozen, c.op);
      assert Ops(calls)[0] == c.op && Ops(calls)[1..] == Ops(rest);
      var (t', outs') := FlatRun(u, frozen, Ops(rest));
      assert ([o] + outs')[1..] == outs';
      CourseIsFlat(u, frozen, rest, t', outs');
      assert Meets(s, frozen, c, u, o);
      if Course(s, frozen, calls, t, outs) {
        CourseIsFlat(u, frozen, rest, t, outs[1..]);
        assert outs == [outs[0]] + outs[1..];
      }
    }
  }

  lemma FlatBound(s: seq<Byte>, frozen: Frozen, op: Op)
    requires |s| <= SIZE_MAX
    ensures |Flat(s, frozen, op).0| <= SIZE_MAX
  {
  }

  /** What evbuffer_add and evbuffer_prepend promise is what the flat operation or a lack of memory gives. */
  lemma Handed(s: seq<Byte>, frozen: Frozen, call: Call, t: seq<Byte>, r: int)
    requires |s| <= SIZE_MAX && |t| <= SIZE_MAX && (call.op.OpAdd? || call.op.OpPrepend?)
    requires var d := call.op.data; var shut := if call.op.OpAdd? then frozen.back else frozen.front;
      && (r == 0 || r == -1)
      && (shut || |d| > SIZE_MAX - |s| ==> r == -1 && t == s)
      && (!shut && |d| <= SIZE_MAX - |s| && call.mem && !TooLarge(|d|) ==> r == 0)
      && (r == 0 ==> t == if call.op.OpAdd? then s + d else d + s)
      && (r == -1 ==> t == s || (call.op.OpPrepend? && exists k :: 0 <= k <= |d| && t == d[k..] + s))
    ensures Meets(s, frozen, call, t, Out(r, []))
  {
    if call.op.OpPrepend? && t == s {
      assert call.op.data[|call.op.data|..] + s == s;
    }
  }

  /** One operation does to the buffer what it does to the flat string. */
  method Step(buf: EvBuffer, call: Call) returns (out: Out)
    requires buf.Valid()
    modifies buf, set c: Chain | c in buf.view.chains, set c: Chain | c in buf.view.chains :: c.buffer
    ensures buf.Valid() && OldOrFresh(buf) && (old(buf.NoGap()) ==> buf.NoGap())
    ensures buf.freezeStart == old(buf.freezeStart) && buf.freezeEnd == old(buf.freezeEnd)
    ensures Meets(old(buf.Contents()), Frozen(buf.freezeStart, buf.freezeEnd), call, buf.Contents(), out)
  {
    hide Flatten, LastWithData, Stores, Linked, Distinct, Chain.Valid, EvBuffer.Valid, NoGapBefore, ToInt, Flat, Meets;
    buf.Length();
    ghost var s, frozen := buf.Contents(), Frozen(buf.freezeStart, buf.freezeEnd);
    match call.op {
      case OpAdd(d) =>
        var r := Add(buf, d, call.mem);
        out := Out(r, []);
        buf.Length();
        Handed(s, frozen, call, buf.Contents(), r);
      case OpPrepend(d) =>
        var r := Prepend(buf, d, call.mem);
        out := Out(r, []);
        buf.Length();
        Handed(s, frozen, call, buf.Contents(), r);
      case _ =>
        out := StepOff(buf, call);
    }
  }

  /** The operations that add nothing. */
  method StepOff(buf: EvBuffer, call: Call) returns (out: Out)
    requires buf.Valid() && !call.op.OpAdd? && !call.op.OpPrepend?
    modifies buf`first, buf`last, buf`lastWithDatap, buf`totalLen, buf`view
    modifies set c: Chain | c in buf.view.chains, set c: Chain | c in buf.view.chains :: c.buffer
    ensures buf.Valid() && OldOrFresh(buf) && (old(buf.NoGap()) ==> buf.NoGap())
    ensures Meets(old(buf.Contents()), Frozen(buf.freezeStart, buf.freezeEnd), call, buf.Contents(), out)
  {
    hide Flatten, LastWithData, Stores, Linked, Distinct, Chain.Valid, EvBuffer.Valid, NoGapBefore, ToInt, Flat;
    buf.Length();
    ghost var s, frozen := buf.Contents(), Frozen(buf.freezeStart, buf.freezeEnd);
    FlatIs(s, frozen, call.op);
    match call.op {
      case OpDrain(n) =>
        var r := Drain(buf, n);
        out := Out(r, []);
      case OpCopyout(n) =>
        var r, bytes := Copyout(buf, n);
        out := Out(r, bytes);
      case OpRemove(n) =>
        var r, bytes := Remove(buf, n);
        out := Out(r, bytes);
        if !(frozen.front && Least(n, |s|) > 0) {
          FlatRemoved(s, frozen, n, bytes, buf.Contents());
        }
      case OpPullup(size) =>
        var bytes := PullupBytes(buf, size, call.mem);
        out := Out(0, bytes);
    }
    buf.Length();
  }

  /** evbuffer_pullup, and the bytes that are then in one piece. */
  method PullupBytes(buf: EvBuffer, size: int, mem: bool) returns (bytes: seq<Byte>)
    requires buf.Valid()
    modifies buf`first, buf`last, buf`lastWithDatap, buf`totalLen, buf`view
    modifies set c: Chain | c in buf.view.chains, set c: Chain | c in buf.view.chains :: c.buffer
    ensures buf.Valid() && OldOrFresh(buf) && buf.Contents() == old(buf.Contents())
      && (old(buf.NoGap()) ==> buf.NoGap())
    ensures var n := if size < 0 then |buf.Contents()| else size;
            (!mem && bytes == []) || bytes == if n > |buf.Contents()| || TooLarge(n) then [] else buf.Contents()[..n]
  {
    hide Flatten, LastWithData, Stores, Linked, Distinct, Chain.Valid, EvBuffer.Valid, NoGapBefore;
    buf.Length();
    var n := if size < 0 then buf.totalLen else size;
    var chain := Pullup(buf, size, mem);
    if chain == null {
      return [];
    }
    FirstFits(buf);
    bytes := chain.Read(0, n);
    assert chain.data[0..n] == chain.data[..n];
  }

  lemma FlatIs(s: seq<Byte>, frozen: Frozen, op: Op)
    requires |s| <= SIZE_MAX && !op.OpAdd? && !op.OpPrepend?
    ensures match op
            case OpDrain(n) =>
              Flat(s, frozen, op) == if frozen.front && |s| > 0 then (s, Out(-1, []))
                                     else (if n >= |s| then [] else s[n..], Out(0, []))
            case OpCopyout(n) =>
              var k := if n > |s| then |s| else n;
              Flat(s, frozen, op) == if frozen.front && k > 0 then (s, Out(-1, [])) else (s, Out(ToSsize(k), s[..k]))
            case OpRemove(n) =>
              frozen.front && Least(n, |s|) > 0 ==> Flat(s, frozen, op) == (s, Out(-1, []))
            case OpPullup(size) =>
              var n := if size < 0 then |s| else size;
              Flat(s, frozen, op) == (s, Out(0, if n > |s| || TooLarge(n) then [] else s[..n]))
  {
    hide ToInt;
    assert s[|s|..] == [];
  }

  lemma FlatRemoved(s: seq<Byte>, frozen: Frozen, n: nat, bytes: seq<Byte>, rest: seq<Byte>)
    requires |s| <= SIZE_MAX && !(frozen.front && Least(n, |s|) > 0)
    requires var k := Least(n, |s|);
             if k <= SSIZE_MAX then s == bytes + rest && |bytes| == k else rest == s && bytes == s[..k]
    ensures Flat(s, frozen, OpRemove(n)) == (rest, Out(ToInt(ToSsize(Least(n, |s|))), bytes))
  {
    hide ToInt;
    assert Least(n, |s|) <= SSIZE_MAX ==> rest == s[|bytes|..] && bytes == s[..|bytes|];
  }

  lemma FirstFits(buf: EvBuffer)
    requires buf.Valid() && buf.view.chains != []
    ensures var c := buf.view.chains[0]; c.Valid() && c.off == |c.data| && !TooLarge(c.off)
  {
    buf.ChainAt(0);
  }

  /**
   * Every run of operations leaves the buffer with what the same run leaves in a flat byte
   * string, hands out the same bytes and codes, and keeps the list and its cached ends right;
   * operations that lack memory leave what Refused says.
   */
  method Run(buf: EvBuffer, calls: seq<Call>) returns (outs: seq<Out>)
    requires buf.Valid()
    modifies buf, set c: Chain | c in buf.view.chains, set c: Chain | c in buf.view.chains :: c.buffer
    ensures buf.Valid() && OldOrFresh(buf) && (old(buf.NoGap()) ==> buf.NoGap())
    ensures buf.freezeStart == old(buf.freezeStart) && buf.freezeEnd == old(buf.freezeEnd)
    ensures |outs| == |calls| && |old(buf.Contents())| <= SIZE_MAX
    ensures Course(old(buf.Contents()), Frozen(buf.freezeStart, buf.freezeEnd), calls, buf.Contents(), outs)
    decreases |calls|
  {
    hide Flatten, LastWithData, Stores, Linked, Distinct, Chain.Valid, EvBuffer.Valid, NoGapBefore, Flat, Meets;
    buf.Length();
    if calls == [] {
      return [];
    }
    var out := Step(buf, calls[0]);
    var more := Run(buf, calls[1..]);
    outs := [out] + more;
    assert outs[1..] == more;
  }

  /** The bytes an operation hands in at the back, if they are accepted, and takes out at the front. */
  ghost function HandedIn(op: Op, out: Out): seq<Byte> {
    if op.OpAdd? && out.code == 0 then op.data else []
  }

  ghost function HandedOut(op: Op, out: Out): seq<Byte> {
    if op.OpRemove? then out.bytes else []
  }

  ghost function Given(ops: seq<Op>, outs: seq<Out>): seq<Byte>
    requires |ops| == |outs|
  {
    if ops == [] then [] else HandedIn(ops[0], outs[0]) + Given(ops[1..], outs[1..])
  }

  ghost function Taken(ops: seq<Op>, outs: seq<Out>): seq<Byte>
    requires |ops| == |outs|
  {
    if ops == [] then [] else HandedOut(ops[0], outs[0]) + Taken(ops[1..], outs[1..])
  }

  /**
   * First in, first out: what a run without Prepend and Drain hands out, followed by what it
   * leaves, is what was there at first followed by what was handed in.
   */
  lemma {:induction false} Fifo(s: seq<Byte>, frozen: Frozen, ops: seq<Op>)
    requires |s| <= SIZE_MAX && forall op | op in ops :: !op.OpPrepend? && !op.OpDrain?
    requires forall op | op in ops && op.OpRemove? :: op.n <= SSIZE_MAX
    ensures var (t, outs) := FlatRun(s, frozen, ops); Taken(ops, outs) + t == s + Given(ops, outs)
    decreases |ops|
  {
    hide Flat;
    if ops == [] {
      assert s + [] == s;
    } else {
      assert ops[0] in ops && forall op | op in ops[1..] :: op in ops;
      var (u, o) := Flat(s, frozen, ops[0]);
      FifoStep(s, frozen, ops[0]);
      var (t, outs) := FlatRun(u, frozen, ops[1..]);
      Fifo(u, frozen, ops[1..]);
      assert ([o] + outs)[1..] == outs;
      Regroup(HandedOut(ops[0], o), Taken(ops[1..], outs), t, u, Given(ops[1..], outs), s, HandedIn(ops[0], o));
    }
  }

  lemma FifoStep(s: seq<Byte>, frozen: Frozen, op: Op)
    requires |s| <= SIZE_MAX && !op.OpPrepend? && !op.OpDrain? && (op.OpRemove? ==> op.n <= SSIZE_MAX)
    ensures var (u, o) := Flat(s, frozen, op); |u| <= SIZE_MAX && HandedOut(op, o) + u == s + HandedIn(op, o)
  {
    assert s + [] == s;
  }

  lemma Regroup(head: seq<Byte>, taken: seq<Byte>, t: seq<Byte>, u: seq<Byte>, given: seq<Byte>, s: seq<Byte>,
                more: seq<Byte>)
    requires taken + t == u + given && head + u == s + more
    ensures (head + taken) + t == s + (more + given)
  {
    assert (head + taken) + t == head + (taken + t);
    assert head + (u + given) == (head + u) + given;
    assert (s + more) + given == s + (more + given);
  }
}
