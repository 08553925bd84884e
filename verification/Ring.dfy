/** The message ring of an endpoint in sageos_build/kernel/core/ipc.c, and the bounded queue it implements. */
module Ring {
  import opened Bytes

  datatype State = Constructed | Active | Paused | Draining | Dead

  datatype Msg = Msg(payloadLen: nat, payload: seq<Byte>, caps: seq<nat>)

  /** The queue an endpoint stands for. */
  datatype Queue = Queue(state: State, size: nat, items: seq<Msg>, sent: nat, received: nat, moved: nat, drops: nat)

  datatype Outcome = Done | Refused | WouldBlock | Got(msg: Msg)

  /** FinishDrain is the end of sys_ipc_object_drain, after it has seen the queue empty. */
  datatype Op = Enqueue(msg: Msg) | Dequeue | Change(to: State) | Resume | FinishDrain

  const WORD := 0x1_0000_0000_0000_0000

  /** ipc_lifecycle_transition: the state a transition to `to` must start from. */
  function From(to: State): Option<State>
  {
    match to
    case Active => Some(Constructed)
    case Paused => Some(State.Active)
    case Draining => Some(State.Active)
    case Dead => Some(Paused)
    case Constructed => None
  }

  function Step(q: Queue, op: Op): (r: (Queue, Outcome))
    ensures r.0.size == q.size
    ensures |q.items| <= q.size ==> |r.0.items| <= q.size
  {
    match op
    case Enqueue(m) =>
      if q.state != Active && q.state != Draining then (q, Refused)
      else if |q.items| >= q.size then (q.(drops := (q.drops + 1) % WORD), Refused)
      else (q.(items := q.items + [m], sent := (q.sent + 1) % WORD, moved := (q.moved + m.payloadLen) % WORD), Done)
    case Dequeue =>
      if q.items == [] then (q, if q.state == Draining || q.state == Dead then Refused else WouldBlock)
      else (q.(items := q.items[1..], received := (q.received + 1) % WORD), Got(q.items[0]))
    case Change(to) =>
      if From(to) == Some(q.state) then (q.(state := to), Done) else (q, Refused)
    case Resume =>
      if q.state == Paused then (q.(state := Active), Done) else (q, Refused)
    case FinishDrain =>
      if q.state == Draining then (q.(state := Dead), Done) else (q, Refused)
  }

  function Exec(q: Queue, ops: seq<Op>): (r: Queue)
  {
    if ops == [] then q else Step(Exec(q, ops[..|ops| - 1]), ops[|ops| - 1]).0
  }

  function Last(q: Queue, ops: seq<Op>): (r: Outcome)
    requires ops != []
  {
    Step(Exec(q, ops[..|ops| - 1]), ops[|ops| - 1]).1
  }

  /** The messages that enqueue accepted during a run, in order. */
  function Accepted(q: Queue, ops: seq<Op>): seq<Msg>
  {
    if ops == [] then []
    else
      var n := |ops| - 1;
      Accepted(q, ops[..n]) + if ops[n].Enqueue? && Last(q, ops) == Done then [ops[n].msg] else []
  }

  /** The messages that dequeue handed out during a run, in order. */
  function Delivered(q: Queue, ops: seq<Op>): seq<Msg>
  {
    if ops == [] then []
    else Delivered(q, ops[..|ops| - 1]) + if Last(q, ops).Got? then [Last(q, ops).msg] else []
  }

  /** The queue takes messages, but is full. */
  predicate TurnsAway(q: Queue) { (q.state == Active || q.state == Draining) && |q.items| >= q.size }

  /** How often enqueue turned a message away from a full queue. */
  function Overflows(q: Queue, ops: seq<Op>): nat
  {
    if ops == [] then 0
    else
      var n := |ops| - 1;
      var before := Exec(q, ops[..n]);
      Overflows(q, ops[..n]) + if ops[n].Enqueue? && TurnsAway(before) then 1 else 0
  }

  /** What the books say of a queue that accepted `acc`, delivered `del` and turned away `over` messages. */
  ghost predicate Ledger(q: Queue, acc: seq<Msg>, del: seq<Msg>, over: nat)
  {
    && acc == del + q.items
    && q.sent == |acc| % WORD
    && q.received == |del| % WORD
    && q.drops == over % WORD
    && |q.items| <= q.size
  }

  lemma Balance(q: Queue, acc: seq<Msg>, del: seq<Msg>, over: nat)
    requires Ledger(q, acc, del, over)
    ensures (q.sent - q.received - |q.items|) % WORD == 0
  {
  }

  lemma StepLedger(q: Queue, op: Op, acc: seq<Msg>, del: seq<Msg>, over: nat)
    requires Ledger(q, acc, del, over)
    ensures var (r, out) := Step(q, op);
      Ledger(r,
        acc + (if op.Enqueue? && out == Done then [op.msg] else []),
        del + (if out.Got? then [out.msg] else []),
        over + if op.Enqueue? && TurnsAway(q) then 1 else 0)
  {
    ModSucc(|acc|);
    ModSucc(|del|);
    ModSucc(over);
    match op
    case Enqueue(m) =>
    case Dequeue =>
      if q.items != [] {
        assert q.items == [q.items[0]] + q.items[1..];
      }
    case Change(to) =>
      assert acc + [] == acc && del + [] == del;
    case Resume =>
      assert acc + [] == acc && del + [] == del;
    case FinishDrain =>
      assert acc + [] == acc && del + [] == del;
  }

  lemma ModSucc(n: nat)
    ensures (n % WORD + 1) % WORD == (n + 1) % WORD
  {
  }

  /** Messages come out in the order in which they were accepted, none lost, none twice; the counters say
      how many went in, came out and were dropped. */
  lemma {:induction false} FirstInFirstOut(q: Queue, ops: seq<Op>)
    requires q.items == [] && q.sent == q.received == q.drops == 0
    ensures Ledger(Exec(q, ops), Accepted(q, ops), Delivered(q, ops), Overflows(q, ops))
  {
    if ops != [] {
      var n := |ops| - 1;
      FirstInFirstOut(q, ops[..n]);
      StepLedger(Exec(q, ops[..n]), ops[n], Accepted(q, ops[..n]), Delivered(q, ops[..n]), Overflows(q, ops[..n]));
    }
  }

  // ---------------------------------------------------------------- the ring

  // ---------------------------------------------------------------- what is accepted, and the lifecycle

  /** A message is taken by an active or draining endpoint with room, and counted as dropped only for lack of it. */
  lemma EnqueueEffect(q: Queue, m: Msg)
    ensures var (r, out) := Step(q, Enqueue(m));
      && (out == Done <==> (q.state == Active || q.state == Draining) && |q.items| < q.size)
      && (out == Done || out == Refused)
      && r.state == q.state && r.received == q.received
      && r.items == (if out == Done then q.items + [m] else q.items)
      && (out != Done && !TurnsAway(q) ==> r == q)
  {
  }

  /** A waiting message is given out whatever the state; without one, a draining or dead endpoint refuses. */
  lemma DequeueEffect(q: Queue)
    ensures var (r, out) := Step(q, Dequeue);
      && (q.items != [] ==> out == Got(q.items[0]) && [q.items[0]] + r.items == q.items)
      && (q.items == [] ==> r == q && (out == Refused <==> q.state == Draining || q.state == Dead))
      && (q.items == [] && out != Refused ==> out == WouldBlock)
      && r.state == q.state && r.sent == q.sent && r.moved == q.moved && r.drops == q.drops
  {
  }

  /** The changes of state that some operation makes. */
  predicate Follows(a: State, b: State)
  {
    match a
    case Constructed => b == Active
    case Active => b == Paused || b == Draining
    case Paused => b == Active || b == Dead
    case Draining => b == Dead
    case Dead => false
  }

  ghost predicate Reaches(q: Queue, to: State) { exists op :: Step(q, op).0.state == to }

  /** One operation changes the state exactly along these. */
  lemma LifecycleExactly(q: Queue, to: State)
    requires to != q.state
    ensures Reaches(q, to) <==> Follows(q.state, to)
  {
    if Follows(q.state, to) {
      var op := if q.state == Paused && to == Active then Resume
                else if q.state == Draining then FinishDrain
                else Change(to);
      assert Step(q, op).0.state == to;
    }
  }

  /** Every change of state is reported, and nothing else changes with it. */
  lemma ChangeReported(q: Queue, op: Op)
    ensures var (r, out) := Step(q, op);
      r.state != q.state ==> out == Done && r == q.(state := r.state) && !op.Enqueue? && !op.Dequeue?
  {
  }

  function PayloadSum(ms: seq<Msg>): (n: nat)
  {
    if ms == [] then 0 else PayloadSum(ms[..|ms| - 1]) + ms[|ms| - 1].payloadLen
  }

  lemma MovedStep(q: Queue, op: Op, acc: seq<Msg>)
    requires q.moved == PayloadSum(acc) % WORD
    ensures var (r, out) := Step(q, op);
      r.moved == PayloadSum(acc + if op.Enqueue? && out == Done then [op.msg] else []) % WORD
  {
    if op.Enqueue? && Step(q, op).1 == Done {
      assert (acc + [op.msg])[..|acc|] == acc;
      ModAdd(PayloadSum(acc), op.msg.payloadLen);
    } else {
      assert acc + [] == acc;
    }
  }

  /** The byte counter adds up the payloads of the accepted messages. */
  lemma {:induction false} MovedBytes(q: Queue, ops: seq<Op>)
    requires q.moved == 0
    ensures Exec(q, ops).moved == PayloadSum(Accepted(q, ops)) % 0x1_0000_0000_0000_0000
  {
    if ops != [] {
      var n := |ops| - 1;
      MovedBytes(q, ops[..n]);
      MovedStep(Exec(q, ops[..n]), ops[n], Accepted(q, ops[..n]));
    }
  }

  lemma ModAdd(n: nat, k: nat)
    ensures (n % WORD + k) % WORD == (n + k) % WORD
  {
    var q := n / WORD;
    assert n == q * WORD + n % WORD;
    ModShift(n % WORD + k, q);
  }

  lemma {:induction false} ModShift(a: nat, q: nat)
    ensures (a + q * WORD) % WORD == a % WORD
  {
    if q > 0 {
      ModShift(a, q - 1);
      assert (a + (q - 1) * WORD + WORD) % WORD == (a + (q - 1) * WORD) % WORD;
    }
  }

  function Next(i: nat, n: nat): (r: nat)
    requires i < n
    ensures r < n
  {
    if i + 1 == n then 0 else i + 1
  }

  /** The slot `count` places after tail. */
  function Ahead(tail: nat, count: nat, n: nat): (r: nat)
    requires tail < n && count <= n
    ensures r < n
  {
    if tail + count < n then tail + count else tail + count - n
  }

  function Items(ring: seq<Msg>, tail: nat, count: nat): (s: seq<Msg>)
    requires tail < |ring| && count <= |ring|
    ensures |s| == count
    decreases count
  {
    if count == 0 then [] else [ring[tail]] + Items(ring, Next(tail, |ring|), count - 1)
  }

  lemma {:induction false} ItemsPut(ring: seq<Msg>, tail: nat, count: nat, m: Msg)
    requires tail < |ring| && count < |ring|
    ensures Items(ring[Ahead(tail, count, |ring|) := m], tail, count + 1) == Items(ring, tail, count) + [m]
    decreases count
  {
    if count > 0 {
      ItemsPut(ring, Next(tail, |ring|), count - 1, m);
    }
  }

  lemma ModNext(i: nat, n: nat)
    requires i < n
    ensures i % n == i && (i + 1) % n == Next(i, n)
  {
    if i + 1 < n {
      assert (i + 1) % n == i + 1;
    } else {
      assert n % n == 0;
    }
  }

  class Endpoint {
    var state: State
    const ring: array<Msg>
    var head: nat
    var tail: nat
    var count: nat
    var sent: nat
    var received: nat
    var moved: nat
    var drops: nat

    /** A live ring of the given size, as sys_ipc_endpoint_create sets it up. */
    constructor (size: nat, blank: Msg)
      requires size > 0
      ensures Valid() && fresh(ring)
      ensures Abs() == Queue(Active, size, [], 0, 0, 0, 0)
    {
      state := Active;
      ring := new Msg[size](_ => blank);
      head, tail, count := 0, 0, 0;
      sent, received, moved, drops := 0, 0, 0, 0;
    }

    ghost predicate Valid()
      reads this
    {
      tail < ring.Length && count <= ring.Length && head == Ahead(tail, count, ring.Length)
    }

    ghost function Abs(): (q: Queue)
      reads this, ring
      requires Valid()
    {
      Queue(state, ring.Length, Items(ring[..], tail, count), sent, received, moved, drops)
    }

    /** ipc_msg_enqueue */
    method Put(m: Msg) returns (ok: bool)
      requires Valid()
      modifies this, ring
      ensures Valid() && Abs() == Step(old(Abs()), Enqueue(m)).0
      ensures ok <==> Step(old(Abs()), Enqueue(m)).1 == Done
    {
      if state != Active && state != Draining {
        return false;
      }
      if count >= ring.Length {
        drops := (drops + 1) % WORD;
        return false;
      }
      ModNext(head, ring.Length);
      ItemsPut(ring[..], tail, count, m);
      var slot := head % ring.Length;
      ring[slot] := m;
      head := (head + 1) % ring.Length;
      count := count + 1;
      sent := (sent + 1) % WORD;
      moved := (moved + m.payloadLen) % WORD;
      assert ring[..] == old(ring[..])[slot := m];
      return true;
    }

    /** ipc_msg_dequeue */
    method Take() returns (r: Outcome)
      requires Valid()
      modifies this
      ensures Valid() && Abs() == Step(old(Abs()), Dequeue).0 && r == Step(old(Abs()), Dequeue).1
    {
      if count == 0 {
        if state == Draining || state == Dead {
          return Refused;
        }
        return WouldBlock;
      }
      ModNext(tail, ring.Length);
      var slot := tail % ring.Length;
      r := Got(ring[slot]);
      tail := (tail + 1) % ring.Length;
      count := count - 1;
      received := (received + 1) % WORD;
    }

    /** ipc_lifecycle_transition */
    method Transition(to: State) returns (ok: bool)
      requires Valid()
      modifies this
      ensures Valid() && Abs() == Step(old(Abs()), Change(to)).0
      ensures ok <==> Step(old(Abs()), Change(to)).1 == Done
    {
      var expected := Constructed;
      match to {
        case Active => expected := Constructed;
        case Paused => expected := Active;
        case Draining => expected := Active;
        case Dead => expected := Paused;
        case Constructed => return false;
      }
      if state == expected {
        state := to;
        return true;
      }
      return false;
    }

    /** The compare and exchange of sys_ipc_object_resume. */
    method Unpause() returns (ok: bool)
      requires Valid()
      modifies this
      ensures Valid() && Abs() == Step(old(Abs()), Resume).0
      ensures ok <==> Step(old(Abs()), Resume).1 == Done
    {
      ok := state == Paused;
      if ok {
        state := Active;
      }
    }

    /** The compare and exchange at the end of sys_ipc_object_drain. */
    method Close() returns (ok: bool)
      requires Valid()
      modifies this
      ensures Valid() && Abs() == Step(old(Abs()), FinishDrain).0
      ensures ok <==> Step(old(Abs()), FinishDrain).1 == Done
    {
      ok := state == Draining;
      if ok {
        state := Dead;
      }
    }
  }
}
