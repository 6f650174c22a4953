/** Tasks sharing one handle behind a mutex: every interleaving of their steps is some sequential order
    of their operations. */
module AsyncHandles {
  import opened ZonedTypes
  import opened DeviceModel
  import opened HandleModel
  import ZoneHandles

  datatype Op = Write(buf: seq<byte>) | WriteAllOf(buf: seq<byte>) | Command(c: ZoneCommand) {
    function Payload(): seq<byte> {
      if Command? then [] else buf
    }
  }

  /** A task, from its spawning to the end of its blocking closure. */
  datatype Task =
    | Waiting(op: Op)
      /** Lock taken; `rest` is what is still to be written. */
    | Running(op: Op, rest: seq<byte>)
    | Leaving(op: Op, result: Result<nat>)
    | Finished(op: Op, result: Result<nat>)

  /** An operation that has released the lock, and what it left behind. */
  datatype Entry = Entry(task: nat, op: Op, result: Result<nat>, after: Pair)

  /** `order` records the operations in the order in which they released the lock. */
  datatype Shared = Shared(now: Pair, holder: Option<nat>, tasks: map<nat, Task>, order: seq<Entry>)

  datatype Step =
    | Spawn(t: nat, op: Op)
    | Acquire(t: nat)
      /** One device call by the task that holds the lock, accepting `n` bytes where it writes. */
    | Call(t: nat, n: nat)
    | CallFails(t: nat, error: ZonedError)
    | LoopEnds(t: nat)
    | Unlock(t: nat)

  // ---------- the steps ----------

  /** The device call an operation makes with `rest` still to be written. */
  function EventOf(op: Op, rest: seq<byte>, n: nat): HandleEvent {
    match op
    case Write(_) => Wrote(rest, n)
    case WriteAllOf(_) => Wrote(rest, n)
    case Command(c) => Commanded(c)
  }

  /** How a call can fail: a write at the capacity without reaching the device, anything else in it. */
  predicate MayFail(op: Op, h: HandleState, error: ZonedError) {
    if !op.Command? && h.writePointer >= h.CapacityEnd() then error == ZoneFull(h.index) else error.FromDevice()
  }

  /** The task after a successful call. */
  function AfterCall(op: Op, rest: seq<byte>, n: nat, index: nat): Task {
    match op
    case Write(_) => Leaving(op, Ok(n))
    case Command(_) => Leaving(op, Ok(0))
    case WriteAllOf(_) =>
      if n == 0 then Leaving(op, Err(ZoneFull(index)))
      else Running(op, if n <= |rest| then rest[n..] else [])
  }

  ghost predicate Runs(a: Shared, t: nat) {
    a.holder == Some(t) && t in a.tasks && a.tasks[t].Running?
  }

  ghost predicate Can(a: Shared, e: Step) {
    match e
    case Spawn(t, _) => t !in a.tasks
    case Acquire(t) => t in a.tasks && a.tasks[t].Waiting? && a.holder.None?
    case Call(t, n) =>
      && Runs(a, t) && ValidState(a.now.0)
      && (a.tasks[t].op.WriteAllOf? ==> a.tasks[t].rest != [])
      && Enabled(a.now.0, a.now.1, EventOf(a.tasks[t].op, a.tasks[t].rest, n))
    case CallFails(t, error) =>
      && Runs(a, t)
      && (a.tasks[t].op.WriteAllOf? ==> a.tasks[t].rest != [])
      && MayFail(a.tasks[t].op, a.now.1, error)
    case LoopEnds(t) => Runs(a, t) && a.tasks[t].op.WriteAllOf? && a.tasks[t].rest == []
    case Unlock(t) => a.holder == Some(t) && t in a.tasks && a.tasks[t].Leaving?
  }

  ghost function After(a: Shared, e: Step): Shared {
    if !Can(a, e) then a else
      match e
      case Spawn(t, op) => a.(tasks := a.tasks[t := Waiting(op)])
      case Acquire(t) => a.(holder := Some(t), tasks := a.tasks[t := Running(a.tasks[t].op, a.tasks[t].op.Payload())])
      case Call(t, n) =>
        var op, rest := a.tasks[t].op, a.tasks[t].rest;
        var ev := EventOf(op, rest, n);
        a.(now := (DevAfter(a.now.0, a.now.1, ev), HandleAfter(a.now.1, ev)),
           tasks := a.tasks[t := AfterCall(op, rest, n, a.now.1.index)])
      case CallFails(t, error) => a.(tasks := a.tasks[t := Leaving(a.tasks[t].op, Err(error))])
      case LoopEnds(t) => a.(tasks := a.tasks[t := Leaving(a.tasks[t].op, Ok(|a.tasks[t].op.Payload()|))])
      case Unlock(t) =>
        var op, r := a.tasks[t].op, a.tasks[t].result;
        a.(holder := None, tasks := a.tasks[t := Finished(op, r)], order := a.order + [Entry(t, op, r, a.now)])
  }

  // ---------- sequential executions ----------

  /** Run alone on the handle, the operation can lead from `x` to `y` with result `r`: what the
      contracts of the sequential handle allow. */
  ghost predicate Executes(op: Op, x: Pair, y: Pair, r: Result<nat>) {
    match op
    case Write(buf) =>
      if r.Err? then y == x && MayFail(op, x.1, r.error)
      else ValidState(x.0) && Enabled(x.0, x.1, Wrote(buf, r.value)) && y == Once(x, Wrote(buf, r.value))
    case WriteAllOf(buf) =>
      && (r.Ok? ==> r.value == |buf|)
      && exists cuts :: Loop(x, y, buf, cuts, WithoutCount(r))
    case Command(c) =>
      if r.Err? then y == x && r.error.FromDevice() else ValidState(x.0) && r.value == 0 && y == Once(x, Commanded(c))
  }

  function WithoutCount(r: Result<nat>): Result<()> {
    if r.Ok? then Ok(()) else Err(r.error)
  }

  ghost function Once(x: Pair, e: HandleEvent): Pair {
    (DevAfter(x.0, x.1, e), HandleAfter(x.1, e))
  }

  ghost predicate Loop(x: Pair, y: Pair, buf: seq<byte>, cuts: seq<nat>, r: Result<()>) {
    WriteAll(x.0, x.1, buf, cuts, r) && y == Exec(x.0, x.1, Pieces(buf, cuts))
  }

  /** What an asynchronous method runs once it holds the lock. */
  method Perform(handle: ZoneHandles.ZoneHandle, op: Op) returns (r: Result<nat>)
    requires handle.Valid()
    modifies handle`writePointer, handle`log, handle.device
    ensures handle.Valid()
    ensures Executes(op, old((handle.device.state, handle.Abs())), (handle.device.state, handle.Abs()), r)
    ensures r.Err? && handle.device.Dependable() ==> Unable(op, old(handle.device.state), old(handle.Abs()))
  {
    ghost var x := (handle.device.state, handle.Abs());
    match op {
      case Write(buf) =>
        r := handle.WriteSequential(buf);
      case WriteAllOf(buf) =>
        var written;
        ghost var cuts;
        written, cuts := handle.WriteAllSequential(buf);
        r := if written.Ok? then Ok(|buf|) else Err(written.error);
        assert Loop(x, (handle.device.state, handle.Abs()), buf, cuts, WithoutCount(r));
      case Command(c) =>
        var done;
        if c.Reset? {
          done := handle.Reset();
        } else if c.Finish? {
          done := handle.Finish();
        } else {
          done := handle.Manage(c);
        }
        r := if done.Ok? then Ok(0) else Err(done.error);
    }
  }

  /** The operation cannot succeed from here on a device that does what it can. */
  ghost predicate Unable(op: Op, s: DeviceState, h: HandleState) {
    match op
    case Write(_) => !TakesWrites(s, h)
    case WriteAllOf(buf) => !HasRoom(s, h, buf)
    case Command(_) => h.index < |s.zones| && !s.zones[h.index].HasWritePointer()
  }

  /** The state in which operation `k` of the order began. */
  ghost function Before(x: Pair, order: seq<Entry>, k: nat): Pair
    requires k <= |order|
  {
    if k == 0 then x else order[k - 1].after
  }

  ghost predicate ExecutesAt(x: Pair, order: seq<Entry>, k: nat) {
    k < |order| ==> Executes(order[k].op, Before(x, order, k), order[k].after, order[k].result)
  }

  /** The operations ran one after the other, from `x` on. */
  ghost predicate Sequential(x: Pair, order: seq<Entry>) {
    forall k: nat :: ExecutesAt(x, order, k)
  }

  // ---------- the invariant ----------

  /** The task that holds the lock has so far executed its operation alone, from `x` on. */
  ghost predicate Underway(x: Pair, task: Task, now: Pair) {
    match task
    case Running(op, rest) =>
      if op.WriteAllOf? then exists cuts :: Writing(x.0, x.1, op.buf, cuts, now) && rest == Rest(op.buf, cuts)
      else now == x && rest == op.Payload()
    case Leaving(op, r) => Executes(op, x, now, r)
    case _ => false
  }

  ghost predicate Locked(task: Task) {
    task.Running? || task.Leaving?
  }

  ghost predicate HoldsLock(a: Shared, t: nat) {
    t in a.tasks ==> (Locked(a.tasks[t]) <==> a.holder == Some(t))
  }

  /** A finished task has a place in the order. */
  ghost predicate Placed(a: Shared, t: nat) {
    t in a.tasks && a.tasks[t].Finished? ==> exists k :: Place(a, t, k)
  }

  ghost predicate Place(a: Shared, t: nat, k: int) {
    && 0 <= k < |a.order| && a.order[k].task == t && t in a.tasks
    && a.tasks[t] == Finished(a.order[k].op, a.order[k].result)
  }

  /** The order lists exactly the finished tasks, each once, with their operations and results. */
  ghost predicate Listed(a: Shared) {
    && (forall i, j :: 0 <= i < j < |a.order| ==> a.order[i].task != a.order[j].task)
    && (forall k :: 0 <= k < |a.order| ==> Place(a, a.order[k].task, k))
    && (forall t: nat :: Placed(a, t))
  }

  /** Since the order's last operation only the lock's holder has acted. */
  ghost predicate Current(x: Pair, a: Shared) {
    match a.holder
    case None => a.now == x
    case Some(t) => t in a.tasks && Underway(x, a.tasks[t], a.now)
  }

  ghost predicate Serialized(x: Pair, a: Shared) {
    && Sequential(x, a.order)
    && Listed(a)
    && (forall t: nat :: HoldsLock(a, t))
    && ValidPair(a.now.0, a.now.1)
    && Current(Before(x, a.order, |a.order|), a)
  }

  // ---------- every step keeps it ----------

  lemma ListedKept(a: Shared, b: Shared, t: nat, task: Task)
    requires Listed(a) && b.order == a.order && b.tasks == a.tasks[t := task]
    requires !task.Finished? && (t in a.tasks ==> !a.tasks[t].Finished?)
    ensures Listed(b)
  {
    forall k | 0 <= k < |b.order|
      ensures Place(b, b.order[k].task, k)
    {
      assert Place(a, a.order[k].task, k);
    }
    forall u: nat
      ensures Placed(b, u)
    {
      assert Placed(a, u);
      if u in b.tasks && b.tasks[u].Finished? {
        var k :| Place(a, u, k);
        assert Place(b, u, k);
      }
    }
  }

  lemma ListedMore(a: Shared, b: Shared, entry: Entry)
    requires Listed(a) && b.order == a.order + [entry]
    requires entry.task in a.tasks && !a.tasks[entry.task].Finished?
    requires b.tasks == a.tasks[entry.task := Finished(entry.op, entry.result)]
    ensures Listed(b)
  {
    forall k | 0 <= k < |b.order|
      ensures Place(b, b.order[k].task, k)
      ensures k < |a.order| ==> b.order[k].task != entry.task
    {
      assert k < |a.order| ==> Place(a, a.order[k].task, k);
    }
    forall u: nat
      ensures Placed(b, u)
    {
      assert Placed(a, u);
      if u == entry.task {
        assert Place(b, u, |a.order|);
      } else if u in b.tasks && b.tasks[u].Finished? {
        var k :| Place(a, u, k);
        assert Place(b, u, k);
      }
    }
  }

  lemma SequentialMore(x: Pair, order: seq<Entry>, entry: Entry)
    requires Sequential(x, order) && Executes(entry.op, Before(x, order, |order|), entry.after, entry.result)
    ensures Sequential(x, order + [entry]) && Before(x, order + [entry], |order| + 1) == entry.after
  {
    hide Executes;
    forall k: nat
      ensures ExecutesAt(x, order + [entry], k)
    {
      assert ExecutesAt(x, order, k);
      assert k <= |order| ==> Before(x, order + [entry], k) == Before(x, order, k);
    }
  }

  /** A successful call takes the holder one step further in its operation. */
  lemma CallGoesOn(x: Pair, op: Op, rest: seq<byte>, n: nat, now: Pair)
    requires ValidPair(now.0, now.1) && Underway(x, Running(op, rest), now)
    requires op.WriteAllOf? ==> rest != []
    requires Enabled(now.0, now.1, EventOf(op, rest, n))
    ensures Underway(x, AfterCall(op, rest, n, now.1.index), Once(now, EventOf(op, rest, n)))
  {
    if op.WriteAllOf? {
      var cuts :| Writing(x.0, x.1, op.buf, cuts, now) && rest == Rest(op.buf, cuts);
      WriteGoesOn(x, op.buf, cuts, rest, n, now, Once(now, Wrote(rest, n)));
    }
  }

  lemma WriteGoesOn(x: Pair, buf: seq<byte>, cuts: seq<nat>, rest: seq<byte>, n: nat,
                    now: Pair, after: Pair)
    requires ValidPair(now.0, now.1) && Writing(x.0, x.1, buf, cuts, now) && rest == Rest(buf, cuts) && rest != []
    requires Enabled(now.0, now.1, Wrote(rest, n)) && after == Once(now, Wrote(rest, n))
    ensures Underway(x, AfterCall(WriteAllOf(buf), rest, n, now.1.index), after)
  {
    if n == 0 {
      ZoneHandles.ZeroWrite(now.0, now.1, rest);
      assert Stalls(now, rest);
      LoopStops(x, buf, cuts, now, Err(ZoneFull(now.1.index)));
    } else {
      hide DevAfter, HandleAfter, Run, Exec;
      var more := cuts + [Last(cuts) + n];
      WritingMore(x.0, x.1, buf, cuts, now, rest, n, after, more);
    }
  }

  lemma LoopStops(x: Pair, buf: seq<byte>, cuts: seq<nat>, now: Pair, r: Result<nat>)
    requires Writing(x.0, x.1, buf, cuts, now) && Stops(now, Rest(buf, cuts), WithoutCount(r))
    requires r.Ok? ==> r.value == |buf|
    ensures Executes(WriteAllOf(buf), x, now, r)
  {
    assert Loop(x, now, buf, cuts, WithoutCount(r));
  }

  lemma CallFailureEnds(x: Pair, op: Op, rest: seq<byte>, error: ZonedError, now: Pair)
    requires Underway(x, Running(op, rest), now) && MayFail(op, now.1, error)
    requires op.WriteAllOf? ==> rest != []
    ensures Executes(op, x, now, Err(error))
  {
    if op.WriteAllOf? {
      var cuts :| Writing(x.0, x.1, op.buf, cuts, now) && rest == Rest(op.buf, cuts);
      LoopStops(x, op.buf, cuts, now, Err(error));
    }
  }

  lemma LoopEndKeeps(x: Pair, op: Op, now: Pair)
    requires op.WriteAllOf? && Underway(x, Running(op, []), now)
    ensures Executes(op, x, now, Ok(|op.Payload()|))
  {
    var cuts :| Writing(x.0, x.1, op.buf, cuts, now) && [] == Rest(op.buf, cuts);
    LoopStops(x, op.buf, cuts, now, Ok(|op.buf|));
  }

  /** The holder's loop begins with nothing written. */
  lemma AcquiredUnderway(x: Pair, op: Op)
    ensures Underway(x, Running(op, op.Payload()), x)
  {
    if op.WriteAllOf? {
      var cuts := StartCuts();
      CutsStart(op.buf, cuts);
      assert Writing(x.0, x.1, op.buf, cuts, x);
    }
  }

  /** What the holder's own steps do to its operation and to the device. */
  lemma HolderStep(x: Pair, a: Shared, e: Step, t: nat)
    requires a.holder == Some(t) && t in a.tasks && Underway(x, a.tasks[t], a.now) && ValidPair(a.now.0, a.now.1)
    requires Can(a, e) && (e == Call(t, if e.Call? then e.n else 0) || (e.CallFails? && e.t == t) || e == LoopEnds(t))
    ensures var b := After(a, e);
            && Underway(x, b.tasks[t], b.now) && Locked(b.tasks[t]) && ValidPair(b.now.0, b.now.1)
            && b.order == a.order && b.holder == a.holder && b.tasks == a.tasks[t := b.tasks[t]]
  {
    if e.Call? {
      CallGoesOn(x, a.tasks[t].op, a.tasks[t].rest, e.n, a.now);
      EventValid(a.now.0, a.now.1, EventOf(a.tasks[t].op, a.tasks[t].rest, e.n));
    } else if e.CallFails? {
      CallFailureEnds(x, a.tasks[t].op, a.tasks[t].rest, e.error, a.now);
    } else {
      LoopEndKeeps(x, a.tasks[t].op, a.now);
    }
  }

  lemma LocksKept(a: Shared, b: Shared, t: nat)
    requires forall u: nat :: HoldsLock(a, u)
    requires t in b.tasks && b.tasks == a.tasks[t := b.tasks[t]] && HoldsLock(b, t)
    requires forall u: nat :: u != t ==> (a.holder == Some(u) <==> b.holder == Some(u))
    ensures forall u: nat :: HoldsLock(b, u)
  {
    forall u: nat
      ensures HoldsLock(b, u)
    {
      assert HoldsLock(a, u);
    }
  }

  lemma StepKeepsSerialized(x: Pair, a: Shared, e: Step)
    requires Serialized(x, a) && Can(a, e)
    ensures Serialized(x, After(a, e))
  {
    var b, last := After(a, e), Before(x, a.order, |a.order|);
    assert HoldsLock(a, e.t);
    if e.Unlock? {
      var entry := Entry(e.t, a.tasks[e.t].op, a.tasks[e.t].result, a.now);
      SequentialMore(x, a.order, entry);
      ListedMore(a, b, entry);
    } else {
      if e.Acquire? {
        AcquiredUnderway(last, a.tasks[e.t].op);
      } else if !e.Spawn? {
        HolderStep(last, a, e, e.t);
      }
      ListedKept(a, b, e.t, b.tasks[e.t]);
    }
    LocksKept(a, b, e.t);
  }

  // ---------- runs ----------

  ghost function AfterAll(a: Shared, es: seq<Step>): Shared {
    if es == [] then a else After(AfterAll(a, es[..|es| - 1]), es[|es| - 1])
  }

  ghost predicate CanAll(a: Shared, es: seq<Step>) {
    es == [] || (CanAll(a, es[..|es| - 1]) && Can(AfterAll(a, es[..|es| - 1]), es[|es| - 1]))
  }

  ghost predicate Init(a: Shared) {
    ValidPair(a.now.0, a.now.1) && a.holder.None? && a.tasks == map[] && a.order == []
  }

  lemma {:induction false} SerializedInEveryRun(a: Shared, es: seq<Step>)
    requires Init(a) && CanAll(a, es)
    ensures Serialized(a.now, AfterAll(a, es))
  {
    if es == [] {
    } else {
      SerializedInEveryRun(a, es[..|es| - 1]);
      StepKeepsSerialized(a.now, AfterAll(a, es[..|es| - 1]), es[|es| - 1]);
    }
  }

  /** Non-interleaving: whatever the tasks do, once all have finished, their operations ran one after
      the other in some order, each task's once, and the handle and device are where that order ends. */
  lemma EveryRunIsSequential(a: Shared, es: seq<Step>)
    requires Init(a) && CanAll(a, es)
    requires forall t: nat :: t in AfterAll(a, es).tasks ==> AfterAll(a, es).tasks[t].Finished?
    ensures var b := AfterAll(a, es);
            Sequential(a.now, b.order) && Listed(b) && b.now == Before(a.now, b.order, |b.order|)
  {
    SerializedInEveryRun(a, es);
  }

  // ---------- every sequential execution happens ----------

  lemma OneMoreStep(a: Shared, es: seq<Step>, e: Step)
    ensures AfterAll(a, es + [e]) == After(AfterAll(a, es), e)
    ensures CanAll(a, es + [e]) <==> CanAll(a, es) && Can(AfterAll(a, es), e)
  {
    assert (es + [e])[..|es + [e]| - 1] == es;
  }

  /** A shared handle whose lock task `t` holds, the task standing at `task` and device and handle at `now`. */
  ghost function HeldBy(a: Shared, t: nat, task: Task, now: Pair): Shared {
    a.(holder := Some(t), tasks := a.tasks[t := task], now := now)
  }

  /** Task `t` waits for the lock, which is free. */
  ghost predicate Waits(a: Shared, t: nat, op: Op) {
    a.holder.None? && t in a.tasks && a.tasks[t] == Waiting(op)
  }

  /** A task can be spawned whatever the others are doing, and disturbs none of them. */
  lemma SpawnedAnyTime(a: Shared, t: nat, op: Op)
    requires t !in a.tasks
    ensures Can(a, Spawn(t, op)) && After(a, Spawn(t, op)) == a.(tasks := a.tasks[t := Waiting(op)])
    ensures a.holder.None? ==> Waits(After(a, Spawn(t, op)), t, op)
  {
  }

  lemma Acquires(a: Shared, t: nat, op: Op) returns (es: seq<Step>)
    requires Waits(a, t, op)
    ensures CanAll(a, es) && AfterAll(a, es) == HeldBy(a, t, Running(op, op.Payload()), a.now)
  {
    assert CanAll(a, []) && AfterAll(a, []) == a;
    OneMoreStep(a, [], Acquire(t));
    es := [] + [Acquire(t)];
  }

  /** One more step of the task that holds the lock. */
  lemma HolderActs(a: Shared, es: seq<Step>, t: nat, task: Task, now: Pair, e: Step, task': Task, now': Pair)
    returns (more: seq<Step>)
    requires CanAll(a, es) && AfterAll(a, es) == HeldBy(a, t, task, now)
    requires Can(HeldBy(a, t, task, now), e) && After(HeldBy(a, t, task, now), e) == HeldBy(a, t, task', now')
    ensures CanAll(a, more) && AfterAll(a, more) == HeldBy(a, t, task', now')
  {
    OneMoreStep(a, es, e);
    more := es + [e];
  }

  lemma CallStep(a: Shared, t: nat, op: Op, rest: seq<byte>, now: Pair, n: nat)
    requires ValidState(now.0) && Enabled(now.0, now.1, EventOf(op, rest, n)) && (op.WriteAllOf? ==> rest != [])
    ensures Can(HeldBy(a, t, Running(op, rest), now), Call(t, n))
    ensures After(HeldBy(a, t, Running(op, rest), now), Call(t, n))
            == HeldBy(a, t, AfterCall(op, rest, n, now.1.index), Once(now, EventOf(op, rest, n)))
  {
    var b := HeldBy(a, t, Running(op, rest), now);
    assert After(b, Call(t, n)).tasks == a.tasks[t := AfterCall(op, rest, n, now.1.index)];
  }

  lemma FailStep(a: Shared, t: nat, op: Op, rest: seq<byte>, now: Pair, error: ZonedError)
    requires MayFail(op, now.1, error) && (op.WriteAllOf? ==> rest != [])
    ensures Can(HeldBy(a, t, Running(op, rest), now), CallFails(t, error))
    ensures After(HeldBy(a, t, Running(op, rest), now), CallFails(t, error))
            == HeldBy(a, t, Leaving(op, Err(error)), now)
  {
    var b := HeldBy(a, t, Running(op, rest), now);
    assert After(b, CallFails(t, error)).tasks == a.tasks[t := Leaving(op, Err(error))];
  }

  lemma EndStep(a: Shared, t: nat, buf: seq<byte>, now: Pair)
    ensures Can(HeldBy(a, t, Running(WriteAllOf(buf), []), now), LoopEnds(t))
    ensures After(HeldBy(a, t, Running(WriteAllOf(buf), []), now), LoopEnds(t))
            == HeldBy(a, t, Leaving(WriteAllOf(buf), Ok(|buf|)), now)
  {
    var b := HeldBy(a, t, Running(WriteAllOf(buf), []), now);
    assert After(b, LoopEnds(t)).tasks == a.tasks[t := Leaving(WriteAllOf(buf), Ok(|buf|))];
  }

  /** The calls of an execution of the loop, one after another. */
  lemma {:induction false} LoopRuns(a: Shared, t: nat, buf: seq<byte>, cuts: seq<nat>) returns (es: seq<Step>)
    requires Waits(a, t, WriteAllOf(buf)) && Cuts(buf, cuts) && Run(a.now.0, a.now.1, Pieces(buf, cuts))
    ensures CanAll(a, es)
    ensures AfterAll(a, es)
            == HeldBy(a, t, Running(WriteAllOf(buf), Rest(buf, cuts)), Exec(a.now.0, a.now.1, Pieces(buf, cuts)))
    decreases |cuts|
  {
    hide DevAfter, HandleAfter, Enabled, ValidState, CanAll, AfterAll, After, Can;
    if |cuts| == 1 {
      assert Pieces(buf, cuts) == [];
      es := Acquires(a, t, WriteAllOf(buf));
    } else {
      PiecesSnoc(buf, cuts);
      var before, from := cuts[..|cuts| - 1], cuts[|cuts| - 2];
      RunSnoc(a.now.0, a.now.1, Pieces(buf, before), Piece(buf, from, Last(cuts)));
      var now := Exec(a.now.0, a.now.1, Pieces(buf, before));
      es := LoopRuns(a, t, buf, before);
      hide Run, Exec, Pieces, Cuts;
      es := PieceRuns(a, es, t, buf, from, Last(cuts), now);
    }
  }

  /** The call that takes the bytes `from` to `to - 1` of the buffer. */
  lemma PieceRuns(a: Shared, es: seq<Step>, t: nat, buf: seq<byte>, from: nat, to: nat, now: Pair)
    returns (more: seq<Step>)
    requires from < to <= |buf| && ValidState(now.0) && Enabled(now.0, now.1, Piece(buf, from, to))
    requires CanAll(a, es) && AfterAll(a, es) == HeldBy(a, t, Running(WriteAllOf(buf), buf[from..]), now)
    ensures CanAll(a, more)
    ensures AfterAll(a, more) == HeldBy(a, t, Running(WriteAllOf(buf), buf[to..]), Once(now, Piece(buf, from, to)))
  {
    hide DevAfter, HandleAfter, Enabled, ValidState, CanAll, AfterAll, After, Can;
    var rest, n := buf[from..], to - from;
    CallStep(a, t, WriteAllOf(buf), rest, now, n);
    assert rest[n..] == buf[to..];
    more := HolderActs(a, es, t, Running(WriteAllOf(buf), rest), now, Call(t, n),
                       Running(WriteAllOf(buf), buf[to..]), Once(now, Wrote(rest, n)));
  }

  lemma LoopRunsOut(a: Shared, t: nat, buf: seq<byte>, cuts: seq<nat>, y: Pair, r: Result<nat>) returns (es: seq<Step>)
    requires ValidPair(a.now.0, a.now.1) && Waits(a, t, WriteAllOf(buf))
    requires Loop(a.now, y, buf, cuts, WithoutCount(r)) && (r.Ok? ==> r.value == |buf|)
    ensures CanAll(a, es) && AfterAll(a, es) == HeldBy(a, t, Leaving(WriteAllOf(buf), r), y)
  {
    RunValid(a.now.0, a.now.1, Pieces(buf, cuts));
    es := LoopRuns(a, t, buf, cuts);
    var op, rest := WriteAllOf(buf), Rest(buf, cuts);
    hide Run, Exec, Enabled, DevAfter, ValidState, CanAll, AfterAll, After, Can;
    if r.Ok? {
      EndStep(a, t, buf, y);
      es := HolderActs(a, es, t, Running(op, rest), y, LoopEnds(t), Leaving(op, r), y);
    } else if MayFail(op, y.1, r.error) {
      FailStep(a, t, op, rest, y, r.error);
      es := HolderActs(a, es, t, Running(op, rest), y, CallFails(t, r.error), Leaving(op, r), y);
    } else {
      CallStep(a, t, op, rest, y, 0);
      ZoneHandles.ZeroWrite(y.0, y.1, rest);
      es := HolderActs(a, es, t, Running(op, rest), y, Call(t, 0), Leaving(op, r), y);
    }
  }

  lemma OneCallRuns(a: Shared, t: nat, op: Op, y: Pair, r: Result<nat>) returns (es: seq<Step>)
    requires Waits(a, t, op) && !op.WriteAllOf? && Executes(op, a.now, y, r)
    ensures CanAll(a, es) && AfterAll(a, es) == HeldBy(a, t, Leaving(op, r), y)
  {
    hide DevAfter, HandleAfter, Enabled, ValidState, CanAll, AfterAll, After, Can;
    es := Acquires(a, t, op);
    var begun := Running(op, op.Payload());
    if r.Err? {
      FailStep(a, t, op, op.Payload(), a.now, r.error);
      es := HolderActs(a, es, t, begun, a.now, CallFails(t, r.error), Leaving(op, r), y);
    } else {
      CallStep(a, t, op, op.Payload(), a.now, r.value);
      es := HolderActs(a, es, t, begun, a.now, Call(t, r.value), Leaving(op, r), y);
    }
  }

  /** The steps leave nothing out: whatever the sequential handle may do with an operation, a task that waits
      for it and finds the lock free does with it in some run, and leaves the lock, its result and its place in the order behind. */
  lemma EveryExecutionRuns(a: Shared, t: nat, op: Op, y: Pair, r: Result<nat>) returns (es: seq<Step>)
    requires ValidPair(a.now.0, a.now.1) && Waits(a, t, op) && Executes(op, a.now, y, r)
    ensures CanAll(a, es)
    ensures AfterAll(a, es)
            == Shared(y, None, a.tasks[t := Finished(op, r)], a.order + [Entry(t, op, r, y)])
  {
    hide CanAll, AfterAll, DevAfter, HandleAfter, WriteAll, Exec;
    if op.WriteAllOf? {
      var cuts :| Loop(a.now, y, op.buf, cuts, WithoutCount(r));
      es := LoopRunsOut(a, t, op.buf, cuts, y, r);
    } else {
      es := OneCallRuns(a, t, op, y, r);
    }
    OneMoreStep(a, es, Unlock(t));
    var b := HeldBy(a, t, Leaving(op, r), y);
    assert After(b, Unlock(t)).tasks == a.tasks[t := Finished(op, r)];
    es := es + [Unlock(t)];
  }

  // ---------- payloads ----------

  /** Operations that only append: writes of whole sectors, open and close. */
  predicate Appends(op: Op) {
    if op.Command? then op.c.Open? || op.c.Close? else |op.buf| % SECTOR_SIZE == 0
  }

  /** The part of the payload the operation got accepted, judged by how far the pointer moved. */
  function Accepted(op: Op, from: nat, to: nat): seq<byte> {
    if from <= to && SECTOR_SIZE * (to - from) <= |op.Payload()| then op.Payload()[..SECTOR_SIZE * (to - from)] else []
  }

  lemma OneWriteAppends(x: Pair, buf: seq<byte>, n: nat)
    requires ValidPair(x.0, x.1) && |buf| % SECTOR_SIZE == 0 && Enabled(x.0, x.1, Wrote(buf, n))
    ensures n <= |buf| && n % SECTOR_SIZE == 0 && Appended(x.0, x.1, Once(x, Wrote(buf, n)), buf[..n])
  {
    EventValid(x.0, x.1, Wrote(buf, n));
    EventLog(x.0, x.1, Wrote(buf, n));
    LogGrew(x.0, x.1, Once(x, Wrote(buf, n)), buf[..n]);
  }

  lemma LoopAppends(buf: seq<byte>, x: Pair, y: Pair, r: Result<nat>)
    requires ValidPair(x.0, x.1) && |buf| % SECTOR_SIZE == 0 && Executes(WriteAllOf(buf), x, y, r)
    ensures Appended(x.0, x.1, y, Accepted(WriteAllOf(buf), x.1.writePointer, y.1.writePointer))
    ensures r.Ok? ==> Accepted(WriteAllOf(buf), x.1.writePointer, y.1.writePointer) == buf
  {
    hide WriteAll, Run, Exec, ValidState, InStep, Accepted;
    var cuts :| Loop(x, y, buf, cuts, WithoutCount(r));
    WriteAllOutcome(x.0, x.1, buf, cuts, WithoutCount(r));
    AcceptedIs(WriteAllOf(buf), x.1.writePointer, Last(cuts));
    assert buf[..|buf|] == buf;
  }

  lemma AcceptedIs(op: Op, from: nat, k: nat)
    requires k % SECTOR_SIZE == 0 && k <= |op.Payload()|
    ensures Accepted(op, from, from + k / SECTOR_SIZE) == op.Payload()[..k]
  {
  }

  lemma CommandAppends(c: ZoneCommand, x: Pair, y: Pair)
    requires ValidPair(x.0, x.1) && (c.Open? || c.Close?) && y == Once(x, Commanded(c))
    ensures Appended(x.0, x.1, y, [])
  {
    EventLog(x.0, x.1, Commanded(c));
    LogGrew(x.0, x.1, y, []);
  }

  /** An appending operation, run alone, appends the accepted part of its payload to the zone; a
      `write_all_sequential` that succeeds appends all of it. */
  lemma OperationAppends(op: Op, x: Pair, y: Pair, r: Result<nat>)
    requires ValidPair(x.0, x.1) && Appends(op) && Executes(op, x, y, r)
    ensures Appended(x.0, x.1, y, Accepted(op, x.1.writePointer, y.1.writePointer))
    ensures r.Ok? && op.WriteAllOf? ==> Accepted(op, x.1.writePointer, y.1.writePointer) == op.buf
    ensures r.Ok? && op.Write? ==>
              r.value <= |op.buf| && Accepted(op, x.1.writePointer, y.1.writePointer) == op.buf[..r.value]
  {
    if op.WriteAllOf? {
      LoopAppends(op.buf, x, y, r);
    } else if r.Err? {
      LogGrew(x.0, x.1, x, []);
    } else if op.Write? {
      OneWriteAppends(x, op.buf, r.value);
      hide DevAfter, ValidState, Enabled;
    } else {
      CommandAppends(op.c, x, y);
    }
  }

  ghost predicate AllAppend(order: seq<Entry>) {
    forall k :: 0 <= k < |order| ==> Appends(order[k].op)
  }

  /** What operation `k` got accepted. */
  ghost function AcceptedAt(x: Pair, order: seq<Entry>, k: nat): seq<byte>
    requires k < |order|
  {
    Accepted(order[k].op, Before(x, order, k).1.writePointer, order[k].after.1.writePointer)
  }

  /** Everything the first `n` operations got accepted, in their order. */
  ghost function AcceptedBytes(x: Pair, order: seq<Entry>, n: nat): seq<byte>
    requires n <= |order|
  {
    if n == 0 then [] else AcceptedBytes(x, order, n - 1) + AcceptedAt(x, order, n - 1)
  }

  lemma OrderStep(x: Pair, order: seq<Entry>, k: nat)
    requires Sequential(x, order) && AllAppend(order) && k < |order|
    requires ValidPair(Before(x, order, k).0, Before(x, order, k).1)
    ensures Appended(Before(x, order, k).0, Before(x, order, k).1, Before(x, order, k + 1), AcceptedAt(x, order, k))
    ensures order[k].result.Ok? && order[k].op.WriteAllOf? ==> AcceptedAt(x, order, k) == order[k].op.buf
  {
    assert ExecutesAt(x, order, k);
    OperationAppends(order[k].op, Before(x, order, k), order[k].after, order[k].result);
  }

  /** The zone holds, behind what it held before, the accepted payloads in the order of the operations
      and nothing between them. */
  lemma {:induction false} LogIsAcceptedPayloads(x: Pair, order: seq<Entry>, n: nat)
    requires ValidPair(x.0, x.1) && Sequential(x, order) && AllAppend(order) && n <= |order|
    ensures ValidPair(Before(x, order, n).0, Before(x, order, n).1)
    ensures LogBytes(Before(x, order, n).0, Before(x, order, n).1) == LogBytes(x.0, x.1) + AcceptedBytes(x, order, n)
    decreases n
  {
    if n == 0 {
    } else {
      LogIsAcceptedPayloads(x, order, n - 1);
      LogGoesOn(x, order, n);
    }
  }

  lemma LogGoesOn(x: Pair, order: seq<Entry>, n: nat)
    requires ValidPair(x.0, x.1) && Sequential(x, order) && AllAppend(order) && 0 < n <= |order|
    requires ValidPair(Before(x, order, n - 1).0, Before(x, order, n - 1).1)
    requires LogBytes(Before(x, order, n - 1).0, Before(x, order, n - 1).1) == LogBytes(x.0, x.1) + AcceptedBytes(x, order, n - 1)
    ensures ValidPair(Before(x, order, n).0, Before(x, order, n).1)
    ensures LogBytes(Before(x, order, n).0, Before(x, order, n).1) == LogBytes(x.0, x.1) + AcceptedBytes(x, order, n)
  {
    hide AcceptedAt, LogBytes, ValidPair, Sequential, AllAppend;
    OrderStep(x, order, n - 1);
    assert AcceptedBytes(x, order, n) == AcceptedBytes(x, order, n - 1) + AcceptedAt(x, order, n - 1);
  }
}
