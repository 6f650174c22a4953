/** Races between threads: why `allocate` can fail with `ZoneAlreadyAllocated`, and what an explicit release
    of an index in use leads to. */
module ZoneRaces {
  import opened ZonedTypes
  import opened DeviceModel
  import opened HandleModel
  import opened ZoneHandles
  import opened ZoneSystem

  /** The state before step `k` of the run. */
  ghost function At(s: Sys, es: seq<Step>, k: nat): Sys
    requires k <= |es|
  {
    AfterAll(s, es[..k])
  }

  lemma {:induction false} AtNext(s: Sys, es: seq<Step>, k: nat)
    requires CanAll(s, es) && k < |es|
    ensures Can(At(s, es, k), es[k]) && At(s, es, k + 1) == After(At(s, es, k), es[k])
    decreases |es|
  {
    assert es[..k + 1][..k] == es[..k];
    if k + 1 < |es| {
      var before := es[..|es| - 1];
      AtNext(s, before, k);
      assert before[..k] == es[..k] && before[..k + 1] == es[..k + 1];
    } else {
      assert es[..k + 1] == es;
    }
  }

  /** Only a reservation adds an index to the allocated set. */
  lemma OnlyReservingAdds(s: Sys, e: Step, i: nat)
    requires i !in s.inUse && i in After(s, e).inUse
    ensures Can(s, e) && e.TryReserve? && s.calls[e.c].index == i && After(s, e).calls[e.c] == Reserved(i)
  {
  }

  lemma {:induction false} Entered(s: Sys, es: seq<Step>, a: nat, b: nat, i: nat) returns (t: nat)
    requires CanAll(s, es) && a <= b <= |es|
    requires i !in At(s, es, a).inUse && i in At(s, es, b).inUse
    ensures a <= t < b && i !in At(s, es, t).inUse && i in At(s, es, t + 1).inUse
    decreases b
  {
    hide AfterAll, CanAll;
    t := b - 1;
    if i in At(s, es, t).inUse {
      t := Entered(s, es, a, b - 1, i);
    }
  }

  /** How far a call has come. */
  function Progress(call: Call): nat {
    match call
    case Scanning(_) => 0
    case Chosen(_, _) => 1
    case Reserved(_) => 2
    case Read(_, _) => 3
    case RollingBack(_, _) => 3
    case Returned(_) => 4
    case Errored(_) => 4
  }

  lemma StepKeepsProgress(s: Sys, e: Step, c: nat)
    requires c in s.calls
    ensures c in After(s, e).calls && Progress(s.calls[c]) <= Progress(After(s, e).calls[c])
  {
  }

  lemma NextKeepsProgress(s: Sys, es: seq<Step>, k: nat, c: nat)
    requires CanAll(s, es) && k < |es| && c in At(s, es, k).calls
    ensures c in At(s, es, k + 1).calls && Progress(At(s, es, k).calls[c]) <= Progress(At(s, es, k + 1).calls[c])
  {
    hide After, Can;
    AtNext(s, es, k);
    StepKeepsProgress(At(s, es, k), es[k], c);
  }

  lemma {:induction false} RunKeepsProgress(s: Sys, es: seq<Step>, a: nat, b: nat, c: nat)
    requires CanAll(s, es) && a <= b <= |es| && c in At(s, es, a).calls
    ensures c in At(s, es, b).calls && Progress(At(s, es, a).calls[c]) <= Progress(At(s, es, b).calls[c])
    decreases b
  {
    hide AfterAll, CanAll, Progress;
    if a == b {
    } else {
      RunKeepsProgress(s, es, a, b - 1, c);
      NextKeepsProgress(s, es, b - 1, c);
    }
  }

  /** Call `c` chose index `i` from its snapshot at step `p` and was refused it at step `q`. */
  ghost predicate LosesRace(s: Sys, es: seq<Step>, c: nat, i: nat, p: nat, q: nat) {
    && CanAll(s, es) && p < q < |es|
    && es[p] == Pick(c) && c in At(s, es, p + 1).calls && At(s, es, p + 1).calls[c] == Chosen(i, true)
    && es[q] == TryReserve(c) && c in At(s, es, q + 1).calls && At(s, es, q + 1).calls[c] == Errored(ZoneAlreadyAllocated(i))
  }

  /** If an `allocate` loses its race, another call, under way at the same time and hence another
      thread's, reserved the same index between the choice and the refusal. */
  lemma LostRace(s: Sys, es: seq<Step>, c: nat, i: nat, p: nat, q: nat) returns (t: nat, d: nat)
    requires LosesRace(s, es, c, i, p, q)
    ensures p < t < q && es[t] == TryReserve(d) && d != c
    ensures i !in At(s, es, t).inUse
    ensures d in At(s, es, t + 1).calls && At(s, es, t + 1).calls[d] == Reserved(i)
  {
    AtNext(s, es, p);
    AtNext(s, es, q);
    t := Entered(s, es, p + 1, q, i);
    AtNext(s, es, t);
    OnlyReservingAdds(At(s, es, t), es[t], i);
    d := es[t].c;
    RunKeepsProgress(s, es, t + 1, q, d);
  }

  // ---------- an explicit release ----------

  lemma OneMoreStep(s: Sys, es: seq<Step>, e: Step)
    ensures AfterAll(s, es + [e]) == After(AfterAll(s, es), e)
    ensures CanAll(s, es + [e]) <==> CanAll(s, es) && Can(AfterAll(s, es), e)
  {
    assert (es + [e])[..|es + [e]| - 1] == es;
  }

  /** What the four steps of a successful `allocate_zone` make of a state in which the index is free. */
  lemma IssueSteps(s: Sys, c: nat, h: nat, i: nat, t: Sys, u: Sys, v: Sys)
    requires ValidState(s.dev) && i < |s.dev.zones| && i !in s.inUse && c !in s.calls && h !in s.handles
    requires t == After(s, StartAllocateZone(c, i)) && u == After(t, TryReserve(c)) && v == After(u, ReadZone(c))
    ensures Can(s, StartAllocateZone(c, i)) && Can(t, TryReserve(c)) && Can(u, ReadZone(c)) && Can(v, Construct(c, h))
    ensures After(v, Construct(c, h))
            == Sys(s.dev, s.inUse + {i}, s.calls[c := Returned(h)], s.handles[h := Opened(i, Descriptors(s.dev)[i])])
  {
    var w := After(v, Construct(c, h));
    assert w.calls == s.calls[c := Returned(h)];
  }

  /** A run that has gone through `es` can go on to issue a handle for a free index. */
  lemma Issue(s: Sys, es: seq<Step>, now: Sys, c: nat, h: nat, i: nat) returns (more: seq<Step>)
    requires CanAll(s, es) && now == AfterAll(s, es)
    requires ValidState(now.dev) && i < |now.dev.zones| && i !in now.inUse && c !in now.calls && h !in now.handles
    ensures CanAll(s, more) && |more| == |es| + 4 && more[..|es|] == es
    ensures forall k :: |es| <= k < |more| ==> !more[k].Release?
    ensures AfterAll(s, more) == Sys(now.dev, now.inUse + {i}, now.calls[c := Returned(h)],
                                     now.handles[h := Opened(i, Descriptors(now.dev)[i])])
  {
    var t := After(now, StartAllocateZone(c, i));
    var u := After(t, TryReserve(c));
    var v := After(u, ReadZone(c));
    IssueSteps(now, c, h, i, t, u, v);
    hide After, Can, CanAll, AfterAll, ValidState;
    OneMoreStep(s, es, StartAllocateZone(c, i));
    OneMoreStep(s, es + [StartAllocateZone(c, i)], TryReserve(c));
    OneMoreStep(s, es + [StartAllocateZone(c, i)] + [TryReserve(c)], ReadZone(c));
    OneMoreStep(s, es + [StartAllocateZone(c, i)] + [TryReserve(c)] + [ReadZone(c)], Construct(c, h));
    more := es + [StartAllocateZone(c, i)] + [TryReserve(c)] + [ReadZone(c)] + [Construct(c, h)];
  }

  lemma StartOfRun(s: Sys)
    ensures CanAll(s, []) && AfterAll(s, []) == s
  {
  }

  lemma ReleaseStep(s: Sys, i: nat)
    requires ValidState(s.dev)
    ensures Can(s, Release(i)) && After(s, Release(i)) == s.(inUse := s.inUse - {i})
  {
  }

  /** From every initial state and for every zone there is a run with a single explicit release that ends
      with two live handles on that zone. */
  lemma ReleaseSharesZone(s: Sys, i: nat) returns (es: seq<Step>)
    requires Init(s) && i < |s.dev.zones|
    ensures CanAll(s, es) && exists k :: 0 <= k < |es| && es[k] == Release(i) && NoRelease(es[..k]) && NoRelease(es[k + 1..])
    ensures var t := AfterAll(s, es);
            && t.dev == s.dev && 0 in t.handles && 1 in t.handles
            && t.handles[0] == t.handles[1] == Opened(i, Descriptors(s.dev)[i])
  {
    hide After, Can, CanAll, AfterAll, ValidState;
    StartOfRun(s);
    var first := Issue(s, [], s, 0, 0, i);
    var t := AfterAll(s, first);
    ReleaseStep(t, i);
    OneMoreStep(s, first, Release(i));
    var released := first + [Release(i)];
    es := Issue(s, released, AfterAll(s, released), 1, 1, i);
    assert es[4] == es[..5][4] == Release(i);
    assert forall k :: 0 <= k < 4 ==> es[k] == es[..5][k] == first[k];
  }

  /** Of two handles on one zone, a write through one puts the other out of step. */
  lemma OtherHandleFallsBehind(s: DeviceState, g: HandleState, h: HandleState, e: HandleEvent)
    requires ValidPair(s, g) && ValidPair(s, h) && g.index == h.index && InStep(s, g) && InStep(s, h)
    requires e.Wrote? && e.n > 0 && Enabled(s, g, e)
    ensures !InStep(DevAfter(s, g, e), h)
  {
    assert ValidAt(s.zones, g.index);
    IndexUnique(s.zones, g.writePointer, g.index);
    WriteInside(s, g.writePointer, e.n);
  }
}
