/**
 Ordered, re-entrant locks shared by any number of threads (scripts/cbz_lock_order.py), as a transition system.

 Lock objects are numbered; object 0 is the router-index lock, the others are made by the one registry of
 series locks. A thread's record of what it holds is kept apart from who owns which object, because the order
 check reads only the record and judges re-entry by (class, key).
 */
module LockSystem {

  datatype LockClass = SeriesOperation | RouterIndex

  datatype Held = Held(cls: LockClass, key: string)

  function Rank(cls: LockClass): int {
    match cls
    case SeriesOperation => 1
    case RouterIndex => 2
  }

  const INDEX_LOCK: nat := 0

  /** The owner of a re-entrant lock and how often it has acquired it. */
  datatype Ownership = Ownership(thread: nat, depth: nat)

  datatype System = System(
    registry: map<string, nat>,
    objects: seq<Held>,
    owners: map<nat, Ownership>,
    stacks: map<nat, seq<Held>>,
    waiting: map<nat, nat>,      // thread -> the object its acquire blocks on
    bodies: map<nat, string>)    // thread inside a stable-identity body -> its key

  function Stack(s: System, t: nat): seq<Held> {
    if t in s.stacks then s.stacks[t] else []
  }

  const INITIAL := System(map[], [Held(RouterIndex, "")], map[], map[], map[], map[])

  /** `_check_order`: re-entry, or everything held ranks strictly lower. */
  predicate MayRequest(stack: seq<Held>, h: Held) {
    h in stack || forall e | e in stack :: Rank(e.cls) < Rank(h.cls)
  }

  /** The order check by name: a series lock is given to a thread that has nothing or has that very lock, the index lock to
      one that has no other lock of its class, whatever series lock it holds. */
  lemma RequestsExactly(stack: seq<Held>, h: Held)
    ensures h.cls == SeriesOperation ==> (MayRequest(stack, h) <==> stack == [] || h in stack)
    ensures h.cls == RouterIndex ==>
      (MayRequest(stack, h) <==> h in stack || forall e | e in stack :: e.cls == SeriesOperation)
  {
    if stack != [] {
      assert stack[0] in stack;
    }
  }

  function Count(stack: seq<Held>, h: Held): nat {
    if stack == [] then 0 else (if stack[0] == h then 1 else 0) + Count(stack[1..], h)
  }

  /** `list.remove`. */
  function RemoveFirst(stack: seq<Held>, h: Held): (r: seq<Held>)
    requires h in stack
  {
    if stack[0] == h then stack[1..] else [stack[0]] + RemoveFirst(stack[1..], h)
  }

  lemma {:induction false} CountIn(stack: seq<Held>, h: Held)
    ensures h in stack <==> Count(stack, h) > 0
  {
    if stack != [] {
      CountIn(stack[1..], h);
      assert stack == [stack[0]] + stack[1..];
    }
  }

  lemma {:induction false} CountAppend(stack: seq<Held>, x: Held, h: Held)
    ensures Count(stack + [x], h) == Count(stack, h) + (if x == h then 1 else 0)
  {
    if stack == [] {
      assert stack + [x] == [x];
    } else {
      assert (stack + [x])[1..] == stack[1..] + [x];
      CountAppend(stack[1..], x, h);
    }
  }

  lemma {:induction false} CountRemove(stack: seq<Held>, x: Held, h: Held)
    requires x in stack
    ensures Count(RemoveFirst(stack, x), h) == Count(stack, h) - (if x == h then 1 else 0)
    ensures h in RemoveFirst(stack, x) ==> h in stack
  {
    if stack[0] != x {
      CountRemove(stack[1..], x, h);
      assert RemoveFirst(stack, x)[1..] == RemoveFirst(stack[1..], x);
    }
  }

  datatype Step =
    | ForSeries(key: string)              // the registry hands out, or first makes, the lock of a key
    | Request(thread: nat, object: nat)   // order check passed, now blocking
    | GiveUp(thread: nat)                 // a non-blocking acquire that found the lock taken
    | Grant(thread: nat)
    | Release(thread: nat, object: nat)
    | EnterBody(thread: nat, key: string)
    | LeaveBody(thread: nat)

  predicate Running(s: System, t: nat) {
    t !in s.waiting
  }

  predicate Grantable(s: System, t: nat) {
    t in s.waiting && (s.waiting[t] in s.owners ==> s.owners[s.waiting[t]].thread == t)
  }

  predicate Enabled(s: System, step: Step) {
    match step
    case ForSeries(key) => key != ""
    case Request(t, o) => Running(s, t) && o < |s.objects| && MayRequest(Stack(s, t), s.objects[o])
    case GiveUp(t) => t in s.waiting
    case Grant(t) => Grantable(s, t) && s.waiting[t] < |s.objects|
    case Release(t, o) =>
      && Running(s, t) && o < |s.objects| && s.objects[o] in Stack(s, t)
      && o in s.owners && s.owners[o].thread == t && s.owners[o].depth > 0
      && (t in s.bodies && s.objects[o] == Held(SeriesOperation, s.bodies[t]) ==> s.owners[o].depth > 1)
    case EnterBody(t, key) => Running(s, t) && t !in s.bodies && Held(SeriesOperation, key) in Stack(s, t)
    case LeaveBody(t) => t in s.bodies
  }

  function Acquired(s: System, o: nat, t: nat): System
    requires o < |s.objects|
  {
    var depth := if o in s.owners then s.owners[o].depth else 0;
    s.(owners := s.owners[o := Ownership(t, depth + 1)],
       stacks := s.stacks[t := Stack(s, t) + [s.objects[o]]],
       waiting := s.waiting - {t})
  }

  function Released(s: System, o: nat, t: nat): System
    requires o < |s.objects| && o in s.owners && s.owners[o].depth > 0 && s.objects[o] in Stack(s, t)
  {
    s.(owners := if s.owners[o].depth == 1 then s.owners - {o}
                 else s.owners[o := Ownership(t, s.owners[o].depth - 1)],
       stacks := s.stacks[t := RemoveFirst(Stack(s, t), s.objects[o])])
  }

  /** A step that is not enabled raises in the thread that tried it and changes nothing. */
  function Next(s: System, step: Step): System {
    if !Enabled(s, step) then s else
    match step
    case ForSeries(key) =>
      if key in s.registry then s
      else s.(registry := s.registry[key := |s.objects|], objects := s.objects + [Held(SeriesOperation, key)])
    case Request(t, o) => s.(waiting := s.waiting[t := o])
    case GiveUp(t) => s.(waiting := s.waiting - {t})
    case Grant(t) => Acquired(s, s.waiting[t], t)
    case Release(t, o) => Released(s, o, t)
    case EnterBody(t, key) => s.(bodies := s.bodies[t := key])
    case LeaveBody(t) => s.(bodies := s.bodies - {t})
  }

  function Run(s: System, steps: seq<Step>): System
    decreases |steps|
  {
    if steps == [] then s else Run(Next(s, steps[0]), steps[1..])
  }

  // ------------------------------------------------------------ invariant

  /** One lock object per key, and one for the index. */
  ghost predicate OneLockPerKey(s: System) {
    && |s.objects| > 0 && s.objects[INDEX_LOCK] == Held(RouterIndex, "")
    && (forall key | key in s.registry ::
          s.registry[key] < |s.objects| && s.objects[s.registry[key]] == Held(SeriesOperation, key))
    && forall o | 0 < o < |s.objects| ::
         s.objects[o].cls == SeriesOperation && s.objects[o].key in s.registry
         && s.registry[s.objects[o].key] == o
  }

  /** How often `t` has acquired object `o`. */
  function Depth(s: System, t: nat, o: nat): nat {
    if o in s.owners && s.owners[o].thread == t then s.owners[o].depth else 0
  }

  /** A thread's record is exactly what it owns. */
  ghost predicate RecordIsTrue(s: System, t: nat) {
    && (forall o | 0 <= o < |s.objects| :: Count(Stack(s, t), s.objects[o]) == Depth(s, t, o))
    && forall h | h in Stack(s, t) :: h in s.objects
  }

  ghost predicate OneSeriesLock(stack: seq<Held>) {
    forall a, b | a in stack && b in stack && a.cls == SeriesOperation && b.cls == SeriesOperation :: a == b
  }

  /** One series lock at most, waiting only in order, in a body only under its lock. */
  ghost predicate ThreadOk(s: System, t: nat) {
    && RecordIsTrue(s, t)
    && OneSeriesLock(Stack(s, t))
    && (t in s.waiting ==> s.waiting[t] < |s.objects| && MayRequest(Stack(s, t), s.objects[s.waiting[t]]))
    && (t in s.bodies ==> Held(SeriesOperation, s.bodies[t]) in Stack(s, t))
  }

  /** No two lock objects are for one lock, whoever made them, and the registry will not make another. */
  ghost predicate NoTwins(s: System) {
    && (forall o, p | 0 <= o < |s.objects| && 0 <= p < |s.objects| && s.objects[o] == s.objects[p] :: o == p)
    && forall o | 0 <= o < |s.objects| && s.objects[o].cls == SeriesOperation && s.objects[o].key != "" ::
         s.objects[o].key in s.registry
  }

  /** What rules out deadlock. */
  ghost predicate Sound(s: System) {
    && NoTwins(s)
    && (forall o | o in s.owners :: o < |s.objects| && s.owners[o].depth > 0)
    && forall t: nat :: ThreadOk(s, t)
  }

  ghost predicate Inv(s: System) {
    OneLockPerKey(s) && Sound(s)
  }

  /** Whatever a thread has on record it owns, so releasing it never fails. */
  lemma RecordedMeansOwned(s: System, t: nat, o: nat)
    requires Sound(s) && o < |s.objects| && s.objects[o] in Stack(s, t)
    ensures o in s.owners && s.owners[o].thread == t && s.owners[o].depth > 0
  {
    assert ThreadOk(s, t);
    CountIn(Stack(s, t), s.objects[o]);
  }

  /** A thread that a step does not touch stays as it was. */
  lemma OtherThread(s: System, s': System, u: nat)
    requires ThreadOk(s, u) && s'.objects == s.objects
    requires Stack(s', u) == Stack(s, u)
    requires u in s'.waiting ==> u in s.waiting && s'.waiting[u] == s.waiting[u]
    requires u in s'.bodies ==> u in s.bodies && s'.bodies[u] == s.bodies[u]
    requires forall o | 0 <= o < |s.objects| :: Depth(s', u, o) == Depth(s, u, o)
    ensures ThreadOk(s', u)
  {
  }

  /** What a thread waits for under the order check, when it does not hold it: nothing at all is held for a series
      lock, and for the index lock nothing but a series lock. */
  lemma GrantedThread(s: System, t: nat)
    requires Sound(s) && Enabled(s, Grant(t))
    ensures ThreadOk(Next(s, Grant(t)), t)
  {
    var o := s.waiting[t];
    var h := s.objects[o];
    var s' := Next(s, Grant(t));
    assert ThreadOk(s, t);
    forall p | 0 <= p < |s.objects| ensures Count(Stack(s', t), s.objects[p]) == Depth(s', t, p) {
      CountAppend(Stack(s, t), h, s.objects[p]);
      assert s.objects[p] == h ==> p == o;
    }
    GrantedSeriesLock(s, t);
  }

  lemma GrantedSeriesLock(s: System, t: nat)
    requires Sound(s) && Enabled(s, Grant(t))
    ensures OneSeriesLock(Stack(Next(s, Grant(t)), t))
  {
    var h := s.objects[s.waiting[t]];
    assert ThreadOk(s, t);
    forall e | e in Stack(s, t) && e.cls == SeriesOperation && h.cls == SeriesOperation ensures e == h {
      assert MayRequest(Stack(s, t), h);
    }
  }

  lemma GrantKeepsSound(s: System, t: nat)
    requires Sound(s) && Enabled(s, Grant(t))
    ensures Sound(Next(s, Grant(t)))
  {
    var s' := Next(s, Grant(t));
    GrantedThread(s, t);
    forall u: nat | u != t ensures ThreadOk(s', u) {
      assert ThreadOk(s, u);
      OtherThread(s, s', u);
    }
  }

  lemma ReleasedThread(s: System, t: nat, o: nat)
    requires Sound(s) && Enabled(s, Release(t, o))
    ensures ThreadOk(Next(s, Release(t, o)), t)
  {
    var h := s.objects[o];
    var s' := Next(s, Release(t, o));
    var rest := RemoveFirst(Stack(s, t), h);
    assert ThreadOk(s, t);
    forall p | 0 <= p < |s.objects| ensures Count(rest, s.objects[p]) == Depth(s', t, p) {
      CountRemove(Stack(s, t), h, s.objects[p]);
      assert s.objects[p] == h ==> p == o;
    }
    forall e | e in rest ensures e in Stack(s, t) {
      CountRemove(Stack(s, t), h, e);
    }
    if t in s.bodies {
      var body := Held(SeriesOperation, s.bodies[t]);
      CountIn(Stack(s, t), body);
      CountRemove(Stack(s, t), h, body);
      CountIn(rest, body);
      assert Count(Stack(s, t), h) == Depth(s, t, o);
    }
  }

  lemma ReleaseKeepsSound(s: System, t: nat, o: nat)
    requires Sound(s) && Enabled(s, Release(t, o))
    ensures Sound(Next(s, Release(t, o)))
  {
    var s' := Next(s, Release(t, o));
    ReleasedThread(s, t, o);
    forall u: nat | u != t ensures ThreadOk(s', u) {
      assert ThreadOk(s, u);
      OtherThread(s, s', u);
    }
  }

  lemma RegistryKeepsSound(s: System, key: string)
    requires Sound(s) && key != ""
    ensures Sound(Next(s, ForSeries(key)))
  {
    var s' := Next(s, ForSeries(key));
    if key !in s.registry {
      var h := Held(SeriesOperation, key);
      assert h !in s.objects;
      forall t: nat ensures ThreadOk(s', t) {
        assert ThreadOk(s, t);
        assert Stack(s', t) == Stack(s, t);
        CountIn(Stack(s, t), h);
      }
    }
  }

  lemma RequestKeepsSound(s: System, step: Step)
    requires Sound(s) && Enabled(s, step) && !step.Grant? && !step.Release? && !step.ForSeries?
    ensures Sound(Next(s, step))
  {
    var s' := Next(s, step);
    forall u: nat ensures ThreadOk(s', u) {
      assert ThreadOk(s, u);
    }
  }

  lemma StepKeepsSound(s: System, step: Step)
    requires Sound(s)
    ensures Sound(Next(s, step))
  {
    if Enabled(s, step) {
      match step
      case Grant(t) => GrantKeepsSound(s, t);
      case Release(t, o) => ReleaseKeepsSound(s, t, o);
      case ForSeries(key) => RegistryKeepsSound(s, key);
      case _ => RequestKeepsSound(s, step);
    }
  }

  lemma StepKeepsInv(s: System, step: Step)
    requires Inv(s)
    ensures Inv(Next(s, step))
  {
    StepKeepsSound(s, step);
  }

  lemma {:induction false} RunKeepsSound(s: System, steps: seq<Step>)
    requires Sound(s)
    ensures Sound(Run(s, steps))
    decreases |steps|
  {
    if steps != [] {
      StepKeepsSound(s, steps[0]);
      RunKeepsSound(Next(s, steps[0]), steps[1..]);
    }
  }

  lemma {:induction false} RunKeepsInv(s: System, steps: seq<Step>)
    requires Inv(s)
    ensures Inv(Run(s, steps))
    decreases |steps|
  {
    if steps != [] {
      StepKeepsInv(s, steps[0]);
      RunKeepsInv(Next(s, steps[0]), steps[1..]);
    }
  }

  // ------------------------------------------------------------ deadlock freedom

  /** `t` is blocked on a lock that `u` owns. */
  predicate WaitsFor(s: System, t: nat, u: nat) {
    t in s.waiting && s.waiting[t] in s.owners && s.owners[s.waiting[t]].thread == u && u != t
  }

  predicate WaitChain(s: System, path: seq<nat>) {
    forall i | 0 <= i < |path| - 1 :: WaitsFor(s, path[i], path[i + 1])
  }

  /** A blocked thread does not hold what it blocks on. */
  lemma BlockedDoesNotHold(s: System, u: nat, v: nat)
    requires Sound(s) && WaitsFor(s, u, v)
    ensures s.waiting[u] < |s.objects| && s.objects[s.waiting[u]] !in Stack(s, u)
  {
    assert ThreadOk(s, u);
    CountIn(Stack(s, u), s.objects[s.waiting[u]]);
  }

  /** An owner that is itself blocked holds something, so it is blocked on an index lock. */
  lemma OwnerBlocksOnlyOnIndex(s: System, t: nat, u: nat, v: nat)
    requires Sound(s) && WaitsFor(s, t, u) && WaitsFor(s, u, v)
    ensures s.waiting[u] < |s.objects| && s.objects[s.waiting[u]].cls == RouterIndex
  {
    var o := s.waiting[t];
    assert ThreadOk(s, t) && ThreadOk(s, u);
    CountIn(Stack(s, u), s.objects[o]);
    BlockedDoesNotHold(s, u, v);
  }

  /** The owner of an index lock is not blocked. */
  lemma IndexOwnerNeverBlocks(s: System, u: nat, v: nat, o: nat)
    requires Sound(s) && WaitsFor(s, u, v) && o < |s.objects| && s.objects[o].cls == RouterIndex
    ensures Depth(s, u, o) == 0
  {
    assert ThreadOk(s, u);
    CountIn(Stack(s, u), s.objects[o]);
    BlockedDoesNotHold(s, u, v);
  }

  /** Nobody waits through more than two others, so the waits-for graph has no cycle. */
  lemma ChainsAreShort(s: System, path: seq<nat>)
    requires Sound(s) && WaitChain(s, path)
    ensures |path| <= 3
  {
    if |path| > 3 {
      assert WaitsFor(s, path[0], path[1]) && WaitsFor(s, path[1], path[2]) && WaitsFor(s, path[2], path[3]);
      OwnerBlocksOnlyOnIndex(s, path[0], path[1], path[2]);
      IndexOwnerNeverBlocks(s, path[2], path[3], s.waiting[path[1]]);
    }
  }

  lemma NoCycle(s: System, path: seq<nat>)
    requires Sound(s) && |path| > 1 && WaitChain(s, path)
    ensures path[0] != path[|path| - 1]
  {
    ChainsAreShort(s, path);
    if path[0] == path[|path| - 1] {
      assert WaitsFor(s, path[0], path[1]) && WaitsFor(s, path[1], path[2]);
      ChainsAreShort(s, [path[0], path[1], path[0], path[1]]);
    }
  }

  /** In every state any number of threads can reach, no thread waits for itself through others. */
  lemma DeadlockFree(steps: seq<Step>, path: seq<nat>)
    requires |path| > 1 && WaitChain(Run(INITIAL, steps), path)
    ensures path[0] != path[|path| - 1]
  {
    RunKeepsInv(INITIAL, steps);
    NoCycle(Run(INITIAL, steps), path);
  }

  /** `u` can take a step: it runs, or its lock is free. */
  predicate CanMove(s: System, u: nat) {
    Running(s, u) || Grantable(s, u)
  }

  /** Progress: a blocked thread can take its lock, or it waits, directly or through one other, for a thread that
      can move. */
  lemma SomebodyCanMove(steps: seq<Step>, t: nat)
    requires t in Run(INITIAL, steps).waiting
    ensures var s := Run(INITIAL, steps);
      || CanMove(s, t)
      || (exists u: nat :: WaitsFor(s, t, u) && CanMove(s, u))
      || (exists u: nat, v: nat :: WaitsFor(s, t, v) && WaitsFor(s, v, u) && CanMove(s, u))
  {
    var s := Run(INITIAL, steps);
    RunKeepsInv(INITIAL, steps);
    if !CanMove(s, t) {
      var v := s.owners[s.waiting[t]].thread;
      assert WaitsFor(s, t, v);
      if !CanMove(s, v) {
        var u := s.owners[s.waiting[v]].thread;
        assert WaitsFor(s, v, u);
        if !CanMove(s, u) {
          var w := s.owners[s.waiting[u]].thread;
          assert WaitsFor(s, u, w);
          ChainsAreShort(s, [t, v, u, w]);
        }
      }
    }
  }

  /** Two threads inside stable-identity bodies at once are there under different keys. */
  lemma BodiesExclude(steps: seq<Step>, t: nat, u: nat)
    requires t in Run(INITIAL, steps).bodies && u in Run(INITIAL, steps).bodies && t != u
    ensures Run(INITIAL, steps).bodies[t] != Run(INITIAL, steps).bodies[u]
  {
    RunKeepsInv(INITIAL, steps);
    HoldersExclude(Run(INITIAL, steps), t, u);
  }

  lemma HoldersExclude(s: System, t: nat, u: nat)
    requires Sound(s) && t != u
    ensures forall h | h in Stack(s, t) :: h !in Stack(s, u)
    ensures t in s.bodies && u in s.bodies ==> s.bodies[t] != s.bodies[u]
  {
    assert ThreadOk(s, t) && ThreadOk(s, u);
    forall h | h in Stack(s, t) ensures h !in Stack(s, u) {
      var o :| 0 <= o < |s.objects| && s.objects[o] == h;
      CountIn(Stack(s, t), h);
      CountIn(Stack(s, u), h);
    }
  }

  /** While one thread holds the lock of a key, nobody else is in a body under that key. */
  lemma BodyIsExclusive(s: System, t: nat, key: string)
    requires Sound(s) && Held(SeriesOperation, key) in Stack(s, t)
    ensures forall u: nat | u != t && u in s.bodies :: s.bodies[u] != key
  {
    forall u: nat | u != t && u in s.bodies ensures s.bodies[u] != key {
      HoldersExclude(s, t, u);
      assert ThreadOk(s, u);
    }
  }

  /** The key of a body is the only series key its thread holds. */
  lemma BodyKeyIsTheHeldKey(s: System, t: nat, key: string)
    requires Sound(s) && t in s.bodies && Held(SeriesOperation, key) in Stack(s, t)
    ensures s.bodies[t] == key
  {
    assert ThreadOk(s, t);
  }

  // ------------------------------------------------------------ when threads can deadlock

  ghost predicate Cycle(s: System) {
    exists path: seq<nat> :: |path| > 1 && path[0] == path[|path| - 1] && WaitChain(s, path)
  }

  /** Nobody holds, wants or does anything. */
  predicate Idle(s: System) {
    && s.owners == map[] && s.waiting == map[] && s.bodies == map[]
    && forall t | t in s.stacks :: s.stacks[t] == []
  }

  /** Each of two threads takes its own object of one lock and then asks for the other's. */
  function Crossing(o: nat, p: nat, t: nat, u: nat): seq<Step> {
    [Request(t, o), Grant(t), Request(u, p), Grant(u), Request(t, p), Request(u, o)]
  }

  lemma {:induction false} RunStep(s: System, step: Step, rest: seq<Step>)
    ensures Run(s, [step] + rest) == Run(Next(s, step), rest)
  {
    assert ([step] + rest)[1..] == rest;
  }

  lemma RunTwo(s: System, steps: seq<Step>)
    requires |steps| > 1
    ensures Run(s, steps) == Run(Next(Next(s, steps[0]), steps[1]), steps[2..])
  {
    assert steps == [steps[0]] + ([steps[1]] + steps[2..]);
    RunStep(s, steps[0], [steps[1]] + steps[2..]);
    RunStep(Next(s, steps[0]), steps[1], steps[2..]);
  }

  /** A thread that holds nothing takes a free lock. */
  lemma TakesFreeLock(s: System, t: nat, o: nat)
    requires s.waiting == map[] && Stack(s, t) == [] && o < |s.objects| && o !in s.owners
    ensures Next(Next(s, Request(t, o)), Grant(t)) ==
      s.(owners := s.owners[o := Ownership(t, 1)], stacks := s.stacks[t := [s.objects[o]]])
  {
    var asked := Next(s, Request(t, o));
    assert asked == s.(waiting := map[t := o]);
    assert asked.waiting - {t} == s.waiting;
    assert Stack(asked, t) + [s.objects[o]] == [s.objects[o]];
  }

  /** Both pass the order check as re-entry, which looks at class and key only, and wait for each other. */
  lemma TwinsDeadlock(s: System, o: nat, p: nat, t: nat, u: nat)
    requires Idle(s) && o < |s.objects| && p < |s.objects| && o != p && s.objects[o] == s.objects[p] && t != u
    ensures WaitChain(Run(s, Crossing(o, p, t, u)), [t, u, t])
  {
    TakesFreeLock(s, t, o);
    var s2 := Next(Next(s, Request(t, o)), Grant(t));
    TakesFreeLock(s2, u, p);
    var s4 := Next(Next(s2, Request(u, p)), Grant(u));
    BothAsk(s4, o, p, t, u);
    var steps := Crossing(o, p, t, u);
    RunTwo(s, steps);
    RunTwo(s2, steps[2..]);
    RunTwo(s4, steps[4..]);
  }

  lemma BothAsk(s: System, o: nat, p: nat, t: nat, u: nat)
    requires s.waiting == map[] && o < |s.objects| && p < |s.objects| && s.objects[o] == s.objects[p] && t != u
    requires Stack(s, t) == [s.objects[o]] && Stack(s, u) == [s.objects[o]]
    requires o in s.owners && s.owners[o].thread == t && p in s.owners && s.owners[p].thread == u
    ensures WaitChain(Next(Next(s, Request(t, p)), Request(u, o)), [t, u, t])
  {
    assert Next(Next(s, Request(t, p)), Request(u, o)) == s.(waiting := map[t := p, u := o]);
  }

  /** The registry makes a second object for a lock that was made without it, and then two threads can deadlock. */
  lemma StrayLockDeadlocks(s: System, o: nat, t: nat, u: nat)
    requires Idle(s) && o < |s.objects| && s.objects[o].cls == SeriesOperation && s.objects[o].key != ""
    requires s.objects[o].key !in s.registry && t != u
    ensures WaitChain(Run(s, [ForSeries(s.objects[o].key)] + Crossing(o, |s.objects|, t, u)), [t, u, t])
  {
    var steps := [ForSeries(s.objects[o].key)] + Crossing(o, |s.objects|, t, u);
    assert steps[1..] == Crossing(o, |s.objects|, t, u);
    TwinsDeadlock(Next(s, steps[0]), o, |s.objects|, t, u);
  }

  lemma SomeRunDeadlocks(s: System)
    requires Idle(s) && !NoTwins(s)
    ensures exists steps :: Cycle(Run(s, steps))
  {
    if o: nat, p: nat :| o < |s.objects| && p < |s.objects| && s.objects[o] == s.objects[p] && o != p {
      TwinsDeadlock(s, o, p, 0, 1);
      IsCycle(Run(s, Crossing(o, p, 0, 1)), 0, 1);
    } else {
      var o: nat :| o < |s.objects| && s.objects[o].cls == SeriesOperation && s.objects[o].key != ""
                    && s.objects[o].key !in s.registry;
      StrayLockDeadlocks(s, o, 0, 1);
      IsCycle(Run(s, [ForSeries(s.objects[o].key)] + Crossing(o, |s.objects|, 0, 1)), 0, 1);
    }
  }

  lemma IsCycle(s: System, t: nat, u: nat)
    requires WaitChain(s, [t, u, t])
    ensures Cycle(s)
  {
  }

  lemma IdleIsSound(s: System)
    requires Idle(s) && NoTwins(s)
    ensures Sound(s)
  {
    forall t: nat ensures ThreadOk(s, t) {
      assert Stack(s, t) == [];
    }
  }

  /** Starting from rest, some run deadlocks exactly when two lock objects are for one lock, or a series lock is
      not the registry's. */
  lemma DeadlockExactly(s: System)
    requires Idle(s)
    ensures (exists steps :: Cycle(Run(s, steps))) <==> !NoTwins(s)
  {
    if NoTwins(s) {
      IdleIsSound(s);
      forall steps ensures !Cycle(Run(s, steps)) {
        RunKeepsSound(s, steps);
        forall path: seq<nat> | |path| > 1 && WaitChain(Run(s, steps), path)
          ensures path[0] != path[|path| - 1]
        {
          NoCycle(Run(s, steps), path);
        }
      }
    } else {
      SomeRunDeadlocks(s);
    }
  }
}
