/**
 The registry of series locks, one thread's acquire and release, and `stable_series_lock`
 (scripts/cbz_lock_order.py), run by one thread while any number of others run.

 `Others` stands wherever other threads may get a turn: they take any steps at all. A thread that has not got its
 lock after some number of turns is reported as still blocked; its call has not returned.
 */
module StableLock {
  import opened Outcomes
  import opened LockSystem

  datatype LockError =
    | LockOrder
    | EmptyIdentity
    | NotHeld
    | StillBlocked

  datatype Transaction = Transaction(identity: string, key: string, acquisitions: nat)

  datatype Outcome =
    | Ran(transaction: Transaction)   // the body ran, and returned or raised
    | Unstable
    | ResolveRaised
    | Failed(error: LockError)

  /** What one keyed acquisition came to. */
  datatype Attempt =
    | Settled(confirmed: string)
    | Moved(confirmed: string)
    | Raised
    | Refused(error: LockError)

  const MAX_KEYED_ACQUISITIONS := 2

  /** Whose turn a step is; registry lookups belong to nobody in particular. */
  predicate StepOfOther(step: Step, t: nat) {
    match step
    case ForSeries(_) => true
    case Request(u, _) => u != t
    case GiveUp(u) => u != t
    case Grant(u) => u != t
    case Release(u, _) => u != t
    case EnterBody(u, _) => u != t
    case LeaveBody(u) => u != t
  }

  /** What other threads cannot change: what `t` holds, waits for and is inside of, and which lock has which key. */
  ghost predicate Undisturbed(s: System, s': System, t: nat) {
    && Stack(s', t) == Stack(s, t)
    && (t in s'.waiting <==> t in s.waiting) && (t in s.waiting ==> s'.waiting[t] == s.waiting[t])
    && (t in s'.bodies <==> t in s.bodies) && (t in s.bodies ==> s'.bodies[t] == s.bodies[t])
    && s.objects <= s'.objects
    && forall key | key in s.registry :: key in s'.registry && s'.registry[key] == s.registry[key]
  }

  lemma OtherStepsDoNotDisturb(s: System, step: Step, t: nat)
    requires Inv(s) && StepOfOther(step, t)
    ensures Inv(Next(s, step)) && Undisturbed(s, Next(s, step), t)
  {
    StepKeepsInv(s, step);
  }

  /** The same locks are on record equally often. */
  ghost predicate HoldsTheSame(s: System, s': System, t: nat) {
    forall h :: Count(Stack(s', t), h) == Count(Stack(s, t), h)
  }

  class Threads {
    var s: System
    /** `lock_key`. */
    const keyOf: string -> string
    /** The stable-identity bodies run so far, by thread and key. */
    ghost var ran: seq<(nat, string)>

    constructor (keyOf: string -> string)
      ensures Inv(s) && s == INITIAL && this.keyOf == keyOf
    {
      s := INITIAL;
      ran := [];
      this.keyOf := keyOf;
      new;
      RunKeepsInv(INITIAL, []);
    }

    /** Any number of steps by threads other than `t`. */
    method Others(t: nat)
      requires Inv(s)
      modifies this`s
      ensures Inv(s) && Undisturbed(old(s), s, t)
    {
      var turns: seq<Step> := *;
      for i := 0 to |turns|
        invariant Inv(s) && Undisturbed(old(s), s, t)
      {
        if StepOfOther(turns[i], t) {
          OtherStepsDoNotDisturb(s, turns[i], t);
          s := Next(s, turns[i]);
        }
      }
    }

    /** `SeriesLockRegistry.for_series`: the one lock of the identity's key, made at most once. */
    method ForSeries(identity: string) returns (r: Result<nat, LockError>)
      requires Inv(s)
      modifies this`s
      ensures Inv(s)
      ensures r.Err? <==> keyOf(identity) == ""
      ensures r.Err? ==> s == old(s) && r.error == EmptyIdentity
      ensures r.Ok? ==>
        && s == Next(old(s), Step.ForSeries(keyOf(identity)))
        && r.value < |s.objects| && s.objects[r.value] == Held(SeriesOperation, keyOf(identity))
        && (keyOf(identity) in old(s).registry ==> r.value == old(s).registry[keyOf(identity)])
        && forall t :: Undisturbed(old(s), s, t)
    {
      var key := keyOf(identity);
      if key == "" {
        return Err(EmptyIdentity);
      }
      StepKeepsInv(s, Step.ForSeries(key));
      s := Next(s, Step.ForSeries(key));
      return Ok(s.registry[key]);
    }

    /** The order check has passed; from here the thread blocks. */
    method Ask(t: nat, o: nat)
      requires Inv(s) && o < |s.objects| && Running(s, t) && MayRequest(Stack(s, t), s.objects[o])
      modifies this`s
      ensures Inv(s) && s == old(s).(waiting := old(s).waiting[t := o])
    {
      StepKeepsInv(s, Request(t, o));
      s := Next(s, Request(t, o));
    }

    /** Nobody else owns the lock any more. */
    method Take(t: nat)
      requires Inv(s) && Grantable(s, t) && s.waiting[t] < |s.objects|
      modifies this`s
      ensures Inv(s) && s == Acquired(old(s), old(s).waiting[t], t)
    {
      StepKeepsInv(s, Grant(t));
      s := Next(s, Grant(t));
    }

    /** `OrderedLock.acquire`: refused before blocking if out of order, else taken once nobody else owns it. */
    method Acquire(t: nat, o: nat, patience: nat) returns (r: Result<(), LockError>)
      requires Inv(s) && o < |s.objects| && Running(s, t)
      modifies this`s
      ensures Inv(s) && o < |s.objects| && s.objects[o] == old(s).objects[o]
      ensures r == Err(LockOrder) <==> !MayRequest(Stack(old(s), t), old(s).objects[o])
      ensures r == Err(LockOrder) ==> s == old(s)
      ensures r.Err? ==> r.error in {LockOrder, StillBlocked} && Stack(s, t) == Stack(old(s), t)
      ensures r.Ok? ==>
        Running(s, t) && Stack(s, t) == Stack(old(s), t) + [s.objects[o]]
        && o in s.owners && s.owners[o].thread == t
      ensures (t in s.bodies <==> t in old(s).bodies) && (t in s.bodies ==> s.bodies[t] == old(s).bodies[t])
      ensures forall key | key in old(s).registry :: key in s.registry && s.registry[key] == old(s).registry[key]
    {
      if !MayRequest(Stack(s, t), s.objects[o]) {
        return Err(LockOrder);
      }
      Ask(t, o);
      for turn := 0 to patience
        invariant Inv(s) && Undisturbed(old(s).(waiting := old(s).waiting[t := o]), s, t)
      {
        Others(t);
        if Grantable(s, t) {
          Take(t);
          return Ok(());
        }
      }
      return Err(StillBlocked);
    }

    /** `OrderedLock.release`. */
    method Release(t: nat, o: nat) returns (r: Result<(), LockError>)
      requires Inv(s) && o < |s.objects| && Running(s, t)
      requires t in s.bodies && s.objects[o] == Held(SeriesOperation, s.bodies[t]) ==>
                 Count(Stack(s, t), s.objects[o]) > 1
      modifies this`s
      ensures Inv(s)
      ensures r.Ok? <==> old(s).objects[o] in Stack(old(s), t)
      ensures r.Err? ==> s == old(s) && r.error == NotHeld
      ensures r.Ok? ==>
        s == Next(old(s), Step.Release(t, o)) && Stack(s, t) == RemoveFirst(Stack(old(s), t), old(s).objects[o])
    {
      if s.objects[o] !in Stack(s, t) {
        return Err(NotHeld);
      }
      RecordedMeansOwned(s, t, o);
      assert ThreadOk(s, t);
      StepKeepsInv(s, Step.Release(t, o));
      s := Next(s, Step.Release(t, o));
      return Ok(());
    }

    /** Leave the `with` block: what was on record before it is on record again. */
    method LeaveLock(t: nat, o: nat, ghost before: System)
      requires Inv(s) && o < |s.objects| && Running(s, t)
      requires Stack(s, t) == Stack(before, t) + [s.objects[o]]
      requires t in s.bodies ==> Held(SeriesOperation, s.bodies[t]) in Stack(before, t)
      modifies this`s
      ensures Inv(s) && Running(s, t) && HoldsTheSame(before, s, t)
      ensures (t in s.bodies <==> t in old(s).bodies) && (t in s.bodies ==> s.bodies[t] == old(s).bodies[t])
    {
      ghost var h, was := s.objects[o], Stack(s, t);
      forall x ensures Count(was, x) == Count(Stack(before, t), x) + (if x == h then 1 else 0) {
        CountAppend(Stack(before, t), h, x);
      }
      CountIn(Stack(before, t), h);
      var r := Release(t, o);
      forall x ensures Count(RemoveFirst(was, h), x) == Count(was, x) - (if x == h then 1 else 0) {
        CountRemove(was, h, x);
      }
    }

    /** One keyed acquisition: lock the identity's key, resolve again under it, and run the body if the key still
        stands. Whatever happens, the lock is released. */
    method TryUnder(t: nat, identity: string, patience: nat) returns (a: Attempt)
      requires Inv(s) && Running(s, t)
      modifies this
      ensures Inv(s)
      ensures a.Settled? ==> keyOf(a.confirmed) == keyOf(identity)
      ensures a.Moved? ==> keyOf(a.confirmed) != keyOf(identity)
      ensures ran == old(ran) + if a.Settled? then [(t, keyOf(identity))] else []
      ensures a != Refused(StillBlocked) ==> Running(s, t) && HoldsTheSame(old(s), s, t)
      ensures (t in s.bodies <==> t in old(s).bodies) && (t in s.bodies ==> s.bodies[t] == old(s).bodies[t])
    {
      hide Inv, OneLockPerKey, Sound;
      var lock := ForSeries(identity);
      if lock.Err? {
        return Refused(lock.error);
      }
      ghost var before := s;
      assert HoldsTheSame(old(s), before, t);
      var got := Acquire(t, lock.value, patience);
      if got.Err? {
        return Refused(got.error);
      }
      BodyLockIsOld(before, s, t);
      var resolved := Resolve(t);
      if resolved.None? {
        a := Raised;
      } else if keyOf(resolved.value) == keyOf(identity) {
        RunBody(t, keyOf(identity));
        a := Settled(resolved.value);
      } else {
        a := Moved(resolved.value);
      }
      LeaveLock(t, lock.value, before);
    }

    /** `stable_series_lock`. `observed` are the identities resolved, `acquired` the keys locked, in order. */
    method StableSeriesLock(t: nat, patience: nat)
      returns (outcome: Outcome, observed: seq<string>, acquired: seq<string>)
      requires Inv(s) && Running(s, t)
      modifies this
      ensures Inv(s)
      // At most two keyed acquisitions, each of the identity resolved just before it.
      ensures |acquired| <= MAX_KEYED_ACQUISITIONS && |acquired| <= |observed| <= |acquired| + 1
      ensures forall i | 0 <= i < |acquired| :: acquired[i] == keyOf(observed[i])
      // The body ran under the lock of the identity re-resolved while holding it.
      ensures outcome.Ran? ==>
        && |acquired| > 0 && |observed| == |acquired| + 1
        && outcome.transaction.identity == observed[|acquired|]
        && outcome.transaction.key == acquired[|acquired| - 1] == keyOf(observed[|acquired|])
        && outcome.transaction.acquisitions == |acquired|
      ensures ran == old(ran) + if outcome.Ran? then [(t, outcome.transaction.key)] else []
      ensures outcome.Unstable? <==>
        && |observed| == MAX_KEYED_ACQUISITIONS + 1
        && keyOf(observed[0]) != keyOf(observed[1]) && keyOf(observed[1]) != keyOf(observed[2])
      // Released on every exit: what was held is held again, and no body is left behind.
      ensures outcome != Failed(StillBlocked) ==> Running(s, t) && HoldsTheSame(old(s), s, t)
      ensures (t in s.bodies <==> t in old(s).bodies) && (t in s.bodies ==> s.bodies[t] == old(s).bodies[t])
    {
      hide Inv, OneLockPerKey, Sound;
      observed, acquired := [], [];
      var resolved := Resolve(t);
      if resolved.None? {
        return ResolveRaised, observed, acquired;
      }
      var identity := resolved.value;
      observed := [identity];

      for attempt := 1 to MAX_KEYED_ACQUISITIONS + 1
        invariant Inv(s) && Running(s, t) && HoldsTheSame(old(s), s, t) && ran == old(ran)
        invariant (t in s.bodies <==> t in old(s).bodies) && (t in s.bodies ==> s.bodies[t] == old(s).bodies[t])
        invariant |acquired| == attempt - 1 && |observed| == attempt && observed[attempt - 1] == identity
        invariant forall i | 0 <= i < |acquired| :: acquired[i] == keyOf(observed[i])
        invariant forall i | 0 <= i < attempt - 1 :: keyOf(observed[i]) != keyOf(observed[i + 1])
      {
        ghost var before := s;
        var a := TryUnder(t, identity, patience);
        if a != Refused(StillBlocked) {
          SameAsBefore(old(s), before, s, t);
        }
        match a
        case Refused(error) =>
          return Failed(error), observed, acquired;
        case Raised =>
          return ResolveRaised, observed, acquired + [keyOf(identity)];
        case Settled(confirmed) =>
          acquired := acquired + [keyOf(identity)];
          observed := observed + [confirmed];
          return Ran(Transaction(confirmed, keyOf(identity), attempt)), observed, acquired;
        case Moved(confirmed) =>
          acquired := acquired + [keyOf(identity)];
          observed := observed + [confirmed];
          identity := confirmed;
      }
      return Unstable, observed, acquired;
    }

    lemma SameAsBefore(a: System, b: System, c: System, t: nat)
      requires HoldsTheSame(a, b, t) && HoldsTheSame(b, c, t)
      ensures HoldsTheSame(a, c, t)
    {
    }

    /** A body `t` is already inside is guarded by a lock it already held. */
    lemma BodyLockIsOld(before: System, now: System, t: nat)
      requires Inv(before) && Inv(now)
      requires (t in now.bodies <==> t in before.bodies) && (t in now.bodies ==> now.bodies[t] == before.bodies[t])
      ensures t in now.bodies ==> Held(SeriesOperation, now.bodies[t]) in Stack(before, t)
    {
      assert ThreadOk(before, t);
    }

    /** `resolve()`: reads the library, which others are changing, and may raise. */
    method Resolve(t: nat) returns (r: Option<string>)
      requires Inv(s)
      modifies this`s
      ensures Inv(s) && Undisturbed(old(s), s, t)
    {
      Others(t);
      r := *;
    }

    /** The body: it runs only while `t` holds the lock of `key`, and nobody else is in a body under that key. */
    method RunBody(t: nat, key: string)
      requires Inv(s) && Running(s, t)
      requires Held(SeriesOperation, key) in Stack(s, t)
      modifies this
      ensures Inv(s) && Running(s, t) && Stack(s, t) == Stack(old(s), t) && old(s).objects <= s.objects
      ensures ran == old(ran) + [(t, key)]
      ensures (t in s.bodies <==> t in old(s).bodies) && (t in s.bodies ==> s.bodies[t] == old(s).bodies[t])
    {
      ran := ran + [(t, key)];
      var nested := t in s.bodies;
      if nested {
        BodyKeyIsTheHeldKey(s, t, key);
        Others(t);
        BodyIsExclusive(s, t, key);
      } else {
        StepKeepsInv(s, EnterBody(t, key));
        s := Next(s, EnterBody(t, key));
        Others(t);
        BodyIsExclusive(s, t, key);
        assert s.bodies[t] == key && forall u: nat | u != t && u in s.bodies :: s.bodies[u] != key;
        StepKeepsInv(s, LeaveBody(t));
        s := Next(s, LeaveBody(t));
      }
    }
  }
}
