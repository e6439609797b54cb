/**
 `snd_pcm_action_group`: one action over all linked streams. The callbacks of the members are arbitrary;
 what is proved is which of them run, in which order, and under which locks.
 */
module GroupAction {

  /** What happens to a member, by its place in the group. */
  datatype Event =
    | Lock(i: nat)
    | Unlock(i: nat)
    | Pre(i: nat)
    | Do(i: nat)
    | Undo(i: nat)
    | Post(i: nat)

  /** A group: the caller's place in it, what each pre and do callback will return, whether the action
      has an undo callback, and whether member locks are to be taken. */
  datatype Group = Group(self: nat, pre: seq<int>, act: seq<int>, hasUndo: bool, lock: bool)

  predicate ValidGroup(g: Group) {
    g.self < |g.pre| == |g.act|
  }

  /** First member with a failing callback, or the number of members. */
  function FirstFailure(results: seq<int>): (k: nat)
    ensures k <= |results|
    ensures k < |results| ==> results[k] < 0
    ensures forall i :: 0 <= i < k ==> results[i] >= 0
  {
    if results == [] || results[0] < 0 then 0 else 1 + FirstFailure(results[1..])
  }

  // ---------------------------------------------------------------- transactions

  predicate PreFails(g: Group) { FirstFailure(g.pre) < |g.pre| }

  predicate DoFails(g: Group) { !PreFails(g) && FirstFailure(g.act) < |g.act| }

  /** Which callbacks a transaction consists of: all pre callbacks up to the first failure; do callbacks only
      after all of those succeeded; undo callbacks on exactly the members whose do preceded the failure;
      post callbacks on every member of a success and on none otherwise. Lock and unlock come in pairs, for
      every member whose callbacks ran except the caller itself. */
  predicate InTransaction(g: Group, e: Event)
    requires ValidGroup(g)
  {
    var n := |g.pre|;
    var k := FirstFailure(g.pre);
    var j := FirstFailure(g.act);
    match e
    case Lock(i) => g.lock && i != g.self && i < n && i <= k
    case Unlock(i) => g.lock && i != g.self && i < n && i <= k
    case Pre(i) => i < n && i <= k
    case Do(i) => !PreFails(g) && i < n && i <= j
    case Undo(i) => DoFails(g) && g.hasUndo && i < j
    case Post(i) => !PreFails(g) && !DoFails(g) && i < n
  }

  /** Every event at most once, and exactly those of the transaction. */
  ghost predicate IsTransaction(g: Group, log: seq<Event>)
    requires ValidGroup(g)
  {
    && (forall e :: e in log <==> InTransaction(g, e))
    && (forall p, q :: 0 <= p < q < |log| ==> log[p] != log[q])
  }

  // ---------------------------------------------------------------- phases

  /** Phases of an action, in order. */
  function Phase(e: Event): nat {
    match e
    case Lock(_) => 0
    case Pre(_) => 0
    case Do(_) => 1
    case Undo(_) => 2
    case Post(_) => 3
    case Unlock(_) => 4
  }

  /** The order of events: by phase, then by member, and a member's lock before its first callback. */
  predicate Before(a: Event, b: Event) {
    Phase(a) < Phase(b) || (Phase(a) == Phase(b) && (a.i < b.i || (a.i == b.i && a.Lock? && b.Pre?)))
  }

  ghost predicate Ordered(log: seq<Event>) {
    forall p, q :: 0 <= p < q < |log| ==> Before(log[p], log[q])
  }

  lemma OrderedAppend(log: seq<Event>, e: Event)
    requires Ordered(log) && forall x :: x in log ==> Before(x, e)
    ensures Ordered(log + [e])
  {
    forall p, q | 0 <= p < q < |log| + 1 ensures Before((log + [e])[p], (log + [e])[q]) {
      if q == |log| { assert log[p] in log; }
    }
  }

  /** Position follows the order of events. */
  lemma Precedes(log: seq<Event>, p: nat, q: nat)
    requires Ordered(log) && p < |log| && q < |log|
    ensures log[p] != log[q] && !Before(log[q], log[p]) ==> p < q
  {
  }

  /** The lock of member `i` is held at position `p`: taken before, and not given back yet. */
  ghost predicate Held(log: seq<Event>, p: nat, i: nat)
    requires p < |log|
  {
    (exists q :: 0 <= q < p && log[q] == Lock(i)) && !(exists q :: 0 <= q < p && log[q] == Unlock(i))
  }

  /** In an ordered transaction every callback of another member runs under that member's lock, and every
      lock is given back, after its last use and exactly once. The caller's own lock is never touched. */
  lemma CallbacksRunLocked(g: Group, log: seq<Event>)
    requires ValidGroup(g) && g.lock && IsTransaction(g, log) && Ordered(log)
    ensures forall p :: 0 <= p < |log| && !log[p].Lock? && log[p].i != g.self ==> Held(log, p, log[p].i)
    ensures forall p :: 0 <= p < |log| && log[p].Lock? ==> exists q :: p < q < |log| && log[q] == Unlock(log[p].i)
    ensures Lock(g.self) !in log && Unlock(g.self) !in log
  {
    forall p | 0 <= p < |log| && !log[p].Lock? && log[p].i != g.self ensures Held(log, p, log[p].i) {
      var i := log[p].i;
      assert log[p] in log;
      assert Lock(i) in log;
      var q :| 0 <= q < |log| && log[q] == Lock(i);
      Precedes(log, q, p);
      forall r | 0 <= r < p ensures log[r] != Unlock(i) {
        assert Before(log[r], log[p]);
      }
    }
    forall p | 0 <= p < |log| && log[p].Lock? ensures exists q :: p < q < |log| && log[q] == Unlock(log[p].i) {
      var i := log[p].i;
      assert log[p] in log;
      assert Unlock(i) in log;
      var q :| 0 <= q < |log| && log[q] == Unlock(i);
      Precedes(log, p, q);
    }
  }

  /** All or nothing: if one member's post callback runs, every member's do succeeded and every post runs;
      if one member's pre fails, no do runs at all; and what was done before a failure is undone. */
  lemma AllOrNothing(g: Group, log: seq<Event>, i: nat, j: nat)
    requires ValidGroup(g) && IsTransaction(g, log) && i < |g.pre| && j < |g.pre|
    ensures Post(i) in log ==> Post(j) in log && g.act[j] >= 0 && Undo(j) !in log
    ensures g.pre[i] < 0 ==> Do(j) !in log && Post(j) !in log
    ensures Do(i) in log && g.hasUndo ==> Post(i) in log || Undo(i) in log || g.act[i] < 0
    ensures Undo(i) in log ==> Do(i) in log && g.act[i] >= 0
    ensures i < j && Pre(j) in log ==> Pre(i) in log && g.pre[i] >= 0
    ensures i < j && Do(j) in log ==> Do(i) in log && g.act[i] >= 0
  {
    assert InTransaction(g, Post(i)) || Post(i) !in log;
  }

  // ---------------------------------------------------------------- the code

  /** The first loop: lock and ask every member, until one refuses. */
  method RunPre(g: Group) returns (res: int, s: nat, log: seq<Event>)
    requires ValidGroup(g)
    ensures s == FirstFailure(g.pre) && (res < 0 <==> PreFails(g)) && (PreFails(g) ==> res == g.pre[s])
    ensures Ordered(log) && forall e :: e in log <==> PrePhase(g, e, if PreFails(g) then s + 1 else s)
  {
    log, res, s := [], 0, 0;
    while s < |g.pre|
      invariant s <= FirstFailure(g.pre) && res >= 0
      invariant Ordered(log) && forall e :: e in log <==> PrePhase(g, e, s)
    {
      if g.lock && s != g.self {
        OrderedAppend(log, Lock(s));
        log := log + [Lock(s)];
      }
      OrderedAppend(log, Pre(s));
      log := log + [Pre(s)];
      res := g.pre[s];
      if res < 0 {
        return;
      }
      s := s + 1;
    }
  }

  /** The second loop: act on every member, until one fails. */
  method RunDo(g: Group, log0: seq<Event>) returns (res: int, s: nat, log: seq<Event>)
    requires ValidGroup(g) && Ordered(log0) && forall e :: e in log0 ==> Phase(e) == 0
    ensures s == FirstFailure(g.act) && (res < 0 <==> s < |g.act|) && (s < |g.act| ==> res == g.act[s])
    ensures Ordered(log)
    ensures forall e :: e in log <==> e in log0 || (e.Do? && e.i < if s < |g.act| then s + 1 else s)
  {
    log, res, s := log0, 0, 0;
    while s < |g.act|
      invariant s <= FirstFailure(g.act) && res >= 0
      invariant Ordered(log) && forall e :: e in log <==> e in log0 || (e.Do? && e.i < s)
    {
      OrderedAppend(log, Do(s));
      log := log + [Do(s)];
      res := g.act[s];
      if res < 0 {
        return;
      }
      s := s + 1;
    }
  }

  /** Undo on the members before the failed one. */
  method RunUndo(log0: seq<Event>, s: nat) returns (log: seq<Event>)
    requires Ordered(log0) && forall e :: e in log0 ==> Phase(e) < 2
    ensures Ordered(log) && forall e :: e in log <==> e in log0 || (e.Undo? && e.i < s)
  {
    log := log0;
    var s1 := 0;
    while s1 < s
      invariant 0 <= s1 <= s
      invariant Ordered(log) && forall e :: e in log <==> e in log0 || (e.Undo? && e.i < s1)
    {
      OrderedAppend(log, Undo(s1));
      log := log + [Undo(s1)];
      s1 := s1 + 1;
    }
  }

  /** The third loop. */
  method RunPost(log0: seq<Event>, n: nat) returns (log: seq<Event>)
    requires Ordered(log0) && forall e :: e in log0 ==> Phase(e) < 3
    ensures Ordered(log) && forall e :: e in log <==> e in log0 || (e.Post? && e.i < n)
  {
    log := log0;
    var s := 0;
    while s < n
      invariant 0 <= s <= n
      invariant Ordered(log) && forall e :: e in log <==> e in log0 || (e.Post? && e.i < s)
    {
      OrderedAppend(log, Post(s));
      log := log + [Post(s)];
      s := s + 1;
    }
  }

  /** `snd_pcm_action_group`, recording what it does. */
  method ActionGroup(g: Group) returns (res: int, log: seq<Event>)
    requires ValidGroup(g)
    ensures IsTransaction(g, log) && Ordered(log)
    ensures res < 0 <==> PreFails(g) || DoFails(g)
    ensures PreFails(g) ==> res == g.pre[FirstFailure(g.pre)]
    ensures DoFails(g) ==> res == g.act[FirstFailure(g.act)]
    ensures res < 0 <==> exists i :: 0 <= i < |g.pre| && (g.pre[i] < 0 || g.act[i] < 0)
    ensures res >= 0 ==> forall i :: 0 <= i < |g.pre| ==> Pre(i) in log && Do(i) in log && Post(i) in log && Undo(i) !in log
    ensures res < 0 ==> forall i: nat :: Post(i) !in log
  {
    var s;
    res, s, log := RunPre(g);
    var last := s + 1;
    if res >= 0 {
      res, s, log := RunDo(g, log);
      last := |g.pre|;
      if res >= 0 {
        log := RunPost(log, |g.pre|);
      } else if g.hasUndo {
        log := RunUndo(log, s);
      }
    }
    log := UnlockMembers(g, log, last);
    OrderedIsDistinct(log);
  }

  /** The events of the first loop, up to member `s`. */
  predicate PrePhase(g: Group, e: Event, s: nat) {
    (e.Pre? && e.i < s) || (e.Lock? && g.lock && e.i != g.self && e.i < s)
  }

  /** The unlocking loop over the first `n` members. */
  method UnlockMembers(g: Group, log0: seq<Event>, n: nat) returns (log: seq<Event>)
    requires Ordered(log0) && forall e :: e in log0 ==> Phase(e) < 4
    ensures Ordered(log)
    ensures forall e :: e in log <==> e in log0 || (e.Unlock? && g.lock && e.i != g.self && e.i < n)
  {
    log := log0;
    if g.lock {
      var s1 := 0;
      while s1 < n
        invariant 0 <= s1 <= n && Ordered(log)
        invariant forall e :: e in log <==> e in log0 || (e.Unlock? && e.i != g.self && e.i < s1)
      {
        if s1 != g.self {
          OrderedAppend(log, Unlock(s1));
          log := log + [Unlock(s1)];
        }
        s1 := s1 + 1;
      }
    }
  }

  lemma OrderedIsDistinct(log: seq<Event>)
    requires Ordered(log)
    ensures forall p, q :: 0 <= p < q < |log| ==> log[p] != log[q]
  {
    forall p, q | 0 <= p < q < |log| ensures log[p] != log[q] {
      assert Before(log[p], log[q]);
    }
  }
}
