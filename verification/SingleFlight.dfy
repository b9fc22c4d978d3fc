/** Single-flight coalescing of async calls (warp_cache/_decorator.py) as a machine of coroutine steps. Between two
    awaits a coroutine is not interrupted by others of its event loop; coroutines of other loops, which run in other
    threads and have other in-flight keys, take their steps at any time. */
module SingleFlight {
  import opened Layout

  /** The key of the in-flight table: an event loop and a call key. */
  datatype LoopKey<K> = LoopKey(loop: nat, key: K)

  datatype Pc<V> =
    | NotStarted
    | Missed                              // the probe missed; at the head of the loop
    | Waiting(event: nat)                 // awaits a leader's event
    | Leading(event: nat)                 // has registered its event and awaits the wrapped function
    | Closing(event: nat, value: V)       // has stored the result; about to run the finally block
    | Returned(value: V)
    | Raised
    | Cancelled

  /** `entry` is the key under which the cache stores the result. In the shared backend it is the serialized key, so that
      calls that are equal in Python (of 1 and of 1.0, say) share an in-flight key but not an entry. */
  datatype Task<K, C, V> = Task(at: LoopKey<K>, entry: C, pc: Pc<V>)

  /** `events[e]` tells whether event e is set, `owners[e]` which task created it; `calls` lists the tasks that have
      called the wrapped function. */
  datatype State<K(==), C, V> = State(tasks: map<nat, Task<K, C, V>>, inflight: map<LoopKey<K>, nat>,
                               events: seq<bool>, owners: seq<nat>, cache: map<C, V>, calls: seq<nat>)

  datatype Action<K, C, V> =
    | Spawn(t: nat, at: LoopKey<K>, entry: C)  // a coroutine is created
    | Begin(t: nat)                       // first probe
    | Enter(t: nat)                       // head of the loop: wait for a leader, or become one
    | Wake(t: nat)                        // the awaited event is set; probe again
    | Complete(t: nat, value: V, kept: bool)  // the function returned; the cache may decline to keep the result
    | Close(t: nat)                       // finally: set the event, drop the entry, return
    | Fail(t: nat)                        // the function or the store raised
    | Cancel(t: nat)                      // cancelled at an await
    | Lose(entry: C)                      // expiry, eviction or clear
    | Put(entry: C, value: V)             // someone else stores

  function At<K, C, V>(s: State<K, C, V>, t: nat, pc: Pc<V>): State<K, C, V>
    requires t in s.tasks
  {
    s.(tasks := s.tasks[t := s.tasks[t].(pc := pc)])
  }

  /** The finally block of a leader. */
  function Finally<K(==), C, V>(s: State<K, C, V>, t: nat, event: nat, pc: Pc<V>): State<K, C, V>
    requires t in s.tasks && event < |s.events|
  {
    At(s, t, pc).(events := s.events[event := true], inflight := s.inflight - {s.tasks[t].at})
  }

  function Probe<K, C, V>(s: State<K, C, V>, t: nat): State<K, C, V>
    requires t in s.tasks
  {
    if s.tasks[t].entry in s.cache then At(s, t, Returned(s.cache[s.tasks[t].entry])) else At(s, t, Missed)
  }

  function EnterLoop<K(==), C, V>(s: State<K, C, V>, t: nat): State<K, C, V>
    requires t in s.tasks
  {
    if s.tasks[t].at in s.inflight then At(s, t, Waiting(s.inflight[s.tasks[t].at]))
    else
      At(s, t, Leading(|s.events|)).(inflight := s.inflight[s.tasks[t].at := |s.events|],
                                     events := s.events + [false], owners := s.owners + [t], calls := s.calls + [t])
  }

  /** What an action does when its turn comes; an action that is not enabled changes nothing. */
  function Act<K, C, V>(s: State<K, C, V>, a: Action<K, C, V>): State<K, C, V> {
    match a
    case Spawn(t, at, entry) => if t in s.tasks then s else s.(tasks := s.tasks[t := Task(at, entry, NotStarted)])
    case Begin(t) => if t in s.tasks && s.tasks[t].pc.NotStarted? then Probe(s, t) else s
    case Enter(t) => if t in s.tasks && s.tasks[t].pc.Missed? then EnterLoop(s, t) else s
    case Wake(t) =>
      if t in s.tasks && s.tasks[t].pc.Waiting? && s.tasks[t].pc.event < |s.events| && s.events[s.tasks[t].pc.event]
      then Probe(s, t) else s
    case Complete(t, v, kept) =>
      if t in s.tasks && s.tasks[t].pc.Leading? then
        At(s, t, Closing(s.tasks[t].pc.event, v)).(cache := if kept then s.cache[s.tasks[t].entry := v] else s.cache)
      else s
    case Close(t) =>
      if t in s.tasks && s.tasks[t].pc.Closing? && s.tasks[t].pc.event < |s.events| then
        Finally(s, t, s.tasks[t].pc.event, Returned(s.tasks[t].pc.value))
      else s
    case Fail(t) =>
      if t in s.tasks && s.tasks[t].pc.Leading? && s.tasks[t].pc.event < |s.events| then
        Finally(s, t, s.tasks[t].pc.event, Raised)
      else s
    case Cancel(t) =>
      if t in s.tasks && s.tasks[t].pc.Waiting? then At(s, t, Cancelled)
      else if t in s.tasks && s.tasks[t].pc.Leading? && s.tasks[t].pc.event < |s.events| then
        Finally(s, t, s.tasks[t].pc.event, Cancelled)
      else s
    case Lose(k) => s.(cache := s.cache - {k})
    case Put(k, v) => s.(cache := s.cache[k := v])
  }

  /** Not at an await: the probe has missed and the table is looked at next, or the result is stored and the finally
      block runs next. */
  predicate Midway<V>(pc: Pc<V>) { pc.Missed? || pc.Closing? }

  /** Another coroutine of the task's event loop is midway. */
  predicate Blocked<K, C, V>(s: State<K, C, V>, t: nat) {
    t in s.tasks && exists u :: u in s.tasks && u != t && s.tasks[u].at.loop == s.tasks[t].at.loop && Midway(s.tasks[u].pc)
  }

  /** Actions of coroutines wait for their event loop; the cache changes under other threads and processes at any time. */
  predicate Waits<K, C, V>(s: State<K, C, V>, a: Action<K, C, V>) {
    !a.Spawn? && !a.Lose? && !a.Put? && Blocked(s, a.t)
  }

  /** One step of the machine. */
  function Step<K, C, V>(s: State<K, C, V>, a: Action<K, C, V>): State<K, C, V> {
    if Waits(s, a) then s else Act(s, a)
  }

  function Initial<K(==), C, V>(cache: map<C, V>): State<K, C, V> {
    State(map[], map[], [], [], cache, [])
  }

  // ---------------------------------------------------------------- the invariant

  predicate Leads<V>(pc: Pc<V>) { pc.Leading? || pc.Closing? }

  /** Task t is running as the leader that owns event e. */
  predicate LeadsWith<K, C, V>(s: State<K, C, V>, t: nat, e: nat) {
    t in s.tasks && Leads(s.tasks[t].pc) && s.tasks[t].pc.event == e
  }

  /** The owner of event e is running as the leader for `at`. */
  ghost predicate Led<K, C, V>(s: State<K, C, V>, e: nat, at: LoopKey<K>) {
    e < |s.owners| && LeadsWith(s, s.owners[e], e) && s.tasks[s.owners[e]].at == at
  }

  ghost predicate TaskOk<K, C, V>(s: State<K, C, V>, t: nat)
    requires t in s.tasks && |s.owners| == |s.events|
  {
    var Task(at, _, pc) := s.tasks[t];
    && (Leads(pc) ==> pc.event < |s.events| && s.owners[pc.event] == t && !s.events[pc.event]
                      && at in s.inflight && s.inflight[at] == pc.event)
    && (pc.Waiting? ==> pc.event < |s.events| && (s.events[pc.event] || Led(s, pc.event, at)))
  }

  ghost predicate EntryOk<K, C, V>(s: State<K, C, V>, at: LoopKey<K>)
    requires at in s.inflight && |s.owners| == |s.events|
  {
    s.inflight[at] < |s.events| && Led(s, s.inflight[at], at)
  }

  ghost predicate Inv<K, C, V>(s: State<K, C, V>) {
    && |s.owners| == |s.events|
    && (forall t :: t in s.tasks ==> TaskOk(s, t))
    && (forall at :: at in s.inflight ==> EntryOk(s, at))
  }

  /** A step that only moves a task which neither led nor leads afterwards. */
  lemma QuietMove<K, C, V>(s: State<K, C, V>, t: nat, pc: Pc<V>, cache: map<C, V>)
    requires Inv(s) && t in s.tasks && !Leads(s.tasks[t].pc) && !Leads(pc)
    requires pc.Waiting? ==> s.tasks[t].at in s.inflight && pc.event == s.inflight[s.tasks[t].at]
    ensures Inv(At(s, t, pc).(cache := cache))
  {
    var u := At(s, t, pc).(cache := cache);
    forall x, e | LeadsWith(s, x, e) ensures LeadsWith(u, x, e) && u.tasks[x].at == s.tasks[x].at {
      assert x != t;
    }
    forall at | at in u.inflight ensures EntryOk(u, at) {
      assert EntryOk(s, at);
    }
    forall x | x in u.tasks ensures TaskOk(u, x) {
      assert TaskOk(s, x);
      if x == t && pc.Waiting? { assert EntryOk(s, s.tasks[t].at); }
    }
  }

  lemma BecomeLeader<K, C, V>(s: State<K, C, V>, t: nat)
    requires Inv(s) && t in s.tasks && s.tasks[t].pc.Missed? && s.tasks[t].at !in s.inflight
    ensures Inv(EnterLoop(s, t))
  {
    var u := EnterLoop(s, t);
    forall x, e | LeadsWith(s, x, e) ensures LeadsWith(u, x, e) && u.tasks[x].at == s.tasks[x].at {
      assert x != t;
    }
    forall at | at in u.inflight ensures EntryOk(u, at) {
      if at != s.tasks[t].at { assert EntryOk(s, at); }
    }
    forall x | x in u.tasks ensures TaskOk(u, x) {
      assert TaskOk(s, x);
    }
  }

  /** A leader that ends sets its own event and drops its own entry; everybody else is as before. */
  lemma LeaderEnds<K, C, V>(s: State<K, C, V>, t: nat, pc: Pc<V>)
    requires Inv(s) && t in s.tasks && Leads(s.tasks[t].pc) && !Leads(pc) && !pc.Waiting?
    ensures s.tasks[t].pc.event < |s.events| && Inv(Finally(s, t, s.tasks[t].pc.event, pc))
  {
    assert TaskOk(s, t);
    var e0, at0 := s.tasks[t].pc.event, s.tasks[t].at;
    var u := Finally(s, t, e0, pc);
    forall x, e | LeadsWith(s, x, e) && x != t
      ensures LeadsWith(u, x, e) && u.tasks[x].at == s.tasks[x].at && e != e0
    {
      assert TaskOk(s, x);
    }
    forall at | at in u.inflight ensures EntryOk(u, at) {
      assert EntryOk(s, at);
    }
    forall x | x in u.tasks ensures TaskOk(u, x) {
      assert TaskOk(s, x);
      if x != t && Leads(s.tasks[x].pc) {
        assert LeadsWith(s, x, s.tasks[x].pc.event);
        assert EntryOk(s, s.tasks[x].at);
      }
    }
  }

  lemma Completes<K, C, V>(s: State<K, C, V>, t: nat, v: V, cache: map<C, V>)
    requires Inv(s) && t in s.tasks && s.tasks[t].pc.Leading?
    ensures Inv(At(s, t, Closing(s.tasks[t].pc.event, v)).(cache := cache))
  {
    var u := At(s, t, Closing(s.tasks[t].pc.event, v)).(cache := cache);
    forall x, e | LeadsWith(s, x, e) ensures LeadsWith(u, x, e) && u.tasks[x].at == s.tasks[x].at {
    }
    forall at | at in u.inflight ensures EntryOk(u, at) {
      assert EntryOk(s, at);
    }
    forall x | x in u.tasks ensures TaskOk(u, x) {
      assert TaskOk(s, x);
    }
  }

  lemma SpawnInv<K, C, V>(s: State<K, C, V>, t: nat, at: LoopKey<K>, entry: C)
    requires Inv(s) && t !in s.tasks
    ensures Inv(s.(tasks := s.tasks[t := Task(at, entry, NotStarted)]))
  {
    var u := s.(tasks := s.tasks[t := Task(at, entry, NotStarted)]);
    forall x, e | LeadsWith(s, x, e) ensures LeadsWith(u, x, e) && u.tasks[x].at == s.tasks[x].at {
    }
    forall a | a in u.inflight ensures EntryOk(u, a) {
      assert EntryOk(s, a);
    }
    forall x | x in u.tasks ensures TaskOk(u, x) {
      if x != t { assert TaskOk(s, x); }
    }
  }

  lemma CacheInv<K, C, V>(s: State<K, C, V>, cache: map<C, V>)
    requires Inv(s)
    ensures Inv(s.(cache := cache))
  {
    var u := s.(cache := cache);
    forall x, e | LeadsWith(s, x, e) ensures LeadsWith(u, x, e) {
    }
    forall a | a in u.inflight ensures EntryOk(u, a) {
      assert EntryOk(s, a);
    }
    forall x | x in u.tasks ensures TaskOk(u, x) {
      assert TaskOk(s, x);
    }
  }

  lemma StepInv<K, C, V>(s: State<K, C, V>, a: Action<K, C, V>)
    requires Inv(s)
    ensures Inv(Step(s, a))
  {
    hide Inv, Act, Blocked;
    ActInv(s, a);
  }

  lemma ActInv<K, C, V>(s: State<K, C, V>, a: Action<K, C, V>)
    requires Inv(s)
    ensures Inv(Act(s, a))
  {
    hide TaskOk, EntryOk, LeadsWith, Inv;
    match a
    case Spawn(t, at, entry) => if t !in s.tasks { SpawnInv(s, t, at, entry); }
    case Begin(t) => if t in s.tasks && s.tasks[t].pc.NotStarted? { QuietMove(s, t, Probe(s, t).tasks[t].pc, s.cache); }
    case Enter(t) =>
      if t in s.tasks && s.tasks[t].pc.Missed? {
        if s.tasks[t].at in s.inflight { QuietMove(s, t, EnterLoop(s, t).tasks[t].pc, s.cache); } else { BecomeLeader(s, t); }
      }
    case Wake(t) => if t in s.tasks && s.tasks[t].pc.Waiting? { QuietMove(s, t, Probe(s, t).tasks[t].pc, s.cache); }
    case Complete(t, v, kept) =>
      if t in s.tasks && s.tasks[t].pc.Leading? { Completes(s, t, v, Act(s, a).cache); }
    case Close(t) => if t in s.tasks && s.tasks[t].pc.Closing? { LeaderEnds(s, t, Returned(s.tasks[t].pc.value)); }
    case Fail(t) => if t in s.tasks && s.tasks[t].pc.Leading? { LeaderEnds(s, t, Raised); }
    case Cancel(t) =>
      if t in s.tasks && s.tasks[t].pc.Waiting? {
        QuietMove(s, t, Cancelled, s.cache);
      } else if t in s.tasks && s.tasks[t].pc.Leading? {
        LeaderEnds(s, t, Cancelled);
      }
    case Lose(k) => CacheInv(s, s.cache - {k});
    case Put(k, v) => CacheInv(s, s.cache[k := v]);
  }

  // ---------------------------------------------------------------- every schedule

  function Run<K, C, V>(s: State<K, C, V>, schedule: seq<Action<K, C, V>>): State<K, C, V>
    decreases |schedule|
  {
    if schedule == [] then s else Run(Step(s, schedule[0]), schedule[1..])
  }

  lemma {:induction false} RunInv<K, C, V>(s: State<K, C, V>, schedule: seq<Action<K, C, V>>)
    requires Inv(s)
    ensures Inv(Run(s, schedule))
    decreases |schedule|
  {
    if schedule != [] {
      StepInv(s, schedule[0]);
      RunInv(Step(s, schedule[0]), schedule[1..]);
    }
  }

  lemma Reachable<K, C, V>(cache: map<C, V>, schedule: seq<Action<K, C, V>>)
    ensures Inv(Run(Initial(cache), schedule))
  {
    RunInv(Initial(cache), schedule);
  }

  /** Task t is a running leader for the loop and key. */
  predicate IsLeader<K(==), C, V>(s: State<K, C, V>, t: nat, at: LoopKey<K>) {
    t in s.tasks && s.tasks[t].at == at && Leads(s.tasks[t].pc)
  }

  /** Under every schedule, with failures and cancellations, there is at most one running leader for a loop and key,
      and the in-flight table holds exactly the running leaders' events, all of them unset. */
  lemma OneLeader<K, C, V>(cache: map<C, V>, schedule: seq<Action<K, C, V>>, at: LoopKey<K>)
    ensures var s := Run(Initial(cache), schedule);
            && (forall t, u :: IsLeader(s, t, at) && IsLeader(s, u, at) ==> t == u)
            && (forall t :: IsLeader(s, t, at) ==> at in s.inflight && s.inflight[at] == s.tasks[t].pc.event)
            && (at in s.inflight ==> s.inflight[at] < |s.events| && !s.events[s.inflight[at]])
            && (at in s.inflight ==> exists t :: IsLeader(s, t, at) && s.tasks[t].pc.event == s.inflight[at])
  {
    Reachable(cache, schedule);
    var s := Run(Initial(cache), schedule);
    forall t | t in s.tasks ensures TaskOk(s, t) {
    }
    if at in s.inflight {
      assert EntryOk(s, at);
      assert TaskOk(s, s.owners[s.inflight[at]]);
      assert IsLeader(s, s.owners[s.inflight[at]], at);
    }
  }

  /** The entry that a leader drops at its end is its own. */
  lemma PopsOwnEvent<K, C, V>(cache: map<C, V>, schedule: seq<Action<K, C, V>>, t: nat)
    requires var s := Run(Initial(cache), schedule); t in s.tasks && Leads(s.tasks[t].pc)
    ensures var s := Run(Initial(cache), schedule);
            s.tasks[t].at in s.inflight && s.inflight[s.tasks[t].at] == s.tasks[t].pc.event
  {
    Reachable(cache, schedule);
    assert TaskOk(Run(Initial(cache), schedule), t);
  }

  /** No wake-up is lost: whoever waits can wake now, or a leader for the same loop and key is running that owns the
      event and will set it on every way out. */
  lemma NoLostWakeup<K, C, V>(cache: map<C, V>, schedule: seq<Action<K, C, V>>, t: nat)
    requires var s := Run(Initial(cache), schedule); t in s.tasks && s.tasks[t].pc.Waiting?
    ensures var s := Run(Initial(cache), schedule);
            var e := s.tasks[t].pc.event;
            e < |s.events| && (s.events[e] || Led(s, e, s.tasks[t].at))
  {
    Reachable(cache, schedule);
    assert TaskOk(Run(Initial(cache), schedule), t);
  }

  /** However a leader ends - result, exception or cancellation - its event is set and the way is free. */
  lemma EveryEndReleases<K, C, V>(s: State<K, C, V>, t: nat, a: Action<K, C, V>)
    requires Inv(s) && t in s.tasks && Leads(s.tasks[t].pc)
    requires t in Step(s, a).tasks && !Leads(Step(s, a).tasks[t].pc)
    ensures var u := Step(s, a);
            s.tasks[t].pc.event < |u.events| && u.events[s.tasks[t].pc.event] && s.tasks[t].at !in u.inflight
  {
    assert TaskOk(s, t);
  }

  // ---------------------------------------------------------------- waiters of a stored result

  /** The steps that can take a key's result out of the cache. */
  predicate Loses<K, C(==), V>(a: Action<K, C, V>, entry: C) {
    a.Lose? && a.entry == entry
  }

  /** A task that has not missed: it will look at the cache before it would call the function. */
  predicate Hopeful<V>(pc: Pc<V>) {
    pc.NotStarted? || pc.Waiting? || pc.Returned? || pc.Cancelled?
  }

  lemma HopefulStep<K, C, V>(s: State<K, C, V>, t: nat, a: Action<K, C, V>)
    requires t in s.tasks && Hopeful(s.tasks[t].pc) && s.tasks[t].entry in s.cache
    requires !Loses(a, s.tasks[t].entry)
    ensures var u := Step(s, a);
            && t in u.tasks && u.tasks[t].at == s.tasks[t].at && u.tasks[t].entry == s.tasks[t].entry && Hopeful(u.tasks[t].pc)
            && u.tasks[t].entry in u.cache
            && (u.tasks[t].pc.Returned? && !s.tasks[t].pc.Returned? ==> u.tasks[t].pc.value == s.cache[s.tasks[t].entry])
            && s.calls <= u.calls
            && (forall i :: |s.calls| <= i < |u.calls| ==> u.calls[i] != t)
  {
  }

  /** While a stored result stays in the cache, no task that is waiting or yet to start ever calls the function:
      waiters after a leader's success are served from the cache. */
  lemma {:induction false} WaitersNeverCall<K, C, V>(s: State<K, C, V>, t: nat, schedule: seq<Action<K, C, V>>)
    requires t in s.tasks && Hopeful(s.tasks[t].pc) && s.tasks[t].entry in s.cache
    requires forall a :: a in schedule ==> !Loses(a, s.tasks[t].entry)
    ensures var u := Run(s, schedule);
            && t in u.tasks && Hopeful(u.tasks[t].pc) && !Leads(u.tasks[t].pc)
            && s.calls <= u.calls
            && (forall i :: |s.calls| <= i < |u.calls| ==> u.calls[i] != t)
    decreases |schedule|
  {
    if schedule != [] {
      var u := Step(s, schedule[0]);
      HopefulStep(s, t, schedule[0]);
      assert forall a :: a in schedule[1..] ==> a in schedule;
      WaitersNeverCall(u, t, schedule[1..]);
      var w := Run(u, schedule[1..]);
      forall i | |s.calls| <= i < |w.calls| ensures w.calls[i] != t {
        if i < |u.calls| { assert w.calls[i] == u.calls[i]; }
      }
    }
  }

  /** A leader that stores its result turns every waiter of its event with the same entry into such a task. */
  lemma SuccessServesWaiters<K, C, V>(s: State<K, C, V>, leader: nat, v: V, t: nat, schedule: seq<Action<K, C, V>>)
    requires leader in s.tasks && s.tasks[leader].pc.Leading?
    requires t in s.tasks && s.tasks[t].pc.Waiting? && s.tasks[t].at == s.tasks[leader].at
    requires s.tasks[t].entry == s.tasks[leader].entry
    requires forall a :: a in schedule ==> !Loses(a, s.tasks[t].entry)
    ensures var done := Act(s, Complete(leader, v, true));
            var u := Run(done, schedule);
            && t in u.tasks && Hopeful(u.tasks[t].pc)
            && (forall i :: |done.calls| <= i < |u.calls| ==> u.calls[i] != t)
  {
    WaitersNeverCall(Act(s, Complete(leader, v, true)), t, schedule);
  }

  // ---------------------------------------------------------------- what a woken waiter finds

  lemma {:induction false} RunAppend<K, C, V>(s: State<K, C, V>, a: seq<Action<K, C, V>>, b: seq<Action<K, C, V>>)
    ensures Run(s, a + b) == Run(Run(s, a), b)
    decreases |a|
  {
    hide Step;
    if a == [] {
      assert a + b == b;
    } else {
      RunAppend(Step(s, a[0]), a[1..], b);
      assert (a + b)[1..] == a[1..] + b;
    }
  }

  /** Entries that are evicted or expire, as by the store of the leader's own result. */
  function Losses<K, C, V>(entries: seq<C>): seq<Action<K, C, V>> {
    seq(|entries|, i requires 0 <= i < |entries| => Lose(entries[i]))
  }

  lemma {:induction false} RunLosses<K, C, V>(s: State<K, C, V>, entries: seq<C>)
    ensures var u := Run(s, Losses(entries));
            u == s.(cache := u.cache) && forall e :: e in u.cache <==> e in s.cache && e !in entries
    decreases |entries|
  {
    var acts := Losses<K, C, V>(entries);
    if entries == [] {
      assert acts == [];
    } else {
      RunLosses(Step(s, acts[0]), entries[1..]);
      assert acts[1..] == Losses<K, C, V>(entries[1..]);
    }
  }

  /** What a waiter finds when its leader has returned a result and it is the next to run: its answer exactly when its
      entry is the leader's and the cache took the result, or was stored by others, and has not been lost. Otherwise it
      misses, registers as the new leader and calls the function, although an equal call has just succeeded. */
  lemma ServedIff<K, C, V>(cache: map<C, V>, schedule: seq<Action<K, C, V>>, leader: nat, v: V, kept: bool, lost: seq<C>, t: nat)
    requires var s := Run(Initial(cache), schedule);
             && leader in s.tasks && s.tasks[leader].pc.Leading? && !Blocked(s, leader)
             && t in s.tasks && s.tasks[t].pc == Waiting(s.tasks[leader].pc.event)
    ensures var s := Run(Initial(cache), schedule);
            var done := Run(s, [Complete(leader, v, kept)] + Losses(lost) + [Close(leader), Wake(t)]);
            var served := s.tasks[t].entry !in lost &&
                          ((kept && s.tasks[t].entry == s.tasks[leader].entry) || s.tasks[t].entry in s.cache);
            && t in done.tasks && t != leader
            && (done.tasks[t].pc.Returned? <==> served)
            && (!served ==> Step(done, Enter(t)).calls == done.calls + [t])
  {
    hide Act, Blocked, Inv;
    Reachable(cache, schedule);
    var s := Run(Initial(cache), schedule);
    var a, c, w: Action<K, C, V> := Complete(leader, v, kept), Close(leader), Wake(t);
    RunAppend(s, [a] + Losses(lost), [c, w]);
    RunAppend(s, [a], Losses(lost));
    RunOne(s, a);
    RunLosses(Act(s, a), lost);
    var s2 := Run(Act(s, a), Losses(lost));
    RunTwo(s2, c, w);
    assert [a] + Losses(lost) + [c, w] == ([a] + Losses(lost)) + [c, w];
    LeaderReturns(s, leader, v, kept, s2.cache, t);
    WaiterWakes(Act(s2, c), t);
  }

  /** The leader's last steps, with whatever has become of the cache in between. */
  lemma LeaderReturns<K, C, V>(s: State<K, C, V>, leader: nat, v: V, kept: bool, cache: map<C, V>, t: nat)
    requires Inv(s) && leader in s.tasks && s.tasks[leader].pc.Leading? && !Blocked(s, leader)
    requires t in s.tasks && s.tasks[t].pc == Waiting(s.tasks[leader].pc.event)
    ensures t != leader
    ensures var s1 := Act(s, Complete(leader, v, kept));
            && s1.cache == (if kept then s.cache[s.tasks[leader].entry := v] else s.cache) && s1.calls == s.calls
            && !Blocked(s1.(cache := cache), leader)
            && var s3 := Act(s1.(cache := cache), Close(leader));
               && s3.cache == cache && s3.calls == s.calls && !Blocked(s3, t)
               && t in s3.tasks && s3.tasks[t] == s.tasks[t]
               && s.tasks[t].pc.event < |s3.events| && s3.events[s.tasks[t].pc.event] && s3.tasks[t].at !in s3.inflight
  {
    hide Blocked;
    assert TaskOk(s, t) && TaskOk(s, leader);
    var s1 := Act(s, Complete(leader, v, kept));
    StillFree(s, s1.(cache := cache), leader);
    NobodyMidway(s, Act(s1.(cache := cache), Close(leader)), leader, t);
  }

  lemma StillFree<K, C, V>(s: State<K, C, V>, u: State<K, C, V>, t: nat)
    requires t in s.tasks && !Blocked(s, t) && u.tasks.Keys == s.tasks.Keys && u.tasks[t].at == s.tasks[t].at
    requires forall x :: x in s.tasks && x != t ==> u.tasks[x] == s.tasks[x]
    ensures !Blocked(u, t)
  {
  }

  lemma WaiterWakes<K, C, V>(s: State<K, C, V>, t: nat)
    requires t in s.tasks && s.tasks[t].pc.Waiting? && s.tasks[t].pc.event < |s.events| && s.events[s.tasks[t].pc.event]
    requires !Blocked(s, t) && s.tasks[t].at !in s.inflight
    ensures var u := Act(s, Wake(t));
            && t in u.tasks && !Blocked(u, t)
            && (u.tasks[t].pc.Returned? <==> s.tasks[t].entry in s.cache)
            && (s.tasks[t].entry !in s.cache ==> Act(u, Enter(t)).calls == s.calls + [t] && u.calls == s.calls)
  {
    hide Blocked;
    StillFree(s, Act(s, Wake(t)), t);
  }

  /** With the leader done, no coroutine of the loop is midway. */
  lemma NobodyMidway<K, C, V>(s: State<K, C, V>, u: State<K, C, V>, leader: nat, t: nat)
    requires leader in s.tasks && t in s.tasks && !Blocked(s, leader) && s.tasks[t].at.loop == s.tasks[leader].at.loop
    requires u.tasks.Keys == s.tasks.Keys && forall x :: x in s.tasks && x != leader ==> u.tasks[x] == s.tasks[x]
    requires u.tasks[leader].at == s.tasks[leader].at && !Midway(u.tasks[leader].pc)
    ensures !Blocked(u, t)
  {
  }

  lemma RunOne<K, C, V>(s: State<K, C, V>, a: Action<K, C, V>)
    ensures Run(s, [a]) == Step(s, a)
  {
    hide Step;
    assert [a][1..] == [];
  }

  lemma RunTwo<K, C, V>(s: State<K, C, V>, a: Action<K, C, V>, b: Action<K, C, V>)
    ensures Run(s, [a, b]) == Step(Step(s, a), b)
  {
    hide Step;
    assert [a, b][1..] == [b];
    RunOne(Step(s, a), b);
  }

  // ---------------------------------------------------------------- single tasks

  /** No coroutine of the event loop is midway. */
  predicate Free<K, C, V>(s: State<K, C, V>, loop: nat) {
    forall u :: u in s.tasks && s.tasks[u].at.loop == loop ==> !Midway(s.tasks[u].pc)
  }

  lemma FreeIsFree<K, C, V>(s: State<K, C, V>, u: State<K, C, V>, t: nat, at: LoopKey<K>)
    requires Free(s, at.loop) && u.tasks.Keys == s.tasks.Keys + {t} && u.tasks[t].at == at
    requires forall x :: x in s.tasks && x != t ==> u.tasks[x] == s.tasks[x]
    ensures !Blocked(u, t)
  {
  }

  lemma RunThree<K, C, V>(s: State<K, C, V>, a: Action<K, C, V>, b: Action<K, C, V>, c: Action<K, C, V>)
    ensures Run(s, [a, b, c]) == Step(Step(Step(s, a), b), c)
  {
    hide Step;
    assert [a, b, c][1..] == [b, c];
    RunTwo(Step(s, a), b, c);
  }

  /** A call whose entry is in the cache returns that and leaves everything else alone. */
  lemma CachedCall<K, C, V>(s: State<K, C, V>, t: nat, at: LoopKey<K>, entry: C)
    requires t !in s.tasks && Free(s, at.loop) && entry in s.cache
    ensures Run(s, [Spawn(t, at, entry), Begin(t)]) == s.(tasks := s.tasks[t := Task(at, entry, Returned(s.cache[entry]))])
  {
    var s1 := s.(tasks := s.tasks[t := Task(at, entry, NotStarted)]);
    RunTwo(s, Spawn(t, at, entry), Begin(t));
    FreeIsFree(s, s1, t, at);
  }

  /** A call that misses while an equal one is running waits for that one's event. */
  lemma JoinsLeader<K, C, V>(s: State<K, C, V>, t: nat, at: LoopKey<K>, entry: C)
    requires t !in s.tasks && Free(s, at.loop) && entry !in s.cache && at in s.inflight
    ensures Run(s, [Spawn(t, at, entry), Begin(t), Enter(t)]) ==
            s.(tasks := s.tasks[t := Task(at, entry, Waiting(s.inflight[at]))])
  {
    var s1 := s.(tasks := s.tasks[t := Task(at, entry, NotStarted)]);
    var s2 := s.(tasks := s.tasks[t := Task(at, entry, Missed)]);
    RunThree(s, Spawn(t, at, entry), Begin(t), Enter(t));
    FreeIsFree(s, s1, t, at);
    assert Step(s1, Begin(t)) == s2;
    FreeIsFree(s, s2, t, at);
    assert Act(s2, Enter(t)).tasks == s.tasks[t := Task(at, entry, Waiting(s.inflight[at]))];
  }

  /** A call that misses while no equal one is running registers an unset event of its own and calls the function. */
  lemma BecomesLeader<K, C, V>(s: State<K, C, V>, t: nat, at: LoopKey<K>, entry: C)
    requires t !in s.tasks && Free(s, at.loop) && entry !in s.cache && at !in s.inflight
    ensures Run(s, [Spawn(t, at, entry), Begin(t), Enter(t)]) ==
            s.(tasks := s.tasks[t := Task(at, entry, Leading(|s.events|))], inflight := s.inflight[at := |s.events|],
               events := s.events + [false], owners := s.owners + [t], calls := s.calls + [t])
  {
    var s1 := s.(tasks := s.tasks[t := Task(at, entry, NotStarted)]);
    var s2 := s.(tasks := s.tasks[t := Task(at, entry, Missed)]);
    RunThree(s, Spawn(t, at, entry), Begin(t), Enter(t));
    FreeIsFree(s, s1, t, at);
    assert Step(s1, Begin(t)) == s2;
    FreeIsFree(s, s2, t, at);
    assert Act(s2, Enter(t)).tasks == s.tasks[t := Task(at, entry, Leading(|s.events|))];
  }

  /** The ways out of leading: a result is stored if the cache keeps it, and returned; an exception or a cancellation goes
      to the caller and stores nothing. Each sets the leader's event and frees the key. */
  lemma LeaderEndings<K, C, V>(s: State<K, C, V>, t: nat, v: V, kept: bool)
    requires t in s.tasks && s.tasks[t].pc.Leading? && s.tasks[t].pc.event < |s.events| && Free(s, s.tasks[t].at.loop)
    ensures var Task(at, entry, pc) := s.tasks[t];
            var freed := s.(events := s.events[pc.event := true], inflight := s.inflight - {at});
            && Run(s, [Complete(t, v, kept), Close(t)]) ==
                 freed.(tasks := s.tasks[t := Task(at, entry, Returned(v))], cache := if kept then s.cache[entry := v] else s.cache)
            && Step(s, Fail(t)) == freed.(tasks := s.tasks[t := Task(at, entry, Raised)])
            && Step(s, Cancel(t)) == freed.(tasks := s.tasks[t := Task(at, entry, Cancelled)])
  {
    var Task(at, entry, pc) := s.tasks[t];
    FreeIsFree(s, s, t, at);
    RunTwo(s, Complete(t, v, kept), Close(t));
    var s1 := Step(s, Complete(t, v, kept));
    FreeIsFree(s, s1, t, at);
    assert Act(s1, Close(t)).tasks == s.tasks[t := Task(at, entry, Returned(v))];
  }

  /** A waiter does nothing before its event is set; when it is cancelled, only its caller notices. */
  lemma WaitersWait<K, C, V>(s: State<K, C, V>, t: nat)
    requires t in s.tasks && s.tasks[t].pc.Waiting? && s.tasks[t].pc.event < |s.events| && Free(s, s.tasks[t].at.loop)
    ensures !s.events[s.tasks[t].pc.event] ==> Step(s, Wake(t)) == s
    ensures Step(s, Cancel(t)) == s.(tasks := s.tasks[t := s.tasks[t].(pc := Cancelled)])
    ensures s.events[s.tasks[t].pc.event] ==>
              Step(s, Wake(t)) == s.(tasks := s.tasks[t := s.tasks[t].(pc :=
                if s.tasks[t].entry in s.cache then Returned(s.cache[s.tasks[t].entry]) else Missed)])
  {
    FreeIsFree(s, s, t, s.tasks[t].at);
  }

  // ---------------------------------------------------------------- at most one call

  /** Nothing goes wrong and nothing is lost: results are kept. */
  predicate Benign<K, C, V>(a: Action<K, C, V>) {
    !a.Fail? && !a.Cancel? && !a.Lose? && (a.Complete? ==> a.kept)
  }

  /** Calls of the same loop, with the same key and the same entry. */
  predicate SameCall<K(==), C(==), V>(s: State<K, C, V>, t: nat, u: nat) {
    t in s.tasks && u in s.tasks && s.tasks[t].at == s.tasks[u].at && s.tasks[t].entry == s.tasks[u].entry
  }

  /** A task that has called the function is still leading, or its result is in the cache. */
  predicate Settled<K, C, V>(s: State<K, C, V>, t: nat) {
    t in s.tasks && (s.tasks[t].pc.Leading? ||
                     ((s.tasks[t].pc.Closing? || s.tasks[t].pc.Returned?) && s.tasks[t].entry in s.cache))
  }

  /** Whoever has just missed finds, of the same calls, only running leaders. */
  ghost predicate MissOk<K, C, V>(s: State<K, C, V>, t: nat) {
    t in s.tasks && s.tasks[t].pc.Missed? ==>
      forall i :: 0 <= i < |s.calls| && SameCall(s, t, s.calls[i]) ==> s.tasks[s.calls[i]].pc.Leading?
  }

  ghost predicate OnceInv<K, C, V>(s: State<K, C, V>) {
    && Inv(s)
    && (forall i :: 0 <= i < |s.calls| ==> Settled(s, s.calls[i]))
    && (forall i, j :: 0 <= i < j < |s.calls| ==> !SameCall(s, s.calls[i], s.calls[j]))
    && (forall t :: MissOk(s, t))
  }

  /** The task's step changes nobody else, and leaves it with its key and entry. */
  lemma OnlyMoves<K, C, V>(s: State<K, C, V>, a: Action<K, C, V>, x: nat)
    requires x in s.tasks
    ensures x in Act(s, a).tasks
    ensures Act(s, a).tasks[x].at == s.tasks[x].at && Act(s, a).tasks[x].entry == s.tasks[x].entry
    ensures a.Spawn? || a.Lose? || a.Put? || a.t != x ==> Act(s, a).tasks[x] == s.tasks[x]
  {
  }

  lemma CacheGrows<K, C, V>(s: State<K, C, V>, a: Action<K, C, V>, e: C)
    requires Benign(a) && e in s.cache
    ensures e in Act(s, a).cache
  {
  }

  lemma SettledStep<K, C, V>(s: State<K, C, V>, a: Action<K, C, V>, x: nat)
    requires Benign(a) && Settled(s, x)
    ensures Settled(Act(s, a), x)
  {
    OnlyMoves(s, a, x);
    if s.tasks[x].entry in s.cache { CacheGrows(s, a, s.tasks[x].entry); }
  }

  lemma NewCall<K, C, V>(s: State<K, C, V>, a: Action<K, C, V>)
    requires Inv(s) && Act(s, a).calls != s.calls
    ensures a.Enter? && a.t in s.tasks && s.tasks[a.t].pc.Missed? && s.tasks[a.t].at !in s.inflight
    ensures Act(s, a).calls == s.calls + [a.t] && Settled(Act(s, a), a.t)
  {
  }

  lemma MissStep<K, C, V>(s: State<K, C, V>, a: Action<K, C, V>, t: nat)
    requires OnceInv(s) && Benign(a) && !Waits(s, a)
    ensures MissOk(Act(s, a), t)
  {
    hide Act, Inv, Settled;
    var u := Act(s, a);
    if t in u.tasks && u.tasks[t].pc.Missed? {
      MissedBefore(s, a, t);
      forall i | 0 <= i < |u.calls| && SameCall(u, t, u.calls[i]) ensures u.tasks[u.calls[i]].pc.Leading? {
        MissCase(s, a, t, i);
      }
    }
  }

  /** A task that has missed missed before, or has just looked into the cache. */
  lemma MissedBefore<K, C, V>(s: State<K, C, V>, a: Action<K, C, V>, t: nat)
    requires t in Act(s, a).tasks && Act(s, a).tasks[t].pc.Missed?
    ensures t in s.tasks
    ensures s.tasks[t].pc.Missed? ||
            (s.tasks[t].entry !in s.cache && (a.Begin? || a.Wake?) && a.t == t && Act(s, a).calls == s.calls)
  {
  }

  lemma MissCase<K, C, V>(s: State<K, C, V>, a: Action<K, C, V>, t: nat, i: nat)
    requires OnceInv(s) && Benign(a) && !Waits(s, a) && i < |Act(s, a).calls|
    requires t in s.tasks && t in Act(s, a).tasks && Act(s, a).tasks[t].pc.Missed? && SameCall(Act(s, a), t, Act(s, a).calls[i])
    requires s.tasks[t].pc.Missed? ||
            (s.tasks[t].entry !in s.cache && (a.Begin? || a.Wake?) && a.t == t && Act(s, a).calls == s.calls)
    ensures Act(s, a).tasks[Act(s, a).calls[i]].pc.Leading?
  {
    hide Act, Inv;
    var u, x := Act(s, a), Act(s, a).calls[i];
    OnlyMoves(s, a, t);
    if s.tasks[t].pc.Missed? {
      LoopIsHeld(s, a, t);
      if u.calls != s.calls {
        NewCall(s, a);
        OnlyMoves(s, a, a.t);
      }
      assert x == s.calls[i];
      OnlyMoves(s, a, x);
      assert MissOk(s, t);
    } else {
      assert Settled(s, x);
      OnlyMoves(s, a, x);
      if x == t { LeaderStays(s, a); }
    }
  }

  /** While a task is midway, no other task of its loop moves. */
  lemma LoopIsHeld<K, C, V>(s: State<K, C, V>, a: Action<K, C, V>, t: nat)
    requires t in s.tasks && Midway(s.tasks[t].pc) && !Waits(s, a)
    ensures a.Spawn? || a.Lose? || a.Put? || a.t !in s.tasks || a.t == t || s.tasks[a.t].at.loop != s.tasks[t].at.loop
  {
  }

  lemma LeaderStays<K, C, V>(s: State<K, C, V>, a: Action<K, C, V>)
    requires (a.Begin? || a.Wake?) && a.t in s.tasks && s.tasks[a.t].pc.Leading?
    ensures Act(s, a) == s
  {
  }

  lemma OnceStep<K, C, V>(s: State<K, C, V>, a: Action<K, C, V>)
    requires OnceInv(s) && Benign(a)
    ensures OnceInv(Step(s, a))
  {
    hide Act, Inv, Waits, MissOk;
    if !Waits(s, a) {
      var u := Act(s, a);
      ActInv(s, a);
      forall t ensures MissOk(u, t) {
        MissStep(s, a, t);
      }
      if u.calls != s.calls { NewCall(s, a); }
      forall i | 0 <= i < |u.calls| ensures Settled(u, u.calls[i]) {
        if i < |s.calls| { SettledStep(s, a, s.calls[i]); }
      }
      forall i, j | 0 <= i < j < |u.calls| ensures !SameCall(u, u.calls[i], u.calls[j]) {
        OnlyMoves(s, a, s.calls[i]);
        if j < |s.calls| {
          OnlyMoves(s, a, s.calls[j]);
        } else {
          NewIsOther(s, a, i);
        }
      }
    }
  }

  /** A new leader makes a call that nobody has made before. */
  lemma NewIsOther<K, C, V>(s: State<K, C, V>, a: Action<K, C, V>, i: nat)
    requires OnceInv(s) && i < |s.calls| && Act(s, a).calls != s.calls && a.Enter?
    ensures !SameCall(Act(s, a), s.calls[i], a.t)
  {
    hide Act, Inv;
    NewCall(s, a);
    OnlyMoves(s, a, s.calls[i]);
    OnlyMoves(s, a, a.t);
    assert MissOk(s, a.t);
    assert TaskOk(s, s.calls[i]) by { TaskIsOk(s, s.calls[i]); }
  }

  lemma TaskIsOk<K, C, V>(s: State<K, C, V>, t: nat)
    requires Inv(s) && t in s.tasks
    ensures |s.owners| == |s.events| && TaskOk(s, t)
  {
  }

  /** Single flight: as long as nothing fails, is cancelled or lost, and results are kept, a call - one event loop, key and
      cache entry - reaches the wrapped function at most once, under every schedule and from every cache. */
  lemma {:induction false} CallsOnce<K, C, V>(s: State<K, C, V>, schedule: seq<Action<K, C, V>>)
    requires OnceInv(s) && forall a :: a in schedule ==> Benign(a)
    ensures OnceInv(Run(s, schedule))
    decreases |schedule|
  {
    hide OnceInv, Step, Benign;
    if schedule != [] {
      assert schedule[0] in schedule;
      OnceStep(s, schedule[0]);
      CallsOnce(Step(s, schedule[0]), schedule[1..]);
    }
  }

  lemma AtMostOneCall<K, C, V>(cache: map<C, V>, schedule: seq<Action<K, C, V>>, i: nat, j: nat)
    requires forall a :: a in schedule ==> Benign(a)
    requires i < j < |Run(Initial(cache), schedule).calls|
    ensures var s := Run(Initial(cache), schedule); !SameCall(s, s.calls[i], s.calls[j])
  {
    CallsOnce(Initial(cache), schedule);
  }
}
