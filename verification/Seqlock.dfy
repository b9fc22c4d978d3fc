/** The seqlock (src/shm/lock.rs) as a machine of single-word steps of any number of readers and writers. */
module Seqlock {
  import opened Layout

  /** What a reader does between taking and validating the sequence number: from its local state either load one
      more word, or stop. It may be misled by torn data, so its loads may depend on anything it has read. */
  datatype Program<!A, !L> = Program(addr: L -> Option<A>, step: (L, int) -> L)

  type Memory<A> = map<A, int>

  function Load<A>(mem: Memory<A>, a: A): int {
    if a in mem then mem[a] else 0
  }

  function Advance<A, L>(p: Program<A, L>, mem: Memory<A>, l: L): L {
    match p.addr(l)
    case None => l
    case Some(a) => p.step(l, Load(mem, a))
  }

  /** The reader's local state after n loads from a memory that stands still. */
  function Atomically<A, L>(p: Program<A, L>, mem: Memory<A>, start: L, n: nat): L {
    if n == 0 then start else Advance(p, mem, Atomically(p, mem, start, n - 1))
  }

  datatype Pc<L> =
    | Idle
    | ReadBegin(start: L)                                   // load seq; an odd one is retried
    | Reading(start: L, number: nat, local: L, loads: nat)     // load data words, then validate
    | ReadDone(start: L, number: nat, local: L, loads: nat)
    | TestLock                                              // spin until the lock word reads 0
    | CasLock                                               // compare-and-swap 0 -> 1
    | LoadOdd                                               // holds the lock; prev := seq
    | StoreOdd(prev: nat)                                   // seq := prev + 1
    | Writing                                               // data stores
    | LoadEven                                              // prev := seq
    | StoreEven(prev: nat)                                  // seq := prev + 1
    | Release                                               // lock := 0

  /** `committed` records the memory at every even sequence number. */
  datatype State<A, L> = State(number: nat, locked: bool, mem: Memory<A>, pcs: map<nat, Pc<L>>, committed: seq<Memory<A>>)

  /** What a thread does where its program leaves a choice. */
  datatype Choice<A, L> = StartRead(start: L) | StartWrite | StoreWord(addr: A, word: int) | Go

  function PcOf<A, L>(s: State<A, L>, t: nat): Pc<L> {
    if t in s.pcs then s.pcs[t] else Idle
  }

  function Goto<A, L>(s: State<A, L>, t: nat, pc: Pc<L>): State<A, L> {
    s.(pcs := s.pcs[t := pc])
  }

  /** One step of thread t. */
  function StepThread<A, L>(p: Program<A, L>, s: State<A, L>, t: nat, c: Choice<A, L>): State<A, L> {
    match PcOf(s, t)
    case Idle =>
      (match c
       case StartRead(start) => Goto(s, t, ReadBegin(start))
       case StartWrite => Goto(s, t, TestLock)
       case _ => s)
    case ReadBegin(start) => if s.number % 2 == 0 then Goto(s, t, Reading(start, s.number, start, 0)) else s
    case Reading(start, q, l, n) =>
      (match p.addr(l)
       case Some(a) => Goto(s, t, Reading(start, q, p.step(l, Load(s.mem, a)), n + 1))
       case None => Goto(s, t, if s.number == q then ReadDone(start, q, l, n) else ReadBegin(start)))
    case ReadDone(_, _, _, _) => Goto(s, t, Idle)
    case TestLock => if s.locked then s else Goto(s, t, CasLock)
    case CasLock => if s.locked then Goto(s, t, TestLock) else Goto(s, t, LoadOdd).(locked := true)
    case LoadOdd => Goto(s, t, StoreOdd(s.number))
    case StoreOdd(prev) => Goto(s, t, Writing).(number := prev + 1)
    case Writing => if c.StoreWord? then s.(mem := s.mem[c.addr := c.word]) else Goto(s, t, LoadEven)
    case LoadEven => Goto(s, t, StoreEven(s.number))
    case StoreEven(prev) => Goto(s, t, Release).(number := prev + 1, committed := s.committed + [s.mem])
    case Release => Goto(s, t, Idle).(locked := false)
  }

  // ---------------------------------------------------------------- the invariant

  predicate Holds<L>(pc: Pc<L>) {
    pc.LoadOdd? || pc.StoreOdd? || pc.Writing? || pc.LoadEven? || pc.StoreEven? || pc.Release?
  }

  /** A holder that has announced itself and not yet retired. */
  predicate Announced<L>(pc: Pc<L>) {
    pc.Writing? || pc.LoadEven? || pc.StoreEven?
  }

  ghost predicate PcOk<A, L>(p: Program<A, L>, s: State<A, L>, pc: Pc<L>) {
    match pc
    case Reading(start, q, l, n) =>
      q % 2 == 0 && q <= s.number && (q == s.number ==> l == Atomically(p, s.mem, start, n))
    case ReadDone(start, q, l, n) =>
      q % 2 == 0 && q / 2 < |s.committed| && p.addr(l).None? && l == Atomically(p, s.committed[q / 2], start, n)
    case StoreOdd(prev) => prev == s.number
    case StoreEven(prev) => prev == s.number
    case _ => true
  }

  ghost predicate Inv<A, L>(p: Program<A, L>, s: State<A, L>) {
    && |s.committed| == s.number / 2 + 1
    && (s.number % 2 == 0 ==> s.mem == s.committed[s.number / 2])
    && (forall t, u :: Holds(PcOf(s, t)) && Holds(PcOf(s, u)) ==> t == u)
    && (forall t :: Holds(PcOf(s, t)) ==> s.locked && (s.number % 2 == 1 <==> Announced(PcOf(s, t))))
    && (s.number % 2 == 1 ==> s.locked)
    && (s.locked ==> exists t :: Holds(PcOf(s, t)))
    && (forall t :: PcOk(p, s, PcOf(s, t)))
  }

  function Initial<A, L>(mem: Memory<A>): State<A, L> {
    State(0, false, mem, map[], [mem])
  }

  lemma InitialInv<A, L>(p: Program<A, L>, mem: Memory<A>)
    ensures Inv(p, Initial(mem))
  {
  }

  lemma OthersKeep<A, L>(p: Program<A, L>, s: State<A, L>, t: nat, c: Choice<A, L>, u: nat)
    requires Inv(p, s) && u != t
    ensures PcOf(StepThread(p, s, t, c), u) == PcOf(s, u) && PcOk(p, StepThread(p, s, t, c), PcOf(s, u))
  {
    assert PcOk(p, s, PcOf(s, t)) && PcOk(p, s, PcOf(s, u));
    var s' := StepThread(p, s, t, c);
    assert PcOf(s', u) == PcOf(s, u);
    if Holds(PcOf(s, u)) { assert !Holds(PcOf(s, t)); }
  }

  lemma OwnKeeps<A, L>(p: Program<A, L>, s: State<A, L>, t: nat, c: Choice<A, L>)
    requires Inv(p, s)
    ensures PcOk(p, StepThread(p, s, t, c), PcOf(StepThread(p, s, t, c), t))
  {
    assert PcOk(p, s, PcOf(s, t));
  }

  /** How a step of t can change who holds the lock. */
  lemma OwnTransition<A, L>(p: Program<A, L>, s: State<A, L>, t: nat, c: Choice<A, L>)
    requires PcOk(p, s, PcOf(s, t)) && (s.number % 2 == 1 ==> s.locked)
    requires Holds(PcOf(s, t)) ==> s.locked && (s.number % 2 == 1 <==> Announced(PcOf(s, t)))
    ensures var s', held := StepThread(p, s, t, c), Holds(PcOf(s, t));
            && (Holds(PcOf(s', t)) ==> s'.locked && (s'.number % 2 == 1 <==> Announced(PcOf(s', t))))
            && (!held && Holds(PcOf(s', t)) ==> !s.locked)
            && (!held && !Holds(PcOf(s', t)) ==> s'.locked == s.locked && s'.number == s.number)
            && (held && !Holds(PcOf(s', t)) ==> !s'.locked && s'.number % 2 == 0)
            && forall u :: u != t ==> PcOf(s', u) == PcOf(s, u)
  {
  }

  lemma LockKeeps<A, L>(p: Program<A, L>, s: State<A, L>, t: nat, c: Choice<A, L>)
    requires Inv(p, s)
    ensures var s' := StepThread(p, s, t, c);
            && (forall a, b :: Holds(PcOf(s', a)) && Holds(PcOf(s', b)) ==> a == b)
            && (forall u :: Holds(PcOf(s', u)) ==> s'.locked && (s'.number % 2 == 1 <==> Announced(PcOf(s', u))))
            && (s'.number % 2 == 1 ==> s'.locked)
            && (s'.locked ==> exists u :: Holds(PcOf(s', u)))
  {
    hide StepThread, PcOk, Holds, Announced;
    var s' := StepThread(p, s, t, c);
    OwnTransition(p, s, t, c);
    if s'.locked && !Holds(PcOf(s', t)) {
      var u :| Holds(PcOf(s, u));
      assert u != t;
      assert Holds(PcOf(s', u));
    }
  }

  lemma CommitKeeps<A, L>(p: Program<A, L>, s: State<A, L>, t: nat, c: Choice<A, L>)
    requires Inv(p, s)
    ensures var s' := StepThread(p, s, t, c);
            && |s'.committed| == s'.number / 2 + 1
            && (s'.number % 2 == 0 ==> s'.mem == s'.committed[s'.number / 2])
  {
    assert PcOk(p, s, PcOf(s, t));
  }

  lemma StepInv<A, L>(p: Program<A, L>, s: State<A, L>, t: nat, c: Choice<A, L>)
    requires Inv(p, s)
    ensures Inv(p, StepThread(p, s, t, c))
  {
    hide StepThread, PcOk, Holds, Announced;
    var s' := StepThread(p, s, t, c);
    LockKeeps(p, s, t, c);
    CommitKeeps(p, s, t, c);
    forall u ensures PcOk(p, s', PcOf(s', u)) {
      if u == t { OwnKeeps(p, s, t, c); } else { OthersKeep(p, s, t, c, u); }
    }
  }

  // ---------------------------------------------------------------- runs

  type Schedule<A, L> = seq<(nat, Choice<A, L>)>

  /** The state after the whole schedule; any prefix of it is a schedule too. */
  function Run<A, L>(p: Program<A, L>, mem: Memory<A>, sched: Schedule<A, L>): State<A, L> {
    if sched == [] then Initial(mem)
    else
      var (t, c) := sched[|sched| - 1];
      StepThread(p, Run(p, mem, sched[..|sched| - 1]), t, c)
  }

  lemma {:induction false} RunInv<A, L>(p: Program<A, L>, mem: Memory<A>, sched: Schedule<A, L>)
    ensures Inv(p, Run(p, mem, sched))
  {
    if sched == [] {
      InitialInv(p, mem);
    } else {
      RunInv(p, mem, sched[..|sched| - 1]);
      StepInv(p, Run(p, mem, sched[..|sched| - 1]), sched[|sched| - 1].0, sched[|sched| - 1].1);
    }
  }

  /** In every interleaving writers exclude each other. */
  lemma WritersExclude<A, L>(p: Program<A, L>, mem: Memory<A>, sched: Schedule<A, L>, t: nat, u: nat)
    requires Holds(PcOf(Run(p, mem, sched), t)) && Holds(PcOf(Run(p, mem, sched), u))
    ensures t == u
  {
    RunInv(p, mem, sched);
  }

  /** Data changes only while the sequence number is odd; it never falls, and recorded states are never altered. */
  lemma StepMonotone<A, L>(p: Program<A, L>, s: State<A, L>, t: nat, c: Choice<A, L>)
    requires Inv(p, s)
    ensures var s' := StepThread(p, s, t, c);
            && s.number <= s'.number && s.committed <= s'.committed
            && (s'.mem != s.mem ==> s.number % 2 == 1 && s'.number == s.number)
  {
    assert PcOk(p, s, PcOf(s, t));
  }

  lemma {:induction false} RunMonotone<A, L>(p: Program<A, L>, mem: Memory<A>, sched: Schedule<A, L>, i: nat, j: nat)
    requires i <= j <= |sched|
    ensures Run(p, mem, sched[..i]).number <= Run(p, mem, sched[..j]).number
    ensures Run(p, mem, sched[..i]).committed <= Run(p, mem, sched[..j]).committed
    decreases j - i
  {
    hide StepThread, Inv;
    if i < j {
      RunMonotone(p, mem, sched, i, j - 1);
      RunInv(p, mem, sched[..j - 1]);
      assert sched[..j][..j - 1] == sched[..j - 1];
      StepMonotone(p, Run(p, mem, sched[..j - 1]), sched[j - 1].0, sched[j - 1].1);
    }
  }

  /** An even sequence number seen at two moments means that the memory stood still in between. */
  lemma StoodStill<A, L>(p: Program<A, L>, mem: Memory<A>, sched: Schedule<A, L>, i: nat, j: nat, k: nat)
    requires i <= k <= j <= |sched|
    requires Run(p, mem, sched[..i]).number == Run(p, mem, sched[..j]).number
    requires Run(p, mem, sched[..i]).number % 2 == 0
    ensures Run(p, mem, sched[..k]).number == Run(p, mem, sched[..i]).number
    ensures Run(p, mem, sched[..k]).mem == Run(p, mem, sched[..i]).mem
  {
    RunMonotone(p, mem, sched, i, k);
    RunMonotone(p, mem, sched, k, j);
    RunInv(p, mem, sched[..i]);
    RunInv(p, mem, sched[..k]);
  }

  /** Once a program has stopped, more loads change nothing: its result is unique. */
  lemma {:induction false} ResultUnique<A, L>(p: Program<A, L>, mem: Memory<A>, start: L, m: nat, n: nat)
    requires m <= n && p.addr(Atomically(p, mem, start, m)).None?
    ensures Atomically(p, mem, start, n) == Atomically(p, mem, start, m)
  {
    if m < n { ResultUnique(p, mem, start, m, n - 1); }
  }

  /** Validation: in every interleaving, a reader that returns has exactly the result that its program has when run
      alone on one committed state, namely the one at the sequence number it took. That result does not depend on how
      many loads the reader made: it is the only state in which the program stops there. */
  lemma ValidatedReadIsAtomic<A, L>(p: Program<A, L>, mem: Memory<A>, sched: Schedule<A, L>, t: nat)
    requires PcOf(Run(p, mem, sched), t).ReadDone?
    ensures var s, pc := Run(p, mem, sched), PcOf(Run(p, mem, sched), t);
            && pc.number / 2 < |s.committed|
            && p.addr(pc.local).None?
            && pc.local == Atomically(p, s.committed[pc.number / 2], pc.start, pc.loads)
            && forall n: nat :: p.addr(Atomically(p, s.committed[pc.number / 2], pc.start, n)).None?
                 ==> Atomically(p, s.committed[pc.number / 2], pc.start, n) == pc.local
  {
    RunInv(p, mem, sched);
    var s, pc := Run(p, mem, sched), PcOf(Run(p, mem, sched), t);
    assert PcOk(p, s, pc);
    var m := s.committed[pc.number / 2];
    forall n: nat | p.addr(Atomically(p, m, pc.start, n)).None? ensures Atomically(p, m, pc.start, n) == pc.local {
      if n <= pc.loads { ResultUnique(p, m, pc.start, n, pc.loads); } else { ResultUnique(p, m, pc.start, pc.loads, n); }
    }
  }

  lemma ReadingCameFrom<A, L>(p: Program<A, L>, s: State<A, L>, t: nat, c: Choice<A, L>, u: nat)
    requires PcOf(StepThread(p, s, t, c), u).Reading?
    ensures var s' := StepThread(p, s, t, c);
            var pc := PcOf(s', u);
            if PcOf(s, u).Reading? then PcOf(s, u).start == pc.start && PcOf(s, u).number == pc.number
            else s'.number == pc.number && pc == Reading(pc.start, pc.number, pc.start, 0)
  {
  }

  /** A read in progress took its number at some earlier moment i and has been reading ever since. */
  lemma {:induction false} BeganAt<A, L>(p: Program<A, L>, mem: Memory<A>, sched: Schedule<A, L>, t: nat) returns (i: nat)
    requires PcOf(Run(p, mem, sched), t).Reading?
    ensures i <= |sched|
    ensures var pc := PcOf(Run(p, mem, sched), t);
            && Run(p, mem, sched[..i]).number == pc.number
            && PcOf(Run(p, mem, sched[..i]), t) == Reading(pc.start, pc.number, pc.start, 0)
  {
    hide StepThread;
    assert sched[..|sched|] == sched;
    assert sched != [];
    var last := |sched| - 1;
    var s := Run(p, mem, sched[..last]);
    ReadingCameFrom(p, s, sched[last].0, sched[last].1, t);
    if PcOf(s, t).Reading? {
      i := BeganAt(p, mem, sched[..last], t);
      assert sched[..last][..i] == sched[..i];
    } else {
      i := |sched|;
    }
  }

  /** A read that validates returns the result its program has on the memory as it stood at every single moment
      from the load of the sequence number to the validation. */
  lemma ValidatedReadSawOneState<A, L>(p: Program<A, L>, mem: Memory<A>, sched: Schedule<A, L>, t: nat) returns (i: nat)
    requires sched != [] && sched[|sched| - 1].0 == t
    requires PcOf(Run(p, mem, sched[..|sched| - 1]), t).Reading?
    requires PcOf(Run(p, mem, sched), t).ReadDone?
    ensures i < |sched|
    ensures var pc := PcOf(Run(p, mem, sched), t);
            && PcOf(Run(p, mem, sched[..i]), t) == Reading(pc.start, pc.number, pc.start, 0)
            && forall k :: i <= k < |sched| ==>
                 Run(p, mem, sched[..k]).number == pc.number
                 && pc.local == Atomically(p, Run(p, mem, sched[..k]).mem, pc.start, pc.loads)
  {
    var last := |sched| - 1;
    i := BeganAt(p, mem, sched[..last], t);
    assert sched[..last][..i] == sched[..i];
    RunInv(p, mem, sched[..last]);
    var s := Run(p, mem, sched[..last]);
    assert PcOk(p, s, PcOf(s, t));
    var pc := PcOf(Run(p, mem, sched), t);
    forall k | i <= k < |sched|
      ensures Run(p, mem, sched[..k]).number == pc.number
      ensures pc.local == Atomically(p, Run(p, mem, sched[..k]).mem, pc.start, pc.loads)
    {
      StoodStill(p, mem, sched, i, last, k);
      StoodStill(p, mem, sched, i, last, last);
    }
  }

  // ---------------------------------------------------------------- progress

  /** Thread t takes these steps, and nobody else moves. */
  function Solo<A, L>(p: Program<A, L>, s: State<A, L>, t: nat, cs: seq<Choice<A, L>>): State<A, L>
    decreases |cs|
  {
    if cs == [] then s else Solo(p, StepThread(p, s, t, cs[0]), t, cs[1..])
  }

  lemma {:induction false} SoloAppend<A, L>(p: Program<A, L>, s: State<A, L>, t: nat, a: seq<Choice<A, L>>, b: seq<Choice<A, L>>)
    ensures Solo(p, s, t, a + b) == Solo(p, Solo(p, s, t, a), t, b)
    decreases |a|
  {
    hide StepThread;
    if a == [] {
      assert a + b == b;
    } else {
      SoloAppend(p, StepThread(p, s, t, a[0]), t, a[1..], b);
      assert (a + b)[1..] == a[1..] + b;
    }
  }

  function OnlyThread<A, L>(t: nat, cs: seq<Choice<A, L>>): Schedule<A, L> {
    seq(|cs|, i requires 0 <= i < |cs| => (t, cs[i]))
  }

  /** Such steps continue a schedule. */
  lemma {:induction false} RunSolo<A, L>(p: Program<A, L>, mem: Memory<A>, sched: Schedule<A, L>, t: nat, cs: seq<Choice<A, L>>)
    ensures Run(p, mem, sched + OnlyThread(t, cs)) == Solo(p, Run(p, mem, sched), t, cs)
    decreases |cs|
  {
    hide StepThread;
    var all := sched + OnlyThread(t, cs);
    if cs == [] {
      assert all == sched;
    } else {
      var n := |cs| - 1;
      RunSolo(p, mem, sched, t, cs[..n]);
      assert all[..|all| - 1] == sched + OnlyThread(t, cs[..n]);
      assert cs == cs[..n] + [cs[n]];
      SoloAppend(p, Run(p, mem, sched), t, cs[..n], [cs[n]]);
      SoloOne(p, Run(p, mem, sched + OnlyThread(t, cs[..n])), t, cs[n]);
    }
  }

  lemma SoloOne<A, L>(p: Program<A, L>, s: State<A, L>, t: nat, c: Choice<A, L>)
    ensures Solo(p, s, t, [c]) == StepThread(p, s, t, c)
  {
    hide StepThread;
    assert [c][1..] == [];
  }

  function Gos<A, L>(n: nat): (cs: seq<Choice<A, L>>)
    ensures |cs| == n && forall i :: 0 <= i < n ==> cs[i] == Go
  {
    seq(n, _ => Go)
  }

  lemma SoloGo<A, L>(p: Program<A, L>, s: State<A, L>, t: nat, n: nat)
    requires n > 0
    ensures Solo(p, s, t, Gos(n)) == Solo(p, StepThread(p, s, t, Go), t, Gos(n - 1))
  {
    hide StepThread;
    assert Gos<A, L>(n)[1..] == Gos(n - 1);
  }

  /** One step of a writer that nobody hinders. */
  lemma WriterGoes<A, L>(p: Program<A, L>, s: State<A, L>, t: nat)
    ensures var u := StepThread(p, s, t, Go);
            match PcOf(s, t)
            case TestLock => !s.locked ==> u == Goto(s, t, CasLock)
            case CasLock => !s.locked ==> u == Goto(s, t, LoadOdd).(locked := true)
            case LoadOdd => u == Goto(s, t, StoreOdd(s.number))
            case StoreOdd(prev) => u == Goto(s, t, Writing).(number := prev + 1)
            case Writing => u == Goto(s, t, LoadEven)
            case LoadEven => u == Goto(s, t, StoreEven(s.number))
            case StoreEven(prev) => u == Goto(s, t, Release).(number := prev + 1, committed := s.committed + [s.mem])
            case Release => u == Goto(s, t, Idle).(locked := false)
            case _ => true
  {
  }

  /** A thread that wants the lock gets it, and announces itself, when the lock is free. */
  lemma GetsLock<A, L>(p: Program<A, L>, s: State<A, L>, t: nat)
    requires !s.locked && PcOf(s, t).TestLock?
    ensures Solo(p, s, t, Gos(4)) == Goto(s, t, Writing).(locked := true, number := s.number + 1)
  {
    hide StepThread, Solo;
    var s1 := Goto(s, t, CasLock);
    var s2 := Goto(s, t, LoadOdd).(locked := true);
    var s3 := Goto(s, t, StoreOdd(s.number)).(locked := true);
    SoloGo(p, s, t, 4);
    SoloGo(p, s1, t, 3);
    SoloGo(p, s2, t, 2);
    SoloGo(p, s3, t, 1);
    WriterGoes(p, s, t);
    WriterGoes(p, s1, t);
    WriterGoes(p, s2, t);
    WriterGoes(p, s3, t);
    assert StepThread(p, s1, t, Go).pcs == s2.pcs && StepThread(p, s2, t, Go).pcs == s3.pcs;
    assert StepThread(p, s3, t, Go).pcs == s.pcs[t := Writing];
    NoSteps(p, StepThread(p, s3, t, Go), t);
  }

  /** The words stored, one after the other. */
  function Stored<A, L>(mem: Memory<A>, words: seq<(A, int)>): Memory<A>
    decreases |words|
  {
    if words == [] then mem else Stored<A, L>(mem[words[0].0 := words[0].1], words[1..])
  }

  function Stores<A, L>(words: seq<(A, int)>): seq<Choice<A, L>> {
    seq(|words|, i requires 0 <= i < |words| => StoreWord(words[i].0, words[i].1))
  }

  lemma {:induction false} StoresWords<A, L>(p: Program<A, L>, s: State<A, L>, t: nat, words: seq<(A, int)>)
    requires PcOf(s, t).Writing?
    ensures Solo(p, s, t, Stores(words)) == s.(mem := Stored<A, L>(s.mem, words))
    decreases |words|
  {
    if words != [] {
      StoresWords(p, StepThread(p, s, t, StoreWord(words[0].0, words[0].1)), t, words[1..]);
      assert Stores<A, L>(words)[1..] == Stores(words[1..]);
    }
  }

  /** A writer that has stored its words commits and releases. */
  lemma Commits<A, L>(p: Program<A, L>, s: State<A, L>, t: nat)
    requires PcOf(s, t).Writing?
    ensures Solo(p, s, t, Gos(4)) ==
            Goto(s, t, Idle).(number := s.number + 1, committed := s.committed + [s.mem], locked := false)
  {
    hide StepThread, Solo;
    var s1 := Goto(s, t, LoadEven);
    var s2 := Goto(s, t, StoreEven(s.number));
    var s3 := Goto(s, t, Release).(number := s.number + 1, committed := s.committed + [s.mem]);
    SoloGo(p, s, t, 4);
    SoloGo(p, s1, t, 3);
    SoloGo(p, s2, t, 2);
    SoloGo(p, s3, t, 1);
    WriterGoes(p, s, t);
    WriterGoes(p, s1, t);
    WriterGoes(p, s2, t);
    WriterGoes(p, s3, t);
    assert StepThread(p, s1, t, Go).pcs == s2.pcs && StepThread(p, s2, t, Go).pcs == s3.pcs;
    assert StepThread(p, s3, t, Go).pcs == s.pcs[t := Idle];
    NoSteps(p, StepThread(p, s3, t, Go), t);
  }

  /** A whole write section. */
  function WriteSteps<A, L>(words: seq<(A, int)>): seq<Choice<A, L>> {
    [StartWrite] + Gos(4) + Stores(words) + Gos(4)
  }

  /** Whenever the lock is free, an idle thread that runs alone gets through a write: its words are stored and committed,
      the number has gone up by two, the lock is free again, and nobody else has been touched. */
  lemma LoneWrite<A, L>(p: Program<A, L>, s: State<A, L>, t: nat, words: seq<(A, int)>)
    requires Inv(p, s) && !s.locked && PcOf(s, t).Idle?
    ensures var u := Solo(p, s, t, WriteSteps(words));
            && PcOf(u, t).Idle? && !u.locked && u.number == s.number + 2 && u.number % 2 == 0
            && u.mem == Stored<A, L>(s.mem, words) && u.committed == s.committed + [u.mem]
            && forall o :: o != t ==> PcOf(u, o) == PcOf(s, o)
  {
    hide Inv, StepThread;
    NumberEven(p, s);
    SoloAppend(p, s, t, [StartWrite] + Gos(4) + Stores(words), Gos(4));
    SoloAppend(p, s, t, [StartWrite] + Gos(4), Stores(words));
    SoloAppend(p, s, t, [StartWrite], Gos(4));
    SoloOne(p, s, t, StartWrite);
    Starts(p, s, t);
    var s1 := StepThread(p, s, t, StartWrite);
    GetsLock(p, s1, t);
    var s2 := Solo(p, s1, t, Gos(4));
    StoresWords(p, s2, t, words);
    Commits(p, s2.(mem := Stored<A, L>(s2.mem, words)), t);
  }

  lemma Starts<A, L>(p: Program<A, L>, s: State<A, L>, t: nat)
    requires PcOf(s, t).Idle?
    ensures StepThread(p, s, t, StartWrite) == Goto(s, t, TestLock)
    ensures forall start :: StepThread(p, s, t, StartRead(start)) == Goto(s, t, ReadBegin(start))
  {
  }

  lemma NumberEven<A, L>(p: Program<A, L>, s: State<A, L>)
    requires Inv(p, s) && !s.locked
    ensures s.number % 2 == 0
  {
  }

  /** Whoever holds the lock gives it back when it runs on, from wherever it stands. */
  lemma HolderReleases<A, L>(p: Program<A, L>, s: State<A, L>, t: nat) returns (n: nat)
    requires Inv(p, s) && Holds(PcOf(s, t))
    ensures PcOf(Solo(p, s, t, Gos(n)), t).Idle? && !Solo(p, s, t, Gos(n)).locked
    ensures Inv(p, Solo(p, s, t, Gos(n)))
    decreases match PcOf(s, t) case LoadOdd => 5 case StoreOdd(_) => 4 case Writing => 3 case LoadEven => 2 case StoreEven(_) => 1 case _ => 0
  {
    hide Inv;
    var u := StepThread(p, s, t, Go);
    StepInv(p, s, t, Go);
    if PcOf(s, t).Release? {
      n := 1;
      SoloGo(p, s, t, 1);
    } else {
      var m := HolderReleases(p, u, t);
      n := m + 1;
      SoloGo(p, s, t, n);
    }
  }

  lemma {:induction false} SoloOthers<A, L>(p: Program<A, L>, s: State<A, L>, t: nat, cs: seq<Choice<A, L>>, o: nat)
    requires Inv(p, s) && o != t
    ensures Inv(p, Solo(p, s, t, cs)) && PcOf(Solo(p, s, t, cs), o) == PcOf(s, o)
    decreases |cs|
  {
    hide Inv, StepThread;
    if cs != [] {
      StepInv(p, s, t, cs[0]);
      OthersKeep(p, s, t, cs[0], o);
      SoloOthers(p, StepThread(p, s, t, cs[0]), t, cs[1..], o);
    }
  }

  /** From every reachable state any thread that waits for the lock can come to write: its holder, if there is one, runs
      on, and then the thread. */
  lemma NoDeadlock<A, L>(p: Program<A, L>, s: State<A, L>, t: nat) returns (h: nat, n: nat)
    requires Inv(p, s) && PcOf(s, t).TestLock?
    ensures PcOf(Solo(p, Solo(p, s, h, Gos(n)), t, Gos(4)), t).Writing?
  {
    hide StepThread, Solo;
    if s.locked {
      h :| Holds(PcOf(s, h));
      n := HolderReleases(p, s, h);
      SoloOthers(p, s, h, Gos(n), t);
    } else {
      h, n := t + 1, 0;
      NoSteps(p, s, h);
    }
    GetsLock(p, Solo(p, s, h, Gos(n)), t);
  }

  lemma NoSteps<A, L>(p: Program<A, L>, s: State<A, L>, t: nat)
    ensures Solo(p, s, t, Gos(0)) == s
  {
  }

  /** Loads that a reader makes on a memory that stands still. */
  lemma {:induction false} LoneLoads<A, L>(p: Program<A, L>, s: State<A, L>, t: nat, start: L, n: nat)
    requires PcOf(s, t) == Reading(start, s.number, start, 0)
    requires forall k: nat :: k < n ==> p.addr(Atomically(p, s.mem, start, k)).Some?
    ensures Solo(p, s, t, Gos(n)) == Goto(s, t, Reading(start, s.number, Atomically(p, s.mem, start, n), n))
  {
    if n > 0 {
      LoneLoads(p, s, t, start, n - 1);
      assert Gos<A, L>(n) == Gos(n - 1) + [Go];
      SoloAppend(p, s, t, Gos(n - 1), [Go]);
      SoloOne(p, Solo(p, s, t, Gos(n - 1)), t, Go);
    } else {
      assert Goto(s, t, PcOf(s, t)) == s;
    }
  }

  /** Whenever the lock is free, a reader that has begun, or begins anew after a failed validation, and runs alone, returns
      the result of its program on the present memory. */
  lemma LoneRead<A, L>(p: Program<A, L>, s: State<A, L>, t: nat, start: L, n: nat)
    requires Inv(p, s) && !s.locked && PcOf(s, t) == ReadBegin(start)
    requires forall k: nat :: k < n ==> p.addr(Atomically(p, s.mem, start, k)).Some?
    requires p.addr(Atomically(p, s.mem, start, n)).None?
    ensures Solo(p, s, t, Gos(n + 2)) == Goto(s, t, ReadDone(start, s.number, Atomically(p, s.mem, start, n), n))
  {
    NumberEven(p, s);
    SoloGo(p, s, t, n + 2);
    var s1 := StepThread(p, s, t, Go);
    LoneLoads(p, s1, t, start, n);
    assert Gos<A, L>(n + 1) == Gos(n) + [Go];
    SoloAppend(p, s1, t, Gos(n), [Go]);
    SoloOne(p, Solo(p, s1, t, Gos(n)), t, Go);
  }

  /** The steps of a reader that are not loads: it begins when asked to, spins while the number is odd and takes an even
      one, returns when its number still stands, and begins anew when it does not. */
  lemma ReaderTurns<A, L>(p: Program<A, L>, s: State<A, L>, t: nat, c: Choice<A, L>)
    ensures PcOf(s, t).Idle? && c.StartRead? ==> StepThread(p, s, t, c) == Goto(s, t, ReadBegin(c.start))
    ensures PcOf(s, t).ReadBegin? ==>
              var start := PcOf(s, t).start;
              StepThread(p, s, t, c) == if s.number % 2 == 1 then s else Goto(s, t, Reading(start, s.number, start, 0))
    ensures PcOf(s, t).Reading? && p.addr(PcOf(s, t).local).None? ==>
              var pc := PcOf(s, t);
              StepThread(p, s, t, c) ==
                Goto(s, t, if pc.number == s.number then ReadDone(pc.start, pc.number, pc.local, pc.loads) else ReadBegin(pc.start))
    ensures PcOf(s, t).Reading? && p.addr(PcOf(s, t).local).Some? ==>
              var pc := PcOf(s, t);
              var word := Load(s.mem, p.addr(pc.local).value);
              StepThread(p, s, t, c) == Goto(s, t, Reading(pc.start, pc.number, p.step(pc.local, word), pc.loads + 1))
    ensures PcOf(s, t).ReadDone? ==> StepThread(p, s, t, c) == Goto(s, t, Idle)
  {
  }

  /** A thread that wants the lock waits while it is taken. */
  lemma LockWaits<A, L>(p: Program<A, L>, s: State<A, L>, t: nat, c: Choice<A, L>)
    requires s.locked
    ensures PcOf(s, t).TestLock? ==> StepThread(p, s, t, c) == s
    ensures PcOf(s, t).CasLock? ==> StepThread(p, s, t, c) == Goto(s, t, TestLock)
  {
  }
}
