/**
 * The recursive spin lock as a state machine: every interleaving of the single reads and writes that threads make in
 * acquire, try and release.
 */
module SpinLock {

  /** Threads are numbered from 1; 0 in `threadid` means nobody. */
  type Thread = nat

  /** What a thread does next; `Idle` is outside the three operations. */
  datatype Pc =
    | Idle
    // acquire (`spins`) and try: test the lock word, compare the owner, exchange, then set count and owner
    | TestWord(spins: bool)
    | TestOwner(spins: bool)
    | CountUp
    | Exchange(spins: bool)
    | SetCount
    | SetOwner
    // release: count down, and at zero forget the owner and then clear the word
    | CountDown
    | ClearOwner
    | ClearWord

  /** The lock's three words, and for each thread its place in the code and how often it holds the lock. */
  datatype State = State(l: nat, threadid: nat, c: nat, pc: map<Thread, Pc>, depth: map<Thread, nat>)

  ghost predicate Init(s: State) {
    && s.l == 0 && s.threadid == 0 && s.c == 0 && s.pc.Keys == s.depth.Keys && 0 !in s.pc
    && forall t :: t in s.pc ==> s.pc[t] == Idle && s.depth[t] == 0
  }

  function At(s: State, t: Thread, pc: Pc): State {
    s.(pc := s.pc[t := pc])
  }

  function Less(n: nat): nat {
    if n == 0 then 0 else n - 1
  }

  /** The operation has returned: the thread has now acquired the lock `d` times more than it has released it. */
  function Return(s: State, t: Thread, d: nat): State {
    s.(pc := s.pc[t := Idle], depth := s.depth[t := d])
  }

  /** The call of an operation; only a holder may release. */
  ghost predicate Call(s: State, s': State, t: Thread)
    requires t in s.pc && t in s.depth
  {
    && s.pc[t] == Idle
    && (s' == At(s, t, TestWord(true)) || s' == At(s, t, TestWord(false))
        || (s.depth[t] > 0 && s' == At(s, t, CountDown)))
  }

  /** One access to the shared words by thread `t`. */
  ghost predicate Step(s: State, s': State, t: Thread)
    requires t in s.pc && t in s.depth
  {
    match s.pc[t]
    case Idle => Call(s, s', t)
    case TestWord(spins) => s' == At(s, t, if s.l != 0 then TestOwner(spins) else Exchange(spins))
    case TestOwner(spins) =>
      s' == if s.threadid == t then At(s, t, CountUp) else if spins then At(s, t, TestWord(true))
        else Return(s, t, s.depth[t])
    case CountUp => s' == Return(s, t, s.depth[t] + 1).(c := s.c + 1)
    case Exchange(spins) =>
      s' == if s.l == 0 then At(s, t, SetCount).(l := 1)
            else if spins then At(s, t, TestWord(true)) else Return(s, t, s.depth[t])
    case SetCount => s' == At(s, t, SetOwner).(c := 1)
    case SetOwner => s' == Return(s, t, s.depth[t] + 1).(threadid := t)
    case CountDown =>
      s' == if s.c == 1 then At(s, t, ClearOwner).(c := 0) else Return(s, t, Less(s.depth[t])).(c := Less(s.c))
    case ClearOwner => s' == At(s, t, ClearWord).(threadid := 0)
    case ClearWord => s' == Return(s, t, Less(s.depth[t])).(l := 0)
  }

  ghost predicate Next(s: State, s': State) {
    exists t :: t in s.pc && t in s.depth && Step(s, s', t)
  }

  // ------------------------------------------------------------------ invariant

  /** The lock word is set on behalf of this thread. */
  ghost predicate Inside(s: State, t: Thread)
    requires t in s.pc && t in s.depth
  {
    s.depth[t] > 0 || s.pc[t] in {SetCount, SetOwner, ClearOwner, ClearWord}
  }

  /** What each thread may rely on. */
  ghost predicate ThreadOk(s: State, t: Thread)
    requires t in s.pc && t in s.depth
  {
    && (Inside(s, t) ==> s.l == 1)
    && (s.pc[t] in {SetCount, SetOwner} ==> s.depth[t] == 0 && s.threadid == 0)
    && (s.pc[t] == SetOwner ==> s.c == 1)
    && (s.pc[t] in {CountUp, CountDown, ClearOwner} ==> s.depth[t] > 0)
    && (s.pc[t] == ClearOwner ==> s.threadid == t && s.c == 0 && s.depth[t] == 1)
    && (s.pc[t] == ClearWord ==> s.threadid == 0 && s.depth[t] == 1)
    && (s.depth[t] > 0 && s.pc[t] !in {ClearOwner, ClearWord} ==> s.threadid == t && s.c == s.depth[t])
    && (s.threadid == t ==> s.depth[t] > 0)
    // a holder that tests the word finds it set
    && (s.pc[t].Exchange? ==> s.depth[t] == 0)
  }

  ghost predicate Inv(s: State) {
    && s.pc.Keys == s.depth.Keys && 0 !in s.pc && s.l <= 1
    && (forall t {:trigger ThreadOk(s, t)} :: t in s.pc ==> ThreadOk(s, t))
    && (forall t, u {:trigger Inside(s, t), Inside(s, u)} ::
          t in s.pc && u in s.pc && Inside(s, t) && Inside(s, u) ==> t == u)
    && (s.threadid != 0 ==> s.threadid in s.pc)
    && (s.l == 1 ==> exists t :: t in s.pc && Inside(s, t))
  }

  lemma InitInv(s: State)
    requires Init(s)
    ensures Inv(s)
  {
  }

  /** One step of a thread, as far as it is concerned itself. */
  lemma StepSelf(s: State, s': State, t: Thread)
    requires t in s.pc && t in s.depth && t != 0 && s.l <= 1 && ThreadOk(s, t) && Step(s, s', t)
    requires s.l == 0 ==> s.threadid == 0
    ensures t in s'.pc && t in s'.depth && ThreadOk(s', t) && s'.l <= 1
    ensures !Inside(s, t) && Inside(s', t) ==> s.l == 0
    ensures s'.threadid != 0 ==> s'.threadid == s.threadid || s'.threadid == t
  {
  }

  /** A thread that holds nothing leaves the lock's words alone, except that it may win a free lock. */
  lemma StepElsewhere(s: State, s': State, t: Thread, u: Thread)
    requires t in s.pc && t in s.depth && u in s.pc && u in s.depth && t != u && ThreadOk(s, t) && Step(s, s', t)
    ensures u in s'.pc && u in s'.depth && s'.pc[u] == s.pc[u] && s'.depth[u] == s.depth[u]
    ensures !Inside(s, t) ==> s'.threadid == s.threadid && s'.c == s.c && (s'.l == s.l || (s.l == 0 && s'.l == 1))
    ensures s'.threadid != 0 ==> s'.threadid == s.threadid || s'.threadid == t
  {
  }

  /** One step of thread `t`, seen by thread `u`. */
  lemma StepOther(s: State, s': State, t: Thread, u: Thread)
    requires Inv(s) && t in s.pc && u in s.pc && t != u && Step(s, s', t)
    ensures u in s'.pc && u in s'.depth && ThreadOk(s', u)
  {
    hide Step, Inside;
    assert ThreadOk(s, t) && ThreadOk(s, u);
    StepElsewhere(s, s', t, u);
    assert Inside(s, t) && Inside(s, u) ==> t == u;
    InsideSame(s, s', u);
    InsideIs(s, u);
  }

  lemma InsideSame(s: State, s': State, u: Thread)
    requires u in s.pc && u in s.depth && u in s'.pc && u in s'.depth && s'.pc[u] == s.pc[u]
             && s'.depth[u] == s.depth[u]
    ensures Inside(s', u) <==> Inside(s, u)
  {
  }

  lemma InsideIs(s: State, u: Thread)
    requires u in s.pc && u in s.depth
    ensures Inside(s, u) <==> s.depth[u] > 0 || s.pc[u] in {SetCount, SetOwner, ClearOwner, ClearWord}
  {
  }

  lemma FreeHasNoOwner(s: State)
    requires Inv(s)
    ensures s.l == 0 ==> s.threadid == 0
  {
    assert s.threadid != 0 ==> ThreadOk(s, s.threadid);
  }

  lemma StepApart(s: State, s': State, t: Thread, u: Thread, v: Thread)
    requires Inv(s) && t in s.pc && Step(s, s', t) && u in s.pc && v in s.pc
    requires u in s'.pc && v in s'.pc && u in s'.depth && v in s'.depth && Inside(s', u) && Inside(s', v)
    ensures u == v
  {
    hide Step, Inside;
    assert ThreadOk(s, t) && ThreadOk(s, u) && ThreadOk(s, v);
    FreeHasNoOwner(s);
    StepSelf(s, s', t);
    if u != t {
      StepElsewhere(s, s', t, u);
      InsideSame(s, s', u);
    }
    if v != t {
      StepElsewhere(s, s', t, v);
      InsideSame(s, s', v);
    }
    assert Inside(s, u) && Inside(s, v) ==> u == v;
  }

  lemma NextInv(s: State, s': State)
    requires Inv(s) && Next(s, s')
    ensures Inv(s')
  {
    hide Step, Inside, ThreadOk;
    var t :| t in s.pc && t in s.depth && Step(s, s', t);
    assert ThreadOk(s, t);
    FreeHasNoOwner(s);
    StepSelf(s, s', t);
    SameThreads(s, s', t);
    forall u | u in s'.pc
      ensures ThreadOk(s', u)
    {
      if u != t {
        StepOther(s, s', t, u);
      }
    }
    forall u, v | u in s'.pc && v in s'.pc && Inside(s', u) && Inside(s', v)
      ensures u == v
    {
      StepApart(s, s', t, u, v);
    }
    if s'.l == 1 {
      SomeInside(s, s', t);
    }
  }

  lemma SameThreads(s: State, s': State, t: Thread)
    requires t in s.pc && t in s.depth && s.pc.Keys == s.depth.Keys && Step(s, s', t)
    ensures s'.pc.Keys == s.pc.Keys && s'.depth.Keys == s.depth.Keys
  {
  }

  lemma SomeInside(s: State, s': State, t: Thread)
    requires Inv(s) && t in s.pc && Step(s, s', t) && s'.l == 1 && s'.pc.Keys == s'.depth.Keys
    ensures exists u :: u in s'.pc && Inside(s', u)
  {
    assert ThreadOk(s, t);
    if s.l == 1 {
      var u :| u in s.pc && Inside(s, u);
      assert u == t ==> Inside(s', t);
      assert Inside(s', u);
    } else {
      assert Inside(s', t);
    }
  }

  // ----------------------------------------------------------------------- runs

  ghost predicate Run(states: seq<State>) {
    && states != [] && Init(states[0])
    && forall i {:trigger states[i]} :: 0 <= i < |states| - 1 ==> Next(states[i], states[i + 1])
  }

  lemma {:induction false} RunInv(states: seq<State>, i: nat)
    requires Run(states) && i < |states|
    ensures Inv(states[i])
    decreases i
  {
    if i == 0 {
      InitInv(states[0]);
    } else {
      RunInv(states, i - 1);
      assert Next(states[i - 1], states[i]);
      NextInv(states[i - 1], states[i]);
    }
  }

  /**
   * In every run, whatever the interleaving: no two threads hold the lock at once, the recorded owner holds it, and the
   * counter of a holder that is in no operation is its nesting depth.
   */
  lemma MutualExclusion(states: seq<State>, i: nat, t: Thread, u: Thread)
    requires Run(states) && i < |states| && t in states[i].pc && u in states[i].pc
    ensures var s := states[i];
            && t in s.depth && u in s.depth
            && (s.depth[t] > 0 && s.depth[u] > 0 ==> t == u)
            && (s.threadid == t ==> s.depth[t] > 0)
            && (s.depth[t] > 0 && s.pc[t] == Idle ==> s.l == 1 && s.threadid == t && s.c == s.depth[t])
  {
    RunInv(states, i);
    var s := states[i];
    assert ThreadOk(s, t) && ThreadOk(s, u);
    assert Inside(s, t) && Inside(s, u) ==> t == u;
  }

  /** The assertions in the code hold: nobody is recorded when the lock is won, and only the owner releases it. */
  lemma AssertionsHold(states: seq<State>, i: nat, t: Thread)
    requires Run(states) && i < |states| && t in states[i].pc
    ensures var s := states[i];
            && (s.pc[t] == SetCount ==> s.threadid == 0)
            && (s.pc[t] == CountDown ==> s.l != 0 && s.threadid == t && s.c > 0)
  {
    RunInv(states, i);
    assert ThreadOk(states[i], t);
  }
}
