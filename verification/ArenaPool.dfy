/**
 * The pool of arenas as a state machine: threads that look for an arena nobody uses, and add one to the pool while
 * there is room. Every interleaving of their reads, writes and lock operations is a run.
 */
module ArenaPool {

  type Thread = nat
  type Arena = nat

  const MAX_THREADS: nat := 16

  /** Where a thread is; `last` is the index it used last, `a` an arena it has read from the array or made. */
  datatype Pc =
    | Outside
    | TryLast(last: nat)
    // upwards from the one behind it, then from the first up to it
    | ScanUp(last: nat, n: nat)
    | TryUp(last: nat, n: nat, a: Arena)
    | ScanDown(last: nat, end: nat, n: nat)
    | TryDown(last: nat, end: nat, n: nat, a: Arena)
    // a new arena
    | Create(last: nat, end: nat)
    | LockPool(last: nat, end: nat, a: Arena)
    | Probe(last: nat, end: nat, a: Arena)
    | Publish(last: nat, end: nat, a: Arena)
    | LockNew(end: nat)
    | UnlockPool(end: nat)
    | GiveUp(last: nat, a: Arena)
    | Destroy(last: nat, a: Arena)
    // wait for the one used last
    | Fallback(last: nat)
    | Holding(n: nat)

  /** The array of arenas (0 for none), the pool's lock, the holder of each arena's lock, and what has been made. */
  datatype Pool = Pool(m: seq<Arena>, threads: nat, lock: Thread, holder: map<Arena, Thread>, gone: set<Arena>,
                       pc: map<Thread, Pc>)

  function Go(s: Pool, t: Thread, pc: Pc): Pool {
    s.(pc := s.pc[t := pc])
  }

  function Free(s: Pool, a: Arena): bool {
    a in s.holder && s.holder[a] == 0
  }

  function Take(s: Pool, t: Thread, a: Arena): Pool {
    s.(holder := s.holder[a := t])
  }

  function Entry(s: Pool, i: nat): Arena {
    if i < |s.m| then s.m[i] else 0
  }

  /** One access of thread `t` to the pool. */
  ghost predicate Step(s: Pool, s': Pool, t: Thread)
    requires t in s.pc
  {
    match s.pc[t]
    case Outside => exists last: nat :: Entry(s, last) != 0 && s' == Go(s, t, TryLast(last))
    case TryLast(last) =>
      s' == if Free(s, Entry(s, last)) then Take(Go(s, t, Holding(last)), t, Entry(s, last))
        else Go(s, t, ScanUp(last, last + 1))
    case ScanUp(last, n) =>
      s' == Go(s, t, if Entry(s, n) != 0 then TryUp(last, n, Entry(s, n)) else ScanDown(last, n, 0))
    case TryUp(last, n, a) =>
      s' == if Free(s, a) then Take(Go(s, t, Holding(n)), t, a) else Go(s, t, ScanUp(last, n + 1))
    case ScanDown(last, end, n) =>
      s' == Go(s, t, if n < last && Entry(s, n) != 0 then TryDown(last, end, n, Entry(s, n))
                     else if end < s.threads then Create(last, end) else Fallback(last))
    case TryDown(last, end, n, a) =>
      s' == if Free(s, a) then Take(Go(s, t, Holding(n)), t, a) else Go(s, t, ScanDown(last, end, n + 1))
    case Create(last, end) =>
      || s' == Go(s, t, Fallback(last))
      || exists a: nat ::
           && a != 0 && a !in s.holder
           && s' == Go(s, t, LockPool(last, end, a)).(holder := s.holder[a := 0])
    case LockPool(last, end, a) => s.lock == 0 && s' == Go(s, t, Probe(last, end, a)).(lock := t)
    case Probe(last, end, a) =>
      s' == Go(s, t, if Entry(s, end) != 0 && end < s.threads then Probe(last, end + 1, a)
                     else if end >= s.threads then GiveUp(last, a) else Publish(last, end, a))
    case Publish(last, end, a) => end < |s.m| && s' == Go(s, t, LockNew(end)).(m := s.m[end := a])
    case LockNew(end) => Free(s, Entry(s, end)) && s' == Take(Go(s, t, UnlockPool(end)), t, Entry(s, end))
    case UnlockPool(end) => s' == Go(s, t, Holding(end)).(lock := 0)
    case GiveUp(last, a) => s' == Go(s, t, Destroy(last, a)).(lock := 0)
    case Destroy(last, a) => s' == Go(s, t, Fallback(last)).(gone := s.gone + {a})
    case Fallback(last) => Free(s, Entry(s, last)) && s' == Take(Go(s, t, Holding(last)), t, Entry(s, last))
    case Holding(n) => s' == Take(Go(s, t, Outside), 0, Entry(s, n))
  }

  ghost predicate Next(s: Pool, s': Pool) {
    exists t :: t in s.pc && Step(s, s', t)
  }

  /** One arena in the pool, nobody in it. */
  ghost predicate Init(s: Pool) {
    && 1 <= s.threads <= MAX_THREADS && |s.m| == MAX_THREADS + 1 && s.m[0] != 0
    && (forall i :: 0 < i < |s.m| ==> s.m[i] == 0)
    && s.lock == 0 && s.holder == map[s.m[0] := 0] && s.gone == {} && 0 !in s.pc
    && forall t :: t in s.pc ==> s.pc[t] == Outside
  }

  // ------------------------------------------------------------------ invariant

  /** Exactly the first `k` entries are in use, by different arenas. */
  ghost predicate Prefix(s: Pool, k: nat) {
    && 1 <= k <= s.threads && k <= MAX_THREADS && |s.m| == MAX_THREADS + 1
    && (forall i {:trigger s.m[i]} :: 0 <= i < |s.m| ==> (s.m[i] != 0 <==> i < k))
    && (forall i, j {:trigger s.m[i], s.m[j]} :: 0 <= i < j < k ==> s.m[i] != s.m[j])
  }

  /** The arena that a thread has made and neither published nor destroyed yet. */
  function Made(pc: Pc): Arena {
    if pc.LockPool? || pc.Probe? || pc.Publish? || pc.GiveUp? || pc.Destroy? then pc.a else 0
  }

  /** The index of the arena that a thread has locked, and whether it has one. */
  predicate Locks(pc: Pc) {
    pc.Holding? || pc.UnlockPool?
  }

  function Index(pc: Pc): nat {
    if pc.Holding? then pc.n else if pc.UnlockPool? then pc.end else 0
  }

  predicate InPool(pc: Pc) {
    pc.Probe? || pc.Publish? || pc.LockNew? || pc.UnlockPool? || pc.GiveUp?
  }

  /** All entries below `n` are in use. */
  ghost predicate Below(s: Pool, n: nat) {
    n <= |s.m| && forall i :: 0 <= i < n ==> s.m[i] != 0
  }

  ghost predicate PcOk(s: Pool, pc: Pc) {
    match pc
    case Outside => true
    case TryLast(last) => Entry(s, last) != 0
    case ScanUp(last, n) => Entry(s, last) != 0 && Below(s, n)
    case TryUp(last, n, a) => Entry(s, last) != 0 && a != 0 && Entry(s, n) == a && Below(s, n + 1)
    case ScanDown(last, end, n) => Entry(s, last) != 0 && Below(s, end)
    case TryDown(last, end, n, a) => Entry(s, last) != 0 && Below(s, end) && a != 0 && Entry(s, n) == a
    case Create(last, end) => Entry(s, last) != 0 && Below(s, end) && end < s.threads
    case LockPool(last, end, _) => Entry(s, last) != 0 && Below(s, end) && end < s.threads
    case Probe(last, end, _) => Entry(s, last) != 0 && Below(s, end) && end <= s.threads
    case Publish(last, end, _) => Entry(s, last) != 0 && Below(s, end) && end < s.threads && Entry(s, end) == 0
    case LockNew(end) => Entry(s, end) != 0
    case UnlockPool(end) => Entry(s, end) != 0
    case GiveUp(last, _) => Entry(s, last) != 0
    case Destroy(last, _) => Entry(s, last) != 0
    case Fallback(last) => Entry(s, last) != 0
    case Holding(n) => Entry(s, n) != 0
  }

  ghost predicate ThreadOk(s: Pool, t: Thread)
    requires t in s.pc
  {
    var pc := s.pc[t];
    && PcOk(s, pc)
    && (InPool(pc) <==> s.lock == t)
    && (Locks(pc) ==> Entry(s, Index(pc)) in s.holder && s.holder[Entry(s, Index(pc))] == t)
    && (Made(pc) != 0 ==> Made(pc) in s.holder && Made(pc) !in s.m && Made(pc) !in s.gone && s.holder[Made(pc)] == 0)
    && (pc.LockPool? || pc.Probe? || pc.Publish? || pc.GiveUp? || pc.Destroy? ==> pc.a != 0)
  }

  /** An arena is in exactly the hands that the program counters say. */
  ghost predicate ArenaOk(s: Pool, a: Arena)
    requires a in s.holder
  {
    && a != 0
    && (s.holder[a] != 0 ==>
          && s.holder[a] in s.pc && Locks(s.pc[s.holder[a]]) && Entry(s, Index(s.pc[s.holder[a]])) == a)
    && (a in s.m || a in s.gone || exists t :: t in s.pc && Made(s.pc[t]) == a)
    && !(a in s.m && a in s.gone)
  }

  ghost predicate Inv(s: Pool) {
    && 0 !in s.pc && s.threads <= MAX_THREADS && s.gone <= s.holder.Keys
    && (exists k: nat :: Prefix(s, k))
    && (forall i {:trigger s.m[i]} :: 0 <= i < |s.m| && s.m[i] != 0 ==> s.m[i] in s.holder)
    && (forall t {:trigger ThreadOk(s, t)} :: t in s.pc ==> ThreadOk(s, t))
    && (forall a {:trigger ArenaOk(s, a)} :: a in s.holder ==> ArenaOk(s, a))
    && (forall t, u {:trigger s.pc[t], s.pc[u]} ::
          t in s.pc && u in s.pc && Made(s.pc[t]) != 0 && Made(s.pc[t]) == Made(s.pc[u]) ==> t == u)
  }

  lemma InitInv(s: Pool)
    requires Init(s)
    ensures Inv(s)
  {
    assert Prefix(s, 1);
  }

  // ------------------------------------------------------------- what a step does

  /** An entry that is in use is never changed. */
  ghost predicate Grows(s: Pool, s': Pool) {
    |s'.m| == |s.m| && forall i {:trigger s'.m[i]} :: 0 <= i < |s.m| && s.m[i] != 0 ==> s'.m[i] == s.m[i]
  }

  /** What a step of `t` may do to the lock of one arena. */
  ghost predicate HolderStep(s: Pool, s': Pool, t: Thread, a: Arena) {
    && (a in s.holder ==>
          && a in s'.holder
          && (s'.holder[a] == s.holder[a]
              || (s.holder[a] == 0 && s'.holder[a] == t && a in s.m)
              || (s.holder[a] == t && s'.holder[a] == 0)))
    && (a in s'.holder && a !in s.holder ==> a != 0 && s'.holder[a] == 0 && t in s'.pc && Made(s'.pc[t]) == a)
  }

  lemma Effect(s: Pool, s': Pool, t: Thread)
    requires t in s.pc && ThreadOk(s, t) && Step(s, s', t) && |s.m| == MAX_THREADS + 1
    ensures t in s'.pc && s'.pc == s.pc[t := s'.pc[t]] && s'.threads == s.threads && Grows(s, s')
    ensures s'.m == s.m || (s.pc[t].Publish? && s.pc[t].end < |s.m| && s'.m == s.m[s.pc[t].end := s.pc[t].a])
    ensures s'.gone == s.gone || (s.pc[t].Destroy? && s'.gone == s.gone + {s.pc[t].a})
    ensures s'.lock == s.lock || (s.lock == 0 && s'.lock == t) || (s.lock == t && s'.lock == 0)
    ensures Made(s.pc[t]) != 0 && Made(s'.pc[t]) != Made(s.pc[t]) ==>
              Made(s'.pc[t]) == 0 && (s.pc[t].Publish? || s.pc[t].Destroy?)
  {
    hide Step, ThreadOk;
    EffectOnArray(s, s', t);
    EffectOnLock(s, s', t);
    EffectOnMade(s, s', t);
  }

  lemma EffectOnArray(s: Pool, s': Pool, t: Thread)
    requires t in s.pc && ThreadOk(s, t) && Step(s, s', t) && |s.m| == MAX_THREADS + 1
    ensures t in s'.pc && s'.pc == s.pc[t := s'.pc[t]] && s'.threads == s.threads && Grows(s, s')
    ensures s'.m == s.m || (s.pc[t].Publish? && s.pc[t].end < |s.m| && s'.m == s.m[s.pc[t].end := s.pc[t].a])
  {
  }

  lemma EffectOnLock(s: Pool, s': Pool, t: Thread)
    requires t in s.pc && ThreadOk(s, t) && Step(s, s', t)
    ensures s'.gone == s.gone || (s.pc[t].Destroy? && s'.gone == s.gone + {s.pc[t].a})
    ensures s'.lock == s.lock || (s.lock == 0 && s'.lock == t) || (s.lock == t && s'.lock == 0)
  {
    hide PcOk;
  }

  lemma EffectOnMade(s: Pool, s': Pool, t: Thread)
    requires t in s.pc && Step(s, s', t) && t in s'.pc
    ensures Made(s.pc[t]) != 0 && Made(s'.pc[t]) != Made(s.pc[t]) ==>
              Made(s'.pc[t]) == 0 && (s.pc[t].Publish? || s.pc[t].Destroy?)
  {
  }

  lemma EffectOnHolder(s: Pool, s': Pool, t: Thread, a: Arena)
    requires t in s.pc && t != 0 && ThreadOk(s, t) && Step(s, s', t) && |s.m| == MAX_THREADS + 1
    ensures HolderStep(s, s', t, a)
  {
  }

  /** The thread that moves. */
  lemma StepSelf(s: Pool, s': Pool, t: Thread, k: nat)
    requires t in s.pc && t != 0 && ThreadOk(s, t) && Step(s, s', t) && Prefix(s, k) && s.threads <= MAX_THREADS
    requires forall i {:trigger s.m[i]} :: 0 <= i < |s.m| && s.m[i] != 0 ==> s.m[i] in s.holder
    requires s.gone <= s.holder.Keys && 0 !in s.holder
    ensures t in s'.pc && ThreadOk(s', t)
  {
    hide Step, ThreadOk, Prefix, PcOk;
    PrefixFacts(s, k);
    EffectOnArray(s, s', t);
    NextPcOk(s, s', t, k);
    NextInPool(s, s', t);
    NextLocks(s, s', t);
    NextMade(s, s', t);
    OkFrom(s', t);
  }

  lemma NextPcOk(s: Pool, s': Pool, t: Thread, k: nat)
    requires t in s.pc && t in s'.pc && ThreadOk(s, t) && Step(s, s', t) && Prefix(s, k) && s.threads <= MAX_THREADS
    ensures PcOk(s', s'.pc[t])
  {
    hide Prefix;
    PrefixFacts(s, k);
    if s.pc[t].TryLast? {
      PrefixBelow(s, k, s.pc[t].last);
    }
  }

  lemma NextInPool(s: Pool, s': Pool, t: Thread)
    requires t in s.pc && t != 0 && t in s'.pc && ThreadOk(s, t) && Step(s, s', t)
    ensures InPool(s'.pc[t]) <==> s'.lock == t
  {
    hide PcOk, Made, Locks;
  }

  /** The arena a thread is about to lock is the one in the array. */
  lemma TriesEntry(s: Pool, t: Thread)
    requires t in s.pc && ThreadOk(s, t)
    ensures var pc := s.pc[t];
            && (pc.TryUp? ==> Entry(s, pc.n) == pc.a) && (pc.TryDown? ==> Entry(s, pc.n) == pc.a)
            && (pc.UnlockPool? ==> Entry(s, pc.end) in s.holder && s.holder[Entry(s, pc.end)] == t)
  {
  }

  lemma NextLocks(s: Pool, s': Pool, t: Thread)
    requires t in s.pc && t in s'.pc && ThreadOk(s, t) && Step(s, s', t)
    ensures var pc := s'.pc[t];
            Locks(pc) ==> Entry(s', Index(pc)) in s'.holder && s'.holder[Entry(s', Index(pc))] == t
  {
    hide ThreadOk, PcOk, Made, InPool, Step;
    TriesEntry(s, t);
    JustLocked(s, s', t);
  }

  /** The places from which a thread can come to hold an arena. */
  predicate Tries(pc: Pc) {
    pc.TryLast? || pc.TryUp? || pc.TryDown? || pc.LockNew? || pc.UnlockPool? || pc.Fallback?
  }

  lemma OnlyTries(s: Pool, s': Pool, t: Thread)
    requires t in s.pc && t in s'.pc && Step(s, s', t)
    ensures Locks(s'.pc[t]) ==> Tries(s.pc[t]) && s'.m == s.m
  {
    hide Entry, Free;
  }

  lemma JustLocked(s: Pool, s': Pool, t: Thread)
    requires t in s.pc && t in s'.pc && Step(s, s', t)
    requires var pc := s.pc[t];
             && (pc.TryUp? ==> Entry(s, pc.n) == pc.a) && (pc.TryDown? ==> Entry(s, pc.n) == pc.a)
             && (pc.UnlockPool? ==> Entry(s, pc.end) in s.holder && s.holder[Entry(s, pc.end)] == t)
    ensures var pc := s'.pc[t];
            Locks(pc) ==> s'.m == s.m && Entry(s, Index(pc)) in s'.holder && s'.holder[Entry(s, Index(pc))] == t
  {
    hide Entry, Step;
    OnlyTries(s, s', t);
    if Tries(s.pc[t]) {
      TriedStep(s, s', t);
    }
  }

  lemma TriedStep(s: Pool, s': Pool, t: Thread)
    requires t in s.pc && t in s'.pc && Step(s, s', t) && Tries(s.pc[t])
    requires var pc := s.pc[t];
             && (pc.TryUp? ==> Entry(s, pc.n) == pc.a) && (pc.TryDown? ==> Entry(s, pc.n) == pc.a)
             && (pc.UnlockPool? ==> Entry(s, pc.end) in s.holder && s.holder[Entry(s, pc.end)] == t)
    ensures var pc := s'.pc[t];
            Locks(pc) ==> Entry(s, Index(pc)) in s'.holder && s'.holder[Entry(s, Index(pc))] == t
  {
    hide Entry;
  }

  lemma NextMade(s: Pool, s': Pool, t: Thread)
    requires t in s.pc && t in s'.pc && ThreadOk(s, t) && Step(s, s', t)
    requires forall i {:trigger s.m[i]} :: 0 <= i < |s.m| && s.m[i] != 0 ==> s.m[i] in s.holder
    requires s.gone <= s.holder.Keys && 0 !in s.holder
    ensures var pc := s'.pc[t];
            && (Made(pc) != 0 ==> Made(pc) in s'.holder && Made(pc) !in s'.m && Made(pc) !in s'.gone
                                  && s'.holder[Made(pc)] == 0)
            && (pc.LockPool? || pc.Probe? || pc.Publish? || pc.GiveUp? || pc.Destroy? ==> pc.a != 0)
  {
    hide PcOk, Entry;
    if s.pc[t].Create? {
      JustMade(s, s', t);
    }
  }

  /** A new arena is not one of those in the pool. */
  lemma JustMade(s: Pool, s': Pool, t: Thread)
    requires t in s.pc && t in s'.pc && Step(s, s', t) && s.pc[t].Create?
    requires forall i {:trigger s.m[i]} :: 0 <= i < |s.m| && s.m[i] != 0 ==> s.m[i] in s.holder
    requires s.gone <= s.holder.Keys
    ensures var pc := s'.pc[t];
            && (pc.LockPool? || pc.Fallback?)
            && (pc.LockPool? ==> pc.a != 0 && pc.a in s'.holder && s'.holder[pc.a] == 0 && pc.a !in s'.gone
                                 && pc.a !in s'.m)
  {
    hide Entry;
  }

  /** An entry in use has none but entries in use before it. */
  lemma PrefixBelow(s: Pool, k: nat, n: nat)
    requires Prefix(s, k)
    ensures Entry(s, n) != 0 ==> n < |s.m| && Below(s, n + 1)
  {
  }

  lemma PrefixFacts(s: Pool, k: nat)
    requires Prefix(s, k)
    ensures |s.m| == MAX_THREADS + 1 && k <= MAX_THREADS && s.m[MAX_THREADS] == 0 && 1 <= k <= s.threads
  {
  }

  /** What a thread relies on does not depend on what the others do. */
  lemma PcKeeps(s: Pool, s': Pool, pc: Pc)
    requires PcOk(s, pc) && Grows(s, s') && s'.threads == s.threads
    requires pc.Publish? ==> Entry(s', pc.end) == 0
    ensures PcOk(s', pc)
  {
  }

  /** A thread that does not move. */
  lemma StepOther(s: Pool, s': Pool, t: Thread, u: Thread)
    requires t in s.pc && u in s.pc && t != u && t != 0 && u != 0 && |s.m| == MAX_THREADS + 1
    requires ThreadOk(s, t) && ThreadOk(s, u) && Step(s, s', t)
    requires Made(s.pc[t]) != 0 ==> Made(s.pc[t]) != Made(s.pc[u])
    ensures u in s'.pc && s'.pc[u] == s.pc[u] && ThreadOk(s', u)
  {
    hide Step, PcOk, ThreadOk;
    Effect(s, s', t);
    OkFacts(s, t);
    OkFacts(s, u);
    var pc := s.pc[u];
    PcKeeps(s, s', pc);
    if Locks(pc) {
      EffectOnHolder(s, s', t, Entry(s, Index(pc)));
    }
    if Made(pc) != 0 {
      EffectOnHolder(s, s', t, Made(pc));
    }
    OkFrom(s', u);
  }

  lemma OkFacts(s: Pool, t: Thread)
    requires t in s.pc && ThreadOk(s, t)
    ensures var pc := s.pc[t];
            && PcOk(s, pc) && (InPool(pc) <==> s.lock == t)
            && (Locks(pc) ==> Entry(s, Index(pc)) in s.holder && s.holder[Entry(s, Index(pc))] == t
                              && Entry(s, Index(pc)) != 0)
            && (Made(pc) != 0 ==> Made(pc) in s.holder && Made(pc) !in s.m && Made(pc) !in s.gone
                                  && s.holder[Made(pc)] == 0)
            && (pc.LockPool? || pc.Probe? || pc.Publish? || pc.GiveUp? || pc.Destroy? ==> pc.a != 0)
            && (pc.Publish? ==> Entry(s, pc.end) == 0)
  {
  }

  lemma OkFrom(s: Pool, t: Thread)
    requires t in s.pc
    requires var pc := s.pc[t];
             && PcOk(s, pc) && (InPool(pc) <==> s.lock == t)
             && (Locks(pc) ==> Entry(s, Index(pc)) in s.holder && s.holder[Entry(s, Index(pc))] == t)
             && (Made(pc) != 0 ==> Made(pc) in s.holder && Made(pc) !in s.m && Made(pc) !in s.gone
                                   && s.holder[Made(pc)] == 0)
             && (pc.LockPool? || pc.Probe? || pc.Publish? || pc.GiveUp? || pc.Destroy? ==> pc.a != 0)
    ensures ThreadOk(s, t)
  {
  }

  /** The array stays a prefix of different arenas. */
  lemma PrefixKeeps(s: Pool, s': Pool, t: Thread, k: nat)
    requires t in s.pc && ThreadOk(s, t) && Step(s, s', t) && Prefix(s, k) && s.threads <= MAX_THREADS
    ensures Prefix(s', if s'.m == s.m then k else k + 1)
  {
    hide Step, Prefix, ThreadOk;
    PrefixFacts(s, k);
    Effect(s, s', t);
    OkFacts(s, t);
    if s'.m == s.m {
      SamePrefix(s, s', k);
    } else {
      Published(s, s', k, s.pc[t].last, s.pc[t].end, s.pc[t].a);
    }
  }

  lemma SamePrefix(s: Pool, s': Pool, k: nat)
    requires Prefix(s, k) && s'.m == s.m && s'.threads == s.threads
    ensures Prefix(s', k)
  {
  }

  lemma Published(s: Pool, s': Pool, k: nat, last: nat, end: nat, a: Arena)
    requires Prefix(s, k) && PcOk(s, Publish(last, end, a)) && a != 0 && a !in s.m && s.threads <= MAX_THREADS
    requires end < |s.m| && s'.m == s.m[end := a] && s'.threads == s.threads
    ensures Prefix(s', k + 1)
  {
    assert s.m[end] == 0 && s.m[k] == 0;
    assert end == k;
  }

  lemma ArenaKeeps(s: Pool, s': Pool, t: Thread, a: Arena)
    requires t in s.pc && t != 0 && ThreadOk(s, t) && t in s'.pc && ThreadOk(s', t) && Step(s, s', t)
    requires |s.m| == MAX_THREADS + 1 && a in s'.holder && (a in s.holder ==> ArenaOk(s, a))
    requires 0 !in s.pc && s.gone <= s.holder.Keys
    requires forall i {:trigger s.m[i]} :: 0 <= i < |s.m| && s.m[i] != 0 ==> s.m[i] in s.holder
    requires a in s.holder && s.holder[a] == t ==> Locks(s.pc[t]) && Entry(s, Index(s.pc[t])) == a
    ensures ArenaOk(s', a)
  {
    hide Step, ThreadOk, PcOk;
    Effect(s, s', t);
    EffectOnHolder(s, s', t, a);
    OkFacts(s, t);
    OkFacts(s', t);
    if a !in s.holder {
      assert Made(s'.pc[t]) == a;
    } else {
      HolderThere(s, s', t, a);
      HandsKept(s, s', t, a);
    }
  }

  /** The holder of an arena is at a place in the code where it holds it. */
  lemma HolderThere(s: Pool, s': Pool, t: Thread, a: Arena)
    requires t in s.pc && t != 0 && ThreadOk(s, t) && t in s'.pc && Step(s, s', t) && |s.m| == MAX_THREADS + 1
    requires a in s.holder && a in s'.holder && ArenaOk(s, a)
    ensures s'.holder[a] != 0 ==>
              && s'.holder[a] in s'.pc && Locks(s'.pc[s'.holder[a]]) && Entry(s', Index(s'.pc[s'.holder[a]])) == a
  {
    hide Step, ThreadOk, PcOk;
    Effect(s, s', t);
    EffectOnHolder(s, s', t, a);
    OkFacts(s, t);
    if s'.holder[a] == t {
      MoverHolds(s, s', t, a);
    }
    var u := s'.holder[a];
    if u != t && u != 0 {
      assert s.holder[a] == u && s'.pc[u] == s.pc[u];
      EntrySame(s, s', Index(s.pc[u]));
    }
  }

  lemma EntrySame(s: Pool, s': Pool, i: nat)
    requires Grows(s, s') && Entry(s, i) != 0
    ensures Entry(s', i) == Entry(s, i)
  {
  }

  /** If the moving thread holds the arena afterwards, it is at a place where it does. */
  lemma MoverHolds(s: Pool, s': Pool, t: Thread, a: Arena)
    requires t in s.pc && t != 0 && ThreadOk(s, t) && t in s'.pc && Step(s, s', t) && |s.m| == MAX_THREADS + 1
    requires a in s.holder && a in s'.holder && s'.holder[a] == t
    requires s.holder[a] == t ==> Locks(s.pc[t]) && Entry(s, Index(s.pc[t])) == a
    ensures Locks(s'.pc[t]) && Entry(s', Index(s'.pc[t])) == a
  {
  }

  /** An arena is published, destroyed or in the hands of the thread that made it. */
  lemma HandsKept(s: Pool, s': Pool, t: Thread, a: Arena)
    requires t in s.pc && ThreadOk(s, t) && t in s'.pc && Step(s, s', t) && |s.m| == MAX_THREADS + 1
    requires a in s.holder && ArenaOk(s, a)
    ensures a in s'.m || a in s'.gone || exists u :: u in s'.pc && Made(s'.pc[u]) == a
    ensures !(a in s'.m && a in s'.gone)
  {
    hide Step, ThreadOk, PcOk;
    Effect(s, s', t);
    OkFacts(s, t);
    if a in s.m {
      var i :| 0 <= i < |s.m| && s.m[i] == a;
      assert s'.m[i] == a;
    } else if a !in s.gone {
      var u :| u in s.pc && Made(s.pc[u]) == a;
      if u != t {
        assert s'.pc[u] == s.pc[u];
      } else if s.pc[t].Publish? && s'.m != s.m {
        assert s'.m[s.pc[t].end] == a;
      }
      PublishedOrGone(s, s', t);
    }
  }

  lemma PublishedOrGone(s: Pool, s': Pool, t: Thread)
    requires t in s.pc && Step(s, s', t) && t in s'.pc
    ensures Made(s.pc[t]) != 0 && Made(s'.pc[t]) != Made(s.pc[t]) ==> Made(s.pc[t]) in s'.m || Made(s.pc[t]) in s'.gone
  {
    if s.pc[t].Publish? {
      assert s'.m[s.pc[t].end] == s.pc[t].a;
    }
  }

  lemma EntriesHeld(s: Pool, s': Pool, t: Thread, i: nat)
    requires t in s.pc && ThreadOk(s, t) && Step(s, s', t) && |s.m| == MAX_THREADS + 1 && i < |s.m| && t != 0
    requires forall j {:trigger s.m[j]} :: 0 <= j < |s.m| && s.m[j] != 0 ==> s.m[j] in s.holder
    ensures i < |s'.m| && (s'.m[i] != 0 ==> s'.m[i] in s'.holder)
  {
    hide Step, ThreadOk, PcOk;
    Effect(s, s', t);
    OkFacts(s, t);
    EffectOnHolder(s, s', t, s'.m[i]);
    assert s.m[i] == 0 || s.m[i] in s.holder;
  }

  lemma GoneHeld(s: Pool, s': Pool, t: Thread)
    requires t in s.pc && ThreadOk(s, t) && Step(s, s', t) && |s.m| == MAX_THREADS + 1 && t != 0
             && s.gone <= s.holder.Keys
    ensures s'.gone <= s'.holder.Keys
  {
    hide Step, ThreadOk, PcOk;
    Effect(s, s', t);
    OkFacts(s, t);
    forall a | a in s'.gone
      ensures a in s'.holder
    {
      EffectOnHolder(s, s', t, a);
    }
  }

  lemma MadeApart(s: Pool, s': Pool, t: Thread, u: Thread, v: Thread)
    requires t in s.pc && t != 0 && ThreadOk(s, t) && Step(s, s', t) && |s.m| == MAX_THREADS + 1
    requires u in s.pc && v in s.pc && ThreadOk(s, u) && ThreadOk(s, v) && u in s'.pc && v in s'.pc
    requires Made(s.pc[u]) != 0 && Made(s.pc[u]) == Made(s.pc[v]) ==> u == v
    requires Made(s'.pc[u]) != 0 && Made(s'.pc[u]) == Made(s'.pc[v])
    ensures u == v
  {
    hide ThreadOk, PcOk;
    OkFacts(s, u);
    OkFacts(s, v);
    Effect(s, s', t);
    NewOrSame(s, s', t);
  }

  lemma NewOrSame(s: Pool, s': Pool, t: Thread)
    requires t in s.pc && Step(s, s', t) && t in s'.pc
    ensures Made(s'.pc[t]) != 0 ==> Made(s'.pc[t]) == Made(s.pc[t]) || Made(s'.pc[t]) !in s.holder
  {
  }

  lemma NextInv(s: Pool, s': Pool)
    requires Inv(s) && Next(s, s')
    ensures Inv(s')
  {
    hide Step, ThreadOk, PcOk, Prefix, ArenaOk;
    var t :| t in s.pc && Step(s, s', t);
    var k: nat :| Prefix(s, k);
    PrefixFacts(s, k);
    assert ThreadOk(s, t);
    Effect(s, s', t);
    NoNull(s);
    StepSelf(s, s', t, k);
    PrefixKeeps(s, s', t, k);
    GoneHeld(s, s', t);
    forall i | 0 <= i < |s'.m| && s'.m[i] != 0
      ensures s'.m[i] in s'.holder
    {
      EntriesHeld(s, s', t, i);
    }
    forall u | u in s'.pc
      ensures ThreadOk(s', u)
    {
      if u != t {
        assert ThreadOk(s, u);
        assert Made(s.pc[t]) != 0 ==> Made(s.pc[t]) != Made(s.pc[u]);
        StepOther(s, s', t, u);
      }
    }
    forall a | a in s'.holder
      ensures ArenaOk(s', a)
    {
      assert a in s.holder ==> ArenaOk(s, a);
      HolderIs(s, a, t);
      ArenaKeeps(s, s', t, a);
    }
    forall u, v | u in s'.pc && v in s'.pc && Made(s'.pc[u]) != 0 && Made(s'.pc[u]) == Made(s'.pc[v])
      ensures u == v
    {
      assert ThreadOk(s, u) && ThreadOk(s, v);
      MadeApart(s, s', t, u, v);
    }
  }

  lemma NoNull(s: Pool)
    requires forall a {:trigger ArenaOk(s, a)} :: a in s.holder ==> ArenaOk(s, a)
    ensures 0 !in s.holder
  {
    assert 0 in s.holder ==> ArenaOk(s, 0);
  }

  lemma HolderIs(s: Pool, a: Arena, t: Thread)
    requires a in s.holder ==> ArenaOk(s, a)
    requires t in s.pc && t != 0
    ensures a in s.holder && s.holder[a] == t ==> Locks(s.pc[t]) && Entry(s, Index(s.pc[t])) == a
  {
  }

  // ----------------------------------------------------------------------- runs

  ghost predicate Run(states: seq<Pool>) {
    && states != [] && Init(states[0])
    && forall i {:trigger states[i]} :: 0 <= i < |states| - 1 ==> Next(states[i], states[i + 1])
  }

  lemma {:induction false} RunInv(states: seq<Pool>, i: nat)
    requires Run(states) && i < |states|
    ensures Inv(states[i])
    decreases i
  {
    hide Inv, Init, Next;
    if i == 0 {
      InitInv(states[0]);
    } else {
      RunInv(states, i - 1);
      assert Next(states[i - 1], states[i]);
      NextInv(states[i - 1], states[i]);
    }
  }

  /** Two threads have been given the same arena. */
  ghost predicate SameArena(s: Pool, t: Thread, u: Thread)
    requires t in s.pc && u in s.pc && s.pc[t].Holding? && s.pc[u].Holding?
  {
    Entry(s, s.pc[t].n) == Entry(s, s.pc[u].n)
  }

  /**
   * In every run: the array is a gap-free prefix of at most `threads` different arenas; a thread that has been given an
   * arena holds its lock, and no two threads are given the same one; every arena ever made is in the array, destroyed,
   * or still in the hands of the one thread that made it.
   */
  lemma PoolIsSound(states: seq<Pool>, i: nat)
    requires Run(states) && i < |states|
    ensures var s := states[i];
            && (exists k: nat :: Prefix(s, k))
            && (forall t :: t in s.pc && s.pc[t].Holding? ==>
                  Entry(s, s.pc[t].n) in s.holder && s.holder[Entry(s, s.pc[t].n)] == t)
            && (forall t, u ::
                  t in s.pc && u in s.pc && s.pc[t].Holding? && s.pc[u].Holding? && SameArena(s, t, u) ==> t == u)
            && (forall a :: a in s.holder && a !in s.m && a !in s.gone ==>
                  exists t :: t in s.pc && Made(s.pc[t]) == a && forall u :: u in s.pc && Made(s.pc[u]) == a ==> u == t)
  {
    hide PcOk, Prefix, Run;
    RunInv(states, i);
    var s := states[i];
    forall t | t in s.pc && s.pc[t].Holding?
      ensures Entry(s, s.pc[t].n) in s.holder && s.holder[Entry(s, s.pc[t].n)] == t
    {
      assert ThreadOk(s, t);
    }
    forall a | a in s.holder && a !in s.m && a !in s.gone
      ensures exists t :: t in s.pc && Made(s.pc[t]) == a && forall u :: u in s.pc && Made(s.pc[u]) == a ==> u == t
    {
      assert ArenaOk(s, a);
      var t :| t in s.pc && Made(s.pc[t]) == a;
    }
  }

  /** Reading the array never goes beyond its end. */
  lemma ReadsInside(states: seq<Pool>, i: nat, t: Thread)
    requires Run(states) && i < |states| && t in states[i].pc
    ensures var s, pc := states[i], states[i].pc[t];
            && (pc.ScanUp? ==> pc.n < |s.m|) && (pc.Probe? ==> pc.end < |s.m|) && (pc.Publish? ==> pc.end < |s.m|)
  {
    hide Prefix, Run;
    RunInv(states, i);
    var s := states[i];
    var k: nat :| Prefix(s, k);
    PrefixFacts(s, k);
    assert ThreadOk(s, t);
    assert s.m[MAX_THREADS] == 0;
  }
}
