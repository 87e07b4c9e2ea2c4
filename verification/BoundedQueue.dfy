/** The bounded queue (src/Common/ConcurrentBoundedQueue.h): the shared data with its critical
    sections, as an object and as functions on its value. */
module BoundedQueue {

  /** What the mutex protects. */
  datatype Shared<T> = Shared(queue: seq<T>, finished: bool, maxFill: nat)

  /** The outcome of a critical section: go on, give up, or wait on the condition variable. */
  datatype Verdict = Proceed | Refuse | Wait

  /** `emplaceImpl` under the lock; expired means that the wait timed out. */
  function PushVerdict<T>(s: Shared<T>, expired: bool): Verdict {
    if s.finished then Refuse
    else if |s.queue| < s.maxFill then Proceed
    else if expired then Refuse
    else Wait
  }

  function Emplaced<T>(s: Shared<T>, x: T): Shared<T> {
    s.(queue := s.queue + [x])
  }

  /** `popImpl` under the lock. */
  function PopVerdict<T>(s: Shared<T>, expired: bool): Verdict {
    if |s.queue| > 0 then Proceed
    else if s.finished || expired then Refuse
    else Wait
  }

  function Popped<T>(s: Shared<T>): Shared<T>
    requires |s.queue| > 0
  {
    s.(queue := s.queue[1..])
  }

  class Guarded<T> {
    var queue: seq<T>
    var isFinished: bool
    const maxFill: nat

    ghost function Abs(): Shared<T>
      reads this
    {
      Shared(queue, isFinished, maxFill)
    }

    constructor (maxFill: nat)
      ensures Abs() == Shared([], false, maxFill)
    {
      queue, isFinished, this.maxFill := [], false, maxFill;
    }

    method Emplace(x: T, expired: bool) returns (v: Verdict)
      modifies this
      ensures v == PushVerdict(old(Abs()), expired)
      ensures Abs() == if v == Proceed then Emplaced(old(Abs()), x) else old(Abs())
      ensures v == Proceed <==> !old(isFinished) && |old(queue)| < maxFill
      ensures v == Wait <==> !old(isFinished) && |old(queue)| >= maxFill && !expired
      ensures queue == old(queue) + (if v == Proceed then [x] else []) && isFinished == old(isFinished)
    {
      if !(isFinished || |queue| < maxFill) {
        return if expired then Refuse else Wait;
      }
      if isFinished {
        return Refuse;
      }
      queue := queue + [x];
      return Proceed;
    }

    method Pop(expired: bool) returns (v: Verdict, x: seq<T>)
      modifies this
      ensures v == PopVerdict(old(Abs()), expired)
      ensures if v == Proceed then Abs() == Popped(old(Abs())) && x == [old(queue)[0]]
              else Abs() == old(Abs()) && x == []
      ensures v == Proceed <==> old(queue) != []
      ensures v == Wait <==> old(queue) == [] && !old(isFinished) && !expired
      ensures old(queue) == x + queue && |x| == (if v == Proceed then 1 else 0) && isFinished == old(isFinished)
    {
      if !(isFinished || |queue| > 0) {
        return if expired then Refuse else Wait, [];
      }
      if isFinished && |queue| == 0 {
        return Refuse, [];
      }
      x := [queue[0]];
      queue := queue[1..];
      return Proceed, x;
    }

    method Finish() returns (was: bool)
      modifies this
      ensures was == old(isFinished) && Abs() == old(Abs()).(finished := true)
    {
      if isFinished {
        return true;
      }
      was := isFinished;
      isFinished := true;
    }

    method Clear() returns (done: bool)
      modifies this
      ensures done == !old(isFinished)
      ensures Abs() == if done then old(Abs()).(queue := []) else old(Abs())
    {
      if isFinished {
        return false;
      }
      queue := [];
      return true;
    }

    method ClearAndFinish()
      modifies this
      ensures Abs() == old(Abs()).(queue := [], finished := true)
    {
      queue := [];
      isFinished := true;
    }
  }
}

/** Every interleaving of threads on the queue. A step locks the mutex, runs a critical section
    (which ends by unlocking or by going to sleep), sends a notification, or wakes a sleeper. */
module QueueProtocol {
  import opened BoundedQueue

  type Tid = nat

  /** Why a thread wants the mutex: it has just been called, it was woken, or its wait timed out. */
  datatype Reason = Called | Woken | TimedOut

  datatype Pc<T> =
    | Idle
    | PushWant(x: T, timed: bool, why: Reason)
    | PushLocked(x: T, timed: bool, why: Reason)
    | PushAsleep(x: T, timed: bool)
    | PopWant(timed: bool, why: Reason)
    | PopLocked(timed: bool, why: Reason)
    | PopAsleep(timed: bool)
    | ControlWant(op: Control)
    | ControlLocked(op: Control)
    | NotifyPop        // has pushed, pop_condition.notify_one() to come
    | NotifyPush       // has popped, push_condition.notify_one() to come
    | NotifyAllPop     // has finished, both notify_all() to come
    | NotifyAllPush    // push_condition.notify_all() to come

  datatype Control = Finish | Clear | ClearAndFinish

  /** What became of an accepted item that has left the queue. */
  datatype Fate = WasPopped | WasDropped

  datatype State<T> = State(
    shared: Shared<T>,
    holder: set<Tid>,        // who holds the mutex
    pcs: map<Tid, Pc<T>>,
    accepted: seq<T>,        // history: items accepted, in order
    fates: seq<Fate>,        // history: what became of the first of them
    popped: seq<T>)          // history: items handed out, in order

  ghost predicate Init<T>(s: State<T>) {
    && s.shared.queue == [] && !s.shared.finished
    && s.holder == {} && s.accepted == [] && s.fates == [] && s.popped == []
    && forall t :: t in s.pcs ==> s.pcs[t] == Idle
  }

  // ----- Steps

  ghost predicate Entry<T>(pc: Pc<T>) {
    || (pc.PushWant? && pc.why == Called)
    || (pc.PopWant? && pc.why == Called)
    || pc.ControlWant?
  }

  ghost predicate Call<T>(s: State<T>, t: Tid, s': State<T>)
    requires t in s.pcs
  {
    && s.pcs[t].Idle? && t in s'.pcs && Entry(s'.pcs[t])
    && s' == s.(pcs := s.pcs[t := s'.pcs[t]])
  }

  function Locked<T>(pc: Pc<T>): Pc<T> {
    match pc
    case PushWant(x, timed, why) => PushLocked(x, timed, why)
    case PopWant(timed, why) => PopLocked(timed, why)
    case ControlWant(op) => ControlLocked(op)
    case _ => pc
  }

  predicate Wants<T>(pc: Pc<T>) {
    pc.PushWant? || pc.PopWant? || pc.ControlWant?
  }

  predicate InSection<T>(pc: Pc<T>) {
    pc.PushLocked? || pc.PopLocked? || pc.ControlLocked?
  }

  ghost predicate Acquire<T>(s: State<T>, t: Tid, s': State<T>)
    requires t in s.pcs
  {
    && Wants(s.pcs[t]) && s.holder == {}
    && s' == s.(holder := {t}, pcs := s.pcs[t := Locked(s.pcs[t])])
  }

  function Unlock<T>(s: State<T>, t: Tid, pc: Pc<T>): State<T> {
    s.(holder := s.holder - {t}, pcs := s.pcs[t := pc])
  }

  /** The push section, up to the unlock. */
  function PushSection<T>(s: State<T>, t: Tid, x: T, timed: bool, why: Reason): State<T> {
    match PushVerdict(s.shared, why == TimedOut)
    case Proceed =>
      Unlock(s.(shared := Emplaced(s.shared, x), accepted := s.accepted + [x]), t, NotifyPop)
    case Refuse => Unlock(s, t, Idle)
    case Wait => Unlock(s, t, PushAsleep(x, timed))
  }

  function PopSection<T>(s: State<T>, t: Tid, timed: bool, why: Reason): State<T> {
    match PopVerdict(s.shared, why == TimedOut)
    case Proceed =>
      Unlock(s.(shared := Popped(s.shared), fates := s.fates + [WasPopped],
                popped := s.popped + [s.shared.queue[0]]), t, NotifyPush)
    case Refuse => Unlock(s, t, Idle)
    case Wait => Unlock(s, t, PopAsleep(timed))
  }

  function Dropped(n: nat): seq<Fate> {
    seq(n, _ => WasDropped)
  }

  function ControlSection<T>(s: State<T>, t: Tid, op: Control): State<T> {
    match op
    case Finish =>
      if s.shared.finished then Unlock(s, t, Idle)
      else Unlock(s.(shared := s.shared.(finished := true)), t, NotifyAllPop)
    case Clear =>
      if s.shared.finished then Unlock(s, t, Idle)
      else Unlock(s.(shared := s.shared.(queue := []), fates := s.fates + Dropped(|s.shared.queue|)),
                  t, NotifyAllPush)
    case ClearAndFinish =>
      Unlock(s.(shared := s.shared.(queue := [], finished := true),
                fates := s.fates + Dropped(|s.shared.queue|)),
             t, NotifyAllPop)
  }

  ghost predicate Section<T>(s: State<T>, t: Tid, s': State<T>)
    requires t in s.pcs
  {
    match s.pcs[t]
    case PushLocked(x, timed, why) => s' == PushSection(s, t, x, timed, why)
    case PopLocked(timed, why) => s' == PopSection(s, t, timed, why)
    case ControlLocked(op) => s' == ControlSection(s, t, op)
    case _ => false
  }

  /** A sleeper that leaves its wait set and wants the mutex again. */
  function Roused<T>(pc: Pc<T>, why: Reason): Pc<T> {
    match pc
    case PushAsleep(x, timed) => PushWant(x, timed, why)
    case PopAsleep(timed) => PopWant(timed, why)
    case _ => pc
  }

  /** notify_one: wakes some sleeper u of that side, if there is one. */
  ghost predicate NotifyOne<T>(s: State<T>, t: Tid, side: Kind, s': State<T>)
    requires t in s.pcs
  {
    var pcs := s.pcs[t := Idle];
    || ((forall u :: u in pcs ==> KindOf(pcs[u]) != side) && s' == s.(pcs := pcs))
    || exists u :: u in pcs && KindOf(pcs[u]) == side && s' == s.(pcs := pcs[u := Roused(pcs[u], Woken)])
  }

  function WakeAll<T>(pcs: map<Tid, Pc<T>>, side: Kind): map<Tid, Pc<T>> {
    map t | t in pcs :: if KindOf(pcs[t]) == side then Roused(pcs[t], Woken) else pcs[t]
  }

  ghost predicate Notify<T>(s: State<T>, t: Tid, s': State<T>)
    requires t in s.pcs
  {
    match s.pcs[t]
    case NotifyPop => NotifyOne(s, t, PopSleeper, s')
    case NotifyPush => NotifyOne(s, t, PushSleeper, s')
    case NotifyAllPop => s' == s.(pcs := WakeAll(s.pcs, PopSleeper)[t := NotifyAllPush])
    case NotifyAllPush => s' == s.(pcs := WakeAll(s.pcs, PushSleeper)[t := Idle])
    case _ => false
  }

  /** A spurious wake-up, or the timeout of a timed wait. */
  ghost predicate WakeUp<T>(s: State<T>, t: Tid, s': State<T>)
    requires t in s.pcs
  {
    var pc := s.pcs[t];
    && (pc.PushAsleep? || pc.PopAsleep?)
    && (s' == s.(pcs := s.pcs[t := Roused(pc, Woken)])
        || (pc.timed && s' == s.(pcs := s.pcs[t := Roused(pc, TimedOut)])))
  }

  ghost predicate StepBy<T>(s: State<T>, t: Tid, s': State<T>) {
    t in s.pcs && (Call(s, t, s') || Acquire(s, t, s') || Section(s, t, s') || Notify(s, t, s') || WakeUp(s, t, s'))
  }

  ghost predicate Next<T>(s: State<T>, s': State<T>) {
    exists t: Tid :: StepBy(s, t, s')
  }

  // ----- Counting threads by what they are about to do

  datatype Kind = Other | PopSleeper | PopWaker | PopNotifier | PushSleeper | PushWaker | PushNotifier
                | AllPopNotifier | AllPushNotifier

  /** A waker has left its wait set and has not run its section since. */
  function KindOf<T>(pc: Pc<T>): Kind {
    match pc
    case PopAsleep(_) => PopSleeper
    case PopWant(_, why) => if why == Called then Other else PopWaker
    case PopLocked(_, why) => if why == Called then Other else PopWaker
    case NotifyPop => PopNotifier
    case PushAsleep(_, _) => PushSleeper
    case PushWant(_, _, why) => if why == Called then Other else PushWaker
    case PushLocked(_, _, why) => if why == Called then Other else PushWaker
    case NotifyPush => PushNotifier
    case NotifyAllPop => AllPopNotifier
    case NotifyAllPush => AllPushNotifier
    case _ => Other
  }

  ghost function Threads<T>(pcs: map<Tid, Pc<T>>, k: Kind): set<Tid> {
    set t | t in pcs && KindOf(pcs[t]) == k
  }

  ghost function Count<T>(s: State<T>, k: Kind): nat {
    |Threads(s.pcs, k)|
  }

  ghost function Is<T>(pc: Pc<T>, k: Kind): nat {
    if KindOf(pc) == k then 1 else 0
  }

  lemma CountUpdate<T>(pcs: map<Tid, Pc<T>>, t: Tid, pc: Pc<T>, k: Kind)
    requires t in pcs
    ensures |Threads(pcs[t := pc], k)| == |Threads(pcs, k)| - Is(pcs[t], k) + Is(pc, k)
  {
    hide KindOf;
    var a, b := Threads(pcs, k), Threads(pcs[t := pc], k);
    forall u ensures u in a - {t} <==> u in b - {t} {
    }
    assert a - {t} == b - {t};
    Without(a, t);
    Without(b, t);
  }

  lemma Without(a: set<Tid>, t: Tid)
    ensures |a| == |a - {t}| + (if t in a then 1 else 0)
  {
    if t in a {
      assert a == (a - {t}) + {t};
    } else {
      assert a == a - {t};
    }
  }

  /** All counts at once, when one thread moves. */
  lemma Moved<T>(s: State<T>, s': State<T>, t: Tid, pc: Pc<T>)
    requires t in s.pcs && s'.pcs == s.pcs[t := pc]
    ensures forall k: Kind :: Count(s', k) == Count(s, k) - Is(s.pcs[t], k) + Is(pc, k)
  {
    forall k: Kind ensures Count(s', k) == Count(s, k) - Is(s.pcs[t], k) + Is(pc, k) {
      CountUpdate(s.pcs, t, pc, k);
    }
  }

  // ----- What every reachable state satisfies

  ghost predicate MutexHeld<T>(s: State<T>) {
    && (forall t :: t in s.holder ==> t in s.pcs && InSection(s.pcs[t]))
    && (forall t :: t in s.pcs && InSection(s.pcs[t]) ==> s.holder == {t})
  }

  /** The items with a given fate, out of those that have left the queue, in order. */
  function Having<T>(items: seq<T>, fates: seq<Fate>, f: Fate): seq<T>
    requires |items| == |fates|
  {
    if |items| == 0 then []
    else Having(items[..|items| - 1], fates[..|fates| - 1], f)
         + (if fates[|fates| - 1] == f then [items[|items| - 1]] else [])
  }

  /** Items leave in the order they were accepted, each popped or dropped, and the queue holds
      the rest: nothing is lost, duplicated or reordered. */
  ghost predicate Accounted<T>(s: State<T>) {
    && |s.fates| <= |s.accepted|
    && s.shared.queue == s.accepted[|s.fates|..]
    && s.popped == Having(s.accepted[..|s.fates|], s.fates, WasPopped)
    && |s.shared.queue| <= s.shared.maxFill
  }

  /** No popper sleeps beside an item that nobody is on the way to take. */
  ghost predicate PopWakeups<T>(s: State<T>) {
    Count(s, PopSleeper) > 0 ==>
      if s.shared.finished then Count(s, AllPopNotifier) > 0
      else |s.shared.queue| <= Count(s, PopWaker) + Count(s, PopNotifier)
  }

  /** No pusher sleeps beside a free slot that nobody is on the way to fill. */
  ghost predicate PushWakeups<T>(s: State<T>) {
    Count(s, PushSleeper) > 0 ==>
      if s.shared.finished then Count(s, AllPopNotifier) + Count(s, AllPushNotifier) > 0
      else || Count(s, AllPushNotifier) > 0
           || s.shared.maxFill - |s.shared.queue| <= Count(s, PushWaker) + Count(s, PushNotifier)
  }

  ghost predicate Inv<T>(s: State<T>) {
    MutexHeld(s) && Accounted(s) && PopWakeups(s) && PushWakeups(s)
  }

  lemma InitInv<T>(s: State<T>)
    requires Init(s)
    ensures Inv(s)
  {
    assert Threads(s.pcs, PopSleeper) == {} && Threads(s.pcs, PushSleeper) == {};
  }

  /** Steps of one thread that leave the data alone and put nobody to sleep. */
  lemma QuietStep<T>(s: State<T>, s': State<T>, t: Tid, pc: Pc<T>)
    requires Inv(s) && t in s.pcs && s'.pcs == s.pcs[t := pc] && s'.shared == s.shared
    requires forall k: Kind :: k !in {Other, PopWaker, PushWaker} ==> Is(pc, k) == Is(s.pcs[t], k) || (k in {PopSleeper, PushSleeper} && Is(pc, k) == 0)
    requires Is(pc, PopWaker) >= Is(s.pcs[t], PopWaker) && Is(pc, PushWaker) >= Is(s.pcs[t], PushWaker)
    ensures PopWakeups(s') && PushWakeups(s')
  {
    hide Count;
    Moved(s, s', t, pc);
  }

  lemma CallKeeps<T>(s: State<T>, t: Tid, s': State<T>)
    requires Inv(s) && t in s.pcs && Call(s, t, s')
    ensures Inv(s')
  {
    hide Count, Having;
    QuietStep(s, s', t, s'.pcs[t]);
  }

  lemma AcquireKeeps<T>(s: State<T>, t: Tid, s': State<T>)
    requires Inv(s) && t in s.pcs && Acquire(s, t, s')
    ensures Inv(s')
  {
    hide Count, Having;
    QuietStep(s, s', t, Locked(s.pcs[t]));
  }

  lemma WakeUpKeeps<T>(s: State<T>, t: Tid, s': State<T>)
    requires Inv(s) && t in s.pcs && WakeUp(s, t, s')
    ensures Inv(s')
  {
    hide Count, Having;
    QuietStep(s, s', t, s'.pcs[t]);
  }

  lemma UnlockKeepsMutex<T>(s: State<T>, t: Tid, s': State<T>)
    requires MutexHeld(s) && t in s.pcs && InSection(s.pcs[t])
    requires t in s'.pcs && !InSection(s'.pcs[t]) && s'.pcs == s.pcs[t := s'.pcs[t]] && s'.holder == s.holder - {t}
    ensures MutexHeld(s')
  {
  }

  lemma PushKeeps<T>(s: State<T>, t: Tid, s': State<T>)
    requires Inv(s) && t in s.pcs && s.pcs[t].PushLocked? && Section(s, t, s')
    ensures Inv(s')
  {
    hide Count, Having, MutexHeld;
    var pc := s.pcs[t];
    Moved(s, s', t, s'.pcs[t]);
    UnlockKeepsMutex(s, t, s');
    if PushVerdict(s.shared, pc.why == TimedOut) == Proceed {
      assert s'.accepted[..|s.fates|] == s.accepted[..|s.fates|];
    }
  }

  lemma PopKeeps<T>(s: State<T>, t: Tid, s': State<T>)
    requires Inv(s) && t in s.pcs && s.pcs[t].PopLocked? && Section(s, t, s')
    ensures Inv(s')
  {
    hide Count, Having, MutexHeld, Accounted;
    PopKeepsItems(s, t, s');
    Moved(s, s', t, s'.pcs[t]);
    UnlockKeepsMutex(s, t, s');
  }

  lemma PopKeepsItems<T>(s: State<T>, t: Tid, s': State<T>)
    requires Accounted(s) && t in s.pcs && s.pcs[t].PopLocked? && Section(s, t, s')
    ensures Accounted(s')
  {
    var pc := s.pcs[t];
    if PopVerdict(s.shared, pc.why == TimedOut) == Proceed {
      var n := |s.fates|;
      assert s.accepted[..n + 1][..n] == s.accepted[..n] && s'.fates[..n] == s.fates;
      assert s.accepted[n] == s.shared.queue[0];
    }
  }

  lemma {:induction false} DroppedLeavePopped<T>(items: seq<T>, fates: seq<Fate>, more: seq<T>)
    requires |items| == |fates|
    ensures Having(items + more, fates + Dropped(|more|), WasPopped) == Having(items, fates, WasPopped)
    decreases |more|
  {
    if |more| == 0 {
      assert items + more == items && fates + Dropped(0) == fates;
    } else {
      var n := |more| - 1;
      assert (items + more)[..|items| + n] == items + more[..n];
      assert (fates + Dropped(n + 1))[..|fates| + n] == fates + Dropped(n);
      DroppedLeavePopped(items, fates, more[..n]);
    }
  }

  lemma ControlKeeps<T>(s: State<T>, t: Tid, s': State<T>)
    requires Inv(s) && t in s.pcs && s.pcs[t].ControlLocked? && Section(s, t, s')
    ensures Inv(s')
  {
    hide Count, Having, MutexHeld, Accounted;
    ControlKeepsItems(s, t, s');
    Moved(s, s', t, s'.pcs[t]);
    UnlockKeepsMutex(s, t, s');
  }

  lemma ControlKeepsItems<T>(s: State<T>, t: Tid, s': State<T>)
    requires Accounted(s) && t in s.pcs && s.pcs[t].ControlLocked? && Section(s, t, s')
    ensures Accounted(s')
  {
    hide Having;
    var n := |s.fates|;
    assert s.accepted == s.accepted[..n] + s.accepted[n..];
    DroppedLeavePopped(s.accepted[..n], s.fates, s.accepted[n..]);
    assert s.accepted[..|s.accepted|] == s.accepted;
  }

  lemma NotifyOneKeeps<T>(s: State<T>, t: Tid, s': State<T>)
    requires Inv(s) && t in s.pcs && (s.pcs[t].NotifyPop? || s.pcs[t].NotifyPush?) && Notify(s, t, s')
    ensures Inv(s')
  {
    hide Count, Having, MutexHeld, PopWakeups, PushWakeups, KindOf, Roused;
    var side := if s.pcs[t].NotifyPop? then PopSleeper else PushSleeper;
    var mid := s.(pcs := s.pcs[t := Idle]);
    PlainMove(s, t, mid, Idle);
    if forall u :: u in mid.pcs ==> KindOf(mid.pcs[u]) != side {
      NotifyNobody(s, t, mid, side);
    } else {
      var u :| u in mid.pcs && KindOf(mid.pcs[u]) == side && s' == s.(pcs := mid.pcs[u := Roused(mid.pcs[u], Woken)]);
      NotifySomebody(s, t, mid, u, s', side);
    }
  }

  lemma NotifyNobody<T>(s: State<T>, t: Tid, s': State<T>, side: Kind)
    requires PopWakeups(s) && PushWakeups(s) && t in s.pcs && s' == s.(pcs := s.pcs[t := Idle])
    requires s.pcs[t] == (if side == PopSleeper then NotifyPop else NotifyPush)
    requires side in {PopSleeper, PushSleeper} && forall u :: u in s'.pcs ==> KindOf(s'.pcs[u]) != side
    ensures PopWakeups(s') && PushWakeups(s')
  {
    hide Count;
    Moved(s, s', t, Idle);
    NoneOf(s', side);
  }

  lemma NotifySomebody<T>(s: State<T>, t: Tid, mid: State<T>, u: Tid, s': State<T>, side: Kind)
    requires PopWakeups(s) && PushWakeups(s) && t in s.pcs && mid == s.(pcs := s.pcs[t := Idle])
    requires s.pcs[t] == (if side == PopSleeper then NotifyPop else NotifyPush)
    requires side in {PopSleeper, PushSleeper} && u in mid.pcs && KindOf(mid.pcs[u]) == side
    requires s' == mid.(pcs := mid.pcs[u := Roused(mid.pcs[u], Woken)]) && MutexHeld(mid)
    ensures PopWakeups(s') && PushWakeups(s') && MutexHeld(s')
  {
    hide Count, MutexHeld;
    Moved(s, mid, t, Idle);
    Moved(mid, s', u, Roused(mid.pcs[u], Woken));
    PlainMove(mid, u, s', Roused(mid.pcs[u], Woken));
  }

  lemma PlainMove<T>(s: State<T>, t: Tid, s': State<T>, pc: Pc<T>)
    requires MutexHeld(s) && t in s.pcs && !InSection(s.pcs[t]) && !InSection(pc)
    requires s'.pcs == s.pcs[t := pc] && s'.holder == s.holder
    ensures MutexHeld(s')
  {
  }

  lemma NoneOf<T>(s: State<T>, k: Kind)
    requires forall u :: u in s.pcs ==> KindOf(s.pcs[u]) != k
    ensures Count(s, k) == 0
  {
    assert Threads(s.pcs, k) == {};
  }

  /** notify_all empties the wait set and turns its threads into wakers. */
  lemma AllWoken<T>(s: State<T>, s': State<T>, side: Kind)
    requires side in {PopSleeper, PushSleeper} && s'.pcs == WakeAll(s.pcs, side)
    ensures Count(s', side) == 0
    ensures forall k: Kind :: k !in {PopSleeper, PopWaker, PushSleeper, PushWaker} ==> Count(s', k) == Count(s, k)
    ensures side == PopSleeper ==> Count(s', PushSleeper) == Count(s, PushSleeper) && Count(s', PushWaker) == Count(s, PushWaker)
    ensures side == PushSleeper ==> Count(s', PopSleeper) == Count(s, PopSleeper) && Count(s', PopWaker) == Count(s, PopWaker)
  {
    assert Threads(s'.pcs, side) == {};
    forall k: Kind | k !in {PopSleeper, PopWaker, PushSleeper, PushWaker} ensures Count(s', k) == Count(s, k) {
      assert Threads(s'.pcs, k) == Threads(s.pcs, k);
    }
    if side == PopSleeper {
      assert Threads(s'.pcs, PushSleeper) == Threads(s.pcs, PushSleeper);
      assert Threads(s'.pcs, PushWaker) == Threads(s.pcs, PushWaker);
    } else {
      assert Threads(s'.pcs, PopSleeper) == Threads(s.pcs, PopSleeper);
      assert Threads(s'.pcs, PopWaker) == Threads(s.pcs, PopWaker);
    }
  }

  lemma NotifyAllKeeps<T>(s: State<T>, t: Tid, s': State<T>)
    requires Inv(s) && t in s.pcs && (s.pcs[t].NotifyAllPop? || s.pcs[t].NotifyAllPush?) && Notify(s, t, s')
    ensures Inv(s')
  {
    hide Count, Having, MutexHeld;
    var side := if s.pcs[t].NotifyAllPop? then PopSleeper else PushSleeper;
    var mid := s.(pcs := WakeAll(s.pcs, side));
    AllWoken(s, mid, side);
    WakeAllKeepsMutex(s, mid, side);
    Moved(mid, s', t, s'.pcs[t]);
    PlainMove(mid, t, s', s'.pcs[t]);
  }

  lemma WakeAllKeepsMutex<T>(s: State<T>, s': State<T>, side: Kind)
    requires MutexHeld(s) && s'.pcs == WakeAll(s.pcs, side) && s'.holder == s.holder
    ensures MutexHeld(s')
  {
    hide KindOf;
  }

  lemma StepKeepsInv<T>(s: State<T>, s': State<T>)
    requires Inv(s) && Next(s, s')
    ensures Inv(s')
  {
    hide Inv;
    var t: Tid :| StepBy(s, t, s');
    if Call(s, t, s') {
      CallKeeps(s, t, s');
    } else if Acquire(s, t, s') {
      AcquireKeeps(s, t, s');
    } else if WakeUp(s, t, s') {
      WakeUpKeeps(s, t, s');
    } else if Section(s, t, s') {
      if s.pcs[t].PushLocked? {
        PushKeeps(s, t, s');
      } else if s.pcs[t].PopLocked? {
        PopKeeps(s, t, s');
      } else {
        ControlKeeps(s, t, s');
      }
    } else if s.pcs[t].NotifyPop? || s.pcs[t].NotifyPush? {
      NotifyOneKeeps(s, t, s');
    } else {
      NotifyAllKeeps(s, t, s');
    }
  }

  // ----- Runs

  ghost predicate IsRun<T>(run: seq<State<T>>) {
    && |run| > 0 && Init(run[0])
    && forall i :: 0 <= i < |run| - 1 ==> Next(run[i], run[i + 1])
  }

  /** Every state of every run. */
  lemma {:induction false} RunInv<T>(run: seq<State<T>>, i: nat)
    requires IsRun(run) && i < |run|
    ensures Inv(run[i])
    decreases i
  {
    hide Inv, Init, Next;
    if i == 0 {
      InitInv(run[0]);
    } else {
      RunInv(run, i - 1);
      assert Next(run[i - 1], run[i - 1 + 1]);
      StepKeepsInv(run[i - 1], run[i]);
    }
  }

  /** In every state of every run the accepted items are the popped ones, the dropped ones and
      the queued ones, and popping kept their order. */
  lemma RunConserves<T>(run: seq<State<T>>, i: nat)
    requires IsRun(run) && i < |run|
    ensures var s := run[i]; var n := |s.fates|;
      && |s.shared.queue| <= s.shared.maxFill
      && n <= |s.accepted|
      && s.popped == Having(s.accepted[..n], s.fates, WasPopped)
      && multiset(s.accepted) == multiset(s.popped) + multiset(Having(s.accepted[..n], s.fates, WasDropped))
                                 + multiset(s.shared.queue)
  {
    hide Init, Next, Count, Having;
    RunInv(run, i);
    var s := run[i];
    var n := |s.fates|;
    assert s.accepted == s.accepted[..n] + s.accepted[n..];
    FatesPartition(s.accepted[..n], s.fates);
  }

  lemma {:induction false} FatesPartition<T>(items: seq<T>, fates: seq<Fate>)
    requires |items| == |fates|
    ensures multiset(items) == multiset(Having(items, fates, WasPopped)) + multiset(Having(items, fates, WasDropped))
    decreases |items|
  {
    hide Having;
    if |items| == 0 {
      NoFates(items, fates);
    } else {
      var n := |items| - 1;
      FatesPartition(items[..n], fates[..n]);
      assert items == items[..n] + [items[n]];
      LastFate(items, fates, WasPopped);
      LastFate(items, fates, WasDropped);
    }
  }

  lemma NoFates<T>(items: seq<T>, fates: seq<Fate>)
    requires |items| == |fates| == 0
    ensures forall f :: Having(items, fates, f) == []
  {
  }

  lemma LastFate<T>(items: seq<T>, fates: seq<Fate>, f: Fate)
    requires |items| == |fates| > 0
    ensures var n := |items| - 1; var rest := Having(items[..n], fates[..n], f);
      multiset(Having(items, fates, f)) == multiset(rest) + multiset(if fates[n] == f then [items[n]] else [])
  {
  }

  /** Once finished, always finished, and nothing more is accepted. */
  lemma {:induction false} NothingAfterFinish<T>(run: seq<State<T>>, i: nat, j: nat)
    requires IsRun(run) && i <= j < |run| && run[i].shared.finished
    ensures run[j].shared.finished && run[j].accepted == run[i].accepted
    decreases j
  {
    hide Init;
    if i < j {
      NothingAfterFinish(run, i, j - 1);
      assert Next(run[j - 1], run[j - 1 + 1]);
    }
  }

  /** A sleeping popper and an item: some thread is on its way that will take the item or wake
      a popper, so the sleeper is not forgotten. */
  lemma PopperNotForgotten<T>(run: seq<State<T>>, i: nat, t: Tid)
    requires IsRun(run) && i < |run| && t in run[i].pcs && run[i].pcs[t].PopAsleep?
    requires run[i].shared.queue != [] || run[i].shared.finished
    ensures exists u :: u in run[i].pcs && KindOf(run[i].pcs[u]) in {PopWaker, PopNotifier, AllPopNotifier}
  {
    hide Init, Next, Having;
    var s := run[i];
    RunInv(run, i);
    assert t in Threads(s.pcs, PopSleeper);
    var u :| u in Threads(s.pcs, PopWaker) + Threads(s.pcs, PopNotifier) + Threads(s.pcs, AllPopNotifier);
  }

  lemma PusherNotForgotten<T>(run: seq<State<T>>, i: nat, t: Tid)
    requires IsRun(run) && i < |run| && t in run[i].pcs && run[i].pcs[t].PushAsleep?
    requires |run[i].shared.queue| < run[i].shared.maxFill || run[i].shared.finished
    ensures exists u ::
      u in run[i].pcs && KindOf(run[i].pcs[u]) in {PushWaker, PushNotifier, AllPopNotifier, AllPushNotifier}
  {
    hide Init, Next, Having;
    var s := run[i];
    RunInv(run, i);
    assert t in Threads(s.pcs, PushSleeper);
    var u :| u in Threads(s.pcs, PushWaker) + Threads(s.pcs, PushNotifier)
                  + Threads(s.pcs, AllPopNotifier) + Threads(s.pcs, AllPushNotifier);
  }

  /** Once finish's notifications have gone out nobody sleeps. */
  lemma NobodySleepsAfterFinish<T>(run: seq<State<T>>, i: nat, t: Tid)
    requires IsRun(run) && i < |run| && run[i].shared.finished && t in run[i].pcs
    requires forall u :: u in run[i].pcs ==> !run[i].pcs[u].NotifyAllPop? && !run[i].pcs[u].NotifyAllPush?
    ensures !run[i].pcs[t].PopAsleep? && !run[i].pcs[t].PushAsleep?
  {
    hide Init, Next, Having, Count;
    var s := run[i];
    RunInv(run, i);
    NoneOf(s, AllPopNotifier);
    NoneOf(s, AllPushNotifier);
    Counted(s, t, PopSleeper);
    Counted(s, t, PushSleeper);
  }

  lemma Counted<T>(s: State<T>, t: Tid, k: Kind)
    requires t in s.pcs
    ensures KindOf(s.pcs[t]) == k ==> Count(s, k) > 0
  {
    assert KindOf(s.pcs[t]) == k ==> t in Threads(s.pcs, k);
  }

  // ----- What a section did, seen from the run

  /** A section moves its own thread, which holds the mutex. */
  lemma SectionMoves<T>(s: State<T>, u: Tid, s': State<T>)
    requires u in s.pcs && Section(s, u, s')
    ensures InSection(s.pcs[u]) && u in s'.pcs && s'.pcs == s.pcs[u := s'.pcs[u]]
  {
  }

  /** The other steps leave a thread in its section alone, and the data and the popped items too. */
  lemma OthersStay<T>(s: State<T>, u: Tid, s': State<T>)
    requires u in s.pcs && (Call(s, u, s') || Acquire(s, u, s') || WakeUp(s, u, s'))
    ensures s'.shared == s.shared && s'.popped == s.popped
    ensures forall t :: t in s.pcs && InSection(s.pcs[t]) ==> t in s'.pcs && s'.pcs[t] == s.pcs[t]
  {
  }

  lemma NotifyStays<T>(s: State<T>, u: Tid, s': State<T>)
    requires u in s.pcs && Notify(s, u, s')
    ensures s'.shared == s.shared && s'.popped == s.popped
    ensures forall t :: t in s.pcs && InSection(s.pcs[t]) ==> t in s'.pcs && s'.pcs[t] == s.pcs[t]
  {
  }

  /** The thread that holds the mutex moves only by running its own section. */
  lemma SectionRan<T>(s: State<T>, s': State<T>, t: Tid)
    requires Next(s, s') && t in s.pcs && InSection(s.pcs[t]) && t in s'.pcs && s'.pcs[t] != s.pcs[t]
    ensures Section(s, t, s')
  {
    hide Section, Notify, Call, Acquire, WakeUp, InSection;
    var u: Tid :| StepBy(s, u, s');
    if Section(s, u, s') {
      SectionMoves(s, u, s');
    } else if Notify(s, u, s') {
      NotifyStays(s, u, s');
    } else {
      OthersStay(s, u, s');
    }
  }

  /** A pop hands out the front item exactly when there is one; it sleeps exactly when the queue is
      empty, not finished and the wait has not timed out; otherwise it is refused. */
  lemma PopOutcome<T>(run: seq<State<T>>, j: nat, t: Tid)
    requires IsRun(run) && j + 1 < |run| && t in run[j].pcs && run[j].pcs[t].PopLocked?
    requires t in run[j + 1].pcs && run[j + 1].pcs[t] != run[j].pcs[t]
    ensures var s, s' := run[j], run[j + 1];
      var late := s.pcs[t].why == TimedOut;
      && s'.shared.finished == s.shared.finished && s'.accepted == s.accepted
      && (s'.pcs[t].NotifyPush? <==> s.shared.queue != [])
      && (s'.pcs[t].PopAsleep? <==> s.shared.queue == [] && !s.shared.finished && !late)
      && (s'.pcs[t].Idle? <==> s.shared.queue == [] && (s.shared.finished || late))
      && s.popped <= s'.popped && s.shared.queue == s'.popped[|s.popped|..] + s'.shared.queue
      && |s'.popped| == |s.popped| + (if s.shared.queue != [] then 1 else 0)
  {
    hide Init, Next;
    assert Next(run[j], run[j + 1]);
    SectionRan(run[j], run[j + 1], t);
  }

  /** A push is accepted exactly when the queue is not finished and has room; it sleeps exactly
      when it is full, not finished and the wait has not timed out; otherwise it is refused. */
  lemma PushOutcome<T>(run: seq<State<T>>, j: nat, t: Tid)
    requires IsRun(run) && j + 1 < |run| && t in run[j].pcs && run[j].pcs[t].PushLocked?
    requires t in run[j + 1].pcs && run[j + 1].pcs[t] != run[j].pcs[t]
    ensures var s, s' := run[j], run[j + 1];
      var full := |s.shared.queue| >= s.shared.maxFill;
      var late := s.pcs[t].why == TimedOut;
      && s'.shared.finished == s.shared.finished && s'.popped == s.popped
      && (s'.pcs[t].NotifyPop? <==> !s.shared.finished && !full)
      && (s'.pcs[t].PushAsleep? <==> !s.shared.finished && full && !late)
      && (s'.pcs[t].Idle? <==> s.shared.finished || (full && late))
      && s'.shared.queue == s.shared.queue + (if s'.pcs[t].NotifyPop? then [s.pcs[t].x] else [])
      && s'.accepted == s.accepted + (if s'.pcs[t].NotifyPop? then [s.pcs[t].x] else [])
  {
    hide Init, Next;
    assert Next(run[j], run[j + 1]);
    SectionRan(run[j], run[j + 1], t);
  }

  /** finish finishes; clear empties an unfinished queue; clearAndFinish does both. Nothing is
      handed out, and whoever changed something goes on to notify. */
  lemma ControlOutcome<T>(run: seq<State<T>>, j: nat, t: Tid)
    requires IsRun(run) && j + 1 < |run| && t in run[j].pcs && run[j].pcs[t].ControlLocked?
    requires t in run[j + 1].pcs && run[j + 1].pcs[t] != run[j].pcs[t]
    ensures var s, s', op := run[j], run[j + 1], run[j].pcs[t].op;
      && s'.popped == s.popped && s'.accepted == s.accepted
      && (s'.shared.finished <==> s.shared.finished || op != Clear)
      && s'.shared.queue == (if op == ClearAndFinish || (op == Clear && !s.shared.finished) then [] else s.shared.queue)
      && (s'.pcs[t].Idle? <==> op != ClearAndFinish && s.shared.finished)
      && (!s'.pcs[t].Idle? ==> (s'.pcs[t].NotifyAllPush? <==> op == Clear))
  {
    hide Init, Next;
    assert Next(run[j], run[j + 1]);
    SectionRan(run[j], run[j + 1], t);
  }

  // ----- After finish

  /** A clearAndFinish takes the rest of the queue away. */
  ghost predicate Clears<T>(s: State<T>, s': State<T>) {
    exists t :: t in s.pcs && s.pcs[t] == ControlLocked(ClearAndFinish) && Section(s, t, s')
  }

  lemma FinishedStep<T>(s: State<T>, s': State<T>)
    requires Next(s, s') && s.shared.finished && !Clears(s, s')
    ensures s'.shared.finished && s.popped <= s'.popped
    ensures s'.popped + s'.shared.queue == s.popped + s.shared.queue
  {
    hide Section, Notify, Call, Acquire, WakeUp;
    var t: Tid :| StepBy(s, t, s');
    if Section(s, t, s') {
      FinishedSection(s, t, s');
    } else if Notify(s, t, s') {
      NotifyStays(s, t, s');
    } else {
      OthersStay(s, t, s');
    }
  }

  lemma FinishedSection<T>(s: State<T>, t: Tid, s': State<T>)
    requires t in s.pcs && Section(s, t, s') && s.shared.finished && s.pcs[t] != ControlLocked(ClearAndFinish)
    ensures s'.shared.finished && s.popped <= s'.popped
    ensures s'.popped + s'.shared.queue == s.popped + s.shared.queue
  {
    if s.pcs[t].PopLocked? && s.shared.queue != [] {
      var q := s.shared.queue;
      assert (s.popped + [q[0]]) + q[1..] == s.popped + q;
    }
  }

  /** Items queued at finish come out in their order, whatever the threads do in between. */
  lemma {:induction false} DrainsInOrder<T>(run: seq<State<T>>, i: nat, j: nat)
    requires IsRun(run) && i <= j < |run| && run[i].shared.finished
    requires forall k :: i <= k < j ==> !Clears(run[k], run[k + 1])
    ensures run[j].shared.finished && run[i].popped <= run[j].popped
    ensures run[j].popped + run[j].shared.queue == run[i].popped + run[i].shared.queue
    decreases j
  {
    hide Init, Next, Clears;
    if i < j {
      DrainsInOrder(run, i, j - 1);
      assert Next(run[j - 1], run[j - 1 + 1]);
      FinishedStep(run[j - 1], run[j - 1 + 1]);
    }
  }

  /** After finish no pop is refused before the whole queue has been handed out. */
  lemma DrainedBeforeRefusal<T>(run: seq<State<T>>, i: nat, j: nat, t: Tid)
    requires IsRun(run) && i <= j && j + 1 < |run| && run[i].shared.finished
    requires forall k :: i <= k < j ==> !Clears(run[k], run[k + 1])
    requires t in run[j].pcs && run[j].pcs[t].PopLocked? && t in run[j + 1].pcs && run[j + 1].pcs[t].Idle?
    ensures run[j].popped == run[i].popped + run[i].shared.queue
  {
    hide Init, Next, Clears;
    DrainsInOrder(run, i, j);
    PopOutcome(run, j, t);
  }
}
