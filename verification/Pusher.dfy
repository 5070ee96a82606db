/** The pushing thread of `rtmp_core.c` beside the writers that feed its queue and the close that takes the queue away.
    The source has no lock. Each step below is atomic; which step comes next is up to the schedule. */
module Pusher {
  import opened Bytes
  import opened LinkedQueue

  /** Where the thread stands: before one of its tests, before `pop_data`, before RTMP_Write, or before it frees the
      payload. */
  datatype Thread<T> =
    | NotStarted
    | AtStateTest
    | AtRtmpTest
    | AtConnectionTest
    | AtQueueTest
    | AtPop
    | Holding(item: T)
    | Sent(item: T)
    | Exited
  {
    /** Whether the thread's next step uses the queue or what `rtmp` points to. */
    predicate Uses() { AtConnectionTest? || AtQueueTest? || AtPop? || Holding? }
  }

  datatype State<T> = State(
    thread: Thread<T>,
    pushing: bool,       // rtmp_state == RTMP_PUSHING
    open: bool,          // rtmp != NULL, and the queue is not freed
    connected: bool,
    faulted: bool,       // the freed queue or a null rtmp was used; nothing is known from then on
    queue: seq<T>,
    counter: nat,
    // what has happened so far
    pushed: seq<T>,      // handed to push_data
    written: seq<T>,     // handed to RTMP_Write
    freed: seq<T>,       // payloads freed by the thread
    dropped: seq<T>)     // payloads freed with the queue

  /** A writer, `rtmp_pusher_open` (twice), the network, `rtmp_sender_close`, and the thread. Any of them can act at any
      time. */
  datatype Action<T> = Push(item: T) | StartThread | SetPushing | Disconnect | Close | ThreadStep

  function Initial<T>(): State<T> { State(NotStarted, false, true, true, false, [], 0, [], [], [], []) }

  /** One step of `thread_pushing` that does not touch anything freed. */
  function RunThread<T>(s: State<T>): State<T> {
    match s.thread
    case AtStateTest => s.(thread := if s.pushing then AtRtmpTest else Exited)
    case AtRtmpTest => s.(thread := if s.open then AtConnectionTest else Exited)
    case AtConnectionTest => s.(thread := if s.connected then AtQueueTest else Exited)
    case AtQueueTest => s.(thread := if s.queue == [] then AtStateTest else AtPop)
    case AtPop =>
      if s.queue == [] then s.(thread := AtStateTest)
      else s.(thread := Holding(s.queue[0]), queue := s.queue[1..])
    case Holding(x) => s.(thread := Sent(x), written := s.written + [x], counter := s.counter + 1)
    case Sent(x) => s.(thread := AtStateTest, freed := s.freed + [x])
    case NotStarted => s
    case Exited => s
  }

  function Step<T>(s: State<T>, a: Action<T>): State<T> {
    if s.faulted then s
    else match a
      case Push(x) =>
        if s.open then s.(queue := s.queue + [x], pushed := s.pushed + [x]) else s.(faulted := true)
      case StartThread => if s.thread.NotStarted? then s.(thread := AtStateTest) else s
      case SetPushing => s.(pushing := true)
      case Disconnect => s.(connected := false)
      case Close =>
        if s.open then s.(pushing := false, open := false, dropped := s.queue, queue := [])
        else s.(faulted := true)
      case ThreadStep => if !s.open && s.thread.Uses() then s.(faulted := true) else RunThread(s)
  }

  /** The state after a schedule. */
  function After<T>(s: State<T>, schedule: seq<Action<T>>): State<T> {
    if schedule == [] then s else Step(After(s, Init(schedule)), Last(schedule))
  }

  function Exec<T>(schedule: seq<Action<T>>): State<T> { After(Initial(), schedule) }

  function Init<A>(s: seq<A>): seq<A>
    requires s != []
  {
    s[..|s| - 1]
  }

  function Last<A>(s: seq<A>): A
    requires s != []
  {
    s[|s| - 1]
  }

  lemma AfterLast<T>(s: State<T>, schedule: seq<Action<T>>)
    requires schedule != []
    ensures After(s, schedule) == Step(After(s, Init(schedule)), Last(schedule))
  {
  }

  lemma {:induction false} AfterConcat<T>(s: State<T>, a: seq<Action<T>>, b: seq<Action<T>>)
    ensures After(s, a + b) == After(After(s, a), b)
  {
    hide Step;
    if b == [] {
      assert a + b == a;
    } else {
      AfterConcat(s, a, Init(b));
      assert Init(a + b) == a + Init(b);
    }
  }

  // -------------------------------------------------------------- conservation

  function InHand<T>(s: State<T>): seq<T> { if s.thread.Holding? then [s.thread.item] else [] }

  function ToFree<T>(s: State<T>): seq<T> { if s.thread.Sent? then [s.thread.item] else [] }

  /** Nothing is lost, duplicated or reordered, and every payload is freed exactly once. */
  ghost predicate Conserves<T>(s: State<T>) {
    && s.pushed == s.written + InHand(s) + s.queue + s.dropped
    && s.written == s.freed + ToFree(s)
    && s.counter == |s.written|
    && (if s.open then s.dropped == [] else s.queue == [])
  }

  lemma Inserted<T>(a: seq<T>, x: T, b: seq<T>)
    ensures a + [] + ([x] + b) == a + [x] + b
    ensures a + [x] + b == (a + [x]) + [] + b
  {
  }

  lemma PopConserves<T>(s: State<T>)
    requires Conserves(s) && s.thread.AtPop? && s.queue != []
    ensures Conserves(RunThread(s))
  {
    var x, rest := s.queue[0], s.queue[1..];
    assert s.queue == [x] + rest;
    Inserted(s.written, x, rest);
  }

  lemma SendConserves<T>(s: State<T>)
    requires Conserves(s) && s.thread.Holding?
    ensures Conserves(RunThread(s))
  {
    Inserted(s.written, s.thread.item, s.queue);
  }

  lemma FreeConserves<T>(s: State<T>)
    requires Conserves(s) && s.thread.Sent?
    ensures Conserves(RunThread(s))
  {
  }

  lemma ThreadConserves<T>(s: State<T>)
    requires Conserves(s) && (s.thread.Uses() ==> s.open)
    ensures Conserves(RunThread(s))
  {
    if s.thread.AtPop? && s.queue != [] {
      PopConserves(s);
    } else if s.thread.Holding? {
      SendConserves(s);
    } else if s.thread.Sent? {
      FreeConserves(s);
    } else {
      var t := RunThread(s);
      assert InHand(t) == InHand(s) == [] && ToFree(t) == ToFree(s) == [];
    }
  }

  lemma StepConserves<T>(s: State<T>, a: Action<T>)
    requires Conserves(s)
    ensures Conserves(Step(s, a))
  {
    hide RunThread;
    if a.ThreadStep? && (s.thread.Uses() ==> s.open) {
      ThreadConserves(s);
    } else if a.Push? {
      assert s.written + InHand(s) + (s.queue + [a.item]) == s.written + InHand(s) + s.queue + [a.item];
    }
  }

  /** After every schedule, with a close at any time and also up to the point of a fault: what was handed to RTMP_Write,
      then the item in hand, then the queue, then what a close dropped, is exactly what was pushed. */
  lemma {:induction false} EveryRunConserves<T>(schedule: seq<Action<T>>)
    ensures Conserves(Exec(schedule))
  {
    hide Conserves, Step;
    if schedule == [] {
      NothingYet<T>();
    } else {
      EveryRunConserves(Init(schedule));
      StepConserves(Exec(Init(schedule)), Last(schedule));
    }
  }

  lemma NothingYet<T>()
    ensures Conserves(Initial<T>())
  {
  }

  // -------------------------------------------------------------------- faults

  /** The first position of an action; the length of the schedule if it does not occur. */
  function First<T(==)>(schedule: seq<Action<T>>, a: Action<T>): (k: nat)
    ensures k <= |schedule|
    ensures k < |schedule| ==> schedule[k] == a
    ensures forall j :: 0 <= j < k ==> schedule[j] != a
  {
    if schedule == [] then 0
    else
      var k := First(Init(schedule), a);
      if k < |schedule| - 1 || Last(schedule) == a then k else k + 1
  }

  /** An action that uses the queue, when the thread stood at `thread` as the queue was freed. */
  predicate Misuse<T>(a: Action<T>, thread: Thread<T>) { a.Push? || a.Close? || (a.ThreadStep? && thread.Uses()) }

  /** After the first close comes a push, another close, or a step of a thread that was caught inside its turn. */
  ghost predicate Misused<T>(schedule: seq<Action<T>>) {
    var c := First(schedule, Close);
    MisusedAfter(schedule, c, Exec(schedule[..c]).thread)
  }

  /** Before a close nothing is freed. After it, the thread needs what was freed exactly if it did when the close
      came. */
  ghost predicate Tracked<T>(schedule: seq<Action<T>>) {
    var s, c := Exec(schedule), First(schedule, Close);
    && (s.faulted <==> Misused(schedule))
    && (s.open <==> c == |schedule|)
    && (c < |schedule| && !s.faulted ==> (s.thread.Uses() <==> Exec(schedule[..c]).thread.Uses()))
  }

  lemma FirstInInit<T>(schedule: seq<Action<T>>, a: Action<T>)
    requires schedule != []
    ensures First(schedule, a) < |schedule| - 1 ==>
              First(Init(schedule), a) == First(schedule, a)
                && schedule[..First(schedule, a)] == Init(schedule)[..First(schedule, a)]
    ensures First(schedule, a) >= |schedule| - 1 ==> First(Init(schedule), a) == |schedule| - 1
  {
  }

  /** The misuses after position `c`, by a thread that stood at `thread`. */
  ghost predicate MisusedAfter<T>(schedule: seq<Action<T>>, c: nat, thread: Thread<T>) {
    exists k :: c < k < |schedule| && Misuse(schedule[k], thread)
  }

  lemma MisusedAfterInit<T>(schedule: seq<Action<T>>, c: nat, thread: Thread<T>)
    requires schedule != []
    ensures MisusedAfter(schedule, c, thread) <==>
            MisusedAfter(Init(schedule), c, thread) || (c < |schedule| - 1 && Misuse(Last(schedule), thread))
  {
    hide Misuse;
    var init := Init(schedule);
    if MisusedAfter(init, c, thread) {
      var k :| c < k < |init| && Misuse(init[k], thread);
      assert Misuse(schedule[k], thread);
    }
    if MisusedAfter(schedule, c, thread) {
      var k :| c < k < |schedule| && Misuse(schedule[k], thread);
      assert k < |init| ==> Misuse(init[k], thread);
    }
  }

  lemma MisusedByLast<T>(schedule: seq<Action<T>>)
    requires schedule != []
    ensures var c := First(schedule, Close);
            Misused(schedule) <==>
            Misused(Init(schedule)) || (c < |schedule| - 1 && Misuse(Last(schedule), Exec(schedule[..c]).thread))
  {
    hide Misuse, Exec, MisusedAfter;
    var c, init := First(schedule, Close), Init(schedule);
    FirstInInit(schedule, Close);
    if c < |schedule| - 1 {
      MisusedAfterInit(schedule, c, Exec(schedule[..c]).thread);
    } else {
      NothingAfter(schedule, c, Exec(schedule[..c]).thread);
      NothingAfter(init, |init|, Exec(init[..|init|]).thread);
    }
  }

  lemma NothingAfter<T>(schedule: seq<Action<T>>, c: nat, thread: Thread<T>)
    requires c >= |schedule| - 1
    ensures !MisusedAfter(schedule, c, thread)
  {
  }

  lemma {:induction false} EveryRunTracked<T>(schedule: seq<Action<T>>)
    ensures Tracked(schedule)
  {
    if schedule != [] {
      hide Misused;
      EveryRunTracked(Init(schedule));
      MisusedByLast(schedule);
      FirstInInit(schedule, Close);
    }
  }

  /** A run faults if and only if, after a close, somebody pushes or closes again, or a thread goes on that stood
      between its connection test and its RTMP_Write when the close came. */
  lemma FaultsExactlyIfMisused<T>(schedule: seq<Action<T>>)
    ensures Exec(schedule).faulted <==> Misused(schedule)
  {
    EveryRunTracked(schedule);
  }

  function Steps<T>(n: nat): (s: seq<Action<T>>)
    ensures |s| == n
  {
    seq(n, _ => ThreadStep)
  }

  lemma MoreSteps<T>(s: State<T>, m: nat, n: nat)
    ensures After(s, Steps(m + n)) == After(After(s, Steps(m)), Steps(n))
  {
    AfterConcat(s, Steps(m), Steps(n));
    assert Steps<T>(m + n) == Steps(m) + Steps(n);
  }

  lemma OneStep<T>(s: State<T>)
    ensures After(s, Steps(1)) == Step(s, ThreadStep)
  {
    assert Init(Steps<T>(1)) == [];
  }

  lemma NextStep<T>(s: State<T>, n: nat)
    ensures After(s, Steps(n + 1)) == After(Step(s, ThreadStep), Steps(n))
  {
    MoreSteps(s, 1, n);
    OneStep(s);
  }

  lemma ToQueue<T>(s: State<T>)
    requires s.thread.AtStateTest? && s.pushing && s.open && s.connected && !s.faulted
    ensures After(s, Steps(3)) == s.(thread := AtQueueTest)
  {
    hide After;
    NextStep(s, 2);
    PastRtmpTest(s.(thread := AtRtmpTest));
  }

  lemma PastRtmpTest<T>(s: State<T>)
    requires s.thread.AtRtmpTest? && s.open && s.connected && !s.faulted
    ensures After(s, Steps(2)) == s.(thread := AtQueueTest)
  {
    hide After;
    NextStep(s, 1);
    OneStep(s.(thread := AtConnectionTest));
  }

  lemma TakesItem<T>(s: State<T>)
    requires s.thread.AtQueueTest? && s.open && !s.faulted && s.queue != []
    ensures After(s, Steps(2)) == s.(thread := Holding(s.queue[0]), queue := s.queue[1..])
  {
    hide After;
    NextStep(s, 1);
    OneStep(s.(thread := AtPop));
  }

  lemma SendsItem<T>(s: State<T>)
    requires s.thread.Holding? && s.open && !s.faulted
    ensures var x := s.thread.item;
            After(s, Steps(2)) ==
            s.(thread := AtStateTest, written := s.written + [x], freed := s.freed + [x], counter := s.counter + 1)
  {
    hide After;
    NextStep(s, 1);
    OneStep(Step(s, ThreadStep));
  }

  /** The thread is about to look into the queue; the application closes; the thread looks. */
  lemma CloseDuringTurnFaults<T>()
    ensures Exec([StartThread, SetPushing] + Steps<T>(3) + [Close]).thread.AtQueueTest?
    ensures Exec([StartThread, SetPushing] + Steps<T>(3) + [Close, ThreadStep]).faulted
  {
    var first: seq<Action<T>>, start: seq<Action<T>> := [StartThread], [StartThread, SetPushing];
    assert Init(start) == first && Init(first) == [];
    AfterConcat(Initial<T>(), start, Steps(3));
    ToQueue(Exec(start));
    var long := start + Steps(3) + [Close, ThreadStep];
    assert Init(long) == start + Steps(3) + [Close] && Init(Init(long)) == start + Steps(3);
  }

  /** A frame that arrives after the close is pushed on the freed queue. */
  lemma PushAfterCloseFaults<T>(x: T)
    ensures Exec([Close, Push(x)]).faulted
  {
    var close: seq<Action<T>> := [Close];
    var schedule: seq<Action<T>> := [Close, Push(x)];
    assert Init(schedule) == close && Init(close) == [];
    assert !Exec(close).open;
  }

  // ------------------------------------------------------------------ progress

  /** While nobody else moves, one turn of a running thread writes out the front of the queue and frees it. */
  lemma OneTurn<T>(s: State<T>)
    requires s.thread.AtStateTest? && s.pushing && s.open && s.connected && !s.faulted && s.queue != []
    ensures After(s, Steps(7)) ==
            s.(queue := s.queue[1..], written := s.written + [s.queue[0]], freed := s.freed + [s.queue[0]],
               counter := s.counter + 1)
  {
    hide After, Step;
    var looking := s.(thread := AtQueueTest);
    ToQueue(s);
    TakesItem(looking);
    SendsItem(s.(thread := Holding(s.queue[0]), queue := s.queue[1..]));
    MoreSteps(s, 3, 4);
    MoreSteps(looking, 2, 2);
  }

  /** While nobody else moves, a running thread writes out the whole queue, in order: seven steps for each item. */
  lemma {:induction false} ThreadDrains<T>(s: State<T>)
    requires s.thread.AtStateTest? && s.pushing && s.open && s.connected && !s.faulted
    ensures var t := After(s, Steps(7 * |s.queue|));
            && t.written == s.written + s.queue && t.freed == s.freed + s.queue
            && t.queue == [] && t.thread.AtStateTest? && t.pushed == s.pushed
    decreases |s.queue|
  {
    hide Step;
    if s.queue == [] {
      assert Steps<T>(0) == [];
    } else {
      hide After;
      var x, t := s.queue[0], After(s, Steps(7));
      OneTurn(s);
      MoreSteps(s, 7, 7 * |t.queue|);
      ThreadDrains(t);
      assert s.queue == [x] + t.queue;
      Regrouped(s.written, [x], t.queue);
      Regrouped(s.freed, [x], t.queue);
    }
  }

  /** A thread in its loop, on a connection that is open and alive. */
  predicate Running<T>(s: State<T>) {
    !s.thread.NotStarted? && !s.thread.Exited? && s.pushing && s.open && s.connected && !s.faulted
  }

  /** How many steps are left of the turn in which the thread is; none before its first test. */
  function StepsLeft<T>(s: State<T>): nat {
    var look := if s.queue == [] then 1 else 4;
    match s.thread
    case AtRtmpTest => 2 + look
    case AtConnectionTest => 1 + look
    case AtQueueTest => look
    case AtPop => if s.queue == [] then 1 else 3
    case Holding(_) => 2
    case Sent(_) => 1
    case _ => 0
  }

  /** What is known of a later state `t` in which nothing but the thread's own work has changed. */
  ghost predicate OnlyWorked<T>(s: State<T>, t: State<T>) {
    && Running(t) && t.pushed == s.pushed
    && t.written + InHand(t) + t.queue == s.written + InHand(s) + s.queue
    && (s.written == s.freed + ToFree(s) ==> t.written == t.freed + ToFree(t))
  }

  lemma StepOnlyWorks<T>(s: State<T>)
    requires Running(s)
    ensures OnlyWorked(s, Step(s, ThreadStep))
    ensures !s.thread.AtStateTest? ==> StepsLeft(s) == StepsLeft(Step(s, ThreadStep)) + 1
  {
    if s.thread.AtPop? && s.queue != [] {
      assert s.queue == [s.queue[0]] + s.queue[1..];
      Inserted(s.written, s.queue[0], s.queue[1..]);
    } else if s.thread.Holding? {
      Inserted(s.written, s.thread.item, s.queue);
    }
  }

  /** Whatever the thread is at, it finishes its turn. */
  lemma {:induction false} FinishesTurn<T>(s: State<T>)
    requires Running(s)
    ensures var t := After(s, Steps(StepsLeft(s))); t.thread.AtStateTest? && OnlyWorked(s, t)
    decreases StepsLeft(s)
  {
    hide Step, After;
    if s.thread.AtStateTest? {
      NoSteps(s);
    } else {
      StepOnlyWorks(s);
      var t := Step(s, ThreadStep);
      NextStep(s, StepsLeft(t));
      FinishesTurn(t);
    }
  }

  lemma NoSteps<T>(s: State<T>)
    ensures After(s, Steps(0)) == s
  {
  }

  /** How many steps a running thread makes until the queue is empty and it is back at its first test. */
  function DrainSteps<T>(s: State<T>): nat { StepsLeft(s) + 7 * |After(s, Steps(StepsLeft(s))).queue| }

  /** While nobody else moves, a thread anywhere in its loop writes out and frees what it holds and the whole queue, in
      order. */
  lemma RunningThreadDrains<T>(s: State<T>)
    requires Running(s) && s.written == s.freed + ToFree(s)
    ensures var t := After(s, Steps(DrainSteps(s)));
            && t.written == s.written + InHand(s) + s.queue && t.freed == t.written
            && t.queue == [] && t.thread.AtStateTest? && t.pushed == s.pushed
  {
    hide After, Step, StepsLeft;
    var m := After(s, Steps(StepsLeft(s)));
    FinishesTurn(s);
    MoreSteps(s, StepsLeft(s), 7 * |m.queue|);
    ThreadDrains(m);
    assert m.written + InHand(m) == m.written && m.freed + ToFree(m) == m.freed;
  }

  // ------------------------------------------------------------- the first test

  /** The thread has been started and has not moved yet. */
  ghost predicate JustStarted<T>(schedule: seq<Action<T>>) {
    var k := First(schedule, StartThread);
    k < |schedule| && forall j :: k < j < |schedule| ==> !schedule[j].ThreadStep?
  }

  /** The last word on `rtmp_state`: set, and not reset by a close since. */
  predicate IsSet<T>(schedule: seq<Action<T>>) {
    schedule != [] && (Last(schedule).SetPushing? || (!Last(schedule).Close? && IsSet(Init(schedule))))
  }

  /** What a thread that has not moved knows. */
  ghost predicate Unmoved<T>(schedule: seq<Action<T>>) {
    var s := Exec(schedule);
    && s.written == []
    && (First(schedule, StartThread) == |schedule| ==> s.thread.NotStarted?)
    && (!s.faulted ==>
          && (JustStarted(schedule) ==> s.thread.AtStateTest?)
          && (s.pushing <==> IsSet(schedule))
          && (s.open <==> Close !in schedule) && (s.connected <==> Disconnect !in schedule))
  }

  lemma {:induction false} UnmovedUntilStep<T>(schedule: seq<Action<T>>)
    requires JustStarted(schedule) || First(schedule, StartThread) == |schedule|
    ensures Unmoved(schedule)
  {
    if schedule != [] {
      var init := Init(schedule);
      assert schedule == init + [Last(schedule)];
      FirstInInit(schedule, StartThread);
      UnmovedUntilStep(init);
      hide First, After;
      assert Exec(schedule) == Step(Exec(init), Last(schedule)) by {
        AfterLast(Initial(), schedule);
      }
    }
  }

  /** The thread survives its first test if and only if `rtmp_state` was set before it, and no close has reset it. */
  lemma FirstTest<T>(schedule: seq<Action<T>>)
    requires JustStarted(schedule) && !Misused(schedule)
    ensures var t := Exec(schedule + [ThreadStep]).thread; if IsSet(schedule) then t.AtRtmpTest? else t.Exited?
  {
    hide Misused;
    FaultsExactlyIfMisused(schedule);
    UnmovedUntilStep(schedule);
    assert Init(schedule + [ThreadStep]) == schedule;
  }

  /** A thread that has exited, or will before it reaches the queue, writes nothing any more. */
  ghost predicate Silent<T>(s: State<T>) {
    s.faulted || s.thread.Exited? || (s.thread.AtRtmpTest? && !s.open)
      || (s.thread.AtConnectionTest? && !(s.open && s.connected))
    || (s.thread.AtRtmpTest? && !s.connected)
  }

  lemma {:induction false} SilentForever<T>(s: State<T>, rest: seq<Action<T>>)
    requires Silent(s)
    ensures Silent(After(s, rest)) && After(s, rest).written == s.written
  {
    if rest != [] {
      SilentForever(s, Init(rest));
    }
  }

  /** A thread that exits at its first test never writes anything, whatever happens afterwards. */
  lemma EarlyExitIsFinal<T>(schedule: seq<Action<T>>, rest: seq<Action<T>>)
    requires JustStarted(schedule) && !IsSet(schedule)
    ensures Exec(schedule + [ThreadStep] + rest).written == []
  {
    hide Misused;
    UnmovedUntilStep(schedule);
    var s := Exec(schedule + [ThreadStep]);
    assert Init(schedule + [ThreadStep]) == schedule;
    SilentForever(s, rest);
    AfterConcat(Initial<T>(), schedule + [ThreadStep], rest);
  }

  /** The thread can ever write anything if and only if, before its first test, the state was set and the connection was
      neither closed nor lost. */
  lemma CanWriteExactlyIf<T>(schedule: seq<Action<T>>, x: T)
    requires JustStarted(schedule)
    ensures (exists rest :: Exec(schedule + [ThreadStep] + rest).written != [])
       <==> IsSet(schedule) && Close !in schedule && Disconnect !in schedule
  {
    var s := Exec(schedule + [ThreadStep]);
    assert Init(schedule + [ThreadStep]) == schedule;
    UnmovedUntilStep(schedule);
    EveryRunTracked(schedule);
    if IsSet(schedule) && Close !in schedule && Disconnect !in schedule {
      AfterConcat(Initial(), schedule + [ThreadStep], [Push(x)] + Steps(5));
      WritesNext(s, x);
    } else {
      forall rest ensures Exec(schedule + [ThreadStep] + rest).written == [] {
        SilentForever(s, rest);
        AfterConcat(Initial(), schedule + [ThreadStep], rest);
      }
    }
  }

  lemma WritesNext<T>(s: State<T>, x: T)
    requires s.thread.AtRtmpTest? && s.open && s.connected && !s.faulted
    ensures After(s, [Push(x)] + Steps(5)).written != []
  {
    var push: seq<Action<T>>, p := [Push(x)], Step(s, Push(x));
    assert Init(push) == [];
    AfterConcat(s, push, Steps(5));
    hide After;
    var looking := p.(thread := AtQueueTest);
    var holding := looking.(thread := Holding(p.queue[0]), queue := p.queue[1..]);
    PastRtmpTest(p);
    TakesItem(looking);
    MoreSteps(p, 2, 3);
    MoreSteps(looking, 2, 1);
    OneStep(holding);
  }

  function Pushes<T>(items: seq<T>): (s: seq<Action<T>>)
    ensures |s| == |items|
  {
    seq(|items|, i requires 0 <= i < |items| => Push(items[i]))
  }

  lemma {:induction false} AllPushed<T>(s: State<T>, items: seq<T>)
    requires s.open && !s.faulted
    ensures var t := After(s, Pushes(items)); t == s.(pushed := s.pushed + items, queue := s.queue + items)
  {
    if items != [] {
      AllPushed(s, Init(items));
      assert Init(Pushes(items)) == Pushes(Init(items));
      assert items == Init(items) + [Last(items)];
    } else {
      assert s.pushed + [] == s.pushed && s.queue + [] == s.queue;
    }
  }

  /** `rtmp_pusher_open` starts the thread, the thread makes its first test, `rtmp_pusher_open` sets the state:
      everything that is pushed afterwards is accepted, and nothing is ever written. */
  lemma LostStart<T>(items: seq<T>, rest: seq<Action<T>>)
    ensures var opening := [StartThread, ThreadStep, SetPushing] + Pushes(items);
            && Exec(opening).pushed == items
            && Exec(opening + rest).written == []
  {
    var early: seq<Action<T>> := [StartThread];
    var opening := [StartThread, ThreadStep, SetPushing];
    assert Init(opening) == [StartThread, ThreadStep] && Init(Init(opening)) == early && Init(early) == [];
    AfterConcat(Initial<T>(), opening, Pushes(items));
    AllPushed(Exec(opening), items);
    EarlyExitIsFinal(early, [SetPushing] + Pushes(items) + rest);
    assert early + [ThreadStep] + ([SetPushing] + Pushes(items) + rest) == opening + Pushes(items) + rest;
  }

  // ------------------------------------------------------------ one turn, in place

  /** How many of its steps the thread makes in a turn of its loop, if nobody else moves. */
  function TurnLength<T>(s: State<T>): nat {
    if !s.pushing then 1 else if !s.open then 2 else if !s.connected then 3 else if s.queue == [] then 4 else 7
  }

  /** The variables that the thread shares with the rest of `rtmp_core.c`, and what it has done with them. */
  class PushingThread<T> {
    const queue: LinkedQueue<T>
    var pushing: bool
    var open: bool
    var connected: bool
    var counter: nat
    var written: seq<Item<T>>
    var freed: seq<Item<T>>
    ghost var pushed: seq<Item<T>>
    ghost var dropped: seq<Item<T>>

    ghost predicate Valid()
      reads this, queue, queue.Repr()
    {
      if open then queue.Valid() else queue.contents == []
    }

    ghost function View(thread: Thread<Item<T>>): State<Item<T>>
      reads this, queue
    {
      State(thread, pushing, open, connected, false, queue.contents, counter, pushed, written, freed, dropped)
    }

    constructor (queue: LinkedQueue<T>)
      requires queue.Valid() && queue.contents == []
      ensures Valid() && this.queue == queue && View(NotStarted) == Initial()
    {
      this.queue := queue;
      pushing, open, connected, counter := false, true, true, 0;
      written, freed, pushed, dropped := [], [], [], [];
    }

    /** One evaluation of the loop condition of `thread_pushing`, and one execution of its body if the condition holds:
        what the steps of the thread do when nobody else moves. The result is whether the loop goes on. */
    method Turn() returns (again: bool)
      requires Valid()
      modifies this, queue
      ensures Valid()
      ensures var s := old(View(AtStateTest));
              View(if again then AtStateTest else Exited) == After(s, Steps(TurnLength(s)))
    {
      hide LinkedQueue.Valid;
      ghost var s := View(AtStateTest);
      TurnEnds(s);
      if !pushing || !open || !connected {
        return false;
      }
      var empty := queue.IsEmpty();
      if empty {
        return true;
      }
      var node := queue.Pop();
      if node == null {
        return true;
      }
      written := written + [Item(node.data, node.size)];
      counter := counter + 1;
      freed := freed + [Item(node.data, node.size)];
      return true;
    }
  }

  lemma TurnEnds<T>(s: State<T>)
    requires s.thread.AtStateTest? && !s.faulted
    ensures var t := After(s, Steps(TurnLength(s)));
            if !(s.pushing && s.open && s.connected) then t == s.(thread := Exited)
            else if s.queue == [] then t == s
            else
              t == s.(queue := s.queue[1..], written := s.written + [s.queue[0]], freed := s.freed + [s.queue[0]],
                      counter := s.counter + 1)
  {
    hide After;
    if s.pushing && s.open && s.connected && s.queue != [] {
      OneTurn(s);
    } else {
      var s1 := Step(s, ThreadStep);
      var s2 := Step(s1, ThreadStep);
      var s3 := Step(s2, ThreadStep);
      OneStep(s);
      OneStep(s1);
      OneStep(s2);
      OneStep(s3);
      NextStep(s, 1);
      NextStep(s, 2);
      NextStep(s, 3);
      NextStep(s1, 1);
      NextStep(s1, 2);
      NextStep(s2, 1);
    }
  }
}
