/** The producer and consumer threads of main_pthread.c: two semaphores, a mutex and a buffer of
    five items.  Any number of threads is run in any interleaving, one synchronisation call or
    one access to the shared counter or buffer at a time. */
module BoundedBuffer {

  const BUFFER_SIZE := 5

  // ----- The buffer

  // Result, slots and counter after insert_item.
  datatype Outcome = Outcome(result: int, slots: seq<int>, counter: int, item: int)

  function Insert(slots: seq<int>, counter: int, item: int): Outcome
    requires |slots| == BUFFER_SIZE && 0 <= counter
  {
    if counter < BUFFER_SIZE then Outcome(0, slots[counter := item], counter + 1, item)
    else Outcome(-1, slots, counter, item)
  }

  // item is what the caller's variable holds before the call.
  function Remove(slots: seq<int>, counter: int, item: int): Outcome
    requires |slots| == BUFFER_SIZE && counter <= BUFFER_SIZE
  {
    if counter > 0 then Outcome(0, slots, counter - 1, slots[counter - 1])
    else Outcome(-1, slots, counter, item)
  }

  class Buffer {
    const slots: array<int>
    var counter: int

    ghost predicate Valid()
      reads this
    {
      slots.Length == BUFFER_SIZE && 0 <= counter <= BUFFER_SIZE
    }

    ghost function Contents(): (c: seq<int>)
      requires Valid()
      reads this, slots
    {
      slots[..counter]
    }

    // The buffer part of initializeData
    constructor ()
      ensures Valid() && fresh(slots) && Contents() == []
    {
      slots := new int[BUFFER_SIZE];
      counter := 0;
    }

    /** insert_item: the item goes on top, unless the buffer is full. */
    method InsertItem(item: int) returns (result: int)
      requires Valid()
      modifies this`counter, slots
      ensures Valid() && Outcome(result, slots[..], counter, item) == Insert(old(slots[..]), old(counter), item)
      ensures result == 0 <==> |old(Contents())| < BUFFER_SIZE
      ensures Contents() == if result == 0 then old(Contents()) + [item] else old(Contents())
    {
      if counter < BUFFER_SIZE {
        slots[counter] := item;
        counter := counter + 1;
        return 0;
      } else {
        return -1;
      }
    }

    /** remove_item: the top item is taken, unless the buffer is empty. */
    method RemoveItem(previous: int) returns (result: int, item: int)
      requires Valid()
      modifies this`counter
      ensures Valid() && Outcome(result, slots[..], counter, item) == Remove(old(slots[..]), old(counter), previous)
      ensures result == 0 <==> old(Contents()) != []
      ensures if result == 0 then old(Contents()) == Contents() + [item]
              else Contents() == old(Contents()) && item == previous
    {
      item := previous;
      if counter > 0 {
        item := slots[counter - 1];
        counter := counter - 1;
        result := 0;
      } else {
        result := -1;
      }
    }
  }

  // ----- The threads

  // Where a thread is in its loop: before its semaphore, before the mutex, and then with the
  // mutex held: before the test of the counter, before the access to the slot, before loading
  // the counter, before storing it, and after the operation; and before its post.
  datatype Pc = Idle | Waited | Locked | Tested | Accessed | Loaded | Operated | Unlocked

  // item is the thread's variable, register holds the counter between its load and its store.
  datatype Thread =
    | Producer(pc: Pc, item: int, register: int)
    | Consumer(pc: Pc, item: int, register: int)

  datatype Mutex = Free | Held(holder: nat)

  datatype State = State(threads: seq<Thread>, empty: int, full: int, mutex: Mutex, slots: seq<int>, counter: int,
                         inserted: multiset<int>, consumed: multiset<int>, failures: nat)

  ghost predicate Initial(s: State) {
    && (forall i :: 0 <= i < |s.threads| ==> s.threads[i].pc == Idle)
    && s.empty == BUFFER_SIZE && s.full == 0 && s.mutex == Free && |s.slots| == BUFFER_SIZE && s.counter == 0
    && s.inserted == multiset{} && s.consumed == multiset{} && s.failures == 0
  }

  // Whether thread i can take its next step: only the two waits and the lock can block.
  predicate Enabled(s: State, i: nat)
    requires i < |s.threads|
  {
    match s.threads[i].pc
    case Idle => if s.threads[i].Producer? then s.empty > 0 else s.full > 0
    case Waited => s.mutex == Free
    case _ => true
  }

  // Waits, locks, unlocks and posts; a producer at the head of its loop has just drawn value.
  function Synchronise(s: State, i: nat, value: int): State
    requires i < |s.threads|
  {
    var t := s.threads[i];
    match t.pc
    case Idle =>
      if t.Producer? then s.(empty := s.empty - 1, threads := s.threads[i := t.(pc := Waited, item := value)])
      else s.(full := s.full - 1, threads := s.threads[i := t.(pc := Waited)])
    case Waited => s.(mutex := Held(i), threads := s.threads[i := t.(pc := Locked)])
    case Operated => s.(mutex := Free, threads := s.threads[i := t.(pc := Unlocked)])
    case _ =>
      if t.Producer? then s.(full := s.full + 1, threads := s.threads[i := t.(pc := Idle)])
      else s.(empty := s.empty + 1, threads := s.threads[i := t.(pc := Idle)])
  }

  // One access of insert_item or remove_item.  The item counts as inserted or consumed when the
  // counter is stored; a failed test and an access outside the buffer count as failures.
  function Access(s: State, i: nat): State
    requires i < |s.threads| && |s.slots| == BUFFER_SIZE
  {
    var t := s.threads[i];
    match t.pc
    case Locked =>
      if (if t.Producer? then s.counter < BUFFER_SIZE else s.counter > 0)
      then s.(threads := s.threads[i := t.(pc := Tested)])
      else s.(threads := s.threads[i := t.(pc := Operated)], failures := s.failures + 1)
    case Tested =>
      var r := s.(threads := s.threads[i := t.(pc := Accessed)]);
      if t.Producer? && 0 <= s.counter < BUFFER_SIZE then r.(slots := s.slots[s.counter := t.item])
      else if t.Consumer? && 0 < s.counter <= BUFFER_SIZE then
        s.(threads := s.threads[i := t.(pc := Accessed, item := s.slots[s.counter - 1])])
      else r.(failures := s.failures + 1)
    case Accessed => s.(threads := s.threads[i := t.(pc := Loaded, register := s.counter)])
    case _ =>
      var r := s.(threads := s.threads[i := t.(pc := Operated)]);
      if t.Producer? then r.(counter := t.register + 1, inserted := s.inserted + multiset{t.item})
      else r.(counter := t.register - 1, consumed := s.consumed + multiset{t.item})
  }

  // Between the test and the store.
  predicate Working(t: Thread) { t.pc == Locked || t.pc == Tested || t.pc == Accessed || t.pc == Loaded }

  function Step(s: State, i: nat, value: int): (r: State)
    requires i < |s.threads| && |s.slots| == BUFFER_SIZE
    ensures |r.threads| == |s.threads| && |r.slots| == BUFFER_SIZE
  {
    if Working(s.threads[i]) then Access(s, i) else Synchronise(s, i, value)
  }

  // A thread that the scheduler picks while it is blocked stays where it is.
  datatype Pick = Pick(thread: nat, value: int)

  function Run(s: State, schedule: seq<Pick>, n: nat): (r: State)
    requires n <= |schedule| && forall k :: 0 <= k < |schedule| ==> schedule[k].thread < |s.threads|
    requires |s.slots| == BUFFER_SIZE
    ensures |r.threads| == |s.threads| && |r.slots| == BUFFER_SIZE
  {
    if n == 0 then s
    else
      var r := Run(s, schedule, n - 1);
      var p := schedule[n - 1];
      if Enabled(r, p.thread) then Step(r, p.thread, p.value) else r
  }

  // ----- The invariant

  // Threads past their wait that have not stored the counter.
  predicate Reserving(t: Thread, producer: bool) { t.Producer? == producer && (t.pc == Waited || Working(t)) }

  // Threads past the store that have not posted.
  predicate Finishing(t: Thread, producer: bool) { t.Producer? == producer && (t.pc == Operated || t.pc == Unlocked) }

  function Reservations(ts: seq<Thread>, producer: bool, n: nat): nat
    requires n <= |ts|
  {
    if n == 0 then 0 else Reservations(ts, producer, n - 1) + (if Reserving(ts[n - 1], producer) then 1 else 0)
  }

  function Finishers(ts: seq<Thread>, producer: bool, n: nat): nat
    requires n <= |ts|
  {
    if n == 0 then 0 else Finishers(ts, producer, n - 1) + (if Finishing(ts[n - 1], producer) then 1 else 0)
  }

  predicate InSection(t: Thread) { Working(t) || t.pc == Operated }

  ghost predicate Exclusive(s: State) {
    && (forall i: nat :: i < |s.threads| ==> (InSection(s.threads[i]) <==> s.mutex == Held(i)))
    && (s.mutex.Held? ==> s.mutex.holder < |s.threads|)
  }

  // The two semaphores against the counter: every place is free, promised, filled or being freed.
  ghost predicate Balanced(s: State) {
    && 0 <= s.counter <= BUFFER_SIZE && s.empty >= 0 && s.full >= 0
    && s.empty + s.counter + Reservations(s.threads, true, |s.threads|) + Finishers(s.threads, false, |s.threads|)
        == BUFFER_SIZE
    && s.full + Reservations(s.threads, false, |s.threads|) + Finishers(s.threads, true, |s.threads|) == s.counter
  }

  // What a thread has seen of the buffer is still so.
  ghost predicate UpToDate(s: State, t: Thread)
    requires |s.slots| == BUFFER_SIZE && 0 <= s.counter <= BUFFER_SIZE
  {
    && (t.pc == Loaded ==> t.register == s.counter)
    && (t.pc == Accessed || t.pc == Loaded ==>
          if t.Producer? then s.counter < BUFFER_SIZE && s.slots[s.counter] == t.item
          else s.counter > 0 && s.slots[s.counter - 1] == t.item)
  }

  ghost predicate Inv(s: State) {
    && |s.slots| == BUFFER_SIZE
    && Exclusive(s)
    && Balanced(s)
    && (forall i: nat :: i < |s.threads| ==> UpToDate(s, s.threads[i]))
    && s.inserted == s.consumed + multiset(s.slots[..s.counter])
    && s.failures == 0
  }

  lemma {:induction false} CountUpdate(ts: seq<Thread>, i: nat, t: Thread, producer: bool, n: nat)
    requires i < |ts| && n <= |ts|
    ensures Reservations(ts[i := t], producer, n) == Reservations(ts, producer, n)
      + (if i < n then (if Reserving(t, producer) then 1 else 0) - (if Reserving(ts[i], producer) then 1 else 0) else 0)
    ensures Finishers(ts[i := t], producer, n) == Finishers(ts, producer, n)
      + (if i < n then (if Finishing(t, producer) then 1 else 0) - (if Finishing(ts[i], producer) then 1 else 0) else 0)
  {
    hide Reserving, Finishing;
    if n > 0 { CountUpdate(ts, i, t, producer, n - 1); }
  }

  lemma {:induction false} CountMember(ts: seq<Thread>, i: nat, producer: bool, n: nat)
    requires i < n <= |ts|
    ensures Reserving(ts[i], producer) ==> Reservations(ts, producer, n) >= 1
    ensures Finishing(ts[i], producer) ==> Finishers(ts, producer, n) >= 1
  {
    hide Reserving, Finishing;
    if i < n - 1 { CountMember(ts, i, producer, n - 1); }
  }

  lemma {:induction false} CountNone(ts: seq<Thread>, producer: bool, n: nat)
    requires n <= |ts| && forall i :: 0 <= i < n ==> ts[i].pc == Idle
    ensures Reservations(ts, producer, n) == 0 && Finishers(ts, producer, n) == 0
  {
    if n > 0 { CountNone(ts, producer, n - 1); }
  }

  lemma InitialInv(s: State)
    requires Initial(s)
    ensures Inv(s)
  {
    CountNone(s.threads, true, |s.threads|);
    CountNone(s.threads, false, |s.threads|);
    assert s.slots[..0] == [];
  }

  // Before its store a producer finds a free place and a consumer an item.
  lemma RoomInside(s: State, i: nat)
    requires Balanced(s) && i < |s.threads| && Working(s.threads[i])
    ensures if s.threads[i].Producer? then s.counter < BUFFER_SIZE else s.counter > 0
  {
    CountMember(s.threads, i, true, |s.threads|);
    CountMember(s.threads, i, false, |s.threads|);
  }

  /** Every step of every thread keeps the invariant. */
  lemma StepInv(s: State, i: nat, value: int)
    requires Inv(s) && i < |s.threads| && Enabled(s, i)
    ensures Inv(Step(s, i, value))
  {
    hide Balanced, Exclusive, UpToDate, Step;
    StepExclusive(s, i, value);
    StepBalanced(s, i, value);
    StepUpToDate(s, i, value);
    StepItems(s, i, value);
  }

  lemma StepExclusive(s: State, i: nat, value: int)
    requires Inv(s) && i < |s.threads| && Enabled(s, i)
    ensures Exclusive(Step(s, i, value))
  {
    hide Balanced, UpToDate;
    var r := Step(s, i, value);
    assert InSection(s.threads[i]) <==> s.mutex == Held(i);
    forall k: nat | k < |r.threads| ensures InSection(r.threads[k]) <==> r.mutex == Held(k) {
      assert InSection(s.threads[k]) <==> s.mutex == Held(k);
    }
  }

  lemma StepBalanced(s: State, i: nat, value: int)
    requires Inv(s) && i < |s.threads| && Enabled(s, i)
    ensures Balanced(Step(s, i, value))
  {
    hide Balanced, Exclusive, UpToDate, Access, Synchronise;
    RangeOf(s);
    if Working(s.threads[i]) { AccessBalanced(s, i); } else { SynchroniseBalanced(s, i, value); }
  }

  lemma SynchroniseBalanced(s: State, i: nat, value: int)
    requires Balanced(s) && i < |s.threads| && Enabled(s, i) && !Working(s.threads[i])
    ensures Balanced(Synchronise(s, i, value))
  {
    hide Reservations, Finishers;
    var t, n := Synchronise(s, i, value).threads[i], |s.threads|;
    CountUpdate(s.threads, i, t, true, n);
    CountUpdate(s.threads, i, t, false, n);
  }

  lemma AccessBalanced(s: State, i: nat)
    requires Balanced(s) && |s.slots| == BUFFER_SIZE && i < |s.threads| && Working(s.threads[i])
    requires UpToDate(s, s.threads[i])
    ensures Balanced(Access(s, i))
  {
    hide Reservations, Finishers;
    RoomInside(s, i);
    var r, n := Access(s, i), |s.threads|;
    AccessEffect(s, i);
    CountUpdate(s.threads, i, r.threads[i], true, n);
    CountUpdate(s.threads, i, r.threads[i], false, n);
    hide Access, UpToDate;
  }

  // The counter moves at the store only, and then by one.
  lemma AccessEffect(s: State, i: nat)
    requires |s.slots| == BUFFER_SIZE && 0 <= s.counter <= BUFFER_SIZE && i < |s.threads| && Working(s.threads[i])
    requires UpToDate(s, s.threads[i])
    requires if s.threads[i].Producer? then s.counter < BUFFER_SIZE else s.counter > 0
    ensures var r, t := Access(s, i), s.threads[i];
      && r.threads == s.threads[i := r.threads[i]] && r.threads[i].Producer? == t.Producer?
      && r.empty == s.empty && r.full == s.full
      && if t.pc == Loaded then
           r.threads[i].pc == Operated && r.counter == if t.Producer? then s.counter + 1 else s.counter - 1
         else Working(r.threads[i]) && r.counter == s.counter
  {}

  // The mutex keeps what a working thread has seen from changing under it.
  lemma StepUpToDate(s: State, i: nat, value: int)
    requires Inv(s) && i < |s.threads| && Enabled(s, i)
    ensures var r := Step(s, i, value);
      Balanced(r) && forall k: nat :: k < |r.threads| ==> UpToDate(r, r.threads[k])
  {
    hide Balanced, Step, UpToDate, Exclusive;
    StepBalanced(s, i, value);
    var r := Step(s, i, value);
    RangeOf(r);
    RangeOf(s);
    forall k: nat | k < |r.threads| ensures UpToDate(r, r.threads[k]) {
      assert UpToDate(s, s.threads[k]) && UpToDate(s, s.threads[i]);
      if Working(s.threads[i]) { RoomInside(s, i); }
      ThreadUpToDate(s, i, value, k);
    }
  }

  lemma ThreadUpToDate(s: State, i: nat, value: int, k: nat)
    requires |s.slots| == BUFFER_SIZE && 0 <= s.counter <= BUFFER_SIZE && i < |s.threads| && k < |s.threads|
    requires Exclusive(s) && UpToDate(s, s.threads[k]) && UpToDate(s, s.threads[i])
    requires Working(s.threads[i]) ==> if s.threads[i].Producer? then s.counter < BUFFER_SIZE else s.counter > 0
    requires 0 <= Step(s, i, value).counter <= BUFFER_SIZE
    ensures UpToDate(Step(s, i, value), Step(s, i, value).threads[k])
  {
    if k != i {
      if Working(s.threads[i]) && Working(s.threads[k]) {
        OneInside(s, i, k);
        assert false;
      }
    }
  }

  lemma OneInside(s: State, i: nat, k: nat)
    requires Exclusive(s) && i < |s.threads| && k < |s.threads| && Working(s.threads[i]) && Working(s.threads[k])
    ensures i == k
  {
    assert InSection(s.threads[i]) && InSection(s.threads[k]);
    assert s.mutex == Held(k) && s.mutex == Held(i);
  }

  lemma RangeOf(s: State)
    requires Balanced(s)
    ensures 0 <= s.counter <= BUFFER_SIZE
  {}

  lemma StepItems(s: State, i: nat, value: int)
    requires Inv(s) && i < |s.threads| && Enabled(s, i)
    ensures var r := Step(s, i, value);
      Balanced(r) && r.inserted == r.consumed + multiset(r.slots[..r.counter]) && r.failures == 0
  {
    hide Balanced, Exclusive, UpToDate, Access;
    StepBalanced(s, i, value);
    RangeOf(s);
    assert UpToDate(s, s.threads[i]);
    if Working(s.threads[i]) {
      RoomInside(s, i);
      AccessItems(s, i);
    }
  }

  lemma AccessItems(s: State, i: nat)
    requires |s.slots| == BUFFER_SIZE && 0 <= s.counter <= BUFFER_SIZE && i < |s.threads| && Working(s.threads[i])
    requires if s.threads[i].Producer? then s.counter < BUFFER_SIZE else s.counter > 0
    requires UpToDate(s, s.threads[i]) && s.inserted == s.consumed + multiset(s.slots[..s.counter]) && s.failures == 0
    ensures var r := Access(s, i);
      0 <= r.counter <= BUFFER_SIZE && r.inserted == r.consumed + multiset(r.slots[..r.counter]) && r.failures == 0
  {
    var t, r := s.threads[i], Access(s, i);
    if t.pc == Loaded {
      if t.Producer? {
        assert r.slots[..r.counter] == s.slots[..s.counter] + [t.item];
      } else {
        assert s.slots[..s.counter] == r.slots[..r.counter] + [t.item];
      }
    } else {
      assert r.slots[..r.counter] == s.slots[..s.counter];
    }
  }

  /** A working thread that is not delayed performs exactly insert_item or remove_item. */
  lemma SectionIsOperation(s: State, i: nat, v: int)
    requires Inv(s) && i < |s.threads| && s.threads[i].pc == Locked
    ensures var r := Step(Step(Step(Step(s, i, v), i, v), i, v), i, v);
      var t := s.threads[i];
      Outcome(0, r.slots, r.counter, r.threads[i].item)
        == if t.Producer? then Insert(s.slots, s.counter, t.item) else Remove(s.slots, s.counter, t.item)
  {
    RoomInside(s, i);
    hide Balanced, Exclusive, UpToDate;
  }

  /** In every state of every run no buffer operation has failed, the counter is in range, items
      are conserved, and at most one thread is in the critical section. */
  lemma {:induction false} RunIsSafe(s: State, schedule: seq<Pick>, n: nat)
    requires Initial(s) && n <= |schedule| && forall k :: 0 <= k < |schedule| ==> schedule[k].thread < |s.threads|
    ensures var r := Run(s, schedule, n);
      && Inv(r) && r.failures == 0
      && 0 <= r.counter <= BUFFER_SIZE && 0 <= r.empty <= BUFFER_SIZE && 0 <= r.full <= BUFFER_SIZE
      && r.inserted == r.consumed + multiset(r.slots[..r.counter])
      && forall i, j ::
           0 <= i < |r.threads| && 0 <= j < |r.threads| && InSection(r.threads[i]) && InSection(r.threads[j]) ==> i == j
  {
    hide Step, Enabled, Reservations, Finishers;
    if n == 0 {
      InitialInv(s);
    } else {
      RunIsSafe(s, schedule, n - 1);
      var r, p := Run(s, schedule, n - 1), schedule[n - 1];
      if Enabled(r, p.thread) { StepInv(r, p.thread, p.value); }
    }
    MutualExclusion(Run(s, schedule, n));
  }

  lemma MutualExclusion(s: State)
    requires Inv(s)
    ensures forall i: nat, j: nat ::
              i < |s.threads| && j < |s.threads| && InSection(s.threads[i]) && InSection(s.threads[j]) ==> i == j
    ensures s.empty <= BUFFER_SIZE && s.full <= BUFFER_SIZE
  {
    hide Reservations, Finishers, InSection;
    forall i: nat, j: nat
      | i < |s.threads| && j < |s.threads| && InSection(s.threads[i]) && InSection(s.threads[j])
      ensures i == j
    {
      assert s.mutex == Held(i) && s.mutex == Held(j);
    }
  }

  /** Without the mutex two producers could store the same counter, and an item would be lost. */
  lemma LostUpdate(s: State, i: nat, j: nat, v: int)
    requires i < |s.threads| && j < |s.threads| && i != j && |s.slots| == BUFFER_SIZE && 0 <= s.counter < BUFFER_SIZE
    requires s.threads[i] == Producer(Loaded, s.threads[i].item, s.counter)
    requires s.threads[j] == Producer(Loaded, s.threads[j].item, s.counter)
    requires s.inserted == s.consumed + multiset(s.slots[..s.counter])
    ensures var r := Step(Step(s, i, v), j, v);
      r.counter == s.counter + 1 && r.inserted != r.consumed + multiset(r.slots[..r.counter])
  {
    var r := Step(Step(s, i, v), j, v);
    assert |multiset(s.slots[..s.counter])| == s.counter && |multiset(r.slots[..r.counter])| == r.counter;
    assert |r.inserted| == |s.inserted| + 2;
  }

  // Runs of the program without its lock: only the two waits can block.
  predicate EnabledUnlocked(s: State, i: nat)
    requires i < |s.threads|
  {
    s.threads[i].pc == Waited || Enabled(s, i)
  }

  function RunUnlocked(s: State, schedule: seq<nat>, value: int, n: nat): (r: State)
    requires n <= |schedule| && forall k :: 0 <= k < |schedule| ==> schedule[k] < |s.threads|
    requires |s.slots| == BUFFER_SIZE
    ensures |r.threads| == |s.threads| && |r.slots| == BUFFER_SIZE
  {
    if n == 0 then s
    else
      var r := RunUnlocked(s, schedule, value, n - 1);
      if EnabledUnlocked(r, schedule[n - 1]) then Step(r, schedule[n - 1], value) else r
  }

  // Five steps take an idle producer up to its store.
  lemma UpToStore(s: State, schedule: seq<nat>, v: int, n: nat, i: nat)
    requires n + 5 <= |schedule| && forall k :: 0 <= k < |schedule| ==> schedule[k] < |s.threads|
    requires forall k :: n <= k < n + 5 ==> schedule[k] == i
    requires |s.slots| == BUFFER_SIZE && i < |s.threads|
    requires var b := RunUnlocked(s, schedule, v, n);
      b.threads[i].Producer? && b.threads[i].pc == Idle && b.empty > 0 && 0 <= b.counter < BUFFER_SIZE
    ensures var b, r := RunUnlocked(s, schedule, v, n), RunUnlocked(s, schedule, v, n + 5);
      && r.threads == b.threads[i := Producer(Loaded, v, b.counter)] && r.empty == b.empty - 1
      && r.counter == b.counter && r.inserted == b.inserted && r.consumed == b.consumed
  {
    var b := RunUnlocked(s, schedule, v, n);
    var b1, b2, b3 := RunUnlocked(s, schedule, v, n + 1), RunUnlocked(s, schedule, v, n + 2),
      RunUnlocked(s, schedule, v, n + 3);
    var b4 := RunUnlocked(s, schedule, v, n + 4);
    assert b1 == Step(b, i, v) && b1.threads == b.threads[i := b.threads[i].(pc := Waited, item := v)];
    assert b2 == Step(b1, i, v) && b2.threads == b.threads[i := b1.threads[i].(pc := Locked)];
    assert b3 == Step(b2, i, v) && b3.threads == b.threads[i := b1.threads[i].(pc := Tested)];
    assert b4 == Step(b3, i, v) && b4.threads == b.threads[i := b1.threads[i].(pc := Accessed)];
    assert RunUnlocked(s, schedule, v, n + 5) == Step(b4, i, v);
  }

  /** Without its lock the program does reach such a state: from any initial state with two
      producers, twelve steps insert two items and leave one in the buffer. */
  lemma UnlockedRunLoses(s: State, i: nat, j: nat, v: int)
    requires Initial(s) && i < |s.threads| && j < |s.threads| && i != j
    requires s.threads[i].Producer? && s.threads[j].Producer?
    ensures var r := RunUnlocked(s, [i, i, i, i, i, j, j, j, j, j, i, j], v, 12);
      r.counter == 1 && r.inserted != r.consumed + multiset(r.slots[..r.counter])
  {
    hide Step;
    var schedule := [i, i, i, i, i, j, j, j, j, j, i, j];
    UpToStore(s, schedule, v, 0, i);
    UpToStore(s, schedule, v, 5, j);
    var b := RunUnlocked(s, schedule, v, 10);
    assert s.inserted == multiset{};
    assert b.threads[i] == Producer(Loaded, v, 0) && b.threads[j] == Producer(Loaded, v, 0);
    LostUpdate(b, i, j, v);
    StoreKeepsOther(b, i, j, v);
    assert RunUnlocked(s, schedule, v, 11) == Step(b, i, v);
    assert RunUnlocked(s, schedule, v, 12) == Step(Step(b, i, v), j, v);
  }

  lemma StoreKeepsOther(s: State, i: nat, j: nat, v: int)
    requires i < |s.threads| && j < |s.threads| && i != j && |s.slots| == BUFFER_SIZE && s.threads[i].pc == Loaded
    ensures Step(s, i, v).threads[j] == s.threads[j]
  {}

  /** With at least one producer and one consumer some thread can always take a step. */
  lemma NeverStuck(s: State, p: nat, c: nat) returns (i: nat)
    requires Inv(s) && p < |s.threads| && c < |s.threads| && s.threads[p].Producer? && s.threads[c].Consumer?
    ensures i < |s.threads| && Enabled(s, i)
  {
    hide Reservations, Finishers, UpToDate;
    if s.mutex.Held? {
      i := s.mutex.holder;
      assert InSection(s.threads[i]);
    } else if k :| 0 <= k < |s.threads| && s.threads[k].pc != Idle {
      i := k;
      assert InSection(s.threads[k]) <==> s.mutex == Held(k);
    } else {
      CountNone(s.threads, true, |s.threads|);
      CountNone(s.threads, false, |s.threads|);
      i := if s.empty > 0 then p else c;
    }
  }

  /** The threads keep their kinds, so this holds in every state of every run of such threads. */
  lemma {:induction false} RunNeverStuck(s: State, schedule: seq<Pick>, n: nat, p: nat, c: nat) returns (i: nat)
    requires Initial(s) && n <= |schedule| && forall k :: 0 <= k < |schedule| ==> schedule[k].thread < |s.threads|
    requires p < |s.threads| && c < |s.threads| && s.threads[p].Producer? && s.threads[c].Consumer?
    ensures i < |s.threads| && Enabled(Run(s, schedule, n), i)
  {
    hide Inv, Enabled;
    RunIsSafe(s, schedule, n);
    KindsKept(s, schedule, n, p);
    KindsKept(s, schedule, n, c);
    i := NeverStuck(Run(s, schedule, n), p, c);
  }

  lemma {:induction false} KindsKept(s: State, schedule: seq<Pick>, n: nat, i: nat)
    requires n <= |schedule| && forall k :: 0 <= k < |schedule| ==> schedule[k].thread < |s.threads|
    requires |s.slots| == BUFFER_SIZE && i < |s.threads|
    ensures Run(s, schedule, n).threads[i].Producer? == s.threads[i].Producer?
  {
    hide Step, Enabled;
    if n > 0 {
      KindsKept(s, schedule, n - 1, i);
      StepKeepsKind(Run(s, schedule, n - 1), schedule[n - 1].thread, schedule[n - 1].value, i);
    }
  }

  lemma StepKeepsKind(s: State, k: nat, value: int, i: nat)
    requires k < |s.threads| && i < |s.threads| && |s.slots| == BUFFER_SIZE
    ensures Step(s, k, value).threads[i].Producer? == s.threads[i].Producer?
  {}
}
