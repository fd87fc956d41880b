/** 64-bit atomics on a 32-bit core (liteos/utils/los_compiler.h): a spinlock chosen by hashing the address
    guards two word accesses. Any number of threads, any interleaving of their steps. */
module Atomics {
  import opened Words

  type uint64 = x: int | 0 <= x < 0x1_0000_0000_0000_0000

  const N_LOCKS: nat := 16

  /** __libatomic_flag_for_address: the lock for an address, in 32-bit arithmetic. */
  function Slot(addr: word): (slot: nat)
    ensures slot < N_LOCKS
  {
    var p1 := Wrap(addr + addr / 4 + addr * 16);
    var p2 := Wrap(p1 + p1 / 128 + p1 * 32);
    var p3 := Wrap(p2 + p2 / 131072 + p2 * 8192);
    p3 % N_LOCKS
  }

  /** Three rounds, each modulo 2^32: the address plus a quarter of it plus 16 times it, then the same with 2^-7 and
      2^5 and with 2^-17 and 2^13; the lock is the remainder modulo 16. */
  lemma {:induction false} SlotRounds(addr: word, p1: word, p2: word, p3: word)
    requires (17 * addr + addr / 4) % 0x1_0000_0000 == p1
    requires (33 * p1 + p1 / 0x80) % 0x1_0000_0000 == p2
    requires (8193 * p2 + p2 / 0x2_0000) % 0x1_0000_0000 == p3
    ensures Slot(addr) == p3 % 16
  {
  }

  function Low(v: uint64): word {
    v % 0x1_0000_0000
  }

  function High(v: uint64): word {
    v / 0x1_0000_0000
  }

  function Join(low: word, high: word): uint64 {
    high * 0x1_0000_0000 + low
  }

  // ----- states and steps

  datatype Op = Load | Store(v: uint64) | Exchange(v: uint64) {
    predicate Reads() { !Store? }
    predicate Writes() { !Load? }
  }

  datatype Half = Unread | Read(w: word)

  /** Where a thread is in `__atomic_load_8`, `__atomic_store_8` or `__atomic_exchange_8`. */
  datatype Thread =
    | Idle
    | Spinning(op: Op, addr: word)
    | Inside(op: Op, addr: word, low: Half, high: Half, lowWritten: bool, highWritten: bool)

  /** A finished call; `ret` is what it returned, if anything. */
  datatype Access = Access(thread: nat, addr: word, op: Op, ret: uint64)

  datatype State = State(flags: seq<bool>, mem: map<int, word>, threads: map<nat, Thread>, log: seq<Access>)

  function At(s: State, t: nat): Thread {
    if t in s.threads then s.threads[t] else Idle
  }

  /** What one thread does next. Either word may be accessed first, but a word is written only after it has
      been read, if it is to be read at all. */
  datatype Step = Call(op: Op, addr: word) | TestAndSet | ReadLow | ReadHigh | WriteLow | WriteHigh | Clear

  predicate Enabled(s: State, t: nat, step: Step, cells: set<word>) {
    var th := At(s, t);
    match step
    case Call(op, addr) => th.Idle? && addr in cells
    case TestAndSet => th.Spinning?
    case ReadLow => th.Inside? && th.op.Reads() && th.low.Unread?
    case ReadHigh => th.Inside? && th.op.Reads() && th.high.Unread?
    case WriteLow => th.Inside? && th.op.Writes() && !th.lowWritten && (th.op.Reads() ==> th.low.Read?)
    case WriteHigh => th.Inside? && th.op.Writes() && !th.highWritten && (th.op.Reads() ==> th.high.Read?)
    case Clear =>
      && th.Inside? && (th.op.Reads() ==> th.low.Read? && th.high.Read?)
      && (th.op.Writes() ==> th.lowWritten && th.highWritten)
  }

  /** All words of the cells are there, and there are as many flags as locks. */
  predicate Shaped(s: State, cells: set<word>) {
    && |s.flags| == N_LOCKS
    && (forall a :: a in cells ==> a as int in s.mem && a + 4 in s.mem)
    && (forall t :: t in s.threads && !s.threads[t].Idle? ==> s.threads[t].addr in cells)
  }

  function Move(s: State, t: nat, th: Thread): State {
    s.(threads := s.threads[t := th])
  }

  function Apply(s: State, t: nat, step: Step, cells: set<word>): State
    requires Shaped(s, cells) && Enabled(s, t, step, cells)
  {
    var th := At(s, t);
    match step
    case Call(op, addr) => Move(s, t, Spinning(op, addr))
    case TestAndSet =>
      if s.flags[Slot(th.addr)] then s
      else Move(s, t, Inside(th.op, th.addr, Unread, Unread, false, false)).(flags := s.flags[Slot(th.addr) := true])
    case ReadLow => Move(s, t, th.(low := Read(s.mem[th.addr])))
    case ReadHigh => Move(s, t, th.(high := Read(s.mem[th.addr + 4])))
    case WriteLow => Move(s, t, th.(lowWritten := true)).(mem := s.mem[th.addr := Low(th.op.v)])
    case WriteHigh => Move(s, t, th.(highWritten := true)).(mem := s.mem[th.addr + 4 := High(th.op.v)])
    case Clear =>
      Move(s, t, Idle).(flags := s.flags[Slot(th.addr) := false],
                        log := s.log
                          + [Access(t, th.addr, th.op, if th.op.Reads() then Join(th.low.w, th.high.w) else 0)])
  }

  // ----- the sequential meaning of the finished calls

  /** The value of a cell after the calls in `log`, done one after the other. */
  ghost function ValueAfter(init: map<word, uint64>, log: seq<Access>, a: word): uint64
    requires a in init
    decreases |log|
  {
    if log == [] then init[a]
    else
      var last := log[|log| - 1];
      if last.addr == a && last.op.Writes() then last.op.v else ValueAfter(init, log[..|log| - 1], a)
  }

  /** Every load and exchange returned what was there before it. */
  ghost predicate Legal(init: map<word, uint64>, log: seq<Access>) {
    forall k :: 0 <= k < |log| ==>
      log[k].addr in init && (log[k].op.Reads() ==> log[k].ret == ValueAfter(init, log[..k], log[k].addr))
  }

  // ----- the invariant

  /** A flag is set exactly if some thread is inside under that lock, and then only one is. */
  ghost predicate Exclusive(s: State)
    requires |s.flags| == N_LOCKS
  {
    && (forall t :: t in s.threads && s.threads[t].Inside? ==> s.flags[Slot(s.threads[t].addr)])
    && (forall t, u :: t in s.threads && u in s.threads && Together(s.threads[t], s.threads[u]) ==> t == u)
    && (forall k :: 0 <= k < N_LOCKS && s.flags[k] ==> Held(s, k))
  }

  ghost predicate Together(th: Thread, other: Thread) {
    th.Inside? && other.Inside? && Slot(th.addr) == Slot(other.addr)
  }

  ghost predicate Held(s: State, k: nat) {
    exists t :: t in s.threads && s.threads[t].Inside? && Slot(s.threads[t].addr) == k
  }

  ghost predicate Busy(s: State, a: word) {
    exists t :: t in s.threads && s.threads[t].Inside? && s.threads[t].addr == a
  }

  /** A thread inside has read halves of the value `v` and replaced those it has written. */
  ghost predicate HalfWay(th: Thread, low: word, high: word, v: uint64)
    requires th.Inside?
  {
    && (th.low.Read? ==> th.low.w == Low(v)) && (th.high.Read? ==> th.high.w == High(v))
    && (th.op.Load? ==> !th.lowWritten && !th.highWritten)
    && (th.op.Reads() ==> (th.lowWritten ==> th.low.Read?) && (th.highWritten ==> th.high.Read?))
    && low == (if th.lowWritten then Low(th.op.v) else Low(v))
    && high == (if th.highWritten then High(th.op.v) else High(v))
  }

  ghost predicate HalfWayAt(s: State, th: Thread, init: map<word, uint64>) {
    th.Inside? ==>
      && th.addr as int in s.mem && th.addr + 4 in s.mem && th.addr in init
      && HalfWay(th, s.mem[th.addr], s.mem[th.addr + 4], ValueAfter(init, s.log, th.addr))
  }

  /** The cell holds the value of the last finished write. */
  ghost predicate Settled(s: State, a: word, init: map<word, uint64>) {
    && a as int in s.mem && a + 4 in s.mem && a in init
    && s.mem[a] == Low(ValueAfter(init, s.log, a)) && s.mem[a + 4] == High(ValueAfter(init, s.log, a))
  }

  ghost predicate Sound(s: State, cells: set<word>, init: map<word, uint64>) {
    && (forall t :: t in s.threads ==> HalfWayAt(s, s.threads[t], init))
    && (forall a :: a in cells && !Busy(s, a) ==> Settled(s, a, init))
  }

  /** The cells do not overlap. */
  predicate Apart(cells: set<word>) {
    forall a, b :: a in cells && b in cells && a < b ==> a + 8 <= b
  }

  ghost predicate Inv(s: State, cells: set<word>, init: map<word, uint64>) {
    && init.Keys == cells && Apart(cells) && Shaped(s, cells)
    && Exclusive(s) && Sound(s, cells, init) && Legal(init, s.log)
  }

  /** Nobody is running, all locks are free, and the memory holds the initial values. */
  ghost predicate Initial(s: State, cells: set<word>, init: map<word, uint64>) {
    && init.Keys == cells && Apart(cells) && Shaped(s, cells) && s.log == []
    && (forall k :: 0 <= k < N_LOCKS ==> !s.flags[k]) && (forall t :: t in s.threads ==> s.threads[t].Idle?)
    && (forall a :: a in cells ==> s.mem[a] == Low(init[a]) && s.mem[a + 4] == High(init[a]))
  }

  /** The state in which the flag table is still zero and the cells hold `init`. */
  ghost function Start(init: map<word, uint64>): State {
    var lows, highs := set a | a in init :: a as int, set a | a in init :: a + 4;
    State(seq(N_LOCKS, _ => false), map p | p in lows + highs :: StartWord(init, p), map[], [])
  }

  ghost function StartWord(init: map<word, uint64>, p: int): word {
    if 0 <= p < 0x1_0000_0000 && p in init then Low(init[p])
    else if 4 <= p < 0x1_0000_0004 && p - 4 in init then High(init[p - 4])
    else 0
  }

  /** Every assignment of values to disjoint cells is a starting point. */
  lemma {:induction false} StartInitial(init: map<word, uint64>)
    requires Apart(init.Keys)
    ensures Initial(Start(init), init.Keys, init)
  {
    hide Low, High, StartWord, Apart, Start;
    var s := Start(init);
    StartShape(init);
    forall a | a in init.Keys
      ensures a as int in s.mem && a + 4 in s.mem && s.mem[a] == Low(init[a]) && s.mem[a + 4] == High(init[a])
    {
      CellStored(init, a);
    }
  }

  lemma StartShape(init: map<word, uint64>)
    ensures var s := Start(init); s.threads == map[] && s.log == [] && s.flags == seq(N_LOCKS, _ => false)
  {
  }

  lemma CellStored(init: map<word, uint64>, a: word)
    requires Apart(init.Keys) && a in init
    ensures var m := Start(init).mem;
      a as int in m && a + 4 in m && m[a] == Low(init[a]) && m[a + 4] == High(init[a])
  {
    hide Low, High, StartWord, Apart;
    assert a as int in (set b | b in init :: b as int) && a + 4 in (set b | b in init :: b + 4);
    StartWords(init, a);
  }

  lemma StartWords(init: map<word, uint64>, a: word)
    requires Apart(init.Keys) && a in init
    ensures StartWord(init, a) == Low(init[a]) && StartWord(init, a + 4) == High(init[a])
  {
    hide Low, High;
    NotACell(init.Keys, a, a + 4);
  }

  lemma NotACell(cells: set<word>, a: word, p: int)
    requires Apart(cells) && a in cells && a < p < a + 8
    ensures p < 0x1_0000_0000 ==> p !in cells
  {
  }

  lemma {:induction false} InitialInv(s: State, cells: set<word>, init: map<word, uint64>)
    requires Initial(s, cells, init)
    ensures Inv(s, cells, init)
  {
  }

  // ----- every step keeps the invariant

  lemma {:induction false} StepShaped(s: State, t: nat, step: Step, cells: set<word>)
    requires Shaped(s, cells) && Enabled(s, t, step, cells)
    ensures Shaped(Apply(s, t, step, cells), cells)
  {
    hide Slot, Low, High, Join;
  }

  /** Whoever does not take the step keeps its place, and so does a thread that stays inside. */
  lemma {:induction false} OthersStay(s: State, t: nat, step: Step, cells: set<word>)
    requires Shaped(s, cells) && Enabled(s, t, step, cells)
    ensures var s' := Apply(s, t, step, cells);
      && (forall u :: u != t ==> At(s', u) == At(s, u))
      && (At(s, t).Inside? && !step.Clear? ==>
            At(s', t).Inside? && At(s', t).addr == At(s, t).addr && At(s', t).op == At(s, t).op)
  {
    hide Slot, Low, High, Join;
  }

  lemma {:induction false} StepExclusive(s: State, t: nat, step: Step, cells: set<word>)
    requires Shaped(s, cells) && Enabled(s, t, step, cells) && Exclusive(s)
    ensures |Apply(s, t, step, cells).flags| == N_LOCKS && Exclusive(Apply(s, t, step, cells))
  {
    hide Slot, Low, High, Join, Held;
    var s' := Apply(s, t, step, cells);
    forall k | 0 <= k < N_LOCKS && s'.flags[k] ensures Held(s', k) {
      StepHeld(s, t, step, cells, k);
    }
  }

  lemma {:induction false} StepHeld(s: State, t: nat, step: Step, cells: set<word>, k: nat)
    requires Shaped(s, cells) && Enabled(s, t, step, cells) && Exclusive(s)
    requires k < N_LOCKS && Apply(s, t, step, cells).flags[k]
    ensures Held(Apply(s, t, step, cells), k)
  {
    hide Slot, Low, High, Join;
    var s' := Apply(s, t, step, cells);
    OthersStay(s, t, step, cells);
    if s.flags[k] {
      var u :| u in s.threads && s.threads[u].Inside? && Slot(s.threads[u].addr) == k;
      assert At(s, u) == s.threads[u];
      assert u in s'.threads && s'.threads[u].Inside? && Slot(s'.threads[u].addr) == k;
    } else {
      assert t in s'.threads && s'.threads[t].Inside? && Slot(s'.threads[t].addr) == k;
    }
  }

  lemma {:induction false} ValueAfterMore(init: map<word, uint64>, log: seq<Access>, access: Access, a: word)
    requires a in init
    ensures ValueAfter(init, log + [access], a) ==
      if access.addr == a && access.op.Writes() then access.op.v else ValueAfter(init, log, a)
  {
    assert (log + [access])[..|log|] == log;
  }

  lemma JoinHalves(v: uint64)
    ensures Join(Low(v), High(v)) == v
  {
  }

  /** A step only touches the memory of its own cell. */
  lemma {:induction false} MemoryKept(s: State, t: nat, step: Step, cells: set<word>, b: word)
    requires Shaped(s, cells) && Apart(cells) && Enabled(s, t, step, cells) && b in cells
    requires At(s, t).Inside? ==> At(s, t).addr != b
    ensures b in Apply(s, t, step, cells).mem && b + 4 in Apply(s, t, step, cells).mem
    ensures Apply(s, t, step, cells).mem[b] == s.mem[b] && Apply(s, t, step, cells).mem[b + 4] == s.mem[b + 4]
  {
    hide Slot, Low, High, Join;
    var th := At(s, t);
    if th.Inside? {
      assert th.addr + 8 <= b || b + 8 <= th.addr;
    }
  }

  lemma {:induction false} ValueKept(s: State, t: nat, step: Step, cells: set<word>, init: map<word, uint64>, b: word)
    requires Shaped(s, cells) && init.Keys == cells && Enabled(s, t, step, cells) && b in cells
    requires step.Clear? ==> At(s, t).addr != b
    ensures ValueAfter(init, Apply(s, t, step, cells).log, b) == ValueAfter(init, s.log, b)
  {
    hide Slot, Low, High, Join;
    if step.Clear? {
      ValueAfterMore(init, s.log, Apply(s, t, step, cells).log[|s.log|], b);
    }
  }

  /** The thread that takes the step. */
  lemma {:induction false} StepHalfWay(s: State, t: nat, step: Step, cells: set<word>, init: map<word, uint64>)
    requires Inv(s, cells, init) && Enabled(s, t, step, cells)
    ensures HalfWayAt(Apply(s, t, step, cells), At(Apply(s, t, step, cells), t), init)
  {
    hide Slot, Low, High, Join, Held, ValueAfter, Legal, Busy;
    var s', th := Apply(s, t, step, cells), At(s, t);
    if th.Spinning? && !s.flags[Slot(th.addr)] {
      NotBusy(s, t, step, cells);
    }
    if th.Inside? {
      assert HalfWayAt(s, s.threads[t], init);
    }
  }

  /** Whoever gets the lock finds nobody at its cell. */
  lemma {:induction false} NotBusy(s: State, t: nat, step: Step, cells: set<word>)
    requires Shaped(s, cells) && Exclusive(s) && At(s, t).Spinning? && !s.flags[Slot(At(s, t).addr)]
    ensures !Busy(s, At(s, t).addr)
  {
    hide Slot;
  }

  /** A cell at which nobody is after the step. */
  lemma {:induction false} StepQuiet(s: State, t: nat, step: Step, cells: set<word>, init: map<word, uint64>, a: word)
    requires Inv(s, cells, init) && Enabled(s, t, step, cells) && a in cells && !Busy(Apply(s, t, step, cells), a)
    ensures Settled(Apply(s, t, step, cells), a, init)
  {
    hide Slot, Low, High, Join, Held, Busy, ValueAfter, Legal, Exclusive;
    var s', th := Apply(s, t, step, cells), At(s, t);
    OthersStay(s, t, step, cells);
    if th.Inside? && th.addr == a {
      if !step.Clear? {
        StaysBusy(s, t, step, cells);
        assert false;
      }
      assert HalfWayAt(s, s.threads[t], init);
      ValueAfterMore(init, s.log, s'.log[|s.log|], a);
    } else {
      QuietBefore(s, t, step, cells, a);
      MemoryKept(s, t, step, cells, a);
      ValueKept(s, t, step, cells, init, a);
    }
  }

  lemma {:induction false} StaysBusy(s: State, t: nat, step: Step, cells: set<word>)
    requires Shaped(s, cells) && Enabled(s, t, step, cells) && At(s, t).Inside? && !step.Clear?
    ensures Busy(Apply(s, t, step, cells), At(s, t).addr)
  {
    hide Slot, Low, High, Join;
    var s' := Apply(s, t, step, cells);
    OthersStay(s, t, step, cells);
    assert t in s'.threads && s'.threads[t].Inside?;
  }

  lemma {:induction false} QuietBefore(s: State, t: nat, step: Step, cells: set<word>, a: word)
    requires Shaped(s, cells) && Enabled(s, t, step, cells) && (At(s, t).Inside? ==> At(s, t).addr != a)
    requires !Busy(Apply(s, t, step, cells), a)
    ensures !Busy(s, a)
  {
    hide Slot, Low, High, Join;
    var s' := Apply(s, t, step, cells);
    OthersStay(s, t, step, cells);
    forall u | u in s.threads && s.threads[u].Inside? ensures s.threads[u].addr != a {
      assert At(s, u) == s.threads[u];
      if u != t {
        assert At(s', u) == At(s, u) && u in s'.threads;
      }
    }
  }

  lemma {:induction false} StepSound(s: State, t: nat, step: Step, cells: set<word>, init: map<word, uint64>)
    requires Inv(s, cells, init) && Enabled(s, t, step, cells)
    ensures Sound(Apply(s, t, step, cells), cells, init)
  {
    hide Slot, Low, High, Join, Held, ValueAfter, Legal, HalfWayAt, Settled, Busy;
    var s' := Apply(s, t, step, cells);
    OthersStay(s, t, step, cells);
    forall u | u in s'.threads ensures HalfWayAt(s', s'.threads[u], init) {
      assert At(s', u) == s'.threads[u];
      if u == t {
        StepHalfWay(s, t, step, cells, init);
      } else {
        OtherHalfWay(s, t, step, cells, init, u);
      }
    }
    forall a | a in cells && !Busy(s', a) ensures Settled(s', a, init) {
      StepQuiet(s, t, step, cells, init, a);
    }
  }

  /** A thread that does not take the step. */
  lemma {:induction false} OtherHalfWay(s: State, t: nat, step: Step, cells: set<word>, init: map<word, uint64>, u: nat)
    requires Inv(s, cells, init) && Enabled(s, t, step, cells) && u != t
    ensures HalfWayAt(Apply(s, t, step, cells), At(s, u), init)
  {
    hide Slot, Low, High, Join, Held, ValueAfter, Legal, HalfWay, Busy, Apply, Exclusive;
    if At(s, u).Inside? {
      var a := At(s, u).addr;
      assert HalfWayAt(s, s.threads[u], init);
      if At(s, t).Inside? {
        OwnCells(s, t, u);
      }
      MemoryKept(s, t, step, cells, a);
      ValueKept(s, t, step, cells, init, a);
    }
  }

  lemma OwnCells(s: State, t: nat, u: nat)
    requires |s.flags| == N_LOCKS && Exclusive(s) && t != u && At(s, t).Inside? && At(s, u).Inside?
    ensures At(s, t).addr != At(s, u).addr && Slot(At(s, t).addr) != Slot(At(s, u).addr)
  {
    hide Slot;
  }

  lemma {:induction false} StepLegal(s: State, t: nat, step: Step, cells: set<word>, init: map<word, uint64>)
    requires Inv(s, cells, init) && Enabled(s, t, step, cells)
    ensures Legal(init, Apply(s, t, step, cells).log)
  {
    hide Slot, Low, High, Join, Held, Busy, ValueAfter, Exclusive;
    var s', th := Apply(s, t, step, cells), At(s, t);
    if step.Clear? {
      JoinHalves(ValueAfter(init, s.log, th.addr));
      assert s'.log[..|s.log|] == s.log;
      forall k | 0 <= k < |s.log| ensures s'.log[k] == s.log[k] && s'.log[..k] == s.log[..k] {
      }
    }
  }

  /** Every step of every thread keeps the invariant. */
  lemma {:induction false} StepInv(s: State, t: nat, step: Step, cells: set<word>, init: map<word, uint64>)
    requires Inv(s, cells, init) && Enabled(s, t, step, cells)
    ensures Inv(Apply(s, t, step, cells), cells, init)
  {
    hide Slot, Apply, Exclusive, Sound, Legal, Apart;
    StepShaped(s, t, step, cells);
    StepExclusive(s, t, step, cells);
    StepSound(s, t, step, cells, init);
    StepLegal(s, t, step, cells, init);
  }
}
