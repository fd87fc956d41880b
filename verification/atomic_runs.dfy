/** What holds of every run of the 64-bit atomics, whatever the number of threads and their interleaving. */
module AtomicRuns {
  import opened Words
  import opened Atomics

  datatype Choice = Choice(thread: nat, step: Step)

  /** Every step of the run can be taken when its turn comes. */
  ghost predicate CanRun(s: State, run: seq<Choice>, cells: set<word>)
    decreases |run|
  {
    run == [] ||
    (Shaped(s, cells) && Enabled(s, run[0].thread, run[0].step, cells)
     && CanRun(Apply(s, run[0].thread, run[0].step, cells), run[1..], cells))
  }

  ghost function End(s: State, run: seq<Choice>, cells: set<word>): State
    requires CanRun(s, run, cells)
    decreases |run|
  {
    if run == [] then s else End(Apply(s, run[0].thread, run[0].step, cells), run[1..], cells)
  }

  lemma {:induction false} RunInv(s: State, run: seq<Choice>, cells: set<word>, init: map<word, uint64>)
    requires Inv(s, cells, init) && CanRun(s, run, cells)
    ensures Inv(End(s, run, cells), cells, init)
    decreases |run|
  {
    hide Inv, Apply, Enabled, Shaped;
    if run != [] {
      StepInv(s, run[0].thread, run[0].step, cells, init);
      RunInv(Apply(s, run[0].thread, run[0].step, cells), run[1..], cells, init);
    }
  }

  /** Two threads are never inside under the same lock. */
  lemma {:induction false} MutualExclusion(s: State, run: seq<Choice>, cells: set<word>, init: map<word, uint64>,
                                           t: nat, u: nat)
    requires Initial(s, cells, init) && CanRun(s, run, cells) && t != u
    requires At(End(s, run, cells), t).Inside? && At(End(s, run, cells), u).Inside?
    ensures Slot(At(End(s, run, cells), t).addr) != Slot(At(End(s, run, cells), u).addr)
  {
    hide CanRun, End, Initial, Slot;
    InitialInv(s, cells, init);
    RunInv(s, run, cells, init);
    OwnCells(End(s, run, cells), t, u);
  }

  /** Linearizability: in the order in which they finish, the calls behave as if done one after the other,
      and a cell at which nobody is holds what the last of them left. */
  lemma {:induction false} Linearizable(s: State, run: seq<Choice>, cells: set<word>, init: map<word, uint64>)
    requires Initial(s, cells, init) && CanRun(s, run, cells)
    ensures Legal(init, End(s, run, cells).log)
    ensures forall a :: a in cells && !Busy(End(s, run, cells), a) ==> Settled(End(s, run, cells), a, init)
  {
    hide CanRun, End, Initial, Legal, Settled, Busy, Exclusive, HalfWayAt;
    InitialInv(s, cells, init);
    RunInv(s, run, cells, init);
  }

  /** A cell at which nobody is holds its value low word first. */
  lemma {:induction false} QuietCell(s: State, run: seq<Choice>, cells: set<word>, init: map<word, uint64>, a: word)
    requires Initial(s, cells, init) && CanRun(s, run, cells) && a in cells && !Busy(End(s, run, cells), a)
    ensures var e := End(s, run, cells);
      && a in init && a as int in e.mem && a + 4 in e.mem
      && e.mem[a] as int + 0x1_0000_0000 * e.mem[a + 4] as int == ValueAfter(init, e.log, a)
  {
    hide CanRun, End, Initial, ValueAfter, Busy, Legal;
    Linearizable(s, run, cells, init);
    assert Settled(End(s, run, cells), a, init);
  }

  /** A value comes from the initial state or from one finished write. */
  lemma {:induction false} ValueOrigin(init: map<word, uint64>, log: seq<Access>, a: word)
    requires a in init
    ensures ValueAfter(init, log, a) == init[a] ||
      exists j :: 0 <= j < |log| && log[j].addr == a && log[j].op.Writes() && log[j].op.v == ValueAfter(init, log, a)
    decreases |log|
  {
    if log != [] && !(log[|log| - 1].addr == a && log[|log| - 1].op.Writes()) {
      ValueOrigin(init, log[..|log| - 1], a);
    }
  }

  /** No torn values: a load or exchange returns the initial value or one whole value written before it. */
  lemma {:induction false} NoTornValue(s: State, run: seq<Choice>, cells: set<word>, init: map<word, uint64>, k: nat)
    requires Initial(s, cells, init) && CanRun(s, run, cells)
    requires k < |End(s, run, cells).log| && End(s, run, cells).log[k].op.Reads()
    ensures var log := End(s, run, cells).log;
      && log[k].addr in init
      && (log[k].ret == init[log[k].addr] ||
          exists j :: 0 <= j < k && log[j].addr == log[k].addr && log[j].op.Writes() && log[j].op.v == log[k].ret)
  {
    hide CanRun, End, Initial, ValueAfter;
    Linearizable(s, run, cells, init);
    var log := End(s, run, cells).log;
    ValueOrigin(init, log[..k], log[k].addr);
    if log[k].ret != init[log[k].addr] {
      var j :| 0 <= j < k && log[..k][j].addr == log[k].addr
        && log[..k][j].op.Writes() && log[..k][j].op.v == log[k].ret;
      assert log[j] == log[..k][j];
    }
  }

  // ----- conservation

  /** All writes to the cell are exchanges. */
  ghost predicate ExchangeOnly(log: seq<Access>, a: word) {
    forall k :: 0 <= k < |log| && log[k].addr == a ==> !log[k].op.Store?
  }

  ghost function Written(log: seq<Access>, a: word): multiset<uint64>
    decreases |log|
  {
    if log == [] then multiset{}
    else
      var last := log[|log| - 1];
      var before := Written(log[..|log| - 1], a);
      if last.addr == a && last.op.Exchange? then before + multiset{last.op.v} else before
  }

  ghost function Returned(log: seq<Access>, a: word): multiset<uint64>
    decreases |log|
  {
    if log == [] then multiset{}
    else
      var last := log[|log| - 1];
      var before := Returned(log[..|log| - 1], a);
      if last.addr == a && last.op.Exchange? then before + multiset{last.ret} else before
  }

  lemma {:induction false} LegalConserves(init: map<word, uint64>, log: seq<Access>, a: word)
    requires Legal(init, log) && ExchangeOnly(log, a) && a in init
    ensures multiset{init[a]} + Written(log, a) == Returned(log, a) + multiset{ValueAfter(init, log, a)}
    decreases |log|
  {
    hide Legal, ExchangeOnly;
    if log != [] {
      var before, last := log[..|log| - 1], log[|log| - 1];
      Shorter(init, log, a);
      LegalConserves(init, before, a);
      if last.addr == a && last.op.Exchange? {
        Swapped(multiset{init[a]} + Written(before, a), Returned(before, a), last.ret, last.op.v);
        var put := multiset{init[a]};
        assert put + (Written(before, a) + multiset{last.op.v}) == put + Written(before, a) + multiset{last.op.v};
      }
    }
  }

  lemma Swapped(put: multiset<uint64>, got: multiset<uint64>, ret: uint64, v: uint64)
    requires put == got + multiset{ret}
    ensures put + multiset{v} == got + multiset{ret} + multiset{v}
  {
  }

  lemma {:induction false} Shorter(init: map<word, uint64>, log: seq<Access>, a: word)
    requires Legal(init, log) && ExchangeOnly(log, a) && log != []
    ensures var before, last := log[..|log| - 1], log[|log| - 1];
      && Legal(init, before) && ExchangeOnly(before, a) && last.addr in init && (last.addr == a ==> !last.op.Store?)
      && (last.op.Reads() ==> last.ret == ValueAfter(init, before, last.addr))
  {
    hide ValueAfter;
    var before := log[..|log| - 1];
    forall k | 0 <= k < |before| ensures before[k] == log[k] && before[..k] == log[..k] {
    }
  }

  /** What was there and what was put in is what was handed out and what is there: no value is lost or doubled
      by exchanges, at any moment when nobody is at the cell. */
  lemma {:induction false} Conservation(s: State, run: seq<Choice>, cells: set<word>, init: map<word, uint64>, a: word)
    requires Initial(s, cells, init) && CanRun(s, run, cells) && a in cells
    requires ExchangeOnly(End(s, run, cells).log, a) && !Busy(End(s, run, cells), a)
    ensures var e := End(s, run, cells);
      && a in init && a as int in e.mem && a + 4 in e.mem
      && multiset{init[a]} + Written(e.log, a) == Returned(e.log, a) + multiset{Join(e.mem[a], e.mem[a + 4])}
  {
    hide CanRun, End, Initial, ValueAfter, ExchangeOnly, Busy, Legal, Low, High, Join, Written, Returned;
    Linearizable(s, run, cells, init);
    var e := End(s, run, cells);
    assert a in init by {
      InitialCells(s, cells, init);
    }
    LegalConserves(init, e.log, a);
    assert Settled(e, a, init);
    JoinHalves(ValueAfter(init, e.log, a));
  }

  lemma InitialCells(s: State, cells: set<word>, init: map<word, uint64>)
    requires Initial(s, cells, init)
    ensures init.Keys == cells
  {
  }

  // ----- progress

  /** How many steps a thread inside still has to take, the release of the lock included. */
  function Remaining(th: Thread): nat {
    if !th.Inside? then 0
    else
      1 + (if th.op.Reads() && th.low.Unread? then 1 else 0) + (if th.op.Reads() && th.high.Unread? then 1 else 0)
        + (if th.op.Writes() && !th.lowWritten then 1 else 0) + (if th.op.Writes() && !th.highWritten then 1 else 0)
  }

  /** A thread inside can always take a step, and any step it takes brings it closer to releasing the lock. */
  lemma {:induction false} HolderMoves(s: State, t: nat, cells: set<word>)
    requires Shaped(s, cells) && At(s, t).Inside?
    ensures exists step :: Enabled(s, t, step, cells)
    ensures forall step :: Enabled(s, t, step, cells) ==>
      Remaining(At(Apply(s, t, step, cells), t)) == Remaining(At(s, t)) - 1
  {
    hide Slot, Low, High, Join;
    var th := At(s, t);
    var step :=
      if th.op.Reads() && th.low.Unread? then ReadLow else if th.op.Reads() && th.high.Unread? then ReadHigh
      else if th.op.Writes() && !th.lowWritten then WriteLow else if th.op.Writes() && !th.highWritten then WriteHigh
      else Clear;
    assert Enabled(s, t, step, cells);
  }

  ghost function StepsOf(run: seq<Choice>, t: nat): nat
    decreases |run|
  {
    if run == [] then 0 else (if run[0].thread == t then 1 else 0) + StepsOf(run[1..], t)
  }

  /** However the others run, a holder has left after its remaining steps, of which there are at most five. */
  lemma {:induction false} HolderLeaves(s: State, run: seq<Choice>, cells: set<word>, t: nat)
    requires CanRun(s, run, cells) && At(s, t).Inside? && StepsOf(run, t) == Remaining(At(s, t))
    ensures Remaining(At(s, t)) <= 5
    ensures exists n :: 0 < n <= |run| && CanRun(s, run[..n], cells) && At(End(s, run[..n], cells), t).Idle?
    decreases |run|
  {
    hide Apply, Shaped;
    var first, rest := run[0], run[1..];
    var s' := Apply(s, first.thread, first.step, cells);
    OthersStay(s, first.thread, first.step, cells);
    if first.thread == t {
      HolderMoves(s, t, cells);
    }
    if At(s', t).Inside? {
      HolderLeaves(s', rest, cells, t);
      var n :| 0 < n <= |rest| && CanRun(s', rest[..n], cells) && At(End(s', rest[..n], cells), t).Idle?;
      assert run[..n + 1][1..] == rest[..n];
      assert CanRun(s, run[..n + 1], cells) && At(End(s, run[..n + 1], cells), t).Idle?;
    } else {
      LeftIdle(s, first.thread, first.step, cells);
      assert run[..1][1..] == [];
      assert CanRun(s, run[..1], cells) && At(End(s, run[..1], cells), t).Idle?;
    }
  }

  lemma {:induction false} LeftIdle(s: State, t: nat, step: Step, cells: set<word>)
    requires Shaped(s, cells) && Enabled(s, t, step, cells) && At(s, t).Inside?
    requires !At(Apply(s, t, step, cells), t).Inside?
    ensures At(Apply(s, t, step, cells), t).Idle?
  {
    hide Slot, Low, High, Join;
  }

  /** Nobody waits in vain: whenever a thread is in a call, it or the holder of its lock can change the state. */
  lemma {:induction false} NoDeadlock(s: State, run: seq<Choice>, cells: set<word>, init: map<word, uint64>, t: nat)
    requires Initial(s, cells, init) && CanRun(s, run, cells) && !At(End(s, run, cells), t).Idle?
    ensures var e := End(s, run, cells);
      exists u, step :: Shaped(e, cells) && Enabled(e, u, step, cells) && Apply(e, u, step, cells) != e
        && (u == t || (At(e, t).Spinning? && At(e, u).Inside? && Slot(At(e, u).addr) == Slot(At(e, t).addr)))
  {
    hide CanRun, End, Initial, Slot, Legal, Sound, Apart;
    InitialInv(s, cells, init);
    RunInv(s, run, cells, init);
    var e := End(s, run, cells);
    var th := At(e, t);
    if th.Inside? {
      HolderChanges(e, t, cells);
    } else if e.flags[Slot(th.addr)] {
      assert Held(e, Slot(th.addr));
      var u :| u in e.threads && e.threads[u].Inside? && Slot(e.threads[u].addr) == Slot(th.addr);
      HolderChanges(e, u, cells);
      assert At(e, u) == e.threads[u];
    } else {
      LockTaken(e, t, cells);
    }
  }

  lemma {:induction false} HolderChanges(s: State, t: nat, cells: set<word>)
    requires Shaped(s, cells) && At(s, t).Inside?
    ensures exists step :: Enabled(s, t, step, cells) && Apply(s, t, step, cells) != s
  {
    hide Apply, Shaped;
    HolderMoves(s, t, cells);
    var step :| Enabled(s, t, step, cells);
    assert Remaining(At(Apply(s, t, step, cells), t)) != Remaining(At(s, t));
  }

  lemma {:induction false} LockTaken(s: State, t: nat, cells: set<word>)
    requires Shaped(s, cells) && At(s, t).Spinning? && !s.flags[Slot(At(s, t).addr)]
    ensures Enabled(s, t, TestAndSet, cells) && Apply(s, t, TestAndSet, cells) != s
  {
    hide Slot;
  }
}
