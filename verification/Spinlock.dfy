/** Spin locks and the per-CPU interrupt nesting (kernel/src/spinlock.c, kernel/src/os.c,
    kernel/src/common.c). */
module Spinlock {

  /** The interrupt flag of a CPU, the flag it had before its outermost lock, and the depth. */
  datatype Interrupts = Interrupts(enabled: bool, saved: bool, nest: int)

  function Off(s: Interrupts): Interrupts {
    Interrupts(false, if s.nest == 0 then s.enabled else s.saved, s.nest + 1)
  }

  /** With interrupts on, or nothing to undo, the call is ignored. */
  function On(s: Interrupts): Interrupts {
    if s.enabled || s.nest <= 0 then s
    else Interrupts(s.nest == 1 && s.saved, s.saved, s.nest - 1)
  }

  datatype Op = Lock | Unlock

  function After(s: Interrupts, ops: seq<Op>): Interrupts {
    if ops == [] then s
    else
      var before := After(s, ops[..|ops| - 1]);
      if ops[|ops| - 1] == Lock then Off(before) else On(before)
  }

  /** Locks taken less locks given up. */
  function Depth(ops: seq<Op>): int {
    if ops == [] then 0 else Depth(ops[..|ops| - 1]) + if ops[|ops| - 1] == Lock then 1 else -1
  }

  /** No lock is given up before it was taken; the order is free, hand over hand included. */
  ghost predicate Legal(ops: seq<Op>) {
    forall n {:trigger ops[..n]} :: 0 <= n <= |ops| ==> Depth(ops[..n]) >= 0
  }

  /** While a CPU holds any lock its interrupts are off, and once it holds none they are as they
      were before the first. */
  lemma {:induction false} InterruptsFollowDepth(s: Interrupts, ops: seq<Op>)
    requires s.nest == 0 && Legal(ops)
    ensures After(s, ops).nest == Depth(ops) >= 0
    ensures Depth(ops) > 0 ==> !After(s, ops).enabled && After(s, ops).saved == s.enabled
    ensures Depth(ops) == 0 ==> After(s, ops).enabled == s.enabled
  {
    if ops != [] {
      var n := |ops| - 1;
      assert ops[..|ops|] == ops;
      forall m {:trigger ops[..n][..m]} | 0 <= m <= n ensures Depth(ops[..n][..m]) >= 0 {
        assert ops[..n][..m] == ops[..m];
      }
      InterruptsFollowDepth(s, ops[..n]);
    }
  }

  class SpinLock {
    var locked: int

    constructor ()
      ensures locked == 0
    {
      locked := 0;
    }

    /** atomic_xchg */
    method Exchange(v: int) returns (was: int)
      modifies this
      ensures was == old(locked) && locked == v
    {
      was, locked := locked, v;
    }

    /** _try_lock: the caller has the lock exactly when it was free. */
    method TryLock() returns (taken: bool)
      modifies this
      ensures locked == 1 && (taken <==> old(locked) == 0)
    {
      var was := Exchange(1);
      taken := was == 0;
    }
  }

  class Cpu {
    var enabled: bool
    var iEnable: bool
    var iNestNum: int

    ghost function State(): Interrupts
      reads this
    {
      Interrupts(enabled, iEnable, iNestNum)
    }

    /** init_cpu */
    constructor (enabled: bool)
      ensures State() == Interrupts(enabled, true, 0)
    {
      this.enabled := enabled;
      iEnable, iNestNum := true, 0;
    }

    /** The flag is saved by the outermost call only. */
    method InterruptOff()
      modifies this
      ensures State() == Off(old(State()))
      ensures !enabled && iNestNum == old(iNestNum) + 1
      ensures iEnable == if old(iNestNum) == 0 then old(enabled) else old(iEnable)
    {
      var oldStatus := enabled;
      enabled := false;
      if iNestNum == 0 { iEnable := oldStatus; }
      iNestNum := iNestNum + 1;
    }

    /** A call that has nothing to undo changes nothing; the outermost gives the saved flag back. */
    method InterruptOn()
      modifies this
      ensures State() == On(old(State()))
      ensures old(enabled) || old(iNestNum) <= 0 ==> State() == old(State())
      ensures !old(enabled) && old(iNestNum) > 0 ==>
          iNestNum == old(iNestNum) - 1 && iEnable == old(iEnable) && (enabled <==> iNestNum == 0 && iEnable)
    {
      if enabled { return; }
      if iNestNum <= 0 { return; }
      iNestNum := iNestNum - 1;
      if iNestNum == 0 && iEnable { enabled := true; }
    }

    /** spin_lock. The lock word is shared: found[k] is what the other CPUs have left in it when the
        k-th exchange reads it, and at some time it is free. The loop ends at the first such
        exchange, with interrupts off all the while. */
    method Lock(lk: SpinLock, found: seq<int>) returns (spins: nat)
      requires 0 in found && forall k {:trigger found[k]} :: 0 <= k < |found| ==> found[k] == 0 || found[k] == 1
      modifies this, lk
      ensures State() == Off(old(State())) && lk.locked == 1
      ensures spins < |found| && found[spins] == 0 && forall k {:trigger found[k]} :: 0 <= k < spins ==> found[k] == 1
    {
      InterruptOff();
      spins := 0;
      lk.locked := found[0];
      var was := lk.Exchange(1);
      while was == 1
        invariant spins < |found| && was == found[spins] && lk.locked == 1
        invariant forall k {:trigger found[k]} :: 0 <= k < spins ==> found[k] == 1
        invariant State() == Off(old(State()))
        decreases |found| - spins
      {
        assert spins + 1 < |found|;
        spins := spins + 1;
        lk.locked := found[spins];
        was := lk.Exchange(1);
      }
    }

    /** spin_unlock */
    method Unlock(lk: SpinLock)
      modifies this, lk
      ensures State() == On(old(State())) && lk.locked == 0
    {
      var was := lk.Exchange(0);
      InterruptOn();
    }
  }
}
