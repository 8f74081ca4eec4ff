/**
 * Module load and unload of the porting layer (spl_init and spl_fini in
 * module/spl/spl-generic.c): eight subsystems brought up in a fixed order,
 * then the host id, the kallsyms_lookup_name address and the kmem
 * allocator's lookup hook; on a failure everything already brought up is
 * taken down again in reverse order.
 *
 * Each call into a subsystem is opaque here: its return code is an input
 * (Env), and the model records the calls made, in order, as a trace.
 */
module SplInit {

  /** The subsystems with an init and a fini routine. */
  datatype Subsystem = Debug | Kmem | Mutex | Rw | Taskq | Vn | Proc | Kstat

  /** The order spl_init brings them up in. */
  const Order: seq<Subsystem> := [Debug, Kmem, Mutex, Rw, Taskq, Vn, Proc, Kstat]

  /** A call made during load or unload. */
  datatype Event =
    | Init(sub: Subsystem)
    | Fini(sub: Subsystem)
    | SetHostid
    | SetKallsymsLookupName
    | KmemInitKallsymsLookup
    | FiniTsdHashTable

  /**
   * The return codes the calls give: one per subsystem init routine, then
   * set_hostid, set_kallsyms_lookup_name and spl_kmem_init_kallsyms_lookup;
   * and whether the kernel exports kallsyms_lookup_name
   * (HAVE_KALLSYMS_LOOKUP_NAME), in which case set_kallsyms_lookup_name is
   * not compiled in.
   */
  datatype Env = Env(
    initRc: Subsystem -> int,
    hostidRc: int,
    kallsymsRc: int,
    kmemKallsymsRc: int,
    haveKallsymsLookupName: bool)

  /** EADDRNOTAVAIL as Linux numbers it. */
  const EADDRNOTAVAIL: int := 99

  /** The position of a subsystem in Order. */
  function Rank(s: Subsystem): (r: nat)
    ensures r < |Order| && Order[r] == s
  {
    match s
    case Debug => 0
    case Kmem => 1
    case Mutex => 2
    case Rw => 3
    case Taskq => 4
    case Vn => 5
    case Proc => 6
    case Kstat => 7
  }

  /** The init calls of the first n subsystems, in order. */
  function Bringup(n: nat): (t: seq<Event>)
    requires n <= |Order|
    ensures |t| == n
  {
    if n == 0 then [] else Bringup(n - 1) + [Init(Order[n - 1])]
  }

  /** The fini calls of subsystems k..n-1 of Order, last one first. */
  function Unwind(n: nat, k: nat): (t: seq<Event>)
    requires k <= n <= |Order|
    ensures |t| == n - k
    decreases n - k
  {
    if n == k then [] else [Fini(Order[n - 1])] + Unwind(n - 1, k)
  }

  /** The fini calls of the first n subsystems, last one first. */
  function Teardown(n: nat): (t: seq<Event>)
    requires n <= |Order|
    ensures |t| == n
  {
    Unwind(n, 0)
  }

  /** The index in Order of the first subsystem whose init fails at or after j; |Order| if none does. */
  function FirstFailureFrom(env: Env, j: nat): (f: nat)
    requires j <= |Order|
    ensures j <= f <= |Order|
    ensures forall k :: j <= k < f ==> env.initRc(Order[k]) == 0
    ensures f < |Order| ==> env.initRc(Order[f]) != 0
    decreases |Order| - j
  {
    if j == |Order| then j
    else if env.initRc(Order[j]) != 0 then j
    else FirstFailureFrom(env, j + 1)
  }

  function FirstFailure(env: Env): (f: nat)
    ensures f <= |Order|
    ensures forall k :: 0 <= k < f ==> env.initRc(Order[k]) == 0
    ensures f < |Order| ==> env.initRc(Order[f]) != 0
  {
    FirstFailureFrom(env, 0)
  }

  /** The address lookups attempted once every subsystem is up and set_hostid succeeded. */
  function Lookups(env: Env): (r: seq<Event>)
    ensures |r| <= 1
    ensures SetKallsymsLookupName in r <==> !env.haveKallsymsLookupName
  {
    if env.haveKallsymsLookupName then [] else [SetKallsymsLookupName]
  }

  /**
   * spl_init. Everything up to the final RETURN is Startup; a GOTO to one
   * of the labels out8 .. out1 leaves it with that label's number, and the
   * code under the labels, which falls through from outN down to out1, is
   * TakeDown.
   */
  method Load(env: Env) returns (rc: int, trace: seq<Event>)
    ensures var f := FirstFailure(env);
      f < |Order| ==> rc == env.initRc(Order[f]) && trace == Bringup(f + 1) + Teardown(f)
    ensures FirstFailure(env) == |Order| && env.hostidRc != 0 ==>
      rc == -EADDRNOTAVAIL && trace == Bringup(8) + [SetHostid] + Teardown(8)
    ensures FirstFailure(env) == |Order| && env.hostidRc == 0 && !env.haveKallsymsLookupName && env.kallsymsRc != 0 ==>
      rc == -EADDRNOTAVAIL && trace == Bringup(8) + [SetHostid, SetKallsymsLookupName] + Teardown(8)
    ensures FirstFailure(env) == |Order| && env.hostidRc == 0 && (env.haveKallsymsLookupName || env.kallsymsRc == 0) ==>
      rc == env.kmemKallsymsRc &&
      trace == Bringup(8) + [SetHostid] + Lookups(env) + [KmemInitKallsymsLookup] + (if rc == 0 then [] else Teardown(8))
  {
    var target: nat;
    rc, trace, target := Startup(env);
    if target == 0 {
      return;
    }
    var undo := TakeDown(target);
    trace := trace + undo;
  }

  /**
   * The calls of spl_init up to its RETURN. target is 0 when it returns
   * directly (success, or a failing debug_init) and N when it jumps to outN.
   */
  method Startup(env: Env) returns (rc: int, trace: seq<Event>, target: nat)
    ensures target <= |Order|
    ensures var f := FirstFailure(env);
      f < |Order| ==> rc == env.initRc(Order[f]) && trace == Bringup(f + 1) && target == f
    ensures FirstFailure(env) == |Order| && env.hostidRc != 0 ==>
      rc == -EADDRNOTAVAIL && trace == Bringup(8) + [SetHostid] && target == 8
    ensures FirstFailure(env) == |Order| && env.hostidRc == 0 && !env.haveKallsymsLookupName && env.kallsymsRc != 0 ==>
      rc == -EADDRNOTAVAIL && trace == Bringup(8) + [SetHostid, SetKallsymsLookupName] && target == 8
    ensures FirstFailure(env) == |Order| && env.hostidRc == 0 && (env.haveKallsymsLookupName || env.kallsymsRc == 0) ==>
      rc == env.kmemKallsymsRc &&
      trace == Bringup(8) + [SetHostid] + Lookups(env) + [KmemInitKallsymsLookup] &&
      target == (if rc == 0 then 0 else 8)
  {
    target := 0;
    trace := [Init(Debug)];
    rc := env.initRc(Debug);
    if rc != 0 {
      return;
    }
    assert FirstFailure(env) == FirstFailureFrom(env, 1);
    trace := trace + [Init(Kmem)];
    assert trace == Bringup(2);
    rc := env.initRc(Kmem);
    if rc != 0 {
      return rc, trace, 1;
    }
    assert FirstFailure(env) == FirstFailureFrom(env, 2);
    trace := trace + [Init(Mutex)];
    assert trace == Bringup(3);
    rc := env.initRc(Mutex);
    if rc != 0 {
      return rc, trace, 2;
    }
    assert FirstFailure(env) == FirstFailureFrom(env, 3);
    trace := trace + [Init(Rw)];
    assert trace == Bringup(4);
    rc := env.initRc(Rw);
    if rc != 0 {
      return rc, trace, 3;
    }
    assert FirstFailure(env) == FirstFailureFrom(env, 4);
    trace := trace + [Init(Taskq)];
    assert trace == Bringup(5);
    rc := env.initRc(Taskq);
    if rc != 0 {
      return rc, trace, 4;
    }
    assert FirstFailure(env) == FirstFailureFrom(env, 5);
    trace := trace + [Init(Vn)];
    assert trace == Bringup(6);
    rc := env.initRc(Vn);
    if rc != 0 {
      return rc, trace, 5;
    }
    assert FirstFailure(env) == FirstFailureFrom(env, 6);
    trace := trace + [Init(Proc)];
    assert trace == Bringup(7);
    rc := env.initRc(Proc);
    if rc != 0 {
      return rc, trace, 6;
    }
    assert FirstFailure(env) == FirstFailureFrom(env, 7);
    trace := trace + [Init(Kstat)];
    assert trace == Bringup(8);
    rc := env.initRc(Kstat);
    if rc != 0 {
      return rc, trace, 7;
    }
    assert FirstFailure(env) == FirstFailureFrom(env, 8);
    trace := trace + [SetHostid];
    rc := env.hostidRc;
    if rc != 0 {
      return -EADDRNOTAVAIL, trace, 8;
    }
    if !env.haveKallsymsLookupName {
      trace := trace + [SetKallsymsLookupName];
      rc := env.kallsymsRc;
      if rc != 0 {
        return -EADDRNOTAVAIL, trace, 8;
      }
    }
    trace := trace + [KmemInitKallsymsLookup];
    rc := env.kmemKallsymsRc;
    if rc != 0 {
      target := 8;
    }
  }

  /**
   * The code under the labels of spl_init, entered at outN with N = target:
   * each target's fini call, falling through to the next, down to
   * debug_fini under out1.
   */
  method TakeDown(target: nat) returns (trace: seq<Event>)
    requires 1 <= target <= |Order|
    ensures trace == Teardown(target)
  {
    trace := [];
    // out8
    if target >= 8 {
      UnwindStep(target, 7);
      trace := trace + [Fini(Kstat)];
      assert trace == Unwind(target, 7);
    }
    // out7
    if target >= 7 {
      UnwindStep(target, 6);
      trace := trace + [Fini(Proc)];
      assert trace == Unwind(target, 6);
    }
    // out6
    if target >= 6 {
      UnwindStep(target, 5);
      trace := trace + [Fini(Vn)];
      assert trace == Unwind(target, 5);
    }
    // out5
    if target >= 5 {
      UnwindStep(target, 4);
      trace := trace + [Fini(Taskq)];
      assert trace == Unwind(target, 4);
    }
    // out4
    if target >= 4 {
      UnwindStep(target, 3);
      trace := trace + [Fini(Rw)];
      assert trace == Unwind(target, 3);
    }
    // out3
    if target >= 3 {
      UnwindStep(target, 2);
      trace := trace + [Fini(Mutex)];
      assert trace == Unwind(target, 2);
    }
    // out2
    if target >= 2 {
      UnwindStep(target, 1);
      trace := trace + [Fini(Kmem)];
      assert trace == Unwind(target, 1);
    }
    // out1
    if target >= 1 {
      UnwindStep(target, 0);
      trace := trace + [Fini(Debug)];
      assert trace == Unwind(target, 0);
    }
  }

  /** Unwinding k..n-1 is unwinding k+1..n-1 and then taking down subsystem k. */
  lemma {:induction false} UnwindStep(n: nat, k: nat)
    requires k < n <= |Order|
    ensures Unwind(n, k) == Unwind(n, k + 1) + [Fini(Order[k])]
    decreases n - k
  {
    if n > k + 1 {
      UnwindStep(n - 1, k);
    }
  }

  /**
   * spl_fini: the thread-specific-data hash table first, then every
   * subsystem in the reverse of the order spl_init brought them up in.
   */
  method Unload() returns (trace: seq<Event>)
    ensures trace == [FiniTsdHashTable] + Teardown(|Order|)
  {
    trace := [FiniTsdHashTable];
    trace := trace + [Fini(Kstat)];
    trace := trace + [Fini(Proc)];
    trace := trace + [Fini(Vn)];
    trace := trace + [Fini(Taskq)];
    trace := trace + [Fini(Rw)];
    trace := trace + [Fini(Mutex)];
    trace := trace + [Fini(Kmem)];
    trace := trace + [Fini(Debug)];
    UnwindReversed(|Order|, 0);
    assert forall i :: 0 <= i < |trace| ==> trace[i] == ([FiniTsdHashTable] + Teardown(|Order|))[i];
  }

  /** Bringing up n subsystems calls their inits in the order of Order. */
  lemma {:induction false} BringupInOrder(n: nat)
    requires n <= |Order|
    ensures forall i :: 0 <= i < n ==> Bringup(n)[i] == Init(Order[i])
  {
    if n > 0 {
      BringupInOrder(n - 1);
    }
  }

  /** Unwinding k..n-1 calls the finis in the reverse of the order of Order. */
  lemma {:induction false} UnwindReversed(n: nat, k: nat)
    requires k <= n <= |Order|
    ensures forall i :: 0 <= i < n - k ==> Unwind(n, k)[i] == Fini(Order[n - 1 - i])
    decreases n - k
  {
    if n > k {
      UnwindReversed(n - 1, k);
    }
  }

  /**
   * Last in, first out: the i-th fini of a teardown of n subsystems is that
   * of the subsystem brought up (n-1-i)-th, and only those subsystems are
   * taken down.
   */
  lemma TeardownReversesBringup(n: nat)
    requires n <= |Order|
    ensures |Teardown(n)| == |Bringup(n)| == n
    ensures forall i :: 0 <= i < n ==> Bringup(n)[n - 1 - i].Init? && Teardown(n)[i] == Fini(Bringup(n)[n - 1 - i].sub)
    ensures forall s :: Fini(s) in Teardown(n) <==> Rank(s) < n
  {
    BringupInOrder(n);
    UnwindReversed(n, 0);
    forall s
      ensures Fini(s) in Teardown(n) <==> Rank(s) < n
    {
      if Rank(s) < n {
        assert Teardown(n)[n - 1 - Rank(s)] == Fini(s);
      }
      if Fini(s) in Teardown(n) {
        var i :| 0 <= i < n && Teardown(n)[i] == Fini(s);
        assert Order[n - 1 - i] == s;
        RankUnique(s, n - 1 - i);
      }
    }
  }

  /**
   * A failed load takes down exactly the subsystems it brought up, except
   * the one whose init failed; a load that fails after all eight came up
   * takes down all eight.
   */
  lemma FailedLoadBalanced(n: nat)
    requires n <= |Order|
    ensures forall s :: Fini(s) in Teardown(n) <==> Init(s) in Bringup(n)
    ensures n < |Order| ==> Init(Order[n]) in Bringup(n + 1) && Fini(Order[n]) !in Teardown(n)
  {
    TeardownReversesBringup(n);
    BringupInOrder(n);
    forall s
      ensures Init(s) in Bringup(n) <==> Rank(s) < n
    {
      if Rank(s) < n {
        assert Bringup(n)[Rank(s)] == Init(s);
      }
      if Init(s) in Bringup(n) {
        var i :| 0 <= i < n && Bringup(n)[i] == Init(s);
        RankUnique(s, i);
      }
    }
    if n < |Order| {
      BringupInOrder(n + 1);
      assert Bringup(n + 1)[n] == Init(Order[n]);
    }
  }

  /** A subsystem occurs in Order only at its rank. */
  lemma RankUnique(s: Subsystem, j: nat)
    requires j < |Order| && Order[j] == s
    ensures Rank(s) == j
  {
  }
}
