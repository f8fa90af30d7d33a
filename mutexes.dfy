/** The mutex-guarded counter of Mutexes/1-Intro.go, run one operation at a
    time.  The `*sync.Mutex` is a flag: an operation finds it free, takes it,
    and releases it on every way out (the deferred `Unlock`). */
module Mutexes {
  import opened Maps
  import opened Loops

  /** `n` successive `counts[key]++` on the map `m`. */
  function IncrementTimes(m: map<string, int>, key: string, n: nat): (r: map<string, int>)
  {
    if n == 0 then m else Increment(IncrementTimes(m, key, n - 1), key)
  }

  /** After `n` increments of `key` its count has grown by exactly `n`, and no
      other key reads differently. */
  lemma {:induction false} IncrementTimesCounts(m: map<string, int>, key: string, n: nat)
    ensures Get(IncrementTimes(m, key, n), key, 0) == Get(m, key, 0) + n
    ensures forall k :: k != key ==> Get(IncrementTimes(m, key, n), k, 0) == Get(m, k, 0)
  {
    if n > 0 {
      IncrementTimesCounts(m, key, n - 1);
    }
  }

  /** Every stored count is positive: keys appear only on their first
      increment, and counts only grow. */
  ghost predicate Positive(counts: map<string, int>)
  {
    forall k | k in counts :: counts[k] > 0
  }

  class SafeCounter {
    var counts: map<string, int>
    var locked: bool

    ghost predicate Valid()
      reads this
    {
      Positive(counts)
    }

    /** `safeCounter{counts: make(map[string]int), mux: &sync.Mutex{}}` */
    constructor ()
      ensures Valid() && counts == map[] && !locked
    {
      counts := map[];
      locked := false;
    }

    /** The count of `key` as `counts[key]` reads it: 0 when absent. */
    ghost function Count(key: string): int
      reads this
    {
      Get(counts, key, 0)
    }

    method Lock()
      requires !locked
      modifies this`locked
      ensures locked
    {
      locked := true;
    }

    method Unlock()
      requires locked
      modifies this`locked
      ensures !locked
    {
      locked := false;
    }

    /** inc: under the lock, one read-modify-write of `key`; the lock is free
        again afterwards. */
    method Inc(key: string)
      requires Valid() && !locked
      modifies this
      ensures Valid() && !locked
      ensures counts == Increment(old(counts), key)
      ensures Count(key) == old(Count(key)) + 1
      ensures forall k | k != key :: Count(k) == old(Count(k))
    {
      Lock();
      SlowIncrement(key);
      Unlock();
    }

    /** val: under the lock, reads `counts[key]` (0 for a key never
        incremented); the map is not changed and the lock is free again. */
    method Val(key: string) returns (n: int)
      requires Valid() && !locked
      modifies this`locked
      ensures !locked && n == Count(key) && n >= 0
    {
      Lock();
      n := Get(counts, key, 0);
      Unlock();
    }

    /** slowIncrement: reads the count into a temporary, adds one and stores
        it back.  Only correct while the lock is held, which is what `inc`
        guarantees. */
    method SlowIncrement(key: string)
      requires Valid() && locked
      modifies this`counts
      ensures Valid()
      ensures counts == Increment(old(counts), key)
    {
      var tempCounter := Get(counts, key, 0);
      tempCounter := tempCounter + 1;
      counts := counts[key := tempCounter];
    }

    /** The workers of the harness for one email, run one after another:
        `count` calls of `inc` (none when `count` is not positive). */
    method IncMany(key: string, count: int)
      requires Valid() && !locked
      modifies this
      ensures Valid() && !locked
      ensures counts == IncrementTimes(old(counts), key, Iterations(count))
    {
      for i := 0 to Iterations(count)
        invariant Valid() && !locked
        invariant counts == IncrementTimes(old(counts), key, i)
      {
        Inc(key);
      }
    }
  }

  datatype EmailTest = EmailTest(email: string, count: int)

  /** The number of `inc` calls the harness makes for `email`. */
  function Tally(tests: seq<EmailTest>, email: string): (r: nat)
  {
    if tests == [] then 0
    else
      var t := tests[|tests| - 1];
      Tally(tests[..|tests| - 1], email) + (if t.email == email then Iterations(t.count) else 0)
  }

  /** The harness's `test`, with its goroutines run one after another: every
      email's count grows by the number of increments issued for it. */
  method RunTests(sc: SafeCounter, tests: seq<EmailTest>)
    requires sc.Valid() && !sc.locked
    modifies sc
    ensures sc.Valid() && !sc.locked
    ensures forall e :: sc.Count(e) == old(sc.Count(e)) + Tally(tests, e)
  {
    for i := 0 to |tests|
      invariant sc.Valid() && !sc.locked
      invariant forall e :: sc.Count(e) == old(sc.Count(e)) + Tally(tests[..i], e)
    {
      ghost var before := sc.counts;
      var t := tests[i];
      sc.IncMany(t.email, t.count);
      IncrementTimesCounts(before, t.email, Iterations(t.count));
      assert tests[..i + 1][..i] == tests[..i];
    }
    assert tests[..|tests|] == tests;
  }

  /** The tallies of the first harness run, for any two distinct emails in
      the roles of john and jill and any third one. */
  lemma FirstRunTallies(john: string, jill: string, other: string)
    requires john != jill && other != john && other != jill
    ensures var tests := [EmailTest(john, 23), EmailTest(john, 29),
                          EmailTest(jill, 31), EmailTest(jill, 67)];
            Tally(tests, john) == 52 && Tally(tests, jill) == 98 && Tally(tests, other) == 0
  {
    var t1 := [EmailTest(john, 23)];
    var t2 := t1 + [EmailTest(john, 29)];
    var t3 := t2 + [EmailTest(jill, 31)];
    var tests := t3 + [EmailTest(jill, 67)];
    assert t1[..0] == [] && t2[..1] == t1 && t3[..2] == t2 && tests[..3] == t3;
    assert Tally(t1, john) == 23 && Tally(t1, jill) == 0 && Tally(t1, other) == 0;
    assert Tally(t2, john) == 52 && Tally(t2, jill) == 0 && Tally(t2, other) == 0;
    assert Tally(t3, john) == 52 && Tally(t3, jill) == 31 && Tally(t3, other) == 0;
    assert tests == [EmailTest(john, 23), EmailTest(john, 29), EmailTest(jill, 31), EmailTest(jill, 67)];
  }

  /** The first run of the harness, on a fresh counter:
      john@example.com is incremented 23 + 29 times, jill@example.com
      31 + 67 times.  An email never incremented reads 0. */
  method FirstRun() returns (john: int, jill: int, kaden: int)
    ensures john == 52 && jill == 98 && kaden == 0
  {
    var sc := new SafeCounter();
    var john', jill', kaden' := "john@example.com", "jill@example.com", "kaden@example.com";
    assert john'[1] != jill'[1] && kaden'[1] != john'[1] && kaden'[1] != jill'[1];
    FirstRunTallies(john', jill', kaden');
    RunTests(sc, [EmailTest(john', 23), EmailTest(john', 29),
                  EmailTest(jill', 31), EmailTest(jill', 67)]);
    john := sc.Val(john');
    jill := sc.Val(jill');
    kaden := sc.Val(kaden');
  }
}
