/** The token-bucket rate limiter of src/stdlib_ratelimit.c, and the bound on what it lets through over any
    part of any run, whatever the clock does. */
module RateLimit {
  import opened Options

  type Key = string

  datatype Bucket = Bucket(tokens: int, lastRefill: int)

  /** One check: which key, its capacity and rate, and what the clock says. */
  datatype Check = Check(key: Key, capacity: int, rate: int, now: int)

  // ---- One bucket ----

  /** The bucket before a token is taken: new and full, or refilled for the time that has gone by. A clock that
      stands still or goes back refills nothing. */
  function Refill(b: Option<Bucket>, c: Check): Bucket {
    match b
    case None => Bucket(c.capacity, c.now)
    case Some(Bucket(tokens, last)) =>
      if c.now - last > 0 then
        var refilled := tokens + (c.now - last) * c.rate;
        Bucket(if refilled > c.capacity then c.capacity else refilled, c.now)
      else Bucket(tokens, last)
  }

  function Take(b: Bucket): (Bucket, bool) {
    if b.tokens > 0 then (b.(tokens := b.tokens - 1), true) else (b, false)
  }

  // ---- Runs ----

  function Lookup(store: map<Key, Bucket>, key: Key): Option<Bucket> {
    if key in store then Some(store[key]) else None
  }

  predicate IsValid(c: Check) {
    c.capacity > 0 && c.rate > 0
  }

  /** The store after a check; an invalid capacity or rate changes nothing. */
  function Step(store: map<Key, Bucket>, c: Check): map<Key, Bucket> {
    if IsValid(c) then store[c.key := Take(Refill(Lookup(store, c.key), c)).0] else store
  }

  function Allows(store: map<Key, Bucket>, c: Check): bool {
    IsValid(c) && Take(Refill(Lookup(store, c.key), c)).1
  }

  function Run(store: map<Key, Bucket>, run: seq<Check>): map<Key, Bucket> {
    if run == [] then store else Step(Run(store, run[..|run| - 1]), run[|run| - 1])
  }

  /** How many checks of `key` are allowed in a run from `store`. */
  function Allowed(store: map<Key, Bucket>, run: seq<Check>, key: Key): nat {
    if run == [] then 0
    else
      var before, last := run[..|run| - 1], run[|run| - 1];
      Allowed(store, before, key) + if last.key == key && Allows(Run(store, before), last) then 1 else 0
  }

  /** The latest time seen by the checks of `key`. */
  function Latest(start: Option<int>, run: seq<Check>, key: Key): Option<int> {
    if run == [] then start
    else
      var t, last := Latest(start, run[..|run| - 1], key), run[|run| - 1];
      if last.key != key then t
      else if t.None? || last.now > t.value then Some(last.now)
      else t
  }

  /** The first time seen by the checks of `key`. */
  function First(run: seq<Check>, key: Key): Option<int> {
    if run == [] then None
    else
      var t, last := First(run[..|run| - 1], key), run[|run| - 1];
      if t.None? && last.key == key then Some(last.now) else t
  }

  /** All checks of `key` use the same capacity and rate. */
  ghost predicate Fixed(run: seq<Check>, key: Key, capacity: int, rate: int) {
    capacity > 0 && rate > 0 &&
    forall i :: 0 <= i < |run| && run[i].key == key ==> run[i].capacity == capacity && run[i].rate == rate
  }

  ghost predicate BucketOk(store: map<Key, Bucket>, key: Key, capacity: int) {
    key in store ==> 0 <= store[key].tokens <= capacity
  }

  lemma RateTimes(rate: int, a: int, b: int)
    ensures rate * (a - b) == rate * a - rate * b
    ensures rate >= 0 && a >= b ==> rate * (a - b) >= 0
  {
  }

  /** A check of a key with a bucket: what it gains or spends is covered by the time that went by. */
  lemma CheckBound(b: Bucket, c: Check)
    requires 0 <= b.tokens <= c.capacity && IsValid(c)
    ensures var r := Take(Refill(Some(b), c));
            && 0 <= r.0.tokens <= c.capacity && r.0.lastRefill >= b.lastRefill
            && r.0.lastRefill == (if c.now > b.lastRefill then c.now else b.lastRefill)
            && r.0.tokens + (if r.1 then 1 else 0) <= b.tokens + c.rate * (r.0.lastRefill - b.lastRefill)
  {
    if c.now > b.lastRefill { RateTimes(c.rate, c.now, b.lastRefill); }
  }

  /** The tokens stay between 0 and the capacity, and the bucket remembers the latest time seen. */
  lemma {:induction false} BucketStaysOk(store: map<Key, Bucket>, run: seq<Check>, key: Key, capacity: int, rate: int)
    requires Fixed(run, key, capacity, rate) && BucketOk(store, key, capacity)
    ensures BucketOk(Run(store, run), key, capacity)
    ensures var start := if key in store then Some(store[key].lastRefill) else None;
            Latest(start, run, key) == if key in Run(store, run) then Some(Run(store, run)[key].lastRefill) else None
    decreases |run|
  {
    hide Take, Refill;
    if run != [] {
      var before, last := run[..|run| - 1], run[|run| - 1];
      BucketStaysOk(store, before, key, capacity, rate);
      var s := Run(store, before);
      if last.key == key {
        assert IsValid(last);
        if key in s { CheckBound(s[key], last); } else { NewBucket(last); }
      }
    }
  }

  lemma NewBucket(c: Check)
    requires IsValid(c)
    ensures Take(Refill(None, c)) == (Bucket(c.capacity - 1, c.now), true)
  {
  }

  /** From a state with a bucket, what a run lets through is at most the tokens and what the time brings. */
  lemma {:induction false} RunBound(store: map<Key, Bucket>, run: seq<Check>, key: Key, capacity: int, rate: int)
    requires Fixed(run, key, capacity, rate) && BucketOk(store, key, capacity) && key in store
    ensures key in Run(store, run)
    ensures Allowed(store, run, key) + Run(store, run)[key].tokens <=
            store[key].tokens + rate * (Run(store, run)[key].lastRefill - store[key].lastRefill)
    decreases |run|
  {
    hide Take, Refill;
    if run != [] {
      var before, last := run[..|run| - 1], run[|run| - 1];
      RunBound(store, before, key, capacity, rate);
      BucketStaysOk(store, before, key, capacity, rate);
      var s := Run(store, before);
      if last.key == key {
        assert IsValid(last);
        CheckBound(s[key], last);
        var t := Take(Refill(Some(s[key]), last)).0;
        RateTimes(rate, t.lastRefill, s[key].lastRefill);
        RateTimes(rate, s[key].lastRefill, store[key].lastRefill);
        RateTimes(rate, t.lastRefill, store[key].lastRefill);
      }
    }
  }

  /** The part of a run after the first check of a key is a run from a state with a bucket. */
  lemma {:induction false} RunConcat(store: map<Key, Bucket>, a: seq<Check>, b: seq<Check>, key: Key)
    ensures Run(store, a + b) == Run(Run(store, a), b)
    ensures Allowed(store, a + b, key) == Allowed(store, a, key) + Allowed(Run(store, a), b, key)
    decreases |b|
  {
    hide Step, Allows;
    if b == [] {
      assert a + b == a;
    } else {
      assert (a + b)[..|a + b| - 1] == a + b[..|b| - 1];
      RunConcat(store, a, b[..|b| - 1], key);
    }
  }

  /** Between any two points of any run from the empty store, the checks of a key that are allowed number at most
      its capacity plus its rate times the time that went by, on the clock's latest readings. */
  lemma AllowedBetween(run: seq<Check>, i: nat, j: nat, key: Key, capacity: int, rate: int)
    requires i <= j <= |run| && Fixed(run, key, capacity, rate) && Latest(None, run[..i], key).Some?
    ensures Latest(None, run[..j], key).Some?
    ensures Allowed(map[], run[..j], key) - Allowed(map[], run[..i], key) <=
            capacity + rate * (Latest(None, run[..j], key).value - Latest(None, run[..i], key).value)
  {
    hide Run, Allowed, Latest;
    assert run[..j] == run[..i] + run[i..j];
    RunConcat(map[], run[..i], run[i..j], key);
    BucketStaysOk(map[], run[..i], key, capacity, rate);
    BucketStaysOk(map[], run[..j], key, capacity, rate);
    RunBound(Run(map[], run[..i]), run[i..j], key, capacity, rate);
  }

  /** The same from the beginning of a run: the time is counted from the key's first check. */
  lemma {:induction false} AllowedFromStart(run: seq<Check>, key: Key, capacity: int, rate: int)
    requires Fixed(run, key, capacity, rate)
    ensures if First(run, key).None? then Allowed(map[], run, key) == 0 && key !in Run(map[], run)
            else Latest(None, run, key).Some? && key in Run(map[], run) &&
                 Allowed(map[], run, key) + Run(map[], run)[key].tokens <=
                 capacity + rate * (Latest(None, run, key).value - First(run, key).value)
    decreases |run|
  {
    hide Take, Refill;
    if run != [] {
      var before, last := run[..|run| - 1], run[|run| - 1];
      AllowedFromStart(before, key, capacity, rate);
      BucketStaysOk(map[], before, key, capacity, rate);
      var s := Run(map[], before);
      if last.key == key {
        assert IsValid(last);
        if key in s {
          CheckBound(s[key], last);
          var t := Take(Refill(Some(s[key]), last)).0;
          RateTimes(rate, t.lastRefill, s[key].lastRefill);
          RateTimes(rate, s[key].lastRefill, First(before, key).value);
          RateTimes(rate, t.lastRefill, First(before, key).value);
        } else {
          NewBucket(last);
          FirstHasBucket(before, key, capacity, rate);
        }
      }
    }
  }

  lemma FirstHasBucket(run: seq<Check>, key: Key, capacity: int, rate: int)
    requires Fixed(run, key, capacity, rate) && key !in Run(map[], run)
    ensures First(run, key).None?
    decreases |run|
  {
    if run != [] { FirstHasBucket(run[..|run| - 1], key, capacity, rate); }
  }

  // ---- Nothing is refused without need ----

  /** A check is allowed if and only if its key is new, or the tokens left and those of the time gone by are any. */
  lemma AllowsIff(store: map<Key, Bucket>, c: Check)
    requires IsValid(c) && BucketOk(store, c.key, c.capacity)
    ensures Allows(store, c) <==>
            c.key !in store || store[c.key].tokens > 0 || c.now > store[c.key].lastRefill
  {
    if c.key in store && c.now > store[c.key].lastRefill {
      RateTimes(c.rate, c.now, store[c.key].lastRefill);
      Brings(c.rate, c.now - store[c.key].lastRefill);
    }
  }

  lemma Brings(rate: int, time: int)
    requires rate > 0 && time > 0
    ensures time * rate > 0
  {
  }

  /** From check i on, which found a full bucket, what was let through and what is left make up the capacity and all
      that the time brought. */
  ghost predicate Accounted(run: seq<Check>, key: Key, capacity: int, rate: int, tokens: int, i: nat) {
    && i < |run| && run[i].key == key && Latest(None, run, key).Some? && Latest(None, run[..i + 1], key).Some?
    && Allowed(map[], run, key) - Allowed(map[], run[..i], key) + tokens ==
       capacity + rate * (Latest(None, run, key).value - Latest(None, run[..i + 1], key).value)
  }

  /** A check of a key with a bucket either fills it or loses nothing. */
  lemma CheckLosesNothing(b: Bucket, c: Check)
    requires 0 <= b.tokens <= c.capacity && IsValid(c)
    ensures var r := Take(Refill(Some(b), c));
            || (r.1 && r.0.tokens == c.capacity - 1 && r.0.lastRefill == c.now > b.lastRefill)
            || r.0.tokens + (if r.1 then 1 else 0) == b.tokens + c.rate * (r.0.lastRefill - b.lastRefill)
  {
    if c.now > b.lastRefill { RateTimes(c.rate, c.now, b.lastRefill); }
  }

  lemma {:induction false} AllIsAccounted(run: seq<Check>, key: Key, capacity: int, rate: int) returns (i: nat)
    requires Fixed(run, key, capacity, rate) && key in Run(map[], run)
    ensures Accounted(run, key, capacity, rate, Run(map[], run)[key].tokens, i)
    decreases |run|
  {
    hide Take, Refill, Accounted;
    var n := |run| - 1;
    var before, last := run[..n], run[n];
    var s := Run(map[], before);
    BucketStaysOk(map[], before, key, capacity, rate);
    BucketStaysOk(map[], run, key, capacity, rate);
    assert run[..n + 1] == run;
    if last.key != key {
      i := AllIsAccounted(before, key, capacity, rate);
      OthersKeep(run, key, capacity, rate, s[key].tokens, i);
    } else {
      assert IsValid(last);
      if key !in s {
        NewBucket(last);
        i := n;
        FilledHere(run, key, capacity, rate);
      } else {
        CheckLosesNothing(s[key], last);
        CheckBound(s[key], last);
        var r := Take(Refill(Some(s[key]), last));
        if r.1 && r.0.tokens == capacity - 1 && r.0.lastRefill == last.now > s[key].lastRefill {
          i := n;
          FilledHere(run, key, capacity, rate);
        } else {
          i := AllIsAccounted(before, key, capacity, rate);
          CheckAccounted(run, key, capacity, rate, s[key].tokens, r.0.tokens, r.1, i);
        }
      }
    }
  }

  lemma OthersKeep(run: seq<Check>, key: Key, capacity: int, rate: int, tokens: int, i: nat)
    requires run != [] && run[|run| - 1].key != key && Accounted(run[..|run| - 1], key, capacity, rate, tokens, i)
    ensures Accounted(run, key, capacity, rate, tokens, i)
  {
    var before := run[..|run| - 1];
    assert before[..i] == run[..i] && before[..i + 1] == run[..i + 1];
  }

  lemma FilledHere(run: seq<Check>, key: Key, capacity: int, rate: int)
    requires run != [] && run[|run| - 1].key == key && Latest(None, run, key).Some?
    requires Allows(Run(map[], run[..|run| - 1]), run[|run| - 1])
    ensures Accounted(run, key, capacity, rate, capacity - 1, |run| - 1)
  {
    hide Allows;
    assert run[..|run|] == run;
    assert rate * 0 == 0;
  }

  lemma CheckAccounted(run: seq<Check>, key: Key, capacity: int, rate: int, tokens: int, tokens': int, allowed: bool, i: nat)
    requires run != [] && run[|run| - 1].key == key && Accounted(run[..|run| - 1], key, capacity, rate, tokens, i)
    requires allowed == Allows(Run(map[], run[..|run| - 1]), run[|run| - 1]) && Latest(None, run, key).Some?
    requires tokens' + (if allowed then 1 else 0) ==
             tokens + rate * (Latest(None, run, key).value - Latest(None, run[..|run| - 1], key).value)
    ensures Accounted(run, key, capacity, rate, tokens', i)
  {
    hide Allows, Latest;
    var before := run[..|run| - 1];
    assert before[..i] == run[..i] && before[..i + 1] == run[..i + 1];
    var a, b, c := Latest(None, run, key).value, Latest(None, before, key).value, Latest(None, run[..i + 1], key).value;
    RateTimes(rate, a, b);
    RateTimes(rate, b, c);
    RateTimes(rate, a, c);
  }

  /** The bound is met: a check is refused only if, since some check that found the bucket full, as many checks were let
      through as the capacity and all that the time brought. */
  lemma RefusedIsSpent(run: seq<Check>, key: Key, capacity: int, rate: int) returns (i: nat)
    requires Fixed(run, key, capacity, rate) && run != [] && run[|run| - 1].key == key
    requires !Allows(Run(map[], run[..|run| - 1]), run[|run| - 1])
    ensures i < |run| && run[i].key == key
    ensures Latest(None, run, key).Some? && Latest(None, run[..i + 1], key).Some?
    ensures Allowed(map[], run, key) - Allowed(map[], run[..i], key) ==
            capacity + rate * (Latest(None, run, key).value - Latest(None, run[..i + 1], key).value)
  {
    hide Refill, Allowed, Latest;
    var s, last := Run(map[], run[..|run| - 1]), run[|run| - 1];
    assert IsValid(last);
    BucketStaysOk(map[], run, key, capacity, rate);
    i := AllIsAccounted(run, key, capacity, rate);
    assert Run(map[], run)[key].tokens == 0;
  }

  function Only(run: seq<Check>, key: Key): seq<Check> {
    if run == [] then []
    else Only(run[..|run| - 1], key) + if run[|run| - 1].key == key then [run[|run| - 1]] else []
  }

  /** Keys do not affect each other: a key's bucket and answers depend on its own checks only. */
  lemma {:induction false} KeysAreIndependent(store: map<Key, Bucket>, run: seq<Check>, key: Key)
    ensures Lookup(Run(store, run), key) == Lookup(Run(store, Only(run, key)), key)
    ensures Allowed(store, run, key) == Allowed(store, Only(run, key), key)
    decreases |run|
  {
    hide Step, Allows, Run, Allowed, Only;
    if run == [] {
      NoChecks(store, key);
    } else {
      var before, last := run[..|run| - 1], run[|run| - 1];
      assert run == before + [last];
      KeysAreIndependent(store, before, key);
      StepDependsOnKey(Run(store, before), Run(store, Only(before, key)), last, key);
      Append(store, before, last, key);
      Append(store, Only(before, key), last, key);
    }
  }

  lemma NoChecks(store: map<Key, Bucket>, key: Key)
    ensures Only([], key) == []
  {
  }

  lemma Append(store: map<Key, Bucket>, run: seq<Check>, c: Check, key: Key)
    ensures Run(store, run + [c]) == Step(Run(store, run), c)
    ensures Allowed(store, run + [c], key) ==
            Allowed(store, run, key) + if c.key == key && Allows(Run(store, run), c) then 1 else 0
    ensures Only(run + [c], key) == if c.key == key then Only(run, key) + [c] else Only(run, key)
  {
    hide Step, Allows;
    var more := run + [c];
    assert more[..|more| - 1] == run;
  }

  /** A check of another key leaves a bucket alone; a check of this key looks at nothing else. */
  lemma StepDependsOnKey(s: map<Key, Bucket>, t: map<Key, Bucket>, c: Check, key: Key)
    requires Lookup(s, key) == Lookup(t, key)
    ensures c.key != key ==> Lookup(Step(s, c), key) == Lookup(s, key)
    ensures c.key == key ==> Lookup(Step(s, c), key) == Lookup(Step(t, c), key) && Allows(s, c) == Allows(t, c)
  {
    hide Take, Refill;
  }
}
