/** The rate limiter of src/stdlib_ratelimit.c in the machine's integers: what is stored has 48 bits, and what is computed
    has 64. Within the bound proved here this is the limiter of module RateLimit; beyond it C leaves the sum undefined,
    and two's complement loses it. */
module RateLimitWords {
  import opened Options
  import opened RateLimit
  import opened Values

  predicate Small(n: int) {
    0 <= n < TWO_47
  }

  /** Integers of a check as the script passes them, and a clock that can be boxed. */
  predicate SmallCheck(c: Check) {
    -TWO_47 <= c.capacity < TWO_47 && -TWO_47 <= c.rate < TWO_47 && Small(c.now)
  }

  predicate SmallBucket(b: Bucket) {
    Small(b.tokens) && Small(b.lastRefill)
  }

  function Wrap64(i: int): int {
    ToSigned64(ToUnsigned64(i))
  }

  /** Refill with every result wrapped to 64 bits. */
  function WordRefill(b: Option<Bucket>, c: Check): Bucket {
    match b
    case None => Bucket(c.capacity, c.now)
    case Some(Bucket(tokens, last)) =>
      var elapsed := Wrap64(c.now - last);
      if elapsed > 0 then
        var refilled := Wrap64(tokens + Wrap64(elapsed * c.rate));
        Bucket(if refilled > c.capacity then c.capacity else refilled, c.now)
      else Bucket(tokens, last)
  }

  /** INT_VAL and AS_INT on both fields. */
  function Stored(b: Bucket): Bucket {
    Bucket(AsInt(IntVal(b.tokens)), AsInt(IntVal(b.lastRefill)))
  }

  function WordStep(store: map<Key, Bucket>, c: Check): map<Key, Bucket> {
    if IsValid(c) then store[c.key := Stored(Take(WordRefill(Lookup(store, c.key), c)).0)] else store
  }

  function WordAllows(store: map<Key, Bucket>, c: Check): bool {
    IsValid(c) && Take(WordRefill(Lookup(store, c.key), c)).1
  }

  function WordRun(store: map<Key, Bucket>, run: seq<Check>): map<Key, Bucket> {
    if run == [] then store else WordStep(WordRun(store, run[..|run| - 1]), run[|run| - 1])
  }

  function WordAllowed(store: map<Key, Bucket>, run: seq<Check>, key: Key): nat {
    if run == [] then 0
    else
      var before, last := run[..|run| - 1], run[|run| - 1];
      WordAllowed(store, before, key) + if last.key == key && WordAllows(WordRun(store, before), last) then 1 else 0
  }

  // ---- One check ----

  /** None of the three results of a refill leaves the 64 bits: C defines what is computed. */
  predicate NoOverflow(b: Bucket, c: Check) {
    var elapsed := c.now - b.lastRefill;
    FitsInt64(elapsed) && (elapsed > 0 ==> FitsInt64(elapsed * c.rate) && FitsInt64(b.tokens + elapsed * c.rate))
  }

  /** That is so exactly if the tokens and what the time brings stay below 2^63. */
  lemma DefinedIff(b: Bucket, c: Check)
    requires SmallBucket(b) && SmallCheck(c) && IsValid(c)
    ensures NoOverflow(b, c) <==> (c.now > b.lastRefill ==> b.tokens + (c.now - b.lastRefill) * c.rate < TWO_63)
  {
    if c.now > b.lastRefill { ProductIsPositive(c.now - b.lastRefill, c.rate); }
  }

  lemma ProductIsPositive(a: int, b: int)
    requires a > 0 && b > 0
    ensures a * b > 0
  {
  }

  /** Whatever the tokens and the rate are, a bucket may rest for 65535 seconds and no longer. */
  lemma RestIff(elapsed: int)
    requires 0 < elapsed < TWO_47
    ensures (forall tokens, rate :: Small(tokens) && Small(rate) && rate > 0 ==> tokens + Gain(elapsed, rate) < TWO_63) <==>
            elapsed <= 65535
  {
    var most := TWO_47 - 1;
    if elapsed <= 65535 {
      forall tokens, rate | Small(tokens) && Small(rate) && rate > 0 ensures tokens + Gain(elapsed, rate) < TWO_63 {
        Monotone(elapsed, 65535, rate, most);
      }
    } else {
      Monotone(65536, elapsed, most, most);
      assert Small(most) && most + Gain(elapsed, most) >= TWO_63;
    }
  }

  function Gain(elapsed: int, rate: int): int {
    elapsed * rate
  }

  lemma Monotone(a: int, b: int, x: int, y: int)
    requires 0 <= a <= b && 0 <= x <= y
    ensures a * x <= b * y
  {
    assert a * x <= b * x && b * x <= b * y;
  }

  lemma BoxesSmall(i: int)
    requires Small(i)
    ensures AsInt(IntVal(i)) == i
  {
    UnboxBox(i);
    Wrap48Unique(i, i);
  }

  /** A defined check on the machine is the check on integers, and what is stored stays small. */
  lemma DefinedCheck(store: map<Key, Bucket>, c: Check)
    requires SmallCheck(c) && (c.key in store ==> SmallBucket(store[c.key]) && (IsValid(c) ==> NoOverflow(store[c.key], c)))
    ensures WordStep(store, c) == Step(store, c) && WordAllows(store, c) == Allows(store, c)
    ensures IsValid(c) ==> SmallBucket(Step(store, c)[c.key])
  {
    hide Take, Refill, WordRefill, NoOverflow, IntVal, AsInt, SmallBucket, SmallCheck;
    if IsValid(c) {
      var b := Lookup(store, c.key);
      DefinedRefill(b, c);
      TakeStaysSmall(Refill(b, c));
      StoredSmall(Take(Refill(b, c)).0);
    }
  }

  lemma DefinedRefill(b: Option<Bucket>, c: Check)
    requires SmallCheck(c) && IsValid(c) && (b.Some? ==> SmallBucket(b.value) && NoOverflow(b.value, c))
    ensures WordRefill(b, c) == Refill(b, c) && SmallBucket(Refill(b, c))
  {
    hide Wrap64, ToSigned64, ToUnsigned64;
    if b.Some? {
      var elapsed := c.now - b.value.lastRefill;
      Fitting(elapsed);
      if elapsed > 0 {
        ProductIsPositive(elapsed, c.rate);
        var gain := elapsed * c.rate;
        Fitting(gain);
        Fitting(b.value.tokens + gain);
      }
    }
  }

  lemma Fitting(i: int)
    requires FitsInt64(i)
    ensures Wrap64(i) == i
  {
  }

  lemma TakeStaysSmall(b: Bucket)
    requires SmallBucket(b)
    ensures SmallBucket(Take(b).0)
  {
  }

  lemma StoredSmall(b: Bucket)
    requires SmallBucket(b)
    ensures Stored(b) == b
  {
    hide IntVal, AsInt;
    BoxesSmall(b.tokens);
    BoxesSmall(b.lastRefill);
  }

  // ---- Runs ----

  ghost predicate SmallStore(store: map<Key, Bucket>) {
    forall k :: k in store ==> SmallBucket(store[k])
  }

  /** No check of the run finds a bucket that has rested for more than 65535 seconds. */
  ghost predicate ShortRests(store: map<Key, Bucket>, run: seq<Check>) {
    forall i :: 0 <= i < |run| ==> Rest(Run(store, run[..i]), run[i]) <= 65535
  }

  function Rest(store: map<Key, Bucket>, c: Check): int {
    if c.key in store then c.now - store[c.key].lastRefill else 0
  }

  /** With such rests the machine's run is the run on integers: the same buckets and the same answers. So all that
      module RateLimit proves of runs holds on the machine. */
  lemma {:induction false} WordsAreExact(store: map<Key, Bucket>, run: seq<Check>)
    requires SmallStore(store) && ShortRests(store, run) && forall i :: 0 <= i < |run| ==> SmallCheck(run[i])
    ensures SmallStore(Run(store, run)) && WordRun(store, run) == Run(store, run)
    ensures forall key :: WordAllowed(store, run, key) == Allowed(store, run, key)
    decreases |run|
  {
    hide Step, WordStep, Allows, WordAllows, SmallCheck, SmallBucket, IsValid;
    if run != [] {
      var before, last := run[..|run| - 1], run[|run| - 1];
      assert forall i :: 0 <= i < |before| ==> before[i] == run[i] && before[..i] == run[..i];
      WordsAreExact(store, before);
      StepIsExact(Run(store, before), last);
    }
  }

  lemma StepIsExact(store: map<Key, Bucket>, c: Check)
    requires SmallStore(store) && SmallCheck(c) && Rest(store, c) <= 65535
    ensures WordStep(store, c) == Step(store, c) && WordAllows(store, c) == Allows(store, c)
    ensures SmallStore(Step(store, c))
  {
    hide Take, Refill, WordRefill, Stored, NoOverflow;
    if IsValid(c) && c.key in store {
      var b := store[c.key];
      DefinedIff(b, c);
      if c.now > b.lastRefill {
        RestIff(c.now - b.lastRefill);
        assert b.tokens + Gain(c.now - b.lastRefill, c.rate) < TWO_63;
      }
    }
    DefinedCheck(store, c);
  }

  /** Beyond the bound, with wrap-around: an empty bucket that has rested for 65537 seconds at the largest rate should be
      full, but the check is refused, and the bucket then holds more than its capacity. */
  lemma LostRefill(key: Key)
    ensures var store, c := map[key := Bucket(0, 0)], Check(key, 1, TWO_47 - 1, 65537);
            && Allows(store, c) && !WordAllows(store, c)
            && WordStep(store, c)[key] == Bucket(TWO_47 - 65537, 65537)
  {
    var store, c := map[key := Bucket(0, 0)], Check(key, 1, TWO_47 - 1, 65537);
    var gain := 65537 * (TWO_47 - 1);
    assert Wrap64(gain) == gain - TWO_64;
    assert Wrap64(gain - TWO_64) == gain - TWO_64;
    assert WordRefill(Some(store[key]), c) == Bucket(gain - TWO_64, 65537);
    UnboxBox(gain - TWO_64);
    Wrap48Unique(gain - TWO_64, TWO_47 - 65537);
    BoxesSmall(65537);
  }

  // ---- The native function ----

  datatype Answer = Answer(allowed: bool, remaining: int)

  /** ratelimit_store and native_ratelimit_check. */
  class RateLimiter {
    var store: map<Key, Bucket>

    ghost predicate Valid()
      reads this
    {
      SmallStore(store)
    }

    constructor ()
      ensures Valid() && store == map[]
    {
      store := map[];
    }

    /** One check, in the machine's integers, where C defines them. */
    method Check(c: Check) returns (r: Option<Answer>)
      requires Valid() && SmallCheck(c) && (c.key in store && IsValid(c) ==> NoOverflow(store[c.key], c))
      modifies this
      ensures Valid() && store == WordStep(old(store), c) == Step(old(store), c)
      ensures r.Some? <==> IsValid(c)
      ensures r.Some? ==> r.value.allowed == Allows(old(store), c) && r.value.remaining == store[c.key].tokens
    {
      hide AsInt, IntVal, Wrap64, SmallBucket;
      DefinedCheck(store, c);
      if c.capacity <= 0 || c.rate <= 0 { return None; }
      var tokens, lastRefill;
      if c.key in store {
        tokens, lastRefill := store[c.key].tokens, store[c.key].lastRefill;
        var elapsed := Wrap64(c.now - lastRefill);
        if elapsed > 0 {
          var refill := Wrap64(elapsed * c.rate);
          tokens := Wrap64(tokens + refill);
          if tokens > c.capacity { tokens := c.capacity; }
          lastRefill := c.now;
        }
      } else {
        tokens, lastRefill := c.capacity, c.now;
      }
      var allowed := false;
      if tokens > 0 {
        tokens := tokens - 1;
        allowed := true;
      }
      store := store[c.key := Bucket(AsInt(IntVal(tokens)), AsInt(IntVal(lastRefill)))];
      r := Some(Answer(allowed, store[c.key].tokens));
    }
  }
}
