/** The signup budget of zavora-erp-api/src/routes/auth_signup.rs: a counter per
    client and fixed window, read before a signup and incremented after a success. */
module SignupBudget {
  import opened Prelude

  type Positive = n: int | n > 0 witness 1

  /** `SIGNUP_RATE_MAX` and `SIGNUP_RATE_WINDOW_SECS`; zero falls back to the default. */
  datatype Config = Config(max: Positive, window: Positive)

  // ----- Windows and keys -----

  function Bucket(c: Config, now: nat): nat {
    now / c.window
  }

  /** The moment a bucket ends. */
  function End(c: Config, b: nat): nat {
    (b + 1) * c.window
  }

  /** `signup_rate_retry_after`. */
  function RetryAfter(c: Config, now: nat): nat {
    c.window - now % c.window
  }

  lemma BucketEnds(c: Config, now: nat, b: nat)
    ensures now < End(c, b) <==> Bucket(c, now) <= b
  {
    var q := Bucket(c, now);
    assert q * c.window <= now < q * c.window + c.window;
    if q <= b {
      assert q * c.window <= b * c.window;
    } else {
      assert (b + 1) * c.window <= q * c.window;
    }
  }

  lemma LaterBucket(c: Config, now: nat, later: nat)
    requires now <= later
    ensures Bucket(c, now) <= Bucket(c, later)
  {
    BucketEnds(c, later, Bucket(c, later));
    BucketEnds(c, now, Bucket(c, later));
  }

  /** An expiry set at any moment from the bucket's start on falls after its end. */
  lemma ExpiryPastEnd(c: Config, now: nat, b: nat)
    requires b <= Bucket(c, now)
    ensures End(c, b) <= now + c.window
  {
    assert b * c.window <= Bucket(c, now) * c.window <= now;
  }

  /** Waiting out Retry-After leads into the very next bucket. */
  lemma RetryAfterReachesNextBucket(c: Config, now: nat)
    ensures Bucket(c, now + RetryAfter(c, now)) == Bucket(c, now) + 1
    ensures forall t: nat | now <= t < now + RetryAfter(c, now) :: Bucket(c, t) == Bucket(c, now)
  {
    var q := Bucket(c, now);
    assert now + RetryAfter(c, now) == End(c, q);
    BucketEnds(c, End(c, q), q);
    assert End(c, q + 1) == End(c, q) + c.window;
    BucketEnds(c, End(c, q), q + 1);
    forall t: nat | now <= t < now + RetryAfter(c, now) ensures Bucket(c, t) == q {
      BucketEnds(c, t, q);
      LaterBucket(c, now, t);
    }
  }

  function Digits(n: nat): string {
    var last := ['0', '1', '2', '3', '4', '5', '6', '7', '8', '9'][n % 10];
    if n < 10 then [last] else Digits(n / 10) + [last]
  }

  /** `signup_rate_key`. */
  function RateKey(client: string, bucket: nat): string {
    "signup:rl:" + client + ":" + Digits(bucket)
  }

  lemma {:induction false} DigitsHaveNoColon(n: nat)
    ensures |Digits(n)| > 0 && ':' !in Digits(n)
  {
    if n < 10 {
    } else {
      DigitsHaveNoColon(n / 10);
    }
  }

  lemma {:induction false} DigitsDetermine(m: nat, n: nat)
    requires Digits(m) == Digits(n)
    ensures m == n
  {
    assert Digits(m)[|Digits(m)| - 1] == Digits(n)[|Digits(n)| - 1];
    assert m % 10 == n % 10;
    DigitsHaveNoColon(m / 10);
    DigitsHaveNoColon(n / 10);
    if m >= 10 && n >= 10 {
      assert Digits(m)[..|Digits(m)| - 1] == Digits(m / 10) && Digits(n)[..|Digits(n)| - 1] == Digits(n / 10);
      DigitsDetermine(m / 10, n / 10);
    }
  }

  /** After the colon everything comes from the tail. */
  lemma TailHolds(s: string, a: string, x: string)
    requires s == a + ":" + x
    ensures forall j | |a| < j < |s| :: s[j] in x
  {
    forall j | |a| < j < |s| ensures s[j] in x {
      assert s[j] == x[j - |a| - 1];
    }
  }

  lemma LastColonSplits(a: string, x: string, b: string, y: string)
    requires a + ":" + x == b + ":" + y && ':' !in x && ':' !in y
    ensures a == b && x == y
  {
    var s := a + ":" + x;
    assert s[|a|] == ':' && s[|b|] == ':';
    TailHolds(s, a, x);
    TailHolds(s, b, y);
    assert |a| == |b|;
    assert s[..|a|] == a && s[..|b|] == b && s[|a| + 1..] == x && s[|b| + 1..] == y;
  }

  /** Counters of different clients or buckets never share a key, whatever the client text holds. */
  lemma KeysAreDistinct(client1: string, b1: nat, client2: string, b2: nat)
    requires RateKey(client1, b1) == RateKey(client2, b2)
    ensures client1 == client2 && b1 == b2
  {
    var p := "signup:rl:";
    DigitsHaveNoColon(b1);
    DigitsHaveNoColon(b2);
    LastColonSplits(p + client1, Digits(b1), p + client2, Digits(b2));
    assert (p + client1)[|p|..] == client1 && (p + client2)[|p|..] == client2;
    DigitsDetermine(b1, b2);
  }

  // ----- The store -----

  datatype Counter = Counter(count: nat, expiry: Option<nat>)

  type Counters = map<nat, Counter>

  predicate Alive(counters: Counters, b: nat, now: nat) {
    b in counters && (counters[b].expiry.None? || now < counters[b].expiry.value)
  }

  /** `GET`. */
  function CountAt(counters: Counters, b: nat, now: nat): nat {
    if Alive(counters, b, now) then counters[b].count else 0
  }

  /** The check of `signup_rate_exceeded` on one bucket's counter. */
  predicate Exceeded(c: Config, counters: Counters, b: nat, now: nat) {
    CountAt(counters, b, now) >= c.max
  }

  /** `INCR`, which creates a missing counter without an expiry. */
  function Incremented(counters: Counters, b: nat, now: nat): Counters {
    counters[b := if Alive(counters, b, now) then counters[b].(count := counters[b].count + 1) else Counter(1, None)]
  }

  /** `EXPIRE`. */
  function Expiring(c: Config, counters: Counters, b: nat, now: nat): Counters {
    if Alive(counters, b, now) then counters[b := counters[b].(expiry := Some(now + c.window))] else counters
  }

  /** The counters of one client. */
  class Store {
    const config: Config
    var counters: Counters

    constructor (config: Config)
      ensures this.config == config && counters == map[]
    {
      this.config := config;
      counters := map[];
    }

    /** `signup_rate_exceeded`; with the store down it fails open. */
    method RateExceeded(up: bool, now: nat) returns (exceeded: bool)
      ensures exceeded <==> up && Exceeded(config, counters, Bucket(config, now), now)
    {
      if !up {
        return false;
      }
      return CountAt(counters, Bucket(config, now), now) >= config.max;
    }

    /** `record_signup`. */
    method Record(up: bool, now: nat)
      modifies this`counters
      ensures !up ==> counters == old(counters)
      ensures up ==>
                var b := Bucket(config, now);
                && CountAt(counters, b, now) == CountAt(old(counters), b, now) + 1
                && (CountAt(old(counters), b, now) == 0 ==> counters[b].expiry == Some(now + config.window))
                && (CountAt(old(counters), b, now) > 0 ==> counters[b].expiry == old(counters)[b].expiry)
                && forall other | other != b :: CountAt(counters, other, now) == CountAt(old(counters), other, now)
    {
      if !up {
        return;
      }
      var b := Bucket(config, now);
      counters := Incremented(counters, b, now);
      if counters[b].count == 1 {
        counters := Expiring(config, counters, b, now);
      }
    }
  }

  // ----- Signups in flight -----

  /** Where one request of the client stands between two awaits of `signup`. */
  datatype Phase =
    | Idle
    | Checking(bucket: nat)
    | Passed
    | Keyed(bucket: nat)
    | ToExpire(bucket: nat)

  /** One client with as many slots as it has requests in flight at once; `recorded`
      holds the bucket of every recorded success. */
  datatype State = State(now: nat, slots: seq<Phase>, counters: Counters, recorded: multiset<nat>)

  datatype Action =
    | Pass(now: nat)
    | Arrive(slot: nat)
    | Look(slot: nat)
    | Fail(slot: nat)
    | Provision(slot: nat)
    | Increment(slot: nat)
    | SetExpiry(slot: nat)
    | Disconnect(slot: nat)

  function Initial(now: nat, k: nat): State {
    State(now, seq(k, i => Idle), map[], multiset{})
  }

  predicate Enabled(s: State, a: Action) {
    if a.Pass? then s.now <= a.now
    else
      && a.slot < |s.slots|
      && match a
         case Arrive(i) => s.slots[i].Idle?
         case Look(i) => s.slots[i].Checking?
         case Fail(i) => s.slots[i].Passed?
         case Provision(i) => s.slots[i].Passed?
         case Increment(i) => s.slots[i].Keyed?
         case SetExpiry(i) => s.slots[i].ToExpire?
         case _ => !s.slots[a.slot].Idle?
  }

  function Move(s: State, i: nat, phase: Phase): State
    requires i < |s.slots|
  {
    s.(slots := s.slots[i := phase])
  }

  /** The counters survive from step to step; time passes only between steps. */
  function Apply(c: Config, s: State, a: Action): State
    requires Enabled(s, a)
  {
    match a
    case Pass(now) => s.(now := now)
    case Arrive(i) => Move(s, i, Checking(Bucket(c, s.now)))
    case Look(i) => Move(s, i, if Exceeded(c, s.counters, s.slots[i].bucket, s.now) then Idle else Passed)
    case Fail(i) => Move(s, i, Idle)
    case Provision(i) => Move(s, i, Keyed(Bucket(c, s.now)))
    case Increment(i) =>
      var b := s.slots[i].bucket;
      var counters := Incremented(s.counters, b, s.now);
      var next := if counters[b].count == 1 then ToExpire(b) else Idle;
      Move(s.(counters := counters, recorded := s.recorded + multiset{b}), i, next)
    case SetExpiry(i) => Move(s.(counters := Expiring(c, s.counters, s.slots[i].bucket, s.now)), i, Idle)
    case Disconnect(i) => Move(s, i, Idle)
  }

  predicate Legal(c: Config, t0: nat, k: nat, actions: seq<Action>)
    decreases |actions|, 0
  {
    actions == [] ||
    (Legal(c, t0, k, actions[..|actions| - 1])
        && Enabled(After(c, t0, k, actions[..|actions| - 1]), actions[|actions| - 1]))
  }

  function After(c: Config, t0: nat, k: nat, actions: seq<Action>): State
    requires Legal(c, t0, k, actions)
    decreases |actions|, 1
  {
    if actions == [] then Initial(t0, k)
    else Apply(c, After(c, t0, k, actions[..|actions| - 1]), actions[|actions| - 1])
  }

  // ----- The invariant -----

  /** The request may still be recorded in bucket `b`, whatever its counter says, when
      the current bucket is `current`. */
  function MayRecord(p: Phase, b: nat, current: nat): nat {
    if p == Keyed(b) || (b >= current && (p.Passed? || (p.Checking? && p.bucket < b))) then 1 else 0
  }

  function Pending(slots: seq<Phase>, b: nat, current: nat): nat {
    if slots == [] then 0
    else Pending(slots[..|slots| - 1], b, current) + MayRecord(slots[|slots| - 1], b, current)
  }

  lemma {:induction false} PendingAtMostAll(slots: seq<Phase>, b: nat, current: nat)
    ensures Pending(slots, b, current) <= |slots|
    decreases |slots|
  {
    if slots == [] {
    } else {
      PendingAtMostAll(slots[..|slots| - 1], b, current);
    }
  }

  lemma {:induction false} PendingMoves(slots: seq<Phase>, i: nat, p: Phase, b: nat, current: nat)
    requires i < |slots|
    ensures Pending(slots[i := p], b, current) ==
              Pending(slots, b, current) - MayRecord(slots[i], b, current) + MayRecord(p, b, current)
    decreases |slots|
  {
    var moved := slots[i := p];
    if i < |slots| - 1 {
      PendingMoves(slots[..|slots| - 1], i, p, b, current);
      assert moved[..|moved| - 1] == slots[..|slots| - 1][i := p];
    } else {
      assert moved[..|moved| - 1] == slots[..|slots| - 1];
    }
  }

  lemma {:induction false} PendingShrinks(slots: seq<Phase>, b: nat, current: nat, later: nat)
    requires current <= later
    ensures Pending(slots, b, later) <= Pending(slots, b, current)
    decreases |slots|
  {
    if slots == [] {
    } else {
      PendingShrinks(slots[..|slots| - 1], b, current, later);
    }
  }

  /** Requests name buckets that have begun. */
  predicate Begun(p: Phase, current: nat) {
    p.Checking? || p.Keyed? || p.ToExpire? ==> p.bucket <= current
  }

  /** A counter that has not ended holds every recorded success and cannot have expired. */
  predicate CounterOk(c: Config, s: State, b: nat) {
    && (b in s.counters && s.counters[b].expiry.Some? ==> End(c, b) <= s.counters[b].expiry.value)
    && (b >= Bucket(c, s.now) ==> (if b in s.counters then s.counters[b].count else 0) == s.recorded[b])
    && (b > Bucket(c, s.now) ==> s.recorded[b] == 0)
  }

  predicate BudgetOk(c: Config, s: State, b: nat) {
    s.recorded[b] + Pending(s.slots, b, Bucket(c, s.now)) <= c.max - 1 + |s.slots|
  }

  ghost predicate Inv(c: Config, s: State) {
    && (forall i | 0 <= i < |s.slots| :: Begun(s.slots[i], Bucket(c, s.now)))
    && (forall b: nat :: CounterOk(c, s, b))
    && (forall b: nat :: BudgetOk(c, s, b))
  }

  /** What a check reads while its bucket lasts is every success recorded there. */
  lemma CountIsRecorded(c: Config, s: State, b: nat)
    requires CounterOk(c, s, b) && b >= Bucket(c, s.now)
    ensures CountAt(s.counters, b, s.now) == s.recorded[b]
  {
    BucketEnds(c, s.now, b);
  }

  lemma BegunStep(c: Config, s: State, a: Action)
    requires Enabled(s, a) && forall i | 0 <= i < |s.slots| :: Begun(s.slots[i], Bucket(c, s.now))
    ensures var t := Apply(c, s, a); forall i | 0 <= i < |t.slots| :: Begun(t.slots[i], Bucket(c, t.now))
  {
    var t := Apply(c, s, a);
    LaterBucket(c, s.now, t.now);
    forall i | 0 <= i < |t.slots| ensures Begun(t.slots[i], Bucket(c, t.now)) {
      assert Begun(s.slots[i], Bucket(c, s.now));
    }
  }

  lemma CounterStep(c: Config, s: State, a: Action, b: nat)
    requires Enabled(s, a) && forall i | 0 <= i < |s.slots| :: Begun(s.slots[i], Bucket(c, s.now))
    requires CounterOk(c, s, b)
    ensures CounterOk(c, Apply(c, s, a), b)
  {
    LaterBucket(c, s.now, Apply(c, s, a).now);
    BucketEnds(c, s.now, b);
    if a.SetExpiry? {
      assert Begun(s.slots[a.slot], Bucket(c, s.now));
      ExpiryPastEnd(c, s.now, s.slots[a.slot].bucket);
    } else if a.Increment? {
      assert Begun(s.slots[a.slot], Bucket(c, s.now));
    }
  }

  lemma BudgetStep(c: Config, s: State, a: Action, b: nat)
    requires Enabled(s, a) && Inv(c, s)
    ensures BudgetOk(c, Apply(c, s, a), b)
  {
    var t, current := Apply(c, s, a), Bucket(c, s.now);
    assert BudgetOk(c, s, b) && CounterOk(c, s, b);
    if a.Pass? {
      LaterBucket(c, s.now, t.now);
      PendingShrinks(s.slots, b, current, Bucket(c, t.now));
    } else {
      PendingMoves(s.slots, a.slot, t.slots[a.slot], b, current);
      PendingAtMostAll(t.slots, b, current);
      assert Begun(s.slots[a.slot], current);
      if a.Look? && s.slots[a.slot].bucket == b == current {
        CountIsRecorded(c, s, b);
      }
    }
  }

  lemma {:induction false} InvHolds(c: Config, t0: nat, k: nat, actions: seq<Action>)
    requires k > 0 && Legal(c, t0, k, actions)
    ensures Inv(c, After(c, t0, k, actions)) && |After(c, t0, k, actions).slots| == k
    decreases |actions|
  {
    if actions == [] {
      forall b: nat ensures BudgetOk(c, Initial(t0, k), b) {
        PendingAtMostAll(Initial(t0, k).slots, b, Bucket(c, t0));
      }
    } else {
      var before, a := actions[..|actions| - 1], actions[|actions| - 1];
      InvHolds(c, t0, k, before);
      var s := After(c, t0, k, before);
      BegunStep(c, s, a);
      forall b: nat ensures CounterOk(c, Apply(c, s, a), b) && BudgetOk(c, Apply(c, s, a), b) {
        assert CounterOk(c, s, b);
        CounterStep(c, s, a, b);
        BudgetStep(c, s, a, b);
      }
    }
  }

  // ----- What follows -----

  /** With at most `k` requests of a client in flight, no bucket records more than max - 1 + k
      successes; so one at a time, never more than `max`. */
  lemma BudgetUnderConcurrency(c: Config, t0: nat, k: nat, actions: seq<Action>, b: nat)
    requires k > 0 && Legal(c, t0, k, actions)
    ensures After(c, t0, k, actions).recorded[b] <= c.max - 1 + k
  {
    InvHolds(c, t0, k, actions);
    assert BudgetOk(c, After(c, t0, k, actions), b);
  }

  /** A bucket's counter does not expire before the bucket ends: while it lasts, a
      check reads exactly the successes recorded in it. */
  lemma CounterOutlivesBucket(c: Config, t0: nat, k: nat, actions: seq<Action>, b: nat)
    requires k > 0 && Legal(c, t0, k, actions) && Bucket(c, After(c, t0, k, actions).now) <= b
    ensures var s := After(c, t0, k, actions); CountAt(s.counters, b, s.now) == s.recorded[b]
  {
    InvHolds(c, t0, k, actions);
    assert CounterOk(c, After(c, t0, k, actions), b);
    CountIsRecorded(c, After(c, t0, k, actions), b);
  }

  /** In every reachable state a client is refused exactly when its current window has
      recorded `max` successes or more; a check made late, after its window, refuses
      only if that many were recorded there too. */
  lemma RefusedExactlyWhenSpent(c: Config, t0: nat, k: nat, actions: seq<Action>, b: nat)
    requires k > 0 && Legal(c, t0, k, actions)
    ensures var s := After(c, t0, k, actions);
            && (b >= Bucket(c, s.now) ==> (Exceeded(c, s.counters, b, s.now) <==> s.recorded[b] >= c.max))
            && (Exceeded(c, s.counters, b, s.now) ==> s.recorded[b] >= c.max)
  {
    if b >= Bucket(c, After(c, t0, k, actions).now) {
      CounterOutlivesBucket(c, t0, k, actions, b);
    } else {
      CountsAtMostRecorded(c, t0, k, actions, b);
    }
  }

  /** A counter never holds more than was recorded, expired and created again or not. */
  lemma {:induction false} CountsAtMostRecorded(c: Config, t0: nat, k: nat, actions: seq<Action>, b: nat)
    requires Legal(c, t0, k, actions)
    ensures var s := After(c, t0, k, actions); b in s.counters ==> s.counters[b].count <= s.recorded[b]
    decreases |actions|
  {
    if actions == [] {
    } else {
      CountsAtMostRecorded(c, t0, k, actions[..|actions| - 1], b);
    }
  }

  function Provisions(actions: seq<Action>): nat {
    if actions == [] then 0
    else Provisions(actions[..|actions| - 1]) + if actions[|actions| - 1].Provision? then 1 else 0
  }

  function KeyedSlots(slots: seq<Phase>): nat {
    if slots == [] then 0
    else KeyedSlots(slots[..|slots| - 1]) + if slots[|slots| - 1].Keyed? then 1 else 0
  }

  lemma {:induction false} KeyedMoves(slots: seq<Phase>, i: nat, p: Phase)
    requires i < |slots|
    ensures KeyedSlots(slots[i := p]) ==
              KeyedSlots(slots) - (if slots[i].Keyed? then 1 else 0) + (if p.Keyed? then 1 else 0)
    decreases |slots|
  {
    var moved := slots[i := p];
    if i < |slots| - 1 {
      KeyedMoves(slots[..|slots| - 1], i, p);
      assert moved[..|moved| - 1] == slots[..|slots| - 1][i := p];
    } else {
      assert moved[..|moved| - 1] == slots[..|slots| - 1];
    }
  }

  lemma {:induction false} NoneKeyed(k: nat)
    ensures KeyedSlots(seq(k, i => Idle)) == 0
  {
    if k == 0 {
    } else {
      NoneKeyed(k - 1);
      assert seq(k, i => Idle)[..k - 1] == seq(k - 1, i => Idle);
    }
  }

  /** Only provisioned signups cost budget, each once: rejected, invalid and duplicate
      attempts never do, and none is lost unless its request is dropped. */
  lemma {:induction false} OnlySuccessesCount(c: Config, t0: nat, k: nat, actions: seq<Action>)
    requires Legal(c, t0, k, actions)
    ensures var s := After(c, t0, k, actions);
            && |s.recorded| + KeyedSlots(s.slots) <= Provisions(actions)
            && ((forall a | a in actions :: !a.Disconnect?) ==>
                |s.recorded| + KeyedSlots(s.slots) == Provisions(actions))
    decreases |actions|
  {
    if actions == [] {
      NoneKeyed(k);
    } else {
      var before, a := actions[..|actions| - 1], actions[|actions| - 1];
      OnlySuccessesCount(c, t0, k, before);
      var s := After(c, t0, k, before);
      if !a.Pass? {
        KeyedMoves(s.slots, a.slot, Apply(c, s, a).slots[a.slot]);
      }
      assert forall x | x in before :: x in actions;
    }
  }

  // ----- Expiry -----

  /** A counter without an expiry waits for its request to set one. */
  ghost predicate ExpirySet(s: State, b: nat) {
    b in s.counters && s.counters[b].expiry.None? ==> exists i | 0 <= i < |s.slots| :: s.slots[i] == ToExpire(b)
  }

  /** An expiry is at most a window ahead. */
  predicate ExpiresSoon(c: Config, s: State, b: nat) {
    b in s.counters && s.counters[b].expiry.Some? ==> s.counters[b].expiry.value <= s.now + c.window
  }

  lemma ExpiryStep(c: Config, s: State, a: Action, b: nat)
    requires Enabled(s, a) && ExpiresSoon(c, s, b)
    ensures ExpiresSoon(c, Apply(c, s, a), b)
    ensures !a.Disconnect? && ExpirySet(s, b) ==> ExpirySet(Apply(c, s, a), b)
  {
    var t := Apply(c, s, a);
    if !a.Disconnect? && ExpirySet(s, b) && b in t.counters && t.counters[b].expiry.None? {
      if b in s.counters && s.counters[b].expiry.None? {
        var i :| 0 <= i < |s.slots| && s.slots[i] == ToExpire(b);
        assert t.slots[i] == ToExpire(b);
      } else {
        assert t.slots[a.slot] == ToExpire(b);
      }
    }
  }

  /** Unless a request is dropped between the two commands, every counter gets an expiry, at most a
      window ahead. */
  lemma {:induction false} CountersExpire(c: Config, t0: nat, k: nat, actions: seq<Action>, b: nat)
    requires Legal(c, t0, k, actions)
    ensures ExpiresSoon(c, After(c, t0, k, actions), b)
    ensures (forall a | a in actions :: !a.Disconnect?) ==> ExpirySet(After(c, t0, k, actions), b)
    decreases |actions|
  {
    if actions == [] {
    } else {
      var before, a := actions[..|actions| - 1], actions[|actions| - 1];
      CountersExpire(c, t0, k, before, b);
      ExpiryStep(c, After(c, t0, k, before), a, b);
      assert forall x | x in before :: x in actions;
    }
  }

  /** A counter that will never expire: nobody is left to set its expiry. */
  predicate Immortal(s: State, b: nat) {
    && b in s.counters && s.counters[b].expiry.None? && s.counters[b].count > 0
    && forall i | 0 <= i < |s.slots| :: s.slots[i] != ToExpire(b)
  }

  lemma ImmortalStep(c: Config, s: State, a: Action, b: nat)
    requires Immortal(s, b) && Enabled(s, a)
    ensures Immortal(Apply(c, s, a), b)
  {
  }

  /** Dropped between them, a request leaves its counter in the store for good, whatever follows. */
  lemma {:induction false} LostExpiryStays(c: Config, t0: nat, k: nat, actions: seq<Action>, more: seq<Action>, b: nat)
    requires Legal(c, t0, k, actions) && Immortal(After(c, t0, k, actions), b) && Legal(c, t0, k, actions + more)
    ensures Immortal(After(c, t0, k, actions + more), b)
    decreases |more|
  {
    if more == [] {
      assert actions + more == actions;
    } else {
      var all := actions + more;
      assert all[..|all| - 1] == actions + more[..|more| - 1];
      LostExpiryStays(c, t0, k, actions, more[..|more| - 1], b);
      ImmortalStep(c, After(c, t0, k, all[..|all| - 1]), all[|all| - 1], b);
    }
  }

  /** It happens: the first success of a window, dropped before its second command. */
  lemma ExpiryCanBeLost(c: Config, t0: nat) returns (actions: seq<Action>)
    ensures Legal(c, t0, 1, actions) && Immortal(After(c, t0, 1, actions), Bucket(c, t0))
  {
    actions := Extend(c, t0, 1, [], Arrive(0));
    actions := Extend(c, t0, 1, actions, Look(0));
    actions := Extend(c, t0, 1, actions, Provision(0));
    actions := Extend(c, t0, 1, actions, Increment(0));
    actions := Extend(c, t0, 1, actions, Disconnect(0));
  }

  // ----- The bound is reached -----

  lemma Extend(c: Config, t0: nat, k: nat, actions: seq<Action>, a: Action) returns (more: seq<Action>)
    requires Legal(c, t0, k, actions) && Enabled(After(c, t0, k, actions), a)
    ensures Legal(c, t0, k, more) && After(c, t0, k, more) == Apply(c, After(c, t0, k, actions), a)
  {
    more := actions + [a];
    assert more[..|more| - 1] == actions;
  }

  /** A run that has stayed within its first bucket. */
  ghost predicate AtOnce(c: Config, t0: nat, k: nat, actions: seq<Action>, slots: seq<Phase>, n: nat) {
    && Legal(c, t0, k, actions)
    && var s := After(c, t0, k, actions);
       s.now == t0 && s.slots == slots && |slots| == k && s.recorded[Bucket(c, t0)] == n
  }

  lemma OnePasses(c: Config, t0: nat, k: nat, actions: seq<Action>, slots: seq<Phase>, n: nat, i: nat)
    returns (more: seq<Action>)
    requires AtOnce(c, t0, k, actions, slots, n) && i < k && slots[i].Idle? && n < c.max
    ensures AtOnce(c, t0, k, more, slots[i := Passed], n)
  {
    var arrived := Extend(c, t0, k, actions, Arrive(i));
    CounterOutlivesBucket(c, t0, k, arrived, Bucket(c, t0));
    more := Extend(c, t0, k, arrived, Look(i));
    assert After(c, t0, k, more).slots == slots[i := Passed];
  }

  lemma OneRecords(c: Config, t0: nat, k: nat, actions: seq<Action>, slots: seq<Phase>, n: nat, i: nat)
    returns (more: seq<Action>)
    requires AtOnce(c, t0, k, actions, slots, n) && i < k && slots[i].Passed?
    ensures AtOnce(c, t0, k, more, slots[i := Idle], n + 1)
  {
    var keyed := Extend(c, t0, k, actions, Provision(i));
    more := Extend(c, t0, k, keyed, Increment(i));
    if After(c, t0, k, more).slots[i].ToExpire? {
      more := Extend(c, t0, k, more, SetExpiry(i));
    }
    assert After(c, t0, k, more).slots == slots[i := Idle];
  }

  /** The first `n` slots in one phase, the rest in another. */
  function Split(k: nat, n: nat, first: Phase, rest: Phase): seq<Phase> {
    seq(k, i => if i < n then first else rest)
  }

  lemma {:induction false} OneByOne(c: Config, t0: nat, k: nat, n: nat) returns (actions: seq<Action>)
    requires k > 0 && n < c.max
    ensures AtOnce(c, t0, k, actions, Split(k, 0, Passed, Idle), n)
  {
    if n == 0 {
      actions := [];
      assert Initial(t0, k).slots == Split(k, 0, Passed, Idle);
    } else {
      var slots := Split(k, 0, Passed, Idle);
      actions := OneByOne(c, t0, k, n - 1);
      actions := OnePasses(c, t0, k, actions, slots, n - 1, 0);
      actions := OneRecords(c, t0, k, actions, slots[0 := Passed], n - 1, 0);
      assert slots[0 := Passed][0 := Idle] == slots;
    }
  }

  lemma {:induction false} AllPass(c: Config, t0: nat, k: nat, n: nat) returns (actions: seq<Action>)
    requires k > 0 && n <= k
    ensures AtOnce(c, t0, k, actions, Split(k, n, Passed, Idle), c.max - 1)
  {
    if n == 0 {
      actions := OneByOne(c, t0, k, c.max - 1);
    } else {
      actions := AllPass(c, t0, k, n - 1);
      actions := OnePasses(c, t0, k, actions, Split(k, n - 1, Passed, Idle), c.max - 1, n - 1);
      assert Split(k, n - 1, Passed, Idle)[n - 1 := Passed] == Split(k, n, Passed, Idle);
    }
  }

  lemma {:induction false} AllRecord(c: Config, t0: nat, k: nat, n: nat) returns (actions: seq<Action>)
    requires k > 0 && n <= k
    ensures AtOnce(c, t0, k, actions, Split(k, n, Idle, Passed), c.max - 1 + n)
  {
    if n == 0 {
      actions := AllPass(c, t0, k, k);
      assert Split(k, k, Passed, Idle) == Split(k, 0, Idle, Passed);
    } else {
      actions := AllRecord(c, t0, k, n - 1);
      actions := OneRecords(c, t0, k, actions, Split(k, n - 1, Idle, Passed), c.max - 1 + n - 1, n - 1);
      assert Split(k, n - 1, Idle, Passed)[n - 1 := Idle] == Split(k, n, Idle, Passed);
    }
  }

  /** The overshoot is real: `k` requests that all check before any records take a bucket to max - 1 + k. */
  lemma OvershootIsReached(c: Config, t0: nat, k: nat) returns (actions: seq<Action>)
    requires k > 0
    ensures Legal(c, t0, k, actions) && After(c, t0, k, actions).recorded[Bucket(c, t0)] == c.max - 1 + k
  {
    actions := AllRecord(c, t0, k, k);
  }

  predicate RecordsAtMost(c: Config, t0: nat, k: nat, actions: seq<Action>, b: nat, n: int) {
    Legal(c, t0, k, actions) ==> After(c, t0, k, actions).recorded[b] <= n
  }

  /** With up to `k` requests in flight, `n` successes a bucket are a sure limit if and only if `n`
      is max - 1 + k or more: so the configured maximum, only one at a time. */
  lemma BudgetExactly(c: Config, t0: nat, k: nat, n: int)
    requires k > 0
    ensures (forall actions, b :: RecordsAtMost(c, t0, k, actions, b, n)) <==> c.max - 1 + k <= n
  {
    if c.max - 1 + k <= n {
      forall actions, b ensures RecordsAtMost(c, t0, k, actions, b, n) {
        if Legal(c, t0, k, actions) {
          BudgetUnderConcurrency(c, t0, k, actions, b);
        }
      }
    } else {
      var actions := OvershootIsReached(c, t0, k);
      assert !RecordsAtMost(c, t0, k, actions, Bucket(c, t0), n);
    }
  }
}
