/** The fixed-window rate limiter, and the bound it gives on any one-minute interval. */
module RateLimiting {
  import opened Wrappers
  import opened Direct

  /** `start` is 0 for the zero value, which is what a missing key yields. */
  datatype Bucket = Bucket(start: int, count: nat)

  type Buckets = map<string, Bucket>

  datatype Request = Request(key: string, now: int)

  function Lookup(buckets: Buckets, key: string): Bucket {
    if key in buckets then buckets[key] else Bucket(0, 0)
  }

  predicate Expired(b: Bucket, now: int) {
    b.start == 0 || Since(now, b.start) >= MINUTE
  }

  function Counted(b: Bucket, now: int): Bucket {
    if Expired(b, now) then Bucket(now, 1) else b.(count := b.count + 1)
  }

  class RateLimiter {
    const limit: int
    var buckets: Buckets
    /** Every request so far, admitted or not. */
    ghost var history: seq<Request>

    ghost predicate Valid()
      reads this
    {
      buckets == After(history)
    }

    constructor (limit: int)
      ensures Valid() && this.limit == limit && history == []
    {
      this.limit, this.buckets, this.history := limit, map[], [];
    }

    /** One request, under the lock; it is counted whether or not it is admitted. */
    method Admit(key: string, now: int) returns (admitted: bool)
      requires Valid()
      modifies this
      ensures Valid() && history == old(history) + [Request(key, now)]
      ensures admitted <==> LastAdmitted(limit, history)
    {
      var bucket := if key in buckets then buckets[key] else Bucket(0, 0);
      if bucket.start == 0 || Since(now, bucket.start) >= MINUTE {
        bucket := Bucket(now, 0);
      }
      bucket := bucket.(count := bucket.count + 1);
      buckets := buckets[key := bucket];
      history := history + [Request(key, now)];
      assert history[..|history| - 1] == old(history);
      var exceeded := bucket.count > limit;
      admitted := !exceeded;
    }
  }

  // ---------- runs ----------

  function After(run: seq<Request>): Buckets {
    if run == [] then map[]
    else
      var last := run[|run| - 1];
      var before := After(run[..|run| - 1]);
      before[last.key := Counted(Lookup(before, last.key), last.now)]
  }

  /** The last request of a non-empty run was admitted. */
  predicate LastAdmitted(limit: int, run: seq<Request>)
    requires run != []
  {
    Lookup(After(run), run[|run| - 1].key).count <= limit
  }

  /** How many requests of `key` were admitted at instants in [from, to). */
  function Admissions(limit: int, run: seq<Request>, key: string, from: int, to: int): nat {
    if run == [] then 0
    else
      var last := run[|run| - 1];
      Admissions(limit, run[..|run| - 1], key, from, to)
      + if last.key == key && from <= last.now < to && LastAdmitted(limit, run) then 1 else 0
  }

  /** The clock never shows the zero time and never goes back. */
  ghost predicate Clocked(run: seq<Request>) {
    && (forall i :: 0 <= i < |run| ==> run[i].now > 0)
    && forall i, j :: 0 <= i < j < |run| ==> run[i].now <= run[j].now
  }

  /** How many requests were admitted in the current bucket of `key`. */
  function InCurrentBucket(limit: int, run: seq<Request>, key: string): nat {
    if run == [] then 0
    else
      var front, last := run[..|run| - 1], run[|run| - 1];
      var one := if LastAdmitted(limit, run) then 1 else 0;
      if last.key != key then InCurrentBucket(limit, front, key)
      else if Expired(Lookup(After(front), key), last.now) then one
      else InCurrentBucket(limit, front, key) + one
  }

  /** A bucket admits the first `limit` of the requests it counts, rejected ones included, and no others. */
  lemma {:induction false} BucketAdmitsExactly(limit: int, run: seq<Request>, key: string)
    ensures var count := Lookup(After(run), key).count;
      InCurrentBucket(limit, run, key) == if limit <= 0 then 0 else if count < limit then count else limit
  {
    if run != [] {
      BucketAdmitsExactly(limit, run[..|run| - 1], key);
    }
  }

  // ---------- admission in terms of the requests alone ----------

  function CountOf(run: seq<Request>, key: string): nat {
    if run == [] then 0 else CountOf(run[..|run| - 1], key) + if run[|run| - 1].key == key then 1 else 0
  }

  /** The request that opened the current bucket of `key`: the first one, or else the last that came a minute or more
      after the one that had opened the bucket before it. */
  ghost function Opener(run: seq<Request>, key: string): (o: Option<nat>)
    ensures o.Some? ==> o.value < |run| && run[o.value].key == key
    ensures o.None? <==> forall i :: 0 <= i < |run| ==> run[i].key != key
  {
    if run == [] then None
    else
      var front, last := run[..|run| - 1], run[|run| - 1];
      var before := Opener(front, key);
      assert forall i :: 0 <= i < |front| ==> front[i] == run[i];
      if last.key == key && (before.None? || last.now - front[before.value].now >= MINUTE) then Some(|run| - 1)
        else before
  }

  lemma CountOfLonger(run: seq<Request>, o: nat, key: string)
    requires o < |run|
    ensures CountOf(run[o..], key)
         == (if o == |run| - 1 then 0 else CountOf(run[..|run| - 1][o..], key))
          + if run[|run| - 1].key == key then 1 else 0
  {
    assert run[o..][..|run| - o - 1] == run[o..|run| - 1] == run[..|run| - 1][o..];
    if o == |run| - 1 {
      assert run[o..][..0] == [];
    }
  }

  /** Starts with the opener, and counts every request of the key since then. */
  ghost function Current(run: seq<Request>, key: string): Bucket {
    var o := Opener(run, key);
    if o.None? then Bucket(0, 0) else Bucket(run[o.value].now, CountOf(run[o.value..], key))
  }

  lemma CurrentStep(run: seq<Request>, key: string)
    requires Clocked(run) && run != []
    ensures var before, last := Current(run[..|run| - 1], key), run[|run| - 1];
      Current(run, key) == if last.key == key then Counted(before, last.now) else before
  {
    var front, o := run[..|run| - 1], Opener(run, key);
    if o.Some? {
      CountOfLonger(run, o.value, key);
      assert o.value < |front| ==> front[o.value] == run[o.value];
    }
    assert Opener(front, key).Some? ==> front[Opener(front, key).value] == run[Opener(front, key).value];
  }

  /** The bucket of a key, exactly. */
  lemma {:induction false} BucketExactly(run: seq<Request>, key: string)
    requires Clocked(run)
    ensures Lookup(After(run), key) == Current(run, key)
  {
    if run != [] {
      BucketExactly(run[..|run| - 1], key);
      CurrentStep(run, key);
    }
  }

  /** A request is admitted exactly when the requests of its key since the opener, itself included, are at most
      `limit`. */
  lemma AdmittedExactly(limit: int, run: seq<Request>)
    requires Clocked(run) && run != []
    ensures var key := run[|run| - 1].key;
      var o := Opener(run, key);
      o.Some? && (LastAdmitted(limit, run) <==> CountOf(run[o.value..], key) <= limit)
  {
    BucketExactly(run, run[|run| - 1].key);
  }

  function Only(run: seq<Request>, key: string): seq<Request> {
    if run == [] then []
    else
      Only(run[..|run| - 1], key) + if run[|run| - 1].key == key then [run[|run| - 1]] else []
  }

  /** Keys do not affect each other: leaving out the requests of all other keys changes neither the bucket of
      `key` nor which of its requests are admitted. */
  lemma {:induction false} KeysAreIndependent(limit: int, run: seq<Request>, key: string, from: int, to: int)
    ensures Lookup(After(Only(run, key)), key) == Lookup(After(run), key)
    ensures Admissions(limit, Only(run, key), key, from, to) == Admissions(limit, run, key, from, to)
  {
    if run != [] {
      var front, last := run[..|run| - 1], run[|run| - 1];
      KeysAreIndependent(limit, front, key, from, to);
      if last.key == key {
        var only := Only(run, key);
        assert only[..|only| - 1] == Only(front, key);
      } else {
        assert Only(run, key) == Only(front, key);
      }
    }
  }

  lemma {:induction false} NothingBefore(limit: int, run: seq<Request>, key: string, from: int, to: int)
    requires forall i :: 0 <= i < |run| ==> run[i].now < from
    ensures Admissions(limit, run, key, from, to) == 0
  {
    if run != [] {
      NothingBefore(limit, run[..|run| - 1], key, from, to);
    }
  }

  lemma {:induction false} BucketStartsInRun(run: seq<Request>, key: string)
    requires Clocked(run)
    ensures var b := Lookup(After(run), key);
      (b == Bucket(0, 0)) || (b.count >= 1 && b.start > 0 && exists i :: 0 <= i < |run| && run[i].now == b.start)
  {
    if run != [] {
      var front := run[..|run| - 1];
      BucketStartsInRun(front, key);
      assert forall i :: 0 <= i < |front| ==> run[i] == front[i];
    }
  }

  /** What is known of the admissions in [from, from + MINUTE), depending on where the current bucket starts. */
  ghost predicate WithinBound(limit: int, b: Bucket, from: int, admissions: nat) {
    var full := if b.count < limit then b.count else limit;
    if b.start == 0 then admissions == 0
    else if b.start < from then admissions <= full - 1
    else if b.start < from + MINUTE then admissions <= limit - 1 + full
    else admissions <= 2 * limit - 1
  }

  lemma BoundStep(limit: int, b: Bucket, now: int, from: int, admissions: nat, added: nat)
    requires limit >= 1 && now > 0 && b.start <= now && (b == Bucket(0, 0) || (b.count >= 1 && b.start > 0))
    requires WithinBound(limit, b, from, admissions) && (now < from ==> admissions == 0)
    requires added == if from <= now < from + MINUTE && Counted(b, now).count <= limit then 1 else 0
    ensures WithinBound(limit, Counted(b, now), from, admissions + added)
  {
  }

  lemma {:induction false} AdmissionsWithinBound(limit: int, run: seq<Request>, key: string, from: int)
    requires limit >= 1 && Clocked(run)
    ensures WithinBound(limit, Lookup(After(run), key), from, Admissions(limit, run, key, from, from + MINUTE))
  {
    if run != [] {
      var front, last := run[..|run| - 1], run[|run| - 1];
      AdmissionsWithinBound(limit, front, key, from);
      if last.key == key {
        var b, admissions := Lookup(After(front), key), Admissions(limit, front, key, from, from + MINUTE);
        BucketStartsInRun(front, key);
        assert forall i :: 0 <= i < |front| ==> front[i] == run[i];
        if last.now < from {
          NothingBefore(limit, front, key, from, from + MINUTE);
        }
        var added := if from <= last.now < from + MINUTE && Counted(b, last.now).count <= limit then 1 else 0;
        BoundStep(limit, b, last.now, from, admissions, added);
      }
    }
  }

  lemma {:induction false} NothingWithoutLimit(limit: int, run: seq<Request>, key: string, from: int, to: int)
    requires limit <= 0
    ensures Admissions(limit, run, key, from, to) == 0
  {
    if run != [] {
      NothingWithoutLimit(limit, run[..|run| - 1], key, from, to);
    }
  }

  /** In any half-open interval of one minute a key is admitted at most 2 * limit - 1 times; never, if the
      limit is not positive. */
  lemma SlidingWindowBound(limit: int, run: seq<Request>, key: string, from: int)
    requires Clocked(run)
    ensures Admissions(limit, run, key, from, from + MINUTE) <= if limit >= 1 then 2 * limit - 1 else 0
  {
    if limit >= 1 {
      AdmissionsWithinBound(limit, run, key, from);
    } else {
      NothingWithoutLimit(limit, run, key, from, from + MINUTE);
    }
  }

  // ---------- the bound is reached ----------

  function Repeat(key: string, now: int, n: nat): seq<Request> {
    seq(n, i => Request(key, now))
  }

  /** `n` requests at one instant, the first of which opens the bucket if `opens`. */
  lemma {:induction false} Burst(limit: int, run: seq<Request>, key: string, now: int, n: nat, from: int, to: int,
                                 opens: bool)
    requires now > 0 && from <= now < to
    requires var b := Lookup(After(run), key);
      if opens then Expired(b, now) else b.start > 0 && 0 <= now - b.start < MINUTE && b.count + n <= limit
    requires n <= limit
    ensures var b, after := Lookup(After(run), key), Lookup(After(run + Repeat(key, now, n)), key);
      after == if n == 0 then b else if opens then Bucket(now, n) else Bucket(b.start, b.count + n)
    ensures Admissions(limit, run + Repeat(key, now, n), key, from, to) == Admissions(limit, run, key, from, to) + n
  {
    var whole := run + Repeat(key, now, n);
    if n == 0 {
      assert whole == run;
    } else {
      Burst(limit, run, key, now, n - 1, from, to, opens);
      assert whole[..|whole| - 1] == run + Repeat(key, now, n - 1);
      if n == 1 {
        assert run + Repeat(key, now, 0) == run;
      }
    }
  }

  /** The bound is exact: some run with a proper clock reaches it, for every positive limit. */
  lemma SlidingWindowBoundReached(limit: int, key: string)
    requires limit >= 1
    ensures exists run :: Clocked(run) && Admissions(limit, run, key, 2, 2 + MINUTE) == 2 * limit - 1
  {
    var opening := Repeat(key, 1, 1);
    var late := opening + Repeat(key, MINUTE, limit - 1);
    var run := late + Repeat(key, 1 + MINUTE, limit);
    assert opening[..0] == [];
    assert Lookup(After(opening), key) == Bucket(1, 1);
    assert Admissions(limit, opening, key, 2, 2 + MINUTE) == 0;
    Burst(limit, opening, key, MINUTE, limit - 1, 2, 2 + MINUTE, false);
    assert limit == 1 ==> late == opening;
    assert Lookup(After(late), key).start == 1;
    Burst(limit, late, key, 1 + MINUTE, limit, 2, 2 + MINUTE, true);
    assert Clocked(run);
  }
}
