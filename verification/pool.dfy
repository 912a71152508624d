/**
 * The worker pool's bookkeeping: the sticky-session table and the
 * round-robin cursor `next`, and how `accept` picks the worker for a job.
 *
 * `accept` reads the session table but never writes it: nothing in the
 * pool calls `hit_session` or `prune_stale`, so the table stays empty and
 * every job is dealt round-robin.  `AcceptPinned` is `accept` followed by
 * the `hit_session` it evidently lacks, and is proved to keep a session on
 * its worker (`SelectAndRecord`).
 */
module Pool {
  import opened SessionTable

  /** Rust's `usize` on a 64-bit target. */
  newtype usize = x: int | 0 <= x < 0x1_0000_0000_0000_0000

  const USIZE_MAX: int := 0xFFFF_FFFF_FFFF_FFFF

  /** `next.wrapping_add(1)`. */
  function WrappingIncrement(n: usize): (r: usize)
    ensures n as int < USIZE_MAX ==> r as int == n as int + 1
    ensures n as int == USIZE_MAX ==> r == 0
  {
    if n as int == USIZE_MAX then 0 else n + 1
  }

  /**
   * Where `accept` sends a job: a worker index, or one of the two panics
   * on the way (`%` by zero workers, or indexing past the worker list with
   * a recorded worker).
   */
  datatype Routing = Routed(worker: nat) | RemainderByZero | IndexOutOfBounds(worker: nat)

  datatype Selection = Selection(routing: Routing, next: usize)

  /**
   * The worker choice of `accept` for session `s`: a mapped session goes to
   * its recorded worker and leaves `next` alone; any other goes to
   * `next % workerCount`, and `next` moves on by one, wrapping.
   */
  function Select(sticky: map<string, Sticky>, next: usize, workerCount: nat, s: string): (r: Selection)
    ensures s in sticky ==> r.next == next
    ensures s in sticky && sticky[s].worker < workerCount ==> r.routing == Routed(sticky[s].worker)
    ensures s in sticky && sticky[s].worker >= workerCount ==> r.routing == IndexOutOfBounds(sticky[s].worker)
    ensures s !in sticky && workerCount == 0 ==> r.routing == RemainderByZero && r.next == next
    ensures s !in sticky && workerCount > 0 ==>
              r.routing.Routed? && r.routing.worker < workerCount
              && r.routing.worker == next as int % workerCount && r.next == WrappingIncrement(next)
  {
    if s in sticky then
      var w := sticky[s].worker;
      Selection(if w < workerCount then Routed(w) else IndexOutOfBounds(w), next)
    else if workerCount == 0 then Selection(RemainderByZero, next)
    else Selection(Routed(next as int % workerCount), WrappingIncrement(next))
  }

  /** The routings of `k` consecutive jobs of sessions the table does not hold. */
  function Misses(next: usize, workerCount: nat, k: nat): (r: seq<Routing>)
    ensures |r| == k
    decreases k
  {
    if k == 0 then []
    else
      var sel := Select(map[], next, workerCount, "");
      [sel.routing] + Misses(sel.next, workerCount, k - 1)
  }

  /** Unmapped sessions are dealt round-robin: job `i` goes to worker `(next + i) mod 2^64 mod workerCount`. */
  lemma {:induction false} RoundRobin(next: usize, workerCount: nat, k: nat, i: nat)
    requires workerCount > 0 && i < k
    ensures Misses(next, workerCount, k)[i] == Routed(((next as int + i) % 0x1_0000_0000_0000_0000) % workerCount)
    decreases i
  {
    if i > 0 {
      var n' := WrappingIncrement(next);
      RoundRobin(n', workerCount, k - 1, i - 1);
      assert (n' as int + (i - 1)) % 0x1_0000_0000_0000_0000 == (next as int + i) % 0x1_0000_0000_0000_0000;
    }
  }

  /** From a fresh pool, the `i`-th job goes to worker `i mod workerCount`. */
  lemma RoundRobinFromZero(workerCount: nat, k: nat, i: nat)
    requires workerCount > 0 && i < k <= 0x1_0000_0000_0000_0000
    ensures Misses(0, workerCount, k)[i] == Routed(i % workerCount)
  {
    RoundRobin(0, workerCount, k, i);
  }

  /**
   * As written, `accept` does not pin a session: the table is left as it
   * was, so the same unmapped session sent twice in a row goes to two
   * different workers whenever there are at least two.
   */
  lemma SameSessionTwoWorkers(sticky: map<string, Sticky>, next: usize, workerCount: nat, s: string)
    requires s !in sticky && workerCount >= 2 && next as int < USIZE_MAX
    ensures var first := Select(sticky, next, workerCount, s);
            var second := Select(sticky, first.next, workerCount, s);
            first.routing.Routed? && second.routing.Routed? && first.routing != second.routing
  {
    var n, c := next as int, workerCount;
    var q, r := n / c, n % c;
    assert n == q * c + r;
    if r + 1 < c {
      ModOfSum(n + 1, c, q, r + 1);
    } else {
      assert n + 1 == (q + 1) * c;
      ModOfSum(n + 1, c, q + 1, 0);
    }
  }

  /** Euclidean division is unique: `a == q * c + x` with `0 <= x < c` makes `x` the remainder. */
  lemma ModOfSum(a: int, c: int, q: int, x: int)
    requires c > 0 && 0 <= x < c && a == q * c + x
    ensures a % c == x
  {
    var d := a / c - q;
    assert a == (a / c) * c + a % c;
    assert d * c == (a / c) * c - q * c;
    assert d >= 1 ==> d * c >= c;
    assert d <= -1 ==> d * c <= -c;
  }

  /**
   * `accept` with the `hit_session` it lacks: route the job, then record
   * the session against the worker it went to.  A panic records nothing.
   */
  function SelectAndRecord(t: Table, next: usize, workerCount: nat, s: string, now: nat): (r: (Selection, Table))
    ensures r.0 == Select(t.sticky, next, workerCount, s)
  {
    var sel := Select(t.sticky, next, workerCount, s);
    if sel.routing.Routed? then (sel, Hit(t, s, sel.routing.worker, now)) else (sel, t)
  }

  /**
   * With the correction a session sticks to its worker: once routed, the
   * next job of the same session goes to the same worker, and the table
   * stays valid.
   */
  lemma PinnedAffinity(t: Table, next: usize, workerCount: nat, s: string, now: nat, later: nat)
    requires Valid(t) && workerCount > 0 && s !in t.sticky
    ensures var (sel, t1) := SelectAndRecord(t, next, workerCount, s, now);
            var (sel2, t2) := SelectAndRecord(t1, sel.next, workerCount, s, later);
            sel.routing.Routed? && sel2.routing == sel.routing && sel2.next == sel.next
            && Valid(t1) && Valid(t2)
  {
    var (sel, t1) := SelectAndRecord(t, next, workerCount, s, now);
    HitPreservesValid(t, s, sel.routing.worker, now);
    HitPreservesValid(t1, s, sel.routing.worker, later);
  }

  /**
   * `WorkerPool`'s bookkeeping fields; the worker senders are represented
   * by their number.
   */
  class WorkerPool {
    const workerCount: nat
    var sticky: map<string, Sticky>
    var order: seq<string>
    var next: usize

    /** The session table's invariant. */
    ghost predicate Valid()
      reads this
    {
      SessionTable.Valid(Table(sticky, order))
    }

    /** `WorkerPool::new` after the workers are started: an empty table and `next == 0`. */
    constructor(workerCount: nat)
      ensures Valid()
      ensures this.workerCount == workerCount && sticky == map[] && order == [] && next == 0
    {
      this.workerCount := workerCount;
      sticky := map[];
      order := [];
      next := 0;
    }

    /** `hit_session(s, worker)` at time `now`. */
    method HitSession(s: string, worker: nat, now: nat)
      modifies this
      ensures Table(sticky, order) == Hit(old(Table(sticky, order)), s, worker, now)
      ensures next == old(next)
      ensures old(Valid()) ==> Valid()
    {
      ghost var before := Table(sticky, order);
      if s !in sticky && |order| >= MAX_SESSION {
        var oldest := order[0];            // pop_front
        order := order[1..];
        sticky := sticky - {oldest};
      }
      sticky := sticky[s := Sticky(worker, now)];
      order := Without(order, s);          // retain(|x| x != s)
      order := order + [s];                // push_back
      if SessionTable.Valid(before) {
        HitPreservesValid(before, s, worker, now);
      }
    }

    /** `prune_stale` at time `now`. */
    method PruneStale(now: nat)
      modifies this
      ensures Table(sticky, order) == Prune(old(Table(sticky, order)), now)
      ensures next == old(next)
      ensures old(Valid()) ==> Valid()
    {
      ghost var target := Prune(Table(sticky, order), now);
      if Valid() {
        PrunePreservesValid(Table(sticky, order), now);
      }
      while order != []
        invariant Prune(Table(sticky, order), now) == target
        invariant next == old(next)
        decreases |order|
      {
        var key := order[0];               // pop_front
        order := order[1..];
        if key in sticky {
          if Expired(sticky[key], now) {
            sticky := sticky - {key};
          } else {
            order := order + [key];        // push_back
            break;
          }
        }
      }
    }

    /** The worker choice of `accept(prompt, sample_len, s)`. */
    method Accept(s: string) returns (routing: Routing)
      modifies this`next
      ensures routing == Select(sticky, old(next), workerCount, s).routing
      ensures next == Select(sticky, old(next), workerCount, s).next
      ensures sticky == old(sticky) && order == old(order)
    {
      if s in sticky {
        var w := sticky[s].worker;
        routing := if w < workerCount then Routed(w) else IndexOutOfBounds(w);
      } else if workerCount == 0 {
        routing := RemainderByZero;
      } else {
        var idx := next as int % workerCount;
        next := WrappingIncrement(next);
        routing := Routed(idx);
      }
    }

    /** `accept` followed by `hit_session` on the chosen worker. */
    method AcceptPinned(s: string, now: nat) returns (routing: Routing)
      modifies this
      ensures var (sel, t) := SelectAndRecord(old(Table(sticky, order)), old(next), workerCount, s, now);
              routing == sel.routing && next == sel.next && Table(sticky, order) == t
      ensures old(Valid()) ==> Valid()
    {
      routing := Accept(s);
      if routing.Routed? {
        HitSession(s, routing.worker, now);
      }
    }
  }
}
