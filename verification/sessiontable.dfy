/**
 * The sticky-session table of the inference worker pool: a map from
 * session id to `(worker, last_used)` and a recency list of the same ids
 * (front = least recently used), capped at `MAX_SESSION` entries.
 *
 * `Hit` is `hit_session` and `Prune` is `prune_stale`, as values: the
 * pool's methods are proved to leave exactly these tables behind.  Times
 * are a clock reading in nanoseconds, passed in by the caller.
 */
module SessionTable {

  const MAX_SESSION: nat := 10
  const NANOS_PER_SECOND: nat := 1_000_000_000
  /** Thirty minutes. */
  const SESSION_TTL: nat := 30 * 60 * NANOS_PER_SECOND

  datatype Sticky = Sticky(worker: nat, lastUsed: nat)

  /** `session_sticky_map` and `session_order`. */
  datatype Table = Table(sticky: map<string, Sticky>, order: seq<string>)

  predicate NoDup(o: seq<string>)
    decreases |o|
  {
    o == [] || (o[0] !in o[1..] && NoDup(o[1..]))
  }

  /**
   * The table's invariant: the map's keys are exactly the ids in the
   * recency list, which holds each id once and at most `MAX_SESSION` ids.
   */
  predicate Valid(t: Table) {
    (forall k :: k in t.sticky ==> k in t.order) && (forall k :: k in t.order ==> k in t.sticky)
    && NoDup(t.order) && |t.order| <= MAX_SESSION
  }

  /** `now.duration_since(last_used)`, which is zero when `last_used` is later than `now`. */
  function Age(lastUsed: nat, now: nat): (a: nat)
    ensures a <= now
    ensures a == 0 <==> now <= lastUsed
  {
    if now >= lastUsed then now - lastUsed else 0
  }

  /** Strictly older than the time-to-live: an entry exactly `SESSION_TTL` old is still live. */
  predicate Expired(st: Sticky, now: nat)
    ensures Expired(st, now) <==> now > st.lastUsed + SESSION_TTL
  {
    Age(st.lastUsed, now) > SESSION_TTL
  }

  // ---------------------------------------------------------------------
  // `VecDeque::retain(|x| x != s)`

  function Without(o: seq<string>, s: string): (r: seq<string>)
    ensures |r| <= |o|
  {
    if o == [] then [] else (if o[0] == s then [] else [o[0]]) + Without(o[1..], s)
  }

  lemma {:induction false} WithoutMembers(o: seq<string>, s: string, k: string)
    ensures k in Without(o, s) <==> k in o && k != s
  {
    if o != [] {
      WithoutMembers(o[1..], s, k);
      assert k in o <==> k == o[0] || k in o[1..];
    }
  }

  lemma {:induction false} WithoutNoDup(o: seq<string>, s: string)
    requires NoDup(o)
    ensures NoDup(Without(o, s))
  {
    if o != [] {
      WithoutNoDup(o[1..], s);
      WithoutMembers(o[1..], s, o[0]);
      var r := Without(o, s);
      if o[0] != s {
        assert r[0] == o[0] && r[1..] == Without(o[1..], s);
      } else {
        assert r == Without(o[1..], s);
      }
    }
  }

  lemma {:induction false} WithoutAbsent(o: seq<string>, s: string)
    requires s !in o
    ensures Without(o, s) == o
  {
    if o != [] {
      WithoutAbsent(o[1..], s);
      assert [o[0]] + o[1..] == o;
    }
  }

  lemma {:induction false} WithoutLength(o: seq<string>, s: string)
    requires NoDup(o) && s in o
    ensures |Without(o, s)| == |o| - 1
  {
    if o[0] == s {
      WithoutAbsent(o[1..], s);
    } else {
      WithoutLength(o[1..], s);
    }
  }

  lemma {:induction false} WithoutAppend(a: seq<string>, b: seq<string>, s: string)
    ensures Without(a + b, s) == Without(a, s) + Without(b, s)
  {
    if a == [] {
      assert a + b == b;
    } else {
      assert (a + b)[0] == a[0] && (a + b)[1..] == a[1..] + b;
      WithoutAppend(a[1..], b, s);
    }
  }

  lemma WithoutTwice(o: seq<string>, s: string)
    ensures Without(Without(o, s), s) == Without(o, s)
  {
    WithoutMembers(o, s, s);
    WithoutAbsent(Without(o, s), s);
  }

  lemma {:induction false} NoDupSnoc(o: seq<string>, x: string)
    requires NoDup(o) && x !in o
    ensures NoDup(o + [x])
  {
    if o == [] {
      assert o + [x] == [x];
    } else {
      assert (o + [x])[0] == o[0] && (o + [x])[1..] == o[1..] + [x];
      NoDupSnoc(o[1..], x);
    }
  }

  // ---------------------------------------------------------------------
  // `hit_session`

  /**
   * The eviction `hit_session` does first: when `s` is new and the list
   * already holds `MAX_SESSION` ids, the front id leaves the list and the map.
   */
  function Evict(t: Table, s: string): (r: Table)
    ensures r.sticky.Keys <= t.sticky.Keys && |r.order| <= |t.order|
    ensures s in t.sticky ==> r == t
  {
    if s !in t.sticky && |t.order| >= MAX_SESSION then Table(t.sticky - {t.order[0]}, t.order[1..]) else t
  }

  /**
   * `hit_session(s, worker)` at time `now`: after the eviction, `s` is
   * (re)mapped to `(worker, now)` and moved to the back of the list.
   */
  function Hit(t: Table, s: string, worker: nat, now: nat): (r: Table)
    ensures s in r.sticky && r.sticky[s] == Sticky(worker, now)
    ensures r.order != [] && r.order[|r.order| - 1] == s
  {
    var e := Evict(t, s);
    Table(e.sticky[s := Sticky(worker, now)], Without(e.order, s) + [s])
  }

  /** On a valid table the eviction keeps the map and the list in step. */
  lemma EvictValid(t: Table, s: string)
    requires Valid(t)
    ensures var e := Evict(t, s);
            (forall k :: k in e.sticky <==> k in e.order) && NoDup(e.order)
            && |e.order| <= MAX_SESSION && (s !in e.sticky ==> |e.order| < MAX_SESSION)
  {
    if s !in t.sticky && |t.order| >= MAX_SESSION {
      var e := Evict(t, s);
      forall k ensures k in e.sticky <==> k in e.order {
        assert k in t.order <==> k == t.order[0] || k in t.order[1..];
      }
    }
  }

  /** `hit_session` keeps the table's invariant. */
  lemma HitPreservesValid(t: Table, s: string, worker: nat, now: nat)
    requires Valid(t)
    ensures Valid(Hit(t, s, worker, now))
  {
    var e := Evict(t, s);
    var r := Hit(t, s, worker, now);
    EvictValid(t, s);
    WithoutNoDup(e.order, s);
    WithoutMembers(e.order, s, s);
    NoDupSnoc(Without(e.order, s), s);
    forall k ensures k in r.sticky <==> k in r.order {
      WithoutMembers(e.order, s, k);
    }
    if s in e.order {
      WithoutLength(e.order, s);
    } else {
      WithoutAbsent(e.order, s);
    }
  }

  /**
   * Eviction happens exactly when `s` is new and the table is full, and
   * then exactly the front id goes; a known `s` changes neither the size
   * nor the set of ids.
   */
  lemma HitEviction(t: Table, s: string, worker: nat, now: nat)
    requires Valid(t)
    ensures var r := Hit(t, s, worker, now);
            s !in t.sticky && |t.order| == MAX_SESSION ==>
              r.order == t.order[1..] + [s] && r.sticky.Keys == t.sticky.Keys - {t.order[0]} + {s}
    ensures var r := Hit(t, s, worker, now);
            s !in t.sticky && |t.order| < MAX_SESSION ==>
              r.order == t.order + [s] && r.sticky.Keys == t.sticky.Keys + {s}
    ensures var r := Hit(t, s, worker, now);
            s in t.sticky ==> |r.order| == |t.order| && r.sticky.Keys == t.sticky.Keys
  {
    var r := Hit(t, s, worker, now);
    if s !in t.sticky {
      if |t.order| >= MAX_SESSION {
        assert t.order[0] in t.order;
        assert s !in t.order[1..];
        WithoutAbsent(t.order[1..], s);
      } else {
        WithoutAbsent(t.order, s);
      }
    } else {
      WithoutLength(t.order, s);
    }
  }

  /**
   * Every other id that survives the eviction keeps its entry, and the
   * other ids keep their relative order in the list.
   */
  lemma HitKeepsOthers(t: Table, s: string, worker: nat, now: nat)
    ensures var r := Hit(t, s, worker, now);
            forall k :: k != s && k in Evict(t, s).sticky ==> k in r.sticky && r.sticky[k] == t.sticky[k]
    ensures Without(Hit(t, s, worker, now).order, s) == Without(Evict(t, s).order, s)
  {
    var e := Evict(t, s);
    WithoutAppend(Without(e.order, s), [s], s);
    WithoutTwice(e.order, s);
    assert Without([s], s) == [];
  }

  // ---------------------------------------------------------------------
  // `prune_stale`

  /**
   * `prune_stale` at time `now`: pop ids off the front; drop an id the map
   * does not know; drop an expired id from the map too; at the first live
   * id push it back onto the BACK of the list and stop.
   */
  function Prune(t: Table, now: nat): (r: Table)
    ensures r.sticky.Keys <= t.sticky.Keys && |r.order| <= |t.order|
    decreases |t.order|
  {
    if t.order == [] then t
    else
      var key, rest := t.order[0], t.order[1..];
      if key !in t.sticky then Prune(Table(t.sticky, rest), now)
      else if Expired(t.sticky[key], now) then Prune(Table(t.sticky - {key}, rest), now)
      else Table(t.sticky, rest + [key])
  }

  /** `prune_stale` keeps the table's invariant. */
  lemma {:induction false} PrunePreservesValid(t: Table, now: nat)
    requires Valid(t)
    ensures Valid(Prune(t, now))
    decreases |t.order|
  {
    if t.order != [] {
      var key, rest := t.order[0], t.order[1..];
      assert forall k :: k in t.order <==> k == key || k in rest;
      if Expired(t.sticky[key], now) {
        PrunePreservesValid(Table(t.sticky - {key}, rest), now);
      } else {
        NoDupSnoc(rest, key);
      }
    }
  }

  /**
   * `prune_stale` only removes expired entries and leaves the entries it
   * keeps unchanged.
   */
  lemma {:induction false} PruneRemovesOnlyExpired(t: Table, now: nat)
    ensures forall k :: k in t.sticky && k !in Prune(t, now).sticky ==> Expired(t.sticky[k], now)
    ensures forall k :: k in Prune(t, now).sticky ==> k in t.sticky && Prune(t, now).sticky[k] == t.sticky[k]
    decreases |t.order|
  {
    if t.order != [] {
      var key, rest := t.order[0], t.order[1..];
      if key !in t.sticky {
        PruneRemovesOnlyExpired(Table(t.sticky, rest), now);
      } else if Expired(t.sticky[key], now) {
        PruneRemovesOnlyExpired(Table(t.sticky - {key}, rest), now);
      }
    }
  }

  /** The id is unknown to the map or its entry has expired: `prune_stale` pops it for good. */
  predicate Stale(m: map<string, Sticky>, k: string, now: nat) {
    k !in m || Expired(m[k], now)
  }

  /** How many ids at the front of `o` are stale. */
  function LeadingStale(m: map<string, Sticky>, o: seq<string>, now: nat): (i: nat)
    ensures i <= |o|
  {
    if o != [] && Stale(m, o[0], now) then 1 + LeadingStale(m, o[1..], now) else 0
  }

  lemma {:induction false} LeadingStaleSpec(m: map<string, Sticky>, o: seq<string>, now: nat)
    ensures var i := LeadingStale(m, o, now);
            (forall j :: 0 <= j < i ==> Stale(m, o[j], now)) && (i < |o| ==> !Stale(m, o[i], now))
  {
    if o != [] && Stale(m, o[0], now) {
      LeadingStaleSpec(m, o[1..], now);
    }
  }

  /** Removing an id from the map does not change the count over a list without that id. */
  lemma {:induction false} LeadingStaleFrame(m: map<string, Sticky>, k: string, o: seq<string>, now: nat)
    requires k !in o
    ensures LeadingStale(m - {k}, o, now) == LeadingStale(m, o, now)
  {
    if o != [] {
      assert o[0] != k;
      LeadingStaleFrame(m, k, o[1..], now);
    }
  }

  /** The ids of a list, as a set. */
  function Elems(o: seq<string>): set<string> {
    set k | k in o
  }

  /** Dropping the front id from the map, then the next `i - 1` ids, drops the first `i` ids. */
  lemma DropFront(m: map<string, Sticky>, o: seq<string>, i: nat)
    requires 0 < i <= |o|
    ensures (if o[0] in m then m - {o[0]} else m) - Elems(o[1..][..i - 1]) == m - Elems(o[..i])
  {
    assert o[..i] == [o[0]] + o[1..][..i - 1];
    assert Elems(o[..i]) == {o[0]} + Elems(o[1..][..i - 1]);
  }

  /**
   * The table `prune_stale` leaves on a list without repeated ids: the
   * leading stale ids are gone from list and map, and the first live id,
   * if any, has moved from the front of what is left to its back.
   */
  lemma {:induction false} PruneShape(m: map<string, Sticky>, o: seq<string>, now: nat)
    requires NoDup(o)
    ensures var i := LeadingStale(m, o, now);
            Prune(Table(m, o), now) == Table(m - Elems(o[..i]), if i < |o| then o[i + 1..] + [o[i]] else [])
    decreases |o|
  {
    var i := LeadingStale(m, o, now);
    if o == [] {
      assert m - Elems(o[..i]) == m;
    } else if Stale(m, o[0], now) {
      var k, rest := o[0], o[1..];
      var m' := if k in m then m - {k} else m;
      assert Prune(Table(m, o), now) == Prune(Table(m', rest), now);
      LeadingStaleFrame(m, k, rest, now);
      assert LeadingStale(m', rest, now) == i - 1;
      PruneShape(m', rest, now);
      DropFront(m, o, i);
      if i < |o| {
        assert rest[i - 1 + 1..] == o[i + 1..] && rest[i - 1] == o[i];
      }
    } else {
      assert o[..0] == [];
      assert m - Elems(o[..i]) == m;
    }
  }

  /**
   * On a valid table: `prune_stale` removes exactly the leading run of
   * expired entries, stops at the first live one and moves it to the back
   * of the list; expired entries behind it stay.
   */
  lemma PruneStopsAtFirstLive(t: Table, now: nat)
    requires Valid(t)
    ensures var i := LeadingStale(t.sticky, t.order, now);
            forall j :: 0 <= j < i ==> t.order[j] in t.sticky && Expired(t.sticky[t.order[j]], now)
    ensures var i := LeadingStale(t.sticky, t.order, now);
            i < |t.order| ==> !Expired(t.sticky[t.order[i]], now)
                              && Prune(t, now).order == t.order[i + 1..] + [t.order[i]]
    ensures var i := LeadingStale(t.sticky, t.order, now);
            i == |t.order| ==> Prune(t, now).order == [] && Prune(t, now).sticky == map[]
    ensures var i := LeadingStale(t.sticky, t.order, now);
            Prune(t, now).sticky == t.sticky - Elems(t.order[..i])
  {
    var i := LeadingStale(t.sticky, t.order, now);
    LeadingStaleSpec(t.sticky, t.order, now);
    PruneShape(t.sticky, t.order, now);
    if i == |t.order| {
      assert t.order[..i] == t.order;
      assert t.sticky - Elems(t.order[..i]) == map[];
    }
  }

  /** An entry exactly `SESSION_TTL` old is kept, and moved to the back. */
  lemma PruneKeepsAtTtl(t: Table, now: nat)
    requires Valid(t) && t.order != []
    requires Age(t.sticky[t.order[0]].lastUsed, now) == SESSION_TTL
    ensures Prune(t, now) == Table(t.sticky, t.order[1..] + [t.order[0]])
  {
  }

  /**
   * As written, `prune_stale` moves a live least-recently-used id to the
   * most-recent end: with two live ids, pruning twice restores the order
   * that pruning once reversed.
   */
  lemma PruneRotates()
    ensures var t := Table(map["a" := Sticky(0, 0), "b" := Sticky(0, 0)], ["a", "b"]);
            Prune(t, 0).order == ["b", "a"] && Prune(Prune(t, 0), 0).order == ["a", "b"]
  {
    var t := Table(map["a" := Sticky(0, 0), "b" := Sticky(0, 0)], ["a", "b"]);
    assert Prune(t, 0).order == ["b"] + ["a"];
    assert Prune(t, 0).order[1..] == ["a"];
    assert Prune(Prune(t, 0), 0).order == ["a"] + ["b"];
  }

  /**
   * The rotation's effect on the LRU policy: pruning a full table whose
   * oldest entry is still live, then recording a new session, evicts the
   * second-oldest id and keeps the oldest.
   */
  lemma PruneThenHitEvictsSecondOldest(t: Table, s: string, worker: nat, now: nat)
    requires Valid(t) && |t.order| == MAX_SESSION && s !in t.sticky
    requires !Expired(t.sticky[t.order[0]], now)
    ensures var r := Hit(Prune(t, now), s, worker, now);
            t.order[0] in r.sticky && t.order[1] !in r.sticky
  {
    var p := Prune(t, now);
    assert p == Table(t.sticky, t.order[1..] + [t.order[0]]);
    PrunePreservesValid(t, now);
    HitEviction(p, s, worker, now);
    assert p.order[0] == t.order[1];
    assert t.order[0] != t.order[1] by {
      assert t.order[0] !in t.order[1..];
    }
  }

  // ---------------------------------------------------------------------
  // `prune_stale` with the live id put back where it was

  /** `prune_stale` with `push_front` in place of `push_back` for the live id. */
  function PruneFixed(t: Table, now: nat): Table
    decreases |t.order|
  {
    if t.order == [] then t
    else
      var key, rest := t.order[0], t.order[1..];
      if key !in t.sticky then PruneFixed(Table(t.sticky, rest), now)
      else if Expired(t.sticky[key], now) then PruneFixed(Table(t.sticky - {key}, rest), now)
      else t
  }

  /** The corrected prune drops the leading stale ids and leaves the rest of the list as it was. */
  lemma {:induction false} PruneFixedShape(m: map<string, Sticky>, o: seq<string>, now: nat)
    requires NoDup(o)
    ensures var i := LeadingStale(m, o, now);
            PruneFixed(Table(m, o), now) == Table(m - Elems(o[..i]), o[i..])
    decreases |o|
  {
    var i := LeadingStale(m, o, now);
    if o == [] {
      assert m - Elems(o[..i]) == m;
    } else if Stale(m, o[0], now) {
      var k, rest := o[0], o[1..];
      var m' := if k in m then m - {k} else m;
      assert PruneFixed(Table(m, o), now) == PruneFixed(Table(m', rest), now);
      LeadingStaleFrame(m, k, rest, now);
      PruneFixedShape(m', rest, now);
      DropFront(m, o, i);
      assert rest[i - 1..] == o[i..];
    } else {
      assert o[..0] == [] && o[0..] == o;
      assert m - Elems(o[..i]) == m;
    }
  }

  /** The corrected prune keeps the invariant and the recency order: its list is a suffix of the old one. */
  lemma PruneFixedValid(t: Table, now: nat)
    requires Valid(t)
    ensures Valid(PruneFixed(t, now))
    ensures PruneFixed(t, now).order == t.order[LeadingStale(t.sticky, t.order, now)..]
  {
    var o := t.order;
    var i := LeadingStale(t.sticky, o, now);
    PruneFixedShape(t.sticky, o, now);
    NoDupSuffix(o, i);
    forall k ensures k in t.sticky - Elems(o[..i]) <==> k in o[i..] {
      NoDupSplit(o, i, k);
    }
  }

  lemma {:induction false} NoDupSuffix(o: seq<string>, i: nat)
    requires NoDup(o) && i <= |o|
    ensures NoDup(o[i..])
  {
    if i > 0 {
      NoDupSuffix(o[1..], i - 1);
      assert o[1..][i - 1..] == o[i..];
    }
  }

  /** In a list without repeats, an id is past position `i` exactly when it is in the list but not before `i`. */
  lemma {:induction false} NoDupSplit(o: seq<string>, i: nat, k: string)
    requires NoDup(o) && i <= |o|
    ensures k in o[i..] <==> k in o && k !in o[..i]
  {
    if i > 0 {
      NoDupSplit(o[1..], i - 1, k);
      assert o[1..][i - 1..] == o[i..];
      assert o[..i] == [o[0]] + o[1..][..i - 1];
      assert o == [o[0]] + o[1..];
    } else {
      assert o[..0] == [] && o[0..] == o;
    }
  }

  /** The corrected prune is idempotent. */
  lemma PruneFixedIdempotent(t: Table, now: nat)
    requires Valid(t)
    ensures PruneFixed(PruneFixed(t, now), now) == PruneFixed(t, now)
  {
    var o := t.order;
    var i := LeadingStale(t.sticky, o, now);
    PruneFixedValid(t, now);
    PruneFixedShape(t.sticky, o, now);
    LeadingStaleSpec(t.sticky, o, now);
    var p := PruneFixed(t, now);
    if i < |o| {
      NoDupSplit(o, i, o[i]);
      assert o[i..][0] == o[i];
      assert o[i] !in Elems(o[..i]);
      assert o[i] == p.order[0];
      assert p.order[0] in p.sticky && p.sticky[p.order[0]] == t.sticky[o[i]];
    }
  }

  /**
   * With the correction, pruning a full table whose oldest entry is live
   * and then recording a new session evicts that oldest entry.
   */
  lemma PruneFixedThenHitEvictsOldest(t: Table, s: string, worker: nat, now: nat)
    requires Valid(t) && |t.order| == MAX_SESSION && s !in t.sticky
    requires !Expired(t.sticky[t.order[0]], now)
    ensures var r := Hit(PruneFixed(t, now), s, worker, now);
            t.order[0] !in r.sticky && forall k :: k in t.order[1..] ==> k in r.sticky
  {
    assert PruneFixed(t, now) == t;
    HitEviction(t, s, worker, now);
  }
}
