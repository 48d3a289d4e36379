/**
 * The PG-creation queue of update_pending_pgs: pools whose placement groups
 * still have to be created wait in a queue keyed by pool id, each with the
 * range of placement seeds not yet handed out; every proposal moves seeds
 * from the front of the queue into the set of creating PGs, but never lets
 * that set grow past mon_osd_max_creating_pgs.
 */
module CreatingPgs {
  import opened Collections
  import opened OsdTypes

  /** creating_pgs_t::pool_create_info: the seeds [start, end) of a pool
   *  still to be created, and the epochs the pool was created and modified. */
  datatype PoolCreateInfo = PoolCreateInfo(created: nat, modified: nat, start: u32, end: u32)

  /** pool_create_info::done(). */
  predicate Done(q: PoolCreateInfo) { q.start >= q.end }

  /** creating_pgs_t::pg_create_info: the creation epoch and the pool's
   *  modification stamp. */
  datatype PgCreateInfo = PgCreateInfo(createEpoch: nat, modified: nat)

  /** creating_pgs_t: the creating PGs and the per-pool queue. */
  datatype CreatingPgsT = CreatingPgsT(pgs: map<PgId, PgCreateInfo>, queue: map<int, PoolCreateInfo>)

  /** A queued range is never inverted: it starts as [0, pg_num) and the
   *  start only moves up to the end. */
  predicate QueueValid(c: CreatingPgsT)
  {
    forall p :: p in c.queue ==> c.queue[p].start <= c.queue[p].end
  }

  /** `unsigned max = std::max<int64_t>(1, mon_osd_max_creating_pgs)`: at
   *  least one, then truncated to 32 bits by the conversion to unsigned. */
  function MaxCreating(conf: int): (m: nat)
    ensures m < U32
    ensures conf < 1 ==> m == 1
    ensures 1 <= conf < U32 ==> m == conf
  {
    (if conf < 1 then 1 else conf) % U32
  }

  /** The PG ids of pool `pool` with seeds in [first, end).  The PGs are
   *  built without a preferred OSD, which pg_t spells -1. */
  function Seeds(pool: u64, first: int, end: int): set<PgId>
  {
    set ps: u32 | first <= ps < end :: PgId(pool, -1, ps)
  }

  /** std::map::emplace of every id in `ids`: an id already present keeps
   *  its value. */
  function Emplace(pgs: map<PgId, PgCreateInfo>, ids: set<PgId>, v: PgCreateInfo): (r: map<PgId, PgCreateInfo>)
    ensures r.Keys == pgs.Keys + ids
    ensures forall k :: k in pgs ==> r[k] == pgs[k]
    ensures forall k :: k in r && k !in pgs ==> r[k] == v
  {
    map k | k in pgs.Keys + ids :: if k in pgs then pgs[k] else v
  }

  /** `static_cast<uint64_t>(poolid)`: the queue is keyed by the signed
   *  pool id, a pg_t carries it as unsigned. */
  function PoolU64(poolid: int): (r: u64)
    ensures 0 <= poolid < U64 ==> r == poolid
  {
    poolid % U64
  }

  /** queue.begin(): the entry with the least pool id. */
  ghost function MinPool(queue: map<int, PoolCreateInfo>): (p: int)
    requires queue != map[]
    ensures p in queue && forall k :: k in queue ==> p <= k
  {
    MinKey(queue.Keys)
  }

  /** How many seeds the front entry still has; with the queue size, this
   *  is what each round of the loop decreases. */
  ghost function Remaining(c: CreatingPgsT): nat
    requires QueueValid(c)
  {
    if c.queue == map[] then 0
    else
      var q := c.queue[MinPool(c.queue)];
      q.end - q.start
  }

  /** The number of seeds one round takes from pool entry `q`. */
  function Take(max: nat, size: nat, q: PoolCreateInfo): (n: int)
  {
    if max - size < q.end - q.start then max - size else q.end - q.start
  }

  /** `p->second.start = end`, and the entry is erased once done. */
  function Advance(queue: map<int, PoolCreateInfo>, p: int, e: u32): map<int, PoolCreateInfo>
    requires p in queue
  {
    if e >= queue[p].end then queue - {p} else queue[p := queue[p].(start := e)]
  }

  /** One round: the seeds [start, start + n) of pool `p` are emplaced, the
   *  start advances by n, and the entry goes once its range is empty. */
  function Step(c: CreatingPgsT, p: int, n: int, epoch: nat): (r: CreatingPgsT)
    requires p in c.queue
    requires 0 <= n <= c.queue[p].end - c.queue[p].start
  {
    var q := c.queue[p];
    var e := q.start + n;
    CreatingPgsT(
      Emplace(c.pgs, Seeds(PoolU64(p), q.start, e), PgCreateInfo(epoch, q.modified)),
      Advance(c.queue, p, e))
  }

  /** The queue-processing loop of update_pending_pgs, as a whole: rounds
   *  run while fewer than `max` PGs are creating and the queue is not
   *  empty, each taking from the entry with the least pool id. */
  ghost function Drain(c: CreatingPgsT, max: nat, epoch: nat): (r: CreatingPgsT)
    requires QueueValid(c)
    decreases |c.queue|, Remaining(c)
  {
    if |c.pgs| >= max || c.queue == map[] then c
    else
      var p := MinPool(c.queue);
      var q := c.queue[p];
      var next := Step(c, p, Take(max, |c.pgs|, q), epoch);
      assert QueueValid(next);
      assert q.start + Take(max, |c.pgs|, q) < q.end ==> next.queue.Keys == c.queue.Keys;
      assert q.start + Take(max, |c.pgs|, q) < q.end ==> MinPool(next.queue) == p;
      Drain(next, max, epoch)
  }

  lemma SeedsStep(pool: u64, first: int, ps: u32)
    requires first <= ps
    ensures Seeds(pool, first, ps + 1) == Seeds(pool, first, ps) + {PgId(pool, -1, ps)}
  {
  }

  lemma EmplaceStep(pgs0: map<PgId, PgCreateInfo>, ids: set<PgId>, x: PgId, v: PgCreateInfo)
    ensures var m := Emplace(pgs0, ids, v);
            Emplace(pgs0, ids + {x}, v) == if x in m then m else m[x := v]
  {
  }

  /** The inner loop: emplaces PG ids of pool `p` for seeds [first, end). */
  method EmplaceSeeds(pgs0: map<PgId, PgCreateInfo>, p: u64, first: u32, end: u32, info: PgCreateInfo)
    returns (pgs: map<PgId, PgCreateInfo>)
    requires first <= end
    ensures pgs == Emplace(pgs0, Seeds(p, first, end), info)
  {
    pgs := pgs0;
    var ps := first;
    while ps < end
      invariant first <= ps <= end
      invariant pgs == Emplace(pgs0, Seeds(p, first, ps), info)
    {
      EmplaceStep(pgs0, Seeds(p, first, ps), PgId(p, -1, ps), info);
      SeedsStep(p, first, ps);
      var pgid := PgId(p, -1, ps);
      if pgid !in pgs {
        pgs := pgs[pgid := info];
      }
      ps := ps + 1;
    }
  }

  /** A state built from the emplaced seeds and the advanced queue is the round's step. */
  lemma StepIs(c: CreatingPgsT, p: int, n: int, epoch: nat, r: CreatingPgsT)
    requires p in c.queue && 0 <= n <= c.queue[p].end - c.queue[p].start
    requires var q := c.queue[p];
             && r.pgs == Emplace(c.pgs, Seeds(PoolU64(p), q.start, q.start + n), PgCreateInfo(epoch, q.modified))
             && r.queue == Advance(c.queue, p, q.start + n)
    ensures r == Step(c, p, n, epoch)
  {
  }

  /** One round of the outer loop, on the entry at queue.begin(). */
  method Round(c: CreatingPgsT, max: nat, epoch: nat) returns (r: CreatingPgsT)
    requires QueueValid(c) && c.queue != map[] && |c.pgs| < max
    ensures r == Step(c, MinPool(c.queue), Take(max, |c.pgs|, c.queue[MinPool(c.queue)]), epoch)
  {
    var p := FindMinKey(c.queue.Keys);
    assert p == MinPool(c.queue);
    var q := c.queue[p];
    var n := Take(max, |c.pgs|, q);
    assert 0 <= n <= q.end - q.start;
    var end: u32 := q.start + n;
    var pgs := EmplaceSeeds(c.pgs, PoolU64(p), q.start, end, PgCreateInfo(epoch, q.modified));
    r := CreatingPgsT(pgs, Advance(c.queue, p, end));
    StepIs(c, p, n, epoch, r);
  }

  /**
   * update_pending_pgs, queue processing: moves seeds from the queue into
   * the creating set, one pool entry at a time, in pool-id order.
   */
  method UpdatePendingPgsQueue(c: CreatingPgsT, conf: int, epoch: nat) returns (r: CreatingPgsT)
    requires QueueValid(c)
    ensures r == Drain(c, MaxCreating(conf), epoch)
    ensures QueueValid(r)
  {
    var max := MaxCreating(conf);
    r := c;
    while |r.pgs| < max && r.queue != map[]
      invariant QueueValid(r)
      invariant Drain(r, max, epoch) == Drain(c, max, epoch)
      decreases |r.queue|, Remaining(r)
    {
      ghost var prev := r;
      r := Round(r, max, epoch);
      RoundProgress(prev, max, epoch);
    }
  }

  /** One round keeps the queue valid, leaves what remains to drain
   *  unchanged, and decreases the loop's measure. */
  lemma RoundProgress(c: CreatingPgsT, max: nat, epoch: nat)
    requires QueueValid(c) && c.queue != map[] && |c.pgs| < max
    ensures var p := MinPool(c.queue);
            var next := Step(c, p, Take(max, |c.pgs|, c.queue[p]), epoch);
            && QueueValid(next)
            && Drain(next, max, epoch) == Drain(c, max, epoch)
            && (|next.queue| < |c.queue| || (|next.queue| == |c.queue| && Remaining(next) < Remaining(c)))
  {
    var p := MinPool(c.queue);
    var q := c.queue[p];
    var next := Step(c, p, Take(max, |c.pgs|, q), epoch);
    if q.start + Take(max, |c.pgs|, q) < q.end {
      assert next.queue.Keys == c.queue.Keys;
      assert MinPool(next.queue) == p;
    }
  }

  /** How far pool `p`'s seeds were handed out once `c` has drained into
   *  `r`: the entry's new start, or its end when the entry is gone. */
  function Reached(c: CreatingPgsT, r: CreatingPgsT, p: int): int
    requires p in c.queue
  {
    if p in r.queue then r.queue[p].start else c.queue[p].end
  }

  lemma {:induction false} SeedsCard(pool: u64, first: int, end: int)
    requires 0 <= first <= end <= U32
    ensures |Seeds(pool, first, end)| == end - first
    decreases end - first
  {
    if first < end {
      var last: u32 := end - 1;
      SeedsStep(pool, first, last);
      SeedsCard(pool, first, last);
      assert PgId(pool, -1, last) !in Seeds(pool, first, last);
    } else {
      assert Seeds(pool, first, end) == {};
    }
  }

  /** A round of n seeds adds at most n PGs. */
  lemma StepGrowth(c: CreatingPgsT, p: int, n: int, epoch: nat)
    requires p in c.queue
    requires 0 <= n <= c.queue[p].end - c.queue[p].start
    ensures |Step(c, p, n, epoch).pgs| <= |c.pgs| + n
  {
    var q := c.queue[p];
    var ids := Seeds(PoolU64(p), q.start, q.start + n);
    var v := PgCreateInfo(epoch, q.modified);
    assert |ids| == n by { SeedsCard(PoolU64(p), q.start, q.start + n); }
    assert |Emplace(c.pgs, ids, v)| <= |c.pgs| + |ids| by { EmplaceCard(c.pgs, ids, v); }
    assert Step(c, p, n, epoch).pgs == Emplace(c.pgs, ids, v);
  }

  lemma EmplaceCard(m: map<PgId, PgCreateInfo>, ids: set<PgId>, v: PgCreateInfo)
    ensures |Emplace(m, ids, v)| <= |m| + |ids|
  {
    var r := Emplace(m, ids, v);
    assert |r| == |r.Keys|;
    assert |m| == |m.Keys|;
    assert |m.Keys + ids| <= |m.Keys| + |ids|;
  }

  /** The loop stops only when the bound is reached or the queue is empty. */
  lemma {:induction false} DrainStops(c: CreatingPgsT, max: nat, epoch: nat)
    requires QueueValid(c)
    ensures var r := Drain(c, max, epoch); |r.pgs| >= max || r.queue == map[]
    decreases |c.queue|, Remaining(c)
  {
    if |c.pgs| < max && c.queue != map[] {
      var p := MinPool(c.queue);
      RoundProgress(c, max, epoch);
      DrainStops(Step(c, p, Take(max, |c.pgs|, c.queue[p]), epoch), max, epoch);
    }
  }

  /** The creating set never grows past the bound: a round adds at most
   *  max - |pgs| ids, and none when the bound is already reached. */
  lemma {:induction false} DrainBounded(c: CreatingPgsT, max: nat, epoch: nat)
    requires QueueValid(c)
    ensures |Drain(c, max, epoch).pgs| <= if |c.pgs| >= max then |c.pgs| else max
    decreases |c.queue|, Remaining(c)
  {
    if |c.pgs| < max && c.queue != map[] {
      var p := MinPool(c.queue);
      var n := Take(max, |c.pgs|, c.queue[p]);
      StepGrowth(c, p, n, epoch);
      RoundProgress(c, max, epoch);
      DrainBounded(Step(c, p, n, epoch), max, epoch);
    }
  }

  /** Relations between a creating state `a` and a later one `b`. */

  /** PGs already creating keep their entry: emplace never overwrites. */
  predicate KeepsPgs(a: CreatingPgsT, b: CreatingPgsT)
  {
    forall k :: k in a.pgs ==> k in b.pgs && b.pgs[k] == a.pgs[k]
  }

  /** The queue only loses entries, and an entry that stays keeps its pool
   *  stamps and end with a start that only moved up. */
  predicate QueueShrinks(a: CreatingPgsT, b: CreatingPgsT)
  {
    && b.queue.Keys <= a.queue.Keys
    && forall p :: p in b.queue ==>
         && b.queue[p] == a.queue[p].(start := b.queue[p].start)
         && a.queue[p].start <= b.queue[p].start <= b.queue[p].end
  }

  /** Every PG that appeared comes from a queued pool's handed-out range and
   *  carries `epoch` and the pool's modification stamp. */
  predicate AddsQueued(a: CreatingPgsT, b: CreatingPgsT, epoch: nat)
  {
    forall k :: k in b.pgs && k !in a.pgs ==>
      exists p :: p in a.queue && k == PgId(PoolU64(p), -1, k.ps)
        && a.queue[p].start <= k.ps < Reached(a, b, p)
        && b.pgs[k] == PgCreateInfo(epoch, a.queue[p].modified)
  }

  /** Every seed of a handed-out range is creating. */
  predicate CoversRanges(a: CreatingPgsT, b: CreatingPgsT)
  {
    forall p, ps: u32 :: p in a.queue && a.queue[p].start <= ps < Reached(a, b, p) ==>
      PgId(PoolU64(p), -1, ps) in b.pgs
  }

  /** Pools were taken in id order: every finished pool has a smaller id than
   *  every pool still queued, and only the least remaining entry can be
   *  part-way through. */
  predicate InPoolOrder(a: CreatingPgsT, b: CreatingPgsT)
  {
    && (forall x, y :: x in a.queue && x !in b.queue && y in b.queue ==> x < y)
    && (forall x, y :: x in b.queue && y in b.queue && x in a.queue && b.queue[x] != a.queue[x] ==> x <= y)
  }

  /** What one round on pool `p` does, as relations. */
  predicate StepRel(c: CreatingPgsT, next: CreatingPgsT, p: int, e: int, epoch: nat)
    requires p in c.queue
  {
    var q := c.queue[p];
    && q.start <= e <= q.end
    && (forall k :: k in next.pgs && k !in c.pgs ==>
          k == PgId(PoolU64(p), -1, k.ps) && q.start <= k.ps < e
          && next.pgs[k] == PgCreateInfo(epoch, q.modified))
    && (forall ps: u32 :: q.start <= ps < e ==> PgId(PoolU64(p), -1, ps) in next.pgs)
    && KeepsPgs(c, next)
    && (forall p2 :: p2 in c.queue && p2 != p ==> p2 in next.queue && next.queue[p2] == c.queue[p2])
    && next.queue.Keys <= c.queue.Keys
    && (p in next.queue <==> e < q.end)
    && (p in next.queue ==> next.queue[p] == q.(start := e))
  }

  lemma StepFacts(c: CreatingPgsT, p: int, n: int, epoch: nat)
    requires QueueValid(c) && p in c.queue
    requires 0 <= n <= c.queue[p].end - c.queue[p].start
    ensures StepRel(c, Step(c, p, n, epoch), p, c.queue[p].start + n, epoch)
  {
  }

  lemma KeepsTrans(a: CreatingPgsT, b: CreatingPgsT, c: CreatingPgsT)
    requires KeepsPgs(a, b) && KeepsPgs(b, c)
    ensures KeepsPgs(a, c)
  {
  }

  lemma QueueStep(c: CreatingPgsT, next: CreatingPgsT, r: CreatingPgsT, p: int, e: int, epoch: nat)
    requires QueueValid(c) && p in c.queue
    requires StepRel(c, next, p, e, epoch) && QueueShrinks(next, r)
    ensures QueueShrinks(c, r)
  {
  }

  lemma AddsStep(c: CreatingPgsT, next: CreatingPgsT, r: CreatingPgsT, p: int, e: int, epoch: nat)
    requires QueueValid(c) && p in c.queue
    requires StepRel(c, next, p, e, epoch)
    requires QueueShrinks(next, r) && KeepsPgs(next, r) && AddsQueued(next, r, epoch)
    ensures AddsQueued(c, r, epoch)
  {
    forall k | k in r.pgs && k !in c.pgs
      ensures exists p' :: p' in c.queue && k == PgId(PoolU64(p'), -1, k.ps)
                && c.queue[p'].start <= k.ps < Reached(c, r, p')
                && r.pgs[k] == PgCreateInfo(epoch, c.queue[p'].modified)
    {
      if k in next.pgs {
        assert e <= Reached(c, r, p);
      } else {
        var p' :| p' in next.queue && k == PgId(PoolU64(p'), -1, k.ps)
                  && next.queue[p'].start <= k.ps < Reached(next, r, p')
                  && r.pgs[k] == PgCreateInfo(epoch, next.queue[p'].modified);
        assert Reached(next, r, p') == Reached(c, r, p');
      }
    }
  }

  lemma CoversStep(c: CreatingPgsT, next: CreatingPgsT, r: CreatingPgsT, p: int, e: int, epoch: nat)
    requires QueueValid(c) && p in c.queue
    requires StepRel(c, next, p, e, epoch)
    requires QueueShrinks(next, r) && KeepsPgs(next, r) && CoversRanges(next, r)
    ensures CoversRanges(c, r)
  {
    forall p', ps: u32 | p' in c.queue && c.queue[p'].start <= ps < Reached(c, r, p')
      ensures PgId(PoolU64(p'), -1, ps) in r.pgs
    {
      if p' == p && ps < e {
      } else {
        assert p' in next.queue;
        assert Reached(next, r, p') == Reached(c, r, p');
      }
    }
  }

  lemma OrderStep(c: CreatingPgsT, next: CreatingPgsT, r: CreatingPgsT, p: int, e: int, epoch: nat)
    requires QueueValid(c) && p in c.queue
    requires forall k :: k in c.queue ==> p <= k
    requires StepRel(c, next, p, e, epoch)
    requires QueueShrinks(next, r) && InPoolOrder(next, r)
    ensures InPoolOrder(c, r)
  {
  }

  /** One round of the loop hands the summed-up effect of the rest back to its start. */
  lemma DrainStep(c: CreatingPgsT, next: CreatingPgsT, r: CreatingPgsT, p: int, e: int, epoch: nat)
    requires QueueValid(c) && p in c.queue
    requires forall k :: k in c.queue ==> p <= k
    requires StepRel(c, next, p, e, epoch)
    requires KeepsPgs(next, r) && QueueShrinks(next, r) && AddsQueued(next, r, epoch)
    requires CoversRanges(next, r) && InPoolOrder(next, r)
    ensures KeepsPgs(c, r) && QueueShrinks(c, r) && AddsQueued(c, r, epoch)
    ensures CoversRanges(c, r) && InPoolOrder(c, r)
  {
    KeepsTrans(c, next, r);
    QueueStep(c, next, r, p, e, epoch);
    AddsStep(c, next, r, p, e, epoch);
    CoversStep(c, next, r, p, e, epoch);
    OrderStep(c, next, r, p, e, epoch);
  }

  /** The loop's effect, summed up: what was creating stays, every new PG
   *  comes from a handed-out range and every handed-out seed is creating,
   *  the queue only shrinks or advances, and it drains in pool-id order. */
  lemma {:induction false} DrainSpec(c: CreatingPgsT, max: nat, epoch: nat)
    requires QueueValid(c)
    ensures var r := Drain(c, max, epoch);
            && KeepsPgs(c, r)
            && QueueShrinks(c, r)
            && AddsQueued(c, r, epoch)
            && CoversRanges(c, r)
            && InPoolOrder(c, r)
    decreases |c.queue|, Remaining(c)
  {
    if |c.pgs| < max && c.queue != map[] {
      var p := MinPool(c.queue);
      var q := c.queue[p];
      var n := Take(max, |c.pgs|, q);
      var next := Step(c, p, n, epoch);
      StepFacts(c, p, n, epoch);
      RoundProgress(c, max, epoch);
      DrainSpec(next, max, epoch);
      var r := Drain(next, max, epoch);
      assert Drain(c, max, epoch) == r;
      DrainStep(c, next, r, p, q.start + n, epoch);
    } else {
      assert forall p :: p in c.queue ==> Reached(c, c, p) == c.queue[p].start;
    }
  }
}
