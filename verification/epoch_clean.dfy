/**
 * LastEpochClean: per pool, the last-epoch-clean each PG reported, and the
 * lower bound below which no PG still needs an old OSD map.
 */
module EpochClean {
  import opened Collections
  import opened OsdTypes
  import opened OsdMapModel

  /** std::numeric_limits<epoch_t>::max(), the floor of a pool nothing reported. */
  const EPOCH_MAX: nat := 0xffff_ffff

  /**
   * Lec: the epoch each PG (by placement seed) reported, 0 for none yet;
   * the first seed with no report; and a floor that never exceeds a
   * reported epoch.
   */
  datatype Lec = Lec(epochByPg: seq<nat>, nextMissing: nat, floor: nat)

  const INITIAL_LEC: Lec := Lec([], 0, EPOCH_MAX)

  /** The Lec invariant: `nextMissing` is the first seed without a report and
   *  `floor` is at most every reported epoch. */
  predicate LecValid(l: Lec)
  {
    && l.nextMissing <= |l.epochByPg|
    && (forall i :: 0 <= i < l.nextMissing ==> l.epochByPg[i] != 0)
    && (l.nextMissing < |l.epochByPg| ==> l.epochByPg[l.nextMissing] == 0)
    && (forall i :: 0 <= i < |l.epochByPg| && l.epochByPg[i] != 0 ==> l.floor <= l.epochByPg[i])
  }

  lemma InitialLecValid()
    ensures LecValid(INITIAL_LEC)
  {
  }

  /** epoch_by_pg.resize(n, 0) when the vector is shorter than n. */
  function Grow(e: seq<nat>, n: nat): (r: seq<nat>)
    ensures |r| == if |e| < n then n else |e|
    ensures forall i :: 0 <= i < |e| ==> r[i] == e[i]
    ensures forall i :: |e| <= i < |r| ==> r[i] == 0
  {
    if |e| < n then e + seq(n - |e|, _ => 0) else e
  }

  /** `m` is the least element of `e` (what std::min_element finds). */
  predicate IsMinOf(m: nat, e: seq<nat>)
  {
    (exists i :: 0 <= i < |e| && e[i] == m) && (forall i :: 0 <= i < |e| ==> m <= e[i])
  }

  /**
   * What Lec::report does with a report of `lec` for seed `ps`: the vector
   * grows to cover `ps` even when the report is stale; a report no newer than
   * the stored one changes nothing else; an accepted one stores `lec`, lowers
   * the floor below it, recomputes the floor as the minimum when the replaced
   * entry was the floor, and moves `nextMissing` past the seeds now reported
   * when `ps` was the first missing one.
   */
  predicate ReportedFrom(l: Lec, ps: nat, lec: nat, r: Lec)
  {
    var g := Grow(l.epochByPg, ps + 1);
    var old_lec := g[ps];
    if old_lec >= lec then
      r == l.(epochByPg := g)
    else
      && r.epochByPg == g[ps := lec]
      && (if lec < l.floor then r.floor == lec
          else if lec > l.floor && old_lec == l.floor then IsMinOf(r.floor, r.epochByPg)
          else r.floor == l.floor)
      && (if ps != l.nextMissing then r.nextMissing == l.nextMissing
          else
            && l.nextMissing <= r.nextMissing <= |r.epochByPg|
            && (forall i :: l.nextMissing <= i < r.nextMissing ==> r.epochByPg[i] != 0)
            && (r.nextMissing < |r.epochByPg| ==> r.epochByPg[r.nextMissing] == 0))
  }

  /** Lec::report. */
  method LecReport(l: Lec, ps: nat, lec: nat) returns (r: Lec)
    ensures ReportedFrom(l, ps, lec, r)
    ensures LecValid(l) ==> LecValid(r)
  {
    var e := Grow(l.epochByPg, ps + 1);
    var oldLec := e[ps];
    if oldLec >= lec {
      // stale report
      return l.(epochByPg := e);
    }
    e := e[ps := lec];
    var floor := l.floor;
    if lec < floor {
      floor := lec;
    } else if lec > floor && oldLec == floor {
      var m := e[0];
      var i := 1;
      while i < |e|
        invariant 1 <= i <= |e|
        invariant exists j :: 0 <= j < i && e[j] == m
        invariant forall j :: 0 <= j < i ==> m <= e[j]
      {
        if e[i] < m {
          m := e[i];
        }
        i := i + 1;
      }
      floor := m;
    }
    var nm := l.nextMissing;
    if ps == nm {
      while nm < |e| && e[nm] != 0
        invariant l.nextMissing <= nm <= |e|
        invariant forall i :: l.nextMissing <= i < nm ==> e[i] != 0
      {
        nm := nm + 1;
      }
    }
    r := Lec(e, nm, floor);
  }

  /** Under the invariant the outcome of a report is determined: the first
   *  missing seed and the minimum are unique. */
  lemma ReportedFromDeterministic(l: Lec, ps: nat, lec: nat, r1: Lec, r2: Lec)
    requires LecValid(l)
    requires ReportedFrom(l, ps, lec, r1) && ReportedFrom(l, ps, lec, r2)
    ensures r1 == r2
  {
    var g := Grow(l.epochByPg, ps + 1);
    if g[ps] < lec {
      var e := r1.epochByPg;
      if lec > l.floor && g[ps] == l.floor {
        var i :| 0 <= i < |e| && e[i] == r1.floor;
        var j :| 0 <= j < |e| && e[j] == r2.floor;
        assert r1.floor <= e[j] && r2.floor <= e[i];
      }
    }
  }

  /** A report never lowers what is stored for a seed, and a stale one keeps
   *  every stored epoch. */
  lemma ReportMonotone(l: Lec, ps: nat, lec: nat, r: Lec)
    requires ReportedFrom(l, ps, lec, r)
    ensures |r.epochByPg| >= |l.epochByPg| && |r.epochByPg| > ps
    ensures forall i :: 0 <= i < |l.epochByPg| ==> l.epochByPg[i] <= r.epochByPg[i]
    ensures r.epochByPg[ps] == if Grow(l.epochByPg, ps + 1)[ps] >= lec then Grow(l.epochByPg, ps + 1)[ps] else lec
  {
  }

  /**
   * The tracker: one Lec per pool id.
   */
  class LastEpochClean {
    var reportByPool: map<int, Lec>

    constructor()
      ensures reportByPool == map[]
    {
      reportByPool := map[];
    }

    predicate Valid()
      reads this
    {
      forall p :: p in reportByPool ==> LecValid(reportByPool[p])
    }

    /** remove_pool: forgets the pool's reports. */
    method RemovePool(pool: int)
      modifies this
      ensures reportByPool == old(reportByPool) - {pool}
      ensures old(Valid()) ==> Valid()
    {
      reportByPool := reportByPool - {pool};
    }

    /** report(pg, e): the pool's Lec, created empty on first use, takes the
     *  report; other pools are untouched. */
    method Report(pg: PgId, lec: nat)
      modifies this
      ensures reportByPool.Keys == old(reportByPool).Keys + {pg.pool as int}
      ensures forall p :: p in reportByPool && p != pg.pool as int ==> reportByPool[p] == old(reportByPool)[p]
      ensures ReportedFrom(GetOr(old(reportByPool), pg.pool as int, INITIAL_LEC), pg.ps as nat, lec,
                           reportByPool[pg.pool as int])
      ensures old(Valid()) ==> Valid()
    {
      var cur := GetOr(reportByPool, pg.pool as int, INITIAL_LEC);
      var next := LecReport(cur, pg.ps as nat, lec);
      reportByPool := reportByPool[pg.pool as int := next];
    }

    /** A pool every one of whose PGs has reported. */
    predicate Covers(m: OsdMap, p: int)
      reads this
      requires p in m.pools
    {
      p in reportByPool && reportByPool[p].nextMissing >= m.pools[p].pgNum
    }

    /** What get_lower_bound answers: 0 while some pool lacks a report from one
     *  of its PGs, and otherwise the least of the map epoch and the pools'
     *  floors. */
    predicate IsLowerBound(m: OsdMap, r: nat)
      reads this
    {
      && ((exists p :: p in m.pools && !Covers(m, p)) ==> r == 0)
      && ((forall p :: p in m.pools ==> Covers(m, p)) ==>
            && r <= m.epoch
            && (forall p :: p in m.pools ==> r <= reportByPool[p].floor)
            && (r == m.epoch || exists p :: p in m.pools && r == reportByPool[p].floor))
    }

    /**
     * get_lower_bound: 0 unless every pool of the map has a report from each
     * of its PGs; otherwise the least of the map epoch and the pools' floors.
     */
    method GetLowerBound(m: OsdMap) returns (r: nat)
      ensures (exists p :: p in m.pools && !Covers(m, p)) ==> r == 0
      ensures (forall p :: p in m.pools ==> Covers(m, p)) ==>
                && r <= m.epoch
                && (forall p :: p in m.pools ==> r <= reportByPool[p].floor)
                && (r == m.epoch || exists p :: p in m.pools && r == reportByPool[p].floor)
      ensures Valid() && r > 0 ==>
                forall p, ps :: p in m.pools && 0 <= ps < m.pools[p].pgNum ==>
                  ps < |reportByPool[p].epochByPg| && r <= reportByPool[p].epochByPg[ps]
    {
      var floor := m.epoch;
      var todo := m.pools.Keys;
      while todo != {}
        invariant forall p :: p in todo ==> p in m.pools
        invariant forall p :: p in m.pools && p !in todo ==> Covers(m, p) && floor <= reportByPool[p].floor
        invariant floor <= m.epoch
        invariant floor == m.epoch || exists p :: p in m.pools && p !in todo && floor == reportByPool[p].floor
        decreases todo
      {
        var p := Pick(todo);
        if p !in reportByPool {
          return 0;
        }
        if reportByPool[p].nextMissing < m.pools[p].pgNum {
          return 0;
        }
        if reportByPool[p].floor < floor {
          floor := reportByPool[p].floor;
        }
        todo := todo - {p};
      }
      r := floor;
      if Valid() && r > 0 {
        forall p, ps | p in m.pools && 0 <= ps < m.pools[p].pgNum
          ensures ps < |reportByPool[p].epochByPg| && r <= reportByPool[p].epochByPg[ps]
        {
          assert LecValid(reportByPool[p]);
        }
      }
    }
  }
}
