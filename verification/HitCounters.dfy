/** The occasional logging of easylogging++: every n-th call from a site, with a counter that wraps. */
module HitCounters {
  import opened Bytes

  const MAX_LOG_PER_COUNTER := 100000

  /** `validateHitCounts` on the count. */
  function NextHits(hits: nat, n: nat): nat {
    (if hits >= MAX_LOG_PER_COUNTER then (if n >= 1 then MAX_LOG_PER_COUNTER % n else 0) else hits) + 1
  }

  predicate Fires(hits: nat, n: nat) {
    n >= 1 && hits != 0 && hits % n == 0
  }

  datatype Site = Site(filename: bytes, lineNumber: nat)

  datatype Call = Call(site: Site, n: nat)

  /** The count of a site after the calls. */
  function HitsAfter(calls: seq<Call>, site: Site): nat {
    if calls == [] then 0
    else
      var last := calls[|calls| - 1];
      var before := HitsAfter(calls[..|calls| - 1], site);
      if last.site == site then NextHits(before, last.n) else before
  }

  function CallsFrom(calls: seq<Call>, site: Site): nat {
    if calls == [] then 0
    else CallsFrom(calls[..|calls| - 1], site) + if calls[|calls| - 1].site == site then 1 else 0
  }

  ghost predicate AlwaysAsks(calls: seq<Call>, site: Site, n: nat) {
    forall i | 0 <= i < |calls| && calls[i].site == site :: calls[i].n == n
  }

  /** The count after `k` calls from one site. */
  function HitsOf(n: nat, k: nat): nat {
    if k == 0 then 0 else NextHits(HitsOf(n, k - 1), n)
  }

  lemma {:induction false} OtherSites(calls: seq<Call>, site: Site, n: nat)
    requires AlwaysAsks(calls, site, n)
    ensures HitsAfter(calls, site) == HitsOf(n, CallsFrom(calls, site))
  {
    if calls != [] {
      OtherSites(calls[..|calls| - 1], site, n);
    }
  }

  lemma {:induction false} MulAtLeast(x: nat, n: nat)
    requires x >= 1
    ensures x * n >= n
  {
    if x > 1 {
      MulAtLeast(x - 1, n);
      assert x * n == (x - 1) * n + n;
    }
  }

  /** Quotient and remainder are unique. */
  lemma Unique(p: int, r: int, q: int, s: int, n: nat)
    requires p * n + r == q * n + s && 0 <= r < n && 0 <= s < n
    ensures p == q && r == s
  {
    if p > q {
      assert (p - q) * n == p * n - q * n;
      MulAtLeast(p - q, n);
    } else if p < q {
      assert (q - p) * n == q * n - p * n;
      MulAtLeast(q - p, n);
    }
  }

  lemma ModIs(a: nat, p: int, r: nat, n: nat)
    requires r < n && a == p * n + r
    ensures a % n == r
  {
    assert a == (a / n) * n + a % n;
    Unique(p, r, a / n, a % n, n);
  }

  /** The count differs from the number of calls by a multiple of the period. */
  lemma {:induction false} HitsModulo(n: nat, k: nat) returns (q: int)
    requires 1 <= n <= MAX_LOG_PER_COUNTER
    ensures k == HitsOf(n, k) + q * n
    ensures HitsOf(n, k) <= MAX_LOG_PER_COUNTER && (k >= 1 ==> HitsOf(n, k) >= 1)
  {
    if k == 0 {
      q := 0;
    } else {
      var p := HitsModulo(n, k - 1);
      q := p;
      if HitsOf(n, k - 1) == MAX_LOG_PER_COUNTER {
        var d := MAX_LOG_PER_COUNTER / n;
        assert MAX_LOG_PER_COUNTER == d * n + MAX_LOG_PER_COUNTER % n;
        assert (p + d) * n == p * n + d * n;
        q := p + d;
      }
    }
  }

  lemma SameDivisible(a: nat, b: nat, q: int, n: nat)
    requires n >= 1 && a == b + q * n
    ensures a % n == 0 <==> b % n == 0
  {
    var r, d := b % n, b / n;
    assert b == d * n + r;
    assert (d + q) * n == d * n + q * n;
    ModIs(a, d + q, r, n);
  }

  /** A period above the wrapping bound counts up to one past it and stays there. */
  lemma {:induction false} HitsStuck(n: nat, k: nat)
    requires n > MAX_LOG_PER_COUNTER
    ensures HitsOf(n, k) == if k <= MAX_LOG_PER_COUNTER then k else MAX_LOG_PER_COUNTER + 1
  {
    if k > 0 {
      HitsStuck(n, k - 1);
    }
  }

  /** The k-th call from a site fires exactly when n divides k, whatever other sites do in between. */
  lemma EveryNth(calls: seq<Call>, site: Site, n: nat)
    requires 1 <= n <= MAX_LOG_PER_COUNTER && AlwaysAsks(calls, site, n) && CallsFrom(calls, site) > 0
    ensures Fires(HitsAfter(calls, site), n) <==> CallsFrom(calls, site) % n == 0
    ensures HitsAfter(calls, site) <= MAX_LOG_PER_COUNTER
  {
    OtherSites(calls, site, n);
    var k := CallsFrom(calls, site);
    var q := HitsModulo(n, k);
    SameDivisible(k, HitsOf(n, k), q, n);
  }

  ghost predicate FiresRightly(n: nat, k: nat)
    requires n >= 1
  {
    Fires(HitsOf(n, k), n) <==> k % n == 0
  }

  /** For ever, exactly when n is at most the wrapping bound. */
  lemma EveryNthExact(n: nat)
    requires n >= 1
    ensures (forall k: nat | k >= 1 :: FiresRightly(n, k)) <==> n <= 100000
  {
    if n <= MAX_LOG_PER_COUNTER {
      forall k: nat | k >= 1 ensures FiresRightly(n, k) {
        var q := HitsModulo(n, k);
        SameDivisible(k, HitsOf(n, k), q, n);
      }
    } else if n == MAX_LOG_PER_COUNTER + 1 {
      HitsStuck(n, n + 1);
      ModIs(n + 1, 1, 1, n);
      assert !FiresRightly(n, n + 1);
    } else {
      HitsStuck(n, n);
      assert !FiresRightly(n, n);
    }
  }

  class HitCounter {
    const filename: bytes
    const lineNumber: nat
    var hitCounts: nat

    constructor (filename: bytes, lineNumber: nat)
      ensures this.filename == filename && this.lineNumber == lineNumber && hitCounts == 0
    {
      this.filename, this.lineNumber, hitCounts := filename, lineNumber, 0;
    }

    method ValidateHitCounts(n: nat)
      modifies this
      ensures hitCounts == NextHits(old(hitCounts), n)
    {
      if hitCounts >= MAX_LOG_PER_COUNTER {
        hitCounts := if n >= 1 then MAX_LOG_PER_COUNTER % n else 0;
      }
      hitCounts := hitCounts + 1;
    }
  }

  /** The registry; `calls` records what it was asked so far. */
  class RegisteredHitCounters {
    var list: seq<HitCounter>
    ghost var calls: seq<Call>

    constructor ()
      ensures Valid() && calls == []
    {
      list, calls := [], [];
    }

    /** One counter per site called, holding what the calls from the site have made of it. */
    ghost predicate Valid()
      reads this, list
    {
      && (forall i, j | 0 <= i < j < |list| :: SiteOf(list[i]) != SiteOf(list[j]))
      && (forall i | 0 <= i < |list| :: list[i].hitCounts == HitsAfter(calls, SiteOf(list[i])))
      && (forall site | !Listed(list, site) :: HitsAfter(calls, site) == 0)
    }

    /** `get`: the index of the counter of a site. */
    method GetEntry(filename: bytes, lineNumber: nat) returns (i: nat)
      ensures i <= |list| && (i < |list| ==> SiteOf(list[i]) == Site(filename, lineNumber))
      ensures forall j | 0 <= j < i :: SiteOf(list[j]) != Site(filename, lineNumber)
    {
      i := 0;
      while i < |list| && !(list[i].filename == filename && list[i].lineNumber == lineNumber)
        invariant i <= |list|
        invariant forall j | 0 <= j < i :: SiteOf(list[j]) != Site(filename, lineNumber)
      {
        i := i + 1;
      }
    }

    method ValidateEveryN(filename: bytes, lineNumber: nat, n: nat) returns (result: bool)
      requires Valid()
      modifies this, list
      ensures Valid() && calls == old(calls) + [Call(Site(filename, lineNumber), n)]
      ensures result == Fires(HitsAfter(calls, Site(filename, lineNumber)), n)
    {
      hide HitsAfter, NextHits;
      var i := GetEntry(filename, lineNumber);
      if i == |list| {
        Register(filename, lineNumber);
      }
      label Found:
      var counter := list[i];
      counter.ValidateHitCounts(n);
      ghost var call := Call(Site(filename, lineNumber), n);
      forall site
        ensures HitsAfter(calls + [call], site) ==
          if site == call.site then NextHits(HitsAfter(calls, site), n) else HitsAfter(calls, site)
      {
        HitsStep(calls, call, site);
      }
      calls := calls + [call];
      assert forall j | 0 <= j < |list| && j != i :: SiteOf(list[j]) != call.site;
      assert forall site | !Listed(list, site) :: site != call.site;
      result := n >= 1 && counter.hitCounts != 0 && counter.hitCounts % n == 0;
    }

    /** A counter for a site that has none. */
    method Register(filename: bytes, lineNumber: nat)
      requires Valid() && !Listed(list, Site(filename, lineNumber))
      modifies this`list
      ensures Valid() && |list| == |old(list)| + 1 && list[..|old(list)|] == old(list)
      ensures fresh(list[|old(list)|]) && SiteOf(list[|old(list)|]) == Site(filename, lineNumber)
    {
      hide HitsAfter;
      var counter := new HitCounter(filename, lineNumber);
      ghost var before := list;
      list := list + [counter];
      forall site | !Listed(list, site) ensures !Listed(before, site) {
        assert forall i | 0 <= i < |before| :: before[i] == list[i];
      }
    }
  }

  ghost function SiteOf(c: HitCounter): Site {
    Site(c.filename, c.lineNumber)
  }

  ghost predicate Listed(list: seq<HitCounter>, site: Site) {
    exists i | 0 <= i < |list| :: SiteOf(list[i]) == site
  }

  lemma HitsStep(calls: seq<Call>, call: Call, site: Site)
    ensures HitsAfter(calls + [call], site) ==
      if site == call.site then NextHits(HitsAfter(calls, site), call.n) else HitsAfter(calls, site)
  {
    assert (calls + [call])[..|calls|] == calls;
  }
}
