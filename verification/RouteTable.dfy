/** Routing tables: addresses, masks and what it means for a route to match a destination. */
module Routes {
  import opened Checksum

  type Addr = uint32

  /** A table entry; prefix, next hop and mask are the raw (network-order) words the router stores. */
  datatype Route = Route(prefix: Addr, nextHop: Addr, mask: Addr, iface: int)

  /** Bitwise and. */
  function BitAnd(a: nat, b: nat): (r: nat)
    ensures r <= a && r <= b
  {
    if a == 0 || b == 0 then 0
    else (if a % 2 == 1 && b % 2 == 1 then 1 else 0) + 2 * BitAnd(a / 2, b / 2)
  }

  function Pow2(n: nat): nat {
    if n == 0 then 1 else 2 * Pow2(n - 1)
  }

  function Key(r: Route): Addr {
    BitAnd(r.mask, r.prefix)
  }

  predicate Matches(r: Route, dest: Addr) {
    BitAnd(dest, r.mask) == Key(r)
  }

  ghost predicate HasMatch(table: seq<Route>, dest: Addr) {
    exists i :: 0 <= i < |table| && Matches(table[i], dest)
  }
}

/** The fourth laboratory's router: exchange sort by mask, then first match. */
module LongestPrefix {
  import opened Checksum
  import opened Options
  import opened Routes

  ghost predicate DescendingBy(key: Route -> int, table: seq<Route>) {
    forall i, j :: 0 <= i < j < |table| ==> key(table[i]) >= key(table[j])
  }

  function HostMask(r: Route): int {
    Ntohl(r.mask)
  }

  ghost predicate Descending(table: seq<Route>) {
    DescendingBy(HostMask, table)
  }

  /** The first `n` entries have their final values: each is at least everything after it. */
  ghost predicate Settled(key: Route -> int, table: seq<Route>, n: int) {
    forall a, b :: 0 <= a < n && a < b < |table| ==> key(table[a]) >= key(table[b])
  }

  function Exchanged(table: seq<Route>, i: nat, j: nat): (r: seq<Route>)
    requires i < |table| && j < |table|
    ensures multiset(r) == multiset(table)
  {
    table[i := table[j]][j := table[i]]
  }

  lemma ExchangeKeepsSettled(key: Route -> int, table: seq<Route>, i: nat, j: nat)
    requires i < j < |table| && Settled(key, table, i)
    ensures Settled(key, Exchanged(table, i, j), i)
  {
  }

  /** The nested-loop exchange sort, in place. */
  method SortBy(rtable: array<Route>, key: Route -> int)
    modifies rtable
    ensures DescendingBy(key, rtable[..])
    ensures multiset(rtable[..]) == multiset(old(rtable[..]))
  {
    var i := 0;
    while i < rtable.Length - 1
      invariant 0 <= i
      invariant multiset(rtable[..]) == multiset(old(rtable[..]))
      invariant Settled(key, rtable[..], i)
    {
      Settle(rtable, key, i);
      i := i + 1;
    }
  }

  /** Everything between `i` and `j` is at most entry `i`. */
  ghost predicate Dominates(key: Route -> int, table: seq<Route>, i: nat, j: int) {
    i < |table| && forall b :: i < b < j && b < |table| ==> key(table[i]) >= key(table[b])
  }

  lemma ExchangeDominates(key: Route -> int, table: seq<Route>, i: nat, j: nat)
    requires i < j < |table| && Dominates(key, table, i, j)
    ensures key(table[j]) > key(table[i]) ==> Dominates(key, Exchanged(table, i, j), i, j + 1)
    ensures key(table[j]) <= key(table[i]) ==> Dominates(key, table, i, j + 1)
  {
  }

  /** The inner loop: brings the greatest remaining key to position `i`. */
  method Settle(rtable: array<Route>, key: Route -> int, i: nat)
    requires i < rtable.Length && Settled(key, rtable[..], i)
    modifies rtable
    ensures Settled(key, rtable[..], i + 1)
    ensures multiset(rtable[..]) == multiset(old(rtable[..]))
  {
    for j := i + 1 to rtable.Length
      invariant multiset(rtable[..]) == multiset(old(rtable[..]))
      invariant Settled(key, rtable[..], i)
      invariant Dominates(key, rtable[..], i, j)
    {
      ghost var before := rtable[..];
      ExchangeKeepsSettled(key, before, i, j);
      ExchangeDominates(key, before, i, j);
      if key(rtable[j]) > key(rtable[i]) {
        rtable[i], rtable[j] := rtable[j], rtable[i];
        assert rtable[..] == Exchanged(before, i, j);
      }
    }
  }

  method SortTable(rtable: array<Route>)
    modifies rtable
    ensures Descending(rtable[..])
    ensures multiset(rtable[..]) == multiset(old(rtable[..]))
  {
    SortBy(rtable, HostMask);
  }

  /** Linear scan for the first matching entry. */
  method BestRoute(rtable: seq<Route>, dest: Addr) returns (r: Option<nat>)
    ensures r.Some? ==> r.value < |rtable| && Matches(rtable[r.value], dest)
    ensures forall k :: 0 <= k < (if r.Some? then r.value else |rtable|) ==> !Matches(rtable[k], dest)
  {
    for i := 0 to |rtable|
      invariant forall k :: 0 <= k < i ==> !Matches(rtable[k], dest)
    {
      if Matches(rtable[i], dest) {
        return Some(i);
      }
    }
    return None;
  }

  /** `route` is a matching entry of the table whose mask no other matching entry exceeds. */
  ghost predicate IsLongest(table: seq<Route>, dest: Addr, route: Route) {
    && route in table && Matches(route, dest)
    && forall other :: other in table && Matches(other, dest) ==> Ntohl(other.mask) <= Ntohl(route.mask)
  }

  /** Sorting once and taking the first match answers longest-prefix queries about the original table. */
  lemma FirstMatchIsLongest(original: seq<Route>, sorted: seq<Route>, dest: Addr, r: nat)
    requires multiset(original) == multiset(sorted) && Descending(sorted)
    requires r < |sorted| && Matches(sorted[r], dest) && forall k :: 0 <= k < r ==> !Matches(sorted[k], dest)
    ensures IsLongest(original, dest, sorted[r])
  {
    assert sorted[r] in multiset(original);
    forall other | other in original && Matches(other, dest)
      ensures Ntohl(other.mask) <= Ntohl(sorted[r].mask)
    {
      assert other in multiset(sorted);
    }
  }

  lemma NoMatchAnywhere(original: seq<Route>, sorted: seq<Route>, dest: Addr)
    requires multiset(original) == multiset(sorted)
    ensures HasMatch(original, dest) <==> HasMatch(sorted, dest)
  {
    if HasMatch(original, dest) {
      var i :| 0 <= i < |original| && Matches(original[i], dest);
      assert original[i] in multiset(sorted);
    }
    if HasMatch(sorted, dest) {
      var i :| 0 <= i < |sorted| && Matches(sorted[i], dest);
      assert sorted[i] in multiset(original);
    }
  }

  /** Start-up sort followed by a lookup, as the router's main program does. */
  method SortThenLookup(rtable: array<Route>, dest: Addr) returns (r: Option<Route>)
    modifies rtable
    ensures multiset(rtable[..]) == multiset(old(rtable[..]))
    ensures r.Some? ==> IsLongest(old(rtable[..]), dest, r.value)
    ensures r.None? <==> !HasMatch(old(rtable[..]), dest)
  {
    ghost var original := rtable[..];
    SortTable(rtable);
    var i := BestRoute(rtable[..], dest);
    NoMatchAnywhere(original, rtable[..], dest);
    if i.Some? {
      FirstMatchIsLongest(original, rtable[..], dest, i.value);
      return Some(rtable[i.value]);
    }
    return None;
  }

  /** The (host-order) mask whose first `len` bits are ones. */
  function NetMask(len: nat): int
    requires len <= 32
  {
    Pow2(32) - Pow2(32 - len)
  }

  lemma {:induction false} Pow2Grows(a: nat, b: nat)
    requires a < b
    ensures Pow2(a) < Pow2(b)
  {
    if a + 1 < b {
      Pow2Grows(a, b - 1);
    }
    Pow2Positive(b - 1);
  }

  lemma {:induction false} Pow2Positive(n: nat)
    ensures Pow2(n) > 0
  {
    if n > 0 {
      Pow2Positive(n - 1);
    }
  }

  /** Among prefix masks, a greatest mask is a longest prefix (section 5.2.4.3 of RFC 1812). */
  lemma LongestHasGreatestLength(table: seq<Route>, dest: Addr, route: Route, len: Route -> nat)
    requires IsLongest(table, dest, route)
    requires forall r :: r in table ==> len(r) <= 32 && Ntohl(r.mask) == NetMask(len(r))
    ensures forall other :: other in table && Matches(other, dest) ==> len(other) <= len(route)
  {
    forall other | other in table && Matches(other, dest)
      ensures len(other) <= len(route)
    {
      GreaterMaskIsLonger(len(other), len(route));
    }
  }

  lemma GreaterMaskIsLonger(a: nat, b: nat)
    requires a <= 32 && b <= 32 && NetMask(a) <= NetMask(b)
    ensures a <= b
  {
    if a > b {
      Pow2Grows(32 - a, 32 - b);
    }
  }
}

/** The homework router's lookup: `qsort` by masked prefix, then recursive binary search. */
module BinaryLookup {
  import opened Checksum
  import opened Options
  import opened Routes

  /** `qsort`'s comparator: an unsigned 32-bit difference read as a signed int. */
  function Compar(r1: Route, r2: Route): int {
    var d := (Key(r2) - Key(r1)) % 0x1_0000_0000;
    if d < 0x8000_0000 then d else d - 0x1_0000_0000
  }

  /** The comparator orders two routes by descending key exactly when the keys are not too far apart. */
  lemma ComparOrders(r1: Route, r2: Route)
    ensures (Compar(r1, r2) < 0 <==> Key(r1) > Key(r2)) <==>
            -0x8000_0000 <= Key(r2) as int - Key(r1) as int < 0x8000_0000
    ensures Compar(r1, r2) == 0 <==> Key(r1) == Key(r2)
  {
  }

  ghost predicate SortedByCompar(table: seq<Route>) {
    forall i, j :: 0 <= i < j < |table| ==> Compar(table[i], table[j]) <= 0
  }

  ghost predicate KeysClose(table: seq<Route>) {
    forall i, j :: 0 <= i < |table| && 0 <= j < |table| ==> Key(table[i]) as int - Key(table[j]) as int < 0x8000_0000
  }

  ghost predicate OneMask(table: seq<Route>) {
    forall i, j :: 0 <= i < |table| && 0 <= j < |table| ==> table[i].mask == table[j].mask
  }

  /** `get_best_route`: the index of the route found between `start` and `end`. */
  function GetBestRoute(rtable: seq<Route>, dest: Addr, start: int, end: int): (r: Option<nat>)
    requires 0 <= start && end < |rtable|
    ensures r.Some? ==> start <= r.value <= end && Matches(rtable[r.value], dest)
    decreases end - start + 1
  {
    if start > end then None
    else
      var mid := (start + end) / 2;
      if Matches(rtable[mid], dest) then Some(mid)
      else if BitAnd(dest, rtable[mid].mask) > Key(rtable[mid]) then GetBestRoute(rtable, dest, start, mid - 1)
      else GetBestRoute(rtable, dest, mid + 1, end)
  }

  predicate Below(r: Route, dest: Addr) {
    BitAnd(dest, r.mask) < Key(r)
  }

  predicate Above(r: Route, dest: Addr) {
    BitAnd(dest, r.mask) > Key(r)
  }

  /**
    In the fixed halving of the range, every midpoint passed on the way to `k` compares the
    destination towards `k`. The search itself is not run, nor asked whether anything matches.
   */
  predicate Toward(rtable: seq<Route>, dest: Addr, start: int, end: int, k: int)
    requires 0 <= start <= k <= end < |rtable|
    decreases end - start
  {
    var mid := (start + end) / 2;
    || k == mid
    || (k < mid && Above(rtable[mid], dest) && Toward(rtable, dest, start, mid - 1, k))
    || (k > mid && Below(rtable[mid], dest) && Toward(rtable, dest, mid + 1, end, k))
  }

  ghost predicate GuidedIn(rtable: seq<Route>, dest: Addr, start: int, end: int)
    requires 0 <= start && end < |rtable|
  {
    exists k :: start <= k <= end && Matches(rtable[k], dest) && Toward(rtable, dest, start, end, k)
  }

  /** Some matching entry has every midpoint above it pointing to it. */
  ghost predicate Guided(rtable: seq<Route>, dest: Addr) {
    GuidedIn(rtable, dest, 0, |rtable| - 1)
  }

  lemma {:induction false} SearchFindsWithin(rtable: seq<Route>, dest: Addr, start: int, end: int)
    requires 0 <= start && end < |rtable|
    ensures GetBestRoute(rtable, dest, start, end).Some? <==> GuidedIn(rtable, dest, start, end)
    decreases end - start + 1
  {
    if start <= end {
      var mid := (start + end) / 2;
      if Matches(rtable[mid], dest) {
        assert Toward(rtable, dest, start, end, mid);
      } else {
        SearchFindsWithin(rtable, dest, start, mid - 1);
        SearchFindsWithin(rtable, dest, mid + 1, end);
        HalvesOfGuided(rtable, dest, start, end);
      }
    }
  }

  lemma HalvesOfGuided(rtable: seq<Route>, dest: Addr, start: int, end: int)
    requires 0 <= start <= end < |rtable| && !Matches(rtable[(start + end) / 2], dest)
    ensures var mid := (start + end) / 2;
            GuidedIn(rtable, dest, start, end) <==>
            if Above(rtable[mid], dest) then GuidedIn(rtable, dest, start, mid - 1)
            else GuidedIn(rtable, dest, mid + 1, end)
  {
    var mid := (start + end) / 2;
    forall k | start <= k < mid
      ensures Toward(rtable, dest, start, end, k) <==>
              Above(rtable[mid], dest) && Toward(rtable, dest, start, mid - 1, k)
    {
    }
    forall k | mid < k <= end
      ensures Toward(rtable, dest, start, end, k) <==> Below(rtable[mid], dest) && Toward(rtable, dest, mid + 1, end, k)
    {
    }
  }

  /**
    For every table and destination, whatever the masks and the order, binary search finds
    a route exactly when some matching entry is guided to.
   */
  lemma SearchFindsIff(rtable: seq<Route>, dest: Addr)
    ensures GetBestRoute(rtable, dest, 0, |rtable| - 1).Some? <==> Guided(rtable, dest)
    ensures (GetBestRoute(rtable, dest, 0, |rtable| - 1).Some? <==> HasMatch(rtable, dest)) <==>
            (HasMatch(rtable, dest) ==> Guided(rtable, dest))
  {
    SearchFindsWithin(rtable, dest, 0, |rtable| - 1);
  }

  /** The destination's masked value compares consistently along the table: below, then equal, then above the keys. */
  ghost predicate ProbesMonotone(rtable: seq<Route>, dest: Addr) {
    forall i, j :: 0 <= i < j < |rtable| ==>
      (Above(rtable[i], dest) ==> Above(rtable[j], dest)) && (Below(rtable[j], dest) ==> Below(rtable[i], dest))
  }

  /** Monotone probes guide to a match whenever there is one. */
  lemma {:induction false} MonotoneGuides(rtable: seq<Route>, dest: Addr, start: int, end: int, k: int)
    requires 0 <= start <= k <= end < |rtable| && Matches(rtable[k], dest) && ProbesMonotone(rtable, dest)
    ensures GuidedIn(rtable, dest, start, end)
    decreases end - start
  {
    var mid := (start + end) / 2;
    if Matches(rtable[mid], dest) {
      assert Toward(rtable, dest, start, end, mid);
    } else {
      if Above(rtable[mid], dest) {
        MonotoneGuides(rtable, dest, start, mid - 1, k);
      } else {
        MonotoneGuides(rtable, dest, mid + 1, end, k);
      }
      HalvesOfGuided(rtable, dest, start, end);
    }
  }

  lemma SearchFinds(rtable: seq<Route>, dest: Addr)
    requires ProbesMonotone(rtable, dest)
    ensures GetBestRoute(rtable, dest, 0, |rtable| - 1).Some? <==> HasMatch(rtable, dest)
  {
    SearchFindsIff(rtable, dest);
    if HasMatch(rtable, dest) {
      var k :| 0 <= k < |rtable| && Matches(rtable[k], dest);
      MonotoneGuides(rtable, dest, 0, |rtable| - 1, k);
    }
  }

  /**
    On a table sorted by the comparator whose entries share one mask and whose keys are
    within 2^31 of each other, binary search finds a route exactly when a linear scan does.
   */
  lemma SearchAgreesWithScan(rtable: seq<Route>, dest: Addr)
    requires OneMask(rtable) && KeysClose(rtable) && SortedByCompar(rtable)
    ensures GetBestRoute(rtable, dest, 0, |rtable| - 1).Some? <==> HasMatch(rtable, dest)
  {
    KeysDescend(rtable);
    OneMaskMonotone(rtable, dest);
    SearchFinds(rtable, dest);
  }

  // ---------- Tables on which all destinations agree ----------

  /** Binary search and linear scan agree on every destination. */
  ghost predicate AlwaysAgrees(rtable: seq<Route>) {
    forall dest: Addr :: GetBestRoute(rtable, dest, 0, |rtable| - 1).Some? <==> HasMatch(rtable, dest)
  }

  lemma {:induction false} AndTwice(a: nat, b: nat)
    ensures BitAnd(BitAnd(a, b), a) == BitAnd(a, b)
  {
    if a != 0 && b != 0 {
      AndTwice(a / 2, b / 2);
    }
  }

  lemma KeyMatchesItself(r: Route)
    ensures BitAnd(Key(r), r.mask) == Key(r) && Matches(r, Key(r))
  {
    AndTwice(r.mask, r.prefix);
  }

  /** Only the masked value of the destination matters when all masks are the same. */
  lemma {:induction false} SameProbes(rtable: seq<Route>, dest: Addr, dest': Addr, start: int, end: int, k: int)
    requires 0 <= start <= k <= end < |rtable|
    requires forall i :: 0 <= i < |rtable| ==> BitAnd(dest, rtable[i].mask) == BitAnd(dest', rtable[i].mask)
    ensures Toward(rtable, dest, start, end, k) <==> Toward(rtable, dest', start, end, k)
    decreases end - start
  {
    var mid := (start + end) / 2;
    if k < mid {
      SameProbes(rtable, dest, dest', start, mid - 1, k);
    } else if k > mid {
      SameProbes(rtable, dest, dest', mid + 1, end, k);
    }
  }

  lemma OneMaskProbes(rtable: seq<Route>, dest: Addr, j: nat)
    requires OneMask(rtable) && j < |rtable| && Matches(rtable[j], dest)
    ensures Guided(rtable, dest) <==> Guided(rtable, Key(rtable[j]))
  {
    var own := Key(rtable[j]);
    KeyMatchesItself(rtable[j]);
    forall i | 0 <= i < |rtable|
      ensures BitAnd(dest, rtable[i].mask) == BitAnd(own, rtable[i].mask)
    {
      assert rtable[i].mask == rtable[j].mask;
    }
    forall k | 0 <= k < |rtable|
      ensures Toward(rtable, dest, 0, |rtable| - 1, k) <==> Toward(rtable, own, 0, |rtable| - 1, k)
      ensures Matches(rtable[k], dest) <==> Matches(rtable[k], own)
    {
      SameProbes(rtable, dest, own, 0, |rtable| - 1, k);
    }
  }

  ghost predicate OwnKeysGuided(rtable: seq<Route>) {
    forall j :: 0 <= j < |rtable| ==> Guided(rtable, Key(rtable[j]))
  }

  /** With one mask, all destinations agree exactly when each entry's own key is guided to. */
  lemma OneMaskAgreesIff(rtable: seq<Route>)
    requires OneMask(rtable)
    ensures AlwaysAgrees(rtable) <==> OwnKeysGuided(rtable)
  {
    if AlwaysAgrees(rtable) {
      forall j | 0 <= j < |rtable|
        ensures Guided(rtable, Key(rtable[j]))
      {
        KeyMatchesItself(rtable[j]);
        SearchFindsIff(rtable, Key(rtable[j]));
      }
    }
    if OwnKeysGuided(rtable) {
      forall dest: Addr
        ensures GetBestRoute(rtable, dest, 0, |rtable| - 1).Some? <==> HasMatch(rtable, dest)
      {
        SearchFindsIff(rtable, dest);
        if HasMatch(rtable, dest) {
          var j :| 0 <= j < |rtable| && Matches(rtable[j], dest);
          OneMaskProbes(rtable, dest, j);
        }
      }
    }
  }

  ghost predicate DistinctKeys(rtable: seq<Route>) {
    forall i, j :: 0 <= i < j < |rtable| ==> Key(rtable[i]) != Key(rtable[j])
  }

  ghost predicate DescendingIn(rtable: seq<Route>, start: int, end: int) {
    forall i, j :: 0 <= start <= i < j <= end < |rtable| ==> Key(rtable[i]) > Key(rtable[j])
  }

  /** Every entry of the range is guided to from its own key. */
  ghost predicate OwnKeysToward(rtable: seq<Route>, start: int, end: int)
    requires 0 <= start && end < |rtable|
  {
    forall k :: start <= k <= end ==> Toward(rtable, Key(rtable[k]), start, end, k)
  }

  /** The midpoint points each key to its own side, */
  lemma SidesOfMid(rtable: seq<Route>, start: int, end: int, k: int)
    requires OneMask(rtable) && 0 <= start <= k <= end < |rtable|
    requires Toward(rtable, Key(rtable[k]), start, end, k)
    ensures var mid := (start + end) / 2;
            && (k < mid ==> Key(rtable[k]) > Key(rtable[mid]) && Toward(rtable, Key(rtable[k]), start, mid - 1, k))
            && (k > mid ==> Key(rtable[k]) < Key(rtable[mid]) && Toward(rtable, Key(rtable[k]), mid + 1, end, k))
  {
    KeyMatchesItself(rtable[k]);
    assert rtable[k].mask == rtable[(start + end) / 2].mask;
  }

  lemma JoinHalves(rtable: seq<Route>, start: int, mid: int, end: int)
    requires 0 <= start <= mid <= end < |rtable|
    requires DescendingIn(rtable, start, mid - 1) && DescendingIn(rtable, mid + 1, end)
    requires forall k :: start <= k < mid ==> Key(rtable[k]) > Key(rtable[mid])
    requires forall k :: mid < k <= end ==> Key(rtable[k]) < Key(rtable[mid])
    ensures DescendingIn(rtable, start, end)
  {
  }

  /** so pointing every key to its own entry takes a descending table. */
  lemma {:induction false} TowardMeansDescending(rtable: seq<Route>, start: int, end: int)
    requires OneMask(rtable) && 0 <= start && end < |rtable| && OwnKeysToward(rtable, start, end)
    ensures DescendingIn(rtable, start, end)
    decreases end - start + 1
  {
    if start <= end {
      var mid := (start + end) / 2;
      forall k | start <= k <= end
        ensures k < mid ==> Key(rtable[k]) > Key(rtable[mid]) && Toward(rtable, Key(rtable[k]), start, mid - 1, k)
        ensures k > mid ==> Key(rtable[k]) < Key(rtable[mid]) && Toward(rtable, Key(rtable[k]), mid + 1, end, k)
      {
        SidesOfMid(rtable, start, end, k);
      }
      TowardMeansDescending(rtable, start, mid - 1);
      TowardMeansDescending(rtable, mid + 1, end);
      JoinHalves(rtable, start, mid, end);
    }
  }

  lemma GuidedToOwn(rtable: seq<Route>, k: nat)
    requires OneMask(rtable) && DistinctKeys(rtable) && k < |rtable| && Guided(rtable, Key(rtable[k]))
    ensures Toward(rtable, Key(rtable[k]), 0, |rtable| - 1, k)
  {
    var own := Key(rtable[k]);
    var i :| 0 <= i < |rtable| && Matches(rtable[i], own) && Toward(rtable, own, 0, |rtable| - 1, i);
    KeyMatchesItself(rtable[k]);
    assert rtable[i].mask == rtable[k].mask;
  }

  lemma OwnKeysDescend(rtable: seq<Route>)
    requires OneMask(rtable) && DistinctKeys(rtable) && OwnKeysGuided(rtable)
    ensures DescendingIn(rtable, 0, |rtable| - 1)
  {
    forall k | 0 <= k <= |rtable| - 1
      ensures Toward(rtable, Key(rtable[k]), 0, |rtable| - 1, k)
    {
      GuidedToOwn(rtable, k);
    }
    TowardMeansDescending(rtable, 0, |rtable| - 1);
  }

  lemma DescendingAgrees(rtable: seq<Route>, dest: Addr)
    requires OneMask(rtable) && DescendingIn(rtable, 0, |rtable| - 1)
    ensures GetBestRoute(rtable, dest, 0, |rtable| - 1).Some? <==> HasMatch(rtable, dest)
  {
    OneMaskMonotone(rtable, dest);
    SearchFinds(rtable, dest);
  }

  /**
    With one mask and distinct keys, all destinations agree exactly when the keys descend;
    among close keys, exactly when the comparator finds the table sorted.
   */
  lemma AlwaysAgreesIffDescending(rtable: seq<Route>)
    requires OneMask(rtable) && DistinctKeys(rtable)
    ensures AlwaysAgrees(rtable) <==> DescendingIn(rtable, 0, |rtable| - 1)
    ensures KeysClose(rtable) ==> (AlwaysAgrees(rtable) <==> SortedByCompar(rtable))
  {
    if AlwaysAgrees(rtable) {
      OneMaskAgreesIff(rtable);
      OwnKeysDescend(rtable);
    }
    if DescendingIn(rtable, 0, |rtable| - 1) {
      forall dest: Addr
        ensures GetBestRoute(rtable, dest, 0, |rtable| - 1).Some? <==> HasMatch(rtable, dest)
      {
        DescendingAgrees(rtable, dest);
      }
    }
    if KeysClose(rtable) {
      SortedIffDescending(rtable);
    }
  }

  lemma SortedIffDescending(rtable: seq<Route>)
    requires KeysClose(rtable) && DistinctKeys(rtable)
    ensures SortedByCompar(rtable) <==> DescendingIn(rtable, 0, |rtable| - 1)
  {
    if SortedByCompar(rtable) {
      KeysDescend(rtable);
    }
    if DescendingIn(rtable, 0, |rtable| - 1) {
      forall i, j | 0 <= i < j < |rtable|
        ensures Compar(rtable[i], rtable[j]) <= 0
      {
        ComparOrders(rtable[i], rtable[j]);
      }
    }
  }

  lemma KeysDescend(rtable: seq<Route>)
    requires KeysClose(rtable) && SortedByCompar(rtable)
    ensures forall i, j :: 0 <= i < j < |rtable| ==> Key(rtable[i]) >= Key(rtable[j])
  {
  }

  lemma OneMaskMonotone(rtable: seq<Route>, dest: Addr)
    requires OneMask(rtable) && forall i, j :: 0 <= i < j < |rtable| ==> Key(rtable[i]) >= Key(rtable[j])
    ensures ProbesMonotone(rtable, dest)
  {
  }

  const EXAMPLE := [Route(0x30a, 1, 0xffff, 0), Route(0x10a, 2, 0xffff, 1), Route(0xa, 3, 0xff, 2)]

  lemma {:induction false} AndOnes(x: nat, n: nat)
    requires x < Pow2(n)
    ensures BitAnd(x, Pow2(n) - 1) == x && BitAnd(Pow2(n) - 1, x) == x
  {
    if n > 0 {
      AndOnes(x / 2, n - 1);
    }
  }

  lemma ExampleKeys()
    ensures Key(EXAMPLE[0]) == 0x30a && Key(EXAMPLE[1]) == 0x10a && Key(EXAMPLE[2]) == 0xa
    ensures BitAnd(0x20a, 0xffff) == 0x20a
  {
    PowersOfTwo();
    AndOnes(0x30a, 16);
    AndOnes(0x10a, 16);
    AndOnes(0x20a, 16);
    AndOnes(0xa, 8);
    assert EXAMPLE[2] == Route(0xa, 3, 0xff, 2);
  }

  lemma PowersOfTwo()
    ensures Pow2(8) == 0x100 && Pow2(16) == 0x1_0000
  {
  }

  lemma LowByteOfExample()
    ensures BitAnd(0x20a, 0xff) == 0xa
  {
    assert BitAnd(8, 3) == 0;
    assert BitAnd(0x20, 0xf) == 0;
    assert BitAnd(0x82, 0x3f) == 2;
  }

  lemma ExampleSorted()
    ensures SortedByCompar(EXAMPLE) && KeysClose(EXAMPLE)
  {
    ExampleKeys();
    ComparOrders(EXAMPLE[0], EXAMPLE[1]);
    ComparOrders(EXAMPLE[0], EXAMPLE[2]);
    ComparOrders(EXAMPLE[1], EXAMPLE[2]);
  }

  /**
    With mixed masks the search can miss: 10.2.0.0 against 10.3.0.0/16, 10.1.0.0/16 and
    10.0.0.0/8 (raw little-endian words, sorted by the comparator).
   */
  lemma MixedMasksCanMiss()
    ensures SortedByCompar(EXAMPLE) && KeysClose(EXAMPLE)
    ensures HasMatch(EXAMPLE, 0x20a) && !Guided(EXAMPLE, 0x20a) && GetBestRoute(EXAMPLE, 0x20a, 0, 2) == None
  {
    ExampleSorted();
    ExampleKeys();
    LowByteOfExample();
    assert Matches(EXAMPLE[2], 0x20a);
    NotGuided(EXAMPLE, 0x20a);
    SearchFindsIff(EXAMPLE, 0x20a);
  }

  /** The middle of three entries points away from the only match. */
  lemma NotGuided(rtable: seq<Route>, dest: Addr)
    requires |rtable| == 3 && !Matches(rtable[0], dest) && Above(rtable[1], dest)
    ensures !Guided(rtable, dest)
  {
  }
}
