/** The working-memory budget of archive handling (zip_resources.go, zip_discovery.go,
    unpack_prepared.go, archive_zip_policy.go): whatever way an operation ends, the budget is charged
    for exactly what a returned reader owns or a callback reserved. */
module ZipBudget {
  import opened Common

  const MAX_UINT64: nat := 0xffff_ffff_ffff_ffff
  const MAX_INT64: nat := 0x7fff_ffff_ffff_ffff

  // How a step ends. SkipDir and SkipAll are the callback's bare sentinels.
  datatype Outcome = Done | SkipDir | SkipAll | Cancelled | Limit | BadPattern | Failed

  // ZIPResourceBudget
  class Budget {
    const limit: nat
    var current: nat
    var peak: nat

    ghost predicate Valid()
      reads this
    {
      current <= peak <= limit <= MAX_UINT64
    }

    // 32-bit platforms get the smallest limit, android the middle one.
    constructor (android: bool, wide: bool)
      ensures Valid() && current == 0
      ensures limit == (if !wide then 64 else if android then 192 else 256) * 1024 * 1024
    {
      limit := (if !wide then 64 else if android then 192 else 256) * 1024 * 1024;
      current, peak := 0, 0;
    }

    method Reserve(bytes: nat) returns (ok: bool)
      requires Valid()
      modifies this
      ensures Valid() && ok == (old(current) + bytes <= limit)
      ensures current == old(current) + if ok then bytes else 0
      ensures peak == if ok && old(peak) < current then current else old(peak)
    {
      if bytes > limit - current {
        return false;
      }
      current := current + bytes;
      if peak < current {
        peak := current;
      }
      ok := true;
    }

    // Refuses to retire more than is charged.
    method Release(bytes: nat) returns (ok: bool)
      requires Valid()
      modifies this
      ensures Valid() && ok == (bytes <= old(current)) && peak == old(peak)
      ensures current == old(current) - if ok then bytes else 0
    {
      if bytes > current {
        return false;
      }
      current := current - bytes;
      ok := true;
    }
  }

  // A step the budget does not see, which may fail.
  method Attempt() returns (ok: bool)
  {
    ok := *;
  }

  // zipResourceAdd, zipResourceMultiply: None on 64-bit overflow.
  function Add(left: nat, right: nat): (r: Option<nat>)
    ensures r.Some? <==> left + right <= MAX_UINT64
    ensures r.Some? ==> r.value == left + right
  {
    if left > MAX_UINT64 || right > MAX_UINT64 - left then None else Some(left + right)
  }

  function Multiply(left: nat, right: nat): (r: Option<nat>)
    ensures r.Some? <==> left * right <= MAX_UINT64
    ensures r.Some? ==> r.value == left * right
  {
    if left != 0 && right > MAX_UINT64 / left then
      TooBig(left, right, MAX_UINT64);
      None
    else
      Fits(left, right, MAX_UINT64);
      Some(left * right)
  }

  lemma TooBig(left: nat, right: nat, limit: nat)
    requires left != 0 && right > limit / left
    ensures left * right > limit
  {
    assert left * (limit / left + 1) > limit;
    assert left * right >= left * (limit / left + 1);
  }

  lemma Fits(left: nat, right: nat, limit: nat)
    requires left == 0 || right <= limit / left
    ensures left * right <= limit
  {
    if left != 0 {
      assert left * right <= left * (limit / left);
    }
  }

  // zipDiscoveryBytes
  function Cost(base: nat, multiplier: nat, length: nat): Option<nat>
  {
    var scaled := Multiply(length, multiplier);
    if scaled.None? then None else Add(base, scaled.value)
  }

  // ----- payload ranges -----

  datatype Payload = Payload(offset: Option<int>, size: nat)

  datatype Range = Range(start: nat, end: nat)

  // Whether a range can be read and addressed.
  predicate Readable(p: Payload): (r: bool)
    ensures r <==> p.offset.Some? && p.offset.value >= 0 && p.offset.value + p.size <= MAX_INT64
  {
    p.offset.Some? && p.offset.value >= 0 && p.size <= MAX_INT64 && p.size <= MAX_INT64 - p.offset.value
  }

  predicate Apart(p: Payload, q: Payload)
    requires Readable(p) && Readable(q)
  {
    p.size == 0 || q.size == 0 || p.offset.value + p.size <= q.offset.value || q.offset.value + q.size <= p.offset.value
  }

  // No two payloads share a byte.
  predicate Disjoint(files: seq<Payload>)
    requires forall p <- files :: Readable(p)
  {
    forall i, j :: 0 <= i < j < |files| ==> Apart(files[i], files[j])
  }

  predicate RangesApart(a: Range, b: Range)
  {
    a.end <= b.start || b.end <= a.start
  }

  predicate AllApart(s: seq<Range>)
  {
    forall i, j :: 0 <= i < j < |s| ==> RangesApart(s[i], s[j])
  }

  // The same, without an order.
  ghost predicate BagApart(m: multiset<Range>)
  {
    forall a, b :: a in m && b in m && (a != b || m[a] > 1) ==> RangesApart(a, b)
  }

  lemma {:induction false} ApartByBag(s: seq<Range>)
    ensures AllApart(s) <==> BagApart(multiset(s))
  {
    if s != [] {
      var init, last := s[..|s| - 1], s[|s| - 1];
      ApartByBag(init);
      assert s == init + [last];
      assert multiset(s) == multiset(init) + multiset{last};
      if AllApart(s) {
        assert AllApart(init);
        forall a, b | a in multiset(s) && b in multiset(s) && (a != b || multiset(s)[a] > 1)
          ensures RangesApart(a, b)
        {
          if a == last && b in multiset(init) {
            var j :| 0 <= j < |init| && init[j] == b;
            assert RangesApart(s[j], s[|s| - 1]);
          } else if b == last && a in multiset(init) {
            var j :| 0 <= j < |init| && init[j] == a;
            assert RangesApart(s[j], s[|s| - 1]);
          }
        }
      }
      if BagApart(multiset(s)) {
        forall i, j | 0 <= i < j < |s|
          ensures RangesApart(s[i], s[j])
        {
          BagPair(s, i, j);
        }
      }
    }
  }

  lemma BagPair(s: seq<Range>, i: nat, j: nat)
    requires i < j < |s|
    ensures s[i] in multiset(s) && s[j] in multiset(s) && (s[i] != s[j] || multiset(s)[s[i]] > 1)
  {
    assert s == s[..j] + s[j..];
    assert s[..j][i] == s[i] && s[j..][0] == s[j];
    assert multiset(s) == multiset(s[..j]) + multiset(s[j..]);
  }

  ghost predicate Sorted(s: seq<Range>)
  {
    forall i, j :: 0 <= i < j < |s| ==> s[i].start <= s[j].start
  }

  function Insert(s: seq<Range>, r: Range): (t: seq<Range>)
    ensures multiset(t) == multiset(s) + multiset{r}
  {
    if s == [] || s[|s| - 1].start <= r.start then s + [r]
    else
      assert s == s[..|s| - 1] + [s[|s| - 1]];
      Insert(s[..|s| - 1], r) + [s[|s| - 1]]
  }

  lemma {:induction false} InsertSorts(s: seq<Range>, r: Range)
    requires Sorted(s)
    ensures Sorted(Insert(s, r))
  {
    if s != [] && r.start < s[|s| - 1].start {
      var init, last := s[..|s| - 1], s[|s| - 1];
      InsertSorts(init, r);
      var t := Insert(init, r);
      forall i | 0 <= i < |t|
        ensures t[i].start <= last.start
      {
        assert t[i] in multiset(t);
        if t[i] != r {
          assert t[i] in multiset(init);
        }
      }
    }
  }

  // slices.SortFunc
  method SortByStart(s: seq<Range>) returns (t: seq<Range>)
    ensures Sorted(t) && multiset(t) == multiset(s)
  {
    t := [];
    for i := 0 to |s|
      invariant Sorted(t) && multiset(t) == multiset(s[..i])
    {
      InsertSorts(t, s[i]);
      t := Insert(t, s[i]);
      assert s[..i + 1] == s[..i] + [s[i]];
    }
    assert s[..|s|] == s;
  }

  function RangeOf(p: Payload): Range
    requires Readable(p)
  {
    Range(p.offset.value, p.offset.value + p.size)
  }

  // The ranges of the payloads that are not empty.
  function Ranges(files: seq<Payload>): (r: seq<Range>)
    requires forall p <- files :: Readable(p)
    ensures forall a <- r :: a.start < a.end
  {
    if files == [] then [] else
      assert files[|files| - 1] in files;
      Ranges(files[..|files| - 1]) + if files[|files| - 1].size == 0 then [] else [RangeOf(files[|files| - 1])]
  }

  lemma {:induction false} RangesDisjoint(files: seq<Payload>)
    requires forall p <- files :: Readable(p)
    ensures AllApart(Ranges(files)) <==> Disjoint(files)
  {
    if files != [] {
      var init, last := files[..|files| - 1], files[|files| - 1];
      RangesDisjoint(init);
      assert files == init + [last];
      DisjointAppend(init, last);
      if last.size != 0 {
        assert Ranges(files) == Ranges(init) + [RangeOf(last)];
        LastApart(init, last);
        ApartAppend(Ranges(init), RangeOf(last));
      } else {
        assert Ranges(files) == Ranges(init);
      }
    }
  }

  lemma DisjointAppend(files: seq<Payload>, last: Payload)
    requires Readable(last) && forall p <- files :: Readable(p)
    ensures forall p <- files + [last] :: Readable(p)
    ensures Disjoint(files + [last]) <==> Disjoint(files) && forall p <- files :: Apart(p, last)
  {
    var all := files + [last];
    if Disjoint(all) {
      forall p | p in files
        ensures Apart(p, last)
      {
        var i :| 0 <= i < |files| && files[i] == p;
        assert Apart(all[i], all[|files|]);
      }
      forall i, j | 0 <= i < j < |files|
        ensures Apart(files[i], files[j])
      {
        assert Apart(all[i], all[j]);
      }
    }
  }

  lemma ApartAppend(s: seq<Range>, r: Range)
    ensures AllApart(s + [r]) <==> AllApart(s) && forall a <- s :: RangesApart(a, r)
  {
    var all := s + [r];
    if AllApart(all) {
      forall a | a in s
        ensures RangesApart(a, r)
      {
        var i :| 0 <= i < |s| && s[i] == a;
        assert RangesApart(all[i], all[|s|]);
      }
      forall i, j | 0 <= i < j < |s|
        ensures RangesApart(s[i], s[j])
      {
        assert RangesApart(all[i], all[j]);
      }
    }
  }

  lemma {:induction false} LastApart(files: seq<Payload>, last: Payload)
    requires Readable(last) && last.size != 0 && forall p <- files :: Readable(p)
    ensures (forall a <- Ranges(files) :: RangesApart(a, RangeOf(last))) <==> (forall p <- files :: Apart(p, last))
  {
    if files != [] {
      var init, p := files[..|files| - 1], files[|files| - 1];
      assert files == init + [p];
      assert forall q :: q in files <==> q in init || q == p;
      LastApart(init, last);
      assert forall a :: a in Ranges(files) <==> a in Ranges(init) || (p.size != 0 && a == RangeOf(p));
      assert p.size != 0 ==> (RangesApart(RangeOf(p), RangeOf(last)) <==> Apart(p, last));
    }
  }

  // In a sorted list neighbours that do not overlap keep everything apart.
  lemma SortedApart(s: seq<Range>)
    requires Sorted(s) && (forall a <- s :: a.start < a.end) && forall i :: 1 <= i < |s| ==> s[i].start >= s[i - 1].end
    ensures AllApart(s)
  {
    forall i, j | 0 <= i < j < |s|
      ensures RangesApart(s[i], s[j])
    {
      assert s[i + 1].start <= s[j].start;
    }
  }

  // ValidateZIPPayloadRanges: passes exactly the archives whose payloads can be addressed and share
  // no byte, unless it is cancelled or the budget refuses; the budget is as before either way.
  method ValidateRanges(budget: Budget, files: seq<Payload>, hasCancel: bool) returns (e: Outcome)
    requires budget.Valid()
    modifies budget
    ensures budget.Valid() && budget.current == old(budget.current)
    ensures e == Done ==> (forall p <- files :: Readable(p)) && Disjoint(files) && old(budget.current) + 16 * |files| <= budget.limit
    ensures !hasCancel && old(budget.current) + 16 * |files| <= budget.limit && (forall p <- files :: Readable(p)) && Disjoint(files) ==> e == Done
  {
    var charge := Multiply(|files|, 16);
    if charge.None? {
      return Limit;
    }
    var admitted := budget.Reserve(charge.value);
    if !admitted {
      return Limit;
    }
    e := CheckRanges(files, hasCancel);
    var freed := budget.Release(charge.value);
  }

  method CheckRanges(files: seq<Payload>, hasCancel: bool) returns (e: Outcome)
    ensures e == Done ==> (forall p <- files :: Readable(p)) && Disjoint(files)
    ensures !hasCancel && (forall p <- files :: Readable(p)) && Disjoint(files) ==> e == Done
  {
    var ranges: seq<Range> := [];
    for i := 0 to |files|
      invariant forall p <- files[..i] :: Readable(p)
      invariant ranges == Ranges(files[..i])
    {
      var cancelled := Attempt();
      if hasCancel && cancelled {
        return Cancelled;
      }
      assert files[..i + 1] == files[..i] + [files[i]];
      assert files[i] in files;
      if !Readable(files[i]) {
        return Failed;
      }
      assert files[..i + 1][..i] == files[..i];
      if files[i].size != 0 {
        ranges := ranges + [RangeOf(files[i])];
      }
    }
    assert files[..|files|] == files;
    RangesDisjoint(files);
    hide Disjoint, Ranges, AllApart;
    var cancelled := Attempt();
    if hasCancel && cancelled {
      return Cancelled;
    }
    var apart := NoOverlap(ranges);
    e := if apart then Done else Failed;
  }

  method NoOverlap(ranges: seq<Range>) returns (apart: bool)
    requires forall a <- ranges :: a.start < a.end
    ensures apart == AllApart(ranges)
  {
    var sorted := SortByStart(ranges);
    ApartByBag(sorted);
    ApartByBag(ranges);
    SameElements(sorted, ranges);
    hide BagApart;
    apart := Neighbours(sorted);
  }

  lemma SameElements(s: seq<Range>, t: seq<Range>)
    requires multiset(s) == multiset(t)
    ensures forall a :: a in s <==> a in t
  {
    forall a
      ensures a in s <==> a in t
    {
      assert a in s <==> a in multiset(s);
    }
  }

  method Neighbours(sorted: seq<Range>) returns (apart: bool)
    requires Sorted(sorted) && forall a <- sorted :: a.start < a.end
    ensures apart == AllApart(sorted)
  {
    var i := 1;
    while i < |sorted|
      invariant 1 <= i
      invariant forall j :: 1 <= j < i && j < |sorted| ==> sorted[j].start >= sorted[j - 1].end
    {
      if sorted[i].start < sorted[i - 1].end {
        assert sorted[i - 1] in sorted && sorted[i] in sorted;
        assert !RangesApart(sorted[i - 1], sorted[i]);
        return false;
      }
      i := i + 1;
    }
    SortedApart(sorted);
    apart := true;
  }

  // ----- working bytes -----

  function Sum(costs: seq<nat>): nat
  {
    if costs == [] then 0 else Sum(costs[..|costs| - 1]) + costs[|costs| - 1]
  }

  lemma {:induction false} SumPrefix(costs: seq<nat>, k: nat)
    requires k <= |costs|
    ensures Sum(costs[..k]) <= Sum(costs)
  {
    if k < |costs| {
      SumPrefix(costs[..|costs| - 1], k);
      assert costs[..|costs| - 1][..k] == costs[..k];
    } else {
      assert costs[..k] == costs;
    }
  }

  const RETAINED_BASE := 2 * 1024 * 1024

  // What one parsed entry keeps, for its name, extra field and comment.
  function EntryCost(variable: nat): nat
  {
    512 + 2 * variable
  }

  function EntryCosts(variables: seq<nat>): seq<nat>
  {
    seq(|variables|, i requires 0 <= i < |variables| => EntryCost(variables[i]))
  }

  // zipReaderRetainedBytes: the exact sum, refused exactly when it does not fit in 64 bits.
  method RetainedBytes(variables: seq<nat>, spare: nat, pointer: nat) returns (r: Option<nat>)
    requires forall v <- variables :: v <= MAX_UINT64
    ensures var total := 2 * 1024 * 1024 + spare * pointer + Sum(EntryCosts(variables));
            r == if total <= MAX_UINT64 then Some(total) else None
  {
    var slots := Multiply(spare, pointer);
    if slots.None? {
      return None;
    }
    var charge := Add(RETAINED_BASE, slots.value);
    if charge.None? {
      return None;
    }
    ghost var costs := EntryCosts(variables);
    r := charge;
    for i := 0 to |variables|
      invariant r.Some? && r.value == charge.value + Sum(costs[..i]) && r.value <= MAX_UINT64
    {
      assert costs[..i + 1][..i] == costs[..i];
      SumPrefix(costs, i + 1);
      assert variables[i] in variables;
      var twice := Multiply(variables[i], 2);
      if twice.None? {
        return None;
      }
      var cost := Add(twice.value, 512);
      if cost.None? {
        return None;
      }
      r := Add(r.value, cost.value);
      if r.None? {
        return None;
      }
    }
    assert costs[..|variables|] == costs;
  }

  const WORKING_BASE := 8 * 1024 * 1024

  // An entry as the extraction sees it.
  datatype Item = Item(name: string, dir: bool)

  predicate IsSeparator(c: char)
  {
    c == '/' || c == '\\'
  }

  // What the directories cost that the first n characters of a name lead through.
  function LeadingCost(name: string, root: nat, n: nat): nat
    requires n <= |name|
  {
    if n == 0 then 0
    else LeadingCost(name, root, n - 1) + if name[n - 1] in {'/', '\\'} then 768 + 4 * (n - 1 + root) else 0
  }

  lemma {:induction false} LeadingGrows(name: string, root: nat, n: nat)
    requires n <= |name|
    ensures LeadingCost(name, root, n) <= LeadingCost(name, root, |name|)
    decreases |name| - n
  {
    if n < |name| {
      LeadingGrows(name, root, n + 1);
    }
  }

  // One entry: its own path, every directory on the way, and itself if it is a directory not named as one.
  function ItemCost(item: Item, root: nat): nat
  {
    var name := item.name;
    1024 + 4 * (|name| + root) + LeadingCost(name, root, |name|)
    + if item.dir && name != [] && name[|name| - 1] !in {'/', '\\'} then 768 + 4 * (|name| + root) else 0
  }

  function ItemCosts(items: seq<Item>, root: nat): seq<nat>
  {
    seq(|items|, i requires 0 <= i < |items| => ItemCost(items[i], root))
  }

  method AddPath(charge: nat, base: nat, length: nat) returns (r: Option<nat>)
    ensures var total := charge + base + 4 * length;
            r == if total <= MAX_UINT64 then Some(total) else None
  {
    var path := Multiply(length, 4);
    if path.None? {
      return None;
    }
    var cost := Add(base, path.value);
    if cost.None? {
      return None;
    }
    r := Add(charge, cost.value);
  }

  method AddItem(charge: nat, item: Item, root: nat) returns (r: Option<nat>)
    ensures var total := charge + ItemCost(item, root);
            r == if total <= MAX_UINT64 then Some(total) else None
  {
    var name := item.name;
    r := AddPath(charge, 1024, |name| + root);
    if r.None? {
      return;
    }
    ghost var own := r.value;
    for i := 0 to |name|
      invariant r.Some? && r.value == own + LeadingCost(name, root, i) <= MAX_UINT64 && own == charge + 1024 + 4 * (|name| + root)
    {
      LeadingGrows(name, root, i + 1);
      if IsSeparator(name[i]) {
        r := AddPath(r.value, 768, i + root);
        if r.None? {
          return;
        }
      }
    }
    var last := item.dir && |name| > 0 && !IsSeparator(name[|name| - 1]);
    if last {
      r := AddPath(r.value, 768, |name| + root);
    }
  }

  // zipUnpackWorkingBytes: the exact sum, refused exactly when it does not fit in 64 bits.
  method WorkingBytes(items: seq<Item>, root: nat) returns (r: Option<nat>)
    ensures var total := 8 * 1024 * 1024 + Sum(ItemCosts(items, root));
            r == if total <= MAX_UINT64 then Some(total) else None
  {
    ghost var costs := ItemCosts(items, root);
    r := Some(WORKING_BASE);
    hide ItemCost;
    for i := 0 to |items|
      invariant r.Some? && r.value == WORKING_BASE + Sum(costs[..i]) && r.value <= MAX_UINT64
    {
      assert costs[..i + 1][..i] == costs[..i];
      SumPrefix(costs, i + 1);
      r := AddItem(r.value, items[i], root);
      if r.None? {
        return;
      }
    }
    assert costs[..|items|] == costs;
  }
}
