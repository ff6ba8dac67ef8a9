/** Chunk names and chunk sets (split.go, recombine.go): a chunk is the base name, a dot and an index. */
module SplitNames {
  import opened Common

  const MAX_INT: nat := 0x7FFF_FFFF_FFFF_FFFF

  // ----- names -----

  function Digit(d: nat): char
    requires d < 10
  {
    ('0' as int + d) as char
  }

  predicate IsDigit(c: char)
  {
    '0' <= c <= '9'
  }

  // "%d"
  function Decimal(i: nat): (s: string)
    ensures s != "" && forall k :: 0 <= k < |s| ==> IsDigit(s[k])
  {
    if i < 10 then [Digit(i)] else Decimal(i / 10) + [Digit(i % 10)]
  }

  function Value(s: string): nat
    requires forall k :: 0 <= k < |s| ==> IsDigit(s[k])
  {
    if s == "" then 0
    else
      assert IsDigit(s[|s| - 1]);
      10 * Value(s[..|s| - 1]) + (s[|s| - 1] as int - '0' as int)
  }

  lemma {:induction false} ValueDecimal(i: nat)
    ensures Value(Decimal(i)) == i
  {
    var s := Decimal(i);
    if i >= 10 {
      ValueDecimal(i / 10);
      assert s[..|s| - 1] == Decimal(i / 10);
    } else {
      assert Value("") == 0 && s[..|s| - 1] == "";
    }
  }

  // parseUnsignedChunkIndex: digits only, within an int.
  function ParseIndex(s: string): Option<nat>
  {
    if s == "" || exists k :: 0 <= k < |s| && !IsDigit(s[k]) then None
    else if Value(s) > MAX_INT then None else Some(Value(s))
  }

  function ChunkName(base: string, i: nat): string
  {
    base + "." + Decimal(i)
  }

  function Suffix(base: string, name: string): Option<string>
  {
    if base + "." <= name then Some(name[|base| + 1..]) else None
  }

  // The chunk index a name stands for; several names can stand for one.
  function IndexOf(base: string, name: string): Option<nat>
  {
    var s := Suffix(base, name);
    if s.Some? then ParseIndex(s.value) else None
  }

  function TrimIncomplete(s: string): string
  {
    var end := ".incomplete";
    if |s| >= |end| && s[|s| - |end|..] == end then s[..|s| - |end|] else s
  }

  predicate IsSplitArtifact(base: string, name: string)
  {
    var s := Suffix(base, name);
    s.Some? && ParseIndex(TrimIncomplete(s.value)).Some?
  }

  lemma ChunkIndex(base: string, i: nat)
    ensures IndexOf(base, ChunkName(base, i)) == if i <= MAX_INT then Some(i) else None
  {
    ValueDecimal(i);
    assert Suffix(base, ChunkName(base, i)) == Some(Decimal(i));
  }

  lemma ChunkNamesDiffer(base: string, i: nat, j: nat)
    requires i != j
    ensures ChunkName(base, i) != ChunkName(base, j)
  {
    ValueDecimal(i);
    ValueDecimal(j);
    assert ChunkName(base, i)[|base| + 1..] == Decimal(i) && ChunkName(base, j)[|base| + 1..] == Decimal(j);
  }

  // Whatever counts as a chunk is also an artifact that keeps a new split away.
  lemma ChunkIsArtifact(base: string, name: string)
    requires IndexOf(base, name).Some?
    ensures IsSplitArtifact(base, name)
  {
    var s := name[|base| + 1..];
    var end := ".incomplete";
    assert |s| >= |end| ==> s[|s| - |end|..][0] == s[|s| - |end|] != end[0];
  }

  // ----- a complete set -----

  // The indices of a listing, in its order.
  function Indices(base: string, listing: seq<string>): seq<nat>
  {
    if listing == [] then []
    else
      var i := IndexOf(base, listing[|listing| - 1]);
      Indices(base, listing[..|listing| - 1]) + if i.Some? then [i.value] else []
  }

  ghost predicate NamesIndex(base: string, names: set<string>, k: nat)
  {
    exists s <- names :: IndexOf(base, s) == Some(k)
  }

  /** Exactly the indices below n, each under one name only. */
  ghost predicate Complete(base: string, names: set<string>, n: nat)
  {
    && n > 0
    && (forall k: nat :: NamesIndex(base, names, k) <==> k < n)
    && (forall s, t :: s in names && t in names && IndexOf(base, s).Some? && IndexOf(base, s) == IndexOf(base, t) ==> s == t)
  }

  ghost predicate Distinct<T>(s: seq<T>)
  {
    forall i, j :: 0 <= i < j < |s| ==> s[i] != s[j]
  }

  ghost function Elements<T>(s: seq<T>): set<T>
  {
    set x | x in s
  }

  predicate Sorted(s: seq<nat>)
  {
    forall i, j :: 0 <= i < j < |s| ==> s[i] <= s[j]
  }

  // The test of countChunks on the sorted indices.
  predicate Consecutive(s: seq<nat>)
  {
    forall k :: 0 <= k < |s| ==> s[k] == k
  }

  function Insert(s: seq<nat>, x: nat): (r: seq<nat>)
    ensures multiset(r) == multiset(s) + multiset{x}
  {
    if s == [] || s[|s| - 1] <= x then s + [x]
    else
      assert s == s[..|s| - 1] + [s[|s| - 1]];
      Insert(s[..|s| - 1], x) + [s[|s| - 1]]
  }

  lemma {:induction false} InsertSorts(s: seq<nat>, x: nat)
    requires Sorted(s)
    ensures Sorted(Insert(s, x))
  {
    if s != [] && s[|s| - 1] > x {
      var init, last := s[..|s| - 1], s[|s| - 1];
      InsertSorts(init, x);
      var r := Insert(init, x);
      forall k | 0 <= k < |r|
        ensures r[k] <= last
      {
        assert r[k] in multiset(r);
        assert r[k] in multiset(init) || r[k] == x;
      }
    }
  }

  // sort.Ints
  method Sort(s: seq<nat>) returns (t: seq<nat>)
    ensures Sorted(t) && multiset(t) == multiset(s)
  {
    t := [];
    for i := 0 to |s|
      invariant Sorted(t) && multiset(t) == multiset(s[..i])
    {
      assert s[..i + 1] == s[..i] + [s[i]];
      InsertSorts(t, s[i]);
      t := Insert(t, s[i]);
    }
    assert s[..|s|] == s;
  }

  lemma {:induction false} IndicesAppend(base: string, a: seq<string>, b: seq<string>)
    ensures Indices(base, a + b) == Indices(base, a) + Indices(base, b)
  {
    if b == [] {
      assert a + b == a;
    } else {
      IndicesAppend(base, a, b[..|b| - 1]);
      assert (a + b)[..|a + b| - 1] == a + b[..|b| - 1];
    }
  }

  lemma {:induction false} IndexListed(base: string, listing: seq<string>, k: nat)
    ensures k in Indices(base, listing) <==> NamesIndex(base, Elements(listing), k)
  {
    if listing != [] {
      var init, last := listing[..|listing| - 1], listing[|listing| - 1];
      IndexListed(base, init, k);
      assert forall s :: s in Elements(listing) <==> s in Elements(init) || s == last;
    }
  }

  lemma {:induction false} IndicesBound(base: string, listing: seq<string>)
    ensures forall k <- Indices(base, listing) :: k <= MAX_INT
  {
    if listing != [] {
      IndicesBound(base, listing[..|listing| - 1]);
    }
  }

  // No two names of a listing share an index.
  ghost predicate OneNameEach(base: string, listing: seq<string>)
  {
    forall s, t :: s in listing && t in listing && IndexOf(base, s).Some? && IndexOf(base, s) == IndexOf(base, t) ==> s == t
  }

  lemma {:induction false} IndicesDistinct(base: string, listing: seq<string>)
    requires Distinct(listing)
    ensures Distinct(Indices(base, listing)) <==> OneNameEach(base, listing)
  {
    if listing != [] {
      var init, last := listing[..|listing| - 1], listing[|listing| - 1];
      IndicesDistinct(base, init);
      assert listing == init + [last];
      assert last !in init;
      OneNameAppend(base, init, last);
      var i := IndexOf(base, last);
      if i.Some? {
        IndexListed(base, init, i.value);
        DistinctAppend(Indices(base, init), i.value);
      } else {
        assert Indices(base, listing) == Indices(base, init);
      }
    }
  }

  lemma OneNameAppend(base: string, init: seq<string>, last: string)
    requires last !in init
    ensures OneNameEach(base, init + [last]) <==>
              OneNameEach(base, init) && (IndexOf(base, last).Some? ==> !NamesIndex(base, Elements(init), IndexOf(base, last).value))
  {
    var i := IndexOf(base, last);
    if i.Some? && NamesIndex(base, Elements(init), i.value) {
      var s :| s in Elements(init) && IndexOf(base, s) == i;
      assert s in init + [last] && last in init + [last] && s != last;
    }
    assert forall s :: s in init ==> s in init + [last];
    assert forall s :: s in init + [last] ==> s in init || s == last;
    assert forall s :: s in init && IndexOf(base, s).Some? ==> NamesIndex(base, Elements(init), IndexOf(base, s).value);
  }

  lemma DistinctAppend(s: seq<nat>, x: nat)
    ensures Distinct(s + [x]) <==> Distinct(s) && x !in s
  {
    var all := s + [x];
    if Distinct(all) {
      forall i, j | 0 <= i < j < |s|
        ensures s[i] != s[j]
      {
        assert all[i] != all[j];
      }
      forall i | 0 <= i < |s|
        ensures s[i] != x
      {
        assert all[i] != all[|s|];
      }
    }
  }

  lemma RepeatCounts(s: seq<nat>, i: nat, j: nat)
    requires i < j < |s| && s[i] == s[j]
    ensures multiset(s)[s[i]] >= 2
  {
    assert s == s[..j] + s[j..];
    assert s[..j][i] == s[i] && s[j..][0] == s[j];
    assert multiset(s) == multiset(s[..j]) + multiset(s[j..]);
  }

  lemma {:induction false} DistinctCounts(s: seq<nat>, x: nat)
    requires Distinct(s)
    ensures multiset(s)[x] <= 1
  {
    if s != [] {
      var init, last := s[..|s| - 1], s[|s| - 1];
      assert s == init + [last];
      DistinctAppend(init, last);
      DistinctCounts(init, x);
      assert last !in init;
    }
  }

  lemma SameBagDistinct(s: seq<nat>, t: seq<nat>)
    requires multiset(s) == multiset(t) && Distinct(s)
    ensures Distinct(t)
  {
    forall i, j | 0 <= i < j < |t|
      ensures t[i] != t[j]
    {
      DistinctCounts(s, t[i]);
      if t[i] == t[j] {
        RepeatCounts(t, i, j);
      }
    }
  }

  // A sorted list without repeats that holds exactly the numbers below n is 0, 1, ..., n - 1.
  lemma {:induction false} SortedRange(s: seq<nat>, n: nat, k: nat)
    requires Sorted(s) && Distinct(s) && (forall x: nat :: x in s <==> x < n) && k <= |s|
    ensures Consecutive(s[..k]) && k <= n && (k == |s| ==> k == n)
  {
    if k > 0 {
      SortedRange(s, n, k - 1);
      assert s[k - 1] in s;
      assert forall j :: 0 <= j < k - 1 ==> s[j] == s[..k - 1][j] == j;
      assert k - 1 < n ==> k - 1 in s;
      assert k - 1 > 0 ==> s[k - 2] != s[k - 1];
      assert s[k - 1] == k - 1;
    }
    assert k < n ==> k in s;
    assert forall j :: 0 <= j < k ==> s[j] == s[..k][j] == j;
  }

  /** The test on the sorted indices passes exactly the complete sets. */
  lemma CompleteIffConsecutive(base: string, listing: seq<string>, sorted: seq<nat>, n: nat)
    requires Distinct(listing) && Sorted(sorted) && multiset(sorted) == multiset(Indices(base, listing))
    ensures n == |sorted| > 0 && Consecutive(sorted) <==> Complete(base, Elements(listing), n)
  {
    var indices, names := Indices(base, listing), Elements(listing);
    IndicesDistinct(base, listing);
    forall k: nat
      ensures k in sorted <==> NamesIndex(base, names, k)
    {
      IndexListed(base, listing, k);
      assert k in multiset(sorted) <==> k in multiset(indices);
    }
    assert forall s :: s in names <==> s in listing;
    if n == |sorted| > 0 && Consecutive(sorted) {
      SameBagDistinct(sorted, indices);
      forall k: nat
        ensures NamesIndex(base, names, k) <==> k < n
      {
        assert k < n ==> sorted[k] == k;
      }
    }
    if Complete(base, names, n) {
      SameBagDistinct(indices, sorted);
      SortedRange(sorted, n, |sorted|);
      assert sorted[..|sorted|] == sorted;
    }
  }

  // "b.0" and "b.01" are counted as a complete set of two, though "b.1" is not among them.
  lemma CountedByIndex()
    ensures Complete("b", {"b.0", "b.01"}, 2) && ChunkName("b", 1) == "b.1"
  {
    var zero, one := "b.0", "b.01";
    Parsed("0", 0);
    Parsed("01", 1);
    assert zero[2..] == "0" && one[2..] == "01" && "b" + "." == "b.";
    assert IndexOf("b", zero) == Some(0) && IndexOf("b", one) == Some(1);
    forall k: nat
      ensures NamesIndex("b", {zero, one}, k) <==> k < 2
    {
      assert k == 0 ==> zero in {zero, one};
      assert k == 1 ==> one in {zero, one};
    }
    assert Decimal(1) == "1";
  }

  lemma Parsed(s: string, i: nat)
    requires (s == "0" && i == 0) || (s == "01" && i == 1)
    ensures ParseIndex(s) == Some(i)
  {
    assert IsDigit('0') && IsDigit('1');
    assert Value("") == 0 && Value("0") == 0;
    if s == "01" {
      assert s[..1] == "0";
      assert Value(s) == 1;
    }
  }
}
