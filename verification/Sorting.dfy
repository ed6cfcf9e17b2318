/** Sorting by a comparison function. `Sort` stands for the library's sort; where the
    comparison orders the elements strictly, every sort gives the same result. `SortsAgreeExactly`
    says what sorting forgets and `FilterSort` that it commutes with selecting. */
module Sorting {
  function Insert<T>(less: (T, T) -> bool, x: T, s: seq<T>): seq<T> {
    if s == [] || !less(s[0], x) then [x] + s else [s[0]] + Insert(less, x, s[1..])
  }

  function Sort<T>(less: (T, T) -> bool, s: seq<T>): seq<T> {
    if s == [] then [] else Insert(less, s[0], Sort(less, s[1..]))
  }

  /** `less` is a strict total order on `domain`. */
  ghost predicate TotalOn<T(!new)>(less: (T, T) -> bool, domain: set<T>) {
    && (forall x | x in domain :: !less(x, x))
    && (forall x, y, z | x in domain && y in domain && z in domain && less(x, y) && less(y, z) :: less(x, z))
    && (forall x, y | x in domain && y in domain :: x == y || less(x, y) || less(y, x))
  }

  ghost predicate AllIn<T(!new)>(s: seq<T>, domain: set<T>) {
    forall i | 0 <= i < |s| :: s[i] in domain
  }

  predicate NoneBelow<T>(less: (T, T) -> bool, x: T, s: seq<T>) {
    forall j | 0 <= j < |s| :: !less(s[j], x)
  }

  predicate Sorted<T>(less: (T, T) -> bool, s: seq<T>) {
    s == [] || (NoneBelow(less, s[0], s[1..]) && Sorted(less, s[1..]))
  }

  lemma {:induction false} SortedPairs<T>(less: (T, T) -> bool, s: seq<T>, i: nat, j: nat)
    requires Sorted(less, s) && i < j < |s|
    ensures !less(s[j], s[i])
  {
    if i == 0 {
      assert s[1..][j - 1] == s[j];
    } else {
      SortedPairs(less, s[1..], i - 1, j - 1);
    }
  }

  lemma {:induction false} InsertPermutes<T>(less: (T, T) -> bool, x: T, s: seq<T>)
    ensures multiset(Insert(less, x, s)) == multiset{x} + multiset(s)
  {
    if s != [] && less(s[0], x) {
      InsertPermutes(less, x, s[1..]);
      assert s == [s[0]] + s[1..];
    }
  }

  lemma {:induction false} SortPermutes<T>(less: (T, T) -> bool, s: seq<T>)
    ensures multiset(Sort(less, s)) == multiset(s)
  {
    if s != [] {
      SortPermutes(less, s[1..]);
      InsertPermutes(less, s[0], Sort(less, s[1..]));
      assert s == [s[0]] + s[1..];
    }
  }

  lemma MembersAllIn<T(!new)>(s: seq<T>, t: seq<T>, domain: set<T>)
    requires multiset(s) == multiset(t) && AllIn(s, domain)
    ensures AllIn(t, domain)
  {
    forall i | 0 <= i < |t| ensures t[i] in domain {
      assert t[i] in multiset(s);
    }
  }

  lemma {:induction false} InsertKeepsAbove<T(!new)>(less: (T, T) -> bool, low: T, x: T, s: seq<T>)
    requires NoneBelow(less, low, s) && !less(x, low)
    ensures NoneBelow(less, low, Insert(less, x, s))
  {
    if s != [] && less(s[0], x) {
      InsertKeepsAbove(less, low, x, s[1..]);
    }
  }

  lemma HeadIsLeast<T(!new)>(less: (T, T) -> bool, x: T, s: seq<T>, domain: set<T>)
    requires TotalOn(less, domain) && x in domain && AllIn(s, domain)
    requires Sorted(less, s) && s != [] && !less(s[0], x)
    ensures NoneBelow(less, x, s)
  {
    forall j | 0 <= j < |s| ensures !less(s[j], x) {
      if j > 0 {
        assert s[1..][j - 1] == s[j];
        assert s[0] in domain && s[j] in domain;
      }
    }
  }

  lemma {:induction false} InsertSorts<T(!new)>(less: (T, T) -> bool, x: T, s: seq<T>, domain: set<T>)
    requires TotalOn(less, domain) && x in domain && AllIn(s, domain) && Sorted(less, s)
    ensures Sorted(less, Insert(less, x, s))
  {
    hide TotalOn;
    if s != [] && !less(s[0], x) {
      HeadIsLeast(less, x, s, domain);
      assert ([x] + s)[1..] == s;
    } else if s != [] {
      InsertSorts(less, x, s[1..], domain);
      Asymmetric(less, s[0], x, domain);
      InsertKeepsAbove(less, s[0], x, s[1..]);
      assert Insert(less, x, s)[1..] == Insert(less, x, s[1..]);
    }
  }

  lemma Asymmetric<T(!new)>(less: (T, T) -> bool, x: T, y: T, domain: set<T>)
    requires TotalOn(less, domain) && x in domain && y in domain && less(x, y)
    ensures !less(y, x)
  {
  }

  lemma {:induction false} SortSorts<T(!new)>(less: (T, T) -> bool, s: seq<T>, domain: set<T>)
    requires TotalOn(less, domain) && AllIn(s, domain)
    ensures Sorted(less, Sort(less, s))
  {
    hide TotalOn, Sorted;
    if s == [] {
      EmptySorted(less);
    } else {
      SortSorts(less, s[1..], domain);
      SortPermutes(less, s[1..]);
      MembersAllIn(s[1..], Sort(less, s[1..]), domain);
      InsertSorts(less, s[0], Sort(less, s[1..]), domain);
    }
  }

  lemma EmptySorted<T>(less: (T, T) -> bool)
    ensures Sorted(less, [])
  {
  }

  lemma SameHead<T(!new)>(less: (T, T) -> bool, a: seq<T>, b: seq<T>, domain: set<T>)
    requires TotalOn(less, domain) && AllIn(a, domain)
    requires Sorted(less, a) && Sorted(less, b) && multiset(a) == multiset(b) && a != [] && b != []
    ensures a[0] == b[0]
  {
    assert a[0] in multiset(b) && b[0] in multiset(a);
    var i :| 0 <= i < |b| && b[i] == a[0];
    var j :| 0 <= j < |a| && a[j] == b[0];
    if i > 0 { SortedPairs(less, b, 0, i); }
    if j > 0 { SortedPairs(less, a, 0, j); }
  }

  lemma TakeOut<T>(s: seq<T>, i: nat)
    requires i < |s|
    ensures multiset(s) == multiset{s[i]} + multiset(s[..i] + s[i + 1..])
  {
    assert s == s[..i] + ([s[i]] + s[i + 1..]);
  }

  lemma SameAfterTaking<T>(a: seq<T>, b: seq<T>, i: nat)
    requires a != [] && i < |b| && b[i] == a[0] && multiset(a) == multiset(b)
    ensures multiset(a[1..]) == multiset(b[..i] + b[i + 1..])
  {
    TakeOut(b, i);
    TakeOut(a, 0);
    assert a[..0] + a[0 + 1..] == a[1..];
    Cancel(multiset{a[0]}, multiset(a[1..]), multiset(b[..i] + b[i + 1..]));
  }

  lemma Cancel<T>(x: multiset<T>, a: multiset<T>, b: multiset<T>)
    requires x + a == x + b
    ensures a == b
  {
    assert a == (x + a) - x && b == (x + b) - x;
  }

  lemma Tails<T(!new)>(less: (T, T) -> bool, a: seq<T>, b: seq<T>, domain: set<T>)
    requires Sorted(less, a) && Sorted(less, b) && AllIn(a, domain) && multiset(a) == multiset(b)
    requires a != [] && b != [] && a[0] == b[0]
    ensures Sorted(less, a[1..]) && Sorted(less, b[1..]) && AllIn(a[1..], domain) &&
            multiset(a[1..]) == multiset(b[1..])
  {
    SameTails(a, b);
  }

  lemma SameTails<T>(a: seq<T>, b: seq<T>)
    requires a != [] && b != [] && a[0] == b[0] && multiset(a) == multiset(b)
    ensures multiset(a[1..]) == multiset(b[1..])
  {
    assert a == [a[0]] + a[1..] && b == [b[0]] + b[1..];
    Cancel(multiset{a[0]}, multiset(a[1..]), multiset(b[1..]));
  }

  /** Two sorted permutations of each other are equal. */
  lemma {:induction false} SortedUnique<T(!new)>(less: (T, T) -> bool, a: seq<T>, b: seq<T>, domain: set<T>)
    requires TotalOn(less, domain) && AllIn(a, domain)
    requires Sorted(less, a) && Sorted(less, b) && multiset(a) == multiset(b)
    ensures a == b
  {
    hide TotalOn, Sorted, AllIn;
    assert |a| == |multiset(a)| && |b| == |multiset(b)|;
    if a != [] {
      SameHead(less, a, b, domain);
      Tails(less, a, b, domain);
      SortedUnique(less, a[1..], b[1..], domain);
      assert a == [a[0]] + a[1..] && b == [b[0]] + b[1..];
    }
  }

  /** Whatever way `result` was sorted, it is `Sort`'s result. */
  lemma AnySortAgrees<T(!new)>(less: (T, T) -> bool, s: seq<T>, result: seq<T>, domain: set<T>)
    requires TotalOn(less, domain) && AllIn(s, domain) && multiset(result) == multiset(s) && Sorted(less, result)
    ensures result == Sort(less, s)
  {
    hide TotalOn, Sorted, Sort;
    SortPermutes(less, s);
    SortSorts(less, s, domain);
    MembersAllIn(s, result, domain);
    SortedUnique(less, result, Sort(less, s), domain);
  }

  /** Sorting forgets the order and nothing else. */
  lemma SortsAgreeExactly<T(!new)>(less: (T, T) -> bool, a: seq<T>, b: seq<T>, domain: set<T>)
    requires TotalOn(less, domain) && AllIn(a, domain)
    ensures Sort(less, a) == Sort(less, b) <==> multiset(a) == multiset(b)
  {
    hide TotalOn, Sorted, Sort;
    SortPermutes(less, a);
    SortPermutes(less, b);
    if multiset(a) == multiset(b) {
      MembersAllIn(a, b, domain);
      SortSorts(less, b, domain);
      AnySortAgrees(less, a, Sort(less, b), domain);
    }
  }

  // ---------------------------------------------------------------- mapping a list

  function Map<S, T>(f: S -> T, s: seq<S>): seq<T> {
    if s == [] then [] else [f(s[0])] + Map(f, s[1..])
  }

  function Elements<T>(s: seq<T>): set<T> {
    set x | x in s
  }

  lemma {:induction false} MapIndex<S, T>(f: S -> T, s: seq<S>)
    ensures |Map(f, s)| == |s| && forall i | 0 <= i < |s| :: Map(f, s)[i] == f(s[i])
  {
    if s != [] {
      MapIndex(f, s[1..]);
    }
  }

  lemma {:induction false} MapAppend<S, T>(f: S -> T, a: seq<S>, b: seq<S>)
    ensures Map(f, a + b) == Map(f, a) + Map(f, b)
  {
    if a == [] {
      assert a + b == b;
    } else {
      assert (a + b)[1..] == a[1..] + b;
      MapAppend(f, a[1..], b);
    }
  }

  lemma MapCons<S, T>(f: S -> T, x: S, s: seq<S>)
    ensures Map(f, [x] + s) == [f(x)] + Map(f, s)
  {
    assert ([x] + s)[1..] == s;
  }

  lemma MapSplit<S, T>(f: S -> T, s: seq<S>, i: nat)
    requires i < |s|
    ensures Map(f, s) == Map(f, s[..i]) + ([f(s[i])] + Map(f, s[i + 1..]))
  {
    hide Map;
    assert s == s[..i] + ([s[i]] + s[i + 1..]);
    MapAppend(f, s[..i], [s[i]] + s[i + 1..]);
    MapCons(f, s[i], s[i + 1..]);
  }

  lemma MapTakeOut<S, T>(f: S -> T, s: seq<S>, i: nat)
    requires i < |s|
    ensures multiset(Map(f, s)) == multiset{f(s[i])} + multiset(Map(f, s[..i] + s[i + 1..]))
  {
    hide Map;
    MapSplit(f, s, i);
    MapAppend(f, s[..i], s[i + 1..]);
  }

  /** A permutation of the list permutes what it is mapped to. */
  lemma {:induction false} MapPermutes<S, T>(f: S -> T, a: seq<S>, b: seq<S>)
    requires multiset(a) == multiset(b)
    ensures multiset(Map(f, a)) == multiset(Map(f, b))
  {
    assert |a| == |b| by { assert |multiset(a)| == |multiset(b)|; }
    if a != [] {
      assert a[0] in multiset(b);
      var i :| 0 <= i < |b| && b[i] == a[0];
      var x, y := a[1..], b[..i] + b[i + 1..];
      SameAfterTaking(a, b, i);
      MapPermutes(f, x, y);
      MapTakeOut(f, b, i);
    }
  }

  // ---------------------------------------------------------------- filtering a list

  function Filter<T>(p: T -> bool, s: seq<T>): seq<T> {
    if s == [] then [] else (if p(s[0]) then [s[0]] else []) + Filter(p, s[1..])
  }

  lemma {:induction false} FilterCounts<T>(p: T -> bool, s: seq<T>, x: T)
    ensures multiset(Filter(p, s))[x] == if p(x) then multiset(s)[x] else 0
  {
    if s != [] {
      FilterCounts(p, s[1..], x);
      assert s == [s[0]] + s[1..];
    }
  }

  lemma FilterPermutes<T(!new)>(p: T -> bool, a: seq<T>, b: seq<T>)
    requires multiset(a) == multiset(b)
    ensures multiset(Filter(p, a)) == multiset(Filter(p, b))
  {
    forall x ensures multiset(Filter(p, a))[x] == multiset(Filter(p, b))[x] {
      FilterCounts(p, a, x);
      FilterCounts(p, b, x);
    }
  }

  lemma {:induction false} FilterAppend<T>(p: T -> bool, a: seq<T>, b: seq<T>)
    ensures Filter(p, a + b) == Filter(p, a) + Filter(p, b)
  {
    if a == [] {
      assert a + b == b;
    } else {
      var head := if p(a[0]) then [a[0]] else [];
      assert (a + b)[0] == a[0] && (a + b)[1..] == a[1..] + b;
      FilterAppend(p, a[1..], b);
      assert head + (Filter(p, a[1..]) + Filter(p, b)) == head + Filter(p, a[1..]) + Filter(p, b);
    }
  }

  lemma FilterSnoc<T>(p: T -> bool, s: seq<T>, i: nat)
    requires i < |s|
    ensures Filter(p, s[..i + 1]) == Filter(p, s[..i]) + (if p(s[i]) then [s[i]] else [])
  {
    assert s[..i + 1] == s[..i] + [s[i]];
    FilterAppend(p, s[..i], [s[i]]);
    assert [s[i]][1..] == [];
  }

  // ---------------------------------------------------------------- stable sorting

  /** The first of the least elements. */
  function First<T>(less: (T, T) -> bool, s: seq<T>): T
    requires s != []
  {
    if |s| == 1 then s[0]
    else
      var rest := First(less, s[1..]);
      if less(rest, s[0]) then rest else s[0]
  }

  lemma {:induction false} HeadOfSort<T>(less: (T, T) -> bool, s: seq<T>)
    requires s != []
    ensures Sort(less, s) != [] && Sort(less, s)[0] == First(less, s)
  {
    if |s| > 1 {
      HeadOfSort(less, s[1..]);
    }
  }

  function ByKey<T>(key: T -> int): (T, T) -> bool {
    (a, b) => key(a) < key(b)
  }

  lemma ByKeyCompares<T>(key: T -> int, a: T, b: T)
    ensures ByKey(key)(a, b) <==> key(a) < key(b)
  {
  }

  lemma {:induction false} FilterInsert<T>(p: T -> bool, key: T -> int, x: T, s: seq<T>)
    requires Sorted(ByKey(key), s)
    ensures Filter(p, Insert(ByKey(key), x, s)) == if p(x) then Insert(ByKey(key), x, Filter(p, s)) else Filter(p, s)
  {
    var less := ByKey(key);
    if s == [] || !less(s[0], x) {
      assert ([x] + s)[1..] == s;
      if p(x) {
        FilterAbove(p, key, x, s);
      }
    } else {
      FilterInsert(p, key, x, s[1..]);
      var inserted := Insert(less, x, s);
      assert inserted[0] == s[0] && inserted[1..] == Insert(less, x, s[1..]);
      if p(s[0]) {
        var filtered := Filter(p, s);
        assert filtered[0] == s[0] && filtered[1..] == Filter(p, s[1..]);
      } else {
        assert Filter(p, s) == Filter(p, s[1..]) && Filter(p, inserted) == Filter(p, inserted[1..]);
      }
    }
  }

  lemma {:induction false} FilterAbove<T>(p: T -> bool, key: T -> int, x: T, s: seq<T>)
    requires Sorted(ByKey(key), s) && (s != [] ==> key(s[0]) >= key(x))
    ensures Filter(p, s) != [] ==> key(Filter(p, s)[0]) >= key(x)
  {
    if s != [] && !p(s[0]) {
      if |s| > 1 {
        SortedPairs(ByKey(key), s, 0, 1);
      }
      FilterAbove(p, key, x, s[1..]);
    }
  }

  lemma {:induction false} KeySorts<T(!new)>(key: T -> int, s: seq<T>)
    ensures Sorted(ByKey(key), Sort(ByKey(key), s))
  {
    if s != [] {
      KeySorts(key, s[1..]);
      KeyInserts(key, s[0], Sort(ByKey(key), s[1..]));
    }
  }

  lemma {:induction false} KeyInserts<T(!new)>(key: T -> int, x: T, s: seq<T>)
    requires Sorted(ByKey(key), s)
    ensures Sorted(ByKey(key), Insert(ByKey(key), x, s))
  {
    var less := ByKey(key);
    if s != [] && less(s[0], x) {
      KeyInserts(key, x, s[1..]);
      InsertKeepsAbove(less, s[0], x, s[1..]);
      assert Insert(less, x, s)[1..] == Insert(less, x, s[1..]);
    } else {
      assert ([x] + s)[1..] == s;
      forall j | 0 <= j < |s| ensures !less(s[j], x) {
        if j > 0 { SortedPairs(less, s, 0, j); }
      }
    }
  }

  /** A stable sort keeps the order of any selection: selecting and sorting commute. */
  lemma {:induction false} FilterSort<T(!new)>(p: T -> bool, key: T -> int, s: seq<T>)
    ensures Filter(p, Sort(ByKey(key), s)) == Sort(ByKey(key), Filter(p, s))
  {
    if s != [] {
      FilterSort(p, key, s[1..]);
      KeySorts(key, s[1..]);
      FilterInsert(p, key, s[0], Sort(ByKey(key), s[1..]));
      if p(s[0]) {
        assert Filter(p, s)[0] == s[0] && Filter(p, s)[1..] == Filter(p, s[1..]);
      } else {
        assert Filter(p, s) == Filter(p, s[1..]);
      }
    }
  }
}
