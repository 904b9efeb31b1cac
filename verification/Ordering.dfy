/** Orders and sorting: what Python's `sorted` and `list.sort` deliver on strings, sets and keyed records. */
module Ordering {

  /** Python's `<=` on `str`: lexicographic by code point. */
  predicate StrLe(a: string, b: string) {
    if a == "" then true
    else if b == "" then false
    else a[0] < b[0] || (a[0] == b[0] && StrLe(a[1..], b[1..]))
  }

  lemma {:induction false} StrLeTotal(a: string, b: string)
    ensures StrLe(a, b) || StrLe(b, a)
  {
    if a != "" && b != "" && a[0] == b[0] {
      StrLeTotal(a[1..], b[1..]);
    }
  }

  lemma {:induction false} StrLeAntisymmetric(a: string, b: string)
    requires StrLe(a, b) && StrLe(b, a)
    ensures a == b
  {
    if a != "" && b != "" {
      StrLeAntisymmetric(a[1..], b[1..]);
      assert a == [a[0]] + a[1..] && b == [b[0]] + b[1..];
    }
  }

  lemma {:induction false} StrLeTransitive(a: string, b: string, c: string)
    requires StrLe(a, b) && StrLe(b, c)
    ensures StrLe(a, c)
  {
    if a != "" && b != "" && c != "" && a[0] == b[0] == c[0] {
      StrLeTransitive(a[1..], b[1..], c[1..]);
    }
  }

  /** The texts agree up to `k`, where the first ends or has the lesser character. */
  predicate LessAt(a: string, b: string, k: int) {
    0 <= k <= |a| && k <= |b| && a[..k] == b[..k] && (k == |a| || (k < |b| && a[k] < b[k]))
  }

  lemma {:induction false} StrLeIff(a: string, b: string)
    ensures StrLe(a, b) <==> exists k :: LessAt(a, b, k)
  {
    if a == "" {
      assert LessAt(a, b, 0);
    } else if b != "" {
      StrLeIff(a[1..], b[1..]);
      if a[0] < b[0] {
        assert LessAt(a, b, 0);
      } else if a[0] == b[0] && StrLe(a[1..], b[1..]) {
        var k :| LessAt(a[1..], b[1..], k);
        assert a[..k + 1] == [a[0]] + a[1..][..k] && b[..k + 1] == [b[0]] + b[1..][..k];
        assert LessAt(a, b, k + 1);
      }
      if k :| LessAt(a, b, k) {
        if k > 0 {
          assert a[0] == a[..k][0] == b[..k][0] == b[0];
          assert a[1..][..k - 1] == a[..k][1..] && b[1..][..k - 1] == b[..k][1..];
          assert LessAt(a[1..], b[1..], k - 1);
        }
      }
    }
  }

  ghost predicate TotalOrder<T(!new)>(le: (T, T) -> bool) {
    && (forall x, y :: le(x, y) || le(y, x))
    && (forall x, y, z :: le(x, y) && le(y, z) ==> le(x, z))
  }

  ghost predicate SortedBy<T>(le: (T, T) -> bool, s: seq<T>) {
    forall i, j :: 0 <= i < j < |s| ==> le(s[i], s[j])
  }

  predicate Distinct<T(==)>(s: seq<T>) {
    forall i, j :: 0 <= i < j < |s| ==> s[i] != s[j]
  }

  function Elements<T>(s: seq<T>): set<T> {
    set x | x in s
  }

  /** `list.index`: the first position of a member. */
  function IndexOf<T(==)>(s: seq<T>, x: T): (k: nat)
    requires x in s
    ensures k < |s| && s[k] == x && x !in s[..k]
  {
    if s[0] == x then 0
    else
      var k := 1 + IndexOf(s[1..], x);
      assert s[..k] == [s[0]] + s[1..][..k - 1];
      k
  }

  lemma CountWith<T>(s: set<T>, x: T)
    ensures |s + {x}| == |s| + if x in s then 0 else 1
  {
    if x in s { assert s + {x} == s; }
  }

  lemma StrLeTotalOrder()
    ensures TotalOrder(StrLe)
  {
    forall x, y ensures StrLe(x, y) || StrLe(y, x) { StrLeTotal(x, y); }
    forall x, y, z | StrLe(x, y) && StrLe(y, z) ensures StrLe(x, z) { StrLeTransitive(x, y, z); }
  }

  // ----- sorting a list

  function Insert<T>(le: (T, T) -> bool, x: T, s: seq<T>): (r: seq<T>)
    ensures multiset(r) == multiset(s) + multiset{x}
  {
    if s == [] then [x]
    else if le(x, s[0]) then [x] + s
    else
      var r := [s[0]] + Insert(le, x, s[1..]);
      assert s == [s[0]] + s[1..];
      r
  }

  /** `sorted(s)`: a stable sort by the given order. */
  function Sort<T>(le: (T, T) -> bool, s: seq<T>): (r: seq<T>)
    ensures multiset(r) == multiset(s)
  {
    if s == [] then []
    else
      assert s == [s[0]] + s[1..];
      Insert(le, s[0], Sort(le, s[1..]))
  }

  lemma {:induction false} InsertKeepsSorted<T(!new)>(le: (T, T) -> bool, x: T, s: seq<T>)
    requires TotalOrder(le) && SortedBy(le, s)
    ensures SortedBy(le, Insert(le, x, s))
  {
    if s != [] && !le(x, s[0]) {
      InsertKeepsSorted(le, x, s[1..]);
      var tail := Insert(le, x, s[1..]);
      forall y | y in tail ensures le(s[0], y) {
        assert y in multiset(tail);
        assert y == x || y in s[1..];
      }
    }
  }

  lemma {:induction false} SortSorts<T(!new)>(le: (T, T) -> bool, s: seq<T>)
    requires TotalOrder(le)
    ensures SortedBy(le, Sort(le, s))
  {
    if s != [] {
      SortSorts(le, s[1..]);
      InsertKeepsSorted(le, s[0], Sort(le, s[1..]));
    }
  }

  lemma SameFirst<T(!new)>(le: (T, T) -> bool, a: seq<T>, b: seq<T>)
    requires SortedBy(le, a) && SortedBy(le, b) && a != [] && multiset(a) == multiset(b)
    requires forall x, y :: x in a && y in a && le(x, y) && le(y, x) ==> x == y
    ensures b != [] && a[0] == b[0]
  {
    assert a[0] in multiset(b);
    assert b[0] in multiset(a);
  }

  lemma SameRest<T>(a: seq<T>, b: seq<T>)
    requires a != [] && b != [] && a[0] == b[0] && multiset(a) == multiset(b)
    ensures multiset(a[1..]) == multiset(b[1..])
  {
    assert a == [a[0]] + a[1..] && b == [b[0]] + b[1..];
    assert multiset(a[1..]) == multiset(a) - multiset{a[0]};
    assert multiset(b[1..]) == multiset(b) - multiset{b[0]};
  }

  /** A sorted arrangement is unique as soon as the order tells the elements apart. */
  lemma {:induction false} SortedUnique<T(!new)>(le: (T, T) -> bool, a: seq<T>, b: seq<T>)
    requires SortedBy(le, a) && SortedBy(le, b)
    requires multiset(a) == multiset(b)
    requires forall x, y :: x in a && y in a && le(x, y) && le(y, x) ==> x == y
    ensures a == b
  {
    assert |multiset(a)| == |a| && |multiset(b)| == |b|;
    if a != [] {
      SameFirst(le, a, b);
      SameRest(a, b);
      SortedUnique(le, a[1..], b[1..]);
      assert a == [a[0]] + a[1..] && b == [b[0]] + b[1..];
    }
  }

  lemma SortHasSameElements<T>(le: (T, T) -> bool, s: seq<T>)
    ensures |Sort(le, s)| == |s|
    ensures forall x :: x in Sort(le, s) <==> x in s
  {
    var r := Sort(le, s);
    assert |multiset(r)| == |multiset(s)|;
    forall x ensures x in r <==> x in s {
      assert x in multiset(r) <==> x in multiset(s);
    }
  }

  // ----- a loop that appends what each element gives

  function FlatMap<A, B>(f: A -> seq<B>, s: seq<A>): seq<B> {
    if s == [] then [] else FlatMap(f, s[..|s| - 1]) + f(s[|s| - 1])
  }

  lemma {:induction false} FlatMapAppend<A, B>(f: A -> seq<B>, a: seq<A>, b: seq<A>)
    ensures FlatMap(f, a + b) == FlatMap(f, a) + FlatMap(f, b)
    decreases |b|
  {
    if b == [] {
      assert a + b == a;
    } else {
      var n := |b| - 1;
      assert (a + b)[..|a + b| - 1] == a + b[..n] && (a + b)[|a + b| - 1] == b[n];
      FlatMapAppend(f, a, b[..n]);
    }
  }

  lemma FlatMapAppendOne<A, B>(f: A -> seq<B>, s: seq<A>, x: A)
    ensures FlatMap(f, s + [x]) == FlatMap(f, s) + f(x)
  {
    assert (s + [x])[..|s|] == s;
  }

  lemma MiddleOut<B>(p: seq<B>, x: seq<B>, r: seq<B>)
    ensures multiset(p + (x + r)) == multiset(p + r) + multiset(x)
  {
  }

  lemma FlatMapMiddle<A, B>(f: A -> seq<B>, p: seq<A>, x: A, r: seq<A>)
    ensures multiset(FlatMap(f, (p + [x]) + r)) == multiset(FlatMap(f, p + r)) + multiset(f(x))
  {
    FlatMapAppend(f, p + [x], r);
    FlatMapAppendOne(f, p, x);
    FlatMapAppend(f, p, r);
    MiddleOut(FlatMap(f, p), f(x), FlatMap(f, r));
    SeqAssociates(FlatMap(f, p), f(x), FlatMap(f, r));
  }

  lemma SeqAssociates<B>(p: seq<B>, x: seq<B>, r: seq<B>)
    ensures (p + x) + r == p + (x + r)
  {
  }

  lemma FlatMapSplit<A, B>(f: A -> seq<B>, s: seq<A>, k: nat)
    requires k < |s|
    ensures multiset(FlatMap(f, s)) == multiset(FlatMap(f, Without(s, k))) + multiset(f(s[k]))
  {
    PartsOf(s, k);
    FlatMapMiddle(f, s[..k], s[k], s[k + 1..]);
  }

  lemma PartsOf<A>(s: seq<A>, k: nat)
    requires k < |s|
    ensures (s[..k] + [s[k]]) + s[k + 1..] == s
  {
  }

  function Without<A>(s: seq<A>, k: nat): seq<A>
    requires k < |s|
  {
    s[..k] + s[k + 1..]
  }

  lemma WithoutOne<A>(s: seq<A>, k: nat)
    requires k < |s|
    ensures multiset(Without(s, k)) == multiset(s) - multiset{s[k]}
  {
    assert s == s[..k] + [s[k]] + s[k + 1..];
  }

  /** Such a loop commutes with rearranging its input. */
  lemma {:induction false} FlatMapOfPermutation<A, B>(f: A -> seq<B>, a: seq<A>, b: seq<A>)
    requires multiset(a) == multiset(b)
    ensures multiset(FlatMap(f, a)) == multiset(FlatMap(f, b))
    decreases |a|
  {
    assert |multiset(a)| == |a| && |multiset(b)| == |b|;
    if a == [] {
      assert b == [];
    } else {
      assert a[0] in multiset(b);
      var k :| 0 <= k < |b| && b[k] == a[0];
      WithoutOne(a, 0);
      WithoutOne(b, k);
      FlatMapOfPermutation(f, Without(a, 0), Without(b, k));
      FlatMapSplit(f, a, 0);
      FlatMapSplit(f, b, k);
    }
  }

  lemma {:induction false} FlatMapMembers<A, B>(f: A -> seq<B>, s: seq<A>, y: B)
    ensures y in FlatMap(f, s) <==> exists x :: x in s && y in f(x)
  {
    if s != [] {
      FlatMapMembers(f, s[..|s| - 1], y);
      assert s == s[..|s| - 1] + [s[|s| - 1]];
    }
  }

  lemma {:induction false} FlatMapAgrees<A, B>(f: A -> seq<B>, g: A -> seq<B>, s: seq<A>)
    requires forall x :: x in s ==> f(x) == g(x)
    ensures FlatMap(f, s) == FlatMap(g, s)
  {
    if s != [] {
      FlatMapAgrees(f, g, s[..|s| - 1]);
    }
  }

  lemma {:induction false} FlatMapAlong<A, B, C>(f: A -> seq<C>, s: seq<A>, g: B -> seq<C>, t: seq<B>)
    requires |s| == |t| && forall i :: 0 <= i < |s| ==> f(s[i]) == g(t[i])
    ensures FlatMap(f, s) == FlatMap(g, t)
  {
    if s != [] {
      FlatMapAlong(f, s[..|s| - 1], g, t[..|t| - 1]);
    }
  }

  lemma {:induction false} FlatMapEmptyIff<A, B>(f: A -> seq<B>, s: seq<A>)
    ensures FlatMap(f, s) == [] <==> forall x :: x in s ==> f(x) == []
  {
    if s != [] {
      FlatMapEmptyIff(f, s[..|s| - 1]);
      assert s == s[..|s| - 1] + [s[|s| - 1]];
    }
  }

  lemma DistinctConcat<T>(a: seq<T>, b: seq<T>)
    requires Distinct(a) && Distinct(b) && forall x :: x in a ==> x !in b
    ensures Distinct(a + b)
  {
    var c := a + b;
    forall i, j | 0 <= i < j < |c| ensures c[i] != c[j] {
      if i < |a| <= j {
        assert c[i] in a && c[j] in b;
      }
    }
  }

  /** It repeats nothing if no element gives anything twice, nor two elements the same. */
  lemma {:induction false} FlatMapDistinct<A, B(!new)>(f: A -> seq<B>, s: seq<A>)
    requires Distinct(s) && forall x :: x in s ==> Distinct(f(x))
    requires forall x, y, b :: x in s && y in s && b in f(x) && b in f(y) ==> x == y
    ensures Distinct(FlatMap(f, s))
  {
    if s != [] {
      var init, last := s[..|s| - 1], s[|s| - 1];
      assert s == init + [last] && last !in init;
      FlatMapDistinct(f, init);
      forall b | b in FlatMap(f, init) ensures b !in f(last) {
        FlatMapMembers(f, init, b);
      }
      DistinctConcat(FlatMap(f, init), f(last));
    }
  }

  // ----- sorting a set

  predicate IsLeast(x: string, s: set<string>) {
    x in s && forall y | y in s :: StrLe(x, y)
  }

  lemma {:induction false} FindLeast(s: set<string>) returns (x: string)
    requires s != {}
    ensures IsLeast(x, s)
  {
    x :| x in s;
    StrLeTotal(x, x);
    var rest := s - {x};
    if rest == {} {
      assert s == {x};
    } else {
      var m := FindLeast(rest);
      if StrLe(x, m) {
        forall y | y in s ensures StrLe(x, y) {
          if y != x { StrLeTransitive(x, m, y); }
        }
      } else {
        StrLeTotal(x, m);
        assert forall y :: y in s ==> y == x || y in rest;
        x := m;
      }
    }
  }

  lemma LeastIsUnique(s: set<string>)
    requires s != {}
    ensures exists x :: x in s && IsLeast(x, s)
    ensures forall x, y :: IsLeast(x, s) && IsLeast(y, s) ==> x == y
  {
    var _ := FindLeast(s);
    forall x, y | IsLeast(x, s) && IsLeast(y, s) ensures x == y {
      StrLeAntisymmetric(x, y);
    }
  }

  function Least(s: set<string>): (x: string)
    requires s != {}
    ensures x in s
  {
    LeastIsUnique(s);
    var x :| x in s && IsLeast(x, s);
    x
  }

  /** `sorted(s)` for a set of names. */
  function SortSet(s: set<string>): (r: seq<string>)
    ensures |r| == |s|
    ensures forall x :: x in r <==> x in s
    ensures Distinct(r)
  {
    if s == {} then [] else [Least(s)] + SortSet(s - {Least(s)})
  }

  lemma {:induction false} SortSetSorts(s: set<string>)
    ensures SortedBy(StrLe, SortSet(s))
  {
    if s != {} {
      var x := Least(s);
      SortSetSorts(s - {x});
      assert IsLeast(x, s);
      forall y | y in SortSet(s - {x}) ensures StrLe(x, y) {
        assert y in s;
      }
    }
  }

  lemma {:induction false} ChainSorted(names: seq<string>)
    requires forall i :: 0 <= i < |names| - 1 ==> StrLe(names[i], names[i + 1])
    ensures SortedBy(StrLe, names)
  {
    if names != [] {
      var rest := names[1..];
      assert forall i :: 0 <= i < |rest| ==> rest[i] == names[i + 1];
      ChainSorted(rest);
      forall j | 0 < j < |names| ensures StrLe(names[0], names[j]) {
        if j > 1 {
          assert StrLe(rest[0], rest[j - 1]);
          StrLeTransitive(names[0], names[1], names[j]);
        }
      }
      forall i, j | 0 <= i < j < |names| ensures StrLe(names[i], names[j]) {
        if i > 0 {
          assert StrLe(rest[i - 1], rest[j - 1]);
        }
      }
    }
  }

  /** A strictly sorted list of a set's members is its sorted list. */
  lemma {:induction false} SortSetIs(s: set<string>, names: seq<string>)
    requires SortedBy(StrLe, names) && Distinct(names) && forall x :: x in names <==> x in s
    ensures SortSet(s) == names
  {
    if names == [] {
      assert s == {};
    } else {
      assert names[0] in names;
      forall y | y in s ensures StrLe(names[0], y) {
        assert y in names;
        var i :| 0 <= i < |names| && names[i] == y;
        if i == 0 {
          StrLeTotal(y, y);
        }
      }
      assert IsLeast(names[0], s);
      assert Least(s) == names[0] by {
        StrLeAntisymmetric(Least(s), names[0]);
      }
      assert names == [names[0]] + names[1..];
      SortSetIs(s - {names[0]}, names[1..]);
    }
  }
}
