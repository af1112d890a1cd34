/** Stable sorting by a total order, and the lexicographic order on sequences of numbers. */
module Sorting {
  type Order<!T> = (T, T) -> bool

  ghost predicate TotalPreorder<T(!new)>(le: Order<T>) {
    && (forall a, b :: le(a, b) || le(b, a))
    && (forall a, b, c :: le(a, b) && le(b, c) ==> le(a, c))
  }

  ghost predicate IsSorted<T>(le: Order<T>, s: seq<T>) {
    forall i, j :: 0 <= i < j < |s| ==> le(s[i], s[j])
  }

  function Insert<T>(le: Order<T>, x: T, s: seq<T>): (r: seq<T>)
    ensures |r| == |s| + 1
  {
    if s == [] || le(x, s[0]) then [x] + s else [s[0]] + Insert(le, x, s[1..])
  }

  /** Equal elements keep their order. */
  function Sort<T>(le: Order<T>, s: seq<T>): (r: seq<T>)
    ensures |r| == |s|
  {
    if s == [] then [] else Insert(le, s[0], Sort(le, s[1..]))
  }

  lemma {:induction false} InsertKeepsElements<T>(le: Order<T>, x: T, s: seq<T>)
    ensures multiset(Insert(le, x, s)) == multiset{x} + multiset(s)
  {
    if s != [] && !le(x, s[0]) {
      InsertKeepsElements(le, x, s[1..]);
      assert s == [s[0]] + s[1..];
    }
  }

  lemma {:induction false} SortKeepsElements<T>(le: Order<T>, s: seq<T>)
    ensures multiset(Sort(le, s)) == multiset(s)
  {
    if s != [] {
      SortKeepsElements(le, s[1..]);
      InsertKeepsElements(le, s[0], Sort(le, s[1..]));
      assert s == [s[0]] + s[1..];
    }
  }

  lemma {:induction false} InsertSorted<T(!new)>(le: Order<T>, x: T, s: seq<T>)
    requires TotalPreorder(le) && IsSorted(le, s)
    ensures IsSorted(le, Insert(le, x, s))
  {
    if s != [] && !le(x, s[0]) {
      var rest := Insert(le, x, s[1..]);
      InsertSorted(le, x, s[1..]);
      InsertKeepsElements(le, x, s[1..]);
      forall i | 0 <= i < |rest|
        ensures le(s[0], rest[i])
      {
        assert rest[i] in multiset(rest);
        if rest[i] != x {
          assert rest[i] in s[1..];
        }
      }
    }
  }

  lemma {:induction false} SortSorts<T(!new)>(le: Order<T>, s: seq<T>)
    requires TotalPreorder(le)
    ensures IsSorted(le, Sort(le, s))
  {
    if s != [] {
      SortSorts(le, s[1..]);
      InsertSorted(le, s[0], Sort(le, s[1..]));
    }
  }

  /** Sorting brings a least element to the front. */
  lemma {:induction false} SortFindsLeast<T(!new)>(le: Order<T>, s: seq<T>)
    requires TotalPreorder(le) && s != []
    ensures Sort(le, s)[0] in s
    ensures forall x :: x in s ==> le(Sort(le, s)[0], x)
  {
    var r := Sort(le, s);
    SortSorts(le, s);
    SortKeepsElements(le, s);
    assert r[0] in multiset(s);
    forall x | x in s
      ensures le(r[0], x)
    {
      assert x in multiset(r);
      var i :| 0 <= i < |r| && r[i] == x;
      assert le(r[0], r[0]);
    }
  }

  /** The order tells the elements of s apart. */
  /** a occurs, and b does not occur before it. */
  ghost predicate Leads<T>(s: seq<T>, a: T, b: T) {
    exists i :: 0 <= i < |s| && s[i] == a && b !in s[..i]
  }

  /** The sorted sequence starts with the first of the least elements. */
  lemma {:induction false} SortFindsFirstLeast<T(!new)>(le: Order<T>, s: seq<T>, x: T)
    requires TotalPreorder(le) && s != [] && x in s && le(x, Sort(le, s)[0])
    ensures Leads(s, Sort(le, s)[0], x)
  {
    var c := Sort(le, s)[0];
    if c == s[0] {
      assert s[..0] == [];
    } else {
      var rest := s[1..];
      assert s == [s[0]] + rest;
      assert Sort(le, rest) != [] && c == Sort(le, rest)[0] && !le(s[0], c);
      SortFindsFirstLeast(le, rest, x);
      LeadsLater(s, c, x);
    }
  }

  lemma {:induction false} LeadsLater<T>(s: seq<T>, a: T, b: T)
    requires s != [] && s[0] != b && Leads(s[1..], a, b)
    ensures Leads(s, a, b)
  {
    var i :| 0 <= i < |s[1..]| && s[1..][i] == a && b !in s[1..][..i];
    assert s[..i + 1] == [s[0]] + s[1..][..i];
    assert s[i + 1] == a;
  }

  ghost predicate AntisymmetricOn<T>(le: Order<T>, s: seq<T>) {
    forall x, y :: x in s && y in s && le(x, y) && le(y, x) ==> x == y
  }

  /** Such an order leaves one sorted arrangement. */
  lemma {:induction false} SortedUnique<T(!new)>(le: Order<T>, a: seq<T>, b: seq<T>)
    requires TotalPreorder(le) && AntisymmetricOn(le, a) && IsSorted(le, a) && IsSorted(le, b)
    requires multiset(a) == multiset(b)
    ensures a == b
  {
    assert |a| == |multiset(a)| == |multiset(b)| == |b|;
    if a != [] {
      SameHead(le, a, b);
      TailElements(a);
      TailElements(b);
      SortedUnique(le, a[1..], b[1..]);
    }
  }

  lemma {:induction false} TailElements<T(!new)>(a: seq<T>)
    requires a != []
    ensures multiset(a[1..]) == multiset(a) - multiset{a[0]}
    ensures forall x :: x in a[1..] ==> x in a
    ensures a == [a[0]] + a[1..]
  {
    assert a == [a[0]] + a[1..];
  }

  lemma {:induction false} SameHead<T(!new)>(le: Order<T>, a: seq<T>, b: seq<T>)
    requires TotalPreorder(le) && AntisymmetricOn(le, a) && IsSorted(le, a) && IsSorted(le, b)
    requires multiset(a) == multiset(b) && a != [] && b != []
    ensures a[0] == b[0]
  {
    assert a[0] in multiset(b) && b[0] in multiset(a);
    assert le(a[0], a[0]) && le(b[0], b[0]);
  }

  lemma {:induction false} SortIgnoresOrder<T(!new)>(le: Order<T>, a: seq<T>, b: seq<T>)
    requires TotalPreorder(le) && AntisymmetricOn(le, a)
    requires multiset(a) == multiset(b)
    ensures Sort(le, a) == Sort(le, b)
  {
    SortSorts(le, a);
    SortSorts(le, b);
    SortKeepsElements(le, a);
    SortKeepsElements(le, b);
    assert forall x :: x in Sort(le, a) <==> x in multiset(Sort(le, a));
    assert forall x :: x in a <==> x in multiset(a);
    SortedUnique(le, Sort(le, a), Sort(le, b));
  }

  /** Sorting again changes nothing. */
  lemma {:induction false} SortOfSorted<T>(le: Order<T>, s: seq<T>)
    requires IsSorted(le, s)
    ensures Sort(le, s) == s
  {
    if s != [] {
      SortOfSorted(le, s[1..]);
    }
  }

  /** The elements that the order does not tell apart from x, in their order in s. */
  ghost function Class<T>(le: Order<T>, s: seq<T>, x: T): seq<T> {
    if s == [] then [] else (if le(x, s[0]) && le(s[0], x) then [s[0]] else []) + Class(le, s[1..], x)
  }

  lemma {:induction false} InsertKeepsClasses<T(!new)>(le: Order<T>, x: T, s: seq<T>, y: T)
    requires TotalPreorder(le)
    ensures Class(le, Insert(le, x, s), y) == Class(le, [x] + s, y)
  {
    assert ([x] + s)[1..] == s;
    if s != [] && !le(x, s[0]) {
      InsertKeepsClasses(le, x, s[1..], y);
      assert ([x] + s[1..])[1..] == s[1..];
    }
  }

  /** Sorting is stable. */
  lemma {:induction false} SortKeepsClasses<T(!new)>(le: Order<T>, s: seq<T>, y: T)
    requires TotalPreorder(le)
    ensures Class(le, Sort(le, s), y) == Class(le, s, y)
  {
    if s != [] {
      var rest := Sort(le, s[1..]);
      SortKeepsClasses(le, s[1..], y);
      InsertKeepsClasses(le, s[0], rest, y);
      assert ([s[0]] + rest)[1..] == rest;
    }
  }

  lemma {:induction false} InOwnClass<T(!new)>(le: Order<T>, s: seq<T>, x: T)
    requires TotalPreorder(le) && Class(le, s, x) != []
    ensures exists y :: y in s && le(x, y) && le(y, x)
  {
    if !(le(x, s[0]) && le(s[0], x)) {
      InOwnClass(le, s[1..], x);
      var y :| y in s[1..] && le(x, y) && le(y, x);
      assert y in s;
    } else {
      assert s[0] in s;
    }
  }

  lemma {:induction false} HeadOfClass<T(!new)>(le: Order<T>, a: seq<T>, x: T)
    requires TotalPreorder(le) && IsSorted(le, a) && Class(le, a, x) != [] && a != [] && le(x, a[0])
    ensures le(a[0], x) && Class(le, a, x)[0] == a[0]
  {
    InOwnClass(le, a, x);
    var y :| y in a && le(x, y) && le(y, x);
    var i :| 0 <= i < |a| && a[i] == y;
    assert le(a[0], a[0]) && le(a[0], y);
  }

  /** The same elements in every class, in the same order. */
  ghost predicate SameClasses<T(!new)>(le: Order<T>, a: seq<T>, b: seq<T>) {
    forall x :: Class(le, a, x) == Class(le, b, x)
  }

  /** A sorted sequence is determined by its classes. */
  lemma {:induction false} SortedByClasses<T(!new)>(le: Order<T>, a: seq<T>, b: seq<T>)
    requires TotalPreorder(le) && IsSorted(le, a) && IsSorted(le, b)
    requires SameClasses(le, a, b)
    ensures a == b
  {
    if a != [] || b != [] {
      SameLeast(le, a, b);
      forall x
        ensures Class(le, a[1..], x) == Class(le, b[1..], x)
      {
        assert Class(le, a, x) == Class(le, b, x);
        TailOfClass(le, a, x);
        TailOfClass(le, b, x);
      }
      SortedByClasses(le, a[1..], b[1..]);
      assert a == [a[0]] + a[1..] && b == [b[0]] + b[1..];
    }
  }

  lemma {:induction false} TailOfClass<T>(le: Order<T>, a: seq<T>, x: T)
    requires a != []
    ensures le(x, a[0]) && le(a[0], x) ==> Class(le, a, x) != [] && Class(le, a, x)[1..] == Class(le, a[1..], x)
    ensures !(le(x, a[0]) && le(a[0], x)) ==> Class(le, a, x) == Class(le, a[1..], x)
  {
  }

  lemma {:induction false} SameLeast<T(!new)>(le: Order<T>, a: seq<T>, b: seq<T>)
    requires TotalPreorder(le) && IsSorted(le, a) && IsSorted(le, b) && (a != [] || b != [])
    requires SameClasses(le, a, b)
    ensures a != [] && b != [] && a[0] == b[0]
  {
    if a != [] {
      assert Class(le, a, a[0])[0] == a[0];
      assert Class(le, b, a[0]) != [];
    }
    if b != [] {
      assert Class(le, b, b[0])[0] == b[0];
      assert Class(le, a, b[0]) != [];
    }
    var x := if le(a[0], b[0]) then a[0] else b[0];
    assert le(x, a[0]) && le(x, b[0]);
    HeadOfClass(le, a, x);
    HeadOfClass(le, b, x);
  }

  lemma {:induction false} SortKeepsAllClasses<T(!new)>(le: Order<T>, s: seq<T>)
    requires TotalPreorder(le)
    ensures SameClasses(le, Sort(le, s), s)
  {
    forall x
      ensures Class(le, Sort(le, s), x) == Class(le, s, x)
    {
      SortKeepsClasses(le, s, x);
    }
  }

  lemma {:induction false} ClassesChain<T(!new)>(le: Order<T>, a: seq<T>, b: seq<T>, c: seq<T>)
    requires SameClasses(le, a, b)
    ensures SameClasses(le, b, c) <==> SameClasses(le, a, c)
  {
    if SameClasses(le, b, c) {
      forall x
        ensures Class(le, a, x) == Class(le, c, x)
      {
        assert Class(le, a, x) == Class(le, b, x) == Class(le, c, x);
      }
    }
    if SameClasses(le, a, c) {
      forall x
        ensures Class(le, b, x) == Class(le, c, x)
      {
        assert Class(le, a, x) == Class(le, b, x) && Class(le, a, x) == Class(le, c, x);
      }
    }
  }

  /** Two sequences sort to one exactly when they hold the same elements in every class, in the same order. */
  lemma {:induction false} SortEqualExactly<T(!new)>(le: Order<T>, a: seq<T>, b: seq<T>)
    requires TotalPreorder(le)
    ensures Sort(le, a) == Sort(le, b) <==> SameClasses(le, a, b)
  {
    var sa, sb := Sort(le, a), Sort(le, b);
    SortSorts(le, a);
    SortSorts(le, b);
    SortKeepsAllClasses(le, a);
    SortKeepsAllClasses(le, b);
    ClassesChain(le, sa, a, b);
    if sa == sb {
      assert SameClasses(le, sa, b);
    }
    if SameClasses(le, a, b) {
      ClassesChain(le, sb, b, sa);
      assert SameClasses(le, b, sa) by {
        assert forall x :: Class(le, sa, x) == Class(le, b, x);
      }
      SortedByClasses(le, sa, sb);
    }
  }

  /** An image under a map that tells x apart counts f(x) as often as x. */
  lemma {:induction false} ImageCount<A(!new), B>(f: A -> B, s: seq<A>, t: seq<B>, x: A)
    requires |t| == |s| && forall i :: 0 <= i < |s| ==> t[i] == f(s[i])
    requires forall y :: y in s && f(y) == f(x) ==> y == x
    ensures multiset(t)[f(x)] == multiset(s)[x]
  {
    if s != [] {
      ImageCount(f, s[1..], t[1..], x);
      assert s == [s[0]] + s[1..] && t == [t[0]] + t[1..];
    }
  }

  ghost predicate InjectiveOn<A(!new), B>(f: A -> B, a: seq<A>, b: seq<A>) {
    forall x, y {:trigger f(x), f(y)} :: (x in a || x in b) && (y in a || y in b) && f(x) == f(y) ==> x == y
  }

  /** An injective map keeps and reflects equality of contents. */
  lemma {:induction false} SameElementsSameImages<A(!new), B(!new)>(f: A -> B, a: seq<A>, b: seq<A>, fa: seq<B>, fb: seq<B>)
    requires |fa| == |a| && forall i :: 0 <= i < |a| ==> fa[i] == f(a[i])
    requires |fb| == |b| && forall i :: 0 <= i < |b| ==> fb[i] == f(b[i])
    requires InjectiveOn(f, a, b)
    ensures multiset(a) == multiset(b) <==> multiset(fa) == multiset(fb)
  {
    forall x | x in a || x in b
      ensures multiset(fa)[f(x)] == multiset(a)[x] && multiset(fb)[f(x)] == multiset(b)[x]
    {
      ImageCount(f, a, fa, x);
      ImageCount(f, b, fb, x);
    }
    if multiset(a) == multiset(b) {
      forall v
        ensures multiset(fa)[v] == multiset(fb)[v]
      {
        if v in fa {
          var i :| 0 <= i < |fa| && fa[i] == v;
          assert a[i] in a;
        } else if v in fb {
          var i :| 0 <= i < |fb| && fb[i] == v;
          assert b[i] in b;
        }
      }
    }
    if multiset(fa) == multiset(fb) {
      forall x
        ensures multiset(a)[x] == multiset(b)[x]
      {
        assert x in a || x in b || (multiset(a)[x] == 0 && multiset(b)[x] == 0);
      }
    }
  }

  // ---------- sorting and mapping ----------

  function Map<A, B>(f: A -> B, s: seq<A>): (r: seq<B>)
    ensures |r| == |s| && forall i :: 0 <= i < |s| ==> r[i] == f(s[i])
  {
    seq(|s|, i requires 0 <= i < |s| => f(s[i]))
  }

  lemma {:induction false} InsertMap<A(!new), B>(f: A -> B, le: Order<A>, leB: Order<B>, x: A, s: seq<A>)
    requires forall a, b :: leB(f(a), f(b)) == le(a, b)
    ensures Map(f, Insert(le, x, s)) == Insert(leB, f(x), Map(f, s))
  {
    if s != [] && !le(x, s[0]) {
      InsertMap(f, le, leB, x, s[1..]);
      assert Map(f, s)[1..] == Map(f, s[1..]);
    }
  }

  /** A map that keeps the order commutes with sorting. */
  lemma {:induction false} SortMap<A(!new), B>(f: A -> B, le: Order<A>, leB: Order<B>, s: seq<A>)
    requires forall a, b :: leB(f(a), f(b)) == le(a, b)
    ensures Map(f, Sort(le, s)) == Sort(leB, Map(f, s))
  {
    if s != [] {
      SortMap(f, le, leB, s[1..]);
      InsertMap(f, le, leB, s[0], Sort(le, s[1..]));
      assert Map(f, s)[1..] == Map(f, s[1..]);
    }
  }

  // ---------- the lexicographic order ----------

  /** A proper prefix comes first. */
  predicate LexLe(a: seq<int>, b: seq<int>) {
    a == [] || (b != [] && (a[0] < b[0] || (a[0] == b[0] && LexLe(a[1..], b[1..]))))
  }

  lemma {:induction false} LexTotal(a: seq<int>, b: seq<int>)
    ensures LexLe(a, b) || LexLe(b, a)
    ensures LexLe(a, b) && LexLe(b, a) ==> a == b
  {
    if a != [] && b != [] {
      LexTotal(a[1..], b[1..]);
      assert a == [a[0]] + a[1..] && b == [b[0]] + b[1..];
    }
  }

  lemma {:induction false} LexTransitive(a: seq<int>, b: seq<int>, c: seq<int>)
    requires LexLe(a, b) && LexLe(b, c)
    ensures LexLe(a, c)
  {
    if a != [] && a[0] == b[0] == c[0] {
      LexTransitive(a[1..], b[1..], c[1..]);
    }
  }

  /** The first difference decides. */
  lemma {:induction false} LexByFirstDifference(a: seq<int>, b: seq<int>, i: nat)
    requires i < |a| && i < |b| && a[..i] == b[..i] && a[i] < b[i]
    ensures LexLe(a, b) && !LexLe(b, a)
  {
    if i > 0 {
      assert a[..i][0] == b[..i][0];
      assert a[1..][..i - 1] == a[..i][1..] && b[1..][..i - 1] == b[..i][1..];
      LexByFirstDifference(a[1..], b[1..], i - 1);
    }
  }

  lemma {:induction false} SortTwo<T>(le: Order<T>, x: T, y: T)
    requires le(x, y) && !le(y, x)
    ensures Sort(le, [x]) == [x] && Sort(le, [x, y]) == [x, y] && Sort(le, [y, x]) == [x, y]
  {
    var none: seq<T> := [];
    assert Insert(le, y, none) == [y] && Insert(le, x, none) == [x];
    assert [x][1..] == none && [y][1..] == none && [x, y][1..] == [y] && [y, x][1..] == [x];
  }
}
