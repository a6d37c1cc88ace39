/** Python's `sorted(xs, key=f)` and `xs.sort(key=f)` for string keys: a stable
    sort in ascending code-point order. The scripts call the library sort; this
    module gives a reference definition (insertion sort) and proves what the
    library promises of it: the result is ordered, is a permutation of the input,
    and keeps the input order among entries with equal keys. */
module Sorting {
  import opened Text

  /** Puts `x` before the first element whose key is not smaller than its own. */
  function Insert<T>(x: T, s: seq<T>, key: T -> string): seq<T>
  {
    if s == [] || LexLe(key(x), key(s[0])) then [x] + s
    else [s[0]] + Insert(x, s[1..], key)
  }

  function SortBy<T>(s: seq<T>, key: T -> string): seq<T>
  {
    if s == [] then [] else Insert(s[0], SortBy(s[1..], key), key)
  }

  predicate SortedBy<T>(s: seq<T>, key: T -> string)
  {
    forall i, j :: 0 <= i < j < |s| ==> LexLe(key(s[i]), key(s[j]))
  }

  /** The elements whose key is `k`, in order. */
  function KeyFilter<T>(s: seq<T>, key: T -> string, k: string): seq<T>
  {
    if s == [] then []
    else (if key(s[0]) == k then [s[0]] else []) + KeyFilter(s[1..], key, k)
  }

  lemma {:induction false} InsertMultiset<T>(x: T, s: seq<T>, key: T -> string)
    ensures multiset(Insert(x, s, key)) == multiset(s) + multiset{x}
  {
    if s != [] && !LexLe(key(x), key(s[0])) {
      InsertMultiset(x, s[1..], key);
      assert s == [s[0]] + s[1..];
    }
  }

  lemma {:induction false} InsertSorted<T>(x: T, s: seq<T>, key: T -> string)
    requires SortedBy(s, key)
    ensures SortedBy(Insert(x, s, key), key)
  {
    var r := Insert(x, s, key);
    if s == [] || LexLe(key(x), key(s[0])) {
      forall i, j | 0 <= i < j < |r| ensures LexLe(key(r[i]), key(r[j])) {
        if i == 0 && j > 1 {
          LexLeTransitive(key(x), key(s[0]), key(s[j - 1]));
        }
      }
    } else {
      var rest := Insert(x, s[1..], key);
      InsertSorted(x, s[1..], key);
      InsertMultiset(x, s[1..], key);
      LexLeTotal(key(x), key(s[0]));
      forall i, j | 0 <= i < j < |r| ensures LexLe(key(r[i]), key(r[j])) {
        if i == 0 {
          var y := rest[j - 1];
          assert y in multiset(rest);
          if y != x {
            assert y in multiset(s[1..]);
            var m :| 0 <= m < |s[1..]| && s[1..][m] == y;
            assert s[m + 1] == y;
          }
        }
      }
    }
  }

  /** Inserting `x` adds it to the elements of its key and to no other key. */
  lemma {:induction false} InsertKeyFilter<T>(x: T, s: seq<T>, key: T -> string, k: string)
    ensures KeyFilter(Insert(x, s, key), key, k) == (if key(x) == k then [x] else []) + KeyFilter(s, key, k)
  {
    if s == [] || LexLe(key(x), key(s[0])) {
      assert ([x] + s)[1..] == s;
    } else {
      var rest := Insert(x, s[1..], key);
      InsertKeyFilter(x, s[1..], key, k);
      assert ([s[0]] + rest)[1..] == rest;
      LexLeReflexive(key(x));
      var head := if key(s[0]) == k then [s[0]] else [];
      var mine := if key(x) == k then [x] else [];
      assert head == [] || mine == [];
      assert KeyFilter(s, key, k) == head + KeyFilter(s[1..], key, k);
      AppendAssoc(head, mine, KeyFilter(s[1..], key, k));
      AppendAssoc(mine, head, KeyFilter(s[1..], key, k));
      assert head + mine == mine + head;
    }
  }

  /** SortBy is a stable sort: ordered by key, a permutation of its input, and
      for every key the entries carrying it appear in their input order. */
  lemma {:induction false} SortByCorrect<T>(s: seq<T>, key: T -> string)
    ensures SortedBy(SortBy(s, key), key)
    ensures multiset(SortBy(s, key)) == multiset(s)
    ensures |SortBy(s, key)| == |s|
    ensures forall k :: KeyFilter(SortBy(s, key), key, k) == KeyFilter(s, key, k)
  {
    if s != [] {
      var rest := SortBy(s[1..], key);
      SortByCorrect(s[1..], key);
      InsertSorted(s[0], rest, key);
      InsertMultiset(s[0], rest, key);
      assert s == [s[0]] + s[1..];
      forall k ensures KeyFilter(SortBy(s, key), key, k) == KeyFilter(s, key, k) {
        InsertKeyFilter(s[0], rest, key, k);
      }
    }
  }

  /** Sorting a list that is already in order changes nothing. */
  lemma {:induction false} SortBySorted<T>(s: seq<T>, key: T -> string)
    requires SortedBy(s, key)
    ensures SortBy(s, key) == s
  {
    if s != [] {
      SortBySorted(s[1..], key);
      assert s == [s[0]] + s[1..];
      if |s| > 1 {
        assert LexLe(key(s[0]), key(s[1]));
      }
    }
  }

  /** The number of elements satisfying `p`. */
  function Count<T>(s: seq<T>, p: T -> bool): nat
  {
    if s == [] then 0 else (if p(s[0]) then 1 else 0) + Count(s[1..], p)
  }

  lemma {:induction false} CountAppend<T>(a: seq<T>, b: seq<T>, p: T -> bool)
    ensures Count(a + b, p) == Count(a, p) + Count(b, p)
  {
    if a != [] {
      CountAppend(a[1..], b, p);
      assert (a + b)[1..] == a[1..] + b;
    } else {
      assert a + b == b;
    }
  }

  lemma {:induction false} InsertCount<T>(x: T, s: seq<T>, key: T -> string, p: T -> bool)
    ensures Count(Insert(x, s, key), p) == (if p(x) then 1 else 0) + Count(s, p)
  {
    if s == [] || LexLe(key(x), key(s[0])) {
      assert ([x] + s)[1..] == s;
    } else {
      InsertCount(x, s[1..], key, p);
      assert ([s[0]] + Insert(x, s[1..], key))[1..] == Insert(x, s[1..], key);
    }
  }

  /** Sorting keeps the number of elements with any property. */
  lemma {:induction false} SortByCount<T>(s: seq<T>, key: T -> string, p: T -> bool)
    ensures Count(SortBy(s, key), p) == Count(s, p)
  {
    if s != [] {
      SortByCount(s[1..], key, p);
      InsertCount(s[0], SortBy(s[1..], key), key, p);
    }
  }

  lemma {:induction false} CountNone<T>(s: seq<T>, p: T -> bool)
    requires forall i :: 0 <= i < |s| ==> !p(s[i])
    ensures Count(s, p) == 0
  {
    if s != [] {
      assert forall i :: 1 <= i < |s| ==> s[1..][i - 1] == s[i];
      CountNone(s[1..], p);
    }
  }
}
