/** `Array.prototype.sort` with a descending comparator `(a, b) => key(b) -
    key(a)`: since ECMAScript 2019 the sort is stable, so its result is a
    permutation of the input that is ordered by decreasing key and keeps the
    input order among equal keys. Insertion sort, below, gives such a
    permutation. */
module StableSort {
  import opened Seqs

  /** Keys do not increase from left to right. */
  predicate SortedDesc<T>(s: seq<T>, key: T -> int) {
    forall i, j :: 0 <= i < j < |s| ==> key(s[i]) >= key(s[j])
  }

  /** The elements whose key is `k`. */
  function HasKey<T>(key: T -> int, k: int): T -> bool {
    x => key(x) == k
  }

  /** Puts `x`, which came before every element of `t`, after the elements of
      `t` with a strictly larger key and before all the others. */
  function Insert<T>(x: T, t: seq<T>, key: T -> int): (r: seq<T>)
    ensures |r| == |t| + 1
  {
    if t == [] || key(t[0]) <= key(x) then [x] + t
    else [t[0]] + Insert(x, t[1..], key)
  }

  /** The stable sort of `s` by decreasing key. */
  function SortDesc<T>(s: seq<T>, key: T -> int): (r: seq<T>)
    ensures |r| == |s|
  {
    if s == [] then [] else Insert(s[0], SortDesc(s[1..], key), key)
  }

  lemma {:induction false} InsertSorted<T>(x: T, t: seq<T>, key: T -> int)
    requires SortedDesc(t, key)
    ensures SortedDesc(Insert(x, t, key), key)
    ensures Insert(x, t, key)[0] == x || (t != [] && Insert(x, t, key)[0] == t[0])
  {
    if t != [] && key(t[0]) > key(x) {
      InsertSorted(x, t[1..], key);
      var r := Insert(x, t, key);
      var r1 := Insert(x, t[1..], key);
      assert r == [t[0]] + r1;
      forall i, j | 0 <= i < j < |r| ensures key(r[i]) >= key(r[j]) {
        if i == 0 {
          assert r[j] == r1[j - 1];
          if r1[j - 1] != x {
            InsertMembers(x, t[1..], key, j - 1);
          }
        } else {
          assert r[i] == r1[i - 1] && r[j] == r1[j - 1];
        }
      }
    }
  }

  /** Every element of an insertion other than `x` comes from `t`. */
  lemma {:induction false} InsertMembers<T>(x: T, t: seq<T>, key: T -> int, i: nat)
    requires i < |t| + 1 && Insert(x, t, key)[i] != x
    ensures Insert(x, t, key)[i] in t
  {
    if t != [] && key(t[0]) > key(x) && i > 0 {
      InsertMembers(x, t[1..], key, i - 1);
      assert Insert(x, t, key)[i] == Insert(x, t[1..], key)[i - 1];
    }
  }

  lemma {:induction false} InsertPermutes<T>(x: T, t: seq<T>, key: T -> int)
    ensures multiset(Insert(x, t, key)) == multiset(t) + multiset{x}
  {
    if t != [] && key(t[0]) > key(x) {
      InsertPermutes(x, t[1..], key);
      assert t == [t[0]] + t[1..];
    }
  }

  /** Inserting `x` keeps it in front of the elements with its own key, so
      among the elements with any one key the order is that of `[x] + t`. */
  lemma {:induction false} InsertStable<T>(x: T, t: seq<T>, key: T -> int, k: int)
    ensures Filter(Insert(x, t, key), HasKey(key, k)) == Filter([x] + t, HasKey(key, k))
  {
    var p := HasKey(key, k);
    if t != [] && key(t[0]) > key(x) {
      var t1 := t[1..];
      InsertStable(x, t1, key, k);
      FilterCons(t[0], Insert(x, t1, key), p);
      FilterCons(x, t1, p);
      FilterCons(x, t, p);
      FilterCons(t[0], t1, p);
      assert t == [t[0]] + t1;
    }
  }

  /** The three facts that pin the sort down: ordered by decreasing key,
      a permutation of the input, and stable. */
  lemma {:induction false} SortDescSorted<T>(s: seq<T>, key: T -> int)
    ensures SortedDesc(SortDesc(s, key), key)
  {
    if s != [] {
      SortDescSorted(s[1..], key);
      InsertSorted(s[0], SortDesc(s[1..], key), key);
    }
  }

  lemma {:induction false} SortDescPermutes<T>(s: seq<T>, key: T -> int)
    ensures multiset(SortDesc(s, key)) == multiset(s)
  {
    if s != [] {
      SortDescPermutes(s[1..], key);
      InsertPermutes(s[0], SortDesc(s[1..], key), key);
      assert s == [s[0]] + s[1..];
    }
  }

  lemma {:induction false} SortDescStable<T>(s: seq<T>, key: T -> int, k: int)
    ensures Filter(SortDesc(s, key), HasKey(key, k)) == Filter(s, HasKey(key, k))
  {
    if s != [] {
      var p := HasKey(key, k);
      SortDescStable(s[1..], key, k);
      InsertStable(s[0], SortDesc(s[1..], key), key, k);
      FilterCons(s[0], SortDesc(s[1..], key), p);
      FilterCons(s[0], s[1..], p);
      assert s == [s[0]] + s[1..];
    }
  }
}
