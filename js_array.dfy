/**
 * JavaScript array operations used by the customer directory: the
 * `unique` and `flatMap` patches that server/src/customers.ts installs on
 * `Array.prototype`, and the built-in `indexOf`, `findIndex`, `slice` and
 * (stable) `sort` as the directory calls them.
 */
module JsArray {
  import opened JsString

  ghost predicate NoDuplicates<T>(s: seq<T>)
  {
    forall i, j :: 0 <= i < j < |s| ==> s[i] != s[j]
  }

  /** `s.indexOf(x)`: the first position of `x`, or -1. */
  function IndexOf<T(==)>(s: seq<T>, x: T): (k: int)
    ensures -1 <= k < |s|
    ensures k == -1 <==> x !in s
    ensures k >= 0 ==> s[k] == x && forall j :: 0 <= j < k ==> s[j] != x
  {
    if s == [] then -1
    else if s[0] == x then 0
    else
      var k := IndexOf(s[1..], x);
      if k == -1 then -1 else k + 1
  }

  /**
   * The `unique` patch: `s.filter((v, i, self) => self.indexOf(v) === i)`.
   * Keeps each element at its first appearance.
   */
  function Unique<T(==,!new)>(s: seq<T>): (r: seq<T>)
    ensures NoDuplicates(r)
    ensures forall x :: x in r <==> x in s
    ensures forall i, j :: 0 <= i < j < |r| ==> IndexOf(s, r[i]) < IndexOf(s, r[j])
  {
    UniqueUpTo(s, |s|)
  }

  /** The first `n` elements of `s` that pass the `unique` filter. */
  function UniqueUpTo<T(==,!new)>(s: seq<T>, n: nat): (r: seq<T>)
    requires n <= |s|
    ensures forall x :: x in r <==> x in s[..n]
    ensures forall i :: 0 <= i < |r| ==> 0 <= IndexOf(s, r[i]) < n
    ensures forall i, j :: 0 <= i < j < |r| ==> IndexOf(s, r[i]) < IndexOf(s, r[j])
    ensures NoDuplicates(r)
  {
    if n == 0 then []
    else
      var r := UniqueUpTo(s, n - 1);
      assert s[..n] == s[..n - 1] + [s[n - 1]];
      if IndexOf(s, s[n - 1]) == n - 1 then r + [s[n - 1]] else r
  }

  /** `Unique` leaves a sequence without duplicates as it is. */
  lemma {:induction false} UniqueOfDistinct<T(!new)>(s: seq<T>)
    requires NoDuplicates(s)
    ensures Unique(s) == s
  {
    forall n | 0 <= n <= |s| ensures UniqueUpTo(s, n) == s[..n] {
      UniqueUpToDistinct(s, n);
    }
    assert s[..|s|] == s;
  }

  lemma {:induction false} UniqueUpToDistinct<T(!new)>(s: seq<T>, n: nat)
    requires NoDuplicates(s) && n <= |s|
    ensures UniqueUpTo(s, n) == s[..n]
  {
    if n > 0 {
      UniqueUpToDistinct(s, n - 1);
      assert IndexOf(s, s[n - 1]) == n - 1;
      assert s[..n] == s[..n - 1] + [s[n - 1]];
    }
  }

  /**
   * The `flatMap` patch: `Array.prototype.concat.apply([], s.map(f))`,
   * the results of `f` on each element, concatenated in order.
   */
  function FlatMap<T, U(!new)>(s: seq<T>, f: T ~> seq<U>): (r: seq<U>)
    requires forall i :: 0 <= i < |s| ==> f.requires(s[i])
    reads set i, o | 0 <= i < |s| && o in f.reads(s[i]) :: o
    ensures forall x :: x in r <==> exists i :: 0 <= i < |s| && x in f(s[i])
    ensures s == [] ==> r == []
    ensures |s| > 0 ==> f(s[0]) <= r
    ensures |s| == 1 ==> r == f(s[0])
  {
    if s == [] then []
    else
      var tail := FlatMap(s[1..], f);
      assert forall i :: 1 <= i < |s| ==> s[i] == s[1..][i - 1];
      f(s[0]) + tail
  }

  /** `flatMap` over a concatenation is the concatenation of the two `flatMap`s. */
  lemma {:induction false} FlatMapAppend<T, U(!new)>(a: seq<T>, b: seq<T>, f: T ~> seq<U>)
    requires forall i :: 0 <= i < |a| ==> f.requires(a[i])
    requires forall i :: 0 <= i < |b| ==> f.requires(b[i])
    ensures forall i :: 0 <= i < |a + b| ==> f.requires((a + b)[i])
    ensures FlatMap(a + b, f) == FlatMap(a, f) + FlatMap(b, f)
    decreases |a|
  {
    assert forall i :: 0 <= i < |a + b| ==> (a + b)[i] == if i < |a| then a[i] else b[i - |a|];
    if a == [] {
      assert a + b == b;
    } else {
      assert (a + b)[1..] == a[1..] + b;
      assert forall i :: 1 <= i < |a| ==> a[i] == a[1..][i - 1];
      FlatMapAppend(a[1..], b, f);
    }
  }

  lemma FlatMapCons<T, U(!new)>(s: seq<T>, f: T ~> seq<U>)
    requires |s| > 0 && forall i :: 0 <= i < |s| ==> f.requires(s[i])
    ensures forall i :: 0 <= i < |s[1..]| ==> s[1..][i] == s[i + 1] && f.requires(s[1..][i])
    ensures FlatMap(s, f) == f(s[0]) + FlatMap(s[1..], f)
  {
  }

  /** `indexOf` on a concatenation looks in the first part, then in the second. */
  lemma IndexOfAppend<T>(a: seq<T>, b: seq<T>, x: T)
    ensures x in a ==> IndexOf(a + b, x) == IndexOf(a, x)
    ensures x !in a ==> IndexOf(a + b, x) == if x in b then |a| + IndexOf(b, x) else -1
  {
    var k := IndexOf(a + b, x);
    if x in a {
      assert (a + b)[IndexOf(a, x)] == x;
      assert k <= IndexOf(a, x);
      assert k < |a| && a[k] == (a + b)[k];
    } else if x in b {
      assert (a + b)[|a| + IndexOf(b, x)] == x;
      assert forall j :: 0 <= j < |a| ==> (a + b)[j] == a[j];
      assert k >= |a|;
      assert forall j :: 0 <= j < |b| ==> (a + b)[|a| + j] == b[j];
    }
  }

  /** `indexOf` in a `flatMap`: in the first image, else past it. */
  lemma FlatMapConsIndexOf<T, U(!new)>(s: seq<T>, f: T ~> seq<U>, x: U)
    requires |s| > 0 && forall i :: 0 <= i < |s| ==> f.requires(s[i])
    ensures x in f(s[0]) ==> IndexOf(FlatMap(s, f), x) == IndexOf(f(s[0]), x)
    ensures x !in f(s[0]) && x in FlatMap(s[1..], f) ==> IndexOf(FlatMap(s, f), x) == |f(s[0])| + IndexOf(FlatMap(s[1..], f), x)
  {
    FlatMapCons(s, f);
    IndexOfAppend(f(s[0]), FlatMap(s[1..], f), x);
  }

  /**
   * An element of a `flatMap` first appears in the image of the first input
   * element whose image holds it. Of two elements, the one that appears first
   * comes from an earlier image, or from the same image at an earlier position.
   */
  lemma FlatMapFirstOrder<T, U(!new)>(s: seq<T>, f: T ~> seq<U>, a: U, ta: nat, b: U, tb: nat)
    requires forall i :: 0 <= i < |s| ==> f.requires(s[i])
    requires ta < |s| && a in f(s[ta]) && forall i :: 0 <= i < ta ==> a !in f(s[i])
    requires tb < |s| && b in f(s[tb]) && forall i :: 0 <= i < tb ==> b !in f(s[i])
    requires IndexOf(FlatMap(s, f), a) < IndexOf(FlatMap(s, f), b)
    ensures ta < tb || (ta == tb && IndexOf(f(s[ta]), a) < IndexOf(f(s[ta]), b))
  {
    assert s[0..] == s;
    FirstOrderFrom(s, f, 0, a, ta, b, tb);
  }

  /** `FlatMapFirstOrder` on the suffix `s[k..]`, with positions counted in `s`. */
  lemma {:induction false} FirstOrderFrom<T, U(!new)>(s: seq<T>, f: T ~> seq<U>, k: nat, a: U, ta: nat, b: U, tb: nat)
    requires forall i :: 0 <= i < |s| ==> f.requires(s[i])
    requires k <= ta < |s| && a in f(s[ta]) && forall i :: k <= i < ta ==> a !in f(s[i])
    requires k <= tb < |s| && b in f(s[tb]) && forall i :: k <= i < tb ==> b !in f(s[i])
    requires IndexOf(FlatMap(s[k..], f), a) < IndexOf(FlatMap(s[k..], f), b)
    ensures ta < tb || (ta == tb && IndexOf(f(s[ta]), a) < IndexOf(f(s[ta]), b))
    decreases |s| - k
  {
    SuffixCons(s, f, k);
    FlatMapConsIndexOf(s[k..], f, a);
    FlatMapConsIndexOf(s[k..], f, b);
    if ta > k && tb > k {
      InLaterImage(s, f, k + 1, a, ta);
      InLaterImage(s, f, k + 1, b, tb);
      FirstOrderFrom(s, f, k + 1, a, ta, b, tb);
    }
  }

  /** The head and the rest of the suffix `s[k..]`. */
  lemma SuffixCons<T, U(!new)>(s: seq<T>, f: T ~> seq<U>, k: nat)
    requires k < |s| && forall i :: 0 <= i < |s| ==> f.requires(s[i])
    ensures forall i :: 0 <= i < |s[k..]| ==> f.requires(s[k..][i])
    ensures s[k..][0] == s[k] && s[k..][1..] == s[k + 1..]
  {
  }

  /** An element of an image at or after `k` is in the `flatMap` of `s[k..]`. */
  lemma InLaterImage<T, U(!new)>(s: seq<T>, f: T ~> seq<U>, k: nat, x: U, t: nat)
    requires forall i :: 0 <= i < |s| ==> f.requires(s[i])
    requires k <= t < |s| && x in f(s[t])
    ensures forall i :: 0 <= i < |s[k..]| ==> f.requires(s[k..][i])
    ensures x in FlatMap(s[k..], f)
  {
    assert s[k..][t - k] == s[t];
  }

  /** `s.findIndex(p)`: the first position whose element satisfies `p`, or -1. */
  function FindIndex<T>(s: seq<T>, p: T -> bool): (k: int)
    ensures -1 <= k < |s|
    ensures k == -1 <==> forall j :: 0 <= j < |s| ==> !p(s[j])
    ensures k >= 0 ==> p(s[k]) && forall j :: 0 <= j < k ==> !p(s[j])
  {
    if s == [] then -1
    else if p(s[0]) then 0
    else
      var k := FindIndex(s[1..], p);
      assert forall j :: 1 <= j < |s| ==> s[j] == s[1..][j - 1];
      if k == -1 then -1 else k + 1
  }

  /** How `slice` turns a possibly negative argument into a position in `0..len`. */
  function RelativeIndex(k: int, len: nat): (p: nat)
    ensures p <= len
    ensures k < 0 ==> p == (if len + k < 0 then 0 else len + k)
    ensures 0 <= k ==> p == (if k < len then k else len)
  {
    if k < 0 then (if len + k < 0 then 0 else len + k) else if k < len then k else len
  }

  /** `s.slice(start, end)`: negative arguments count from the end, and the result is empty if `end` falls before `start`. */
  function Slice<T>(s: seq<T>, start: int, end: int): (r: seq<T>)
    ensures 0 <= start <= end ==> r == s[RelativeIndex(start, |s|)..RelativeIndex(end, |s|)]
    ensures 0 <= start <= |s| && start <= end <= |s| ==> r == s[start..end]
    ensures 0 <= end <= start ==> r == []
    ensures 0 <= start <= |s| + end && end < 0 ==> r == s[start..|s| + end]
    ensures start < 0 && end < 0 && 0 <= |s| + start <= |s| + end ==> r == s[|s| + start..|s| + end]
    ensures RelativeIndex(end, |s|) <= RelativeIndex(start, |s|) ==> r == []
  {
    var from, to := RelativeIndex(start, |s|), RelativeIndex(end, |s|);
    if from < to then s[from..to] else []
  }

  /**
   * The order the directory's comparator imposes on two sort keys:
   * `l.localeCompare(r) <= 0`, or the reverse for a descending sort.
   */
  predicate InOrder(a: string, b: string, descending: bool)
  {
    if descending then LexLe(b, a) else LexLe(a, b)
  }

  predicate SortedBy<T>(s: seq<T>, key: T -> string, descending: bool)
  {
    forall i :: 0 <= i < |s| - 1 ==> InOrder(key(s[i]), key(s[i + 1]), descending)
  }

  /** The elements of `s` whose key is `k`, in their order in `s`. */
  function Ties<T>(s: seq<T>, key: T -> string, k: string): seq<T>
  {
    if s == [] then []
    else (if key(s[0]) == k then [s[0]] else []) + Ties(s[1..], key, k)
  }

  /** Puts `x` in front of the first element it may precede, so that earlier input stays first among equal keys. */
  function Insert<T>(x: T, r: seq<T>, key: T -> string, descending: bool): (r': seq<T>)
    ensures |r'| == |r| + 1
  {
    if r == [] || InOrder(key(x), key(r[0]), descending) then [x] + r
    else [r[0]] + Insert(x, r[1..], key, descending)
  }

  lemma {:induction false} InsertSorted<T>(x: T, r: seq<T>, key: T -> string, descending: bool)
    requires SortedBy(r, key, descending)
    ensures SortedBy(Insert(x, r, key, descending), key, descending)
    ensures r != [] ==> Insert(x, r, key, descending)[0] in {x, r[0]}
  {
    if r != [] && !InOrder(key(x), key(r[0]), descending) {
      var rest := Insert(x, r[1..], key, descending);
      InsertSorted(x, r[1..], key, descending);
      LexLeTotal(key(x), key(r[0]));
      assert SortedBy([r[0]] + rest, key, descending) by {
        if r[1..] != [] {
          assert rest[0] == x || rest[0] == r[1];
        }
      }
    }
  }

  lemma {:induction false} InsertPermutes<T>(x: T, r: seq<T>, key: T -> string, descending: bool)
    ensures multiset(Insert(x, r, key, descending)) == multiset(r) + multiset{x}
  {
    if r != [] && !InOrder(key(x), key(r[0]), descending) {
      InsertPermutes(x, r[1..], key, descending);
      assert r == [r[0]] + r[1..];
    }
  }

  lemma {:induction false} InsertTies<T>(x: T, r: seq<T>, key: T -> string, descending: bool, k: string)
    ensures Ties(Insert(x, r, key, descending), key, k) == (if key(x) == k then [x] else []) + Ties(r, key, k)
  {
    var r' := Insert(x, r, key, descending);
    if r == [] || InOrder(key(x), key(r[0]), descending) {
      assert r'[1..] == r;
    } else {
      var rest := Insert(x, r[1..], key, descending);
      InsertTies(x, r[1..], key, descending, k);
      assert r'[1..] == rest;
      LexLeReflexive(key(x));
      assert key(r[0]) != key(x);
    }
  }

  /** A non-empty sequence is its head followed by its tail. */
  lemma HeadTail<T>(s: seq<T>)
    requires s != []
    ensures [s[0]] + s[1..] == s
  {
  }

  /** Concatenation regroups. */
  lemma Regroup<T>(a: seq<T>, b: seq<T>, c: seq<T>)
    ensures (a + b) + c == a + (b + c)
  {
  }

  /**
   * `Array.prototype.sort` with the directory's comparator. The sort is
   * stable (ECMAScript 2019): elements with equal keys keep their input order.
   */
  function SortByKey<T>(s: seq<T>, key: T -> string, descending: bool): (r: seq<T>)
    ensures multiset(r) == multiset(s) && |r| == |s|
    ensures SortedBy(r, key, descending)
    ensures forall k :: Ties(r, key, k) == Ties(s, key, k)
  {
    if s == [] then []
    else
      var rest := SortByKey(s[1..], key, descending);
      InsertSorted(s[0], rest, key, descending);
      InsertedPermutes(s, rest, key, descending);
      InsertedTies(s, rest, key, descending);
      Insert(s[0], rest, key, descending)
  }

  lemma InsertedPermutes<T>(s: seq<T>, rest: seq<T>, key: T -> string, descending: bool)
    requires s != [] && multiset(rest) == multiset(s[1..])
    ensures multiset(Insert(s[0], rest, key, descending)) == multiset(s)
  {
    InsertPermutes(s[0], rest, key, descending);
    HeadTail(s);
  }

  lemma InsertedTies<T>(s: seq<T>, rest: seq<T>, key: T -> string, descending: bool)
    requires s != [] && forall k :: Ties(rest, key, k) == Ties(s[1..], key, k)
    ensures forall k :: Ties(Insert(s[0], rest, key, descending), key, k) == Ties(s, key, k)
  {
    forall k
      ensures Ties(Insert(s[0], rest, key, descending), key, k) == Ties(s, key, k)
    {
      InsertTies(s[0], rest, key, descending, k);
    }
  }

  /** An element of a sequence of distinct elements appears in the multiset-equal permutation only once. */
  lemma {:induction false} DistinctPermutation<T>(s: seq<T>, r: seq<T>)
    requires NoDuplicates(s) && multiset(r) == multiset(s)
    ensures NoDuplicates(r)
  {
    forall i, j | 0 <= i < j < |r| ensures r[i] != r[j] {
      if r[i] == r[j] {
        assert multiset(r)[r[i]] >= 2 by {
          assert r == r[..i] + [r[i]] + r[i + 1..j] + [r[j]] + r[j + 1..];
        }
        DistinctCount(s, r[i]);
        assert false;
      }
    }
  }

  lemma {:induction false} DistinctCount<T>(s: seq<T>, x: T)
    requires NoDuplicates(s)
    ensures multiset(s)[x] <= 1
  {
    if s != [] {
      DistinctCount(s[1..], x);
      assert s == [s[0]] + s[1..];
      if s[0] == x {
        assert x !in s[1..];
      }
    }
  }
}
