/**
 Reordering a sequence: what gathering over it keeps, and the ascending sort it shares with
 every rearrangement of itself.
 */
module Permutations {
  import opened MachineInts

  /** Gathers `f` over a sequence, in order; `f` may yield any number of results per element. */
  function Collect<T, U>(f: T -> seq<U>, s: seq<T>): (r: seq<U>)
  {
    if s == [] then [] else f(s[0]) + Collect(f, s[1..])
  }

  lemma {:induction false} CollectConcat<T, U>(f: T -> seq<U>, s: seq<T>, t: seq<T>)
    ensures Collect(f, s + t) == Collect(f, s) + Collect(f, t)
  {
    if s == [] {
      assert s + t == t;
    } else {
      assert (s + t)[0] == s[0] && (s + t)[1..] == s[1..] + t;
      CollectConcat(f, s[1..], t);
    }
  }

  lemma CollectOne<T, U>(f: T -> seq<U>, x: T)
    ensures Collect(f, [x]) == f(x)
  {
    assert [x][1..] == [];
  }

  /** The sequence without its k-th element. */
  function Without<T>(s: seq<T>, k: nat): (r: seq<T>)
    requires k < |s|
  {
    s[..k] + s[k + 1..]
  }

  lemma WithoutMultiset<T>(s: seq<T>, k: nat)
    requires k < |s|
    ensures multiset(s) == multiset(Without(s, k)) + multiset{s[k]}
  {
    SplitAround(s, k);
  }

  lemma SplitAround<T>(s: seq<T>, k: nat)
    requires k < |s|
    ensures s == s[..k] + [s[k]] + s[k + 1..]
  {
  }

  /** Taking in one more element counts that element and no other. */
  lemma CountNext<T>(s: seq<T>, i: nat, v: T)
    requires i < |s|
    ensures multiset(s[..i + 1])[v] == multiset(s[..i])[v] + (if s[i] == v then 1 else 0)
  {
    assert s[..i + 1] == s[..i] + [s[i]];
  }

  lemma MultisetOfThree<T>(a: seq<T>, b: seq<T>, c: seq<T>)
    ensures multiset(a + b + c) == multiset(a + c) + multiset(b)
  {
  }

  lemma CollectThree<T, U>(f: T -> seq<U>, p: seq<T>, x: T, q: seq<T>)
    ensures Collect(f, p + [x] + q) == Collect(f, p) + f(x) + Collect(f, q)
  {
    CollectConcat(f, p + [x], q);
    CollectConcat(f, p, [x]);
    CollectOne(f, x);
  }

  lemma CollectWithout<T, U>(f: T -> seq<U>, s: seq<T>, k: nat)
    requires k < |s|
    ensures multiset(Collect(f, s)) == multiset(Collect(f, Without(s, k))) + multiset(f(s[k]))
  {
    SplitAround(s, k);
    CollectAround(f, s[..k], s[k], s[k + 1..]);
  }

  lemma CollectAround<T, U>(f: T -> seq<U>, p: seq<T>, x: T, q: seq<T>)
    ensures multiset(Collect(f, p + [x] + q)) == multiset(Collect(f, p + q)) + multiset(f(x))
  {
    CollectThree(f, p, x, q);
    CollectConcat(f, p, q);
    MultisetOfThree(Collect(f, p), f(x), Collect(f, q));
  }

  /** Gathering over a rearranged sequence gathers the same results, rearranged. */
  lemma {:induction false} CollectPermutes<T, U>(f: T -> seq<U>, s: seq<T>, t: seq<T>)
    requires multiset(s) == multiset(t)
    ensures multiset(Collect(f, s)) == multiset(Collect(f, t))
    decreases |s|
  {
    if s == [] {
      EmptyFromMultiset(t);
    } else {
      var k := IndexOf(t, s[0]);
      WithoutMultiset(s, 0);
      WithoutMultiset(t, k);
      CancelOne(multiset(Without(s, 0)), multiset(Without(t, k)), s[0]);
      CollectWithout(f, s, 0);
      CollectWithout(f, t, k);
      CollectPermutes(f, Without(s, 0), Without(t, k));
    }
  }

  lemma EmptyFromMultiset<T>(t: seq<T>)
    requires multiset(t) == multiset{}
    ensures t == []
  {
    assert |t| == |multiset(t)|;
  }

  lemma CancelOne<T>(m: multiset<T>, n: multiset<T>, x: T)
    requires m + multiset{x} == n + multiset{x}
    ensures m == n
  {
    assert m == m + multiset{x} - multiset{x};
    assert n == n + multiset{x} - multiset{x};
  }

  ghost function IndexOf<T>(t: seq<T>, x: T): (k: nat)
    requires x in multiset(t)
    ensures k < |t| && t[k] == x
  {
    var k :| 0 <= k < |t| && t[k] == x;
    k
  }

  predicate Sorted(s: seq<u64>)
  {
    forall i, j :: 0 <= i < j < |s| ==> s[i] <= s[j]
  }

  function Insert(x: u64, s: seq<u64>): (r: seq<u64>)
  {
    if s == [] || x <= s[0] then [x] + s else [s[0]] + Insert(x, s[1..])
  }

  /** The ascending sort. */
  function Ascending(s: seq<u64>): (r: seq<u64>)
  {
    if s == [] then [] else Insert(s[0], Ascending(s[1..]))
  }

  lemma {:induction false} InsertHolds(x: u64, s: seq<u64>)
    ensures |Insert(x, s)| == |s| + 1
    ensures multiset(Insert(x, s)) == multiset(s) + multiset{x}
    decreases |s|
  {
    if s != [] && x > s[0] {
      InsertHolds(x, s[1..]);
      assert s == [s[0]] + s[1..];
    }
  }

  lemma {:induction false} InsertSorts(x: u64, s: seq<u64>)
    requires Sorted(s)
    ensures Sorted(Insert(x, s))
    ensures forall i :: 0 <= i < |Insert(x, s)| ==> Insert(x, s)[i] == x || Insert(x, s)[i] in s
    decreases |s|
  {
    if s != [] && x > s[0] {
      InsertSorts(x, s[1..]);
      var rest := Insert(x, s[1..]);
      assert forall i :: 0 <= i < |rest| ==> s[0] <= rest[i];
    }
  }

  lemma {:induction false} AscendingSorts(s: seq<u64>)
    ensures Sorted(Ascending(s))
    ensures multiset(Ascending(s)) == multiset(s)
    ensures |Ascending(s)| == |s|
  {
    if s != [] {
      AscendingSorts(s[1..]);
      InsertHolds(s[0], Ascending(s[1..]));
      InsertSorts(s[0], Ascending(s[1..]));
      assert s == [s[0]] + s[1..];
    }
  }

  lemma TailMultiset(s: seq<u64>)
    requires s != []
    ensures multiset(s) == multiset(s[1..]) + multiset{s[0]}
    ensures s == [s[0]] + s[1..]
  {
    assert s == [s[0]] + s[1..];
  }

  lemma LeastIsFirst(s: seq<u64>, t: seq<u64>)
    requires Sorted(s) && Sorted(t) && multiset(s) == multiset(t) && s != []
    ensures t != [] && s[0] == t[0]
  {
    var k := IndexOf(t, s[0]);
    assert t[0] in multiset(s);
    var j := IndexOf(s, t[0]);
  }

  /** A sorted sequence is determined by which values it holds how often. */
  lemma {:induction false} SortedIsUnique(s: seq<u64>, t: seq<u64>)
    requires Sorted(s) && Sorted(t) && multiset(s) == multiset(t)
    ensures s == t
    decreases |s|
  {
    if s == [] {
      EmptyFromMultiset(t);
    } else {
      LeastIsFirst(s, t);
      TailMultiset(s);
      TailMultiset(t);
      CancelOne(multiset(s[1..]), multiset(t[1..]), s[0]);
      SortedIsUnique(s[1..], t[1..]);
    }
  }
}
