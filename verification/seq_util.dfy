/**
  Sequence and set helpers shared by every part of the model: duplicate-free
  sequences, occurrence counting (the role of `collections.Counter`),
  order-preserving de-duplication (the role of `dict.fromkeys`) and ascending
  enumeration of a finite set of integers (the order in which the model
  iterates a set).
*/
module SeqUtil {

  /** No element occurs twice. */
  predicate NoDups<T(==)>(s: seq<T>) {
    forall i, j :: 0 <= i < j < |s| ==> s[i] != s[j]
  }

  /** Concatenating two duplicate-free sequences with no common element keeps it so. */
  lemma NoDupsAppend<T>(a: seq<T>, b: seq<T>)
    requires NoDups(a) && NoDups(b)
    requires forall x :: x in a ==> x !in b
    ensures NoDups(a + b)
  {
    forall i, j | 0 <= i < j < |a + b| ensures (a + b)[i] != (a + b)[j] {
      if i < |a| && |a| <= j {
        assert (a + b)[i] in a && (a + b)[j] == b[j - |a|];
      }
    }
  }

  /** The set of elements of a sequence. */
  function Elems<T>(s: seq<T>): set<T> {
    set x | x in s
  }

  /** Number of occurrences of `x` in `s`. */
  function Count<T(==)>(s: seq<T>, x: T): (n: nat)
    ensures n <= |s|
    ensures n == 0 <==> x !in s
  {
    if s == [] then 0 else (if s[0] == x then 1 else 0) + Count(s[1..], x)
  }

  lemma {:induction false} CountAppend<T>(a: seq<T>, b: seq<T>, x: T)
    ensures Count(a + b, x) == Count(a, x) + Count(b, x)
    decreases |a|
  {
    if a != [] {
      assert (a + b)[1..] == a[1..] + b;
      CountAppend(a[1..], b, x);
    } else {
      assert a + b == b;
    }
  }

  /** An element occurs at most once in a duplicate-free sequence. */
  lemma {:induction false} CountNoDups<T>(s: seq<T>, x: T)
    requires NoDups(s)
    ensures Count(s, x) == if x in s then 1 else 0
    decreases |s|
  {
    if s != [] {
      CountNoDups(s[1..], x);
    }
  }

  /** Two distinct positions holding `x` make its count at least two. */
  lemma {:induction false} CountTwoPositions<T>(s: seq<T>, i: int, j: int)
    requires 0 <= i < j < |s| && s[i] == s[j]
    ensures Count(s, s[i]) >= 2
    decreases |s|
  {
    if i > 0 {
      CountTwoPositions(s[1..], i - 1, j - 1);
    } else {
      assert s[1..][j - 1] == s[j];
    }
  }

  /** Elements of `b` that do not occur in `seen`, in their order in `b`. */
  function Unseen<T(==,!new)>(b: seq<T>, seen: seq<T>): (r: seq<T>)
    ensures forall x :: x in r <==> x in b && x !in seen
    ensures NoDups(b) ==> NoDups(r)
    decreases |b|
  {
    if b == [] then []
    else
      var init := b[..|b| - 1];
      var last := b[|b| - 1];
      assert forall x :: x in b <==> x in init || x == last;
      assert NoDups(b) ==> NoDups(init) && last !in init;
      Unseen(init, seen) + (if last in seen then [] else [last])
  }

  /** Position of the first occurrence of `x` in `s`, or `|s|` when it does not occur. */
  function IndexOf<T(==)>(s: seq<T>, x: T): (i: nat)
    ensures i <= |s|
    ensures i < |s| <==> x in s
    ensures i < |s| ==> s[i] == x
    ensures forall j :: 0 <= j < i ==> s[j] != x
    decreases |s|
  {
    if s == [] then 0
    else if s[0] == x then 0
    else
      var i := 1 + IndexOf(s[1..], x);
      assert forall j :: 1 <= j < i ==> s[j] == s[1..][j - 1];
      i
  }

  /** A sequence of at most one element holds no two different values. */
  lemma ShortMembers<T>(s: seq<T>, x: T, y: T)
    requires |s| <= 1 && x in s && y in s
    ensures x == y
  {
  }

  /** Indexing past the first part of a concatenation reads the second part. */
  lemma AppendIndex<T>(a: seq<T>, b: seq<T>, k: int)
    requires |a| <= k < |a| + |b|
    ensures (a + b)[k] == b[k - |a|] && b[k - |a|] in b
  {
  }

  /** In a list without repeats, an element of the tail is one further on than in the tail. */
  lemma IndexOfTail<T>(s: seq<T>, x: T)
    requires s != [] && NoDups(s) && x in s[1..]
    ensures IndexOf(s, x) == 1 + IndexOf(s[1..], x)
  {
    var k :| 0 <= k < |s[1..]| && s[1..][k] == x;
    assert s[k + 1] == x;
  }

  /** A first occurrence in `a + b` lies in `a` when `x` does, else it is shifted past `a`. */
  lemma {:induction false} IndexOfAppend<T>(a: seq<T>, b: seq<T>, x: T)
    ensures IndexOf(a + b, x) == if x in a then IndexOf(a, x) else |a| + IndexOf(b, x)
    decreases |a|
  {
    if a == [] {
      assert a + b == b;
    } else {
      assert (a + b)[1..] == a[1..] + b;
      assert x in a <==> x == a[0] || x in a[1..];
      IndexOfAppend(a[1..], b, x);
    }
  }

  /** The elements of `r` come in the order of their first occurrences in `s`. */
  predicate FirstOccurrenceOrder<T(==)>(r: seq<T>, s: seq<T>) {
    forall i, j :: 0 <= i < j < |r| ==> IndexOf(s, r[i]) < IndexOf(s, r[j])
  }

  /**
    Order-preserving de-duplication: every element is kept at its first
    occurrence, as `list(dict.fromkeys(s))` and the key order of a Counter do.
  */
  function Dedup<T(==,!new)>(s: seq<T>): (r: seq<T>)
    ensures NoDups(r)
    ensures forall x :: x in r <==> x in s
    ensures FirstOccurrenceOrder(r, s)
    decreases |s|
  {
    if s == [] then []
    else
      var init := s[..|s| - 1];
      var last := s[|s| - 1];
      assert forall x :: x in s <==> x in init || x == last;
      var d := Dedup(init);
      DedupStep(init, last, d);
      assert init + [last] == s;
      if last in init then d else d + [last]
  }

  /** One step of `Dedup`: the de-duplicated prefix keeps its order, and a new last element goes after it. */
  lemma DedupStep<T>(init: seq<T>, last: T, d: seq<T>)
    requires forall x :: x in d ==> x in init
    requires FirstOccurrenceOrder(d, init)
    ensures FirstOccurrenceOrder(d, init + [last])
    ensures last !in init ==> FirstOccurrenceOrder(d + [last], init + [last])
  {
    forall x | x in d ensures IndexOf(init + [last], x) == IndexOf(init, x) < |init| {
      IndexOfAppend(init, [last], x);
    }
    IndexOfAppend(init, [last], last);
    if last !in init {
      var r := d + [last];
      forall i, j | 0 <= i < j < |r| ensures IndexOf(init + [last], r[i]) < IndexOf(init + [last], r[j]) {
        assert r[i] == d[i] && d[i] in d;
        if j < |d| {
          assert r[j] == d[j] && d[j] in d;
        }
      }
    }
  }

  /** A sequence without duplicates is its own de-duplication. */
  lemma {:induction false} DedupOfNoDups<T(!new)>(s: seq<T>)
    requires NoDups(s)
    ensures Dedup(s) == s
    decreases |s|
  {
    if s != [] {
      var init := s[..|s| - 1];
      assert init + [s[|s| - 1]] == s;
      assert NoDups(init) && s[|s| - 1] !in init;
      DedupOfNoDups(init);
    }
  }

  /**
    De-duplicating two duplicate-free sequences one after the other keeps the
    first whole and then the elements of the second not seen in the first.
  */
  lemma {:induction false} DedupAppend<T(!new)>(a: seq<T>, b: seq<T>)
    requires NoDups(a) && NoDups(b)
    ensures Dedup(a + b) == a + Unseen(b, a)
    decreases |b|
  {
    if b == [] {
      assert a + b == a;
      DedupOfNoDups(a);
    } else {
      var init := b[..|b| - 1];
      var last := b[|b| - 1];
      assert NoDups(init);
      assert last !in init;
      DedupAppend(a, init);
      assert (a + b)[..|a + b| - 1] == a + init;
      assert (a + b)[|a + b| - 1] == last;
      assert last in a + init <==> last in a;
      assert Unseen(b, a) == Unseen(init, a) + (if last in a then [] else [last]);
      assert Dedup(a + b) == if last in a + init then Dedup(a + init) else Dedup(a + init) + [last];
      assert a + Unseen(b, a) == (a + Unseen(init, a)) + (if last in a then [] else [last]);
    }
  }

  /** The keys of `keys` whose count in `stream` is exactly `k`, in key order. */
  function KeysWithCount<T(==,!new)>(keys: seq<T>, stream: seq<T>, k: nat): (r: seq<T>)
    ensures forall x :: x in r <==> x in keys && Count(stream, x) == k
    ensures NoDups(keys) ==> NoDups(r)
    ensures forall order: seq<T> :: FirstOccurrenceOrder(keys, order) ==> FirstOccurrenceOrder(r, order)
    decreases |keys|
  {
    if keys == [] then []
    else
      assert forall x :: x in keys <==> x == keys[0] || x in keys[1..];
      var head := if Count(stream, keys[0]) == k then [keys[0]] else [];
      var rest := KeysWithCount(keys[1..], stream, k);
      forall order: seq<T> | FirstOccurrenceOrder(keys, order) ensures FirstOccurrenceOrder(head + rest, order) {
        assert FirstOccurrenceOrder(keys[1..], order) by {
          forall i, j | 0 <= i < j < |keys[1..]| ensures IndexOf(order, keys[1..][i]) < IndexOf(order, keys[1..][j]) {
            assert keys[1..][i] == keys[i + 1] && keys[1..][j] == keys[j + 1];
          }
        }
        SubsequenceOrder(keys[0], keys[1..], head, rest, order);
      }
      head + rest
  }

  /** Putting the first key, when kept, before the kept later keys respects the order of `keys`. */
  lemma SubsequenceOrder<T>(first: T, later: seq<T>, head: seq<T>, rest: seq<T>, order: seq<T>)
    requires forall j :: 0 <= j < |later| ==> IndexOf(order, first) < IndexOf(order, later[j])
    requires head == [] || head == [first]
    requires forall x :: x in rest ==> x in later
    requires FirstOccurrenceOrder(rest, order)
    ensures FirstOccurrenceOrder(head + rest, order)
  {
    forall i, j | 0 <= i < j < |head + rest| ensures IndexOf(order, (head + rest)[i]) < IndexOf(order, (head + rest)[j]) {
      SubsequencePair(first, later, head, rest, order, i, j);
    }
  }

  /** `SubsequenceOrder` for one pair of positions. */
  lemma SubsequencePair<T>(first: T, later: seq<T>, head: seq<T>, rest: seq<T>, order: seq<T>, i: int, j: int)
    requires forall j :: 0 <= j < |later| ==> IndexOf(order, first) < IndexOf(order, later[j])
    requires head == [] || head == [first]
    requires forall x :: x in rest ==> x in later
    requires FirstOccurrenceOrder(rest, order)
    requires 0 <= i < j < |head + rest|
    ensures IndexOf(order, (head + rest)[i]) < IndexOf(order, (head + rest)[j])
  {
    AppendIndex(head, rest, j);
    if i < |head| {
      var k :| 0 <= k < |later| && later[k] == rest[j - |head|];
    } else {
      AppendIndex(head, rest, i);
    }
  }

  /**
    The entries of `Counter(stream)` whose count is `k`, in the Counter's
    key order (order of first occurrence in the stream).
  */
  function CounterKeys<T(==,!new)>(stream: seq<T>, k: nat): (r: seq<T>)
    ensures forall x :: x in r <==> x in stream && Count(stream, x) == k
    ensures NoDups(r)
    ensures FirstOccurrenceOrder(r, stream)
  {
    KeysWithCount(Dedup(stream), stream, k)
  }

  /** The least element of a non-empty finite set of integers. */
  function Min(s: set<int>): (m: int)
    requires s != {}
    ensures m in s && forall x :: x in s ==> m <= x
  {
    MinExists(s);
    var m :| m in s && forall x :: x in s ==> m <= x;
    m
  }

  /** A non-empty set has an element. */
  lemma NonEmptyHasElement(s: set<int>)
    requires s != {}
    ensures exists y :: y in s
  {
    if forall y :: y !in s {
      assert false;
    }
  }

  lemma {:induction false} MinExists(s: set<int>)
    requires s != {}
    ensures exists m :: m in s && forall x :: x in s ==> m <= x
    decreases |s|
  {
    NonEmptyHasElement(s);
    var y :| y in s;
    if s != {y} {
      var rest := s - {y};
      assert forall x :: x in s ==> x == y || x in rest;
      MinExists(rest);
      var m :| m in rest && forall x :: x in rest ==> m <= x;
      if y < m {
        assert forall x :: x in s ==> y <= x;
      } else {
        assert forall x :: x in s ==> m <= x;
      }
    } else {
      assert forall x :: x in s ==> y <= x;
    }
  }

  /** A finite set of integers enumerated in ascending order. */
  function Ascending(s: set<int>): (r: seq<int>)
    ensures forall x :: x in r <==> x in s
    ensures forall i, j :: 0 <= i < j < |r| ==> r[i] < r[j]
    ensures NoDups(r)
    decreases |s|
  {
    if s == {} then []
    else
      var m := Min(s);
      var rest := Ascending(s - {m});
      assert forall x :: x in rest ==> m < x;
      IncreasingCons(m, rest);
      [m] + rest
  }

  /** A value below every element of an increasing sequence can be put in front of it. */
  lemma IncreasingCons(m: int, rest: seq<int>)
    requires forall i, j :: 0 <= i < j < |rest| ==> rest[i] < rest[j]
    requires forall x :: x in rest ==> m < x
    ensures forall i, j :: 0 <= i < j < |[m] + rest| ==> ([m] + rest)[i] < ([m] + rest)[j]
    ensures forall x :: x in [m] + rest <==> x == m || x in rest
  {
    var r := [m] + rest;
    forall i, j | 0 <= i < j < |r| ensures r[i] < r[j] {
      assert r[j] == rest[j - 1] && rest[j - 1] in rest;
      if i > 0 {
        assert r[i] == rest[i - 1];
      }
    }
  }

  /** The first `n` elements of `s` (all of it when it is shorter). */
  function Take<T>(s: seq<T>, n: nat): (r: seq<T>)
    ensures |r| == if n < |s| then n else |s|
    ensures r <= s
  {
    if n < |s| then s[..n] else s
  }

  lemma TakeAppend<T>(a: seq<T>, b: seq<T>, n: nat)
    ensures Take(a + b, n) == Take(a, n) + Take(b, n - |Take(a, n)|)
  {
    if n < |a| {
      assert (a + b)[..n] == a[..n];
    } else if n < |a| + |b| {
      assert (a + b)[..n] == a + b[..n - |a|];
    }
  }

  /** A sequence has at most as many distinct elements as positions. */
  lemma {:induction false} CardElems<T>(s: seq<T>)
    ensures |Elems(s)| <= |s|
    decreases |s|
  {
    if s != [] {
      CardElems(s[1..]);
      assert Elems(s) == {s[0]} + Elems(s[1..]);
    }
  }

  /** Without duplicates, it has exactly as many. */
  lemma {:induction false} CardElemsNoDups<T>(s: seq<T>)
    requires NoDups(s)
    ensures |Elems(s)| == |s|
    decreases |s|
  {
    if s != [] {
      CardElemsNoDups(s[1..]);
      assert Elems(s) == {s[0]} + Elems(s[1..]);
      assert s[0] !in Elems(s[1..]);
    }
  }

  /** With a repeated element, it has strictly fewer. */
  lemma CardElemsDup<T>(s: seq<T>, i: int, j: int)
    requires 0 <= i < j < |s| && s[i] == s[j]
    ensures |Elems(s)| < |s|
  {
    var t := s[..j] + s[j + 1..];
    assert Elems(s) == Elems(t) by {
      forall x | x in Elems(s) ensures x in Elems(t) {
        var k :| 0 <= k < |s| && s[k] == x;
        if k < j { assert t[k] == x; }
        else if k == j { assert t[i] == x; }
        else { assert t[k - 1] == x; }
      }
    }
    CardElems(t);
  }
}
