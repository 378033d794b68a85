/**
  Hidden pair over a list of cells: when two digits are each listed by
  exactly two unset cells of a house, and those are the same two cells,
  the two digits go into those two cells, so both cells may drop every
  other candidate.

  The digits are counted as the hidden single counts them. The 2-element
  combinations of a cell's candidates are taken in the order of the
  ascending enumeration, so each is a pair (a, b) with a < b.
*/
module HiddenPair {
  import opened SeqUtil
  import opened CoreTypes
  import opened Board
  import opened Deduction
  import HiddenSingle

  /** Tuple order on digit pairs: by first digit, then by second. */
  predicate PairLess(a: (int, int), b: (int, int)) {
    a.0 < b.0 || (a.0 == b.0 && a.1 < b.1)
  }

  /** Strictly increasing in tuple order. */
  predicate LexSorted(prs: seq<(int, int)>) {
    forall i, j :: 0 <= i < j < |prs| ==> PairLess(prs[i], prs[j])
  }

  /**
    All 2-element combinations of `xs`, in the order `itertools.combinations`
    yields them: for ascending input, each pair (a, b) with a < b taken from
    `xs` once, in tuple order.
  */
  function Combinations2(xs: seq<int>): (prs: seq<(int, int)>)
    ensures (forall i, j :: 0 <= i < j < |xs| ==> xs[i] < xs[j]) ==>
      (forall pr :: pr in prs <==> pr.0 in xs && pr.1 in xs && pr.0 < pr.1) && NoDups(prs) && LexSorted(prs)
    decreases |xs|
  {
    if xs == [] then []
    else
      var head := WithFirst(xs);
      var rest := Combinations2(xs[1..]);
      assert (forall i, j :: 0 <= i < j < |xs| ==> xs[i] < xs[j]) ==>
        (forall pr :: pr in head + rest <==> pr.0 in xs && pr.1 in xs && pr.0 < pr.1) && NoDups(head + rest) &&
        LexSorted(head + rest) by {
        if forall i, j :: 0 <= i < j < |xs| ==> xs[i] < xs[j] {
          CombinationsStep(xs, head, rest);
        }
      }
      head + rest
  }

  /** The pairs (xs[0], y) for every later y, in order. */
  function WithFirst(xs: seq<int>): (prs: seq<(int, int)>)
    requires xs != []
    ensures forall pr :: pr in prs <==> pr.0 == xs[0] && pr.1 in xs[1..]
    ensures NoDups(xs) ==> NoDups(prs)
    ensures (forall i, j :: 0 <= i < j < |xs| ==> xs[i] < xs[j]) ==> LexSorted(prs)
  {
    var prs := seq(|xs| - 1, k requires 0 <= k < |xs| - 1 => (xs[0], xs[k + 1]));
    forall y | y in xs[1..] ensures (xs[0], y) in prs {
      var k :| 0 <= k < |xs[1..]| && xs[1..][k] == y;
      assert prs[k] == (xs[0], y);
    }
    assert NoDups(xs) ==> NoDups(prs) by {
      if NoDups(xs) {
        forall i, j | 0 <= i < j < |prs| ensures prs[i] != prs[j] {
          assert xs[i + 1] != xs[j + 1];
        }
      }
    }
    prs
  }

  lemma CombinationsStep(xs: seq<int>, head: seq<(int, int)>, rest: seq<(int, int)>)
    requires xs != [] && forall i, j :: 0 <= i < j < |xs| ==> xs[i] < xs[j]
    requires forall pr :: pr in head <==> pr.0 == xs[0] && pr.1 in xs[1..]
    requires NoDups(xs) ==> NoDups(head)
    requires LexSorted(head)
    requires forall pr :: pr in rest <==> pr.0 in xs[1..] && pr.1 in xs[1..] && pr.0 < pr.1
    requires NoDups(rest) && LexSorted(rest)
    ensures forall pr :: pr in head + rest <==> pr.0 in xs && pr.1 in xs && pr.0 < pr.1
    ensures NoDups(head + rest)
    ensures LexSorted(head + rest)
  {
    assert forall y :: y in xs[1..] ==> xs[0] < y by {
      forall y | y in xs[1..] ensures xs[0] < y {
        var k :| 0 <= k < |xs[1..]| && xs[1..][k] == y;
        assert xs[k + 1] == y;
      }
    }
    assert forall y :: y in xs <==> y == xs[0] || y in xs[1..];
    NoDupsAppend(head, rest);
    var r := head + rest;
    forall i, j | 0 <= i < j < |r| ensures PairLess(r[i], r[j]) {
      if j < |head| {
        assert r[i] == head[i] && r[j] == head[j];
      } else if i < |head| {
        assert r[i] == head[i] && head[i] in head;
        assert r[j] == rest[j - |head|] && rest[j - |head|] in rest;
      } else {
        assert r[i] == rest[i - |head|] && r[j] == rest[j - |head|];
      }
    }
  }

  /** The combinations whose two digits are both counted exactly twice, in order. */
  function Qualifying(prs: seq<(int, int)>, ds: seq<int>): (r: seq<(int, int)>)
    ensures forall pr :: pr in r <==> pr in prs && Count(ds, pr.0) == 2 && Count(ds, pr.1) == 2
    ensures NoDups(prs) ==> NoDups(r)
    ensures LexSorted(prs) ==> LexSorted(r)
    decreases |prs|
  {
    if prs == [] then []
    else
      assert forall pr :: pr in prs <==> pr == prs[0] || pr in prs[1..];
      var head := if Count(ds, prs[0].0) == 2 && Count(ds, prs[0].1) == 2 then [prs[0]] else [];
      var rest := Qualifying(prs[1..], ds);
      assert LexSorted(prs) ==> LexSorted(head + rest) by {
        if LexSorted(prs) {
          LexSortedTail(prs);
          LexSortedCons(prs[0], head, rest);
        }
      }
      head + rest
  }

  /** The tail of a sorted list is sorted, and its head precedes all of it. */
  lemma LexSortedTail(prs: seq<(int, int)>)
    requires prs != [] && LexSorted(prs)
    ensures LexSorted(prs[1..])
    ensures forall x :: x in prs[1..] ==> PairLess(prs[0], x)
  {
    forall i, j | 0 <= i < j < |prs[1..]| ensures PairLess(prs[1..][i], prs[1..][j]) {
      assert prs[1..][i] == prs[i + 1] && prs[1..][j] == prs[j + 1];
    }
    forall x | x in prs[1..] ensures PairLess(prs[0], x) {
      var k :| 0 <= k < |prs[1..]| && prs[1..][k] == x;
      assert prs[k + 1] == x;
    }
  }

  /** A pair before every pair of a sorted list, when kept, can go in front of it. */
  lemma LexSortedCons(first: (int, int), head: seq<(int, int)>, rest: seq<(int, int)>)
    requires head == [] || head == [first]
    requires forall x :: x in rest ==> PairLess(first, x)
    requires LexSorted(rest)
    ensures LexSorted(head + rest)
  {
    var r := head + rest;
    forall i, j | 0 <= i < j < |r| ensures PairLess(r[i], r[j]) {
      assert r[j] == rest[j - |head|] && rest[j - |head|] in rest;
      if i >= |head| {
        assert r[i] == rest[i - |head|];
      }
    }
  }

  /** The unset cells of the list whose candidates include both digits of `pr`, in list order. */
  function BothHolders(g: Grid, cs: CandidateGrid, cells: seq<Cell>, pr: (int, int)): (hs: seq<Cell>)
    requires IsGrid(g) && IsCandidateGrid(cs) && AllInRange(cells)
    ensures forall c :: c in hs <==> c in cells && At(g, c) == 0 && pr.0 in CandsAt(cs, c) && pr.1 in CandsAt(cs, c)
    ensures RowMajor(cells) ==> RowMajor(hs)
    decreases |cells|
  {
    if cells == [] then []
    else
      var c := cells[0];
      var rest := BothHolders(g, cs, cells[1..], pr);
      assert forall x :: x in cells <==> x == c || x in cells[1..];
      assert RowMajor(cells) ==> forall k :: 0 <= k < |rest| ==> Before(c, rest[k]) by {
        if RowMajor(cells) {
          forall k | 0 <= k < |rest| ensures Before(c, rest[k]) {
            assert rest[k] in rest;
            RowMajorTail(cells, rest[k]);
          }
        }
      }
      (if At(g, c) == 0 && pr.0 in CandsAt(cs, c) && pr.1 in CandsAt(cs, c) then [c] else []) + rest
  }

  /**
    The pairs one cell contributes to the second counter: none for a set
    cell, else the combinations of its candidates whose digits both have
    count two in `ds`, in tuple order.
  */
  function CellPairs(g: Grid, cs: CandidateGrid, c: Cell, ds: seq<int>): (prs: seq<(int, int)>)
    requires IsGrid(g) && IsCandidateGrid(cs) && InRange(c)
    ensures forall pr :: pr in prs <==>
      At(g, c) == 0 && pr.0 < pr.1 && pr.0 in CandsAt(cs, c) && pr.1 in CandsAt(cs, c) &&
      Count(ds, pr.0) == 2 && Count(ds, pr.1) == 2
    ensures NoDups(prs) && LexSorted(prs)
  {
    if At(g, c) == 0 then Qualifying(Combinations2(Ascending(CandsAt(cs, c))), ds) else []
  }

  /**
    The pairs the second counter reads: for each unset cell in list order,
    the combinations of its candidates whose digits both have count two in
    `ds`.
  */
  function PairStream(g: Grid, cs: CandidateGrid, cells: seq<Cell>, ds: seq<int>): (prs: seq<(int, int)>)
    requires IsGrid(g) && IsCandidateGrid(cs) && AllInRange(cells)
    ensures forall pr ::
      Count(prs, pr) == (if pr.0 < pr.1 && Count(ds, pr.0) == 2 && Count(ds, pr.1) == 2 then |BothHolders(g, cs, cells, pr)| else 0)
    decreases |cells|
  {
    if cells == [] then []
    else
      var c := cells[0];
      var head := CellPairs(g, cs, c, ds);
      var rest := PairStream(g, cs, cells[1..], ds);
      forall pr ensures Count(head + rest, pr) ==
        (if pr.0 < pr.1 && Count(ds, pr.0) == 2 && Count(ds, pr.1) == 2 then |BothHolders(g, cs, cells, pr)| else 0)
      {
        CountAppend(head, rest, pr);
        CountNoDups(head, pr);
      }
      head + rest
  }

  /**
    `pr` is a hidden pair of the list: a < b, each digit is listed by
    exactly two unset cells, and exactly two unset cells list both.
  */
  predicate IsHiddenPair(g: Grid, cs: CandidateGrid, cells: seq<Cell>, pr: (int, int))
    requires IsGrid(g) && IsCandidateGrid(cs) && AllInRange(cells)
  {
    pr.0 < pr.1 && |Holders(g, cs, cells, pr.0)| == 2 && |Holders(g, cs, cells, pr.1)| == 2 &&
    |BothHolders(g, cs, cells, pr)| == 2
  }

  /** `p` is read before `q` at a cell: its first holder comes first, or they share it and `p` is the smaller pair. */
  predicate HolderOrder(g: Grid, cs: CandidateGrid, cells: seq<Cell>, p: (int, int), q: (int, int))
    requires IsGrid(g) && IsCandidateGrid(cs) && AllInRange(cells)
  {
    |BothHolders(g, cs, cells, p)| > 0 && |BothHolders(g, cs, cells, q)| > 0 &&
    (Before(BothHolders(g, cs, cells, p)[0], BothHolders(g, cs, cells, q)[0]) ||
     (BothHolders(g, cs, cells, p)[0] == BothHolders(g, cs, cells, q)[0] && PairLess(p, q)))
  }

  /** In a sorted list, an earlier first position means a smaller pair. */
  lemma SortedIndexOf(prs: seq<(int, int)>, p: (int, int), q: (int, int))
    requires LexSorted(prs) && p in prs && q in prs && IndexOf(prs, p) < IndexOf(prs, q)
    ensures PairLess(p, q)
  {
  }

  /**
    In the pair stream of a row-major list, a pair first read before
    another is the earlier one in holder order.
  */
  lemma {:induction false} StreamOrder(g: Grid, cs: CandidateGrid, cells: seq<Cell>, ds: seq<int>, p: (int, int), q: (int, int))
    requires IsGrid(g) && IsCandidateGrid(cs) && AllInRange(cells) && RowMajor(cells)
    requires p in PairStream(g, cs, cells, ds) && q in PairStream(g, cs, cells, ds)
    requires IndexOf(PairStream(g, cs, cells, ds), p) < IndexOf(PairStream(g, cs, cells, ds), q)
    ensures HolderOrder(g, cs, cells, p, q)
    decreases |cells|
  {
    var c := cells[0];
    var head := CellPairs(g, cs, c, ds);
    var rest := PairStream(g, cs, cells[1..], ds);
    assert PairStream(g, cs, cells, ds) == head + rest;
    IndexOfAppend(head, rest, p);
    IndexOfAppend(head, rest, q);
    RowMajorHead(cells);
    StreamQualifies(g, cs, cells, ds, p);
    StreamQualifies(g, cs, cells, ds, q);
    if p in head {
      if q in head {
        SortedIndexOf(head, p, q);
      } else {
        StreamQualifies(g, cs, cells[1..], ds, q);
        var tail := BothHolders(g, cs, cells[1..], q);
        assert tail[0] in tail;
      }
    } else {
      StreamOrder(g, cs, cells[1..], ds, p, q);
    }
  }

  /** A pair read from the stream has both digits counted twice and a holder in the list. */
  lemma StreamQualifies(g: Grid, cs: CandidateGrid, cells: seq<Cell>, ds: seq<int>, pr: (int, int))
    requires IsGrid(g) && IsCandidateGrid(cs) && AllInRange(cells)
    requires pr in PairStream(g, cs, cells, ds)
    ensures pr.0 < pr.1 && Count(ds, pr.0) == 2 && Count(ds, pr.1) == 2
    ensures |BothHolders(g, cs, cells, pr)| > 0
  {
    assert Count(PairStream(g, cs, cells, ds), pr) > 0;
  }

  /**
    The hidden pairs, in the second counter's key order: over a row-major
    list, by first cell listing both digits, then in tuple order.
  */
  function HiddenPairs(g: Grid, cs: CandidateGrid, cells: seq<Cell>): (prs: seq<(int, int)>)
    requires IsGrid(g) && IsCandidateGrid(cs) && AllInRange(cells)
    ensures forall pr :: pr in prs <==> IsHiddenPair(g, cs, cells, pr)
    ensures NoDups(prs)
    ensures RowMajor(cells) ==> forall i, j :: 0 <= i < j < |prs| ==> HolderOrder(g, cs, cells, prs[i], prs[j])
  {
    var ds := HiddenSingle.DigitStream(g, cs, cells);
    var stream := PairStream(g, cs, cells, ds);
    assert forall pr :: Count(stream, pr) == 2 ==> pr in stream;
    var prs := CounterKeys(stream, 2);
    assert RowMajor(cells) ==> forall i, j :: 0 <= i < j < |prs| ==> HolderOrder(g, cs, cells, prs[i], prs[j]) by {
      if RowMajor(cells) {
        forall i, j | 0 <= i < j < |prs| ensures HolderOrder(g, cs, cells, prs[i], prs[j]) {
          assert prs[i] in prs && prs[j] in prs;
          StreamOrder(g, cs, cells, ds, prs[i], prs[j]);
        }
      }
    }
    prs
  }

  /**
    Two different hidden pairs never remove the same non-empty candidates:
    a cell both strip lists all four digits, and a digit of one pair that
    is not in the other is removed from it by the other only.
  */
  lemma DifferentPairsDifferentEliminations(g: Grid, cs: CandidateGrid, cells: seq<Cell>, p: (int, int), q: (int, int))
    requires IsGrid(g) && IsCandidateGrid(cs) && AllInRange(cells)
    requires IsHiddenPair(g, cs, cells, p) && IsHiddenPair(g, cs, cells, q) && p != q
    requires PairEliminations(g, cs, cells, p) != []
    ensures PairEliminations(g, cs, cells, p) != PairEliminations(g, cs, cells, q)
  {
    var xs := PairEliminations(g, cs, cells, p);
    var a := xs[0].cell;
    assert xs[0] in xs;
    if xs[0] in PairEliminations(g, cs, cells, q) {
      if p.0 != q.0 && p.0 != q.1 {
        assert Candidate(a, p.0) in PairEliminations(g, cs, cells, q) && Candidate(a, p.0) !in xs;
      } else if p.1 != q.0 && p.1 != q.1 {
        assert Candidate(a, p.1) in PairEliminations(g, cs, cells, q) && Candidate(a, p.1) !in xs;
      }
    }
  }

  /**
    The candidates a hidden pair removes: for each unset cell of the list
    listing both pair digits, its other candidates, cell by cell with
    digits ascending.
  */
  function PairEliminations(g: Grid, cs: CandidateGrid, cells: seq<Cell>, pr: (int, int)): (xs: seq<Candidate>)
    requires IsGrid(g) && IsCandidateGrid(cs) && AllInRange(cells)
    ensures forall x :: x in xs <==>
      x.cell in cells && At(g, x.cell) == 0 && pr.0 in CandsAt(cs, x.cell) && pr.1 in CandsAt(cs, x.cell) &&
      x.digit in CandsAt(cs, x.cell) && x.digit != pr.0 && x.digit != pr.1
    decreases |cells|
  {
    if cells == [] then []
    else
      var c := cells[0];
      assert forall x :: x in cells <==> x == c || x in cells[1..];
      (if At(g, c) == 0 && pr.0 in CandsAt(cs, c) && pr.1 in CandsAt(cs, c)
       then CellCandidates(c, Ascending(CandsAt(cs, c)), {pr.0, pr.1}, false) else [])
        + PairEliminations(g, cs, cells[1..], pr)
  }

  /** Over a row-major list the removed candidates are cell-major, digits ascending. */
  lemma {:induction false} PairEliminationsOrder(g: Grid, cs: CandidateGrid, cells: seq<Cell>, pr: (int, int))
    requires IsGrid(g) && IsCandidateGrid(cs) && AllInRange(cells) && RowMajor(cells)
    ensures CellMajor(PairEliminations(g, cs, cells, pr))
    decreases |cells|
  {
    if cells != [] {
      var c := cells[0];
      var head := if At(g, c) == 0 && pr.0 in CandsAt(cs, c) && pr.1 in CandsAt(cs, c)
        then CellCandidates(c, Ascending(CandsAt(cs, c)), {pr.0, pr.1}, false) else [];
      var rest := PairEliminations(g, cs, cells[1..], pr);
      PairEliminationsOrder(g, cs, cells[1..], pr);
      CellCandidatesOrder(c, Ascending(CandsAt(cs, c)), {pr.0, pr.1}, false);
      LaterEliminations(g, cs, cells, pr);
      CellMajorCons(c, head, rest);
    }
  }

  /** Over a row-major list, the eliminations of the later cells lie after the first cell. */
  lemma LaterEliminations(g: Grid, cs: CandidateGrid, cells: seq<Cell>, pr: (int, int))
    requires IsGrid(g) && IsCandidateGrid(cs) && AllInRange(cells) && RowMajor(cells) && cells != []
    ensures forall x :: x in PairEliminations(g, cs, cells[1..], pr) ==> Before(cells[0], x.cell)
  {
    forall x | x in PairEliminations(g, cs, cells[1..], pr) ensures Before(cells[0], x.cell) {
      RowMajorTail(cells, x.cell);
    }
  }

  /** The candidates each pair removes, one list per pair, in pair order. */
  function PairLists(g: Grid, cs: CandidateGrid, cells: seq<Cell>, prs: seq<(int, int)>): (lists: seq<seq<Candidate>>)
    requires IsGrid(g) && IsCandidateGrid(cs) && AllInRange(cells)
    ensures |lists| == |prs|
    ensures forall k :: 0 <= k < |prs| ==> lists[k] == PairEliminations(g, cs, cells, prs[k])
  {
    seq(|prs|, k requires 0 <= k < |prs| => PairEliminations(g, cs, cells, prs[k]))
  }

  /** One elimination per pair, in pair order, dropping those that remove nothing. */
  function Eliminations(g: Grid, cs: CandidateGrid, cells: seq<Cell>, prs: seq<(int, int)>): (es: seq<Elimination>)
    requires IsGrid(g) && IsCandidateGrid(cs) && AllInRange(cells)
    ensures forall e :: e in es ==>
      e.candidates != [] && exists pr :: pr in prs && e.candidates == PairEliminations(g, cs, cells, pr)
    ensures forall pr :: pr in prs && PairEliminations(g, cs, cells, pr) != [] ==>
      Elimination(PairEliminations(g, cs, cells, pr)) in es
    ensures |es| <= |prs|
  {
    var lists := PairLists(g, cs, cells, prs);
    var es := NonEmpty(lists);
    forall e | e in es ensures exists pr :: pr in prs && e.candidates == PairEliminations(g, cs, cells, pr) {
      var k :| 0 <= k < |lists| && lists[k] == e.candidates;
      assert prs[k] in prs;
    }
    forall pr | pr in prs && PairEliminations(g, cs, cells, pr) != [] ensures Elimination(PairEliminations(g, cs, cells, pr)) in es {
      var k :| 0 <= k < |prs| && prs[k] == pr;
      assert lists[k] in lists;
    }
    es
  }

  /** The hidden pairs of a list remove pairwise different candidates, when they remove any. */
  lemma HiddenPairsDistinct(g: Grid, cs: CandidateGrid, cells: seq<Cell>)
    requires IsGrid(g) && IsCandidateGrid(cs) && AllInRange(cells)
    ensures DistinctNonEmpty(PairLists(g, cs, cells, HiddenPairs(g, cs, cells)))
  {
    var prs := HiddenPairs(g, cs, cells);
    var lists := PairLists(g, cs, cells, prs);
    forall k, l | 0 <= k < l < |lists| && lists[k] != [] ensures lists[k] != lists[l] {
      assert prs[k] in prs && prs[l] in prs;
      DifferentPairsDifferentEliminations(g, cs, cells, prs[k], prs[l]);
    }
  }

  /** The eliminations come in the holder order of their hidden pairs. */
  ghost predicate PairOrder(g: Grid, cs: CandidateGrid, cells: seq<Cell>, es: seq<Elimination>)
    requires IsGrid(g) && IsCandidateGrid(cs) && AllInRange(cells)
  {
    forall i, j, p, q ::
      (0 <= i < j < |es| && IsHiddenPair(g, cs, cells, p) && IsHiddenPair(g, cs, cells, q) &&
       es[i].candidates == PairEliminations(g, cs, cells, p) && es[j].candidates == PairEliminations(g, cs, cells, q)) ==>
      HolderOrder(g, cs, cells, p, q)
  }

  /** The eliminations of the hidden pairs of a list are all different. */
  lemma EliminationsDistinct(g: Grid, cs: CandidateGrid, cells: seq<Cell>)
    requires IsGrid(g) && IsCandidateGrid(cs) && AllInRange(cells)
    ensures NoDups(Eliminations(g, cs, cells, HiddenPairs(g, cs, cells)))
  {
    var prs := HiddenPairs(g, cs, cells);
    HiddenPairsDistinct(g, cs, cells);
    assert Eliminations(g, cs, cells, prs) == NonEmpty(PairLists(g, cs, cells, prs));
  }

  /** The eliminations of the hidden pairs of a row-major list follow the holder order of their pairs. */
  lemma EliminationsOrdered(g: Grid, cs: CandidateGrid, cells: seq<Cell>)
    requires IsGrid(g) && IsCandidateGrid(cs) && AllInRange(cells)
    ensures RowMajor(cells) ==> PairOrder(g, cs, cells, Eliminations(g, cs, cells, HiddenPairs(g, cs, cells)))
  {
    var es := Eliminations(g, cs, cells, HiddenPairs(g, cs, cells));
    if RowMajor(cells) {
      forall i, j, p, q |
        0 <= i < j < |es| && IsHiddenPair(g, cs, cells, p) && IsHiddenPair(g, cs, cells, q) &&
        es[i].candidates == PairEliminations(g, cs, cells, p) && es[j].candidates == PairEliminations(g, cs, cells, q)
        ensures HolderOrder(g, cs, cells, p, q)
      {
        EliminationPairOrder(g, cs, cells, i, j, p, q);
      }
    }
  }

  /** Of two eliminations of a row-major list, the earlier belongs to the pair earlier in holder order. */
  lemma EliminationPairOrder(g: Grid, cs: CandidateGrid, cells: seq<Cell>, i: int, j: int, p: (int, int), q: (int, int))
    requires IsGrid(g) && IsCandidateGrid(cs) && AllInRange(cells) && RowMajor(cells)
    requires 0 <= i < j < |Eliminations(g, cs, cells, HiddenPairs(g, cs, cells))|
    requires IsHiddenPair(g, cs, cells, p) && IsHiddenPair(g, cs, cells, q)
    requires Eliminations(g, cs, cells, HiddenPairs(g, cs, cells))[i].candidates == PairEliminations(g, cs, cells, p)
    requires Eliminations(g, cs, cells, HiddenPairs(g, cs, cells))[j].candidates == PairEliminations(g, cs, cells, q)
    ensures HolderOrder(g, cs, cells, p, q)
  {
    var prs := HiddenPairs(g, cs, cells);
    var lists := PairLists(g, cs, cells, prs);
    HiddenPairsDistinct(g, cs, cells);
    var k, l := IndexOf(prs, p), IndexOf(prs, q);
    FirstPosition(lists, k);
    FirstPosition(lists, l);
  }

  /**
    The hidden-pair eliminations of a cell list: one per hidden pair that
    removes something, each removing the other candidates of its two cells.
    No elimination is listed twice, and over a row-major list they come in
    the holder order of their pairs.
  */
  function FindEliminations(g: Grid, cs: CandidateGrid, cells: seq<Cell>): (es: seq<Elimination>)
    requires IsGrid(g) && IsCandidateGrid(cs) && AllInRange(cells)
    ensures forall e :: e in es ==> e.candidates != []
    ensures forall e :: e in es ==>
      exists pr :: IsHiddenPair(g, cs, cells, pr) && e.candidates == PairEliminations(g, cs, cells, pr)
    ensures forall pr :: IsHiddenPair(g, cs, cells, pr) && PairEliminations(g, cs, cells, pr) != [] ==>
      Elimination(PairEliminations(g, cs, cells, pr)) in es
    ensures NoDups(es)
    ensures RowMajor(cells) ==> PairOrder(g, cs, cells, es)
  {
    var prs := HiddenPairs(g, cs, cells);
    var es := Eliminations(g, cs, cells, prs);
    forall e | e in es
      ensures exists pr :: IsHiddenPair(g, cs, cells, pr) && e.candidates == PairEliminations(g, cs, cells, pr)
    {
      var pr :| pr in prs && e.candidates == PairEliminations(g, cs, cells, pr);
      assert IsHiddenPair(g, cs, cells, pr);
    }
    EliminationsDistinct(g, cs, cells);
    EliminationsOrdered(g, cs, cells);
    es
  }

  /**
    In a house whose candidates are kept, bounded and pruned, a digit listed
    by some unset cell is placed by the completion on an unset cell listing
    it.
  */
  lemma DigitLandsOnHolder(g: Grid, cs: CandidateGrid, cells: seq<Cell>, s: Grid, d: int) returns (e: Cell)
    requires IsHouse(cells) && Keeps(g, cs, s) && Bounded(g, cs) && Pruned(g, cs)
    requires |Holders(g, cs, cells, d)| > 0
    ensures e in Holders(g, cs, cells, d) && At(s, e) == d
  {
    HouseFacts(cells);
    var h := Holders(g, cs, cells, d)[0];
    assert h in Holders(g, cs, cells, d);
    assert d in OneToNine;
    e := HouseHoldsDigit(s, cells, d);
    if At(g, e) != 0 {
      HousePeer(cells, h, e);
      assert false;
    }
  }

  /** Two distinct members of a two-element list are all of it. */
  lemma TwoOfTwo(hs: seq<Cell>, a: Cell, b: Cell, c: Cell)
    requires |hs| == 2 && a in hs && b in hs && a != b && c in hs
    ensures c == a || c == b
  {
  }

  /** A two-element duplicate-free list inside another two-element list is all of it. */
  lemma SameTwo(small: seq<Cell>, big: seq<Cell>, c: Cell)
    requires |small| == 2 && |big| == 2 && NoDups(small)
    requires forall x :: x in small ==> x in big
    requires c in big
    ensures c in small
  {
    assert small[0] in big && small[1] in big && small[0] != small[1];
    TwoOfTwo(big, small[0], small[1], c);
  }

  /** The two cells of a hidden pair in a house take the two pair digits between them. */
  lemma PairCellsTakePair(g: Grid, cs: CandidateGrid, cells: seq<Cell>, s: Grid, pr: (int, int), c: Cell)
    requires IsHouse(cells) && Keeps(g, cs, s) && Bounded(g, cs) && Pruned(g, cs)
    requires IsHiddenPair(g, cs, cells, pr)
    requires c in BothHolders(g, cs, cells, pr)
    ensures At(s, c) == pr.0 || At(s, c) == pr.1
  {
    HouseFacts(cells);
    var both := BothHolders(g, cs, cells, pr);
    RowMajorNoDups(both);
    var e := DigitLandsOnHolder(g, cs, cells, s, pr.0);
    var f := DigitLandsOnHolder(g, cs, cells, s, pr.1);
    SameTwo(both, Holders(g, cs, cells, pr.0), e);
    SameTwo(both, Holders(g, cs, cells, pr.1), f);
    TwoOfTwo(both, e, f, c);
  }

  /**
    Hidden pairs are sound on a house: no removed candidate is the digit a
    completion kept by the candidates puts in that cell.
  */
  lemma PairEliminationsSound(g: Grid, cs: CandidateGrid, cells: seq<Cell>, s: Grid, pr: (int, int), x: Candidate)
    requires IsHouse(cells) && Keeps(g, cs, s) && Bounded(g, cs) && Pruned(g, cs)
    requires IsHiddenPair(g, cs, cells, pr)
    requires x in PairEliminations(g, cs, cells, pr)
    ensures At(s, x.cell) != x.digit
  {
    HouseFacts(cells);
    assert x.cell in BothHolders(g, cs, cells, pr);
    PairCellsTakePair(g, cs, cells, s, pr, x.cell);
  }

  /** Every candidate of every hidden-pair elimination over a house is sound. */
  lemma FindEliminationsSound(g: Grid, cs: CandidateGrid, cells: seq<Cell>, s: Grid, e: Elimination, x: Candidate)
    requires IsHouse(cells) && Keeps(g, cs, s) && Bounded(g, cs) && Pruned(g, cs)
    requires e in FindEliminations(g, cs, cells) && x in e.candidates
    ensures At(s, x.cell) != x.digit
  {
    HouseFacts(cells);
    var pr :| IsHiddenPair(g, cs, cells, pr) && e.candidates == PairEliminations(g, cs, cells, pr);
    PairEliminationsSound(g, cs, cells, s, pr, x);
  }
}
