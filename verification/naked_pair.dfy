/**
  Naked pair over a list of cells: when exactly two unset cells of a house
  list the same two candidates, those two digits go into those two cells,
  so every other unset cell of the house may drop them.

  Candidate sets are compared with the pair as sets: a cell whose
  candidates are the pair itself is left alone.
*/
module NakedPair {
  import opened SeqUtil
  import opened CoreTypes
  import opened Board
  import opened Peers
  import opened Validation
  import opened Deduction

  /** The unset cells of the list whose candidates are exactly `pair`, a two-digit set. */
  function PairHolders(g: Grid, cs: CandidateGrid, cells: seq<Cell>, pair: set<int>): (hs: seq<Cell>)
    requires IsGrid(g) && IsCandidateGrid(cs) && AllInRange(cells)
    ensures forall c :: c in hs <==> c in cells && At(g, c) == 0 && |pair| == 2 && CandsAt(cs, c) == pair
    ensures RowMajor(cells) ==> RowMajor(hs)
    decreases |cells|
  {
    if cells == [] then []
    else
      var c := cells[0];
      var rest := PairHolders(g, cs, cells[1..], pair);
      assert forall x :: x in cells <==> x == c || x in cells[1..];
      assert RowMajor(cells) ==> forall k :: 0 <= k < |rest| ==> Before(c, rest[k]) by {
        if RowMajor(cells) {
          forall k | 0 <= k < |rest| ensures Before(c, rest[k]) {
            assert rest[k] in rest;
            RowMajorTail(cells, rest[k]);
          }
        }
      }
      (if At(g, c) == 0 && |pair| == 2 && CandsAt(cs, c) == pair then [c] else []) + rest
  }

  /** `pair` is a naked pair of the list: exactly two unset cells have it as their candidates. */
  predicate IsNakedPair(g: Grid, cs: CandidateGrid, cells: seq<Cell>, pair: set<int>)
    requires IsGrid(g) && IsCandidateGrid(cs) && AllInRange(cells)
  {
    |PairHolders(g, cs, cells, pair)| == 2
  }

  /**
    The sets the counter reads: the candidates of each unset cell with
    exactly two candidates, in list order.
  */
  function PairStream(g: Grid, cs: CandidateGrid, cells: seq<Cell>): (ps: seq<set<int>>)
    requires IsGrid(g) && IsCandidateGrid(cs) && AllInRange(cells)
    ensures forall p :: Count(ps, p) == |PairHolders(g, cs, cells, p)|
    decreases |cells|
  {
    if cells == [] then []
    else
      var c := cells[0];
      var head := if |CandsAt(cs, c)| == 2 && At(g, c) == 0 then [CandsAt(cs, c)] else [];
      var rest := PairStream(g, cs, cells[1..]);
      forall p ensures Count(head + rest, p) == |PairHolders(g, cs, cells, p)| {
        CountAppend(head, rest, p);
      }
      head + rest
  }

  /**
    In the stream of a row-major list, a set first read before another has
    its first holder before the other's first holder.
  */
  lemma {:induction false} StreamOrder(g: Grid, cs: CandidateGrid, cells: seq<Cell>, p: set<int>, q: set<int>)
    requires IsGrid(g) && IsCandidateGrid(cs) && AllInRange(cells) && RowMajor(cells)
    requires p in PairStream(g, cs, cells) && q in PairStream(g, cs, cells)
    requires IndexOf(PairStream(g, cs, cells), p) < IndexOf(PairStream(g, cs, cells), q)
    ensures PairHolders(g, cs, cells, p) != [] && PairHolders(g, cs, cells, q) != []
    ensures Before(PairHolders(g, cs, cells, p)[0], PairHolders(g, cs, cells, q)[0])
    decreases |cells|
  {
    var c := cells[0];
    var head := if |CandsAt(cs, c)| == 2 && At(g, c) == 0 then [CandsAt(cs, c)] else [];
    var rest := PairStream(g, cs, cells[1..]);
    assert PairStream(g, cs, cells) == head + rest;
    IndexOfAppend(head, rest, p);
    IndexOfAppend(head, rest, q);
    RowMajorHead(cells);
    var hp, hq := PairHolders(g, cs, cells, p), PairHolders(g, cs, cells, q);
    assert hp == (if At(g, c) == 0 && |p| == 2 && CandsAt(cs, c) == p then [c] else []) + PairHolders(g, cs, cells[1..], p);
    assert hq == (if At(g, c) == 0 && |q| == 2 && CandsAt(cs, c) == q then [c] else []) + PairHolders(g, cs, cells[1..], q);
    if p in head {
      assert q in rest && q != p;
      assert Count(rest, q) > 0;
      var tail := PairHolders(g, cs, cells[1..], q);
      assert hq == tail && tail[0] in tail;
    } else {
      assert q !in head;
      StreamOrder(g, cs, cells[1..], p, q);
    }
  }

  /**
    The naked pairs: two-digit sets held by exactly two unset cells, in
    first-occurrence order, which over a row-major list is the order of
    their first holders.
  */
  function NakedPairs(g: Grid, cs: CandidateGrid, cells: seq<Cell>): (pairs: seq<set<int>>)
    requires IsGrid(g) && IsCandidateGrid(cs) && AllInRange(cells)
    ensures forall p :: p in pairs <==> IsNakedPair(g, cs, cells, p)
    ensures NoDups(pairs)
    ensures RowMajor(cells) ==> forall i, j :: 0 <= i < j < |pairs| ==>
      |PairHolders(g, cs, cells, pairs[i])| > 0 && |PairHolders(g, cs, cells, pairs[j])| > 0 &&
      Before(PairHolders(g, cs, cells, pairs[i])[0], PairHolders(g, cs, cells, pairs[j])[0])
  {
    var pairs := CounterKeys(PairStream(g, cs, cells), 2);
    CounterPairs(g, cs, cells, pairs);
    pairs
  }

  /** The sets the stream holds exactly twice, in first-occurrence order, are the naked pairs in holder order. */
  lemma CounterPairs(g: Grid, cs: CandidateGrid, cells: seq<Cell>, pairs: seq<set<int>>)
    requires IsGrid(g) && IsCandidateGrid(cs) && AllInRange(cells)
    requires pairs == CounterKeys(PairStream(g, cs, cells), 2)
    ensures forall p :: p in pairs <==> IsNakedPair(g, cs, cells, p)
    ensures NoDups(pairs)
    ensures RowMajor(cells) ==> forall i, j :: 0 <= i < j < |pairs| ==>
      |PairHolders(g, cs, cells, pairs[i])| > 0 && |PairHolders(g, cs, cells, pairs[j])| > 0 &&
      Before(PairHolders(g, cs, cells, pairs[i])[0], PairHolders(g, cs, cells, pairs[j])[0])
  {
    var stream := PairStream(g, cs, cells);
    assert forall p :: Count(stream, p) == 2 ==> p in stream;
    if RowMajor(cells) {
      KeysOrdered(g, cs, cells, pairs);
    }
  }

  /** Sets taken from the stream in its order of first occurrence come in the order of their first holders. */
  lemma KeysOrdered(g: Grid, cs: CandidateGrid, cells: seq<Cell>, pairs: seq<set<int>>)
    requires IsGrid(g) && IsCandidateGrid(cs) && AllInRange(cells) && RowMajor(cells)
    requires forall p :: p in pairs ==> p in PairStream(g, cs, cells)
    requires FirstOccurrenceOrder(pairs, PairStream(g, cs, cells))
    ensures forall i, j :: 0 <= i < j < |pairs| ==>
      |PairHolders(g, cs, cells, pairs[i])| > 0 && |PairHolders(g, cs, cells, pairs[j])| > 0 &&
      Before(PairHolders(g, cs, cells, pairs[i])[0], PairHolders(g, cs, cells, pairs[j])[0])
  {
    forall i, j | 0 <= i < j < |pairs|
      ensures |PairHolders(g, cs, cells, pairs[i])| > 0 && |PairHolders(g, cs, cells, pairs[j])| > 0 &&
        Before(PairHolders(g, cs, cells, pairs[i])[0], PairHolders(g, cs, cells, pairs[j])[0])
    {
      assert pairs[i] in pairs && pairs[j] in pairs;
      StreamOrder(g, cs, cells, pairs[i], pairs[j]);
    }
  }

  /**
    Two different naked pairs never remove the same non-empty candidates:
    when they share a digit, a holder of one lists that digit and is
    stripped of it by the other only; when they do not, the digits one
    removes lie outside the other.
  */
  lemma DifferentPairsDifferentEliminations(g: Grid, cs: CandidateGrid, cells: seq<Cell>, p: set<int>, q: set<int>)
    requires IsGrid(g) && IsCandidateGrid(cs) && AllInRange(cells)
    requires IsNakedPair(g, cs, cells, p) && IsNakedPair(g, cs, cells, q) && p != q
    requires PairEliminations(g, cs, cells, p) != []
    ensures PairEliminations(g, cs, cells, p) != PairEliminations(g, cs, cells, q)
  {
    var xs := PairEliminations(g, cs, cells, p);
    if z :| z in p && z in q {
      var h := PairHolders(g, cs, cells, p)[0];
      assert h in PairHolders(g, cs, cells, p);
      assert Candidate(h, z) in PairEliminations(g, cs, cells, q) && Candidate(h, z) !in xs;
    } else {
      assert xs[0] in xs && xs[0] !in PairEliminations(g, cs, cells, q);
    }
  }

  /**
    The candidates a naked pair removes: for each unset cell of the list
    whose candidates are not the pair, its candidates that lie in the pair,
    cell by cell with digits ascending.
  */
  function PairEliminations(g: Grid, cs: CandidateGrid, cells: seq<Cell>, pair: set<int>): (xs: seq<Candidate>)
    requires IsGrid(g) && IsCandidateGrid(cs) && AllInRange(cells)
    ensures forall x :: x in xs <==>
      x.cell in cells && At(g, x.cell) == 0 && CandsAt(cs, x.cell) != pair &&
      x.digit in CandsAt(cs, x.cell) && x.digit in pair
    decreases |cells|
  {
    if cells == [] then []
    else
      var c := cells[0];
      assert forall x :: x in cells <==> x == c || x in cells[1..];
      (if At(g, c) == 0 && CandsAt(cs, c) != pair then CellCandidates(c, Ascending(CandsAt(cs, c)), pair, true) else [])
        + PairEliminations(g, cs, cells[1..], pair)
  }

  /** Over a row-major list the removed candidates are cell-major, digits ascending. */
  lemma {:induction false} PairEliminationsOrder(g: Grid, cs: CandidateGrid, cells: seq<Cell>, pair: set<int>)
    requires IsGrid(g) && IsCandidateGrid(cs) && AllInRange(cells) && RowMajor(cells)
    ensures CellMajor(PairEliminations(g, cs, cells, pair))
    decreases |cells|
  {
    if cells != [] {
      var c := cells[0];
      var head := if At(g, c) == 0 && CandsAt(cs, c) != pair then CellCandidates(c, Ascending(CandsAt(cs, c)), pair, true) else [];
      var rest := PairEliminations(g, cs, cells[1..], pair);
      PairEliminationsOrder(g, cs, cells[1..], pair);
      CellCandidatesOrder(c, Ascending(CandsAt(cs, c)), pair, true);
      forall x | x in rest ensures Before(c, x.cell) {
        RowMajorTail(cells, x.cell);
      }
      CellMajorCons(c, head, rest);
    }
  }

  /** The candidates each pair removes, one list per pair, in pair order. */
  function PairLists(g: Grid, cs: CandidateGrid, cells: seq<Cell>, pairs: seq<set<int>>): (lists: seq<seq<Candidate>>)
    requires IsGrid(g) && IsCandidateGrid(cs) && AllInRange(cells)
    ensures |lists| == |pairs|
    ensures forall k :: 0 <= k < |pairs| ==> lists[k] == PairEliminations(g, cs, cells, pairs[k])
  {
    seq(|pairs|, k requires 0 <= k < |pairs| => PairEliminations(g, cs, cells, pairs[k]))
  }

  /** One elimination per pair, in pair order, dropping those that remove nothing. */
  function Eliminations(g: Grid, cs: CandidateGrid, cells: seq<Cell>, pairs: seq<set<int>>): (es: seq<Elimination>)
    requires IsGrid(g) && IsCandidateGrid(cs) && AllInRange(cells)
    ensures forall e :: e in es ==>
      e.candidates != [] && exists p :: p in pairs && e.candidates == PairEliminations(g, cs, cells, p)
    ensures forall p :: p in pairs && PairEliminations(g, cs, cells, p) != [] ==>
      Elimination(PairEliminations(g, cs, cells, p)) in es
    ensures |es| <= |pairs|
  {
    var lists := PairLists(g, cs, cells, pairs);
    var es := NonEmpty(lists);
    forall e | e in es ensures exists p :: p in pairs && e.candidates == PairEliminations(g, cs, cells, p) {
      var k :| 0 <= k < |lists| && lists[k] == e.candidates;
      assert pairs[k] in pairs;
    }
    forall p | p in pairs && PairEliminations(g, cs, cells, p) != [] ensures Elimination(PairEliminations(g, cs, cells, p)) in es {
      var k :| 0 <= k < |pairs| && pairs[k] == p;
      assert lists[k] in lists;
    }
    es
  }

  /** The naked pairs of a list remove pairwise different candidates, when they remove any. */
  lemma NakedPairsDistinct(g: Grid, cs: CandidateGrid, cells: seq<Cell>)
    requires IsGrid(g) && IsCandidateGrid(cs) && AllInRange(cells)
    ensures DistinctNonEmpty(PairLists(g, cs, cells, NakedPairs(g, cs, cells)))
  {
    var pairs := NakedPairs(g, cs, cells);
    var lists := PairLists(g, cs, cells, pairs);
    forall k, l | 0 <= k < l < |lists| && lists[k] != [] ensures lists[k] != lists[l] {
      assert pairs[k] in pairs && pairs[l] in pairs;
      DifferentPairsDifferentEliminations(g, cs, cells, pairs[k], pairs[l]);
    }
  }

  /** The eliminations come in the order of the first holders of their naked pairs. */
  ghost predicate FirstHolderOrder(g: Grid, cs: CandidateGrid, cells: seq<Cell>, es: seq<Elimination>)
    requires IsGrid(g) && IsCandidateGrid(cs) && AllInRange(cells)
  {
    forall i, j, p, q ::
      (0 <= i < j < |es| && IsNakedPair(g, cs, cells, p) && IsNakedPair(g, cs, cells, q) &&
       es[i].candidates == PairEliminations(g, cs, cells, p) && es[j].candidates == PairEliminations(g, cs, cells, q)) ==>
      Before(PairHolders(g, cs, cells, p)[0], PairHolders(g, cs, cells, q)[0])
  }

  /** The eliminations of the naked pairs of a list are all different. */
  lemma EliminationsDistinct(g: Grid, cs: CandidateGrid, cells: seq<Cell>)
    requires IsGrid(g) && IsCandidateGrid(cs) && AllInRange(cells)
    ensures NoDups(Eliminations(g, cs, cells, NakedPairs(g, cs, cells)))
  {
    var pairs := NakedPairs(g, cs, cells);
    NakedPairsDistinct(g, cs, cells);
    assert Eliminations(g, cs, cells, pairs) == NonEmpty(PairLists(g, cs, cells, pairs));
  }

  /** The eliminations of the naked pairs of a row-major list follow the pairs' first holders. */
  lemma EliminationsOrdered(g: Grid, cs: CandidateGrid, cells: seq<Cell>)
    requires IsGrid(g) && IsCandidateGrid(cs) && AllInRange(cells)
    ensures RowMajor(cells) ==> FirstHolderOrder(g, cs, cells, Eliminations(g, cs, cells, NakedPairs(g, cs, cells)))
  {
    var es := Eliminations(g, cs, cells, NakedPairs(g, cs, cells));
    if RowMajor(cells) {
      forall i, j, p, q |
        0 <= i < j < |es| && IsNakedPair(g, cs, cells, p) && IsNakedPair(g, cs, cells, q) &&
        es[i].candidates == PairEliminations(g, cs, cells, p) && es[j].candidates == PairEliminations(g, cs, cells, q)
        ensures Before(PairHolders(g, cs, cells, p)[0], PairHolders(g, cs, cells, q)[0])
      {
        EliminationPairOrder(g, cs, cells, i, j, p, q);
      }
    }
  }

  /** Of two eliminations of a row-major list, the earlier belongs to the pair with the earlier first holder. */
  lemma EliminationPairOrder(g: Grid, cs: CandidateGrid, cells: seq<Cell>, i: int, j: int, p: set<int>, q: set<int>)
    requires IsGrid(g) && IsCandidateGrid(cs) && AllInRange(cells) && RowMajor(cells)
    requires 0 <= i < j < |Eliminations(g, cs, cells, NakedPairs(g, cs, cells))|
    requires IsNakedPair(g, cs, cells, p) && IsNakedPair(g, cs, cells, q)
    requires Eliminations(g, cs, cells, NakedPairs(g, cs, cells))[i].candidates == PairEliminations(g, cs, cells, p)
    requires Eliminations(g, cs, cells, NakedPairs(g, cs, cells))[j].candidates == PairEliminations(g, cs, cells, q)
    ensures Before(PairHolders(g, cs, cells, p)[0], PairHolders(g, cs, cells, q)[0])
  {
    var pairs := NakedPairs(g, cs, cells);
    var lists := PairLists(g, cs, cells, pairs);
    NakedPairsDistinct(g, cs, cells);
    var k, l := IndexOf(pairs, p), IndexOf(pairs, q);
    FirstPosition(lists, k);
    FirstPosition(lists, l);
  }

  /**
    The naked-pair eliminations of a cell list: one per naked pair that
    removes something, each removing the pair's digits from the other unset
    cells. No elimination is listed twice, and over a row-major list they
    come in the order of their pairs' first holders.
  */
  function FindEliminations(g: Grid, cs: CandidateGrid, cells: seq<Cell>): (es: seq<Elimination>)
    requires IsGrid(g) && IsCandidateGrid(cs) && AllInRange(cells)
    ensures forall e :: e in es ==> e.candidates != []
    ensures forall e :: e in es ==>
      exists p :: IsNakedPair(g, cs, cells, p) && e.candidates == PairEliminations(g, cs, cells, p)
    ensures forall p :: IsNakedPair(g, cs, cells, p) && PairEliminations(g, cs, cells, p) != [] ==>
      Elimination(PairEliminations(g, cs, cells, p)) in es
    ensures NoDups(es)
    ensures RowMajor(cells) ==> FirstHolderOrder(g, cs, cells, es)
  {
    var pairs := NakedPairs(g, cs, cells);
    var es := Eliminations(g, cs, cells, pairs);
    forall e | e in es
      ensures exists p :: IsNakedPair(g, cs, cells, p) && e.candidates == PairEliminations(g, cs, cells, p)
    {
      var p :| p in pairs && e.candidates == PairEliminations(g, cs, cells, p);
      assert IsNakedPair(g, cs, cells, p);
    }
    EliminationsDistinct(g, cs, cells);
    EliminationsOrdered(g, cs, cells);
    es
  }

  /**
    Naked pairs are sound on a house: no removed candidate is the digit a
    completion kept by the candidates puts in that cell. The two pair cells
    take the two pair digits between them, and every other cell of the
    house is a peer of both.
  */
  lemma PairEliminationsSound(g: Grid, cs: CandidateGrid, cells: seq<Cell>, s: Grid, pair: set<int>, x: Candidate)
    requires IsHouse(cells) && Keeps(g, cs, s)
    requires IsNakedPair(g, cs, cells, pair)
    requires x in PairEliminations(g, cs, cells, pair)
    ensures At(s, x.cell) != x.digit
  {
    var a, b := PairCellsTakePair(g, cs, cells, s, pair);
    OutsidePair(g, cs, cells, pair, x, a, b);
    HousePeer(cells, x.cell, a);
    HousePeer(cells, x.cell, b);
    PeerAvoidsBoth(s, x.cell, a, b);
    OneOfTwo(pair, At(s, a), At(s, b), x.digit);
  }

  /** A removed candidate lies in the house outside the two pair cells, and its digit is a pair digit. */
  lemma OutsidePair(g: Grid, cs: CandidateGrid, cells: seq<Cell>, pair: set<int>, x: Candidate, a: Cell, b: Cell)
    requires IsGrid(g) && IsCandidateGrid(cs) && AllInRange(cells)
    requires x in PairEliminations(g, cs, cells, pair)
    requires InRange(a) && InRange(b) && CandsAt(cs, a) == pair && CandsAt(cs, b) == pair
    ensures x.cell in cells && x.cell != a && x.cell != b && x.digit in pair
  {
  }

  /** A member of a two-element set is one of the two. */
  lemma OneOfTwo(pair: set<int>, u: int, v: int, d: int)
    requires pair == {u, v} && d in pair
    ensures d == u || d == v
  {
  }

  /** A cell that is a peer of two cells holds neither of their digits in a solved grid. */
  lemma PeerAvoidsBoth(s: Grid, c: Cell, a: Cell, b: Cell)
    requires IsGrid(s) && IsSolved(s) && IsPeer(c, a) && IsPeer(c, b)
    ensures At(s, c) != At(s, a) && At(s, c) != At(s, b)
  {
    SolvedPeersDiffer(s, c, a);
    SolvedPeersDiffer(s, c, b);
  }

  /** The two cells of a naked pair in a house take the two pair digits between them. */
  lemma PairCellsTakePair(g: Grid, cs: CandidateGrid, cells: seq<Cell>, s: Grid, pair: set<int>) returns (a: Cell, b: Cell)
    requires IsHouse(cells) && Keeps(g, cs, s)
    requires IsNakedPair(g, cs, cells, pair)
    ensures a in cells && b in cells && a != b
    ensures CandsAt(cs, a) == pair && CandsAt(cs, b) == pair
    ensures pair == {At(s, a), At(s, b)}
  {
    HouseFacts(cells);
    a, b := PairHolderCells(g, cs, cells, pair);
    HousePeer(cells, a, b);
    assert At(s, a) in pair && At(s, b) in pair;
    PeersTakePair(s, a, b, pair);
  }

  /** A naked pair of a row-major list has two different unset holders. */
  lemma PairHolderCells(g: Grid, cs: CandidateGrid, cells: seq<Cell>, pair: set<int>) returns (a: Cell, b: Cell)
    requires IsGrid(g) && IsCandidateGrid(cs) && AllInRange(cells) && RowMajor(cells)
    requires IsNakedPair(g, cs, cells, pair)
    ensures a in cells && b in cells && a != b && InRange(a) && InRange(b) && |pair| == 2
    ensures At(g, a) == 0 && At(g, b) == 0 && CandsAt(cs, a) == pair && CandsAt(cs, b) == pair
  {
    var hs := PairHolders(g, cs, cells, pair);
    a, b := hs[0], hs[1];
    assert a in hs && b in hs;
    BeforeIsStrictTotalOrder(a, b, b);
  }

  /** Two peers whose solved values both lie in a two-digit set take the two digits. */
  lemma PeersTakePair(s: Grid, a: Cell, b: Cell, pair: set<int>)
    requires IsGrid(s) && IsSolved(s) && IsPeer(a, b) && |pair| == 2
    requires At(s, a) in pair && At(s, b) in pair
    ensures pair == {At(s, a), At(s, b)}
  {
    SolvedPeersDiffer(s, a, b);
    assert |{At(s, a), At(s, b)}| == 2;
    SubsetSameCard({At(s, a), At(s, b)}, pair);
  }

  /** Every candidate of every naked-pair elimination over a house is sound. */
  lemma FindEliminationsSound(g: Grid, cs: CandidateGrid, cells: seq<Cell>, s: Grid, e: Elimination, x: Candidate)
    requires IsHouse(cells) && Keeps(g, cs, s)
    requires e in FindEliminations(g, cs, cells) && x in e.candidates
    ensures At(s, x.cell) != x.digit
  {
    HouseFacts(cells);
    var p :| IsNakedPair(g, cs, cells, p) && e.candidates == PairEliminations(g, cs, cells, p);
    PairEliminationsSound(g, cs, cells, s, p, x);
  }
}
