/**
  Hidden single over a list of cells: a digit listed by exactly one unset
  cell of the house must go there. Digits are counted over the candidates
  of the unset cells only; a placement is reported for every cell listing
  such a digit among more than one candidate.
*/
module HiddenSingle {
  import opened SeqUtil
  import opened CoreTypes
  import opened Board
  import opened Deduction
  import NakedSingle

  /**
    The digits the counter reads: the candidates of each unset cell in list
    order, each cell's candidates ascending. A digit occurs once per unset
    cell listing it.
  */
  function DigitStream(g: Grid, cs: CandidateGrid, cells: seq<Cell>): (ds: seq<int>)
    requires IsGrid(g) && IsCandidateGrid(cs) && AllInRange(cells)
    ensures forall d :: Count(ds, d) == |Holders(g, cs, cells, d)|
    decreases |cells|
  {
    if cells == [] then []
    else
      var c := cells[0];
      var head := if At(g, c) == 0 then Ascending(CandsAt(cs, c)) else [];
      var rest := DigitStream(g, cs, cells[1..]);
      forall d ensures Count(head + rest, d) == |Holders(g, cs, cells, d)| {
        CountAppend(head, rest, d);
        CountNoDups(head, d);
      }
      head + rest
  }

  /**
    The counter itself: each digit listed by some unset cell of the list,
    mapped to the number of unset cells listing it.
  */
  function CandidateCounts(g: Grid, cs: CandidateGrid, cells: seq<Cell>): (counts: map<int, nat>)
    requires IsGrid(g) && IsCandidateGrid(cs) && AllInRange(cells)
    ensures forall d :: d in counts <==> |Holders(g, cs, cells, d)| > 0
    ensures forall d :: d in counts ==> counts[d] == |Holders(g, cs, cells, d)|
  {
    var stream := DigitStream(g, cs, cells);
    map d | d in stream :: Count(stream, d)
  }

  /**
    The digits counted exactly once, in the counter's key order (first
    occurrence in the stream).
  */
  function Singles(g: Grid, cs: CandidateGrid, cells: seq<Cell>): (ds: seq<int>)
    requires IsGrid(g) && IsCandidateGrid(cs) && AllInRange(cells)
    ensures forall d :: d in ds <==> |Holders(g, cs, cells, d)| == 1
    ensures NoDups(ds)
    ensures FirstOccurrenceOrder(ds, DigitStream(g, cs, cells))
  {
    var stream := DigitStream(g, cs, cells);
    assert forall d :: Count(stream, d) == 1 ==> d in stream;
    CounterKeys(stream, 1)
  }

  /** The placements come in the order their digits take in `singles`. */
  predicate DigitOrder(ps: seq<Placement>, singles: seq<int>) {
    forall i, j :: 0 <= i < j < |ps| ==> IndexOf(singles, ps[i].digit) < IndexOf(singles, ps[j].digit)
  }

  /**
    The placements come in the order their cells take in `cells` and, for
    one cell, in the order their digits take in `singles`.
  */
  predicate ListOrder(ps: seq<Placement>, cells: seq<Cell>, singles: seq<int>) {
    forall i, j :: 0 <= i < j < |ps| ==>
      IndexOf(cells, ps[i].cell) < IndexOf(cells, ps[j].cell) ||
      (ps[i].cell == ps[j].cell && IndexOf(singles, ps[i].digit) < IndexOf(singles, ps[j].digit))
  }

  /**
    The placements come cell by cell in tuple order and, for one cell, in
    the order their digits take in `singles`.
  */
  predicate CellOrder(ps: seq<Placement>, singles: seq<int>) {
    forall i, j :: 0 <= i < j < |ps| ==>
      Before(ps[i].cell, ps[j].cell) ||
      (ps[i].cell == ps[j].cell && IndexOf(singles, ps[i].digit) < IndexOf(singles, ps[j].digit))
  }

  /** Over a row-major list, list order is tuple order. */
  lemma ListOrderRowMajor(ps: seq<Placement>, cells: seq<Cell>, singles: seq<int>)
    requires RowMajor(cells) && ListOrder(ps, cells, singles)
    requires forall p :: p in ps ==> p.cell in cells
    ensures CellOrder(ps, singles)
  {
    forall i, j | 0 <= i < j < |ps|
      ensures Before(ps[i].cell, ps[j].cell) ||
        (ps[i].cell == ps[j].cell && IndexOf(singles, ps[i].digit) < IndexOf(singles, ps[j].digit))
    {
      assert ps[i] in ps && ps[j] in ps;
      RowMajorIndexOf(cells, ps[i].cell, ps[j].cell);
    }
  }

  /** Placements in list order are all different. */
  lemma ListOrderNoDups(ps: seq<Placement>, cells: seq<Cell>, singles: seq<int>)
    requires ListOrder(ps, cells, singles)
    ensures NoDups(ps)
  {
  }

  /** Two placements of `head + rest` in the order of their digits, with `head` at most a placement for the first single. */
  lemma DigitOrderPair(singles: seq<int>, head: seq<Placement>, rest: seq<Placement>, i: int, j: int)
    requires singles != [] && NoDups(singles)
    requires head == [] || (|head| == 1 && head[0].digit == singles[0])
    requires forall p :: p in rest ==> p.digit in singles[1..]
    requires DigitOrder(rest, singles[1..])
    requires 0 <= i < j < |head| + |rest|
    ensures IndexOf(singles, (head + rest)[i].digit) < IndexOf(singles, (head + rest)[j].digit)
  {
    var h := |head|;
    AppendIndex(head, rest, j);
    IndexOfTail(singles, rest[j - h].digit);
    if i >= h {
      AppendIndex(head, rest, i);
      IndexOfTail(singles, rest[i - h].digit);
    }
  }

  /** A placement for the first single, when there is one, goes before those for the later singles. */
  lemma DigitOrderStep(singles: seq<int>, head: seq<Placement>, rest: seq<Placement>)
    requires singles != [] && NoDups(singles)
    requires head == [] || (|head| == 1 && head[0].digit == singles[0])
    requires forall p :: p in rest ==> p.digit in singles[1..]
    requires DigitOrder(rest, singles[1..])
    ensures DigitOrder(head + rest, singles)
  {
    forall i, j | 0 <= i < j < |head + rest|
      ensures IndexOf(singles, (head + rest)[i].digit) < IndexOf(singles, (head + rest)[j].digit)
    {
      DigitOrderPair(singles, head, rest, i, j);
    }
  }

  /**
    The placements of the first cell, in singles order, go before those of
    the later cells when the cell list has no repeats.
  */
  lemma ListOrderStep(cells: seq<Cell>, singles: seq<int>, head: seq<Placement>, rest: seq<Placement>)
    requires cells != [] && NoDups(cells)
    requires forall p :: p in head ==> p.cell == cells[0]
    requires DigitOrder(head, singles)
    requires forall p :: p in rest ==> p.cell in cells[1..]
    requires ListOrder(rest, cells[1..], singles)
    ensures ListOrder(head + rest, cells, singles)
  {
    forall p | p in rest ensures IndexOf(cells, p.cell) == 1 + IndexOf(cells[1..], p.cell) {
      IndexOfTail(cells, p.cell);
    }
    var r := head + rest;
    forall i, j | 0 <= i < j < |r|
      ensures IndexOf(cells, r[i].cell) < IndexOf(cells, r[j].cell) ||
        (r[i].cell == r[j].cell && IndexOf(singles, r[i].digit) < IndexOf(singles, r[j].digit))
    {
      if j < |head| {
        assert r[i] == head[i] && r[j] == head[j] && head[i] in head && head[j] in head;
      } else if i < |head| {
        assert r[i] == head[i] && head[i] in head;
        assert r[j] == rest[j - |head|] && rest[j - |head|] in rest;
      } else {
        assert r[i] == rest[i - |head|] && rest[i - |head|] in rest;
        assert r[j] == rest[j - |head|] && rest[j - |head|] in rest;
      }
    }
  }

  /** The placements of one cell: each single it lists, when it lists more than one digit. */
  function CellPlacements(cs: CandidateGrid, c: Cell, singles: seq<int>): (ps: seq<Placement>)
    requires IsCandidateGrid(cs) && InRange(c)
    ensures forall p :: p in ps <==> p.cell == c && p.digit in singles && p.digit in CandsAt(cs, c) && |CandsAt(cs, c)| > 1
    ensures |ps| <= |singles|
    ensures NoDups(singles) ==> DigitOrder(ps, singles)
    decreases |singles|
  {
    if singles == [] then []
    else
      var d := singles[0];
      assert forall x :: x in singles <==> x == d || x in singles[1..];
      var head := if d in CandsAt(cs, c) && |CandsAt(cs, c)| > 1 then [Placement(c, d)] else [];
      var rest := CellPlacements(cs, c, singles[1..]);
      assert NoDups(singles) ==> DigitOrder(head + rest, singles) by {
        if NoDups(singles) {
          DigitOrderStep(singles, head, rest);
        }
      }
      head + rest
  }

  /** Cell by cell, the placements of each cell for the given singles. */
  function PlaceSingles(cs: CandidateGrid, cells: seq<Cell>, singles: seq<int>): (ps: seq<Placement>)
    requires IsCandidateGrid(cs) && AllInRange(cells)
    ensures forall p :: p in ps <==>
      p.cell in cells && p.digit in singles && p.digit in CandsAt(cs, p.cell) && |CandsAt(cs, p.cell)| > 1
    ensures NoDups(cells) && NoDups(singles) ==> ListOrder(ps, cells, singles)
    decreases |cells|
  {
    if cells == [] then []
    else
      assert forall x :: x in cells <==> x == cells[0] || x in cells[1..];
      var head := CellPlacements(cs, cells[0], singles);
      var rest := PlaceSingles(cs, cells[1..], singles);
      assert NoDups(cells) && NoDups(singles) ==> ListOrder(head + rest, cells, singles) by {
        if NoDups(cells) && NoDups(singles) {
          ListOrderStep(cells, singles, head, rest);
        }
      }
      head + rest
  }

  /** The output is cell-major: the placements of a concatenation of cell lists are concatenated. */
  lemma {:induction false} PlaceSinglesAppend(cs: CandidateGrid, a: seq<Cell>, b: seq<Cell>, singles: seq<int>)
    requires IsCandidateGrid(cs) && AllInRange(a) && AllInRange(b)
    ensures AllInRange(a + b)
    ensures PlaceSingles(cs, a + b, singles) == PlaceSingles(cs, a, singles) + PlaceSingles(cs, b, singles)
    decreases |a|
  {
    assert AllInRange(a + b) by {
      forall i | 0 <= i < |a + b| ensures InRange((a + b)[i]) {
        if i >= |a| { assert (a + b)[i] == b[i - |a|]; }
      }
    }
    if a != [] {
      assert (a + b)[1..] == a[1..] + b;
      PlaceSinglesAppend(cs, a[1..], b, singles);
    } else {
      assert a + b == b;
    }
  }

  /** Within one cell the output follows the singles: the placements of concatenated singles are concatenated. */
  lemma {:induction false} CellPlacementsAppend(cs: CandidateGrid, c: Cell, a: seq<int>, b: seq<int>)
    requires IsCandidateGrid(cs) && InRange(c)
    ensures CellPlacements(cs, c, a + b) == CellPlacements(cs, c, a) + CellPlacements(cs, c, b)
    decreases |a|
  {
    if a != [] {
      assert (a + b)[1..] == a[1..] + b;
      CellPlacementsAppend(cs, c, a[1..], b);
    } else {
      assert a + b == b;
    }
  }

  /**
    A cell is reported with digit `d` exactly when it lists `d` among more
    than one candidate and no other unset cell of the list lists `d`. Over
    a list without repeats each placement is reported once, cell by cell in
    list order and, within a cell, in the order of the singles.
  */
  function FindPlacements(g: Grid, cs: CandidateGrid, cells: seq<Cell>): (ps: seq<Placement>)
    requires IsGrid(g) && IsCandidateGrid(cs) && AllInRange(cells)
    ensures forall p :: p in ps <==>
      p.cell in cells && p.digit in CandsAt(cs, p.cell) && |CandsAt(cs, p.cell)| > 1 &&
      |Holders(g, cs, cells, p.digit)| == 1
    ensures NoDups(cells) ==> NoDups(ps) && ListOrder(ps, cells, Singles(g, cs, cells))
  {
    var ps := PlaceSingles(cs, cells, Singles(g, cs, cells));
    assert NoDups(cells) ==> NoDups(ps) by {
      if NoDups(cells) {
        ListOrderNoDups(ps, cells, Singles(g, cs, cells));
      }
    }
    ps
  }

  /**
    Hidden singles are sound on a house: in every completion the candidates
    keep, the reported cell holds the reported digit.
  */
  lemma FindPlacementsSound(g: Grid, cs: CandidateGrid, cells: seq<Cell>, s: Grid, p: Placement)
    requires IsHouse(cells) && Keeps(g, cs, s) && Bounded(g, cs) && Pruned(g, cs)
    requires p in FindPlacements(g, cs, cells)
    ensures At(s, p.cell) == p.digit
  {
    HouseFacts(cells);
    UniqueHolderForced(g, cs, cells, s, p.cell, p.digit);
  }

  /** A cell holding a naked single is never reported as a hidden single. */
  lemma NakedSinglesNotReported(g: Grid, cs: CandidateGrid, cells: seq<Cell>, p: Placement, q: Placement)
    requires IsGrid(g) && IsCandidateGrid(cs) && AllInRange(cells)
    requires p in FindPlacements(g, cs, cells) && q in NakedSingle.FindPlacements(g, cs, cells)
    ensures p.cell != q.cell
  {
  }
}
