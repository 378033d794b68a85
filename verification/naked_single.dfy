/**
  Naked single over a list of cells: an unset cell with exactly one
  candidate must take that candidate.
*/
module NakedSingle {
  import opened SeqUtil
  import opened CoreTypes
  import opened Board
  import opened Deduction

  /** A one-element set is the singleton of its least element. */
  lemma SingletonMin(s: set<int>)
    requires |s| == 1
    ensures s == {Min(s)}
  {
    var m := Min(s);
    assert |s - {m}| == 0;
  }

  /**
    One placement per unset cell of the list with a single candidate, in
    list order; the digit is that candidate.
  */
  function FindPlacements(g: Grid, cs: CandidateGrid, cells: seq<Cell>): (ps: seq<Placement>)
    requires IsGrid(g) && IsCandidateGrid(cs) && AllInRange(cells)
    ensures forall p :: p in ps <==> p.cell in cells && At(g, p.cell) == 0 && CandsAt(cs, p.cell) == {p.digit}
    ensures RowMajor(cells) ==> forall i, j :: 0 <= i < j < |ps| ==> Before(ps[i].cell, ps[j].cell)
    ensures |ps| <= |cells|
    decreases |cells|
  {
    if cells == [] then []
    else
      var c := cells[0];
      var rest := FindPlacements(g, cs, cells[1..]);
      assert forall x :: x in cells <==> x == c || x in cells[1..];
      assert forall v :: CandsAt(cs, c) == {v} <==> |CandsAt(cs, c)| == 1 && v == Min(CandsAt(cs, c)) by {
        if |CandsAt(cs, c)| == 1 {
          SingletonMin(CandsAt(cs, c));
        }
      }
      assert RowMajor(cells) ==> forall k :: 0 <= k < |rest| ==> Before(c, rest[k].cell) by {
        if RowMajor(cells) {
          forall k | 0 <= k < |rest| ensures Before(c, rest[k].cell) {
            assert rest[k] in rest;
            var j :| 0 <= j < |cells[1..]| && cells[1..][j] == rest[k].cell;
            assert rest[k].cell == cells[j + 1];
          }
        }
      }
      (if |CandsAt(cs, c)| == 1 && At(g, c) == 0 then [Placement(c, Min(CandsAt(cs, c)))] else []) + rest
  }

  /** The scan is cell by cell: the placements of a concatenation are concatenated. */
  lemma {:induction false} FindPlacementsAppend(g: Grid, cs: CandidateGrid, a: seq<Cell>, b: seq<Cell>)
    requires IsGrid(g) && IsCandidateGrid(cs) && AllInRange(a) && AllInRange(b)
    ensures AllInRange(a + b)
    ensures FindPlacements(g, cs, a + b) == FindPlacements(g, cs, a) + FindPlacements(g, cs, b)
    decreases |a|
  {
    assert AllInRange(a + b) by {
      forall i | 0 <= i < |a + b| ensures InRange((a + b)[i]) {
        if i >= |a| { assert (a + b)[i] == b[i - |a|]; }
      }
    }
    if a != [] {
      assert (a + b)[1..] == a[1..] + b;
      FindPlacementsAppend(g, cs, a[1..], b);
    } else {
      assert a + b == b;
    }
  }

  /**
    Naked singles are sound: in every completion that the candidates keep,
    the reported cell holds the reported digit.
  */
  lemma FindPlacementsSound(g: Grid, cs: CandidateGrid, cells: seq<Cell>, s: Grid, p: Placement)
    requires AllInRange(cells) && Keeps(g, cs, s)
    requires p in FindPlacements(g, cs, cells)
    ensures At(s, p.cell) == p.digit
  {
    assert At(s, p.cell) in {p.digit};
  }
}
