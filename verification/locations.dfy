/**
  Box numbering and the lists of house ids. A house id h in [0, 27) names
  row h, column h - 9 or box h - 18; the column and box id lists start one
  past those offsets (10 and 19), so houses 9 (column 0) and 18 (box 0) are
  never listed.
*/
module Locations {
  import opened SeqUtil
  import opened CoreTypes

  /**
    The box of a cell, numbered row-major from 0. Integer division by a
    positive divisor rounds down in both languages.
  */
  function BoxId(c: Cell): (b: int)
    ensures InRange(c) ==> 0 <= b < 9
  {
    (c.row / 3) * 3 + c.column / 3
  }

  /** Two cells share a box iff they share a band of rows and a stack of columns. */
  lemma SameBoxIff(a: Cell, b: Cell)
    requires InRange(a) && InRange(b)
    ensures BoxId(a) == BoxId(b) <==> a.row / 3 == b.row / 3 && a.column / 3 == b.column / 3
  {
    if BoxId(a) == BoxId(b) {
      var ba, sa, bb, sb := a.row / 3, a.column / 3, b.row / 3, b.column / 3;
      assert 0 <= ba < 3 && 0 <= sa < 3 && 0 <= bb < 3 && 0 <= sb < 3;
      assert ba * 3 + sa == bb * 3 + sb;
    }
  }

  /** Ids 0..8: the nine rows. */
  function RowHouseIds(): (ids: seq<int>)
    ensures |ids| == 9
    ensures forall h :: h in ids <==> 0 <= h < 9
    ensures forall i, j :: 0 <= i < j < |ids| ==> ids[i] < ids[j]
  {
    var ids := seq(9, i => i);
    forall h | 0 <= h < 9 ensures h in ids {
      assert ids[h] == h;
    }
    ids
  }

  /** Ids 10..17: eight ids, the columns 1..8; column 0 (id 9) is not listed. */
  function ColumnHouseIds(): (ids: seq<int>)
    ensures |ids| == 8
    ensures forall h :: h in ids <==> 10 <= h < 18
    ensures forall i, j :: 0 <= i < j < |ids| ==> ids[i] < ids[j]
  {
    var ids := seq(8, i => 10 + i);
    forall h | 10 <= h < 18 ensures h in ids {
      assert ids[h - 10] == h;
    }
    ids
  }

  /** Ids 19..26: eight ids, the boxes 1..8; box 0 (id 18) is not listed. */
  function BoxHouseIds(): (ids: seq<int>)
    ensures |ids| == 8
    ensures forall h :: h in ids <==> 19 <= h < 27
    ensures forall i, j :: 0 <= i < j < |ids| ==> ids[i] < ids[j]
  {
    var ids := seq(8, i => 19 + i);
    forall h | 19 <= h < 27 ensures h in ids {
      assert ids[h - 19] == h;
    }
    ids
  }

  /**
    The three lists are pairwise disjoint, lie in [0, 27) and together cover
    every house id except 9 and 18.
  */
  lemma HouseIdLists()
    ensures forall h :: h in RowHouseIds() ==> h !in ColumnHouseIds() && h !in BoxHouseIds()
    ensures forall h :: h in ColumnHouseIds() ==> h !in BoxHouseIds()
    ensures forall h :: h in RowHouseIds() + ColumnHouseIds() + BoxHouseIds() <==> 0 <= h < 27 && h != 9 && h != 18
  {
  }
}
