/** `getMatrixParams` (Concatenator/Concatenator.cpp): one pass over the directory that
    keeps the largest column and row among the entries whose names parse. */
module GridScanner {
  import opened Wrappers
  import opened CoordinateParser
  import opened DirListing

  /** The grid's extent: number of columns and number of rows. */
  datatype Dims = Dims(colCount: nat, rowCount: nat)

  /** Some entry of the listing names a tile. */
  predicate HasTile(entries: seq<string>)
  {
    exists e :: e in entries && ParseCell(e).Some?
  }

  function Max(a: nat, b: nat): nat
  {
    if a < b then b else a
  }

  /** The largest parsed column and the largest parsed row; both are 0 when no entry
      parses. Each bounds every parsed coordinate and is attained by some entry. */
  function Extent(entries: seq<string>): (d: Dims)
    ensures forall e | e in entries && ParseCell(e).Some? ::
      ParseCell(e).value.col <= d.colCount && ParseCell(e).value.row <= d.rowCount
    ensures d.colCount == 0 || exists e :: e in entries && ParseCell(e).Some? && ParseCell(e).value.col == d.colCount
    ensures d.rowCount == 0 || exists e :: e in entries && ParseCell(e).Some? && ParseCell(e).value.row == d.rowCount
    ensures HasTile(entries) <==> d.colCount > 0
    ensures HasTile(entries) <==> d.rowCount > 0
  {
    if |entries| == 0 then Dims(0, 0)
    else
      var init := entries[..|entries| - 1];
      var last := entries[|entries| - 1];
      assert entries == init + [last];
      var d := Extent(init);
      match ParseCell(last)
      case None => d
      case Some(cell) => Dims(Max(d.colCount, cell.col), Max(d.rowCount, cell.row))
  }

  /** The scan depends only on which tile names are present: not on their order, on
      repetitions, or on entries such as `.` and `..` that do not parse. */
  lemma ExtentDependsOnTilesOnly(a: seq<string>, b: seq<string>)
    requires forall e :: (e in a && ParseCell(e).Some?) <==> (e in b && ParseCell(e).Some?)
    ensures Extent(a) == Extent(b)
  {
    ExtentBelow(a, b);
    ExtentBelow(b, a);
  }

  lemma {:induction false} ExtentBelow(a: seq<string>, b: seq<string>)
    requires forall e :: e in a && ParseCell(e).Some? ==> e in b
    ensures Extent(a).colCount <= Extent(b).colCount
    ensures Extent(a).rowCount <= Extent(b).rowCount
  {
    var da := Extent(a);
    if da.colCount > 0 {
      var e :| e in a && ParseCell(e).Some? && ParseCell(e).value.col == da.colCount;
      assert e in b;
    }
    if da.rowCount > 0 {
      var e :| e in a && ParseCell(e).Some? && ParseCell(e).value.row == da.rowCount;
      assert e in b;
    }
  }

  /** In particular, an entry that does not parse can be dropped from the listing. */
  lemma IgnoresNonTiles(a: seq<string>, x: string, b: seq<string>)
    requires ParseCell(x).None?
    ensures Extent(a + [x] + b) == Extent(a + b)
    ensures HasTile(a + [x] + b) == HasTile(a + b)
  {
    forall e ensures (e in a + [x] + b && ParseCell(e).Some?) <==> (e in a + b && ParseCell(e).Some?) {
    }
    ExtentDependsOnTilesOnly(a + [x] + b, a + b);
  }

  /** The scan: fails when the directory cannot be opened or when no entry parses, and
      then leaves `colCount` and `rowCount` as they were; otherwise stores the extent. */
  method GetMatrixParams(imgDir: Dir, colCount: nat, rowCount: nat)
    returns (ok: bool, colCount': nat, rowCount': nat)
    ensures ok <==> imgDir.opens && HasTile(imgDir.entries)
    ensures ok ==> Dims(colCount', rowCount') == Extent(imgDir.entries)
    ensures ok ==> colCount' >= 1 && rowCount' >= 1
    ensures !ok ==> colCount' == colCount && rowCount' == rowCount
  {
    if !imgDir.opens {
      return false, colCount, rowCount;
    }
    var entries := imgDir.entries;
    var maxColNumber: nat := 0;
    var maxRowNumber: nat := 0;
    var oneImageMet := false;
    var i := 0;
    while i < |entries|
      invariant 0 <= i <= |entries|
      invariant Dims(maxColNumber, maxRowNumber) == Extent(entries[..i])
      invariant oneImageMet == HasTile(entries[..i])
    {
      var name := entries[i];
      assert entries[..i + 1][..i] == entries[..i];
      var (parsed, colNumber, rowNumber) := GetCellPosition(name, 0, 0);
      if parsed {
        if !oneImageMet {
          oneImageMet := true;
        }
        maxColNumber := Max(maxColNumber, colNumber);
        maxRowNumber := Max(maxRowNumber, rowNumber);
      }
      i := i + 1;
    }
    assert entries[..i] == entries;
    if oneImageMet {
      return true, maxColNumber, maxRowNumber;
    } else {
      return false, colCount, rowCount;
    }
  }
}
