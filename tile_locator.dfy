/** `getFileName` (Concatenator/Concatenator.cpp): a fresh pass over the directory that
    stops at the first entry whose name parses to the requested column and row. */
module TileLocator {
  import opened Wrappers
  import opened CoordinateParser
  import opened DirListing
  import opened GridScanner

  /** The listing as the parser reads it: the coordinates each entry's name encodes. */
  function Coordinates(entries: seq<string>): (cells: seq<Option<Cell>>)
    ensures |cells| == |entries|
    ensures forall i {:trigger ParseCell(entries[i])} :: 0 <= i < |entries| ==> cells[i] == ParseCell(entries[i])
  {
    if |entries| == 0 then []
    else Coordinates(entries[..|entries| - 1]) + [ParseCell(entries[|entries| - 1])]
  }

  /** The index of the first entry whose coordinates are `cell`, if any. */
  function FirstMatch(cells: seq<Option<Cell>>, cell: Cell): (r: Option<nat>)
    ensures r.Some? ==> r.value < |cells| && cells[r.value] == Some(cell)
    ensures r.Some? ==> forall j :: 0 <= j < r.value ==> cells[j] != Some(cell)
    ensures r.None? ==> forall j :: 0 <= j < |cells| ==> cells[j] != Some(cell)
  {
    FirstMatchFrom(cells, cell, 0)
  }

  function FirstMatchFrom(cells: seq<Option<Cell>>, cell: Cell, from: nat): (r: Option<nat>)
    ensures r.Some? ==> from <= r.value < |cells| && cells[r.value] == Some(cell)
    ensures r.Some? ==> forall j :: from <= j < r.value ==> cells[j] != Some(cell)
    ensures r.None? ==> forall j :: from <= j < |cells| ==> cells[j] != Some(cell)
    decreases |cells| - from
  {
    if from >= |cells| then None
    else if cells[from] == Some(cell) then Some(from)
    else FirstMatchFrom(cells, cell, from + 1)
  }

  /** The first index from `from` on that holds `cell` is what the search returns. */
  lemma {:induction false} FirstMatchFromIs(cells: seq<Option<Cell>>, cell: Cell, from: nat, i: nat)
    requires from <= i < |cells| && cells[i] == Some(cell)
    requires forall j :: from <= j < i ==> cells[j] != Some(cell)
    ensures FirstMatchFrom(cells, cell, from) == Some(i)
    decreases i - from
  {
    if from < i {
      FirstMatchFromIs(cells, cell, from + 1, i);
    }
  }

  /** In terms of the names themselves: the search finds entry `i` exactly when `i` is the
      first entry that parses to `cell`. */
  lemma FirstMatchIs(entries: seq<string>, cell: Cell, i: nat)
    requires i < |entries|
    ensures FirstMatch(Coordinates(entries), cell) == Some(i) <==>
      ParseCell(entries[i]) == Some(cell) && forall j :: 0 <= j < i ==> ParseCell(entries[j]) != Some(cell)
  {
    var cells := Coordinates(entries);
    assert cells[i] == ParseCell(entries[i]);
    if FirstMatch(cells, cell) == Some(i) {
      forall j | 0 <= j < i
        ensures ParseCell(entries[j]) != Some(cell)
      {
        assert cells[j] == ParseCell(entries[j]);
      }
    }
    if ParseCell(entries[i]) == Some(cell) && forall j :: 0 <= j < i ==> ParseCell(entries[j]) != Some(cell) {
      forall j | 0 <= j < i
        ensures cells[j] != Some(cell)
      {
        assert cells[j] == ParseCell(entries[j]);
      }
      FirstMatchFromIs(cells, cell, 0, i);
    }
  }

  /** The search fails exactly when no entry parses to `cell`. */
  lemma FirstMatchNone(entries: seq<string>, cell: Cell)
    ensures FirstMatch(Coordinates(entries), cell).None? <==> forall j :: 0 <= j < |entries| ==> ParseCell(entries[j]) != Some(cell)
  {
    var cells := Coordinates(entries);
    if FirstMatch(cells, cell).Some? {
      var i := FirstMatch(cells, cell).value;
      assert ParseCell(entries[i]) == cells[i];
    }
  }

  /** The entry the lookup returns for `cell`: none when the directory cannot be opened
      or no entry names the tile, otherwise the first entry that does. */
  function Locate(imgDir: Dir, cell: Cell): Option<string>
  {
    if !imgDir.opens then None
    else
      match FirstMatch(Coordinates(imgDir.entries), cell)
      case None => None
      case Some(i) => Some(imgDir.entries[i])
  }

  /** A located entry is in the listing and its name parses back to the requested cell. */
  lemma LocatedParsesBack(imgDir: Dir, cell: Cell)
    requires Locate(imgDir, cell).Some?
    ensures Locate(imgDir, cell).value in imgDir.entries
    ensures ParseCell(Locate(imgDir, cell).value) == Some(cell)
  {
    var i := FirstMatch(Coordinates(imgDir.entries), cell).value;
    assert ParseCell(imgDir.entries[i]) == Coordinates(imgDir.entries)[i];
  }

  /** The lookup finds nothing exactly when the directory cannot be opened or no entry
      parses to `cell`; otherwise it finds the first entry, in listing order, that does. */
  lemma LocateSpec(imgDir: Dir, cell: Cell)
    ensures Locate(imgDir, cell).None? <==>
      !imgDir.opens || forall j :: 0 <= j < |imgDir.entries| ==> ParseCell(imgDir.entries[j]) != Some(cell)
    ensures Locate(imgDir, cell).Some? ==>
      exists i :: 0 <= i < |imgDir.entries| && imgDir.entries[i] == Locate(imgDir, cell).value &&
        ParseCell(imgDir.entries[i]) == Some(cell) &&
        forall j :: 0 <= j < i ==> ParseCell(imgDir.entries[j]) != Some(cell)
  {
    FirstMatchNone(imgDir.entries, cell);
    if Locate(imgDir, cell).Some? {
      var i := FirstMatch(Coordinates(imgDir.entries), cell).value;
      FirstMatchIs(imgDir.entries, cell, i);
    }
  }

  /** The lookup: fails when the directory cannot be opened or no entry names the
      requested tile, and then leaves `fileName` as it was; otherwise returns the first
      matching entry, whose name parses back to the requested column and row. */
  method GetFileName(imgDir: Dir, colNumber: nat, rowNumber: nat, fileName: string)
    returns (ok: bool, fileName': string)
    ensures ok <==> Locate(imgDir, Cell(colNumber, rowNumber)).Some?
    ensures ok ==> fileName' == Locate(imgDir, Cell(colNumber, rowNumber)).value
    ensures !ok ==> fileName' == fileName
  {
    if !imgDir.opens {
      return false, fileName;
    }
    var entries := imgDir.entries;
    ghost var cells := Coordinates(entries);
    var i := 0;
    while i < |entries|
      invariant 0 <= i <= |entries|
      invariant forall j :: 0 <= j < i ==> cells[j] != Some(Cell(colNumber, rowNumber))
    {
      var currFileName := entries[i];
      var (parsed, currColNumber, currRowNumber) := GetCellPosition(currFileName, 0, 0);
      assert cells[i] == ParseCell(entries[i]);
      if parsed && currColNumber == colNumber && currRowNumber == rowNumber {
        return true, currFileName;
      }
      i := i + 1;
    }
    return false, fileName;
  }

  /** Any tile the locator finds lies inside the extent the scanner reports. */
  lemma FoundWithinExtent(entries: seq<string>, cell: Cell)
    requires FirstMatch(Coordinates(entries), cell).Some?
    ensures 1 <= cell.col <= Extent(entries).colCount && 1 <= cell.row <= Extent(entries).rowCount
  {
    var i := FirstMatch(Coordinates(entries), cell).value;
    var e := entries[i];
    assert ParseCell(entries[i]) == Coordinates(entries)[i];
    assert e in entries && ParseCell(e).Some?;
  }
}
