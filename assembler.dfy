/** `concatFullImage` (Concatenator/Concatenator.cpp): for every row from `rowCount` down
    to 1, looks up and decodes the tiles of columns 1 to `colCount`, joins them side by
    side, then stacks the row images (row `rowCount` on top) and writes the result into
    the tiles directory. The first failure aborts the run. */
module Assembler {
  import opened Wrappers
  import opened CoordinateParser
  import opened DirListing
  import opened TileLocator

  /** The image library as the assembler uses it: decoding a file, horizontal and vertical
      concatenation, and encoding to a file. An empty image from the library is None. */
  datatype ImageLib<!Image> = ImageLib(
    imread: string -> Option<Image>,
    hconcat: seq<Image> -> Option<Image>,
    vconcat: seq<Image> -> Option<Image>,
    imwrite: (string, Image) -> bool)

  /** A file inside a directory: a '/' is put between them unless the directory path
      already ends in one. */
  function JoinPath(dir: string, name: string): (path: string)
    requires |dir| > 0
    ensures |path| == |dir| + |name| || (|path| == |dir| + 1 + |name| && dir[|dir| - 1] != '/')
    ensures path[..|dir|] == dir
    ensures path[|path| - |name|..] == name
    ensures path[|path| - |name| - 1] == '/'
  {
    if dir[|dir| - 1] != '/' then dir + "/" + name else dir + name
  }

  /** The cells of row `row`, columns 1 to `colCount`, in lookup order. */
  function RowOrder(colCount: nat, row: nat): (cells: seq<Cell>)
    ensures |cells| == colCount
    ensures forall j :: 0 <= j < colCount ==> cells[j] == Cell(j + 1, row)
  {
    seq(colCount, j requires 0 <= j < colCount => Cell(j + 1, row))
  }

  /** The cells of rows `top` down to `bottom + 1`, each row in column order. */
  function LookupOrder(colCount: nat, top: nat, bottom: nat): seq<Cell>
    decreases top
  {
    if top <= bottom then [] else RowOrder(colCount, top) + LookupOrder(colCount, top - 1, bottom)
  }

  /** The image the assembler obtains for a cell: the first matching directory entry,
      decoded from its path inside the directory. */
  function TileImage<Image>(lib: ImageLib<Image>, imgDir: Dir, cell: Cell): Option<Image>
    requires |imgDir.path| > 0
  {
    match Locate(imgDir, cell)
    case None => None
    case Some(name) => lib.imread(JoinPath(imgDir.path, name))
  }

  predicate Ready<Image>(lib: ImageLib<Image>, imgDir: Dir, cell: Cell)
    requires |imgDir.path| > 0
  {
    TileImage(lib, imgDir, cell).Some?
  }

  /** Reading columns 1 to `n` of a row: the decoded tiles, or the first column whose
      tile cannot be located or decoded. */
  datatype RowRead<Image> = Tiles(images: seq<Image>) | MissingAt(col: nat)

  function ReadRow<Image>(lib: ImageLib<Image>, imgDir: Dir, row: nat, n: nat): RowRead<Image>
    requires |imgDir.path| > 0
  {
    if n == 0 then Tiles([])
    else
      match ReadRow(lib, imgDir, row, n - 1)
      case MissingAt(c) => MissingAt(c)
      case Tiles(images) =>
        match TileImage(lib, imgDir, Cell(n, row))
        case None => MissingAt(n)
        case Some(image) => Tiles(images + [image])
  }

  /** The image of a row: its tiles joined side by side, or None when a tile is missing,
      cannot be decoded, or the library cannot join them. */
  function RowImage<Image>(lib: ImageLib<Image>, imgDir: Dir, colCount: nat, row: nat): Option<Image>
    requires |imgDir.path| > 0
  {
    match ReadRow(lib, imgDir, row, colCount)
    case MissingAt(_) => None
    case Tiles(images) => lib.hconcat(images)
  }

  /** Building rows `top` down to `bottom + 1`: their images, top row first, or the first
      row (counting down) whose image cannot be built. */
  datatype RowsBuild<Image> = Rows(images: seq<Image>) | FailedRow(row: nat)

  function BuildRows<Image>(lib: ImageLib<Image>, imgDir: Dir, colCount: nat, top: nat, bottom: nat)
    : RowsBuild<Image>
    requires |imgDir.path| > 0
    decreases top - bottom
  {
    if top <= bottom then Rows([])
    else
      match BuildRows(lib, imgDir, colCount, top, bottom + 1)
      case FailedRow(r) => FailedRow(r)
      case Rows(images) =>
        match RowImage(lib, imgDir, colCount, bottom + 1)
        case None => FailedRow(bottom + 1)
        case Some(image) => Rows(images + [image])
  }

  /** The lookups the assembler makes: all cells down to the failing row, then that row's
      cells up to and including the first one that cannot be read (all of them when it
      is the joining that fails). */
  function ExpectedLookups<Image>(lib: ImageLib<Image>, imgDir: Dir, colCount: nat, rowCount: nat): seq<Cell>
    requires |imgDir.path| > 0
  {
    match BuildRows(lib, imgDir, colCount, rowCount, 0)
    case Rows(_) => LookupOrder(colCount, rowCount, 0)
    case FailedRow(y) =>
      var readInRow := match ReadRow(lib, imgDir, y, colCount)
        case MissingAt(x) => x
        case Tiles(_) => colCount;
      LookupOrder(colCount, rowCount, y) + RowOrder(colCount, y)[..Min(readInRow, colCount)]
  }

  function Min(a: nat, b: nat): nat
  {
    if a < b then a else b
  }

  /** The write the assembler attempts: the stacked rows, into `outputFileName` inside the
      tiles directory; none when any tile, row or the stacking fails. */
  function ExpectedWrite<Image>(lib: ImageLib<Image>, imgDir: Dir, outputFileName: string, colCount: nat, rowCount: nat)
    : Option<(string, Image)>
    requires |imgDir.path| > 0
  {
    match BuildRows(lib, imgDir, colCount, rowCount, 0)
    case FailedRow(_) => None
    case Rows(rowImages) =>
      match lib.vconcat(rowImages)
      case None => None
      case Some(whole) => Some((JoinPath(imgDir.path, outputFileName), whole))
  }

  /** The assembler. `lookups` records the cells handed to the tile locator, in order;
      `written` is the path and image handed to the encoder, if it was reached. */
  method ConcatFullImage<Image>(lib: ImageLib<Image>, outputFileName: string, inputImagesDir: Dir,
                                colCount: nat, rowCount: nat)
    returns (ok: bool, lookups: seq<Cell>, written: Option<(string, Image)>)
    requires |inputImagesDir.path| > 0
    ensures lookups == ExpectedLookups(lib, inputImagesDir, colCount, rowCount)
    ensures written == ExpectedWrite(lib, inputImagesDir, outputFileName, colCount, rowCount)
    ensures ok <==> written.Some? && lib.imwrite(written.value.0, written.value.1)
  {
    var imgDir := inputImagesDir;
    var wholeImageCup: seq<Image> := [];
    lookups := [];
    var y: nat := rowCount;
    while y > 0
      invariant y <= rowCount
      invariant BuildRows(lib, imgDir, colCount, rowCount, y) == Rows(wholeImageCup)
      invariant lookups == LookupOrder(colCount, rowCount, y)
    {
      var wholeRowImages: seq<Image> := [];
      var x := 1;
      while x <= colCount
        invariant 1 <= x <= colCount + 1
        invariant ReadRow(lib, imgDir, y, x - 1) == Tiles(wholeRowImages)
        invariant lookups == LookupOrder(colCount, rowCount, y) + RowOrder(colCount, y)[..x - 1]
      {
        RowOrderNext(colCount, y, x);
        lookups := lookups + [Cell(x, y)];
        var found, currFilename := GetFileName(imgDir, x, y, "");
        if !found {
          FailsAtTile(lib, imgDir, colCount, rowCount, y, x);
          return false, lookups, None;
        }
        var currFilePath := JoinPath(imgDir.path, currFilename);
        var image := lib.imread(currFilePath);
        if image.None? {
          FailsAtTile(lib, imgDir, colCount, rowCount, y, x);
          return false, lookups, None;
        }
        TileRead(lib, imgDir, y, x, wholeRowImages, currFilename, image.value);
        wholeRowImages := wholeRowImages + [image.value];
        x := x + 1;
      }
      assert x - 1 == colCount;
      assert ReadRow(lib, imgDir, y, colCount) == Tiles(wholeRowImages);
      var rowImage := lib.hconcat(wholeRowImages);
      if rowImage.None? {
        FailsAtRow(lib, imgDir, colCount, rowCount, y, wholeRowImages);
        return false, lookups, None;
      }
      LookupOrderNext(colCount, rowCount, y);
      RowBuilt(lib, imgDir, colCount, rowCount, y, wholeImageCup, wholeRowImages, rowImage.value);
      wholeImageCup := wholeImageCup + [rowImage.value];
      y := y - 1;
    }
    RunBuilt(lib, imgDir, outputFileName, colCount, rowCount, wholeImageCup);
    var wholeImage := lib.vconcat(wholeImageCup);
    if wholeImage.None? {
      return false, lookups, None;
    }
    var outputImagePath := JoinPath(imgDir.path, outputFileName);
    written := Some((outputImagePath, wholeImage.value));
    ok := lib.imwrite(outputImagePath, wholeImage.value);
  }

  /** Reading the tile of column `x` extends the row's tiles by it. */
  lemma TileRead<Image>(lib: ImageLib<Image>, imgDir: Dir, y: nat, x: nat, images: seq<Image>, name: string, image: Image)
    requires |imgDir.path| > 0 && x >= 1
    requires ReadRow(lib, imgDir, y, x - 1) == Tiles(images)
    requires Locate(imgDir, Cell(x, y)) == Some(name)
    requires lib.imread(JoinPath(imgDir.path, name)) == Some(image)
    ensures ReadRow(lib, imgDir, y, x) == Tiles(images + [image])
  {
  }

  /** Joining the tiles of row `y` extends the rows built so far by its image. */
  lemma RowBuilt<Image>(lib: ImageLib<Image>, imgDir: Dir, colCount: nat, rowCount: nat, y: nat,
                        rowImages: seq<Image>, images: seq<Image>, rowImage: Image)
    requires |imgDir.path| > 0
    requires 1 <= y <= rowCount
    requires BuildRows(lib, imgDir, colCount, rowCount, y) == Rows(rowImages)
    requires ReadRow(lib, imgDir, y, colCount) == Tiles(images)
    requires lib.hconcat(images) == Some(rowImage)
    ensures BuildRows(lib, imgDir, colCount, rowCount, y - 1) == Rows(rowImages + [rowImage])
  {
  }

  /** Once every row is built, the run has looked up the whole grid and writes the
      stacked rows, if they can be stacked. */
  lemma RunBuilt<Image>(lib: ImageLib<Image>, imgDir: Dir, outputFileName: string, colCount: nat, rowCount: nat,
                        rowImages: seq<Image>)
    requires |imgDir.path| > 0
    requires BuildRows(lib, imgDir, colCount, rowCount, 0) == Rows(rowImages)
    ensures ExpectedLookups(lib, imgDir, colCount, rowCount) == LookupOrder(colCount, rowCount, 0)
    ensures lib.vconcat(rowImages).None? ==> ExpectedWrite(lib, imgDir, outputFileName, colCount, rowCount).None?
    ensures lib.vconcat(rowImages).Some? ==>
      ExpectedWrite(lib, imgDir, outputFileName, colCount, rowCount) ==
        Some((JoinPath(imgDir.path, outputFileName), lib.vconcat(rowImages).value))
  {
  }

  /** Finishing row `bottom` extends the lookup order by that row. */
  lemma {:induction false} LookupOrderNext(colCount: nat, top: nat, bottom: nat)
    requires 0 < bottom <= top
    ensures LookupOrder(colCount, top, bottom - 1) == LookupOrder(colCount, top, bottom) + RowOrder(colCount, bottom)
    decreases top - bottom
  {
    if bottom < top {
      LookupOrderNext(colCount, top - 1, bottom);
    }
  }

  /** Once a tile of a row cannot be read, reading further columns changes nothing. */
  lemma {:induction false} MissingPersists<Image>(lib: ImageLib<Image>, imgDir: Dir, row: nat, n: nat, m: nat)
    requires |imgDir.path| > 0
    requires n <= m
    requires ReadRow(lib, imgDir, row, n).MissingAt?
    ensures ReadRow(lib, imgDir, row, m) == ReadRow(lib, imgDir, row, n)
    decreases m - n
  {
    if n < m {
      MissingPersists(lib, imgDir, row, n, m - 1);
    }
  }

  /** Once a row cannot be built, building further rows down changes nothing. */
  lemma {:induction false} FailurePersists<Image>(lib: ImageLib<Image>, imgDir: Dir, colCount: nat, top: nat, b: nat, b': nat)
    requires |imgDir.path| > 0
    requires b' <= b
    requires BuildRows(lib, imgDir, colCount, top, b).FailedRow?
    ensures BuildRows(lib, imgDir, colCount, top, b') == BuildRows(lib, imgDir, colCount, top, b)
    decreases b - b'
  {
    if b' < b {
      FailurePersists(lib, imgDir, colCount, top, b, b' + 1);
    }
  }

  /** When every row above `y` was built and row `y` cannot be, the whole build fails
      at row `y`. */
  lemma RowFails<Image>(lib: ImageLib<Image>, imgDir: Dir, colCount: nat, rowCount: nat, y: nat)
    requires |imgDir.path| > 0
    requires 1 <= y <= rowCount
    requires BuildRows(lib, imgDir, colCount, rowCount, y).Rows?
    requires RowImage(lib, imgDir, colCount, y).None?
    ensures BuildRows(lib, imgDir, colCount, rowCount, 0) == FailedRow(y)
  {
    assert BuildRows(lib, imgDir, colCount, rowCount, y - 1) == FailedRow(y);
    FailurePersists(lib, imgDir, colCount, rowCount, y - 1, 0);
  }

  /** When the tile at column `x` of row `y` cannot be read after the columns before it
      were, and every row above `y` was built, the run fails at row `y` after `x` lookups
      in it. */
  lemma FailsAtTile<Image>(lib: ImageLib<Image>, imgDir: Dir, colCount: nat, rowCount: nat, y: nat, x: nat)
    requires |imgDir.path| > 0
    requires 1 <= y <= rowCount && 1 <= x <= colCount
    requires BuildRows(lib, imgDir, colCount, rowCount, y).Rows?
    requires ReadRow(lib, imgDir, y, x - 1).Tiles?
    requires !Ready(lib, imgDir, Cell(x, y))
    ensures BuildRows(lib, imgDir, colCount, rowCount, 0) == FailedRow(y)
    ensures ExpectedLookups(lib, imgDir, colCount, rowCount) == LookupOrder(colCount, rowCount, y) + RowOrder(colCount, y)[..x]
  {
    assert ReadRow(lib, imgDir, y, x) == MissingAt(x);
    MissingPersists(lib, imgDir, y, x, colCount);
    RowFails(lib, imgDir, colCount, rowCount, y);
  }

  /** When every tile of row `y` is read but joining them fails, and every row above `y`
      was built, the run fails at row `y` after looking up all of it. */
  lemma FailsAtRow<Image>(lib: ImageLib<Image>, imgDir: Dir, colCount: nat, rowCount: nat, y: nat, images: seq<Image>)
    requires |imgDir.path| > 0
    requires 1 <= y <= rowCount
    requires BuildRows(lib, imgDir, colCount, rowCount, y).Rows?
    requires ReadRow(lib, imgDir, y, colCount) == Tiles(images)
    requires lib.hconcat(images).None?
    ensures BuildRows(lib, imgDir, colCount, rowCount, 0) == FailedRow(y)
    ensures ExpectedLookups(lib, imgDir, colCount, rowCount) == LookupOrder(colCount, rowCount, y) + RowOrder(colCount, y)
  {
    RowFails(lib, imgDir, colCount, rowCount, y);
    assert RowOrder(colCount, y)[..colCount] == RowOrder(colCount, y);
  }

  /** The next lookup in a row extends the lookups made so far in that row. */
  lemma RowOrderNext(colCount: nat, y: nat, x: nat)
    requires 1 <= x <= colCount
    ensures RowOrder(colCount, y)[..x] == RowOrder(colCount, y)[..x - 1] + [Cell(x, y)]
  {
  }

  /** Cell `a` is looked up before cell `b`: rows from the top down, each row left to right. */
  predicate Before(a: Cell, b: Cell)
  {
    a.row > b.row || (a.row == b.row && a.col < b.col)
  }

  /** The lookup order holds each cell of columns 1 to `colCount` and rows `bottom + 1`
      to `top` exactly once, top row first and each row left to right. */
  lemma {:induction false} LookupOrderSpec(colCount: nat, top: nat, bottom: nat)
    requires bottom <= top
    ensures |LookupOrder(colCount, top, bottom)| == (top - bottom) * colCount
    ensures forall cell :: cell in LookupOrder(colCount, top, bottom) <==>
      1 <= cell.col <= colCount && bottom < cell.row <= top
    ensures forall i, j :: 0 <= i < j < |LookupOrder(colCount, top, bottom)| ==>
      Before(LookupOrder(colCount, top, bottom)[i], LookupOrder(colCount, top, bottom)[j])
    decreases top
  {
    if bottom < top {
      LookupOrderSpec(colCount, top - 1, bottom);
      var row := RowOrder(colCount, top);
      var rest := LookupOrder(colCount, top - 1, bottom);
      assert LookupOrder(colCount, top, bottom) == row + rest;
      assert (top - bottom) * colCount == colCount + (top - 1 - bottom) * colCount;
      forall cell: Cell | cell in row
        ensures 1 <= cell.col <= colCount && cell.row == top
      {
        var j :| 0 <= j < |row| && row[j] == cell;
      }
      forall cell: Cell | 1 <= cell.col <= colCount && cell.row == top
        ensures cell in row
      {
        assert row[cell.col - 1] == cell;
      }
      forall i, j | 0 <= i < j < |row + rest|
        ensures Before((row + rest)[i], (row + rest)[j])
      {
        if i < |row| && |row| <= j {
          assert (row + rest)[j] in rest;
        }
      }
    }
  }

  /** The order of rows `top` down to `bottom + 1` is that of rows `top` down to `mid + 1`
      followed by that of rows `mid` down to `bottom + 1`. */
  lemma {:induction false} LookupOrderSplit(colCount: nat, top: nat, mid: nat, bottom: nat)
    requires bottom <= mid <= top
    ensures LookupOrder(colCount, top, bottom) == LookupOrder(colCount, top, mid) + LookupOrder(colCount, mid, bottom)
    decreases top - mid
  {
    if mid < top {
      LookupOrderNext(colCount, top, mid + 1);
      LookupOrderSplit(colCount, top, mid + 1, bottom);
      assert LookupOrder(colCount, mid + 1, bottom) == RowOrder(colCount, mid + 1) + LookupOrder(colCount, mid, bottom);
    }
  }

  /** A row reads completely exactly when every one of its tiles is located and decoded. */
  lemma {:induction false} ReadRowComplete<Image>(lib: ImageLib<Image>, imgDir: Dir, row: nat, n: nat)
    requires |imgDir.path| > 0
    ensures ReadRow(lib, imgDir, row, n).Tiles? <==> forall c :: 1 <= c <= n ==> Ready(lib, imgDir, Cell(c, row))
  {
    if n > 0 {
      ReadRowComplete(lib, imgDir, row, n - 1);
    }
  }

  /** A row read completely holds its tiles in column order. */
  lemma {:induction false} ReadRowTiles<Image>(lib: ImageLib<Image>, imgDir: Dir, row: nat, n: nat)
    requires |imgDir.path| > 0
    requires ReadRow(lib, imgDir, row, n).Tiles?
    ensures |ReadRow(lib, imgDir, row, n).images| == n
    ensures forall j :: 0 <= j < n ==>
      TileImage(lib, imgDir, Cell(j + 1, row)) == Some(ReadRow(lib, imgDir, row, n).images[j])
  {
    if n > 0 {
      ReadRowTiles(lib, imgDir, row, n - 1);
    }
  }

  /** Reading a row stops at the first tile that is not located and decoded. */
  lemma {:induction false} ReadRowMissing<Image>(lib: ImageLib<Image>, imgDir: Dir, row: nat, n: nat)
    requires |imgDir.path| > 0
    requires ReadRow(lib, imgDir, row, n).MissingAt?
    ensures 1 <= ReadRow(lib, imgDir, row, n).col <= n
    ensures !Ready(lib, imgDir, Cell(ReadRow(lib, imgDir, row, n).col, row))
    ensures forall c :: 1 <= c < ReadRow(lib, imgDir, row, n).col ==> Ready(lib, imgDir, Cell(c, row))
  {
    if ReadRow(lib, imgDir, row, n - 1).MissingAt? {
      ReadRowMissing(lib, imgDir, row, n - 1);
    } else {
      ReadRowComplete(lib, imgDir, row, n - 1);
    }
  }

  /** Rows build completely exactly when every row image can be made. */
  lemma {:induction false} BuildRowsComplete<Image>(lib: ImageLib<Image>, imgDir: Dir, colCount: nat, top: nat, bottom: nat)
    requires |imgDir.path| > 0
    ensures BuildRows(lib, imgDir, colCount, top, bottom).Rows? <==>
      forall z :: bottom < z <= top ==> RowImage(lib, imgDir, colCount, z).Some?
    decreases top - bottom
  {
    if bottom < top {
      BuildRowsComplete(lib, imgDir, colCount, top, bottom + 1);
    }
  }

  /** Rows built completely hold the row images top row first. */
  lemma {:induction false} BuildRowsLayout<Image>(lib: ImageLib<Image>, imgDir: Dir, colCount: nat, top: nat, bottom: nat)
    requires |imgDir.path| > 0
    requires bottom <= top
    requires BuildRows(lib, imgDir, colCount, top, bottom).Rows?
    ensures |BuildRows(lib, imgDir, colCount, top, bottom).images| == top - bottom
    ensures forall i :: 0 <= i < top - bottom ==>
      RowImage(lib, imgDir, colCount, top - i) == Some(BuildRows(lib, imgDir, colCount, top, bottom).images[i])
    decreases top - bottom
  {
    if bottom < top {
      BuildRowsLayout(lib, imgDir, colCount, top, bottom + 1);
    }
  }

  /** Building rows stops at the first row, counting down, whose image cannot be made. */
  lemma {:induction false} BuildRowsFailure<Image>(lib: ImageLib<Image>, imgDir: Dir, colCount: nat, top: nat, bottom: nat)
    requires |imgDir.path| > 0
    requires BuildRows(lib, imgDir, colCount, top, bottom).FailedRow?
    ensures bottom < BuildRows(lib, imgDir, colCount, top, bottom).row <= top
    ensures RowImage(lib, imgDir, colCount, BuildRows(lib, imgDir, colCount, top, bottom).row).None?
    ensures forall z :: BuildRows(lib, imgDir, colCount, top, bottom).row < z <= top ==>
      RowImage(lib, imgDir, colCount, z).Some?
    decreases top - bottom
  {
    if BuildRows(lib, imgDir, colCount, top, bottom + 1).FailedRow? {
      BuildRowsFailure(lib, imgDir, colCount, top, bottom + 1);
    } else {
      BuildRowsComplete(lib, imgDir, colCount, top, bottom + 1);
    }
  }

  /** Every tile of a row whose image was made was located and decoded. */
  lemma RowTilesReady<Image>(lib: ImageLib<Image>, imgDir: Dir, colCount: nat, row: nat, col: nat)
    requires |imgDir.path| > 0
    requires RowImage(lib, imgDir, colCount, row).Some?
    requires 1 <= col <= colCount
    ensures Ready(lib, imgDir, Cell(col, row))
  {
    ReadRowComplete(lib, imgDir, row, colCount);
  }

  /** A tile image comes from the file of a listed entry whose name parses to its cell. */
  lemma TileSource<Image>(lib: ImageLib<Image>, imgDir: Dir, cell: Cell)
    requires |imgDir.path| > 0
    requires Ready(lib, imgDir, cell)
    ensures exists name ::
      name in imgDir.entries && ParseCell(name) == Some(cell) &&
      TileImage(lib, imgDir, cell) == lib.imread(JoinPath(imgDir.path, name))
  {
    LocatedParsesBack(imgDir, cell);
    var name := Locate(imgDir, cell).value;
    assert TileImage(lib, imgDir, cell) == lib.imread(JoinPath(imgDir.path, name));
  }

  /** The assembler never skips a cell or goes back: its lookups are a prefix of the full
      order. */
  lemma LookupsArePrefix<Image>(lib: ImageLib<Image>, imgDir: Dir, colCount: nat, rowCount: nat)
    requires |imgDir.path| > 0
    ensures ExpectedLookups(lib, imgDir, colCount, rowCount) <= LookupOrder(colCount, rowCount, 0)
  {
    var build := BuildRows(lib, imgDir, colCount, rowCount, 0);
    if build.FailedRow? {
      BuildRowsFailure(lib, imgDir, colCount, rowCount, 0);
      var y := build.row;
      LookupOrderSplit(colCount, rowCount, y, 0);
      assert LookupOrder(colCount, y, 0) == RowOrder(colCount, y) + LookupOrder(colCount, y - 1, 0);
    }
  }

  /** Only the last lookup can find no tile, and when it finds none nothing is written. */
  lemma OnlyLastLookupCanFail<Image>(lib: ImageLib<Image>, imgDir: Dir, outputFileName: string,
                                      colCount: nat, rowCount: nat)
    requires |imgDir.path| > 0
    ensures forall k ::
      (0 <= k < |ExpectedLookups(lib, imgDir, colCount, rowCount)| &&
       !Ready(lib, imgDir, ExpectedLookups(lib, imgDir, colCount, rowCount)[k])) ==>
        k == |ExpectedLookups(lib, imgDir, colCount, rowCount)| - 1 &&
        ExpectedWrite(lib, imgDir, outputFileName, colCount, rowCount).None?
  {
    var lookups := ExpectedLookups(lib, imgDir, colCount, rowCount);
    var build := BuildRows(lib, imgDir, colCount, rowCount, 0);
    if build.FailedRow? {
      BuildRowsFailure(lib, imgDir, colCount, rowCount, 0);
    } else {
      BuildRowsComplete(lib, imgDir, colCount, rowCount, 0);
    }
    var top: nat := if build.FailedRow? then build.row else 0;
    var above := LookupOrder(colCount, rowCount, top);
    LookupOrderSpec(colCount, rowCount, top);
    forall k | 0 <= k < |above|
      ensures Ready(lib, imgDir, above[k])
    {
      assert above[k] in above;
      RowTilesReady(lib, imgDir, colCount, above[k].row, above[k].col);
    }
    if build.FailedRow? {
      var y := build.row;
      var read := ReadRow(lib, imgDir, y, colCount);
      if read.MissingAt? {
        ReadRowMissing(lib, imgDir, y, colCount);
      } else {
        ReadRowComplete(lib, imgDir, y, colCount);
      }
      var m := Min(if read.MissingAt? then read.col else colCount, colCount);
      assert lookups == above + RowOrder(colCount, y)[..m];
      forall k | |above| <= k < |lookups| - 1
        ensures Ready(lib, imgDir, lookups[k])
      {
        assert lookups[k] == Cell(k - |above| + 1, y);
      }
    }
  }

  /** A run that reaches the encoder has looked up every cell of the grid once, in order,
      has located and decoded every tile, and writes the stack of the row images, row
      `rowCount` on top, into the tiles directory. */
  lemma CompleteRun<Image>(lib: ImageLib<Image>, imgDir: Dir, outputFileName: string, colCount: nat, rowCount: nat)
    requires |imgDir.path| > 0
    requires ExpectedWrite(lib, imgDir, outputFileName, colCount, rowCount).Some?
    ensures ExpectedLookups(lib, imgDir, colCount, rowCount) == LookupOrder(colCount, rowCount, 0)
    ensures forall c, r :: 1 <= c <= colCount && 1 <= r <= rowCount ==> Ready(lib, imgDir, Cell(c, r))
    ensures ExpectedWrite(lib, imgDir, outputFileName, colCount, rowCount).value.0 == JoinPath(imgDir.path, outputFileName)
    ensures exists rowImages: seq<Image> ::
      |rowImages| == rowCount &&
      (forall i :: 0 <= i < rowCount ==> RowImage(lib, imgDir, colCount, rowCount - i) == Some(rowImages[i])) &&
      lib.vconcat(rowImages) == Some(ExpectedWrite(lib, imgDir, outputFileName, colCount, rowCount).value.1)
  {
    BuildRowsComplete(lib, imgDir, colCount, rowCount, 0);
    BuildRowsLayout(lib, imgDir, colCount, rowCount, 0);
    forall c, r | 1 <= c <= colCount && 1 <= r <= rowCount
      ensures Ready(lib, imgDir, Cell(c, r))
    {
      RowTilesReady(lib, imgDir, colCount, r, c);
    }
  }

  /** A row image is made exactly when every tile of the row is located and decoded and the
      library joins them; the tiles are joined in column order. */
  lemma RowImageSpec<Image>(lib: ImageLib<Image>, imgDir: Dir, colCount: nat, row: nat)
    requires |imgDir.path| > 0
    ensures (exists c :: 1 <= c <= colCount && !Ready(lib, imgDir, Cell(c, row))) ==>
      RowImage(lib, imgDir, colCount, row).None?
    ensures (forall c :: 1 <= c <= colCount ==> Ready(lib, imgDir, Cell(c, row))) ==>
      exists tiles: seq<Image> ::
        |tiles| == colCount &&
        (forall j :: 0 <= j < colCount ==> TileImage(lib, imgDir, Cell(j + 1, row)) == Some(tiles[j])) &&
        RowImage(lib, imgDir, colCount, row) == lib.hconcat(tiles)
  {
    ReadRowComplete(lib, imgDir, row, colCount);
    if ReadRow(lib, imgDir, row, colCount).Tiles? {
      ReadRowTiles(lib, imgDir, row, colCount);
    }
  }
}
