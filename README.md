# Concatenator: a Dafny model of the map-tile assembler

The Concatenator of MapDownloader stitches downloaded map tiles into one image. The
tiles sit in a directory and are named `<col>_<row>.<ext>`. The program runs in two steps:

1. It scans the directory for the largest column and the largest row among the names
   that parse.
2. For every row from the largest down to 1, it looks up each column's tile by
   re-scanning the directory, decodes it, and joins the row's tiles side by side. It then
   stacks the rows, the largest row on top, and writes the result into the same directory.

This project models the four functions of `Concatenator/Concatenator.cpp` that do this
work and proves what each of them promises. The model is split into these modules:

- `CStdlib`: the library behaviour the name parser relies on.
  - `std::string::find` for one character, as `Find`.
  - C `atol`, as `Atol`. It skips C white space, takes an optional sign and reads
    decimal digits up to the first non-digit. No digits reads as 0.
  - `Decimal`, which writes decimal numerals. It is used to state the round trip.
- `CoordinateParser`: `getCellPosition`.
  - `ParseCell` is the name-to-cell reading.
  - `GetCellPosition` keeps the C++ shape: a success flag plus the two out-parameters,
    which are left as they were on failure.
  - One detail is modelled on purpose: when a name has no '_', `npos + 1` wraps to 0 in
    `size_t`, so the search for '.' then starts at 0.
- `DirListing`: a directory is a value `Dir(path, entries, opens)`.
  - `entries` are the names `readdir` yields, in order, `.` and `..` included.
  - `opens` says whether `opendir` succeeds.
- `GridScanner`: `getMatrixParams`.
  - `Extent` is the specification: the largest parsed column and row.
  - `GetMatrixParams` is the loop of the source, proved against `Extent`.
- `TileLocator`: `getFileName`.
  - `Locate` is the specification: the first entry, in listing order, that parses to
    the requested cell.
  - `GetFileName` is the early-return loop, proved against `Locate`.
- `Assembler`: `concatFullImage`.
  - The image library is a value `ImageLib` of four functions (decode, horizontal join,
    vertical join, encode) over an abstract `Image` type. An image with no data is `None`.
  - `ConcatFullImage` keeps the two nested loops of the source. Besides the success flag,
    it returns the cells it handed to the tile locator (`lookups`) and the path and image
    it handed to the encoder (`written`). This makes "aborts at the first failure" and
    "writes nothing on failure" statable.
  - Its specification is built bottom-up:
    - `ReadRow` gives a row's decoded tiles, or the first column that fails.
    - `RowImage` is a row's joined image.
    - `BuildRows` gives the row images from the top down, or the first row that fails.
    - `ExpectedLookups` and `ExpectedWrite` are the run's observable results.
  - Lemmas then state what those definitions mean.

The guard `pointPos < underlinePos` (line 48) looks meant to reject a name with a '.'
before the '_'. It never fires, because the search for '.' starts at `underlinePos + 1`
(`PointAfterUnderline`). So `1.5_2.png` is accepted as column 1, row 2
(`AcceptsPointBeforeUnderline`), because `atol` stops reading at the '.'.

## Model

| member | source | states |
|---|---|---|
| CStdlib.Find | Concatenator/Concatenator.cpp:41-42 | `find` returns an index at or after the start position and inside the string, or npos (None) |
| CStdlib.FindSpec | Concatenator/Concatenator.cpp:41-42 | the index `find` returns holds the character and no earlier index from the start does; npos means the character does not occur from the start on |
| CStdlib.FindIs | Concatenator/Concatenator.cpp:41-42 | the first occurrence at or after the start is what `find` returns |
| CStdlib.FindNone | Concatenator/Concatenator.cpp:41-46 | `find` returns npos when the character does not occur from the start on |
| CStdlib.AtolSkipsSpace | Concatenator/Concatenator.cpp:54-55 | `atol` ignores leading C white space |
| CStdlib.AtolUnsigned | Concatenator/Concatenator.cpp:54-55 | without a sign, `atol` reads the value of the leading digit run and ignores what follows it |
| CStdlib.AtolSigned | Concatenator/Concatenator.cpp:54-55 | after a '+' or '-', `atol` reads the digit run and applies the sign |
| CStdlib.AtolOfForm | Concatenator/Concatenator.cpp:54-55 | for every string in the `strtol` form (white space, optional sign, digits, rest), `atol` gives the signed value of the digits, 0 when there are none |
| CStdlib.Atol | Concatenator/Concatenator.cpp:54-55 | C `atol`, characterised by `AtolOfForm` together with `StrtolForm`: white space skipped, an optional sign, the value of the leading digit run, 0 when there are no digits |
| CStdlib.StrtolForm | Concatenator/Concatenator.cpp:54-55 | every string splits into white space, an optional sign, a digit run and a final part not starting with a digit, so `AtolOfForm` gives `atol` of any string |
| CStdlib.AtolOfDigits | Concatenator/Concatenator.cpp:54-55 | a numeral on its own reads back as its value |
| CStdlib.AtolOfDecimal | Concatenator/Concatenator.cpp:54-55 | `atol` of the decimal numeral of n is n |
| CoordinateParser.ParseCell | Concatenator/Concatenator.cpp:41-63 | a parsed column and row are both at least 1 |
| CoordinateParser.GetCellPosition | Concatenator/Concatenator.cpp:35-71 | returns true exactly when the name parses; then the out-parameters hold the parsed column and row (both at least 1), otherwise they keep their values on entry |
| CoordinateParser.PointAfterUnderline | Concatenator/Concatenator.cpp:41-49 | the '.' found after the first '_' always lies after it, so the guard `pointPos < underlinePos` never fires |
| CoordinateParser.NoUnderline | Concatenator/Concatenator.cpp:41-51 | a name without '_' is rejected |
| CoordinateParser.NoPointAfterUnderline | Concatenator/Concatenator.cpp:41-51 | a name with no '.' after its first '_' is rejected |
| CoordinateParser.ParseOfSplit | Concatenator/Concatenator.cpp:41-63 | a name `colPart_rowPart.ext` (no '_' in colPart, no '.' in rowPart) parses to the `atol` values of the two parts when both are positive and is rejected otherwise |
| CoordinateParser.SplitOfParse | Concatenator/Concatenator.cpp:41-63 | every accepted name has that shape |
| CoordinateParser.RoundTrip | Concatenator/Concatenator.cpp:35-63 | `decimal(col)_decimal(row).ext` parses back to exactly (col, row) for positive col and row, whatever the extension |
| CoordinateParser.RejectsZero | Concatenator/Concatenator.cpp:54-60 | `0_5.png` is rejected |
| CoordinateParser.RejectsNonNumeric | Concatenator/Concatenator.cpp:54-60 | `abc_3.png` is rejected, since `atol("abc")` is 0 |
| CoordinateParser.RejectsEmptyRow | Concatenator/Concatenator.cpp:55-60 | `1_.png` is rejected, since the empty row part reads as 0 |
| CoordinateParser.RejectsNegative | Concatenator/Concatenator.cpp:54-60 | `-2_1.png` is rejected |
| CoordinateParser.RejectsNoExtension | Concatenator/Concatenator.cpp:41-51 | `7_2`, `.` and `..` are rejected |
| CoordinateParser.AcceptsCanonical | Concatenator/Concatenator.cpp:35-63 | `3_5.png` parses to column 3, row 5 |
| CoordinateParser.IgnoresTrailingText | Concatenator/Concatenator.cpp:54 | `12abc_3.x` parses to column 12, row 3: text after the digits is ignored |
| CoordinateParser.SkipsLeadingSpace | Concatenator/Concatenator.cpp:54 | ` 4_2.jpg` parses to column 4, row 2 |
| CoordinateParser.AcceptsPlusSign | Concatenator/Concatenator.cpp:55-56 | `4_+2.jpg` parses to column 4, row 2 |
| CoordinateParser.AcceptsPointBeforeUnderline | Concatenator/Concatenator.cpp:41-63 | `1.5_2.png` parses to column 1, row 2: a '.' before the '_' does not reject a name |
| GridScanner.Extent | Concatenator/Concatenator.cpp:91-114 | the maxima bound every parsed column and row, each is 0 or attained by some parsed entry, and each is positive exactly when some entry parses |
| GridScanner.ExtentDependsOnTilesOnly | Concatenator/Concatenator.cpp:97-114 | the scan result depends only on which parsing names are listed, not on order, repetition or other entries |
| GridScanner.ExtentBelow | Concatenator/Concatenator.cpp:112-113 | listing more tiles never lowers the maxima |
| GridScanner.IgnoresNonTiles | Concatenator/Concatenator.cpp:103-106 | an entry that does not parse changes neither the maxima nor whether a tile was met |
| GridScanner.GetMatrixParams | Concatenator/Concatenator.cpp:73-135 | succeeds exactly when the directory opens and some entry parses; then returns the maxima (both at least 1); on failure leaves `colCount` and `rowCount` as they were |
| TileLocator.Coordinates | Concatenator/Concatenator.cpp:159-168 | the coordinates of each listed entry, index for index |
| TileLocator.FirstMatch | Concatenator/Concatenator.cpp:159-176 | the index of the first entry with the requested coordinates, or none when no entry has them |
| TileLocator.FirstMatchFrom | Concatenator/Concatenator.cpp:159-176 | the same, searching from a given index on |
| TileLocator.FirstMatchFromIs | Concatenator/Concatenator.cpp:159-176 | the first index from the start on that has the requested coordinates is what the search returns |
| TileLocator.FirstMatchIs | Concatenator/Concatenator.cpp:159-176 | the search stops at entry i exactly when entry i parses to the cell and no earlier entry does |
| TileLocator.FirstMatchNone | Concatenator/Concatenator.cpp:159-185 | the search fails exactly when no entry parses to the cell |
| TileLocator.Locate | Concatenator/Concatenator.cpp:150-185 | the entry `getFileName` yields, characterised by `LocateSpec` (none when the directory does not open or no entry matches, otherwise the first matching entry) and `LocatedParsesBack` |
| TileLocator.LocatedParsesBack | Concatenator/Concatenator.cpp:165-174 | a located entry is listed and its name parses back to the requested cell |
| TileLocator.LocateSpec | Concatenator/Concatenator.cpp:150-185 | the lookup fails exactly when the directory does not open or no entry parses to the cell; otherwise it yields the first such entry in listing order |
| TileLocator.GetFileName | Concatenator/Concatenator.cpp:137-187 | succeeds exactly when the lookup locates an entry, returning that first matching entry; on failure leaves `fileName` as it was |
| TileLocator.FoundWithinExtent | Concatenator/Concatenator.cpp:103-113 | any cell the locator finds lies inside the extent the scanner reports |
| Assembler.JoinPath | Concatenator/Concatenator.cpp:217-222 | the path is the directory, then '/', then the name, with no '/' added when the directory already ends in one (the same rule builds the output path at lines 259-264) |
| Assembler.RowOrder | Concatenator/Concatenator.cpp:205 | the cells of a row in lookup order: column j+1 at index j |
| Assembler.ConcatFullImage | Concatenator/Concatenator.cpp:189-277 | the cells looked up, the write attempted and the result are those of the specification: rows counted down, columns counted up, abort at the first failed lookup, decode or join; succeeds exactly when a write is attempted and the encoder reports success |
| Assembler.LookupOrder | Concatenator/Concatenator.cpp:201-205 | the cells of rows `top` down to `bottom + 1`, each row left to right, characterised by `LookupOrderSpec` and `LookupOrderSplit` |
| Assembler.ReadRow | Concatenator/Concatenator.cpp:205-233 | a row's decoded tiles or its first failing column, characterised by `ReadRowComplete`, `ReadRowTiles` and `ReadRowMissing` |
| Assembler.RowImage | Concatenator/Concatenator.cpp:203-243 | the horizontal join of a row's tiles, characterised by `RowImageSpec` |
| Assembler.BuildRows | Concatenator/Concatenator.cpp:201-245 | the row images top row first, or the first row that fails, characterised by `BuildRowsComplete`, `BuildRowsLayout` and `BuildRowsFailure` |
| Assembler.ExpectedLookups | Concatenator/Concatenator.cpp:201-229 | the cells a run hands to the tile locator, characterised by `LookupsArePrefix`, `OnlyLastLookupCanFail` and `CompleteRun` |
| Assembler.ExpectedWrite | Concatenator/Concatenator.cpp:247-272 | the path and image a run hands to the encoder, characterised by `OnlyLastLookupCanFail` and `CompleteRun` |
| Assembler.LookupOrderNext | Concatenator/Concatenator.cpp:201-205 | finishing a row extends the lookups by exactly that row |
| Assembler.RowOrderNext | Concatenator/Concatenator.cpp:205 | the next lookup in a row is the next column |
| Assembler.MissingPersists | Concatenator/Concatenator.cpp:208-229 | once a tile of a row fails, the row stays failed at that column |
| Assembler.FailurePersists | Concatenator/Concatenator.cpp:201-243 | once a row fails, the run stays failed at that row |
| Assembler.RowFails | Concatenator/Concatenator.cpp:236-243 | a row that cannot be built, below rows that were, is where the run fails |
| Assembler.FailsAtTile | Concatenator/Concatenator.cpp:208-229 | a failed lookup or decode at (x, y) ends the run there, after the lookups of all rows above and of columns 1 to x of row y |
| Assembler.FailsAtRow | Concatenator/Concatenator.cpp:236-243 | a failed horizontal join of row y ends the run there, after all of row y's lookups |
| Assembler.LookupOrderSpec | Concatenator/Concatenator.cpp:201-205 | the full order holds each grid cell exactly once (rows × columns of them), higher rows before lower ones and each row left to right |
| Assembler.LookupOrderSplit | Concatenator/Concatenator.cpp:201 | the order of a block of rows is the order of its upper part followed by that of its lower part |
| Assembler.ReadRowComplete | Concatenator/Concatenator.cpp:205-233 | a row reads completely exactly when every one of its tiles is located and decoded |
| Assembler.ReadRowTiles | Concatenator/Concatenator.cpp:205-223 | a row read completely holds exactly its tiles' images, column j+1 at index j |
| Assembler.ReadRowMissing | Concatenator/Concatenator.cpp:207-229 | reading a row stops at its first tile that is not located or decoded; all earlier tiles were |
| Assembler.BuildRowsComplete | Concatenator/Concatenator.cpp:201-245 | all rows build exactly when every row image can be made |
| Assembler.BuildRowsLayout | Concatenator/Concatenator.cpp:201-245 | rows built completely hold one image per row, row `rowCount` first |
| Assembler.BuildRowsFailure | Concatenator/Concatenator.cpp:201-245 | building stops at the first row, counting down, whose image cannot be made; every row above it was made |
| Assembler.TileRead | Concatenator/Concatenator.cpp:207-223 | a located and decoded tile extends the row's images by exactly that image |
| Assembler.RowBuilt | Concatenator/Concatenator.cpp:236-243 | a joined row extends the rows built so far by exactly its image |
| Assembler.RunBuilt | Concatenator/Concatenator.cpp:247-264 | once every row is built, the whole grid was looked up, and the write goes to the output path exactly when the rows can be stacked |
| Assembler.RowTilesReady | Concatenator/Concatenator.cpp:205-237 | every tile of a row whose image was made was located and decoded |
| Assembler.TileSource | Concatenator/Concatenator.cpp:207-223 | a tile image is decoded from the file of a listed entry whose name parses to the tile's cell |
| Assembler.LookupsArePrefix | Concatenator/Concatenator.cpp:201-213 | the lookups of any run are a prefix of the full order: no cell is skipped or revisited |
| Assembler.OnlyLastLookupCanFail | Concatenator/Concatenator.cpp:208-229 | only the last lookup of a run can fail to yield a decodable tile, and when it does nothing is written |
| Assembler.CompleteRun | Concatenator/Concatenator.cpp:199-264 | a run that reaches the encoder looked up every grid cell once in order, located and decoded every tile, and writes the vertical join of the row images (row `rowCount` on top) to the tiles directory |
| Assembler.RowImageSpec | Concatenator/Concatenator.cpp:203-243 | a row image is made exactly when all tiles of the row are located and decoded and the library joins them in column order; one missing tile means no row image |

## Left out

- Logging (lines 11-31 and every `InfoWriter`/`ErrWriter` line): output only, with no effect on results.
- `main` (lines 280-307): argument checking, the version banner and the exit status are not modelled. `main` only chains the scan and the assembly, and the model states the contract of each.
- The directory functions `opendir`/`readdir`/`closedir` are not modelled. A directory is a fixed listing plus whether it opens, and it does not change between the re-scans.
- Exceptions (the `try`/`catch` blocks at lines 39-70, 94-120 and 156-182): allocation failures inside `std::string` are not modelled.
- `Assembler.ConcatFullImage`: uncaught exceptions are not modelled. `concatFullImage` (lines 189-277) has no `try`, so an allocation failure in `+=`, `push_back` or `reserve`, or an error raised inside the OpenCV calls at lines 223, 237, 249 and 267, ends the program instead of returning `false`. The model covers only the "empty image" and "`imwrite` returns false" failure paths.
- The OpenCV library is reduced to four functions supplied by the caller. Pixel data, image sizes, the rules by which a join fails, and the JPEG quality parameter (lines 256-258) are not modelled.
- Vector reservations (lines 200, 204) are not modelled, since they have no observable effect.
- `CStdlib.Atol`: `long` overflow in `atol` is undefined behaviour in C and is not modelled; values are unbounded integers.
- `size_t` wrap-around of the loop counters (`x_coord <= colCount` never ends when `colCount` is the largest `size_t`) is not modelled; counters are unbounded.
- `Assembler.ConcatFullImage`: requires a non-empty directory path. Indexing `size() - 1` of an empty string is undefined behaviour in the source. `main` never reaches the assembler with one, because the scan first fails to open the empty path.
- `TileLocator.GetFileName`: the method's postcondition does not itself say that the returned name parses back to the requested cell. It returns `Locate`'s entry, and `TileLocator.LocatedParsesBack` proves that this entry parses back.
- `Concatenator/src/runner/aux.hpp` and `Concatenator/src/lib/include/img_concatenator/ImgConcatenator.hpp` only declare functions; they are not part of this model.
