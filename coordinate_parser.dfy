/** `getCellPosition` (Concatenator/Concatenator.cpp): reads the column and row a tile's
    file name encodes, as in "3_5.png" for column 3, row 5. */
module CoordinateParser {
  import opened Wrappers
  import opened CStdlib

  /** A tile position; the parser only ever produces positive coordinates. */
  datatype Cell = Cell(col: nat, row: nat)

  /** The name is split at its first '_' and at the first '.' after that '_'; both parts
      are read with `atol`, and a value that is not positive rejects the name. */
  function ParseCell(fileName: string): (r: Option<Cell>)
    ensures r.Some? ==> r.value.col >= 1 && r.value.row >= 1
  {
    var underlinePos := Find(fileName, '_', 0);
    // `underlinePos + 1` wraps around to 0 in size_t when `underlinePos` is npos
    var pointPos := Find(fileName, '.', if underlinePos.Some? then underlinePos.value + 1 else 0);
    if underlinePos.None? || pointPos.None? || pointPos.value < underlinePos.value then
      None
    else
      var colNumberSigned := Atol(fileName[..underlinePos.value]);
      var rowNumberSigned := Atol(fileName[underlinePos.value + 1 .. pointPos.value]);
      if colNumberSigned <= 0 || rowNumberSigned <= 0 then None
      else Some(Cell(colNumberSigned, rowNumberSigned))
  }

  /** The C++ signature: on success the two out-parameters receive the coordinates,
      on failure they keep the values they had on entry. */
  function GetCellPosition(fileName: string, colNumber: nat, rowNumber: nat): (r: (bool, nat, nat))
    ensures r.0 <==> ParseCell(fileName).Some?
    ensures r.0 ==> Cell(r.1, r.2) == ParseCell(fileName).value && r.1 >= 1 && r.2 >= 1
    ensures !r.0 ==> r.1 == colNumber && r.2 == rowNumber
  {
    match ParseCell(fileName)
    case None => (false, colNumber, rowNumber)
    case Some(cell) => (true, cell.col, cell.row)
  }

  /** The guard `pointPos < underlinePos` can never hold: the search for '.' starts
      just after the '_'. */
  lemma PointAfterUnderline(fileName: string)
    requires Find(fileName, '_', 0).Some?
    requires Find(fileName, '.', Find(fileName, '_', 0).value + 1).Some?
    ensures Find(fileName, '.', Find(fileName, '_', 0).value + 1).value > Find(fileName, '_', 0).value
  {
  }

  /** A name without any '_' is rejected. */
  lemma NoUnderline(fileName: string)
    requires '_' !in fileName
    ensures ParseCell(fileName).None?
  {
    FindNone(fileName, '_', 0);
  }

  /** A name whose first '_' is not followed by any '.' is rejected. */
  lemma {:induction false} NoPointAfterUnderline(colPart: string, rest: string)
    requires '_' !in colPart && '.' !in rest
    ensures ParseCell(colPart + "_" + rest).None?
  {
    var name := colPart + "_" + rest;
    var u := |colPart|;
    assert forall i :: 0 <= i < u ==> name[i] == colPart[i];
    FindIs(name, '_', 0, u);
    assert forall i :: u + 1 <= i < |name| ==> name[i] == rest[i - u - 1];
    FindNone(name, '.', u + 1);
  }

  /** A name of the shape `colPart + "_" + rowPart + "." + ext`, where `colPart` holds no
      '_' and `rowPart` holds no '.', parses to the `atol` values of the two parts when
      both are positive, and is rejected otherwise. */
  lemma {:induction false} ParseOfSplit(colPart: string, rowPart: string, ext: string)
    requires '_' !in colPart && '.' !in rowPart
    ensures ParseCell(colPart + "_" + rowPart + "." + ext) ==
      if Atol(colPart) > 0 && Atol(rowPart) > 0 then Some(Cell(Atol(colPart), Atol(rowPart)))
      else None
  {
    var name := colPart + "_" + rowPart + "." + ext;
    var u := |colPart|;
    var p := u + 1 + |rowPart|;
    assert forall i :: 0 <= i < u ==> name[i] == colPart[i];
    FindIs(name, '_', 0, u);
    assert forall i :: u + 1 <= i < p ==> name[i] == rowPart[i - u - 1];
    FindIs(name, '.', u + 1, p);
    assert name[..u] == colPart;
    assert name[u + 1 .. p] == rowPart;
  }

  /** Conversely, every name the parser accepts has that shape. */
  lemma {:induction false} SplitOfParse(fileName: string) returns (colPart: string, rowPart: string, ext: string)
    requires ParseCell(fileName).Some?
    ensures fileName == colPart + "_" + rowPart + "." + ext
    ensures '_' !in colPart && '.' !in rowPart
  {
    var uPos := Find(fileName, '_', 0);
    var pPos := Find(fileName, '.', uPos.value + 1);
    FindSpec(fileName, '_', 0);
    FindSpec(fileName, '.', uPos.value + 1);
    var u, p := uPos.value, pPos.value;
    colPart, rowPart, ext := fileName[..u], fileName[u + 1 .. p], fileName[p + 1..];
    SplitAt(fileName, u, p);
  }

  lemma SplitAt(s: string, u: nat, p: nat)
    requires u < p < |s| && s[u] == '_' && s[p] == '.'
    ensures s == s[..u] + "_" + s[u + 1 .. p] + "." + s[p + 1..]
  {
    assert s[p..] == "." + s[p + 1..];
    assert s[u..p] == "_" + s[u + 1 .. p];
    assert s[..p] == s[..u] + s[u..p];
    assert s == s[..p] + s[p..];
  }

  /** Round trip: the canonical tile name of a positive column and row, with any
      extension, parses back to exactly that column and row. */
  lemma RoundTrip(col: nat, row: nat, ext: string)
    requires col >= 1 && row >= 1
    ensures ParseCell(Decimal(col) + "_" + Decimal(row) + "." + ext) == Some(Cell(col, row))
  {
    AtolOfDecimal(col);
    AtolOfDecimal(row);
    ParseOfSplit(Decimal(col), Decimal(row), ext);
  }

  /** A zero coordinate is rejected. */
  lemma RejectsZero()
    ensures ParseCell("0_5.png").None?
  {
    AtolOfDigits("0");
    assert "0_5.png" == "0" + "_" + "5" + "." + "png";
    ParseOfSplit("0", "5", "png");
  }

  /** A part in which `atol` finds no digits reads as 0 and is rejected. */
  lemma RejectsNonNumeric()
    ensures ParseCell("abc_3.png").None?
  {
    AtolOfForm("", "", "", "abc");
    assert "abc_3.png" == "abc" + "_" + "3" + "." + "png";
    ParseOfSplit("abc", "3", "png");
  }

  /** An empty row part reads as 0 and is rejected. */
  lemma RejectsEmptyRow()
    ensures ParseCell("1_.png").None?
  {
    AtolOfDigits("");
    assert "1_.png" == "1" + "_" + "" + "." + "png";
    ParseOfSplit("1", "", "png");
  }

  /** A negative coordinate is rejected. */
  lemma RejectsNegative()
    ensures ParseCell("-2_1.png").None?
  {
    AtolOfForm("", "-", "2", "");
    assert "-2_1.png" == "-2" + "_" + "1" + "." + "png";
    ParseOfSplit("-2", "1", "png");
  }

  /** A name without an extension is rejected, and so are the `.` and `..` entries that
      every listing holds. */
  lemma RejectsNoExtension()
    ensures ParseCell("7_2").None?
    ensures ParseCell(".").None? && ParseCell("..").None?
  {
    assert "7_2" == "7" + "_" + "2";
    NoPointAfterUnderline("7", "2");
    NoUnderline(".");
    NoUnderline("..");
  }

  /** The canonical form. */
  lemma AcceptsCanonical()
    ensures ParseCell("3_5.png") == Some(Cell(3, 5))
  {
    AtolOfDigits("3");
    AtolOfDigits("5");
    assert "3_5.png" == "3" + "_" + "5" + "." + "png";
    ParseOfSplit("3", "5", "png");
  }

  /** What follows the digits of a part is ignored, as `atol` ignores it. */
  lemma IgnoresTrailingText()
    ensures ParseCell("12abc_3.x") == Some(Cell(12, 3))
  {
    AtolOfForm("", "", "12", "abc");
    AtolOfDigits("3");
    assert "12abc" == "" + "" + "12" + "abc";
    assert "12abc_3.x" == "12abc" + "_" + "3" + "." + "x";
    ParseOfSplit("12abc", "3", "x");
  }

  /** Leading white space before a part is skipped, as `atol` skips it. */
  lemma SkipsLeadingSpace()
    ensures ParseCell(" 4_2.jpg") == Some(Cell(4, 2))
  {
    AtolOfForm(" ", "", "4", "");
    AtolOfDigits("2");
    assert " 4" == " " + "" + "4" + "";
    assert " 4_2.jpg" == " 4" + "_" + "2" + "." + "jpg";
    ParseOfSplit(" 4", "2", "jpg");
  }

  /** A '+' sign before a part is accepted, as `atol` accepts it. */
  lemma AcceptsPlusSign()
    ensures ParseCell("4_+2.jpg") == Some(Cell(4, 2))
  {
    AtolOfDigits("4");
    AtolOfForm("", "+", "2", "");
    assert "+2" == "" + "+" + "2" + "";
    assert "4_+2.jpg" == "4" + "_" + "+2" + "." + "jpg";
    ParseOfSplit("4", "+2", "jpg");
  }

  /** A '.' before the '_' does not reject a name: the search for the '.' that ends the row
      part starts after the '_', and `atol` stops reading the column part at the '.'. */
  lemma AcceptsPointBeforeUnderline()
    ensures ParseCell("1.5_2.png") == Some(Cell(1, 2))
  {
    AtolOfForm("", "", "1", ".5");
    AtolOfDigits("2");
    assert "1.5" == "" + "" + "1" + ".5";
    assert "1.5_2.png" == "1.5" + "_" + "2" + "." + "png";
    ParseOfSplit("1.5", "2", "png");
  }
}
