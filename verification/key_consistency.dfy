/**
  How the persistence layer's key validator relates to the coordinate table
  of the heuristic agent.
 */
module KeyConsistency {
  import opened Wrappers
  import opened PyInt
  import opened BoardGeometry
  import opened GameModels

  /** ROW_LENGTHS agrees with the row sizes of the coordinate table. */
  lemma RowLengthsMatchTable()
    ensures |RowLengths| == |CoordRows|
    ensures forall r :: 0 <= r < |RowLengths| ==> RowLengths[r] == |CoordRows[r]|
  {
    CoordRowsShape();
  }

  /** A key written by the table reads back as its column and row. */
  lemma ParseFormattedKey(col: nat, row: nat)
    ensures ParseKeyParts(FormatKey(col, row)) == Some((col, row))
  {
    var k := FormatKey(col, row);
    var n := |NatToString(col)|;
    FirstDashOfKey(col, row);
    assert SplitAtFirstDash(k) == Some((NatToString(col), NatToString(row))) by {
      assert k[n] == '-';
      var parts := SplitAtFirstDash(k).value;
      assert k == parts.0 + "-" + parts.1;
      assert k[|parts.0|] == '-';
      assert |parts.0| == n;
      assert parts.0 == k[..n] == NatToString(col);
      assert parts.1 == k[n + 1..] == NatToString(row);
    }
    ParseIntOfNatToString(col);
    ParseIntOfNatToString(row);
  }

  /** Every key of the coordinate table passes is_valid_position_key. */
  lemma TableKeysAccepted(key: string)
    requires AxialFromKey(key).Some?
    ensures IsValidPositionKey(key)
  {
    var r, c := KeyIsCell(key);
    ParseFormattedKey(c, r);
  }

  /** Every accepted key reads as a column and row whose table key exists. */
  lemma AcceptedKeysNameCells(key: string)
    requires IsValidPositionKey(key)
    ensures var (col, row) := ParseKeyParts(key).value;
      col >= 0 && row >= 0 && AxialFromKey(FormatKey(col, row)).Some?
  {
    CellKeysOnBoard();
  }

  /** As written, is_valid_position_key also accepts "01-4" (int("01") is 1), which is not a key of the table. */
  lemma NonCanonicalKeyAccepted()
    ensures IsValidPositionKey("01-4")
    ensures AxialFromKey("01-4").None?
  {
    var key := "01-4";
    assert key == "01" + "-" + "4";
    assert "01"[..1] == "0";
    assert ParseInt("01") == Some(1) && ParseInt("4") == Some(4);
    ValidOfParts("01", "4", 1, 4);
    LeadingZeroOffTable(key);
  }

  /** A column text and a row text that int() reads as a column and row of ROW_LENGTHS make a valid key. */
  lemma ValidOfParts(colText: string, rowText: string, col: int, row: int)
    requires '-' !in colText && ParseInt(colText) == Some(col) && ParseInt(rowText) == Some(row)
    requires 0 <= row < |RowLengths| && 0 <= col < RowLengths[row]
    ensures IsValidPositionKey(colText + "-" + rowText)
  {
    SplitOfParts(colText, rowText);
  }

  /** A column text without '-' splits off at the dash that follows it. */
  lemma SplitOfParts(colText: string, rowText: string)
    requires '-' !in colText
    ensures SplitAtFirstDash(colText + "-" + rowText) == Some((colText, rowText))
  {
    var key, n := colText + "-" + rowText, |colText|;
    assert key[n] == '-';
    var parts := SplitAtFirstDash(key).value;
    assert key == parts.0 + "-" + parts.1;
    assert key[|parts.0|] == '-';
    assert parts.0 == key[..n] == colText;
    assert parts.1 == key[n + 1..] == rowText;
  }

  /** No key of the table starts with a zero followed by another digit. */
  lemma LeadingZeroOffTable(key: string)
    requires |key| >= 2 && key[0] == '0' && key[1] != '-'
    ensures AxialFromKey(key).None?
  {
    if key in PositionToAxial() {
      var r, c := KeyIsCell(key);
      FirstDashOfKey(c, r);
      NatToStringCanonical(c);
    }
  }

  /** The validator as intended: a valid key written exactly as the table writes the key of its column and row. */
  predicate IsCanonicalPositionKey(key: string) {
    && IsValidPositionKey(key)
    && var (col, row) := ParseKeyParts(key).value;
      key == FormatKey(col, row)
  }

  /** The intended validator accepts exactly the keys of the coordinate table. */
  lemma CanonicalKeysAreTableKeys(key: string)
    ensures IsCanonicalPositionKey(key) <==> AxialFromKey(key).Some?
  {
    if AxialFromKey(key).Some? {
      var r, c := KeyIsCell(key);
      ParseFormattedKey(c, r);
    }
    if IsCanonicalPositionKey(key) {
      CellKeysOnBoard();
    }
  }
}
