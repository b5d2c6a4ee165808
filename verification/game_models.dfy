/**
  Position-key validation of the persistence layer: a piece position or a
  move endpoint is a "col-row" string naming a cell of the 17-row star.
 */
module GameModels {
  import opened Wrappers
  import opened PyInt

  /** ROW_LENGTHS: the number of cells in each of the 17 rows of the board. */
  const RowLengths: seq<nat> := [1, 2, 3, 4, 13, 12, 11, 10, 9, 10, 11, 12, 13, 4, 3, 2, 1]

  /**
    key.split("-", 1) guarded by "-" in key: the text before the first '-'
    and the text after it, or None when there is no '-'.
   */
  function SplitAtFirstDash(key: string): (parts: Option<(string, string)>)
    ensures parts.None? <==> '-' !in key
    ensures parts.Some? ==> key == parts.value.0 + "-" + parts.value.1 && '-' !in parts.value.0
  {
    match FindFirst(key, '-')
    case None => None
    case Some(i) => Some((key[..i], key[i + 1..]))
  }

  /** The (col, row) integers a key spells, before any bounds check. */
  function ParseKeyParts(key: string): Option<(int, int)> {
    match SplitAtFirstDash(key)
    case None => None
    case Some((colText, rowText)) =>
      match (ParseInt(colText), ParseInt(rowText))
      case (Some(col), Some(row)) => Some((col, row))
      case _ => None
  }

  /** is_valid_position_key: the key splits into integers col and row naming a cell of ROW_LENGTHS. */
  predicate IsValidPositionKey(key: string) {
    match ParseKeyParts(key)
    case None => false
    case Some((col, row)) => 0 <= row < |RowLengths| && 0 <= col < RowLengths[row]
  }

  /** validate_position_key: raises ValidationError exactly when the key is not valid. */
  function ValidatePositionKey(key: string): (r: Result<()>)
    ensures r.Failure? <==> !IsValidPositionKey(key)
    ensures r.Failure? ==> r.error == "Posición inválida: fuera del tablero"
  {
    if IsValidPositionKey(key) then Success(()) else Failure("Posición inválida: fuera del tablero")
  }

  /** A valid key names a row in 0..16 and a column inside that row. */
  lemma ValidKeyIsInBounds(key: string)
    requires IsValidPositionKey(key)
    ensures ParseKeyParts(key).Some?
    ensures var (col, row) := ParseKeyParts(key).value; 0 <= row < 17 && 0 <= col < RowLengths[row]
    ensures '-' in key
  {
  }

  /** Only the first '-' splits: "1--2" reads row -2, which is rejected. */
  lemma SecondDashBelongsToRow()
    ensures ParseKeyParts("1--2") == Some((1, -2))
    ensures !IsValidPositionKey("1--2")
  {
    assert "1--2"[1..] == "--2";
    assert FindFirst("1--2", '-') == Some(1);
    assert "1--2"[..1] == "1" && "1--2"[2..] == "-2";
    assert SplitAtFirstDash("1--2") == Some(("1", "-2"));
    assert DigitsValue("2") == 2;
  }

  /** Off-board keys are rejected: "99-99" names row 99. */
  lemma OffBoardKeyRejected()
    ensures ParseKeyParts("99-99") == Some((99, 99))
    ensures ValidatePositionKey("99-99").Failure?
  {
    assert "99-99"[1..] == "9-99" && "9-99"[1..] == "-99";
    assert FindFirst("99-99", '-') == Some(2);
    assert "99-99"[..2] == "99" && "99-99"[3..] == "99";
    assert SplitAtFirstDash("99-99") == Some(("99", "99"));
    assert "99"[..1] == "9";
    assert DigitsValue("99") == 99;
  }
}
