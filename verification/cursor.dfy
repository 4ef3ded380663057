/** PositionToEscapeCode (core/engine/tty/helpers.go): the cursor position
    control function CUP of section 8.3.21 of ECMA-48, ESC [ row ; column H,
    with the position's Y as the row and its X as the column, both printed
    in decimal as they are, without the shift to the 1-based numbering the
    control function counts in. */
module Cursor {
  import opened Wrappers
  import opened Decimal
  import Buffer

  /** view.Position: a cell's column X and row Y, Go int64 values. */
  datatype Position = Position(x: int, y: int)

  predicate Int64Position(p: Position)
  {
    MinInt64 <= p.x <= MaxInt64 && MinInt64 <= p.y <= MaxInt64
  }

  /** PositionToEscapeCode: ESC [ Y ; X H. */
  function PositionToEscapeCode(p: Position): (s: string)
    ensures |s| >= 6 && s[..2] == [Buffer.Esc, '['] && s[|s| - 1] == 'H'
    ensures p.x >= 0 && p.y >= 0 ==> |s| == 4 + NumDigits(p.y) + NumDigits(p.x)
  {
    ShowNatLength(if p.y >= 0 then p.y else -p.y);
    ShowNatLength(if p.x >= 0 then p.x else -p.x);
    [Buffer.Esc, '['] + Show(p.y) + ";" + Show(p.x) + "H"
  }

  /** A terminal's reading of a CUP sequence: the row before the first ';',
      the column after it, each an optional sign and decimal digits. */
  function ReadPosition(s: string): Option<Position>
  {
    if |s| >= 3 && s[..2] == [Buffer.Esc, '['] && s[|s| - 1] == 'H' then
      match ReadPair(s[2..|s| - 1], ';')
      case Some((row, col)) => Some(Position(col, row))
      case None => None
    else None
  }

  /** The sequence carries the position: reading it back gives the column
      and row it was made from, for every pair of int64 values. */
  lemma ReadPositionToEscapeCode(p: Position)
    requires Int64Position(p)
    ensures ReadPosition(PositionToEscapeCode(p)) == Some(p)
  {
    var s := PositionToEscapeCode(p);
    assert s[2..|s| - 1] == Show(p.y) + [';'] + Show(p.x);
    ReadPairShow(p.y, p.x, ';');
  }
}
