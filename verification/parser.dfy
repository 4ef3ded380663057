/** The Unix input parser (core/engine/tty/parser_unix.go): it turns one
    read from the terminal into one keyboard event. The reader always hands
    it a ten-byte buffer, zero-filled past the bytes the terminal sent. */
module KeyParser {
  import opened Events

  /** The size of the buffer every read fills. */
  const ReadSize: nat := 10

  /** cleanByteArray: the bytes before the first zero byte, or all of them
      when there is none. */
  function CleanBytes(b: seq<Byte>): (r: seq<Byte>)
    ensures r <= b && 0 !in r
    ensures |r| < |b| ==> b[|r|] == 0
  {
    if b == [] then []
    else if b[0] == 0 then []
    else [b[0]] + CleanBytes(b[1..])
  }

  /** The modifier combinations a terminal can report: one or more of
      Shift, Ctrl and Alt, and no other bit. */
  predicate Combination(m: Modifiers)
  {
    m != ModNone && m & !(Shift | Ctrl | Alt) == 0
  }

  /** byteToModifier: the modifier parameter of a control sequence, the
      digits '2' to '8', to modifiers; every other byte to none. The digit
      is one more than the sum of 1 for Shift, 2 for Alt and 4 for Ctrl. */
  function ByteToModifier(n: Byte): (md: Modifiers)
    ensures md != ModNone <==> 50 <= n <= 56
    ensures md != ModNone ==> Combination(md)
    ensures 50 <= n <= 56 ==> (md & Shift != 0 <==> (n - 49) & 1 != 0) &&
                              (md & Alt != 0 <==> (n - 49) & 2 != 0) &&
                              (md & Ctrl != 0 <==> (n - 49) & 4 != 0)
  {
    match n
    case 50 => Shift
    case 51 => Alt
    case 52 => Alt | Shift
    case 53 => Ctrl
    case 54 => Ctrl | Shift
    case 55 => Ctrl | Alt
    case 56 => Ctrl | Shift | Alt
    case _ => ModNone
  }

  /** The modifier parameter a terminal sends for a combination. */
  function ModifierByte(m: Modifiers): Byte
  {
    49 + (if m & Shift != 0 then 1 else 0) + (if m & Alt != 0 then 2 else 0) + (if m & Ctrl != 0 then 4 else 0)
  }

  /** byteToModifier reads back every combination, and every parameter it
      understands comes from exactly one combination. */
  lemma ByteToModifierInverse(m: Modifiers, n: Byte)
    ensures Combination(m) ==> ByteToModifier(ModifierByte(m)) == m
    ensures 50 <= n <= 56 ==> ModifierByte(ByteToModifier(n)) == n
  {
  }

  /** parseKey as written. Where the branch tests look at the length, the
      length is always ReadSize, so only the tests on the bytes decide:
      a lone byte (b[1] zero) is Enter for 13, Ctrl and the byte plus 96
      below 36, else itself; ESC and a byte is Alt and that byte;
      ESC [ 1 ; m X is the key ESC [ X with modifiers m; ESC [ 2 3 ; m X is
      the key ESC [ 2 4 X with modifiers m; anything else is the special key
      spelled by the bytes before the first zero. */
  function ParseKeyAsWritten(b: seq<Byte>): (e: Event)
    requires |b| == ReadSize
    ensures e.KeyboardEvent?
    ensures e.key.ByteKey? <==> b[1] == 0 || (b[2] == 0 && b[0] == 27)
    ensures e.modifiers & !(Shift | Ctrl | Alt) == 0
  {
    if |b| == 1 || b[1] == 0 then
      if b[0] == 13 then NewKeyboardEvent(ByteKey(b[0]), [])
      else if b[0] < 36 then NewKeyboardEvent(ByteKey(b[0] + 96), [Ctrl])
      else NewKeyboardEvent(ByteKey(b[0]), [0])
    else if |b| == 2 || (b[2] == 0 && b[0] == 27) then
      NewKeyboardEvent(ByteKey(b[1]), [Alt])
    else if |b| == 6 || (b[6] == 0 && b[0] == 27 && b[1] == 91 && b[2] == 49 && b[3] == 59) then
      NewKeyboardEvent(SpecialKey([27, 91, b[5]]), [ByteToModifier(b[4])])
    else if |b| == 7 || (b[7] == 0 && b[0] == 27 && b[1] == 91 && b[2] == 50 && b[3] == 51 && b[4] == 59) then
      NewKeyboardEvent(SpecialKey([27, 91, 50, 52, b[6]]), [ByteToModifier(b[5])])
    else
      NewKeyboardEvent(SpecialKey(CleanBytes(b)), [])
  }

  /** parseKey as evidently intended: a lone byte is a control key only
      below 32, the control-code range, as the threshold of the unused
      modifiers helper has it; and a modified ESC [ 2 3 ~ keeps the digits
      it was recognised by. */
  function ParseKey(b: seq<Byte>): (e: Event)
    requires |b| == ReadSize
    ensures e.KeyboardEvent?
    ensures e.key.ByteKey? <==> b[1] == 0 || (b[2] == 0 && b[0] == 27)
    ensures e.modifiers & !(Shift | Ctrl | Alt) == 0
  {
    if |b| == 1 || b[1] == 0 then
      if b[0] == 13 then NewKeyboardEvent(ByteKey(b[0]), [])
      else if b[0] < 32 then NewKeyboardEvent(ByteKey(b[0] + 96), [Ctrl])
      else NewKeyboardEvent(ByteKey(b[0]), [0])
    else if |b| == 2 || (b[2] == 0 && b[0] == 27) then
      NewKeyboardEvent(ByteKey(b[1]), [Alt])
    else if |b| == 6 || (b[6] == 0 && b[0] == 27 && b[1] == 91 && b[2] == 49 && b[3] == 59) then
      NewKeyboardEvent(SpecialKey([27, 91, b[5]]), [ByteToModifier(b[4])])
    else if |b| == 7 || (b[7] == 0 && b[0] == 27 && b[1] == 91 && b[2] == 50 && b[3] == 51 && b[4] == 59) then
      NewKeyboardEvent(SpecialKey([27, 91, 50, 51, b[6]]), [ByteToModifier(b[5])])
    else
      NewKeyboardEvent(SpecialKey(CleanBytes(b)), [])
  }

  /** Parse: one read is exactly one event, a keyboard event. */
  function Parse(b: seq<Byte>): (r: seq<Event>)
    requires |b| == ReadSize
    ensures |r| == 1 && r[0].KeyboardEvent? && TypeOf(r[0]) == KeyboardType
  {
    [ParseKey(b)]
  }

  // ------------------------------------------------------------------
  // What a terminal sends
  // ------------------------------------------------------------------

  /** The read buffer holding `s`, zero-filled. */
  function Padded(s: seq<Byte>): (b: seq<Byte>)
    requires |s| <= ReadSize
    ensures |b| == ReadSize && b[..|s|] == s
    ensures forall i :: |s| <= i < ReadSize ==> b[i] == 0
  {
    s + seq(ReadSize - |s|, _ => 0)
  }

  /** A special key sent as it is: at least three bytes, none of them zero,
      and not the start of a modified key sequence. */
  predicate PlainSequence(s: seq<Byte>)
  {
    3 <= |s| <= ReadSize && 0 !in s &&
    !(s[0] == 27 && s[1] == 91 && s[2] == 49 && |s| >= 4 && s[3] == 59) &&
    !(s[0] == 27 && s[1] == 91 && s[2] == 50 && |s| >= 5 && s[3] == 51 && s[4] == 59)
  }

  /** The key events a terminal can send that the parser is meant to read,
      each with the bytes it sends. */
  predicate Encodable(e: Event)
  {
    match e
    case KeyboardEvent(ByteKey(c), m) =>
      (m == ModNone && (c >= 32 || c == 13)) ||
      (m == Ctrl && 96 <= c < 128 && c != 109) ||
      (m == Alt && c != 0)
    case KeyboardEvent(SpecialKey(s), m) =>
      (m == ModNone && PlainSequence(s)) ||
      (Combination(m) && |s| == 3 && s[..2] == [27, 91] && s[2] != 0) ||
      (Combination(m) && |s| == 5 && s[..4] == [27, 91, 50, 51] && s[4] != 0)
    case _ => false
  }

  /** The bytes a terminal sends for a key event: the byte itself; the
      control code, 96 below the letter; ESC before the byte for Alt;
      ESC [ 1 ; m X and ESC [ 2 3 ; m ~ for a modified cursor or function
      key; the sequence itself for an unmodified special key. */
  function Encode(e: Event): (b: seq<Byte>)
    requires Encodable(e)
    ensures |b| == ReadSize
  {
    match e
    case KeyboardEvent(ByteKey(c), m) =>
      if m == Ctrl then Padded([c - 96])
      else if m == Alt then Padded([27, c])
      else Padded([c])
    case KeyboardEvent(SpecialKey(s), m) =>
      if m == ModNone then Padded(s)
      else if |s| == 3 then Padded([27, 91, 49, 59, ModifierByte(m), s[2]])
      else Padded([27, 91, 50, 51, 59, ModifierByte(m), s[4]])
  }

  /** The parser reads back every key event a terminal sends. */
  lemma ParseKeyEncode(e: Event)
    requires Encodable(e)
    ensures ParseKey(Encode(e)) == e
  {
    match e
    case KeyboardEvent(ByteKey(c), m) =>
      ParseByteKey(c, m);
    case KeyboardEvent(SpecialKey(s), m) =>
      if m == ModNone {
        ParsePlain(s);
      } else if |s| == 3 {
        assert s == [27, 91, s[2]];
        ParseCursorKey(s[2], m);
      } else {
        assert s == [27, 91, 50, 51, s[4]];
        ParseFunctionKey(s[4], m);
      }
  }

  /** A byte key comes back with its modifier. */
  lemma ParseByteKey(c: Byte, m: Modifiers)
    requires Encodable(KeyboardEvent(ByteKey(c), m))
    ensures ParseKey(Encode(KeyboardEvent(ByteKey(c), m))) == KeyboardEvent(ByteKey(c), m)
  {
    var b := Encode(KeyboardEvent(ByteKey(c), m));
    if m == Ctrl {
      assert b[..1] == [c - 96];
    } else if m == Alt {
      assert b[..2] == [27, c];
    } else {
      assert b[..1] == [c];
    }
  }

  /** A special key sent as it is comes back as itself. */
  lemma ParsePlain(s: seq<Byte>)
    requires PlainSequence(s)
    ensures ParseKey(Padded(s)) == KeyboardEvent(SpecialKey(s), ModNone)
  {
    var b := Padded(s);
    assert CleanBytes(b) == s by {
      CleanPrefix(s, b);
    }
  }

  /** ESC [ 1 ; m X comes back as the key ESC [ X with the modifiers m. */
  lemma ParseCursorKey(x: Byte, m: Modifiers)
    requires Combination(m) && x != 0
    ensures ParseKey(Padded([27, 91, 49, 59, ModifierByte(m), x])) ==
            KeyboardEvent(SpecialKey([27, 91, x]), m)
  {
    ByteToModifierInverse(m, 0);
  }

  /** ESC [ 2 3 ; m X comes back as the key ESC [ 2 3 X with the modifiers
      m. */
  lemma ParseFunctionKey(x: Byte, m: Modifiers)
    requires Combination(m) && x != 0
    ensures ParseKey(Padded([27, 91, 50, 51, 59, ModifierByte(m), x])) ==
            KeyboardEvent(SpecialKey([27, 91, 50, 51, x]), m)
  {
    ByteToModifierInverse(m, 0);
  }

  /** Cleaning a zero-filled buffer gives back the bytes that were sent,
      when none of them is zero. */
  lemma {:induction false} CleanPrefix(s: seq<Byte>, b: seq<Byte>)
    requires 0 !in s && |s| <= |b| && b[..|s|] == s && (|s| < |b| ==> b[|s|] == 0)
    ensures CleanBytes(b) == s
  {
    if s != [] {
      assert b[0] == s[0];
      assert b[1..][..|s| - 1] == s[1..];
      CleanPrefix(s[1..], b[1..]);
    }
  }

  /** Every named special key but Escape and Enter is sent as it is;
      those two arrive as lone bytes. */
  lemma NamedKeysPlain()
    ensures PlainSequence(Up) && PlainSequence(Down) && PlainSequence(Right) && PlainSequence(Left)
    ensures PlainSequence(Insert) && PlainSequence(Delete) && PlainSequence(Home) && PlainSequence(End)
    ensures PlainSequence(PageUp)
    ensures PlainSequence(F1) && PlainSequence(F2) && PlainSequence(F3) && PlainSequence(F4)
    ensures PlainSequence(F5) && PlainSequence(F6) && PlainSequence(F7) && PlainSequence(F8)
    ensures PlainSequence(F9) && PlainSequence(F10) && PlainSequence(F11) && PlainSequence(F12)
    ensures ParseKey(Padded(Escape)) == KeyboardEvent(ByteKey(123), Ctrl)
    ensures ParseKey(Padded(Enter)) == KeyboardEvent(ByteKey(13), ModNone)
  {
    assert Padded(Escape)[..1] == Escape;
    assert Padded(Enter)[..1] == Enter;
  }

  // ------------------------------------------------------------------
  // The parser as written against the parser as intended
  // ------------------------------------------------------------------

  /** The two parsers differ only on a lone byte from 32 to 35 and on a
      modified ESC [ 2 3 sequence. */
  lemma AsWrittenDiffers(b: seq<Byte>)
    requires |b| == ReadSize
    ensures ParseKeyAsWritten(b) != ParseKey(b) <==>
              (b[1] == 0 && 32 <= b[0] < 36) ||
              (b[1] != 0 && !(b[2] == 0 && b[0] == 27) &&
               !(b[6] == 0 && b[0] == 27 && b[1] == 91 && b[2] == 49 && b[3] == 59) &&
               b[7] == 0 && b[0] == 27 && b[1] == 91 && b[2] == 50 && b[3] == 51 && b[4] == 59)
  {
    if b[1] == 0 && 32 <= b[0] < 36 {
      assert ParseKeyAsWritten(b).modifiers == Ctrl;
    }
  }

  /** As written, a space bar press reads as Ctrl and the byte 128, not as
      a space. */
  lemma SpaceAsWritten()
    ensures var space := KeyboardEvent(ByteKey(32), ModNone);
            Encodable(space) && ParseKeyAsWritten(Encode(space)) == KeyboardEvent(ByteKey(128), Ctrl)
  {
    var b := Encode(KeyboardEvent(ByteKey(32), ModNone));
    assert b[..1] == [32];
  }

  /** As written, Shift and F11 reads as Shift and F12. */
  lemma ShiftF11AsWritten()
    ensures var key := KeyboardEvent(SpecialKey(F11), Shift);
            Encodable(key) && ParseKeyAsWritten(Encode(key)) == KeyboardEvent(SpecialKey(F12), Shift)
  {
    var b := Encode(KeyboardEvent(SpecialKey(F11), Shift));
    assert b[..7] == [27, 91, 50, 51, 59, 50, 126];
  }
}
