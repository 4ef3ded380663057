/** The input events the terminal layer delivers (core/engine/tty/events.go):
    resizes, key presses and mouse events, the two kinds of key, and the
    modifier byte whose single bits stand for Shift, Ctrl and Alt. Go's
    interfaces with one implementation per kind become datatypes with one
    constructor per kind. */
module Events {

  /** Go's byte, with its wrap-around and bitwise operators. */
  type Byte = bv8

  /** The Modifiers byte: an or of the single-bit constants below. */
  type Modifiers = bv8

  /** The constants numbered with iota: None is 0, and `1 << iota` gives
      Shift, Ctrl and Alt the bits 1, 2 and 3. */
  const ModNone: Modifiers := 0
  const Shift: Modifiers := 1 << 1
  const Ctrl: Modifiers := 1 << 2
  const Alt: Modifiers := 1 << 3

  /** The modifier values are 0, 2, 4 and 8: three distinct single bits. */
  lemma ModifierValues()
    ensures ModNone == 0 && Shift == 2 && Ctrl == 4 && Alt == 8
    ensures Shift & Ctrl == 0 && Shift & Alt == 0 && Ctrl & Alt == 0
  {
  }

  datatype EventType = ResizeType | KeyboardType | MouseType

  datatype KeyType = ByteType | SpecialType

  datatype MouseButton = NoButton | LeftButton | RightButton | MiddleButton

  /** A key is a single byte or the text of a special key's sequence. */
  datatype Key = ByteKey(b: Byte) | SpecialKey(s: seq<Byte>)

  datatype Event =
    | ResizeEvent(width: int, height: int)
    | KeyboardEvent(key: Key, modifiers: Modifiers)
    | MouseEvent(x: int, y: int, button: MouseButton, modifiers: Modifiers)

  /** The Type method of each event: its own kind. */
  function TypeOf(e: Event): (t: EventType)
    ensures t == ResizeType <==> e.ResizeEvent?
    ensures t == KeyboardType <==> e.KeyboardEvent?
    ensures t == MouseType <==> e.MouseEvent?
  {
    match e
    case ResizeEvent(_, _) => ResizeType
    case KeyboardEvent(_, _) => KeyboardType
    case MouseEvent(_, _, _, _) => MouseType
  }

  /** The Type method of each key: its own kind. */
  function KeyTypeOf(k: Key): (t: KeyType)
    ensures t == ByteType <==> k.ByteKey?
  {
    match k
    case ByteKey(_) => ByteType
    case SpecialKey(_) => SpecialType
  }

  // ------------------------------------------------------------------
  // Keys
  // ------------------------------------------------------------------

  /** ByteKey.Is: a byte key matches only a byte key with the same byte. */
  function ByteKeyIs(k: Byte, key: Key): (r: bool)
    ensures r <==> key == ByteKey(k)
  {
    if KeyTypeOf(key) != ByteType then false else k == key.b
  }

  /** SpecialKey.Is: a special key matches only a special key with the same
      text. */
  function SpecialKeyIs(k: seq<Byte>, key: Key): (r: bool)
    ensures r <==> key == SpecialKey(k)
  {
    if KeyTypeOf(key) != SpecialType then false else k == key.s
  }

  /** Key.Is, dispatched on the receiver's kind: keys of different kinds
      never match, and keys of one kind match exactly when equal. */
  function KeyIs(k: Key, key: Key): (r: bool)
    ensures r <==> k == key
  {
    match k
    case ByteKey(b) => ByteKeyIs(b, key)
    case SpecialKey(s) => SpecialKeyIs(s, key)
  }

  /** The sequences of the named special keys. */
  const Escape: seq<Byte> := [27]
  const Enter: seq<Byte> := [13]
  const Up: seq<Byte> := [27, 91, 65]
  const Down: seq<Byte> := [27, 91, 66]
  const Right: seq<Byte> := [27, 91, 67]
  const Left: seq<Byte> := [27, 91, 68]
  const Insert: seq<Byte> := [27, 91, 50, 126]
  const Delete: seq<Byte> := [27, 91, 51, 126]
  const Home: seq<Byte> := [27, 91, 49, 126]
  const End: seq<Byte> := [27, 91, 52, 126]
  const PageUp: seq<Byte> := [27, 91, 53, 126]
  const F1: seq<Byte> := [27, 79, 80]
  const F2: seq<Byte> := [27, 79, 81]
  const F3: seq<Byte> := [27, 79, 82]
  const F4: seq<Byte> := [27, 79, 83]
  const F5: seq<Byte> := [27, 91, 49, 53, 126]
  const F6: seq<Byte> := [27, 91, 49, 55, 126]
  const F7: seq<Byte> := [27, 91, 49, 56, 126]
  const F8: seq<Byte> := [27, 91, 49, 57, 126]
  const F9: seq<Byte> := [27, 91, 50, 48, 126]
  const F10: seq<Byte> := [27, 91, 50, 49, 126]
  const F11: seq<Byte> := [27, 91, 50, 51, 126]
  const F12: seq<Byte> := [27, 91, 50, 52, 126]

  // ------------------------------------------------------------------
  // Keyboard events
  // ------------------------------------------------------------------

  /** The or of all the given modifiers, left to right; 0 for none. */
  function OrAll(ms: seq<Modifiers>): Modifiers
  {
    if ms == [] then 0 else OrAll(ms[..|ms| - 1]) | ms[|ms| - 1]
  }

  /** Every bit of `a` is set in `b`. */
  predicate Within(a: Modifiers, b: Modifiers)
  {
    a & b == a
  }

  /** Each given modifier is inside the or. */
  lemma {:induction false} OrAllCovers(ms: seq<Modifiers>)
    ensures forall m :: m in ms ==> Within(m, OrAll(ms))
  {
    if ms != [] {
      var init, last := ms[..|ms| - 1], ms[|ms| - 1];
      OrAllCovers(init);
      forall m | m in ms
        ensures Within(m, OrAll(ms))
      {
        if m == last {
          OrRight(OrAll(init), last);
        } else {
          assert m in init;
          OrLeft(m, OrAll(init), last);
        }
      }
    }
  }

  /** The or is inside every byte that holds all the given modifiers. */
  lemma {:induction false} OrAllLeast(ms: seq<Modifiers>, c: Modifiers)
    requires forall m :: m in ms ==> Within(m, c)
    ensures Within(OrAll(ms), c)
  {
    if ms != [] {
      var init, last := ms[..|ms| - 1], ms[|ms| - 1];
      assert forall m :: m in init ==> m in ms;
      OrAllLeast(init, c);
      assert last in ms;
      OrMeet(OrAll(init), last, c);
    }
  }

  /** A part of `a` is a part of `a | b`. */
  lemma OrLeft(m: Modifiers, a: Modifiers, b: Modifiers)
    requires Within(m, a)
    ensures Within(m, a | b)
  {
  }

  /** `b` is a part of `a | b`. */
  lemma OrRight(a: Modifiers, b: Modifiers)
    ensures Within(b, a | b)
  {
  }

  /** Two parts of `c` or together inside `c`. */
  lemma OrMeet(a: Modifiers, b: Modifiers, c: Modifiers)
    requires Within(a, c) && Within(b, c)
    ensures Within(a | b, c)
  {
  }

  /** newKeyboardEvent: the key with the or of the given modifiers (none
      when there are none). */
  function NewKeyboardEvent(key: Key, ms: seq<Modifiers>): (e: Event)
    ensures e.KeyboardEvent? && e.key == key
    ensures ms == [] ==> e.modifiers == ModNone
    ensures forall m :: m in ms ==> Within(m, e.modifiers)
    ensures |ms| == 1 ==> e.modifiers == ms[0]
  {
    OrAllCovers(ms);
    assert |ms| == 1 ==> ms[..0] == [] && OrAll(ms) == 0 | ms[0];
    KeyboardEvent(key, OrAll(ms))
  }

  /** SetModifiers on a keyboard or mouse event: a copy with the modifiers
      replaced and everything else kept. */
  function SetModifiers(e: Event, m: Modifiers): (r: Event)
    requires !e.ResizeEvent?
    ensures TypeOf(r) == TypeOf(e) && r.modifiers == m
    ensures e.KeyboardEvent? ==> r.key == e.key
    ensures e.MouseEvent? ==> r.x == e.x && r.y == e.y && r.button == e.button
  {
    match e
    case KeyboardEvent(k, _) => KeyboardEvent(k, m)
    case MouseEvent(x, y, b, _) => MouseEvent(x, y, b, m)
  }

  /** Setting the modifiers an event already has changes nothing, and of
      two settings the last wins. */
  lemma SetModifiersLaws(e: Event, a: Modifiers, b: Modifiers)
    requires !e.ResizeEvent?
    ensures SetModifiers(e, e.modifiers) == e
    ensures SetModifiers(SetModifiers(e, a), b) == SetModifiers(e, b)
  {
  }

  /** The test KeyboardEvent.Is applies to each modifier argument: some bit
      in common with the event's modifiers, or equal to them. */
  predicate ModifierMatches(m: Modifiers, mods: Modifiers)
  {
    m & mods > 0 || m == mods
  }

  /** KeyboardEvent.Is: every modifier argument matches and the keys are
      equal. */
  function KeyboardIs(e: Event, key: Key, ms: seq<Modifiers>): (r: bool)
    requires e.KeyboardEvent?
    ensures ms == [] ==> (r <==> e.key == key)
    ensures r ==> e.key == key
  {
    (forall m :: m in ms ==> ModifierMatches(m, e.modifiers)) && KeyIs(e.key, key)
  }

  /** Asking for no modifier matches only an event without modifiers. */
  lemma KeyboardIsNone(e: Event, key: Key)
    requires e.KeyboardEvent?
    ensures KeyboardIs(e, key, [ModNone]) <==> e.modifiers == ModNone && e.key == key
  {
    assert ModNone in [ModNone];
  }

  /** Asking for one of Shift, Ctrl or Alt matches every event holding that
      bit, whatever else it holds. */
  lemma KeyboardIsBit(e: Event, key: Key, m: Modifiers)
    requires e.KeyboardEvent? && (m == Shift || m == Ctrl || m == Alt)
    ensures KeyboardIs(e, key, [m]) <==> e.modifiers & m != 0 && e.key == key
  {
    assert m in [m];
  }

  /** An event made with some modifiers, none of them 0, is that key with
      those modifiers. */
  lemma NewKeyboardEventIs(key: Key, ms: seq<Modifiers>)
    requires forall m :: m in ms ==> m != ModNone
    ensures KeyboardIs(NewKeyboardEvent(key, ms), key, ms)
  {
    var e := NewKeyboardEvent(key, ms);
    forall m | m in ms
      ensures ModifierMatches(m, e.modifiers)
    {
      assert Within(m, e.modifiers);
    }
  }
}
