/** Decimal text of integers, as Go's fmt verbs %d and %v print them and as
    strconv.Atoi reads them back (sign, then decimal digits, values outside the
    64-bit range saturated, anything else rejected). Atoi reads the digits
    one by one and reports an overflow at the first digit that takes the
    value past the unsigned 64-bit range, before it looks at any later
    character; such a string saturates even when a bad character follows. */
module Decimal {
  import opened Wrappers

  const MinInt64: int := -0x8000_0000_0000_0000
  const MaxInt64: int := 0x7FFF_FFFF_FFFF_FFFF
  const MaxUint64: int := 0xFFFF_FFFF_FFFF_FFFF

  predicate IsDigit(c: char) { '0' <= c <= '9' }

  predicate AllDigits(s: string) { forall i :: 0 <= i < |s| ==> IsDigit(s[i]) }

  function DigitChar(d: nat): (c: char)
    requires d < 10
    ensures IsDigit(c) && c as int - '0' as int == d
  {
    ('0' as int + d) as char
  }

  /** Number of decimal digits needed to write n. */
  function NumDigits(n: nat): (k: nat)
    ensures k >= 1
  {
    if n < 10 then 1 else 1 + NumDigits(n / 10)
  }

  /** Digits of n, most significant first, without leading zeros. */
  function ShowNat(n: nat): (s: string)
    ensures |s| >= 1 && AllDigits(s)
  {
    if n < 10 then [DigitChar(n)] else ShowNat(n / 10) + [DigitChar(n % 10)]
  }

  /** What %d prints for n: a minus sign for negative values, then the digits. */
  function Show(n: int): (s: string)
    ensures |s| >= 1
    ensures n >= 0 ==> s == ShowNat(n)
    ensures n < 0 ==> s == "-" + ShowNat(-n)
  {
    if n < 0 then "-" + ShowNat(-n) else ShowNat(n)
  }

  /** The value of a string of decimal digits. */
  function DigitsValue(s: string): nat
    requires AllDigits(s)
  {
    if s == [] then 0 else DigitsValue(s[..|s| - 1]) * 10 + (s[|s| - 1] as int - '0' as int)
  }

  /** The length of the run of digits `s` starts with. */
  function DigitRun(s: string): (k: nat)
    ensures k <= |s| && AllDigits(s[..k])
    ensures k < |s| ==> !IsDigit(s[k])
    ensures AllDigits(s) <==> k == |s|
  {
    if s == [] || !IsDigit(s[0]) then 0
    else
      var k := 1 + DigitRun(s[1..]);
      assert s[..k] == [s[0]] + s[1..][..k - 1];
      k
  }

  /** What follows an optional leading sign. */
  function Unsigned(s: string): string
  {
    if |s| >= 1 && (s[0] == '+' || s[0] == '-') then s[1..] else s
  }

  /** strconv.ParseUint stops with a range error before it reaches a
      character that is not a digit: the digits after the sign, up to the
      first other character, already exceed the unsigned 64-bit range. */
  predicate Overflows(s: string)
  {
    var u := Unsigned(s);
    DigitsValue(u[..DigitRun(u)]) > MaxUint64
  }

  /** strconv.Atoi's grammar: an optional sign followed by at least one digit. */
  predicate WellFormed(s: string)
  {
    if |s| >= 1 && (s[0] == '+' || s[0] == '-')
    then |s| >= 2 && AllDigits(s[1..])
    else |s| >= 1 && AllDigits(s)
  }

  /** The mathematical value a well-formed string denotes. */
  function SignedValue(s: string): int
    requires WellFormed(s)
  {
    if s[0] == '-' then -(DigitsValue(s[1..]) as int)
    else if s[0] == '+' then DigitsValue(s[1..])
    else DigitsValue(s)
  }

  function Clamp64(n: int): (r: int)
    ensures MinInt64 <= r <= MaxInt64
    ensures MinInt64 <= n <= MaxInt64 ==> r == n
    ensures n > MaxInt64 ==> r == MaxInt64
    ensures n < MinInt64 ==> r == MinInt64
  {
    if n > MaxInt64 then MaxInt64 else if n < MinInt64 then MinInt64 else n
  }

  /** strconv.Atoi with its error discarded: the value of a well-formed
      string, saturated to the 64-bit range; the saturated value, by sign,
      of a string whose digits overflow before its first bad character;
      0 for any other string. */
  function Atoi(s: string): (r: int)
    ensures MinInt64 <= r <= MaxInt64
    ensures !WellFormed(s) && !Overflows(s) ==> r == 0
    ensures Overflows(s) ==> r == if |s| >= 1 && s[0] == '-' then MinInt64 else MaxInt64
    ensures WellFormed(s) && MinInt64 <= SignedValue(s) <= MaxInt64 ==> r == SignedValue(s)
    ensures WellFormed(s) && SignedValue(s) > MaxInt64 ==> r == MaxInt64
    ensures WellFormed(s) && SignedValue(s) < MinInt64 ==> r == MinInt64
  {
    if Overflows(s) then
      OverflowOutOfRange(s);
      if |s| >= 1 && s[0] == '-' then MinInt64 else MaxInt64
    else if WellFormed(s) then Clamp64(SignedValue(s))
    else 0
  }

  /** A well-formed string that overflows denotes a value outside the
      64-bit range, on the side of its sign. */
  lemma OverflowOutOfRange(s: string)
    ensures WellFormed(s) && Overflows(s) ==>
              if s[0] == '-' then SignedValue(s) < MinInt64 else SignedValue(s) > MaxInt64
  {
    if WellFormed(s) && Overflows(s) {
      var u := Unsigned(s);
      assert u[..DigitRun(u)] == u;
    }
  }

  /** More digits never make the value smaller. */
  lemma {:induction false} DigitsValueGrows(x: string, y: string)
    requires AllDigits(x + y)
    ensures AllDigits(x) && DigitsValue(x + y) >= DigitsValue(x)
    decreases |y|
  {
    assert forall i :: 0 <= i < |x| ==> x[i] == (x + y)[i];
    if y != [] {
      var xy := x + y;
      var init := x + y[..|y| - 1];
      assert xy[..|xy| - 1] == init;
      assert forall i :: 0 <= i < |init| ==> init[i] == xy[i];
      DigitsValueGrows(x, y[..|y| - 1]);
      assert DigitsValue(init) >= DigitsValue(x);
      assert DigitsValue(xy) >= DigitsValue(init) * 10 >= DigitsValue(init);
      assert DigitsValue(xy) >= DigitsValue(x);
    } else {
      assert x + y == x;
    }
  }

  /** The digit run of `d + t` starts with all of `d` when `d` is digits,
      so its value is at least that of `d`. */
  lemma DigitRunCovers(d: string, t: string)
    requires AllDigits(d)
    ensures var u := d + t; DigitRun(u) >= |d| && DigitsValue(u[..DigitRun(u)]) >= DigitsValue(d)
  {
    var u := d + t;
    var k := DigitRun(u);
    DigitRunAtLeast(d, t);
    assert u[..k] == d + u[|d|..k];
    DigitsValueGrows(d, u[|d|..k]);
  }

  lemma {:induction false} DigitRunAtLeast(d: string, t: string)
    requires AllDigits(d)
    ensures DigitRun(d + t) >= |d|
  {
    if d != [] {
      assert (d + t)[0] == d[0];
      assert (d + t)[1..] == d[1..] + t;
      DigitRunAtLeast(d[1..], t);
    }
  }

  /** Once the digits after the sign overflow the unsigned 64-bit range,
      whatever follows them, digits or not, Atoi saturates by the sign. */
  lemma AtoiSaturatesEarly(d: string, t: string)
    requires |d| >= 1 && AllDigits(d) && DigitsValue(d) > MaxUint64
    ensures Atoi(d + t) == MaxInt64
    ensures Atoi("+" + (d + t)) == MaxInt64
    ensures Atoi("-" + (d + t)) == MinInt64
  {
    var u := d + t;
    DigitRunCovers(d, t);
    assert u[0] == d[0];
    SignedOverflows(u, '+');
    SignedOverflows(u, '-');
  }

  /** A sign in front keeps an overflow. */
  lemma SignedOverflows(u: string, c: char)
    requires |u| >= 1 && IsDigit(u[0]) && DigitsValue(u[..DigitRun(u)]) > MaxUint64
    requires c == '+' || c == '-'
    ensures Overflows(u) && Overflows([c] + u)
  {
    UnsignedDrops(u, c);
  }

  /** A sign in front is what Unsigned drops, and text starting with a
      digit has none to drop. */
  lemma UnsignedDrops(u: string, c: char)
    requires |u| >= 1 && IsDigit(u[0])
    requires c == '+' || c == '-'
    ensures Unsigned(u) == u && Unsigned([c] + u) == u
  {
    assert ([c] + u)[1..] == u;
  }

  lemma {:induction false} DigitsValueShowNat(n: nat)
    ensures DigitsValue(ShowNat(n)) == n
  {
    var s := ShowNat(n);
    if n >= 10 {
      DigitsValueShowNat(n / 10);
      assert s[..|s| - 1] == ShowNat(n / 10);
    }
  }

  lemma {:induction false} ShowNatLength(n: nat)
    ensures |ShowNat(n)| == NumDigits(n)
  {
    if n >= 10 {
      ShowNatLength(n / 10);
    }
  }

  /** Atoi reads back exactly what Show printed, for every 64-bit value. */
  lemma AtoiShow(n: int)
    requires MinInt64 <= n <= MaxInt64
    ensures WellFormed(Show(n))
    ensures Atoi(Show(n)) == n
  {
    var s := Show(n);
    if n < 0 {
      assert s[1..] == ShowNat(-n);
      DigitsValueShowNat(-n);
    } else {
      DigitsValueShowNat(n);
    }
  }

  /** The text Show prints never contains a character other than digits and
      a leading minus sign; in particular no separator or final byte of a
      control sequence. */
  lemma ShowChars(n: int, i: nat)
    requires i < |Show(n)|
    ensures IsDigit(Show(n)[i]) || (i == 0 && n < 0 && Show(n)[i] == '-')
  {
  }

  /** Where `c` first occurs in `s`, or the length when it does not. */
  function FirstOf(s: string, c: char): (i: nat)
    ensures i <= |s| && (i < |s| ==> s[i] == c)
    ensures forall j :: 0 <= j < i ==> s[j] != c
  {
    if s == [] then 0 else if s[0] == c then 0 else 1 + FirstOf(s[1..], c)
  }

  /** The text before the first `c` and the text after it (empty when
      there is no `c`). */
  function Cut(s: string, c: char): (string, string)
  {
    var i := FirstOf(s, c);
    (s[..i], if i < |s| then s[i + 1..] else [])
  }

  /** A printed number holds no character but digits and the sign. */
  lemma ShowAvoids(n: int, c: char)
    requires c != '-' && !IsDigit(c)
    ensures c !in Show(n)
  {
    forall i | 0 <= i < |Show(n)|
      ensures Show(n)[i] != c
    {
      ShowChars(n, i);
    }
  }

  /** Cutting text that holds no `c`, then `c`, then more text, at the
      first `c` gives back the text before and the text after. */
  lemma CutAfter(u: string, c: char, t: string)
    requires c !in u
    ensures c in u + [c] + t
    ensures Cut(u + [c] + t, c) == (u, t)
  {
    var w := u + [c] + t;
    var i := FirstOf(w, c);
    assert w[|u|] == c;
    assert forall j :: 0 <= j < |u| ==> w[j] == u[j];
    assert w[..|u|] == u;
    assert w[|u| + 1..] == t;
  }

  /** One number: an optional sign and decimal digits, read as Atoi does. */
  function ReadInt(s: string): Option<int>
  {
    if WellFormed(s) then Some(Atoi(s)) else None
  }

  lemma ReadIntShow(n: int)
    requires MinInt64 <= n <= MaxInt64
    ensures ReadInt(Show(n)) == Some(n)
  {
    AtoiShow(n);
  }

  /** Two numbers around the first `sep`. */
  function ReadPair(p: string, sep: char): Option<(int, int)>
  {
    var (x, y) := Cut(p, sep);
    if sep in p && ReadInt(x).Some? && ReadInt(y).Some? then
      Some((ReadInt(x).value, ReadInt(y).value))
    else None
  }

  /** Two printed int64 values around a separator that is neither a digit
      nor the sign read back as themselves, in order. */
  lemma ReadPairShow(m: int, n: int, sep: char)
    requires MinInt64 <= m <= MaxInt64 && MinInt64 <= n <= MaxInt64
    requires sep != '-' && !IsDigit(sep)
    ensures ReadPair(Show(m) + [sep] + Show(n), sep) == Some((m, n))
  {
    ShowAvoids(m, sep);
    CutAfter(Show(m), sep, Show(n));
    ReadIntShow(m);
    ReadIntShow(n);
  }
}
