/** Text building blocks used by the report: decimal digit strings of integers,
    right-justification to a minimum width (Python's `{:5d}` / `{:3.1f}` width),
    fixed-point text with one decimal (Python's `.1f`), and a whitespace tokenizer
    used to read formatted text back. */
module Format {

  predicate IsDigit(c: char) {
    '0' <= c <= '9'
  }

  /** No character of `s` is a space. */
  predicate NoSpace(s: string) {
    forall i :: 0 <= i < |s| ==> s[i] != ' '
  }

  function DigitChar(d: nat): (c: char)
    requires d < 10
    ensures IsDigit(c) && c as int - '0' as int == d
  {
    ('0' as int + d) as char
  }

  function DigitValue(c: char): int {
    c as int - '0' as int
  }

  function Abs(i: int): nat {
    if i < 0 then -i else i
  }

  /** Decimal text of a natural number, most significant digit first. */
  function NatToString(n: nat): (s: string)
    ensures |s| >= 1
    ensures forall i :: 0 <= i < |s| ==> IsDigit(s[i])
    ensures |s| > 1 ==> s[0] != '0'
    decreases n
  {
    if n < 10 then [DigitChar(n)] else NatToString(n / 10) + [DigitChar(n % 10)]
  }

  /** Reads a string of digits back as a number (the inverse of NatToString). */
  function ParseNat(s: string): int {
    if s == [] then 0 else 10 * ParseNat(s[..|s| - 1]) + DigitValue(s[|s| - 1])
  }

  lemma {:induction false} ParseNatToString(n: nat)
    ensures ParseNat(NatToString(n)) == n
  {
    if n >= 10 {
      ParseNatToString(n / 10);
      var s := NatToString(n);
      assert s[..|s| - 1] == NatToString(n / 10);
    }
  }

  /** Decimal text of an integer, with a leading '-' for negative values. */
  function IntToString(i: int): (s: string)
    ensures |s| >= 1 && NoSpace(s)
    ensures (s[0] == '-') == (i < 0)
  {
    if i < 0 then "-" + NatToString(-i) else NatToString(i)
  }

  function ParseInt(s: string): int {
    if s != [] && s[0] == '-' then -ParseNat(s[1..]) else ParseNat(s)
  }

  lemma IntToStringRoundTrip(i: int)
    ensures ParseInt(IntToString(i)) == i
  {
    if i < 0 {
      assert IntToString(i)[1..] == NatToString(-i);
      ParseNatToString(-i);
    } else {
      ParseNatToString(i);
    }
  }

  function Spaces(k: nat): (s: string)
    ensures |s| == k
    ensures forall i :: 0 <= i < k ==> s[i] == ' '
  {
    seq(k, _ => ' ')
  }

  /** Right-justifies `s` in a field of at least `width` characters, padding with
      spaces on the left and never truncating. */
  function PadLeft(s: string, width: nat): (r: string)
    ensures |r| == if |s| < width then width else |s|
    ensures r[|r| - |s|..] == s
    ensures forall i :: 0 <= i < |r| - |s| ==> r[i] == ' '
  {
    if |s| < width then Spaces(width - |s|) + s else s
  }

  /** The padded text is the padding spaces followed by the text itself. */
  lemma PadLeftSplit(s: string, width: nat)
    ensures PadLeft(s, width) == Spaces(|PadLeft(s, width)| - |s|) + s
  {
    if |s| >= width {
      assert Spaces(0) + s == s;
    }
  }

  /** Round-half-to-even of a non-negative real: the nearest integer, and the even
      one of the two when `a` lies exactly half-way. */
  function RoundHalfEven(a: real): (r: nat)
    requires a >= 0.0
    ensures -0.5 <= r as real - a <= 0.5
    ensures (r as real - a == 0.5 || a - r as real == 0.5) ==> r % 2 == 0
  {
    var f := a.Floor;
    var d := a - f as real;
    if d < 0.5 then f else if d > 0.5 then f + 1 else if f % 2 == 0 then f else f + 1
  }

  function RealAbs(x: real): real {
    if x < 0.0 then -x else x
  }

  /** "-" for a negative value, nothing otherwise. */
  function Sign(x: real): string {
    if x < 0.0 then "-" else ""
  }

  /** A count of tenths written as a decimal with one digit after the point. */
  function TenthsText(t: nat): (s: string)
    ensures |s| >= 3
    ensures s[|s| - 2] == '.' && IsDigit(s[|s| - 1]) && IsDigit(s[0])
  {
    NatToString(t / 10) + "." + [DigitChar(t % 10)]
  }

  /** Fixed-point text of `x` with exactly one decimal digit, as Python's `.1f`
      formats a binary-exact value: the sign, then |x| rounded to tenths. */
  function Fixed1(x: real): (s: string)
    ensures |s| >= 3
    ensures s[|s| - 2] == '.' && IsDigit(s[|s| - 1])
    ensures (s[0] == '-') == (x < 0.0)
  {
    Sign(x) + TenthsText(RoundHalfEven(10.0 * RealAbs(x)))
  }

  /** A non-negative value is shown as its tenths, rounded half to even. */
  lemma Fixed1Rounded(x: real, t: nat)
    requires x >= 0.0 && RoundHalfEven(10.0 * x) == t
    ensures Fixed1(x) == TenthsText(t)
  {
    assert RealAbs(x) == x && Sign(x) == "";
    EmptyPrefix(TenthsText(t));
  }

  /** A non-negative value that is a whole number of tenths is shown exactly. */
  lemma Fixed1Exact(x: real, t: nat)
    requires x == t as real / 10.0
    ensures Fixed1(x) == TenthsText(t)
  {
    var a := 10.0 * x;
    assert a == t as real;
    assert a.Floor == t;
    Fixed1Rounded(x, t);
  }

  /** A negative value is shown as its magnitude after a minus sign. */
  lemma Fixed1Negated(x: real)
    requires x > 0.0
    ensures Fixed1(-x) == "-" + Fixed1(x)
  {
    var body := TenthsText(RoundHalfEven(10.0 * x));
    assert RealAbs(-x) == x == RealAbs(x);
    EmptyPrefix(body);
  }

  lemma EmptyPrefix(s: string)
    ensures "" + s == s
  {
  }

  /** Reads one-decimal fixed-point text back as a real. */
  function ParseFixed1(s: string): real {
    var neg := |s| > 0 && s[0] == '-';
    var body := if neg then s[1..] else s;
    if |body| < 2 then 0.0
    else
      var v := (10 * ParseNat(body[..|body| - 2]) + DigitValue(body[|body| - 1])) as real / 10.0;
      if neg then -v else v
  }

  /** The one-decimal text denotes a value within 0.05 of `x`. */
  /** A one-decimal text, with or without its minus sign, reads back as its tenths. */
  lemma ParseTenthsText(t: nat)
    ensures ParseFixed1(TenthsText(t)) == t as real / 10.0
    ensures ParseFixed1("-" + TenthsText(t)) == -(t as real / 10.0)
  {
    var body := TenthsText(t);
    assert body[..|body| - 2] == NatToString(t / 10);
    ParseNatToString(t / 10);
    assert 10 * ParseNat(body[..|body| - 2]) + DigitValue(body[|body| - 1]) == t;
    assert ("-" + body)[1..] == body;
  }

  lemma Fixed1Accurate(x: real)
    ensures -0.05 <= ParseFixed1(Fixed1(x)) - x <= 0.05
  {
    var t := RoundHalfEven(10.0 * RealAbs(x));
    ParseTenthsText(t);
    if x >= 0.0 {
      assert Fixed1(x) == "" + TenthsText(t) == TenthsText(t);
    }
  }

  lemma ConcatAssoc(a: string, b: string, c: string)
    ensures (a + b) + c == a + (b + c)
  {
  }

  /** Takes the longest prefix of `s` that holds no space. */
  function TakeWord(s: string): (w: string)
    ensures |w| <= |s| && w == s[..|w|] && NoSpace(w)
    ensures |w| < |s| ==> s[|w|] == ' '
    ensures s != [] && s[0] != ' ' ==> |w| >= 1
  {
    if s == [] || s[0] == ' ' then [] else [s[0]] + TakeWord(s[1..])
  }

  /** The maximal runs of non-space characters of `s`, in order. */
  function Tokens(s: string): (ts: seq<string>)
    decreases |s|
  {
    if s == [] then []
    else if s[0] == ' ' then Tokens(s[1..])
    else
      var w := TakeWord(s);
      [w] + Tokens(s[|w|..])
  }

  lemma {:induction false} TokensAfterSpaces(k: nat, t: string)
    ensures Tokens(Spaces(k) + t) == Tokens(t)
  {
    if k > 0 {
      var s := Spaces(k) + t;
      assert s[0] == ' ' && s[1..] == Spaces(k - 1) + t;
      TokensAfterSpaces(k - 1, t);
    } else {
      assert Spaces(k) + t == t;
    }
  }

  lemma {:induction false} TakeWordBeforeSpace(w: string, rest: string)
    requires NoSpace(w)
    requires rest == [] || rest[0] == ' '
    ensures TakeWord(w + rest) == w
  {
    if w != [] {
      assert (w + rest)[1..] == w[1..] + rest;
      TakeWordBeforeSpace(w[1..], rest);
    }
  }

  /** A non-empty space-free word followed by a space (or nothing) is one token. */
  lemma TokensOfWord(w: string, rest: string)
    requires w != [] && NoSpace(w)
    requires rest == [] || rest[0] == ' '
    ensures Tokens(w + rest) == [w] + Tokens(rest)
  {
    TakeWordBeforeSpace(w, rest);
    assert (w + rest)[|w|..] == rest;
  }
}
