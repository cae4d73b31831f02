/** The image-shape value of the report: `nx`, `ny` and `nz` each written as a
    decimal integer right-justified in a field of at least 5 characters (Python's
    `{:5d}`), the three fields separated by single spaces. */
module ImageShape {
  import opened Format

  /** The minimum field width of `{:5d}`. */
  const FieldWidth: nat := 5

  /** One `{:5d}` field. */
  function Field(i: int): (f: string)
    ensures |f| == if |IntToString(i)| < FieldWidth then FieldWidth else |IntToString(i)|
    ensures f[|f| - |IntToString(i)|..] == IntToString(i)
    ensures forall j :: 0 <= j < |f| - |IntToString(i)| ==> f[j] == ' '
  {
    PadLeft(IntToString(i), FieldWidth)
  }

  /** The text `f'{nx:5d} {ny:5d} {nz:5d}'`. */
  function ShapeText(nx: int, ny: int, nz: int): string {
    Field(nx) + (" " + (Field(ny) + (" " + Field(nz))))
  }

  datatype Option<T> = None | Some(value: T)

  /** Reads a shape text back: exactly three whitespace-separated integers. */
  function ParseShape(s: string): (r: Option<(int, int, int)>)
    ensures r.Some? <==> |Tokens(s)| == 3
  {
    var ts := Tokens(s);
    if |ts| == 3 then Some((ParseInt(ts[0]), ParseInt(ts[1]), ParseInt(ts[2]))) else None
  }

  /** A field followed by a space or by nothing is one token: its integer text. */
  lemma TokensOfField(i: int, rest: string)
    requires rest == [] || rest[0] == ' '
    ensures Tokens(Field(i) + rest) == [IntToString(i)] + Tokens(rest)
  {
    var d := IntToString(i);
    var pad := |Field(i)| - |d|;
    PadLeftSplit(d, FieldWidth);
    ConcatAssoc(Spaces(pad), d, rest);
    TokensAfterSpaces(pad, d + rest);
    TokensOfWord(d, rest);
  }

  lemma TokensAfterSpace(t: string)
    ensures Tokens(" " + t) == Tokens(t)
  {
    assert (" " + t)[1..] == t;
  }

  /** The shape text splits into exactly the three integer texts, in order. */
  lemma ShapeTokens(nx: int, ny: int, nz: int)
    ensures Tokens(ShapeText(nx, ny, nz)) == [IntToString(nx), IntToString(ny), IntToString(nz)]
  {
    var tail := " " + Field(nz);
    TokensOfField(nz, []);
    assert Field(nz) + [] == Field(nz);
    TokensAfterSpace(Field(nz));
    var mid := " " + (Field(ny) + tail);
    TokensOfField(ny, tail);
    TokensAfterSpace(Field(ny) + tail);
    TokensOfField(nx, mid);
  }

  /** The shape text shows exactly the header's three extents: reading it back
      gives nx, ny and nz. */
  lemma ShapeRoundTrip(nx: int, ny: int, nz: int)
    ensures ParseShape(ShapeText(nx, ny, nz)) == Some((nx, ny, nz))
  {
    ShapeTokens(nx, ny, nz);
    IntToStringRoundTrip(nx);
    IntToStringRoundTrip(ny);
    IntToStringRoundTrip(nz);
  }

  /** Three texts joined by single spaces: where each part sits. */
  lemma {:induction false} JoinedBySpaces(a: string, b: string, c: string)
    ensures var s := a + (" " + (b + (" " + c)));
      && |s| == |a| + |b| + |c| + 2
      && s[|a|] == ' ' && s[|a| + 1 + |b|] == ' '
      && s[..|a|] == a && s[|a| + 1..|a| + 1 + |b|] == b && s[|a| + 2 + |b|..] == c
  {
  }

  /** Each field is as wide as its integer text or 5, whichever is larger, and the
      fields are joined by single spaces: extents of at most five characters line up
      in columns ending at positions 5, 11 and 17. */
  lemma ShapeLayout(nx: int, ny: int, nz: int)
    ensures var s := ShapeText(nx, ny, nz);
      var a, b := |Field(nx)|, |Field(ny)|;
      && |s| == |Field(nx)| + |Field(ny)| + |Field(nz)| + 2
      && s[a] == ' ' && s[a + 1 + b] == ' '
      && s[..a] == Field(nx) && s[a + 1..a + 1 + b] == Field(ny) && s[a + 2 + b..] == Field(nz)
    ensures |IntToString(nx)| <= FieldWidth && |IntToString(ny)| <= FieldWidth && |IntToString(nz)| <= FieldWidth
      ==> |ShapeText(nx, ny, nz)| == 17
  {
    JoinedBySpaces(Field(nx), Field(ny), Field(nz));
  }

  /** Fields of the worked values below. */
  lemma FieldExamples()
    ensures Field(10) == "   10" && Field(64) == "   64"
    ensures Field(128) == "  128" && Field(256) == "  256"
    ensures Field(123456) == "123456" && Field(-1) == "   -1" && Field(0) == "    0"
  {
    FieldExamplesTwoDigits();
    FieldExamplesThreeDigits();
    FieldExamplesOneChar();
    FieldExampleWide();
  }

  lemma FieldExamplesTwoDigits()
    ensures Field(10) == "   10" && Field(64) == "   64"
  {
    assert NatToString(10) == "10";
    assert NatToString(64) == "64";
  }

  lemma FieldExamplesThreeDigits()
    ensures Field(128) == "  128" && Field(256) == "  256"
  {
    assert NatToString(128) == "128";
    assert NatToString(256) == "256";
  }

  lemma FieldExamplesOneChar()
    ensures Field(-1) == "   -1" && Field(0) == "    0"
  {
    assert IntToString(-1) == "-1";
  }

  lemma FieldExampleWide()
    ensures Field(123456) == "123456"
  {
    assert NatToString(123) == "123";
    assert NatToString(12345) == "12345";
    assert NatToString(123456) == "123456";
  }

  /** The worked fields joined by single spaces. */
  lemma JoinedExamples()
    ensures "   10" + (" " + ("   10" + (" " + "   10"))) == "   10    10    10"
    ensures "  128" + (" " + ("  256" + (" " + "   64"))) == "  128   256    64"
    ensures "123456" + (" " + ("   -1" + (" " + "    0"))) == "123456    -1     0"
  {
  }

  /** Worked values: 5-wide fields and single spaces; wider numbers are not
      truncated. */
  lemma ShapeExamples()
    ensures ShapeText(10, 10, 10) == "   10    10    10"
    ensures ShapeText(128, 256, 64) == "  128   256    64"
    ensures ShapeText(123456, -1, 0) == "123456    -1     0"
  {
    FieldExamples();
    JoinedExamples();
  }
}
