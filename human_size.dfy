/** `human_filesize`: a byte count shown in base-1024 units. The running value is
    divided by 1024 until its magnitude drops below 1024, walking the prefixes
    "", Ki, Mi, Gi, Ti, Pi, Ei, Zi; past Zi the value is shown with Yi.

    Byte counts are integers, so "the value after k divisions is below 1024" is the
    exact integer question |n| < 1024^(k+1); the shown value is the exact rational
    n / 1024^k. */
module HumanSize {
  import opened Format

  /** The prefixes tried in order, one per loop iteration. */
  const Prefixes: seq<string> := ["", "Ki", "Mi", "Gi", "Ti", "Pi", "Ei", "Zi"]

  /** The prefix used once all of Prefixes are exhausted. */
  const Fallback: string := "Yi"

  /** The unit symbol appended when the caller gives none. */
  const DefaultSuffix: string := "B"

  function Pow1024(k: nat): (p: nat)
    ensures p >= 1
  {
    if k == 0 then 1 else 1024 * Pow1024(k - 1)
  }

  /** After `k` divisions, a magnitude of `m` bytes is below 1024. */
  predicate Fits(m: nat, k: nat) {
    m < Pow1024(k + 1)
  }

  /** The first index at or after `k` (up to |Prefixes|) at which `m` fits. */
  function FirstFit(m: nat, k: nat): (r: nat)
    requires k <= |Prefixes|
    requires forall j :: 0 <= j < k ==> !Fits(m, j)
    ensures k <= r <= |Prefixes|
    ensures r < |Prefixes| ==> Fits(m, r)
    ensures forall j :: 0 <= j < r ==> !Fits(m, j)
    decreases |Prefixes| - k
  {
    if k == |Prefixes| || Fits(m, k) then k else FirstFit(m, k + 1)
  }

  /** The prefix index chosen for `n`: the smallest k < 8 at which |n| fits, or 8
      (the fallback) when none does. */
  function PrefixIndex(n: int): (k: nat)
    ensures k <= |Prefixes|
    ensures k < |Prefixes| ==> Fits(Abs(n), k)
    ensures forall j :: 0 <= j < k ==> !Fits(Abs(n), j)
  {
    FirstFit(Abs(n), 0)
  }

  /** The running value after `k` divisions by 1024, exactly: the value shown
      with prefix index `k`. */
  function Scaled(n: int, k: nat): real {
    if k == 0 then n as real else Scaled(n, k - 1) / 1024.0
  }

  /** What follows the number: inside the loop a space, the prefix and the suffix;
      on the fallback "Yi" and the suffix, with no space. */
  function UnitText(k: nat, suffix: string): string
    requires k <= |Prefixes|
  {
    if k < |Prefixes| then " " + Prefixes[k] + suffix else Fallback + suffix
  }

  /** The text `human_filesize(n, suffix)` returns: the shown value with one
      decimal, then the unit text. (The loop formats with `3.1f`, whose width 3
      never pads; see PadNeverApplies.) */
  function SizeText(n: int, suffix: string): string {
    var k := PrefixIndex(n);
    Fixed1(Scaled(n, k)) + UnitText(k, suffix)
  }

  /** If `x * p == m` for a positive `p`, the magnitudes agree in the same way. */
  lemma ScaleAbs(x: real, p: real, m: real)
    requires p > 0.0 && x * p == m
    ensures RealAbs(x) * p == RealAbs(m)
  {
    if x < 0.0 {
      assert (-x) * p == -m;
      assert m < 0.0;
    } else {
      assert m >= 0.0;
    }
  }

  /** If `x * p == m` for a positive `p`, comparing |x| with `c` is comparing |m|
      with `c * p`. */
  lemma ScaleCompare(x: real, p: real, m: real, c: real)
    requires p > 0.0 && x * p == m
    ensures (RealAbs(x) < c) == (RealAbs(m) < c * p)
  {
    ScaleAbs(x, p, m);
    var a := RealAbs(x);
    if a < c {
      assert (c - a) * p > 0.0;
    } else {
      assert (a - c) * p >= 0.0;
    }
  }

  /** After `k` divisions the running value times 1024^k is the input again. */
  lemma {:induction false} ScaledTimesPow(n: int, k: nat)
    ensures Scaled(n, k) * Pow1024(k) as real == n as real
  {
    if k > 0 {
      ScaledTimesPow(n, k - 1);
      var x := Scaled(n, k - 1);
      assert Scaled(n, k) * Pow1024(k) as real == (x / 1024.0) * (1024.0 * Pow1024(k - 1) as real);
    }
  }

  /** The value shown with prefix index `k` is the input divided by 1024^k. */
  lemma ScaledIsQuotient(n: int, k: nat)
    ensures Scaled(n, k) == n as real / Pow1024(k) as real
  {
    ScaledTimesPow(n, k);
  }

  /** The condition the loop tests is the integer question Fits. */
  lemma ScaledFits(n: int, k: nat)
    ensures (RealAbs(Scaled(n, k)) < 1024.0) == Fits(Abs(n), k)
  {
    var p := Pow1024(k) as real;
    ScaledTimesPow(n, k);
    ScaleCompare(Scaled(n, k), p, n as real, 1024.0);
    assert RealAbs(n as real) == Abs(n) as real;
    assert Pow1024(k + 1) as real == 1024.0 * p;
  }

  /** Division by 1024 commutes with negation and keeps a positive value positive. */
  lemma {:induction false} ScaledNegated(n: int, k: nat)
    ensures Scaled(-n, k) == -Scaled(n, k)
    ensures n > 0 ==> Scaled(n, k) > 0.0
  {
    if k > 0 {
      ScaledNegated(n, k - 1);
    }
  }

  /** If every earlier index fails and `i` fits (or is the fallback), `i` is the
      chosen index. */
  lemma PrefixIndexUnique(n: int, i: nat)
    requires i <= |Prefixes|
    requires forall j :: 0 <= j < i ==> !Fits(Abs(n), j)
    requires i < |Prefixes| ==> Fits(Abs(n), i)
    ensures PrefixIndex(n) == i
  {
  }

  /** The loop of `human_filesize`, dividing a real running value in place. */
  method HumanFilesize(n: int, suffix: string) returns (s: string)
    ensures s == SizeText(n, suffix)
  {
    var num: real := n as real;
    for i := 0 to |Prefixes|
      invariant num == Scaled(n, i)
      invariant forall j :: 0 <= j < i ==> !Fits(Abs(n), j)
    {
      ScaledFits(n, i);
      if RealAbs(num) < 1024.0 {
        PrefixIndexUnique(n, i);
        LoopText(n, suffix, i, num);
        return PadLeft(Fixed1(num), 3) + " " + Prefixes[i] + suffix;
      }
      num := num / 1024.0;
    }
    PrefixIndexUnique(n, |Prefixes|);
    FallbackText(n, suffix, num);
    return Fixed1(num) + Fallback + suffix;
  }

  /** The text returned from inside the loop is SizeText. */
  lemma LoopText(n: int, suffix: string, i: nat, num: real)
    requires i < |Prefixes| && i == PrefixIndex(n) && num == Scaled(n, i)
    ensures PadLeft(Fixed1(num), 3) + " " + Prefixes[i] + suffix == SizeText(n, suffix)
  {
    var f := Fixed1(num);
    PadNeverApplies(num);
    ConcatAssoc(f, " ", Prefixes[i]);
    ConcatAssoc(f, " " + Prefixes[i], suffix);
  }

  /** The text returned after the loop is SizeText. */
  lemma FallbackText(n: int, suffix: string, num: real)
    requires PrefixIndex(n) == |Prefixes| && num == Scaled(n, |Prefixes|)
    ensures Fixed1(num) + Fallback + suffix == SizeText(n, suffix)
  {
    ConcatAssoc(Fixed1(num), Fallback, suffix);
  }

  /** The shown value is below 1024 in magnitude inside the loop, at least 1 once a
      prefix other than "" is chosen (the fallback included). */
  lemma ScaledBounds(n: int)
    ensures var k := PrefixIndex(n);
      && (k < |Prefixes| ==> RealAbs(Scaled(n, k)) < 1024.0)
      && (k > 0 ==> RealAbs(Scaled(n, k)) >= 1.0)
  {
    var k := PrefixIndex(n);
    ScaledFits(n, k);
    if k > 0 {
      assert !Fits(Abs(n), k - 1);
      ScaledAtLeastOne(n, k);
    }
  }

  lemma ScaledAtLeastOne(n: int, k: nat)
    requires Abs(n) >= Pow1024(k)
    ensures RealAbs(Scaled(n, k)) >= 1.0
  {
    var p := Pow1024(k) as real;
    var m := n as real;
    ScaledTimesPow(n, k);
    ScaleCompare(Scaled(n, k), p, m, 1.0);
    assert RealAbs(m) == Abs(n) as real;
    assert 1.0 * p == p;
  }

  /** The chosen index is the first prefix at which the remaining magnitude is
      below 1024, stated as an integer inequality. */
  lemma PrefixIndexIsFirstFit(n: int, k: nat)
    ensures PrefixIndex(n) == k <==>
      && k <= |Prefixes|
      && (k < |Prefixes| ==> Abs(n) < Pow1024(k + 1))
      && (k > 0 ==> Abs(n) >= Pow1024(k))
  {
    var c := PrefixIndex(n);
    if k <= |Prefixes| && (k < |Prefixes| ==> Abs(n) < Pow1024(k + 1)) && (k > 0 ==> Abs(n) >= Pow1024(k)) {
      forall j | 0 <= j < k ensures !Fits(Abs(n), j) {
        Pow1024Monotone(j + 1, k);
      }
      PrefixIndexUnique(n, k);
    }
    if c > 0 {
      assert !Fits(Abs(n), c - 1);
    }
  }

  lemma {:induction false} Pow1024Monotone(i: nat, j: nat)
    requires i <= j
    ensures Pow1024(i) <= Pow1024(j)
  {
    if i < j {
      Pow1024Monotone(i, j - 1);
    }
  }

  /** Larger magnitudes never get a smaller prefix. */
  lemma PrefixIndexMonotone(a: nat, b: nat)
    requires a <= b
    ensures PrefixIndex(a) <= PrefixIndex(b)
  {
    var kb := PrefixIndex(b);
    if kb < |Prefixes| {
      assert Fits(a, kb);
    }
  }

  /** The prefix depends on the magnitude only. */
  lemma PrefixIndexSymmetric(n: int)
    ensures PrefixIndex(-n) == PrefixIndex(n)
  {
    assert Abs(-n) == Abs(n);
  }

  /** A negative count is shown as its magnitude with a leading minus sign. */
  lemma TextNegated(n: int, suffix: string)
    requires n > 0
    ensures SizeText(-n, suffix) == "-" + SizeText(n, suffix)
  {
    var k := PrefixIndex(n);
    PrefixIndexSymmetric(n);
    ScaledNegated(n, k);
    NegatedJoin(Scaled(n, k), UnitText(k, suffix));
  }

  lemma NegatedJoin(x: real, unit: string)
    requires x > 0.0
    ensures Fixed1(-x) + unit == "-" + (Fixed1(x) + unit)
  {
    Fixed1Negated(x);
    ConcatAssoc("-", Fixed1(x), unit);
  }

  /** The width 3 of `3.1f` never pads: one-decimal text is at least 3 long. */
  lemma PadNeverApplies(x: real)
    ensures PadLeft(Fixed1(x), 3) == Fixed1(x)
  {
  }

  /** The text ends with the prefix and the suffix; a space separates the number
      from the prefix inside the loop, none does on the fallback. */
  lemma TextEnding(n: int, suffix: string)
    ensures var s := SizeText(n, suffix); var k := PrefixIndex(n);
      && (k < |Prefixes| ==> s == Fixed1(Scaled(n, k)) + " " + Prefixes[k] + suffix)
      && (k == |Prefixes| ==> s == Fixed1(Scaled(n, k)) + Fallback + suffix)
      && s[|s| - |suffix|..] == suffix
  {
    var k := PrefixIndex(n);
    var f := Fixed1(Scaled(n, k));
    if k < |Prefixes| {
      ConcatAssoc(f, " " + Prefixes[k], suffix);
      ConcatAssoc(f, " ", Prefixes[k]);
    } else {
      ConcatAssoc(f, Fallback, suffix);
    }
    var unit := UnitText(k, suffix);
    assert unit[|unit| - |suffix|..] == suffix;
    var s := SizeText(n, suffix);
    assert s[|s| - |suffix|..] == unit[|unit| - |suffix|..];
  }

  /** The number shown inside the loop never exceeds "1024.0": below 1024, it may
      still round up to 1024.0 (see TextJustBelowMebi). */
  lemma ShownTenthsAtMost10240(n: int)
    requires PrefixIndex(n) < |Prefixes|
    ensures RoundHalfEven(10.0 * RealAbs(Scaled(n, PrefixIndex(n)))) <= 10240
  {
    ScaledBounds(n);
  }

  /** The chosen index from the integer bounds. */
  lemma PrefixIndexIs(n: int, k: nat)
    requires k <= |Prefixes|
    requires k < |Prefixes| ==> Abs(n) < Pow1024(k + 1)
    requires k > 0 ==> Abs(n) >= Pow1024(k)
    ensures PrefixIndex(n) == k
  {
    PrefixIndexIsFirstFit(n, k);
  }

  /** SizeText at the chosen index, with its shown value named. */
  lemma SizeTextAt(n: int, suffix: string, k: nat, x: real)
    requires k == PrefixIndex(n) && x == Scaled(n, k)
    ensures SizeText(n, suffix) == Fixed1(x) + UnitText(k, suffix)
  {
  }

  /** The texts of the worked values below, joined apart from SizeText. */
  lemma WorkedTexts()
    ensures TenthsText(0) + UnitText(0, DefaultSuffix) == "0.0 B"
    ensures TenthsText(10230) + UnitText(0, DefaultSuffix) == "1023.0 B"
    ensures TenthsText(10) + UnitText(1, DefaultSuffix) == "1.0 KiB"
    ensures TenthsText(15) + UnitText(1, DefaultSuffix) == "1.5 KiB"
    ensures TenthsText(12) + UnitText(1, DefaultSuffix) == "1.2 KiB"
    ensures TenthsText(10240) + UnitText(1, DefaultSuffix) == "1024.0 KiB"
    ensures TenthsText(10) + UnitText(2, DefaultSuffix) == "1.0 MiB"
    ensures TenthsText(10) + UnitText(8, DefaultSuffix) == "1.0YiB"
  {
    WorkedNumbers();
    WorkedUnits();
  }

  lemma WorkedNumbers()
    ensures TenthsText(0) == "0.0" && TenthsText(10) == "1.0"
    ensures TenthsText(12) == "1.2" && TenthsText(15) == "1.5"
    ensures TenthsText(10230) == "1023.0" && TenthsText(10240) == "1024.0"
  {
    WorkedNumbersSmall();
    WorkedNumbersLarge();
  }

  lemma WorkedNumbersSmall()
    ensures TenthsText(0) == "0.0" && TenthsText(10) == "1.0"
    ensures TenthsText(12) == "1.2" && TenthsText(15) == "1.5"
  {
  }

  lemma WorkedNumbersLarge()
    ensures TenthsText(10230) == "1023.0" && TenthsText(10240) == "1024.0"
  {
    assert NatToString(1023) == "1023";
    assert NatToString(1024) == "1024";
  }

  lemma WorkedUnits()
    ensures UnitText(0, DefaultSuffix) == " B" && UnitText(1, DefaultSuffix) == " KiB"
    ensures UnitText(2, DefaultSuffix) == " MiB" && UnitText(8, DefaultSuffix) == "YiB"
  {
    assert UnitText(0, DefaultSuffix) == " B";
    assert UnitText(1, DefaultSuffix) == " KiB";
    assert UnitText(2, DefaultSuffix) == " MiB";
    assert UnitText(8, DefaultSuffix) == "YiB";
  }

  /** Worked values of `human_filesize` with the default suffix. */
  lemma TextZero()
    ensures SizeText(0, DefaultSuffix) == "0.0 B"
  {
    PrefixIndexIs(0, 0);
    SizeTextAt(0, DefaultSuffix, 0, 0.0);
    Fixed1Exact(0.0, 0);
    WorkedTexts();
  }

  lemma TextLargestPlainBytes()
    ensures SizeText(1023, DefaultSuffix) == "1023.0 B"
  {
    PrefixIndexIs(1023, 0);
    SizeTextAt(1023, DefaultSuffix, 0, 1023.0);
    Fixed1Exact(1023.0, 10230);
    WorkedTexts();
  }

  lemma TextOneKibi()
    ensures SizeText(1024, DefaultSuffix) == "1.0 KiB"
  {
    PrefixIndexIs(1024, 1);
    SizeTextAt(1024, DefaultSuffix, 1, 1.0);
    Fixed1Exact(1.0, 10);
    WorkedTexts();
  }

  lemma TextKibiAndHalf()
    ensures SizeText(1536, DefaultSuffix) == "1.5 KiB"
  {
    PrefixIndexIs(1536, 1);
    SizeTextAt(1536, DefaultSuffix, 1, 1.5);
    Fixed1Exact(1.5, 15);
    WorkedTexts();
  }

  lemma TextOneMebi()
    ensures SizeText(1048576, DefaultSuffix) == "1.0 MiB"
  {
    PrefixIndexIs(1048576, 2);
    SizeTextAt(1048576, DefaultSuffix, 2, 1.0);
    Fixed1Exact(1.0, 10);
    WorkedTexts();
  }

  /** One byte short of a mebibyte stays in KiB, yet its value 1023.999... rounds
      to the text "1024.0". */
  lemma TextJustBelowMebi()
    ensures SizeText(1048575, DefaultSuffix) == "1024.0 KiB"
  {
    PrefixIndexIs(1048575, 1);
    SizeTextAt(1048575, DefaultSuffix, 1, 1023.9990234375);
    assert RoundHalfEven(10239.990234375) == 10240;
    Fixed1Rounded(1023.9990234375, 10240);
    WorkedTexts();
  }

  /** A value exactly half-way between two tenths rounds to the even tenth:
      1280 bytes is 1.25 KiB and is shown as "1.2 KiB". */
  lemma TextTieRoundsToEven()
    ensures SizeText(1280, DefaultSuffix) == "1.2 KiB"
  {
    PrefixIndexIs(1280, 1);
    SizeTextAt(1280, DefaultSuffix, 1, 1.25);
    assert RoundHalfEven(12.5) == 12;
    Fixed1Rounded(1.25, 12);
    WorkedTexts();
  }

  /** 1024^8 bytes exhausts the eight prefixes and takes the Yi fallback, with no
      space before the prefix. */
  lemma TextFallback()
    ensures SizeText(Pow1024(8), DefaultSuffix) == "1.0YiB"
  {
    PrefixIndexIs(Pow1024(8), 8);
    ScaledIsQuotient(Pow1024(8), 8);
    SizeTextAt(Pow1024(8), DefaultSuffix, 8, 1.0);
    Fixed1Exact(1.0, 10);
    WorkedTexts();
  }
}
