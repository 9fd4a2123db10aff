/** The byte-size humaniser `get_size`: divides a byte count by 1024 while
    walking the unit prefixes "", K, M, G, T, P, and stops at the first prefix
    at which the scaled value is below 1024.

    The count is an exact `real`: RaspberryJam's callers pass it integer byte
    counts and floating-point percentages. The `.2f` rendering of the
    magnitude is the parameter `fmt`, left uninterpreted. */
module Sizes {
  import opened Wrappers

  /** The divisor between consecutive prefixes. */
  const Factor: real := 1024.0

  /** The unit prefixes, in the order the loop tries them. */
  const Prefixes: seq<string> := ["", "K", "M", "G", "T", "P"]

  /** Factor raised to the power k, the scale of the k-th prefix. */
  function Pow(k: nat): (p: real)
    ensures p >= 1.0
    ensures k > 0 ==> p >= Factor
  {
    if k == 0 then 1.0 else Factor * Pow(k - 1)
  }

  /** Higher prefixes have larger scales. */
  lemma {:induction false} PowMonotone(j: nat, k: nat)
    requires j <= k
    ensures Pow(j) <= Pow(k)
    decreases k
  {
    if j < k {
      PowMonotone(j, k - 1);
    }
  }

  /** The count after k passes of the loop's `bytes /= factor`. */
  function Shrink(x: real, k: nat): real
  {
    if k == 0 then x else Shrink(x, k - 1) / Factor
  }

  /** Dividing k times by the factor is dividing once by its k-th power. */
  lemma {:induction false} ShrinkIsDivPow(x: real, k: nat)
    ensures Shrink(x, k) == x / Pow(k)
  {
    if k > 0 {
      ShrinkIsDivPow(x, k - 1);
      var p := Pow(k - 1);
      assert Pow(k) == Factor * p;
      assert x / p / Factor == x / (Factor * p);
    }
  }

  /** The k-times divided count is below the factor exactly when the count
      itself is below the (k+1)-th power. */
  lemma ShrinkBelowIff(x: real, k: nat)
    ensures Shrink(x, k) < Factor <==> x < Pow(k + 1)
  {
    ShrinkIsDivPow(x, k);
    DivBelowFactor(x, Pow(k));
  }

  /** For a positive scale p, x / p is below the factor exactly when x is
      below the factor times p. The body only spells out the algebra; the
      solver finds it unaided. */
  lemma DivBelowFactor(x: real, p: real)
    requires p > 0.0
    ensures x / p < Factor <==> x < Factor * p
  {
    var q := x / p;
    assert x == q * p;
    if q < Factor {
      assert (Factor - q) * p > 0.0;
    } else {
      assert (q - Factor) * p >= 0.0;
    }
  }

  /** A magnitude together with the index of its prefix in `Prefixes`. */
  datatype Scaled = Scaled(magnitude: real, unit: nat)

  /** The reference meaning of the unit choice: k is an index into the prefix
      list, the count scaled down k times is below 1024, and no smaller index
      gives a value below 1024. */
  predicate IsUnitFor(bytes: real, k: nat)
  {
    && k < |Prefixes|
    && Shrink(bytes, k) < Factor
    && forall j :: 0 <= j < k ==> Shrink(bytes, j) >= Factor
  }

  /** The loop of `get_size` from the iteration that tries prefix index `i`,
      with `value` the count already divided i times. */
  function ScaleFrom(value: real, i: nat): (r: Option<Scaled>)
    requires i <= |Prefixes|
    ensures r.Some? ==> i <= r.value.unit < |Prefixes| && r.value.magnitude < Factor
    decreases |Prefixes| - i
  {
    if i == |Prefixes| then None
    else if value < Factor then Some(Scaled(value, i))
    else ScaleFrom(value / Factor, i + 1)
  }

  /** The unit selection and scaling of `get_size`, before rendering. */
  function Scale(bytes: real): Option<Scaled>
  {
    ScaleFrom(bytes, 0)
  }

  /** What the loop computes from iteration i, stated against the original
      count: the chosen index is the least one at or after i whose scaled
      value is below the factor, the magnitude is the count scaled that many
      times, and when all six fail no index qualifies. */
  lemma {:induction false} ScaleFromMeaning(bytes: real, i: nat)
    requires i <= |Prefixes|
    requires forall j :: 0 <= j < i ==> Shrink(bytes, j) >= Factor
    ensures ScaleFrom(Shrink(bytes, i), i).Some? ==>
              && IsUnitFor(bytes, ScaleFrom(Shrink(bytes, i), i).value.unit)
              && ScaleFrom(Shrink(bytes, i), i).value.magnitude == Shrink(bytes, ScaleFrom(Shrink(bytes, i), i).value.unit)
    ensures ScaleFrom(Shrink(bytes, i), i).None? ==> forall j :: 0 <= j < |Prefixes| ==> Shrink(bytes, j) >= Factor
    decreases |Prefixes| - i
  {
    if i < |Prefixes| && Shrink(bytes, i) >= Factor {
      ScaleFromMeaning(bytes, i + 1);
    }
  }

  /** `Scale` picks exactly the unit the reference predicate describes; the
      predicate singles out at most one index, so the choice is the only
      correct one. */
  lemma ScaleIsUnitFor(bytes: real, k: nat)
    ensures Scale(bytes).Some? && Scale(bytes).value.unit == k <==> IsUnitFor(bytes, k)
  {
    ScaleFromMeaning(bytes, 0);
  }

  /** Threshold form of the unit choice: prefix k is chosen exactly when
      1024^k <= bytes < 1024^(k+1) (with no lower bound for the empty
      prefix, so negative counts stay unscaled). */
  lemma UnitByThreshold(bytes: real, k: nat)
    ensures Scale(bytes).Some? && Scale(bytes).value.unit == k
            <==> k < |Prefixes| && bytes < Pow(k + 1) && (k == 0 || Pow(k) <= bytes)
  {
    ScaleIsUnitFor(bytes, k);
    ShrinkBelowIff(bytes, k);
    if k > 0 && k < |Prefixes| && Pow(k) <= bytes {
      forall j | 0 <= j < k
        ensures Shrink(bytes, j) >= Factor
      {
        ShrinkBelowIff(bytes, j);
        PowMonotone(j + 1, k);
      }
    }
    if k > 0 && IsUnitFor(bytes, k) {
      ShrinkBelowIff(bytes, k - 1);
    }
  }

  /** Counts of 1024^6 or more run past the last prefix: `get_size` falls off
      its loop and returns nothing. Smaller counts always get a unit. */
  lemma NoneExactlyAtTop(bytes: real)
    ensures Scale(bytes).None? <==> bytes >= Pow(|Prefixes|)
  {
    ScaleFromMeaning(bytes, 0);
    if Scale(bytes).None? {
      ShrinkBelowIff(bytes, |Prefixes| - 1);
    } else {
      var k := Scale(bytes).value.unit;
      ShrinkBelowIff(bytes, k);
      PowMonotone(k + 1, |Prefixes|);
    }
  }

  /** A returned magnitude is below the factor and is the count divided by
      1024 to the power of the chosen prefix's index. */
  lemma MagnitudeBounds(bytes: real)
    ensures Scale(bytes).Some? ==>
              var s := Scale(bytes).value;
              s.unit < |Prefixes| && s.magnitude < Factor && s.magnitude == bytes / Pow(s.unit)
  {
    ScaleFromMeaning(bytes, 0);
    if Scale(bytes).Some? {
      ShrinkIsDivPow(bytes, Scale(bytes).value.unit);
    }
  }

  /** Any count below 1024 is returned unscaled with the empty prefix. */
  lemma SmallUnscaled(bytes: real)
    requires bytes < Factor
    ensures Scale(bytes) == Some(Scaled(bytes, 0))
  {
  }

  /** Renders a scaled value: the formatted magnitude, the prefix, then the
      suffix verbatim. */
  function Render(s: Scaled, fmt: real -> string, suffix: string): string
    requires s.unit < |Prefixes|
  {
    fmt(s.magnitude) + Prefixes[s.unit] + suffix
  }

  /** `get_size(bytes, suffix)`: the rendered size, or `None` when the count
      exhausts the prefixes. */
  function GetSize(bytes: real, fmt: real -> string, suffix: string := "B"): (r: Option<string>)
    ensures r.None? <==> bytes >= Pow(|Prefixes|)
    ensures r.Some? ==>
              exists k: nat :: IsUnitFor(bytes, k) && r.value == fmt(bytes / Pow(k)) + Prefixes[k] + suffix
  {
    NoneExactlyAtTop(bytes);
    match Scale(bytes)
    case None => None
    case Some(s) =>
      MagnitudeBounds(bytes);
      ScaleIsUnitFor(bytes, s.unit);
      Some(Render(s, fmt, suffix))
  }

  /** The suffix is appended verbatim after the prefix, which is the last
      thing before it. */
  lemma SuffixVerbatim(bytes: real, fmt: real -> string, suffix: string)
    ensures GetSize(bytes, fmt, suffix).Some? ==>
              var t := GetSize(bytes, fmt, suffix).value;
              var p := Prefixes[Scale(bytes).value.unit];
              |t| >= |p| + |suffix| && t[|t| - |suffix|..] == suffix && t[|t| - |suffix| - |p|..|t| - |suffix|] == p
  {
    if GetSize(bytes, fmt, suffix).Some? {
      var s := Scale(bytes).value;
      var t := GetSize(bytes, fmt, suffix).value;
      assert t == fmt(s.magnitude) + Prefixes[s.unit] + suffix;
    }
  }

  /** Percentages (0 to 100) passed to `get_size` by the memory and disk
      reports come out unscaled, with the empty prefix and the default "B"
      suffix. */
  lemma PercentUnscaled(percent: real, fmt: real -> string)
    requires 0.0 <= percent <= 100.0
    ensures GetSize(percent, fmt) == Some(fmt(percent) + "B")
  {
    SmallUnscaled(percent);
    assert Render(Scaled(percent, 0), fmt, "B") == fmt(percent) + "B";
  }

  /** The loop of `get_size` as written, counting the comparisons against the
      factor that it performs. */
  method GetSizeLoop(bytes: real, fmt: real -> string, suffix: string := "B")
    returns (r: Option<string>, comparisons: nat)
    ensures r == GetSize(bytes, fmt, suffix)
    ensures comparisons <= |Prefixes|
    ensures r.Some? ==> comparisons == Scale(bytes).value.unit + 1
    ensures r.None? ==> comparisons == |Prefixes|
  {
    var value := bytes;
    var i := 0;
    comparisons := 0;
    while i < |Prefixes|
      invariant i <= |Prefixes|
      invariant comparisons == i
      invariant ScaleFrom(value, i) == Scale(bytes)
    {
      comparisons := comparisons + 1;
      if value < Factor {
        r := Some(fmt(value) + Prefixes[i] + suffix);
        return;
      }
      value := value / Factor;
      i := i + 1;
    }
    r := None;
  }
}
