/** Sizes as text, and how wide that text can get. */
module SizeLabels {
  import opened Utf16

  const KIB := 1024
  const MIB := 1024 * 1024

  function Decimal(n: nat): (t: Text)
    ensures t != [] && IsAscii(t)
  {
    if n < 10 then [48 + n] else Decimal(n / 10) + [48 + n % 10]
  }

  /** `toFixed(1)` of tenths/10. */
  function OneDecimal(tenths: nat): (t: Text)
    ensures IsAscii(t)
  {
    Decimal(tenths / 10) + Ascii(".") + Decimal(tenths % 10)
  }

  /** `(n / unit).toFixed(1)` in tenths: the quotient is exact for a power of two, and a tie rounds up. */
  function Tenths(n: nat, unit: nat): nat
    requires unit > 0
  {
    (20 * n + unit) / (2 * unit)
  }

  function FormatBytes(bytes: nat): (t: Text)
    ensures IsAscii(t)
  {
    if bytes < KIB then Decimal(bytes) + Ascii(" B")
    else if bytes < MIB then OneDecimal(Tenths(bytes, KIB)) + Ascii(" KB")
    else OneDecimal(Tenths(bytes, MIB)) + Ascii(" MB")
  }

  const WIDEST_SUB_MEGABYTE_LABEL: Text := Ascii("1024.0 KB")

  function WidestLabel(bodyBytes: nat): (t: Text)
    ensures IsAscii(t)
  {
    var bodyLabel := FormatBytes(bodyBytes);
    if |bodyLabel| >= |WIDEST_SUB_MEGABYTE_LABEL| then bodyLabel else WIDEST_SUB_MEGABYTE_LABEL
  }

  lemma {:induction false} DecimalWidthIncreases(m: nat, n: nat)
    requires m <= n
    ensures |Decimal(m)| <= |Decimal(n)|
  {
    if n >= 10 && m >= 10 {
      DecimalWidthIncreases(m / 10, n / 10);
    }
  }

  lemma SubMegabyteLabelWidth(n: nat)
    requires n < MIB
    ensures |FormatBytes(n)| <= |WIDEST_SUB_MEGABYTE_LABEL|
  {
    assert |Decimal(9999)| == 4;
    if n < KIB {
      DecimalWidthIncreases(n, 9999);
    } else {
      DecimalWidthIncreases(Tenths(n, KIB) / 10, 9999);
    }
  }

  lemma MegabyteLabelWidth(n: nat)
    requires n >= MIB
    ensures |FormatBytes(n)| == |Decimal(Tenths(n, MIB) / 10)| + 5
  {
  }

  lemma MegabyteLabelsWiden(m: nat, n: nat)
    requires MIB <= m <= n
    ensures |FormatBytes(m)| <= |FormatBytes(n)|
  {
    MegabyteLabelWidth(m);
    MegabyteLabelWidth(n);
    assert Tenths(m, MIB) <= Tenths(n, MIB);
    DecimalWidthIncreases(Tenths(m, MIB) / 10, Tenths(n, MIB) / 10);
  }

  /**
   Label width is not monotone in the size ("1023.5 KB" is wider than "1.0 MB"), yet the label the notice is
   sized with is never narrower than the label of a kept part.
   */
  lemma KeptLabelFits(keptBytes: nat, bodyBytes: nat)
    requires keptBytes <= bodyBytes
    ensures |FormatBytes(keptBytes)| <= |WidestLabel(bodyBytes)|
  {
    if keptBytes < MIB {
      SubMegabyteLabelWidth(keptBytes);
    } else {
      MegabyteLabelsWiden(keptBytes, bodyBytes);
    }
  }

  /** The shown tenths are nearest to the exact size. */
  lemma TenthsAreNearest(n: nat, unit: nat)
    requires unit > 0
    ensures 20 * n - unit <= 2 * unit * Tenths(n, unit) <= 20 * n + unit
  {
  }

  function ReadDecimal(t: Text): int {
    if t == [] then 0 else 10 * ReadDecimal(t[..|t| - 1]) + t[|t| - 1] - 48
  }

  lemma {:induction false} DecimalReadsBack(n: nat)
    ensures ReadDecimal(Decimal(n)) == n
  {
    if n >= 10 {
      DecimalReadsBack(n / 10);
      assert Decimal(n)[..|Decimal(n)| - 1] == Decimal(n / 10);
    }
  }

  lemma {:induction false} DecimalIsDigits(n: nat)
    ensures forall i :: 0 <= i < |Decimal(n)| ==> 48 <= Decimal(n)[i] <= 57
  {
    if n >= 10 {
      DecimalIsDigits(n / 10);
    }
  }

  /**
   A label read back: whole bytes below 1024; else one decimal of KB, or from 1 MiB on of MB, within a twentieth of the
   unit, a tie upwards.
   */
  lemma LabelReadsBack(n: nat) returns (whole: Text, tenth: Text)
    ensures forall i :: 0 <= i < |whole + tenth| ==> 48 <= (whole + tenth)[i] <= 57
    ensures n < 1024 ==> FormatBytes(n) == whole + Ascii(" B") && ReadDecimal(whole) == n
    ensures n >= 1024 ==>
      var unit := if n < 1024 * 1024 then 1024 else 1024 * 1024;
      && |tenth| == 1
      && FormatBytes(n) == whole + Ascii(".") + tenth + (if n < 1024 * 1024 then Ascii(" KB") else Ascii(" MB"))
      && -unit <= 2 * (10 * n - unit * (10 * ReadDecimal(whole) + ReadDecimal(tenth))) < unit
  {
    hide Ascii, Decimal, ReadDecimal;
    if n < 1024 {
      whole, tenth := Decimal(n), [];
      DecimalReadsBack(n);
      DecimalIsDigits(n);
    } else {
      var unit := if n < 1024 * 1024 then 1024 else 1024 * 1024;
      var tenths := Tenths(n, unit);
      whole, tenth := Decimal(tenths / 10), Decimal(tenths % 10);
      DecimalReadsBack(tenths / 10);
      DecimalReadsBack(tenths % 10);
      DecimalIsDigits(tenths / 10);
      DecimalIsDigits(tenths % 10);
      OneDigit(tenths % 10);
      TenthsAreNearest(n, unit);
    }
  }

  lemma OneDigit(n: nat)
    requires n < 10
    ensures |Decimal(n)| == 1
  {
  }
}
