/**
 * Value formatting of the dashboard (script.js `formatValue`) and the
 * positive/negative/neutral classification used for KPI and table deltas.
 * The digits that `toFixed(2)` prints are not modelled: a formatted value is
 * the scaled quantity together with the magnitude suffix written after it.
 */
module Format {
  import opened Wrappers

  const GDP_METRIC := "NY.GDP.MKTP.CD"
  const POPULATION_METRIC := "SP.POP.TOTL"

  /** The two large-magnitude metrics get K/M/B/T suffixes; every other metric is plain. */
  predicate IsScaled(metric: string) {
    metric == GDP_METRIC || metric == POPULATION_METRIC
  }

  datatype Suffix = Trillion | Billion | Million | Thousand | Plain

  /** The power of ten a suffix stands for. */
  function Factor(s: Suffix): (f: real)
    ensures f >= 1.0
  {
    match s
    case Trillion => 1000000000000.0
    case Billion => 1000000000.0
    case Million => 1000000.0
    case Thousand => 1000.0
    case Plain => 1.0
  }

  /**
   * The text appended after the two-decimal number: nothing for a plain
   * value, otherwise a space and one letter, different for every suffix.
   */
  function SuffixText(s: Suffix): (t: string)
    ensures t == "" <==> s == Plain
    ensures s != Plain ==> |t| == 2 && t[0] == ' ' && 'A' <= t[1] <= 'Z'
  {
    match s
    case Trillion => " T"
    case Billion => " B"
    case Million => " M"
    case Thousand => " K"
    case Plain => ""
  }

  function Abs(x: real): real {
    if x < 0.0 then -x else x
  }

  /** "N/A", or the value divided by its suffix's factor followed by that suffix. */
  datatype Formatted = NotAvailable | Fixed(scaled: real, suffix: Suffix)

  /**
   * The suffix is the largest one whose threshold the magnitude reaches:
   * at or above its factor, and below the next one up (1000 times larger).
   * Scaling loses nothing: scaled times factor is the value again.
   */
  function FormatValue(metric: string, value: Option<real>): (r: Formatted)
    ensures r.NotAvailable? <==> value.None?
    ensures r.Fixed? ==> r.scaled * Factor(r.suffix) == value.value
    ensures r.Fixed? && !IsScaled(metric) ==> r.suffix == Plain
    ensures r.Fixed? && r.suffix != Plain ==> Factor(r.suffix) <= Abs(value.value)
    ensures r.Fixed? && IsScaled(metric) && r.suffix != Trillion ==>
              Abs(value.value) < 1000.0 * Factor(r.suffix)
  {
    match value
    case None => NotAvailable
    case Some(v) =>
      if IsScaled(metric) then
        var a := Abs(v);
        if a >= 1000000000000.0 then Fixed(v / 1000000000000.0, Trillion)
        else if a >= 1000000000.0 then Fixed(v / 1000000000.0, Billion)
        else if a >= 1000000.0 then Fixed(v / 1000000.0, Million)
        else if a >= 1000.0 then Fixed(v / 1000.0, Thousand)
        else Fixed(v, Plain)
      else Fixed(v, Plain)
  }

  /**
   * The converse of FormatValue's suffix bounds: any suffix whose band holds
   * the magnitude is the one chosen, so the bands never overlap.
   */
  lemma SuffixIsDeterminedByMagnitude(metric: string, v: real, s: Suffix)
    requires IsScaled(metric)
    requires s != Plain ==> Factor(s) <= Abs(v)
    requires s != Trillion ==> Abs(v) < 1000.0 * Factor(s)
    ensures FormatValue(metric, Some(v)).suffix == s
  {
  }

  /** Scaling keeps the sign of the value. */
  lemma ScalingKeepsSign(metric: string, v: real)
    ensures FormatValue(metric, Some(v)).scaled > 0.0 <==> v > 0.0
    ensures FormatValue(metric, Some(v)).scaled < 0.0 <==> v < 0.0
  {
  }

  /** The worked cases of the formatter: 2.5e9 is "2.50 B", 999 is "999.00". */
  lemma FormatExamples()
    ensures FormatValue(GDP_METRIC, Some(2500000000.0)) == Fixed(2.5, Billion)
    ensures FormatValue(POPULATION_METRIC, Some(999.0)) == Fixed(999.0, Plain)
    ensures FormatValue("SP.DYN.LE00.IN", Some(72000.0)) == Fixed(72000.0, Plain)
    ensures FormatValue(GDP_METRIC, None) == NotAvailable
  {
  }

  /** Distinct suffixes print distinct texts, so the printed text determines the suffix. */
  lemma SuffixTextIsInjective(a: Suffix, b: Suffix)
    requires SuffixText(a) == SuffixText(b)
    ensures a == b
  {
  }

  /** How a delta is shown: an up or down marker, a plain zero, or a dash when unavailable. */
  datatype Direction = Unavailable | Up | Down | Flat

  function Classify(d: Option<real>): (r: Direction)
    ensures r == Unavailable <==> d.None?
    ensures r == Up <==> d.Some? && d.value > 0.0
    ensures r == Down <==> d.Some? && d.value < 0.0
    ensures r == Flat <==> d == Some(0.0)
  {
    match d
    case None => Unavailable
    case Some(x) => if x > 0.0 then Up else if x < 0.0 then Down else Flat
  }
}
