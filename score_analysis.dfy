/**
 * The class-score analysis script: its reader of comma-and-space
 * separated score lines, the in-place appending of a weighted total to
 * every row, and the statistics of one column (mean, population
 * variance, median, least and greatest value). Scores are exact reals.
 */
module ScoreAnalysis {
  import opened Common
  import opened Text
  import opened ListBuiltins
  import opened LineReading

  // ---------------------------------------------------------------- reading

  /** A line the reader passes over: once stripped, it starts with '#'. */
  predicate IsComment(line: string) {
    StartsWith(Strip(line), "#")
  }

  predicate IsDataLine(line: string) {
    !IsComment(line)
  }

  /** One data line: stripped, split on ", ", every field read with `float()`. */
  function ParseRow(line: string): Option<seq<real>>
  {
    ParseEach(Split(Strip(line), ", "), ParseFloat)
  }

  /**
   * `read_data`: every line that is not a comment becomes one row, in
   * file order; a field that is not a number raises, and no rows are
   * returned at all.
   */
  method ReadData(lines: seq<string>) returns (data: Option<seq<seq<real>>>)
    ensures data.Some? <==> forall k :: 0 <= k < |Filter(lines, IsDataLine)| ==> ParseRow(Filter(lines, IsDataLine)[k]).Some?
    ensures data.Some? ==>
      && |data.value| == |Filter(lines, IsDataLine)|
      && forall k :: 0 <= k < |data.value| ==> ParseRow(Filter(lines, IsDataLine)[k]) == Some(data.value[k])
  {
    data := ReadRows(lines, IsDataLine, ParseRow);
  }

  /** A line of whitespace only is not a comment, and its one empty field is not a number. */
  lemma BlankLineFails(line: string)
    requires forall k :: 0 <= k < |line| ==> IsSpace(line[k])
    ensures !IsComment(line) && ParseRow(line).None?
  {
    StripBlank(line);
    assert Split("", ", ") == [""];
    assert ParseFloat("") == None by {
      assert Strip("") == "";
      assert Split("", ".") == [""];
    }
  }

  /** The decimal texts of a list of integers. */
  function Printed(scores: seq<int>): (texts: seq<string>)
    ensures |texts| == |scores|
    ensures forall k :: 0 <= k < |scores| ==> texts[k] == IntToString(scores[k])
  {
    seq(|scores|, k requires 0 <= k < |scores| => IntToString(scores[k]))
  }

  function AsReals(scores: seq<int>): (xs: seq<real>)
    ensures |xs| == |scores|
    ensures forall k :: 0 <= k < |scores| ==> xs[k] == scores[k] as real
  {
    seq(|scores|, k requires 0 <= k < |scores| => scores[k] as real)
  }

  /** A row of integer scores written as "a, b, ..." is a data line and reads back as those scores. */
  lemma RowRoundTrip(scores: seq<int>)
    requires |scores| > 0
    ensures !IsComment(Join(Printed(scores), ", "))
    ensures ParseRow(Join(Printed(scores), ", ")) == Some(AsReals(scores))
  {
    var texts := Printed(scores);
    PrintedLineTrimmed(scores);
    SplitJoin(texts, ", ");
    ParsePrinted(scores);
  }

  /** The written row has no surrounding whitespace and does not start with '#'. */
  lemma PrintedLineTrimmed(scores: seq<int>)
    requires |scores| > 0
    ensures Strip(Join(Printed(scores), ", ")) == Join(Printed(scores), ", ")
    ensures !IsComment(Join(Printed(scores), ", "))
    ensures forall i, k :: 0 <= i < |scores| && 0 <= k < |Printed(scores)[i]| ==> Printed(scores)[i][k] != ','
  {
    var texts := Printed(scores);
    var line := Join(texts, ", ");
    JoinEnds(texts, ", ");
    StripTrimmed(line);
    assert line[..1][0] == texts[0][0];
  }

  /** The printed integers read back with `float()` as the same numbers. */
  lemma ParsePrinted(scores: seq<int>)
    ensures ParseEach(Printed(scores), ParseFloat) == Some(AsReals(scores))
  {
    var texts := Printed(scores);
    forall k | 0 <= k < |scores|
      ensures ParseFloat(texts[k]) == Some(scores[k] as real)
    {
      ParseFloatOfInt(scores[k]);
    }
    var r := ParseEach(texts, ParseFloat);
    assert r.Some?;
    assert r.value == AsReals(scores);
  }

  // ------------------------------------------------------ weighted total

  /** The weighted total of a row: `weight[0]*row[0] + weight[1]*row[1]`. */
  function Weighted(row: seq<real>, weight: seq<real>): real
    requires |row| >= 2 && |weight| >= 2
  {
    weight[0] * row[0] + weight[1] * row[1]
  }

  /** A row the loop can extend: it has a midterm and a final, and there are two weights. */
  predicate Fits(row: seq<real>, weight: seq<real>) {
    |row| >= 2 && |weight| >= 2
  }

  /** How many rows the loop extends before an index error stops it: all of them, or up to the first that does not fit. */
  function Processed(rows: seq<seq<real>>, weight: seq<real>): (n: nat)
    ensures n <= |rows|
    ensures forall k :: 0 <= k < n ==> Fits(rows[k], weight)
    ensures n < |rows| ==> !Fits(rows[n], weight)
  {
    if |rows| == 0 || !Fits(rows[0], weight) then 0
    else
      var n := 1 + Processed(rows[1..], weight);
      assert forall k :: 1 <= k < |rows| ==> rows[k] == rows[1..][k - 1];
      n
  }

  /**
   * `add_weighted_average`: every row in turn gets its weighted total
   * appended. A row without two scores, or a weight list without two
   * weights, raises an index error; the rows before it keep their total.
   */
  method AddWeightedAverage(data: array<seq<real>>, weight: seq<real>) returns (ok: bool)
    modifies data
    ensures ok <==> Processed(old(data[..]), weight) == data.Length
    ensures forall k :: 0 <= k < Processed(old(data[..]), weight) ==>
      data[k] == old(data[k]) + [Weighted(old(data[k]), weight)]
    ensures forall k :: Processed(old(data[..]), weight) <= k < data.Length ==> data[k] == old(data[k])
  {
    ghost var rows := data[..];
    var i := 0;
    while i < data.Length
      invariant 0 <= i <= data.Length && i <= Processed(rows, weight)
      invariant forall k :: 0 <= k < i ==> data[k] == rows[k] + [Weighted(rows[k], weight)]
      invariant forall k :: i <= k < data.Length ==> data[k] == rows[k]
    {
      var row := data[i];
      if |row| < 2 || |weight| < 2 {
        return false;
      }
      assert Fits(rows[i], weight) && i < Processed(rows, weight);
      var total := weight[0] * row[0] + weight[1] * row[1];
      assert total == Weighted(row, weight);
      data[i] := row + [total];
      i := i + 1;
    }
    return true;
  }

  // ---------------------------------------------------------- statistics

  datatype Stats = Stats(mean: real, variance: real, median: real, low: real, high: real)

  /** The errors `analyze_data` can raise. */
  datatype StatsError = ZeroDivision | IndexOutOfRange

  function Mean(data: seq<real>): real
    requires |data| > 0
  {
    Sum(data) / |data| as real
  }

  /** The squared distances of the values from `m`. */
  function Squares(data: seq<real>, m: real): (sq: seq<real>)
    ensures |sq| == |data|
    ensures forall k :: 0 <= k < |data| ==> sq[k] == (data[k] - m) * (data[k] - m)
  {
    seq(|data|, k requires 0 <= k < |data| => (data[k] - m) * (data[k] - m))
  }

  /** The population variance: the mean squared distance from the mean. */
  function Variance(data: seq<real>): real
    requires |data| > 0
  {
    Sum(Squares(data, Mean(data))) / |data| as real
  }

  /**
   * `analyze_data` as written: an empty column divides by zero; for an
   * even length `n` the median averages `sorted[n//2]` and
   * `sorted[n//2 + 1]`, which is past the end when `n` is 2.
   */
  function AnalyzeDataAsWritten(data: seq<real>): Result<Stats, StatsError>
  {
    if |data| == 0 then Err(ZeroDivision)
    else
      match MiddleAsWritten(Sorted(data))
      case Err(e) => Err(e)
      case Ok(median) => Ok(Stats(Mean(data), Variance(data), median, Min(data), Max(data)))
  }

  /** The script's median of a sorted list: for an even length `n`, `sorted[n//2]` and `sorted[n//2 + 1]` are averaged. */
  function MiddleAsWritten(sd: seq<real>): Result<real, StatsError>
    requires |sd| > 0
  {
    var n := |sd|;
    if n % 2 == 1 then Ok(sd[n / 2])
    else if n / 2 + 1 >= n then Err(IndexOutOfRange)
    else Ok((sd[n / 2] + sd[n / 2 + 1]) / 2.0)
  }

  /** The middle value of a sorted list, or the mean of its two middle values. */
  function Middle(sd: seq<real>): real
    requires |sd| > 0
  {
    var n := |sd|;
    if n % 2 == 0 then (sd[n / 2 - 1] + sd[n / 2]) / 2.0 else sd[n / 2]
  }

  /** The median of a column: the middle of its sorted copy. */
  function Median(data: seq<real>): real
    requires |data| > 0
  {
    Middle(Sorted(data))
  }

  /** `analyze_data` with the median taken from the two middle values; only an empty column fails. */
  function AnalyzeData(data: seq<real>): (r: Result<Stats, StatsError>)
    ensures r.Err? <==> |data| == 0
    ensures r.Err? ==> r.error == ZeroDivision
  {
    if |data| == 0 then Err(ZeroDivision)
    else Ok(Stats(Mean(data), Variance(data), Median(data), Min(data), Max(data)))
  }

  /** The mean lies between the least and the greatest value. */
  lemma MeanWithinRange(data: seq<real>)
    requires |data| > 0
    ensures Min(data) <= Mean(data) <= Max(data)
  {
    AverageBetween(data, Min(data), Max(data));
  }

  /** The population variance is never negative. */
  lemma VarianceNonNegative(data: seq<real>)
    requires |data| > 0
    ensures Variance(data) >= 0.0
  {
    var sq := Squares(data, Mean(data));
    forall k | 0 <= k < |sq|
      ensures 0.0 <= sq[k]
    {
      SquareNonNegative(data[k] - Mean(data));
    }
    SumNonNegative(sq);
  }

  lemma SquareNonNegative(x: real)
    ensures x * x >= 0.0
  {
    if x < 0.0 {
      assert x * x == (-x) * (-x);
    }
  }

  /** Every value of the sorted copy lies between the least and the greatest value of the column. */
  lemma SortedWithinRange(data: seq<real>, k: nat)
    requires k < |data|
    ensures Min(data) <= Sorted(data)[k] <= Max(data)
  {
    var sd := Sorted(data);
    assert sd[k] in multiset(sd);
    assert sd[k] in multiset(data);
    var j :| 0 <= j < |data| && data[j] == sd[k];
  }

  /** The median lies between the least and the greatest value. */
  lemma MedianWithinRange(data: seq<real>)
    requires |data| > 0
    ensures Min(data) <= Median(data) <= Max(data)
  {
    var sd := Sorted(data);
    MiddleWithin(sd);
    SortedWithinRange(data, 0);
    SortedWithinRange(data, |data| - 1);
  }

  /** The middle of a sorted list lies between its first and its last value. */
  lemma MiddleWithin(sd: seq<real>)
    requires |sd| > 0 && IsSorted(sd)
    ensures sd[0] <= Middle(sd) <= sd[|sd| - 1]
  {
    var m := |sd| / 2;
    assert sd[0] <= sd[m] <= sd[|sd| - 1];
    if |sd| % 2 == 0 {
      assert sd[0] <= sd[m - 1] <= sd[|sd| - 1];
    }
  }

  /** The median splits the column: at most half of the values lie below it, and at most half above it. */
  lemma MedianSplitsData(data: seq<real>)
    requires |data| > 0
    ensures Count(data, Median(data), Below) <= |data| / 2
    ensures Count(data, Median(data), Above) <= |data| / 2
  {
    var sd := Sorted(data);
    MiddleSplits(sd);
    CountPermutation(data, sd, Middle(sd), Below);
    CountPermutation(data, sd, Middle(sd), Above);
  }

  /** The middle of a sorted list has at most half of its values on either side. */
  lemma MiddleSplits(sd: seq<real>)
    requires |sd| > 0 && IsSorted(sd)
    ensures Count(sd, Middle(sd), Below) <= |sd| / 2
    ensures Count(sd, Middle(sd), Above) <= |sd| / 2
  {
    var m := |sd| / 2;
    if |sd| % 2 == 0 {
      assert sd[m - 1] <= sd[m];
      CountBelowSorted(sd, m, Middle(sd));
      CountAboveSorted(sd, m, Middle(sd));
    } else {
      CountBelowSorted(sd, m, Middle(sd));
      CountAboveSorted(sd, m + 1, Middle(sd));
    }
  }

  /** On a column of odd length the script's statistics are the intended ones. */
  lemma AsWrittenAgreesOnOddLength(data: seq<real>)
    requires |data| % 2 == 1
    ensures AnalyzeDataAsWritten(data) == AnalyzeData(data)
  {
  }

  /** On a column of two values the script indexes past the end of the sorted copy. */
  lemma AsWrittenFailsOnTwo(data: seq<real>)
    requires |data| == 2
    ensures AnalyzeDataAsWritten(data) == Err(IndexOutOfRange)
    ensures AnalyzeData(data).Ok?
  {
  }

  /**
   * On four increasing values the script reports the mean of the third
   * and fourth as the median, with three of the four values below it;
   * the intended median is the mean of the second and third (on 1, 2, 3,
   * 4: 3.5 reported, 2.5 intended).
   */
  lemma AsWrittenMedianTooHigh(data: seq<real>)
    requires |data| == 4 && data[0] < data[1] < data[2] < data[3]
    ensures AnalyzeDataAsWritten(data).Ok?
    ensures AnalyzeDataAsWritten(data).value.median == (data[2] + data[3]) / 2.0
    ensures Count(data, (data[2] + data[3]) / 2.0, Below) == 3
    ensures Median(data) == (data[1] + data[2]) / 2.0
  {
    assert IsSorted(data);
    SortedOfSorted(data);
    MiddleTooHigh(data);
    AsWrittenMedian(data);
  }

  /** The script's statistics fail exactly when its median does, and otherwise carry that median. */
  lemma AsWrittenMedian(data: seq<real>)
    requires |data| > 0
    ensures AnalyzeDataAsWritten(data).Ok? <==> MiddleAsWritten(Sorted(data)).Ok?
    ensures AnalyzeDataAsWritten(data).Ok? ==> AnalyzeDataAsWritten(data).value.median == MiddleAsWritten(Sorted(data)).value
  {
  }

  /** On four increasing values the script's middle lies above three of them, and the intended one does not. */
  lemma MiddleTooHigh(sd: seq<real>)
    requires |sd| == 4 && sd[0] < sd[1] < sd[2] < sd[3]
    ensures MiddleAsWritten(sd) == Ok((sd[2] + sd[3]) / 2.0)
    ensures Count(sd, (sd[2] + sd[3]) / 2.0, Below) == 3
    ensures Middle(sd) == (sd[1] + sd[2]) / 2.0
  {
    CountBelowOfFour(sd, (sd[2] + sd[3]) / 2.0);
  }

  lemma CountBelowOfFour(data: seq<real>, v: real)
    requires |data| == 4 && data[0] < data[1] < data[2] < v < data[3]
    ensures Count(data, v, Below) == 3
  {
    assert data[3..][1..] == [] && data[2..][1..] == data[3..] && data[1..][1..] == data[2..];
    assert Count(data[3..], v, Below) == 0;
    assert Count(data[2..], v, Below) == 1;
    assert Count(data[1..], v, Below) == 2;
  }
}
