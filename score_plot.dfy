/**
 * The class-score plotting script: its reader of comma-separated integer
 * score files, and the midterm, final and total columns it derives from
 * the rows of the two classes before plotting them. Totals are exact reals.
 */
module ScorePlot {
  import opened Common
  import opened Text
  import opened ListBuiltins
  import opened LineReading
  import ScoreAnalysis

  // ---------------------------------------------------------------- reading

  /** A header line starts with '#' in its very first column; no whitespace is stripped first. */
  predicate IsHeader(line: string) {
    StartsWith(line, "#")
  }

  predicate IsScoreLine(line: string) {
    !IsHeader(line)
  }

  /** One score line, newline included: split on ',', every field read with `int()`. */
  function ParseScores(line: string): Option<seq<int>>
  {
    ParseEach(Split(line, ","), ParseInt)
  }

  /**
   * `read_data`: every line that does not start with '#' becomes one row,
   * in file order; a field that is not an integer raises, and no rows are
   * returned at all.
   */
  method ReadData(lines: seq<string>) returns (data: Option<seq<seq<int>>>)
    ensures data.Some? <==> forall k :: 0 <= k < |Filter(lines, IsScoreLine)| ==> ParseScores(Filter(lines, IsScoreLine)[k]).Some?
    ensures data.Some? ==>
      && |data.value| == |Filter(lines, IsScoreLine)|
      && forall k :: 0 <= k < |data.value| ==> ParseScores(Filter(lines, IsScoreLine)[k]) == Some(data.value[k])
  {
    data := ReadRows(lines, IsScoreLine, ParseScores);
  }

  /**
   * A header indented by whitespace is a comment to the analysis script's
   * reader but a score line to this one, and its first field is not an
   * integer.
   */
  lemma IndentedHeaderFails(line: string, i: nat)
    requires 0 < i < |line| && line[i] == '#'
    requires forall j :: 0 <= j < i ==> IsSpace(line[j])
    ensures ScoreAnalysis.IsComment(line)
    ensures IsScoreLine(line) && ParseScores(line).None?
  {
    HeaderAfterSpaces(line, i);
    SplitFirstPiece(line, ',');
    var first := Split(line, ",")[0];
    assert |first| > i;
    assert first[i] == '#';
    if ParseInt(first).Some? {
      ParseIntChars(first);
    }
  }

  /** Text that starts with whitespace and then '#' strips to text starting with '#'. */
  lemma HeaderAfterSpaces(line: string, i: nat)
    requires 0 < i < |line| && line[i] == '#'
    requires forall j :: 0 <= j < i ==> IsSpace(line[j])
    ensures StartsWith(Strip(line), "#")
  {
    var l := TrimLeft(line);
    assert |line| - |l| == i;
    assert l[0] == '#';
    var t := TrimRight(l);
    assert |t| > 0;
    assert t[0] == '#';
  }

  /** A line of whitespace only, such as an empty last line, is a score line whose one field is not an integer. */
  lemma BlankLineFails(line: string)
    requires forall k :: 0 <= k < |line| ==> IsSpace(line[k])
    ensures IsScoreLine(line) && ParseScores(line).None?
  {
    if |line| > 0 {
      assert line[..1][0] == line[0];
    }
    SplitWithoutSeparator(line, ",");
    StripBlank(line);
  }

  /** A row of scores written as "a,b,...", ended by a newline. */
  function ScoreLine(scores: seq<int>): (line: string)
    requires |scores| > 0
  {
    Join(ScoreAnalysis.Printed(scores), ",") + "\n"
  }

  /** The fields a written row splits into: the printed scores, the last one followed by the newline. */
  function Fields(scores: seq<int>): (fields: seq<string>)
    requires |scores| > 0
  {
    var texts := ScoreAnalysis.Printed(scores);
    texts[..|texts| - 1] + [texts[|texts| - 1] + "\n"]
  }

  /** A written row is a score line and reads back as the same scores. */
  lemma LineRoundTrip(scores: seq<int>)
    requires |scores| > 0
    ensures IsScoreLine(ScoreLine(scores))
    ensures ParseScores(ScoreLine(scores)) == Some(scores)
  {
    LineIsScoreLine(scores);
    LineSplitsIntoFields(scores);
    FieldsReadBack(scores);
  }

  /** A written row starts with the first score's text, so it is never taken for a header. */
  lemma LineIsScoreLine(scores: seq<int>)
    requires |scores| > 0
    ensures IsScoreLine(ScoreLine(scores))
  {
    var texts := ScoreAnalysis.Printed(scores);
    JoinEnds(texts, ",");
    var joined := Join(texts, ",");
    var first := IntToString(scores[0]);
    assert joined[0] == first[0];
    assert (joined + "\n")[0] == joined[0];
    assert IsDigit(first[0]) || first[0] == '-';
  }

  /** A written row splits on ',' into its fields. */
  lemma LineSplitsIntoFields(scores: seq<int>)
    requires |scores| > 0
    ensures Split(ScoreLine(scores), ",") == Fields(scores)
  {
    JoinExtendLast(ScoreAnalysis.Printed(scores), ",", "\n");
    FieldsAvoidComma(scores, Fields(scores));
    SplitJoin(Fields(scores), ",");
  }

  /** Every field reads back with `int()` as its score, the newline after the last one included. */
  lemma FieldsReadBack(scores: seq<int>)
    requires |scores| > 0
    ensures ParseEach(Fields(scores), ParseInt) == Some(scores)
  {
    var fields := Fields(scores);
    forall k | 0 <= k < |scores|
      ensures ParseInt(fields[k]) == Some(scores[k])
    {
      FieldReadsBack(scores, k);
    }
    var r := ParseEach(fields, ParseInt);
    assert r.value == scores;
  }

  /** The `k`-th field of a written row reads back as the `k`-th score. */
  lemma FieldReadsBack(scores: seq<int>, k: nat)
    requires k < |scores|
    ensures ParseInt(Fields(scores)[k]) == Some(scores[k])
  {
    if k == |scores| - 1 {
      LastFieldReadsBack(scores[k]);
      assert Fields(scores)[k] == IntToString(scores[k]) + "\n";
    } else {
      ParseIntRoundTrip(scores[k]);
      assert Fields(scores)[k] == IntToString(scores[k]);
    }
  }

  /** A newline after a written integer does not change what `int()` reads. */
  lemma LastFieldReadsBack(n: int)
    ensures ParseInt(IntToString(n) + "\n") == Some(n)
  {
    var d := IntToString(n);
    StripIntToString(n);
    StripAddedSpace(d, '\n');
    assert d + "\n" == d + ['\n'];
    ParseIntRoundTrip(n);
  }

  /** No written field holds a comma. */
  lemma FieldsAvoidComma(scores: seq<int>, fields: seq<string>)
    requires |scores| > 0
    requires fields == ScoreAnalysis.Printed(scores)[..|scores| - 1] + [ScoreAnalysis.Printed(scores)[|scores| - 1] + "\n"]
    ensures forall i, k :: 0 <= i < |fields| && 0 <= k < |fields[i]| ==> fields[i][k] != ","[0]
  {
    forall i, k | 0 <= i < |fields| && 0 <= k < |fields[i]|
      ensures fields[i][k] != ','
    {
      var d := IntToString(scores[i]);
      if k < |d| {
        assert fields[i][k] == d[k];
      }
    }
  }

  // ---------------------------------------------------------------- columns

  /** Every row unpacks into exactly a midterm and a final score. */
  predicate AllPairs(rows: seq<seq<int>>) {
    forall k :: 0 <= k < |rows| ==> |rows[k]| == 2
  }

  datatype Columns = Columns(midterm: seq<int>, final: seq<int>)

  /** The rows that pair the two columns up again, as `zip(midterm, final)` does. */
  function Rows(c: Columns): (rows: seq<seq<int>>)
    requires |c.midterm| == |c.final|
    ensures |rows| == |c.midterm| && AllPairs(rows)
  {
    seq(|c.midterm|, k requires 0 <= k < |c.midterm| => [c.midterm[k], c.final[k]])
  }

  /**
   * `[midtm for (midtm, _) in rows]` and `[final for (_, final) in rows]`:
   * a row that does not hold exactly two scores makes the unpacking raise.
   */
  function Unpacked(rows: seq<seq<int>>): Option<Columns>
  {
    if AllPairs(rows) then
      Some(Columns(seq(|rows|, k requires 0 <= k < |rows| => rows[k][0]),
                   seq(|rows|, k requires 0 <= k < |rows| => rows[k][1])))
    else None
  }

  /** Unpacking succeeds exactly on rows of two scores, and then pairing the columns gives the rows back. */
  lemma UnpackedRoundTrip(rows: seq<seq<int>>)
    ensures Unpacked(rows).Some? <==> AllPairs(rows)
    ensures Unpacked(rows).Some? ==>
      && |Unpacked(rows).value.midterm| == |Unpacked(rows).value.final|
      && Rows(Unpacked(rows).value) == rows
  {
    if AllPairs(rows) {
      var c := Unpacked(rows).value;
      forall k | 0 <= k < |rows|
        ensures Rows(c)[k] == rows[k]
      {
        assert rows[k] == [rows[k][0], rows[k][1]];
      }
    }
  }

  /** Two columns of one length, paired into rows, unpack into those columns. */
  lemma RowsRoundTrip(c: Columns)
    requires |c.midterm| == |c.final|
    ensures Unpacked(Rows(c)) == Some(c)
  {
    var u := Unpacked(Rows(c)).value;
    assert u.midterm == c.midterm;
    assert u.final == c.final;
  }

  /**
   * The script's shortest-row check: `zip(*rows)` yields one tuple per
   * position of the shortest row, and unpacking into two names needs
   * exactly two of them.
   */
  predicate ShortestIsPair(rows: seq<seq<int>>) {
    && |rows| > 0
    && (forall k :: 0 <= k < |rows| ==> |rows[k]| >= 2)
    && (exists k :: 0 <= k < |rows| && |rows[k]| == 2)
  }

  /** `midtm_en, final_en = zip(*rows)`: the first two positions of every row, when the shortest row has two scores. */
  function Transposed(rows: seq<seq<int>>): Option<Columns>
  {
    if ShortestIsPair(rows) then
      Some(Columns(seq(|rows|, k requires 0 <= k < |rows| => rows[k][0]),
                   seq(|rows|, k requires 0 <= k < |rows| => rows[k][1])))
    else None
  }

  /**
   * Transposing agrees with unpacking wherever both succeed; it fails on
   * an empty file, where unpacking gives two empty columns, and succeeds
   * on a longer row only when some other row is a pair.
   */
  lemma TransposedAgrees(rows: seq<seq<int>>)
    ensures Transposed(rows).Some? ==> forall k :: 0 <= k < |rows| ==> |rows[k]| >= 2
    ensures Transposed(rows).Some? && Unpacked(rows).Some? ==> Transposed(rows) == Unpacked(rows)
    ensures |rows| > 0 && AllPairs(rows) ==> Transposed(rows) == Unpacked(rows)
    ensures |rows| == 0 ==> Transposed(rows).None? && Unpacked(rows) == Some(Columns([], []))
  {
    if |rows| == 0 {
      assert Unpacked(rows).value.midterm == [];
      assert Unpacked(rows).value.final == [];
    } else if AllPairs(rows) {
      assert |rows[0]| == 2;
    }
  }

  // ------------------------------------------------------------------ totals

  /** The total score in percent: the midterm (out of 125) weighs 40 and the final (out of 100) weighs 60. */
  function Total(midterm: int, final: int): real
  {
    40.0 / 125.0 * midterm as real + 60.0 / 100.0 * final as real
  }

  /** `[40/125*midtm + 60/100*final for (midtm, final) in rows]`: a row that is not a pair raises. */
  function Totals(rows: seq<seq<int>>): Option<seq<real>>
  {
    if AllPairs(rows) then Some(seq(|rows|, k requires 0 <= k < |rows| => Total(rows[k][0], rows[k][1])))
    else None
  }

  /** Totals fail exactly where unpacking does, and are computed from the two unpacked columns, position by position. */
  lemma TotalsOfColumns(rows: seq<seq<int>>)
    ensures Totals(rows).Some? <==> Unpacked(rows).Some?
    ensures Totals(rows).Some? ==>
      && |Totals(rows).value| == |rows|
      && forall k :: 0 <= k < |rows| ==>
           Totals(rows).value[k] == Total(Unpacked(rows).value.midterm[k], Unpacked(rows).value.final[k])
  {
  }

  /** The total is the analysis script's weighted total of the pair, with weights 40/125 and 60/100. */
  lemma TotalIsWeighted(midterm: int, final: int)
    ensures Total(midterm, final) == ScoreAnalysis.Weighted([midterm as real, final as real], [40.0 / 125.0, 60.0 / 100.0])
  {
  }

  /**
   * Scores within their maxima give a total within the histogram's range
   * 0 to 100, full marks give exactly 100, and a better score never lowers
   * the total.
   */
  lemma TotalWithinRange(midterm: int, final: int)
    requires 0 <= midterm <= 125 && 0 <= final <= 100
    ensures 0.0 <= Total(midterm, final) <= 100.0
    ensures Total(midterm, final) == 100.0 <==> midterm == 125 && final == 100
    ensures midterm < 125 ==> Total(midterm, final) < Total(midterm + 1, final)
    ensures final < 100 ==> Total(midterm, final) < Total(midterm, final + 1)
  {
  }

  /**
   * Both classes as the script treats them: the Korean rows go through
   * unpacking and totals, the English rows through transposing and
   * totals; all succeed exactly when both files hold only pairs and the
   * English file is not empty.
   */
  function PlotColumns(kr: seq<seq<int>>, en: seq<seq<int>>): Option<(Columns, seq<real>, Columns, seq<real>)>
  {
    match (Unpacked(kr), Totals(kr), Transposed(en), Totals(en))
    case (Some(ckr), Some(tkr), Some(cen), Some(ten)) => Some((ckr, tkr, cen, ten))
    case _ => None
  }

  lemma PlotColumnsSucceed(kr: seq<seq<int>>, en: seq<seq<int>>)
    ensures PlotColumns(kr, en).Some? <==> AllPairs(kr) && AllPairs(en) && |en| > 0
    ensures PlotColumns(kr, en).Some? ==>
      && Rows(PlotColumns(kr, en).value.0) == kr
      && Rows(PlotColumns(kr, en).value.2) == en
  {
    UnpackedRoundTrip(kr);
    UnpackedRoundTrip(en);
    TotalsOfColumns(kr);
    TotalsOfColumns(en);
    TransposedAgrees(en);
  }
}
