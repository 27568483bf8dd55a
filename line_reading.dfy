/**
 * The reading loop both score scripts share: the lines of a file in
 * order, the ones a test marks as comments passed over, every other one
 * converted into a row; the first line that does not convert raises and
 * nothing is returned. The test and the conversion are parameters, so
 * each script supplies its own comment rule and field parser.
 */
module LineReading {
  import opened Common
  import opened ListBuiltins

  /** Every data line converts. */
  predicate AllConvert<T(==)>(kept: seq<string>, parse: string -> Option<T>) {
    forall k :: 0 <= k < |kept| ==> parse(kept[k]).Some?
  }

  /** The rows are the conversions of the data lines, one for one and in order. */
  predicate ReadAs<T(==)>(kept: seq<string>, rows: seq<T>, parse: string -> Option<T>) {
    |rows| == |kept| && forall k :: 0 <= k < |rows| ==> parse(kept[k]) == Some(rows[k])
  }

  /**
   * `data = []`, then for every line: skip it if it is a comment,
   * otherwise append its conversion to `data`.
   */
  method ReadRows<T(==)>(lines: seq<string>, isData: string -> bool, parse: string -> Option<T>) returns (data: Option<seq<T>>)
    ensures data.Some? <==> forall k :: 0 <= k < |Filter(lines, isData)| ==> parse(Filter(lines, isData)[k]).Some?
    ensures data.Some? ==>
      && |data.value| == |Filter(lines, isData)|
      && forall k :: 0 <= k < |data.value| ==> parse(Filter(lines, isData)[k]) == Some(data.value[k])
  {
    var rows: seq<T> := [];
    var i := 0;
    while i < |lines|
      invariant 0 <= i <= |lines|
      invariant ReadAs(Filter(lines[..i], isData), rows, parse)
      invariant AllConvert(Filter(lines[..i], isData), parse)
    {
      ghost var kept := Filter(lines[..i], isData);
      FilterPrefixStep(lines, i, isData);
      if isData(lines[i]) {
        var row := parse(lines[i]);
        if row.None? {
          FilterPrefixAt(lines, i, isData);
          return None;
        }
        ReadAsAppend(kept, rows, lines[i], row.value, parse);
        rows := rows + [row.value];
      }
      i := i + 1;
    }
    assert lines[..i] == lines;
    return Some(rows);
  }

  lemma ReadAsAppend<T>(kept: seq<string>, rows: seq<T>, line: string, row: T, parse: string -> Option<T>)
    requires ReadAs(kept, rows, parse) && parse(line) == Some(row)
    ensures ReadAs(kept + [line], rows + [row], parse)
    ensures AllConvert(kept, parse) ==> AllConvert(kept + [line], parse)
  {
    var kept', rows' := kept + [line], rows + [row];
    forall k | 0 <= k < |rows'|
      ensures parse(kept'[k]) == Some(rows'[k])
    {
      if k < |rows| {
        assert kept'[k] == kept[k] && rows'[k] == rows[k];
      }
    }
  }
}
