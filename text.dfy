/**
 * The Python string built-ins the three scripts lean on: `str.strip()`,
 * `str.split(sep)`, `str.startswith`, `int(s)` and `float(s)` (base 10,
 * ASCII whitespace). Strings are `seq<char>`.
 */
module Text {
  import opened Common

  /** Python's `str.isspace` on ASCII: space, tab, line feed, vertical tab, form feed, carriage return, 0x1C-0x1F. */
  predicate IsSpace(c: char) {
    c == ' ' || ('\t' <= c <= '\r') || ('\U{1C}' <= c <= '\U{1F}')
  }

  predicate IsDigit(c: char) {
    '0' <= c <= '9'
  }

  function DigitValue(c: char): (d: nat)
    requires IsDigit(c)
    ensures d < 10
  {
    c as int - '0' as int
  }

  function DigitChar(d: nat): (c: char)
    requires d < 10
    ensures IsDigit(c) && DigitValue(c) == d
  {
    ('0' as int + d) as char
  }

  /** Drops leading whitespace. */
  function TrimLeft(s: string): (r: string)
    ensures |r| <= |s| && r == s[|s| - |r|..]
    ensures |r| > 0 ==> !IsSpace(r[0])
    ensures forall k :: 0 <= k < |s| - |r| ==> IsSpace(s[k])
  {
    if |s| > 0 && IsSpace(s[0]) then TrimLeft(s[1..]) else s
  }

  /** Drops trailing whitespace. */
  function TrimRight(s: string): (r: string)
    ensures |r| <= |s| && r == s[..|r|]
    ensures |r| > 0 ==> !IsSpace(r[|r| - 1])
    ensures forall k :: |r| <= k < |s| ==> IsSpace(s[k])
  {
    if |s| > 0 && IsSpace(s[|s| - 1]) then TrimRight(s[..|s| - 1]) else s
  }

  /** Python's `s.strip()`: the text with whitespace removed from both ends. */
  function Strip(s: string): (r: string)
    ensures |r| <= |s|
    ensures |r| > 0 ==> !IsSpace(r[0]) && !IsSpace(r[|r| - 1])
  {
    TrimRight(TrimLeft(s))
  }

  /** A line made only of whitespace strips to the empty string. */
  lemma StripBlank(s: string)
    requires forall k :: 0 <= k < |s| ==> IsSpace(s[k])
    ensures Strip(s) == ""
  {
  }

  /** Text with no whitespace at either end is its own strip. */
  lemma StripTrimmed(s: string)
    requires |s| > 0 ==> !IsSpace(s[0]) && !IsSpace(s[|s| - 1])
    ensures Strip(s) == s
  {
  }

  /** One whitespace character after trimmed text is stripped away again. */
  lemma StripAddedSpace(s: string, c: char)
    requires |s| > 0 && !IsSpace(s[0]) && !IsSpace(s[|s| - 1]) && IsSpace(c)
    ensures Strip(s + [c]) == s
  {
    var t := s + [c];
    assert TrimLeft(t) == t;
    assert t[..|t| - 1] == s;
    assert TrimRight(t) == TrimRight(s);
    StripTrimmed(s);
  }

  /** Python's `s.startswith(prefix)`. */
  predicate StartsWith(s: string, prefix: string) {
    |prefix| <= |s| && s[..|prefix|] == prefix
  }

  /**
   * Python's `s.split(sep)` for a non-empty separator: the pieces between
   * leftmost non-overlapping occurrences of `sep`, at least one piece.
   */
  function Split(s: string, sep: string): (parts: seq<string>)
    requires |sep| > 0
    ensures |parts| >= 1
    decreases |s|
  {
    if |s| < |sep| then [s]
    else if s[..|sep|] == sep then [""] + Split(s[|sep|..], sep)
    else
      var rest := Split(s[1..], sep);
      [[s[0]] + rest[0]] + rest[1..]
  }

  /** Python's `sep.join(parts)`. */
  function Join(parts: seq<string>, sep: string): string
  {
    if |parts| == 0 then ""
    else if |parts| == 1 then parts[0]
    else parts[0] + sep + Join(parts[1..], sep)
  }

  /** Joining the pieces of a split with the same separator gives back the text. */
  lemma {:induction false} JoinSplit(s: string, sep: string)
    requires |sep| > 0
    ensures Join(Split(s, sep), sep) == s
    decreases |s|
  {
    if |s| < |sep| {
    } else if s[..|sep|] == sep {
      JoinSplit(s[|sep|..], sep);
      JoinEmptyFirst(Split(s[|sep|..], sep), sep);
      assert s == sep + s[|sep|..];
    } else {
      JoinSplit(s[1..], sep);
      JoinPrepend(s[0], Split(s[1..], sep), sep);
      assert s == [s[0]] + s[1..];
    }
  }

  /** An empty first piece contributes just the separator. */
  lemma JoinEmptyFirst(parts: seq<string>, sep: string)
    requires |parts| > 0
    ensures Join([""] + parts, sep) == sep + Join(parts, sep)
  {
    assert ([""] + parts)[1..] == parts;
  }

  /** Prepending a character to the first piece prepends it to the joined text. */
  lemma JoinPrepend(c: char, parts: seq<string>, sep: string)
    requires |parts| > 0
    ensures Join([[c] + parts[0]] + parts[1..], sep) == [c] + Join(parts, sep)
  {
    var longer := [[c] + parts[0]] + parts[1..];
    assert longer[1..] == parts[1..];
  }

  /** Splitting on one character leaves that character in no piece. */
  lemma {:induction false} SplitPiecesAvoidSeparator(s: string, c: char)
    ensures forall i, k :: 0 <= i < |Split(s, [c])| && 0 <= k < |Split(s, [c])[i]| ==> Split(s, [c])[i][k] != c
    decreases |s|
  {
    if |s| < 1 {
    } else if s[..1] == [c] {
      SplitPiecesAvoidSeparator(s[1..], c);
    } else {
      SplitPiecesAvoidSeparator(s[1..], c);
      var rest := Split(s[1..], [c]);
      assert s[0] != c by { assert s[..1] == [s[0]]; }
      var parts := [[s[0]] + rest[0]] + rest[1..];
      assert Split(s, [c]) == parts;
      forall i, k | 0 <= i < |parts| && 0 <= k < |parts[i]|
        ensures parts[i][k] != c
      {
        if i == 0 && k > 0 {
          assert parts[0][k] == rest[0][k - 1];
        } else if i > 0 {
          assert parts[i] == rest[i];
        }
      }
    }
  }

  /** Text in which the separator's first character never occurs splits into itself alone. */
  lemma {:induction false} SplitWithoutSeparator(s: string, sep: string)
    requires |sep| > 0
    requires forall k :: 0 <= k < |s| ==> s[k] != sep[0]
    ensures Split(s, sep) == [s]
    decreases |s|
  {
    if |s| >= |sep| {
      assert s[..|sep|] != sep by { assert s[..|sep|][0] == s[0]; }
      SplitWithoutSeparator(s[1..], sep);
      assert [s[0]] + s[1..] == s;
    }
  }

  /** A piece free of the separator's first character, then the separator: the piece comes off whole. */
  lemma {:induction false} SplitAfterPiece(a: string, sep: string, rest: string)
    requires |sep| > 0
    requires forall k :: 0 <= k < |a| ==> a[k] != sep[0]
    ensures Split(a + sep + rest, sep) == [a] + Split(rest, sep)
    decreases |a|
  {
    var s := a + sep + rest;
    if |a| == 0 {
      assert s == sep + rest;
      assert s[..|sep|] == sep && s[|sep|..] == rest;
    } else {
      assert s[..|sep|] != sep by { assert s[..|sep|][0] == a[0]; }
      assert s[1..] == a[1..] + sep + rest;
      SplitAfterPiece(a[1..], sep, rest);
      assert [s[0]] + a[1..] == a;
    }
  }

  /** `s.split(sep)` inverts `sep.join(parts)` when no piece holds the separator's first character. */
  lemma {:induction false} SplitJoin(parts: seq<string>, sep: string)
    requires |sep| > 0 && |parts| > 0
    requires forall i, k :: 0 <= i < |parts| && 0 <= k < |parts[i]| ==> parts[i][k] != sep[0]
    ensures Split(Join(parts, sep), sep) == parts
    decreases |parts|
  {
    if |parts| == 1 {
      SplitWithoutSeparator(parts[0], sep);
    } else {
      SplitJoin(parts[1..], sep);
      SplitAfterPiece(parts[0], sep, Join(parts[1..], sep));
      assert [parts[0]] + parts[1..] == parts;
    }
  }

  /** The first piece of a split on one character is the text up to the first occurrence of that character. */
  lemma {:induction false} SplitFirstPiece(s: string, c: char)
    ensures |Split(s, [c])[0]| <= |s|
    ensures Split(s, [c])[0] == s[..|Split(s, [c])[0]|]
    ensures |Split(s, [c])[0]| < |s| ==> s[|Split(s, [c])[0]|] == c
    decreases |s|
  {
    if |s| >= 1 && s[..1] != [c] {
      SplitFirstPiece(s[1..], c);
      var rest := Split(s[1..], [c]);
      assert Split(s, [c])[0] == [s[0]] + rest[0];
    }
  }

  /** Appending to the last piece appends to the join. */
  lemma {:induction false} JoinExtendLast(parts: seq<string>, sep: string, tail: string)
    requires |parts| > 0
    ensures Join(parts[..|parts| - 1] + [parts[|parts| - 1] + tail], sep) == Join(parts, sep) + tail
    decreases |parts|
  {
    var ext := parts[..|parts| - 1] + [parts[|parts| - 1] + tail];
    if |parts| > 1 {
      JoinExtendLast(parts[1..], sep, tail);
      assert ext[1..] == parts[1..][..|parts| - 2] + [parts[|parts| - 1] + tail];
    }
  }

  /** A join of non-empty pieces starts with the first piece's first character and ends with the last piece's last. */
  lemma {:induction false} JoinEnds(parts: seq<string>, sep: string)
    requires |parts| > 0
    requires forall i :: 0 <= i < |parts| ==> |parts[i]| > 0
    ensures |Join(parts, sep)| > 0
    ensures Join(parts, sep)[0] == parts[0][0]
    ensures Join(parts, sep)[|Join(parts, sep)| - 1] == parts[|parts| - 1][|parts[|parts| - 1]| - 1]
    decreases |parts|
  {
    if |parts| > 1 {
      JoinEnds(parts[1..], sep);
    }
  }

  /** Digits with single underscores between them, as Python's `int()` accepts in base 10. */
  predicate IsDigitGroup(b: string) {
    && |b| > 0 && IsDigit(b[0]) && IsDigit(b[|b| - 1])
    && (forall k :: 0 <= k < |b| ==> IsDigit(b[k]) || b[k] == '_')
    && (forall k :: 0 <= k < |b| - 1 ==> b[k] == '_' ==> b[k + 1] != '_')
  }

  predicate AllDigits(b: string) {
    forall k :: 0 <= k < |b| ==> IsDigit(b[k])
  }

  /** The number that a run of decimal digits denotes; underscores are skipped. */
  function DigitsValue(b: string): nat
  {
    if |b| == 0 then 0
    else if IsDigit(b[|b| - 1]) then 10 * DigitsValue(b[..|b| - 1]) + DigitValue(b[|b| - 1])
    else DigitsValue(b[..|b| - 1])
  }

  /** Python's `int(s)`: optional surrounding whitespace, an optional sign, then a digit group. */
  function ParseInt(s: string): Option<int>
  {
    var t := Strip(s);
    if |t| > 0 && (t[0] == '+' || t[0] == '-') then
      if IsDigitGroup(t[1..]) then
        var v: int := DigitsValue(t[1..]);
        Some(if t[0] == '-' then -v else v)
      else None
    else if IsDigitGroup(t) then Some(DigitsValue(t))
    else None
  }

  /** A character `int()` can accept somewhere in its argument. */
  predicate IntChar(c: char) {
    IsSpace(c) || IsDigit(c) || c == '_' || c == '+' || c == '-'
  }

  /** Text that `int()` reads is made of whitespace, a sign, digits and underscores only. */
  lemma ParseIntChars(s: string)
    requires ParseInt(s).Some?
    ensures forall k :: 0 <= k < |s| ==> IntChar(s[k])
  {
    var l := TrimLeft(s);
    var t := TrimRight(l);
    var a := |s| - |l|;
    forall k | 0 <= k < |s|
      ensures IntChar(s[k])
    {
      if a <= k {
        assert s[k] == l[k - a];
        if k - a < |t| {
          assert s[k] == t[k - a];
          if 0 < k - a {
            assert t[k - a] == t[1..][k - a - 1];
          }
        }
      }
    }
  }

  /** A list comprehension `[parse(x) for x in fields]` whose conversion may raise: all fields converted, or none. */
  function ParseEach<T>(fields: seq<string>, parse: string -> Option<T>): (r: Option<seq<T>>)
    ensures r.Some? <==> forall k :: 0 <= k < |fields| ==> parse(fields[k]).Some?
    ensures r.Some? ==> |r.value| == |fields| && forall k :: 0 <= k < |fields| ==> parse(fields[k]) == Some(r.value[k])
  {
    if |fields| == 0 then Some([])
    else
      var rest := ParseEach(fields[1..], parse);
      assert forall k :: 1 <= k < |fields| ==> fields[k] == fields[1..][k - 1];
      match parse(fields[0])
      case None => None
      case Some(x) => if rest.None? then None else Some([x] + rest.value)
  }

  /** Python's `str(n)` for a natural number. */
  function NatToString(n: nat): (r: string)
    ensures |r| > 0 && AllDigits(r)
    decreases n
  {
    if n < 10 then [DigitChar(n)] else NatToString(n / 10) + [DigitChar(n % 10)]
  }

  /** Python's `str(n)` for an integer. */
  function IntToString(n: int): (r: string)
    ensures |r| > 0 && IsDigit(r[|r| - 1])
    ensures forall k :: 0 <= k < |r| ==> IsDigit(r[k]) || (k == 0 && r[k] == '-')
  {
    if n < 0 then "-" + NatToString(-n) else NatToString(n)
  }

  lemma {:induction false} DigitsValueOfNatToString(n: nat)
    ensures DigitsValue(NatToString(n)) == n
    decreases n
  {
    if n >= 10 {
      DigitsValueOfNatToString(n / 10);
      var s := NatToString(n);
      assert s[..|s| - 1] == NatToString(n / 10);
    }
  }

  /** `int(str(n)) == n`: the integer parser inverts decimal printing. */
  lemma ParseIntRoundTrip(n: int)
    ensures ParseInt(IntToString(n)) == Some(n)
  {
    var s := IntToString(n);
    var d := NatToString(if n < 0 then -n else n);
    DigitsValueOfNatToString(if n < 0 then -n else n);
    StripTrimmed(s);
    if n < 0 {
      assert s[1..] == d;
    }
  }

  /** Any text that `int()` accepts holds a digit; in particular the empty and blank texts are refused. */
  lemma ParseIntNeedsDigit(s: string)
    requires ParseInt(s).Some?
    ensures exists k :: 0 <= k < |s| && IsDigit(s[k])
  {
    var t := TrimLeft(s);
    var u := Strip(s);
    assert u == t[..|u|];
    var k := if |u| > 0 && (u[0] == '+' || u[0] == '-') then 1 else 0;
    assert IsDigit(u[k]);
    assert s[|s| - |t| + k] == u[k];
  }

  function Pow10(n: nat): (p: nat)
    ensures p > 0
  {
    if n == 0 then 1 else 10 * Pow10(n - 1)
  }

  /** The value of `digits[.digits]` with at least one digit, or None. */
  function DecimalValue(b: string): Option<real>
  {
    var parts := Split(b, ".");
    if |parts| == 1 && |b| > 0 && AllDigits(b) then Some(DigitsValue(b) as real)
    else if |parts| == 2 && AllDigits(parts[0]) && AllDigits(parts[1]) && |parts[0]| + |parts[1]| > 0 then
      Some(DigitsValue(parts[0]) as real + DigitsValue(parts[1]) as real / Pow10(|parts[1]|) as real)
    else None
  }

  /** Python's `float(s)` on plain decimal notation: optional whitespace and sign, digits with at most one point. */
  function ParseFloat(s: string): Option<real>
  {
    var t := Strip(s);
    var signed := |t| > 0 && (t[0] == '+' || t[0] == '-');
    match DecimalValue(if signed then t[1..] else t)
    case None => None
    case Some(v) => Some(if signed && t[0] == '-' then -v else v)
  }

  /** `float(str(n)) == n`: an integer written in decimal reads back as that number. */
  lemma ParseFloatOfInt(n: int)
    ensures ParseFloat(IntToString(n)) == Some(n as real)
  {
    var m: nat := if n < 0 then -n else n;
    var s := IntToString(n);
    var d := NatToString(m);
    DecimalOfDigits(m);
    StripIntToString(n);
    if n < 0 {
      assert s[1..] == d;
    } else {
      assert s == d;
    }
  }

  /** The decimal text of an integer carries no surrounding whitespace. */
  lemma StripIntToString(n: int)
    ensures Strip(IntToString(n)) == IntToString(n)
  {
    var s := IntToString(n);
    var d := NatToString(if n < 0 then -n else n);
    assert s[|s| - 1] == d[|d| - 1];
    StripTrimmed(s);
  }

  lemma DecimalOfDigits(m: nat)
    ensures DecimalValue(NatToString(m)) == Some(m as real)
  {
    var d := NatToString(m);
    DigitsValueOfNatToString(m);
    SplitWithoutSeparator(d, ".");
    assert Split(d, ".") == [d];
  }
}
