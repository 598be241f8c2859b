/**
 * The per-region report line written in report mode: the region's points as
 * comma-separated clipped integer coordinates, in traversal order, followed
 * by ",<text>" when a recognizer is configured. Writing to the output stream
 * is modelled as building the line.
 */
module Report {
  import opened Wrappers
  import opened Geometry

  // ---------------------------------------------------------------------------
  // Decimal text of an int, as operator<< writes it
  // ---------------------------------------------------------------------------

  predicate IsDigit(c: char)
  {
    '0' <= c <= '9'
  }

  function DigitChar(d: nat): (c: char)
    requires d < 10
    ensures IsDigit(c) && c as int - '0' as int == d
  {
    ('0' as int + d) as char
  }

  /** Decimal digits of n, most significant first, without leading zeros. */
  function NatToDecimal(n: nat): (s: string)
    ensures |s| >= 1 && (s[0] == '0' ==> n == 0)
    ensures forall i :: 0 <= i < |s| ==> IsDigit(s[i])
    decreases n
  {
    if n < 10 then [DigitChar(n)] else NatToDecimal(n / 10) + [DigitChar(n % 10)]
  }

  /** Decimal text of an int: a minus sign before the magnitude of a negative number. */
  function IntToDecimal(v: int): (s: string)
    ensures ',' !in s
    ensures |s| >= 1
    decreases if v < 0 then 1 else 0
  {
    if v < 0 then "-" + IntToDecimal(-v) else NatToDecimal(v)
  }

  function DigitValue(c: char): nat
    requires IsDigit(c)
  {
    c as int - '0' as int
  }

  /** The value of a string of decimal digits. */
  function ParseNat(s: string): nat
    requires forall i :: 0 <= i < |s| ==> IsDigit(s[i])
    decreases |s|
  {
    if |s| == 0 then 0 else 10 * ParseNat(s[..|s| - 1]) + DigitValue(s[|s| - 1])
  }

  /** The value of an optionally negative decimal numeral. */
  function ParseInt(s: string): int
  {
    if |s| > 0 && s[0] == '-' && forall i :: 1 <= i < |s| ==> IsDigit(s[i]) then -(ParseNat(s[1..]) as int)
    else if forall i :: 0 <= i < |s| ==> IsDigit(s[i]) then ParseNat(s)
    else 0
  }

  lemma {:induction false} ParseNatOfDecimal(n: nat)
    ensures ParseNat(NatToDecimal(n)) == n
    decreases n
  {
    if n >= 10 {
      var s := NatToDecimal(n);
      assert s[..|s| - 1] == NatToDecimal(n / 10);
      ParseNatOfDecimal(n / 10);
    }
  }

  /** Reading the written number back gives the number. */
  lemma ParseIntOfDecimal(v: int)
    ensures ParseInt(IntToDecimal(v)) == v
  {
    var s := IntToDecimal(v);
    if v < 0 {
      var m := NatToDecimal(-v);
      assert s == "-" + m && s[1..] == m;
      assert forall i :: 1 <= i < |s| ==> IsDigit(s[i]);
      ParseNatOfDecimal(-v);
    } else {
      assert s == NatToDecimal(v) && !IsDigit('-');
      ParseNatOfDecimal(v);
    }
  }

  // ---------------------------------------------------------------------------
  // Comma-separated fields
  // ---------------------------------------------------------------------------

  /** The fields separated by single commas, with no trailing comma. */
  function Join(fields: seq<string>): string
    decreases |fields|
  {
    if |fields| == 0 then ""
    else if |fields| == 1 then fields[0]
    else fields[0] + "," + Join(fields[1..])
  }

  /** The text between consecutive commas; always at least one field. */
  function Split(s: string): (fields: seq<string>)
    ensures |fields| >= 1
    decreases |s|
  {
    if |s| == 0 then [""]
    else if s[0] == ',' then [""] + Split(s[1..])
    else
      var rest := Split(s[1..]);
      [[s[0]] + rest[0]] + rest[1..]
  }

  lemma {:induction false} JoinSnoc(fields: seq<string>, f: string)
    ensures Join(fields + [f]) == if |fields| == 0 then f else Join(fields) + "," + f
    decreases |fields|
  {
    if |fields| > 1 {
      assert (fields + [f])[1..] == fields[1..] + [f];
      JoinSnoc(fields[1..], f);
    }
  }

  lemma {:induction false} SplitComma(f: string, rest: string)
    requires ',' !in f
    ensures Split(f + "," + rest) == [f] + Split(rest)
    decreases |f|
  {
    if |f| > 0 {
      assert (f + "," + rest)[1..] == f[1..] + "," + rest;
      SplitComma(f[1..], rest);
      assert [f[0]] + f[1..] == f;
    } else {
      assert f + "," + rest == [','] + rest;
    }
  }

  lemma {:induction false} SplitField(f: string)
    requires ',' !in f
    ensures Split(f) == [f]
    decreases |f|
  {
    if |f| > 0 {
      SplitField(f[1..]);
      assert [f[0]] + f[1..] == f;
    }
  }

  /** Splitting a joined line at its commas gives back the fields, when no field holds a comma. */
  lemma {:induction false} SplitJoin(fields: seq<string>)
    requires |fields| >= 1
    requires forall i :: 0 <= i < |fields| ==> ',' !in fields[i]
    ensures Split(Join(fields)) == fields
    decreases |fields|
  {
    if |fields| == 1 {
      SplitField(fields[0]);
    } else {
      SplitJoin(fields[1..]);
      SplitComma(fields[0], Join(fields[1..]));
      assert [fields[0]] + fields[1..] == fields;
    }
  }

  // ---------------------------------------------------------------------------
  // The report line
  // ---------------------------------------------------------------------------

  /** The reported (clipped integer) coordinate of one point: x against the width, y against the height. */
  function ReportedX(p: Point, cols: int): int { Clip(Trunc(p.x), cols - 1) }
  function ReportedY(p: Point, rows: int): int { Clip(Trunc(p.y), rows - 1) }

  /** The numbers a report line lists: x then y of each point, in traversal order. */
  function ReportedCoordinates(points: seq<Point>, cols: int, rows: int): (r: seq<int>)
    ensures |r| == 2 * |points|
    decreases |points|
  {
    if |points| == 0 then []
    else
      var p := points[|points| - 1];
      ReportedCoordinates(points[..|points| - 1], cols, rows) + [ReportedX(p, cols), ReportedY(p, rows)]
  }

  /** The numbers for point k sit at positions 2k and 2k+1. */
  lemma {:induction false} ReportedCoordinatesAt(points: seq<Point>, cols: int, rows: int, k: nat)
    requires k < |points|
    ensures var r := ReportedCoordinates(points, cols, rows);
      r[2 * k] == ReportedX(points[k], cols) && r[2 * k + 1] == ReportedY(points[k], rows)
    decreases |points|
  {
    if k < |points| - 1 {
      ReportedCoordinatesAt(points[..|points| - 1], cols, rows, k);
    }
  }

  /** Every reported coordinate lies inside the frame: x in [0, cols-1], y in [0, rows-1]. */
  lemma ReportedCoordinatesInFrame(points: seq<Point>, cols: int, rows: int, k: nat)
    requires cols >= 1 && rows >= 1 && k < |points|
    ensures var r := ReportedCoordinates(points, cols, rows);
      0 <= r[2 * k] < cols && 0 <= r[2 * k + 1] < rows
  {
    ReportedCoordinatesAt(points, cols, rows, k);
  }

  function Decimals(vs: seq<int>): (r: seq<string>)
    ensures |r| == |vs|
    ensures forall k :: 0 <= k < |vs| ==> r[k] == IntToDecimal(vs[k])
  {
    seq(|vs|, k requires 0 <= k < |vs| => IntToDecimal(vs[k]))
  }

  /** The coordinate part of a report line. */
  function CoordinatesText(points: seq<Point>, cols: int, rows: int): string
  {
    Join(Decimals(ReportedCoordinates(points, cols, rows)))
  }

  /** The line written for one region; text is present exactly when a recognizer is configured. */
  function ReportLine(points: seq<Point>, cols: int, rows: int, text: Option<string>): string
  {
    CoordinatesText(points, cols, rows) + (if text.Some? then "," + text.value else "")
  }

  /** Extending a joined prefix by two more fields adds a comma before each (none before the first field of all). */
  lemma JoinPrefixPair(fields: seq<string>, j: nat)
    requires j + 2 <= |fields|
    ensures Join(fields[..j + 2])
      == if j == 0 then fields[0] + "," + fields[1] else (Join(fields[..j]) + ",") + (fields[j] + "," + fields[j + 1])
  {
    var f, g := fields[j], fields[j + 1];
    assert fields[..j + 2] == fields[..j] + [f] + [g];
    JoinSnoc(fields[..j], f);
    JoinSnoc(fields[..j] + [f], g);
  }

  /** The fields of the first `n` coordinates of a report line, joined. */
  function CoordinatesPrefix(points: seq<Point>, cols: int, rows: int, n: nat): string
    requires n <= 2 * |points|
  {
    Join(Decimals(ReportedCoordinates(points, cols, rows))[..n])
  }

  /** Writing fields 2i and 2i+1 after a joined prefix, and a comma unless they are the last pair, extends the prefix. */
  lemma JoinPairStep(ds: seq<string>, i: nat, count: nat, line: string)
    requires i < count && 2 * count <= |ds|
    requires line == Join(ds[..2 * i]) + (if 0 < i then "," else "")
    ensures var next := line + (ds[2 * i] + "," + ds[2 * i + 1]);
      (if i != count - 1 then next + "," else next) == Join(ds[..2 * (i + 1)]) + (if 0 < i + 1 < count then "," else "")
  {
    JoinPrefixPair(ds, 2 * i);
    if i == 0 {
      assert line == "";
    }
  }

  /** One turn of the report loop: point i's two numbers, and a comma unless it is the last point, extend the line. */
  lemma ReportLineStep(points: seq<Point>, cols: int, rows: int, i: nat, line: string)
    requires i < |points|
    requires line == CoordinatesPrefix(points, cols, rows, 2 * i) + (if 0 < i then "," else "")
    ensures var pair := IntToDecimal(ReportedX(points[i], cols)) + "," + IntToDecimal(ReportedY(points[i], rows));
      var next := line + pair;
      (if i != |points| - 1 then next + "," else next)
        == CoordinatesPrefix(points, cols, rows, 2 * (i + 1)) + (if 0 < i + 1 < |points| then "," else "")
  {
    var ds := Decimals(ReportedCoordinates(points, cols, rows));
    ReportedCoordinatesAt(points, cols, rows, i);
    JoinPairStep(ds, i, |points|, line);
  }

  lemma CoordinatesPrefixComplete(points: seq<Point>, cols: int, rows: int)
    ensures CoordinatesPrefix(points, cols, rows, 2 * |points|) == CoordinatesText(points, cols, rows)
  {
    var ds := Decimals(ReportedCoordinates(points, cols, rows));
    assert ds[..2 * |points|] == ds;
  }

  /** The report loop of the demo: coordinates with a comma after each but the last, then ",text". */
  method WriteReportLine(points: seq<Point>, cols: int, rows: int, text: Option<string>) returns (line: string)
    ensures line == ReportLine(points, cols, rows, text)
  {
    line := "";
    for i := 0 to |points|
      invariant line == CoordinatesPrefix(points, cols, rows, 2 * i) + (if 0 < i < |points| then "," else "")
    {
      var pair := IntToDecimal(ReportedX(points[i], cols)) + "," + IntToDecimal(ReportedY(points[i], rows));
      ReportLineStep(points, cols, rows, i, line);
      line := line + pair;
      if i != |points| - 1 {
        line := line + ",";
      }
      assert line == CoordinatesPrefix(points, cols, rows, 2 * (i + 1)) + (if 0 < i + 1 < |points| then "," else "");
    }
    CoordinatesPrefixComplete(points, cols, rows);
    if text.Some? {
      line := line + "," + text.value;
    }
  }

  /** The fields of a report line: the coordinates' decimals, then the text when present. */
  function ReportFields(points: seq<Point>, cols: int, rows: int, text: Option<string>): seq<string>
  {
    var ds := Decimals(ReportedCoordinates(points, cols, rows));
    if text.Some? then ds + [text.value] else ds
  }

  lemma ReportLineIsJoin(points: seq<Point>, cols: int, rows: int, text: Option<string>)
    requires |points| > 0
    ensures ReportLine(points, cols, rows, text) == Join(ReportFields(points, cols, rows, text))
  {
    if text.Some? {
      JoinSnoc(Decimals(ReportedCoordinates(points, cols, rows)), text.value);
    }
  }

  /**
   * A report line reads back as the region's clipped coordinates followed by
   * the text, when the region has points and the text holds no comma.
   */
  lemma ReportLineReadsBack(points: seq<Point>, cols: int, rows: int, text: Option<string>)
    requires |points| > 0
    requires text.Some? ==> ',' !in text.value
    ensures var fields := Split(ReportLine(points, cols, rows, text));
      var coords := ReportedCoordinates(points, cols, rows);
      && |fields| == |coords| + (if text.Some? then 1 else 0)
      && (forall k :: 0 <= k < |coords| ==> ParseInt(fields[k]) == coords[k])
      && (text.Some? ==> fields[|coords|] == text.value)
  {
    var coords := ReportedCoordinates(points, cols, rows);
    var all := ReportFields(points, cols, rows, text);
    assert |all| == |coords| + (if text.Some? then 1 else 0);
    assert forall k :: 0 <= k < |coords| ==> all[k] == IntToDecimal(coords[k]);
    assert forall k :: 0 <= k < |all| ==> ',' !in all[k];
    ReportLineIsJoin(points, cols, rows, text);
    SplitJoin(all);
    forall k | 0 <= k < |coords| ensures ParseInt(all[k]) == coords[k] {
      ParseIntOfDecimal(coords[k]);
    }
  }
}
