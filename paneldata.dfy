/**
 * What a device panel of the viewer takes from its log: the latest record
 * (`read_last`), the rolling window of points for the chart (`read_tail`)
 * and the tick format chosen from the time span of the window
 * (`_set_xaxis_formatter`).
 *
 * A log is seen as the records `csv.reader` delivers, each a list of
 * fields. Parsing a field as a float or an ISO timestamp is a parameter of
 * type `string -> Option<_>` (`None` where Python raises).
 */
module PanelData {
  import opened Common
  import LogFormat
  import Payload

  type Row = seq<string>

  /** The chart keeps this many points by default. */
  const ROLLING_POINTS: nat := 600

  const ONE_DAY: int := 24 * 3600
  const FIVE_DAYS: int := 5 * ONE_DAY

  // ---------------------------------------------------------------------
  // `read_tail`
  // ---------------------------------------------------------------------

  /** One chart point: the row's timestamp, temperature and humidity. */
  datatype Point<S, F> = Point(at: S, temp: F, hum: F)

  /** The rows after the first, which `next(r, None)` consumes as the header. */
  function Records(rows: seq<Row>): (rs: seq<Row>)
    ensures |rs| == if rows == [] then 0 else |rows| - 1
    ensures forall i :: 0 <= i < |rs| ==> rs[i] == rows[i + 1]
  {
    if rows == [] then [] else rows[1..]
  }

  /** The point a record yields: none for fewer than five fields or a field that does not parse. */
  function Accept<S, F>(row: Row, stamp: string -> Option<S>, num: string -> Option<F>): (p: Option<Point<S, F>>)
    ensures p.Some? <==> |row| >= 5 && stamp(row[0]).Some? && num(row[1]).Some? && num(row[2]).Some?
    ensures p.Some? ==> p.value == Point(stamp(row[0]).value, num(row[1]).value, num(row[2]).value)
  {
    if |row| < 5 then None
    else
      match stamp(row[0])
      case None => None
      case Some(t) =>
        match num(row[1])
        case None => None
        case Some(temp) =>
          match num(row[2])
          case None => None
          case Some(hum) => Some(Point(t, temp, hum))
  }

  /** The points of the accepted records, in file order. */
  function Kept<S, F>(rows: seq<Row>, stamp: string -> Option<S>, num: string -> Option<F>): (ps: seq<Point<S, F>>)
    ensures |ps| <= |rows|
  {
    if rows == [] then []
    else
      var init, row := rows[..|rows| - 1], rows[|rows| - 1];
      Kept(init, stamp, num) + (match Accept(row, stamp, num) case Some(p) => [p] case None => [])
  }

  /** The last `n` elements of `s` (all of them if there are fewer). */
  function LastN<T>(s: seq<T>, n: nat): (r: seq<T>)
    ensures |r| == if |s| <= n then |s| else n
    ensures r == s[|s| - |r|..]
  {
    if |s| <= n then s else s[|s| - n..]
  }

  /** `dq.append(x)` on a `deque(maxlen=n)` holding `dq`: when it is full the leftmost element drops out. */
  function Push<T>(dq: seq<T>, x: T, n: nat): (r: seq<T>)
    requires |dq| <= n
    ensures |r| <= n
  {
    if n == 0 then []
    else if |dq| < n then dq + [x]
    else dq[1..] + [x]
  }

  /**
   * `read_tail(path, max_rows)`: skip the header, skip short and unparsable
   * records, keep the last `max_rows` points. `rows` are the records read
   * before the reader stopped, at the end of the file or at an error (which
   * `except Exception: pass` swallows); a file that cannot be opened
   * delivers none.
   */
  method ReadTail<S, F>(rows: seq<Row>, stamp: string -> Option<S>, num: string -> Option<F>, maxRows: nat)
    returns (out: seq<Point<S, F>>)
    ensures out == LastN(Kept(Records(rows), stamp, num), maxRows)
  {
    out := [];
    if rows == [] {
      return;
    }
    for i := 1 to |rows|
      invariant out == LastN(Kept(rows[1..i], stamp, num), maxRows)
    {
      var row := rows[i];
      TailStep(rows, i, stamp, num, out, maxRows);
      if |row| < 5 {
        continue;
      }
      var t := stamp(row[0]);
      if t.None? {
        continue;
      }
      var temp := num(row[1]);
      if temp.None? {
        continue;
      }
      var hum := num(row[2]);
      if hum.None? {
        continue;
      }
      out := Push(out, Point(t.value, temp.value, hum.value), maxRows);
    }
    assert rows[1..|rows|] == Records(rows);
  }

  lemma KeptStep<S, F>(rows: seq<Row>, i: nat, stamp: string -> Option<S>, num: string -> Option<F>)
    requires 1 <= i < |rows|
    ensures Kept(rows[1..i + 1], stamp, num)
            == Kept(rows[1..i], stamp, num) + (match Accept(rows[i], stamp, num) case Some(p) => [p] case None => [])
  {
    assert rows[1..i + 1][..i - 1] == rows[1..i];
  }

  /** One turn of the `read_tail` loop: an accepted record is pushed, any other leaves the window as it is. */
  lemma TailStep<S, F>(rows: seq<Row>, i: nat, stamp: string -> Option<S>, num: string -> Option<F>,
                       out: seq<Point<S, F>>, n: nat)
    requires 1 <= i < |rows| && out == LastN(Kept(rows[1..i], stamp, num), n)
    ensures LastN(Kept(rows[1..i + 1], stamp, num), n)
            == if Accept(rows[i], stamp, num).Some? then Push(out, Accept(rows[i], stamp, num).value, n) else out
  {
    KeptStep(rows, i, stamp, num);
    if Accept(rows[i], stamp, num).Some? {
      PushLastN(Kept(rows[1..i], stamp, num), Accept(rows[i], stamp, num).value, n);
    } else {
      assert Kept(rows[1..i + 1], stamp, num) == Kept(rows[1..i], stamp, num);
    }
  }

  /** A bounded deque kept by `Push` holds the last `n` elements appended to it. */
  lemma PushLastN<T>(s: seq<T>, x: T, n: nat)
    ensures Push(LastN(s, n), x, n) == LastN(s + [x], n)
  {
    var t := s + [x];
    if n > 0 && |s| >= n {
      assert LastN(s, n)[1..] + [x] == t[|t| - n..];
    }
  }

  /** The records of two stretches of a log are kept independently. */
  lemma {:induction false} KeptAppend<S, F>(a: seq<Row>, b: seq<Row>, stamp: string -> Option<S>, num: string -> Option<F>)
    ensures Kept(a + b, stamp, num) == Kept(a, stamp, num) + Kept(b, stamp, num)
    decreases |b|
  {
    if b == [] {
      assert a + b == a;
    } else {
      var init := b[..|b| - 1];
      KeptAppend(a, init, stamp, num);
      assert (a + b)[..|a + b| - 1] == a + init;
    }
  }

  /** Every kept point comes from a record of at least five fields that parses to it. */
  lemma {:induction false} KeptSound<S, F>(rows: seq<Row>, stamp: string -> Option<S>, num: string -> Option<F>, k: nat)
    requires k < |Kept(rows, stamp, num)|
    ensures exists i :: 0 <= i < |rows| && |rows[i]| >= 5 && Accept(rows[i], stamp, num) == Some(Kept(rows, stamp, num)[k])
    decreases |rows|
  {
    var init, row := rows[..|rows| - 1], rows[|rows| - 1];
    if k < |Kept(init, stamp, num)| {
      KeptSound(init, stamp, num, k);
      var i :| 0 <= i < |init| && |init[i]| >= 5 && Accept(init[i], stamp, num) == Some(Kept(init, stamp, num)[k]);
      assert rows[i] == init[i];
    } else {
      assert Accept(rows[|rows| - 1], stamp, num) == Some(Kept(rows, stamp, num)[k]);
    }
  }

  /** When every record parses, every record becomes a point. */
  lemma {:induction false} KeptAll<S, F>(rows: seq<Row>, stamp: string -> Option<S>, num: string -> Option<F>)
    requires forall i :: 0 <= i < |rows| ==> Accept(rows[i], stamp, num).Some?
    ensures |Kept(rows, stamp, num)| == |rows|
    decreases |rows|
  {
    if rows != [] {
      var init := rows[..|rows| - 1];
      assert forall i :: 0 <= i < |init| ==> init[i] == rows[i];
      KeptAll(init, stamp, num);
    }
  }

  /**
   * The chart never holds more than `max_rows` points; it holds the newest
   * ones, and when every record parses it holds `min(max_rows, records)`.
   * Whatever the first row is, it never contributes a point.
   */
  lemma TailShape<S, F>(header: Row, records: seq<Row>, stamp: string -> Option<S>, num: string -> Option<F>, n: nat)
    ensures var out := LastN(Kept(Records([header] + records), stamp, num), n);
            var all := Kept(records, stamp, num);
            && |out| <= n
            && out == all[|all| - |out|..]
            && ((forall i :: 0 <= i < |records| ==> Accept(records[i], stamp, num).Some?) ==>
                  |out| == if |records| <= n then |records| else n)
  {
    assert Records([header] + records) == records;
    if forall i :: 0 <= i < |records| ==> Accept(records[i], stamp, num).Some? {
      KeptAll(records, stamp, num);
    }
  }

  // ---------------------------------------------------------------------
  // `read_last`
  // ---------------------------------------------------------------------

  /**
   * What opening and reading a log gives: no file, or a file of `size`
   * bytes whose reader delivered `rows`, either to the end (`complete`) or
   * up to an error.
   */
  datatype LogFile = Missing | Present(size: nat, rows: seq<Row>, complete: bool)

  /** The dict `read_last` returns: the timestamp text and the four numeric columns. */
  datatype Latest<F> = Latest(stamp: string, temp: F, hum: F, mv: F, battery: F)

  /** The last non-empty record, if any. */
  function LastNonEmpty(rows: seq<Row>): (r: Option<Row>)
    ensures r.Some? ==> r.value != [] && r.value in rows
  {
    if rows == [] then None
    else if rows[|rows| - 1] != [] then Some(rows[|rows| - 1])
    else LastNonEmpty(rows[..|rows| - 1])
  }

  /** The fields of the last record read as a `Latest`; short records and unparsable numbers give none. */
  function LatestFields<F>(last: Row, num: string -> Option<F>): (r: Option<Latest<F>>)
    requires last != []
    ensures r.Some? <==> |last| >= 5 && num(last[1]).Some? && num(last[2]).Some? && num(last[3]).Some? && num(last[4]).Some?
    ensures r.Some? ==> r.value == Latest(last[0], num(last[1]).value, num(last[2]).value, num(last[3]).value, num(last[4]).value)
  {
    if |last| < 5 then None
    else if num(last[1]).None? || num(last[2]).None? || num(last[3]).None? || num(last[4]).None? then None
    else Some(Latest(last[0], num(last[1]).value, num(last[2]).value, num(last[3]).value, num(last[4]).value))
  }

  /** What `read_last` returns for a log. */
  function LatestOf<F>(file: LogFile, num: string -> Option<F>): (r: Option<Latest<F>>)
    ensures r.Some? ==> file.Present? && file.size > 0 && file.complete && r.value.stamp != "timestamp_iso"
  {
    match file
    case Missing => None
    case Present(size, rows, complete) =>
      if size == 0 || !complete then None
      else
        match LastNonEmpty(rows)
        case None => None
        case Some(last) => if last[0] == "timestamp_iso" then None else LatestFields(last, num)
  }

  /** `read_last(path)`: the newest record of the log, if it is a data record that parses. */
  method ReadLast<F>(file: LogFile, num: string -> Option<F>) returns (r: Option<Latest<F>>)
    ensures r == LatestOf(file, num)
  {
    if file.Missing? || file.size == 0 {
      return None;
    }
    var rows := file.rows;
    var last: Option<Row> := None;
    for i := 0 to |rows|
      invariant last == LastNonEmpty(rows[..i])
    {
      assert rows[..i + 1][..i] == rows[..i];
      if rows[i] != [] {
        last := Some(rows[i]);
      }
    }
    assert rows[..|rows|] == rows;
    if !file.complete {
      return None;
    }
    if last.None? || last.value[0] == "timestamp_iso" {
      return None;
    }
    r := LatestFields(last.value, num);
  }

  /** `LastNonEmpty` finds the non-empty record after which every record is empty, and none only when all are. */
  lemma {:induction false} LastNonEmptySpec(rows: seq<Row>)
    ensures LastNonEmpty(rows).None? <==> forall i :: 0 <= i < |rows| ==> rows[i] == []
    ensures LastNonEmpty(rows).Some? ==>
              exists i :: 0 <= i < |rows| && rows[i] == LastNonEmpty(rows).value
                          && forall j :: i < j < |rows| ==> rows[j] == []
    decreases |rows|
  {
    if rows != [] && rows[|rows| - 1] == [] {
      var init := rows[..|rows| - 1];
      LastNonEmptySpec(init);
      assert forall i :: 0 <= i < |init| ==> init[i] == rows[i];
      if LastNonEmpty(init).Some? {
        var i :| 0 <= i < |init| && init[i] == LastNonEmpty(init).value && forall j :: i < j < |init| ==> init[j] == [];
        assert forall j :: i < j < |rows| ==> rows[j] == [];
      }
    }
  }

  /** A log holding only its header, with or without blank lines after it, has no latest reading. */
  lemma HeaderOnlyHasNoLatest<F>(size: nat, blanks: nat, num: string -> Option<F>)
    ensures LatestOf(Present(size, [LogFormat.HEADER_FIELDS] + seq(blanks, _ => []), true), num) == None
  {
    var rows: seq<Row> := [LogFormat.HEADER_FIELDS] + seq(blanks, _ => []);
    LastNonEmptySpec(rows);
    if LastNonEmpty(rows).Some? {
      var i :| 0 <= i < |rows| && rows[i] == LastNonEmpty(rows).value && forall j :: i < j < |rows| ==> rows[j] == [];
      assert i == 0;
    }
  }

  /**
   * After the collector appends a record, the panel shows it: the latest
   * reading is that record's timestamp and columns, whatever came before.
   */
  lemma CollectorRowIsLatest<F>(size: nat, before: seq<Row>, stamp: string, rd: Payload.Reading, num: string -> Option<F>)
    requires size > 0 && stamp != "timestamp_iso"
    requires var fs := LogFormat.RowFields(stamp, rd);
             num(fs[1]).Some? && num(fs[2]).Some? && num(fs[3]).Some? && num(fs[4]).Some?
    ensures var fs := LogFormat.RowFields(stamp, rd);
            LatestOf(Present(size, before + [fs], true), num)
              == Some(Latest(stamp, num(fs[1]).value, num(fs[2]).value, num(fs[3]).value, num(fs[4]).value))
  {
  }

  // ---------------------------------------------------------------------
  // `_set_xaxis_formatter`
  // ---------------------------------------------------------------------

  /** The three tick formats; `Pattern` is the `strftime` pattern handed to `DateFormatter`. */
  datatype TickFormat = DateOnly | DateHour | TimeOnly {
    function Pattern(): string
    {
      match this
      case DateOnly => "%Y-%m-%d"
      case DateHour => "%m-%d %H:%M"
      case TimeOnly => "%H:%M:%S"
    }
  }

  function Min(xs: seq<int>): (m: int)
    requires xs != []
    ensures m in xs && forall x :: x in xs ==> m <= x
  {
    if |xs| == 1 then xs[0]
    else
      var rest := Min(xs[1..]);
      assert forall x :: x in xs ==> x == xs[0] || x in xs[1..];
      if xs[0] <= rest then xs[0] else rest
  }

  function Max(xs: seq<int>): (m: int)
    requires xs != []
    ensures m in xs && forall x :: x in xs ==> x <= m
  {
    if |xs| == 1 then xs[0]
    else
      var rest := Max(xs[1..]);
      assert forall x :: x in xs ==> x == xs[0] || x in xs[1..];
      if xs[0] >= rest then xs[0] else rest
  }

  /** The time the points cover, in seconds: newest minus oldest. */
  function Span(xs: seq<int>): int
    requires xs != []
  {
    Max(xs) - Min(xs)
  }

  /** The format for a span: strictly more than five days, strictly more than one day, or less. */
  function FormatFor(span: int): TickFormat
  {
    if span > FIVE_DAYS then DateOnly
    else if span > ONE_DAY then DateHour
    else TimeOnly
  }

  /** `_set_xaxis_formatter(xs)` over timestamps in seconds: no change for no points. */
  function XAxisFormat(xs: seq<int>): (f: Option<TickFormat>)
    ensures f.None? <==> xs == []
    ensures f == Some(DateOnly) <==> xs != [] && Span(xs) > 432000
    ensures f == Some(DateHour) <==> xs != [] && 86400 < Span(xs) <= 432000
    ensures f == Some(TimeOnly) <==> xs != [] && Span(xs) <= 86400
  {
    if xs == [] then None else Some(FormatFor(Span(xs)))
  }

  predicate Sorted(s: seq<int>)
  {
    forall i, j :: 0 <= i <= j < |s| ==> s[i] <= s[j]
  }

  /** `sorted(xs)[-1] - sorted(xs)[0]` is the span, whichever sorted arrangement is meant. */
  lemma SortedSpan(xs: seq<int>, s: seq<int>)
    requires xs != [] && multiset(s) == multiset(xs) && Sorted(s)
    ensures s != [] && s[|s| - 1] - s[0] == Span(xs)
  {
    assert |s| == |multiset(s)| == |xs|;
    SameElements(xs, s);
    assert s[0] in s && s[|s| - 1] in s;
    assert Min(xs) in s && Max(xs) in s;
    var a :| 0 <= a < |s| && s[a] == Min(xs);
    var b :| 0 <= b < |s| && s[b] == Max(xs);
    assert s[0] <= s[a] && s[b] <= s[|s| - 1];
  }

  lemma SameElements(xs: seq<int>, ys: seq<int>)
    requires multiset(xs) == multiset(ys)
    ensures forall x :: x in xs <==> x in ys
  {
    forall x ensures x in xs <==> x in ys {
      assert x in xs <==> x in multiset(xs);
      assert x in ys <==> x in multiset(ys);
    }
  }

  /** The format depends only on which timestamps there are, not on their order. */
  lemma FormatIgnoresOrder(xs: seq<int>, ys: seq<int>)
    requires multiset(xs) == multiset(ys)
    ensures XAxisFormat(xs) == XAxisFormat(ys)
  {
    SameElements(xs, ys);
    if xs != [] {
      assert xs[0] in xs;
      var mx, my := Min(xs), Min(ys);
      assert mx in ys && my in xs;
      var Mx, My := Max(xs), Max(ys);
      assert Mx in ys && My in xs;
    }
  }

  /** A longer span never gives a finer format. */
  lemma FormatMonotone(a: int, b: int)
    requires a <= b
    ensures FormatFor(b) == DateOnly || FormatFor(a) != DateOnly
    ensures FormatFor(a) == TimeOnly || FormatFor(b) != TimeOnly
  {
  }
}
