/**
 * What the collector writes: the per-device log path and the CSV records of
 * a log file. Records are rendered the way Python's `csv.writer` does with
 * its default dialect (comma delimiter, double-quote quote character,
 * minimal quoting); each record is followed by "\r\n", which the model
 * leaves implicit by representing a log as its sequence of records.
 */
module LogFormat {
  import opened Common
  import opened Payload
  import opened Address

  const LOG_DIR: string := "logs"

  /** The column names written as the first record of a new log. */
  const HEADER_FIELDS: seq<string> := ["timestamp_iso", "temperature_c", "humidity_pct", "voltage_mv", "battery_pct"]

  // ---------------------------------------------------------------------
  // CSV records
  // ---------------------------------------------------------------------

  /** The characters that make `csv.writer` quote a field: delimiter, quote character, line terminator. */
  predicate Special(c: char)
  {
    c == ',' || c == '"' || c == '\r' || c == '\n'
  }

  predicate PlainField(f: string)
  {
    forall i :: 0 <= i < |f| ==> !Special(f[i])
  }

  /** Inside a quoted field a quote character is doubled. */
  function Escape(f: string): (e: string)
    ensures |e| >= |f|
  {
    if f == [] then [] else (if f[0] == '"' then "\"\"" else [f[0]]) + Escape(f[1..])
  }

  /** How `csv.reader` reads the inside of a quoted field: a doubled quote is one quote. */
  function Unescape(e: string): string
  {
    if e == [] then []
    else if |e| >= 2 && e[0] == '"' && e[1] == '"' then "\"" + Unescape(e[2..])
    else [e[0]] + Unescape(e[1..])
  }

  /** Reading back the inside of a quoted field gives the field that was written. */
  lemma {:induction false} UnescapeEscape(f: string)
    ensures Unescape(Escape(f)) == f
  {
    if f != [] {
      var head := if f[0] == '"' then "\"\"" else [f[0]];
      var rest := Escape(f[1..]);
      assert Escape(f) == head + rest;
      UnescapeEscape(f[1..]);
      assert (head + rest)[|head|..] == rest;
      assert f == [f[0]] + f[1..];
    }
  }

  /** One field as written: verbatim if it is plain, quoted otherwise. */
  function CsvField(f: string): (w: string)
    ensures PlainField(f) ==> w == f
    ensures !PlainField(f) ==> |w| >= 2 && w[0] == '"' && w[|w| - 1] == '"'
  {
    if PlainField(f) then f else "\"" + Escape(f) + "\""
  }

  function CsvFields(fields: seq<string>): (ws: seq<string>)
    ensures |ws| == |fields|
    ensures forall k :: 0 <= k < |fields| ==> ws[k] == CsvField(fields[k])
  {
    if fields == [] then [] else [CsvField(fields[0])] + CsvFields(fields[1..])
  }

  /** `writer.writerow(fields)` without its terminator; a lone empty field is written as `""`. */
  function CsvRecord(fields: seq<string>): string
  {
    if fields == [""] then "\"\"" else Join(CsvFields(fields), ',')
  }

  /** A record of plain fields is cut back into its fields at the commas. */
  lemma PlainRecordSplits(fields: seq<string>)
    requires |fields| >= 2
    requires forall k :: 0 <= k < |fields| ==> PlainField(fields[k])
    ensures CsvFields(fields) == fields
    ensures Split(CsvRecord(fields), ',') == fields
  {
    assert CsvFields(fields) == fields;
    SplitJoin(fields, ',');
  }

  // ---------------------------------------------------------------------
  // The temperature column: f"{t_c:.2f}" with t_c = centi / 100.0
  // ---------------------------------------------------------------------

  /**
   * `f"{centi / 100.0:.2f}"`. The double nearest `centi / 100` lies within
   * far less than half a hundredth of it, so rounding to two decimals gives
   * back the exact quotient: whole degrees, a point, two digits.
   */
  function FormatCenti(centi: nat): (s: string)
    ensures |s| >= 4 && s[|s| - 3] == '.'
  {
    NatToString(centi / 100) + "." + [DigitChar(centi % 100 / 10), DigitChar(centi % 10)]
  }

  /** Reading a two-decimal numeral back into hundredths. */
  function ParseCenti(s: string): (r: Option<nat>)
  {
    if |s| >= 4 && s[|s| - 3] == '.' && IsDigit(s[|s| - 2]) && IsDigit(s[|s| - 1]) then
      var whole := ParseNat(s[..|s| - 3]);
      if whole.Some? then Some(whole.value * 100 + DigitValue(s[|s| - 2]) * 10 + DigitValue(s[|s| - 1]))
      else None
    else None
  }

  /** The temperature column loses nothing: it reads back as the centi-degrees it was written from. */
  lemma ParseFormatCenti(centi: nat)
    ensures ParseCenti(FormatCenti(centi)) == Some(centi)
  {
    var s := FormatCenti(centi);
    var whole := NatToString(centi / 100);
    assert s[..|s| - 3] == whole;
    ParseNatToString(centi / 100);
    assert DigitValue(s[|s| - 2]) == centi % 100 / 10;
    assert DigitValue(s[|s| - 1]) == centi % 10;
  }

  lemma FormatCentiPlain(centi: nat)
    ensures PlainField(FormatCenti(centi))
    ensures IsDigit(FormatCenti(centi)[0])
  {
  }

  lemma NatToStringPlain(n: nat)
    ensures PlainField(NatToString(n))
  {
  }

  // ---------------------------------------------------------------------
  // Log records
  // ---------------------------------------------------------------------

  /** `[now_iso, f"{t_c:.2f}", str(int(rh)), str(mv), str(pct)]` */
  function RowFields(stamp: string, r: Reading): (fs: seq<string>)
    ensures |fs| == |HEADER_FIELDS|
  {
    [stamp, FormatCenti(r.tempCenti), NatToString(r.humidity), NatToString(r.millivolts), NatToString(r.battery)]
  }

  /** The record appended for one decoded notification. */
  function RowLine(stamp: string, r: Reading): string
  {
    CsvRecord(RowFields(stamp, r))
  }

  function HeaderLine(): string
  {
    CsvRecord(HEADER_FIELDS)
  }

  lemma RowFieldsPlain(stamp: string, r: Reading)
    requires PlainField(stamp)
    ensures forall k :: 0 <= k < |RowFields(stamp, r)| ==> PlainField(RowFields(stamp, r)[k])
  {
    FormatCentiPlain(r.tempCenti);
    NatToStringPlain(r.humidity);
    NatToStringPlain(r.millivolts);
    NatToStringPlain(r.battery);
  }

  /**
   * A record of a reading with an ISO timestamp (no comma, quote or line
   * break in it) has the five columns of the header, and each numeric column
   * reads back as the value it was written from.
   */
  lemma RowRoundTrip(stamp: string, r: Reading)
    requires PlainField(stamp)
    ensures var fs := Split(RowLine(stamp, r), ',');
            && fs == RowFields(stamp, r)
            && |fs| == |HEADER_FIELDS|
            && fs[0] == stamp
            && ParseCenti(fs[1]) == Some(r.tempCenti)
            && ParseNat(fs[2]) == Some(r.humidity)
            && ParseNat(fs[3]) == Some(r.millivolts)
            && ParseNat(fs[4]) == Some(r.battery)
  {
    RowFieldsPlain(stamp, r);
    PlainRecordSplits(RowFields(stamp, r));
    ParseFormatCenti(r.tempCenti);
    ParseNatToString(r.humidity);
    ParseNatToString(r.millivolts);
    ParseNatToString(r.battery);
  }

  /** The header splits into its column names. */
  lemma HeaderSplits()
    ensures Split(HeaderLine(), ',') == HEADER_FIELDS
  {
    HeaderPlain();
    PlainRecordSplits(HEADER_FIELDS);
  }

  lemma HeaderPlain()
    ensures forall k :: 0 <= k < |HEADER_FIELDS| ==> PlainField(HEADER_FIELDS[k])
  {
    assert PlainField("timestamp_iso");
    assert PlainField("temperature_c");
    assert PlainField("humidity_pct");
    assert PlainField("voltage_mv");
    assert PlainField("battery_pct");
  }

  /** No data record can be mistaken for the header: their temperature columns differ. */
  lemma RowIsNotHeader(stamp: string, r: Reading)
    requires PlainField(stamp)
    ensures RowLine(stamp, r) != HeaderLine()
  {
    RowRoundTrip(stamp, r);
    HeaderSplits();
    FormatCentiPlain(r.tempCenti);
    assert HEADER_FIELDS[1][0] == 't';
  }

  // ---------------------------------------------------------------------
  // `_friendly_csv_path_for_addr`
  // ---------------------------------------------------------------------

  /** `os.path.join(a, b)` on POSIX: an absolute `b` replaces `a`, otherwise one separator joins them. */
  function PathJoin(a: string, b: string): (p: string)
    ensures StartsWith(b, "/") ==> p == b
    ensures !StartsWith(b, "/") && a != "" && a[|a| - 1] != '/' ==> p == a + "/" + b
    ensures !StartsWith(b, "/") && (a == "" || a[|a| - 1] == '/') ==> p == a + b
  {
    if StartsWith(b, "/") then b
    else if a == "" || a[|a| - 1] == '/' then a + b
    else a + "/" + b
  }

  /** The display name of a normalised address: its friendly name if it has one, else the address itself. */
  function DisplayName(addr: string): string
  {
    if addr in DISPLAY_NAMES then DISPLAY_NAMES[addr] else addr
  }

  /** The log file's name without `.csv`: the display name with spaces turned into underscores. */
  function LogStem(addr: string): (stem: string)
    ensures |stem| == |DisplayName(addr)|
    ensures forall i :: 0 <= i < |stem| ==> stem[i] == (if DisplayName(addr)[i] == ' ' then '_' else DisplayName(addr)[i])
  {
    Replace(DisplayName(addr), ' ', '_')
  }

  /** `_friendly_csv_path_for_addr(addr)` */
  function CsvPath(addr: string): string
  {
    PathJoin(LOG_DIR, LogStem(addr) + ".csv")
  }

  /** Every log path names a `.csv` file, in the log directory unless the stem is an absolute path. */
  lemma CsvPathShape(addr: string)
    ensures var p := CsvPath(addr);
            |p| >= 4 && p[|p| - 4..] == ".csv"
    ensures !StartsWith(LogStem(addr), "/") ==> CsvPath(addr) == LOG_DIR + "/" + LogStem(addr) + ".csv"
  {
    var b := LogStem(addr) + ".csv";
    if !StartsWith(b, "/") {
      var p := LOG_DIR + "/" + b;
      assert p[|p| - 4..] == b[|b| - 4..];
    }
    if !StartsWith(LogStem(addr), "/") {
      assert !StartsWith(b, "/") by {
        if LogStem(addr) == [] {
          assert b[0] == '.';
        } else {
          assert b[0] == LogStem(addr)[0];
        }
      }
    }
  }

  lemma StemOf(addr: string, name: string, stem: string)
    requires addr in DISPLAY_NAMES && DISPLAY_NAMES[addr] == name
    requires |stem| == |name| && forall i :: 0 <= i < |name| ==> stem[i] == if name[i] == ' ' then '_' else name[i]
    ensures LogStem(addr) == stem
  {
  }

  lemma PathOf(addr: string, stem: string)
    requires LogStem(addr) == stem && |stem| > 0 && stem[0] != '/'
    ensures CsvPath(addr) == "logs/" + stem + ".csv"
  {
    CsvPathShape(addr);
  }

  /** The inside thermometer logs to the first file the viewer looks for. */
  lemma InsideLogPath()
    ensures LogStem("A4:C1:38:B9:74:3C") == "Lab_inside"
    ensures CsvPath("A4:C1:38:B9:74:3C") == "logs/" + "Lab_inside" + ".csv"
  {
    StemOf("A4:C1:38:B9:74:3C", "Lab inside", "Lab_inside");
    PathOf("A4:C1:38:B9:74:3C", "Lab_inside");
  }

  /** The outside thermometer logs to the second file the viewer looks for. */
  lemma OutsideLogPath()
    ensures LogStem("A4:C1:38:DD:AC:A7") == "Lab_outside"
    ensures CsvPath("A4:C1:38:DD:AC:A7") == "logs/" + "Lab_outside" + ".csv"
  {
    StemOf("A4:C1:38:DD:AC:A7", "Lab outside", "Lab_outside");
    PathOf("A4:C1:38:DD:AC:A7", "Lab_outside");
  }
}
