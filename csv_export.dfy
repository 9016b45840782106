/** Writing one export (`save_to_csv`, main.py:69-82): the file name built
    from the timestamp and the username, and the rows handed to the CSV
    writer. The clock and the file system are not modelled: the timestamp
    string and the outcome of the write are inputs. */
module CsvExport {
  import opened Results
  import opened Text

  const OutputDir := "media"
  const Header := "Following Usernames"
  const SaveErrorPrefix := "Error saving to CSV: "

  /** A local date and time as `datetime.now()` reports it. */
  datatype Clock = Clock(year: int, month: int, day: int, hour: int, minute: int, second: int)

  /** The clocks whose `%Y` is four digits wide, with the field ranges a
      `datetime` guarantees. */
  predicate ValidClock(c: Clock) {
    && 1000 <= c.year <= 9999
    && 1 <= c.month <= 12 && 1 <= c.day <= 31
    && 0 <= c.hour < 24 && 0 <= c.minute < 60 && 0 <= c.second < 60
  }

  /** The shape of `strftime("%m%d%Y-%H%M%S")`: eight digits, a dash, six
      digits. */
  predicate IsTimestamp(ts: string) {
    |ts| == 15 && AllDigits(ts[..8]) && ts[8] == '-' && AllDigits(ts[9..])
  }

  /** A zero-padded two-digit field. */
  function Pad2(n: nat): (r: string)
    requires n < 100
    ensures |r| == 2 && AllDigits(r) && Number(r) == n
  {
    var hi, lo := DigitChar(n / 10), DigitChar(n % 10);
    NumberSnoc([], hi);
    assert [] + [hi] == [hi];
    NumberSnoc([hi], lo);
    [hi] + [lo]
  }

  /** A four-digit field: the two high digits, then the two low ones. */
  function Pad4(n: nat): (r: string)
    requires 1000 <= n < 10000
    ensures |r| == 4 && AllDigits(r) && Number(r) == n
  {
    var high, low := Pad2(n / 100), Pad2(n % 100);
    NumberSnoc(high, low[0]);
    assert high + low == (high + [low[0]]) + [low[1]];
    NumberSnoc(high + [low[0]], low[1]);
    assert low == [low[0]] + [low[1]];
    NumberSnoc([], low[0]);
    assert [] + [low[0]] == [low[0]];
    NumberSnoc([low[0]], low[1]);
    high + low
  }

  /** Three two-character fields side by side. */
  function Fields(x: string, y: string, z: string): (r: string)
    requires |x| == 2 && |y| == 2 && |z| == 2
    ensures |r| == 6 && r[0..2] == x && r[2..4] == y && r[4..6] == z
  {
    x + y + z
  }

  /** Reads a `%m%d%Y-%H%M%S` timestamp back into a clock. */
  function ParseTimestamp(ts: string): Clock
    requires IsTimestamp(ts)
  {
    assert AllDigits(ts[..8][0..2]) && AllDigits(ts[..8][2..4]) && AllDigits(ts[..8][4..8]);
    assert AllDigits(ts[9..][0..2]) && AllDigits(ts[9..][2..4]) && AllDigits(ts[9..][4..6]);
    Clock(Number(ts[..8][4..8]), Number(ts[..8][0..2]), Number(ts[..8][2..4]),
      Number(ts[9..][0..2]), Number(ts[9..][2..4]), Number(ts[9..][4..6]))
  }

  /** `strftime("%m%d%Y-%H%M%S")`: a well-formed timestamp from which the
      clock reads back. */
  function Timestamp(c: Clock): (ts: string)
    requires ValidClock(c)
    ensures IsTimestamp(ts) && ParseTimestamp(ts) == c
  {
    var month, day, year := Pad2(c.month), Pad2(c.day), Pad4(c.year);
    var date := month + day + year;
    assert date[0..2] == month && date[2..4] == day && date[4..8] == year;
    var time := Fields(Pad2(c.hour), Pad2(c.minute), Pad2(c.second));
    var ts := date + "-" + time;
    assert ts[..8] == date && ts[9..] == time;
    ts
  }

  /** `f"media/{timestamp}-{username}.csv"`. */
  function FileName(timestamp: string, username: string): string {
    OutputDir + "/" + timestamp + "-" + username + ".csv"
  }

  /** Reads the timestamp and the username back out of an export path. */
  function ParseFileName(name: string): Option<(string, string)> {
    if && |name| >= 26
       && name[..6] == OutputDir + "/"
       && name[|name| - 4..] == ".csv"
       && IsTimestamp(name[6..21])
       && name[21] == '-'
    then Some((name[6..21], name[22..|name| - 4]))
    else None
  }

  /** An export path names its timestamp and its user unambiguously. */
  lemma FileNameRoundTrip(timestamp: string, username: string)
    requires IsTimestamp(timestamp)
    ensures ParseFileName(FileName(timestamp, username)) == Some((timestamp, username))
  {
    var name := FileName(timestamp, username);
    assert name == "media/" + timestamp + "-" + username + ".csv";
    assert name[..6] == "media/";
    assert name[6..21] == timestamp;
    assert name[21] == '-';
    assert name[22..|name| - 4] == username;
    assert name[|name| - 4..] == ".csv";
  }

  /** Two exports get the same path only for the same user in the same
      second. */
  lemma FileNameInjective(t1: string, u1: string, t2: string, u2: string)
    requires IsTimestamp(t1) && IsTimestamp(t2)
    ensures FileName(t1, u1) == FileName(t2, u2) <==> t1 == t2 && u1 == u2
  {
    FileNameRoundTrip(t1, u1);
    FileNameRoundTrip(t2, u2);
  }

  /** One single-cell row per handle, in order. */
  function HandleRows(followings: seq<string>): (rows: seq<seq<string>>)
    ensures |rows| == |followings|
    ensures forall i :: 0 <= i < |followings| ==> rows[i] == [followings[i]]
  {
    if followings == [] then [] else [[followings[0]]] + HandleRows(followings[1..])
  }

  /** The rows `save_to_csv` writes: the header row, then the handles in
      order, one per row. */
  function CsvRows(followings: seq<string>): (rows: seq<seq<string>>)
    ensures |rows| == |followings| + 1
    ensures rows[0] == [Header]
    ensures forall i :: 0 <= i < |followings| ==> rows[i + 1] == [followings[i]]
  {
    [[Header]] + HandleRows(followings)
  }

  /** The export of two handles, written out. */
  lemma TwoRowExport(x: string, y: string)
    ensures CsvRows([x, y]) == [[Header], [x], [y]]
  {
    var rows := CsvRows([x, y]);
    assert rows[1] == [x] && rows[2] == [y];
  }

  /** Reading an export back: a header row, then one handle per row. */
  function ReadBack(rows: seq<seq<string>>): Option<seq<string>> {
    if |rows| >= 1 && rows[0] == [Header] && forall i :: 1 <= i < |rows| ==> |rows[i]| == 1
    then Some(seq(|rows| - 1, i requires 0 <= i < |rows| - 1 => rows[i + 1][0]))
    else None
  }

  /** Reading an export back gives the list that was saved, in order. */
  lemma ReadBackRoundTrip(followings: seq<string>)
    ensures ReadBack(CsvRows(followings)) == Some(followings)
  {
    var rows := CsvRows(followings);
    assert forall i :: 1 <= i < |rows| ==> rows[i] == [followings[i - 1]];
    var back := seq(|rows| - 1, i requires 0 <= i < |rows| - 1 => rows[i + 1][0]);
    assert back == followings;
  }

  /** The only rows that read back as a list are the export of that list. */
  lemma ReadBackOnlyExports(rows: seq<seq<string>>, followings: seq<string>)
    requires ReadBack(rows) == Some(followings)
    ensures rows == CsvRows(followings)
  {
    var body := rows[1..];
    assert |body| == |followings|;
    forall i | 0 <= i < |body| ensures body[i] == [followings[i]] {
      assert followings[i] == rows[i + 1][0];
      assert |rows[i + 1]| == 1;
    }
    assert body == HandleRows(followings);
    assert rows == [rows[0]] + body;
  }

  /** Whether opening and writing the file succeeded, or the exception
      raised on the way. */
  datatype IoOutcome = Written | WriteFailed(detail: string)

  /** The file one successful export creates. */
  datatype ExportRecord = ExportRecord(path: string, rows: seq<seq<string>>)

  /** The result of `save_to_csv`. */
  function SaveOutcome(username: string, followings: seq<string>, timestamp: string, io: IoOutcome): Result<ExportRecord> {
    match io
    case WriteFailed(detail) => Err(SaveErrorPrefix + detail)
    case Written => Ok(ExportRecord(FileName(timestamp, username), CsvRows(followings)))
  }

  /** `save_to_csv`: the header row, then the loop writing one row per
      handle. */
  method SaveToCsv(username: string, followings: seq<string>, timestamp: string, io: IoOutcome)
    returns (result: Result<ExportRecord>)
    ensures result == SaveOutcome(username, followings, timestamp, io)
  {
    var filename := OutputDir + "/" + timestamp + "-" + username + ".csv";
    var rows := [[Header]];
    for i := 0 to |followings|
      invariant |rows| == i + 1 && rows[0] == [Header]
      invariant forall k :: 0 <= k < i ==> rows[k + 1] == [followings[k]]
    {
      rows := rows + [[followings[i]]];
    }
    match io
    case WriteFailed(detail) =>
      result := Err(SaveErrorPrefix + detail);
    case Written =>
      assert rows == CsvRows(followings);
      result := Ok(ExportRecord(filename, rows));
  }
}
