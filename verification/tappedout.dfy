/** `tappedout.DeckFromURL` with the network taken out: the URL check, the
    CSV export turned into header-keyed rows and then into the four boards,
    and the markdown export's "Commander" section turned into the set of
    commander names that marks mainboard entries. */
module Tappedout {
  import opened Wrappers
  import opened Strings
  import Decimal

  datatype Entry = Entry(
    quantity: int,
    cardName: string,
    printing: string,
    foil: bool,
    alter: bool,
    signed: bool,
    commander: bool
  )

  datatype Deck = Deck(
    mainboard: seq<Entry>,
    sideboard: seq<Entry>,
    maybeboard: seq<Entry>,
    acquireboard: seq<Entry>,
    commanders: seq<Entry>
  )

  const NoDeck: Deck := Deck([], [], [], [], [])

  /** The ways `DeckFromURL` fails; the rows that fail carry the row map the
      error message prints. */
  datatype DeckError =
    | UrlParseError
    | NotTappedout(host: string)
    | NotDeckUrl
    | FetchError
    | BadStatus(status: int)
    | CsvError
    | EmptyDeck
    | MissingHeader(header: string)
    | BadQuantity(row: map<string, string>)
    | BadBoard(row: map<string, string>)
    | ScanError

  const DeckPathPrefix: string := "/mtg-decks/"

  /** The host and path test of `DeckFromURL`. */
  function CheckDeckUrl(host: string, path: string): (r: Option<DeckError>)
    ensures r == None <==> (host == "tappedout.net" || host == "www.tappedout.net") && HasPrefix(path, DeckPathPrefix)
    ensures r == Some(NotDeckUrl) ==> host == "tappedout.net" || host == "www.tappedout.net"
  {
    if host != "tappedout.net" && host != "www.tappedout.net" then Some(NotTappedout(host))
    else if !HasPrefix(path, DeckPathPrefix) then Some(NotDeckUrl)
    else None
  }

  function CsvUrl(path: string): string {
    "http://tappedout.net" + path + "?fmt=csv"
  }

  function MarkdownUrl(path: string): string {
    "http://tappedout.net" + path + "?fmt=markdown"
  }

  /** Both exports are fetched over plain http from tappedout.net, for the
      same deck path, and differ only in the format parameter. */
  lemma ExportUrls(path: string)
    ensures HasPrefix(CsvUrl(path), "http://tappedout.net" + path)
    ensures HasPrefix(MarkdownUrl(path), "http://tappedout.net" + path)
    ensures CsvUrl(path) != MarkdownUrl(path)
  {
    var base := "http://tappedout.net" + path;
    assert CsvUrl(path) == base + "?fmt=csv";
    assert MarkdownUrl(path) == base + "?fmt=markdown";
    assert CsvUrl(path)[..|base|] == base;
    assert MarkdownUrl(path)[..|base|] == base;
    assert |CsvUrl(path)| != |MarkdownUrl(path)|;
  }

  /** What `csv.Reader.ReadAll` made of the body: the body could not be
      read, the text is not valid CSV, or the records. */
  datatype CsvInput = BodyReadError | CsvSyntaxError | Records(rows: seq<seq<string>>)

  /** `csv.Reader` requires every record to have as many fields as the first. */
  predicate Rectangular(rows: seq<seq<string>>) {
    forall i | 0 <= i < |rows| :: |rows[i]| == |rows[0]|
  }

  /** One row as a map from header to cell, filled left to right, so a
      repeated header keeps its last cell. */
  function RowMap(header: seq<string>, row: seq<string>): (m: map<string, string>)
    requires |row| <= |header|
    ensures m.Keys == set j | 0 <= j < |row| :: header[j]
    decreases |row|
  {
    if |row| == 0 then map[]
    else RowMap(header, row[..|row| - 1])[header[|row| - 1] := row[|row| - 1]]
  }

  /** A header that does not repeat later in the header row maps to its
      own column's cell. */
  lemma {:induction false} RowMapValue(header: seq<string>, row: seq<string>, j: nat)
    requires |row| <= |header| && j < |row|
    requires forall k | j < k < |row| :: header[k] != header[j]
    ensures RowMap(header, row)[header[j]] == row[j]
    decreases |row|
  {
    if j < |row| - 1 {
      var p := row[..|row| - 1];
      assert forall k | j < k < |p| :: header[k] != header[j];
      RowMapValue(header, p, j);
      assert p[j] == row[j];
    }
  }

  /** Column `j` is the last one headed `k`, and `k` maps to its cell. */
  predicate LastColumn(header: seq<string>, row: seq<string>, k: string, j: nat)
    requires |row| <= |header| && k in RowMap(header, row)
  {
    j < |row| && header[j] == k && RowMap(header, row)[k] == row[j]
    && forall j' | j < j' < |row| :: header[j'] != k
  }

  /** A header maps to the cell of the last column carrying it. */
  lemma {:induction false} RowMapLastColumn(header: seq<string>, row: seq<string>, k: string)
    requires |row| <= |header| && k in RowMap(header, row)
    ensures exists j | 0 <= j < |row| :: LastColumn(header, row, k, j)
    decreases |row|
  {
    var n := |row| - 1;
    if header[n] != k {
      var p := row[..n];
      RowMapLastColumn(header, p, k);
      var j :| 0 <= j < |p| && LastColumn(header, p, k, j);
      assert RowMap(header, row)[k] == row[j];
      assert LastColumn(header, row, k, j);
    } else {
      assert LastColumn(header, row, k, n);
    }
  }

  /** The header row maps every header to itself. */
  lemma HeaderRowIdentity(header: seq<string>)
    ensures forall k | k in RowMap(header, header) :: RowMap(header, header)[k] == k
  {
    forall k | k in RowMap(header, header)
      ensures RowMap(header, header)[k] == k
    {
      RowMapLastColumn(header, header, k);
      var j :| 0 <= j < |header| && LastColumn(header, header, k, j);
    }
  }

  /** `csvToMapSlice`: one map per record, keyed by the first record. */
  function CsvToMapSlice(input: CsvInput): (r: Result<seq<map<string, string>>, DeckError>)
    ensures r.Success? <==> input.Records? && Rectangular(input.rows)
    ensures r.Success? ==> |r.value| == |input.rows|
    ensures r.Success? && |r.value| > 0 ==> forall k | k in r.value[0] :: r.value[0][k] == k
    ensures r.Success? ==> forall i | 0 <= i < |r.value| ::
      r.value[i].Keys == set j | 0 <= j < |input.rows[0]| :: input.rows[0][j]
    ensures r.Success? ==> forall i | 0 <= i < |r.value| ::
      |input.rows[i]| <= |input.rows[0]| && r.value[i] == RowMap(input.rows[0], input.rows[i])
  {
    match input
    case BodyReadError => Failure(CsvError)
    case CsvSyntaxError => Failure(CsvError)
    case Records(rows) =>
      if !Rectangular(rows) then Failure(CsvError)
      else if |rows| == 0 then Success([])
      else
        HeaderRowIdentity(rows[0]);
        Success(seq(|rows|, i requires 0 <= i < |rows| => RowMap(rows[0], rows[i])))
  }

  /** Indexing a Go map: a missing key reads as the empty string. */
  function Get(m: map<string, string>, k: string): (v: string)
    ensures k !in m ==> v == ""
    ensures k in m ==> v == m[k]
  {
    if k in m then m[k] else ""
  }

  /** The headers the first row must carry, in the order they are checked
      (the export's own spelling of "Languange"). */
  const RequiredHeaders: seq<string> :=
    ["Board", "Qty", "Name", "Printing", "Foil", "Alter", "Signed", "Condition", "Languange"]

  /** The first required header that the header row does not map to itself. */
  function MissingHeaderIn(first: map<string, string>, headers: seq<string>): (r: Option<string>)
    ensures r == None <==> forall i | 0 <= i < |headers| :: Get(first, headers[i]) == headers[i]
    ensures r.Some? ==> exists i | 0 <= i < |headers| ::
      (headers[i] == r.value && Get(first, r.value) != r.value
       && forall i' | 0 <= i' < i :: Get(first, headers[i']) == headers[i'])
  {
    if |headers| == 0 then None
    else if Get(first, headers[0]) != headers[0] then Some(headers[0])
    else
      var r := MissingHeaderIn(first, headers[1..]);
      assert r.Some? ==> exists i | 1 <= i < |headers| ::
        (headers[i] == r.value && Get(first, r.value) != r.value
         && forall i' | 0 <= i' < i :: Get(first, headers[i']) == headers[i']) by {
        if r.Some? {
          var i :| 0 <= i < |headers[1..]| && headers[1..][i] == r.value
            && Get(first, r.value) != r.value
            && forall i' | 0 <= i' < i :: Get(first, headers[1..][i']) == headers[1..][i'];
          assert forall i' | 1 <= i' < i + 1 :: headers[i'] == headers[1..][i' - 1];
        }
      }
      r
  }

  /** A header row produced from the export's own header list passes the
      check, whatever order and extra columns it has. */
  lemma CompleteHeaderPasses(header: seq<string>)
    requires forall i | 0 <= i < |RequiredHeaders| :: RequiredHeaders[i] in header
    ensures MissingHeaderIn(RowMap(header, header), RequiredHeaders) == None
  {
    HeaderRowIdentity(header);
    forall i | 0 <= i < |RequiredHeaders|
      ensures Get(RowMap(header, header), RequiredHeaders[i]) == RequiredHeaders[i]
    {
      var j :| 0 <= j < |header| && header[j] == RequiredHeaders[i];
      assert RequiredHeaders[i] in RowMap(header, header);
    }
  }

  const Boards: set<string> := {"main", "side", "maybe", "acquire"}

  /** A data row that converts: its quantity parses and its board is known. */
  predicate RowOk(row: map<string, string>) {
    Decimal.Atoi(Get(row, "Qty")).Some? && Get(row, "Board") in Boards
  }

  /** The entry a data row becomes: flags are set by non-empty cells. */
  function EntryOf(row: map<string, string>): (e: Entry)
    requires Decimal.Atoi(Get(row, "Qty")).Some?
    ensures e.foil <==> Get(row, "Foil") != ""
    ensures e.alter <==> Get(row, "Alter") != ""
    ensures e.signed <==> Get(row, "Signed") != ""
    ensures e.cardName == Get(row, "Name") && e.printing == Get(row, "Printing")
    ensures Decimal.Atoi(Get(row, "Qty")) == Some(e.quantity) && !e.commander
  {
    Entry(Decimal.Atoi(Get(row, "Qty")).value, Get(row, "Name"), Get(row, "Printing"),
          Get(row, "Foil") != "", Get(row, "Alter") != "", Get(row, "Signed") != "", false)
  }

  /** The board a converted row lands on: one entry on its own board,
      nothing on the others. */
  function RowOn(row: map<string, string>, board: string): (r: seq<Entry>)
    ensures |r| <= 1
    ensures |r| == 1 <==> Decimal.Atoi(Get(row, "Qty")).Some? && Get(row, "Board") == board
  {
    if Decimal.Atoi(Get(row, "Qty")).Some? && Get(row, "Board") == board then [EntryOf(row)] else []
  }

  /** One iteration of the board loop; the quantity is checked before the
      board. */
  function AddRow(d: Deck, row: map<string, string>): (r: Result<Deck, DeckError>)
    ensures r.Success? <==> RowOk(row)
    ensures r.Success? ==> r.value == d.(
      mainboard := d.mainboard + RowOn(row, "main"),
      sideboard := d.sideboard + RowOn(row, "side"),
      maybeboard := d.maybeboard + RowOn(row, "maybe"),
      acquireboard := d.acquireboard + RowOn(row, "acquire"))
    ensures r.Failure? ==>
      r.error == (if Decimal.Atoi(Get(row, "Qty")).None? then BadQuantity(row) else BadBoard(row))
  {
    if Decimal.Atoi(Get(row, "Qty")).None? then Failure(BadQuantity(row))
    else
      var e := EntryOf(row);
      var board := Get(row, "Board");
      if board == "main" then Success(d.(mainboard := d.mainboard + [e]))
      else if board == "side" then Success(d.(sideboard := d.sideboard + [e]))
      else if board == "maybe" then Success(d.(maybeboard := d.maybeboard + [e]))
      else if board == "acquire" then Success(d.(acquireboard := d.acquireboard + [e]))
      else Failure(BadBoard(row))
  }

  /** The loop over the data rows: the first row that fails decides the
      error. */
  function BuildBoards(rows: seq<map<string, string>>): Result<Deck, DeckError>
    decreases |rows|
  {
    if |rows| == 0 then Success(NoDeck)
    else
      match BuildBoards(rows[..|rows| - 1])
      case Failure(err) => Failure(err)
      case Success(d) => AddRow(d, rows[|rows| - 1])
  }

  /** Reference definition of one board: the entries of the rows naming it,
      in row order. */
  function OnBoard(rows: seq<map<string, string>>, board: string): seq<Entry>
    decreases |rows|
  {
    if |rows| == 0 then []
    else OnBoard(rows[..|rows| - 1], board) + RowOn(rows[|rows| - 1], board)
  }

  /** The rows convert exactly when each of them does. */
  lemma {:induction false} BuildBoardsSucceeds(rows: seq<map<string, string>>)
    ensures BuildBoards(rows).Success? <==> forall i | 0 <= i < |rows| :: RowOk(rows[i])
    decreases |rows|
  {
    if |rows| > 0 {
      var p := rows[..|rows| - 1];
      BuildBoardsSucceeds(p);
      BuildBoardsStep(rows);
      AllRowsOkStep(rows, p, rows[|rows| - 1]);
    }
  }

  lemma BuildBoardsStep(rows: seq<map<string, string>>)
    requires |rows| > 0
    ensures BuildBoards(rows).Success? <==> BuildBoards(rows[..|rows| - 1]).Success? && RowOk(rows[|rows| - 1])
  {
  }

  lemma AllRowsOkStep(rows: seq<map<string, string>>, p: seq<map<string, string>>, x: map<string, string>)
    requires rows == p + [x]
    ensures (forall i | 0 <= i < |rows| :: RowOk(rows[i])) <==> (forall i | 0 <= i < |p| :: RowOk(p[i])) && RowOk(x)
  {
    assert forall i | 0 <= i < |p| :: p[i] == rows[i];
    assert rows[|p|] == x;
  }

  /** On success each board holds the entries of its rows, in row order, and
      no commander is known yet. */
  lemma {:induction false} BuildBoardsSpec(rows: seq<map<string, string>>)
    requires BuildBoards(rows).Success?
    ensures var d := BuildBoards(rows).value;
      && d.mainboard == OnBoard(rows, "main")
      && d.sideboard == OnBoard(rows, "side")
      && d.maybeboard == OnBoard(rows, "maybe")
      && d.acquireboard == OnBoard(rows, "acquire")
      && d.commanders == []
    decreases |rows|
  {
    if |rows| > 0 {
      BuildBoardsSpec(rows[..|rows| - 1]);
    }
  }

  /** The error a failing row is reported with. */
  function RowError(row: map<string, string>): DeckError {
    if Decimal.Atoi(Get(row, "Qty")).None? then BadQuantity(row) else BadBoard(row)
  }

  /** `rows[i]` is the first row that does not convert. */
  predicate FirstBadRow(rows: seq<map<string, string>>, i: nat) {
    i < |rows| && !RowOk(rows[i]) && forall i' | 0 <= i' < i :: RowOk(rows[i'])
  }

  lemma FirstBadRowExtend(rows: seq<map<string, string>>, i: nat)
    requires |rows| > 0 && FirstBadRow(rows[..|rows| - 1], i)
    ensures FirstBadRow(rows, i)
  {
    var p := rows[..|rows| - 1];
    assert forall i' | 0 <= i' <= i :: p[i'] == rows[i'];
  }

  lemma FirstBadRowLast(rows: seq<map<string, string>>, p: seq<map<string, string>>)
    requires |rows| > 0 && p == rows[..|rows| - 1] && !RowOk(rows[|rows| - 1])
    requires forall i | 0 <= i < |p| :: RowOk(p[i])
    ensures FirstBadRow(rows, |rows| - 1)
  {
    assert forall i | 0 <= i < |p| :: p[i] == rows[i];
  }

  lemma BuildBoardsErrorStep(rows: seq<map<string, string>>)
    requires |rows| > 0 && BuildBoards(rows[..|rows| - 1]).Success? && BuildBoards(rows).Failure?
    ensures BuildBoards(rows).error == RowError(rows[|rows| - 1])
  {
  }

  /** The error names the first row that fails, and says why. */
  lemma {:induction false} BuildBoardsFirstError(rows: seq<map<string, string>>)
    requires BuildBoards(rows).Failure?
    ensures exists i: nat :: FirstBadRow(rows, i) && BuildBoards(rows).error == RowError(rows[i])
    decreases |rows|
  {
    var p := rows[..|rows| - 1];
    if BuildBoards(p).Failure? {
      BuildBoardsFirstError(p);
      var i: nat :| FirstBadRow(p, i) && BuildBoards(p).error == RowError(p[i]);
      FirstBadRowExtend(rows, i);
      assert p[i] == rows[i];
    } else {
      BuildBoardsSucceeds(p);
      BuildBoardsStep(rows);
      BuildBoardsErrorStep(rows);
      FirstBadRowLast(rows, p);
    }
  }

  /** A converted row lands on exactly one of the four boards. */
  lemma RowOnOneBoard(row: map<string, string>)
    requires RowOk(row)
    ensures |RowOn(row, "main")| + |RowOn(row, "side")| + |RowOn(row, "maybe")| + |RowOn(row, "acquire")| == 1
  {
  }

  /** Every data row lands on exactly one board. */
  lemma {:induction false} OnBoardCounts(rows: seq<map<string, string>>)
    requires forall i | 0 <= i < |rows| :: RowOk(rows[i])
    ensures |OnBoard(rows, "main")| + |OnBoard(rows, "side")| + |OnBoard(rows, "maybe")| + |OnBoard(rows, "acquire")| == |rows|
    decreases |rows|
  {
    if |rows| > 0 {
      var p := rows[..|rows| - 1];
      AllRowsOkStep(rows, p, rows[|rows| - 1]);
      OnBoardCounts(p);
      RowOnOneBoard(rows[|rows| - 1]);
    }
  }

  /** `markdownRE.FindStringSubmatch`: the text between the first '[' and
      the first ']' after it, when there is such a ']'. */
  function FirstBracket(l: string): (r: Option<string>)
  {
    match IndexFrom(l, '[', 0)
    case None => None
    case Some(i) =>
      match IndexFrom(l, ']', i + 1)
      case None => None
      case Some(j) => Some(l[i + 1..j])
  }

  /** The first index at or after `from` holding `c`. */
  function IndexFrom(s: string, c: char, from: nat): (r: Option<nat>)
    ensures r.None? ==> forall k | from <= k < |s| :: s[k] != c
    ensures r.Some? ==> (from <= r.value < |s| && s[r.value] == c
      && forall k | from <= k < r.value :: s[k] != c)
    decreases |s| - from
  {
    if from >= |s| then None
    else if s[from] == c then Some(from)
    else IndexFrom(s, c, from + 1)
  }

  /** `l[i]` is the first '[' of the line and `l[j]` the first ']' after it. */
  predicate BracketAt(l: string, i: nat, j: nat) {
    && i < j < |l| && l[i] == '[' && l[j] == ']'
    && (forall k | 0 <= k < i :: l[k] != '[')
    && (forall k | i < k < j :: l[k] != ']')
  }

  /** The leftmost match of the bracket pattern: a match exists exactly
      when some '[' is followed by a ']', and its group is the text between
      the first '[' and the next ']'. */
  lemma FirstBracketSpec(l: string)
    ensures FirstBracket(l).None? <==> !exists i, j | 0 <= i < j < |l| :: l[i] == '[' && l[j] == ']'
    ensures FirstBracket(l).Some? ==> exists i: nat, j: nat | BracketAt(l, i, j) :: FirstBracket(l).value == l[i + 1..j]
  {
    match IndexFrom(l, '[', 0)
    case None =>
    case Some(i) =>
      match IndexFrom(l, ']', i + 1)
      case None =>
        forall i0, j0 | 0 <= i0 < j0 < |l| && l[i0] == '['
          ensures l[j0] != ']'
        {
          assert i <= i0;
        }
      case Some(j) =>
        assert BracketAt(l, i, j);
  }

  /** The bracket text a line contributes, if any. */
  function Bracket(l: string): (r: set<string>)
    ensures |r| <= 1
    ensures forall t | t in r :: FirstBracket(l) == Some(t)
    ensures FirstBracket(l).Some? ==> FirstBracket(l).value in r
  {
    match FirstBracket(l)
    case None => {}
    case Some(t) => {t}
  }

  predicate IsHeading(l: string) {
    HasPrefix(l, "#")
  }

  predicate IsCommanderHeading(l: string) {
    IsHeading(l) && Contains(l, "Commander")
  }

  /** Inside the section: every line's bracket text, up to and including
      the next heading. */
  function ScanSection(lines: seq<string>): set<string>
    decreases |lines|
  {
    if |lines| == 0 then {}
    else Bracket(lines[0]) + (if IsHeading(lines[0]) then {} else ScanSection(lines[1..]))
  }

  /** The scan of the markdown export: skip to the first commander heading,
      then collect its section. */
  function CommanderNames(lines: seq<string>): set<string>
    decreases |lines|
  {
    if |lines| == 0 then {}
    else if IsCommanderHeading(lines[0]) then ScanSection(lines[1..])
    else CommanderNames(lines[1..])
  }

  /** One line of the outer scan, for the rest `lines[i..]` of the text. */
  lemma CommanderNamesStep(lines: seq<string>, i: nat)
    requires i < |lines|
    ensures CommanderNames(lines[i..])
         == if IsCommanderHeading(lines[i]) then ScanSection(lines[i + 1..]) else CommanderNames(lines[i + 1..])
  {
    assert lines[i..][0] == lines[i];
    assert lines[i..][1..] == lines[i + 1..];
  }

  /** One line of the inner scan, for the rest `lines[i..]` of the text. */
  lemma ScanSectionStep(lines: seq<string>, i: nat)
    requires i < |lines|
    ensures ScanSection(lines[i..])
         == Bracket(lines[i]) + (if IsHeading(lines[i]) then {} else ScanSection(lines[i + 1..]))
  {
    assert lines[i..][0] == lines[i];
    assert lines[i..][1..] == lines[i + 1..];
  }

  /** How the inner loop's collected names advance by one line. */
  lemma ScanSectionAdvance(lines: seq<string>, i: nat, j: nat, names: set<string>)
    requires i <= j < |lines|
    requires ScanSection(lines[i..]) == names + ScanSection(lines[j..])
    ensures IsHeading(lines[j]) ==> ScanSection(lines[i..]) == names + Bracket(lines[j])
    ensures !IsHeading(lines[j]) ==> ScanSection(lines[i..]) == (names + Bracket(lines[j])) + ScanSection(lines[j + 1..])
  {
    ScanSectionStep(lines, j);
  }

  /** The inner scanner loop, from line `i` on: every line's bracket text
      is collected, and a heading line ends the loop (the `break outer`). */
  method ScanSectionFrom(lines: seq<string>, i: nat) returns (names: set<string>)
    requires i <= |lines|
    ensures names == ScanSection(lines[i..])
  {
    names := {};
    var j := i;
    while j < |lines|
      invariant i <= j <= |lines|
      invariant ScanSection(lines[i..]) == names + ScanSection(lines[j..])
    {
      var l := lines[j];
      ScanSectionAdvance(lines, i, j, names);
      names := names + Bracket(l);
      if IsHeading(l) {
        return;
      }
      j := j + 1;
    }
    assert lines[j..] == [];
  }

  /** The outer scanner loop: skip to the first commander heading, then
      collect its section; the scan ends either way after that section. */
  method ScanCommanders(lines: seq<string>) returns (names: set<string>)
    ensures names == CommanderNames(lines)
  {
    var i := 0;
    while i < |lines|
      invariant 0 <= i <= |lines|
      invariant CommanderNames(lines) == CommanderNames(lines[i..])
    {
      var l := lines[i];
      CommanderNamesStep(lines, i);
      i := i + 1;
      if IsCommanderHeading(l) {
        names := ScanSectionFrom(lines, i);
        return;
      }
    }
    assert lines[i..] == [];
    names := {};
  }

  /** Brackets of the lines of `ls`. */
  function BracketsIn(ls: seq<string>): set<string>
    decreases |ls|
  {
    if |ls| == 0 then {} else Bracket(ls[0]) + BracketsIn(ls[1..])
  }

  /** A text is among the brackets of `ls` exactly when it is the bracket
      text of one of its lines. */
  lemma {:induction false} BracketsInSpec(ls: seq<string>, t: string)
    ensures t in BracketsIn(ls) <==> exists k | 0 <= k < |ls| :: FirstBracket(ls[k]) == Some(t)
    decreases |ls|
  {
    if |ls| > 0 {
      BracketsInSpec(ls[1..], t);
      if exists k | 0 <= k < |ls| :: FirstBracket(ls[k]) == Some(t) {
        var k :| 0 <= k < |ls| && FirstBracket(ls[k]) == Some(t);
        if k > 0 {
          assert ls[1..][k - 1] == ls[k];
        }
      }
      if exists k | 0 <= k < |ls[1..]| :: FirstBracket(ls[1..][k]) == Some(t) {
        var k :| 0 <= k < |ls[1..]| && FirstBracket(ls[1..][k]) == Some(t);
        assert ls[k + 1] == ls[1..][k];
      }
    }
  }

  /** The section ends at its first heading, which still contributes; with
      no heading it runs to the end of the text. */
  lemma {:induction false} ScanSectionSpec(ls: seq<string>, e: nat)
    requires e <= |ls|
    requires forall k | 0 <= k < e :: !IsHeading(ls[k])
    requires e < |ls| ==> IsHeading(ls[e])
    ensures ScanSection(ls) == BracketsIn(ls[..if e < |ls| then e + 1 else e])
    decreases |ls|
  {
    var n := if e < |ls| then e + 1 else e;
    if |ls| > 0 {
      assert ls[..n][0] == ls[0];
      assert ls[..n][1..] == ls[1..n];
      if e == 0 {
        assert ls[1..n] == [];
      } else {
        ScanSectionSpec(ls[1..], e - 1);
        assert ls[1..][..n - 1] == ls[1..n];
      }
    }
  }

  /** Lines before the first commander heading, and everything after its
      section, do not matter. */
  lemma {:induction false} CommanderNamesSkip(lines: seq<string>, h: nat)
    requires h < |lines| && IsCommanderHeading(lines[h])
    requires forall k | 0 <= k < h :: !IsCommanderHeading(lines[k])
    ensures CommanderNames(lines) == ScanSection(lines[h + 1..])
    decreases h
  {
    if h > 0 {
      CommanderNamesSkip(lines[1..], h - 1);
      assert lines[1..][h..] == lines[h + 1..];
    }
  }

  /** Only the first commander section counts: appending text after it
      leaves the names unchanged. */
  lemma {:induction false} FirstSectionOnly(lines: seq<string>, more: seq<string>, h: nat, e: nat)
    requires h < e < |lines| && IsCommanderHeading(lines[h]) && IsHeading(lines[e])
    requires forall k | 0 <= k < h :: !IsCommanderHeading(lines[k])
    ensures CommanderNames(lines + more) == CommanderNames(lines)
    decreases e - h
  {
    CommanderNamesSkip(lines, h);
    CommanderNamesSkip(lines + more, h);
    SectionPrefix(lines[h + 1..], more, e - h - 1);
    assert (lines + more)[h + 1..] == lines[h + 1..] + more;
  }

  lemma {:induction false} SectionPrefix(ls: seq<string>, more: seq<string>, e: nat)
    requires e < |ls| && IsHeading(ls[e])
    ensures ScanSection(ls + more) == ScanSection(ls)
    decreases e
  {
    assert (ls + more)[0] == ls[0];
    if e > 0 && !IsHeading(ls[0]) {
      SectionPrefix(ls[1..], more, e - 1);
      assert (ls + more)[1..] == ls[1..] + more;
    }
  }

  /** A mainboard entry after marking. */
  function Mark(e: Entry, names: set<string>): Entry {
    if e.cardName in names then e.(commander := true) else e
  }

  /** The mainboard after marking. */
  function MarkAll(es: seq<Entry>, names: set<string>): (r: seq<Entry>)
    ensures |r| == |es| && forall i | 0 <= i < |es| :: r[i] == Mark(es[i], names)
  {
    seq(|es|, i requires 0 <= i < |es| => Mark(es[i], names))
  }

  /** The marked entries whose names are commanders, in board order. */
  function NamedIn(es: seq<Entry>, names: set<string>): (r: seq<Entry>)
    ensures forall i | 0 <= i < |r| :: r[i].cardName in names && r[i].commander
    decreases |es|
  {
    if |es| == 0 then []
    else
      var e := es[|es| - 1];
      NamedIn(es[..|es| - 1], names) + (if e.cardName in names then [e.(commander := true)] else [])
  }

  /** The last loop of `DeckFromURL`. */
  function MarkCommanders(d: Deck, names: set<string>): (r: Deck)
    ensures |r.mainboard| == |d.mainboard|
    ensures forall i | 0 <= i < |d.mainboard| ::
      r.mainboard[i].commander == (d.mainboard[i].commander || d.mainboard[i].cardName in names)
      && r.mainboard[i] == d.mainboard[i].(commander := r.mainboard[i].commander)
    ensures r.sideboard == d.sideboard && r.maybeboard == d.maybeboard && r.acquireboard == d.acquireboard
    ensures r.commanders == d.commanders + NamedIn(d.mainboard, names)
  {
    d.(mainboard := MarkAll(d.mainboard, names),
       commanders := d.commanders + NamedIn(d.mainboard, names))
  }

  /** Reference: the commander entries of a board, in order. */
  function CommandersOf(es: seq<Entry>): (r: seq<Entry>)
    ensures forall i | 0 <= i < |r| :: r[i].commander
    decreases |es|
  {
    if |es| == 0 then []
    else CommandersOf(es[..|es| - 1]) + (if es[|es| - 1].commander then [es[|es| - 1]] else [])
  }

  /** On a board where nothing is marked yet, the entries collected as
      commanders are exactly the marked ones, in order. */
  lemma {:induction false} NamedInIsMarked(es: seq<Entry>, names: set<string>)
    requires forall i | 0 <= i < |es| :: !es[i].commander
    ensures NamedIn(es, names) == CommandersOf(MarkAll(es, names))
    decreases |es|
  {
    if |es| > 0 {
      var p := es[..|es| - 1];
      NamedInIsMarked(p, names);
      assert MarkAll(es, names)[..|p|] == MarkAll(p, names);
    }
  }

  /** What one GET of an export produced, already received: a transport
      failure, or a status and a body. */
  datatype Fetch<T> = FetchFailed | Fetched(status: int, body: T)

  /** The network, as the responses a GET of each URL gets; a URL with no
      response fails in transport. */
  function FetchPage<T>(pages: map<string, Fetch<T>>, url: string): (r: Fetch<T>)
    ensures url !in pages ==> r == FetchFailed
    ensures url in pages ==> r == pages[url]
  {
    if url in pages then pages[url] else FetchFailed
  }

  /** The markdown body as the scanner's lines, and whether `Scanner.Err`
      reports an error once the scan is over. */
  datatype Markdown = Markdown(lines: seq<string>, scanFailed: bool)

  /** The outcome of `url.Parse`. */
  datatype ParsedUrl = Unparsable | Url(host: string, path: string)


  /** The deck built from the CSV rows: the empty-deck and header checks,
      then the board loop. */
  function DeckFromRows(rows: seq<map<string, string>>): (r: Result<Deck, DeckError>)
    ensures |rows| < 2 ==> r == Failure(EmptyDeck)
    ensures |rows| >= 2 && MissingHeaderIn(rows[0], RequiredHeaders).Some? ==>
      r == Failure(MissingHeader(MissingHeaderIn(rows[0], RequiredHeaders).value))
    ensures |rows| >= 2 && MissingHeaderIn(rows[0], RequiredHeaders) == None ==> r == BuildBoards(rows[1..])
    ensures (&& |rows| >= 2 && MissingHeaderIn(rows[0], RequiredHeaders) == None
             && (forall i | 1 <= i < |rows| :: RowOk(rows[i]))) ==> r.Success?
    ensures r.Success? ==> MissingHeaderIn(rows[0], RequiredHeaders) == None
    ensures r.Success? ==> forall i | 1 <= i < |rows| :: RowOk(rows[i])
  {
    if |rows| < 2 then Failure(EmptyDeck)
    else match MissingHeaderIn(rows[0], RequiredHeaders)
      case Some(h) => Failure(MissingHeader(h))
      case None =>
        DataRowsConvert(rows);
        BuildBoards(rows[1..])
  }

  /** The board loop over the data rows succeeds exactly when every data
      row converts. */
  lemma DataRowsConvert(rows: seq<map<string, string>>)
    requires |rows| >= 1
    ensures BuildBoards(rows[1..]).Success? <==> forall i | 1 <= i < |rows| :: RowOk(rows[i])
  {
    BuildBoardsSucceeds(rows[1..]);
    assert forall i | 1 <= i < |rows| :: rows[i] == rows[1..][i - 1];
  }

  /** `DeckFromURL`, given what `url.Parse` produced and the network: the
      responses to GETs of CSV exports (`csvPages`) and of markdown exports
      (`markdownPages`), by requested URL. */
  function DeckFromUrl(url: ParsedUrl, csvPages: map<string, Fetch<CsvInput>>, markdownPages: map<string, Fetch<Markdown>>)
    : (r: Result<Deck, DeckError>)
    ensures url.Unparsable? ==> r == Failure(UrlParseError)
    ensures url.Url? && CheckDeckUrl(url.host, url.path).Some? ==> r == Failure(CheckDeckUrl(url.host, url.path).value)
    ensures r.Success? ==> url.Url? && CheckDeckUrl(url.host, url.path) == None
    ensures r.Success? ==>
      var csv := FetchPage(csvPages, CsvUrl(url.path));
      var md := FetchPage(markdownPages, MarkdownUrl(url.path));
      csv.Fetched? && csv.status <= 299 && md.Fetched? && md.status <= 299 && !md.body.scanFailed
  {
    match url
    case Unparsable => Failure(UrlParseError)
    case Url(host, path) =>
      match CheckDeckUrl(host, path)
      case Some(err) => Failure(err)
      case None =>
        match DeckFromCsvExport(FetchPage(csvPages, CsvUrl(path)))
        case Failure(err) => Failure(err)
        case Success(deck) => MarkFromMarkdownExport(deck, FetchPage(markdownPages, MarkdownUrl(path)))
  }

  /** The first half of `DeckFromURL`: the CSV export's status check,
      `csvToMapSlice` and the deck built from its rows. */
  function DeckFromCsvExport(csv: Fetch<CsvInput>): (r: Result<Deck, DeckError>)
    ensures r.Success? <==>
      && csv.Fetched? && csv.status <= 299
      && CsvToMapSlice(csv.body).Success? && DeckFromRows(CsvToMapSlice(csv.body).value).Success?
    ensures r.Success? ==> r == DeckFromRows(CsvToMapSlice(csv.body).value)
  {
    match csv
    case FetchFailed => Failure(FetchError)
    case Fetched(status, body) =>
      if status > 299 then Failure(BadStatus(status))
      else match CsvToMapSlice(body)
        case Failure(err) => Failure(err)
        case Success(rows) => DeckFromRows(rows)
  }

  /** The second half of `DeckFromURL`: the markdown export's status check,
      the commander scan and the marking. */
  function MarkFromMarkdownExport(deck: Deck, md: Fetch<Markdown>): (r: Result<Deck, DeckError>)
    ensures r.Success? <==> md.Fetched? && md.status <= 299 && !md.body.scanFailed
    ensures r.Success? ==> r.value == MarkCommanders(deck, CommanderNames(md.body.lines))
  {
    match md
    case FetchFailed => Failure(FetchError)
    case Fetched(status, text) =>
      if status > 299 then Failure(BadStatus(status))
      else if text.scanFailed then Failure(ScanError)
      else Success(MarkCommanders(deck, CommanderNames(text.lines)))
  }

  /** The converse: a deck URL whose CSV export answers with a status of at
      most 299 and a readable, well-formed deck, and whose markdown export
      answers with a status of at most 299 and scans cleanly, imports as
      that deck marked by the commander section. */
  lemma DeckFromUrlSucceeds(host: string, path: string, csvPages: map<string, Fetch<CsvInput>>, markdownPages: map<string, Fetch<Markdown>>)
    requires CheckDeckUrl(host, path) == None
    requires FetchPage(csvPages, CsvUrl(path)).Fetched? && FetchPage(csvPages, CsvUrl(path)).status <= 299
    requires CsvToMapSlice(FetchPage(csvPages, CsvUrl(path)).body).Success?
    requires DeckFromRows(CsvToMapSlice(FetchPage(csvPages, CsvUrl(path)).body).value).Success?
    requires FetchPage(markdownPages, MarkdownUrl(path)).Fetched? && FetchPage(markdownPages, MarkdownUrl(path)).status <= 299
    requires !FetchPage(markdownPages, MarkdownUrl(path)).body.scanFailed
    ensures DeckFromUrl(Url(host, path), csvPages, markdownPages)
         == Success(MarkCommanders(DeckFromRows(CsvToMapSlice(FetchPage(csvPages, CsvUrl(path)).body).value).value,
                                   CommanderNames(FetchPage(markdownPages, MarkdownUrl(path)).body.lines)))
  {
  }

  /** A deck whose boards are fresh from the CSV: no entry marked yet and
      no commander list. */
  predicate Unmarked(d: Deck) {
    && d.commanders == []
    && (forall i | 0 <= i < |d.mainboard| :: !d.mainboard[i].commander)
    && (forall i | 0 <= i < |d.sideboard| :: !d.sideboard[i].commander)
    && (forall i | 0 <= i < |d.maybeboard| :: !d.maybeboard[i].commander)
    && (forall i | 0 <= i < |d.acquireboard| :: !d.acquireboard[i].commander)
  }

  /** What the commander section does to a fresh deck: the mainboard
      entries it names are marked and listed, in order, and nothing else. */
  lemma MarkFreshDeck(d: Deck, names: set<string>)
    requires Unmarked(d)
    ensures var r := MarkCommanders(d, names);
      && r.commanders == CommandersOf(r.mainboard)
      && (forall i | 0 <= i < |r.mainboard| :: r.mainboard[i].commander <==> r.mainboard[i].cardName in names)
      && (forall i | 0 <= i < |r.sideboard| :: !r.sideboard[i].commander)
      && (forall i | 0 <= i < |r.maybeboard| :: !r.maybeboard[i].commander)
      && (forall i | 0 <= i < |r.acquireboard| :: !r.acquireboard[i].commander)
  {
    NamedInIsMarked(d.mainboard, names);
    var r := MarkCommanders(d, names);
    assert r.commanders == NamedIn(d.mainboard, names) by {
      assert [] + NamedIn(d.mainboard, names) == NamedIn(d.mainboard, names);
    }
  }

  /** The deck the CSV rows build is fresh and holds one entry per data row. */
  lemma BoardsFromRows(rows: seq<map<string, string>>)
    requires DeckFromRows(rows).Success?
    ensures Unmarked(DeckFromRows(rows).value)
    ensures var d := DeckFromRows(rows).value;
      |d.mainboard| + |d.sideboard| + |d.maybeboard| + |d.acquireboard| + 1 == |rows|
  {
    var data := rows[1..];
    assert DeckFromRows(rows) == BuildBoards(data);
    BuildBoardsSucceeds(data);
    BuildBoardsSpec(data);
    OnBoardCounts(data);
    NoMarkOnBoard(data, "main");
    NoMarkOnBoard(data, "side");
    NoMarkOnBoard(data, "maybe");
    NoMarkOnBoard(data, "acquire");
  }

  /** A successful import is the fresh deck of the CSV export, marked by the
      commander section of the markdown export. */
  lemma DeckFromUrlParts(url: ParsedUrl, csvPages: map<string, Fetch<CsvInput>>, markdownPages: map<string, Fetch<Markdown>>)
    ensures DeckFromUrl(url, csvPages, markdownPages).Success? ==>
      && url.Url? && FetchPage(csvPages, CsvUrl(url.path)).Fetched? && FetchPage(markdownPages, MarkdownUrl(url.path)).Fetched?
      && CsvToMapSlice(FetchPage(csvPages, CsvUrl(url.path)).body).Success?
      && DeckFromRows(CsvToMapSlice(FetchPage(csvPages, CsvUrl(url.path)).body).value).Success?
      && DeckFromUrl(url, csvPages, markdownPages).value
         == MarkCommanders(DeckFromRows(CsvToMapSlice(FetchPage(csvPages, CsvUrl(url.path)).body).value).value,
                           CommanderNames(FetchPage(markdownPages, MarkdownUrl(url.path)).body.lines))
  {
  }

  /** A successful import: every data row is on exactly one board, the
      commanders are exactly the marked mainboard entries, in order, and are
      the mainboard entries named in the commander section; no other board
      has a marked entry. */
  lemma DeckFromUrlSpec(url: ParsedUrl, csvPages: map<string, Fetch<CsvInput>>, markdownPages: map<string, Fetch<Markdown>>)
    ensures DeckFromUrl(url, csvPages, markdownPages).Success? ==>
      url.Url? &&
      var d := DeckFromUrl(url, csvPages, markdownPages).value;
      var csv := FetchPage(csvPages, CsvUrl(url.path)).body;
      var md := FetchPage(markdownPages, MarkdownUrl(url.path)).body;
      && csv.Records?
      && |d.mainboard| + |d.sideboard| + |d.maybeboard| + |d.acquireboard| + 1 == |csv.rows|
      && d.commanders == CommandersOf(d.mainboard)
      && (forall i | 0 <= i < |d.mainboard| :: d.mainboard[i].commander <==> d.mainboard[i].cardName in CommanderNames(md.lines))
      && (forall i | 0 <= i < |d.sideboard| :: !d.sideboard[i].commander)
      && (forall i | 0 <= i < |d.maybeboard| :: !d.maybeboard[i].commander)
      && (forall i | 0 <= i < |d.acquireboard| :: !d.acquireboard[i].commander)
  {
    if DeckFromUrl(url, csvPages, markdownPages).Success? {
      DeckFromUrlParts(url, csvPages, markdownPages);
      var rows := CsvToMapSlice(FetchPage(csvPages, CsvUrl(url.path)).body).value;
      BoardsFromRows(rows);
      MarkFreshDeck(DeckFromRows(rows).value, CommanderNames(FetchPage(markdownPages, MarkdownUrl(url.path)).body.lines));
    }
  }

  /** Converted entries start unmarked. */
  lemma {:induction false} NoMarkOnBoard(rows: seq<map<string, string>>, board: string)
    ensures forall i | 0 <= i < |OnBoard(rows, board)| :: !OnBoard(rows, board)[i].commander
    decreases |rows|
  {
    if |rows| > 0 {
      NoMarkOnBoard(rows[..|rows| - 1], board);
    }
  }
}
