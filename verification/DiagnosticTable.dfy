/**
 The diagnostics table (xtask/src/explain_registry.rs): the four-column rows of a Markdown region become
 the entries of a registry, sorted by rule id. The region between the registry markers is the input.
 */
module DiagnosticTable {
  import opened Wrappers
  import opened Ordering
  import opened Text

  datatype Entry = Entry(ruleId: string, severity: string, section: Option<string>, summary: string)

  predicate IsIdChar(c: char) { IsLower(c) || IsDigit(c) || c == '-' }

  predicate IsSegment(s: string) { s != "" && forall c | c in s :: IsIdChar(c) }

  predicate IsRuleId(s: string) {
    var segments := Split(s, '/');
    |segments| == 2 && IsSegment(segments[0]) && IsSegment(segments[1])
  }

  predicate IsSeverity(s: string) { s == "error" || s == "warning" || s == "info" }

  predicate IsSeverityCell(cell: string) {
    Trim(cell) != "" && forall token | token in Split(cell, '/') :: IsSeverity(Trim(token))
  }

  function TrimAll(parts: seq<string>): seq<string> {
    if parts == [] then [] else [Trim(parts[0])] + TrimAll(parts[1..])
  }

  predicate IsDash(s: string) { s == "" || s == "—" || s == "-" }

  function ParseSection(cell: string): Option<string> {
    if IsDash(Trim(cell)) then None else Some(Trim(cell))
  }

  /** What a pair of backticks holds. */
  function Unquote(s: string): Option<string> {
    if |s| >= 2 && s[0] == '`' && s[|s| - 1] == '`' then Some(s[1..|s| - 1]) else None
  }

  /** The cells of a row; a closing pipe is no cell. */
  function Cells(row: string): seq<string> {
    var cells := Split(row, '|')[1..];
    if cells != [] && Trim(cells[|cells| - 1]) == "" then cells[..|cells| - 1] else cells
  }

  /** A line's entry, nothing for a line that is no diagnostics row, or a malformed row. */
  function ParseLine(line: string): Result<Option<Entry>> {
    if !StartsWith(Trim(line), "|") then Ok(None) else ParseCells(Cells(Trim(line)))
  }

  function ParseCells(cells: seq<string>): Result<Option<Entry>> {
    if |cells| < 4 then Ok(None)
    else
      var id := Unquote(Trim(cells[0]));
      if id.None? || !IsRuleId(id.value) then Ok(None)
      else
        var severity, summary := Trim(cells[1]), Trim(Join(cells[3..], "|"));
        if !IsSeverityCell(severity) || summary == "" then Err
        else Ok(Some(Entry(id.value, Join(TrimAll(Split(severity, '/')), ", "), ParseSection(Trim(cells[2])), summary)))
  }

  /** The entries of all lines, or the failure of one. */
  function Collect(lines: seq<string>): Result<seq<Entry>> {
    if lines == [] then Ok([])
    else
      var first := ParseLine(lines[0]);
      if first.Err? then Err else AddEntries(if first.value.Some? then [first.value.value] else [], Collect(lines[1..]))
  }

  function AddEntries(entries: seq<Entry>, rest: Result<seq<Entry>>): Result<seq<Entry>> {
    if rest.Err? then Err else Ok(entries + rest.value)
  }

  predicate ById(a: Entry, b: Entry) { LexLeq(a.ruleId, b.ruleId) }

  predicate NoNeighbours(s: seq<Entry>) { forall i | 0 < i < |s| :: s[i - 1].ruleId != s[i].ruleId }

  /** Splitting at newlines; a line's end is trimmed away and an empty line is no row. */
  function Entries(region: string): Result<seq<Entry>> {
    var entries := Collect(Split(region, '\n'));
    if entries.Err? || entries.value == [] || !NoNeighbours(Sort(ById, entries.value)) then Err
    else Ok(Sort(ById, entries.value))
  }

  lemma AddEntriesJoin(entries: seq<Entry>, more: seq<Entry>, rest: Result<seq<Entry>>)
    ensures AddEntries(entries, AddEntries(more, rest)) == AddEntries(entries + more, rest)
    ensures AddEntries([], rest) == rest && AddEntries(entries, Err) == Err
        && AddEntries(entries, Ok([])) == Ok(entries)
  {
    assert entries + [] == entries;
    if rest.Ok? {
      assert entries + (more + rest.value) == (entries + more) + rest.value && [] + rest.value == rest.value;
    }
  }

  lemma CollectStep(lines: seq<string>, i: nat)
    requires i < |lines|
    ensures Collect(lines[i..])
         == if ParseLine(lines[i]).Err? then Err
            else AddEntries(if ParseLine(lines[i]).value.Some? then [ParseLine(lines[i]).value.value] else [],
                            Collect(lines[i + 1..]))
  {
    assert lines[i..][0] == lines[i] && lines[i..][1..] == lines[i + 1..];
  }

  method ParseRow(line: string) returns (r: Result<Option<Entry>>)
    ensures r == ParseLine(line)
  {
    hide Split, Join, TrimAll, Trim, IsRuleId, IsSeverityCell, ParseSection;
    var trimmed := Trim(line);
    if !StartsWith(trimmed, "|") { return Ok(None); }
    var cells := Split(trimmed, '|');
    cells := cells[1..];
    if cells != [] && Trim(cells[|cells| - 1]) == "" { cells := cells[..|cells| - 1]; }
    if |cells| < 4 { return Ok(None); }
    var id := Unquote(Trim(cells[0]));
    if id.None? || !IsRuleId(id.value) { return Ok(None); }
    var severityCell := Trim(cells[1]);
    if !IsSeverityCell(severityCell) { return Err; }
    var severity := Join(TrimAll(Split(severityCell, '/')), ", ");
    var summary := Trim(Join(cells[3..], "|"));
    if summary == "" { return Err; }
    return Ok(Some(Entry(id.value, severity, ParseSection(Trim(cells[2])), summary)));
  }

  method ParseEntries(region: string) returns (r: Result<seq<Entry>>)
    ensures r == Entries(region)
  {
    hide ParseLine, Split, Collect, AddEntries, Sort;
    var lines, entries := Split(region, '\n'), [];
    assert lines[0..] == lines;
    AddEntriesJoin([], [], Collect(lines));
    for i := 0 to |lines|
      invariant Collect(lines) == AddEntries(entries, Collect(lines[i..]))
    {
      CollectStep(lines, i);
      var entry := ParseRow(lines[i]);
      AddEntriesJoin(entries, if entry.Ok? && entry.value.Some? then [entry.value.value] else [],
                     Collect(lines[i + 1..]));
      if entry.Err? { return Err; }
      if entry.value.Some? { entries := entries + [entry.value.value]; }
      assert entries + [] == entries;
    }
    NoLines(lines[|lines|..]);
    AddEntriesJoin(entries, [], Ok([]));
    if entries == [] { return Err; }
    entries := Sort(ById, entries);
    for i := 1 to |entries|
      invariant forall k | 0 < k < i :: entries[k - 1].ruleId != entries[k].ruleId
    {
      if entries[i - 1].ruleId == entries[i].ruleId { return Err; }
    }
    return Ok(entries);
  }

  lemma NoLines(lines: seq<string>)
    requires lines == []
    ensures Collect(lines) == Ok([])
  {}

  // ---------- sorted, and no id twice ----------

  function IdOf(e: Entry): string { e.ruleId }

  lemma ByIdIsPreorder()
    ensures TotalPreorder(ById)
  {
    LexIsTotalOrder();
    forall x, y ensures ById(x, y) || ById(y, x) { LexTotal(x.ruleId, y.ruleId); }
    forall x, y, z | ById(x, y) && ById(y, z) ensures ById(x, z) { LexTransitive(x.ruleId, y.ruleId, z.ruleId); }
  }

  /** In sorted entries a repeated id shows between neighbours. */
  lemma NeighboursDecide(s: seq<Entry>)
    requires SortedBy(ById, s)
    ensures NoNeighbours(s) <==> DistinctBy(IdOf, s)
  {
    if NoNeighbours(s) {
      forall i, j | 0 <= i < j < |s| ensures IdOf(s[i]) != IdOf(s[j]) {
        if s[i].ruleId == s[j].ruleId && i + 1 < j {
          assert ById(s[i], s[i + 1]) && ById(s[i + 1], s[j]);
          LexAntisymmetric(s[i].ruleId, s[i + 1].ruleId);
        }
        assert s[i + 1 - 1].ruleId != s[i + 1].ruleId;
      }
    }
    if DistinctBy(IdOf, s) {
      forall i | 0 < i < |s| ensures s[i - 1].ruleId != s[i].ruleId { assert IdOf(s[i - 1]) != IdOf(s[i]); }
    }
  }

  lemma DistinctInAnyOrder(a: seq<Entry>, b: seq<Entry>)
    requires multiset(a) == multiset(b) && DistinctBy(IdOf, a)
    ensures DistinctBy(IdOf, b)
  {
    forall i, j | 0 <= i < j < |b| ensures IdOf(b[i]) != IdOf(b[j]) {
      var x, y := b[i], b[j];
      SameElements(a, b, x);
      SameElements(a, b, y);
      assert x in b && y in b;
      if x == y {
        assert b == b[..j] + b[j..] && b[..j][i] == x && b[j..][0] == x;
        assert multiset(b) == multiset(b[..j]) + multiset(b[j..]);
        assert x in multiset(b[..j]) && x in multiset(b[j..]);
        assert multiset(a)[x] >= 2;
        NoRepeatsCount(a) by {
          forall p, q | 0 <= p < q < |a| ensures a[p] != a[q] { assert IdOf(a[p]) != IdOf(a[q]); }
        }
      } else {
        var p :| 0 <= p < |a| && a[p] == x;
        var q :| 0 <= q < |a| && a[q] == y;
        assert if p < q then IdOf(a[p]) != IdOf(a[q]) else IdOf(a[q]) != IdOf(a[p]);
      }
    }
  }

  /**
   A region is accepted exactly when no row is malformed, there is a row, and no id comes twice; the
   registry then holds the rows' entries in the order of their ids.
   */
  lemma AcceptedExactly(region: string)
    ensures var entries := Collect(Split(region, '\n'));
      && (Entries(region).Ok? <==> entries.Ok? && entries.value != [] && DistinctBy(IdOf, entries.value))
      && (Entries(region).Ok? ==>
            && multiset(Entries(region).value) == multiset(entries.value)
            && SortedBy(ById, Entries(region).value) && DistinctBy(IdOf, Entries(region).value))
  {
    hide Split, Collect, DistinctBy;
    ByIdIsPreorder();
    var entries := Collect(Split(region, '\n'));
    if entries.Ok? {
      var sorted := Sort(ById, entries.value);
      SortSorts(ById, entries.value);
      NeighboursDecide(sorted);
      if DistinctBy(IdOf, sorted) { DistinctInAnyOrder(sorted, entries.value); }
      if DistinctBy(IdOf, entries.value) { DistinctInAnyOrder(entries.value, sorted); }
    }
  }

  /** Entries with distinct ids have one order by id. */
  lemma {:induction false} OrderIsUnique(a: seq<Entry>, b: seq<Entry>)
    requires SortedBy(ById, a) && SortedBy(ById, b) && DistinctBy(IdOf, a)
    requires multiset(a) == multiset(b)
    ensures a == b
  {
    assert |a| == |multiset(a)| == |multiset(b)| == |b|;
    if a != [] {
      FirstsAgree(a, b);
      TailBag(a);
      TailBag(b);
      OrderIsUnique(a[1..], b[1..]) by {
        forall i, j | 0 <= i < j < |a[1..]| ensures IdOf(a[1..][i]) != IdOf(a[1..][j]) {
          assert IdOf(a[i + 1]) != IdOf(a[j + 1]);
        }
      }
      assert a == [a[0]] + a[1..] && b == [b[0]] + b[1..];
    }
  }

  lemma FirstsAgree(a: seq<Entry>, b: seq<Entry>)
    requires SortedBy(ById, a) && SortedBy(ById, b) && DistinctBy(IdOf, a)
    requires multiset(a) == multiset(b) && a != [] && b != []
    ensures a[0] == b[0]
  {
    SameElements(a, b, a[0]);
    SameElements(a, b, b[0]);
    var p :| 0 <= p < |a| && a[p] == b[0];
    var q :| 0 <= q < |b| && b[q] == a[0];
    if p > 0 {
      assert ById(a[0], a[p]) && IdOf(a[0]) != IdOf(a[p]);
      if q > 0 {
        assert ById(b[0], b[q]);
        LexAntisymmetric(a[0].ruleId, b[0].ruleId);
      }
    }
  }

  // ---------- printed tables ----------

  /** A row as it is written: severities before they are joined, and what stands for no section. */
  datatype Row = Row(ruleId: string, severities: seq<string>, section: Option<string>, dash: string, condition: string)

  predicate PlainCell(s: string) { Trimmed(s) && s != "" && '|' !in s && '\n' !in s }

  predicate ValidRow(row: Row) {
    && IsRuleId(row.ruleId)
    && row.severities != [] && (forall s | s in row.severities :: IsSeverity(s))
    && (if row.section.Some? then PlainCell(row.section.value) && !IsDash(row.section.value) else IsDash(row.dash))
    && Trimmed(row.condition) && row.condition != "" && '\n' !in row.condition
  }

  function SectionText(row: Row): string { if row.section.Some? then row.section.value else row.dash }

  function Padded(s: string): string { " " + s + " " }

  /** `| id | severity | section | condition |`; the condition may hold pipes of its own. */
  function RowText(row: Row): string {
    "|" + Padded("`" + row.ruleId + "`") + "|" + Padded(Join(row.severities, "/")) + "|"
    + Padded(SectionText(row)) + "|" + Padded(row.condition) + "|"
  }

  function EntryOf(row: Row): Entry {
    Entry(row.ruleId, Join(row.severities, ", "), row.section, row.condition)
  }

  lemma PaddedTrims(s: string)
    requires Trimmed(s)
    ensures Trim(Padded(s)) == s
  {
    TrimPadded(" ", s, " ");
  }

  /** Five cells between six pipes, the last one free to hold more. */
  lemma SplitRow(a: string, b: string, c: string, d: string)
    requires '|' !in a && '|' !in b && '|' !in c
    ensures Split("|" + a + "|" + b + "|" + c + "|" + d + "|", '|') == [""] + [a] + [b] + [c] + Split(d, '|') + [""]
  {
    hide Split;
    SplitWhole(a, '|');
    SplitWhole(b, '|');
    SplitWhole(c, '|');
    SplitWhole("", '|');
    SplitAt("", '|', a);
    SplitAt("" + "|" + a, '|', b);
    SplitAt("" + "|" + a + "|" + b, '|', c);
    SplitAt("" + "|" + a + "|" + b + "|" + c, '|', d);
    SplitAt("" + "|" + a + "|" + b + "|" + c + "|" + d, '|', "");
    assert "" + "|" + a == "|" + a;
    assert "|" + a + "|" + b + "|" + c + "|" + d + "|" + "" == "|" + a + "|" + b + "|" + c + "|" + d + "|";
  }

  lemma CellsOfRow(row: string, a: string, b: string, c: string, d: string)
    requires Split(row, '|') == [""] + [a] + [b] + [c] + Split(d, '|') + [""]
    ensures Cells(row) == [a, b, c] + Split(d, '|')
  {
    hide Split;
    var split, cells := Split(row, '|'), [a, b, c] + Split(d, '|');
    assert split[1..] == cells + [""];
    assert Trim("") == "";
    assert (cells + [""])[..|cells|] == cells;
  }

  lemma IdHasNoPipe(id: string)
    requires IsRuleId(id)
    ensures forall c | c in id :: IsIdChar(c) || c == '/'
  {
    var segments := Split(id, '/');
    JoinSplit(id, '/');
    hide Split;
    assert segments == [segments[0]] + [segments[1]];
    JoinTwo(segments[0], segments[1]);
  }

  lemma JoinTwo(a: string, b: string)
    ensures Join([a] + [b], "/") == a + "/" + b
  {
    assert ([a] + [b])[1..] == [b];
  }

  lemma SeverityChars(s: string)
    requires IsSeverity(s)
    ensures s != "" && Trimmed(s) && (forall c | c in s :: IsLower(c)) && Trim(s) == s
  {
    assert "" + s + "" == s;
    TrimPadded("", s, "");
  }

  lemma {:induction false} JoinedSeverities(words: seq<string>, glue: string)
    requires words != [] && forall w | w in words :: IsSeverity(w)
    ensures Join(words, glue) != "" && IsLower(Join(words, glue)[0])
        && IsLower(Join(words, glue)[|Join(words, glue)| - 1])
    ensures forall c | c in Join(words, glue) :: IsLower(c) || c in glue
  {
    hide IsSeverity;
    assert words[0] in words;
    SeverityChars(words[0]);
    assert words[0][0] in words[0] && words[0][|words[0]| - 1] in words[0];
    if |words| > 1 {
      JoinedSeverities(words[1..], glue);
      var text := words[0] + glue + Join(words[1..], glue);
      assert text[0] == words[0][0] && text[|text| - 1] == Join(words[1..], glue)[|Join(words[1..], glue)| - 1];
    }
  }

  lemma {:induction false} SeveritiesTrim(words: seq<string>)
    requires forall w | w in words :: IsSeverity(w)
    ensures TrimAll(words) == words
  {
    if words != [] {
      SeverityChars(words[0]);
      SeveritiesTrim(words[1..]);
    }
  }

  lemma SeverityCellIs(words: seq<string>)
    requires words != [] && forall w | w in words :: IsSeverity(w)
    ensures var cell := Join(words, "/");
      && Trimmed(cell) && cell != "" && '|' !in cell && '\n' !in cell
      && IsSeverityCell(cell) && TrimAll(Split(cell, '/')) == words
  {
    hide Split, Join, Trim;
    var cell := Join(words, "/");
    JoinedSeverities(words, "/");
    forall w | w in words ensures '/' !in w && Trim(w) == w { SeverityChars(w); }
    SplitJoin(words, '/');
    SeveritiesTrim(words);
    assert "" + cell + "" == cell;
    TrimPadded("", cell, "");
  }

  lemma SectionIs(row: Row)
    requires ValidRow(row)
    ensures Trimmed(SectionText(row)) && '|' !in SectionText(row) && '\n' !in SectionText(row)
    ensures ParseSection(SectionText(row)) == row.section
  {
    var text := SectionText(row);
    assert "" + text + "" == text;
    TrimPadded("", text, "");
  }

  lemma QuotedIs(id: string)
    requires IsRuleId(id)
    ensures Trimmed("`" + id + "`") && '|' !in "`" + id + "`" && '\n' !in "`" + id + "`"
    ensures Unquote("`" + id + "`") == Some(id)
  {
    hide IsRuleId;
    IdHasNoPipe(id);
    assert ("`" + id + "`")[1..|"`" + id + "`"| - 1] == id;
  }

  /** The four parts of a row, free of what would break it. */
  lemma RowParts(row: Row)
    requires ValidRow(row)
    ensures '|' !in row.ruleId && '|' !in Join(row.severities, "/") && '|' !in SectionText(row)
    ensures '\n' !in RowText(row)
  {
    hide Join, Trimmed, IsSeverityCell, ParseSection, SectionText;
    QuotedIs(row.ruleId);
    IdHasNoPipe(row.ruleId);
    SeverityCellIs(row.severities);
    SectionIs(row);
  }

  lemma CellsOfRowText(row: Row)
    requires ValidRow(row)
    ensures Trim(RowText(row)) == RowText(row)
    ensures Cells(RowText(row))
         == [Padded("`" + row.ruleId + "`"), Padded(Join(row.severities, "/")), Padded(SectionText(row))]
            + Split(Padded(row.condition), '|')
  {
    hide ValidRow, Split, Join, SectionText, Cells, Trim;
    RowParts(row);
    var a, b, c, d :=
      Padded("`" + row.ruleId + "`"), Padded(Join(row.severities, "/")),
      Padded(SectionText(row)), Padded(row.condition);
    SplitRow(a, b, c, d);
    CellsOfRow(RowText(row), a, b, c, d);
    assert "" + RowText(row) + "" == RowText(row);
    TrimPadded("", RowText(row), "");
  }

  lemma CellsReadBack(row: Row, last: seq<string>)
    requires ValidRow(row) && last == Split(Padded(row.condition), '|')
    ensures ParseCells([Padded("`" + row.ruleId + "`"), Padded(Join(row.severities, "/")), Padded(SectionText(row))]
        + last)
         == Ok(Some(EntryOf(row)))
  {
    var id, severity, section := "`" + row.ruleId + "`", Join(row.severities, "/"), SectionText(row);
    QuotedIs(row.ruleId);
    SeverityCellIs(row.severities);
    SectionIs(row);
    PaddedTrims(row.condition);
    hide ValidRow, IsRuleId, IsSeverityCell, Split, Join, Trim, TrimAll, ParseSection, SectionText, IsSeverity, Unquote,
         Padded, Trimmed;
    PaddedTrims(id);
    PaddedTrims(severity);
    PaddedTrims(section);
    JoinSplit(Padded(row.condition), '|');
    var cells := [Padded(id), Padded(severity), Padded(section)] + last;
    assert cells[3..] == last && cells[0] == Padded(id) && cells[1] == Padded(severity) && cells[2] == Padded(section);
  }

  /** A printed row parses to its entry, its condition intact. */
  lemma RowReadsBack(row: Row)
    requires ValidRow(row)
    ensures '\n' !in RowText(row)
    ensures ParseLine(RowText(row)) == Ok(Some(EntryOf(row)))
  {
    assert StartsWith(RowText(row), "|");
    hide ValidRow, RowText, Cells, ParseCells, EntryOf;
    RowParts(row);
    CellsOfRowText(row);
    CellsReadBack(row, Split(Padded(row.condition), '|'));
  }

  // ---------- whole regions ----------

  /** A line of a region: a row, text that is no row, a three-column row, or one whose first cell is not quoted. */
  datatype DocLine =
    | Diagnostic(row: Row)
    | Prose(text: string)
    | Narrow(a: string, b: string, c: string)
    | Unquoted(first: string, rest: string)

  predicate ValidLine(line: DocLine) {
    match line
    case Diagnostic(row) => ValidRow(row)
    case Prose(text) => !StartsWith(Trim(text), "|") && '\n' !in text
    case Narrow(a, b, c) => forall cell | cell in [a, b, c] :: '|' !in cell && '\n' !in cell
    case Unquoted(first, rest) => Unquote(Trim(first)).None? && '|' !in first && '\n' !in first && '\n' !in rest
  }

  function LineText(line: DocLine): string {
    match line
    case Diagnostic(row) => RowText(row)
    case Prose(text) => text
    case Narrow(a, b, c) => "|" + a + "|" + b + "|" + c + "|"
    case Unquoted(first, rest) => "|" + first + "|" + rest + "|"
  }

  function LineEntry(line: DocLine): Option<Entry> {
    if line.Diagnostic? then Some(EntryOf(line.row)) else None
  }

  lemma PipedTrims(text: string)
    requires |text| >= 2 && text[0] == '|' && text[|text| - 1] == '|'
    ensures Trim(text) == text
  {
    assert "" + text + "" == text;
    TrimPadded("", text, "");
  }

  lemma NarrowIsSkipped(a: string, b: string, c: string)
    requires '|' !in a && '|' !in b && '|' !in c
    ensures ParseLine("|" + a + "|" + b + "|" + c + "|") == Ok(None)
  {
    hide Split, Trim, ParseCells;
    var text := "|" + a + "|" + b + "|" + c + "|";
    PipedTrims(text);
    var x, y := "" + "|" + a, "" + "|" + a + "|" + b;
    SplitWhole(a, '|');
    SplitWhole(b, '|');
    SplitWhole(c, '|');
    SplitWhole("", '|');
    SplitAt("", '|', a);
    SplitAt(x, '|', b);
    SplitAt(y, '|', c);
    SplitAt(y + "|" + c, '|', "");
    assert y + "|" + c + "|" + "" == text;
    var split := Split(text, '|');
    assert split == ["", a, b, c, ""];
    assert split[1..] == [a, b, c, ""] && [a, b, c, ""][..3] == [a, b, c];
    EmptyTrims();
    FewCells([a, b, c]);
  }

  lemma EmptyTrims()
    ensures Trim("") == ""
  {}

  lemma FewCells(cells: seq<string>)
    requires |cells| < 4
    ensures ParseCells(cells) == Ok(None)
  {}

  lemma UnquotedIsSkipped(first: string, rest: string)
    requires Unquote(Trim(first)).None? && '|' !in first
    ensures ParseLine("|" + first + "|" + rest + "|") == Ok(None)
  {
    hide Split, Trim, Unquote, IsSeverityCell, Join;
    var text := "|" + first + "|" + rest + "|";
    PipedTrims(text);
    var x := "" + "|" + first;
    SplitWhole(first, '|');
    SplitWhole("", '|');
    SplitAt("", '|', first);
    SplitAt(x, '|', rest);
    SplitAt(x + "|" + rest, '|', "");
    assert x + "|" + rest + "|" + "" == text;
    var split := Split(text, '|');
    assert split == [""] + [first] + Split(rest, '|') + [""];
    assert split[1..][0] == first && Cells(text)[0] == first;
  }

  /** Every line gives its entry, or nothing. */
  lemma LineReadsBack(line: DocLine)
    requires ValidLine(line)
    ensures '\n' !in LineText(line)
    ensures ParseLine(LineText(line)) == Ok(LineEntry(line))
  {
    hide ParseLine, Unquote, Trim;
    match line
    case Diagnostic(row) => RowReadsBack(row);
    case Prose(text) => ProseIsSkipped(text);
    case Narrow(a, b, c) =>
      assert a in [a, b, c] && b in [a, b, c] && c in [a, b, c];
      NarrowIsSkipped(a, b, c);
    case Unquoted(first, rest) => UnquotedIsSkipped(first, rest);
  }

  lemma ProseIsSkipped(text: string)
    requires !StartsWith(Trim(text), "|")
    ensures ParseLine(text) == Ok(None)
  {}

  function LineTexts(doc: seq<DocLine>): seq<string> {
    if doc == [] then [] else [LineText(doc[0])] + LineTexts(doc[1..])
  }

  function EntriesOf(doc: seq<DocLine>): seq<Entry> {
    if doc == [] then []
    else (if doc[0].Diagnostic? then [EntryOf(doc[0].row)] else []) + EntriesOf(doc[1..])
  }

  lemma {:induction false} DocCollects(doc: seq<DocLine>)
    requires forall line | line in doc :: ValidLine(line)
    ensures Collect(LineTexts(doc)) == Ok(EntriesOf(doc))
    ensures forall text | text in LineTexts(doc) :: '\n' !in text
  {
    hide ParseLine, LineText, ValidLine, EntryOf;
    if doc != [] {
      assert doc[0] in doc;
      LineReadsBack(doc[0]);
      DocCollects(doc[1..]);
    }
  }

  /**
   A printed region parses exactly when it has a row and no id comes twice, whatever the order of its
   lines and the pipes in its conditions; the registry holds its rows' entries in the order of their ids.
   */
  lemma PrintedTableParses(doc: seq<DocLine>)
    requires doc != [] && forall line | line in doc :: ValidLine(line)
    ensures var r := Entries(Join(LineTexts(doc), "\n"));
      && (r.Ok? <==> EntriesOf(doc) != [] && DistinctBy(IdOf, EntriesOf(doc)))
      && (r.Ok? ==> multiset(r.value) == multiset(EntriesOf(doc)))
      && (r.Ok? ==> SortedBy(ById, r.value) && DistinctBy(IdOf, r.value))
  {
    hide Collect, Split, Join, DistinctBy, Entries, EntriesOf, ValidLine;
    DocCollects(doc);
    SplitJoin(LineTexts(doc), '\n');
    AcceptedExactly(Join(LineTexts(doc), "\n"));
  }

  /** The order of the lines does not matter. */
  lemma LineOrderIsIrrelevant(doc: seq<DocLine>, other: seq<DocLine>)
    requires doc != [] && (forall line | line in doc :: ValidLine(line))
    requires other != [] && (forall line | line in other :: ValidLine(line))
    requires multiset(EntriesOf(doc)) == multiset(EntriesOf(other))
    ensures Entries(Join(LineTexts(doc), "\n")) == Entries(Join(LineTexts(other), "\n"))
  {
    hide Join, LineTexts, Entries, EntriesOf, ValidLine, DistinctBy;
    PrintedTableParses(doc);
    PrintedTableParses(other);
    var a, b := Entries(Join(LineTexts(doc), "\n")), Entries(Join(LineTexts(other), "\n"));
    if a.Ok? { DistinctInAnyOrder(EntriesOf(doc), EntriesOf(other)); }
    if b.Ok? { DistinctInAnyOrder(EntriesOf(other), EntriesOf(doc)); }
    assert |EntriesOf(doc)| == |multiset(EntriesOf(doc))| == |EntriesOf(other)|;
    if a.Ok? { OrderIsUnique(a.value, b.value); }
  }
}
