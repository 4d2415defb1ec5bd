/**
 What the cells of a diagnostics row may hold (xtask/src/explain_registry.rs), told by how they are written,
 and when a row is malformed.
 */
module DiagnosticGrammar {
  import opened Wrappers
  import opened Text
  import opened DiagnosticTable

  // ---------- rule ids ----------

  /** Lowercase letters, digits and dashes, by their codes. */
  predicate IsSlug(s: string) {
    s != "" && forall i | 0 <= i < |s| :: s[i] as int == 45 || 48 <= s[i] as int <= 57 || 97 <= s[i] as int <= 122
  }

  /** A rule id is two such words with one slash between them. */
  lemma RuleIdExactly(s: string)
    ensures IsRuleId(s) <==> exists a, b :: IsSlug(a) && IsSlug(b) && s == a + "/" + b
  {
    hide Split;
    var parts := Split(s, '/');
    JoinSplit(s, '/');
    if IsRuleId(s) {
      assert parts == [parts[0]] + [parts[1]];
      JoinTwo(parts[0], parts[1]);
      SlugIsSegment(parts[0]);
      SlugIsSegment(parts[1]);
      assert IsSlug(parts[0]) && IsSlug(parts[1]) && s == parts[0] + "/" + parts[1];
    }
    if a, b :| IsSlug(a) && IsSlug(b) && s == a + "/" + b {
      SlugIsSegment(a);
      SlugIsSegment(b);
      SplitWhole(a, '/');
      SplitWhole(b, '/');
      SplitAt(a, '/', b);
      assert a + ['/'] + b == s && [a] + [b] == [a, b];
    }
  }

  lemma SlugIsSegment(s: string)
    ensures IsSlug(s) <==> IsSegment(s)
    ensures IsSlug(s) ==> '/' !in s
  {
    assert IsSegment(s) ==> forall i | 0 <= i < |s| :: IsIdChar(s[i]);
  }

  /** A cell is quoted when it stands between two backticks. */
  lemma QuotedExactly(cell: string, id: string)
    ensures Unquote(cell) == Some(id) <==> cell == ['`'] + id + ['`']
  {
    if |cell| >= 2 { assert cell == [cell[0]] + cell[1..|cell| - 1] + [cell[|cell| - 1]]; }
    if cell == ['`'] + id + ['`'] { assert cell[1..|cell| - 1] == id; }
  }

  // ---------- severities ----------

  datatype Severity = Error | Warning | Info

  function SeverityText(v: Severity): string {
    match v
    case Error => "error"
    case Warning => "warning"
    case Info => "info"
  }

  lemma SeverityExactly(s: string)
    ensures IsSeverity(s) <==> exists v :: s == SeverityText(v)
  {
    assert SeverityText(Error) == "error" && SeverityText(Warning) == "warning" && SeverityText(Info) == "info";
  }

  /** A severity cell is severities with slashes between them and any blanks around them, and nothing else. */
  lemma SeverityCellExactly(parts: seq<string>)
    requires parts != [] && forall p | p in parts :: '/' !in p
    ensures IsSeverityCell(Join(parts, "/")) <==> forall p | p in parts :: exists v :: Trim(p) == SeverityText(v)
  {
    hide Split, Join, Trim, SeverityText;
    var cell := Join(parts, "/");
    SplitJoin(parts, '/');
    forall p { SeverityExactly(Trim(p)); }
    if forall p | p in parts :: IsSeverity(Trim(p)) { CellIsNotBlank(parts); }
  }

  lemma CellIsNotBlank(parts: seq<string>)
    requires parts != [] && forall p | p in parts :: IsSeverity(Trim(p))
    ensures Trim(Join(parts, "/")) != ""
  {
    hide Trim, Join;
    var i := NonBlank(parts[0]);
    assert parts[0] in parts;
    HeadStands(parts);
    if Trim(Join(parts, "/")) == "" { BlankIsBlank(Join(parts, "/")); }
  }

  lemma HeadStands(parts: seq<string>)
    requires parts != []
    ensures parts[0] <= Join(parts, "/")
  {}

  lemma NonBlank(s: string) returns (i: nat)
    ensures Trim(s) != "" ==> i < |s| && !IsSpace(s[i])
  {
    i := 0;
    if Trim(s) != "" {
      if Blank(s) {
        assert s + "" == s;
        TrimStartBlank(s, "");
      } else {
        i :| 0 <= i < |s| && !IsSpace(s[i]);
      }
    }
  }

  lemma {:induction false} BlankIsBlank(s: string)
    requires Trim(s) == ""
    ensures Blank(s)
  {
    StartIsBlank(s);
    EndIsBlank(TrimStart(s));
  }

  lemma {:induction false} StartIsBlank(s: string)
    ensures Blank(TrimStart(s)) ==> Blank(s)
  {
    if s != "" && IsSpace(s[0]) { StartIsBlank(s[1..]); }
  }

  lemma {:induction false} EndIsBlank(s: string)
    ensures Blank(TrimEnd(s)) ==> Blank(s)
  {
    if s != "" && IsSpace(s[|s| - 1]) {
      EndIsBlank(s[..|s| - 1]);
      assert s == s[..|s| - 1] + [s[|s| - 1]];
    }
  }

  // ---------- sections ----------

  datatype NoSection = Empty | EmDash | Hyphen

  function NoSectionText(n: NoSection): string {
    match n
    case Empty => ""
    case EmDash => [8212 as char]
    case Hyphen => "-"
  }

  /** No section is an empty cell, an em dash or a hyphen, blanks aside; any other text is the section. */
  lemma SectionExactly(cell: string)
    ensures ParseSection(cell)
         == if exists n :: Trim(cell) == NoSectionText(n) then None else Some(Trim(cell))
  {
    assert NoSectionText(Empty) == "" && NoSectionText(EmDash) == "—" && NoSectionText(Hyphen) == "-";
  }

  // ---------- malformed rows ----------

  /** A row whose first cell is a quoted rule id is malformed exactly when its severity cell holds anything else
      or its condition is blank. */
  lemma MalformedExactly(id: string, severity: string, section: string, condition: string)
    requires IsRuleId(id) && '|' !in severity && '|' !in section
    ensures ParseLine("|" + Padded("`" + id + "`") + "|" + severity + "|" + section + "|" + condition + "|").Err?
       <==> !IsSeverityCell(Trim(severity)) || Trim(condition) == ""
  {
    hide Split, Join, Trim, IsSeverityCell, IsRuleId, ParseSection, TrimAll;
    var first := Padded("`" + id + "`");
    var row := "|" + first + "|" + severity + "|" + section + "|" + condition + "|";
    QuotedIs(id);
    PaddedTrims("`" + id + "`");
    SplitRow(first, severity, section, condition);
    CellsOfRow(row, first, severity, section, condition);
    PipedTrims(row);
    JoinSplit(condition, '|');
    var cells := [first, severity, section] + Split(condition, '|');
    assert cells[3..] == Split(condition, '|') && cells[0] == first && cells[1] == severity;
    assert row[..1] == "|";
  }
}
