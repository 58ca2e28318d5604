/** The CSV export of the results page (`generateCSV`): a header row, then one
    row per ranked candidate; every field is wrapped in double quotes with no
    escaping, fields are separated by `,` and rows by a single `\n`. */
module Csv {
  import opened Strings
  import opened Scoring

  const Headers: seq<string> := [
    "Candidate", "Skill Match Score", "Experience Score", "Total Score",
    "Matched Skills", "Missing Skills", "Bias Flags"
  ]

  const ListSeparator := "; "

  /** `"${field}"`: the field between double quotes, nothing escaped. */
  function Quote(field: string): (r: string)
    ensures |r| == |field| + 2 && r[0] == '"' && r[|r| - 1] == '"'
    ensures r[1..|r| - 1] == field
  {
    "\"" + field + "\""
  }

  /** `row.map(field => `"${field}"`).join(",")` */
  function CsvLine(fields: seq<string>): (r: string)
    ensures fields == [] ==> r == []
    ensures fields != [] ==> |r| >= 2 && r[0] == '"' && r[|r| - 1] == '"'
  {
    var quoted := seq(|fields|, i requires 0 <= i < |fields| => Quote(fields[i]));
    JoinEnds(quoted, ",");
    Join(quoted, ",")
  }

  /** The seven cells of the candidate at 0-based position `index`. */
  function RowFields(res: ScoredResume, index: nat): (r: seq<string>)
    ensures |r| == |Headers|
    ensures Digits(r[1]) && Digits(r[2]) && Digits(r[3])
  {
    [ "Candidate #" + NatToString(index + 1),
      NatToString(res.skillMatchScore),
      NatToString(res.experienceScore),
      NatToString(res.totalScore),
      Join(res.matchedSkills, ListSeparator),
      Join(res.missingSkills, ListSeparator),
      Join(res.biasFlags, ListSeparator) ]
  }

  /** The lines of the export: the header line, then one line per candidate. */
  function CsvLines(results: seq<ScoredResume>): (r: seq<string>)
    ensures |r| == |results| + 1 && r[0] == CsvLine(Headers)
  {
    [CsvLine(Headers)] + seq(|results|, i requires 0 <= i < |results| => CsvLine(RowFields(results[i], i)))
  }

  /** `generateCSV(results)` */
  function GenerateCsv(results: seq<ScoredResume>): (r: string)
    ensures OccursAt(r, CsvLine(Headers), 0)
    ensures results == [] ==> r == CsvLine(Headers)
  {
    JoinEnds(CsvLines(results), "\n");
    Join(CsvLines(results), "\n")
  }

  // ---------------------------------------------------------------------------
  // Reading the export back

  /** Removes the surrounding double quotes of a cell, if it has them. */
  function Unquote(cell: string): (r: string)
    ensures |cell| >= 2 && cell[0] == '"' && cell[|cell| - 1] == '"' ==> r == cell[1..|cell| - 1]
  {
    if |cell| >= 2 && cell[0] == '"' && cell[|cell| - 1] == '"' then cell[1..|cell| - 1] else cell
  }

  /** Splits one line at every comma and unquotes the cells; this is what a
      reader sees when no field holds a comma. */
  function ParseLine(line: string): seq<string> {
    var cells := Split(line, ',');
    seq(|cells|, i requires 0 <= i < |cells| => Unquote(cells[i]))
  }

  /** No string of the list holds the character `c`. */
  predicate Free(parts: seq<string>, c: char) {
    forall k :: 0 <= k < |parts| ==> c !in parts[k]
  }

  /** The skills a candidate's row shows are free of `c`. */
  predicate SkillsFree(res: ScoredResume, c: char) {
    Free(res.matchedSkills, c) && Free(res.missingSkills, c)
  }

  /** Joining strings free of `c` with a separator free of `c` gives a string
      free of `c`. */
  lemma {:induction false} JoinFree(parts: seq<string>, sep: string, c: char)
    requires Free(parts, c) && c !in sep
    ensures c !in Join(parts, sep)
    decreases |parts|
  {
    if |parts| > 1 {
      JoinFree(parts[1..], sep, c);
      assert Join(parts, sep) == parts[0] + sep + Join(parts[1..], sep);
    }
  }

  /** `"Candidate #"` followed by digits holds neither `,` nor `\n` nor `"`. */
  lemma NatToStringFree(n: nat, c: char)
    requires !('0' <= c <= '9')
    ensures c !in NatToString(n)
  {
  }

  /** Every cell of a candidate row is free of a character that is no digit,
      does not occur in the fixed texts, and occurs in none of the skills. */
  lemma RowFieldsFree(res: ScoredResume, index: nat, c: char)
    requires c == ',' || c == '\n' || c == '"'
    requires SkillsFree(res, c)
    requires Free(res.biasFlags, c)
    ensures Free(RowFields(res, index), c)
  {
    NatToStringFree(index + 1, c);
    NatToStringFree(res.skillMatchScore, c);
    NatToStringFree(res.experienceScore, c);
    NatToStringFree(res.totalScore, c);
    JoinFree(res.matchedSkills, ListSeparator, c);
    JoinFree(res.missingSkills, ListSeparator, c);
    JoinFree(res.biasFlags, ListSeparator, c);
    var f := RowFields(res, index);
    assert f[0] == "Candidate #" + NatToString(index + 1);
  }

  /** The bias flags of a scored resume hold neither `,` nor `\n` nor `"`. */
  lemma BiasFlagsFree(res: ScoredResume, c: char)
    requires c == ',' || c == '\n' || c == '"'
    requires forall i :: 0 <= i < |res.biasFlags| ==> res.biasFlags[i] == LowSkillMatch || res.biasFlags[i] == LowExperience
    ensures Free(res.biasFlags, c)
  {
  }

  /** A line free of `\n` comes from cells free of `\n`. */
  lemma CsvLineFree(fields: seq<string>, c: char)
    requires Free(fields, c) && c != '"' && c != ','
    ensures c !in CsvLine(fields)
  {
    var quoted := seq(|fields|, i requires 0 <= i < |fields| => Quote(fields[i]));
    forall k | 0 <= k < |quoted| ensures c !in quoted[k] {
      assert quoted[k] == "\"" + fields[k] + "\"";
    }
    JoinFree(quoted, ",", c);
  }

  /** Reading a line back gives the cells that were written, as long as none
      of them holds a comma. */
  lemma CsvLineRoundTrip(fields: seq<string>)
    requires |fields| > 0 && Free(fields, ',')
    ensures ParseLine(CsvLine(fields)) == fields
  {
    var quoted := seq(|fields|, i requires 0 <= i < |fields| => Quote(fields[i]));
    forall k | 0 <= k < |quoted| ensures ',' !in quoted[k] {
      assert quoted[k] == "\"" + fields[k] + "\"";
    }
    SplitJoin(quoted, ',');
    assert Split(CsvLine(fields), ',') == quoted;
  }

  lemma CsvLinesAt(results: seq<ScoredResume>, k: nat)
    requires k < |results|
    ensures |CsvLines(results)| == |results| + 1
    ensures CsvLines(results)[k + 1] == CsvLine(RowFields(results[k], k))
  {
  }

  /** Every line of the export is free of `\n` when no skill holds one. */
  lemma CsvLinesFree(results: seq<ScoredResume>)
    requires forall i :: 0 <= i < |results| ==> SkillsFree(results[i], '\n') && Free(results[i].biasFlags, '\n')
    ensures Free(CsvLines(results), '\n')
  {
    var lines := CsvLines(results);
    forall k | 1 <= k < |lines| ensures '\n' !in lines[k] {
      CsvLinesAt(results, k - 1);
      RowLineFree(results[k - 1], k - 1);
    }
    HeaderLineFree(results);
  }

  /** The header line holds no `\n`. */
  lemma HeaderLineFree(results: seq<ScoredResume>)
    ensures '\n' !in CsvLines(results)[0]
  {
    CsvLineFree(Headers, '\n');
  }

  lemma RowLineFree(res: ScoredResume, index: nat)
    requires SkillsFree(res, '\n') && Free(res.biasFlags, '\n')
    ensures '\n' !in CsvLine(RowFields(res, index))
  {
    RowFieldsFree(res, index, '\n');
    CsvLineFree(RowFields(res, index), '\n');
  }

  /** The export has one line per candidate after the header, as long as no
      skill holds a line break: splitting it at `\n` gives back exactly the
      lines that were joined. */
  lemma GenerateCsvLines(results: seq<ScoredResume>)
    requires forall i :: 0 <= i < |results| ==> SkillsFree(results[i], '\n') && Free(results[i].biasFlags, '\n')
    ensures Split(GenerateCsv(results), '\n') == CsvLines(results)
    ensures |Split(GenerateCsv(results), '\n')| == |results| + 1
  {
    CsvLinesFree(results);
    SplitJoin(CsvLines(results), '\n');
  }

  /** Row `i` (1-based) starts with `"Candidate #i`. */
  lemma CsvRowStart(results: seq<ScoredResume>, k: nat)
    requires k < |results|
    ensures OccursAt(CsvLines(results)[k + 1], "\"Candidate #" + NatToString(k + 1), 0)
  {
    CsvLinesAt(results, k);
    var fields := RowFields(results[k], k);
    LineStart(fields);
    assert fields[0] == "Candidate #" + NatToString(k + 1);
  }

  /** A line starts with the opening quote and the first cell. */
  lemma LineStart(fields: seq<string>)
    requires |fields| > 0
    ensures OccursAt(CsvLine(fields), "\"" + fields[0], 0)
  {
    var quoted := seq(|fields|, i requires 0 <= i < |fields| => Quote(fields[i]));
    assert quoted[0] == "\"" + fields[0] + "\"";
    if |fields| > 1 {
      assert CsvLine(fields) == quoted[0] + "," + Join(quoted[1..], ",");
    }
  }

  /** Row `i` (1-based), read back, gives the candidate's cells, and its
      three scores parse back to the candidate's numbers. */
  lemma CsvRowRoundTrip(results: seq<ScoredResume>, k: nat)
    requires k < |results|
    requires SkillsFree(results[k], ',')
    requires Free(results[k].biasFlags, ',')
    ensures ParseLine(CsvLines(results)[k + 1]) == RowFields(results[k], k)
    ensures ParseDigits(ParseLine(CsvLines(results)[k + 1])[1]) == results[k].skillMatchScore
    ensures ParseDigits(ParseLine(CsvLines(results)[k + 1])[2]) == results[k].experienceScore
    ensures ParseDigits(ParseLine(CsvLines(results)[k + 1])[3]) == results[k].totalScore
  {
    CsvLinesAt(results, k);
    RowFieldsFree(results[k], k, ',');
    CsvLineRoundTrip(RowFields(results[k], k));
    ParseNatToString(results[k].skillMatchScore);
    ParseNatToString(results[k].experienceScore);
    ParseNatToString(results[k].totalScore);
  }

  /** The header line reads back as the seven column titles. */
  lemma HeaderRoundTrip(results: seq<ScoredResume>)
    ensures ParseLine(CsvLines(results)[0]) == Headers
  {
    CsvLineRoundTrip(Headers);
  }

  /** Quotes inside a field are written as they are: a skill `a"b` puts an odd
      number of quote characters in its cell, which a CSV reader following the
      doubled-quote convention of RFC 4180 section 2 cannot read back. */
  lemma QuoteNotEscaped()
    ensures Quote("a\"b") == "\"a\"b\""
    ensures Count(Quote("a\"b"), '"') == 3
  {
  }
}
