/**
 * The FASTA transforms of the protein-database pipeline
 * (`soil/pipelines/dna_db/tasks.py`): prefixing reference-proteome headers
 * with `ref|`, writing variant proteins as `>mut|...` records, and
 * building the command line of the variant-table script.  File contents
 * are strings; the table rows are records of optional strings, `None`
 * being a missing cell.
 */
module DnaDb {
  import opened Wrappers
  import opened PyStr

  // ---------------------------------------------------------------------
  // Text files as lines

  /** The lines `for line in fh` yields: each keeps its '\n'; the last may lack one. */
  function FileLines(text: string): (lines: seq<string>)
    ensures forall i :: 0 <= i < |lines| ==> lines[i] != ""
    ensures forall i :: 0 <= i < |lines| - 1 ==> lines[i][|lines[i]| - 1] == '\n'
  {
    var pieces := Split(text, '\n');
    var n := |pieces| - 1;
    seq(n, i requires 0 <= i < n => pieces[i] + "\n") + (if pieces[n] == "" then [] else [pieces[n]])
  }

  /** The text written by `fh.write(line + '\n')` for each line in turn. */
  function Terminated(lines: seq<string>): (text: string)
    ensures |text| >= |lines|
    ensures |lines| > 0 ==> text[|text| - 1] == '\n'
    decreases |lines|
  {
    if |lines| == 0 then "" else lines[0] + "\n" + Terminated(lines[1..])
  }

  lemma {:induction false} TerminatedAppend(a: seq<string>, b: seq<string>)
    ensures Terminated(a + b) == Terminated(a) + Terminated(b)
    decreases |a|
  {
    if |a| > 0 {
      assert (a + b)[1..] == a[1..] + b;
      TerminatedAppend(a[1..], b);
    } else {
      assert a + b == b;
    }
  }

  lemma TerminatedPair(a: string, b: string)
    ensures Terminated([a]) == a + "\n"
    ensures Terminated([a, b]) == a + "\n" + (b + "\n")
  {
    assert [a][1..] == [];
    assert [b][1..] == [];
    assert [a, b][1..] == [b];
    assert Terminated([b]) == b + "\n";
    assert Terminated([a, b]) == a + "\n" + Terminated([b]);
  }

  /** Writing lines each followed by '\n' is joining them and one empty last line with '\n'. */
  lemma {:induction false} TerminatedIsJoin(lines: seq<string>)
    ensures Terminated(lines) == Join(lines + [""], '\n')
    decreases |lines|
  {
    if |lines| > 0 {
      TerminatedIsJoin(lines[1..]);
      assert (lines + [""])[1..] == lines[1..] + [""];
    }
  }

  /** Text written line by line splits back, at '\n', into those lines and one empty remainder. */
  lemma TerminatedLines(lines: seq<string>)
    requires forall i :: 0 <= i < |lines| ==> '\n' !in lines[i]
    ensures Split(Terminated(lines), '\n') == lines + [""]
  {
    TerminatedIsJoin(lines);
    SplitJoin(lines + [""], '\n');
  }

  lemma {:induction false} JoinKeepsOut(parts: seq<string>, sep: char, c: char)
    requires sep != c && forall i :: 0 <= i < |parts| ==> c !in parts[i]
    ensures c !in Join(parts, sep)
    decreases |parts|
  {
    if |parts| > 1 {
      JoinKeepsOut(parts[1..], sep, c);
    }
  }

  lemma {:induction false} ConcatLines(pieces: seq<string>)
    requires |pieces| >= 1
    ensures Concat(seq(|pieces| - 1, i requires 0 <= i < |pieces| - 1 => pieces[i] + "\n")) + pieces[|pieces| - 1] == Join(pieces, '\n')
    decreases |pieces|
  {
    var n := |pieces| - 1;
    var heads := seq(n, i requires 0 <= i < n => pieces[i] + "\n");
    if n > 0 {
      var rest := pieces[1..];
      ConcatLines(rest);
      assert heads[1..] == seq(|rest| - 1, i requires 0 <= i < |rest| - 1 => rest[i] + "\n");
      assert Concat(heads) == pieces[0] + "\n" + Concat(heads[1..]);
    }
  }

  function Concat(parts: seq<string>): string
    decreases |parts|
  {
    if |parts| == 0 then "" else parts[0] + Concat(parts[1..])
  }

  lemma {:induction false} ConcatAppend(a: seq<string>, b: seq<string>)
    ensures Concat(a + b) == Concat(a) + Concat(b)
    decreases |a|
  {
    if |a| > 0 {
      assert (a + b)[1..] == a[1..] + b;
      ConcatAppend(a[1..], b);
    } else {
      assert a + b == b;
    }
  }

  /**
   * Reading a file as lines loses nothing: the lines put back together are
   * the text, and '\n' occurs in a line only as its last character.
   */
  lemma FileLinesSpec(text: string)
    ensures Concat(FileLines(text)) == text
    ensures forall i :: 0 <= i < |FileLines(text)| ==>
      forall j :: 0 <= j < |FileLines(text)[i]| - 1 ==> FileLines(text)[i][j] != '\n'
  {
    FileLinesConcat(text);
    FileLinesShape(text);
  }

  lemma FileLinesConcat(text: string)
    ensures Concat(FileLines(text)) == text
  {
    var pieces := Split(text, '\n');
    var n := |pieces| - 1;
    var heads := seq(n, i requires 0 <= i < n => pieces[i] + "\n");
    var tail := if pieces[n] == "" then [] else [pieces[n]];
    assert FileLines(text) == heads + tail;
    ConcatLines(pieces);
    JoinSplit(text, '\n');
    ConcatAppend(heads, tail);
    assert Concat(tail) == pieces[n];
  }

  lemma FileLinesShape(text: string)
    ensures forall i :: 0 <= i < |FileLines(text)| ==>
      forall j :: 0 <= j < |FileLines(text)[i]| - 1 ==> FileLines(text)[i][j] != '\n'
  {
    var pieces := Split(text, '\n');
    var n := |pieces| - 1;
    var lines := FileLines(text);
    forall i, j | 0 <= i < |lines| && 0 <= j < |lines[i]| - 1 ensures lines[i][j] != '\n' {
      if i < n {
        assert lines[i] == pieces[i] + "\n";
        assert lines[i][j] == pieces[i][j];
      } else {
        assert lines[i] == pieces[n];
      }
    }
  }

  // ---------------------------------------------------------------------
  // clean_ref_proteome_ids

  lemma JoinPair(a: string, b: string, sep: char)
    ensures Join([a, b], sep) == a + [sep] + b
  {
    assert [a, b][1..] == [b];
  }

  /** One line as `clean_ref_proteome_ids` rewrites it: stripped, and `>` headers prefixed with `ref|`. */
  function CleanLine(line: string): string {
    Relabel(Strip(line))
  }

  /** A stripped line with a `>` header prefixed with `ref|`. */
  function Relabel(l: string): string {
    if StartsWith(l, ">") then ">" + Join(["ref", l[1..]], '|') else l
  }

  /** The cleaned text's lines: each input line, cleaned. */
  function CleanedLines(text: string): seq<string> {
    CleanAll(FileLines(text))
  }

  function CleanAll(lines: seq<string>): (r: seq<string>)
    ensures |r| == |lines| && forall i :: 0 <= i < |lines| ==> r[i] == CleanLine(lines[i])
  {
    seq(|lines|, i requires 0 <= i < |lines| => CleanLine(lines[i]))
  }

  /**
   * Every line is stripped; a line whose stripped text starts with '>'
   * becomes `>ref|` followed by the rest of that text.
   */
  lemma CleanAllSpec(lines: seq<string>)
    ensures |CleanAll(lines)| == |lines|
    ensures forall i :: 0 <= i < |lines| ==>
      (StartsWith(Strip(lines[i]), ">") ==> CleanAll(lines)[i] == ">ref|" + Strip(lines[i])[1..]) &&
      (!StartsWith(Strip(lines[i]), ">") ==> CleanAll(lines)[i] == Strip(lines[i]))
  {
    forall i | 0 <= i < |lines|
      ensures StartsWith(Strip(lines[i]), ">") ==> CleanAll(lines)[i] == ">ref|" + Strip(lines[i])[1..]
      ensures !StartsWith(Strip(lines[i]), ">") ==> CleanAll(lines)[i] == Strip(lines[i])
    {
      RelabelSpec(Strip(lines[i]));
    }
  }

  /**
   * A header line becomes `>ref|` and the rest of the stripped header, so
   * dropping the `ref|` gives the stripped line back; any other line is
   * only stripped.
   */
  lemma CleanLineSpec(line: string)
    ensures StartsWith(Strip(line), ">") <==> StartsWith(CleanLine(line), ">")
    ensures StartsWith(Strip(line), ">") ==>
      StartsWith(CleanLine(line), ">ref|") && ">" + CleanLine(line)[5..] == Strip(line)
    ensures !StartsWith(Strip(line), ">") ==> CleanLine(line) == Strip(line)
  {
    RelabelSpec(Strip(line));
  }

  lemma RelabelSpec(l: string)
    ensures StartsWith(l, ">") <==> StartsWith(Relabel(l), ">")
    ensures StartsWith(l, ">") ==> StartsWith(Relabel(l), ">ref|") && ">" + Relabel(l)[5..] == l
    ensures !StartsWith(l, ">") ==> Relabel(l) == l
    ensures StartsWith(l, ">") ==> Relabel(l) == ">ref|" + l[1..]
  {
    if StartsWith(l, ">") {
      var c := Relabel(l);
      JoinPair("ref", l[1..], '|');
      assert c == ">ref|" + l[1..];
      assert c[5..] == l[1..];
      assert l == [l[0]] + l[1..];
    }
  }

  /** A line that holds '\n' at most at its end is cleaned into a line without '\n'. */
  lemma CleanLineNoNewline(line: string)
    requires forall j :: 0 <= j < |line| - 1 ==> line[j] != '\n'
    ensures '\n' !in CleanLine(line)
  {
    StripShape(line, '\n');
    var l := Strip(line);
    if StartsWith(l, ">") {
      var t := l[1..];
      assert '\n' !in t;
      JoinPair("ref", t, '|');
      var j := Join(["ref", t], '|');
      assert '\n' !in j;
      assert CleanLine(line) == ">" + j;
    }
  }

  /** The output holds one '\n'-terminated line per input line: the input line, cleaned. */
  lemma CleanOutputLines(text: string)
    ensures Split(Terminated(CleanedLines(text)), '\n') == CleanedLines(text) + [""]
  {
    FileLinesSpec(text);
    var lines := FileLines(text);
    forall i | 0 <= i < |lines| ensures '\n' !in CleanedLines(text)[i] {
      CleanLineNoNewline(lines[i]);
    }
    TerminatedLines(CleanedLines(text));
  }

  /** `clean_ref_proteome_ids`: copies the reference proteome line by line (tasks.py:66-74). */
  method CleanRefProteomeIds(inText: string) returns (outText: string)
    ensures outText == Terminated(CleanedLines(inText))
  {
    var lines := FileLines(inText);
    outText := "";
    for i := 0 to |lines|
      invariant outText == Terminated(CleanAll(lines[..i]))
    {
      var line := Strip(lines[i]);
      if StartsWith(line, ">") {
        line := ">" + Join(["ref", line[1..]], '|');
      }
      CleanAllSnoc(lines, i);
      TerminatedSnoc(CleanAll(lines[..i]), line);
      outText := outText + line + "\n";
    }
    assert lines[..|lines|] == lines;
  }

  lemma CleanAllSnoc(lines: seq<string>, i: nat)
    requires i < |lines|
    ensures CleanAll(lines[..i + 1]) == CleanAll(lines[..i]) + [CleanLine(lines[i])]
  {
  }

  lemma TerminatedSnoc(lines: seq<string>, x: string)
    ensures Terminated(lines + [x]) == Terminated(lines) + x + "\n"
  {
    TerminatedAppend(lines, [x]);
    TerminatedPair(x, "");
  }

  // ---------------------------------------------------------------------
  // build_variant_fasta

  /** A row of the variant table; `None` is a missing cell. */
  datatype VariantRow = VariantRow(
    geneId: Option<string>, geneName: Option<string>, proteinId: Option<string>, protAlt: Option<string>,
    transcriptId: Option<string>, transcriptName: Option<string>, nucVariant: Option<string>, aaVariant: Option<string>)

  /** A row after `fillna('')`: every cell a string. */
  datatype Variant = Variant(
    geneId: string, geneName: string, proteinId: string, protAlt: string,
    transcriptId: string, transcriptName: string, nucVariant: string, aaVariant: string)

  /** `fillna('')` applied to the eight string columns. */
  function Filled(row: VariantRow): Variant {
    Variant(row.geneId.GetOr(""), row.geneName.GetOr(""), row.proteinId.GetOr(""), row.protAlt.GetOr(""),
            row.transcriptId.GetOr(""), row.transcriptName.GetOr(""), row.nucVariant.GetOr(""), row.aaVariant.GetOr(""))
  }

  /** The fields of a `>mut|...` header, in order. */
  function HeaderFields(v: Variant): seq<string> {
    ["mut", v.proteinId + "_" + v.aaVariant, v.geneName, v.geneId, v.transcriptName, v.transcriptId, v.nucVariant, v.aaVariant]
  }

  function Header(v: Variant): string {
    Join(HeaderFields(v), '|')
  }

  /** The two lines of one variant's record, or none when it has no altered protein. */
  function Record(v: Variant): seq<string> {
    if |v.protAlt| == 0 then [] else [">" + Header(v), v.protAlt]
  }

  function FastaLines(vs: seq<Variant>): seq<string>
    decreases |vs|
  {
    if |vs| == 0 then [] else FastaLines(vs[..|vs| - 1]) + Record(vs[|vs| - 1])
  }

  /** The variants that get a record: those with a non-empty altered protein, in order. */
  function Kept(vs: seq<Variant>): (r: seq<Variant>)
    ensures forall v :: v in r <==> v in vs && v.protAlt != ""
    decreases |vs|
  {
    if |vs| == 0 then []
    else
      var init := vs[..|vs| - 1];
      var v := vs[|vs| - 1];
      assert vs == init + [v];
      Kept(init) + (if v.protAlt == "" then [] else [v])
  }

  /**
   * Each kept variant, in order, gives exactly two lines: `>` and its
   * header, then its altered protein; skipped rows give nothing.
   */
  lemma {:induction false} FastaLinesSpec(vs: seq<Variant>)
    ensures |FastaLines(vs)| == 2 * |Kept(vs)|
    ensures forall k :: 0 <= k < |Kept(vs)| ==>
      FastaLines(vs)[2 * k] == ">" + Header(Kept(vs)[k]) && FastaLines(vs)[2 * k + 1] == Kept(vs)[k].protAlt
    decreases |vs|
  {
    if |vs| > 0 {
      FastaLinesSpec(vs[..|vs| - 1]);
    }
  }

  /** With no '|' inside a field, the header splits back into its eight fields. */
  lemma HeaderSplits(v: Variant)
    requires forall i :: 0 <= i < |HeaderFields(v)| ==> '|' !in HeaderFields(v)[i]
    ensures Split(Header(v), '|') == HeaderFields(v)
  {
    SplitJoin(HeaderFields(v), '|');
  }

  predicate NoNewline(v: Variant) {
    forall i :: 0 <= i < |HeaderFields(v)| ==> '\n' !in HeaderFields(v)[i]
  }

  /** With no '\n' inside a cell, the output's lines are exactly the record lines. */
  lemma FastaOutputLines(vs: seq<Variant>)
    requires forall i :: 0 <= i < |vs| ==> NoNewline(vs[i]) && '\n' !in vs[i].protAlt
    ensures Split(Terminated(FastaLines(vs)), '\n') == FastaLines(vs) + [""]
  {
    FastaLinesNoNewline(vs);
    TerminatedLines(FastaLines(vs));
  }

  lemma {:induction false} FastaLinesNoNewline(vs: seq<Variant>)
    requires forall i :: 0 <= i < |vs| ==> NoNewline(vs[i]) && '\n' !in vs[i].protAlt
    ensures forall i :: 0 <= i < |FastaLines(vs)| ==> '\n' !in FastaLines(vs)[i]
    decreases |vs|
  {
    if |vs| > 0 {
      var v := vs[|vs| - 1];
      FastaLinesNoNewline(vs[..|vs| - 1]);
      JoinKeepsOut(HeaderFields(v), '|', '\n');
    }
  }

  /** The table after `fillna('')`. */
  function FilledTable(rows: seq<VariantRow>): (table: seq<Variant>)
    ensures |table| == |rows| && forall i :: 0 <= i < |rows| ==> table[i] == Filled(rows[i])
  {
    seq(|rows|, i requires 0 <= i < |rows| => Filled(rows[i]))
  }

  /** A cell after `fillna('')`: the present value, or the empty string for a missing one. */
  predicate FilledCell(cell: Option<string>, s: string) {
    (cell.Some? ==> s == cell.value) && (cell.None? ==> s == "")
  }

  /** `v` is `row` with each present cell kept and each missing cell empty. */
  predicate FilledFrom(row: VariantRow, v: Variant) {
    FilledCell(row.geneId, v.geneId) && FilledCell(row.geneName, v.geneName) &&
    FilledCell(row.proteinId, v.proteinId) && FilledCell(row.protAlt, v.protAlt) &&
    FilledCell(row.transcriptId, v.transcriptId) && FilledCell(row.transcriptName, v.transcriptName) &&
    FilledCell(row.nucVariant, v.nucVariant) && FilledCell(row.aaVariant, v.aaVariant)
  }

  /**
   * The filled table keeps every present cell and empties every missing
   * one, so a row is skipped exactly when its altered protein is missing
   * or empty.
   */
  lemma FilledTableSpec(rows: seq<VariantRow>)
    ensures |FilledTable(rows)| == |rows|
    ensures forall i :: 0 <= i < |rows| ==> FilledFrom(rows[i], FilledTable(rows)[i])
    ensures forall i :: 0 <= i < |rows| ==>
      (Record(FilledTable(rows)[i]) == [] <==> rows[i].protAlt.None? || rows[i].protAlt.value == "")
  {
  }

  /** Writing the records of one more row appends that row's record text. */
  lemma FastaStep(table: seq<Variant>, i: nat)
    requires i < |table|
    ensures Terminated(FastaLines(table[..i + 1])) == Terminated(FastaLines(table[..i])) + Terminated(Record(table[i]))
  {
    assert table[..i + 1][..i] == table[..i];
    TerminatedAppend(FastaLines(table[..i]), Record(table[i]));
  }

  /** Associativity of `+`, stated once so that `BuildVariantFasta` regroups its two writes cheaply. */
  lemma AppendAssoc(a: string, b: string, c: string)
    ensures a + b + c == a + (b + c)
  {
  }

  /** The text of a kept row's record: `>` and the header line, then the protein line. */
  lemma RecordText(v: Variant, proteinId: string, header: string)
    requires |v.protAlt| > 0 && proteinId == v.proteinId + "_" + v.aaVariant
    requires header == Join(["mut", proteinId, v.geneName, v.geneId, v.transcriptName,
                             v.transcriptId, v.nucVariant, v.aaVariant], '|')
    ensures Terminated(Record(v)) == ">" + header + "\n" + (v.protAlt + "\n")
  {
    assert header == Header(v);
    TerminatedPair(">" + header, v.protAlt);
  }

  /** `build_variant_fasta` after the table is read: one record per variant with an altered protein (tasks.py:7-46). */
  method BuildVariantFasta(rows: seq<VariantRow>) returns (outText: string)
    ensures outText == Terminated(FastaLines(FilledTable(rows)))
  {
    ghost var table := FilledTable(rows);
    outText := "";
    for i := 0 to |rows|
      invariant outText == Terminated(FastaLines(table[..i]))
    {
      FastaStep(table, i);
      var row := Filled(rows[i]);
      if |row.protAlt| == 0 {
        assert outText + Terminated(Record(table[i])) == outText;
        continue;
      }
      var proteinId := row.proteinId + "_" + row.aaVariant;
      var header := Join(["mut", proteinId, row.geneName, row.geneId, row.transcriptName,
                          row.transcriptId, row.nucVariant, row.aaVariant], '|');
      RecordText(row, proteinId, header);
      AppendAssoc(outText, ">" + header + "\n", row.protAlt + "\n");
      outText := outText + (">" + header + "\n");
      outText := outText + (row.protAlt + "\n");
    }
    assert table[..|rows|] == table;
  }

  // ---------------------------------------------------------------------
  // build_variant_table

  /** The command line of `build_variant_table`; `script` is the packaged script's path (tasks.py:49-63). */
  method BuildVariantTableCommand(script: string, inFile: string, outFile: string, genomeVersion: string,
                                  pyensemblCacheDir: Option<string>) returns (cmd: seq<string>)
    ensures |cmd| == if pyensemblCacheDir.Some? then 10 else 8
    ensures cmd[..8] == ["python", script, "-i", inFile, "-o", outFile, "--genome-version", genomeVersion]
    ensures pyensemblCacheDir.Some? ==> cmd[8..] == ["--pyensembl-cache-dir", pyensemblCacheDir.value]
  {
    cmd := ["python", script, "-i", inFile, "-o", outFile, "--genome-version", genomeVersion];
    if pyensemblCacheDir.Some? {
      cmd := cmd + ["--pyensembl-cache-dir", pyensemblCacheDir.value];
    }
  }
}
