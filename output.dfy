/** What the pipeline makes of its results and of its command-line keyword:
    the rows `save_results_to_csv` writes, the keyword check of `main`, and the
    names of the two output files. */
module Output {
  import opened Wrappers
  import opened PyStr
  import opened Search

  // ---------------------------------------------------------------------
  // The tabular file

  /** The header row of the table. */
  const Header: seq<string> := ["Title", "Link"]

  /** What stands in a cell whose field the item lacks. */
  const Missing: string := "N/A"

  /** A `csv.writer` as the pipeline uses it: the rows it has written so far.
      Quoting and line endings are the library's and are not modelled. */
  class CsvWriter {
    var rows: seq<seq<string>>

    constructor ()
      ensures rows == []
    {
      rows := [];
    }

    /** `writerow(row)`: one more row at the end of the file. */
    method WriteRow(row: seq<string>)
      modifies this
      ensures rows == old(rows) + [row]
    {
      rows := rows + [row];
    }
  }

  /** `save_results_to_csv(results, filename)`, less the file: the rows written,
      the header first and then one `[title, link]` row per result, in order,
      with "N/A" for a missing field. */
  method SaveResultsToCsv(results: seq<Item>) returns (rows: seq<seq<string>>)
    ensures |rows| == |results| + 1
    ensures rows[0] == ["Title", "Link"]
    ensures forall k :: 0 <= k < |results| ==>
              |rows[k + 1]| == 2 &&
              (results[k].title.Some? ==> rows[k + 1][0] == results[k].title.value) &&
              (results[k].title.None? ==> rows[k + 1][0] == "N/A") &&
              (results[k].link.Some? ==> rows[k + 1][1] == results[k].link.value) &&
              (results[k].link.None? ==> rows[k + 1][1] == "N/A")
  {
    var writer := new CsvWriter();
    writer.WriteRow(Header);
    for i := 0 to |results|
      invariant |writer.rows| == i + 1
      invariant writer.rows[0] == Header
      invariant forall k :: 0 <= k < i ==>
                  writer.rows[k + 1] == [results[k].title.GetOr(Missing), results[k].link.GetOr(Missing)]
    {
      var item := results[i];
      writer.WriteRow([item.title.GetOr(Missing), item.link.GetOr(Missing)]);
    }
    rows := writer.rows;
  }

  // ---------------------------------------------------------------------
  // The keyword and the output files

  /** `args.search_keyword.strip()` and the check that follows it: `None` when
      nothing but whitespace was given (the process then exits with status 1),
      otherwise the stripped keyword. */
  function CheckKeyword(arg: string): (r: Option<string>)
    ensures r.None? <==> AllSpace(arg)
    ensures r.Some? ==> r.value != "" && Trimmed(r.value) && Strip(r.value) == r.value
    ensures r.Some? ==> exists i, j :: 0 <= i < j <= |arg| && r.value == arg[i..j] &&
                          SpaceBetween(arg, 0, i) && SpaceBetween(arg, j, |arg|)
  {
    var keyword := Strip(arg);
    StripIdempotent(arg);
    StripIsSlice(arg);
    if keyword == "" then None else Some(keyword)
  }

  /** The suffixes of the two output files. */
  const JsonSuffix: string := "_search_results.json"
  const CsvSuffix: string := "_search_results.csv"

  /** `keyword.replace(' ', '_')`: the part of a file name taken from the keyword. */
  function FileStem(keyword: string): string {
    ReplaceChar(keyword, ' ', '_')
  }

  function JsonFileName(keyword: string): string {
    FileStem(keyword) + JsonSuffix
  }

  function CsvFileName(keyword: string): string {
    FileStem(keyword) + CsvSuffix
  }

  /** Each file name is the keyword, character for character, with every space
      made an underscore, followed by its suffix; so it holds no space. */
  lemma FileNamesShape(keyword: string)
    ensures |JsonFileName(keyword)| == |keyword| + 20 && |CsvFileName(keyword)| == |keyword| + 19
    ensures JsonFileName(keyword)[|keyword|..] == "_search_results.json"
    ensures CsvFileName(keyword)[|keyword|..] == "_search_results.csv"
    ensures forall k :: 0 <= k < |keyword| ==>
              JsonFileName(keyword)[k] == CsvFileName(keyword)[k] == (if keyword[k] == ' ' then '_' else keyword[k])
    ensures ' ' !in JsonFileName(keyword) && ' ' !in CsvFileName(keyword)
  {
    var stem := FileStem(keyword);
    assert JsonFileName(keyword)[..|keyword|] == stem;
    assert CsvFileName(keyword)[..|keyword|] == stem;
    assert ' ' !in JsonSuffix && ' ' !in CsvSuffix;
  }

  /** The two output files of a run never have the same name. */
  lemma FileNamesDiffer(keyword: string)
    ensures JsonFileName(keyword) != CsvFileName(keyword)
  {
    FileNamesShape(keyword);
  }

  /** Keywords that differ only in spaces against underscores share their
      output files: a run for "APT 28" overwrites the files of a run for "APT_28". */
  lemma FileNamesCollide()
    ensures "APT 28" != "APT_28"
    ensures JsonFileName("APT 28") == JsonFileName("APT_28")
    ensures CsvFileName("APT 28") == CsvFileName("APT_28")
  {
    assert FileStem("APT 28") == "APT_28" == FileStem("APT_28");
  }
}
