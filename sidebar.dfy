/** The sidebar's exports and its language switch. */
module Sidebar {
  import opened Types
  import Text
  import Csv
  import Provider

  /** The language switch: English becomes Nepali and Nepali becomes English. */
  function Toggled(l: Language): (r: Language)
    ensures r != l
  {
    if l == En then Ne else En
  }

  lemma ToggleTwice(l: Language)
    ensures Toggled(Toggled(l)) == l
  {
  }

  /** `title.replace(/\s/g, '_')`: each whitespace character becomes one underscore. */
  function FilenameStem(title: string): (r: string)
    ensures |r| == |title|
    ensures forall i :: 0 <= i < |r| ==> !Text.IsJsWhitespace(r[i])
    ensures forall i :: 0 <= i < |r| ==> r[i] == if Text.IsJsWhitespace(title[i]) then '_' else title[i]
  {
    if title == [] then []
    else [if Text.IsJsWhitespace(title[0]) then '_' else title[0]] + FilenameStem(title[1..])
  }

  /** A title without whitespace is its own stem. */
  lemma {:induction false} StemOfPlainTitle(title: string)
    requires forall i :: 0 <= i < |title| ==> !Text.IsJsWhitespace(title[i])
    ensures FilenameStem(title) == title
  {
    if title != [] {
      StemOfPlainTitle(title[1..]);
    }
  }

  /** The name of the CSV download: the stem, then the `_quiz.csv` suffix. */
  function CsvFilename(title: string): (name: string)
    ensures |name| == |title| + 9 && name[..|title|] == FilenameStem(title)
    ensures name[|title|..] == "_quiz.csv"
  {
    FilenameStem(title) + "_quiz.csv"
  }

  /** `handleExportJSON`: the name of the downloaded file, or none when no module is loaded.
      The file's content is left out. */
  function ExportJsonName(data: Option<SyllabusModule>): (r: Option<string>)
    ensures r.Some? <==> data.Some?
    ensures r.Some? ==> r.value == FilenameStem(data.value.moduleTitle) + ".json"
  {
    if data.None? then None else Some(FilenameStem(data.value.moduleTitle) + ".json")
  }

  const HeaderNames: seq<string> :=
    ["question", "option_a", "option_b", "option_c", "option_d", "answer_index", "explanation"]

  /** The header line is written as it is, its names unquoted. */
  function HeaderCells(): (r: seq<Csv.Cell>)
    ensures |r| == |HeaderNames| && forall j :: 0 <= j < |r| ==> r[j] == Csv.Bare(HeaderNames[j])
  {
    seq(|HeaderNames|, j requires 0 <= j < |HeaderNames| => Csv.Bare(HeaderNames[j]))
  }

  lemma HeaderNamesPlain()
    ensures forall j :: 0 <= j < |HeaderNames| ==> Csv.Plain(HeaderNames[j])
  {
    assert Csv.Plain("question");
    assert Csv.Plain("option_a");
    assert Csv.Plain("option_b");
    assert Csv.Plain("option_c");
    assert Csv.Plain("option_d");
    assert Csv.Plain("answer_index");
    assert Csv.Plain("explanation");
  }

  /** No column name needs quoting. */
  lemma HeaderCellsValid()
    ensures forall j :: 0 <= j < |HeaderCells()| ==> Csv.ValidCell(HeaderCells()[j])
  {
    HeaderNamesPlain();
  }

  lemma HeaderTexts()
    ensures Csv.Texts(HeaderCells()) == HeaderNames
  {
    var t := Csv.Texts(HeaderCells());
    assert forall j :: 0 <= j < |t| ==> t[j] == HeaderNames[j];
  }

  /** The row of one question: the question, its first four options and the explanation
      quoted, the answer index bare in sixth place. */
  function McqCells(q: McqItem): (r: seq<Csv.Cell>)
    requires |q.options| >= 4
    ensures |r| == 7 && forall j :: 0 <= j < 7 ==> Csv.ValidCell(r[j])
    ensures r[5] == Csv.Bare(Csv.Decimal(q.answerIndex))
    ensures forall j :: 0 <= j < 7 && j != 5 ==> r[j].Quoted?
  {
    [ Csv.Quoted(q.q), Csv.Quoted(q.options[0]), Csv.Quoted(q.options[1]), Csv.Quoted(q.options[2]),
      Csv.Quoted(q.options[3]), Csv.Bare(Csv.Decimal(q.answerIndex)), Csv.Quoted(q.why) ]
  }

  /** The texts a row carries. */
  function McqTexts(q: McqItem): seq<string>
    requires |q.options| >= 4
  {
    [q.q, q.options[0], q.options[1], q.options[2], q.options[3], Csv.Decimal(q.answerIndex), q.why]
  }

  /** The condition under which the export reads four options of every question without
      throwing; well-formed questions always meet it. */
  predicate AllHaveFourOptions(mcqs: seq<McqItem>)
    ensures (forall i :: 0 <= i < |mcqs| ==> WellFormedMcq(mcqs[i])) ==> AllHaveFourOptions(mcqs)
  {
    forall i :: 0 <= i < |mcqs| ==> |mcqs[i].options| >= 4
  }

  function McqRecords(mcqs: seq<McqItem>): (r: seq<seq<Csv.Cell>>)
    requires AllHaveFourOptions(mcqs)
    ensures |r| == |mcqs|
    ensures forall i :: 0 <= i < |mcqs| ==> r[i] == McqCells(mcqs[i])
  {
    if mcqs == [] then [] else [McqCells(mcqs[0])] + McqRecords(mcqs[1..])
  }

  /** The exported document: the header line, then one line per question, in order. */
  function QuizCsv(mcqs: seq<McqItem>): string
    requires AllHaveFourOptions(mcqs)
  {
    Csv.EncodeDocument([HeaderCells()] + McqRecords(mcqs))
  }

  lemma RecordsEncodable(mcqs: seq<McqItem>)
    requires AllHaveFourOptions(mcqs)
    ensures Csv.Encodable([HeaderCells()] + McqRecords(mcqs))
  {
    var records := [HeaderCells()] + McqRecords(mcqs);
    HeaderCellsValid();
    forall i | 0 <= i < |records|
      ensures |records[i]| > 0 && forall j :: 0 <= j < |records[i]| ==> Csv.ValidCell(records[i][j])
    {
      if i > 0 {
        assert records[i] == McqCells(mcqs[i - 1]);
      }
    }
  }

  lemma McqRowTexts(q: McqItem)
    requires |q.options| >= 4
    ensures Csv.Texts(McqCells(q)) == McqTexts(q)
  {
  }

  /** Reading the exported document back gives the header and, for each question in
      order, its text, its first four options, its answer index and its explanation. */
  lemma QuizCsvRoundTrip(mcqs: seq<McqItem>)
    requires AllHaveFourOptions(mcqs)
    ensures Csv.ParseRecords(QuizCsv(mcqs)).Some?
    ensures var doc := Csv.ParseRecords(QuizCsv(mcqs)).value;
      && |doc| == |mcqs| + 1
      && doc[0] == HeaderNames
      && forall i :: 0 <= i < |mcqs| ==> doc[i + 1] == McqTexts(mcqs[i])
  {
    var records := [HeaderCells()] + McqRecords(mcqs);
    RecordsEncodable(mcqs);
    Csv.DocumentRoundTrip(records);
    TextsOfRecords(records);
    HeaderTexts();
    forall i | 0 <= i < |mcqs|
      ensures Csv.TextsOf(records)[i + 1] == McqTexts(mcqs[i])
    {
      assert records[i + 1] == McqCells(mcqs[i]);
      McqRowTexts(mcqs[i]);
    }
  }

  lemma {:induction false} TextsOfRecords(records: seq<seq<Csv.Cell>>)
    ensures forall i :: 0 <= i < |records| ==> Csv.TextsOf(records)[i] == Csv.Texts(records[i])
  {
    if records != [] {
      TextsOfRecords(records[1..]);
      assert forall i :: 1 <= i < |records| ==> records[1..][i - 1] == records[i];
    }
  }

  /** What a click on the CSV export does. */
  datatype CsvExport =
    | NoDownload                                // no module, or a module without questions
    | Thrown                                    // a question has fewer than four options
    | Download(filename: string, csv: string)

  /** `handleExportQuizCSV`. The document is the one the download link carries; its
      `data:` URL prefix and URI encoding are left out. */
  function ExportQuizCsv(data: Option<SyllabusModule>): (r: CsvExport)
    ensures r == NoDownload <==> data.None? || data.value.quizMcq == []
    ensures r == Thrown <==> data.Some? && data.value.quizMcq != [] && !AllHaveFourOptions(data.value.quizMcq)
    ensures r.Download? ==>
      && AllHaveFourOptions(data.value.quizMcq)
      && r.filename == CsvFilename(data.value.moduleTitle)
      && r.csv == QuizCsv(data.value.quizMcq)
  {
    if data.None? || data.value.quizMcq == [] then NoDownload
    else if !AllHaveFourOptions(data.value.quizMcq) then Thrown
    else Download(CsvFilename(data.value.moduleTitle), QuizCsv(data.value.quizMcq))
  }

  /** Every bundle the provider returns exports without error: the fixed bundle as a
      download, the placeholder bundles as nothing at all. */
  lemma ProviderBundlesExport(moduleName: string, language: Language)
    ensures var r := ExportQuizCsv(Some(Provider.GenerateModuleContent(moduleName, language)));
      (moduleName == Provider.RespiratorySystem ==> r.Download?) &&
      (moduleName != Provider.RespiratorySystem ==> r == NoDownload)
  {
    var m := Provider.GenerateModuleContent(moduleName, language);
    assert forall i :: 0 <= i < |m.quizMcq| ==> WellFormedMcq(m.quizMcq[i]);
  }
}
