/**
 * The XdebugFunctionTrace class: where its files live, and the two public operations that
 * turn a finished trace into a page of result rows and into a saved summary.
 */
module FunctionTrace {
  import opened Wrappers
  import opened Strings
  import opened Rows
  import opened Reconstruct
  import opened Aggregate
  import opened Sorting
  import opened Paging
  import opened Csv
  import opened Summary
  import opened Seqs

  const DefaultName: string := "xdebug-function-trace"
  const SummaryName: string := "xdebug-function-trace-summarize"
  const AllowedFileTypes: seq<string> := ["xt", "html", "csv"]

  /** The name part of a trace file path: the trimmed name, or the default one when that is falsy. */
  function FileName(traceFileName: string): string
  {
    var trimmed := Trim(traceFileName);
    if !Truthy(trimmed) then DefaultName else trimmed
  }

  /** The extension part of a trace file path: an allowed type (xt otherwise), then ".gz" if asked. */
  function FileSuffix(appendDotGz: bool, fileType: string): string
  {
    var fileTypeUsed := if fileType in AllowedFileTypes then fileType else AllowedFileTypes[0];
    "." + fileTypeUsed + (if appendDotGz then ".gz" else "")
  }

  /** What getFilteredXDebugFunctionTrace returns: false, one of its two messages, or the rows. */
  datatype Outcome = Disabled | Message(text: string) | Calls(rows: seq<Row>)

  /** The result table of a trace body before pagination: reconstructed, aggregated and optionally sorted. */
  function FilteredRows(body: seq<string>, classTerm: string, root: string, unique: bool, route: string, sortByCount: bool): seq<Row>
  {
    var t := Replay(body, classTerm, root);
    ReplayWellFormed(body, classTerm, root);
    OrderIsStored(t);
    var calls := Entries(t);
    var rows := Aggregated(calls, calls, unique, route, []);
    if sortByCount then SortByColumn(rows, "functionCount", SortDesc) else rows
  }

  /** The summary table of loaded rows, optionally sorted by functionCount. */
  function SummaryTable(rows: seq<Row>, sortByCount: bool): seq<Row>
  {
    var summary := Summarized(rows, rows, []);
    if sortByCount then SortByColumn(summary, "functionCount", SortDesc) else summary
  }

  /** The files once the summary of the whole trace CSV at `csvPath` is written over the summary file. */
  function SummarySaved(files: map<string, seq<Line>>, csvPath: string, summaryPath: string, sortByCount: bool): map<string, seq<Line>>
  {
    SavedFiles(files, summaryPath, SummaryTable(Loaded(FileLines(files, csvPath), true), sortByCount), false, false)
  }

  /**
   * The CSV files after a run: the rows appended to the trace CSV (after an empty line),
   * then, when asked, the summary of the whole trace CSV written over the summary file.
   */
  function FilesAfterRun(files: map<string, seq<Line>>, csvPath: string, summaryPath: string,
                         rows: seq<Row>, saveSummary: bool, sortByCount: bool): map<string, seq<Line>>
  {
    var saved := SavedFiles(files, csvPath, rows, true, true);
    if saveSummary then SummarySaved(saved, csvPath, summaryPath, sortByCount) else saved
  }

  class XdebugFunctionTrace {
    /** The project root, taken as already resolved by realpath(). */
    var rootPath: string
    /** The directory the trace and CSV files are written to. */
    var traceFilePath: string
    var checkEnvToEnable: bool
    /** The CSV files on disk. */
    const csv: CsvStore

    constructor(files: CsvStore)
      ensures rootPath == "" && traceFilePath == "" && !checkEnvToEnable && csv == files
    {
      rootPath := "";
      traceFilePath := "";
      checkEnvToEnable := false;
      csv := files;
    }

    /** getXdebugFunctionTraceFilePath: directory, name, type and optionally ".gz". */
    function FilePath(appendDotGz: bool, fileType: string, traceFileName: string): string
      reads this
    {
      traceFilePath + "/" + FileName(traceFileName) + FileSuffix(appendDotGz, fileType)
    }

    /** The root as the trace lines are compared with it: with backslashes for slashes. */
    function RootPath(): string
      reads this
    {
      NormalRoot(rootPath)
    }

    /** The reconstruction, aggregation and optional sort of getFilteredXDebugFunctionTrace. */
    method FilterCalls(body: seq<string>, classTerm: string, unique: bool, route: string, sortByCount: bool) returns (rows: seq<Row>)
      ensures rows == FilteredRows(body, classTerm, RootPath(), unique, route, sortByCount)
    {
      var order, calls := ReconstructCalls(body, classTerm, RootPath());
      OrderIsStored(Table(order, calls));
      rows := AggregateCalls(Entries(Table(order, calls)), unique, route);
      if sortByCount {
        rows := SortByColumn(rows, "functionCount", SortDesc);
      }
    }

    /**
     * summarizeFilteredXDebugFunctionTrace: one summary row per function label, sorted when
     * asked, saved in replace mode to the summary CSV file; returns the requested page.
     */
    method SummarizeFilteredTrace(rows: seq<Row>, page: int, limit: int, sortByCount: bool) returns (pageRows: seq<Row>)
      modifies csv
      ensures csv.files == SavedFiles(old(csv.files), old(FilePath(false, "csv", SummaryName)), SummaryTable(rows, sortByCount), false, false)
      ensures pageRows == Paginate(SummaryTable(rows, sortByCount), page, limit)
    {
      var summary := SummarizeRows(rows);
      var path := FilePath(false, "csv", SummaryName);
      if sortByCount {
        summary := SortByColumn(summary, "functionCount", SortDesc);
      }
      csv.Save(summary, path, false, false);
      pageRows := Paginate(summary, page, limit);
    }

    /**
     * getFilteredXDebugFunctionTrace. The trace file's lines are given as `traceFile` (None
     * when the file does not exist), the environment switch as `envEnabled` and the request
     * path as `currentRoute`.
     */
    method GetFilteredTrace(traceFile: Option<seq<string>>, envEnabled: bool, currentRoute: string,
                            classTerm: string, page: int, limit: int,
                            functionUnique: bool, sortByFunctionCount: bool, saveCsvSummarize: bool)
      returns (outcome: Outcome)
      modifies csv
      ensures outcome ==
        if checkEnvToEnable && !envEnabled then Disabled
        else if traceFile.None? then
          Message("Trace file doesn't exists at given path : " + FilePath(true, "xt", DefaultName))
        else if TraceBody(traceFile.value).None? then
          Message("Trace file might doesn't have any content at given path : " + FilePath(true, "xt", DefaultName))
        else
          Calls(Paginate(FilteredRows(TraceBody(traceFile.value).value, classTerm, RootPath(), functionUnique, currentRoute, sortByFunctionCount), page, limit))
      ensures csv.files ==
        if outcome.Calls? then
          FilesAfterRun(old(csv.files), FilePath(false, "csv", DefaultName), FilePath(false, "csv", SummaryName),
                        FilteredRows(TraceBody(traceFile.value).value, classTerm, RootPath(), functionUnique, currentRoute, sortByFunctionCount),
                        saveCsvSummarize, sortByFunctionCount)
        else old(csv.files)
    {
      if checkEnvToEnable && !envEnabled {
        return Disabled;
      }
      var filePath := FilePath(true, "xt", DefaultName);
      var messages := [
        "Trace file doesn't exists at given path : " + filePath,
        "Trace file might doesn't have any content at given path : " + filePath
      ];
      if traceFile.None? {
        return Message(messages[0]);
      }
      outcome := ProcessLines(traceFile.value, messages[1], currentRoute, classTerm, page, limit, functionUnique, sortByFunctionCount, saveCsvSummarize);
    }

    /** getFilteredXDebugFunctionTrace once the trace file is read: the empty-content message, or the rows of its body. */
    method ProcessLines(lines: seq<string>, emptyMessage: string, currentRoute: string, classTerm: string, page: int, limit: int,
                        functionUnique: bool, sortByFunctionCount: bool, saveCsvSummarize: bool)
      returns (outcome: Outcome)
      modifies csv
      ensures outcome ==
        if TraceBody(lines).None? then Message(emptyMessage)
        else Calls(Paginate(FilteredRows(TraceBody(lines).value, classTerm, RootPath(), functionUnique, currentRoute, sortByFunctionCount), page, limit))
      ensures csv.files ==
        if TraceBody(lines).None? then old(csv.files)
        else FilesAfterRun(old(csv.files), FilePath(false, "csv", DefaultName), FilePath(false, "csv", SummaryName),
                           FilteredRows(TraceBody(lines).value, classTerm, RootPath(), functionUnique, currentRoute, sortByFunctionCount),
                           saveCsvSummarize, sortByFunctionCount)
    {
      if lines == [] {
        return Message(emptyMessage);
      }
      var body := TraceBody(lines);
      if body.None? {
        return Message(emptyMessage);
      }
      outcome := ProcessBody(body.value, currentRoute, classTerm, page, limit, functionUnique, sortByFunctionCount, saveCsvSummarize);
    }

    /** getFilteredXDebugFunctionTrace once the trace body is read: filter, save, and return the requested page. */
    method ProcessBody(body: seq<string>, currentRoute: string, classTerm: string, page: int, limit: int,
                       functionUnique: bool, sortByFunctionCount: bool, saveCsvSummarize: bool)
      returns (outcome: Outcome)
      modifies csv
      ensures var rows := FilteredRows(body, classTerm, RootPath(), functionUnique, currentRoute, sortByFunctionCount);
        && outcome == Calls(Paginate(rows, page, limit))
        && csv.files == FilesAfterRun(old(csv.files), FilePath(false, "csv", DefaultName), FilePath(false, "csv", SummaryName),
                                      rows, saveCsvSummarize, sortByFunctionCount)
    {
      var rows := FilterCalls(body, classTerm, functionUnique, currentRoute, sortByFunctionCount);
      SaveRows(rows, saveCsvSummarize, sortByFunctionCount);
      outcome := Calls(Paginate(rows, page, limit));
    }

    /** The summary step of getFilteredXDebugFunctionTrace: the whole CSV file at `csvPath` is read back and summarised. */
    method SummarizeSaved(csvPath: string, sortByCount: bool)
      modifies csv
      ensures csv.files == SummarySaved(old(csv.files), csvPath, old(FilePath(false, "csv", SummaryName)), sortByCount)
      ensures FilePath(false, "csv", SummaryName) == old(FilePath(false, "csv", SummaryName))
    {
      var csvArray := csv.Load(csvPath, true);
      var _ := SummarizeFilteredTrace(csvArray, 1, 10, sortByCount);
    }

    /** The saving part of getFilteredXDebugFunctionTrace: append the rows to the trace CSV, then summarise it when asked. */
    method SaveRows(rows: seq<Row>, saveCsvSummarize: bool, sortByCount: bool)
      modifies csv
      ensures csv.files == FilesAfterRun(old(csv.files), old(FilePath(false, "csv", DefaultName)),
                                         old(FilePath(false, "csv", SummaryName)), rows, saveCsvSummarize, sortByCount)
    {
      var csvPath := FilePath(false, "csv", DefaultName);
      ghost var summaryPath := FilePath(false, "csv", SummaryName);
      csv.Save(rows, csvPath, true, true);
      ghost var saved := csv.files;
      assert saved == SavedFiles(old(csv.files), csvPath, rows, true, true);
      assert FilePath(false, "csv", SummaryName) == summaryPath;
      if saveCsvSummarize {
        SummarizeSaved(csvPath, sortByCount);
        assert csv.files == SummarySaved(saved, csvPath, summaryPath, sortByCount);
      }
    }
  }

  /** An unknown file type falls back to xt, and a name that trims to a falsy string to the default name. */
  lemma FilePathFallbacks(trace: XdebugFunctionTrace, appendDotGz: bool, fileType: string, name: string)
    requires fileType !in AllowedFileTypes && !Truthy(Trim(name))
    ensures trace.FilePath(appendDotGz, fileType, name)
      == trace.traceFilePath + "/" + DefaultName + ".xt" + (if appendDotGz then ".gz" else "")
  {
  }

  /** Names that differ once trimmed give different files: the trace CSV and the summary CSV never collide. */
  lemma {:induction false} FilePathsDiffer(trace: XdebugFunctionTrace, appendDotGz: bool, fileType: string, a: string, b: string)
    requires Truthy(Trim(a)) && Truthy(Trim(b)) && Trim(a) != Trim(b)
    ensures trace.FilePath(appendDotGz, fileType, a) != trace.FilePath(appendDotGz, fileType, b)
  {
    MiddleDiffers(trace.traceFilePath + "/", FileName(a), FileName(b), FileSuffix(appendDotGz, fileType));
  }

  /** The trace CSV and the summary CSV are different files. */
  lemma SummaryFileIsSeparate(trace: XdebugFunctionTrace)
    ensures trace.FilePath(false, "csv", DefaultName) != trace.FilePath(false, "csv", SummaryName)
  {
    NamesDiffer(trace, DefaultName, SummaryName);
  }

  lemma NamesDiffer(trace: XdebugFunctionTrace, a: string, b: string)
    requires a != [] && !IsTrimChar(a[0]) && !IsTrimChar(a[|a| - 1]) && Truthy(a)
    requires b != [] && !IsTrimChar(b[0]) && !IsTrimChar(b[|b| - 1]) && Truthy(b)
    requires a != b
    ensures trace.FilePath(false, "csv", a) != trace.FilePath(false, "csv", b)
  {
    TrimKeeps(a);
    TrimKeeps(b);
    FilePathsDiffer(trace, false, "csv", a, b);
  }
}
