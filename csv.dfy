/** `csv_utils.h`: appending one result row to a CSV file, writing the
    header line first when the file did not exist, after making sure the
    file's directory exists.  The file system is reduced to the text of
    every regular file and the set of directories; whether `strdup`,
    `mkdir` and `fopen` succeed is passed in, since it depends on things
    the model does not track (memory, permissions, the parent of a
    directory).  A `double` argument is given as its value already rounded
    to the decimals its format prints, in units of the last decimal. */
module CsvResults {
  import opened Text

  datatype Option<T> = None | Some(value: T)

  /** What the C library calls report for one save: `strdup` returned a
      copy, `mkdir` created the directory, `fopen` opened the file. */
  datatype Outcomes = Outcomes(dupOk: bool, mkdirOk: bool, openOk: bool)

  /** `strrchr(path, '/')`: the position of the last '/', if any. */
  function LastSlash(path: string): (r: Option<nat>)
    ensures r.Some? ==> r.value < |path| && path[r.value] == '/'
                        && forall j :: r.value < j < |path| ==> path[j] != '/'
    ensures r.None? <==> '/' !in path
  {
    if |path| == 0 then None
    else if path[|path| - 1] == '/' then Some(|path| - 1)
    else
      var r := LastSlash(path[..|path| - 1]);
      assert path == path[..|path| - 1] + [path[|path| - 1]];
      r
  }

  /** The directory `ensure_dir_exists` considers: the path cut at its last
      '/', or none when the path has no '/'. */
  function DirOf(path: string): Option<string>
  {
    match LastSlash(path)
    case None => None
    case Some(i) => Some(path[..i])
  }

  /** `stat(p) == 0`: p names a regular file or a directory. */
  predicate Exists(files: map<string, string>, dirs: set<string>, p: string)
  {
    p in files || p in dirs
  }

  /** The text of the file at p, empty when there is none. */
  function Content(files: map<string, string>, p: string): string
  {
    if p in files then files[p] else ""
  }

  /** The directories after `ensure_dir_exists(path)`: the directory of the
      path is created when there is one, it does not exist yet, and both
      `strdup` and `mkdir` succeed. */
  function DirsAfterEnsure(files: map<string, string>, dirs: set<string>, path: string,
                           env: Outcomes): set<string>
  {
    if !env.dupOk then dirs
    else match DirOf(path)
      case None => dirs
      case Some(d) => if Exists(files, dirs, d) || !env.mkdirOk then dirs else dirs + {d}
  }

  /** The files after appending: nothing changes when `fopen` fails;
      otherwise the header line (when the file did not exist before) and the
      row line follow the old text. */
  function FilesAfterAppend(files: map<string, string>, existed: bool, path: string,
                            header: string, row: string, openOk: bool): map<string, string>
  {
    if !openOk then files
    else files[path := Content(files, path) + Unlines((if existed then [] else [header]) + [row])]
  }

  /** The CSV headers and rows, one field list each. */
  function SerialHeader(): string { Join(SerialNames(), ',') }

  function OpenMPHeader(): string { Join(OpenMPNames(), ',') }

  function MpiHeader(): string { Join(MpiNames(), ',') }

  /** The fields of "%d,%.6f". */
  function SerialFields(n: int, time: int): seq<string>
  {
    [IntString(n), FixedString(time, 6)]
  }

  /** Consecutive `%.Nf` fields: value k printed with places[k] decimals. */
  function FixedFields(values: seq<int>, places: seq<nat>): (fs: seq<string>)
    requires |values| == |places|
    ensures |fs| == |values|
    ensures forall k :: 0 <= k < |fs| ==> ',' !in fs[k] && '\n' !in fs[k]
  {
    seq(|values|, k requires 0 <= k < |values| => FixedString(values[k], places[k]))
  }

  /** The fields of "%d,%d,%s,%.6f,%.4f,%.4f". */
  function OpenMPFields(n: int, threads: int, schedule: string, time: int, speedup: int,
                        efficiency: int): seq<string>
  {
    [IntString(n), IntString(threads), schedule] + FixedFields([time, speedup, efficiency], [6, 4, 4])
  }

  /** The fields of "%d,%d,%.6f,%.6f,%.6f,%.6f,%.2f,%.4f,%.4f,%.4f". */
  function MpiFields(n: int, size: int, parallel: int, computation: int, communication: int,
                     overheadAbs: int, overheadRel: int, commEfficiency: int, speedup: int,
                     efficiency: int): seq<string>
  {
    [IntString(n), IntString(size)]
      + FixedFields([parallel, computation, communication, overheadAbs, overheadRel,
                     commEfficiency, speedup, efficiency], MpiPlaces())
  }

  /** The directory is the text before the last '/': it is followed by a
      '/' in the path, and no '/' comes after that one. */
  lemma DirOfCut(path: string)
    ensures DirOf(path).None? <==> '/' !in path
    ensures DirOf(path).Some? ==>
              var d := DirOf(path).value;
              |d| < |path| && path[..|d|] == d && path[|d|] == '/'
              && '/' !in path[|d| + 1..]
  {
  }

  /** `ensure_dir_exists` creates at most one directory, the one before the
      last '/'; none when the path has no '/'; and that directory exists
      afterwards whenever `strdup` and `mkdir` succeed. */
  lemma EnsureDirEffect(files: map<string, string>, dirs: set<string>, path: string, env: Outcomes)
    ensures var after := DirsAfterEnsure(files, dirs, path, env);
            dirs <= after
            && (DirOf(path).None? ==> after == dirs)
            && (DirOf(path).Some? ==> after <= dirs + {DirOf(path).value})
            && (DirOf(path).Some? && env.dupOk && env.mkdirOk ==>
                  Exists(files, after, DirOf(path).value))
  {
  }

  /** The directory of a path is never the path itself, so making it does
      not make the file exist. */
  lemma EnsureDirKeepsFileAbsent(files: map<string, string>, dirs: set<string>, path: string,
                                 env: Outcomes)
    requires !Exists(files, dirs, path)
    ensures !Exists(files, DirsAfterEnsure(files, dirs, path, env), path)
  {
    DirOfCut(path);
  }

  /** A header line is written exactly when the file did not exist: the
      file then ends with the header and row lines, otherwise with the row
      line alone; everything else stays as it was. */
  lemma AppendWritesHeaderIffNew(files: map<string, string>, existed: bool, path: string,
                                 header: string, row: string)
    ensures var after := FilesAfterAppend(files, existed, path, header, row, true);
            path in after
            && (after[path] == Content(files, path) + Unlines([header, row]) <==> !existed)
            && (existed ==> after[path] == Content(files, path) + Unlines([row]))
            && forall q :: q != path ==> (q in after <==> q in files)
                                         && (q in files ==> after[q] == files[q])
  {
    var after := FilesAfterAppend(files, existed, path, header, row, true);
    assert [header] + [row] == [header, row];
    assert [] + [row] == [row];
    if existed {
      var withHeader := Content(files, path) + Unlines([header, row]);
      assert |withHeader| > |after[path]|;
    }
  }

  /** A failed `fopen` leaves every file as it was. */
  lemma FailedOpenChangesNothing(files: map<string, string>, existed: bool, path: string,
                                 header: string, row: string)
    ensures FilesAfterAppend(files, existed, path, header, row, false) == files
  {
  }

  /** When the old text is a list of lines, the new text is the same list
      with the header (for a new file) and the row added at the end. */
  lemma AppendAddsLines(files: map<string, string>, existed: bool, path: string,
                        header: string, row: string, old_lines: seq<string>)
    requires Content(files, path) == Unlines(old_lines)
    ensures FilesAfterAppend(files, existed, path, header, row, true)[path]
            == Unlines(old_lines + (if existed then [] else [header]) + [row])
  {
    UnlinesAppend(old_lines, (if existed then [] else [header]) + [row]);
    assert old_lines + ((if existed then [] else [header]) + [row])
        == old_lines + (if existed then [] else [header]) + [row];
  }

  /** Two saves to a path that does not exist leave exactly one header
      followed by the two rows, whatever `ensure_dir_exists` does. */
  lemma TwoSavesOneHeader(files: map<string, string>, dirs: set<string>, path: string,
                          header: string, row1: string, row2: string,
                          env1: Outcomes, env2: Outcomes)
    requires !Exists(files, dirs, path) && env1.openOk && env2.openOk
    ensures var dirs1 := DirsAfterEnsure(files, dirs, path, env1);
            var files1 := FilesAfterAppend(files, Exists(files, dirs1, path), path, header, row1, true);
            var dirs2 := DirsAfterEnsure(files1, dirs1, path, env2);
            var files2 := FilesAfterAppend(files1, Exists(files1, dirs2, path), path, header, row2, true);
            files2[path] == Unlines([header, row1, row2])
  {
    var dirs1 := DirsAfterEnsure(files, dirs, path, env1);
    EnsureDirKeepsFileAbsent(files, dirs, path, env1);
    var files1 := FilesAfterAppend(files, false, path, header, row1, true);
    assert files1[path] == Unlines([header, row1]) by {
      AppendAddsLines(files, false, path, header, row1, []);
      assert [] + [header] + [row1] == [header, row1];
    }
    var dirs2 := DirsAfterEnsure(files1, dirs1, path, env2);
    assert Exists(files1, dirs2, path);
    AppendAddsLines(files1, true, path, header, row2, [header, row1]);
    assert [header, row1] + [] + [row2] == [header, row1, row2];
  }

  /** The column names of each header. */
  function SerialNames(): seq<string> { ["Tamanho", "Tempo(s)"] }

  function OpenMPNames(): seq<string>
  {
    ["Tamanho", "Threads", "Schedule", "Tempo(s)", "Speedup", "Eficiencia"]
  }

  function MpiNames(): seq<string>
  {
    ["Tamanho", "Processos", "TempoTotal(max)", "TempoComputacao(soma)",
     "TempoComunicacao(soma)", "OverheadAbsoluto", "OverheadRelativo",
     "EficienciaComunicacao", "Speedup", "Eficiencia"]
  }

  /** A text whose every character differs from the separator. */
  lemma NoSeparator(s: string, sep: char)
    requires forall k :: 0 <= k < |s| ==> s[k] != sep
    ensures sep !in s
  {
  }

  /** Each header reads back as its list of column names. */
  lemma SerialHeaderFields()
    ensures Split(SerialHeader(), ',') == SerialNames()
  {
    NoSeparator("Tamanho", ',');
    NoSeparator("Tempo(s)", ',');
    SplitJoin(SerialNames(), ',');
  }

  lemma OpenMPHeaderFields()
    ensures Split(OpenMPHeader(), ',') == OpenMPNames()
    ensures |Split(OpenMPHeader(), ',')| == 6
  {
    NoSeparator("Tamanho", ',');
    NoSeparator("Threads", ',');
    NoSeparator("Schedule", ',');
    NoSeparator("Tempo(s)", ',');
    NoSeparator("Speedup", ',');
    NoSeparator("Eficiencia", ',');
    SplitJoin(OpenMPNames(), ',');
  }

  lemma MpiHeaderFields()
    ensures Split(MpiHeader(), ',') == MpiNames()
    ensures |Split(MpiHeader(), ',')| == 10
  {
    MpiNamesPlain();
    SplitJoin(MpiNames(), ',');
  }

  lemma MpiNamesPlain()
    ensures forall k :: 0 <= k < |MpiNames()| ==> ',' !in MpiNames()[k]
  {
    NoSeparator("Tamanho", ',');
    NoSeparator("Processos", ',');
    NoSeparator("TempoTotal(max)", ',');
    NoSeparator("TempoComputacao(soma)", ',');
    NoSeparator("TempoComunicacao(soma)", ',');
    NoSeparator("OverheadAbsoluto", ',');
    NoSeparator("OverheadRelativo", ',');
    NoSeparator("EficienciaComunicacao", ',');
    NoSeparator("Speedup", ',');
    NoSeparator("Eficiencia", ',');
  }

  /** The serial row has the header's 2 fields, and they read back as the
      size and the time. */
  lemma SerialFieldsMatch(n: int, time: int)
    ensures Split(Join(SerialFields(n, time), ','), ',') == SerialFields(n, time)
    ensures |Split(Join(SerialFields(n, time), ','), ',')| == |Split(SerialHeader(), ',')|
    ensures ParseInt(SerialFields(n, time)[0]) == n
    ensures ParseFixed(SerialFields(n, time)[1], 6) == time
  {
    SerialHeaderFields();
    SplitJoin(SerialFields(n, time), ',');
    IntStringRoundTrip(n);
    FixedStringRoundTrip(time, 6);
  }

  /** The OpenMP row has the header's 6 fields exactly when the schedule
      name has no comma. */
  lemma OpenMPFieldsMatch(n: int, threads: int, schedule: string, time: int, speedup: int,
                          efficiency: int)
    ensures |Split(Join(OpenMPFields(n, threads, schedule, time, speedup, efficiency), ','), ',')|
              == |Split(OpenMPHeader(), ',')|
            <==> ',' !in schedule
  {
    OpenMPHeaderFields();
    if ',' in schedule {
      OpenMPCommaRow(n, threads, schedule, time, speedup, efficiency);
    } else {
      OpenMPRowSplitsBack(n, threads, schedule, time, speedup, efficiency);
    }
  }

  /** A comma in the schedule name adds at least one field. */
  lemma OpenMPCommaRow(n: int, threads: int, schedule: string, time: int, speedup: int,
                       efficiency: int)
    requires ',' in schedule
    ensures |Split(Join(OpenMPFields(n, threads, schedule, time, speedup, efficiency), ','), ',')| > 6
  {
    var fs := OpenMPFields(n, threads, schedule, time, speedup, efficiency);
    SplitCount(Join(fs, ','), ',');
    CountJoin(fs, ',', 2);
    CountZero(',', schedule);
  }

  /** Without one, the row splits back into its six fields. */
  lemma OpenMPRowSplitsBack(n: int, threads: int, schedule: string, time: int, speedup: int,
                            efficiency: int)
    requires ',' !in schedule
    ensures var fs := OpenMPFields(n, threads, schedule, time, speedup, efficiency);
            Split(Join(fs, ','), ',') == fs && |fs| == 6
  {
    RowOfRenderings([IntString(n), IntString(threads), schedule],
                    [time, speedup, efficiency], [6, 4, 4]);
  }

  /** Every OpenMP field reads back as the value written. */
  lemma OpenMPFieldsRoundTrip(n: int, threads: int, schedule: string, time: int, speedup: int,
                              efficiency: int)
    ensures var fs := OpenMPFields(n, threads, schedule, time, speedup, efficiency);
            ParseInt(fs[0]) == n && ParseInt(fs[1]) == threads && fs[2] == schedule
            && ParseFixed(fs[3], 6) == time && ParseFixed(fs[4], 4) == speedup
            && ParseFixed(fs[5], 4) == efficiency
  {
    IntStringRoundTrip(n);
    IntStringRoundTrip(threads);
    FixedFieldsRoundTrip([time, speedup, efficiency], [6, 4, 4]);
  }

  /** Every MPI field reads back as the value written. */
  lemma MpiFieldsRoundTrip(n: int, size: int, parallel: int, computation: int, communication: int,
                           overheadAbs: int, overheadRel: int, commEfficiency: int, speedup: int,
                           efficiency: int)
    ensures var fs := MpiFields(n, size, parallel, computation, communication, overheadAbs,
                                overheadRel, commEfficiency, speedup, efficiency);
            var vs := [parallel, computation, communication, overheadAbs, overheadRel,
                       commEfficiency, speedup, efficiency];
            ParseInt(fs[0]) == n && ParseInt(fs[1]) == size
            && forall k :: 0 <= k < 8 ==> ParseFixed(fs[2 + k], MpiPlaces()[k]) == vs[k]
  {
    IntStringRoundTrip(n);
    IntStringRoundTrip(size);
    FixedFieldsRoundTrip([parallel, computation, communication, overheadAbs, overheadRel,
                          commEfficiency, speedup, efficiency], MpiPlaces());
  }

  /** Every `%.Nf` field reads back as the value written. */
  lemma FixedFieldsRoundTrip(values: seq<int>, places: seq<nat>)
    requires |values| == |places|
    ensures forall k :: 0 <= k < |values| ==>
              ParseFixed(FixedFields(values, places)[k], places[k]) == values[k]
  {
    forall k | 0 <= k < |values|
      ensures ParseFixed(FixedFields(values, places)[k], places[k]) == values[k]
    {
      FixedStringRoundTrip(values[k], places[k]);
    }
  }

  /** The MPI row has the header's 10 fields, and splitting it gives back
      the rendered numbers. */
  lemma MpiFieldsMatch(n: int, size: int, parallel: int, computation: int, communication: int,
                       overheadAbs: int, overheadRel: int, commEfficiency: int, speedup: int,
                       efficiency: int)
    ensures var fs := MpiFields(n, size, parallel, computation, communication, overheadAbs,
                                overheadRel, commEfficiency, speedup, efficiency);
            Split(Join(fs, ','), ',') == fs && |fs| == |Split(MpiHeader(), ',')|
  {
    MpiRowSplitsBack(n, size, parallel, computation, communication, overheadAbs, overheadRel,
                     commEfficiency, speedup, efficiency);
    MpiRowWidth(n, size, parallel, computation, communication, overheadAbs, overheadRel,
                commEfficiency, speedup, efficiency);
  }

  lemma MpiRowSplitsBack(n: int, size: int, parallel: int, computation: int, communication: int,
                         overheadAbs: int, overheadRel: int, commEfficiency: int, speedup: int,
                         efficiency: int)
    ensures var fs := MpiFields(n, size, parallel, computation, communication, overheadAbs,
                                overheadRel, commEfficiency, speedup, efficiency);
            Split(Join(fs, ','), ',') == fs
  {
    MpiRowSplits([IntString(n), IntString(size)],
                 [parallel, computation, communication, overheadAbs, overheadRel,
                  commEfficiency, speedup, efficiency]);
  }

  lemma MpiRowWidth(n: int, size: int, parallel: int, computation: int, communication: int,
                    overheadAbs: int, overheadRel: int, commEfficiency: int, speedup: int,
                    efficiency: int)
    ensures |MpiFields(n, size, parallel, computation, communication, overheadAbs,
                       overheadRel, commEfficiency, speedup, efficiency)|
              == |Split(MpiHeader(), ',')|
  {
    MpiHeaderFields();
  }

  /** The places of the MPI row's eight `%.Nf` fields. */
  function MpiPlaces(): seq<nat> { [6, 6, 6, 6, 2, 4, 4, 4] }

  lemma MpiRowSplits(ns: seq<string>, vs: seq<int>)
    requires |ns| == 2 && |vs| == 8
    requires forall k :: 0 <= k < |ns| ==> ',' !in ns[k]
    ensures Split(Join(ns + FixedFields(vs, MpiPlaces()), ','), ',') == ns + FixedFields(vs, MpiPlaces())
    ensures |ns + FixedFields(vs, MpiPlaces())| == 10
  {
    RowOfRenderings(ns, vs, MpiPlaces());
  }

  /** Comma-free leading fields followed by `%.Nf` renderings split back
      into exactly those fields. */
  lemma RowOfRenderings(ns: seq<string>, values: seq<int>, places: seq<nat>)
    requires |values| == |places| && |ns| >= 1
    requires forall k :: 0 <= k < |ns| ==> ',' !in ns[k]
    ensures Split(Join(ns + FixedFields(values, places), ','), ',') == ns + FixedFields(values, places)
  {
    var xs := FixedFields(values, places);
    var fs := ns + xs;
    forall k | 0 <= k < |fs| ensures ',' !in fs[k] {
      if k < |ns| { assert fs[k] == ns[k]; } else { assert fs[k] == xs[k - |ns|]; }
    }
    SplitJoin(fs, ',');
  }

  /** The abstract file system the helpers work on. */
  class FileSystem {
    var files: map<string, string>
    var dirs: set<string>

    constructor (files0: map<string, string>, dirs0: set<string>)
      ensures files == files0 && dirs == dirs0
    {
      files := files0;
      dirs := dirs0;
    }

    /** `ensure_dir_exists(filepath)`: copy the path, cut it at the last
        '/', and create that directory unless `stat` finds it. */
    method EnsureDirExists(filepath: string, env: Outcomes)
      modifies this
      ensures files == old(files)
      ensures dirs == DirsAfterEnsure(old(files), old(dirs), filepath, env)
    {
      if !env.dupOk {
        return;
      }
      var lastSlash := LastSlash(filepath);
      if lastSlash.Some? {
        var dirPath := filepath[..lastSlash.value];
        if !(dirPath in files || dirPath in dirs) {
          if env.mkdirOk {
            dirs := dirs + {dirPath};
          }
        }
      }
    }

    /** The body the three save functions share: make the directory, note
        whether the file exists, open it for appending (or give up), write
        the header if it did not exist, then the row. */
    method AppendResult(filepath: string, header: string, row: string, env: Outcomes)
      modifies this
      ensures dirs == DirsAfterEnsure(old(files), old(dirs), filepath, env)
      ensures files == FilesAfterAppend(old(files), Exists(old(files), dirs, filepath),
                                        filepath, header, row, env.openOk)
    {
      EnsureDirExists(filepath, env);
      var needsHeader := !(filepath in files || filepath in dirs);
      if !env.openOk {
        return;
      }
      ghost var before := Content(files, filepath);
      var text := Content(files, filepath);
      if needsHeader {
        text := text + Unlines([header]);
      }
      text := text + Unlines([row]);
      UnlinesAppend([header], [row]);
      assert [] + [row] == [row];
      assert text == before + Unlines((if needsHeader then [header] else []) + [row]);
      files := files[filepath := text];
    }

    /** `save_serial_result`. */
    method SaveSerialResult(filepath: string, n: int, time: int, env: Outcomes)
      modifies this
      ensures dirs == DirsAfterEnsure(old(files), old(dirs), filepath, env)
      ensures files == FilesAfterAppend(old(files), Exists(old(files), dirs, filepath),
                                        filepath, SerialHeader(), Join(SerialFields(n, time), ','),
                                        env.openOk)
    {
      AppendResult(filepath, SerialHeader(), Join(SerialFields(n, time), ','), env);
    }

    /** `save_openmp_result`. */
    method SaveOpenMPResult(filepath: string, n: int, threads: int, schedule: string,
                            time: int, speedup: int, efficiency: int, env: Outcomes)
      modifies this
      ensures dirs == DirsAfterEnsure(old(files), old(dirs), filepath, env)
      ensures files == FilesAfterAppend(old(files), Exists(old(files), dirs, filepath),
                                        filepath, OpenMPHeader(),
                                        Join(OpenMPFields(n, threads, schedule, time, speedup, efficiency), ','),
                                        env.openOk)
    {
      AppendResult(filepath, OpenMPHeader(),
                   Join(OpenMPFields(n, threads, schedule, time, speedup, efficiency), ','), env);
    }

    /** `save_mpi_result`. */
    method SaveMpiResult(filepath: string, n: int, size: int, parallel: int, computation: int,
                         communication: int, overheadAbs: int, overheadRel: int,
                         commEfficiency: int, speedup: int, efficiency: int, env: Outcomes)
      modifies this
      ensures dirs == DirsAfterEnsure(old(files), old(dirs), filepath, env)
      ensures files == FilesAfterAppend(old(files), Exists(old(files), dirs, filepath),
                                        filepath, MpiHeader(),
                                        Join(MpiFields(n, size, parallel, computation, communication,
                                                       overheadAbs, overheadRel, commEfficiency,
                                                       speedup, efficiency), ','),
                                        env.openOk)
    {
      AppendResult(filepath, MpiHeader(),
                   Join(MpiFields(n, size, parallel, computation, communication, overheadAbs,
                                  overheadRel, commEfficiency, speedup, efficiency), ','), env);
    }
  }
}
