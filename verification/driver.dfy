/**
 * The driver: converts each listed file that exists and sums the counts.
 * The SQL files of the directory are a map from file name to the text read
 * from it in text mode, with line endings already turned into `\n`; a name
 * is in the map when its file exists. The `.backup` copies the program
 * writes beside them are not in the map. The directory check is a boolean
 * input.
 */
module Driver {
  import opened Seqs
  import opened Mappings
  import opened Convert

  /** The five files the driver converts, in order. */
  const SqlFiles: seq<string> := [
    "04-data-users-01.sql",
    "05-data-regions-01.sql",
    "06-data-categories-01.sql",
    "09-data-keywords-01.sql",
    "11-data-schedules-01.sql"
  ]

  /** The SQL files after a run and the total count of recorded pairs. */
  datatype Run = Run(files: map<string, string>, total: nat)

  /** What the driver ends with: an error for a missing directory, or a finished run. */
  datatype Outcome = DirectoryMissing | Finished(run: Run)

  /** Content the conversion leaves alone and counts 0 on. */
  predicate Settled(content: string) {
    ConvertSqlFile(content) == Conversion(content, [])
  }

  /**
   * Converts the named files in order, skipping names with no file, and
   * sums the counts. SQL files are only rewritten, never created or removed.
   * A name listed twice is converted twice, which changes nothing the
   * second time.
   */
  function ConvertAll(files: map<string, string>, names: seq<string>): (r: Run)
    ensures r.files.Keys == files.Keys
    ensures forall n :: n in files && n !in names ==> r.files[n] == files[n]
    ensures forall n :: n in names && n in files ==> r.files[n] == ConvertSqlFile(files[n]).content
    ensures forall n :: n in names && n in files ==> Settled(r.files[n])
    ensures r.total <= 31 * |names|
    decreases |names|
  {
    if |names| == 0 then Run(files, 0)
    else
      var n := names[0];
      if n in files then
        var c := ConvertSqlFile(files[n]);
        ConvertIdempotent(files[n]);
        var rest := ConvertAll(files[n := c.content], names[1..]);
        Run(rest.files, c.Count() + rest.total)
      else
        ConvertAll(files, names[1..])
  }

  /** The driver: an error when the directory is missing, otherwise the run over the five files. */
  function Main(directoryExists: bool, files: map<string, string>): (o: Outcome)
    ensures !directoryExists <==> o == DirectoryMissing
    ensures o.Finished? ==> o.run.files.Keys == files.Keys && o.run.total <= 155
    ensures o.Finished? ==> forall n :: n in SqlFiles && n in files ==> o.run.files[n] == ConvertSqlFile(files[n]).content
    ensures o.Finished? ==> forall n :: n in files && n !in SqlFiles ==> o.run.files[n] == files[n]
    ensures o.Finished? ==> o.run.total == SumCounts(files, SqlFiles)
  {
    if !directoryExists then DirectoryMissing
    else
      SqlFilesDistinct();
      TotalIsSum(files, SqlFiles);
      Finished(ConvertAll(files, SqlFiles))
  }

  /** No name occurs twice in the list. */
  predicate Distinct(names: seq<string>) {
    forall i, j :: 0 <= i < j < |names| ==> names[i] != names[j]
  }

  /** The sum of the counts each listed existing file gets when converted from its original text. */
  function SumCounts(files: map<string, string>, names: seq<string>): nat {
    if |names| == 0 then 0
    else (if names[0] in files then ConvertSqlFile(files[names[0]]).Count() else 0) + SumCounts(files, names[1..])
  }

  lemma SqlFilesDistinct()
    ensures Distinct(SqlFiles)
  {
  }

  /** The sum only looks at the listed names. */
  lemma {:induction false} SumCountsFrame(f: map<string, string>, g: map<string, string>, names: seq<string>)
    requires forall n :: n in names ==> (n in f <==> n in g) && (n in f ==> f[n] == g[n])
    ensures SumCounts(f, names) == SumCounts(g, names)
  {
    if |names| > 0 {
      SumCountsFrame(f, g, names[1..]);
    }
  }

  /** Over distinct names the run's total is the sum of the files' own counts. */
  lemma {:induction false} TotalIsSum(files: map<string, string>, names: seq<string>)
    requires Distinct(names)
    ensures ConvertAll(files, names).total == SumCounts(files, names)
    decreases |names|, 1
  {
    if |names| > 0 {
      if names[0] in files {
        TotalIsSumAtFile(files, names);
      } else {
        DistinctTail(names);
        TotalIsSum(files, names[1..]);
        SkipMissing(files, names);
      }
    }
  }

  lemma {:induction false} TotalIsSumAtFile(files: map<string, string>, names: seq<string>)
    requires Distinct(names) && |names| > 0 && names[0] in files
    ensures ConvertAll(files, names).total == SumCounts(files, names)
    decreases |names|, 0
  {
    var after := files[names[0] := ConvertSqlFile(files[names[0]]).content];
    DistinctTail(names);
    TotalIsSum(after, names[1..]);
    SumCountsFrame(after, files, names[1..]);
    ConvertAllAt(files, names);
  }

  /** A first name with no file adds nothing to the run or to the sum. */
  lemma SkipMissing(files: map<string, string>, names: seq<string>)
    requires |names| > 0 && names[0] !in files
    ensures ConvertAll(files, names).total == ConvertAll(files, names[1..]).total
    ensures SumCounts(files, names) == SumCounts(files, names[1..])
  {
  }

  lemma DistinctTail(names: seq<string>)
    requires |names| > 0 && Distinct(names)
    ensures Distinct(names[1..]) && names[0] !in names[1..]
  {
    forall i, j | 0 <= i < j < |names[1..]|
      ensures names[1..][i] != names[1..][j]
    {
      assert names[1..][i] == names[i + 1] && names[1..][j] == names[j + 1];
    }
    forall k | 0 <= k < |names[1..]|
      ensures names[1..][k] != names[0]
    {
      assert names[1..][k] == names[k + 1];
    }
  }

  /** The run's total and the sum when the first listed name has a file. */
  lemma ConvertAllAt(files: map<string, string>, names: seq<string>)
    requires |names| > 0 && names[0] in files
    ensures var c := ConvertSqlFile(files[names[0]]);
      ConvertAll(files, names).total == c.Count() + ConvertAll(files[names[0] := c.content], names[1..]).total
    ensures SumCounts(files, names) == ConvertSqlFile(files[names[0]]).Count() + SumCounts(files, names[1..])
  {
  }

  /** A name with no file contributes nothing: the run is as if it were not listed. */
  lemma {:induction false} MissingFileSkipped(files: map<string, string>, before: seq<string>, n: string, after: seq<string>)
    requires n !in files
    ensures ConvertAll(files, before + [n] + after) == ConvertAll(files, before + after)
    decreases |before|
  {
    if |before| == 0 {
      JoinEmpty(before, n, after);
    } else {
      var m := before[0];
      JoinTail(before, n, after);
      if m in files {
        MissingFileSkipped(files[m := ConvertSqlFile(files[m]).content], before[1..], n, after);
      } else {
        MissingFileSkipped(files, before[1..], n, after);
      }
    }
  }

  lemma SettledStep(files: map<string, string>, n: string)
    requires n in files && Settled(files[n])
    ensures files[n := ConvertSqlFile(files[n]).content] == files
    ensures ConvertSqlFile(files[n]).Count() == 0
  {
    assert ConvertSqlFile(files[n]).content == files[n];
  }

  /** A run over settled files changes nothing and counts 0. */
  lemma {:induction false} SettledRunIsIdle(files: map<string, string>, names: seq<string>)
    requires forall n :: n in names && n in files ==> Settled(files[n])
    ensures ConvertAll(files, names) == Run(files, 0)
    decreases |names|
  {
    if |names| > 0 {
      var n := names[0];
      SettledRunIsIdle(files, names[1..]);
      if n in files {
        SettledStep(files, n);
      }
    }
  }

  /** Running the driver a second time changes no file and reports a total of 0. */
  lemma RerunIsIdle(files: map<string, string>, names: seq<string>)
    ensures var once := ConvertAll(files, names).files;
      ConvertAll(once, names) == Run(once, 0)
  {
    SettledRunIsIdle(ConvertAll(files, names).files, names);
  }
}
