/** The task catalog of run.js (`allTasks`, lines 20-48) and each task's
    solution enumerator (`getSolutions`, lines 31-36), over an in-memory
    file system. */
module Catalog {
  import opened Seqs
  import opened Strings
  import opened Paths

  /** An absolute path, as its segments. */
  type Path = seq<string>

  /** The directory listings visible to `Fs.readdirSync`, in the order the
      listing yields them. A path that is not a key is not a readable
      directory: a missing entry, or a file. */
  type FileSystem = map<Path, seq<string>>

  /** The errors run.js lets escape: a directory it cannot list, and a
      selector that matches no task. */
  datatype Error = Unreadable(path: Path) | NoMatch(selector: string)

  datatype Result<T> = Ok(value: T) | Err(error: Error)

  /** `Fs.readdirSync(dir)`, which throws when `dir` cannot be listed. */
  function ReadDir(fs: FileSystem, dir: Path): (r: Result<seq<string>>)
  {
    if dir in fs then Ok(fs[dir]) else Err(Unreadable(dir))
  }

  /** `/^\d\d\d\d$/`: exactly four ASCII digits. */
  predicate IsYearName(n: string)
  {
    |n| == 4 && forall i :: 0 <= i < 4 ==> '0' <= n[i] <= '9'
  }

  /** An input file is a test fixture when its name contains "test". */
  predicate IsTestName(n: string)
  {
    Contains(n, "test")
  }

  predicate IsInputName(n: string)
  {
    !IsTestName(n)
  }

  /** `['.js', '.ts'].includes(Path.extname(n))`. */
  predicate IsScriptName(n: string)
  {
    Extname(n) == ".js" || Extname(n) == ".ts"
  }

  /** One catalog record. Its `inputs/` listing is read, and split into
      `tests` and `inputs`, when the record is built; its solutions are
      enumerated later, by `GetSolutions`. */
  datatype Task = Task(dir: Path, year: string, day: string, tests: seq<string>, inputs: seq<string>)

  /** What a record built from `fs` under `root` holds: its directory is
      root/year/day, and its `inputs/` listing split by the "test" rule. */
  ghost predicate WellBuilt(fs: FileSystem, root: Path, t: Task)
  {
    && t.dir == root + [t.year, t.day]
    && t.dir + ["inputs"] in fs
    && t.tests == Filter(IsTestName, fs[t.dir + ["inputs"]])
    && t.inputs == Filter(IsInputName, fs[t.dir + ["inputs"]])
  }

  /** The record for one day entry (run.js:26-45). */
  function MakeTask(fs: FileSystem, root: Path, year: string, day: string): (r: Result<Task>)
    ensures r.Ok? <==> root + [year, day, "inputs"] in fs
    ensures r.Ok? ==> r.value.year == year && r.value.day == day && WellBuilt(fs, root, r.value)
    ensures r.Err? ==> r.error == Unreadable(root + [year, day, "inputs"])
  {
    var dir := root + [year, day];
    assert dir + ["inputs"] == root + [year, day, "inputs"];
    match ReadDir(fs, dir + ["inputs"])
    case Err(e) => Err(e)
    case Ok(names) => Ok(Task(dir, year, day, Filter(IsTestName, names), Filter(IsInputName, names)))
  }

  /** The records of one year's day entries, in listing order; the first day
      whose `inputs/` cannot be listed aborts (run.js:25-46). */
  function DayTasks(fs: FileSystem, root: Path, year: string, days: seq<string>): (r: Result<seq<Task>>)
    ensures r.Ok? <==> forall d :: d in days ==> root + [year, d, "inputs"] in fs
    ensures r.Ok? ==> |r.value| == |days| && forall i :: 0 <= i < |days| ==>
      r.value[i].year == year && r.value[i].day == days[i] && WellBuilt(fs, root, r.value[i])
    ensures r.Err? ==> r.error.Unreadable? && r.error.path !in fs
    decreases |days|
  {
    if days == [] then Ok([])
    else
      match MakeTask(fs, root, year, days[0])
      case Err(e) => Err(e)
      case Ok(t) =>
        match DayTasks(fs, root, year, days[1..])
        case Err(e) => Err(e)
        case Ok(ts) => Ok([t] + ts)
  }

  /** One year's records: list root/year, then build a record per day. */
  function YearTasks(fs: FileSystem, root: Path, year: string): (r: Result<seq<Task>>)
  {
    match ReadDir(fs, root + [year])
    case Err(e) => Err(e)
    case Ok(days) => DayTasks(fs, root, year, days)
  }

  /** The `reduce` of run.js:22-48: append each year's records to the
      records gathered so far. */
  function CollectYears(fs: FileSystem, root: Path, acc: seq<Task>, years: seq<string>): (r: Result<seq<Task>>)
    decreases |years|
  {
    if years == [] then Ok(acc)
    else
      match YearTasks(fs, root, years[0])
      case Err(e) => Err(e)
      case Ok(ts) => CollectYears(fs, root, acc + ts, years[1..])
  }

  /** `allTasks`: the root entries that are year names, each expanded into
      its days. */
  function BuildCatalog(fs: FileSystem, root: Path): (r: Result<seq<Task>>)
  {
    match ReadDir(fs, root)
    case Err(e) => Err(e)
    case Ok(entries) => CollectYears(fs, root, [], Filter(IsYearName, entries))
  }

  /** A task's `getSolutions()`: list its directory again and keep the
      `.js`/`.ts` entries whose module exports a `run` function.
      `exportsRun(p)` stands for `typeof require(p).run === 'function'`. */
  function GetSolutions(fs: FileSystem, exportsRun: Path -> bool, t: Task): (r: Result<seq<string>>)
    ensures r.Ok? <==> t.dir in fs
    ensures r.Err? ==> r.error == Unreadable(t.dir)
    ensures r.Ok? ==> IsSubsequence(r.value, fs[t.dir])
    ensures r.Ok? ==> forall i :: 0 <= i < |r.value| ==>
      IsScriptName(r.value[i]) && exportsRun(t.dir + [r.value[i]]) && r.value[i] in fs[t.dir]
    ensures r.Ok? ==> forall i :: 0 <= i < |fs[t.dir]| && IsScriptName(fs[t.dir][i]) && exportsRun(t.dir + [fs[t.dir][i]]) ==>
      fs[t.dir][i] in r.value
  {
    match ReadDir(fs, t.dir)
    case Err(e) => Err(e)
    case Ok(names) =>
      var keep := (n: string) => IsScriptName(n) && exportsRun(t.dir + [n]);
      FilterIsSubsequence(keep, names);
      Ok(Filter(keep, names))
  }

  // ---------------------------------------------------------------------
  // The shape of the catalog.

  /** The `(year, day)` pair of every record, in catalog order. */
  function Pairs(ts: seq<Task>): (ps: seq<(string, string)>)
  {
    seq(|ts|, i requires 0 <= i < |ts| => (ts[i].year, ts[i].day))
  }

  /** The reference shape of the catalog: for each year in order, one pair
      per entry of that year's listing, in listing order. */
  ghost function ExpectedPairs(fs: FileSystem, root: Path, years: seq<string>): (ps: seq<(string, string)>)
    requires forall y :: y in years ==> root + [y] in fs
    decreases |years|
  {
    if years == [] then []
    else
      var days := fs[root + [years[0]]];
      seq(|days|, i requires 0 <= i < |days| => (years[0], days[i])) + ExpectedPairs(fs, root, years[1..])
  }

  /** Every listing the builder reads for `year` can be read. */
  ghost predicate YearReadable(fs: FileSystem, root: Path, year: string)
  {
    root + [year] in fs && forall d :: d in fs[root + [year]] ==> root + [year, d, "inputs"] in fs
  }

  /** Every listing the builder reads can be read. */
  ghost predicate Readable(fs: FileSystem, root: Path)
  {
    root in fs && forall y :: y in fs[root] && IsYearName(y) ==> YearReadable(fs, root, y)
  }

  /** Total number of day entries over the given years. */
  ghost function DayCount(fs: FileSystem, root: Path, years: seq<string>): (n: nat)
    requires forall y :: y in years ==> root + [y] in fs
    decreases |years|
  {
    if years == [] then 0 else |fs[root + [years[0]]]| + DayCount(fs, root, years[1..])
  }

  /** Put `acc` in front of a successful result; errors pass through. */
  function Prepend(acc: seq<Task>, r: Result<seq<Task>>): (r': Result<seq<Task>>)
  {
    match r
    case Err(e) => Err(e)
    case Ok(ts) => Ok(acc + ts)
  }

  /** The accumulator of the `reduce` only ever stands in front. */
  lemma {:induction false} CollectYearsAcc(fs: FileSystem, root: Path, acc: seq<Task>, years: seq<string>)
    ensures CollectYears(fs, root, acc, years) == Prepend(acc, CollectYears(fs, root, [], years))
    decreases |years|
  {
    if years == [] {
      assert acc + [] == acc;
    } else {
      var first := YearTasks(fs, root, years[0]);
      if first.Ok? {
        var ts := first.value;
        var tail := CollectYears(fs, root, [], years[1..]);
        calc {
          CollectYears(fs, root, acc, years);
          CollectYears(fs, root, acc + ts, years[1..]);
          { CollectYearsAcc(fs, root, acc + ts, years[1..]); }
          Prepend(acc + ts, tail);
          { PrependTwice(acc, ts, tail); }
          Prepend(acc, Prepend(ts, tail));
          { CollectYearsAcc(fs, root, ts, years[1..]); }
          Prepend(acc, CollectYears(fs, root, ts, years[1..]));
          { assert [] + ts == ts; }
          Prepend(acc, CollectYears(fs, root, [], years));
        }
      }
    }
  }

  lemma PrependTwice(acc: seq<Task>, ts: seq<Task>, r: Result<seq<Task>>)
    ensures Prepend(acc + ts, r) == Prepend(acc, Prepend(ts, r))
  {
    if r.Ok? {
      assert (acc + ts) + r.value == acc + (ts + r.value);
    }
  }

  /** One year's records: readable exactly when all of its listings are,
      and then one record per day entry, in listing order. */
  lemma YearTasksShape(fs: FileSystem, root: Path, year: string)
    ensures YearTasks(fs, root, year).Ok? <==> YearReadable(fs, root, year)
    ensures YearTasks(fs, root, year).Ok? ==>
      var ts := YearTasks(fs, root, year).value;
      var days := fs[root + [year]];
      && Pairs(ts) == seq(|days|, i requires 0 <= i < |days| => (year, days[i]))
      && forall i :: 0 <= i < |ts| ==> ts[i].year == year && ts[i].day in days && WellBuilt(fs, root, ts[i])
    ensures YearTasks(fs, root, year).Err? ==>
      YearTasks(fs, root, year).error.Unreadable? && YearTasks(fs, root, year).error.path !in fs
  {
    if root + [year] in fs {
      var days := fs[root + [year]];
      var r := DayTasks(fs, root, year, days);
      if r.Ok? {
        var ts := r.value;
        forall i | 0 <= i < |ts| ensures ts[i].day in days {
          assert ts[i].day == days[i];
        }
      }
    }
  }

  /** The years part of the builder, by induction over the year names. */
  lemma {:induction false} CollectYearsShape(fs: FileSystem, root: Path, years: seq<string>)
    ensures CollectYears(fs, root, [], years).Ok? <==> forall y :: y in years ==> YearReadable(fs, root, y)
    ensures CollectYears(fs, root, [], years).Ok? ==>
      var cat := CollectYears(fs, root, [], years).value;
      && Pairs(cat) == ExpectedPairs(fs, root, years)
      && forall i :: 0 <= i < |cat| ==>
           && cat[i].year in years
           && cat[i].day in fs[root + [cat[i].year]]
           && WellBuilt(fs, root, cat[i])
    ensures CollectYears(fs, root, [], years).Err? ==>
      CollectYears(fs, root, [], years).error.Unreadable? && CollectYears(fs, root, [], years).error.path !in fs
    decreases |years|
  {
    if years != [] {
      var y := years[0];
      YearTasksShape(fs, root, y);
      CollectYearsShape(fs, root, years[1..]);
      assert forall z :: z in years <==> z == y || z in years[1..];
      match YearTasks(fs, root, y)
      case Err(e) =>
      case Ok(ts) =>
        CollectYearsAcc(fs, root, [] + ts, years[1..]);
        assert [] + ts == ts;
        match CollectYears(fs, root, [], years[1..])
        case Err(e) =>
        case Ok(rest) =>
          assert CollectYears(fs, root, [], years) == Ok(ts + rest);
          RecordsConcat(fs, root, years, ts, rest);
    }
  }

  /** The step of `CollectYearsShape`: the first year's records followed by
      the records of the other years. */
  lemma RecordsConcat(fs: FileSystem, root: Path, years: seq<string>, ts: seq<Task>, rest: seq<Task>)
    requires years != [] && forall y :: y in years ==> root + [y] in fs
    requires forall i :: 0 <= i < |ts| ==> ts[i].year == years[0] && ts[i].day in fs[root + [years[0]]] && WellBuilt(fs, root, ts[i])
    requires forall i :: 0 <= i < |rest| ==>
      rest[i].year in years[1..] && root + [rest[i].year] in fs && rest[i].day in fs[root + [rest[i].year]] && WellBuilt(fs, root, rest[i])
    ensures Pairs(ts + rest) == Pairs(ts) + Pairs(rest)
    ensures forall i :: 0 <= i < |ts + rest| ==>
      (ts + rest)[i].year in years && (ts + rest)[i].day in fs[root + [(ts + rest)[i].year]] && WellBuilt(fs, root, (ts + rest)[i])
  {
    var cat := ts + rest;
    forall i | 0 <= i < |cat|
      ensures cat[i].year in years && cat[i].day in fs[root + [cat[i].year]] && WellBuilt(fs, root, cat[i])
    {
      if i < |ts| {
        assert cat[i] == ts[i];
      } else {
        assert cat[i] == rest[i - |ts|];
        assert cat[i].year in years[1..];
      }
    }
  }

  /** The catalog holds one record per (year, day) pair, years in root
      listing order restricted to year names, days in each year's listing
      order; each record's directory is root/year/day and its tests and
      inputs come from its own `inputs/` listing. It is built exactly when
      every listing it reads exists; otherwise the error names a path that
      cannot be listed. */
  lemma CatalogShape(fs: FileSystem, root: Path)
    ensures BuildCatalog(fs, root).Ok? <==> Readable(fs, root)
    ensures BuildCatalog(fs, root).Ok? ==>
      var cat := BuildCatalog(fs, root).value;
      var years := Filter(IsYearName, fs[root]);
      && Pairs(cat) == ExpectedPairs(fs, root, years)
      && forall i :: 0 <= i < |cat| ==>
           && IsYearName(cat[i].year)
           && cat[i].year in fs[root]
           && cat[i].day in fs[root + [cat[i].year]]
           && WellBuilt(fs, root, cat[i])
    ensures BuildCatalog(fs, root).Err? ==>
      BuildCatalog(fs, root).error.Unreadable? && BuildCatalog(fs, root).error.path !in fs
  {
    if root in fs {
      var years := Filter(IsYearName, fs[root]);
      CollectYearsShape(fs, root, years);
      assert forall y :: y in years <==> y in fs[root] && IsYearName(y) by {
        forall y ensures y in years <==> y in fs[root] && IsYearName(y) {
          if y in fs[root] && IsYearName(y) {
            var k :| 0 <= k < |fs[root]| && fs[root][k] == y;
          }
        }
      }
    }
  }

  /** The reference shape has a pair exactly for each listed day of each year. */
  lemma {:induction false} ExpectedPairsMembers(fs: FileSystem, root: Path, years: seq<string>, year: string, day: string)
    requires forall y :: y in years ==> root + [y] in fs
    ensures (year, day) in ExpectedPairs(fs, root, years) <==> year in years && day in fs[root + [year]]
    decreases |years|
  {
    if years != [] {
      var y := years[0];
      var days := fs[root + [y]];
      var head := seq(|days|, i requires 0 <= i < |days| => (y, days[i]));
      ExpectedPairsMembers(fs, root, years[1..], year, day);
      assert ExpectedPairs(fs, root, years) == head + ExpectedPairs(fs, root, years[1..]);
      assert (year, day) in head <==> year == y && day in days by {
        if year == y && day in days {
          var k :| 0 <= k < |days| && days[k] == day;
          assert head[k] == (year, day);
        }
      }
      assert year in years <==> year == y || year in years[1..];
    }
  }

  /** The reference shape has as many pairs as there are day entries. */
  lemma {:induction false} ExpectedPairsCount(fs: FileSystem, root: Path, years: seq<string>)
    requires forall y :: y in years ==> root + [y] in fs
    ensures |ExpectedPairs(fs, root, years)| == DayCount(fs, root, years)
    decreases |years|
  {
    if years != [] {
      ExpectedPairsCount(fs, root, years[1..]);
    }
  }

  /** When the listings hold no name twice (as real directory listings do),
      no (year, day) pair occurs twice in the reference shape. */
  lemma {:induction false} ExpectedPairsUnique(fs: FileSystem, root: Path, years: seq<string>)
    requires forall y :: y in years ==> root + [y] in fs
    requires NoDuplicates(years)
    requires forall y :: y in years ==> NoDuplicates(fs[root + [y]])
    ensures NoDuplicates(ExpectedPairs(fs, root, years))
    decreases |years|
  {
    if years != [] {
      var y := years[0];
      var days := fs[root + [y]];
      var head := seq(|days|, i requires 0 <= i < |days| => (y, days[i]));
      var tail := ExpectedPairs(fs, root, years[1..]);
      assert NoDuplicates(years[1..]) by {
        forall i, j | 0 <= i < j < |years[1..]| ensures years[1..][i] != years[1..][j] {
          assert years[1..][i] == years[i + 1] && years[1..][j] == years[j + 1];
        }
      }
      ExpectedPairsUnique(fs, root, years[1..]);
      assert y !in years[1..] by {
        forall k | 0 <= k < |years[1..]| ensures years[1..][k] != y {
          assert years[1..][k] == years[k + 1];
        }
      }
      forall j | 0 <= j < |tail| ensures tail[j].0 != y {
        ExpectedPairsMembers(fs, root, years[1..], tail[j].0, tail[j].1);
      }
      var all := head + tail;
      assert ExpectedPairs(fs, root, years) == all;
      forall i, j | 0 <= i < j < |all| ensures all[i] != all[j] {
        if j < |head| {
          assert all[i] == (y, days[i]) && all[j] == (y, days[j]);
        } else if i < |head| {
          assert all[i].0 == y && all[j] == tail[j - |head|];
        } else {
          assert all[i] == tail[i - |head|] && all[j] == tail[j - |head|];
        }
      }
    }
  }

  /** With duplicate-free listings, the catalog has one record per
      (year, day) pair and no more: no pair twice, and as many records as
      the year directories have day entries. */
  lemma CatalogUnique(fs: FileSystem, root: Path)
    requires BuildCatalog(fs, root).Ok?
    requires forall p :: p in fs ==> NoDuplicates(fs[p])
    ensures NoDuplicates(Pairs(BuildCatalog(fs, root).value))
    ensures forall y :: y in Filter(IsYearName, fs[root]) ==> root + [y] in fs
    ensures |BuildCatalog(fs, root).value| == DayCount(fs, root, Filter(IsYearName, fs[root]))
  {
    CatalogShape(fs, root);
    var years := Filter(IsYearName, fs[root]);
    FilterNoDuplicates(IsYearName, fs[root]);
    ExpectedPairsUnique(fs, root, years);
    ExpectedPairsCount(fs, root, years);
    assert |Pairs(BuildCatalog(fs, root).value)| == |BuildCatalog(fs, root).value|;
  }

  /** A record's `tests` and `inputs` partition its `inputs/` listing:
      each keeps listing order, `tests` holds exactly the names containing
      "test", `inputs` exactly the others, and each name lands in one of them. */
  lemma InputsPartition(fs: FileSystem, root: Path, t: Task)
    requires WellBuilt(fs, root, t)
    ensures var names := fs[t.dir + ["inputs"]];
      && multiset(t.tests) + multiset(t.inputs) == multiset(names)
      && IsSubsequence(t.tests, names) && IsSubsequence(t.inputs, names)
      && (forall i :: 0 <= i < |t.tests| ==> Contains(t.tests[i], "test"))
      && (forall i :: 0 <= i < |t.inputs| ==> !Contains(t.inputs[i], "test"))
      && (forall i :: 0 <= i < |names| ==>
            (names[i] in t.tests <==> Contains(names[i], "test")) &&
            (names[i] in t.inputs <==> !Contains(names[i], "test")))
  {
    var names := fs[t.dir + ["inputs"]];
    FilterPartition(IsTestName, IsInputName, names);
    FilterIsSubsequence(IsTestName, names);
    FilterIsSubsequence(IsInputName, names);
  }

  /** `getSolutions` keeps exactly the listed `.js`/`.ts` entries that export
      `run`; by Node's `extname`, those are the names of at least four
      characters ending in ".js" or ".ts". */
  lemma {:induction false} ScriptNames(n: string)
    ensures IsScriptName(n) <==> |n| > 3 && (EndsWith(n, ".js") || EndsWith(n, ".ts"))
  {
    ExtnameIs(n, ".js");
    ExtnameIs(n, ".ts");
  }
}
