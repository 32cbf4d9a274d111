/** `resolveTasks` of run.js (lines 50-77): parse the selector into year,
    day and solution segments, keep the catalog records whose year and day
    match exactly, attach each one's solutions whose names start with the
    solution segment, drop the records left without solutions, and fail
    when none remains. */
module Resolver {
  import opened Seqs
  import opened Strings
  import opened Paths
  import opened Catalog

  /** The three positional segments of the selector. A missing segment
      (`undefined` after destructuring) and an empty one are both falsy in
      run.js, so both are written "" and both mean "no filter". */
  datatype Selector = Selector(year: string, day: string, solution: string)

  function Segment(parts: seq<string>, i: nat): (s: string)
  {
    if i < |parts| then parts[i] else ""
  }

  /** `const [yearSelector, daySelector, solutionSelector] = selector.split('/')`. */
  function ParseSelector(selector: string): (sel: Selector)
    ensures '/' !in sel.year && '/' !in sel.day && '/' !in sel.solution
  {
    var parts := Split(selector, '/');
    Selector(Segment(parts, 0), Segment(parts, 1), Segment(parts, 2))
  }

  /** The year and day filters of run.js:57-58: exact matches, each one
      switched off by an empty segment. */
  predicate MatchesTask(sel: Selector, t: Task)
  {
    (sel.year == "" || t.year == sel.year) && (sel.day == "" || t.day == sel.day)
  }

  /** The solution filter of run.js:66: a prefix match, switched off by an
      empty segment. */
  predicate MatchesSolution(sel: Selector, name: string)
  {
    sel.solution == "" || StartsWith(name, sel.solution)
  }

  function TaskMatcher(sel: Selector): (f: Task -> bool)
  {
    t => MatchesTask(sel, t)
  }

  function SolutionMatcher(sel: Selector): (f: string -> bool)
  {
    n => MatchesSolution(sel, n)
  }

  /** A record of the plan: the catalog record with its matching solutions. */
  datatype Planned = Planned(task: Task, solutions: seq<string>)

  /** `task.solutions.length` taken as a condition. */
  predicate HasSolutions(p: Planned)
  {
    p.solutions != []
  }

  /** The `.map` of run.js:60-69: enumerate each record's solutions, in
      order, keeping those the selector matches; the first record whose
      directory cannot be listed aborts. */
  function AttachSolutions(fs: FileSystem, exportsRun: Path -> bool, sel: Selector, ts: seq<Task>): (r: Result<seq<Planned>>)
    ensures r.Ok? <==> forall i :: 0 <= i < |ts| ==> ts[i].dir in fs
    ensures r.Ok? ==> |r.value| == |ts| && forall i :: 0 <= i < |ts| ==>
      r.value[i].task == ts[i] &&
      r.value[i].solutions == Filter(SolutionMatcher(sel), GetSolutions(fs, exportsRun, ts[i]).value)
    ensures r.Err? ==> exists i :: 0 <= i < |ts| && r.error == Unreadable(ts[i].dir) && ts[i].dir !in fs
    decreases |ts|
  {
    if ts == [] then Ok([])
    else
      match GetSolutions(fs, exportsRun, ts[0])
      case Err(e) => Err(e)
      case Ok(sols) =>
        match AttachSolutions(fs, exportsRun, sel, ts[1..])
        case Err(e) =>
          assert exists i :: 0 <= i < |ts| && e == Unreadable(ts[i].dir) && ts[i].dir !in fs by {
            var j :| 0 <= j < |ts[1..]| && e == Unreadable(ts[1..][j].dir) && ts[1..][j].dir !in fs;
            assert ts[1..][j] == ts[j + 1];
          }
          Err(e)
        case Ok(rest) =>
          assert forall i :: 0 <= i < |ts[1..]| ==> ts[1..][i] == ts[i + 1];
          Ok([Planned(ts[0], Filter(SolutionMatcher(sel), sols))] + rest)
  }

  /** `resolveTasks(path)`. `relative` is the invocation path made relative
      to the repository root in the platform's own spelling (the result of
      `Path.relative`), `sep` the platform separator; `fs` is the file
      system at the time of the call, which `getSolutions` reads afresh,
      while the catalog was built earlier. */
  function Resolve(fs: FileSystem, exportsRun: Path -> bool, catalog: seq<Task>, relative: string, sep: char): (r: Result<seq<Planned>>)
    ensures r.Ok? ==> r.value != [] && forall i :: 0 <= i < |r.value| ==> r.value[i].solutions != []
    ensures r.Err? && r.error.NoMatch? ==> r.error.selector == Norm(relative, sep)
  {
    var selector := Norm(relative, sep);
    var sel := ParseSelector(selector);
    match AttachSolutions(fs, exportsRun, sel, Filter(TaskMatcher(sel), catalog))
    case Err(e) => Err(e)
    case Ok(planned) =>
      var tasks := Filter(HasSolutions, planned);
      if tasks == [] then Err(NoMatch(selector)) else Ok(tasks)
  }

  /** The text of the error thrown when nothing matches (run.js:73); it
      names the normalised selector. */
  function NoMatchMessage(selector: string): (m: string)
    ensures StartsWith(m, "selector [")
    ensures Contains(m, selector)
  {
    var m := "selector [" + selector + "] doesn't match any tasks";
    assert m[10..10 + |selector|] == selector;
    assert OccursAt(m, selector, 10);
    ContainsIff(m, selector);
    m
  }

  // ---------------------------------------------------------------------
  // What the resolution selects.

  /** The records of a plan, in plan order. */
  function TasksOf(ps: seq<Planned>): (ts: seq<Task>)
  {
    seq(|ps|, i requires 0 <= i < |ps| => ps[i].task)
  }

  /** The solution names of `t` that `sel` keeps; empty when its directory
      cannot be listed. */
  function MatchingSolutions(fs: FileSystem, exportsRun: Path -> bool, sel: Selector, t: Task): (names: seq<string>)
  {
    var r := GetSolutions(fs, exportsRun, t);
    if r.Ok? then Filter(SolutionMatcher(sel), r.value) else []
  }

  /** The reference condition for a catalog record to be in the plan: its
      year and day match and at least one of its solutions matches. */
  function SelectedBy(fs: FileSystem, exportsRun: Path -> bool, sel: Selector): (f: Task -> bool)
  {
    t => MatchesTask(sel, t) && MatchingSolutions(fs, exportsRun, sel, t) != []
  }

  lemma TasksOfConcat(a: seq<Planned>, b: seq<Planned>)
    ensures TasksOf(a + b) == TasksOf(a) + TasksOf(b)
  {
    assert forall i :: 0 <= i < |a + b| ==> (a + b)[i] == if i < |a| then a[i] else b[i - |a|];
  }

  lemma AttachCons(fs: FileSystem, exportsRun: Path -> bool, sel: Selector, t: Task, ts: seq<Task>)
    requires t.dir in fs
    requires AttachSolutions(fs, exportsRun, sel, ts).Ok?
    ensures AttachSolutions(fs, exportsRun, sel, [t] + ts)
            == Ok([Planned(t, MatchingSolutions(fs, exportsRun, sel, t))] + AttachSolutions(fs, exportsRun, sel, ts).value)
  {
    assert ([t] + ts)[0] == t && ([t] + ts)[1..] == ts;
  }

  /** The filter-map-filter pipeline keeps exactly the selected records, in
      catalog order. */
  lemma {:induction false} PipelineSelects(fs: FileSystem, exportsRun: Path -> bool, sel: Selector, cat: seq<Task>)
    requires AttachSolutions(fs, exportsRun, sel, Filter(TaskMatcher(sel), cat)).Ok?
    ensures TasksOf(Filter(HasSolutions, AttachSolutions(fs, exportsRun, sel, Filter(TaskMatcher(sel), cat)).value))
            == Filter(SelectedBy(fs, exportsRun, sel), cat)
    decreases |cat|
  {
    if cat != [] {
      var t := cat[0];
      var matching := Filter(TaskMatcher(sel), cat[1..]);
      assert cat == [t] + cat[1..];
      FilterCons(TaskMatcher(sel), t, cat[1..]);
      FilterCons(SelectedBy(fs, exportsRun, sel), t, cat[1..]);
      if MatchesTask(sel, t) {
        assert Filter(TaskMatcher(sel), cat) == [t] + matching;
        assert t in Filter(TaskMatcher(sel), cat);
        var rest := AttachSolutions(fs, exportsRun, sel, matching).value;
        AttachCons(fs, exportsRun, sel, t, matching);
        PipelineSelects(fs, exportsRun, sel, cat[1..]);
        var p := Planned(t, MatchingSolutions(fs, exportsRun, sel, t));
        FilterCons(HasSolutions, p, rest);
        TasksOfConcat(if HasSolutions(p) then [p] else [], Filter(HasSolutions, rest));
      } else {
        assert Filter(TaskMatcher(sel), cat) == matching;
        PipelineSelects(fs, exportsRun, sel, cat[1..]);
      }
    }
  }

  /** A successful resolution is exactly the catalog records whose year and
      day match and which keep at least one solution, in catalog order, each
      carrying its matching solutions in listing order. */
  lemma ResolveSelects(fs: FileSystem, exportsRun: Path -> bool, catalog: seq<Task>, relative: string, sep: char)
    requires Resolve(fs, exportsRun, catalog, relative, sep).Ok?
    ensures var plan := Resolve(fs, exportsRun, catalog, relative, sep).value;
      var sel := ParseSelector(Norm(relative, sep));
      && TasksOf(plan) == Filter(SelectedBy(fs, exportsRun, sel), catalog)
      && forall i :: 0 <= i < |plan| ==> plan[i].solutions == MatchingSolutions(fs, exportsRun, sel, plan[i].task)
  {
    var sel := ParseSelector(Norm(relative, sep));
    var planned := AttachSolutions(fs, exportsRun, sel, Filter(TaskMatcher(sel), catalog)).value;
    PipelineSelects(fs, exportsRun, sel, catalog);
    var plan := Filter(HasSolutions, planned);
    forall i | 0 <= i < |plan| ensures plan[i].solutions == MatchingSolutions(fs, exportsRun, sel, plan[i].task) {
      var k :| 0 <= k < |planned| && planned[k] == plan[i];
    }
  }

  /** Every planned record comes from the catalog, the plan keeps catalog
      order, its year equals a non-empty year segment and its day a
      non-empty day segment. */
  lemma ResolveMatchesYearAndDay(fs: FileSystem, exportsRun: Path -> bool, catalog: seq<Task>, relative: string, sep: char)
    requires Resolve(fs, exportsRun, catalog, relative, sep).Ok?
    ensures var plan := Resolve(fs, exportsRun, catalog, relative, sep).value;
      var sel := ParseSelector(Norm(relative, sep));
      && IsSubsequence(TasksOf(plan), catalog)
      && forall i :: 0 <= i < |plan| ==>
           && plan[i].task in catalog
           && (sel.year != "" ==> plan[i].task.year == sel.year)
           && (sel.day != "" ==> plan[i].task.day == sel.day)
  {
    var plan := Resolve(fs, exportsRun, catalog, relative, sep).value;
    var sel := ParseSelector(Norm(relative, sep));
    ResolveSelects(fs, exportsRun, catalog, relative, sep);
    FilterIsSubsequence(SelectedBy(fs, exportsRun, sel), catalog);
    forall i | 0 <= i < |plan| ensures plan[i].task in catalog && MatchesTask(sel, plan[i].task) {
      assert TasksOf(plan)[i] == plan[i].task;
    }
  }

  /** Every planned solution starts with a non-empty solution segment; with
      an empty one, a record carries its whole solution list. */
  lemma ResolveMatchesSolutions(fs: FileSystem, exportsRun: Path -> bool, catalog: seq<Task>, relative: string, sep: char)
    requires Resolve(fs, exportsRun, catalog, relative, sep).Ok?
    ensures var plan := Resolve(fs, exportsRun, catalog, relative, sep).value;
      var sel := ParseSelector(Norm(relative, sep));
      forall i :: 0 <= i < |plan| ==>
        && plan[i].task.dir in fs
        && (sel.solution != "" ==> forall j :: 0 <= j < |plan[i].solutions| ==> StartsWith(plan[i].solutions[j], sel.solution))
        && (sel.solution == "" ==> plan[i].solutions == GetSolutions(fs, exportsRun, plan[i].task).value)
  {
    var plan := Resolve(fs, exportsRun, catalog, relative, sep).value;
    var sel := ParseSelector(Norm(relative, sep));
    ResolveSelects(fs, exportsRun, catalog, relative, sep);
    forall i | 0 <= i < |plan|
      ensures plan[i].task.dir in fs
      ensures sel.solution == "" ==> plan[i].solutions == GetSolutions(fs, exportsRun, plan[i].task).value
    {
      assert plan[i].solutions != [];
      if sel.solution == "" {
        FilterKeepsAll(SolutionMatcher(sel), GetSolutions(fs, exportsRun, plan[i].task).value);
      }
    }
  }

  /** Resolution fails with the "no match" error exactly when every record
      whose year and day match can be listed and none of them keeps a
      solution; the error carries the normalised selector. */
  lemma ResolveNoMatch(fs: FileSystem, exportsRun: Path -> bool, catalog: seq<Task>, relative: string, sep: char)
    ensures var r := Resolve(fs, exportsRun, catalog, relative, sep);
      var sel := ParseSelector(Norm(relative, sep));
      r == Err(NoMatch(Norm(relative, sep))) <==>
        && (forall i :: 0 <= i < |catalog| && MatchesTask(sel, catalog[i]) ==> catalog[i].dir in fs)
        && Filter(SelectedBy(fs, exportsRun, sel), catalog) == []
  {
    var sel := ParseSelector(Norm(relative, sep));
    var matching := Filter(TaskMatcher(sel), catalog);
    var a := AttachSolutions(fs, exportsRun, sel, matching);
    assert a.Ok? <==> forall i :: 0 <= i < |catalog| && MatchesTask(sel, catalog[i]) ==> catalog[i].dir in fs by {
      if a.Ok? {
        forall i | 0 <= i < |catalog| && MatchesTask(sel, catalog[i]) ensures catalog[i].dir in fs {
          assert catalog[i] in matching;
        }
      }
    }
    if a.Ok? {
      PipelineSelects(fs, exportsRun, sel, catalog);
      var kept := Filter(HasSolutions, a.value);
      assert |TasksOf(kept)| == |kept|;
    }
  }

  /** Resolution fails on an unlistable directory exactly when one of the
      records whose year and day match has a directory that cannot be listed,
      and the error names one such directory. */
  lemma ResolveUnreadable(fs: FileSystem, exportsRun: Path -> bool, catalog: seq<Task>, relative: string, sep: char)
    ensures var r := Resolve(fs, exportsRun, catalog, relative, sep);
      var sel := ParseSelector(Norm(relative, sep));
      (r.Err? && r.error.Unreadable?) <==>
        exists i :: 0 <= i < |catalog| && MatchesTask(sel, catalog[i]) && catalog[i].dir !in fs
    ensures var r := Resolve(fs, exportsRun, catalog, relative, sep);
      var sel := ParseSelector(Norm(relative, sep));
      r.Err? && r.error.Unreadable? ==>
        exists i :: 0 <= i < |catalog| && MatchesTask(sel, catalog[i]) && catalog[i].dir == r.error.path && r.error.path !in fs
  {
    var sel := ParseSelector(Norm(relative, sep));
    var matching := Filter(TaskMatcher(sel), catalog);
    var a := AttachSolutions(fs, exportsRun, sel, matching);
    if a.Err? {
      var j :| 0 <= j < |matching| && a.error == Unreadable(matching[j].dir) && matching[j].dir !in fs;
      var k :| 0 <= k < |catalog| && catalog[k] == matching[j];
      assert MatchesTask(sel, catalog[k]);
    } else {
      forall i | 0 <= i < |catalog| && MatchesTask(sel, catalog[i]) ensures catalog[i].dir in fs {
        assert catalog[i] in matching;
      }
    }
  }

  /** The root itself (an empty relative path) filters nothing: every
      catalog record that has a solution is planned, with all its solutions. */
  lemma ResolveRootSelectsAll(fs: FileSystem, exportsRun: Path -> bool, catalog: seq<Task>, sep: char)
    requires Resolve(fs, exportsRun, catalog, "", sep).Ok?
    ensures var plan := Resolve(fs, exportsRun, catalog, "", sep).value;
      && TasksOf(plan) == Filter((t: Task) => t.dir in fs && GetSolutions(fs, exportsRun, t).value != [], catalog)
      && forall i :: 0 <= i < |plan| ==> plan[i].solutions == GetSolutions(fs, exportsRun, plan[i].task).value
  {
    var sel := ParseSelector(Norm("", sep));
    assert Norm("", sep) == "";
    assert sel == Selector("", "", "");
    ResolveSelects(fs, exportsRun, catalog, "", sep);
    ResolveMatchesSolutions(fs, exportsRun, catalog, "", sep);
    forall t: Task | t.dir in fs
      ensures MatchingSolutions(fs, exportsRun, sel, t) == GetSolutions(fs, exportsRun, t).value
    {
      FilterKeepsAll(SolutionMatcher(sel), GetSolutions(fs, exportsRun, t).value);
    }
    FilterSame(SelectedBy(fs, exportsRun, sel), (t: Task) => t.dir in fs && GetSolutions(fs, exportsRun, t).value != [], catalog);
  }

  // ---------------------------------------------------------------------
  // Selector parsing.

  /** A lone year segment selects by year only. */
  lemma ParseYear(year: string)
    requires '/' !in year
    ensures ParseSelector(year) == Selector(year, "", "")
  {
    SplitWhole(year, '/');
  }

  /** "year/day" selects by year and day. */
  lemma ParseYearDay(year: string, day: string)
    requires '/' !in year && '/' !in day
    ensures ParseSelector(year + "/" + day) == Selector(year, day, "")
  {
    SplitAfterPart(year, '/', day);
    SplitWhole(day, '/');
  }

  /** "year/day/solution" fills all three segments, and whatever follows a
      third `/` is ignored. */
  lemma ParseYearDaySolution(year: string, day: string, solution: string, tail: string)
    requires '/' !in year && '/' !in day && '/' !in solution
    ensures ParseSelector(year + "/" + day + "/" + solution) == Selector(year, day, solution)
    ensures ParseSelector(year + "/" + day + "/" + solution + "/" + tail) == Selector(year, day, solution)
  {
    SplitAfterPart(year, '/', day + "/" + solution);
    assert year + "/" + day + "/" + solution == year + ['/'] + (day + "/" + solution);
    SplitAfterPart(day, '/', solution);
    assert day + "/" + solution == day + ['/'] + solution;
    SplitWhole(solution, '/');
    var long := year + "/" + day + "/" + solution + "/" + tail;
    assert long == year + ['/'] + (day + ['/'] + (solution + ['/'] + tail));
    SplitAfterPart(year, '/', day + ['/'] + (solution + ['/'] + tail));
    SplitAfterPart(day, '/', solution + ['/'] + tail);
    SplitAfterPart(solution, '/', tail);
  }

  /** Whatever the selector holds after its third segment does not change
      the plan: two selectors that agree on their first three segments
      resolve alike, up to the selector named in the "no match" error. */
  lemma ResolveIgnoresTail(fs: FileSystem, exportsRun: Path -> bool, catalog: seq<Task>, year: string, day: string, solution: string, tail: string)
    requires '/' !in year && '/' !in day && '/' !in solution
    ensures var short := Resolve(fs, exportsRun, catalog, year + "/" + day + "/" + solution, '/');
      var long := Resolve(fs, exportsRun, catalog, year + "/" + day + "/" + solution + "/" + tail, '/');
      && short.Ok? == long.Ok?
      && (short.Ok? ==> short.value == long.value)
      && (short.Err? && short.error.Unreadable? ==> long == short)
      && (long.Err? && long.error.Unreadable? ==> long == short)
  {
    ParseYearDaySolution(year, day, solution, tail);
    NormIdentity(year + "/" + day + "/" + solution);
    NormIdentity(year + "/" + day + "/" + solution + "/" + tail);
  }
}
