/** The main loop of run.js (lines 110-132) and the dispatch of `readInput`
    (lines 79-89). Running a solution is a call into code outside the
    model; the loop is modelled by the sequence of events it produces, a
    year/day header or one invocation. */
module Runner {
  import opened Strings
  import opened Paths
  import opened Catalog
  import opened Resolver

  /** What `readInput` hands to the solution: the text of a `.txt` file, the
      `input` export of a `.js`/`.ts` module, or `undefined`. */
  datatype InputSource = TextFile | ModuleInput | Undefined

  /** Whether the invocation was announced as `test(...)` or `run(...)`. */
  datatype Label = Test | Run

  datatype Event =
    | Header(year: string, day: string)
    | Invoke(kind: Label, dir: Path, solution: string, input: string)

  /** The `switch (Path.extname(name))` of `readInput`. */
  function SourceOf(name: string): (src: InputSource)
  {
    match Extname(name)
    case ".txt" => TextFile
    case ".js" => ModuleInput
    case ".ts" => ModuleInput
    case _ => Undefined
  }

  /** A `.txt` name of at least five characters is read as text, a script
      name is loaded as a module, and every other name yields `undefined`. */
  lemma SourceOfName(name: string)
    ensures SourceOf(name) == TextFile <==> |name| > 4 && EndsWith(name, ".txt")
    ensures SourceOf(name) == ModuleInput <==> IsScriptName(name)
    ensures SourceOf(name) == Undefined <==> !(|name| > 4 && EndsWith(name, ".txt")) && !IsScriptName(name)
  {
    ExtnameIs(name, ".txt");
  }

  // ---------------------------------------------------------------------
  // The specification of the loop, each level built up element by element.

  /** One invocation of `solution` per name, in order. */
  function Invocations(kind: Label, t: Task, solution: string, names: seq<string>): (events: seq<Event>)
    decreases |names|
  {
    if names == [] then []
    else
      var name := names[|names| - 1];
      Invocations(kind, t, solution, names[..|names| - 1]) + [Invoke(kind, t.dir, solution, name)]
  }

  /** One solution: all the tests, then all the inputs (run.js:120-130). */
  function SolutionEvents(t: Task, solution: string): (events: seq<Event>)
  {
    Invocations(Test, t, solution, t.tests) + Invocations(Run, t, solution, t.inputs)
  }

  function SolutionsEvents(t: Task, solutions: seq<string>): (events: seq<Event>)
    decreases |solutions|
  {
    if solutions == [] then []
    else SolutionsEvents(t, solutions[..|solutions| - 1]) + SolutionEvents(t, solutions[|solutions| - 1])
  }

  /** One planned record: its header when there is to be one, then each of
      its solutions in order. */
  function TaskEvents(p: Planned, header: bool): (events: seq<Event>)
  {
    (if header then [Header(p.task.year, p.task.day)] else []) + SolutionsEvents(p.task, p.solutions)
  }

  function TasksEvents(plan: seq<Planned>, header: bool): (events: seq<Event>)
    decreases |plan|
  {
    if plan == [] then []
    else TasksEvents(plan[..|plan| - 1], header) + TaskEvents(plan[|plan| - 1], header)
  }

  /** The whole run: headers only when more than one record is planned. */
  function PlanEvents(plan: seq<Planned>): (events: seq<Event>)
  {
    TasksEvents(plan, |plan| > 1)
  }

  /** One of the two innermost loops of run.js (lines 120-124 and 126-130):
      invoke `solution` on each name in turn. */
  method RunAll(kind: Label, task: Task, solution: string, names: seq<string>) returns (events: seq<Event>)
    ensures events == Invocations(kind, task, solution, names)
  {
    events := [];
    for k := 0 to |names|
      invariant events == Invocations(kind, task, solution, names[..k])
    {
      var name := names[k];
      events := events + [Invoke(kind, task.dir, solution, name)];
      assert names[..k + 1][..k] == names[..k];
    }
    assert names[..|names|] == names;
  }

  /** The body of the outer loop (run.js:113-131): the header when one is
      due, then for each solution its tests and its inputs. */
  method RunTask(p: Planned, header: bool) returns (events: seq<Event>)
    ensures events == TaskEvents(p, header)
  {
    var task := p.task;
    var body: seq<Event> := [];
    for j := 0 to |p.solutions|
      invariant body == SolutionsEvents(task, p.solutions[..j])
    {
      var solution := p.solutions[j];
      var tests := RunAll(Test, task, solution, task.tests);
      var inputs := RunAll(Run, task, solution, task.inputs);
      body := body + (tests + inputs);
      assert p.solutions[..j + 1][..j] == p.solutions[..j];
    }
    assert p.solutions[..|p.solutions|] == p.solutions;
    events := (if header then [Header(task.year, task.day)] else []) + body;
  }

  /** The loop of run.js:112-132, recording what it does in order. */
  method RunPlan(plan: seq<Planned>) returns (events: seq<Event>)
    ensures events == PlanEvents(plan)
  {
    var header := |plan| > 1;
    events := [];
    for i := 0 to |plan|
      invariant events == TasksEvents(plan[..i], header)
    {
      var step := RunTask(plan[i], header);
      events := events + step;
      assert plan[..i + 1][..i] == plan[..i];
    }
    assert plan[..|plan|] == plan;
  }

  // ---------------------------------------------------------------------
  // Properties of the run.

  /** Number of invocation events. */
  function CountInvocations(events: seq<Event>): (n: nat)
    decreases |events|
  {
    if events == [] then 0
    else CountInvocations(events[..|events| - 1]) + (if events[|events| - 1].Invoke? then 1 else 0)
  }

  /** Number of header events. */
  function CountHeaders(events: seq<Event>): (n: nat)
    decreases |events|
  {
    if events == [] then 0
    else CountHeaders(events[..|events| - 1]) + (if events[|events| - 1].Header? then 1 else 0)
  }

  lemma {:induction false} CountsConcat(a: seq<Event>, b: seq<Event>)
    ensures CountInvocations(a + b) == CountInvocations(a) + CountInvocations(b)
    ensures CountHeaders(a + b) == CountHeaders(a) + CountHeaders(b)
    decreases |b|
  {
    if b == [] {
      assert a + b == a;
    } else {
      var b' := b[..|b| - 1];
      CountsConcat(a, b');
      assert (a + b)[..|a + b| - 1] == a + b';
    }
  }

  /** |solutions| × (|tests| + |inputs|) for one planned record. */
  function TaskRuns(p: Planned): (n: nat)
  {
    |p.solutions| * (|p.task.tests| + |p.task.inputs|)
  }

  /** Σ |solutions| × (|tests| + |inputs|) over the plan. */
  function TotalRuns(plan: seq<Planned>): (n: nat)
    decreases |plan|
  {
    if plan == [] then 0 else TotalRuns(plan[..|plan| - 1]) + TaskRuns(plan[|plan| - 1])
  }

  /** The i-th invocation for `names` is the one for `names[i]`. */
  lemma {:induction false} InvocationsAt(kind: Label, t: Task, solution: string, names: seq<string>)
    ensures |Invocations(kind, t, solution, names)| == |names|
    ensures CountInvocations(Invocations(kind, t, solution, names)) == |names|
    ensures CountHeaders(Invocations(kind, t, solution, names)) == 0
    ensures forall i :: 0 <= i < |names| ==>
      Invocations(kind, t, solution, names)[i] == Invoke(kind, t.dir, solution, names[i])
    decreases |names|
  {
    if names != [] {
      var init := names[..|names| - 1];
      var name := names[|names| - 1];
      InvocationsAt(kind, t, solution, init);
      CountsConcat(Invocations(kind, t, solution, init), [Invoke(kind, t.dir, solution, name)]);
      assert CountInvocations([Invoke(kind, t.dir, solution, name)]) == 1 by {
        assert [Invoke(kind, t.dir, solution, name)][..0] == [];
      }
      assert CountHeaders([Invoke(kind, t.dir, solution, name)]) == 0 by {
        assert [Invoke(kind, t.dir, solution, name)][..0] == [];
      }
    }
  }

  /** For one solution, the first |tests| events run the tests in listing
      order and the remaining |inputs| events run the inputs in listing order. */
  lemma SolutionOrder(t: Task, solution: string)
    ensures var e := SolutionEvents(t, solution);
      && |e| == |t.tests| + |t.inputs|
      && (forall i :: 0 <= i < |t.tests| ==> e[i] == Invoke(Test, t.dir, solution, t.tests[i]))
      && (forall i :: 0 <= i < |t.inputs| ==>
            e[|t.tests| + i] == Invoke(Run, t.dir, solution, t.inputs[i]))
  {
    var tests := Invocations(Test, t, solution, t.tests);
    var inputs := Invocations(Run, t, solution, t.inputs);
    InvocationsAt(Test, t, solution, t.tests);
    InvocationsAt(Run, t, solution, t.inputs);
    var e := tests + inputs;
    forall i | 0 <= i < |t.tests| ensures e[i] == Invoke(Test, t.dir, solution, t.tests[i]) {
      assert e[i] == tests[i];
    }
    forall i | 0 <= i < |t.inputs| ensures e[|t.tests| + i] == Invoke(Run, t.dir, solution, t.inputs[i]) {
      assert e[|t.tests| + i] == inputs[i];
    }
  }

  lemma SolutionCounts(t: Task, solution: string)
    ensures CountInvocations(SolutionEvents(t, solution)) == |t.tests| + |t.inputs|
    ensures CountHeaders(SolutionEvents(t, solution)) == 0
  {
    InvocationsAt(Test, t, solution, t.tests);
    InvocationsAt(Run, t, solution, t.inputs);
    CountsConcat(Invocations(Test, t, solution, t.tests), Invocations(Run, t, solution, t.inputs));
  }

  lemma {:induction false} SolutionsCounts(t: Task, solutions: seq<string>)
    ensures CountInvocations(SolutionsEvents(t, solutions)) == |solutions| * (|t.tests| + |t.inputs|)
    ensures CountHeaders(SolutionsEvents(t, solutions)) == 0
    decreases |solutions|
  {
    if solutions != [] {
      var init := solutions[..|solutions| - 1];
      var n := |t.tests| + |t.inputs|;
      SolutionsCounts(t, init);
      SolutionCounts(t, solutions[|solutions| - 1]);
      CountsConcat(SolutionsEvents(t, init), SolutionEvents(t, solutions[|solutions| - 1]));
      assert (|init| + 1) * n == |init| * n + n;
    }
  }

  lemma TaskCounts(p: Planned, header: bool)
    ensures CountInvocations(TaskEvents(p, header)) == TaskRuns(p)
    ensures CountHeaders(TaskEvents(p, header)) == if header then 1 else 0
  {
    var h: seq<Event> := if header then [Header(p.task.year, p.task.day)] else [];
    SolutionsCounts(p.task, p.solutions);
    CountsConcat(h, SolutionsEvents(p.task, p.solutions));
    assert CountInvocations(h) == 0 && CountHeaders(h) == (if header then 1 else 0) by {
      if header {
        assert h[..0] == [];
      }
    }
  }

  lemma {:induction false} TasksCounts(plan: seq<Planned>, header: bool)
    ensures CountInvocations(TasksEvents(plan, header)) == TotalRuns(plan)
    ensures CountHeaders(TasksEvents(plan, header)) == if header then |plan| else 0
    decreases |plan|
  {
    if plan != [] {
      var init := plan[..|plan| - 1];
      var last := plan[|plan| - 1];
      assert TasksEvents(plan, header) == TasksEvents(init, header) + TaskEvents(last, header);
      TasksCounts(init, header);
      TaskCounts(last, header);
      CountsConcat(TasksEvents(init, header), TaskEvents(last, header));
    }
  }

  /** The run makes Σ |solutions| × (|tests| + |inputs|) invocations, and
      prints one header per record when more than one record is planned and
      none otherwise. */
  lemma PlanCounts(plan: seq<Planned>)
    ensures CountInvocations(PlanEvents(plan)) == TotalRuns(plan)
    ensures CountHeaders(PlanEvents(plan)) == if |plan| > 1 then |plan| else 0
  {
    TasksCounts(plan, |plan| > 1);
  }

  /** Each event of a run is a header of a planned record (and only when
      more than one is planned) or an invocation of one of that record's
      solutions on one of its tests (labelled `Test`) or inputs (labelled
      `Run`). */
  lemma {:induction false} EventsFromPlan(plan: seq<Planned>, header: bool, e: Event)
    requires e in TasksEvents(plan, header)
    ensures exists i :: 0 <= i < |plan| && FromPlanned(plan[i], header, e)
    decreases |plan|
  {
    var init := plan[..|plan| - 1];
    var p := plan[|plan| - 1];
    if e in TasksEvents(init, header) {
      EventsFromPlan(init, header, e);
      var i :| 0 <= i < |init| && FromPlanned(init[i], header, e);
      assert plan[i] == init[i];
    } else {
      assert e in TaskEvents(p, header);
      FromTask(p, header, e);
      assert FromPlanned(plan[|plan| - 1], header, e);
    }
  }

  ghost predicate FromPlanned(p: Planned, header: bool, e: Event)
  {
    match e
    case Header(y, d) => header && y == p.task.year && d == p.task.day
    case Invoke(kind, dir, s, n) =>
      && dir == p.task.dir && s in p.solutions
      && (kind == Test ==> n in p.task.tests)
      && (kind == Run ==> n in p.task.inputs)
  }

  lemma FromTask(p: Planned, header: bool, e: Event)
    requires e in TaskEvents(p, header)
    ensures FromPlanned(p, header, e)
  {
    if !(header && e == Header(p.task.year, p.task.day)) {
      assert e in SolutionsEvents(p.task, p.solutions);
      FromSolutions(p.task, p.solutions, e);
    }
  }

  lemma {:induction false} FromSolutions(t: Task, solutions: seq<string>, e: Event)
    requires e in SolutionsEvents(t, solutions)
    ensures e.Invoke? && e.dir == t.dir && e.solution in solutions
    ensures e.Invoke? && e.kind == Test ==> e.input in t.tests
    ensures e.Invoke? && e.kind == Run ==> e.input in t.inputs
    decreases |solutions|
  {
    var init := solutions[..|solutions| - 1];
    var last := solutions[|solutions| - 1];
    if e in SolutionsEvents(t, init) {
      FromSolutions(t, init, e);
    } else {
      assert e in SolutionEvents(t, last);
      var tests := Invocations(Test, t, last, t.tests);
      var inputs := Invocations(Run, t, last, t.inputs);
      InvocationsAt(Test, t, last, t.tests);
      InvocationsAt(Run, t, last, t.inputs);
      if e in tests {
        var k :| 0 <= k < |tests| && tests[k] == e;
      } else {
        assert e in inputs;
        var k :| 0 <= k < |inputs| && inputs[k] == e;
      }
    }
  }
}
