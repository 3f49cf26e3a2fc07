/** scripts/main.py: runs the stage scripts one after another and stops
    the whole pipeline at the first stage that fails, exiting with that
    stage's return code. A stage is seen only through its return code. */
module Driver {

  /** The stage scripts in the order `main` starts them. */
  const Agents: seq<string> :=
    ["head_agent.py", "draft_agent.py", "design_agent.py", "post_blog.py", "post_person_linkedin.py"]

  /** The process exit status `sys.exit(code)` produces on a POSIX system:
      the low eight bits, so a child killed by signal N (return code -N)
      gives 256 - N. */
  function ExitStatus(code: int): (s: nat)
    ensures s < 256
    ensures 0 <= code < 256 ==> s == code
  {
    code % 256
  }

  /** What a pipeline run did: the scripts it started, in order, its exit
      status, and whether it reached the completion message. */
  datatype Run = Run(started: seq<string>, exit: nat, completed: bool)

  /** `main` over `scripts`, where `codes[i]` is the return code the i-th
      script would give when started. */
  function Drive(scripts: seq<string>, codes: seq<int>): (r: Run)
    requires |codes| == |scripts|
    ensures |r.started| <= |scripts| && r.started == scripts[..|r.started|]
    ensures forall i :: 0 <= i < |r.started| - 1 ==> codes[i] == 0
    ensures r.completed <==> forall i :: 0 <= i < |codes| ==> codes[i] == 0
    ensures r.completed ==> r.started == scripts && r.exit == 0
    ensures !r.completed ==>
              |r.started| > 0 && codes[|r.started| - 1] != 0 && r.exit == ExitStatus(codes[|r.started| - 1])
  {
    if |scripts| == 0 then Run([], 0, true)
    else if codes[0] != 0 then Run([scripts[0]], ExitStatus(codes[0]), false)
    else
      var r := Drive(scripts[1..], codes[1..]);
      assert forall i :: 1 <= i < |codes| ==> codes[1..][i - 1] == codes[i];
      Run([scripts[0]] + r.started, r.exit, r.completed)
  }

  /** The first failing stage is the last one started, and the pipeline
      exits with its status; no later stage runs. */
  lemma {:induction false} FirstFailureStops(scripts: seq<string>, codes: seq<int>, i: nat)
    requires |codes| == |scripts| && i < |codes| && codes[i] != 0
    requires forall j :: 0 <= j < i ==> codes[j] == 0
    ensures Drive(scripts, codes).started == scripts[..i + 1]
    ensures Drive(scripts, codes).exit == ExitStatus(codes[i])
    ensures !Drive(scripts, codes).completed
  {
    if i > 0 {
      FirstFailureStops(scripts[1..], codes[1..], i - 1);
      assert scripts[..i + 1] == [scripts[0]] + scripts[1..][..i];
    }
  }

  /** The pipeline itself: every stage started in the listed order when
      all succeed. */
  lemma AllStagesRun(codes: seq<int>)
    requires |codes| == |Agents| && forall i :: 0 <= i < |codes| ==> codes[i] == 0
    ensures Drive(Agents, codes) == Run(Agents, 0, true)
  {
  }
}
