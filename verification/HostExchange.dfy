/** What the host's commands do in a given environment: how far the agent gets between two accesses of the host, what
    the guest's system answers it, and which polls find the agent's address space current. */
module HostExchange {
  import opened Common
  import opened Mailbox
  import opened HostChannel

  /** What goes by before one access of the host: agent steps with the system's answers, and whether the agent's
      address space is the current one then. */
  datatype Slice = Slice(answers: seq<Answer>, current: bool)

  /** The machine and what is to come; once `plan` is used up the guest stands still. */
  datatype Env = Env(m: Machine, plan: seq<Slice>)

  function SliceAt(plan: seq<Slice>, i: nat): Slice { if i < |plan| then plan[i] else Slice([], false) }

  function Elapsed(e: Env): Env {
    if e.plan == [] then e else Env(Run(e.m, e.plan[0].answers), e.plan[1..])
  }

  /** Up to `polls` polls for a cleared command: the status once one is found. A poll that finds the agent's address
      space not current is skipped. */
  function Polled(e: Env, polls: nat): (Env, Option<int>)
    decreases polls
  {
    if polls == 0 then (e, None)
    else
      var slept := Elapsed(e);
      if !SliceAt(e.plan, 0).current then Polled(slept, polls - 1)
      else
        var looked := Elapsed(slept);
        if looked.m.cmd != 0 then Polled(looked, polls - 1)
        else var done := Elapsed(looked); (done, Some(done.m.world.status))
  }

  /** `_exec`. */
  function Issue(e: Env, c: int, polls: nat): (Env, Option<int>) {
    var f := Elapsed(e);
    Polled(f.(m := Post(f.m, c)), polls)
  }

  // ----------------------------------------------------------- one command, any environment

  lemma {:induction false} RunConcat(m: Machine, s: seq<Answer>, t: seq<Answer>)
    ensures Run(m, s + t) == Run(Run(m, s), t)
    decreases |s|
  {
    if s == [] {
      assert s + t == t;
    } else {
      assert (s + t)[1..] == s[1..] + t;
      RunConcat(AgentStep(m, s[0]), s[1..], t);
    }
  }

  lemma ElapsedRuns(e: Env)
    ensures Elapsed(e).m == Run(e.m, SliceAt(e.plan, 0).answers)
  {}

  /** The state `e` has come to after some agent steps from `from`. */
  ghost predicate Reaches(from: Machine, to: Machine) { exists t :: to == Run(from, t) }

  lemma ReachesSelf(m: Machine)
    ensures Reaches(m, m)
  {
    assert m == Run(m, []);
  }

  lemma ReachesOn(a: Machine, b: Machine, c: Machine)
    requires Reaches(a, b) && Reaches(b, c)
    ensures Reaches(a, c)
  {
    var s, t :| b == Run(a, s) && c == Run(b, t);
    RunConcat(a, s, t);
  }

  /** Polling changes nothing but what the agent does; a status is read after the command was seen cleared. */
  lemma {:induction false} PolledReaches(e: Env, polls: nat) returns (seen: Machine)
    ensures var r := Polled(e, polls);
            && Reaches(e.m, r.0.m)
            && (r.1.Some? ==> Reaches(e.m, seen) && seen.cmd == 0 && Reaches(seen, r.0.m) && r.1.value == r.0.m.world.status)
    decreases polls
  {
    hide Run, Reaches;
    seen := e.m;
    if polls == 0 {
      ReachesSelf(e.m);
    } else {
      var slept := Elapsed(e);
      ElapsedReaches(e);
      if !SliceAt(e.plan, 0).current {
        seen := PolledReaches(slept, polls - 1);
        PolledFurther(e.m, slept, polls - 1, seen);
      } else {
        var looked := Elapsed(slept);
        ElapsedReaches(slept);
        ReachesOn(e.m, slept.m, looked.m);
        if looked.m.cmd != 0 {
          seen := PolledReaches(looked, polls - 1);
          PolledFurther(e.m, looked, polls - 1, seen);
        } else {
          seen := looked.m;
          ElapsedReaches(looked);
          ReachesOn(e.m, looked.m, Elapsed(looked).m);
        }
      }
    }
  }

  lemma PolledFurther(from: Machine, e: Env, polls: nat, seen: Machine)
    requires Reaches(from, e.m) && Reaches(e.m, Polled(e, polls).0.m)
    ensures Reaches(from, Polled(e, polls).0.m)
    ensures Reaches(e.m, seen) ==> Reaches(from, seen)
  {
    hide Reaches;
    ReachesOn(from, e.m, Polled(e, polls).0.m);
    if Reaches(e.m, seen) { ReachesOn(from, e.m, seen); }
  }

  lemma ElapsedReaches(e: Env)
    ensures Reaches(e.m, Elapsed(e).m)
  {
    ElapsedRuns(e);
  }

  lemma ElapsedQuiet(e: Env)
    requires Quiet(e.m)
    ensures Elapsed(e).m == e.m.(heartbeat := Elapsed(e).m.heartbeat)
  {
    RunQuiet(e.m, SliceAt(e.plan, 0).answers);
    ElapsedRuns(e);
  }

  /** A command posted to an idle mailbox, in any environment: a status is that command's own, which was carried out
      once and completely; without a status the command is still in flight. */
  lemma {:induction false} IssueIsSafe(e: Env, c: int, polls: nat)
    requires c != 0
    ensures var r := Issue(e, c, polls);
            && Posted(e.m, c, r.0.m)
            && (r.1.Some? ==> r.1.value == r.0.m.world.status)
            && (Idle(e.m) && r.1.Some? ==> DoneAs(e.m, c, r.0.m))
            && (Idle(e.m) && r.1.None? ==> InFlight(e.m, c, r.0.m))
  {
    hide Run, DoneAs, InFlight, Polled, Elapsed;
    var f := Elapsed(e);
    var posted := f.(m := Post(f.m, c));
    ElapsedRuns(e);
    var seen := PolledReaches(posted, polls);
    var r := Issue(e, c, polls);
    var s := SliceAt(e.plan, 0).answers;
    var t :| r.0.m == Run(posted.m, t);
    assert r.0.m == Run(Post(Run(e.m, s), c), t);
    if Idle(e.m) {
      PostedFromIdle(e.m, c, r.0.m);
      if r.1.Some? {
        var u :| seen == Run(posted.m, u);
        assert seen == Run(Post(Run(e.m, s), c), u);
        PostedFromIdle(e.m, c, seen);
        DoneIdle(e.m, c, seen);
        var v :| r.0.m == Run(seen, v);
        RunQuiet(seen, v);
      }
    }
  }

  lemma {:induction false} RunIssues(m: Machine, answers: seq<Answer>)
    ensures Run(m, answers).issued == m.issued
    decreases |answers|
  {
    hide Syscall;
    if answers != [] { RunIssues(AgentStep(m, answers[0]), answers[1..]); }
  }

  /** Each call of `_exec` posts its command once. */
  lemma IssuePosts(e: Env, c: int, polls: nat)
    requires c != 0
    ensures Issue(e, c, polls).0.m.issued == e.m.issued + [c]
  {
    hide Run, Issue;
    IssueIsSafe(e, c, polls);
    var s, t :| Issue(e, c, polls).0.m == Run(Post(Run(e.m, s), c), t);
    RunIssues(e.m, s);
    RunIssues(Post(Run(e.m, s), c), t);
  }

  // -------------------------------------------------------------------- when a command times out

  /** The answers of the slices from `i` up to `j`. */
  function Passed(plan: seq<Slice>, i: nat, j: nat): seq<Answer>
    decreases j
  {
    if j <= i then [] else Passed(plan, i, j - 1) + SliceAt(plan, j - 1).answers
  }

  /** The slice in which the host sleeps before poll `k`: one goes by before the post, one for each sleep, and one more
      before each look at the command. */
  function SleepOf(plan: seq<Slice>, k: nat): nat {
    if k == 0 then 1
    else var s := SleepOf(plan, k - 1); if SliceAt(plan, s).current then s + 2 else s + 1
  }

  /** The machine after the first `n` slices, `c` being posted after the first of them. */
  function After(e: Env, c: int, n: nat): Machine {
    Run(Post(Run(e.m, SliceAt(e.plan, 0).answers), c), Passed(e.plan, 1, n))
  }

  /** Poll `k` would find the agent's address space current and the command cleared. */
  predicate FindsCleared(e: Env, c: int, k: nat) {
    var s := SleepOf(e.plan, k);
    SliceAt(e.plan, s).current && After(e, c, s + 2).cmd == 0
  }

  /** The environment after the first `n` slices. */
  function EnvAfter(e: Env, c: int, n: nat): Env {
    Env(After(e, c, n), if n <= |e.plan| then e.plan[n..] else [])
  }

  lemma ElapsedAfter(e: Env, c: int, n: nat)
    requires n >= 1
    ensures Elapsed(EnvAfter(e, c, n)) == EnvAfter(e, c, n + 1)
    ensures SliceAt(EnvAfter(e, c, n).plan, 0) == SliceAt(e.plan, n)
  {
    hide Run;
    var m := Post(Run(e.m, SliceAt(e.plan, 0).answers), c);
    RunConcat(m, Passed(e.plan, 1, n), SliceAt(e.plan, n).answers);
    if n < |e.plan| {
      assert e.plan[n..][1..] == e.plan[n + 1..];
    } else {
      RunNothing(After(e, c, n));
    }
  }

  lemma RunNothing(m: Machine)
    ensures Run(m, []) == m
  {}

  /** From poll `k` on, the first poll that finds the command cleared ends the wait. */
  lemma {:induction false} PolledFrom(e: Env, c: int, k: nat, polls: nat)
    ensures var r := Polled(EnvAfter(e, c, SleepOf(e.plan, k)), polls);
            r.1.None? <==> forall j :: k <= j < k + polls ==> !FindsCleared(e, c, j)
    decreases polls
  {
    hide After, Elapsed;
    if polls > 0 {
      var s := SleepOf(e.plan, k);
      var at := EnvAfter(e, c, s);
      SleepIsLater(e.plan, k);
      ElapsedAfter(e, c, s);
      ElapsedAfter(e, c, s + 1);
      PolledFrom(e, c, k + 1, polls - 1);
      assert Polled(at, polls).1.None? <==>
             !FindsCleared(e, c, k) && Polled(EnvAfter(e, c, SleepOf(e.plan, k + 1)), polls - 1).1.None?;
    }
  }

  lemma {:induction false} SleepIsLater(plan: seq<Slice>, k: nat)
    ensures SleepOf(plan, k) >= 1
  {
    if k > 0 { SleepIsLater(plan, k - 1); }
  }

  /** `_exec` gives up exactly when none of its polls finds the agent current and the command cleared. */
  lemma {:induction false} TimesOutIff(e: Env, c: int, polls: nat)
    ensures Issue(e, c, polls).1.None? <==> forall k :: 0 <= k < polls ==> !FindsCleared(e, c, k)
  {
    hide Run, Polled, FindsCleared;
    RunNothing(Post(Run(e.m, SliceAt(e.plan, 0).answers), c));
    ElapsedRuns(e);
    assert Passed(e.plan, 1, 1) == [];
    assert EnvAfter(e, c, 1) == Elapsed(e).(m := Post(Elapsed(e).m, c));
    PolledFrom(e, c, 0, polls);
  }

  /** It never gives up in an environment that lets the agent make six steps before some poll that finds it current,
      whatever the system answers. */
  lemma {:induction false} AnsweredInTime(e: Env, c: int, polls: nat, k: nat)
    requires Idle(e.m) && c != 0 && k < polls
    requires SliceAt(e.plan, SleepOf(e.plan, k)).current
    requires |Passed(e.plan, 1, SleepOf(e.plan, k) + 2)| >= 6
    ensures Issue(e, c, polls).1.Some?
  {
    hide Run, Issue, Passed, SleepOf, DoneAs;
    var m := Run(e.m, SliceAt(e.plan, 0).answers);
    RunQuiet(e.m, SliceAt(e.plan, 0).answers);
    SixStepsSuffice(m, c, Passed(e.plan, 1, SleepOf(e.plan, k) + 2));
    DoneIdle(m, c, After(e, c, SleepOf(e.plan, k) + 2));
    assert FindsCleared(e, c, k);
    TimesOutIff(e, c, polls);
  }
}
