/** The AFL fork server loop (`AFLForkServer`) against an operating system and children that act at any time. */
module ForkServer {
  datatype ChildState = Running | Stopped | Dead

  /** What the server writes to the status pipe. */
  datatype PipeWord = Hello | Pid(pid: nat) | Status(stopped: bool)

  datatype Pc =
    | Start
    | Head                        // blocked reading the control pipe
    | Reaping                     // waitpid for a child that afl-fuzz says it killed
    | Deciding                    // fork or SIGCONT
    | WritingPid
    | WaitingChild
    | WritingStatus(stopped: bool)
    | Exited

  /** `children` are the forked and not yet reaped processes; the other fields are the loop's variables. */
  datatype State = State(
    pc: Pc,
    persistent: bool,
    childPid: nat,
    childStopped: bool,
    children: map<nat, ChildState>,
    pipe: seq<PipeWord>)

  datatype Step =
    | SayHello
    | ReadControl(wasKilled: bool)
    | Reap
    | Fork(pid: nat)
    | Continue
    | WritePid
    | WaitChild
    | WriteStatus
    | Fail                        // a failed read, write, fork or wait ends the server
    | ChildStops(pid: nat)
    | ChildDies(pid: nat)

  predicate Init(s: State) {
    s.pc == Start && !s.childStopped && s.children == map[] && s.pipe == []
  }

  predicate Next(s: State, t: State, e: Step) {
    match e
    case SayHello => s.pc == Start && t == s.(pc := Head, pipe := s.pipe + [Hello])
    case ReadControl(wasKilled) =>
      && s.pc == Head
      && t == if s.childStopped && wasKilled then s.(pc := Reaping, childStopped := false) else s.(pc := Deciding)
    case Reap =>
      && s.pc == Reaping && s.childPid in s.children && s.children[s.childPid] == Dead
      && t == s.(pc := Deciding, children := s.children - {s.childPid})
    case Fork(pid) =>
      && s.pc == Deciding && !s.childStopped && pid !in s.children
      && t == s.(pc := WritingPid, childPid := pid, children := s.children[pid := Running])
    case Continue =>
      && s.pc == Deciding && s.childStopped
      && t == s.(pc := WritingPid, childStopped := false,
                 children := if s.childPid in s.children && s.children[s.childPid] == Stopped
                             then s.children[s.childPid := Running] else s.children)
    case WritePid => s.pc == WritingPid && t == s.(pc := WaitingChild, pipe := s.pipe + [Pid(s.childPid)])
    case WaitChild =>
      && s.pc == WaitingChild && s.childPid in s.children
      && (match s.children[s.childPid]
          case Dead => t == s.(pc := WritingStatus(false), children := s.children - {s.childPid})
          case Stopped => s.persistent && t == s.(pc := WritingStatus(true), childStopped := true)
          case Running => false)
    case WriteStatus => s.pc.WritingStatus? && t == s.(pc := Head, pipe := s.pipe + [Status(s.pc.stopped)])
    case Fail => s.pc != Exited && t == s.(pc := Exited)
    case ChildStops(pid) =>
      pid in s.children && s.children[pid] == Running && t == s.(children := s.children[pid := Stopped])
    case ChildDies(pid) =>
      pid in s.children && s.children[pid] != Dead && t == s.(children := s.children[pid := Dead])
  }

  /** Hello once, then pid and status words in strict alternation. */
  predicate Alternates(pipe: seq<PipeWord>) {
    forall i :: 0 <= i < |pipe| ==>
      if i == 0 then pipe[i].Hello? else if i % 2 == 1 then pipe[i].Pid? else pipe[i].Status?
  }

  predicate AtMostOne(s: State) {
    forall p :: p in s.children ==> p == s.childPid
  }

  predicate Inv(s: State) {
    && AtMostOne(s)
    && Alternates(s.pipe)
    && match s.pc
       case Start => s.pipe == [] && s.children == map[] && !s.childStopped
       case Head =>
         && |s.pipe| % 2 == 1 && (s.childStopped <==> s.childPid in s.children)
         && (s.childStopped ==> s.children[s.childPid] != Running)
       case Reaping =>
         && |s.pipe| % 2 == 1 && s.childPid in s.children && !s.childStopped
         && s.children[s.childPid] != Running
       case Deciding =>
         && |s.pipe| % 2 == 1 && (s.childStopped <==> s.childPid in s.children)
         && (s.childStopped ==> s.children[s.childPid] != Running)
       case WritingPid => |s.pipe| % 2 == 1 && s.childPid in s.children && !s.childStopped
       case WaitingChild =>
         && |s.pipe| % 2 == 0 && s.pipe != [] && s.pipe[|s.pipe| - 1] == Pid(s.childPid)
         && s.childPid in s.children && !s.childStopped
       case WritingStatus(stopped) =>
         && |s.pipe| % 2 == 0 && s.pipe != []
         && stopped == s.childStopped && (s.childStopped <==> s.childPid in s.children)
         && (s.childStopped ==> s.children[s.childPid] != Running)
       case Exited => true
  }

  lemma {:induction false} NextKeeps(s: State, t: State, e: Step)
    requires Inv(s) && Next(s, t, e)
    ensures Inv(t)
  {
  }

  predicate IsRun(ss: seq<State>, es: seq<Step>) {
    && |ss| == |es| + 1
    && Init(ss[0])
    && forall i :: 0 <= i < |es| ==> Next(ss[i], ss[i + 1], es[i])
  }

  lemma {:induction false} RunInv(ss: seq<State>, es: seq<Step>, i: nat)
    requires IsRun(ss, es) && i < |ss|
    ensures Inv(ss[i])
  {
    if i > 0 {
      RunInv(ss, es, i - 1);
      NextKeeps(ss[i - 1], ss[i], es[i - 1]);
    }
  }

  /**
    * In every state of every run there is at most one unreaped child and the status pipe carries one
    * hello followed by alternating pid and status words.  At the loop head `child_stopped` is set exactly
    * when an unreaped child exists, and that child is stopped or has been killed while it was stopped.
    * A wait always names an existing child.
    */
  lemma {:induction false} ForkServerSafety(ss: seq<State>, es: seq<Step>, i: nat)
    requires IsRun(ss, es) && i < |ss|
    ensures var s := ss[i];
            && (forall p, q :: p in s.children && q in s.children ==> p == q)
            && Alternates(s.pipe)
            && (s.pc == Head ==> (s.childStopped <==> s.children != map[]))
            && (s.pc == Head && s.childStopped ==>
                 s.childPid in s.children && (s.children[s.childPid] == Stopped || s.children[s.childPid] == Dead))
            && (s.pc == WaitingChild || s.pc == Reaping ==> s.childPid in s.children)
  {
    RunInv(ss, es, i);
    var s := ss[i];
    if s.pc == Head && s.childStopped {
      assert s.childPid in s.children;
    }
    if s.children != map[] {
      assert exists p :: p in s.children;
    }
  }

  /** Without persistent mode every child is forked afresh: `child_stopped` is never set. */
  lemma {:induction false} NeverStoppedUnlessPersistent(ss: seq<State>, es: seq<Step>, i: nat)
    requires IsRun(ss, es) && i < |ss| && !ss[0].persistent
    ensures !ss[i].childStopped && !ss[i].persistent
  {
    if i > 0 {
      NeverStoppedUnlessPersistent(ss, es, i - 1);
      assert Next(ss[i - 1], ss[i], es[i - 1]);
    }
  }

  /** A new child is forked only when the previous one has been reaped, so proxies never overlap. */
  lemma {:induction false} ChildrenAreSequential(ss: seq<State>, es: seq<Step>, i: nat)
    requires IsRun(ss, es) && i < |es| && es[i].Fork?
    ensures ss[i].children == map[] && ss[i + 1].children == map[es[i].pid := Running]
  {
    RunInv(ss, es, i);
    assert Next(ss[i], ss[i + 1], es[i]);
    assert forall p :: p !in ss[i].children;
  }

  // ---- what the words on the pipe refer to ----

  /** The last words on the pipe are about the current child. */
  predicate WordsInv(s: State) {
    var n := |s.pipe|;
    match s.pc
    case WritingStatus(_) => n > 0 && s.pipe[n - 1] == Pid(s.childPid)
    case Head =>
      if n == 1 then !s.childStopped
      else n > 1 && s.pipe[n - 2] == Pid(s.childPid) && s.pipe[n - 1] == Status(s.childStopped)
    case _ => true
  }

  lemma {:induction false} RunWords(ss: seq<State>, es: seq<Step>, i: nat)
    requires IsRun(ss, es) && i < |ss|
    ensures WordsInv(ss[i])
  {
    if i > 0 {
      RunWords(ss, es, i - 1);
      RunInv(ss, es, i - 1);
      assert Next(ss[i - 1], ss[i], es[i - 1]);
    }
  }

  /** Since step `i` a child has been forked that is the current one. */
  predicate Forked(ss: seq<State>, es: seq<Step>, i: nat, k: nat)
    requires k < |ss| == |es| + 1
  {
    exists f :: i < f < k && es[f] == Fork(ss[k].childPid)
  }

  /** Between the read of a control word at step `i` and the pid word: the child is kept exactly if it had
      stopped and was not killed. */
  predicate Decision(ss: seq<State>, es: seq<Step>, i: nat, k: nat)
    requires i < k < |ss| == |es| + 1 && es[i].ReadControl?
  {
    var s, t, kept := ss[i], ss[k], ss[i].childStopped && !es[i].wasKilled;
    match t.pc
    case Reaping => !kept && !t.childStopped
    case Deciding => t.childStopped == kept && (kept ==> t.childPid == s.childPid)
    case WritingPid => if kept then t.childPid == s.childPid else Forked(ss, es, i, k)
    case Exited => true
    case _ => false
  }

  lemma {:induction false} PipeGrows(ss: seq<State>, es: seq<Step>, i: nat, k: nat)
    requires IsRun(ss, es) && i <= k < |ss|
    ensures ss[i].pipe <= ss[k].pipe
  {
    if i < k {
      PipeGrows(ss, es, i, k - 1);
      assert Next(ss[k - 1], ss[k], es[k - 1]);
    }
  }

  lemma {:induction false} DecidingStep(ss: seq<State>, es: seq<Step>, i: nat, k: nat)
    requires IsRun(ss, es) && i + 1 < k < |ss| && es[i].ReadControl? && ss[k].pipe == ss[k - 1].pipe
    requires Decision(ss, es, i, k - 1)
    ensures Decision(ss, es, i, k)
    ensures es[k - 1].Fork? ==> !(ss[i].childStopped && !es[i].wasKilled)
  {
    assert Next(ss[k - 1], ss[k], es[k - 1]);
    if es[k - 1].Fork? {
      assert es[k - 1] == Fork(ss[k].childPid);
    } else if ss[k - 1].pc.WritingPid? && !(ss[i].childStopped && !es[i].wasKilled) {
      var f :| i < f < k - 1 && es[f] == Fork(ss[k - 1].childPid);
      assert ss[k].childPid == ss[k - 1].childPid;
    }
  }

  lemma {:induction false} FirstDecision(ss: seq<State>, es: seq<Step>, i: nat)
    requires IsRun(ss, es) && i + 1 < |ss| && es[i].ReadControl?
    ensures Decision(ss, es, i, i + 1)
  {
    assert Next(ss[i], ss[i + 1], es[i]);
  }

  lemma {:induction false} DecidingRun(ss: seq<State>, es: seq<Step>, i: nat, k: nat)
    requires IsRun(ss, es) && i < k < |ss| && es[i].ReadControl? && ss[k].pipe == ss[i].pipe
    ensures Decision(ss, es, i, k)
    ensures ss[i].childStopped && !es[i].wasKilled ==> forall f :: i < f < k ==> !es[f].Fork?
  {
    hide Decision;
    if k == i + 1 {
      FirstDecision(ss, es, i);
    } else {
      PipeGrows(ss, es, i, k - 1);
      PipeGrows(ss, es, k - 1, k);
      DecidingRun(ss, es, i, k - 1);
      DecidingStep(ss, es, i, k);
    }
  }

  /**
    * Whom a pid word names, in every run: after a status word for a stopped child and a control word that
    * does not say it was killed, the same child again, and none is forked; in every other case a child
    * forked since that control word.
    */
  lemma {:induction false} PidWords(ss: seq<State>, es: seq<Step>, i: nat, j: nat)
    requires IsRun(ss, es) && i < j < |es| && es[i].ReadControl? && es[j].WritePid?
    requires ss[i].pipe == ss[j].pipe
    ensures var p := ss[i].pipe;
            && ss[j + 1].pipe == p + [Pid(ss[j].childPid)]
            && if |p| > 1 && p[|p| - 1] == Status(true) && !es[i].wasKilled
               then p[|p| - 2] == Pid(ss[j].childPid) && forall k :: i < k < j ==> !es[k].Fork?
               else exists k :: i < k < j && es[k] == Fork(ss[j].childPid)
  {
    RunWords(ss, es, i);
    DecidingRun(ss, es, i, j);
    assert Next(ss[i], ss[i + 1], es[i]);
    assert Next(ss[j], ss[j + 1], es[j]);
  }

  // ---- a stop is reported only if the child stopped ----

  predicate Resumes(e: Step) {
    e.Fork? || e.Continue?
  }

  lemma {:induction false} StoppedSince(ss: seq<State>, es: seq<Step>, i: nat, k: nat)
    requires IsRun(ss, es) && i < k < |ss| && Resumes(es[i]) && forall f :: i < f < k ==> !Resumes(es[f])
    ensures ss[k].childPid == ss[i + 1].childPid
    ensures ss[k].childPid in ss[k].children && ss[k].children[ss[k].childPid] == Stopped ==>
              exists m :: i < m < k && es[m] == ChildStops(ss[k].childPid)
    decreases k
  {
    RunInv(ss, es, k - 1);
    assert Next(ss[k - 1], ss[k], es[k - 1]);
    if k > i + 1 {
      StoppedSince(ss, es, i, k - 1);
      var p := ss[k - 1].childPid;
      if p in ss[k - 1].children && ss[k - 1].children[p] == Stopped {
        var m :| i < m < k - 1 && es[m] == ChildStops(p);
      }
    }
  }

  /** Every stop that the server reports is one that the child made since it was last forked or resumed: a child
      that is kept runs again. */
  lemma {:induction false} StopIsFresh(ss: seq<State>, es: seq<Step>, i: nat, j: nat)
    requires IsRun(ss, es) && i < j < |es| && Resumes(es[i]) && forall f :: i < f < j ==> !Resumes(es[f])
    requires es[j].WaitChild? && ss[j + 1].childStopped
    ensures exists m :: i < m < j && es[m] == ChildStops(ss[j].childPid)
  {
    assert Next(ss[j], ss[j + 1], es[j]);
    RunInv(ss, es, j);
    StoppedSince(ss, es, i, j);
  }

  // ---- every kind of round is possible ----

  lemma {:induction false} Extend(ss: seq<State>, es: seq<Step>, t: State, e: Step)
    returns (ss': seq<State>, es': seq<Step>)
    requires IsRun(ss, es) && Next(ss[|ss| - 1], t, e)
    ensures |ss'| > 0 && IsRun(ss', es') && ss'[|ss'| - 1] == t && ss <= ss' && es <= es'
  {
    hide Next, Init;
    ss', es' := ss + [t], es + [e];
  }

  lemma {:induction false} NoChildren(s: State)
    requires Inv(s) && s.pc == Head && !s.childStopped
    ensures s.children == map[]
  {
    assert forall p :: p !in s.children;
  }

  /** A child that was killed while stopped is written off. */
  lemma {:induction false} WriteOff(ss: seq<State>, es: seq<Step>) returns (ss': seq<State>, es': seq<Step>)
    requires IsRun(ss, es) && ss[|ss| - 1].pc == Head && ss[|ss| - 1].childStopped
    ensures |ss'| > 0 && IsRun(ss', es') && ss <= ss' && es <= es'
    ensures ss'[|ss'| - 1] == ss[|ss| - 1].(pc := Deciding, childStopped := false, children := map[])
  {
    RunInv(ss, es, |ss| - 1);
    hide IsRun;
    var s := ss[|ss| - 1];
    var p := s.childPid;
    ss', es' := ss, es;
    if s.children[p] != Dead {
      ss', es' := Extend(ss', es', s.(children := s.children[p := Dead]), ChildDies(p));
    }
    var u := ss'[|ss'| - 1];
    ss', es' := Extend(ss', es', u.(pc := Reaping, childStopped := false), ReadControl(true));
    assert u.children - {p} == map[];
    ss', es' := Extend(ss', es', u.(pc := Deciding, childStopped := false, children := map[]), Reap);
  }

  /** From the loop head up to the wait, with no child or with one that was killed while stopped: a child with
      any process number is forked and named. */
  lemma {:induction false} ForkRound(ss: seq<State>, es: seq<Step>, pid: nat)
    returns (ss': seq<State>, es': seq<Step>)
    requires IsRun(ss, es) && ss[|ss| - 1].pc == Head
    ensures |ss'| > 0 && IsRun(ss', es') && ss <= ss' && es <= es'
    ensures var s, t := ss[|ss| - 1], ss'[|ss'| - 1];
            t == s.(pc := WaitingChild, childPid := pid, childStopped := false, children := map[pid := Running],
                    pipe := s.pipe + [Pid(pid)])
  {
    RunInv(ss, es, |ss| - 1);
    hide IsRun;
    var s := ss[|ss| - 1];
    if s.childStopped {
      ss', es' := WriteOff(ss, es);
    } else {
      NoChildren(s);
      ss', es' := Extend(ss, es, s.(pc := Deciding), ReadControl(false));
    }
    hide Inv;
    var v := ss'[|ss'| - 1];
    var w := v.(pc := WritingPid, childPid := pid, children := map[pid := Running]);
    assert v.children[pid := Running] == w.children;
    ss', es' := Extend(ss', es', w, Fork(pid));
    ss', es' := Extend(ss', es', w.(pc := WaitingChild, pipe := w.pipe + [Pid(pid)]), WritePid);
  }

  /** With a stopped child that was not killed: it is resumed and named again. */
  lemma {:induction false} ResumeRound(ss: seq<State>, es: seq<Step>) returns (ss': seq<State>, es': seq<Step>)
    requires IsRun(ss, es) && ss[|ss| - 1].pc == Head && ss[|ss| - 1].childStopped
    requires ss[|ss| - 1].childPid in ss[|ss| - 1].children
    requires ss[|ss| - 1].children[ss[|ss| - 1].childPid] == Stopped
    ensures |ss'| > 0 && IsRun(ss', es') && ss <= ss' && es <= es'
    ensures var s, t := ss[|ss| - 1], ss'[|ss'| - 1];
            t == s.(pc := WaitingChild, childStopped := false, children := map[s.childPid := Running],
                    pipe := s.pipe + [Pid(s.childPid)])
  {
    RunInv(ss, es, |ss| - 1);
    hide IsRun;
    var s := ss[|ss| - 1];
    ss', es' := Extend(ss, es, s.(pc := Deciding), ReadControl(false));
    var w := s.(pc := WritingPid, childStopped := false, children := map[s.childPid := Running]);
    assert s.children[s.childPid := Running] == w.children;
    ss', es' := Extend(ss', es', w, Continue);
    ss', es' := Extend(ss', es', w.(pc := WaitingChild, pipe := w.pipe + [Pid(s.childPid)]), WritePid);
  }

  /** The end of a round: a child that dies is reaped and its death reported. */
  lemma {:induction false} DeathRound(ss: seq<State>, es: seq<Step>) returns (ss': seq<State>, es': seq<Step>)
    requires IsRun(ss, es) && ss[|ss| - 1].pc == WaitingChild
    requires ss[|ss| - 1].children == map[ss[|ss| - 1].childPid := Running]
    ensures |ss'| > 0 && IsRun(ss', es') && ss <= ss' && es <= es'
    ensures var s, t := ss[|ss| - 1], ss'[|ss'| - 1];
            t == s.(pc := Head, children := map[], pipe := s.pipe + [Status(false)])
  {
    var s := ss[|ss| - 1];
    hide IsRun;
    var u := s.(children := map[s.childPid := Dead]);
    assert s.children[s.childPid := Dead] == u.children;
    ss', es' := Extend(ss, es, u, ChildDies(s.childPid));
    assert u.children - {s.childPid} == map[];
    ss', es' := Extend(ss', es', u.(pc := WritingStatus(false), children := map[]), WaitChild);
    var v := ss'[|ss'| - 1];
    ss', es' := Extend(ss', es', v.(pc := Head, pipe := v.pipe + [Status(false)]), WriteStatus);
  }

  /** A child that stops in persistent mode is kept and its stop reported. */
  lemma {:induction false} StopRound(ss: seq<State>, es: seq<Step>) returns (ss': seq<State>, es': seq<Step>)
    requires IsRun(ss, es) && ss[|ss| - 1].pc == WaitingChild && ss[|ss| - 1].persistent
    requires ss[|ss| - 1].children == map[ss[|ss| - 1].childPid := Running]
    ensures |ss'| > 0 && IsRun(ss', es') && ss <= ss' && es <= es'
    ensures var s, t := ss[|ss| - 1], ss'[|ss'| - 1];
            t == s.(pc := Head, childStopped := true, children := map[s.childPid := Stopped],
                    pipe := s.pipe + [Status(true)])
  {
    var s := ss[|ss| - 1];
    hide IsRun;
    var u := s.(children := map[s.childPid := Stopped]);
    assert s.children[s.childPid := Stopped] == u.children;
    ss', es' := Extend(ss, es, u, ChildStops(s.childPid));
    ss', es' := Extend(ss', es', u.(pc := WritingStatus(true), childStopped := true), WaitChild);
    var v := ss'[|ss'| - 1];
    ss', es' := Extend(ss', es', v.(pc := Head, pipe := v.pipe + [Status(true)]), WriteStatus);
  }

  function Rounds(pid: nat, n: nat): seq<PipeWord> {
    if n == 0 then [] else Rounds(pid, n - 1) + [Pid(pid), Status(true)]
  }

  /** A persistent child serves any number of rounds without another one being forked. */
  lemma {:induction false} PersistentRounds(ss: seq<State>, es: seq<Step>, n: nat)
    returns (ss': seq<State>, es': seq<Step>)
    requires IsRun(ss, es) && ss[|ss| - 1].pc == Head && ss[|ss| - 1].persistent && ss[|ss| - 1].childStopped
    requires ss[|ss| - 1].children == map[ss[|ss| - 1].childPid := Stopped]
    ensures |ss'| > 0 && IsRun(ss', es')
    ensures ss'[|ss'| - 1] == ss[|ss| - 1].(pipe := ss[|ss| - 1].pipe + Rounds(ss[|ss| - 1].childPid, n))
  {
    var s := ss[|ss| - 1];
    hide IsRun;
    if n == 0 {
      ss', es' := ss, es;
      assert s.pipe + [] == s.pipe;
    } else {
      ss', es' := PersistentRounds(ss, es, n - 1);
      ss', es' := ResumeRound(ss', es');
      ss', es' := StopRound(ss', es');
      assert s.pipe + Rounds(s.childPid, n - 1) + [Pid(s.childPid)] + [Status(true)]
          == s.pipe + Rounds(s.childPid, n);
    }
  }
}
