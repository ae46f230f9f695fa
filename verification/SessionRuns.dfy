/** Whole sessions: the path a proxy was given, the order of messages, and that every session can be completed. */
module SessionRuns {
  import opened Prelude
  import opened Session

  // ---- the path a proxy was given ----

  /** Generation `g` has the path `path`, and its set-up will not change that. */
  predicate HasPath(s: State, g: nat, path: string) {
    && g < |s.segs| && s.segs[g].path == path
    && (g == Cur(s) ==>
          && !s.server.Created? && !s.server.Zeroed? && !s.server.Published?
          && !s.server.SemrDone? && !s.server.SemwDone?)
  }

  lemma {:induction false} PathStaysServer(s: State, t: State, e: Step, g: nat, path: string)
    requires HasPath(s, g, path) && ServerNext(s, t, e)
    ensures HasPath(t, g, path)
  {
  }

  lemma {:induction false} PathStaysClient(s: State, t: State, e: Step, g: nat, path: string)
    requires HasPath(s, g, path) && ClientNext(s, t, e)
    ensures HasPath(t, g, path)
  {
  }

  lemma {:induction false} PathStays(s: State, t: State, e: Step, g: nat, path: string)
    requires HasPath(s, g, path) && Next(s, t, e)
    ensures HasPath(t, g, path)
  {
    hide ServerNext, ClientNext;
    if ServerNext(s, t, e) {
      PathStaysServer(s, t, e, g, path);
    } else {
      PathStaysClient(s, t, e, g, path);
    }
  }

  lemma {:induction false} PathIsSet(s: State, t: State, path: string)
    requires Next(s, t, SetPath(path))
    ensures s.segs != [] && HasPath(t, |s.segs| - 1, path)
  {
  }

  /** In every run a generation has the path its proxy was given, from when it was given for ever after. */
  lemma {:induction false} PathIsGiven(ss: seq<State>, es: seq<Step>, i: nat, j: nat)
    requires IsRun(ss, es) && i < j < |ss| && es[i].SetPath?
    ensures ss[i].segs != [] && HasPath(ss[j], |ss[i].segs| - 1, es[i].path)
    decreases j
  {
    hide Next, HasPath;
    if j == i + 1 {
      PathIsSet(ss[i], ss[j], es[i].path);
    } else {
      PathIsGiven(ss, es, i, j - 1);
      PathStays(ss[j - 1], ss[j], es[j - 1], |ss[i].segs| - 1, es[i].path);
    }
  }

  /** A proxy that was given a path never reaches the unhandled-type branch. */
  lemma {:induction false} PathIsSafe(ss: seq<State>, es: seq<Step>, i: nat, j: nat)
    requires IsRun(ss, es) && i < j < |ss| && es[i].SetPath? && es[i].path != ""
    requires |ss[j].segs| == |ss[i].segs|
    ensures !ss[j].server.Unhandled?
  {
    hide IsRun;
    PathIsGiven(ss, es, i, j);
    if ss[j].server.Unhandled? {
      UnhandledNeedsEmptyPath(ss, es, j);
    }
  }

  // ---- message types ----

  /** What the types 1, 2 and 0xff of a request do, and that no other is known. */
  lemma {:induction false} TypesKnown(s: State, t: State, e: Step)
    requires e.Dispatch? && Next(s, t, e)
    ensures s.segs != []
    ensures var k := s.segs[Cur(s)].kind;
            t.server == if k == 1 || k == 2 then Handling(k) else if k == 0xff then Replying(false) else Unhandled
  {
  }

  /** The first message on every generation is the one that attaches tracing, and a client that has sent none
      is about to send it. */
  predicate AttachFirst(s: State) {
    && (forall g :: 0 <= g < |s.segs| && s.segs[g].sent != [] ==> s.segs[g].sent[0].kind == 2)
    && (Holds(s.client) && s.client.g < |s.segs| && s.segs[s.client.g].sent == [] ==>
          s.client.Sending? && s.client.m.kind == 2)
  }

  lemma {:induction false} AttachFirstServer(s: State, t: State, e: Step)
    requires Inv(s) && AttachFirst(s) && ServerNext(s, t, e)
    ensures AttachFirst(t)
  {
    assert Holds(s.client) ==> s.client.g == Cur(s) && !s.server.Created?;
    assert t.client == s.client;
    hide Inv, CurInv, Handshake, Ending;
  }

  lemma {:induction false} AttachFirstClient(s: State, t: State, e: Step)
    requires Inv(s) && AttachFirst(s) && ClientNext(s, t, e)
    ensures AttachFirst(t)
  {
  }

  /** In every run, on every generation, tracing is attached before anything else. */
  lemma {:induction false} AttachesFirst(ss: seq<State>, es: seq<Step>, i: nat)
    requires IsRun(ss, es) && i < |ss|
    ensures AttachFirst(ss[i])
  {
    hide Inv, ServerNext, ClientNext;
    if i > 0 {
      RunInv(ss, es, i - 1);
      AttachesFirst(ss, es, i - 1);
      assert Next(ss[i - 1], ss[i], es[i - 1]);
      hide AttachFirst;
      if ServerNext(ss[i - 1], ss[i], es[i - 1]) {
        AttachFirstServer(ss[i - 1], ss[i], es[i - 1]);
      } else {
        AttachFirstClient(ss[i - 1], ss[i], es[i - 1]);
      }
    }
  }

  // ---- who finds what ----

  /** Opening the published name: it is there exactly while a proxy has published and not unlinked it, and it
      is then the newest generation. */
  lemma {:induction false} OpenFindsNewest(ss: seq<State>, es: seq<Step>, i: nat)
    requires IsRun(ss, es) && i < |es| && es[i].Open?
    ensures var s, t := ss[i], ss[i + 1];
            if s.server.NotRunning? || s.server.Created? || s.server.Zeroed? then t.client == Detached
            else s.segs != [] && t.client == Opened(Cur(s))
  {
    RunInv(ss, es, i);
    assert Next(ss[i], ss[i + 1], es[i]);
  }

  /** The ready test succeeds exactly on the newest generation while its proxy waits for requests and has not
      been told to exit. */
  lemma {:induction false} ReadyExactly(ss: seq<State>, es: seq<Step>, i: nat)
    requires IsRun(ss, es) && i < |es| && es[i].TestReady?
    ensures var s, t := ss[i], ss[i + 1];
            && s.segs != []
            && (Holds(t.client) <==>
                  s.client.Opened? && s.client.g == Cur(s) && s.server.Waiting? && s.segs[Cur(s)].exits == 0)
            && (Holds(t.client) ==> t.client == Sending(Cur(s), Message(2, es[i].tid), 0))
  {
    RunInv(ss, es, i);
    assert Next(ss[i], ss[i + 1], es[i]);
  }

  // ---- every session can be completed ----

  lemma {:induction false} Extend(ss: seq<State>, es: seq<Step>, t: State, e: Step)
    returns (tt: seq<State>, ff: seq<Step>)
    requires IsRun(ss, es) && Next(ss[|ss| - 1], t, e)
    ensures |tt| > 0 && IsRun(tt, ff) && tt[|tt| - 1] == t
  {
    hide Next, Init;
    tt, ff := ss + [t], es + [e];
  }

  /** The state in which `seg` is the newest of the generations. */
  function With(base: seq<Segment>, seg: Segment, name: Option<nat>, server: Server, client: Client): State {
    State(base + [seg], name, server, client)
  }

  lemma {:induction false} WithUpdate(base: seq<Segment>, seg: Segment, seg': Segment)
    ensures (base + [seg])[|base|] == seg && (base + [seg])[|base| := seg'] == base + [seg']
  {
  }

  /** A message is written and posted. */
  lemma {:induction false} PostMessage(ss: seq<State>, es: seq<Step>, base: seq<Segment>, seg: Segment, m: Message)
    returns (tt: seq<State>, ff: seq<Step>)
    requires IsRun(ss, es)
    requires ss[|ss| - 1] == With(base, seg, Some(|base|), Waiting, Sending(|base|, m, 0))
    ensures |tt| > 0 && IsRun(tt, ff)
    ensures tt[|tt| - 1] ==
            With(base, seg.(kind := m.kind, data := m.data, semw := seg.semw + 1, sent := seg.sent + [m]),
                 Some(|base|), Waiting, Await(|base|, m))
  {
    hide IsRun, ServerNext;
    var g, name := |base|, Some(|base|);
    var seg1 := seg.(kind := m.kind);
    var seg2 := seg1.(data := m.data);
    var seg3 := seg2.(semw := seg.semw + 1, sent := seg.sent + [m]);
    WithUpdate(base, seg, seg1);
    tt, ff := Extend(ss, es, With(base, seg1, name, Waiting, Sending(g, m, 1)), WriteKind);
    WithUpdate(base, seg1, seg2);
    tt, ff := Extend(tt, ff, With(base, seg2, name, Waiting, Sending(g, m, 2)), WriteData);
    WithUpdate(base, seg2, seg3);
    tt, ff := Extend(tt, ff, With(base, seg3, name, Waiting, Await(g, m)), PostRequest);
  }

  /** The proxy takes it, handles it and replies. */
  lemma {:induction false} AnswerMessage(ss: seq<State>, es: seq<Step>, base: seq<Segment>, seg: Segment, m: Message)
    returns (tt: seq<State>, ff: seq<Step>)
    requires IsRun(ss, es) && (m.kind == 1 || m.kind == 2)
    requires seg.kind == m.kind && seg.data == m.data && seg.semw == 1 && seg.semr == 0
    requires ss[|ss| - 1] == With(base, seg, Some(|base|), Waiting, Await(|base|, m))
    ensures |tt| > 0 && IsRun(tt, ff)
    ensures tt[|tt| - 1] ==
            With(base, seg.(semw := 0, handled := seg.handled + [m], semr := 1), Some(|base|), Waiting,
                 Await(|base|, m))
  {
    hide IsRun, ClientNext;
    var name, c := Some(|base|), Await(|base|, m);
    var seg1 := seg.(semw := 0);
    var seg2 := seg1.(handled := seg.handled + [m]);
    WithUpdate(base, seg, seg1);
    tt, ff := Extend(ss, es, With(base, seg1, name, Received, c), TakeRequest);
    WithUpdate(base, seg1, seg2);
    tt, ff := Extend(tt, ff, With(base, seg1, name, Handling(m.kind), c), Dispatch);
    assert m == Message(m.kind, seg1.data);
    tt, ff := Extend(tt, ff, With(base, seg2, name, Replying(true), c), Handle);
    WithUpdate(base, seg2, seg2.(semr := 1));
    tt, ff := Extend(tt, ff, With(base, seg2.(semr := 1), name, Waiting, c), Reply);
  }

  /** The client takes the reply. */
  lemma {:induction false} TakeReply(ss: seq<State>, es: seq<Step>, base: seq<Segment>, seg: Segment, m: Message)
    returns (tt: seq<State>, ff: seq<Step>)
    requires IsRun(ss, es) && seg.semr == 1
    requires ss[|ss| - 1] == With(base, seg, Some(|base|), Waiting, Await(|base|, m))
    ensures |tt| > 0 && IsRun(tt, ff)
    ensures tt[|tt| - 1] == With(base, seg.(semr := 0), Some(|base|), Waiting, Held(|base|))
  {
    hide IsRun, ServerNext;
    WithUpdate(base, seg, seg.(semr := 0));
    tt, ff := Extend(ss, es, With(base, seg.(semr := 0), Some(|base|), Waiting, Held(|base|)), AwaitReply);
  }

  /** A live generation between messages. */
  predicate Live(seg: Segment) {
    seg.semr == seg.semw == seg.exits == 0 && seg.ready && seg.handled == seg.sent
  }

  /** One message from start to reply. */
  lemma {:induction false} Exchange(ss: seq<State>, es: seq<Step>, base: seq<Segment>, seg: Segment, m: Message)
    returns (tt: seq<State>, ff: seq<Step>, seg': Segment)
    requires IsRun(ss, es) && (m.kind == 1 || m.kind == 2) && Live(seg)
    requires ss[|ss| - 1] == With(base, seg, Some(|base|), Waiting, Sending(|base|, m, 0))
    ensures |tt| > 0 && IsRun(tt, ff) && tt[|tt| - 1] == With(base, seg', Some(|base|), Waiting, Held(|base|))
    ensures Live(seg') && seg'.sent == seg.sent + [m] && seg'.path == seg.path
  {
    hide IsRun, With;
    tt, ff := PostMessage(ss, es, base, seg, m);
    var posted := seg.(kind := m.kind, data := m.data, semw := 1, sent := seg.sent + [m]);
    tt, ff := AnswerMessage(tt, ff, base, posted, m);
    seg' := posted.(semw := 0, handled := seg.handled + [m]);
    tt, ff := TakeReply(tt, ff, base, seg'.(semr := 1), m);
  }

  /** Any messages one after the other. */
  lemma {:induction false} ExchangeAll(ss: seq<State>, es: seq<Step>, base: seq<Segment>, seg: Segment,
                                       ms: seq<Message>)
    returns (tt: seq<State>, ff: seq<Step>, seg': Segment)
    requires IsRun(ss, es) && Live(seg) && forall k :: 0 <= k < |ms| ==> ms[k].kind == 1 || ms[k].kind == 2
    requires ss[|ss| - 1] == With(base, seg, Some(|base|), Waiting, Held(|base|))
    ensures |tt| > 0 && IsRun(tt, ff) && tt[|tt| - 1] == With(base, seg', Some(|base|), Waiting, Held(|base|))
    ensures Live(seg') && seg'.sent == seg.sent + ms && seg'.path == seg.path
    decreases |ms|
  {
    tt, ff, seg' := ss, es, seg;
    if ms != [] {
      hide IsRun, ServerNext;
      var m := ms[0];
      tt, ff := Extend(ss, es, With(base, seg, Some(|base|), Waiting, Sending(|base|, m, 0)), StartMessage(m));
      tt, ff, seg' := Exchange(tt, ff, base, seg, m);
      tt, ff, seg' := ExchangeAll(tt, ff, base, seg', ms[1..]);
      assert seg.sent + [m] + ms[1..] == seg.sent + ms;
    }
  }

  lemma {:induction false} SetUp(ss: seq<State>, es: seq<Step>, base: seq<Segment>, seg1: Segment, path: string)
    returns (tt: seq<State>, ff: seq<Step>, seg: Segment)
    requires IsRun(ss, es) && ss[|ss| - 1] == With(base, seg1, Some(|base|), SemrDone, Detached)
    ensures |tt| > 0 && IsRun(tt, ff) && tt[|tt| - 1] == With(base, seg, Some(|base|), Waiting, Detached)
    ensures seg == seg1.(semw := 0, semwInit := true, path := path, ready := true)
  {
    hide IsRun, ClientNext;
    var name := Some(|base|);
    var seg2 := seg1.(semw := 0, semwInit := true);
    WithUpdate(base, seg1, seg2);
    tt, ff := Extend(ss, es, With(base, seg2, name, SemwDone, Detached), InitSemw);
    WithUpdate(base, seg2, seg2.(path := path));
    tt, ff := Extend(tt, ff, With(base, seg2.(path := path), name, PathDone, Detached), SetPath(path));
    seg := seg2.(path := path, ready := true);
    WithUpdate(base, seg2.(path := path), seg);
    tt, ff := Extend(tt, ff, With(base, seg, name, Waiting, Detached), SetReady);
  }

  /** The proxy starts up, on a new generation with the given path. */
  lemma {:induction false} StartUp(ss: seq<State>, es: seq<Step>, path: string)
    returns (tt: seq<State>, ff: seq<Step>, seg: Segment)
    requires IsRun(ss, es) && ss[|ss| - 1].server.NotRunning? && ss[|ss| - 1].client.Detached?
    ensures var base := ss[|ss| - 1].segs;
            |tt| > 0 && IsRun(tt, ff) && tt[|tt| - 1] == With(base, seg, Some(|base|), Waiting, Detached)
    ensures Live(seg) && seg.sent == [] && seg.path == path
  {
    var s := ss[|ss| - 1];
    hide IsRun, ClientNext;
    var base, name := s.segs, Some(|s.segs|);
    tt, ff := Extend(ss, es, With(base, Zero(), s.name, Created, Detached), Create(Zero()));
    WithUpdate(base, Zero(), Zero());
    tt, ff := Extend(tt, ff, With(base, Zero(), s.name, Zeroed, Detached), Clear);
    tt, ff := Extend(tt, ff, With(base, Zero(), name, Published, Detached), Rename);
    var seg1 := Zero().(semrInit := true);
    WithUpdate(base, Zero(), seg1);
    tt, ff := Extend(tt, ff, With(base, seg1, name, SemrDone, Detached), InitSemr);
    tt, ff, seg := SetUp(tt, ff, base, seg1, path);
  }

  lemma {:induction false} SayExit(ss: seq<State>, es: seq<Step>, base: seq<Segment>, seg: Segment)
    returns (tt: seq<State>, ff: seq<Step>)
    requires IsRun(ss, es) && Live(seg)
    requires ss[|ss| - 1] == With(base, seg, Some(|base|), Waiting, Held(|base|))
    ensures |tt| > 0 && IsRun(tt, ff)
    ensures tt[|tt| - 1] ==
            With(base, seg.(kind := 0xff, ready := false, semw := 1, exits := 1), Some(|base|), Waiting, Detached)
  {
    hide IsRun, ServerNext;
    var g, name := |base|, Some(|base|);
    tt, ff := Extend(ss, es, With(base, seg, name, Waiting, Exiting(g, 0)), StartExit);
    var seg1 := seg.(kind := 0xff);
    WithUpdate(base, seg, seg1);
    tt, ff := Extend(tt, ff, With(base, seg1, name, Waiting, Exiting(g, 1)), WriteExit);
    var seg2 := seg1.(ready := false);
    WithUpdate(base, seg1, seg2);
    tt, ff := Extend(tt, ff, With(base, seg2, name, Waiting, Exiting(g, 2)), ClearReady);
    var seg3 := seg2.(semw := 1, exits := 1);
    WithUpdate(base, seg2, seg3);
    tt, ff := Extend(tt, ff, With(base, seg3, name, Waiting, Detached), PostExit);
  }

  /** The client says that it is done and the proxy leaves. */
  lemma {:induction false} Leave(ss: seq<State>, es: seq<Step>, base: seq<Segment>, seg: Segment)
    returns (tt: seq<State>, ff: seq<Step>, seg': Segment)
    requires IsRun(ss, es) && Live(seg)
    requires ss[|ss| - 1] == With(base, seg, Some(|base|), Waiting, Held(|base|))
    ensures |tt| > 0 && IsRun(tt, ff) && tt[|tt| - 1] == With(base, seg', None, NotRunning, Detached)
    ensures seg' == seg.(kind := 0xff, ready := false, semr := 1, exits := 1)
  {
    hide IsRun;
    tt, ff := SayExit(ss, es, base, seg);
    var seg1 := seg.(kind := 0xff, ready := false, semw := 1, exits := 1);
    var name := Some(|base|);
    WithUpdate(base, seg1, seg1.(semw := 0));
    tt, ff := Extend(tt, ff, With(base, seg1.(semw := 0), name, Received, Detached), TakeRequest);
    seg' := seg1.(semw := 0, semr := 1);
    WithUpdate(base, seg1.(semw := 0), seg');
    tt, ff := Extend(tt, ff, With(base, seg1.(semw := 0), name, Replying(false), Detached), Dispatch);
    tt, ff := Extend(tt, ff, With(base, seg', name, Leaving, Detached), Reply);
    tt, ff := Extend(tt, ff, With(base, seg', None, NotRunning, Detached), Unlink);
  }

  /**
    * Sessions can always be completed: every run that ends between sessions extends by one more session, with
    * any path, any thread to trace and any coverage and attach messages.  All of them are sent and handled, in
    * order and behind the attach message, on a new generation that has this path, and the run ends between
    * sessions again.
    */
  lemma {:induction false} OneMoreSession(ss: seq<State>, es: seq<Step>, path: string, tid: int, ms: seq<Message>)
    returns (tt: seq<State>, ff: seq<Step>, seg: Segment)
    requires IsRun(ss, es) && ss[|ss| - 1].server.NotRunning? && ss[|ss| - 1].client.Detached?
    requires forall k :: 0 <= k < |ms| ==> ms[k].kind == 1 || ms[k].kind == 2
    ensures |tt| > 0 && IsRun(tt, ff)
    ensures tt[|tt| - 1] == With(ss[|ss| - 1].segs, seg, None, NotRunning, Detached)
    ensures seg.path == path && seg.sent == seg.handled == [Message(2, tid)] + ms && seg.exits == 1
  {
    var base := ss[|ss| - 1].segs;
    hide IsRun, ServerNext;
    var name, m := Some(|base|), Message(2, tid);
    tt, ff, seg := StartUp(ss, es, path);
    tt, ff := Extend(tt, ff, With(base, seg, name, Waiting, Opened(|base|)), Open);
    tt, ff := Extend(tt, ff, With(base, seg, name, Waiting, Sending(|base|, m, 0)), TestReady(tid));
    hide ClientNext, Next;
    tt, ff, seg := Exchange(tt, ff, base, seg, m);
    tt, ff, seg := ExchangeAll(tt, ff, base, seg, ms);
    tt, ff, seg := Leave(tt, ff, base, seg);
  }
}
