/**
  * The session protocol between QEMU (`aplib`) and the proxy (`ap`): shared-memory generations that are
  * published by rename, a ready flag, and a request/reply handshake over two semaphores.  One client
  * thread; proxies run one after the other, as the fork server starts them.
  */
module Session {
  import opened Prelude

  /** `sm->type` with the data written for it; the data is opaque to the protocol. */
  datatype Message = Message(kind: nat, data: int)

  const COVERAGE := 1
  const ATTACH_PT := 2
  const DATA_REQUEST := 3
  const EXIT := 0xff

  /**
    * One generation of `struct XXX`.  `semrInit` and `semwInit` record the `sem_init` calls; `sent`,
    * `handled` and `exits` are history: messages posted by the client, messages handled by the proxy,
    * and exit messages posted.
    */
  datatype Segment = Segment(
    semr: nat,
    semw: nat,
    semrInit: bool,
    semwInit: bool,
    path: string,
    kind: nat,
    data: int,
    ready: bool,
    sent: seq<Message>,
    handled: seq<Message>,
    exits: nat)

  /** Program points of the proxy, which always works on the newest generation. */
  datatype Server =
    | NotRunning
    | Created            // temporary name mapped, contents arbitrary
    | Zeroed
    | Published          // renamed
    | SemrDone
    | SemwDone
    | PathDone
    | Waiting            // event loop, at sem_wait(semw)
    | Received           // about to look at the type
    | Handling(k: nat)   // about to read the data
    | Replying(run: bool)
    | Leaving            // out of the loop, about to unlink
    | Unhandled          // the default branch, which aborts

  /** Program points of the client; `g` is the generation it has mapped. */
  datatype Client =
    | Detached
    | Opened(g: nat)                     // about to test the ready flag
    | Held(g: nat)
    | Sending(g: nat, m: Message, pc: nat)
    | Await(g: nat, m: Message)          // at sem_wait(semr)
    | Exiting(g: nat, pc: nat)

  /** `name` says which generation the published shared-memory name refers to. */
  datatype State = State(segs: seq<Segment>, name: Option<nat>, server: Server, client: Client)

  function Zero(): Segment {
    Segment(0, 0, false, false, "", 0, 0, false, [], [], 0)
  }

  datatype Step =
    // proxy: createOpen, set-up, event loop, tear-down
    | Create(garbage: Segment)
    | Clear
    | Rename
    | InitSemr
    | InitSemw
    | SetPath(path: string)
    | SetReady
    | TakeRequest
    | Dispatch
    | Handle
    | Reply
    | Unlink
    // client: connectOpen, ready test, one message, exit
    | Open
    | TestReady(tid: int)
    | StartMessage(m: Message)
    | WriteKind
    | WriteData
    | PostRequest
    | AwaitReply
    | StartExit
    | WriteExit
    | ClearReady
    | PostExit

  function Cur(s: State): int {
    |s.segs| - 1
  }

  /** The proxy replaces its segment by `seg` and moves on to `server`. */
  predicate ServerMove(s: State, t: State, seg: Segment, server: Server) {
    s.segs != [] && t == s.(segs := s.segs[Cur(s) := seg], server := server)
  }

  predicate ClientMove(s: State, t: State, g: nat, seg: Segment, client: Client) {
    g < |s.segs| && t == s.(segs := s.segs[g := seg], client := client)
  }

  predicate ServerNext(s: State, t: State, e: Step) {
    if e.Create? then
      && s.server.NotRunning?
      && t == s.(segs := s.segs + [e.garbage.(sent := [], handled := [], exits := 0)], server := Created)
    else
      && s.segs != []
      && var seg := s.segs[Cur(s)];
         match e
         case Clear => s.server.Created? && ServerMove(s, t, Zero(), Zeroed)
         case Rename => s.server.Zeroed? && t == s.(name := Some(Cur(s)), server := Published)
         case InitSemr => s.server.Published? && ServerMove(s, t, seg.(semr := 0, semrInit := true), SemrDone)
         case InitSemw => s.server.SemrDone? && ServerMove(s, t, seg.(semw := 0, semwInit := true), SemwDone)
         case SetPath(path) => s.server.SemwDone? && ServerMove(s, t, seg.(path := path), PathDone)
         case SetReady => s.server.PathDone? && ServerMove(s, t, seg.(ready := true), Waiting)
         case TakeRequest => s.server.Waiting? && seg.semw > 0 && ServerMove(s, t, seg.(semw := seg.semw - 1), Received)
         case Dispatch =>
           && s.server.Received?
           && if seg.kind == COVERAGE || seg.kind == ATTACH_PT then t == s.(server := Handling(seg.kind))
              else if seg.kind == EXIT then t == s.(server := Replying(false))
              else t == s.(server := Unhandled)
         case Handle =>
           && s.server.Handling?
           && ServerMove(s, t, seg.(handled := seg.handled + [Message(s.server.k, seg.data)]), Replying(true))
         case Reply =>
           && s.server.Replying?
           && ServerMove(s, t, seg.(semr := seg.semr + 1), if s.server.run then Waiting else Leaving)
         case Unlink => s.server.Leaving? && t == s.(name := None, server := NotRunning)
         case _ => false
  }

  predicate ClientNext(s: State, t: State, e: Step) {
    match e
    case Open =>
      s.client.Detached? && t == if s.name.Some? then s.(client := Opened(s.name.value)) else s
    case TestReady(tid) =>
      && s.client.Opened? && s.client.g < |s.segs|
      && t == s.(client := if s.segs[s.client.g].ready then Sending(s.client.g, Message(ATTACH_PT, tid), 0)
                           else Detached)
    case StartMessage(m) =>
      && s.client.Held? && s.client.g < |s.segs|
      && (m.kind == COVERAGE || m.kind == ATTACH_PT || (m.kind == DATA_REQUEST && s.segs[s.client.g].path == ""))
      && t == s.(client := Sending(s.client.g, m, 0))
    case WriteKind =>
      && s.client.Sending? && s.client.pc == 0 && s.client.g < |s.segs|
      && ClientMove(s, t, s.client.g, s.segs[s.client.g].(kind := s.client.m.kind), Sending(s.client.g, s.client.m, 1))
    case WriteData =>
      && s.client.Sending? && s.client.pc == 1 && s.client.g < |s.segs|
      && ClientMove(s, t, s.client.g, s.segs[s.client.g].(data := s.client.m.data), Sending(s.client.g, s.client.m, 2))
    case PostRequest =>
      && s.client.Sending? && s.client.pc == 2 && s.client.g < |s.segs|
      && var seg := s.segs[s.client.g];
         ClientMove(s, t, s.client.g, seg.(semw := seg.semw + 1, sent := seg.sent + [s.client.m]),
                    Await(s.client.g, s.client.m))
    case AwaitReply =>
      && s.client.Await? && s.client.g < |s.segs| && s.segs[s.client.g].semr > 0
      && var seg := s.segs[s.client.g];
         ClientMove(s, t, s.client.g, seg.(semr := seg.semr - 1), Held(s.client.g))
    case StartExit => s.client.Held? && t == s.(client := Exiting(s.client.g, 0))
    case WriteExit =>
      && s.client.Exiting? && s.client.pc == 0 && s.client.g < |s.segs|
      && ClientMove(s, t, s.client.g, s.segs[s.client.g].(kind := EXIT), Exiting(s.client.g, 1))
    case ClearReady =>
      && s.client.Exiting? && s.client.pc == 1 && s.client.g < |s.segs|
      && ClientMove(s, t, s.client.g, s.segs[s.client.g].(ready := false), Exiting(s.client.g, 2))
    case PostExit =>
      && s.client.Exiting? && s.client.pc == 2 && s.client.g < |s.segs|
      && var seg := s.segs[s.client.g];
         ClientMove(s, t, s.client.g, seg.(semw := seg.semw + 1, exits := seg.exits + 1), Detached)
    case _ => false
  }

  predicate Next(s: State, t: State, e: Step) {
    ServerNext(s, t, e) || ClientNext(s, t, e)
  }

  predicate Init(s: State) {
    s == State([], None, NotRunning, Detached)
  }

  // ---- the invariant ----

  /** The client has passed the ready test on a segment and has not yet given it up. */
  predicate Holds(c: Client) {
    c.Held? || c.Sending? || c.Await? || c.Exiting?
  }

  predicate InLoop(v: Server) {
    v.Waiting? || v.Received? || v.Handling? || v.Replying?
  }

  /** The proxy has taken a request and not yet replied. */
  predicate Busy(v: Server) {
    v.Received? || v.Handling? || v.Replying? || v.Unhandled?
  }

  predicate Setup(v: Server) {
    v.Zeroed? || v.Published? || v.SemrDone? || v.SemwDone? || v.PathDone?
  }

  function Bit(b: bool): nat {
    if b then 1 else 0
  }

  /** A generation that has been told to exit, once, and whose ready flag is down for good. */
  predicate Over(seg: Segment) {
    seg.exits == 1 && !seg.ready
  }

  /** A zeroed generation on which nothing has happened yet. */
  predicate Fresh(seg: Segment) {
    seg.semr == seg.semw == seg.exits == 0 && !seg.ready && seg.sent == seg.handled == []
  }

  predicate Sendable(m: Message, seg: Segment) {
    m.kind == COVERAGE || m.kind == ATTACH_PT || (m.kind == DATA_REQUEST && seg.path == "")
  }

  /** The handshake while the newest generation is live, seen from a client in state `c`. */
  predicate Handshake(seg: Segment, v: Server, c: Client) {
    && seg.semw + seg.semr + Bit(Busy(v)) == Bit(c.Await?)
    && (c.Await? ==>
         && Sendable(c.m, seg) && seg.kind == c.m.kind && seg.data == c.m.data
         && (if v.Replying? || seg.semr > 0 then seg.handled == seg.sent else seg.handled + [c.m] == seg.sent)
         && (v.Handling? ==> v.k == c.m.kind && v.k != DATA_REQUEST)
         && (v.Replying? ==> v.run)
         && (v.Unhandled? ==> c.m.kind == DATA_REQUEST))
    && (!c.Await? ==> seg.handled == seg.sent)
    && (c.Sending? ==>
          && Sendable(c.m, seg)
          && (c.pc >= 1 ==> seg.kind == c.m.kind)
          && (c.pc >= 2 ==> seg.data == c.m.data))
    && (c.Exiting? ==> (c.pc >= 1 ==> seg.kind == EXIT))
    && seg.ready == !(c.Exiting? && c.pc >= 2)
  }

  /** The newest generation after the exit message: it is the only request left. */
  predicate Ending(seg: Segment, v: Server) {
    && seg.kind == EXIT && seg.handled == seg.sent
    && match v
       case Waiting => seg.semw == 1 && seg.semr == 0
       case Received => seg.semw == 0 && seg.semr == 0
       case Replying(run) => !run && seg.semw == 0 && seg.semr == 0
       case Leaving => seg.semw == 0 && seg.semr == 1
       case NotRunning => seg.semw == 0 && seg.semr == 1
       case _ => false
  }

  predicate CurInv(seg: Segment, v: Server, c: Client, holds: bool) {
    if v.Created? then !holds && seg.sent == seg.handled == [] && seg.exits == 0
    else if Setup(v) then
      && !holds && Fresh(seg)
      && (v.SemrDone? || v.SemwDone? || v.PathDone? ==> seg.semrInit)
      && (v.SemwDone? || v.PathDone? ==> seg.semwInit)
    else
      && seg.semrInit && seg.semwInit
      && if seg.exits == 0
         then
           && (InLoop(v) || v.Unhandled?)
           && (!holds ==> seg.sent == [])
           && Handshake(seg, v, if holds then c else Detached)
         else Over(seg) && !holds && Ending(seg, v)
  }

  predicate Inv(s: State) {
    && (s.segs == [] ==> s.server.NotRunning? && s.name == None && s.client == Detached)
    && (forall g :: 0 <= g < |s.segs| - 1 ==> Over(s.segs[g]) && s.segs[g].handled == s.segs[g].sent)
    && (s.segs != [] ==>
         && CurInv(s.segs[Cur(s)], s.server, s.client, Holds(s.client) && s.client.g == Cur(s))
         && (s.name == if s.server.NotRunning? || s.server.Created? || s.server.Zeroed? then None else Some(Cur(s)))
         && (s.client.Opened? ==> s.client.g <= Cur(s))
         && (s.client.Opened? && s.client.g == Cur(s) ==> !s.server.Created? && !s.server.Zeroed?)
         && (Holds(s.client) ==> s.client.g == Cur(s)))
  }

  predicate IsLoopStep(e: Step) {
    e.TakeRequest? || e.Dispatch? || e.Handle? || e.Reply? || e.Unlink?
  }

  lemma {:induction false} SetupKeeps(s: State, t: State, e: Step)
    requires Inv(s) && ServerNext(s, t, e) && !IsLoopStep(e)
    ensures Inv(t)
  {
  }

  lemma {:induction false} LoopKeeps(s: State, t: State, e: Step)
    requires Inv(s) && ServerNext(s, t, e) && IsLoopStep(e)
    ensures Inv(t)
  {
  }

  lemma {:induction false} ClientKeeps(s: State, t: State, e: Step)
    requires Inv(s) && ClientNext(s, t, e)
    ensures Inv(t)
  {
  }

  predicate IsRun(ss: seq<State>, es: seq<Step>) {
    && |ss| == |es| + 1
    && Init(ss[0])
    && forall i :: 0 <= i < |es| ==> Next(ss[i], ss[i + 1], es[i])
  }

  lemma {:induction false} InitInv(s: State)
    requires Init(s)
    ensures Inv(s)
  {
  }

  lemma {:induction false} RunInv(ss: seq<State>, es: seq<Step>, i: nat)
    requires IsRun(ss, es) && i < |ss|
    ensures Inv(ss[i])
  {
    hide Inv, ServerNext, ClientNext;
    if i == 0 {
      InitInv(ss[0]);
    } else {
      RunInv(ss, es, i - 1);
      var s, t, e := ss[i - 1], ss[i], es[i - 1];
      if ClientNext(s, t, e) {
        ClientKeeps(s, t, e);
      } else if IsLoopStep(e) {
        LoopKeeps(s, t, e);
      } else {
        SetupKeeps(s, t, e);
      }
    }
  }

  /**
    * Session safety over all generations, in every state of every interleaving.  A client that holds a
    * segment holds the newest generation: its semaphores are initialised, its proxy is in the event loop
    * (or aborted by an unhandled type), and it has not been told to exit.  No generation is ever told to
    * exit twice, and every older one has been told once and will never look ready again.
    */
  lemma {:induction false} SessionSafety(ss: seq<State>, es: seq<Step>, i: nat)
    requires IsRun(ss, es) && i < |ss|
    ensures var s := ss[i];
            && (Holds(s.client) ==>
                 && s.segs != [] && s.client.g == Cur(s)
                 && var seg := s.segs[Cur(s)];
                 && seg.semrInit && seg.semwInit && seg.exits == 0
                 && (InLoop(s.server) || (s.server.Unhandled? && s.client.Await?)))
            && (forall g :: 0 <= g < |s.segs| ==> s.segs[g].exits <= 1)
            && (forall g :: 0 <= g < |s.segs| - 1 ==> Over(s.segs[g]))
  {
    hide IsRun;
    RunInv(ss, es, i);
  }

  /** A successful ready test: the segment's set-up is complete, its proxy waits for requests, none has
      been sent on it, and it has not ended.  A failed one leaves the client detached. */
  lemma {:induction false} AttachOnlyWhenReady(ss: seq<State>, es: seq<Step>, i: nat)
    requires IsRun(ss, es) && i < |es| && es[i].TestReady?
    ensures var s, t := ss[i], ss[i + 1];
            if Holds(t.client)
            then && s.segs != [] && s.client.g == Cur(s) && s.server.Waiting?
                 && var seg := s.segs[Cur(s)];
                    seg.semrInit && seg.semwInit && seg.semr == seg.semw == seg.exits == 0 && seg.sent == []
            else t.client.Detached?
  {
    RunInv(ss, es, i);
    RunInv(ss, es, i + 1);
    assert Next(ss[i], ss[i + 1], es[i]);
  }

  /** Handshake: while the client holds a segment, there is one token -- in `semw`, with the proxy or in
      `semr` -- exactly when the client is waiting for a reply. */
  lemma {:induction false} HandshakeToken(ss: seq<State>, es: seq<Step>, i: nat)
    requires IsRun(ss, es) && i < |ss| && Holds(ss[i].client)
    ensures var s := ss[i];
            && s.segs != []
            && var seg := s.segs[Cur(s)];
               seg.semw + seg.semr + Bit(Busy(s.server)) == Bit(s.client.Await?)
  {
    hide IsRun;
    RunInv(ss, es, i);
  }

  /** Every message is handled exactly once, in order and with the type and data the client wrote: the
      proxy has handled all messages sent on a generation, or all but the one now outstanding. */
  lemma {:induction false} HandledExactlyOnce(ss: seq<State>, es: seq<Step>, i: nat, g: nat)
    requires IsRun(ss, es) && i < |ss| && g < |ss[i].segs|
    ensures var s, seg := ss[i], ss[i].segs[g];
            || seg.handled == seg.sent
            || (s.client.Await? && s.client.g == g && seg.handled + [s.client.m] == seg.sent)
  {
    hide IsRun;
    RunInv(ss, es, i);
  }

  /** The proxy reaches the unhandled-type branch only on a generation whose input path is empty. */
  lemma {:induction false} UnhandledNeedsEmptyPath(ss: seq<State>, es: seq<Step>, i: nat)
    requires IsRun(ss, es) && i < |ss| && ss[i].server.Unhandled?
    ensures ss[i].segs != [] && ss[i].segs[Cur(ss[i])].path == ""
  {
    hide IsRun;
    RunInv(ss, es, i);
  }

  /** The client waits for the answer to a request for data, which the proxy does not know. */
  predicate Doomed(s: State) {
    && s.segs != [] && s.client.Await? && s.client.g == Cur(s) && s.client.m.kind == DATA_REQUEST
    && s.segs[Cur(s)].semr == 0
    && (s.server.Waiting? || s.server.Received? || s.server.Unhandled?)
  }

  /** Steps the proxy still has to take before it aborts. */
  function StepsToAbort(s: State): nat {
    if s.server.Waiting? then 2 else if s.server.Received? then 1 else 0
  }

  lemma {:induction false} PostDooms(s: State, t: State, e: Step)
    requires Inv(s) && e.PostRequest? && Next(s, t, e) && s.client.Sending? && s.client.m.kind == DATA_REQUEST
    ensures Doomed(t) && t.client == Await(s.client.g, s.client.m) && StepsToAbort(t) == 2
  {
  }

  /** A doomed client stays doomed whatever step is taken, each step brings the abort nearer, and after the
      abort there is no step at all. */
  lemma {:induction false} DoomedKeeps(s: State, t: State, e: Step)
    requires Inv(s) && Doomed(s) && Next(s, t, e)
    ensures Doomed(t) && t.client == s.client && StepsToAbort(t) == StepsToAbort(s) - 1
  {
  }

  /**
    * A request for data ends the session, in every run: from the moment it is posted the client waits for
    * ever, no reply comes, the proxy is in the unhandled-type branch three steps later at the latest, and
    * nothing can happen after that.
    */
  lemma {:induction false} DataRequestAborts(ss: seq<State>, es: seq<Step>, i: nat, j: nat)
    requires IsRun(ss, es) && i < j < |ss| && es[i].PostRequest? && ss[i].client.Sending?
    requires ss[i].client.m.kind == 3
    ensures Doomed(ss[j]) && ss[j].client == Await(ss[i].client.g, ss[i].client.m)
    ensures StepsToAbort(ss[j]) == 2 - (j - i - 1) && j <= i + 3
    ensures j == i + 3 <==> ss[j].server.Unhandled?
  {
    hide Inv, Next;
    RunInv(ss, es, j - 1);
    assert Next(ss[j - 1], ss[j], es[j - 1]);
    if j == i + 1 {
      PostDooms(ss[i], ss[j], es[i]);
    } else {
      DataRequestAborts(ss, es, i, j - 1);
      DoomedKeeps(ss[j - 1], ss[j], es[j - 1]);
    }
  }

  lemma {:induction false} StartRequest(s: State, m: Message) returns (s1: State, s2: State, s3: State, s4: State)
    requires s.segs != [] && s.client == Held(Cur(s)) && Sendable(m, s.segs[Cur(s)])
    ensures Next(s, s1, StartMessage(m)) && Next(s1, s2, WriteKind)
    ensures Next(s2, s3, WriteData) && Next(s3, s4, PostRequest)
    ensures s3.client == Sending(Cur(s), m, 2)
  {
    hide ServerNext;
    var g := Cur(s);
    s1 := s.(client := Sending(g, m, 0));
    s2 := s1.(segs := s1.segs[g := s1.segs[g].(kind := m.kind)], client := Sending(g, m, 1));
    s3 := s2.(segs := s2.segs[g := s2.segs[g].(data := m.data)], client := Sending(g, m, 2));
    var seg := s3.segs[g].(semw := s3.segs[g].semw + 1, sent := s3.segs[g].sent + [m]);
    s4 := s3.(segs := s3.segs[g := seg], client := Await(g, m));
  }

  /** With an empty path such a request is always possible: every run that ends with an idle client extends
      to one in which the request is posted. */
  lemma {:induction false} EmptyPathAborts(ss: seq<State>, es: seq<Step>, data: int)
    returns (tt: seq<State>, ff: seq<Step>)
    requires IsRun(ss, es)
    requires ss[|ss| - 1].client.Held? && ss[|ss| - 1].client.g == Cur(ss[|ss| - 1])
    requires ss[|ss| - 1].segs != [] && ss[|ss| - 1].segs[Cur(ss[|ss| - 1])].path == ""
    ensures IsRun(tt, ff) && |ff| == |es| + 4 && ff[..|es|] == es && tt[..|ss|] == ss
    ensures ff[|es| + 3].PostRequest? && tt[|es| + 3].client.Sending?
    ensures tt[|es| + 3].client.m == Message(3, data)
  {
    var m := Message(DATA_REQUEST, data);
    var s1, s2, s3, s4 := StartRequest(ss[|ss| - 1], m);
    hide Next;
    tt := ss + [s1, s2, s3, s4];
    ff := es + [StartMessage(m), WriteKind, WriteData, PostRequest];
    forall i | 0 <= i < |ff|
      ensures Next(tt[i], tt[i + 1], ff[i])
    {
      if i < |es| {
        assert Next(ss[i], ss[i + 1], es[i]);
      }
    }
  }

  /** Steps the proxy still has to take before a waiting client's reply is there. */
  function Remaining(s: State): nat {
    match s.server
    case Waiting => if s.segs != [] && s.segs[Cur(s)].semr > 0 then 0 else 4
    case Received => 3
    case Handling(_) => 2
    case Replying(_) => 1
    case _ => 0
  }

  /** While a client waits for the reply to a known message, the proxy's next step is the only one there is;
      once the reply is there, taking it is the only one. */
  lemma {:induction false} OnlyStepWhileWaiting(s: State, t: State, e: Step)
    requires Inv(s) && s.client.Await? && s.client.m.kind != DATA_REQUEST && Next(s, t, e)
    ensures if Remaining(s) > 0
            then IsLoopStep(e) && t.client == s.client && Remaining(t) == Remaining(s) - 1
            else e == AwaitReply && t.client == Held(s.client.g)
  {
  }

  /** And that step is always possible: waiting never deadlocks. */
  lemma {:induction false} StepWhileWaiting(s: State) returns (t: State, e: Step)
    requires Inv(s) && s.client.Await? && s.client.m.kind != DATA_REQUEST
    ensures Next(s, t, e)
  {
    var g, seg := s.client.g, s.segs[s.client.g];
    match s.server {
      case Waiting =>
        if seg.semr > 0 {
          t, e := s.(segs := s.segs[g := seg.(semr := seg.semr - 1)], client := Held(g)), AwaitReply;
        } else {
          t, e := s.(segs := s.segs[g := seg.(semw := seg.semw - 1)], server := Received), TakeRequest;
        }
      case Received => t, e := s.(server := Handling(seg.kind)), Dispatch;
      case Handling(k) =>
        var seg' := seg.(handled := seg.handled + [Message(k, seg.data)]);
        t, e := s.(segs := s.segs[g := seg'], server := Replying(true)), Handle;
      case Replying(_) => t, e := s.(segs := s.segs[g := seg.(semr := seg.semr + 1)], server := Waiting), Reply;
    }
  }

  lemma {:induction false} WaitingAlongRun(ss: seq<State>, es: seq<Step>, i: nat, k: nat)
    requires IsRun(ss, es) && i + k < |ss| && ss[i].client.Await? && ss[i].client.m.kind != DATA_REQUEST
    requires k <= Remaining(ss[i])
    ensures ss[i + k].client == ss[i].client && Remaining(ss[i + k]) == Remaining(ss[i]) - k
    ensures k > 0 ==> IsLoopStep(es[i + k - 1])
  {
    hide Inv, Remaining;
    if k > 0 {
      WaitingAlongRun(ss, es, i, k - 1);
      RunInv(ss, es, i + k - 1);
      OnlyStepWhileWaiting(ss[i + k - 1], ss[i + k], es[i + k - 1]);
    }
  }

  /**
    * The reply comes, in every run: the at most four steps after any point of a wait are the proxy's, the
    * next one takes the reply, and by then every message sent has been handled.
    */
  lemma {:induction false} ReplyComes(ss: seq<State>, es: seq<Step>, i: nat)
    requires IsRun(ss, es) && i < |ss| && ss[i].client.Await? && ss[i].client.m.kind != DATA_REQUEST
    requires i + Remaining(ss[i]) < |es|
    ensures var n := i + Remaining(ss[i]);
            && n <= i + 4 && (forall k :: i <= k < n ==> IsLoopStep(es[k]))
            && es[n] == AwaitReply && ss[n + 1].client == Held(ss[i].client.g)
            && ss[n].segs != [] && ss[n].segs[Cur(ss[n])].handled == ss[n].segs[Cur(ss[n])].sent
  {
    var n := i + Remaining(ss[i]);
    WaitingAlongRun(ss, es, i, n - i);
    forall k | i <= k < n
      ensures IsLoopStep(es[k])
    {
      WaitingAlongRun(ss, es, i, k + 1 - i);
    }
    RunInv(ss, es, n);
    OnlyStepWhileWaiting(ss[n], ss[n + 1], es[n]);
    assert ss[n].server.Waiting?;
  }
}
