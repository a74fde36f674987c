/**
 Which request a reply belongs to, over whole runs of the Modbus client.
 */
module ModbusCorrelation {
  import opened Wire
  import opened ModbusFrame
  import opened ModbusClient

  /** What the environment does: it asks for a read, or reports a completed write or received bytes. */
  datatype Step =
    | Request(q: ReadRequest)
    | Written
    | Bytes(chunk: seq<byte>, beyond: seq<byte>, reaction: seq<ReadRequest>)

  /** The history of a run: requests as they are sent, and frames as they are published. */
  datatype Entry = Sent(id: word, userData: word) | Answered(id: word, event: Event)

  datatype Run = Run(state: State, log: seq<Entry>)

  const START := Run(INITIAL, [])

  function Send(r: Run, q: ReadRequest): Run {
    var state := Issue(r.state, q);
    Run(state, r.log + [Sent(state.lastId, q.userData)])
  }

  function SendAll(r: Run, qs: seq<ReadRequest>): Run
    decreases |qs|
  {
    if qs == [] then r else Send(SendAll(r, qs[..|qs| - 1]), qs[|qs| - 1])
  }

  /** A frame is published first; the listeners' requests follow, and only then is its id forgotten. */
  function Next(r: Run, step: Step): Run {
    match step
    case Request(q) => Send(r, q)
    case Written => r.(state := WriteDone(r.state))
    case Bytes(chunk, beyond, reaction) =>
      match Completed(r.state, chunk, beyond)
      case None => r.(state := Arrived(r.state, chunk))
      case Some(f) =>
        var published := Run(Arrived(r.state, chunk),
                             r.log + [Answered(f.transactionId, Published(r.state.pending, f))]);
        var reacted := SendAll(published, reaction);
        reacted.(state := Settled(reacted.state, f.transactionId))
  }

  function After(steps: seq<Step>): Run
    decreases |steps|
  {
    if steps == [] then START else Next(After(steps[..|steps| - 1]), steps[|steps| - 1])
  }

  lemma {:induction false} SendAllIsIssueAll(r: Run, qs: seq<ReadRequest>)
    ensures SendAll(r, qs).state == IssueAll(r.state, qs)
    decreases |qs|
  {
    if qs != [] {
      SendAllIsIssueAll(r, qs[..|qs| - 1]);
    }
  }

  /** The states of a run are those of the client: its fields do not depend on the history. */
  lemma StepIsClientStep(r: Run, step: Step)
    ensures Next(r, step).state ==
            match step
            case Request(q) => Issue(r.state, q)
            case Written => WriteDone(r.state)
            case Bytes(chunk, beyond, reaction) => Data(r.state, chunk, beyond, reaction)
  {
    hide Completed, Published, Issue;
    if step.Bytes? && Completed(r.state, step.chunk, step.beyond).Some? {
      var f := Completed(r.state, step.chunk, step.beyond).value;
      SendAllIsIssueAll(Run(Arrived(r.state, step.chunk),
                            r.log + [Answered(f.transactionId, Published(r.state.pending, f))]), step.reaction);
    }
  }

  // Correlation.

  /** The user data of the last request with this id, unless a frame with the id has been published since. */
  function Unanswered(log: seq<Entry>, id: word): Option<word>
    decreases |log|
  {
    if log == [] then None
    else
      match log[|log| - 1]
      case Sent(i, userData) => if i == id then Some(userData) else Unanswered(log[..|log| - 1], id)
      case Answered(i, _) => if i == id then None else Unanswered(log[..|log| - 1], id)
  }

  function Lookup(pending: map<word, word>, id: word): Option<word> {
    if id in pending then Some(pending[id]) else None
  }

  /** The pending map is exactly the unanswered requests, each with its user data. */
  ghost predicate Correlated(r: Run) {
    forall id: word :: Lookup(r.state.pending, id) == Unanswered(r.log, id)
  }

  /** The pending map is that, but for one id that has been published and not yet forgotten. */
  ghost predicate CorrelatedBut(r: Run, but: word) {
    forall id: word :: id != but ==> Lookup(r.state.pending, id) == Unanswered(r.log, id)
  }

  lemma UnansweredAfter(log: seq<Entry>, e: Entry, id: word)
    ensures Unanswered(log + [e], id) ==
            if e.id != id then Unanswered(log, id) else if e.Sent? then Some(e.userData) else None
  {
    assert (log + [e])[..|log|] == log;
  }

  lemma SendKeepsCorrelated(r: Run, q: ReadRequest, but: word)
    ensures CorrelatedBut(r, but) ==> CorrelatedBut(Send(r, q), but)
    ensures Correlated(r) ==> Correlated(Send(r, q))
    ensures Unanswered(Send(r, q).log, but) ==
            if NextId(r.state.lastId) == but then Some(q.userData) else Unanswered(r.log, but)
  {
    hide RequestBytes, NextId;
    var e := Sent(NextId(r.state.lastId), q.userData);
    forall id: word
      ensures Unanswered(r.log + [e], id) == if e.id == id then Some(q.userData) else Unanswered(r.log, id)
    {
      UnansweredAfter(r.log, e, id);
    }
  }

  /** One of the next `n` ids is `id`. */
  predicate Issues(lastId: word, n: nat, id: word)
    decreases n
  {
    n > 0 && (NextId(lastId) == id || Issues(NextId(lastId), n - 1, id))
  }

  lemma {:induction false} IssuesSnoc(lastId: word, n: nat, id: word)
    ensures Issues(lastId, n + 1, id) <==> Issues(lastId, n, id) || Wrap(lastId + n + 1) == id
    decreases n
  {
    if n > 0 {
      IssuesSnoc(NextId(lastId), n - 1, id);
      assert Wrap(NextId(lastId) + n) == Wrap(lastId + n + 1);
    }
  }

  lemma NextAfter(lastId: word, n: nat)
    ensures NextId(Wrap(lastId + n)) == Wrap(lastId + n + 1)
  {}

  lemma {:induction false} SendAllIds(r: Run, qs: seq<ReadRequest>)
    ensures SendAll(r, qs).state.lastId == Wrap(r.state.lastId + |qs|)
    decreases |qs|
  {
    hide RequestBytes, NextId, Wrap;
    if qs == [] {
      WrapWord(r.state.lastId);
    } else {
      SendAllIds(r, qs[..|qs| - 1]);
      NextAfter(r.state.lastId, |qs| - 1);
    }
  }

  lemma WrapWord(w: word)
    ensures Wrap(w + 0) == w
  {}

  lemma {:induction false} SendAllKeepsCorrelated(r: Run, qs: seq<ReadRequest>, but: word)
    ensures CorrelatedBut(r, but) ==> CorrelatedBut(SendAll(r, qs), but)
    ensures Unanswered(r.log, but) == None ==>
              (Unanswered(SendAll(r, qs).log, but) == None <==> !Issues(r.state.lastId, |qs|, but))
    decreases |qs|
  {
    hide Send, CorrelatedBut, Wrap;
    if qs != [] {
      var before := SendAll(r, qs[..|qs| - 1]);
      SendAllKeepsCorrelated(r, qs[..|qs| - 1], but);
      SendKeepsCorrelated(before, qs[|qs| - 1], but);
      SendAllIds(r, qs[..|qs| - 1]);
      IssuesSnoc(r.state.lastId, |qs| - 1, but);
      NextAfter(r.state.lastId, |qs| - 1);
    }
  }

  /**
   While a frame is published, the listeners issue a request with the very id of that frame. The id is
   forgotten afterwards, and the new request with it.
   */
  ghost predicate ForgetsNewRequest(r: Run, step: Step) {
    step.Bytes? && Completed(r.state, step.chunk, step.beyond).Some?
    && Issues(r.state.lastId, |step.reaction|, Completed(r.state, step.chunk, step.beyond).value.transactionId)
  }

  /** Exactly those steps break the correlation. */
  lemma StepCorrelates(r: Run, step: Step)
    requires Correlated(r)
    ensures Correlated(Next(r, step)) <==> !ForgetsNewRequest(r, step)
  {
    hide Completed, Published, Issues, Send;
    match step
    case Request(q) => SendKeepsCorrelated(r, q, 0);
    case Written =>
    case Bytes(chunk, beyond, reaction) =>
      if Completed(r.state, chunk, beyond).Some? {
        var f := Completed(r.state, chunk, beyond).value;
        FrameCorrelates(r, chunk, f, reaction);
      }
  }

  lemma FrameCorrelates(r: Run, chunk: seq<byte>, f: Response, reaction: seq<ReadRequest>)
    requires Correlated(r)
    ensures var published := Run(Arrived(r.state, chunk),
                                 r.log + [Answered(f.transactionId, Published(r.state.pending, f))]);
            var reacted := SendAll(published, reaction);
            Correlated(reacted.(state := Settled(reacted.state, f.transactionId)))
            <==> !Issues(r.state.lastId, |reaction|, f.transactionId)
  {
    hide Completed, Published, Issues, Send;
    var e := Answered(f.transactionId, Published(r.state.pending, f));
    var published := Run(Arrived(r.state, chunk), r.log + [e]);
    forall id: word
      ensures Unanswered(published.log, id) == if id == f.transactionId then None else Unanswered(r.log, id)
    {
      UnansweredAfter(r.log, e, id);
    }
    SendAllKeepsCorrelated(published, reaction, f.transactionId);
    var reacted := SendAll(published, reaction);
    var settled := reacted.(state := Settled(reacted.state, f.transactionId));
    assert Lookup(settled.state.pending, f.transactionId) == None;
    forall id: word | id != f.transactionId
      ensures Lookup(settled.state.pending, id) == Unanswered(settled.log, id)
    {
      assert Lookup(reacted.state.pending, id) == Unanswered(reacted.log, id);
    }
  }

  /** No step of the run issues, while a frame is published, a request with that frame's id. */
  ghost predicate NeverForgets(steps: seq<Step>)
    decreases |steps|
  {
    steps == []
    || (NeverForgets(steps[..|steps| - 1])
        && !ForgetsNewRequest(After(steps[..|steps| - 1]), steps[|steps| - 1]))
  }

  lemma {:induction false} RunCorrelates(steps: seq<Step>)
    requires NeverForgets(steps)
    ensures Correlated(After(steps))
    decreases |steps|
  {
    hide Next, ForgetsNewRequest;
    if steps != [] {
      RunCorrelates(steps[..|steps| - 1]);
      StepCorrelates(After(steps[..|steps| - 1]), steps[|steps| - 1]);
    }
  }

  /** Every normal reply carries the user data of the request it answers, or zero if there is none. */
  ghost predicate RepliesCarryUserData(log: seq<Entry>) {
    forall j :: 0 <= j < |log| && log[j].Answered? && log[j].event.Reply? ==>
      log[j].event.response.userData ==
      match Unanswered(log[..j], log[j].id) case Some(u) => u case None => 0
  }

  lemma {:induction false} SendAllExtends(r: Run, qs: seq<ReadRequest>)
    ensures r.log <= SendAll(r, qs).log
    ensures forall j :: |r.log| <= j < |SendAll(r, qs).log| ==> SendAll(r, qs).log[j].Sent?
    decreases |qs|
  {
    hide Issue;
    if qs != [] {
      SendAllExtends(r, qs[..|qs| - 1]);
    }
  }

  lemma CarryExtends(log: seq<Entry>, longer: seq<Entry>)
    requires RepliesCarryUserData(log) && log <= longer
    requires forall j :: |log| <= j < |longer| ==> longer[j].Sent?
    ensures RepliesCarryUserData(longer)
  {
    forall j | 0 <= j < |longer| && longer[j].Answered? && longer[j].event.Reply?
      ensures longer[j].event.response.userData ==
              match Unanswered(longer[..j], longer[j].id) case Some(u) => u case None => 0
    {
      assert j < |log| && longer[..j] == log[..j] && longer[j] == log[j];
    }
  }

  lemma CarryAnswer(r: Run, f: Response)
    requires RepliesCarryUserData(r.log) && Correlated(r) && f.userData == 0
    ensures RepliesCarryUserData(r.log + [Answered(f.transactionId, Published(r.state.pending, f))])
  {
    var e := Answered(f.transactionId, Published(r.state.pending, f));
    var log := r.log + [e];
    forall j | 0 <= j < |log| && log[j].Answered? && log[j].event.Reply?
      ensures log[j].event.response.userData ==
              match Unanswered(log[..j], log[j].id) case Some(u) => u case None => 0
    {
      assert log[..j] == r.log[..j];
      if j == |r.log| {
        assert r.log[..j] == r.log;
        assert Lookup(r.state.pending, f.transactionId) == Unanswered(r.log, f.transactionId);
      }
    }
  }

  lemma DecodedHasNoUserData(r: Run, chunk: seq<byte>, beyond: seq<byte>)
    ensures Completed(r.state, chunk, beyond).Some? ==> Completed(r.state, chunk, beyond).value.userData == 0
  {}

  lemma StepCarriesUserData(r: Run, step: Step)
    requires Correlated(r) && RepliesCarryUserData(r.log)
    ensures RepliesCarryUserData(Next(r, step).log)
  {
    hide Completed, Published, Issue, RepliesCarryUserData, Correlated;
    match step
    case Request(q) => CarryExtends(r.log, Send(r, q).log);
    case Written =>
    case Bytes(chunk, beyond, reaction) =>
      DecodedHasNoUserData(r, chunk, beyond);
      if Completed(r.state, chunk, beyond).Some? {
        var f := Completed(r.state, chunk, beyond).value;
        CarryAnswer(r, f);
        var published := Run(Arrived(r.state, chunk),
                             r.log + [Answered(f.transactionId, Published(r.state.pending, f))]);
        SendAllExtends(published, reaction);
        CarryExtends(published.log, SendAll(published, reaction).log);
      }
  }

  /**
   Over every run that never forgets a request, of requests in any order and replies in any order: the
   pending map is exactly the unanswered requests with their user data, and every normal reply has been
   published with the user data of the request it answers.
   */
  lemma {:induction false} RepliesAreCorrelated(steps: seq<Step>)
    requires NeverForgets(steps)
    ensures Correlated(After(steps)) && RepliesCarryUserData(After(steps).log)
    decreases |steps|
  {
    hide Next, ForgetsNewRequest, Correlated;
    RunCorrelates(steps);
    if steps == [] {
      NothingToCarry();
    } else {
      RunCorrelates(steps[..|steps| - 1]);
      RepliesAreCorrelated(steps[..|steps| - 1]);
      StepCarriesUserData(After(steps[..|steps| - 1]), steps[|steps| - 1]);
    }
  }

  lemma NothingToCarry()
    ensures RepliesCarryUserData(START.log)
  {}
}
