/**
 Requests are conserved while no transaction id is issued again before its request is answered.
 */
module ModbusConservation {
  import opened Wire
  import opened ModbusFrame
  import opened ModbusCodec
  import opened ModbusClient
  import opened ModbusCorrelation

  function SentCount(log: seq<Entry>): nat
    decreases |log|
  {
    if log == [] then 0
    else SentCount(log[..|log| - 1]) + if log[|log| - 1].Sent? then 1 else 0
  }

  /** The frames that answered a request; the others were not asked for. */
  function AnsweredCount(log: seq<Entry>): nat
    decreases |log|
  {
    if log == [] then 0
    else
      var before := log[..|log| - 1];
      var e := log[|log| - 1];
      AnsweredCount(before) + if e.Answered? && Unanswered(before, e.id).Some? then 1 else 0
  }

  lemma CountsAfter(log: seq<Entry>, e: Entry)
    ensures SentCount(log + [e]) == SentCount(log) + if e.Sent? then 1 else 0
    ensures AnsweredCount(log + [e])
         == AnsweredCount(log) + if e.Answered? && Unanswered(log, e.id).Some? then 1 else 0
  {
    assert (log + [e])[..|log|] == log;
  }

  /** Ids are consecutive modulo 65536: each request's id is one more than the number of requests before it. */
  ghost predicate Consecutive(r: Run) {
    r.state.lastId == Wrap(SentCount(r.log)) && IdsFollow(r.log)
  }

  ghost predicate IdFollows(log: seq<Entry>, j: nat)
    requires j < |log|
  {
    log[j].Sent? ==> log[j].id == Wrap(SentCount(log[..j]) + 1)
  }

  ghost predicate IdsFollow(log: seq<Entry>) {
    forall j :: 0 <= j < |log| ==> IdFollows(log, j)
  }

  /** How many requests are missing from pending and answered together. */
  function Missing(r: Run): int {
    SentCount(r.log) - |r.state.pending| - AnsweredCount(r.log)
  }

  /** None of these requests gets an id that is pending when it is issued, nor `but`. */
  ghost predicate FreshAll(r: Run, qs: seq<ReadRequest>, but: word)
    decreases |qs|
  {
    qs == [] ||
    (var before := SendAll(r, qs[..|qs| - 1]);
     && FreshAll(r, qs[..|qs| - 1], but)
     && NextId(before.state.lastId) !in before.state.pending
     && NextId(before.state.lastId) != but)
  }

  /** The step issues no id that is still pending, or that is just being published. */
  ghost predicate NoReuse(r: Run, step: Step) {
    match step
    case Request(q) => NextId(r.state.lastId) !in r.state.pending
    case Written => true
    case Bytes(chunk, beyond, reaction) =>
      match Completed(r.state, chunk, beyond)
      case None => true
      case Some(f) =>
        FreshAll(Run(Arrived(r.state, chunk), r.log + [Answered(f.transactionId, Published(r.state.pending, f))]),
                 reaction, f.transactionId)
  }

  lemma SendConserves(r: Run, q: ReadRequest)
    requires NextId(r.state.lastId) !in r.state.pending
    ensures Missing(Send(r, q)) == Missing(r)
  {
    hide NextId, RequestBytes, Unanswered;
    var id := NextId(r.state.lastId);
    CountsAfter(r.log, Sent(id, q.userData));
    assert r.state.pending[id := q.userData].Keys == r.state.pending.Keys + {id};
    assert |r.state.pending[id := q.userData].Keys| == |r.state.pending.Keys| + 1;
  }

  lemma IdStillFollows(log: seq<Entry>, e: Entry, j: nat)
    requires j < |log| && IdFollows(log, j)
    ensures IdFollows(log + [e], j)
  {
    assert (log + [e])[..j] == log[..j];
  }

  lemma IdsStillFollow(log: seq<Entry>, e: Entry)
    requires IdsFollow(log) && (e.Sent? ==> e.id == Wrap(SentCount(log) + 1))
    ensures IdsFollow(log + [e])
  {
    assert IdFollows(log + [e], |log|) by {
      assert (log + [e])[..|log|] == log;
    }
    hide IdFollows;
    forall j | 0 <= j < |log|
      ensures IdFollows(log + [e], j)
    {
      IdStillFollows(log, e, j);
    }
  }

  lemma SendConsecutive(r: Run, q: ReadRequest)
    requires Consecutive(r)
    ensures Consecutive(Send(r, q))
  {
    hide RequestBytes, Unanswered, SentCount, Wrap, IdsFollow;
    var e := Sent(NextId(r.state.lastId), q.userData);
    CountsAfter(r.log, e);
    NextAfter(0, SentCount(r.log));
    IdsStillFollow(r.log, e);
  }

  lemma AnswerConsecutive(r: Run, e: Entry, state: State)
    requires Consecutive(r) && e.Answered? && state.lastId == r.state.lastId
    ensures Consecutive(Run(state, r.log + [e]))
  {
    hide Unanswered, SentCount, Wrap, IdsFollow;
    CountsAfter(r.log, e);
    IdsStillFollow(r.log, e);
  }

  lemma {:induction false} SendAllConserves(r: Run, qs: seq<ReadRequest>, but: word)
    requires FreshAll(r, qs, but)
    ensures Missing(SendAll(r, qs)) == Missing(r)
    ensures but in SendAll(r, qs).state.pending <==> but in r.state.pending
    decreases |qs|
  {
    hide Missing, NextId, RequestBytes;
    if qs != [] {
      SendAllConserves(r, qs[..|qs| - 1], but);
      SendConserves(SendAll(r, qs[..|qs| - 1]), qs[|qs| - 1]);
    }
  }

  lemma {:induction false} SendAllConsecutive(r: Run, qs: seq<ReadRequest>)
    requires Consecutive(r)
    ensures Consecutive(SendAll(r, qs))
    decreases |qs|
  {
    hide Consecutive, Send;
    if qs != [] {
      SendAllConsecutive(r, qs[..|qs| - 1]);
      SendConsecutive(SendAll(r, qs[..|qs| - 1]), qs[|qs| - 1]);
    }
  }

  lemma {:induction false} FreshDoesNotForget(r: Run, qs: seq<ReadRequest>, but: word)
    requires FreshAll(r, qs, but)
    ensures !Issues(r.state.lastId, |qs|, but)
    decreases |qs|
  {
    hide Send, Wrap, NextId;
    if qs != [] {
      FreshDoesNotForget(r, qs[..|qs| - 1], but);
      SendAllIds(r, qs[..|qs| - 1]);
      IssuesSnoc(r.state.lastId, |qs| - 1, but);
      NextAfter(r.state.lastId, |qs| - 1);
    }
  }

  lemma FrameConserves(r: Run, chunk: seq<byte>, f: Response, reaction: seq<ReadRequest>)
    requires Correlated(r) && Missing(r) == 0 && Consecutive(r)
    requires FreshAll(Run(Arrived(r.state, chunk), r.log + [Answered(f.transactionId, Published(r.state.pending, f))]),
                      reaction, f.transactionId)
    ensures var published := Run(Arrived(r.state, chunk),
                                 r.log + [Answered(f.transactionId, Published(r.state.pending, f))]);
            var reacted := SendAll(published, reaction);
            var settled := reacted.(state := Settled(reacted.state, f.transactionId));
            Missing(settled) == 0 && Consecutive(settled)
  {
    hide Published, SendAll, FreshAll, Consecutive;
    var id := f.transactionId;
    var e := Answered(id, Published(r.state.pending, f));
    var published := Run(Arrived(r.state, chunk), r.log + [e]);
    CountsAfter(r.log, e);
    assert Lookup(r.state.pending, id) == Unanswered(r.log, id);
    SendAllConserves(published, reaction, id);
    AnswerConsecutive(r, e, published.state);
    SendAllConsecutive(published, reaction);
    var reacted := SendAll(published, reaction);
    SettleCounts(reacted.state.pending, id);
    SettleConsecutive(reacted, id);
  }

  lemma SettleCounts(pending: map<word, word>, id: word)
    ensures |pending - {id}| == |pending| - if id in pending then 1 else 0
  {
    assert (pending - {id}).Keys == pending.Keys - {id};
    assert |pending.Keys - {id}| == |pending.Keys| - if id in pending.Keys then 1 else 0;
  }

  lemma SettleConsecutive(r: Run, id: word)
    requires Consecutive(r)
    ensures Consecutive(r.(state := Settled(r.state, id)))
  {}

  lemma StepConserves(r: Run, step: Step)
    requires Correlated(r) && Missing(r) == 0 && Consecutive(r) && NoReuse(r, step)
    ensures Correlated(Next(r, step)) && Missing(Next(r, step)) == 0 && Consecutive(Next(r, step))
  {
    hide Completed, Published, FreshAll, Send, Issues, Correlated, NextId;
    match step
    case Request(q) =>
      StepCorrelates(r, step);
      SendConserves(r, q);
      SendConsecutive(r, q);
    case Written =>
      StepCorrelates(r, step);
    case Bytes(chunk, beyond, reaction) =>
      StepCorrelates(r, step);
      if Completed(r.state, chunk, beyond).Some? {
        var f := Completed(r.state, chunk, beyond).value;
        FreshDoesNotForget(Run(Arrived(r.state, chunk),
                               r.log + [Answered(f.transactionId, Published(r.state.pending, f))]),
                           reaction, f.transactionId);
        FrameConserves(r, chunk, f, reaction);
      }
  }

  ghost predicate NeverReuses(steps: seq<Step>)
    decreases |steps|
  {
    steps == []
    || (NeverReuses(steps[..|steps| - 1]) && NoReuse(After(steps[..|steps| - 1]), steps[|steps| - 1]))
  }

  lemma NoReuseDoesNotForget(r: Run, step: Step)
    requires NoReuse(r, step)
    ensures !ForgetsNewRequest(r, step)
  {
    hide Completed, Published, FreshAll, Issues;
    if step.Bytes? && Completed(r.state, step.chunk, step.beyond).Some? {
      var f := Completed(r.state, step.chunk, step.beyond).value;
      FreshDoesNotForget(Run(Arrived(r.state, step.chunk),
                             r.log + [Answered(f.transactionId, Published(r.state.pending, f))]),
                         step.reaction, f.transactionId);
    }
  }

  lemma {:induction false} ReuseComesFirst(steps: seq<Step>)
    requires NeverReuses(steps)
    ensures NeverForgets(steps)
    decreases |steps|
  {
    hide ForgetsNewRequest, NoReuse;
    if steps != [] {
      ReuseComesFirst(steps[..|steps| - 1]);
      NoReuseDoesNotForget(After(steps[..|steps| - 1]), steps[|steps| - 1]);
    }
  }

  lemma {:induction false} CountsAreConserved(steps: seq<Step>)
    requires NeverReuses(steps)
    ensures var r := After(steps); Correlated(r) && Missing(r) == 0 && Consecutive(r)
    decreases |steps|
  {
    hide Next, NoReuse, Correlated, Consecutive, Missing;
    if steps == [] {
      NothingIsConserved();
    } else {
      CountsAreConserved(steps[..|steps| - 1]);
      StepConserves(After(steps[..|steps| - 1]), steps[|steps| - 1]);
    }
  }

  /**
   Over every run in which no id is issued again while it is pending or being published, whatever the
   order of requests and replies: the pending map is exactly the unanswered requests, every request that
   was sent is either pending or has been answered, ids are consecutive modulo 65536, and every normal
   reply has been published with the user data of the request it answers.
   */
  lemma RequestsAreConserved(steps: seq<Step>)
    requires NeverReuses(steps)
    ensures var r := After(steps);
            && Correlated(r)
            && SentCount(r.log) == |r.state.pending| + AnsweredCount(r.log)
            && Consecutive(r)
            && RepliesCarryUserData(r.log)
  {
    hide After, NeverForgets, NeverReuses, Correlated, Consecutive, RepliesCarryUserData;
    CountsAreConserved(steps);
    ReuseComesFirst(steps);
    RepliesAreCorrelated(steps);
  }

  lemma NothingIsConserved()
    ensures Correlated(START) && Missing(START) == 0 && Consecutive(START)
  {}

  // When ids are not reused.

  /** The request at `j` has neither been answered nor been followed by one with its id. */
  ghost predicate StillOpen(log: seq<Entry>, j: nat) {
    j < |log| && log[j].Sent? && forall k :: j < k < |log| ==> log[k].id != log[j].id
  }

  lemma {:induction false} OpenSource(log: seq<Entry>, id: word) returns (j: nat)
    requires Unanswered(log, id).Some?
    ensures StillOpen(log, j) && log[j].id == id
    decreases |log|
  {
    var last := |log| - 1;
    if log[last].id == id {
      j := last;
    } else {
      j := OpenSource(log[..last], id);
    }
  }

  lemma {:induction false} CountMonotone(log: seq<Entry>, j: nat)
    requires j < |log| && log[j].Sent?
    ensures SentCount(log[..j]) < SentCount(log)
    decreases |log|
  {
    var last := |log| - 1;
    if j < last {
      CountMonotone(log[..last], j);
      assert log[..last][..j] == log[..j];
    }
  }

  lemma WrapDiffers(a: nat, b: nat)
    requires a < b <= a + 0xFFFF
    ensures Wrap(a + 1) != Wrap(b + 1)
  {}

  /** The `n`-th id from now is not pending, if each open request is at most 65535 requests older. */
  lemma RecentIdsAreFresh(r: Run, n: nat)
    requires Correlated(r) && Consecutive(r)
    requires forall j: nat :: StillOpen(r.log, j) ==> SentCount(r.log) + n - SentCount(r.log[..j]) <= 0xFFFF
    ensures Wrap(r.state.lastId + n + 1) !in r.state.pending
  {
    hide Wrap;
    var id := Wrap(r.state.lastId + n + 1);
    WrapOfWrap(SentCount(r.log), n + 1);
    if id in r.state.pending {
      assert Lookup(r.state.pending, id) == Unanswered(r.log, id);
      var j := OpenSource(r.log, id);
      CountMonotone(r.log, j);
      assert IdFollows(r.log, j);
      WrapDiffers(SentCount(r.log[..j]), SentCount(r.log) + n);
      assert false;
    }
  }

  lemma WrapOfWrap(a: nat, n: nat)
    ensures Wrap(Wrap(a) + n) == Wrap(a + n)
  {}

  /** How many requests a step issues. */
  function Issued(r: Run, step: Step): nat {
    match step
    case Request(_) => 1
    case Written => 0
    case Bytes(chunk, beyond, reaction) => if Completed(r.state, chunk, beyond).Some? then |reaction| else 0
  }

  /**
   No request stays open while the step issues a request more than 65535 later than it; and listeners issue
   requests only while a frame is published that answers one.
   */
  ghost predicate Prompt(r: Run, step: Step) {
    Issued(r, step) > 0 ==>
      && (forall j: nat :: StillOpen(r.log, j) ==>
            SentCount(r.log) + Issued(r, step) - 1 - SentCount(r.log[..j]) <= 0xFFFF)
      && (step.Bytes? ==> Completed(r.state, step.chunk, step.beyond).value.transactionId in r.state.pending)
  }

  lemma {:induction false} IssuedLater(lastId: word, n: nat, id: word) returns (i: nat)
    requires Issues(lastId, n, id)
    ensures 1 <= i <= n && id == Wrap(lastId + i)
    decreases n
  {
    if NextId(lastId) == id {
      i := 1;
    } else {
      i := IssuedLater(NextId(lastId), n - 1, id);
      WrapOfWrap(lastId + 1, i);
      i := i + 1;
    }
  }

  /** What is pending was pending before, or is one of the requests issued since. */
  lemma {:induction false} SendAllPending(r: Run, qs: seq<ReadRequest>, id: word)
    ensures id in SendAll(r, qs).state.pending <==> id in r.state.pending || Issues(r.state.lastId, |qs|, id)
    decreases |qs|
  {
    hide RequestBytes, Wrap;
    if qs != [] {
      SendAllPending(r, qs[..|qs| - 1], id);
      SendAllIds(r, qs[..|qs| - 1]);
      NextAfter(r.state.lastId, |qs| - 1);
      IssuesSnoc(r.state.lastId, |qs| - 1, id);
    }
  }

  lemma {:induction false} PromptReactionIsFresh(r: Run, published: Run, qs: seq<ReadRequest>, but: word)
    requires Correlated(r) && Consecutive(r) && but in r.state.pending && |qs| <= 0xFFFF
    requires forall j: nat :: StillOpen(r.log, j) ==>
               SentCount(r.log) + |qs| - 1 - SentCount(r.log[..j]) <= 0xFFFF
    requires published.state.lastId == r.state.lastId && published.state.pending == r.state.pending
    ensures FreshAll(published, qs, but)
    decreases |qs|
  {
    hide Correlated, Consecutive, StillOpen, SentCount, Wrap, Issues;
    if qs != [] {
      var m := |qs| - 1;
      PromptReactionIsFresh(r, published, qs[..m], but);
      RecentIdsAreFresh(r, m);
      var before := SendAll(published, qs[..m]);
      SendAllIds(published, qs[..m]);
      NextAfter(r.state.lastId, m);
      var id := NextId(before.state.lastId);
      SendAllPending(published, qs[..m], id);
      if Issues(r.state.lastId, m, id) {
        var i := IssuedLater(r.state.lastId, m, id);
        WrapDiffers(r.state.lastId + i - 1, r.state.lastId + m);
        assert false;
      }
    }
  }

  lemma PromptStepIsFresh(r: Run, step: Step)
    requires Correlated(r) && Consecutive(r) && Prompt(r, step)
    ensures NoReuse(r, step)
  {
    hide Completed, Published, Correlated, Consecutive, Unanswered, StillOpen, SentCount;
    match step
    case Request(q) =>
      RecentIdsAreFresh(r, 0);
    case Written =>
    case Bytes(chunk, beyond, reaction) =>
      if Completed(r.state, chunk, beyond).Some? && reaction != [] {
        var f := Completed(r.state, chunk, beyond).value;
        OpenRequestIsRecent(r, f.transactionId, |reaction|);
        PromptReactionIsFresh(r, Run(Arrived(r.state, chunk),
                                     r.log + [Answered(f.transactionId, Published(r.state.pending, f))]),
                              reaction, f.transactionId);
      }
  }

  /** While a request is open, few enough others are issued. */
  lemma OpenRequestIsRecent(r: Run, id: word, n: nat)
    requires Correlated(r) && id in r.state.pending
    requires forall j: nat :: StillOpen(r.log, j) ==> SentCount(r.log) + n - 1 - SentCount(r.log[..j]) <= 0xFFFF
    ensures n <= 0xFFFF
  {
    assert Lookup(r.state.pending, id) == Unanswered(r.log, id);
    var j := OpenSource(r.log, id);
    CountMonotone(r.log, j);
  }

  ghost predicate AlwaysPrompt(steps: seq<Step>)
    decreases |steps|
  {
    steps == []
    || (AlwaysPrompt(steps[..|steps| - 1]) && Prompt(After(steps[..|steps| - 1]), steps[|steps| - 1]))
  }

  /**
   A run in which no request stays open across 65535 later ones, and listeners issue requests only for frames
   that answer one, never issues an id that is pending: the conservation above is that of every such run.
   */
  lemma {:induction false} PromptRunsNeverReuse(steps: seq<Step>)
    requires AlwaysPrompt(steps)
    ensures NeverReuses(steps)
    decreases |steps|
  {
    hide Prompt, NoReuse, Next, Correlated, Consecutive, RepliesCarryUserData;
    if steps != [] {
      PromptRunsNeverReuse(steps[..|steps| - 1]);
      RequestsAreConserved(steps[..|steps| - 1]);
      PromptStepIsFresh(After(steps[..|steps| - 1]), steps[|steps| - 1]);
    }
  }

  /**
   A frame that nobody asked for, with the id that the listeners' next request will get: the request is
   sent, and at once forgotten. `reply` is any such frame, arriving at an idle client.
   */
  lemma UnsolicitedFrameForgetsRequest(reply: Response, q: ReadRequest)
    requires Normal(reply) && |reply.values| <= 127 && reply.transactionId == 1
    ensures var step := Bytes(FrameBytes(reply), [], [q]);
            && ForgetsNewRequest(START, step)
            && Next(START, step).state.pending == map[]
            && Unanswered(Next(START, step).log, 1) == Some(q.userData)
  {
    hide RequestBytes, Frame, Published, FrameBytes;
    var frame := FrameBytes(reply);
    assert [] + frame + [] == frame && [] + frame == frame;
    ResponseRoundTrip(reply, frame, |frame|);
    assert Completed(INITIAL, frame, []) == Some(reply);
    var published := Run(Arrived(INITIAL, frame), [] + [Answered(1, Published(map[], reply))]);
    assert [q][..0] == [];
    assert SendAll(published, [q]) == Send(published, q);
    assert Send(published, q).state.pending == map[1 := q.userData];
    UnansweredAfter(published.log, Sent(1, q.userData), 1);
  }
}
