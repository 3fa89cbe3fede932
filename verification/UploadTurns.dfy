// What follows each request of Client.upload (src/offline/test-publish.ts), told from the requests and the answers alone:
// how often a request is repeated, how often a part may fail in a row, and when an upload is aborted or started over.
module UploadTurns {
  import opened Wrappers
  import opened Upload

  // The run went on for as long as there were answers.
  ghost predicate WholeRun(answers: seq<Answer>, sent: seq<Request>, size: nat) {
    IsRun(answers, sent, size) && (|sent| == |answers| || !Live(StateAt(answers, |sent|)))
  }

  // No answer, or one that says to try again later.
  predicate Transient(a: Answer) {
    match a
    case Network(_) => true
    case Unreadable(_) => false
    case Http(status, _, _, _) => status == 429 || status >= 500
  }

  predicate Taken(a: Answer) {
    a.Http? && a.status == 200
  }

  // An answer to a part that leaves open where to go on: interrupted, not stored, or not the part expected.
  predicate Interrupted(a: Answer) {
    Transient(a) || (a.Http? && (a.status == 0 || a.code == PartFailed || a.code == PartOutOfOrder))
  }

  // The whole file did not arrive as it was sent, or came too late.
  predicate Spoiled(a: Answer) {
    a.Http? && !Transient(a) && a.status != 200 && (a.code == Sha256Mismatch || a.code == UploadExpired)
  }

  // How often the request had been sent in a row before, each time to a transient answer.
  function Repeats(sent: seq<Request>, answers: seq<Answer>, i: nat): nat
    requires i < |sent| <= |answers|
  {
    if i > 0 && sent[i - 1] == sent[i] && !sent[i].Put? && Transient(answers[i - 1]) then Repeats(sent, answers, i - 1) + 1 else 0
  }

  // How many parts were not taken since the last that was, or since the start.
  function Failures(sent: seq<Request>, answers: seq<Answer>, i: nat): nat
    requires i <= |sent| <= |answers|
  {
    if i == 0 then 0 else FailuresNow(sent[i - 1], answers[i - 1], Failures(sent, answers, i - 1))
  }

  function FailuresNow(r: Request, a: Answer, failures: nat): nat {
    if r.Start? then 0 else if !r.Put? then failures else if Taken(a) then 0 else failures + 1
  }

  // How often the upload was started: at first, and after each abort that is followed by a start.
  function Starts(sent: seq<Request>, i: nat): nat
    requires i < |sent|
  {
    if i == 0 then 1 else Starts(sent, i - 1) + if sent[i].Start? && sent[i - 1].Abort? then 1 else 0
  }

  // The upload is being aborted because its completion was answered so.
  predicate AfterSpoiled(sent: seq<Request>, answers: seq<Answer>, i: nat)
    requires i < |sent| <= |answers|
  {
    i > 0 && if sent[i - 1].Abort? then AfterSpoiled(sent, answers, i - 1) else sent[i - 1].Complete? && Spoiled(answers[i - 1])
  }

  // The machine's counters.
  predicate Counts(st: State, repeats: nat, failures: nat, starts: nat, again: bool) {
    match st
    case Starting(start, tries) => start + 1 == starts && tries == repeats
    case Sending(start, _, n) => start + 1 == starts && n == failures
    case Asking(start, _, n, tries) => start + 1 == starts && n == failures && tries == repeats
    case Completing(start, _, tries) => start + 1 == starts && tries == repeats
    case Aborting(start, _, tries, over) => start + 1 == starts && tries == repeats && over == again
    case _ => true
  }

  lemma CountsNext(st: State, a: Answer, size: nat, repeats: nat, failures: nat, starts: nat, again: bool)
    requires Live(st) && Live(Step(st, a)) && Counts(st, repeats, failures, starts, again)
    ensures var r, next := RequestOf(st, size), RequestOf(Step(st, a), size);
      Counts(Step(st, a), if r == next && !next.Put? && Transient(a) then repeats + 1 else 0, FailuresNow(r, a, failures),
             starts + if next.Start? && r.Abort? then 1 else 0, if r.Abort? then again else r.Complete? && Spoiled(a))
  {
  }

  // They say what the requests and the answers do.
  lemma {:induction false} CountsOfRun(answers: seq<Answer>, sent: seq<Request>, size: nat, i: nat)
    requires IsRun(answers, sent, size) && i < |sent|
    ensures Counts(StateAt(answers, i), Repeats(sent, answers, i), Failures(sent, answers, i), Starts(sent, i), AfterSpoiled(sent, answers, i))
  {
    hide Step, RequestOf, FailuresNow, Transient, Spoiled;
    if i > 0 {
      CountsOfRun(answers, sent, size, i - 1);
      CountsNext(StateAt(answers, i - 1), answers[i - 1], size, Repeats(sent, answers, i - 1), Failures(sent, answers, i - 1),
                 Starts(sent, i - 1), AfterSpoiled(sent, answers, i - 1));
      hide Counts;
    }
  }

  // The request after the ith, unless the answers have run out; and none.
  predicate Followed(answers: seq<Answer>, sent: seq<Request>, i: nat, r: Request) {
    i + 1 == |answers| || (i + 1 < |sent| && sent[i + 1] == r)
  }

  predicate Ended(sent: seq<Request>, i: nat) {
    i + 1 == |sent|
  }

  // On with the status an answer carries; without one nothing more is sent.
  predicate GoesOn(answers: seq<Answer>, sent: seq<Request>, size: nat, i: nat, s: Option<Status>) {
    match s
    case None => Ended(sent, i)
    case Some(s) => Followed(answers, sent, i, if !s.completed && s.nextPart <= s.parts then PutOf(s, size) else Complete(s.id))
  }

  lemma Onward(answers: seq<Answer>, sent: seq<Request>, size: nat, i: nat)
    requires WholeRun(answers, sent, size) && i < |sent|
    ensures Live(StateAt(answers, i)) && sent[i] == RequestOf(StateAt(answers, i), size)
    ensures var next := Step(StateAt(answers, i), answers[i]);
      if Live(next) then Followed(answers, sent, i, RequestOf(next, size)) else Ended(sent, i)
  {
    hide Step, RequestOf;
    assert StateAt(answers, i + 1) == Step(StateAt(answers, i), answers[i]);
    if i + 1 < |sent| {
      assert Live(StateAt(answers, i + 1));
    }
  }

  // A part that is not taken is followed by asking where to go on if that is open, up to five times in a row, and by the
  // abort of its upload otherwise.
  lemma AfterPart(answers: seq<Answer>, sent: seq<Request>, size: nat, i: nat)
    requires WholeRun(answers, sent, size) && i < |sent| && sent[i].Put?
    ensures if Taken(answers[i]) then GoesOn(answers, sent, size, i, answers[i].data)
      else if Interrupted(answers[i]) && Failures(sent, answers, i) < 5 then Followed(answers, sent, i, Ask(sent[i].id))
      else Followed(answers, sent, i, Abort(sent[i].id))
  {
    hide StateAt, IsRun, Failures, Repeats, Starts, AfterSpoiled, WholeRun, Followed, Ended;
    CountsOfAny(answers, sent, size, i);
    Onward(answers, sent, size, i);
  }

  lemma CountsOfAny(answers: seq<Answer>, sent: seq<Request>, size: nat, i: nat)
    requires WholeRun(answers, sent, size) && i < |sent|
    ensures |sent| <= |answers|
    ensures Counts(StateAt(answers, i), Repeats(sent, answers, i), Failures(sent, answers, i), Starts(sent, i), AfterSpoiled(sent, answers, i))
  {
    hide Counts;
    CountsOfRun(answers, sent, size, i);
  }

  // Any other request is repeated on transient answers, up to six times in all.
  lemma AfterTransient(answers: seq<Answer>, sent: seq<Request>, size: nat, i: nat)
    requires WholeRun(answers, sent, size) && i < |sent| && !sent[i].Put?
    requires Transient(answers[i]) && Repeats(sent, answers, i) < 5
    ensures Followed(answers, sent, i, sent[i])
  {
    hide StateAt, IsRun, Failures, Repeats, Starts, AfterSpoiled, WholeRun, Followed, Ended;
    CountsOfAny(answers, sent, size, i);
    Onward(answers, sent, size, i);
  }

  // Answered for good, a start or a question that succeeds goes on with its status; a start that does not is the end, a
  // question that does not is followed by the abort. A completion that is taken is the end, any other followed by the abort;
  // and the abort by a second start, where the file did not arrive whole, and otherwise by nothing.
  predicate ForGood(answers: seq<Answer>, sent: seq<Request>, size: nat, i: nat)
    requires i < |sent| <= |answers|
  {
    match sent[i]
    case Start => if Success(answers[i]) then GoesOn(answers, sent, size, i, answers[i].data) else Ended(sent, i)
    case Ask(id) => if Success(answers[i]) then GoesOn(answers, sent, size, i, answers[i].data) else Followed(answers, sent, i, Abort(id))
    case Complete(id) => if Taken(answers[i]) then Ended(sent, i) else Followed(answers, sent, i, Abort(id))
    case Abort(_) =>
      if AfterSpoiled(sent, answers, i) && Starts(sent, i) == 1 then Followed(answers, sent, i, Start) else Ended(sent, i)
    case _ => false
  }

  lemma AfterAnswer(answers: seq<Answer>, sent: seq<Request>, size: nat, i: nat)
    requires WholeRun(answers, sent, size) && i < |sent| && !sent[i].Put?
    requires Transient(answers[i]) ==> Repeats(sent, answers, i) >= 5
    ensures |sent| <= |answers| && ForGood(answers, sent, size, i)
  {
    hide StateAt, IsRun, Failures, Repeats, Starts, AfterSpoiled, WholeRun, Followed, Ended;
    CountsOfAny(answers, sent, size, i);
    Onward(answers, sent, size, i);
  }

  // The first request starts the upload.
  lemma FirstRequest(answers: seq<Answer>, sent: seq<Request>, size: nat)
    requires WholeRun(answers, sent, size) && answers != []
    ensures sent != [] && sent[0] == Start
  {
    assert StateAt(answers, 0) == Starting(0, 0);
  }
}
