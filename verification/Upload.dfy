// Client.upload (src/offline/test-publish.ts): one file sent in ordered parts to a server whose answers are any sequence
// at all. What the client sends is a machine over the answers it has had, and the code's loops, retries and handlers are
// proved to be that machine. A run is unfinished when the answers run out.
module Upload {
  import opened Wrappers

  // An id is the text put in a path.
  datatype Status = Status(id: string, partSize: nat, parts: nat, nextPart: nat, completed: bool)

  datatype Code = NoCode | PartFailed | PartOutOfOrder | Sha256Mismatch | UploadExpired | Other

  // A network error, a body that cannot be read or is the text null, or a status with what the body states; data is None
  // where the body is no JSON or holds no data.
  // effect is the upload a request to start one began at the server, where no status in the answer says so.
  datatype Answer =
    | Network(effect: Option<string>)
    | Unreadable(effect: Option<string>)
    | Http(status: nat, code: Code, data: Option<Status>, effect: Option<string>)

  // from and to are what Bun.file(path).slice is given.
  datatype Request = Start | Put(id: string, n: nat, from: int, to: int) | Ask(id: string) | Complete(id: string) | Abort(id: string)

  predicate Success(a: Answer) {
    a.Http? && 200 <= a.status <= 299
  }

  function PutOf(s: Status, size: nat): Request {
    var from := (s.nextPart - 1) * s.partSize;
    Put(s.id, s.nextPart, from, if from + s.partSize < size then from + s.partSize else size)
  }

  predicate HasParts(s: Status) {
    !s.completed && s.nextPart <= s.parts
  }

  /* -------- The machine -------- */

  // start counts the starts over, failures the parts failed in a row, tries the answers a call has been retried after.
  datatype State =
    | Starting(start: nat, tries: nat)
    | Sending(start: nat, s: Status, failures: nat)
    | Asking(start: nat, s: Status, failures: nat, tries: nat)
    | Completing(start: nat, s: Status, tries: nat)
    | Aborting(start: nat, s: Status, tries: nat, again: bool)
    | Done(id: string)
    | Failed

  const TRIES := 6
  const FAILURES := 5
  const STARTS := 2

  predicate Live(st: State) {
    !st.Done? && !st.Failed?
  }

  function RequestOf(st: State, size: nat): Request
    requires Live(st)
  {
    match st
    case Starting(_, _) => Start
    case Sending(_, s, _) => PutOf(s, size)
    case Asking(_, s, _, _) => Ask(s.id)
    case Completing(_, s, _) => Complete(s.id)
    case Aborting(_, s, _, _) => Abort(s.id)
  }

  // What call comes to: an exception, after six tries or at once where the body cannot be taken in, or an answer.
  datatype Outcome = Raised | Answered(status: nat, code: Code, data: Option<Status>)

  predicate Retried(a: Answer) {
    a.Network? || (a.Http? && (a.status == 429 || a.status >= 500))
  }

  function OutcomeOf(a: Answer): Outcome {
    match a
    case Network(_) => Answered(0, Other, None)
    case Unreadable(_) => Raised
    case Http(status, code, data, _) => Answered(status, code, data)
  }

  // An answer to a part that is neither its acceptance nor a reason to go on.
  predicate Fatal(status: nat, code: Code) {
    status != 0 && status < 500 && status != 429 && code != PartFailed && code != PartOutOfOrder
  }

  // On with the status in force. Where there is none its first use throws, and so does the handler, which asks it for
  // its id: nothing more is sent.
  function Proceed(start: nat, s: Option<Status>, failures: nat): State {
    match s
    case None => Failed
    case Some(s) => if HasParts(s) then Sending(start, s, failures) else Completing(start, s, 0)
  }

  predicate Accepting(o: Outcome) {
    o.Answered? && 200 <= o.status <= 299
  }

  function AfterCall(st: State, o: Outcome): State
    requires Live(st)
  {
    match st
    case Starting(start, _) => if Accepting(o) then Proceed(start, o.data, 0) else Failed
    case Sending(start, s, failures) =>
      if o.Raised? then Aborting(start, s, 0, false)
      else if o.status == 200 then Proceed(start, o.data, 0)
      else if Fatal(o.status, o.code) || failures + 1 > FAILURES then Aborting(start, s, 0, false)
      else Asking(start, s, failures + 1, 0)
    case Asking(start, s, failures, _) => if Accepting(o) then Proceed(start, o.data, failures) else Aborting(start, s, 0, false)
    case Completing(start, s, _) =>
      if o.Answered? && o.status == 200 then Done(s.id)
      else Aborting(start, s, 0, o.Answered? && (o.code == Sha256Mismatch || o.code == UploadExpired))
    case Aborting(start, s, _, again) => if again && start + 1 < STARTS then Starting(start + 1, 0) else Failed
  }

  // The same request once more.
  function Again(st: State): State
    requires Live(st) && !st.Sending?
  {
    match st
    case Starting(start, tries) => Starting(start, tries + 1)
    case Asking(start, s, failures, tries) => Asking(start, s, failures, tries + 1)
    case Completing(start, s, tries) => Completing(start, s, tries + 1)
    case Aborting(start, s, tries, again) => Aborting(start, s, tries + 1, again)
  }

  // The state after an answer: a part is sent once, another request until it is answered for good, six times at most.
  function Step(st: State, a: Answer): State {
    if !Live(st) then st
    else if st.Sending? || !Retried(a) then AfterCall(st, OutcomeOf(a))
    else if st.tries + 1 < TRIES then Again(st)
    else AfterCall(st, Raised)
  }

  // The state after the first n answers.
  function StateAt(answers: seq<Answer>, n: nat): State
    requires n <= |answers|
  {
    if n == 0 then Starting(0, 0) else Step(StateAt(answers, n - 1), answers[n - 1])
  }

  // The requests sent are those of the states passed through.
  ghost predicate IsRun(answers: seq<Answer>, sent: seq<Request>, size: nat) {
    |sent| <= |answers| && forall i | 0 <= i < |sent| :: Live(StateAt(answers, i)) && sent[i] == RequestOf(StateAt(answers, i), size)
  }

  /* -------- The code -------- */

  lemma RunNext(answers: seq<Answer>, sent: seq<Request>, size: nat)
    requires IsRun(answers, sent, size) && |sent| < |answers| && Live(StateAt(answers, |sent|))
    ensures var next := sent + [RequestOf(StateAt(answers, |sent|), size)];
      IsRun(answers, next, size) && StateAt(answers, |next|) == Step(StateAt(answers, |sent|), answers[|sent|])
  {
    hide Step, RequestOf;
  }

  // A state in which a call has not been tried yet.
  predicate Fresh(st: State) {
    Live(st) && (st.Sending? || st.tries == 0)
  }

  // The state with so many tries behind it.
  function Tried(st: State, n: nat): State
    requires Fresh(st)
  {
    match st
    case Starting(start, _) => Starting(start, n)
    case Sending(_, _, _) => st
    case Asking(start, s, failures, _) => Asking(start, s, failures, n)
    case Completing(start, s, _) => Completing(start, s, n)
    case Aborting(start, s, _, again) => Aborting(start, s, n, again)
    case _ => st
  }

  lemma TriedSteps(st: State, n: nat, a: Answer, size: nat)
    requires Fresh(st) && n < TRIES && (st.Sending? ==> n == 0)
    ensures RequestOf(Tried(st, n), size) == RequestOf(st, size)
    ensures Live(Tried(st, n))
    ensures Step(Tried(st, n), a)
         == if st.Sending? || !Retried(a) then AfterCall(st, OutcomeOf(a))
            else if n + 1 < TRIES then Tried(st, n + 1) else AfterCall(st, Raised)
  {
  }

  // call, of the request of the state it is made in; None when the answers run out.
  method Call(answers: seq<Answer>, before: seq<Request>, r: Request, ghost st: State, size: nat) returns (o: Option<Outcome>, sent: seq<Request>)
    requires |before| <= |answers| && IsRun(answers, before, size) && StateAt(answers, |before|) == st && Fresh(st) && r == RequestOf(st, size)
    ensures |before| <= |sent| <= |answers| && IsRun(answers, sent, size)
    ensures o.Some? ==> |sent| > |before| && StateAt(answers, |sent|) == AfterCall(st, o.value)
    ensures o.None? ==> |sent| == |answers| && Live(StateAt(answers, |sent|))
  {
    hide IsRun, StateAt, AfterCall, Step, Tried;
    sent := before;
    TriedNone(st);
    for attempt := 0 to TRIES
      invariant |sent| == |before| + attempt <= |answers| && IsRun(answers, sent, size)
      invariant r.Put? ==> attempt == 0
      invariant attempt < TRIES ==> StateAt(answers, |sent|) == Tried(st, attempt)
      invariant attempt == TRIES ==> StateAt(answers, |sent|) == AfterCall(st, Raised)
    {
      TriedSteps(st, attempt, Answer.Network(None), size);
      if |sent| == |answers| {
        return None, sent;
      }
      var a := answers[|sent|];
      TriedSteps(st, attempt, a, size);
      RunNext(answers, sent, size);
      sent := sent + [r];
      if r.Put? || !Retried(a) {
        return Some(OutcomeOf(a)), sent;
      }
    }
    o := Some(Raised);
  }

  lemma TriedNone(st: State)
    requires Fresh(st)
    ensures Tried(st, 0) == st
  {
  }

  // How the part loop ends: no parts left, an exception with the status in force or without one, or no more answers.
  datatype Sent = AllSent(s: Status) | Threw(s: Status) | Blind | Waiting

  method SendParts(answers: seq<Answer>, before: seq<Request>, first: Option<Status>, ghost start: nat, size: nat) returns (r: Sent, sent: seq<Request>)
    requires |before| <= |answers| && IsRun(answers, before, size) && StateAt(answers, |before|) == Proceed(start, first, 0)
    ensures |sent| <= |answers| && IsRun(answers, sent, size)
    ensures r.AllSent? ==> StateAt(answers, |sent|) == Completing(start, r.s, 0)
    ensures r.Threw? ==> StateAt(answers, |sent|) == Aborting(start, r.s, 0, false)
    ensures r.Blind? ==> StateAt(answers, |sent|) == Failed
    ensures r.Waiting? ==> |sent| == |answers| && Live(StateAt(answers, |sent|))
  {
    hide IsRun, StateAt;
    sent := before;
    var s, failures := first, 0;
    while true
      invariant IsRun(answers, sent, size) && |sent| <= |answers| && StateAt(answers, |sent|) == Proceed(start, s, failures)
      decreases |answers| - |sent|
    {
      if s.None? {
        return Blind, sent;
      }
      if !HasParts(s.value) {
        return AllSent(s.value), sent;
      }
      var a;
      a, sent := Call(answers, sent, PutOf(s.value, size), Sending(start, s.value, failures), size);
      if a.None? {
        return Waiting, sent;
      }
      if a.value.Raised? {
        return Threw(s.value), sent;
      }
      if a.value.status == 200 {
        s, failures := a.value.data, 0;
        continue;
      }
      if Fatal(a.value.status, a.value.code) {
        return Threw(s.value), sent;
      }
      failures := failures + 1;
      if failures > FAILURES {
        return Threw(s.value), sent;
      }
      a, sent := Call(answers, sent, Ask(s.value.id), Asking(start, s.value, failures, 0), size);
      if a.None? {
        return Waiting, sent;
      }
      if !Accepting(a.value) {
        return Threw(s.value), sent;
      }
      s := a.value.data;
    }
  }

  datatype Result = Uploaded(id: string) | Thrown | Unfinished

  // One start of the upload; over where it is to be started over.
  method Attempt(answers: seq<Answer>, before: seq<Request>, ghost start: nat, size: nat) returns (r: Result, over: bool, sent: seq<Request>)
    requires |before| <= |answers| && IsRun(answers, before, size) && StateAt(answers, |before|) == Starting(start, 0)
    ensures |sent| <= |answers| && IsRun(answers, sent, size)
    ensures over ==> StateAt(answers, |sent|) == if start + 1 < STARTS then Starting(start + 1, 0) else Failed
    ensures !over && r.Uploaded? ==> StateAt(answers, |sent|) == Done(r.id)
    ensures !over && r.Thrown? ==> StateAt(answers, |sent|) == Failed
    ensures !over && r.Unfinished? ==> |sent| == |answers| && Live(StateAt(answers, |sent|))
  {
    hide IsRun, StateAt;
    var a;
    a, sent := Call(answers, before, Start, Starting(start, 0), size);
    if a.None? {
      return Unfinished, false, sent;
    }
    if !Accepting(a.value) {
      return Thrown, false, sent;
    }
    var parts;
    parts, sent := SendParts(answers, sent, a.value.data, start, size);
    var again, s := false, a.value.data;
    match parts {
      case Waiting => return Unfinished, false, sent;
      case Blind => return Thrown, false, sent;
      case Threw(last) => s := Some(last);
      case AllSent(last) =>
        s := Some(last);
        a, sent := Call(answers, sent, Complete(last.id), Completing(start, last, 0), size);
        if a.None? {
          return Unfinished, false, sent;
        }
        if a.value.Answered? && a.value.status == 200 {
          return Uploaded(last.id), false, sent;
        }
        again := a.value.Answered? && (a.value.code == Sha256Mismatch || a.value.code == UploadExpired);
    }
    a, sent := Call(answers, sent, Abort(s.value.id), Aborting(start, s.value, 0, again), size);
    if a.None? {
      return Unfinished, false, sent;
    }
    return Thrown, again, sent;
  }

  // The client sends exactly what the machine does, and ends where it ends.
  method Upload(answers: seq<Answer>, size: nat) returns (r: Result, sent: seq<Request>)
    ensures |sent| <= |answers| && IsRun(answers, sent, size)
    ensures r.Uploaded? ==> StateAt(answers, |sent|) == Done(r.id)
    ensures r.Thrown? ==> StateAt(answers, |sent|) == Failed
    ensures r.Unfinished? ==> |sent| == |answers| && Live(StateAt(answers, |sent|))
  {
    sent := [];
    hide IsRun, StateAt;
    NothingSent(answers, size);
    for start := 0 to STARTS
      invariant IsRun(answers, sent, size) && |sent| <= |answers|
      invariant StateAt(answers, |sent|) == if start < STARTS then Starting(start, 0) else Failed
    {
      var over;
      r, over, sent := Attempt(answers, sent, start, size);
      if !over {
        return;
      }
    }
    r := Thrown;
  }

  lemma NothingSent(answers: seq<Answer>, size: nat)
    ensures IsRun(answers, [], size) && StateAt(answers, 0) == Starting(0, 0)
  {
  }
}
