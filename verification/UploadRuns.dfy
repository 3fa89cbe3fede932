// What holds of every run of Client.upload (src/offline/test-publish.ts), whatever the server answers: what each request
// asks for, which uploads are left without completion or abort, and how many requests a run takes.
module UploadRuns {
  import opened Arithmetic
  import opened Wrappers
  import opened Bytes
  import opened Upload

  /* -------- The status in force -------- */

  // An answer that puts a status in force, or leaves none.
  predicate Accepted(st: State, a: Answer) {
    match st
    case Starting(_, _) => Success(a)
    case Asking(_, _, _, _) => Success(a)
    case Sending(_, _, _) => a.Http? && a.status == 200
    case _ => false
  }

  predicate AcceptedAt(answers: seq<Answer>, i: nat)
    requires i < |answers|
  {
    Accepted(StateAt(answers, i), answers[i])
  }

  function DataOf(a: Answer): Option<Status> {
    if a.Http? then a.data else None
  }

  // A state that has a status in force.
  predicate Holds(st: State) {
    Live(st) && !st.Starting?
  }

  // One step from a state with a status in force: the status stays unless the answer is accepted, and an upload that has
  // been completed or aborted is over or starts over.
  lemma StepHolds(st: State, a: Answer)
    requires Holds(st)
    ensures Accepted(st, a) && DataOf(a).Some? ==> Holds(Step(st, a)) && Step(st, a).s == DataOf(a).value
    ensures Accepted(st, a) && DataOf(a).None? ==> Step(st, a).Failed?
    ensures !Accepted(st, a) && !Closes(st, a, st.s.id) ==> Holds(Step(st, a)) && Step(st, a).s == st.s
    ensures Closes(st, a, st.s.id) ==> !Accepted(st, a) && Ending(Step(st, a))
  {
  }

  lemma StepStarts(st: State, a: Answer)
    requires st.Starting?
    ensures Accepted(st, a) && DataOf(a).Some? ==> Holds(Step(st, a)) && Step(st, a).s == DataOf(a).value
    ensures Accepted(st, a) && DataOf(a).None? ==> Step(st, a).Failed?
    ensures !Accepted(st, a) ==> Step(st, a).Starting? || Step(st, a).Failed?
  {
  }

  // A request that completes the upload or attempts its abort.
  predicate Closes(st: State, a: Answer, id: string) {
    (st.Aborting? && st.s.id == id) || (st.Completing? && st.s.id == id && a.Http? && a.status == 200)
  }

  predicate ClosesAt(answers: seq<Answer>, i: nat, id: string)
    requires i < |answers|
  {
    Closes(StateAt(answers, i), answers[i], id)
  }

  // Nothing of this start is still to be accepted.
  predicate Ending(st: State) {
    st.Aborting? || st.Starting? || !Live(st)
  }

  lemma StepEnds(st: State, a: Answer)
    requires Ending(st) && !st.Starting?
    ensures !Accepted(st, a) && Ending(Step(st, a))
  {
  }

  lemma StaysOver(answers: seq<Answer>, i: nat, j: nat)
    requires i <= j <= |answers| && !Live(StateAt(answers, i))
    ensures StateAt(answers, j) == StateAt(answers, i)
    decreases j - i
  {
    hide Step;
    if i < j {
      StaysOver(answers, i, j - 1);
      OverStays(StateAt(answers, i), answers[j - 1]);
    }
  }

  lemma OverStays(st: State, a: Answer)
    requires !Live(st)
    ensures Step(st, a) == st
  {
  }

  /* -------- Where the status in force comes from -------- */

  // No answer from i on, up to j, is accepted, and no start is made.
  ghost predicate Quiet(answers: seq<Answer>, i: nat, j: nat)
    requires j <= |answers|
  {
    (forall k | i <= k < j :: !AcceptedAt(answers, k)) && forall k | i <= k <= j :: !StateAt(answers, k).Starting?
  }

  // The status in force is that of the last answer accepted since the upload was last started.
  lemma {:induction false} InForce(answers: seq<Answer>, k: nat) returns (n: nat)
    requires k <= |answers| && Holds(StateAt(answers, k))
    ensures n < k && AcceptedAt(answers, n) && DataOf(answers[n]) == Some(StateAt(answers, k).s) && Quiet(answers, n + 1, k)
  {
    hide Step, Accepted;
    assert k > 0;
    StepBack(StateAt(answers, k - 1), answers[k - 1]);
    if AcceptedAt(answers, k - 1) {
      n := k - 1;
    } else {
      n := InForce(answers, k - 1);
    }
  }

  lemma StepBack(st: State, a: Answer)
    requires Holds(Step(st, a))
    ensures Accepted(st, a) ==> DataOf(a) == Some(Step(st, a).s)
    ensures !Accepted(st, a) ==> Holds(st) && Step(st, a).s == st.s
  {
  }

  /* -------- Uploads started and settled -------- */

  // The upload a request to start one began: the one its answer's status names, or else the one it began unseen.
  function Started(st: State, a: Answer): Option<string> {
    if !st.Starting? then None
    else if Success(a) && a.data.Some? then Some(a.data.value.id)
    else a.effect
  }

  predicate StartsAt(answers: seq<Answer>, i: nat, id: string)
    requires i < |answers|
  {
    Started(StateAt(answers, i), answers[i]) == Some(id)
  }

  // Completed, or its abort attempted, after it was started.
  ghost predicate Settled(answers: seq<Answer>, i: nat, id: string) {
    exists k | i < k < |answers| :: ClosesAt(answers, k, id)
  }

  // The last answer accepted before the upload was started over, or at all.
  ghost predicate LastAccepted(answers: seq<Answer>, n: nat)
    requires n < |answers|
  {
    && AcceptedAt(answers, n)
    && forall k | n < k < |answers| && AcceptedAt(answers, k) :: StartsBetween(answers, n + 1, k)
  }

  ghost predicate StartsBetween(answers: seq<Answer>, i: nat, j: nat)
    requires j <= |answers|
  {
    exists k | i <= k <= j :: StateAt(answers, k).Starting?
  }

  predicate Names(a: Answer, id: string) {
    DataOf(a).Some? && DataOf(a).value.id == id
  }

  // The run is over by the end of the answers.
  predicate Over(answers: seq<Answer>) {
    !Live(StateAt(answers, |answers|))
  }

  // Until the upload is started over, every accepted answer names it.
  ghost predicate Keeping(answers: seq<Answer>, m: nat, id: string) {
    forall k | m <= k < |answers| && AcceptedAt(answers, k) :: Names(answers[k], id) || StartsBetween(answers, m, k)
  }

  lemma KeepingOn(answers: seq<Answer>, m: nat, id: string)
    requires m < |answers| && Keeping(answers, m, id) && !StateAt(answers, m).Starting?
    ensures AcceptedAt(answers, m) ==> Names(answers[m], id)
    ensures Keeping(answers, m + 1, id)
  {
    hide StateAt, Names, Accepted;
  }

  // From a state whose status names the upload, as long as every accepted answer does, the run settles the upload before
  // it starts over or ends.
  lemma {:induction false} SettledFrom(answers: seq<Answer>, m: nat, id: string)
    requires m <= |answers| && Over(answers) && Holds(StateAt(answers, m)) && StateAt(answers, m).s.id == id
    requires Keeping(answers, m, id)
    ensures exists k | m <= k < |answers| :: ClosesAt(answers, k, id)
    decreases |answers| - m
  {
    hide Step, Accepted, Closes, Keeping;
    StepHolds(StateAt(answers, m), answers[m]);
    if !ClosesAt(answers, m, id) {
      KeepingOn(answers, m, id);
      SettledFrom(answers, m + 1, id);
    }
  }

  // After a start is closed nothing is accepted before the next.
  lemma {:induction false} NothingAfter(answers: seq<Answer>, k: nat, last: nat)
    requires k <= last < |answers| && Ending(StateAt(answers, k)) && AcceptedAt(answers, last)
    ensures StartsBetween(answers, k, last)
    decreases last - k
  {
    hide Step, Accepted;
    if !StateAt(answers, k).Starting? {
      StepEnds(StateAt(answers, k), answers[k]);
      assert k != last;
      NothingAfter(answers, k + 1, last);
    }
  }

  // In every run that is over, an upload that was started is completed or has had its abort attempted if and only if,
  // for that start or a later one, the last answer accepted carried a status that names it.
  lemma SettledExactly(answers: seq<Answer>, i: nat, id: string)
    requires Over(answers) && i < |answers| && StartsAt(answers, i, id)
    ensures Settled(answers, i, id) <==> exists n | i <= n < |answers| :: LastAccepted(answers, n) && Names(answers[n], id)
  {
    if n :| i <= n < |answers| && LastAccepted(answers, n) && Names(answers[n], id) {
      NamedIsSettled(answers, i, id, n);
    }
    if k :| i < k < |answers| && ClosesAt(answers, k, id) {
      var n := SettledIsNamed(answers, i, id, k);
    }
  }

  lemma NamedIsSettled(answers: seq<Answer>, i: nat, id: string, n: nat)
    requires Over(answers) && i <= n < |answers| && LastAccepted(answers, n) && Names(answers[n], id)
    ensures Settled(answers, i, id)
  {
    hide Step, Closes, Names;
    if StateAt(answers, n).Starting? {
      StepStarts(StateAt(answers, n), answers[n]);
    } else {
      StepHolds(StateAt(answers, n), answers[n]);
    }
    HasName(answers[n], id);
    assert Keeping(answers, n + 1, id);
    SettledFrom(answers, n + 1, id);
  }

  lemma HasName(a: Answer, id: string)
    requires Names(a, id)
    ensures DataOf(a).Some? && DataOf(a).value.id == id
  {
  }

  lemma SettledIsNamed(answers: seq<Answer>, i: nat, id: string, k: nat) returns (n: nat)
    requires i < k < |answers| && StateAt(answers, i).Starting? && ClosesAt(answers, k, id)
    ensures i <= n < |answers| && LastAccepted(answers, n) && Names(answers[n], id)
  {
    hide Step, Accepted;
    n := InForce(answers, k);
    assert n >= i;
    StepHolds(StateAt(answers, k), answers[k]);
    forall l | n < l < |answers| && AcceptedAt(answers, l) ensures StartsBetween(answers, n + 1, l) {
      assert l > k;
      NothingAfter(answers, k + 1, l);
    }
  }

  // Where no later start's last accepted answer names it, an upload whose start led to an accepted answer is left exactly
  // where the last such answer carried no status or one that names another upload.
  lemma LeftExactly(answers: seq<Answer>, i: nat, id: string, n: nat)
    requires Over(answers) && i <= n < |answers| && StartsAt(answers, i, id) && LastAccepted(answers, n)
    requires forall k | i <= k < |answers| && k != n && LastAccepted(answers, k) :: !Names(answers[k], id)
    ensures !Settled(answers, i, id) <==> DataOf(answers[n]).None? || DataOf(answers[n]).value.id != id
  {
    hide LastAccepted;
    SettledExactly(answers, i, id);
  }

  // And one whose start was lost, so that no answer to it or after it was accepted, is always left.
  lemma LostIsLeft(answers: seq<Answer>, i: nat, id: string)
    requires Over(answers) && i < |answers| && StartsAt(answers, i, id)
    requires forall k | i <= k < |answers| :: !AcceptedAt(answers, k)
    ensures !Settled(answers, i, id)
  {
    SettledExactly(answers, i, id);
  }

  // Answers that name the upload they are about.
  predicate KeepsId(st: State, a: Answer) {
    match st
    case Starting(_, _) => (Success(a) ==> a.data.Some?) && (!Success(a) ==> a.effect.None?)
    case Sending(_, s, _) => Accepted(st, a) ==> Names(a, s.id)
    case Asking(_, s, _, _) => Accepted(st, a) ==> Names(a, s.id)
    case _ => true
  }

  // With such answers, and no start lost, every run settles every upload it starts.
  lemma EveryUploadSettled(answers: seq<Answer>, i: nat, id: string)
    requires Over(answers) && i < |answers| && StartsAt(answers, i, id)
    requires forall k | 0 <= k < |answers| :: KeepsId(StateAt(answers, k), answers[k])
    ensures Settled(answers, i, id)
  {
    StepStarts(StateAt(answers, i), answers[i]);
    KeptFrom(answers, i + 1, id);
  }

  lemma {:induction false} KeptFrom(answers: seq<Answer>, m: nat, id: string)
    requires m <= |answers| && Over(answers) && Holds(StateAt(answers, m)) && StateAt(answers, m).s.id == id
    requires forall k | 0 <= k < |answers| :: KeepsId(StateAt(answers, k), answers[k])
    ensures exists k | m <= k < |answers| :: ClosesAt(answers, k, id)
    decreases |answers| - m
  {
    hide Step, Accepted, Closes;
    var st, a := StateAt(answers, m), answers[m];
    StepHolds(st, a);
    if !ClosesAt(answers, m, id) {
      if Accepted(st, a) {
        KeepsTheId(st, a);
      }
      KeptFrom(answers, m + 1, id);
    }
  }

  lemma KeepsTheId(st: State, a: Answer)
    requires Holds(st) && KeepsId(st, a) && Accepted(st, a)
    ensures Names(a, st.s.id)
  {
  }

  /* -------- The three ways an upload is left -------- */

  // A part accepted with no status in the body: nothing more is sent, so the upload is not aborted.
  lemma BodyWithoutStatus(s: Status, effect: Option<string>)
    requires HasParts(s)
    ensures var answers := [Http(200, NoCode, Some(s), None), Http(200, NoCode, None, effect)];
      StartsAt(answers, 0, s.id) && StateAt(answers, 2) == Failed && !Settled(answers, 0, s.id)
  {
    var answers := [Http(200, NoCode, Some(s), None), Http(200, NoCode, None, effect)];
    assert StateAt(answers, 1) == Sending(0, s, 0);
    assert !ClosesAt(answers, 1, s.id);
  }

  // A part accepted with the status of another upload: that one is aborted.
  lemma OtherUpload(s: Status, other: Status)
    requires HasParts(s) && !HasParts(other) && other.id != s.id
    ensures var answers := [Http(200, NoCode, Some(s), None), Http(200, NoCode, Some(other), None), Http(400, NoCode, None, None), Http(200, NoCode, None, None)];
      StartsAt(answers, 0, s.id) && StateAt(answers, 4) == Failed && !Settled(answers, 0, s.id) && Settled(answers, 0, other.id)
  {
    var answers := [Http(200, NoCode, Some(s), None), Http(200, NoCode, Some(other), None), Http(400, NoCode, None, None), Http(200, NoCode, None, None)];
    assert StateAt(answers, 1) == Sending(0, s, 0);
    assert StateAt(answers, 2) == Completing(0, other, 0);
    assert StateAt(answers, 3) == Aborting(0, other, 0, false);
    assert !ClosesAt(answers, 1, s.id) && !ClosesAt(answers, 2, s.id) && !ClosesAt(answers, 3, s.id);
    assert ClosesAt(answers, 3, other.id);
  }

  // A start whose answer is lost: the upload started in its place is completed, and the first one stays.
  lemma LostStart(lost: string, s: Status)
    requires !HasParts(s) && s.id != lost
    ensures var answers := [Network(Some(lost)), Http(200, NoCode, Some(s), None), Http(200, NoCode, None, None)];
      StartsAt(answers, 0, lost) && StateAt(answers, 3) == Done(s.id) && !Settled(answers, 0, lost) && Settled(answers, 1, s.id)
  {
    var answers := [Network(Some(lost)), Http(200, NoCode, Some(s), None), Http(200, NoCode, None, None)];
    assert StateAt(answers, 1) == Starting(0, 1);
    assert StateAt(answers, 2) == Completing(0, s, 0);
    assert !ClosesAt(answers, 1, lost) && !ClosesAt(answers, 2, lost);
    assert ClosesAt(answers, 2, s.id);
  }

  // It is the last status that counts: one that names another upload on the way does no harm.
  lemma NamedAgain(s: Status, other: Status, last: Status)
    requires HasParts(s) && HasParts(other) && !HasParts(last) && other.id != s.id == last.id
    ensures var answers := [Http(200, NoCode, Some(s), None), Http(200, NoCode, Some(other), None), Http(200, NoCode, Some(last), None), Http(200, NoCode, None, None)];
      StartsAt(answers, 0, s.id) && StateAt(answers, 4) == Done(s.id) && Settled(answers, 0, s.id)
  {
    var answers := [Http(200, NoCode, Some(s), None), Http(200, NoCode, Some(other), None), Http(200, NoCode, Some(last), None), Http(200, NoCode, None, None)];
    assert StateAt(answers, 1) == Sending(0, s, 0);
    assert StateAt(answers, 2) == Sending(0, other, 0);
    assert StateAt(answers, 3) == Completing(0, last, 0);
    assert ClosesAt(answers, 3, s.id);
  }

  /* -------- Every request -------- */

  // A state in which a part is sent has parts to send.
  lemma {:induction false} SendsParts(answers: seq<Answer>, i: nat)
    requires i <= |answers|
    ensures StateAt(answers, i).Sending? ==> HasParts(StateAt(answers, i).s)
    ensures StateAt(answers, i).Completing? ==> !HasParts(StateAt(answers, i).s)
  {
    hide HasParts, Retried, Fatal;
    if i > 0 {
      SendsParts(answers, i - 1);
    }
  }

  // Every request but a start is about the status in force, the one the last accepted answer since the start carried: a
  // part is the one it asks for, and a completion is asked for only when it has no more.
  lemma EveryRequest(answers: seq<Answer>, sent: seq<Request>, size: nat, i: nat)
    requires IsRun(answers, sent, size) && i < |sent| && !sent[i].Start?
    ensures exists n, s | 0 <= n < i && AcceptedAt(answers, n) && Quiet(answers, n + 1, i) && DataOf(answers[n]) == Some(s) ::
      match sent[i]
      case Put(_, _, _, _) => HasParts(s) && sent[i] == PutOf(s, size)
      case Complete(id) => !HasParts(s) && id == s.id
      case Ask(id) => id == s.id
      case Abort(id) => id == s.id
      case Start => false
  {
    hide StateAt, Quiet, Accepted, HasParts;
    var n := InForce(answers, i);
    SendsParts(answers, i);
    var s := StateAt(answers, i).s;
    assert 0 <= n < i && AcceptedAt(answers, n) && Quiet(answers, n + 1, i) && DataOf(answers[n]) == Some(s);
  }

  /* -------- How many requests -------- */

  // The server's side of termination: a part accepted moves the next part on, a status asked for does not move it back,
  // and no status has more than the given number of parts.
  predicate Cooperates(st: State, a: Answer, parts: nat) {
    Accepted(st, a) && DataOf(a).Some? ==>
      var next := DataOf(a).value;
      next.parts <= parts && (st.Sending? ==> next.nextPart > st.s.nextPart) && (st.Asking? ==> next.nextPart >= st.s.nextPart)
  }

  // Six for every part still to come, less the failures at this one.
  function Budget(nextPart: nat, failures: nat, parts: nat): nat
    requires failures <= FAILURES
  {
    6 * (if nextPart <= parts then parts + 1 - nextPart else 0) + FAILURES - failures
  }

  // At most this many requests follow once a start is to be aborted, once it is to be completed, and once it is made.
  function AbortCost(start: nat, parts: nat): nat {
    TRIES + (if start == 0 then 3 * TRIES + 7 * Budget(0, 0, parts) else 0)
  }

  function CompleteCost(start: nat, parts: nat): nat {
    TRIES + AbortCost(start, parts)
  }

  function StartCost(start: nat, parts: nat): nat {
    TRIES + 7 * Budget(0, 0, parts) + CompleteCost(start, parts)
  }

  predicate Within(st: State, parts: nat) {
    match st
    case Starting(start, tries) => start < STARTS && tries < TRIES
    case Sending(start, s, failures) => start < STARTS && failures <= FAILURES && s.parts <= parts && HasParts(s)
    case Asking(start, s, failures, tries) => start < STARTS && failures <= FAILURES && tries < TRIES && s.parts <= parts
    case Completing(start, _, tries) => start < STARTS && tries < TRIES
    case Aborting(start, _, tries, _) => start < STARTS && tries < TRIES
    case _ => true
  }

  // The most requests that can follow.
  function Cost(st: State, parts: nat): nat
    requires Within(st, parts)
  {
    match st
    case Starting(start, tries) => StartCost(start, parts) - tries
    case Sending(start, s, failures) => 7 * Budget(s.nextPart, failures, parts) + CompleteCost(start, parts)
    case Asking(start, s, failures, tries) => TRIES - tries + 7 * Budget(s.nextPart, failures, parts) + CompleteCost(start, parts)
    case Completing(start, _, tries) => CompleteCost(start, parts) - tries
    case Aborting(start, _, tries, again) => AbortCost(start, parts) - tries
    case _ => 0
  }

  lemma BudgetFalls(was: nat, next: nat, failures: nat, now: nat, parts: nat)
    requires failures <= FAILURES && now <= FAILURES
    ensures was <= parts && was < next ==> Budget(next, now, parts) + 1 <= Budget(was, failures, parts)
    ensures was <= next ==> Budget(next, failures, parts) <= Budget(was, failures, parts)
    ensures failures + 1 == now ==> Budget(was, now, parts) + 1 == Budget(was, failures, parts)
    ensures was <= parts ==> Budget(was, failures, parts) >= 1
    ensures Budget(was, failures, parts) <= Budget(0, 0, parts)
  {
  }

  lemma StartsCost(parts: nat)
    ensures StartCost(1, parts) < AbortCost(0, parts) - TRIES + 1
    ensures forall start: nat :: AbortCost(start, parts) < CompleteCost(start, parts) && AbortCost(start, parts) >= TRIES
  {
  }

  lemma StartingCosts(st: State, a: Answer, parts: nat)
    requires Within(st, parts) && Cooperates(st, a, parts) && st.Starting?
    ensures Within(Step(st, a), parts) && Cost(Step(st, a), parts) < Cost(st, parts)
  {
    hide Fatal;
    StartsCost(parts);
    if Accepted(st, a) && DataOf(a).Some? {
      BudgetFalls(DataOf(a).value.nextPart, 0, 0, 0, parts);
    }
  }

  lemma SendingCosts(st: State, a: Answer, parts: nat)
    requires Within(st, parts) && Cooperates(st, a, parts) && st.Sending?
    ensures Within(Step(st, a), parts) && Cost(Step(st, a), parts) < Cost(st, parts)
  {
    hide Fatal;
    StartsCost(parts);
    var was, failures := st.s.nextPart, st.failures;
    BudgetFalls(was, was, failures, if failures < FAILURES then failures + 1 else failures, parts);
    if Accepted(st, a) && DataOf(a).Some? {
      BudgetFalls(was, DataOf(a).value.nextPart, failures, 0, parts);
    }
    hide Budget;
  }

  lemma AskingCosts(st: State, a: Answer, parts: nat)
    requires Within(st, parts) && Cooperates(st, a, parts) && st.Asking?
    ensures Within(Step(st, a), parts) && Cost(Step(st, a), parts) < Cost(st, parts)
  {
    hide Fatal;
    StartsCost(parts);
    if Accepted(st, a) && DataOf(a).Some? {
      BudgetFalls(st.s.nextPart, DataOf(a).value.nextPart, st.failures, st.failures, parts);
    }
    hide Budget;
  }

  // One answer of a server that cooperates leaves fewer requests to come: parts remaining, failures left and tries left
  // in one number.
  lemma StepCosts(st: State, a: Answer, parts: nat)
    requires Within(st, parts) && Live(st) && Cooperates(st, a, parts)
    ensures Within(Step(st, a), parts) && Cost(Step(st, a), parts) < Cost(st, parts)
  {
    match st
    case Starting(_, _) => StartingCosts(st, a, parts);
    case Sending(_, _, _) => SendingCosts(st, a, parts);
    case Asking(_, _, _, _) => AskingCosts(st, a, parts);
    case _ => StartsCost(parts);
  }

  lemma {:induction false} CostFalls(answers: seq<Answer>, n: nat, parts: nat)
    requires n <= |answers| && forall i | 0 <= i < n :: Live(StateAt(answers, i)) && Cooperates(StateAt(answers, i), answers[i], parts)
    ensures Within(StateAt(answers, n), parts) && Cost(StateAt(answers, n), parts) + n <= StartCost(0, parts)
  {
    hide Step, Live, Cooperates, Cost, Within;
    if n == 0 {
      CostAtStart(parts);
    } else {
      CostFalls(answers, n - 1, parts);
      StepCosts(StateAt(answers, n - 1), answers[n - 1], parts);
    }
  }

  lemma CostAtStart(parts: nat)
    ensures Within(Starting(0, 0), parts) && Cost(Starting(0, 0), parts) == StartCost(0, parts)
  {
  }

  // A run with a server that cooperates makes at most this many requests, so that with one answer more it is over.
  lemma RunEnds(answers: seq<Answer>, sent: seq<Request>, size: nat, parts: nat)
    requires IsRun(answers, sent, size)
    requires forall i | 0 <= i < |sent| :: Cooperates(StateAt(answers, i), answers[i], parts)
    ensures |sent| <= StartCost(0, parts)
  {
    hide Cooperates, Live, StateAt;
    CostFalls(answers, |sent|, parts);
  }

  // The server's part in this is needed. Where every answer accepted leaves a part to send, the run never ends: with a
  // next part that stays where it is, for one, or with ever more parts.
  lemma {:induction false} AcceptedForEver(statuses: seq<Status>, n: nat)
    requires n <= |statuses| && forall i | 0 <= i < |statuses| :: HasParts(statuses[i])
    ensures StateAt(AllAccepted(statuses), n) == if n == 0 then Starting(0, 0) else Sending(0, statuses[n - 1], 0)
  {
    hide HasParts;
    if n > 0 {
      AcceptedForEver(statuses, n - 1);
    }
  }

  function AllAccepted(statuses: seq<Status>): (answers: seq<Answer>)
    ensures |answers| == |statuses| && forall i | 0 <= i < |statuses| :: answers[i] == Http(200, NoCode, Some(statuses[i]), None)
  {
    seq(|statuses|, i requires 0 <= i < |statuses| => Http(200, NoCode, Some(statuses[i]), None))
  }

  lemma NeverAdvances(s: Status, n: nat)
    requires HasParts(s)
    ensures var answers := AllAccepted(seq(n, _ => s));
      |answers| == n && Live(StateAt(answers, n)) && (forall i | 0 < i < n :: StateAt(answers, i) == Sending(0, s, 0) && AcceptedAt(answers, i))
  {
    hide HasParts, StateAt;
    var statuses := seq(n, _ => s);
    forall i: nat | i <= n ensures StateAt(AllAccepted(statuses), i) == if i == 0 then Starting(0, 0) else Sending(0, s, 0) {
      AcceptedForEver(statuses, i);
    }
  }

  // Nor is it enough that accepted parts advance: a status that moves back undoes them, and resets the failures.
  function BackAndForth(s: Status, k: nat): seq<Answer> {
    if k == 0 then [Http(200, NoCode, Some(s), None)]
    else BackAndForth(s, k - 1) + [Http(200, NoCode, Some(s.(nextPart := s.nextPart + 1)), None), Network(None), Http(200, NoCode, Some(s), None)]
  }

  lemma {:induction false} StatePrefix(a: seq<Answer>, b: seq<Answer>, n: nat)
    requires n <= |a|
    ensures StateAt(a + b, n) == StateAt(a, n)
  {
    hide Step;
    if n > 0 {
      StatePrefix(a, b, n - 1);
    }
  }

  lemma {:induction false} MovesBack(s: Status, k: nat)
    requires HasParts(s) && HasParts(s.(nextPart := s.nextPart + 1))
    ensures |BackAndForth(s, k)| == 3 * k + 1
    ensures StateAt(BackAndForth(s, k), 3 * k + 1) == Sending(0, s, if k == 0 then 0 else 1)
  {
    if k == 0 {
      assert StateAt(BackAndForth(s, 0), 0) == Starting(0, 0);
    } else {
      MovesBack(s, k - 1);
      var next := s.(nextPart := s.nextPart + 1);
      var a, b := BackAndForth(s, k - 1), [Http(200, NoCode, Some(next), None), Network(None), Http(200, NoCode, Some(s), None)];
      StatePrefix(a, b, |a|);
      hide HasParts, BackAndForth;
      assert StateAt(a + b, |a| + 1) == Sending(0, next, 0);
      assert StateAt(a + b, |a| + 2) == Asking(0, next, 1, 0);
      assert StateAt(a + b, |a| + 3) == Sending(0, s, 1);
    }
  }

  /* -------- What the parts hold -------- */

  // Blob.slice: from the end for a negative bound, and within the file.
  function BlobSlice(file: seq<byte>, from: int, to: int): seq<byte> {
    var a, b := Bounded(from, |file|), Bounded(to, |file|);
    if a <= b then file[a..b] else []
  }

  function Bounded(i: int, size: nat): (n: nat)
    ensures n <= size
  {
    if i < 0 then (if size + i < 0 then 0 else size + i) else if i < size then i else size
  }

  // What a part request carries.
  function Carried(file: seq<byte>, r: Request): seq<byte>
    requires r.Put?
  {
    BlobSlice(file, r.from, r.to)
  }

  // Part n is the file from (n - 1) parts in up to n, or to its end.
  lemma PartIsItsBytes(file: seq<byte>, s: Status)
    requires s.nextPart >= 1
    ensures var from, to := Min((s.nextPart - 1) * s.partSize, |file|), Min(s.nextPart * s.partSize, |file|);
      from <= to && Carried(file, PutOf(s, |file|)) == file[from..to]
    ensures PutOf(s, |file|) == Put(s.id, s.nextPart, (s.nextPart - 1) * s.partSize, Min(s.nextPart * s.partSize, |file|))
  {
    var before := (s.nextPart - 1) * s.partSize;
    Products(s.nextPart - 1, s.partSize);
    assert s.nextPart * s.partSize == before + s.partSize;
  }

  lemma Products(a: nat, b: nat)
    ensures a * b >= 0
  {
  }

  // The first n parts of the given size in turn.
  function Parts(file: seq<byte>, id: string, partSize: nat, parts: nat, n: nat): seq<byte> {
    if n == 0 then [] else Parts(file, id, partSize, parts, n - 1) + Carried(file, PutOf(Status(id, partSize, parts, n, false), |file|))
  }

  // Together they are the file's start, and the whole file once there are enough of them.
  lemma {:induction false} PartsAreTheFile(file: seq<byte>, id: string, partSize: nat, parts: nat, n: nat)
    ensures Parts(file, id, partSize, parts, n) == file[..Min(n * partSize, |file|)]
    ensures n * partSize >= |file| ==> Parts(file, id, partSize, parts, n) == file
  {
    hide Carried;
    if n > 0 {
      PartsAreTheFile(file, id, partSize, parts, n - 1);
      PartIsItsBytes(file, Status(id, partSize, parts, n, false));
      hide Parts;
    }
    assert file[..|file|] == file;
  }
}
