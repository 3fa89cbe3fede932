// When a tag of the registry can change its digest, exactly: for a tag that is held, and for one that is free
// (tagManifest, src/pool/registry.ts).
module TagMoves {
  import opened Wrappers
  import opened Registry

  /* -------- A held tag -------- */

  // No event moves a held tag whose outstanding writes are up to date, nor leaves it otherwise: new publishers of it and
  // those that have not read it yet will find it held.
  lemma StepStands(digest: Manifest -> Digest, w: World, e: Event, tag: string)
    requires tag in w.tags && UpToDate(digest, w, tag) && Step(digest, w, e).Some?
    ensures var v := Step(digest, w, e).value; tag in v.tags && UpToDate(digest, v, tag) && Stands(digest, w, v, tag)
  {
    if e.Land? {
      StepLands(digest, w, e);
      hide Step;
    } else if !e.Join? {
      StepTags(digest, w, e);
      hide Step;
    }
  }

  lemma {:induction false} RunStands(digest: Manifest -> Digest, w: World, events: seq<Event>, tag: string)
    requires tag in w.tags && UpToDate(digest, w, tag) && Run(digest, w, events).Some?
    ensures var v := Run(digest, w, events).value; tag in v.tags && UpToDate(digest, v, tag) && Stands(digest, w, v, tag)
    decreases |events|
  {
    hide UpToDate, Step;
    if events != [] {
      RunStands(digest, w, events[..|events| - 1], tag);
      StepStands(digest, Run(digest, w, events[..|events| - 1]).value, events[|events| - 1], tag);
    }
  }

  // A write that is outstanding: of a publisher told that the tag is missing, or given up and still to land.
  datatype Source = ByProcess(p: nat) | ByLate(l: Late)

  predicate Outstanding(w: World, s: Source, tag: string, m: Manifest) {
    match s
    case ByProcess(p) => p < |w.processes| && w.processes[p].pc.PutTag? && w.processes[p].job.tag == tag && w.processes[p].job.manifest == m
    case ByLate(l) => l in w.late && l == LateTag(tag, m)
  }

  function WriteOf(s: Source): Event {
    match s
    case ByProcess(p) => TagWritten(p, true, true, false)
    case ByLate(l) => Land(l)
  }

  // It can be made at once, and any other that is outstanding stays so.
  lemma WriteLands(digest: Manifest -> Digest, w: World, s: Source, tag: string, m: Manifest)
    requires Outstanding(w, s, tag, m)
    ensures Step(digest, w, WriteOf(s)).Some? && Step(digest, w, WriteOf(s)).value.tags == w.tags[tag := m]
    ensures forall t, n | t != s && Outstanding(w, t, tag, n) :: Outstanding(Step(digest, w, WriteOf(s)).value, t, tag, n)
  {
  }

  lemma NotUpToDate(digest: Manifest -> Digest, w: World, tag: string) returns (s: Source, m: Manifest)
    requires tag in w.tags && !UpToDate(digest, w, tag)
    ensures Outstanding(w, s, tag, m) && digest(m) != digest(w.tags[tag])
  {
    if p :| 0 <= p < |w.processes| && w.processes[p].pc.PutTag? && w.processes[p].job.tag == tag
            && digest(w.tags[tag]) != digest(w.processes[p].job.manifest) {
      s, m := ByProcess(p), w.processes[p].job.manifest;
    } else {
      var l :| l in w.late && l.LateTag? && l.tag == tag && digest(w.tags[tag]) != digest(l.manifest);
      s, m := ByLate(l), l.manifest;
    }
  }

  // A held tag keeps its digest in every run, whoever publishes it, if and only if no publisher already told that it is
  // missing, and no write given up, is to write another.
  lemma NeverMovesExactly(digest: Manifest -> Digest, w: World, tag: string)
    requires tag in w.tags
    ensures UpToDate(digest, w, tag) <==>
      forall events :: Run(digest, w, events).Some? ==> Stands(digest, w, Run(digest, w, events).value, tag)
  {
    hide Step;
    if UpToDate(digest, w, tag) {
      forall events | Run(digest, w, events).Some? ensures Stands(digest, w, Run(digest, w, events).value, tag) {
        RunStands(digest, w, events, tag);
      }
    } else {
      var s, m := NotUpToDate(digest, w, tag);
      WriteLands(digest, w, s, tag, m);
      RunOne(digest, w, [], WriteOf(s));
      assert [] + [WriteOf(s)] == [WriteOf(s)];
      assert !Stands(digest, w, Run(digest, w, [WriteOf(s)]).value, tag);
    }
  }

  /* -------- A free tag -------- */

  // A run in which the tag holds one digest and later another, with no new publisher of it.
  ghost predicate TwoDigests(digest: Manifest -> Digest, w: World, tag: string, before: seq<Event>, after: seq<Event>) {
    && Run(digest, w, before).Some? && Run(digest, w, before + after).Some? && NoJoins(before + after, tag)
    && var u, v := Run(digest, w, before).value, Run(digest, w, before + after).value;
    && tag in u.tags && tag in v.tags && digest(u.tags[tag]) != digest(v.tags[tag])
  }

  ghost predicate NoJoins(events: seq<Event>, tag: string) {
    forall i | 0 <= i < |events| :: !Joins(events[i], tag)
  }

  predicate Joins(e: Event, tag: string) {
    e.Join? && e.job.tag == tag
  }

  // Every write of the tag, made or to be made, is of one digest.
  ghost predicate Only(digest: Manifest -> Digest, w: World, tag: string, d: Digest) {
    AllPush(digest, w, tag, d) && (tag in w.tags ==> digest(w.tags[tag]) == d)
  }

  lemma OnlyStep(digest: Manifest -> Digest, w: World, e: Event, tag: string, d: Digest)
    requires Only(digest, w, tag, d) && Step(digest, w, e).Some? && !Joins(e, tag)
    ensures Only(digest, Step(digest, w, e).value, tag, d)
  {
    if e.Land? {
      StepLands(digest, w, e);
      hide Step;
    } else if !e.Join? {
      StepTags(digest, w, e);
      hide Step;
      assert Publishing(w.processes[e.p], w.processes[e.p].job.tag);
    }
  }

  lemma {:induction false} OnlyRun(digest: Manifest -> Digest, w: World, events: seq<Event>, tag: string, d: Digest)
    requires Only(digest, w, tag, d) && Run(digest, w, events).Some? && NoJoins(events, tag)
    ensures Only(digest, Run(digest, w, events).value, tag, d)
    decreases |events|
  {
    hide Step, Only, Joins;
    if events != [] {
      var front, e := events[..|events| - 1], events[|events| - 1];
      assert forall i | 0 <= i < |front| :: front[i] == events[i];
      OnlyRun(digest, w, front, tag, d);
      assert !Joins(events[|events| - 1], tag);
      OnlyStep(digest, Run(digest, w, front).value, e, tag, d);
    }
  }

  // A live publisher of the tag, or a write of it still to land.
  predicate Pushing(w: World, s: Source, tag: string, m: Manifest) {
    match s
    case ByProcess(p) => p < |w.processes| && Publishing(w.processes[p], tag) && w.processes[p].job.manifest == m
    case ByLate(l) => l in w.late && l == LateTag(tag, m)
  }

  lemma AnyPusher(w: World, tag: string) returns (s: Source, m: Manifest, found: bool)
    ensures found ==> Pushing(w, s, tag, m)
    ensures !found ==> forall t, n :: !Pushing(w, t, tag, n)
  {
    if t, n :| Pushing(w, t, tag, n) {
      s, m, found := t, n, true;
    } else {
      s, m, found := ByProcess(0), Manifest("", [], ""), false;
    }
  }

  lemma AllPushIs(digest: Manifest -> Digest, w: World, tag: string, d: Digest)
    requires forall s, m | Pushing(w, s, tag, m) :: digest(m) == d
    ensures AllPush(digest, w, tag, d)
  {
    forall p: nat | p < |w.processes| && Publishing(w.processes[p], tag) ensures digest(w.processes[p].job.manifest) == d {
      assert Pushing(w, ByProcess(p), tag, w.processes[p].job.manifest);
    }
    forall l | l in w.late && l.LateTag? && l.tag == tag ensures digest(l.manifest) == d {
      assert Pushing(w, ByLate(l), tag, l.manifest);
    }
  }

  // Rivals are two that push different manifests.
  lemma RivalsAre(digest: Manifest -> Digest, w: World, tag: string) returns (s: Source, m: Manifest, t: Source, n: Manifest)
    requires !NoRivals(digest, w, tag)
    ensures Pushing(w, s, tag, m) && Pushing(w, t, tag, n) && digest(m) != digest(n)
  {
    hide AllPush, Pushing;
    var found;
    s, m, found := AnyPusher(w, tag);
    if forall u, k | Pushing(w, u, tag, k) :: digest(k) == digest(m) {
      AllPushIs(digest, w, tag, digest(m));
    }
    t, n :| Pushing(w, t, tag, n) && digest(n) != digest(m);
    if !found {
      AllPushIs(digest, w, tag, digest(m));
    }
  }

  // One request of a publisher of a free tag, answered well, before its own write: nobody else moves, and it gets on.
  lemma GetsOn(digest: Manifest -> Digest, w: World, p: nat)
    requires p < |w.processes| && Live(w.processes[p]) && !w.processes[p].pc.PutTag? && Honest(w.store, w.processes[p])
    requires w.processes[p].job.tag !in w.tags
    ensures Step(digest, w, Answered(w, p)).Some? && !Answered(w, p).Join?
    ensures var v := Step(digest, w, Answered(w, p)).value;
      && v.tags == w.tags && v.late == w.late && |v.processes| == |w.processes| && v.processes == w.processes[p := v.processes[p]]
      && v.processes[p].job == w.processes[p].job && Live(v.processes[p]) && ToGo(v.processes[p]) < ToGo(w.processes[p])
  {
    hide Blobs, HasBlobs;
  }

  lemma {:induction false} BroughtToWrite(digest: Manifest -> Digest, w: World, p: nat) returns (events: seq<Event>)
    requires Sound(w) && p < |w.processes| && Live(w.processes[p]) && w.processes[p].job.tag !in w.tags
    ensures Run(digest, w, events).Some? && forall i | 0 <= i < |events| :: !events[i].Join?
    ensures var v := Run(digest, w, events).value;
      && Sound(v) && v.tags == w.tags && v.late == w.late && |v.processes| == |w.processes|
      && v.processes == w.processes[p := w.processes[p].(pc := PutTag)]
    decreases ToGo(w.processes[p])
  {
    hide Step, Sound, Honest, ToGo, Answered;
    if w.processes[p].pc.PutTag? {
      events := [];
      assert w.processes[p := w.processes[p].(pc := PutTag)] == w.processes;
    } else {
      var e := Answered(w, p);
      SoundIsHonest(w, p);
      GetsOn(digest, w, p);
      StepKeepsSound(digest, w, e);
      var rest := BroughtToWrite(digest, Step(digest, w, e).value, p);
      events := [e] + rest;
      RunFront(digest, w, e, rest);
    }
  }

  // A pusher's write made outstanding; what others push, or have outstanding, stays so.
  lemma MadeOutstanding(digest: Manifest -> Digest, w: World, s: Source, tag: string, m: Manifest) returns (events: seq<Event>)
    requires Sound(w) && tag !in w.tags && Pushing(w, s, tag, m)
    ensures Run(digest, w, events).Some? && forall i | 0 <= i < |events| :: !events[i].Join?
    ensures var v := Run(digest, w, events).value;
      && Sound(v) && tag !in v.tags && Outstanding(v, s, tag, m)
      && (forall t, n | Pushing(w, t, tag, n) :: Pushing(v, t, tag, n))
      && forall t, n | Outstanding(w, t, tag, n) :: Outstanding(v, t, tag, n)
  {
    hide Sound, Step;
    match s
    case ByProcess(p) => events := BroughtToWrite(digest, w, p);
    case ByLate(l) => events := [];
  }

  // A free tag gets two digests in some run without a new publisher of it if and only if it has rivals: two that are
  // publishing it, or whose write of it is still to land, with different manifests.
  lemma FreeTagMovesExactly(digest: Manifest -> Digest, w: World, tag: string)
    requires Sound(w) && tag !in w.tags
    ensures (exists before, after :: TwoDigests(digest, w, tag, before, after)) <==> !NoRivals(digest, w, tag)
  {
    if NoRivals(digest, w, tag) {
      forall before, after ensures !TwoDigests(digest, w, tag, before, after) {
        NoRivalsNoMove(digest, w, tag, before, after);
      }
    } else {
      var before, after := RivalsMove(digest, w, tag);
    }
  }

  lemma NoRivalsNoMove(digest: Manifest -> Digest, w: World, tag: string, before: seq<Event>, after: seq<Event>)
    requires tag !in w.tags && NoRivals(digest, w, tag)
    ensures !TwoDigests(digest, w, tag, before, after)
  {
    hide Run, Joins;
    var d :| AllPush(digest, w, tag, d);
    if Run(digest, w, before).Some? && Run(digest, w, before + after).Some? && NoJoins(before + after, tag) {
      assert forall i | 0 <= i < |before| :: before[i] == (before + after)[i];
      OnlyRun(digest, w, before, tag, d);
      OnlyRun(digest, w, before + after, tag, d);
    }
  }

  lemma RivalsMove(digest: Manifest -> Digest, w: World, tag: string) returns (before: seq<Event>, after: seq<Event>)
    requires Sound(w) && tag !in w.tags && !NoRivals(digest, w, tag)
    ensures TwoDigests(digest, w, tag, before, after)
  {
    hide Sound, Step, Run, Outstanding, Pushing, NoRivals;
    var s, m, t, n := RivalsAre(digest, w, tag);
    OtherSource(w, s, tag, m, t, n);
    var first := MadeOutstanding(digest, w, s, tag, m);
    var x := Run(digest, w, first).value;
    var second := MadeOutstanding(digest, x, t, tag, n);
    var y := Run(digest, x, second).value;
    RunConcat(digest, w, first, second);
    WriteLands(digest, y, s, tag, m);
    var z := Step(digest, y, WriteOf(s)).value;
    WriteLands(digest, z, t, tag, n);
    RunOne(digest, w, first + second, WriteOf(s));
    before, after := first + second + [WriteOf(s)], [WriteOf(t)];
    RunOne(digest, w, before, WriteOf(t));
    forall i | 0 <= i < |before + after| ensures !Joins((before + after)[i], tag) {
    }
  }

  lemma OtherSource(w: World, s: Source, tag: string, m: Manifest, t: Source, n: Manifest)
    requires Pushing(w, s, tag, m) && Pushing(w, t, tag, n) && m != n
    ensures s != t
  {
  }
}
