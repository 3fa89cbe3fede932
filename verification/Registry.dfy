// Publishing to an OCI registry (Oci.blobPut, publish and tagManifest, src/pool/registry.ts) as requests of any number of
// publishers in any order, each of which may be answered badly, take effect unseen, at once or long after its publisher
// has given it up, or be a publisher's last. The registry keeps what it stores, and says truly what it holds. The digest
// of a manifest is a parameter.
module Registry {
  import opened Wrappers

  type Digest = string

  // A manifest's config and layers, and the rest of its text.
  datatype Manifest = Manifest(config: Digest, layers: seq<Digest>, text: string)

  // A call of publish, or of tagManifest alone for a manifest whose blobs the registry already holds.
  datatype Job = Job(tag: string, manifest: Manifest, held: bool)

  // The request a publisher is about to make, or how it ended.
  datatype Pc = Head(i: nat) | Begin(i: nat) | Upload(i: nat) | ReadTag | PutTag | Finished | Stopped

  datatype Process = Process(job: Job, pc: Pc)

  // A request given up that may still take effect.
  datatype Late = LateBlob(blob: Digest) | LateTag(tag: string, manifest: Manifest)

  datatype World = World(store: set<Digest>, tags: map<string, Manifest>, processes: seq<Process>, late: set<Late>)

  // A request and its answer, or a late effect. An upload or a manifest may take effect although its publisher is not told
  // so, at once or late.
  datatype Event =
    | Join(job: Job)
    | Crash(p: nat)
    | Headed(p: nat, found: bool)
    | Begun(p: nat, ok: bool)
    | Uploaded(p: nat, effect: bool, ok: bool, late: bool)
    | TagRead(p: nat, status: nat)
    | TagWritten(p: nat, effect: bool, ok: bool, late: bool)
    | Land(l: Late)

  // The config first, and the layers in order.
  function Blobs(m: Manifest): (b: seq<Digest>)
    ensures |b| > 0
  {
    [m.config] + m.layers
  }

  predicate HasBlobs(store: set<Digest>, m: Manifest) {
    forall i | 0 <= i < |Blobs(m)| :: Blobs(m)[i] in store
  }

  lemma HasBlobsIs(store: set<Digest>, m: Manifest)
    ensures HasBlobs(store, m) <==> m.config in store && forall l | l in m.layers :: l in store
  {
    if HasBlobs(store, m) {
      assert Blobs(m)[0] == m.config;
      forall l | l in m.layers ensures l in store {
        var i :| 0 <= i < |m.layers| && m.layers[i] == l;
        assert Blobs(m)[i + 1] == l;
      }
    }
  }

  function AfterBlob(m: Manifest, i: nat): Pc {
    if i + 1 < |Blobs(m)| then Head(i + 1) else ReadTag
  }

  function At(w: World, p: nat, pc: Pc): World
    requires p < |w.processes|
  {
    w.(processes := w.processes[p := w.processes[p].(pc := pc)])
  }

  predicate Live(p: Process) {
    !p.pc.Finished? && !p.pc.Stopped?
  }

  // An answer says that the request took effect, or it may have done so, or it may do so yet.
  predicate Possible(effect: bool, ok: bool, late: bool) {
    (ok ==> effect) && (late ==> !effect)
  }

  function Delayed(w: World, late: bool, l: Late): World {
    if late then w.(late := w.late + {l}) else w
  }

  function Landed(w: World, l: Late): World {
    var v := w.(late := w.late - {l});
    match l
    case LateBlob(blob) => v.(store := w.store + {blob})
    case LateTag(tag, m) => v.(tags := w.tags[tag := m])
  }

  // The world after an event; None where it cannot happen.
  function Step(digest: Manifest -> Digest, w: World, e: Event): Option<World> {
    if e.Join? then
      if e.job.held && !HasBlobs(w.store, e.job.manifest) then None
      else Some(w.(processes := w.processes + [Process(e.job, if e.job.held then ReadTag else Head(0))]))
    else if e.Land? then if e.l in w.late then Some(Landed(w, e.l)) else None
    else if e.p >= |w.processes| || !Live(w.processes[e.p]) then None
    else if e.Crash? then Some(At(w, e.p, Stopped))
    else Request(digest, w, e)
  }

  function Request(digest: Manifest -> Digest, w: World, e: Event): Option<World>
    requires !e.Join? && !e.Land? && !e.Crash? && e.p < |w.processes|
  {
    var process := w.processes[e.p];
    var m, tag := process.job.manifest, process.job.tag;
    match (process.pc, e)
    case (Head(i), Headed(_, found)) =>
      if i >= |Blobs(m)| || (found && Blobs(m)[i] !in w.store) then None
      else Some(At(w, e.p, if found then AfterBlob(m, i) else Begin(i)))
    case (Begin(i), Begun(_, ok)) => Some(At(w, e.p, if ok then Upload(i) else Stopped))
    case (Upload(i), Uploaded(_, effect, ok, late)) =>
      if i >= |Blobs(m)| || !Possible(effect, ok, late) then None
      else Some(At(if effect then w.(store := w.store + {Blobs(m)[i]}) else Delayed(w, late, LateBlob(Blobs(m)[i])), e.p,
                   if ok then AfterBlob(m, i) else Stopped))
    case (ReadTag, TagRead(_, status)) =>
      if status == 200 then
        if tag !in w.tags then None
        else Some(At(w, e.p, if digest(w.tags[tag]) == digest(m) then Finished else Stopped))
      else if status == 404 then if tag in w.tags then None else Some(At(w, e.p, PutTag))
      else Some(At(w, e.p, Stopped))
    case (PutTag, TagWritten(_, effect, ok, late)) =>
      if !Possible(effect, ok, late) then None
      else Some(At(if effect then w.(tags := w.tags[tag := m]) else Delayed(w, late, LateTag(tag, m)), e.p, if ok then Finished else Stopped))
    case _ => None
  }

  // The world after some events; None where one of them cannot happen.
  function Run(digest: Manifest -> Digest, w: World, events: seq<Event>): Option<World> {
    if events == [] then Some(w) else
      match Run(digest, w, events[..|events| - 1])
      case None => None
      case Some(v) => Step(digest, v, events[|events| - 1])
  }

  /* -------- Every tag leads to stored blobs -------- */

  ghost predicate Complete(w: World) {
    forall tag | tag in w.tags :: HasBlobs(w.store, w.tags[tag])
  }

  // The blobs a publisher has behind it are stored.
  predicate UpTo(store: set<Digest>, m: Manifest, n: nat) {
    n <= |Blobs(m)| && forall i | 0 <= i < n :: Blobs(m)[i] in store
  }

  predicate Honest(store: set<Digest>, p: Process) {
    match p.pc
    case Head(i) => UpTo(store, p.job.manifest, i) && i < |Blobs(p.job.manifest)|
    case Begin(i) => UpTo(store, p.job.manifest, i) && i < |Blobs(p.job.manifest)|
    case Upload(i) => UpTo(store, p.job.manifest, i) && i < |Blobs(p.job.manifest)|
    case ReadTag => HasBlobs(store, p.job.manifest)
    case PutTag => HasBlobs(store, p.job.manifest)
    case _ => true
  }

  ghost predicate Sound(w: World) {
    && Complete(w) && (forall p | 0 <= p < |w.processes| :: Honest(w.store, w.processes[p]))
    && forall l | l in w.late :: HonestLate(w.store, l)
  }

  predicate HonestLate(store: set<Digest>, l: Late) {
    l.LateTag? ==> HasBlobs(store, l.manifest)
  }

  lemma HonestGrows(store: set<Digest>, more: set<Digest>, p: Process)
    requires Honest(store, p) && store <= more
    ensures Honest(more, p)
  {
  }

  lemma AfterBlobIsHonest(store: set<Digest>, job: Job, i: nat)
    requires UpTo(store, job.manifest, i) && i < |Blobs(job.manifest)| && Blobs(job.manifest)[i] in store
    ensures Honest(store, Process(job, AfterBlob(job.manifest, i)))
  {
  }

  // What one event does: the store only grows, other publishers stand still, and the mover is left honest.
  lemma StepMoves(digest: Manifest -> Digest, w: World, e: Event)
    requires Step(digest, w, e).Some? && !e.Join? && !e.Land? && e.p < |w.processes| && Honest(w.store, w.processes[e.p])
    ensures var v := Step(digest, w, e).value;
      && w.store <= v.store && |v.processes| == |w.processes|
      && v.processes == w.processes[e.p := v.processes[e.p]]
      && v.processes[e.p].job == w.processes[e.p].job
      && Honest(v.store, v.processes[e.p])
      && (forall l | l in v.late :: l in w.late || l.LateBlob? || (w.processes[e.p].pc.PutTag? && l.manifest == w.processes[e.p].job.manifest))
      && (v.tags == w.tags || (w.processes[e.p].pc.PutTag? && v.tags == w.tags[w.processes[e.p].job.tag := w.processes[e.p].job.manifest]))
  {
    var process := w.processes[e.p];
    hide Blobs;
    if process.pc.Head? && e.Headed? && e.found {
      AfterBlobIsHonest(w.store, process.job, process.pc.i);
    }
    if process.pc.Upload? && e.Uploaded? && e.ok {
      HonestGrows(w.store, w.store + {Blobs(process.job.manifest)[process.pc.i]}, process);
      AfterBlobIsHonest(w.store + {Blobs(process.job.manifest)[process.pc.i]}, process.job, process.pc.i);
    }
  }

  lemma HasBlobsGrows(store: set<Digest>, more: set<Digest>, m: Manifest)
    requires HasBlobs(store, m) && store <= more
    ensures HasBlobs(more, m)
  {
  }

  lemma StepKeepsSound(digest: Manifest -> Digest, w: World, e: Event)
    requires Sound(w) && Step(digest, w, e).Some?
    ensures Sound(Step(digest, w, e).value)
  {
    if e.Join? {
      JoinKeepsSound(digest, w, e);
    } else if e.Land? {
      LandKeepsSound(digest, w, e);
    } else {
      StepMoves(digest, w, e);
      var v := Step(digest, w, e).value;
      hide Step, Honest, HasBlobs;
      forall p | 0 <= p < |v.processes| ensures Honest(v.store, v.processes[p]) {
        HonestGrows(w.store, v.store, w.processes[p]);
      }
      forall tag | tag in v.tags ensures HasBlobs(v.store, v.tags[tag]) {
        if tag in w.tags {
          HasBlobsGrows(w.store, v.store, w.tags[tag]);
        }
        if w.processes[e.p].pc.PutTag? {
          PutTagHasBlobs(w, e.p);
          HasBlobsGrows(w.store, v.store, w.processes[e.p].job.manifest);
        }
      }
      forall l | l in v.late ensures HonestLate(v.store, l) {
        if l.LateTag? {
          if w.processes[e.p].pc.PutTag? {
            PutTagHasBlobs(w, e.p);
          }
          assert l in w.late ==> HonestLate(w.store, l);
          HasBlobsGrows(w.store, v.store, l.manifest);
        }
      }
    }
  }

  lemma LandKeepsSound(digest: Manifest -> Digest, w: World, e: Event)
    requires Sound(w) && e.Land? && Step(digest, w, e).Some?
    ensures Sound(Step(digest, w, e).value)
  {
    var v := Step(digest, w, e).value;
    assert HonestLate(w.store, e.l);
    hide Step, HasBlobs, Honest;
    assert v == Landed(w, e.l) by { StepLands(digest, w, e); }
    forall p | 0 <= p < |v.processes| ensures Honest(v.store, v.processes[p]) {
      HonestGrows(w.store, v.store, w.processes[p]);
    }
    forall tag | tag in v.tags ensures HasBlobs(v.store, v.tags[tag]) {
      HasBlobsGrows(w.store, v.store, v.tags[tag]);
    }
    forall l | l in v.late ensures HonestLate(v.store, l) {
      assert HonestLate(w.store, l);
      if l.LateTag? {
        HasBlobsGrows(w.store, v.store, l.manifest);
      }
    }
  }

  lemma StepLands(digest: Manifest -> Digest, w: World, e: Event)
    requires e.Land? && Step(digest, w, e).Some?
    ensures Step(digest, w, e) == Some(Landed(w, e.l)) && e.l in w.late
  {
  }

  lemma PutTagHasBlobs(w: World, p: nat)
    requires p < |w.processes| && w.processes[p].pc.PutTag? && Honest(w.store, w.processes[p])
    ensures HasBlobs(w.store, w.processes[p].job.manifest)
  {
  }

  lemma JoinKeepsSound(digest: Manifest -> Digest, w: World, e: Event)
    requires Sound(w) && e.Join? && Step(digest, w, e).Some?
    ensures Sound(Step(digest, w, e).value)
  {
    hide HasBlobs;
  }

  // In every run from a sound world, at every moment, every manifest a tag leads to has its config and layers stored.
  lemma {:induction false} TagsAreComplete(digest: Manifest -> Digest, w: World, events: seq<Event>)
    requires Sound(w) && Run(digest, w, events).Some?
    ensures Sound(Run(digest, w, events).value)
    ensures var v := Run(digest, w, events).value;
      forall tag | tag in v.tags :: v.tags[tag].config in v.store && forall l | l in v.tags[tag].layers :: l in v.store
  {
    hide Step, HasBlobs;
    forall tag | tag in Run(digest, w, events).value.tags {
      HasBlobsIs(Run(digest, w, events).value.store, Run(digest, w, events).value.tags[tag]);
    }
    hide Sound;
    if events != [] {
      TagsAreComplete(digest, w, events[..|events| - 1]);
      StepKeepsSound(digest, Run(digest, w, events[..|events| - 1]).value, events[|events| - 1]);
    }
  }

  lemma EmptyIsSound()
    ensures Sound(World({}, map[], [], {}))
  {
  }

  /* -------- No tag is re-pointed -------- */

  // No two live publishers of the tag push different manifests, nor does any of them push another than a write of the tag
  // that is still to land.
  ghost predicate NoRivals(digest: Manifest -> Digest, w: World, tag: string) {
    exists d :: AllPush(digest, w, tag, d)
  }

  ghost predicate AllPush(digest: Manifest -> Digest, w: World, tag: string, d: Digest) {
    && (forall p | 0 <= p < |w.processes| && Publishing(w.processes[p], tag) :: digest(w.processes[p].job.manifest) == d)
    && forall l | l in w.late && l.LateTag? && l.tag == tag :: digest(l.manifest) == d
  }

  predicate Publishing(p: Process, tag: string) {
    Live(p) && p.job.tag == tag
  }

  predicate Holds(digest: Manifest -> Digest, w: World, tag: string, d: Digest) {
    tag in w.tags && digest(w.tags[tag]) == d
  }

  // A publisher told that the tag is missing finds it missing still, or holding its own digest; so does a late write.
  ghost predicate UpToDate(digest: Manifest -> Digest, w: World, tag: string) {
    tag in w.tags ==>
      && (forall p | 0 <= p < |w.processes| && w.processes[p].pc.PutTag? && w.processes[p].job.tag == tag ::
            digest(w.tags[tag]) == digest(w.processes[p].job.manifest))
      && forall l | l in w.late && l.LateTag? && l.tag == tag :: digest(w.tags[tag]) == digest(l.manifest)
  }

  // The tag holds in the second world what it holds in the first.
  predicate Stands(digest: Manifest -> Digest, w: World, v: World, tag: string) {
    tag in w.tags ==> Holds(digest, v, tag, digest(w.tags[tag]))
  }

  // What an event does to the tags, and to who is about to write one.
  lemma StepTags(digest: Manifest -> Digest, w: World, e: Event)
    requires Step(digest, w, e).Some? && !e.Join? && !e.Land?
    ensures e.p < |w.processes| && Live(w.processes[e.p])
    ensures var v := Step(digest, w, e).value;
      && |v.processes| == |w.processes| && v.processes == w.processes[e.p := v.processes[e.p]]
      && v.processes[e.p].job == w.processes[e.p].job
      && (v.processes[e.p].pc.PutTag? ==> v.tags == w.tags && v.processes[e.p].job.tag !in v.tags)
      && (v.tags == w.tags || (w.processes[e.p].pc.PutTag? && v.tags == w.tags[w.processes[e.p].job.tag := w.processes[e.p].job.manifest]))
      && (forall l | l in v.late && l.LateTag? ::
            l in w.late || (w.processes[e.p].pc.PutTag? && l == LateTag(w.processes[e.p].job.tag, w.processes[e.p].job.manifest)))
  {
    hide Blobs, HasBlobs;
  }

  // A publisher that finishes leaves its tag at its digest, and one that finds another digest there never finishes.
  lemma FinishedHolds(digest: Manifest -> Digest, w: World, e: Event)
    requires Step(digest, w, e).Some? && !e.Join? && !e.Land?
    ensures var v, p := Step(digest, w, e).value, w.processes[e.p];
      && (v.processes[e.p].pc.Finished? ==> Holds(digest, v, p.job.tag, digest(p.job.manifest)))
      && (p.pc.ReadTag? && p.job.tag in w.tags && digest(w.tags[p.job.tag]) != digest(p.job.manifest) ==> v.processes[e.p].pc.Stopped?)
  {
    hide Blobs, HasBlobs;
  }

  lemma StepKeepsTag(digest: Manifest -> Digest, w: World, e: Event, tag: string)
    requires UpToDate(digest, w, tag) && NoRivals(digest, w, tag) && Step(digest, w, e).Some?
    ensures UpToDate(digest, Step(digest, w, e).value, tag) && Stands(digest, w, Step(digest, w, e).value, tag)
  {
    var d :| AllPush(digest, w, tag, d);
    if e.Land? {
      StepLands(digest, w, e);
      hide Step;
    } else if !e.Join? {
      StepTags(digest, w, e);
      hide Step;
      assert Publishing(w.processes[e.p], w.processes[e.p].job.tag);
    }
  }

  // While no two live publishers or late writes of a tag push different manifests, the tag never changes its digest, from
  // the moment it has one.
  lemma {:induction false} TagNeverMoves(digest: Manifest -> Digest, w: World, events: seq<Event>, tag: string)
    requires UpToDate(digest, w, tag)
    requires forall n | 0 <= n <= |events| :: Run(digest, w, events[..n]).Some? && NoRivals(digest, Run(digest, w, events[..n]).value, tag)
    ensures Run(digest, w, events).Some? && UpToDate(digest, Run(digest, w, events).value, tag)
    ensures forall m | 0 <= m <= |events| :: Stands(digest, Run(digest, w, events[..m]).value, Run(digest, w, events).value, tag)
    decreases |events|
  {
    hide UpToDate, NoRivals, Step, Run;
    assert events[..|events|] == events;
    if events == [] {
      RunNothing(digest, w);
    } else {
      var front, e := events[..|events| - 1], events[|events| - 1];
      assert forall n | 0 <= n <= |front| :: front[..n] == events[..n];
      TagNeverMoves(digest, w, front, tag);
      assert front[..|front|] == front && front + [e] == events;
      RunOne(digest, w, front, e);
      StepKeepsTag(digest, Run(digest, w, front).value, e, tag);
    }
  }

  lemma RunNothing(digest: Manifest -> Digest, w: World)
    ensures Run(digest, w, []) == Some(w)
  {
  }

  lemma RunOne(digest: Manifest -> Digest, w: World, events: seq<Event>, e: Event)
    ensures Run(digest, w, events + [e]) == match Run(digest, w, events) case None => None case Some(v) => Step(digest, v, e)
  {
    assert (events + [e])[..|events|] == events;
  }

  // The condition is needed: of any two different manifests the one written second takes the tag from the first, where
  // both publishers read the tag before either wrote it.
  lemma RivalsRepoint(digest: Manifest -> Digest, tag: string, a: Manifest, b: Manifest)
    requires digest(a) != digest(b)
    ensures exists w: World, events: seq<Event>, e: Event ::
      && Sound(w) && UpToDate(digest, w, tag) && Run(digest, w, events).Some? && Run(digest, w, events + [e]).Some?
      && Holds(digest, Run(digest, w, events).value, tag, digest(a)) && Holds(digest, Run(digest, w, events + [e]).value, tag, digest(b))
  {
    var w, u, x, y := Rivals(tag, a, b, map[], ReadTag, ReadTag), Rivals(tag, a, b, map[], PutTag, PutTag),
      Rivals(tag, a, b, map[tag := a], Finished, PutTag), Rivals(tag, a, b, map[tag := b], Finished, Finished);
    var first, second, write, last := TagRead(0, 404), TagRead(1, 404), TagWritten(0, true, true, false), TagWritten(1, true, true, false);
    RivalsAreSound(digest, tag, a, b);
    RivalsRead(digest, tag, a, b);
    RivalsWrite(digest, tag, a, b);
    hide Step, Rivals, Sound, UpToDate;
    RunOne(digest, w, [], first);
    RunOne(digest, w, [first], second);
    RunOne(digest, w, [first, second], write);
    RunOne(digest, w, [first, second, write], last);
    assert [] + [first] == [first] && [first] + [second] == [first, second];
    assert [first, second] + [write] == [first, second, write];
    assert Run(digest, w, [first, second, write]) == Some(x) && Run(digest, w, [first, second, write] + [last]) == Some(y);
    assert Holds(digest, x, tag, digest(a)) && Holds(digest, y, tag, digest(b)) by {
      RivalTags(tag, a, b);
    }
  }

  // Two publishers of one tag, whose blobs are stored.
  function Rivals(tag: string, a: Manifest, b: Manifest, tags: map<string, Manifest>, p: Pc, q: Pc): World {
    World((set i | 0 <= i < |Blobs(a)| :: Blobs(a)[i]) + (set i | 0 <= i < |Blobs(b)| :: Blobs(b)[i]), tags,
          [Process(Job(tag, a, true), p), Process(Job(tag, b, true), q)], {})
  }

  lemma RivalTags(tag: string, a: Manifest, b: Manifest)
    ensures Rivals(tag, a, b, map[tag := a], Finished, PutTag).tags == map[tag := a]
    ensures Rivals(tag, a, b, map[tag := b], Finished, Finished).tags == map[tag := b]
  {
  }

  lemma RivalsAreSound(digest: Manifest -> Digest, tag: string, a: Manifest, b: Manifest)
    ensures Sound(Rivals(tag, a, b, map[], ReadTag, ReadTag)) && UpToDate(digest, Rivals(tag, a, b, map[], ReadTag, ReadTag), tag)
  {
  }

  lemma RivalMoves(tag: string, a: Manifest, b: Manifest, tags: map<string, Manifest>, p: Pc, q: Pc, pc: Pc)
    ensures At(Rivals(tag, a, b, tags, p, q), 0, pc) == Rivals(tag, a, b, tags, pc, q)
    ensures At(Rivals(tag, a, b, tags, p, q), 1, pc) == Rivals(tag, a, b, tags, p, pc)
  {
    var w := Rivals(tag, a, b, tags, p, q);
    assert w.processes[0 := w.processes[0].(pc := pc)] == Rivals(tag, a, b, tags, pc, q).processes;
    assert w.processes[1 := w.processes[1].(pc := pc)] == Rivals(tag, a, b, tags, p, pc).processes;
  }

  lemma RivalsRead(digest: Manifest -> Digest, tag: string, a: Manifest, b: Manifest)
    ensures Step(digest, Rivals(tag, a, b, map[], ReadTag, ReadTag), TagRead(0, 404)) == Some(Rivals(tag, a, b, map[], PutTag, ReadTag))
    ensures Step(digest, Rivals(tag, a, b, map[], PutTag, ReadTag), TagRead(1, 404)) == Some(Rivals(tag, a, b, map[], PutTag, PutTag))
  {
    RivalMoves(tag, a, b, map[], ReadTag, ReadTag, PutTag);
    RivalMoves(tag, a, b, map[], PutTag, ReadTag, PutTag);
  }

  lemma RivalsWrite(digest: Manifest -> Digest, tag: string, a: Manifest, b: Manifest)
    ensures Step(digest, Rivals(tag, a, b, map[], PutTag, PutTag), TagWritten(0, true, true, false)) == Some(Rivals(tag, a, b, map[tag := a], Finished, PutTag))
    ensures Step(digest, Rivals(tag, a, b, map[tag := a], Finished, PutTag), TagWritten(1, true, true, false)) == Some(Rivals(tag, a, b, map[tag := b], Finished, Finished))
  {
    var empty: map<string, Manifest> := map[];
    assert empty[tag := a] == map[tag := a];
    assert map[tag := a][tag := b] == map[tag := b];
    RivalMoves(tag, a, b, map[tag := a], PutTag, PutTag, Finished);
    RivalMoves(tag, a, b, map[tag := b], Finished, PutTag, Finished);
  }

  /* -------- Late writes -------- */

  // No two publishers are live.
  ghost predicate OneLive(w: World) {
    forall p, q | 0 <= p < |w.processes| && 0 <= q < |w.processes| && Live(w.processes[p]) && Live(w.processes[q]) :: p == q
  }

  // Worlds a run passes through, event by event.
  ghost predicate Passes(digest: Manifest -> Digest, worlds: seq<World>, events: seq<Event>) {
    |worlds| == |events| + 1 && forall i | 0 <= i < |events| :: Step(digest, worlds[i], events[i]) == Some(worlds[i + 1])
  }

  lemma {:induction false} PassesRuns(digest: Manifest -> Digest, worlds: seq<World>, events: seq<Event>, n: nat)
    requires Passes(digest, worlds, events) && n <= |events|
    ensures Run(digest, worlds[0], events[..n]) == Some(worlds[n])
  {
    hide Step;
    if n > 0 {
      PassesRuns(digest, worlds, events, n - 1);
      assert events[..n][..n - 1] == events[..n - 1];
    }
  }

  // Two publishers of one tag, one after the other: the first is given up while its write is still to land.
  function InTurn(tag: string, a: Manifest, b: Manifest): seq<Event> {
    [Join(Job(tag, a, true)), TagRead(0, 404), TagWritten(0, false, false, true),
     Join(Job(tag, b, true)), TagRead(1, 404), TagWritten(1, true, true, false), Land(LateTag(tag, a))]
  }

  function TurnWorld(tag: string, a: Manifest, b: Manifest, pcs: seq<Pc>, tags: map<string, Manifest>, late: set<Late>): World
    requires |pcs| <= 2
  {
    World(Rivals(tag, a, b, map[], ReadTag, ReadTag).store, tags,
          if pcs == [] then [] else if |pcs| == 1 then [Process(Job(tag, a, true), pcs[0])]
          else [Process(Job(tag, a, true), pcs[0]), Process(Job(tag, b, true), pcs[1])], late)
  }

  function TurnWorlds(tag: string, a: Manifest, b: Manifest): (worlds: seq<World>)
    ensures |worlds| == 8
  {
    var late := {LateTag(tag, a)};
    [TurnWorld(tag, a, b, [], map[], {}), TurnWorld(tag, a, b, [ReadTag], map[], {}), TurnWorld(tag, a, b, [PutTag], map[], {}),
     TurnWorld(tag, a, b, [Stopped], map[], late), TurnWorld(tag, a, b, [Stopped, ReadTag], map[], late),
     TurnWorld(tag, a, b, [Stopped, PutTag], map[], late), TurnWorld(tag, a, b, [Stopped, Finished], map[tag := b], late),
     TurnWorld(tag, a, b, [Stopped, Finished], map[tag := a], {})]
  }

  lemma FirstTurn(digest: Manifest -> Digest, tag: string, a: Manifest, b: Manifest)
    ensures var worlds, events := TurnWorlds(tag, a, b), InTurn(tag, a, b);
      forall i | 0 <= i < 3 :: Step(digest, worlds[i], events[i]) == Some(worlds[i + 1])
  {
    var worlds, events := TurnWorlds(tag, a, b), InTurn(tag, a, b);
    assert worlds[0].processes + [Process(Job(tag, a, true), ReadTag)] == worlds[1].processes;
    assert At(worlds[1], 0, PutTag).processes == worlds[2].processes;
    assert At(worlds[2], 0, Stopped).processes == worlds[3].processes;
    assert {} + {LateTag(tag, a)} == worlds[3].late;
  }

  lemma SecondTurn(digest: Manifest -> Digest, tag: string, a: Manifest, b: Manifest)
    ensures var worlds, events := TurnWorlds(tag, a, b), InTurn(tag, a, b);
      forall i | 3 <= i < 7 :: Step(digest, worlds[i], events[i]) == Some(worlds[i + 1])
  {
    var worlds, events := TurnWorlds(tag, a, b), InTurn(tag, a, b);
    var empty: map<string, Manifest> := map[];
    assert worlds[3].processes + [Process(Job(tag, b, true), ReadTag)] == worlds[4].processes;
    assert At(worlds[4], 1, PutTag).processes == worlds[5].processes;
    assert At(worlds[5], 1, Finished).processes == worlds[6].processes && empty[tag := b] == map[tag := b];
    assert {LateTag(tag, a)} - {LateTag(tag, a)} == {} && map[tag := b][tag := a] == map[tag := a];
  }

  // A late write needs no rival publisher: one that was given up, and lands after the next publisher has finished, takes
  // the tag from it, although no two of them are ever live.
  lemma LateWriteRepoints(digest: Manifest -> Digest, tag: string, a: Manifest, b: Manifest)
    requires digest(a) != digest(b)
    ensures exists worlds: seq<World>, events: seq<Event> ::
      && Passes(digest, worlds, events) && |events| > 0 && Sound(worlds[0]) && worlds[0].processes == [] && worlds[0].late == {}
      && (forall i | 0 <= i < |worlds| :: OneLive(worlds[i]))
      && Holds(digest, worlds[|events| - 1], tag, digest(b)) && Holds(digest, worlds[|events|], tag, digest(a))
  {
    var worlds, events := TurnWorlds(tag, a, b), InTurn(tag, a, b);
    FirstTurn(digest, tag, a, b);
    SecondTurn(digest, tag, a, b);
    assert Sound(worlds[0]) && worlds[0].processes == [] && worlds[0].late == {};
    assert forall i | 0 <= i < 8 :: OneLive(worlds[i]);
    assert Holds(digest, worlds[6], tag, digest(b)) && Holds(digest, worlds[7], tag, digest(a));
    hide Step, TurnWorlds, InTurn, Sound, OneLive, Holds;
    assert |events| == 7 by { InTurnIsSeven(tag, a, b); }
    assert Passes(digest, worlds, events);
  }

  lemma InTurnIsSeven(tag: string, a: Manifest, b: Manifest)
    ensures |InTurn(tag, a, b)| == 7
  {
  }

  /* -------- Crashes and reruns -------- */

  // The tag is free or holds the digest, and nobody publishing it pushes another.
  ghost predicate OneDigest(digest: Manifest -> Digest, w: World, tag: string, d: Digest) {
    && (tag in w.tags ==> digest(w.tags[tag]) == d)
    && (forall l | l in w.late && l.LateTag? && l.tag == tag :: digest(l.manifest) == d)
    && forall p | 0 <= p < |w.processes| && w.processes[p].job.tag == tag :: digest(w.processes[p].job.manifest) == d
  }

  predicate JoinsWith(digest: Manifest -> Digest, e: Event, tag: string, d: Digest) {
    e.Join? && e.job.tag == tag ==> digest(e.job.manifest) == d
  }

  // Publishers that push equal bytes may overlap and crash as they like.
  lemma {:induction false} EqualPublishersAgree(digest: Manifest -> Digest, w: World, events: seq<Event>, tag: string, d: Digest)
    requires OneDigest(digest, w, tag, d) && Run(digest, w, events).Some?
    requires forall i | 0 <= i < |events| :: JoinsWith(digest, events[i], tag, d)
    ensures OneDigest(digest, Run(digest, w, events).value, tag, d)
    decreases |events|
  {
    hide Step, JoinsWith;
    if events != [] {
      var front := events[..|events| - 1];
      EqualPublishersAgree(digest, w, front, tag, d);
      assert JoinsWith(digest, events[|events| - 1], tag, d);
      hide Run;
      OneDigestStep(digest, Run(digest, w, front).value, events[|events| - 1], tag, d);
    }
  }

  lemma OneDigestStep(digest: Manifest -> Digest, w: World, e: Event, tag: string, d: Digest)
    requires OneDigest(digest, w, tag, d) && Step(digest, w, e).Some? && JoinsWith(digest, e, tag, d)
    ensures OneDigest(digest, Step(digest, w, e).value, tag, d)
  {
    if e.Land? {
      StepLands(digest, w, e);
      hide Step;
    } else if !e.Join? {
      StepTags(digest, w, e);
      hide Step;
    }
  }

  // The request a publisher makes next, answered well.
  function Answered(w: World, p: nat): Event
    requires p < |w.processes|
  {
    var process := w.processes[p];
    var m, tag := process.job.manifest, process.job.tag;
    match process.pc
    case Head(i) => Headed(p, i < |Blobs(m)| && Blobs(m)[i] in w.store)
    case Begin(i) => Begun(p, true)
    case Upload(i) => Uploaded(p, true, true, false)
    case ReadTag => TagRead(p, if tag in w.tags then 200 else 404)
    case PutTag => TagWritten(p, true, true, false)
    case _ => Crash(p)
  }

  // Requests still to make, at most.
  function ToGo(p: Process): nat {
    var n := |Blobs(p.job.manifest)|;
    match p.pc
    case Head(i) => if i < n then 3 * (n - i) + 2 else 0
    case Begin(i) => if i < n then 3 * (n - i) + 1 else 0
    case Upload(i) => if i < n then 3 * (n - i) else 0
    case ReadTag => 2
    case PutTag => 1
    case _ => 0
  }

  lemma AnsweredMovesOn(digest: Manifest -> Digest, w: World, p: nat, d: Digest)
    requires p < |w.processes| && Live(w.processes[p]) && Honest(w.store, w.processes[p])
    requires w.processes[p].job.tag in w.tags ==> digest(w.tags[w.processes[p].job.tag]) == d
    requires digest(w.processes[p].job.manifest) == d
    ensures Step(digest, w, Answered(w, p)).Some?
    ensures var v := Step(digest, w, Answered(w, p)).value;
      && |v.processes| == |w.processes| && v.processes[p].job == w.processes[p].job && !v.processes[p].pc.Stopped?
      && ToGo(v.processes[p]) < ToGo(w.processes[p])
      && (v.processes[p].pc.Finished? ==> Holds(digest, v, w.processes[p].job.tag, d))
      && (w.processes[p].job.tag in v.tags ==> digest(v.tags[w.processes[p].job.tag]) == d)
      && forall tag | tag != w.processes[p].job.tag :: (tag in v.tags <==> tag in w.tags) && (tag in w.tags ==> v.tags[tag] == w.tags[tag])
  {
    hide Blobs, HasBlobs;
  }

  // A publisher answered well finishes, within three requests a blob and two, with the tag at its digest and no other tag
  // touched, where the tag was free or at its digest.
  lemma {:induction false} AnsweredFinishes(digest: Manifest -> Digest, w: World, p: nat) returns (events: seq<Event>)
    requires Sound(w) && p < |w.processes| && Live(w.processes[p])
    requires w.processes[p].job.tag in w.tags ==> digest(w.tags[w.processes[p].job.tag]) == digest(w.processes[p].job.manifest)
    ensures Run(digest, w, events).Some? && |events| <= ToGo(w.processes[p])
    ensures forall i | 0 <= i < |events| :: !events[i].Join? && !events[i].Land? && events[i].p == p && !events[i].Crash?
    ensures var v := Run(digest, w, events).value;
      && |v.processes| == |w.processes| && v.processes[p] == w.processes[p].(pc := Finished)
      && Holds(digest, v, w.processes[p].job.tag, digest(w.processes[p].job.manifest))
      && forall tag | tag != w.processes[p].job.tag :: (tag in v.tags <==> tag in w.tags) && (tag in w.tags ==> v.tags[tag] == w.tags[tag])
    decreases ToGo(w.processes[p])
  {
    hide Step, Sound, Honest, ToGo;
    var e := Answered(w, p);
    SoundIsHonest(w, p);
    AnsweredMovesOn(digest, w, p, digest(w.processes[p].job.manifest));
    StepKeepsSound(digest, w, e);
    var v := Step(digest, w, e).value;
    if v.processes[p].pc.Finished? {
      events := [e];
      assert [e] == [] + [e];
      RunOne(digest, w, [], e);
    } else {
      var rest := AnsweredFinishes(digest, v, p);
      events := [e] + rest;
      RunFront(digest, w, e, rest);
    }
  }

  lemma SoundIsHonest(w: World, p: nat)
    requires Sound(w) && p < |w.processes|
    ensures Honest(w.store, w.processes[p])
  {
  }

  lemma {:induction false} RunFront(digest: Manifest -> Digest, w: World, e: Event, rest: seq<Event>)
    requires Step(digest, w, e).Some?
    ensures Run(digest, w, [e] + rest) == Run(digest, Step(digest, w, e).value, rest)
    decreases |rest|
  {
    hide Step;
    if rest == [] {
      assert [e] + rest == [] + [e];
      RunOne(digest, w, [], e);
    } else {
      var front := rest[..|rest| - 1];
      RunFront(digest, w, e, front);
      assert ([e] + rest)[..|rest|] == [e] + front;
    }
  }

  // A rerun after any crash: whatever became of the publishers of a manifest under a free tag, so long as nobody published
  // the tag with another digest, publishing the manifest again, answered well, ends with the tag at that digest.
  lemma RerunEndsAtTheSameDigest(digest: Manifest -> Digest, w: World, events: seq<Event>, job: Job) returns (rerun: seq<Event>)
    requires Sound(w) && OneDigest(digest, w, job.tag, digest(job.manifest)) && Run(digest, w, events).Some? && !job.held
    requires forall i | 0 <= i < |events| :: JoinsWith(digest, events[i], job.tag, digest(job.manifest))
    ensures var all := events + ([Join(job)] + rerun);
      Run(digest, w, all).Some? && Holds(digest, Run(digest, w, all).value, job.tag, digest(job.manifest))
  {
    hide Sound, OneDigest, Step, Run, JoinsWith;
    TagsAreComplete(digest, w, events);
    EqualPublishersAgree(digest, w, events, job.tag, digest(job.manifest));
    var v := Run(digest, w, events).value;
    var u := v.(processes := v.processes + [Process(job, Head(0))]);
    Joined(digest, v, job);
    StepKeepsSound(digest, v, Join(job));
    FreeOrSame(digest, v, job.tag, digest(job.manifest));
    rerun := AnsweredFinishes(digest, u, |v.processes|);
    RunFront(digest, v, Join(job), rerun);
    RunConcat(digest, w, events, [Join(job)] + rerun);
  }

  lemma Joined(digest: Manifest -> Digest, v: World, job: Job)
    requires !job.held
    ensures Step(digest, v, Join(job)) == Some(v.(processes := v.processes + [Process(job, Head(0))]))
  {
  }

  lemma FreeOrSame(digest: Manifest -> Digest, v: World, tag: string, d: Digest)
    requires OneDigest(digest, v, tag, d)
    ensures tag in v.tags ==> digest(v.tags[tag]) == d
  {
  }

  lemma {:induction false} RunConcat(digest: Manifest -> Digest, w: World, a: seq<Event>, b: seq<Event>)
    requires Run(digest, w, a).Some?
    ensures Run(digest, w, a + b) == Run(digest, Run(digest, w, a).value, b)
    decreases |b|
  {
    hide Step;
    if b == [] {
      assert a + b == a;
    } else {
      RunConcat(digest, w, a, b[..|b| - 1]);
      assert (a + b)[..|a + b| - 1] == a + b[..|b| - 1];
    }
  }
}
