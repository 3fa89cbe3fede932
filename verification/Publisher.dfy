// The code of one publisher (publish, blobPut, tagManifest, src/pool/registry.ts), request after request, as a run of the
// protocol. Each request has a reply, good or bad; when the replies run out the publisher has crashed.
module Publisher {
  import opened Wrappers
  import opened Registry

  // A good reply is the truth; a bad one is any refusal or none. What a bad reply leaves of an upload or a manifest is open.
  datatype Reply = Reply(good: bool, effect: bool, late: bool)

  // The request took effect.
  predicate Effect(r: Reply) {
    r.good || r.effect
  }

  // A bad reply to a request that has not taken effect may leave it to do so late.
  predicate IsLate(r: Reply) {
    r.late && !Effect(r)
  }

  // No write of a tag is still to land but those of the first world and the publisher's own.
  ghost predicate OwnLate(w: World, late: set<Late>, job: Job) {
    forall l | l in late && l.LateTag? :: l in w.late || l == LateTag(job.tag, job.manifest)
  }

  // The status read of a tag.
  function Status(tags: map<string, Manifest>, tag: string, r: Reply): nat {
    if !r.good then 500 else if tag in tags then 200 else 404
  }

  // The event is the request the publisher is about to make in this world, with this reply.
  predicate Answer(v: World, p: nat, e: Event, r: Reply)
    requires p < |v.processes|
  {
    var job, pc := v.processes[p].job, v.processes[p].pc;
    match pc
    case Head(i) => i < |Blobs(job.manifest)| && e == Headed(p, r.good && Blobs(job.manifest)[i] in v.store)
    case Begin(_) => e == Begun(p, r.good)
    case Upload(_) => e == Uploaded(p, Effect(r), r.good, IsLate(r))
    case ReadTag => e == TagRead(p, Status(v.tags, job.tag, r))
    case PutTag => e == TagWritten(p, Effect(r), r.good, IsLate(r))
    case _ => false
  }

  // The nth event is the next request with the next reply, or the crash when there is none.
  ghost predicate Replied(digest: Manifest -> Digest, w: World, events: seq<Event>, replies: seq<Reply>, n: nat)
    requires 0 < n < |events|
  {
    && Run(digest, w, events[..n]).Some? && |w.processes| < |Run(digest, w, events[..n]).value.processes|
    && var v := Run(digest, w, events[..n]).value;
    if n <= |replies| then Answer(v, |w.processes|, events[n], replies[n - 1]) else n == |replies| + 1 && events[n] == Crash(|w.processes|)
  }

  // The run so far: the publisher joined the world, made the requests the replies answer in turn, and is at pc; the registry
  // is as given.
  ghost predicate Ran(digest: Manifest -> Digest, w: World, replies: seq<Reply>, events: seq<Event>, job: Job, pc: Pc,
                      store: set<Digest>, tags: map<string, Manifest>)
  {
    && events != [] && events[0] == Join(job) && (forall n | 0 < n < |events| :: Replied(digest, w, events, replies, n))
    && Run(digest, w, events).Some?
    && var v := Run(digest, w, events).value;
    && |w.processes| < |v.processes| && v.processes[|w.processes|] == Process(job, pc) && v.store == store && v.tags == tags
    && OwnLate(w, v.late, job)
  }

  lemma RanNext(digest: Manifest -> Digest, w: World, replies: seq<Reply>, events: seq<Event>, job: Job, pc: Pc, store: set<Digest>,
                tags: map<string, Manifest>, e: Event, pc': Pc, store': set<Digest>, tags': map<string, Manifest>, late': set<Late>)
    requires Ran(digest, w, replies, events, job, pc, store, tags)
    requires var v := Run(digest, w, events).value;
      && Step(digest, v, e) == Some(At(World(store', tags', v.processes, late'), |w.processes|, pc')) && OwnLate(w, late', job)
      && if |events| <= |replies| then Answer(v, |w.processes|, e, replies[|events| - 1])
         else |events| == |replies| + 1 && e == Crash(|w.processes|)
    ensures Ran(digest, w, replies, events + [e], job, pc', store', tags')
  {
    hide Step, Answer, Run;
    RunOne(digest, w, events, e);
    RepliedOnward(digest, w, replies, events, e);
    hide Replied;
    assert (events + [e])[0] == events[0];
  }

  lemma RepliedOnward(digest: Manifest -> Digest, w: World, replies: seq<Reply>, events: seq<Event>, e: Event)
    requires events != [] && forall n | 0 < n < |events| :: Replied(digest, w, events, replies, n)
    requires Run(digest, w, events).Some? && |w.processes| < |Run(digest, w, events).value.processes|
    requires var v := Run(digest, w, events).value;
      if |events| <= |replies| then Answer(v, |w.processes|, e, replies[|events| - 1])
      else |events| == |replies| + 1 && e == Crash(|w.processes|)
    ensures forall n | 0 < n < |events + [e]| :: Replied(digest, w, events + [e], replies, n)
  {
    hide Answer, Run;
    var more := events + [e];
    assert more[..|events|] == events;
    forall n | 0 < n < |events| ensures Replied(digest, w, more, replies, n) {
      assert more[..n] == events[..n];
      assert Replied(digest, w, events, replies, n);
    }
  }

  lemma RanCrashed(digest: Manifest -> Digest, w: World, replies: seq<Reply>, events: seq<Event>, job: Job, pc: Pc, store: set<Digest>,
                   tags: map<string, Manifest>)
    requires Ran(digest, w, replies, events, job, pc, store, tags) && !pc.Finished? && !pc.Stopped? && |events| == |replies| + 1
    ensures Ran(digest, w, replies, events + [Crash(|w.processes|)], job, Stopped, store, tags)
  {
    hide Replied;
    RanNext(digest, w, replies, events, job, pc, store, tags, Crash(|w.processes|), Stopped, store, tags, Run(digest, w, events).value.late);
  }

  // A failure has a cause among the replies: there are too few, or the last one used is bad.
  ghost predicate LetDown(events: seq<Event>, replies: seq<Reply>) {
    |events| >= 2 && (|events| - 1 > |replies| || !replies[|events| - 2].good)
  }

  ghost predicate AllGood(replies: seq<Reply>) {
    forall i | 0 <= i < |replies| :: replies[i].good
  }

  // Upload the blob unless the registry has it.
  method BlobPut(digest: Manifest -> Digest, ghost w: World, ghost before: seq<Event>, job: Job, i: nat, store: set<Digest>,
                 ghost tags: map<string, Manifest>, replies: seq<Reply>, k: nat)
    returns (ok: bool, store': set<Digest>, k': nat, ghost events: seq<Event>)
    requires i < |Blobs(job.manifest)| && Ran(digest, w, replies, before, job, Head(i), store, tags) && k == |before| - 1 <= |replies|
    ensures Ran(digest, w, replies, events, job, if ok then AfterBlob(job.manifest, i) else Stopped, store', tags)
    ensures ok ==> store' == store + {Blobs(job.manifest)[i]} && k' == |events| - 1 <= |replies|
    ensures store <= store' <= store + {Blobs(job.manifest)[i]} && |before| < |events| <= |before| + 3
    ensures !ok ==> LetDown(events, replies)
  {
    hide Ran, Blobs, AfterBlob;
    var blob := Blobs(job.manifest)[i];
    ok, store', k', events := false, store, k, before;
    if k' == |replies| {
      RanCrashed(digest, w, replies, events, job, Head(i), store, tags);
      events := events + [Crash(|w.processes|)];
      return;
    }
    var found := replies[k'].good && blob in store;
    RanHeaded(digest, w, replies, events, job, i, store, tags, found);
    events, k' := events + [Headed(|w.processes|, found)], k' + 1;
    if found {
      return true, store, k', events;
    }
    if k' == |replies| {
      RanCrashed(digest, w, replies, events, job, Begin(i), store, tags);
      events := events + [Crash(|w.processes|)];
      return;
    }
    RanBegun(digest, w, replies, events, job, i, store, tags);
    events := events + [Begun(|w.processes|, replies[k'].good)];
    if !replies[k'].good {
      return;
    }
    k' := k' + 1;
    if k' == |replies| {
      RanCrashed(digest, w, replies, events, job, Upload(i), store, tags);
      events := events + [Crash(|w.processes|)];
      return;
    }
    var reply := replies[k'];
    RanUploaded(digest, w, replies, events, job, i, store, tags);
    events := events + [Uploaded(|w.processes|, Effect(reply), reply.good, IsLate(reply))];
    if Effect(reply) {
      store' := store + {blob};
    }
    ok, k' := reply.good, k' + 1;
  }

  lemma RanHeaded(digest: Manifest -> Digest, w: World, replies: seq<Reply>, events: seq<Event>, job: Job, i: nat, store: set<Digest>,
                  tags: map<string, Manifest>, found: bool)
    requires i < |Blobs(job.manifest)| && Ran(digest, w, replies, events, job, Head(i), store, tags) && |events| <= |replies|
    requires found <==> replies[|events| - 1].good && Blobs(job.manifest)[i] in store
    ensures Ran(digest, w, replies, events + [Headed(|w.processes|, found)], job, if found then AfterBlob(job.manifest, i) else Begin(i), store, tags)
  {
    hide Replied;
    RanNext(digest, w, replies, events, job, Head(i), store, tags, Headed(|w.processes|, found),
            if found then AfterBlob(job.manifest, i) else Begin(i), store, tags, Run(digest, w, events).value.late);
  }

  lemma RanBegun(digest: Manifest -> Digest, w: World, replies: seq<Reply>, events: seq<Event>, job: Job, i: nat, store: set<Digest>,
                 tags: map<string, Manifest>)
    requires Ran(digest, w, replies, events, job, Begin(i), store, tags) && |events| <= |replies|
    ensures var ok := replies[|events| - 1].good;
            Ran(digest, w, replies, events + [Begun(|w.processes|, ok)], job, if ok then Upload(i) else Stopped, store, tags)
  {
    hide Replied;
    var ok := replies[|events| - 1].good;
    RanNext(digest, w, replies, events, job, Begin(i), store, tags, Begun(|w.processes|, ok), if ok then Upload(i) else Stopped, store, tags,
            Run(digest, w, events).value.late);
  }

  lemma RanUploaded(digest: Manifest -> Digest, w: World, replies: seq<Reply>, events: seq<Event>, job: Job, i: nat, store: set<Digest>,
                    tags: map<string, Manifest>)
    requires i < |Blobs(job.manifest)| && Ran(digest, w, replies, events, job, Upload(i), store, tags) && |events| <= |replies|
    ensures var r := replies[|events| - 1];
            Ran(digest, w, replies, events + [Uploaded(|w.processes|, Effect(r), r.good, IsLate(r))], job,
                if r.good then AfterBlob(job.manifest, i) else Stopped, if Effect(r) then store + {Blobs(job.manifest)[i]} else store, tags)
  {
    hide Replied;
    var r := replies[|events| - 1];
    RanNext(digest, w, replies, events, job, Upload(i), store, tags, Uploaded(|w.processes|, Effect(r), r.good, IsLate(r)),
            if r.good then AfterBlob(job.manifest, i) else Stopped, if Effect(r) then store + {Blobs(job.manifest)[i]} else store, tags,
            Delayed(Run(digest, w, events).value, IsLate(r), LateBlob(Blobs(job.manifest)[i])).late);
  }

  // The tag holds another manifest than this.
  predicate HoldsAnother(digest: Manifest -> Digest, tags: map<string, Manifest>, job: Job) {
    job.tag in tags && digest(tags[job.tag]) != digest(job.manifest)
  }

  // The manifest under its tag, unless the tag holds it; a tag that holds another is left.
  method TagManifest(digest: Manifest -> Digest, ghost w: World, ghost before: seq<Event>, job: Job, ghost store: set<Digest>,
                     tags: map<string, Manifest>, replies: seq<Reply>, k: nat)
    returns (ok: bool, tags': map<string, Manifest>, ghost events: seq<Event>)
    requires Ran(digest, w, replies, before, job, ReadTag, store, tags) && k == |before| - 1 <= |replies|
    ensures Ran(digest, w, replies, events, job, if ok then Finished else Stopped, store, tags')
    ensures ok ==> job.tag in tags' && digest(tags'[job.tag]) == digest(job.manifest)
    ensures tags' == tags || (job.tag !in tags && tags' == tags[job.tag := job.manifest])
    ensures HoldsAnother(digest, tags, job) ==> !ok
    ensures |before| < |events| <= |before| + 2
    ensures !ok ==> LetDown(events, replies) || HoldsAnother(digest, tags, job)
  {
    hide Ran;
    ok, tags', events := false, tags, before;
    if k == |replies| {
      RanCrashed(digest, w, replies, events, job, ReadTag, store, tags);
      events := events + [Crash(|w.processes|)];
      return;
    }
    var status := Status(tags, job.tag, replies[k]);
    RanTagRead(digest, w, replies, events, job, store, tags);
    events := events + [TagRead(|w.processes|, status)];
    if status == 200 {
      ok := digest(tags[job.tag]) == digest(job.manifest);
      return;
    }
    if status != 404 {
      return;
    }
    if k + 1 == |replies| {
      RanCrashed(digest, w, replies, events, job, PutTag, store, tags);
      events := events + [Crash(|w.processes|)];
      return;
    }
    var reply := replies[k + 1];
    RanTagWritten(digest, w, replies, events, job, store, tags);
    events := events + [TagWritten(|w.processes|, Effect(reply), reply.good, IsLate(reply))];
    if Effect(reply) {
      tags' := tags[job.tag := job.manifest];
    }
    ok := reply.good;
  }

  // Where a publisher goes from a read tag.
  function AfterRead(digest: Manifest -> Digest, tags: map<string, Manifest>, job: Job, status: nat): Pc
    requires status == 200 ==> job.tag in tags
  {
    if status == 200 then if digest(tags[job.tag]) == digest(job.manifest) then Finished else Stopped
    else if status == 404 then PutTag else Stopped
  }

  lemma RanTagRead(digest: Manifest -> Digest, w: World, replies: seq<Reply>, events: seq<Event>, job: Job, store: set<Digest>,
                   tags: map<string, Manifest>)
    requires Ran(digest, w, replies, events, job, ReadTag, store, tags) && |events| <= |replies|
    ensures var status := Status(tags, job.tag, replies[|events| - 1]);
            Ran(digest, w, replies, events + [TagRead(|w.processes|, status)], job, AfterRead(digest, tags, job, status), store, tags)
  {
    hide Replied;
    var status := Status(tags, job.tag, replies[|events| - 1]);
    RanNext(digest, w, replies, events, job, ReadTag, store, tags, TagRead(|w.processes|, status), AfterRead(digest, tags, job, status),
            store, tags, Run(digest, w, events).value.late);
  }

  lemma RanTagWritten(digest: Manifest -> Digest, w: World, replies: seq<Reply>, events: seq<Event>, job: Job, store: set<Digest>,
                      tags: map<string, Manifest>)
    requires Ran(digest, w, replies, events, job, PutTag, store, tags) && |events| <= |replies|
    ensures var r := replies[|events| - 1];
            Ran(digest, w, replies, events + [TagWritten(|w.processes|, Effect(r), r.good, IsLate(r))], job, if r.good then Finished else Stopped,
                store, if Effect(r) then tags[job.tag := job.manifest] else tags)
  {
    hide Replied;
    var r := replies[|events| - 1];
    RanNext(digest, w, replies, events, job, PutTag, store, tags, TagWritten(|w.processes|, Effect(r), r.good, IsLate(r)),
            if r.good then Finished else Stopped, store, if Effect(r) then tags[job.tag := job.manifest] else tags,
            Delayed(Run(digest, w, events).value, IsLate(r), LateTag(job.tag, job.manifest)).late);
  }

  // publish, with no other publisher at work: a run of the protocol in which each request has the next reply, of at most
  // three requests for each blob and two for the tag. It ends well only with the tag leading to the manifest's digest and
  // all of its blobs stored, and badly only where a reply is bad, the replies run out or the tag holds another digest: so
  // with good replies, and enough of them, it ends well. Whenever and however it ends, no other tag has moved, the tag is as
  // it was, or was free and holds this manifest, and no write is left to land late but one of this manifest to this tag.
  method Publish(digest: Manifest -> Digest, w: World, job: Job, replies: seq<Reply>)
    returns (ok: bool, store: set<Digest>, tags: map<string, Manifest>, ghost events: seq<Event>)
    requires !job.held
    ensures Ran(digest, w, replies, events, job, if ok then Finished else Stopped, store, tags)
    ensures ok ==> job.manifest.config in store && forall l | l in job.manifest.layers :: l in store
    ensures ok ==> job.tag in tags && digest(tags[job.tag]) == digest(job.manifest)
    ensures w.store <= store
    ensures tags == w.tags || (job.tag !in w.tags && tags == w.tags[job.tag := job.manifest])
    ensures HoldsAnother(digest, w.tags, job) ==> !ok
    ensures |events| - 1 <= 3 * |Blobs(job.manifest)| + 2
    ensures !ok ==> LetDown(events, replies) || HoldsAnother(digest, w.tags, job)
    ensures AllGood(replies) && |replies| >= 3 * |Blobs(job.manifest)| + 2 && !HoldsAnother(digest, w.tags, job) ==> ok
  {
    hide Ran, AfterBlob;
    var m := job.manifest;
    var k: nat := 0;
    store, tags := w.store, w.tags;
    RanJoined(digest, w, replies, job);
    events := [Join(job)];
    for i := 0 to |Blobs(m)|
      invariant k == |events| - 1 <= |replies| && k <= 3 * i
      invariant w.store <= store && forall j | 0 <= j < i :: Blobs(m)[j] in store
      invariant Ran(digest, w, replies, events, job, if i < |Blobs(m)| then Head(i) else ReadTag, store, w.tags)
    {
      AfterBlobIs(m, i);
      ok, store, k, events := BlobPut(digest, w, events, job, i, store, w.tags, replies, k);
      if !ok {
        return;
      }
    }
    HasBlobsIs(store, m);
    ok, tags, events := TagManifest(digest, w, events, job, store, w.tags, replies, k);
  }

  lemma AfterBlobIs(m: Manifest, i: nat)
    ensures AfterBlob(m, i) == if i + 1 < |Blobs(m)| then Head(i + 1) else ReadTag
  {
  }

  lemma RanJoined(digest: Manifest -> Digest, w: World, replies: seq<Reply>, job: Job)
    requires !job.held
    ensures Ran(digest, w, replies, [Join(job)], job, Head(0), w.store, w.tags)
  {
    RunOne(digest, w, [], Join(job));
    assert [] + [Join(job)] == [Join(job)];
  }
}
