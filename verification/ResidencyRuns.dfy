/**
 * Whole runs of the residency runtime, against two backends: one that applies the uploads it
 * is told about and clears itself whenever the epoch changes, and a naive one that is handed
 * every rendered frame. The cache is right when nobody can tell the two apart by digest.
 */
module ResidencyRuns {
  import opened Words
  import opened Residency

  datatype Op = RegisterHost | LoseDevice | BeginDrain | RecoverDevice | PresentFrame(outcome: Outcome)

  datatype Backend = Backend(epoch: nat, frames: map<nat, Frame>)

  datatype World = World(core: Core, backend: Backend, naive: Backend)

  function NewWorld(budgets: Budgets): World
  {
    World(NewCore(budgets), Backend(1, map[]), Backend(1, map[]))
  }

  function Apply(frames: map<nat, Frame>, renders: seq<Render>): map<nat, Frame>
  {
    if renders == [] then frames
    else Apply(frames, renders[..|renders| - 1])[renders[|renders| - 1].host := renders[|renders| - 1].frame]
  }

  /** A backend clears its resident frames whenever the epoch changes, then applies its renders. */
  function Deliver(backend: Backend, epoch: nat, renders: seq<Render>): Backend
  {
    Backend(epoch, Apply(if epoch == backend.epoch then backend.frames else map[], renders))
  }

  function CoreStep(core: Core, op: Op): Core
  {
    match op
    case RegisterHost => AddHost(core).0
    case LoseDevice => Lose(core)
    case BeginDrain => Drain(core)
    case RecoverDevice => Recover(core)
    case PresentFrame(outcome) => Present(core, outcome).0
  }

  /** What one operation handed the backend, and what it let the backend keep. */
  function UploadsOf(core: Core, op: Op): seq<Render>
  {
    if op.PresentFrame? && Present(core, op.outcome).1.Ok? then Present(core, op.outcome).1.value.uploads else []
  }

  function RendersOf(core: Core, op: Op): seq<Render>
  {
    if op.PresentFrame? && Present(core, op.outcome).1.Ok? then op.outcome.renders else []
  }

  function KeptOf(core: Core, op: Op): seq<Render>
  {
    if op.PresentFrame? && Present(core, op.outcome).1.Ok? then
      AdmitAll(core.cache, core.epoch, op.outcome.renders).kept
    else []
  }

  function Step(w: World, op: Op): World
  {
    var core := CoreStep(w.core, op);
    if op.PresentFrame? && Present(w.core, op.outcome).1.Ok? then
      var epoch := Present(w.core, op.outcome).1.value.epoch;
      World(core, Deliver(w.backend, epoch, UploadsOf(w.core, op)), Deliver(w.naive, epoch, RendersOf(w.core, op)))
    else World(core, w.backend, w.naive)
  }

  /** The engine renders registered hosts only. */
  ghost predicate Registered(core: Core, op: Op)
  {
    op.PresentFrame? && op.outcome.Stepped? ==>
      forall i :: 0 <= i < |op.outcome.renders| ==> op.outcome.renders[i].host < core.hostCount
  }

  ghost predicate DistinctHosts(renders: seq<Render>)
  {
    forall i, j :: 0 <= i < j < |renders| ==> renders[i].host != renders[j].host
  }

  /** And each of them at most once a step. */
  ghost predicate OncePerHost(outcome: Outcome) { outcome.Stepped? ==> DistinctHosts(outcome.renders) }

  function Run(w: World, ops: seq<Op>): World
  {
    if ops == [] then w else Step(Run(w, ops[..|ops| - 1]), ops[|ops| - 1])
  }

  ghost predicate RegisteredRun(w: World, ops: seq<Op>)
  {
    ops == [] || (RegisteredRun(w, ops[..|ops| - 1]) && Registered(Run(w, ops[..|ops| - 1]).core, ops[|ops| - 1]))
  }

  // ---------------------------------------------------------------- one batch

  ghost predicate HoldsFrame(frames: map<nat, Frame>, host: nat, digest: U64)
  {
    host in frames && frames[host].digest == digest
  }

  /** The two backends hold frames for the same hosts, with the same digests. */
  ghost predicate Agree(a: map<nat, Frame>, b: map<nat, Frame>)
  {
    && a.Keys == b.Keys
    && forall h :: h in a ==> a[h].digest == b[h].digest
  }

  /** Every digest the cache would reuse is resident. */
  ghost predicate Covers(frames: map<nat, Frame>, cache: seq<CachedFrame>)
  {
    forall h, d :: Holds(cache, h, d) ==> HoldsFrame(frames, h, d)
  }

  lemma AdmitOneKeepsCover(batch: Batch, epoch: nat, render: Render, frames: map<nat, Frame>, all: map<nat, Frame>)
    requires Covers(frames, batch.cache) && Agree(frames, all)
    ensures var after := AdmitOne(batch, epoch, render);
      var frames' := if Holds(batch.cache, render.host, render.frame.digest) then frames
                     else frames[render.host := render.frame];
      Covers(frames', after.cache) && Agree(frames', all[render.host := render.frame])
  {
    hide Holds, Remember;
    var after := AdmitOne(batch, epoch, render);
    var digest := render.frame.digest;
    forall h, d ensures Holds(after.cache, h, d) <==> (if h == render.host then d == digest else Holds(batch.cache, h, d)) {
      RememberAnswers(batch.cache, render.host, digest, h, d);
    }
    assert Holds(batch.cache, render.host, digest) ==> HoldsFrame(frames, render.host, digest);
  }

  lemma ApplyOneMore(frames: map<nat, Frame>, renders: seq<Render>, render: Render)
    ensures Apply(frames, renders + [render]) == Apply(frames, renders)[render.host := render.frame]
  {
    assert (renders + [render])[..|renders|] == renders;
  }

  /** Uploading only what the cache does not hold leaves the same digests resident as uploading all. */
  lemma {:induction false} BatchCovers(
    cache: seq<CachedFrame>, epoch: nat, renders: seq<Render>, frames: map<nat, Frame>, all: map<nat, Frame>)
    requires Covers(frames, cache) && Agree(frames, all)
    ensures var batch := AdmitAll(cache, epoch, renders);
      Covers(Apply(frames, batch.uploads), batch.cache) && Agree(Apply(frames, batch.uploads), Apply(all, renders))
  {
    hide Holds, Remember, Covers, Agree, Apply;
    if renders == [] {
      assert Apply(frames, []) == frames && Apply(all, []) == all by { EmptyApply(frames); EmptyApply(all); }
    } else {
      var init, last := renders[..|renders| - 1], renders[|renders| - 1];
      BatchCovers(cache, epoch, init, frames, all);
      var batch := AdmitAll(cache, epoch, init);
      AdmitOneKeepsCover(batch, epoch, last, Apply(frames, batch.uploads), Apply(all, init));
      ApplyOneMore(frames, batch.uploads, last);
      ApplyOneMore(all, init, last);
      assert renders == init + [last];
    }
  }

  lemma EmptyApply(frames: map<nat, Frame>)
    ensures Apply(frames, []) == frames
  {
  }

  lemma {:induction false} BatchKeepsCacheOk(cache: seq<CachedFrame>, epoch: nat, renders: seq<Render>, hostCount: nat)
    requires CacheOk(cache, hostCount)
    requires forall i :: 0 <= i < |renders| ==> renders[i].host < hostCount
    ensures CacheOk(AdmitAll(cache, epoch, renders).cache, hostCount)
  {
    hide Remember, Holds, CacheOk;
    if renders != [] {
      var init, last := renders[..|renders| - 1], renders[|renders| - 1];
      BatchKeepsCacheOk(cache, epoch, init, hostCount);
      RememberKeepsOk(AdmitAll(cache, epoch, init).cache, hostCount, last.host, last.frame.digest);
    }
  }

  /** Every admitted render is either uploaded or kept, and none is lost or invented. */
  lemma {:induction false} BatchConserves(cache: seq<CachedFrame>, epoch: nat, renders: seq<Render>)
    ensures var batch := AdmitAll(cache, epoch, renders);
      && |batch.receipts| == |renders| == |batch.uploads| + |batch.kept|
      && multiset(renders) == multiset(batch.uploads) + multiset(batch.kept)
  {
    hide Holds, Remember, Cost;
    if renders != [] {
      var init, last := renders[..|renders| - 1], renders[|renders| - 1];
      BatchConserves(cache, epoch, init);
      assert renders == init + [last];
    }
  }

  /** Bytes uploaded and bytes saved by reuse add up to the bytes of uploading everything. */
  lemma {:induction false} BatchBytes(cache: seq<CachedFrame>, epoch: nat, renders: seq<Render>)
    ensures var batch := AdmitAll(cache, epoch, renders);
      Bytes(renders) == Bytes(batch.uploads) + Bytes(batch.kept)
  {
    hide Holds, Remember, Cost;
    if renders != [] {
      var init, last := renders[..|renders| - 1], renders[|renders| - 1];
      BatchBytes(cache, epoch, init);
      var batch := AdmitAll(cache, epoch, init);
      assert (batch.uploads + [last])[..|batch.uploads|] == batch.uploads;
      assert (batch.kept + [last])[..|batch.kept|] == batch.kept;
    }
  }

  function Selected(cache: seq<CachedFrame>, renders: seq<Render>, held: bool): seq<Render>
  {
    if renders == [] then []
    else
      var last := renders[|renders| - 1];
      Selected(cache, renders[..|renders| - 1], held)
      + if Holds(cache, last.host, last.frame.digest) == held then [last] else []
  }

  /** The answer of the cache after a batch: the batch's own digest for its hosts, the old answer otherwise. */
  lemma {:induction false} BatchAnswers(cache: seq<CachedFrame>, epoch: nat, renders: seq<Render>, host: nat, digest: U64)
    requires forall i :: 0 <= i < |renders| ==> renders[i].host != host
    ensures Holds(AdmitAll(cache, epoch, renders).cache, host, digest) <==> Holds(cache, host, digest)
  {
    hide Holds, Remember;
    if renders != [] {
      var init, last := renders[..|renders| - 1], renders[|renders| - 1];
      BatchAnswers(cache, epoch, init, host, digest);
      RememberAnswers(AdmitAll(cache, epoch, init).cache, last.host, last.frame.digest, host, digest);
    }
  }

  /**
   * What a batch means, read off the cache as it stood before the call: a frame is uploaded
   * exactly when that cache does not hold its digest, a reused frame costs nothing and an
   * uploaded one its full estimate, and both lists keep receipt order.
   */
  lemma {:induction false} BatchMeaning(cache: seq<CachedFrame>, epoch: nat, renders: seq<Render>)
    requires DistinctHosts(renders)
    ensures var batch := AdmitAll(cache, epoch, renders);
      && batch.uploads == Selected(cache, renders, false)
      && batch.kept == Selected(cache, renders, true)
      && |batch.receipts| == |renders|
      && forall i :: 0 <= i < |renders| ==>
           batch.receipts[i] == Receipt(
             renders[i].host, renders[i].frame.shapes,
             if Holds(cache, renders[i].host, renders[i].frame.digest) then 0 else Cost(renders[i].frame),
             epoch, renders[i].frame.digest)
  {
    hide Holds, Remember, Cost;
    if renders != [] {
      var init, last := renders[..|renders| - 1], renders[|renders| - 1];
      BatchMeaning(cache, epoch, init);
      BatchAnswers(cache, epoch, init, last.host, last.frame.digest);
    }
  }

  // ---------------------------------------------------------------- coherence over runs

  /**
   * The run invariant: one entry a host, never more hosts than the profile, a lost device
   * remembers nothing, and anything the cache would reuse is resident under this epoch.
   */
  ghost predicate Coherent(w: World)
  {
    && CacheOk(w.core.cache, w.core.hostCount)
    && w.core.hostCount <= w.core.budgets.maxHosts
    && (w.core.state == Lost ==> w.core.cache == [])
    && (w.core.cache != [] ==> w.backend.epoch == w.core.epoch)
    && Covers(w.backend.frames, w.core.cache)
    && w.backend.epoch == w.naive.epoch
    && Agree(w.backend.frames, w.naive.frames)
  }

  lemma EmptyCacheCovered(frames: map<nat, Frame>)
    ensures Covers(frames, [])
  {
  }

  lemma PresentKeepsCoherent(w: World, outcome: Outcome)
    requires Coherent(w) && Registered(w.core, PresentFrame(outcome))
    ensures Coherent(Step(w, PresentFrame(outcome)))
  {
    hide AdmitAll, Covers, Agree, CacheOk, Apply, WithinBudgets;
    var op := PresentFrame(outcome);
    if Present(w.core, outcome).1.Ok? {
      var renders := outcome.renders;
      var same := w.core.epoch == w.backend.epoch;
      var held := if same then w.backend.frames else map[];
      var all := if same then w.naive.frames else map[];
      assert Covers(held, w.core.cache) && Agree(held, all) by {
        if !same {
          EmptyCacheCovered(held);
          AgreeEmpty();
        }
      }
      if renders == [] {
        EmptyApply(held);
        EmptyApply(all);
      } else {
        BatchCovers(w.core.cache, w.core.epoch, renders, held, all);
        BatchKeepsCacheOk(w.core.cache, w.core.epoch, renders, w.core.hostCount);
      }
    }
  }

  lemma AgreeEmpty()
    ensures Agree(map[], map[])
  {
  }

  lemma StepKeepsCoherent(w: World, op: Op)
    requires Coherent(w) && Registered(w.core, op)
    ensures Coherent(Step(w, op))
  {
    hide Present, Covers, Agree;
    match op
    case PresentFrame(outcome) => PresentKeepsCoherent(w, outcome);
    case RegisterHost =>
    case BeginDrain =>
    case LoseDevice => EmptyCacheCovered(w.backend.frames);
    case RecoverDevice => EmptyCacheCovered(w.backend.frames);
  }

  lemma {:induction false} RunCoherent(w: World, ops: seq<Op>)
    requires Coherent(w) && RegisteredRun(w, ops)
    ensures Coherent(Run(w, ops))
  {
    hide Step, Coherent, Registered;
    if ops != [] {
      RunCoherent(w, ops[..|ops| - 1]);
      StepKeepsCoherent(Run(w, ops[..|ops| - 1]), ops[|ops| - 1]);
    }
  }

  lemma NewWorldCoherent(budgets: Budgets)
    ensures Coherent(NewWorld(budgets))
  {
    EmptyCacheCovered(map[]);
  }

  function HostsOf(cache: seq<CachedFrame>): set<nat>
  {
    if cache == [] then {} else HostsOf(cache[..|cache| - 1]) + {cache[|cache| - 1].host}
  }

  function Below(n: nat): (s: set<nat>)
    ensures |s| == n && forall k: nat :: k in s <==> k < n
  {
    if n == 0 then {} else Below(n - 1) + {n - 1}
  }

  lemma {:induction false} HostsDistinct(cache: seq<CachedFrame>, hostCount: nat)
    requires CacheOk(cache, hostCount)
    ensures |HostsOf(cache)| == |cache| && HostsOf(cache) <= Below(hostCount)
    ensures forall h :: h in HostsOf(cache) ==> exists i :: 0 <= i < |cache| && cache[i].host == h
  {
    if cache != [] {
      HostsDistinct(cache[..|cache| - 1], hostCount);
    }
  }

  lemma {:induction false} SubsetSize(a: set<nat>, b: set<nat>)
    requires a <= b
    ensures |a| <= |b|
    decreases |a|
  {
    if x :| x in a {
      SubsetSize(a - {x}, b - {x});
    }
  }

  /** A duplicate-free cache over registered hosts is no longer than the hosts are many. */
  lemma CacheWithinHosts(cache: seq<CachedFrame>, hostCount: nat)
    requires CacheOk(cache, hostCount)
    ensures |cache| <= hostCount
  {
    HostsDistinct(cache, hostCount);
    SubsetSize(HostsOf(cache), Below(hostCount));
  }

  /** Over every run: the cache holds at most one entry a host and never outgrows the profile. */
  lemma CacheNeverOutgrowsProfile(budgets: Budgets, ops: seq<Op>)
    requires RegisteredRun(NewWorld(budgets), ops)
    ensures var core := Run(NewWorld(budgets), ops).core;
      && CacheOk(core.cache, core.hostCount)
      && |core.cache| <= core.hostCount <= core.budgets.maxHosts
  {
    hide Step, RegisteredRun, Run, CacheOk;
    NewWorldCoherent(budgets);
    RunCoherent(NewWorld(budgets), ops);
    CacheWithinHosts(Run(NewWorld(budgets), ops).core.cache, Run(NewWorld(budgets), ops).core.hostCount);
  }

  /**
   * The main result. After every accepted present of every run, each receipt's host is resident
   * with exactly the receipt's digest, which is the digest of the frame just rendered for it, and
   * the backend that applied the uploads agrees with the one handed every frame.
   */
  lemma ReceiptsAreResident(budgets: Budgets, ops: seq<Op>, outcome: Outcome)
    requires RegisteredRun(NewWorld(budgets), ops)
    requires Registered(Run(NewWorld(budgets), ops).core, PresentFrame(outcome)) && OncePerHost(outcome)
    requires Present(Run(NewWorld(budgets), ops).core, outcome).1.Ok?
    ensures var w := Run(NewWorld(budgets), ops);
      var report := Present(w.core, outcome).1.value;
      var after := Step(w, PresentFrame(outcome));
      && after.backend.epoch == report.epoch == after.core.epoch
      && Agree(after.backend.frames, after.naive.frames)
      && |report.receipts| == |outcome.renders|
      && forall i :: 0 <= i < |report.receipts| ==>
           && report.receipts[i].host == outcome.renders[i].host
           && report.receipts[i].digest == outcome.renders[i].frame.digest
           && HoldsFrame(after.backend.frames, report.receipts[i].host, report.receipts[i].digest)
           && HoldsFrame(after.naive.frames, report.receipts[i].host, report.receipts[i].digest)
  {
    hide RegisteredRun, Run, AdmitAll, CacheOk, Holds, Cost, Apply, Covers, WithinBudgets;
    var w := Run(NewWorld(budgets), ops);
    NewWorldCoherent(budgets);
    RunCoherent(NewWorld(budgets), ops);
    PresentKeepsCoherent(w, outcome);
    var renders := outcome.renders;
    if renders != [] {
      BatchMeaning(w.core.cache, w.core.epoch, renders);
      var batch := AdmitAll(w.core.cache, w.core.epoch, renders);
      var after := Step(w, PresentFrame(outcome));
      forall i | 0 <= i < |renders|
        ensures HoldsFrame(after.backend.frames, renders[i].host, renders[i].frame.digest)
        ensures HoldsFrame(after.naive.frames, renders[i].host, renders[i].frame.digest)
      {
        BatchRemembers(w.core.cache, w.core.epoch, renders, i);
        CoveredIsHeld(after.backend.frames, batch.cache, renders[i].host, renders[i].frame.digest);
      }
    }
  }

  lemma CoveredIsHeld(frames: map<nat, Frame>, cache: seq<CachedFrame>, host: nat, digest: U64)
    requires Covers(frames, cache) && Holds(cache, host, digest)
    ensures HoldsFrame(frames, host, digest)
  {
    hide Holds;
  }

  lemma {:induction false} BatchRemembers(cache: seq<CachedFrame>, epoch: nat, renders: seq<Render>, i: nat)
    requires DistinctHosts(renders) && i < |renders|
    ensures Holds(AdmitAll(cache, epoch, renders).cache, renders[i].host, renders[i].frame.digest)
  {
    hide Holds, Remember;
    var init, last := renders[..|renders| - 1], renders[|renders| - 1];
    if i < |init| {
      BatchRemembers(cache, epoch, init, i);
    }
    RememberAnswers(AdmitAll(cache, epoch, init).cache, last.host, last.frame.digest, renders[i].host, renders[i].frame.digest);
  }

  // ---------------------------------------------------------------- loss, recovery and accounts over runs

  /** Everything uploaded, kept or rendered by the accepted presents of a run, in order. */
  function UploadLog(core: Core, ops: seq<Op>): seq<Render>
  {
    if ops == [] then []
    else UploadLog(core, ops[..|ops| - 1]) + UploadsOf(RunCore(core, ops[..|ops| - 1]), ops[|ops| - 1])
  }

  function KeptLog(core: Core, ops: seq<Op>): seq<Render>
  {
    if ops == [] then []
    else KeptLog(core, ops[..|ops| - 1]) + KeptOf(RunCore(core, ops[..|ops| - 1]), ops[|ops| - 1])
  }

  function RenderLog(core: Core, ops: seq<Op>): seq<Render>
  {
    if ops == [] then []
    else RenderLog(core, ops[..|ops| - 1]) + RendersOf(RunCore(core, ops[..|ops| - 1]), ops[|ops| - 1])
  }

  function RunCore(core: Core, ops: seq<Op>): Core
  {
    if ops == [] then core else CoreStep(RunCore(core, ops[..|ops| - 1]), ops[|ops| - 1])
  }

  lemma {:induction false} RunProjects(w: World, ops: seq<Op>)
    ensures Run(w, ops).core == RunCore(w.core, ops)
  {
    hide CoreStep, UploadsOf, RendersOf, Present;
    if ops != [] {
      RunProjects(w, ops[..|ops| - 1]);
    }
  }

  ghost predicate Logged(log: seq<Render>, host: nat, digest: U64)
  {
    exists i :: 0 <= i < |log| && log[i].host == host && log[i].frame.digest == digest
  }

  lemma LoggedGrows(log: seq<Render>, more: seq<Render>, host: nat, digest: U64)
    requires Logged(log, host, digest) || Logged(more, host, digest)
    ensures Logged(log + more, host, digest)
  {
    if i :| 0 <= i < |log| && log[i].host == host && log[i].frame.digest == digest {
      assert (log + more)[i] == log[i];
    } else {
      var j :| 0 <= j < |more| && more[j].host == host && more[j].frame.digest == digest;
      assert (log + more)[|log| + j] == more[j];
    }
  }

  /** Whatever a batch leaves in the cache was there before or was just uploaded. */
  lemma {:induction false} BatchLearnsFromUploads(cache: seq<CachedFrame>, epoch: nat, renders: seq<Render>, host: nat, digest: U64)
    requires Holds(AdmitAll(cache, epoch, renders).cache, host, digest)
    ensures Holds(cache, host, digest) || Logged(AdmitAll(cache, epoch, renders).uploads, host, digest)
  {
    hide Holds, Remember, Logged, Cost;
    if renders != [] {
      var init, last := renders[..|renders| - 1], renders[|renders| - 1];
      var batch := AdmitAll(cache, epoch, init);
      RememberAnswers(batch.cache, last.host, last.frame.digest, host, digest);
      if Holds(batch.cache, host, digest) {
        BatchLearnsFromUploads(cache, epoch, init, host, digest);
        if !Holds(cache, host, digest) {
          LoggedGrows(batch.uploads, [last], host, digest);
        }
      } else {
        assert Logged([last], host, digest) by {
          SingleLogged(last);
        }
        LoggedGrows(batch.uploads, [last], host, digest);
      }
    }
  }

  lemma SingleLogged(render: Render)
    ensures Logged([render], render.host, render.frame.digest)
  {
    assert [render][0] == render;
  }

  lemma EmptyHoldsNothing(host: nat, digest: U64)
    ensures !Holds([], host, digest)
  {
  }

  /**
   * Nothing cached before a loss or a recovery is ever reused after it: run on from a state whose
   * cache those calls have just emptied, and whatever the cache would reuse has been uploaded
   * since.
   */
  lemma {:induction false} HeldWasUploadedSince(core: Core, ops: seq<Op>, host: nat, digest: U64)
    requires core.cache == []
    requires Holds(RunCore(core, ops).cache, host, digest)
    ensures Logged(UploadLog(core, ops), host, digest)
  {
    hide Holds, AdmitAll, Logged, WithinBudgets;
    EmptyHoldsNothing(host, digest);
    if ops != [] {
      var init, last := ops[..|ops| - 1], ops[|ops| - 1];
      var before := RunCore(core, init);
      if Holds(before.cache, host, digest) {
        HeldWasUploadedSince(core, init, host, digest);
      } else {
        BatchLearnsFromUploads(before.cache, before.epoch, last.outcome.renders, host, digest);
      }
      LoggedGrows(UploadLog(core, init), UploadsOf(before, last), host, digest);
    }
  }

  lemma ReuseNeedsAnUploadSince(before: Core, invalidate: Op, ops: seq<Op>, outcome: Outcome, i: nat)
    requires invalidate.LoseDevice? || invalidate.RecoverDevice?
    requires var core := RunCore(CoreStep(before, invalidate), ops);
      && OncePerHost(outcome)
      && Present(core, outcome).1.Ok? && i < |outcome.renders|
      && outcome.renders[i] !in Present(core, outcome).1.value.uploads
    ensures var frame := outcome.renders[i].frame;
      Logged(UploadLog(CoreStep(before, invalidate), ops), outcome.renders[i].host, frame.digest)
  {
    hide Holds, AdmitAll, Logged, WithinBudgets, RunCore, UploadLog, Cost;
    var start := CoreStep(before, invalidate);
    var core := RunCore(start, ops);
    var render := outcome.renders[i];
    BatchMeaning(core.cache, core.epoch, outcome.renders);
    if !Holds(core.cache, render.host, render.frame.digest) {
      SelectedHas(core.cache, outcome.renders, i);
    }
    HeldWasUploadedSince(start, ops, render.host, render.frame.digest);
  }

  lemma {:induction false} SelectedHas(cache: seq<CachedFrame>, renders: seq<Render>, i: nat)
    requires i < |renders|
    ensures renders[i] in Selected(cache, renders, Holds(cache, renders[i].host, renders[i].frame.digest))
  {
    hide Holds;
    if i < |renders| - 1 {
      SelectedHas(cache, renders[..|renders| - 1], i);
    }
  }

  lemma SaturatingSum(a: nat, b: nat)
    ensures SaturatingAdd(Min(a, U64_MAX), Min(b, U64_MAX)) == Min(a + b, U64_MAX)
  {
  }

  lemma StepConserves(core: Core, op: Op)
    ensures var after := CoreStep(core, op);
      var uploads := UploadsOf(core, op);
      var renders := RendersOf(core, op);
      var kept := KeptOf(core, op);
      && after.receipts == core.receipts + |renders|
      && after.reused == core.reused + |kept|
      && after.uploadedBytes == SaturatingAdd(core.uploadedBytes, Min(Bytes(uploads), U64_MAX))
      && multiset(renders) == multiset(uploads) + multiset(kept)
      && |renders| == |uploads| + |kept|
      && Bytes(renders) == Bytes(uploads) + Bytes(kept)
  {
    hide AdmitAll, Bytes, ByteTotal, ShapeTotal;
    NoBytes();
    if op.PresentFrame? && Present(core, op.outcome).1.Ok? {
      BatchConserves(core.cache, core.epoch, op.outcome.renders);
      BatchBytes(core.cache, core.epoch, op.outcome.renders);
      TotalsSaturateOnce(UploadsOf(core, op));
    }
  }

  /**
   * Conservation over every run: the renders presented are exactly the ones uploaded and the ones
   * kept, receipts = reused + uploads, the uploaded-bytes counter is the exact cost of the upload
   * log (capped at the word's maximum), and uploaded plus saved bytes are the bytes of uploading all.
   */
  lemma {:induction false} RunConserves(budgets: Budgets, ops: seq<Op>)
    ensures var core := RunCore(NewCore(budgets), ops);
      var uploads := UploadLog(NewCore(budgets), ops);
      var renders := RenderLog(NewCore(budgets), ops);
      var kept := KeptLog(NewCore(budgets), ops);
      && core.receipts == |renders| == core.reused + |uploads|
      && core.reused == |kept|
      && core.uploadedBytes == Min(Bytes(uploads), U64_MAX)
      && multiset(renders) == multiset(uploads) + multiset(kept)
      && Bytes(uploads) + Bytes(kept) == Bytes(renders)
  {
    hide CoreStep, UploadsOf, RendersOf, KeptOf, Bytes, SaturatingAdd;
    if ops == [] {
      NoBytes();
    } else {
      var init, last := ops[..|ops| - 1], ops[|ops| - 1];
      RunConserves(budgets, init);
      var core := RunCore(NewCore(budgets), init);
      StepConserves(core, last);
      BytesConcat(UploadLog(NewCore(budgets), init), UploadsOf(core, last));
      BytesConcat(KeptLog(NewCore(budgets), init), KeptOf(core, last));
      BytesConcat(RenderLog(NewCore(budgets), init), RendersOf(core, last));
      SaturatingSum(Bytes(UploadLog(NewCore(budgets), init)), Bytes(UploadsOf(core, last)));
    }
  }

  lemma NoBytes()
    ensures Bytes([]) == 0
  {
  }

  // ---------------------------------------------------------------- refusals and budgets

  /**
   * A present is refused exactly when the device is not ready, the delta is malformed or the frame
   * breaks a budget; a refusal moves nothing, in the runtime or in either backend, and an accepted
   * frame is within every budget by its exact sums.
   */
  lemma RefusalIsTransactional(w: World, outcome: Outcome)
    ensures var result := Present(w.core, outcome).1;
      && (result.Err? ==> Step(w, PresentFrame(outcome)) == w)
      && (result == Err(DeviceUnavailable) <==> w.core.state != Ready)
      && (result == Err(Rejected) <==> w.core.state == Ready && outcome.Malformed?)
      && result != Err(HostLimit)
      && (w.core.state == Ready && outcome.Stepped? ==>
            (result == Err(Backpressure) <==>
               outcome.renders != [] &&
               (|outcome.renders| > w.core.budgets.maxInFlight
                || Min(Shapes(outcome.renders), U64_MAX) > w.core.budgets.maxShapes
                || Min(Bytes(outcome.renders), U64_MAX) > w.core.budgets.maxBytes)))
      && (result.Ok? && w.core.budgets.maxBytes < U64_MAX && w.core.budgets.maxShapes < U64_MAX ==>
            && |outcome.renders| <= w.core.budgets.maxInFlight
            && Shapes(outcome.renders) <= w.core.budgets.maxShapes
            && Bytes(result.value.uploads) <= Bytes(outcome.renders) <= w.core.budgets.maxBytes)
  {
    hide AdmitAll, ShapeTotal, ByteTotal, Shapes, Bytes, Apply;
    if outcome.Stepped? {
      TotalsSaturateOnce(outcome.renders);
      BatchBytes(w.core.cache, w.core.epoch, outcome.renders);
      assert Shapes([]) == 0 && Bytes([]) == 0 by { NoBytes(); NoShapes(); }
    }
  }

  lemma NoShapes()
    ensures Shapes([]) == 0
  {
  }

  /** Draining and losing refuse every present until a recovery, whatever else is called meanwhile. */
  lemma {:induction false} UnavailableUntilRecovery(core: Core, ops: seq<Op>)
    requires core.state != Ready
    requires forall i :: 0 <= i < |ops| ==> !ops[i].RecoverDevice?
    ensures RunCore(core, ops).state != Ready
    ensures UploadLog(core, ops) == []
  {
    hide AdmitAll, WithinBudgets;
    if ops != [] {
      UnavailableUntilRecovery(core, ops[..|ops| - 1]);
    }
  }

  // ---------------------------------------------------------------- identical frames

  ghost predicate FromLog(frames: map<nat, Frame>, log: seq<Render>)
  {
    forall h :: h in frames ==> Render(h, frames[h]) in log
  }

  lemma {:induction false} ApplyFromLog(frames: map<nat, Frame>, renders: seq<Render>, log: seq<Render>)
    requires FromLog(frames, log) && forall r :: r in renders ==> r in log
    ensures FromLog(Apply(frames, renders), log)
  {
    if renders != [] {
      ApplyFromLog(frames, renders[..|renders| - 1], log);
    }
  }

  lemma {:induction false} ResidentFromLog(budgets: Budgets, ops: seq<Op>)
    ensures var w := Run(NewWorld(budgets), ops);
      var log := RenderLog(NewCore(budgets), ops);
      FromLog(w.backend.frames, log) && FromLog(w.naive.frames, log)
  {
    hide CoreStep, Apply, UploadsOf, RendersOf, Present;
    var w0, c0 := NewWorld(budgets), NewCore(budgets);
    if ops != [] {
      var init, last := ops[..|ops| - 1], ops[|ops| - 1];
      ResidentFromLog(budgets, init);
      RunProjects(w0, init);
      var w := Run(w0, init);
      StepConserves(w.core, last);
      var log := RenderLog(c0, ops);
      assert forall r :: r in UploadsOf(w.core, last) ==> r in multiset(UploadsOf(w.core, last));
      assert forall r :: r in multiset(RendersOf(w.core, last)) ==> r in RendersOf(w.core, last);
      ApplyFromLog(w.backend.frames, UploadsOf(w.core, last), log);
      ApplyFromLog(map[], UploadsOf(w.core, last), log);
      ApplyFromLog(w.naive.frames, RendersOf(w.core, last), log);
      ApplyFromLog(map[], RendersOf(w.core, last), log);
    }
  }

  /**
   * When no two frames rendered for a host share a digest unless they are the same frame, the
   * backend that was only told about changes holds exactly the frames the naive one holds.
   */
  lemma FaithfulDigestsMeanIdenticalFrames(budgets: Budgets, ops: seq<Op>)
    requires RegisteredRun(NewWorld(budgets), ops)
    requires var log := RenderLog(NewCore(budgets), ops);
      forall r, s :: r in log && s in log && r.host == s.host && r.frame.digest == s.frame.digest ==> r == s
    ensures var w := Run(NewWorld(budgets), ops);
      w.backend == w.naive
  {
    hide RegisteredRun, Run, RenderLog, CacheOk, Covers;
    NewWorldCoherent(budgets);
    RunCoherent(NewWorld(budgets), ops);
    ResidentFromLog(budgets, ops);
    var w := Run(NewWorld(budgets), ops);
    forall h | h in w.backend.frames ensures w.backend.frames[h] == w.naive.frames[h] {
      assert Render(h, w.backend.frames[h]) == Render(h, w.naive.frames[h]);
    }
    assert w.backend.frames == w.naive.frames;
  }
}
