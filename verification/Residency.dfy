/**
 * The GPU residency runtime: a digest cache that decides what to upload, a device life
 * cycle whose epochs invalidate that cache, and budgets that refuse a frame whole.
 *
 * The engine is an arbitrary environment: each `present` is handed whatever the engine's
 * step returned. Hosts are numbered by the engine in order of registration, so a registered
 * host is a number below the host count, and one step renders each host at most once.
 */
module Residency {
  import opened Words

  const BYTES_PER_SHAPE: U64 := 24
  const BYTES_PER_FILTER: U64 := 64

  datatype Frame = Frame(shapes: U64, filtered: bool, digest: U64, pixels: nat)
  datatype Render = Render(host: nat, frame: Frame)
  datatype Budgets = Budgets(maxShapes: U64, maxBytes: U64, maxInFlight: nat, maxHosts: nat)
  datatype DeviceState = Ready | Draining | Lost
  datatype Refusal = DeviceUnavailable | Backpressure | HostLimit | Rejected
  datatype Result<T> = Ok(value: T) | Err(error: Refusal)
  datatype Receipt = Receipt(host: nat, shapes: U64, uploadBytes: U64, epoch: nat, digest: U64)
  datatype CachedFrame = CachedFrame(host: nat, digest: U64)

  /** What the engine's step came back with. */
  datatype Outcome = Stepped(renders: seq<Render>) | Malformed

  datatype Report = Report(
    receipts: seq<Receipt>, uploads: seq<Render>, idle: bool, epoch: nat,
    uploadedBytes: U64, reused: nat)

  /** Everything the runtime itself keeps between calls. */
  datatype Core = Core(
    budgets: Budgets, state: DeviceState, epoch: nat, hostCount: nat, cache: seq<CachedFrame>,
    framesPresented: nat, idleFrames: nat, receipts: nat, reused: nat, uploadedBytes: U64)

  function NewCore(budgets: Budgets): Core { Core(budgets, Ready, 1, 0, [], 0, 0, 0, 0, 0) }

  // ---------------------------------------------------------------- the cache

  /** Where the first entry for `host` stands, or the cache's length when there is none. */
  function Find(cache: seq<CachedFrame>, host: nat): (at: nat)
    ensures at <= |cache|
    ensures at < |cache| ==> cache[at].host == host
    ensures forall k :: 0 <= k < at ==> cache[k].host != host
  {
    if cache == [] then 0
    else if cache[0].host == host then 0
    else
      var rest := Find(cache[1..], host);
      assert forall k :: 1 <= k < 1 + rest ==> cache[k] == cache[1..][k - 1];
      1 + rest
  }

  predicate Holds(cache: seq<CachedFrame>, host: nat, digest: U64)
  {
    var at := Find(cache, host);
    at < |cache| && cache[at].digest == digest
  }

  function Remember(cache: seq<CachedFrame>, host: nat, digest: U64): seq<CachedFrame>
  {
    var at := Find(cache, host);
    if at < |cache| then cache[at := CachedFrame(host, digest)]
    else cache + [CachedFrame(host, digest)]
  }

  /** No host has two entries, and every entry names a registered host. */
  ghost predicate CacheOk(cache: seq<CachedFrame>, hostCount: nat)
  {
    && (forall i :: 0 <= i < |cache| ==> cache[i].host < hostCount)
    && (forall i, j :: 0 <= i < j < |cache| ==> cache[i].host != cache[j].host)
  }

  lemma RememberKeepsOk(cache: seq<CachedFrame>, hostCount: nat, host: nat, digest: U64)
    requires CacheOk(cache, hostCount) && host < hostCount
    ensures CacheOk(Remember(cache, host, digest), hostCount)
  {
  }

  lemma FindIs(cache: seq<CachedFrame>, host: nat, at: nat)
    requires at <= |cache|
    requires at < |cache| ==> cache[at].host == host
    requires forall k :: 0 <= k < at ==> cache[k].host != host
    ensures Find(cache, host) == at
  {
    hide Find;
  }

  /** A remembered digest answers for its host, and nobody else's answer moves. */
  lemma RememberAnswers(cache: seq<CachedFrame>, host: nat, digest: U64, other: nat, d: U64)
    ensures Holds(Remember(cache, host, digest), other, d) <==>
            (if other == host then d == digest else Holds(cache, other, d))
  {
    hide Find;
    var after := Remember(cache, host, digest);
    var at := Find(cache, other);
    if other != host && at == |cache| {
      FindIs(after, other, |after|);
    } else {
      FindIs(after, other, at);
    }
  }

  // ---------------------------------------------------------------- costs and budgets

  /** Declared transfer estimate of a frame. */
  function Cost(frame: Frame): U64
  {
    SaturatingAdd(SaturatingMul(frame.shapes, BYTES_PER_SHAPE), if frame.filtered then BYTES_PER_FILTER else 0)
  }

  /** The saturating totals the budget check compares, in the order the loop adds them. */
  function ShapeTotal(renders: seq<Render>): U64
  {
    if renders == [] then 0
    else SaturatingAdd(ShapeTotal(renders[..|renders| - 1]), renders[|renders| - 1].frame.shapes)
  }

  function ByteTotal(renders: seq<Render>): U64
  {
    if renders == [] then 0
    else SaturatingAdd(ByteTotal(renders[..|renders| - 1]), Cost(renders[|renders| - 1].frame))
  }

  /** Exact sums, which never saturate. */
  function Shapes(renders: seq<Render>): nat
  {
    if renders == [] then 0 else Shapes(renders[..|renders| - 1]) + renders[|renders| - 1].frame.shapes
  }

  function Bytes(renders: seq<Render>): nat
  {
    if renders == [] then 0 else Bytes(renders[..|renders| - 1]) + Cost(renders[|renders| - 1].frame)
  }

  lemma {:induction false} TotalsSaturateOnce(renders: seq<Render>)
    ensures ShapeTotal(renders) == Min(Shapes(renders), U64_MAX)
    ensures ByteTotal(renders) == Min(Bytes(renders), U64_MAX)
  {
    hide Cost;
    if renders != [] {
      TotalsSaturateOnce(renders[..|renders| - 1]);
    }
  }

  lemma {:induction false} BytesConcat(a: seq<Render>, b: seq<Render>)
    ensures Bytes(a + b) == Bytes(a) + Bytes(b)
  {
    hide Cost;
    if b == [] {
      assert a + b == a;
    } else {
      BytesConcat(a, b[..|b| - 1]);
      assert (a + b)[..|a + b| - 1] == a + b[..|b| - 1];
    }
  }

  predicate WithinBudgets(budgets: Budgets, renders: seq<Render>)
  {
    && |renders| <= budgets.maxInFlight
    && ShapeTotal(renders) <= budgets.maxShapes
    && ByteTotal(renders) <= budgets.maxBytes
  }

  // ---------------------------------------------------------------- one call

  /** What admitting a batch in order produces: `kept` are the renders reused, not uploaded. */
  datatype Batch = Batch(cache: seq<CachedFrame>, receipts: seq<Receipt>, uploads: seq<Render>, kept: seq<Render>)

  function AdmitOne(batch: Batch, epoch: nat, render: Render): Batch
  {
    var Render(host, frame) := render;
    var reused := Holds(batch.cache, host, frame.digest);
    Batch(
      Remember(batch.cache, host, frame.digest),
      batch.receipts + [Receipt(host, frame.shapes, if reused then 0 else Cost(frame), epoch, frame.digest)],
      if reused then batch.uploads else batch.uploads + [render],
      if reused then batch.kept + [render] else batch.kept)
  }

  function AdmitAll(cache: seq<CachedFrame>, epoch: nat, renders: seq<Render>): Batch
  {
    if renders == [] then Batch(cache, [], [], [])
    else AdmitOne(AdmitAll(cache, epoch, renders[..|renders| - 1]), epoch, renders[|renders| - 1])
  }

  function Present(core: Core, outcome: Outcome): (Core, Result<Report>)
  {
    if core.state != Ready then (core, Err(DeviceUnavailable))
    else if outcome.Malformed? then (core, Err(Rejected))
    else if outcome.renders == [] then
      (core.(idleFrames := core.idleFrames + 1),
       Ok(Report([], [], true, core.epoch, core.uploadedBytes, core.reused)))
    else if !WithinBudgets(core.budgets, outcome.renders) then (core, Err(Backpressure))
    else
      var batch := AdmitAll(core.cache, core.epoch, outcome.renders);
      var after := core.(
        cache := batch.cache,
        framesPresented := core.framesPresented + 1,
        receipts := core.receipts + |batch.receipts|,
        reused := core.reused + |batch.kept|,
        uploadedBytes := SaturatingAdd(core.uploadedBytes, ByteTotal(batch.uploads)));
      (after, Ok(Report(batch.receipts, batch.uploads, false, core.epoch, after.uploadedBytes, after.reused)))
  }

  function AddHost(core: Core): (Core, Result<nat>)
  {
    if core.hostCount >= core.budgets.maxHosts then (core, Err(HostLimit))
    else (core.(hostCount := core.hostCount + 1), Ok(core.hostCount))
  }

  function Lose(core: Core): Core { core.(state := Lost, cache := []) }

  function Drain(core: Core): Core { if core.state == Ready then core.(state := Draining) else core }

  function Recover(core: Core): Core { core.(epoch := core.epoch + 1, cache := [], state := Ready) }

  // ---------------------------------------------------------------- the runtime itself

  class Runtime {
    const budgets: Budgets
    var state: DeviceState
    var epoch: nat
    var hostCount: nat
    var cache: seq<CachedFrame>
    var framesPresented: nat
    var idleFrames: nat
    var receiptsPresented: nat
    var reused: nat
    var uploadedBytes: U64

    function Contents(): Core
      reads this
    {
      Core(budgets, state, epoch, hostCount, cache, framesPresented, idleFrames, receiptsPresented, reused, uploadedBytes)
    }

    constructor (budgets: Budgets)
      ensures Contents() == NewCore(budgets)
    {
      this.budgets := budgets;
      state, epoch, hostCount, cache := Ready, 1, 0, [];
      framesPresented, idleFrames, receiptsPresented, reused, uploadedBytes := 0, 0, 0, 0, 0;
    }

    method RegisterHost() returns (id: Result<nat>)
      modifies this
      ensures (Contents(), id) == AddHost(old(Contents()))
    {
      if hostCount >= budgets.maxHosts {
        return Err(HostLimit);
      }
      hostCount := hostCount + 1;
      id := Ok(hostCount - 1);
    }

    method LoseDevice()
      modifies this
      ensures Contents() == Lose(old(Contents()))
    {
      state, cache := Lost, [];
    }

    method BeginDrain()
      modifies this
      ensures Contents() == Drain(old(Contents()))
    {
      if state == Ready {
        state := Draining;
      }
    }

    method RecoverDevice() returns (next: nat)
      modifies this
      ensures Contents() == Recover(old(Contents())) && next == epoch
    {
      epoch := epoch + 1;
      cache, state := [], Ready;
      next := epoch;
    }

    /** Produce one host's receipt, and say whether its frame was reused. */
    method Admit(render: Render) returns (receipt: Receipt, matched: bool)
      modifies this`cache, this`reused
      ensures matched == Holds(old(cache), render.host, render.frame.digest)
      ensures cache == Remember(old(cache), render.host, render.frame.digest)
      ensures reused == old(reused) + (if matched then 1 else 0)
      ensures receipt.host == render.host && receipt.shapes == render.frame.shapes
      ensures receipt.epoch == epoch && receipt.digest == render.frame.digest
      ensures receipt.uploadBytes == if matched then 0 else Cost(render.frame)
    {
      hide Find, Cost;
      var Render(host, frame) := render;
      var at := 0;
      while at < |cache| && cache[at].host != host
        invariant 0 <= at <= |cache|
        invariant forall k :: 0 <= k < at ==> cache[k].host != host
      {
        at := at + 1;
      }
      FindIs(cache, host, at);
      matched := at < |cache| && cache[at].digest == frame.digest;
      if at < |cache| {
        cache := cache[at := CachedFrame(host, frame.digest)];
      } else {
        cache := cache + [CachedFrame(host, frame.digest)];
      }
      if matched {
        reused := reused + 1;
      }
      receipt := Receipt(host, frame.shapes, if matched then 0 else Cost(frame), epoch, frame.digest);
    }

    /** Advance one frame and present it under the budgets. */
    method PresentFrame(outcome: Outcome) returns (result: Result<Report>)
      modifies this
      ensures (Contents(), result) == Present(old(Contents()), outcome)
    {
      hide Find, Remember, Holds, Cost, ShapeTotal, ByteTotal, AdmitOne, AdmitAll;
      if state != Ready {
        return Err(DeviceUnavailable);
      }
      if outcome.Malformed? {
        return Err(Rejected);
      }
      var renders := outcome.renders;
      if |renders| == 0 {
        idleFrames := idleFrames + 1;
        return Ok(Report([], [], true, epoch, uploadedBytes, reused));
      }
      if |renders| > budgets.maxInFlight {
        return Err(Backpressure);
      }
      var shapes, bytes := Totals(renders);
      if shapes > budgets.maxShapes || bytes > budgets.maxBytes {
        return Err(Backpressure);
      }
      var receipts, uploads := AdmitBatch(renders);
      framesPresented := framesPresented + 1;
      receiptsPresented := receiptsPresented + |receipts|;
      result := Ok(Report(receipts, uploads, false, epoch, uploadedBytes, reused));
    }

    /** The admission loop of `PresentFrame`. */
    method AdmitBatch(renders: seq<Render>) returns (receipts: seq<Receipt>, uploads: seq<Render>)
      requires WithinBudgets(budgets, renders)
      modifies this`cache, this`reused, this`uploadedBytes
      ensures var batch := AdmitAll(old(cache), epoch, renders);
        && cache == batch.cache && receipts == batch.receipts && uploads == batch.uploads
        && reused == old(reused) + |batch.kept|
        && uploadedBytes == SaturatingAdd(old(uploadedBytes), ByteTotal(batch.uploads))
    {
      hide Find, Remember, Holds, Cost, ShapeTotal;
      receipts, uploads := [], [];
      var frameBytes: U64 := 0;
      for i := 0 to |renders|
        invariant uploadedBytes == old(uploadedBytes)
        invariant cache == AdmitAll(old(cache), epoch, renders[..i]).cache
        invariant receipts == AdmitAll(old(cache), epoch, renders[..i]).receipts
        invariant uploads == AdmitAll(old(cache), epoch, renders[..i]).uploads
        invariant reused == old(reused) + |AdmitAll(old(cache), epoch, renders[..i]).kept|
        invariant frameBytes == ByteTotal(uploads)
      {
        assert renders[..i + 1][..i] == renders[..i];
        var receipt, matched := Admit(renders[i]);
        frameBytes := SaturatingAdd(frameBytes, receipt.uploadBytes);
        if !matched {
          assert (uploads + [renders[i]])[..|uploads|] == uploads;
          uploads := uploads + [renders[i]];
        }
        receipts := receipts + [receipt];
      }
      assert renders[..|renders|] == renders;
      uploadedBytes := SaturatingAdd(uploadedBytes, frameBytes);
    }
  }

  /** The budget-totals loop. */
  method Totals(renders: seq<Render>) returns (shapes: U64, bytes: U64)
    ensures shapes == ShapeTotal(renders) && bytes == ByteTotal(renders)
  {
    hide Cost;
    shapes, bytes := 0, 0;
    for i := 0 to |renders|
      invariant shapes == ShapeTotal(renders[..i]) && bytes == ByteTotal(renders[..i])
    {
      assert renders[..i + 1][..i] == renders[..i];
      shapes := SaturatingAdd(shapes, renders[i].frame.shapes);
      bytes := SaturatingAdd(bytes, Cost(renders[i].frame));
    }
    assert renders[..|renders|] == renders;
  }
}
