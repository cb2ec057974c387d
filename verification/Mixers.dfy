/**
 * The 64-bit mixers: the xorshift64* generator that seeds every simulated world, the splitmix
 * rounds a CPU body burns, and the multiplicative folds that identify a trace.
 */
module Mixers {
  import opened Words
  import opened BitWords

  // The generator

  /** A zero seed is remapped, since the transition is absorbing at zero. */
  function Seeded(seed: U64): U64
  {
    if seed == 0 then 0x9E37_79B9_7F4A_7C15 else seed
  }

  /** The state transition of the generator. */
  function Shuffle(x: U64): U64
  {
    XorShiftRight(XorShiftLeft(XorShiftRight(x, 12), 25), 27)
  }

  /** The word the generator reports for a shuffled state. */
  function Output(x: U64): U64 { WrappingMul(x, 0x2545_F491_4F6C_DD1D) }

  /** The state after `n` draws. */
  function StateAfter(seed: U64, n: nat): U64
  {
    if n == 0 then Seeded(seed) else Shuffle(StateAfter(seed, n - 1))
  }

  /** The `n`-th draw, counted from one. */
  function Draw(seed: U64, n: nat): U64 { Output(StateAfter(seed, n)) }

  /** The transition is a permutation of the 64-bit states. */
  lemma ShuffleInjective(x: U64, y: U64)
    requires Shuffle(x) == Shuffle(y)
    ensures x == y
  {
    hide XorShiftRight, XorShiftLeft;
    var a, b := XorShiftRight(x, 12), XorShiftRight(y, 12);
    XorShiftRightInjective(XorShiftLeft(a, 25), XorShiftLeft(b, 25), 27);
    XorShiftLeft25Injective(a, b);
    XorShiftRightInjective(x, y, 12);
  }

  lemma OutputInjective(x: U64, y: U64)
    requires Output(x) == Output(y)
    ensures x == y
  {
    WrappingMulInjective(x, y, 0x2545_F491_4F6C_DD1D, 0x5907_1D96_D81E_CD35);
  }

  lemma ShuffleZero()
    ensures Shuffle(0) == 0
  {
    hide XorShiftRight, XorShiftLeft;
    XorShiftsOfZero(12);
    XorShiftsOfZero(25);
    XorShiftsOfZero(27);
  }

  /** No seed gets stuck: the generator never reaches the absorbing state, so no draw is zero. */
  lemma {:induction false} NeverZero(seed: U64, n: nat)
    ensures StateAfter(seed, n) != 0 && Draw(seed, n) != 0
  {
    hide Shuffle;
    if n != 0 {
      NeverZero(seed, n - 1);
      ShuffleZero();
      if StateAfter(seed, n) == 0 {
        ShuffleInjective(StateAfter(seed, n - 1), 0);
      }
    }
    if Draw(seed, n) == 0 {
      OutputInjective(StateAfter(seed, n), 0);
    }
  }

  /** Two streams that agree at one position agree at the start, and so everywhere. */
  lemma {:induction false} StreamsNeverMerge(seed: U64, seed': U64, n: nat)
    requires Draw(seed, n) == Draw(seed', n)
    ensures Seeded(seed) == Seeded(seed')
  {
    hide Shuffle, Output;
    OutputInjective(StateAfter(seed, n), StateAfter(seed', n));
    if n != 0 {
      ShuffleInjective(StateAfter(seed, n - 1), StateAfter(seed', n - 1));
      StreamsNeverMerge(seed, seed', n - 1);
    }
  }

  /** The generator as the program holds it: one word of state, updated in place. */
  class Rng {
    var state: U64
    ghost var seed: U64
    ghost var drawn: nat

    ghost predicate Valid()
      reads this
    {
      state == StateAfter(seed, drawn)
    }

    constructor (seed: U64)
      ensures Valid() && this.seed == seed && drawn == 0
    {
      state := if seed == 0 then 0x9E37_79B9_7F4A_7C15 else seed;
      this.seed, drawn := seed, 0;
    }

    /** The next raw draw. */
    method NextU64() returns (draw: U64)
      requires Valid()
      modifies this
      ensures Valid() && seed == old(seed) && drawn == old(drawn) + 1
      ensures draw == Draw(seed, drawn)
    {
      hide XorShiftRight, XorShiftLeft, WrappingMul;
      var x := state;
      x := XorShiftRight(x, 12);
      x := XorShiftLeft(x, 25);
      x := XorShiftRight(x, 27);
      state := x;
      drawn := drawn + 1;
      draw := WrappingMul(x, 0x2545_F491_4F6C_DD1D);
    }
  }

  // The splitmix rounds

  function CpuRound(state: U64): U64
  {
    var z := XorShiftRight(WrappingAdd(state, 0x9E37_79B9_7F4A_7C15), 30);
    var y := XorShiftRight(WrappingMul(z, 0xBF58_476D_1CE4_E5B9), 27);
    XorShiftRight(WrappingMul(y, 0x94D0_49BB_1331_11EB), 31)
  }

  function CpuHash(seed: U64, rounds: nat): U64
  {
    if rounds == 0 then seed else CpuRound(CpuHash(seed, rounds - 1))
  }

  /** One CPU body's work. */
  method CpuHashRounds(seed: U64, rounds: nat) returns (state: U64)
    ensures state == CpuHash(seed, rounds)
  {
    hide XorShiftRight, WrappingMul, WrappingAdd;
    state := seed;
    for n := 0 to rounds
      invariant state == CpuHash(seed, n)
    {
      state := WrappingAdd(state, 0x9E37_79B9_7F4A_7C15);
      var z := state;
      z := WrappingMul(XorShiftRight(z, 30), 0xBF58_476D_1CE4_E5B9);
      z := WrappingMul(XorShiftRight(z, 27), 0x94D0_49BB_1331_11EB);
      state := XorShiftRight(z, 31);
    }
  }

  lemma CpuRoundInjective(s: U64, t: U64)
    requires CpuRound(s) == CpuRound(t)
    ensures s == t
  {
    hide XorShiftRight, WrappingMul;
    var a, a' := WrappingAdd(s, 0x9E37_79B9_7F4A_7C15), WrappingAdd(t, 0x9E37_79B9_7F4A_7C15);
    var z, z' := XorShiftRight(a, 30), XorShiftRight(a', 30);
    var w, w' := WrappingMul(z, 0xBF58_476D_1CE4_E5B9), WrappingMul(z', 0xBF58_476D_1CE4_E5B9);
    var y, y' := XorShiftRight(w, 27), XorShiftRight(w', 27);
    XorShiftRightInjective(WrappingMul(y, 0x94D0_49BB_1331_11EB), WrappingMul(y', 0x94D0_49BB_1331_11EB), 31);
    WrappingMulInjective(y, y', 0x94D0_49BB_1331_11EB, 0x3196_42B2_D24D_8EC3);
    XorShiftRightInjective(w, w', 27);
    WrappingMulInjective(z, z', 0xBF58_476D_1CE4_E5B9, 0x96DE_1B17_3F11_9089);
    XorShiftRightInjective(a, a', 30);
  }

  /** However many rounds a body burns, distinct seeds reach distinct states. */
  lemma {:induction false} CpuHashInjective(s: U64, t: U64, rounds: nat)
    requires CpuHash(s, rounds) == CpuHash(t, rounds)
    ensures s == t
  {
    hide CpuRound;
    if rounds != 0 {
      CpuRoundInjective(CpuHash(s, rounds - 1), CpuHash(t, rounds - 1));
      CpuHashInjective(s, t, rounds - 1);
    }
  }

  // The trace folds

  /** Fold one word into a trace hash. */
  function FoldHash(state: U64, word: U64): U64 { WrappingMul(XorWord(state, word), 0x0000_0100_0000_01B3) }

  function FoldAll(state: U64, words: seq<U64>): U64
  {
    if words == [] then state else FoldHash(FoldAll(state, words[..|words| - 1]), words[|words| - 1])
  }

  lemma {:induction false} FoldAllConcat(state: U64, a: seq<U64>, b: seq<U64>)
    ensures FoldAll(state, a + b) == FoldAll(FoldAll(state, a), b)
  {
    if b == [] {
      assert a + b == a;
    } else {
      assert (a + b)[..|a + b| - 1] == a + b[..|b| - 1];
      FoldAllConcat(state, a, b[..|b| - 1]);
    }
  }

  /** Equal folds: the states agree exactly when the words do. */
  lemma FoldHashInjective(s: U64, t: U64, v: U64, w: U64)
    requires FoldHash(s, v) == FoldHash(t, w)
    ensures s == t <==> v == w
  {
    WrappingMulInjective(XorWord(s, v), XorWord(t, w), 0x0000_0100_0000_01B3, 0xCE96_5057_AFF6_957B);
    XorExchange(s, v, t, w);
    XorEqualIffZero(s, t);
    XorEqualIffZero(v, w);
  }

  /** Two event traces that differ in exactly one word never share a hash. */
  lemma {:induction false} OneWordChangesTheHash(state: U64, a: seq<U64>, b: seq<U64>, k: nat)
    requires |a| == |b| && k < |a| && a[k] != b[k]
    requires forall i :: 0 <= i < |a| && i != k ==> a[i] == b[i]
    ensures FoldAll(state, a) != FoldAll(state, b)
  {
    hide FoldHash;
    var last := |a| - 1;
    if FoldAll(state, a) == FoldAll(state, b) {
      FoldHashInjective(FoldAll(state, a[..last]), FoldAll(state, b[..last]), a[last], b[last]);
    }
    if k == last {
      assert a[..last] == b[..last];
    } else {
      OneWordChangesTheHash(state, a[..last], b[..last], k);
    }
  }

  /** The one word that makes `t` fold to what `s` and `v` fold to. */
  function Collider(s: U64, v: U64, t: U64): U64 { XorWord(t, XorWord(s, v)) }

  lemma XorCancels(a: U64, b: U64)
    ensures XorWord(a, XorWord(a, b)) == b
  {
    hide Xor;
    var c := XorWord(a, b);
    XorWithZero(c);
    XorWithZero(b);
    XorEqualIffZero(a, a);
    XorExchange(a, b, c, 0);
    XorExchange(a, c, b, 0);
  }

  lemma {:induction false} XorWithZero(a: nat)
    ensures Xor(a, 0) == a
  {
    if a != 0 {
      XorWithZero(a / 2);
    }
  }

  /** Exactly when two folds collide: for any two states and any word, exactly one word of the other does it. */
  lemma FoldCollidesIff(s: U64, v: U64, t: U64, w: U64)
    ensures FoldHash(s, v) == FoldHash(t, w) <==> w == Collider(s, v, t)
  {
    hide Xor, XorWord, WrappingMul;
    var a := XorWord(s, v);
    XorCancels(t, w);
    XorCancels(t, a);
    if FoldHash(s, v) == FoldHash(t, w) {
      WrappingMulInjective(a, XorWord(t, w), 0x0000_0100_0000_01B3, 0xCE96_5057_AFF6_957B);
    }
  }

  /**
   * So traces do collide: for any two traces and any last word of the first there is exactly one last
   * word of the second that gives both the same hash, and it is a different word whenever the hashes
   * before it differ, as they do for equal-length traces that differ in one word.
   */
  lemma LastWordCollidesIff(state: U64, a: seq<U64>, b: seq<U64>, v: U64, w: U64)
    ensures FoldAll(state, a + [v]) == FoldAll(state, b + [w]) <==> w == Collider(FoldAll(state, a), v, FoldAll(state, b))
    ensures FoldAll(state, a) != FoldAll(state, b) ==> Collider(FoldAll(state, a), v, FoldAll(state, b)) != v
  {
    hide FoldHash, Collider;
    assert (a + [v])[..|a|] == a && (b + [w])[..|b|] == b;
    var s, t := FoldAll(state, a), FoldAll(state, b);
    FoldCollidesIff(s, v, t, w);
    FoldCollidesIff(s, v, t, v);
    if Collider(s, v, t) == v {
      FoldHashInjective(s, t, v, v);
    }
  }

  /** In particular equal-length traces whose next-to-last words differ share a hash for exactly one last word. */
  lemma NextToLastWordCollides(state: U64, prefix: seq<U64>, x: U64, y: U64, v: U64)
    requires x != y
    ensures exists w: U64 :: w != v && FoldAll(state, prefix + [x] + [v]) == FoldAll(state, prefix + [y] + [w])
    ensures forall w, w': U64 ::
              (FoldAll(state, prefix + [y] + [w]) == FoldAll(state, prefix + [x] + [v]) == FoldAll(state, prefix + [y] + [w']))
              ==> w == w'
  {
    hide FoldHash, FoldAll, Collider;
    var a, b := prefix + [x], prefix + [y];
    OneWordChangesTheHash(state, a, b, |prefix|);
    var w0 := Collider(FoldAll(state, a), v, FoldAll(state, b));
    LastWordCollidesIff(state, a, b, v, w0);
    forall w: U64 ensures FoldAll(state, a + [v]) == FoldAll(state, b + [w]) ==> w == w0 {
      LastWordCollidesIff(state, a, b, v, w);
    }
  }

  /** Fold one raw sample into the trace hash of a sample set. */
  function FoldSample(state: U64, sample: U64): U64
  {
    WrappingAdd(WrappingMul(state, 0x0000_0100_0000_01B3), sample)
  }

  function SampleHash(raw: seq<U64>): U64
  {
    if raw == [] then 0xCBF2_9CE4_8422_2325
    else FoldSample(SampleHash(raw[..|raw| - 1]), raw[|raw| - 1])
  }

  method TraceHashOf(raw: seq<U64>) returns (hash: U64)
    ensures hash == SampleHash(raw)
  {
    hide WrappingMul, WrappingAdd;
    hash := 0xCBF2_9CE4_8422_2325;
    for i := 0 to |raw|
      invariant hash == SampleHash(raw[..i])
    {
      assert raw[..i + 1][..i] == raw[..i];
      hash := WrappingAdd(WrappingMul(hash, 0x0000_0100_0000_01B3), raw[i]);
    }
    assert raw[..|raw|] == raw;
  }

  lemma WrappingAddInjective(a: U64, b: U64, c: U64, d: U64)
    requires WrappingAdd(a, b) == WrappingAdd(c, d)
    ensures a == c <==> b == d
  {
  }

  lemma FoldSampleInjective(s: U64, t: U64, v: U64, w: U64)
    requires FoldSample(s, v) == FoldSample(t, w)
    ensures s == t <==> v == w
  {
    hide WrappingMul, WrappingAdd;
    WrappingAddInjective(WrappingMul(s, 0x0000_0100_0000_01B3), v, WrappingMul(t, 0x0000_0100_0000_01B3), w);
    if v == w {
      WrappingMulInjective(s, t, 0x0000_0100_0000_01B3, 0xCE96_5057_AFF6_957B);
    }
  }

  /** Two runs whose raw samples differ in exactly one place never share a trace hash. */
  lemma {:induction false} OneSampleChangesTheTrace(a: seq<U64>, b: seq<U64>, k: nat)
    requires |a| == |b| && k < |a| && a[k] != b[k]
    requires forall i :: 0 <= i < |a| && i != k ==> a[i] == b[i]
    ensures SampleHash(a) != SampleHash(b)
  {
    hide FoldSample;
    var last := |a| - 1;
    if SampleHash(a) == SampleHash(b) {
      FoldSampleInjective(SampleHash(a[..last]), SampleHash(b[..last]), a[last], b[last]);
    }
    if k == last {
      assert a[..last] == b[..last];
    } else {
      OneSampleChangesTheTrace(a[..last], b[..last], k);
    }
  }
}
