/**
 * When two simulated worlds share a trace hash. For any two worlds it is decided by the one word each
 * trace ends with; and two seeds of one small world, with different schedules, do share a hash.
 */
module TraceCollisions {
  import opened Words
  import opened Buckets
  import opened BitWords
  import opened HexWords
  import opened Mixers
  import opened Simulation
  import opened Queueing

  // ---------------------------------------------------------------- any two worlds

  lemma FoldLast(state: U64, words: seq<U64>, last: U64)
    ensures FoldAll(state, words + [last]) == FoldHash(FoldAll(state, words), last)
  {
    hide FoldHash;
    assert (words + [last])[..|words|] == words;
  }

  /** The words an event folds before its last. */
  function FirstWords(e: Event): seq<U64>
  {
    if e.Ran? then [e.index, e.intended, e.start] else [e.index]
  }

  /** The last word an event folds: the instant its body ended, or the marker of a refusal. */
  function LastWord(e: Event): U64 { if e.Ran? then e.end else REFUSED_MARKER }

  /** The hash up to, but not including, the last word of the event. */
  function HashBefore(events: seq<Event>, e: Event): U64 { FoldAll(TraceHash(events), FirstWords(e)) }

  lemma HashOfLast(events: seq<Event>, e: Event)
    ensures TraceHash(events + [e]) == FoldHash(HashBefore(events, e), LastWord(e))
  {
    hide FoldHash, TraceHash, FoldAll;
    ReportOneMore(events, e);
    FoldLast(TraceHash(events), FirstWords(e), LastWord(e));
    assert FirstWords(e) + [LastWord(e)] == EventWords(e);
  }

  /**
   * Two worlds, whatever their specifications and seeds, share a trace hash if and only if the second
   * ends on the one word that the rest of the two traces determines.
   */
  lemma WorldsCollideIff(a: SimSpec, b: SimSpec, m: nat, n: nat)
    requires a.SpanFits() && b.SpanFits() && m < a.arrivals && n < b.arrivals
    ensures var first, second := HashBefore(After(a, m).events, Arrival(a, m)), HashBefore(After(b, n).events, Arrival(b, n));
      TraceHash(After(a, m + 1).events) == TraceHash(After(b, n + 1).events)
      <==> LastWord(Arrival(b, n)) == Collider(first, LastWord(Arrival(a, m)), second)
  {
    hide After, Arrival, TraceHash, FoldHash, HashBefore, LastWord, Collider;
    EventsGrow(a, m);
    EventsGrow(b, n);
    HashOfLast(After(a, m).events, Arrival(a, m));
    HashOfLast(After(b, n).events, Arrival(b, n));
    FoldCollidesIff(HashBefore(After(a, m).events, Arrival(a, m)), LastWord(Arrival(a, m)),
                    HashBefore(After(b, n).events, Arrival(b, n)), LastWord(Arrival(b, n)));
  }

  // ---------------------------------------------------------------- evaluating words

  lemma {:induction false} ShiftRightDivides(x: nat, k: nat)
    ensures ShiftRight(x, k) == x / Pow2(k)
  {
    if k > 0 {
      ShiftRightDivides(x / 2, k - 1);
      HalfThenDivide(x, Pow2(k - 1));
    }
  }

  lemma HalfThenDivide(x: nat, p: nat)
    requires p > 0
    ensures x / 2 / p == x / (2 * p)
  {
    var q, r := x / 2 / p, x / 2 % p;
    assert x / 2 == q * p + r;
    DoubleProduct(p, q);
    DivisionUnique(x, 2 * p, q, 2 * r + x % 2);
  }

  lemma RightShiftIs(x: nat, k: nat, p: nat, q: nat, r: nat)
    requires Pow2(k) == p && r < p && x == q * p + r
    ensures ShiftRight(x, k) == q
  {
    hide Pow2, ShiftRight;
    ShiftRightDivides(x, k);
    DivisionUnique(x, p, q, r);
  }

  lemma ShiftPowers()
    ensures Pow2(12) == 0x1000 && Pow2(25) == 0x200_0000 && Pow2(27) == 0x800_0000
  {
    hide Pow2;
    Pow2Values();
    FourthPowers();
    Pow2Add(4, 8);
    Pow2Add(9, 16);
    Pow2Add(12, 15);
  }

  lemma FourthPowers()
    ensures Pow2(4) == 0x10 && Pow2(15) == 0x8000 && Pow2(16) == 0x1_0000
  {
    Pow2Values();
    assert Pow2(2) == 4 && Pow2(3) == 8;
    Pow2Add(8, 4);
    Pow2Add(12, 3);
    Pow2Add(8, 8);
  }

  /** One transition of the generator from its three exclusive ors and its three shifts, each with what it drops. */
  lemma ShuffleIs(x: U64, a: U64, b: U64, c: U64, right: nat, low: nat, left: U64, lost: nat, right': nat, low': nat)
    requires x == right * 0x1000 + low && low < 0x1000 && Xor(x, right) == a
    requires a * 0x200_0000 == lost * WORDS + left && Xor(a, left) == b
    requires b == right' * 0x800_0000 + low' && low' < 0x800_0000 && Xor(b, right') == c
    ensures Shuffle(x) == c
  {
    hide Xor, ShiftRight, ShiftLeft, Pow2;
    ShiftPowers();
    RightShiftIs(x, 12, 0x1000, right, low);
    ShiftLeftMultiplies(a, 25);
    DivisionUnique(a * 0x200_0000, WORDS, lost, left);
    RightShiftIs(b, 27, 0x800_0000, right', low');
  }

  /** One fold from its exclusive or and its wrapped product. */
  lemma FoldIs(h: U64, w: U64, x: U64, lost: nat, r: U64)
    requires Xor(h, w) == x && x * 0x100_0000_01B3 == lost * WORDS + r
    ensures FoldHash(h, w) == r
  {
    hide Xor;
    DivisionUnique(x * 0x100_0000_01B3, WORDS, lost, r);
  }

  lemma XorOne(h: nat)
    ensures Xor(h, 1) == if h % 2 == 0 then h + 1 else h - 1
  {
    hide Xor;
    XorHalves(h, 1);
    XorWithZero(h / 2);
  }

  /** A fold of zero or one from its wrapped product. */
  lemma FoldsBit(h: U64, w: U64, lost: nat, r: U64)
    requires w <= 1 && (if w == 0 then h else if h % 2 == 0 then h + 1 else h - 1) * 0x100_0000_01B3 == lost * WORDS + r
    ensures FoldHash(h, w) == r
  {
    hide Xor, FoldHash;
    XorWithZero(h);
    XorOne(h);
    FoldIs(h, w, if w == 0 then h else if h % 2 == 0 then h + 1 else h - 1, lost, r);
  }

  // ---------------------------------------------------------------- two seeds of one world

  /** One arrival, at half a billion a second, with jitter and a body of almost any length. */
  function OneBody(seed: U64): SimSpec
  {
    SimSpec(500_000_000, 1, 1, 0, 0xFFFF_FFFF_FFFF_FFFE, true, false, seed)
  }

  const SEED: U64 := 6
  const OTHER: U64 := 0x5B33_6166_FB87_BF1A

  lemma OutputIs(x: U64, lost: nat, r: U64)
    requires x * 0x2545_F491_4F6C_DD1D == lost * WORDS + r
    ensures Output(x) == r
  {
    DivisionUnique(x * 0x2545_F491_4F6C_DD1D, WORDS, lost, r);
  }

  lemma SeedShufflesOnce()
    ensures Shuffle(SEED) == 0xC00_0007
  {
    hide Xor, Shuffle, Digit.Value;
    DigitValues();
    XorIs(6, 0, 6,
          Hex(Quad(H0, H0, H0, H0), Quad(H0, H0, H0, H0), Quad(H0, H0, H0, H0), Quad(H0, H0, H0, H6)),
          Hex(Quad(H0, H0, H0, H0), Quad(H0, H0, H0, H0), Quad(H0, H0, H0, H0), Quad(H0, H0, H0, H0)),
          Hex(Quad(H0, H0, H0, H0), Quad(H0, H0, H0, H0), Quad(H0, H0, H0, H0), Quad(H0, H0, H0, H6)));
    XorIs(6, 0xC00_0000, 0xC00_0006,
          Hex(Quad(H0, H0, H0, H0), Quad(H0, H0, H0, H0), Quad(H0, H0, H0, H0), Quad(H0, H0, H0, H6)),
          Hex(Quad(H0, H0, H0, H0), Quad(H0, H0, H0, H0), Quad(H0, HC, H0, H0), Quad(H0, H0, H0, H0)),
          Hex(Quad(H0, H0, H0, H0), Quad(H0, H0, H0, H0), Quad(H0, HC, H0, H0), Quad(H0, H0, H0, H6)));
    XorIs(0xC00_0006, 1, 0xC00_0007,
          Hex(Quad(H0, H0, H0, H0), Quad(H0, H0, H0, H0), Quad(H0, HC, H0, H0), Quad(H0, H0, H0, H6)),
          Hex(Quad(H0, H0, H0, H0), Quad(H0, H0, H0, H0), Quad(H0, H0, H0, H0), Quad(H0, H0, H0, H1)),
          Hex(Quad(H0, H0, H0, H0), Quad(H0, H0, H0, H0), Quad(H0, HC, H0, H0), Quad(H0, H0, H0, H7)));
    ShuffleIs(6, 6, 0xC00_0006, 0xC00_0007,
              0, 6, 0xC00_0000, 0, 1, 0x400_0006);
  }

  lemma SeedShufflesTwice()
    ensures Shuffle(0xC00_0007) == 0x18_0180_0100_F007
  {
    hide Xor, Shuffle, Digit.Value;
    DigitValues();
    XorIs(0xC00_0007, 0xC000, 0xC00_C007,
          Hex(Quad(H0, H0, H0, H0), Quad(H0, H0, H0, H0), Quad(H0, HC, H0, H0), Quad(H0, H0, H0, H7)),
          Hex(Quad(H0, H0, H0, H0), Quad(H0, H0, H0, H0), Quad(H0, H0, H0, H0), Quad(HC, H0, H0, H0)),
          Hex(Quad(H0, H0, H0, H0), Quad(H0, H0, H0, H0), Quad(H0, HC, H0, H0), Quad(HC, H0, H0, H7)));
    XorIs(0xC00_C007, 0x18_0180_0E00_0000, 0x18_0180_0200_C007,
          Hex(Quad(H0, H0, H0, H0), Quad(H0, H0, H0, H0), Quad(H0, HC, H0, H0), Quad(HC, H0, H0, H7)),
          Hex(Quad(H0, H0, H1, H8), Quad(H0, H1, H8, H0), Quad(H0, HE, H0, H0), Quad(H0, H0, H0, H0)),
          Hex(Quad(H0, H0, H1, H8), Quad(H0, H1, H8, H0), Quad(H0, H2, H0, H0), Quad(HC, H0, H0, H7)));
    XorIs(0x18_0180_0200_C007, 0x300_3000, 0x18_0180_0100_F007,
          Hex(Quad(H0, H0, H1, H8), Quad(H0, H1, H8, H0), Quad(H0, H2, H0, H0), Quad(HC, H0, H0, H7)),
          Hex(Quad(H0, H0, H0, H0), Quad(H0, H0, H0, H0), Quad(H0, H3, H0, H0), Quad(H3, H0, H0, H0)),
          Hex(Quad(H0, H0, H1, H8), Quad(H0, H1, H8, H0), Quad(H0, H1, H0, H0), Quad(HF, H0, H0, H7)));
    ShuffleIs(0xC00_0007, 0xC00_C007, 0x18_0180_0200_C007, 0x18_0180_0100_F007,
              0xC000, 7, 0x18_0180_0E00_0000, 0, 0x300_3000, 0x200_C007);
  }

  lemma DrawsOfSeed()
    ensures Draw(SEED, 1) == 0xD4A2_CA56_87FA_0BCB && Draw(SEED, 2) == 0x985_02CC_5845_3BCB
  {
    hide Shuffle, Output;
    SeedShufflesOnce();
    SeedShufflesTwice();
    assert StateAfter(SEED, 0) == SEED;
    assert StateAfter(SEED, 1) == Shuffle(StateAfter(SEED, 0));
    assert StateAfter(SEED, 2) == Shuffle(StateAfter(SEED, 1));
    OutputIs(0xC00_0007, 0x1BF_4777, 0xD4A2_CA56_87FA_0BCB);
    OutputIs(0x18_0180_0100_F007, 0x3_7EC6_D6B3_B513, 0x985_02CC_5845_3BCB);
  }

  lemma OtherShufflesOnce()
    ensures Shuffle(OTHER) == 0xFAED_0241_7248_4CA4
  {
    hide Xor, Shuffle, Digit.Value;
    DigitValues();
    XorIs(0x5B33_6166_FB87_BF1A, 0x5_B336_166F_B87B, 0x5B36_D250_EDE8_0761,
          Hex(Quad(H5, HB, H3, H3), Quad(H6, H1, H6, H6), Quad(HF, HB, H8, H7), Quad(HB, HF, H1, HA)),
          Hex(Quad(H0, H0, H0, H5), Quad(HB, H3, H3, H6), Quad(H1, H6, H6, HF), Quad(HB, H8, H7, HB)),
          Hex(Quad(H5, HB, H3, H6), Quad(HD, H2, H5, H0), Quad(HE, HD, HE, H8), Quad(H0, H7, H6, H1)));
    XorIs(0x5B36_D250_EDE8_0761, 0xA1DB_D00E_C200_0000, 0xFAED_025E_2FE8_0761,
          Hex(Quad(H5, HB, H3, H6), Quad(HD, H2, H5, H0), Quad(HE, HD, HE, H8), Quad(H0, H7, H6, H1)),
          Hex(Quad(HA, H1, HD, HB), Quad(HD, H0, H0, HE), Quad(HC, H2, H0, H0), Quad(H0, H0, H0, H0)),
          Hex(Quad(HF, HA, HE, HD), Quad(H0, H2, H5, HE), Quad(H2, HF, HE, H8), Quad(H0, H7, H6, H1)));
    XorIs(0xFAED_025E_2FE8_0761, 0x1F_5DA0_4BC5, 0xFAED_0241_7248_4CA4,
          Hex(Quad(HF, HA, HE, HD), Quad(H0, H2, H5, HE), Quad(H2, HF, HE, H8), Quad(H0, H7, H6, H1)),
          Hex(Quad(H0, H0, H0, H0), Quad(H0, H0, H1, HF), Quad(H5, HD, HA, H0), Quad(H4, HB, HC, H5)),
          Hex(Quad(HF, HA, HE, HD), Quad(H0, H2, H4, H1), Quad(H7, H2, H4, H8), Quad(H4, HC, HA, H4)));
    ShuffleIs(0x5B33_6166_FB87_BF1A, 0x5B36_D250_EDE8_0761, 0xFAED_025E_2FE8_0761, 0xFAED_0241_7248_4CA4,
              0x5_B336_166F_B87B, 0xF1A, 0xA1DB_D00E_C200_0000, 0xB6_6DA4, 0x1F_5DA0_4BC5, 0x7E8_0761);
  }

  lemma OtherShufflesTwice()
    ensures Shuffle(0xFAED_0241_7248_4CA4) == 0xD84E_125A_1F9D_2002
  {
    hide Xor, Shuffle, Digit.Value;
    DigitValues();
    XorIs(0xFAED_0241_7248_4CA4, 0xF_AED0_2417_2484, 0xFAE2_AC91_565F_6820,
          Hex(Quad(HF, HA, HE, HD), Quad(H0, H2, H4, H1), Quad(H7, H2, H4, H8), Quad(H4, HC, HA, H4)),
          Hex(Quad(H0, H0, H0, HF), Quad(HA, HE, HD, H0), Quad(H2, H4, H1, H7), Quad(H2, H4, H8, H4)),
          Hex(Quad(HF, HA, HE, H2), Quad(HA, HC, H9, H1), Quad(H5, H6, H5, HF), Quad(H6, H8, H2, H0)));
    XorIs(0xFAE2_AC91_565F_6820, 0x22AC_BED0_4000_0000, 0xD84E_1241_165F_6820,
          Hex(Quad(HF, HA, HE, H2), Quad(HA, HC, H9, H1), Quad(H5, H6, H5, HF), Quad(H6, H8, H2, H0)),
          Hex(Quad(H2, H2, HA, HC), Quad(HB, HE, HD, H0), Quad(H4, H0, H0, H0), Quad(H0, H0, H0, H0)),
          Hex(Quad(HD, H8, H4, HE), Quad(H1, H2, H4, H1), Quad(H1, H6, H5, HF), Quad(H6, H8, H2, H0)));
    XorIs(0xD84E_1241_165F_6820, 0x1B_09C2_4822, 0xD84E_125A_1F9D_2002,
          Hex(Quad(HD, H8, H4, HE), Quad(H1, H2, H4, H1), Quad(H1, H6, H5, HF), Quad(H6, H8, H2, H0)),
          Hex(Quad(H0, H0, H0, H0), Quad(H0, H0, H1, HB), Quad(H0, H9, HC, H2), Quad(H4, H8, H2, H2)),
          Hex(Quad(HD, H8, H4, HE), Quad(H1, H2, H5, HA), Quad(H1, HF, H9, HD), Quad(H2, H0, H0, H2)));
    ShuffleIs(0xFAED_0241_7248_4CA4, 0xFAE2_AC91_565F_6820, 0xD84E_1241_165F_6820, 0xD84E_125A_1F9D_2002,
              0xF_AED0_2417_2484, 0xCA4, 0x22AC_BED0_4000_0000, 0x1F5_C559, 0x1B_09C2_4822, 0x65F_6820);
  }

  lemma DrawsOfOther()
    ensures Draw(OTHER, 1) == 0x2DE0_001D_4D8A_4294 && Draw(OTHER, 2) == 0x981_BDCC_5846_5A3A
  {
    hide Shuffle, Output;
    OtherShufflesOnce();
    OtherShufflesTwice();
    assert StateAfter(OTHER, 0) == OTHER;
    assert StateAfter(OTHER, 1) == Shuffle(StateAfter(OTHER, 0));
    assert StateAfter(OTHER, 2) == Shuffle(StateAfter(OTHER, 1));
    OutputIs(0xFAED_0241_7248_4CA4, 0x2488_D2ED_6566_C0F9, 0x2DE0_001D_4D8A_4294);
    OutputIs(0xD84E_125A_1F9D_2002, 0x1F7E_6457_29AE_9995, 0x981_BDCC_5846_5A3A);
  }

  /** The one arrival of such a world, from the seed's first two draws. */
  lemma OnlyArrival(seed: U64)
    requires Draw(seed, 2) < 0xFFFF_FFFF_FFFF_FFFF - 1
    ensures var spec, jitter := OneBody(seed), Draw(seed, 1) % 2;
      && spec.SpanFits() && After(spec, 1).events == [Ran(0, jitter, Draw(seed, 2), jitter, jitter + Draw(seed, 2))]
  {
    hide Draw;
    var spec := OneBody(seed);
    assert spec.Period() == 2;
    assert After(spec, 0).freeAt == [0];
    assert spec.ServiceSpan() == 0xFFFF_FFFF_FFFF_FFFF;
    assert Earliest([0]) == 0;
  }

  lemma SeedLastFold()
    ensures FoldHash(0xD949_AD18_6C0C_4E41, 0x985_02CC_5845_3BCC) == 0x1544_5294_D8D2_BE97
  {
    hide Xor, FoldHash, Digit.Value;
    DigitValues();
    XorIs(0xD949_AD18_6C0C_4E41, 0x985_02CC_5845_3BCC, 0xD0CC_AFD4_3449_758D,
          Hex(Quad(HD, H9, H4, H9), Quad(HA, HD, H1, H8), Quad(H6, HC, H0, HC), Quad(H4, HE, H4, H1)),
          Hex(Quad(H0, H9, H8, H5), Quad(H0, H2, HC, HC), Quad(H5, H8, H4, H5), Quad(H3, HB, HC, HC)),
          Hex(Quad(HD, H0, HC, HC), Quad(HA, HF, HD, H4), Quad(H3, H4, H4, H9), Quad(H7, H5, H8, HD)));
    FoldIs(0xD949_AD18_6C0C_4E41, 0x985_02CC_5845_3BCC, 0xD0CC_AFD4_3449_758D, 0xD0_CCAF_D597, 0x1544_5294_D8D2_BE97);
  }

  lemma HashOfSeed()
    ensures TraceHash([Ran(0, 1, 0x985_02CC_5845_3BCB, 1, 0x985_02CC_5845_3BCC)]) == 0x1544_5294_D8D2_BE97
  {
    hide FoldHash, TraceHash;
    FoldsBit(0xCBF2_9CE4_8422_2325, 0, 0xCB_F29C_E5DE, 0xAF63_BD4C_8601_B7DF);
    FoldsBit(0xAF63_BD4C_8601_B7DF, 1, 0xAF_63BD_4DB0, 0x832_8707_B4EB_6E3A);
    FoldsBit(0x832_8707_B4EB_6E3A, 1, 0x8_3287_07C2, 0xD949_AD18_6C0C_4E41);
    SeedLastFold();
    HashOfOne(Ran(0, 1, 0x985_02CC_5845_3BCB, 1, 0x985_02CC_5845_3BCC));
  }

  lemma OtherLastFold()
    ensures FoldHash(0xD94D_1218_6C0F_2FB7, 0x981_BDCC_5846_5A3A) == 0x1544_5294_D8D2_BE97
  {
    hide Xor, FoldHash, Digit.Value;
    DigitValues();
    XorIs(0xD94D_1218_6C0F_2FB7, 0x981_BDCC_5846_5A3A, 0xD0CC_AFD4_3449_758D,
          Hex(Quad(HD, H9, H4, HD), Quad(H1, H2, H1, H8), Quad(H6, HC, H0, HF), Quad(H2, HF, HB, H7)),
          Hex(Quad(H0, H9, H8, H1), Quad(HB, HD, HC, HC), Quad(H5, H8, H4, H6), Quad(H5, HA, H3, HA)),
          Hex(Quad(HD, H0, HC, HC), Quad(HA, HF, HD, H4), Quad(H3, H4, H4, H9), Quad(H7, H5, H8, HD)));
    FoldIs(0xD94D_1218_6C0F_2FB7, 0x981_BDCC_5846_5A3A, 0xD0CC_AFD4_3449_758D, 0xD0_CCAF_D597, 0x1544_5294_D8D2_BE97);
  }

  lemma HashOfOther()
    ensures TraceHash([Ran(0, 0, 0x981_BDCC_5846_5A3A, 0, 0x981_BDCC_5846_5A3A)]) == 0x1544_5294_D8D2_BE97
  {
    hide FoldHash, TraceHash;
    FoldsBit(0xCBF2_9CE4_8422_2325, 0, 0xCB_F29C_E5DE, 0xAF63_BD4C_8601_B7DF);
    FoldsBit(0xAF63_BD4C_8601_B7DF, 0, 0xAF_63BD_4DB0, 0x832_8807_B4EB_6FED);
    FoldsBit(0x832_8807_B4EB_6FED, 0, 0x8_3288_07C2, 0xD94D_1218_6C0F_2FB7);
    OtherLastFold();
    HashOfOne(Ran(0, 0, 0x981_BDCC_5846_5A3A, 0, 0x981_BDCC_5846_5A3A));
  }

  lemma HashOfOne(e: Event)
    requires e.Ran?
    ensures TraceHash([e]) == FoldHash(FoldHash(FoldHash(FoldHash(0xCBF2_9CE4_8422_2325, e.index), e.intended), e.start), e.end)
  {
    hide FoldHash, FoldAll;
    assert [e][..0] == [];
    FoldWords(0xCBF2_9CE4_8422_2325, e.index, e.intended, e.start, e.end);
  }

  /** Two seeds of one world whose schedules differ in every instant, and whose trace hashes are equal. */
  lemma SeedsShareAHash()
    ensures var first, second := OneBody(SEED), OneBody(OTHER);
      && first.SpanFits() && second.SpanFits()
      && After(first, 1).events == [Ran(0, 1, 685957594921384907, 1, 685957594921384908)]
      && After(second, 1).events == [Ran(0, 0, 685037303689009722, 0, 685037303689009722)]
      && Trace(first).hash == Trace(second).hash == 0x1544_5294_D8D2_BE97
  {
    hide After, Draw, TraceHash;
    DrawsOfSeed();
    DrawsOfOther();
    OnlyArrival(SEED);
    OnlyArrival(OTHER);
    HashOfSeed();
    HashOfOther();
  }
}
