/** The multiply-with-carry generator: its states, and why every run can be followed backwards. */
module Random {
  import opened Bits
  import opened Bytes
  import opened Values

  const MULTIPLIER := 3636507990

  datatype State = State(v: uint32, c: uint32)

  /** The 64-bit product plus carry. */
  function Product(s: State): (r: nat) {
    (MULTIPLIER * s.v + s.c) % TWO_TO_THE_64
  }

  /** One step: the new value counts down from 2^32 - 2 by the low word, the new carry is the high word. */
  function Step(s: State): (t: State) {
    var r := Product(s);
    State((0xffff_fffe - r) % TWO_TO_THE_32, r / TWO_TO_THE_32)
  }

  class Generator {
    var v: uint32
    var c: uint32

    ghost function Current(): State
      reads this
    {
      State(v, c)
    }

    constructor (v0: uint32, c0: uint32)
      ensures Current() == State(v0, c0)
    {
      v, c := v0, c0;
    }

    /** random_next, in 64-bit arithmetic modulo 2^64 and with the mask as written. */
    method Next() returns (r: uint32)
      modifies this
      ensures Current() == Step(old(Current()))
      ensures r == v
    {
      hide And;
      var product := (MULTIPLIER * v + c) % TWO_TO_THE_64;
      LowWordOfWrapped(0xffff_fffe - product);
      var counted := (0xffff_ffff - 1 - product) % TWO_TO_THE_64;
      MaskLowWord(counted);
      v := And(counted, 0xffff_ffff);
      c := product / TWO_TO_THE_32;
      r := v;
    }

    /** random_seed for a 64-bit seed: neither word starts at zero, nor the carry at 2^32 - 2. */
    method Seed(val: uint64)
      modifies this
      ensures Current() == SeedState(val)
      ensures v != 0 && c != 0 && c != 0xffff_fffe
      ensures val < TWO_TO_THE_32 ==> InSpace(Current())
    {
      hide And, Or;
      SeedFits(val);
      SeedAvoids(val);
      SeededRunsStayInSpace(val, 0);
      v := Or(And(val, 0xffff_fffe), 0x100);
      c := Or(And(val / TWO_TO_THE_32, 0xfffe_ffff), 0x10_0000);
    }
  }

  lemma MaskLowWord(n: nat)
    ensures And(n, 0xffff_ffff) == n % TWO_TO_THE_32
  {
    hide And;
    PowerThirtyTwo();
    AndLowMask(n, n / TWO_TO_THE_32, n % TWO_TO_THE_32, 32);
  }

  lemma LowWordOfWrapped(n: int)
    ensures (n % TWO_TO_THE_64) % TWO_TO_THE_32 == n % TWO_TO_THE_32
  {
    var q := n / TWO_TO_THE_64;
    assert n % TWO_TO_THE_64 == n - q * TWO_TO_THE_64;
  }

  // ---- The state space -----------------------------------------------------------------------

  /** The states a run settles in. */
  predicate InSpace(s: State) {
    s.c < MULTIPLIER
  }

  /** The product plus carry never wraps in 64 bits. */
  lemma ProductDoesNotWrap(s: State)
    ensures Product(s) == MULTIPLIER * s.v + s.c
  {
  }

  /** A step ends in the space from every state but those with the largest value and an oversized carry. */
  lemma StepEntersSpace(s: State)
    ensures InSpace(Step(s)) <==> !(s.v == 0xffff_ffff && s.c >= MULTIPLIER)
  {
    ProductDoesNotWrap(s);
  }

  /** Undoing a step: rebuild the product from both words, then divide. */
  function Back(t: State): (s: State)
    requires InSpace(t)
  {
    var r := t.c * TWO_TO_THE_32 + (0xffff_fffe - t.v) % TWO_TO_THE_32;
    State(r / MULTIPLIER, r % MULTIPLIER)
  }

  lemma BackUndoesStep(s: State)
    requires InSpace(s)
    ensures InSpace(Step(s)) && Back(Step(s)) == s
  {
    ProductDoesNotWrap(s);
    StepEntersSpace(s);
    var r := MULTIPLIER * s.v + s.c;
    LowWordAgain(r);
    assert r / MULTIPLIER == s.v && r % MULTIPLIER == s.c;
  }

  lemma LowWordAgain(r: nat)
    ensures (0xffff_fffe - (0xffff_fffe - r) % TWO_TO_THE_32) % TWO_TO_THE_32 == r % TWO_TO_THE_32
  {
  }

  lemma WordsOf(high: nat, low: nat)
    requires low < TWO_TO_THE_32
    ensures (high * TWO_TO_THE_32 + low) / TWO_TO_THE_32 == high
    ensures (high * TWO_TO_THE_32 + low) % TWO_TO_THE_32 == low
  {
  }

  lemma CountedTwice(v: uint32)
    ensures (0xffff_fffe - (0xffff_fffe - v) % TWO_TO_THE_32) % TWO_TO_THE_32 == v
  {
  }

  lemma LowWordCounts(r: nat)
    ensures (0xffff_fffe - r) % TWO_TO_THE_32 == (0xffff_fffe - r % TWO_TO_THE_32) % TWO_TO_THE_32
  {
  }

  lemma StepUndoesBack(t: State)
    requires InSpace(t)
    ensures InSpace(Back(t)) && Step(Back(t)) == t
  {
    hide Product;
    var low := (0xffff_fffe - t.v) % TWO_TO_THE_32;
    var r := t.c * TWO_TO_THE_32 + low;
    ProductDoesNotWrap(Back(t));
    WordsOf(t.c, low);
    LowWordCounts(r);
    CountedTwice(t.v);
  }

  // ---- Runs -----------------------------------------------------------------------------------

  function Run(s: State, n: nat): (t: State) {
    if n == 0 then s else Step(Run(s, n - 1))
  }

  function RunBack(t: State, n: nat): (s: State)
    requires InSpace(t)
    ensures InSpace(s)
    decreases n
  {
    if n == 0 then t
    else
      StepUndoesBack(t);
      RunBack(Back(t), n - 1)
  }

  lemma {:induction false} RunStaysInSpace(s: State, n: nat)
    requires InSpace(s)
    ensures InSpace(Run(s, n))
  {
    hide Step, Back;
    if n > 0 {
      RunStaysInSpace(s, n - 1);
      BackUndoesStep(Run(s, n - 1));
    }
  }

  /** Every run in the space can be stepped backwards to where it started. */
  lemma {:induction false} RunsAreReversible(s: State, n: nat)
    requires InSpace(s)
    ensures InSpace(Run(s, n)) && RunBack(Run(s, n), n) == s
  {
    hide Step, Back;
    RunStaysInSpace(s, n);
    if n > 0 {
      RunStaysInSpace(s, n - 1);
      BackUndoesStep(Run(s, n - 1));
      RunsAreReversible(s, n - 1);
    }
  }

  /** A run never runs into a loop that does not contain its start: the first state seen twice is the first state. */
  lemma {:induction false} FirstRepeatIsTheStart(s: State, i: nat, j: nat)
    requires InSpace(s) && i <= j && Run(s, i) == Run(s, j)
    ensures Run(s, j - i) == s
    decreases i
  {
    hide Step, Back;
    if i > 0 {
      RunStaysInSpace(s, i - 1);
      RunStaysInSpace(s, j - 1);
      BackUndoesStep(Run(s, i - 1));
      BackUndoesStep(Run(s, j - 1));
      FirstRepeatIsTheStart(s, i - 1, j - 1);
    }
  }

  // ---- Runs that stand still -----------------------------------------------------------------------

  /** The two states that a step does not leave. */
  predicate IsStill(s: State) {
    s == State(0x76da_84bf, 0x64a1_d815) || s == State(0xffff_ffff, 3636507989)
  }

  lemma StillExactlyThere(s: State)
    ensures Step(s) == s <==> IsStill(s)
  {
    hide Product, Step;
    if Step(s) == s {
      var low := StepWords(s);
      if low < 0xffff_ffff { OnlyValue(s.v, s.c); }
    }
    StillStays();
  }

  lemma StillStays()
    ensures Step(State(0x76da_84bf, 0x64a1_d815)) == State(0x76da_84bf, 0x64a1_d815)
    ensures Step(State(0xffff_ffff, 3636507989)) == State(0xffff_ffff, 3636507989)
  {
  }

  /** The product split into the next carry and the word the next value counts down by. */
  lemma StepWords(s: State) returns (low: nat)
    ensures low < TWO_TO_THE_32 && 3636507990 * s.v + s.c == Step(s).c * TWO_TO_THE_32 + low
    ensures Step(s).v == if low < 0xffff_ffff then 0xffff_fffe - low else 0xffff_ffff
  {
    ProductDoesNotWrap(s);
    hide Product;
    var r := Product(s);
    low := r % TWO_TO_THE_32;
    LowWordCounts(r);
    CountDown(low);
  }

  lemma CountDown(low: nat)
    requires low < TWO_TO_THE_32
    ensures (0xffff_fffe - low) % TWO_TO_THE_32 == if low < 0xffff_ffff then 0xffff_fffe - low else 0xffff_ffff
  {
  }

  /** 3636507991 * v = -1 modulo 2^32 - 1 has one solution, as 2300934976 inverts the factor. */
  lemma OnlyValue(v: nat, c: nat)
    requires v < 0xffff_ffff && 3636507991 * v == (c + 1) * 0xffff_ffff - 1
    ensures v == 0x76da_84bf && c == 0x64a1_d815
  {
    var t := 2300934976 * (c + 1) - 1948179777 * v;
    assert v + 2300934976 == 0xffff_ffff * t;
  }

  lemma StillHasNoOtherPast(s: State)
    requires IsStill(Step(s))
    ensures IsStill(s)
  {
    hide Step;
    var low := StepWords(s);
  }

  /** A run that ever stands still has done so from its start. */
  lemma {:induction false} StillFromTheStart(s: State, n: nat)
    ensures IsStill(Run(s, n)) ==> IsStill(s)
  {
    hide Step;
    if n > 0 && IsStill(Run(s, n)) {
      StillHasNoOtherPast(Run(s, n - 1));
      StillFromTheStart(s, n - 1);
    }
  }

  /** No seed starts where a step does not leave, so no seeded run ever stands still. */
  lemma SeededRunsNeverStandStill(val: uint64, n: nat)
    ensures Run(SeedState(val), n + 1) != Run(SeedState(val), n)
  {
    hide Step, And, Or;
    SeedFits(val);
    StillExactlyThere(Run(SeedState(val), n));
    StillFromTheStart(SeedState(val), n);
  }

  // ---- Seeds ------------------------------------------------------------------------------------

  function SeedState(val: uint64): (s: State) {
    SeedFits(val);
    State(Or(And(val, 0xffff_fffe), 0x100), Or(And(val / TWO_TO_THE_32, 0xfffe_ffff), 0x10_0000))
  }

  lemma {:induction false} AndAtMost(a: nat, b: nat)
    ensures And(a, b) <= b
    decreases a + b
  {
    if a > 0 || b > 0 { AndAtMost(a / 2, b / 2); }
  }

  lemma {:induction false} OrBelowPower(a: nat, b: nat, k: nat)
    requires a < Pow2(k) && b < Pow2(k)
    ensures Or(a, b) < Pow2(k)
    decreases k
  {
    if k > 0 { OrBelowPower(a / 2, b / 2, k - 1); }
  }

  lemma SeedFits(val: uint64)
    ensures Or(And(val, 0xffff_fffe), 0x100) < TWO_TO_THE_32
    ensures Or(And(val, 0xffff_fffe), 0x100) % 2 == 0
    ensures Or(And(val / TWO_TO_THE_32, 0xfffe_ffff), 0x10_0000) < TWO_TO_THE_32
  {
    PowerThirtyTwo();
    EvenBits(val, 0xffff_fffe, 0x100);
    hide And, Or;
    AndAtMost(val, 0xffff_fffe);
    AndAtMost(val / TWO_TO_THE_32, 0xfffe_ffff);
    OrBelowPower(And(val, 0xffff_fffe), 0x100, 32);
    OrBelowPower(And(val / TWO_TO_THE_32, 0xfffe_ffff), 0x10_0000, 32);
  }

  lemma EvenBits(a: nat, m: nat, b: nat)
    requires m % 2 == 0 && b % 2 == 0
    ensures Or(And(a, m), b) % 2 == 0
  {
  }

  lemma {:induction false} AndOfZero(b: nat)
    ensures And(0, b) == 0
  {
    if b > 0 { AndOfZero(b / 2); }
  }

  /** A 32-bit seed starts in the space; any 64-bit seed is in it after one step and for ever after. */
  lemma SeededRunsStayInSpace(val: uint64, n: nat)
    ensures n > 0 || val < TWO_TO_THE_32 ==> InSpace(Run(SeedState(val), n))
  {
    hide And, Or, Step;
    var s := SeedState(val);
    SeedFits(val);
    if val < TWO_TO_THE_32 {
      AndOfZero(0xfffe_ffff);
      OrSymmetric(0, 0x10_0000);
      OrZero(0x10_0000);
      RunStaysInSpace(s, n);
    } else if n > 0 {
      StepEntersSpace(s);
      RunStaysInSpace(Step(s), n - 1);
      RunFromSecond(s, n - 1);
    }
  }

  lemma {:induction false} RunFromSecond(s: State, n: nat)
    ensures Run(Step(s), n) == Run(s, n + 1)
  {
    hide Step;
    if n > 0 { RunFromSecond(s, n - 1); }
  }

  // ---- What the forced bits of a seed prevent ----------------------------------------------------

  /** a shifted right by k bits. */
  function Shift(a: nat, k: nat): (r: nat) {
    if k == 0 then a else Shift(a / 2, k - 1)
  }

  lemma {:induction false} ShiftOfAnd(a: nat, b: nat, k: nat)
    ensures Shift(And(a, b), k) == And(Shift(a, k), Shift(b, k))
  {
    if k > 0 {
      HalfOfBits(a, b);
      ShiftOfAnd(a / 2, b / 2, k - 1);
    }
  }

  lemma {:induction false} ShiftOfOr(a: nat, b: nat, k: nat)
    ensures Shift(Or(a, b), k) == Or(Shift(a, k), Shift(b, k))
  {
    if k > 0 {
      HalfOfBits(a, b);
      ShiftOfOr(a / 2, b / 2, k - 1);
    }
  }

  lemma HalfOfBits(a: nat, b: nat)
    ensures And(a, b) / 2 == And(a / 2, b / 2) && Or(a, b) / 2 == Or(a / 2, b / 2)
  {
  }

  /** Setting bit k of a number. */
  lemma {:induction false} SetBit(a: nat, q: nat, b: nat, r: nat, k: nat)
    requires b < 2 && r < Pow2(k) && a == (2 * q + b) * Pow2(k) + r
    ensures Or(a, Pow2(k)) == (2 * q + 1) * Pow2(k) + r
    decreases k
  {
    if k == 0 {
      OrZero(q);
    } else {
      var p := Pow2(k - 1);
      assert (2 * q + b) * (2 * p) == 2 * ((2 * q + b) * p);
      assert (2 * q + 1) * (2 * p) == 2 * ((2 * q + 1) * p);
      SetBit(a / 2, q, b, r / 2, k - 1);
      OrWithEven(a, p);
    }
  }

  lemma OrWithEven(a: nat, p: nat)
    ensures Or(a, 2 * p) == 2 * Or(a / 2, p) + a % 2
  {
  }

  lemma EvenLowWord(low: nat)
    ensures low / 2 * 2 == (2 * (low / 512) + low / 256 % 2) * 256 + low % 256 / 2 * 2
    ensures low % 256 / 2 * 2 < 256
  {
    var h, t := low / 256, low % 256;
    assert low == 256 * h + t;
    assert low / 2 == 128 * h + t / 2;
    assert low / 512 == h / 2;
  }

  /** The value a seed starts with: bit 0 cleared, bit 8 set, 32 bits kept. */
  lemma SeedValue(val: uint64)
    ensures var low := val % TWO_TO_THE_32;
            SeedState(val).v == (2 * (low / 512) + 1) * 256 + low % 256 / 2 * 2
  {
    hide And, Or, Pow2;
    var low := val % TWO_TO_THE_32;
    MaskEven(val);
    PowerEight();
    EvenLowWord(low);
    SetBit(low / 2 * 2, low / 512, low / 256 % 2, low % 256 / 2 * 2, 8);
  }

  lemma PowerEight()
    ensures Pow2(8) == 256
  {
  }

  lemma MaskEven(val: uint64)
    ensures And(val, 0xffff_fffe) == val % TWO_TO_THE_32 / 2 * 2
  {
    hide And, Pow2;
    AndHalves(val, 0x7fff_ffff);
    PowerThirtyOne();
    AndLowMask(val / 2, val / 2 / 0x8000_0000, val / 2 % 0x8000_0000, 31);
    HalfWord(val);
  }

  lemma PowerThirtyOne()
    ensures Pow2(31) == 0x8000_0000
  {
    PowerThirtyTwo();
    assert Pow2(32) == 2 * Pow2(31);
  }

  lemma HalfWord(val: nat)
    ensures val / 2 % 0x8000_0000 == val % TWO_TO_THE_32 / 2
  {
    var q := val / TWO_TO_THE_32;
    assert val == q * TWO_TO_THE_32 + val % TWO_TO_THE_32;
    assert val / 2 == q * 0x8000_0000 + val % TWO_TO_THE_32 / 2;
  }

  /** The forced bits keep both words from zero and the carry from 2^32 - 2, but not the value: it starts at 2^32 - 2
      exactly for the seeds whose low word has all bits set except perhaps bits 0 and 8. */
  lemma SeedAvoids(val: uint64)
    ensures SeedState(val).v != 0 && SeedState(val).c != 0 && SeedState(val).c != 0xffff_fffe
    ensures SeedState(val).v == 0xffff_fffe <==> val % TWO_TO_THE_32 / 512 == 0x7f_ffff && val % 256 / 2 == 0x7f
  {
    hide SeedState, Shift;
    SeedValue(val);
    SeedCarryBits(val);
    LowByteOfWord(val);
    ValueFields(val % TWO_TO_THE_32 / 512, val % TWO_TO_THE_32 % 256 / 2);
  }

  lemma LowByteOfWord(val: uint64)
    ensures val % TWO_TO_THE_32 % 256 == val % 256
  {
    assert val == val / TWO_TO_THE_32 * TWO_TO_THE_32 + val % TWO_TO_THE_32;
  }

  lemma ValueFields(q: nat, t: nat)
    requires q < 0x80_0000 && t < 128
    ensures (2 * q + 1) * 256 + t * 2 == 0xffff_fffe <==> q == 0x7f_ffff && t == 0x7f
  {
  }

  lemma {:induction false} ShiftAdds(a: nat, j: nat, k: nat)
    ensures Shift(a, j + k) == Shift(Shift(a, j), k)
    decreases j
  {
    if j > 0 { ShiftAdds(a / 2, j - 1, k); }
  }

  lemma ShiftByFour(a: nat)
    ensures Shift(a, 4) == a / 16
  {
    assert Shift(a / 16, 0) == a / 16;
    assert Shift(a / 8, 1) == Shift(a / 8 / 2, 0);
    assert Shift(a / 4, 2) == Shift(a / 4 / 2, 1);
    assert Shift(a / 2, 3) == Shift(a / 2 / 2, 2);
  }

  /** Shifts by 16 and 20 bits divide by 2^16 and 2^20. */
  lemma ShiftBySixteen(a: nat)
    ensures Shift(a, 16) == a / 0x1_0000 && Shift(a, 20) == a / 0x10_0000
  {
    hide Shift;
    ShiftByFour(a);
    ShiftByFour(a / 16);
    ShiftByFour(a / 16 / 16);
    ShiftByFour(a / 16 / 16 / 16);
    ShiftByFour(a / 16 / 16 / 16 / 16);
    ShiftAdds(a, 4, 4);
    ShiftAdds(a, 8, 4);
    ShiftAdds(a, 12, 4);
    ShiftAdds(a, 16, 4);
  }

  lemma SeedCarryBits(val: uint64)
    ensures Shift(SeedState(val).c, 16) % 2 == 0 && Shift(SeedState(val).c, 20) % 2 == 1
    ensures Shift(0xffff_fffe, 16) % 2 == 1 && Shift(0, 20) % 2 == 0
  {
    hide Shift, And, Or;
    var high := val / TWO_TO_THE_32;
    ShiftBySixteen(0x10_0000);
    ShiftBySixteen(0xfffe_ffff);
    ShiftBySixteen(0xffff_fffe);
    ShiftBySixteen(0);
    ShiftOfOr(And(high, 0xfffe_ffff), 0x10_0000, 16);
    ShiftOfOr(And(high, 0xfffe_ffff), 0x10_0000, 20);
    ShiftOfAnd(high, 0xfffe_ffff, 16);
    LowBits(Shift(high, 16), Shift(And(high, 0xfffe_ffff), 20));
  }

  lemma LowBits(a: nat, b: nat)
    ensures Or(And(a, 0xfffe), 0x10) % 2 == 0
    ensures Or(b, 1) % 2 == 1
  {
  }

  /** A seed for which the value does start at 2^32 - 2. */
  lemma SeedCanBeUintMaxMinusOne()
    ensures SeedState(0xffff_ffff).v == 0xffff_fffe
  {
    SeedAvoids(0xffff_ffff);
  }

  // ---- Seeds that start alike ------------------------------------------------------------------------

  lemma {:induction false} AndSplits(q: nat, r: nat, m: nat, n: nat, k: nat)
    requires r < Pow2(k) && n < Pow2(k)
    ensures And(q * Pow2(k) + r, m * Pow2(k) + n) == And(q, m) * Pow2(k) + And(r, n)
    decreases k
  {
    hide And;
    if k == 0 {
      AndOfZero(0);
    } else {
      AndSplits(q, r / 2, m, n / 2, k - 1);
      AndSplitsStep(q, r, m, n, Pow2(k - 1));
    }
  }

  lemma AndSplitsStep(q: nat, r: nat, m: nat, n: nat, p: nat)
    requires And(q * p + r / 2, m * p + n / 2) == And(q, m) * p + And(r / 2, n / 2)
    ensures And(q * (2 * p) + r, m * (2 * p) + n) == And(q, m) * (2 * p) + And(r, n)
  {
    hide And;
    DoubledProduct(q, p);
    DoubledProduct(m, p);
    DoubledProduct(And(q, m), p);
    AndLowest(q * p, r, m * p, n);
  }

  lemma AndLowest(a: nat, r: nat, b: nat, n: nat)
    ensures And(2 * a + r, 2 * b + n) == 2 * And(a + r / 2, b + n / 2) + And(r, n) % 2
    ensures And(r, n) == 2 * And(r / 2, n / 2) + And(r, n) % 2
  {
  }

  /** Clearing bit 16 of a 32-bit number. */
  lemma ClearSixteen(h: uint32)
    ensures And(h, 0xfffe_ffff) == h / 0x2_0000 * 0x2_0000 + h % 0x1_0000
  {
    hide And, Pow2;
    PowersOfSeeds();
    var q, r := h / 0x1_0000, h % 0x1_0000;
    AndSplits(q, r, 0xfffe, 0xffff, 16);
    AndHalves(q, 0x7fff);
    AndLowMask(q / 2, 0, q / 2, 15);
    AndLowMask(r, 0, r, 16);
  }

  lemma PowersOfSeeds()
    ensures Pow2(15) == 0x8000 && Pow2(16) == 0x1_0000 && Pow2(20) == 0x10_0000
  {
    assert Pow2(8) == 0x100;
  }

  /** The carry a seed starts with: bit 16 of the high word cleared, bit 20 set. */
  lemma SeedCarry(val: uint64)
    ensures var high := val / TWO_TO_THE_32;
            SeedState(val).c
            == high / 0x20_0000 * 0x20_0000 + 0x10_0000 + high / 0x2_0000 % 8 * 0x2_0000 + high % 0x1_0000
  {
    hide And, Or, Pow2;
    var high := val / TWO_TO_THE_32;
    PowersOfSeeds();
    ClearSixteen(high);
    CarryFields(high);
    SetBit(And(high, 0xfffe_ffff), high / 0x20_0000, high / 0x10_0000 % 2,
           high / 0x2_0000 % 8 * 0x2_0000 + high % 0x1_0000, 20);
  }

  lemma CarryFields(h: uint32)
    ensures h / 0x2_0000 * 0x2_0000 + h % 0x1_0000
            == (2 * (h / 0x20_0000) + h / 0x10_0000 % 2) * 0x10_0000 + h / 0x2_0000 % 8 * 0x2_0000 + h % 0x1_0000
    ensures h / 0x2_0000 % 8 * 0x2_0000 + h % 0x1_0000 < 0x10_0000
  {
    var k := h / 0x2_0000;
    EighthAndSixteenth(h, k);
    assert k == 16 * (k / 16) + 8 * (k / 8 % 2) + k % 8;
  }

  lemma EighthAndSixteenth(h: nat, k: nat)
    requires k == h / 0x2_0000
    ensures h / 0x10_0000 == k / 8 && h / 0x20_0000 == k / 16
  {
  }

  /** The bits of a seed between the forced ones, by the words they are in. */
  lemma SeedFields(a: uint64)
    ensures var high, low := a / TWO_TO_THE_32, a % TWO_TO_THE_32;
            && a / 0x2 % 0x80 == low % 0x100 / 2
            && a / 0x200 % 0x80_0000_0000 == high % 0x1_0000 * 0x80_0000 + low / 0x200
            && a / 0x2_0000_0000_0000 % 8 == high / 0x2_0000 % 8
            && a / 0x20_0000_0000_0000 == high / 0x20_0000
  {
    var high, low := a / TWO_TO_THE_32, a % TWO_TO_THE_32;
    assert a == high * TWO_TO_THE_32 + low;
    LowFields(a, high, low);
    MiddleField(a, high, low);
    HighFields(a, high, low);
  }

  lemma LowFields(a: nat, high: nat, low: nat)
    requires a == high * 0x1_0000_0000 + low
    ensures a / 2 % 0x80 == low % 0x100 / 2
  {
    var q, r := low / 0x100, low % 0x100;
    assert a / 2 == (high * 0x100_0000 + q) * 0x80 + r / 2;
  }

  lemma MiddleField(a: nat, high: nat, low: nat)
    requires a == high * 0x1_0000_0000 + low && low < 0x1_0000_0000
    ensures a / 0x200 % 0x80_0000_0000 == high % 0x1_0000 * 0x80_0000 + low / 0x200
  {
    var q, r := high / 0x1_0000, high % 0x1_0000;
    assert a / 0x200 == q * 0x80_0000_0000 + (r * 0x80_0000 + low / 0x200);
  }

  lemma HighFields(a: nat, high: nat, low: nat)
    requires a == high * 0x1_0000_0000 + low && low < 0x1_0000_0000
    ensures a / 0x2_0000_0000_0000 == high / 0x2_0000 && a / 0x20_0000_0000_0000 == high / 0x20_0000
  {
  }

  lemma ValueUnique(q: nat, t: nat, q': nat, t': nat)
    requires t < 128 && t' < 128
    ensures (2 * q + 1) * 256 + t * 2 == (2 * q' + 1) * 256 + t' * 2 <==> q == q' && t == t'
  {
  }

  lemma CarryUnique(x: nat, y: nat, z: nat, x': nat, y': nat, z': nat)
    requires y < 8 && z < 0x1_0000 && y' < 8 && z' < 0x1_0000
    ensures x * 0x20_0000 + 0x10_0000 + y * 0x2_0000 + z == x' * 0x20_0000 + 0x10_0000 + y' * 0x2_0000 + z'
            <==> x == x' && y == y' && z == z'
  {
  }

  lemma MiddleUnique(h: nat, l: nat, h': nat, l': nat)
    requires l < 0x80_0000 && l' < 0x80_0000
    ensures h * 0x80_0000 + l == h' * 0x80_0000 + l' <==> h == h' && l == l'
  {
  }

  /** Whether the words of two starts agree, field by field. */
  lemma SeedWords(a: uint64, b: uint64)
    ensures var high, low, high', low' := a / TWO_TO_THE_32, a % TWO_TO_THE_32, b / TWO_TO_THE_32, b % TWO_TO_THE_32;
            && (SeedState(a).v == SeedState(b).v <==> low / 512 == low' / 512 && low % 256 / 2 == low' % 256 / 2)
            && (SeedState(a).c == SeedState(b).c <==>
                  && high / 0x20_0000 == high' / 0x20_0000
                  && high / 0x2_0000 % 8 == high' / 0x2_0000 % 8
                  && high % 0x1_0000 == high' % 0x1_0000)
  {
    hide SeedState;
    var high, low, high', low' := a / TWO_TO_THE_32, a % TWO_TO_THE_32, b / TWO_TO_THE_32, b % TWO_TO_THE_32;
    SeedValue(a);
    SeedValue(b);
    SeedCarry(a);
    SeedCarry(b);
    ValueUnique(low / 512, low % 256 / 2, low' / 512, low' % 256 / 2);
    CarryUnique(high / 0x20_0000, high / 0x2_0000 % 8, high % 0x1_0000,
                high' / 0x20_0000, high' / 0x2_0000 % 8, high' % 0x1_0000);
  }

  /** Two seeds start alike exactly when they agree in all bits but 0, 8, 48 and 52. */
  lemma SeedsStartAlike(a: uint64, b: uint64)
    ensures SeedState(a) == SeedState(b) <==>
              && a / 0x2 % 0x80 == b / 0x2 % 0x80
              && a / 0x200 % 0x80_0000_0000 == b / 0x200 % 0x80_0000_0000
              && a / 0x2_0000_0000_0000 % 8 == b / 0x2_0000_0000_0000 % 8
              && a / 0x20_0000_0000_0000 == b / 0x20_0000_0000_0000
  {
    hide SeedState;
    SeedWords(a, b);
    SeedFields(a);
    SeedFields(b);
    LowPart(a);
    LowPart(b);
    MiddleUnique(a / TWO_TO_THE_32 % 0x1_0000, a % TWO_TO_THE_32 / 0x200,
                 b / TWO_TO_THE_32 % 0x1_0000, b % TWO_TO_THE_32 / 0x200);
  }

  lemma LowPart(a: nat)
    ensures a % TWO_TO_THE_32 / 0x200 < 0x80_0000
  {
  }
}
