/** Multi-word arithmetic: chains of ADD/ADC and SUB/SBB over limbs, least significant first. */
module Limbs {
  import opened Words
  import opened Flags
  import opened Alu

  /** The number that a sequence of limbs denotes. */
  function Value(xs: seq<Word>): nat {
    if xs == [] then 0 else xs[0] + BASE * Value(xs[1..])
  }

  /** 2^(32 k) */
  function Capacity(k: nat): (c: nat)
    ensures c >= 1
  {
    if k == 0 then 1 else BASE * Capacity(k - 1)
  }

  lemma {:induction false} ValueBound(xs: seq<Word>)
    ensures Value(xs) < Capacity(|xs|)
  {
    if xs != [] {
      ValueBound(xs[1..]);
    }
  }

  datatype ChainOut = ChainOut(limbs: seq<Word>, eflags: Word)

  function Prepend(out: AluOut, rest: ChainOut): ChainOut {
    ChainOut([out.res] + rest.limbs, rest.eflags)
  }

  /** ADC on every limb, from the lowest up. */
  function AdcChain(xs: seq<Word>, ys: seq<Word>, e: Word): (r: ChainOut)
    requires |xs| == |ys|
    ensures |r.limbs| == |xs|
  {
    if xs == [] then ChainOut([], e)
    else
      var o := Adc(W32, xs[0], ys[0], e);
      Prepend(o, AdcChain(xs[1..], ys[1..], o.eflags))
  }

  /** ADD on limb 0, then ADC on the others. */
  function AddChain(xs: seq<Word>, ys: seq<Word>, e: Word): (r: ChainOut)
    requires |xs| == |ys| > 0
    ensures |r.limbs| == |xs|
  {
    var o := Add(W32, xs[0], ys[0], e);
    Prepend(o, AdcChain(xs[1..], ys[1..], o.eflags))
  }

  function SbbChain(xs: seq<Word>, ys: seq<Word>, e: Word): (r: ChainOut)
    requires |xs| == |ys|
    ensures |r.limbs| == |xs|
  {
    if xs == [] then ChainOut([], e)
    else
      var o := Sbb(xs[0], ys[0], e);
      Prepend(o, SbbChain(xs[1..], ys[1..], o.eflags))
  }

  /** SUB on limb 0, then SBB on the others. */
  function SubChain(xs: seq<Word>, ys: seq<Word>, e: Word): (r: ChainOut)
    requires |xs| == |ys| > 0
    ensures |r.limbs| == |xs|
  {
    var o := Sub(xs[0], ys[0], e);
    Prepend(o, SbbChain(xs[1..], ys[1..], o.eflags))
  }

  // ---------------------------------------------------------------- when a carry is lost

  /** True when adding the low i limbs, with carry-in c, carries into limb i. */
  predicate CarriesInto(xs: seq<Word>, ys: seq<Word>, c: nat, i: nat)
    requires |xs| == |ys| && i <= |xs|
  {
    Value(xs[..i]) + Value(ys[..i]) + c >= Capacity(i)
  }

  /** Some limb has an all-ones source and a carry coming in: what the `val1 > res` test cannot see. */
  ghost predicate LosesCarry(xs: seq<Word>, ys: seq<Word>, c: nat)
    requires |xs| == |ys|
  {
    exists i :: 0 <= i < |xs| && ys[i] == BASE - 1 && CarriesInto(xs, ys, c, i)
  }

  /** Result and carry flag of a chain, read as one number. */
  function Total(out: ChainOut): nat {
    Value(out.limbs) + Carry(out.eflags) * Capacity(|out.limbs|)
  }

  /** The carry out of one limb addition. */
  function LimbCarry(x: Word, y: Word, c: nat): nat {
    if x + y + c >= BASE then 1 else 0
  }

  lemma {:induction false} CarryShift(xs: seq<Word>, ys: seq<Word>, c: nat, i: nat)
    requires |xs| == |ys| && 0 < i <= |xs| && c <= 1
    ensures CarriesInto(xs, ys, c, i) <==>
            CarriesInto(xs[1..], ys[1..], LimbCarry(xs[0], ys[0], c), i - 1)
  {
    assert xs[..i][1..] == xs[1..][..i - 1];
    assert ys[..i][1..] == ys[1..][..i - 1];
    assert Capacity(i) == BASE * Capacity(i - 1);
  }

  lemma LosesCarryStep(xs: seq<Word>, ys: seq<Word>, c: nat)
    requires |xs| == |ys| > 0 && c <= 1
    ensures LosesCarry(xs, ys, c) <==>
            (ys[0] == BASE - 1 && c == 1) || LosesCarry(xs[1..], ys[1..], LimbCarry(xs[0], ys[0], c))
  {
    var t := LimbCarry(xs[0], ys[0], c);
    assert CarriesInto(xs, ys, c, 0) <==> c == 1;
    forall i | 0 < i < |xs| ensures CarriesInto(xs, ys, c, i) <==> CarriesInto(xs[1..], ys[1..], t, i - 1) {
      CarryShift(xs, ys, c, i);
    }
    if LosesCarry(xs[1..], ys[1..], t) {
      var j :| 0 <= j < |xs| - 1 && ys[1..][j] == BASE - 1 && CarriesInto(xs[1..], ys[1..], t, j);
      assert ys[j + 1] == BASE - 1 && CarriesInto(xs, ys, c, j + 1);
    }
    if LosesCarry(xs, ys, c) && !(ys[0] == BASE - 1 && c == 1) {
      var i :| 0 <= i < |xs| && ys[i] == BASE - 1 && CarriesInto(xs, ys, c, i);
      assert ys[1..][i - 1] == BASE - 1;
    }
  }

  /** One ADC limb: value and carry flag against the true sum. */
  lemma AdcLimb(x: Word, y: Word, e: Word)
    ensures var o := Adc(W32, x, y, e); var c := Carry(e); var t := LimbCarry(x, y, c);
            && o.res + BASE * t == x + y + c
            && Carry(o.eflags) == (if c == 1 && y == BASE - 1 then 0 else t)
            && (c == 1 && y == BASE - 1 ==> t == 1)
  {
    hide Adc, TestFlag, AdditionFlags, EvenOnes;
    AdcCorrect(W32, x, y, e);
  }

  lemma AddLimb(x: Word, y: Word, e: Word)
    ensures var o := Add(W32, x, y, e); var t := LimbCarry(x, y, 0);
            o.res + BASE * t == x + y && Carry(o.eflags) == t
  {
    hide Add, TestFlag, AdditionFlags;
    AddCorrect(W32, x, y, e);
  }

  /** An ADC chain never overstates the sum, and states it exactly when no carry is lost. */
  lemma {:induction false} AdcChainTotal(xs: seq<Word>, ys: seq<Word>, e: Word)
    requires |xs| == |ys|
    ensures Total(AdcChain(xs, ys, e)) <= Value(xs) + Value(ys) + Carry(e)
    ensures Total(AdcChain(xs, ys, e)) == Value(xs) + Value(ys) + Carry(e) <==> !LosesCarry(xs, ys, Carry(e))
  {
    hide Adc, Carry, LosesCarry;
    if xs == [] {
      assert !LosesCarry(xs, ys, Carry(e)) by { NoLimbNoLoss(xs, ys, Carry(e)); }
    } else {
      var o := Adc(W32, xs[0], ys[0], e);
      AdcChainTotal(xs[1..], ys[1..], o.eflags);
      LosesCarryStep(xs, ys, Carry(e));
      AdcLimb(xs[0], ys[0], e);
      TotalStep(o, AdcChain(xs[1..], ys[1..], o.eflags));
    }
  }

  lemma NoLimbNoLoss(xs: seq<Word>, ys: seq<Word>, c: nat)
    requires xs == [] && ys == []
    ensures !LosesCarry(xs, ys, c)
  {
  }

  lemma TotalStep(o: AluOut, rest: ChainOut)
    ensures Total(Prepend(o, rest)) == o.res + BASE * Total(rest)
  {
    var p := Prepend(o, rest);
    assert p.limbs[1..] == rest.limbs;
    var c := Carry(rest.eflags);
    assert c == 0 || c == 1;
  }

  lemma AddChainTotal(xs: seq<Word>, ys: seq<Word>, e: Word)
    requires |xs| == |ys| > 0
    ensures Total(AddChain(xs, ys, e)) == Value(xs) + Value(ys) <==> !LosesCarry(xs, ys, 0)
  {
    hide Add, Carry, LosesCarry, Total;
    var o := Add(W32, xs[0], ys[0], e);
    AddLimb(xs[0], ys[0], e);
    AdcChainTotal(xs[1..], ys[1..], o.eflags);
    LosesCarryStep(xs, ys, 0);
    TotalStep(o, AdcChain(xs[1..], ys[1..], o.eflags));
  }

  /** The result limbs and CF of a chain are those of a sum: value modulo 2^(32k), and carry out. */
  ghost predicate IsSum(out: ChainOut, sum: nat) {
    var cap := Capacity(|out.limbs|);
    Value(out.limbs) == sum % cap && (TestFlag(out.eflags, CF) <==> sum >= cap)
  }

  /** They are exactly when they total that sum. */
  lemma ExactIffTotal(out: ChainOut, sum: nat)
    requires sum < 2 * Capacity(|out.limbs|)
    ensures IsSum(out, sum) <==> Total(out) == sum
  {
    var cap := Capacity(|out.limbs|);
    ValueBound(out.limbs);
    var t := if sum >= cap then 1 else 0;
    Bits.DivModUnique(sum, cap, t, sum - cap * t);
  }

  /**
   * ADD/ADC over k limbs computes (A + B) mod 2^(32k) with CF the carry out, for every k, exactly when no
   * ADC meets a carry-in of 1 with an all-ones source limb.
   */
  lemma AddChainExact(xs: seq<Word>, ys: seq<Word>, e: Word)
    requires |xs| == |ys| > 0
    ensures IsSum(AddChain(xs, ys, e), Value(xs) + Value(ys)) <==> !LosesCarry(xs, ys, 0)
  {
    hide AddChain, LosesCarry, IsSum, Total;
    AddChainTotal(xs, ys, e);
    ValueBound(xs);
    ValueBound(ys);
    ExactIffTotal(AddChain(xs, ys, e), Value(xs) + Value(ys));
  }

  /** The exception is real: with 64-bit operands 2^32 - 1 and (2^32 - 1) 2^32 + 1 the code loses the carry out. */
  lemma LostCarryExample(e: Word)
    ensures LosesCarry([BASE - 1, 0], [1, BASE - 1], 0)
    ensures !IsSum(AddChain([BASE - 1, 0], [1, BASE - 1], e), Value([BASE - 1, 0]) + Value([1, BASE - 1]))
  {
    hide AddChain, IsSum;
    assert [BASE - 1, 0][..1] == [BASE - 1] && [1, BASE - 1][..1] == [1];
    assert Capacity(1) == BASE;
    assert Value([BASE - 1]) == BASE - 1 && Value([1]) == 1;
    assert CarriesInto([BASE - 1, 0], [1, BASE - 1], 0, 1);
    assert [1, BASE - 1][1] == BASE - 1;
    AddChainExact([BASE - 1, 0], [1, BASE - 1], e);
  }

  // ---------------------------------------------------------------- SUB/SBB undoes ADD/ADC

  /** One SBB limb and one SUB limb: difference and borrow flag. */
  lemma SbbLimb(x: Word, y: Word, e: Word)
    ensures var u := Sbb(x, y, e); var t := Wrap(y + Carry(e));
            u.res == Wrap(x - y - Carry(e)) && Carry(u.eflags) == if x < t then 1 else 0
  {
    hide Sbb, TestFlag, OthersKept, EvenOnes;
    SbbCorrect(x, y, e);
  }

  lemma SubLimb(x: Word, y: Word, e: Word)
    ensures var u := Sub(x, y, e); u.res == Wrap(x - y) && Carry(u.eflags) == if x < y then 1 else 0
  {
    hide Sub, TestFlag, OthersKept, EvenOnes;
    SubCorrect(x, y, e);
  }

  /** On one limb SBB recovers the ADC operand, and its borrow test repeats ADC's carry test. */
  lemma SbbUndoesAdc(x: Word, y: Word, e: Word, e': Word)
    requires Carry(e) == Carry(e')
    ensures var o := Adc(W32, x, y, e); var u := Sbb(o.res, y, e');
            u.res == x && Carry(u.eflags) == Carry(o.eflags)
  {
    hide Adc, Sbb, Carry;
    AdcLimb(x, y, e);
    SbbLimb(Adc(W32, x, y, e).res, y, e');
  }

  lemma SubUndoesAdd(x: Word, y: Word, e: Word, e': Word)
    ensures var o := Add(W32, x, y, e); var u := Sub(o.res, y, e');
            u.res == x && Carry(u.eflags) == Carry(o.eflags)
  {
    hide Add, Sub, Carry;
    AddLimb(x, y, e);
    SubLimb(Add(W32, x, y, e).res, y, e');
  }

  lemma {:induction false} SbbChainUndoes(xs: seq<Word>, ys: seq<Word>, e: Word, e': Word)
    requires |xs| == |ys| && Carry(e) == Carry(e')
    ensures var out := AdcChain(xs, ys, e); var back := SbbChain(out.limbs, ys, e');
            back.limbs == xs && Carry(back.eflags) == Carry(out.eflags)
  {
    hide Adc, Sbb, Carry;
    if xs != [] {
      var o := Adc(W32, xs[0], ys[0], e);
      SbbUndoesAdc(xs[0], ys[0], e, e');
      SbbChainUndoes(xs[1..], ys[1..], o.eflags, Sbb(o.res, ys[0], e').eflags);
      assert AdcChain(xs, ys, e).limbs[1..] == AdcChain(xs[1..], ys[1..], o.eflags).limbs;
    }
  }

  /**
   * SUB/SBB of B undoes the ADD/ADC chain of B for every k and all operands, and its final borrow is the
   * earlier carry flag: where ADC loses a carry, SBB loses the matching borrow.
   */
  lemma SubChainUndoesAddChain(xs: seq<Word>, ys: seq<Word>, e: Word, e': Word)
    requires |xs| == |ys| > 0
    ensures var out := AddChain(xs, ys, e); var back := SubChain(out.limbs, ys, e');
            back.limbs == xs && (TestFlag(back.eflags, CF) <==> TestFlag(out.eflags, CF))
  {
    hide Add, Sub, TestFlag;
    var o := Add(W32, xs[0], ys[0], e);
    SubUndoesAdd(xs[0], ys[0], e, e');
    SbbChainUndoes(xs[1..], ys[1..], o.eflags, Sub(o.res, ys[0], e').eflags);
    assert AddChain(xs, ys, e).limbs[1..] == AdcChain(xs[1..], ys[1..], o.eflags).limbs;
  }

  // ---------------------------------------------------------------- what SUB/SBB computes

  /** True when subtracting the low i limbs, with borrow-in c, borrows from limb i. */
  predicate BorrowsFrom(xs: seq<Word>, ys: seq<Word>, c: nat, i: nat)
    requires |xs| == |ys| && i <= |xs|
  {
    Value(xs[..i]) < Value(ys[..i]) + c
  }

  /** Some limb has an all-ones source and a borrow coming in: what the wrapped `val + CF` cannot see. */
  ghost predicate LosesBorrow(xs: seq<Word>, ys: seq<Word>, c: nat)
    requires |xs| == |ys|
  {
    exists i :: 0 <= i < |xs| && ys[i] == BASE - 1 && BorrowsFrom(xs, ys, c, i)
  }

  /** Result and borrow flag of a chain, read as one signed number. */
  function Net(out: ChainOut): int {
    Value(out.limbs) - Carry(out.eflags) * Capacity(|out.limbs|)
  }

  /** The borrow out of one limb subtraction. */
  function LimbBorrow(x: Word, y: Word, c: nat): nat {
    if x < y + c then 1 else 0
  }

  lemma {:induction false} BorrowShift(xs: seq<Word>, ys: seq<Word>, c: nat, i: nat)
    requires |xs| == |ys| && 0 < i <= |xs| && c <= 1
    ensures BorrowsFrom(xs, ys, c, i) <==>
            BorrowsFrom(xs[1..], ys[1..], LimbBorrow(xs[0], ys[0], c), i - 1)
  {
    assert xs[..i][1..] == xs[1..][..i - 1];
    assert ys[..i][1..] == ys[1..][..i - 1];
  }

  lemma LosesBorrowStep(xs: seq<Word>, ys: seq<Word>, c: nat)
    requires |xs| == |ys| > 0 && c <= 1
    ensures LosesBorrow(xs, ys, c) <==>
            (ys[0] == BASE - 1 && c == 1) || LosesBorrow(xs[1..], ys[1..], LimbBorrow(xs[0], ys[0], c))
  {
    var t := LimbBorrow(xs[0], ys[0], c);
    assert BorrowsFrom(xs, ys, c, 0) <==> c == 1;
    forall i | 0 < i < |xs| ensures BorrowsFrom(xs, ys, c, i) <==> BorrowsFrom(xs[1..], ys[1..], t, i - 1) {
      BorrowShift(xs, ys, c, i);
    }
    if LosesBorrow(xs[1..], ys[1..], t) {
      var j :| 0 <= j < |xs| - 1 && ys[1..][j] == BASE - 1 && BorrowsFrom(xs[1..], ys[1..], t, j);
      assert ys[j + 1] == BASE - 1 && BorrowsFrom(xs, ys, c, j + 1);
    }
    if LosesBorrow(xs, ys, c) && !(ys[0] == BASE - 1 && c == 1) {
      var i :| 0 <= i < |xs| && ys[i] == BASE - 1 && BorrowsFrom(xs, ys, c, i);
      assert ys[1..][i - 1] == BASE - 1;
    }
  }

  lemma SbbBorrow(x: Word, y: Word, e: Word)
    ensures var o := Sbb(x, y, e); var c := Carry(e); var t := LimbBorrow(x, y, c);
            && o.res - BASE * t == x - y - c
            && Carry(o.eflags) == (if c == 1 && y == BASE - 1 then 0 else t)
            && (c == 1 && y == BASE - 1 ==> t == 1)
  {
    hide Sbb, Carry;
    SbbLimb(x, y, e);
  }

  lemma SubBorrow(x: Word, y: Word, e: Word)
    ensures var o := Sub(x, y, e); var t := LimbBorrow(x, y, 0);
            o.res - BASE * t == x - y && Carry(o.eflags) == t
  {
    hide Sub, Carry;
    SubLimb(x, y, e);
  }

  lemma NetStep(o: AluOut, rest: ChainOut)
    ensures Net(Prepend(o, rest)) == o.res + BASE * Net(rest)
  {
    var p := Prepend(o, rest);
    assert p.limbs[1..] == rest.limbs;
    var c := Carry(rest.eflags);
    assert c == 0 || c == 1;
  }

  lemma NoLimbNoBorrow(xs: seq<Word>, ys: seq<Word>, c: nat)
    requires xs == [] && ys == []
    ensures !LosesBorrow(xs, ys, c)
  {
  }

  /** An SBB chain never understates the difference, and states it exactly when no borrow is lost. */
  lemma {:induction false} SbbChainNet(xs: seq<Word>, ys: seq<Word>, e: Word)
    requires |xs| == |ys|
    ensures Net(SbbChain(xs, ys, e)) >= Value(xs) - Value(ys) - Carry(e)
    ensures Net(SbbChain(xs, ys, e)) == Value(xs) - Value(ys) - Carry(e) <==> !LosesBorrow(xs, ys, Carry(e))
  {
    hide Sbb, Carry, LosesBorrow;
    if xs == [] {
      assert !LosesBorrow(xs, ys, Carry(e)) by { NoLimbNoBorrow(xs, ys, Carry(e)); }
    } else {
      var o := Sbb(xs[0], ys[0], e);
      SbbChainNet(xs[1..], ys[1..], o.eflags);
      LosesBorrowStep(xs, ys, Carry(e));
      SbbBorrow(xs[0], ys[0], e);
      NetStep(o, SbbChain(xs[1..], ys[1..], o.eflags));
    }
  }

  lemma SubChainNet(xs: seq<Word>, ys: seq<Word>, e: Word)
    requires |xs| == |ys| > 0
    ensures Net(SubChain(xs, ys, e)) == Value(xs) - Value(ys) <==> !LosesBorrow(xs, ys, 0)
  {
    hide Sub, Carry, LosesBorrow, Net;
    var o := Sub(xs[0], ys[0], e);
    SubBorrow(xs[0], ys[0], e);
    SbbChainNet(xs[1..], ys[1..], o.eflags);
    LosesBorrowStep(xs, ys, 0);
    NetStep(o, SbbChain(xs[1..], ys[1..], o.eflags));
  }

  /** The result limbs and CF of a chain are those of a - b: value modulo 2^(32k), and borrow out. */
  ghost predicate IsDifference(out: ChainOut, a: nat, b: nat) {
    Value(out.limbs) == (a - b) % Capacity(|out.limbs|) && (TestFlag(out.eflags, CF) <==> a < b)
  }

  lemma ExactIffNet(out: ChainOut, a: nat, b: nat)
    requires a < Capacity(|out.limbs|) && b < Capacity(|out.limbs|)
    ensures IsDifference(out, a, b) <==> Net(out) == a - b
  {
    var cap := Capacity(|out.limbs|);
    ValueBound(out.limbs);
    var t: int := if a < b then 1 else 0;
    Bits.DivModUnique(a - b, cap, -t, a - b + cap * t);
  }

  /**
   * SUB/SBB over k limbs computes (A - B) mod 2^(32k) with CF exactly when A < B, for every k, if and only if no
   * SBB meets a true borrow-in with an all-ones source limb.
   */
  lemma SubChainExact(xs: seq<Word>, ys: seq<Word>, e: Word)
    requires |xs| == |ys| > 0
    ensures IsDifference(SubChain(xs, ys, e), Value(xs), Value(ys)) <==> !LosesBorrow(xs, ys, 0)
  {
    hide SubChain, LosesBorrow, IsDifference, Net;
    SubChainNet(xs, ys, e);
    ValueBound(xs);
    ValueBound(ys);
    ExactIffNet(SubChain(xs, ys, e), Value(xs), Value(ys));
  }

  /** The exception is real: (2^32 - 1) 2^32 + 1 taken from 0 leaves CF clear. */
  lemma LostBorrowChain(e: Word)
    ensures LosesBorrow([0, 0], [1, BASE - 1], 0)
    ensures !IsDifference(SubChain([0, 0], [1, BASE - 1], e), Value([0, 0]), Value([1, BASE - 1]))
  {
    hide SubChain, IsDifference;
    assert [0, 0][..1] == [0] && [1, BASE - 1][..1] == [1];
    assert Value([0]) == 0 && Value([1]) == 1;
    assert BorrowsFrom([0, 0], [1, BASE - 1], 0, 1);
    assert [1, BASE - 1][1] == BASE - 1;
    SubChainExact([0, 0], [1, BASE - 1], e);
  }
}
