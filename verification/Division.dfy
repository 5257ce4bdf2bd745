/** DIV, 32-bit IDIV and CDQ on eax, edx and the divisor that the code reads (src/instr.c). */
module Division {
  import opened Bits
  import opened Words
  import opened Flags
  import opened Alu

  /** Interrupt0 is the return value -1000. */
  datatype DivOut = Done(eax: Word, edx: Word) | Interrupt0

  /** The low 16 bits of a register replaced. */
  function WithHalf(x: Word, h: Half): Word {
    x - x % 0x1_0000 + h
  }

  function Div(w: Width, eax: Word, edx: Word, v: Word): DivOut
    requires 0 < v < w.Modulus()
  {
    var div := Dividend(w, eax, edx);
    DivModRange(div, v);
    var res, rem := div / v, div % v;
    if res >= w.Modulus() then Interrupt0 else Deliver(w, eax, edx, res, rem)
  }

  /** Quotient to AL, AX or EAX and remainder to AH, DX or EDX. */
  function Deliver(w: Width, eax: Word, edx: Word, res: nat, rem: nat): (out: DivOut)
    requires res < w.Modulus() && rem < w.Modulus()
    ensures out.Done?
  {
    match w
    case W8 => Done(WithHalf(eax, 0x100 * rem + res), edx)
    case W16 => Done(WithHalf(eax, res), WithHalf(edx, rem))
    case W32 => Done(res, rem)
  }

  lemma DivModRange(n: int, v: int)
    requires n >= 0 && v > 0
    ensures n / v >= 0 && 0 <= n % v < v && n == v * (n / v) + n % v
  {
  }

  /** Upper and lower half of the implicit dividend: AH:AL, DX:AX or EDX:EAX. */
  function High(w: Width, eax: Word, edx: Word): (h: nat) {
    match w case W8 => eax / 0x100 % 0x100 case W16 => edx % 0x1_0000 case W32 => edx
  }

  function Low(w: Width, eax: Word): (l: nat) {
    eax % w.Modulus()
  }

  /** What lies outside the two halves. */
  ghost predicate SameElsewhere(w: Width, eax: Word, edx: Word, eax': Word, edx': Word) {
    match w
    case W8 => eax' / 0x1_0000 == eax / 0x1_0000 && edx' == edx
    case W16 => eax' / 0x1_0000 == eax / 0x1_0000 && edx' / 0x1_0000 == edx / 0x1_0000
    case W32 => true
  }

  lemma DigitReaches(h: int, l: int, m: int, v: int, q: int, r: int)
    requires 0 <= l < m && 0 <= r < v && m * h + l == v * q + r
    ensures q >= m <==> h >= v
  {
    assert v * (q - m) == v * q - v * m;
    assert m * (h - v) == m * h - v * m;
    MulSign(v, q - m);
    MulSign(m, h - v);
  }

  /** The implicit dividend. */
  function Dividend(w: Width, eax: Word, edx: Word): (n: nat) {
    w.Modulus() * High(w, eax, edx) + Low(w, eax)
  }

  /** DIV faults exactly when the high half reaches the divisor, and else divides. */
  lemma DivCorrect(w: Width, eax: Word, edx: Word, v: Word)
    requires 0 < v < w.Modulus()
    ensures var out := Div(w, eax, edx, v);
            && (out.Interrupt0? <==> High(w, eax, edx) >= v)
            && (out.Done? ==>
                  && Low(w, out.eax) * v + High(w, out.eax, out.edx) == Dividend(w, eax, edx)
                  && High(w, out.eax, out.edx) < v
                  && SameElsewhere(w, eax, edx, out.eax, out.edx))
  {
    hide High, Low, Deliver, SameElsewhere, Dividend;
    var n := Dividend(w, eax, edx);
    QuotientOverflows(w, eax, edx, v);
    DivModRange(n, v);
    var q, r := n / v, n % v;
    if q < w.Modulus() {
      Delivered(w, eax, edx, q, r);
      assert q * v == v * q;
    }
  }

  lemma QuotientOverflows(w: Width, eax: Word, edx: Word, v: Word)
    requires 0 < v < w.Modulus()
    ensures Dividend(w, eax, edx) / v >= w.Modulus() <==> High(w, eax, edx) >= v
  {
    var n, l, m := Dividend(w, eax, edx), Low(w, eax), w.Modulus();
    assert l < m;
    hide High, Low;
    DivModRange(n, v);
    DigitReaches(High(w, eax, edx), l, m, v, n / v, n % v);
  }

  lemma Delivered(w: Width, eax: Word, edx: Word, q: nat, r: nat)
    requires q < w.Modulus() && r < w.Modulus()
    ensures var out := Deliver(w, eax, edx, q, r);
            && Low(w, out.eax) == q && High(w, out.eax, out.edx) == r
            && SameElsewhere(w, eax, edx, out.eax, out.edx)
  {
    hide WithHalf;
    match w {
      case W8 => Halves(eax, 0x100 * r + q); Bytes(q, r);
      case W16 => Halves(eax, q); Halves(edx, r);
      case W32 =>
    }
  }

  lemma Halves(x: Word, h: Half)
    ensures var y := WithHalf(x, h); y % 0x1_0000 == h && y / 0x1_0000 == x / 0x1_0000
    ensures var y := WithHalf(x, h); y % 0x100 == h % 0x100 && y / 0x100 % 0x100 == h / 0x100
  {
    var n := x / 0x1_0000;
    var y := WithHalf(x, h);
    assert y == 0x1_0000 * n + h;
    assert y / 0x100 == 0x100 * n + h / 0x100;
  }

  lemma Bytes(q: int, r: int)
    requires 0 <= q < 0x100 && 0 <= r < 0x100
    ensures (0x100 * r + q) % 0x100 == q && (0x100 * r + q) / 0x100 == r
  {
  }

  // ---------------------------------------------------------------- signed division

  /** CDQ fills edx with the sign of eax. */
  function Cdq(eax: Word): Word {
    if Sign(eax, 32) then 0xFFFF_FFFF else 0
  }

  /** C's `/` on signed operands truncates toward zero. */
  function TruncDiv(a: int, b: int): int
    requires b != 0
  {
    if a >= 0 then a / b else -(-a / b)
  }

  function TruncRem(a: int, b: int): int
    requires b != 0
  {
    a - b * TruncDiv(a, b)
  }

  /** edx:eax read as int64_t. */
  function SignedPair(eax: Word, edx: Word): int {
    BASE * Signed(edx) + eax
  }

  /** 32-bit IDIV; the one int64_t division that C leaves undefined is INT64_MIN / -1. */
  function Idiv(eax: Word, edx: Word, v: Word): DivOut
    requires v != 0
    requires !(SignedPair(eax, edx) == -0x8000_0000_0000_0000 && Signed(v) == -1)
  {
    var div := SignedPair(eax, edx);
    var res, rem := TruncDiv(div, Signed(v)), TruncRem(div, Signed(v));
    if res > 0x7FFF_FFFF || res < -0x8000_0000 then Interrupt0 else Done(Wrap(res), Wrap(rem))
  }

  function Abs(x: int): int {
    if x >= 0 then x else -x
  }

  /** Truncated division: the remainder is smaller than the divisor and takes the dividend's sign. */
  ghost predicate IsTruncated(a: int, b: int, q: int, r: int) {
    a == b * q + r && Abs(r) < Abs(b) && (a >= 0 ==> r >= 0) && (a <= 0 ==> r <= 0)
  }

  lemma MagnitudeTruncated(n: nat, b: int)
    requires b != 0
    ensures IsTruncated(n, b, n / b, n % b) && n % b == n - b * (n / b)
  {
  }

  lemma TruncatedNegated(n: int, b: int, q: int, r: int)
    requires IsTruncated(n, b, q, r)
    ensures IsTruncated(-n, b, -q, -r) && b * -q == -(b * q)
  {
  }

  lemma TruncIsTruncated(a: int, b: int)
    requires b != 0
    ensures IsTruncated(a, b, TruncDiv(a, b), TruncRem(a, b))
  {
    hide IsTruncated;
    var n := Abs(a);
    MagnitudeTruncated(n, b);
    if a < 0 {
      TruncatedNegated(n, b, n / b, n % b);
    }
  }

  lemma SignedWrap(x: int)
    requires InRange(x)
    ensures Signed(Wrap(x)) == x
  {
  }

  /** IDIV faults exactly when the truncated quotient is no int32_t, and else returns it with its remainder. */
  lemma IdivCorrect(eax: Word, edx: Word, v: Word)
    requires v != 0
    requires !(SignedPair(eax, edx) == -0x8000_0000_0000_0000 && Signed(v) == -1)
    ensures var out := Idiv(eax, edx, v); var a, b := SignedPair(eax, edx), Signed(v);
            && (out.Interrupt0? <==> !InRange(TruncDiv(a, b)))
            && (out.Done? ==> IsTruncated(a, b, Signed(out.eax), Signed(out.edx)))
  {
    hide TruncDiv, TruncRem;
    var a, b := SignedPair(eax, edx), Signed(v);
    TruncIsTruncated(a, b);
    var q := TruncDiv(a, b);
    if -0x8000_0000 <= q < 0x8000_0000 {
      SignedWrap(q);
      SignedWrap(TruncRem(a, b));
    }
  }

  /** CDQ makes edx:eax the sign extension of eax. */
  lemma CdqExtends(eax: Word)
    ensures SignedPair(eax, Cdq(eax)) == Signed(eax)
  {
    hide Sign;
    SignIsNegative(W32, eax);
  }

  lemma MulAbs(b: int, q: int)
    requires Abs(b) >= 2
    ensures Abs(b * q) >= 2 * Abs(q)
  {
    var x, y := Abs(b), Abs(q);
    MulNonneg(x - 2, y);
    assert (x - 2) * y == x * y - 2 * y;
    assert x * y == b * q || x * y == -(b * q);
  }

  lemma MulNonneg(x: int, y: int)
    requires x >= 0 && y >= 0
    ensures x * y >= 0
  {
  }

  lemma QuotientRange(a: int, b: int, q: int, p: int, r: int)
    requires b != 0 && a == p + r && Abs(r) < Abs(b) && (a >= 0 ==> r >= 0) && (a <= 0 ==> r <= 0)
    requires if b == 1 then p == q else if b == -1 then p == -q else Abs(p) >= 2 * Abs(q)
    requires -0x8000_0000 <= a < 0x8000_0000 && (a > 0 ==> p >= 0) && (a < 0 ==> p <= 0)
    ensures -0x8000_0000 <= q < 0x8000_0000 <==> !(a == -0x8000_0000 && b == -1)
  {
  }

  /** The product and remainder of a truncated division, by magnitude and sign. */
  lemma TruncFacts(a: int, b: int) returns (p: int, r: int)
    requires b != 0
    ensures a == p + r && Abs(r) < Abs(b) && (a >= 0 ==> r >= 0) && (a <= 0 ==> r <= 0)
    ensures (a > 0 ==> p >= 0) && (a < 0 ==> p <= 0)
    ensures var q := TruncDiv(a, b);
            if b == 1 then p == q else if b == -1 then p == -q else Abs(p) >= 2 * Abs(q)
  {
    hide TruncDiv;
    var q := TruncDiv(a, b);
    p, r := b * q, TruncRem(a, b);
    TruncIsTruncated(a, b);
    ProductSign(a, b);
    if Abs(b) >= 2 {
      MulAbs(b, q);
    } else {
      UnitProduct(b, q);
    }
  }

  /** Only INT32_MIN / -1 takes a truncated quotient out of the range of its dividend. */
  lemma QuotientBound(a: int, b: int)
    requires b != 0 && -0x8000_0000 <= a < 0x8000_0000
    ensures -0x8000_0000 <= TruncDiv(a, b) < 0x8000_0000 <==> !(a == -0x8000_0000 && b == -1)
  {
    hide TruncDiv;
    var p, r := TruncFacts(a, b);
    QuotientRange(a, b, TruncDiv(a, b), p, r);
  }

  lemma UnitProduct(b: int, q: int)
    ensures (b == 1 ==> b * q == q) && (b == -1 ==> b * q == -q)
  {
  }

  lemma ProductSign(a: int, b: int)
    requires b != 0
    ensures var p := b * TruncDiv(a, b); (a > 0 ==> p >= 0) && (a < 0 ==> p <= 0)
  {
    DivSigned(Abs(a), b);
    var n := Abs(a) / b;
    assert b * -n == -(b * n);
  }

  lemma DivSigned(n: int, b: int)
    requires n >= 0 && b != 0
    ensures 0 <= b * (n / b) <= n
  {
    var q := n / b;
    assert n == b * q + n % b;
    if b > 0 {
      MulSign(b, q);
    } else {
      MulSign(-b, -q);
      assert -b * -q == b * q;
    }
  }

  /** CDQ then IDIV: a fault exactly for INT32_MIN / -1, and else truncated division of eax. */
  lemma CdqIdivCorrect(eax: Word, v: Word)
    requires v != 0
    ensures !(SignedPair(eax, Cdq(eax)) == -0x8000_0000_0000_0000)
    ensures var out := Idiv(eax, Cdq(eax), v); var a, b := Signed(eax), Signed(v);
            && (out.Interrupt0? <==> a == -0x8000_0000 && b == -1)
            && (out.Done? ==> IsTruncated(a, b, Signed(out.eax), Signed(out.edx)))
  {
    hide TruncDiv, TruncRem, Idiv, Cdq, SignedPair, IsTruncated;
    CdqExtends(eax);
    var a, b := Signed(eax), Signed(v);
    IdivCorrect(eax, Cdq(eax), v);
    TruncIsTruncated(a, b);
    QuotientBound(a, b);
  }
}
