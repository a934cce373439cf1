/** Machine integers and the 256-bit arithmetic that refuses to wrap. */
module Checked {
  import opened Wrappers
  import opened Arith

  const U32_LIMIT: nat := 0x1_0000_0000
  const Q64: nat := 0x1_0000_0000_0000_0000
  const U128_LIMIT: nat := 0x1_0000_0000_0000_0000_0000_0000_0000_0000
  const U256_LIMIT: nat :=
    0x1_0000_0000_0000_0000_0000_0000_0000_0000_0000_0000_0000_0000_0000_0000_0000_0000

  type U32 = x: int | 0 <= x < U32_LIMIT
  type U64 = x: int | 0 <= x < Q64
  type U128 = x: int | 0 <= x < U128_LIMIT
  type U256 = x: int | 0 <= x < U256_LIMIT
  type I32 = x: int | -0x8000_0000 <= x < 0x8000_0000
  type I128 = x: int | -0x8000_0000_0000_0000_0000_0000_0000_0000 <= x < 0x8000_0000_0000_0000_0000_0000_0000_0000

  /** The operation named by an overflow or a zero division. */
  datatype Operation =
    | Add | Sub | Mul | Div | DivRem | Shl | Narrow
    | NextSqrtPriceUp
    | FeeExceedsInput | AccumulateOutput | ConsumeInput | FeeRefund
    | NegateLiquidityNet | AddLiquidityNet | SubtractLiquidityNet

  datatype AmmError =
    | Overflow(op: Operation)
    | DivByZero(op: Operation)
    | InvalidFeeRate(rate: U64)
    | ZeroLiquidity
    | InvalidSqrtPrice(price: U128)
    | InvalidTick(tick: I32)
    | UnreachablePriceLimit(current: U128, limit: U128)
    | NoProgress(remaining: U128)
    | TooManyCrossings(allowed: U32)

  type Amm<+T> = Result<T, AmmError>

  function ToU128(a: U256): Amm<U128> {
    if a < U128_LIMIT then Ok(a) else Err(Overflow(Narrow))
  }

  function CheckedAdd(a: U256, b: U256): Amm<U256> {
    if a + b < U256_LIMIT then Ok(a + b) else Err(Overflow(Add))
  }

  function CheckedMul(a: U256, b: U256): Amm<U256> {
    var product := a * b;
    if product < U256_LIMIT then
      MulLe(0, a, b);
      Ok(product)
    else
      Err(Overflow(Mul))
  }

  function CheckedDiv(a: U256, b: U256): Amm<U256> {
    if b == 0 then Err(DivByZero(Div)) else QuotientLe(a, b); Ok(a / b)
  }

  function CheckedDivRem(a: U256, b: U256): Amm<(U256, U256)> {
    if b == 0 then Err(DivByZero(DivRem)) else QuotientLe(a, b); Ok((a / b, a % b))
  }

  function CheckedDivCeil(a: U256, b: U256): Amm<U256> {
    var (quotient, remainder) :- CheckedDivRem(a, b);
    if remainder == 0 then Ok(quotient) else CheckedAdd(quotient, 1)
  }

  function Divide(a: U256, b: U256, roundUp: bool): Amm<U256> {
    if roundUp then CheckedDivCeil(a, b) else CheckedDiv(a, b)
  }

  /** a * b / d, narrowed. */
  function MulDiv(a: U256, b: U256, d: U256, roundUp: bool): Amm<U128> {
    var product :- CheckedMul(a, b);
    var quotient :- Divide(product, d, roundUp);
    ToU128(quotient)
  }

  /** x * y / a / b, rounding the same way both times, narrowed. */
  function MulDivideTwice(x: U256, y: U256, a: U256, b: U256, roundUp: bool): Amm<U128> {
    var numerator :- CheckedMul(x, y);
    var step :- Divide(numerator, a, roundUp);
    var result :- Divide(step, b, roundUp);
    ToU128(result)
  }

  /** The shifts the pricing code makes are by constants below the width, so none of them can be refused. */
  function Shl64(a: U256): U256 {
    a * Q64 % U256_LIMIT
  }

  function Shr64(a: U256): U256 {
    a / Q64
  }

  function Shr128(a: U256): U256 {
    a / U128_LIMIT
  }

  lemma QuotientLe(a: nat, b: nat)
    requires b > 0
    ensures a / b <= a
  {
    FloorAdjoint(a, b, a / b);
    MulLe(1, b, a / b);
  }

  /** 256 bits hold every product of two u128. */
  lemma ProductFits(a: U128, b: U128)
    ensures 0 <= a * b < U256_LIMIT
  {
    MulLe(0, a, b);
    MulLe(a, U128_LIMIT - 1, b);
  }

  /** The upward rounding of a 256-bit quotient is exact and its increment can never overflow. */
  lemma DivCeilIsExact(a: U256, b: U256)
    requires b != 0
    ensures CeilDiv(a, b) < U256_LIMIT
    ensures CheckedDivCeil(a, b) == Ok(CeilDiv(a, b))
  {
    if b == 1 {
    } else {
      FloorAdjoint(a, b, a / b);
      MulLe(2, b, a / b);
    }
  }

  function Rounded(n: nat, d: nat, roundUp: bool): nat
    requires d > 0
  {
    if roundUp then CeilDiv(n, d) else n / d
  }

  lemma DivideIsExact(a: U256, b: U256, roundUp: bool)
    requires b != 0
    ensures Rounded(a, b, roundUp) < U256_LIMIT
    ensures Divide(a, b, roundUp) == Ok(Rounded(a, b, roundUp))
  {
    DivCeilIsExact(a, b);
    QuotientLe(a, b);
  }

  lemma MulDivIsExact(a: U256, b: U256, d: U256, roundUp: bool)
    requires d != 0 && a * b < U256_LIMIT
    ensures a * b >= 0
    ensures var v := Rounded(a * b, d, roundUp);
      MulDiv(a, b, d, roundUp) == if v >= U128_LIMIT then Err(Overflow(Narrow)) else Ok(v)
  {
    MulLe(0, a, b);
    DivideIsExact(a * b, d, roundUp);
  }

  /** Rounding at each of two divisions is rounding once at the division by the product. */
  lemma MulDivideTwiceIsExact(x: U256, y: U256, a: U256, b: U256, roundUp: bool)
    requires a != 0 && b != 0
    ensures a * b > 0 && x * y >= 0
    ensures var v := Rounded(x * y, a * b, roundUp);
      MulDivideTwice(x, y, a, b, roundUp) ==
        if x * y >= U256_LIMIT then Err(Overflow(Mul)) else if v >= U128_LIMIT then Err(Overflow(Narrow)) else Ok(v)
  {
    MulLt(0, a, b);
    MulLe(0, x, y);
    var n := x * y;
    if n < U256_LIMIT {
      DivideIsExact(n, a, roundUp);
      DivideIsExact(Rounded(n, a, roundUp), b, roundUp);
      RoundedTwice(n, a, b, roundUp);
    }
  }

  lemma RoundedTwice(n: nat, a: nat, b: nat, roundUp: bool)
    requires a > 0 && b > 0
    ensures a * b > 0
    ensures Rounded(Rounded(n, a, roundUp), b, roundUp) == Rounded(n, a * b, roundUp)
  {
    if roundUp {
      NestedCeil(n, a, b);
    } else {
      NestedFloor(n, a, b);
    }
  }
}
