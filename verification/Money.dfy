/** Decimal money held as integer cents, and the two roundings the ledger applies. */
module Money {
  import opened Sequences

  /** What a form or a caller hands over as an amount. */
  datatype RawAmount = NotANumber | Number(value: real)

  const AMOUNT_LIMIT := 1_0000_0000_0000_00  // max_digits 14, in cents
  const BALANCE_LIMIT := 1_0000_0000_0000_0000_00  // max_digits 18, in cents
  const PRECISION_LIMIT := 1_0000_0000_0000_0000_0000_0000_0000  // 28 digits of a decimal context

  /** The decimal value of a number of cents. */
  function Value(cents: int): real {
    cents as real / 100.0
  }

  /** `quantize(0.01)` under the default context: nearest cent, ties to the even cent. */
  function HalfEven(x: real): int {
    var scaled := x * 100.0;
    var below := scaled.Floor;
    var rest := scaled - below as real;
    if rest < 0.5 || (rest == 0.5 && below % 2 == 0) then below else below + 1
  }

  /** The caller's amount in cents, or nothing when it is no number or leaves the context. */
  function Quantize(raw: RawAmount): Option<int> {
    match raw
    case NotANumber => None
    case Number(x) =>
      var cents := HalfEven(x);
      if -PRECISION_LIMIT < cents < PRECISION_LIMIT then Some(cents) else None
  }

  lemma HalfEvenIsNearest(x: real)
    ensures -0.005 <= x - Value(HalfEven(x)) <= 0.005
    ensures (x - Value(HalfEven(x)) == 0.005 || x - Value(HalfEven(x)) == -0.005) ==> HalfEven(x) % 2 == 0
  {
    var scaled := x * 100.0;
    var below := scaled.Floor;
    assert below as real <= scaled < below as real + 1.0;
    assert x - Value(HalfEven(x)) == (scaled - HalfEven(x) as real) / 100.0;
  }

  lemma HalfEvenMonotone(x: real, y: real)
    requires x <= y
    ensures HalfEven(x) <= HalfEven(y)
  {
    assert x * 100.0 <= y * 100.0;
  }

  /** An amount rounds to a positive number of cents exactly when it is above half a cent. */
  lemma SmallestAmount(x: real)
    ensures HalfEven(x) > 0 <==> x > 0.005
  {
    if x <= 0.005 {
      HalfEvenMonotone(x, 0.005);
      assert HalfEven(0.005) == 0;
    }
  }

  /** Adding two amounts already in cents never rounds: `(previous + delta).quantize`
      is the exact sum. */
  lemma BalanceIsExact(previous: int, delta: int)
    ensures HalfEven(Value(previous) + Value(delta)) == previous + delta
  {
    var x := Value(previous) + Value(delta);
    assert x * 100.0 == (previous + delta) as real;
  }

  /** `quantize(0.01, ROUND_HALF_UP)` of `thousandths` thousandths of a cent: ties go
      away from zero. */
  function HalfUp(thousandths: int): int {
    if thousandths >= 0 then (2 * thousandths + 1000) / 2000 else -((2 * -thousandths + 1000) / 2000)
  }

  /** `suggested_amount_for_offer`: unit price (cents) times quantity (thousandths);
      nothing for a zero-priced quote. */
  function SuggestedAmount(unitPrice: int, quantity: int): Option<int> {
    if unitPrice <= 0 then None else Some(HalfUp(unitPrice * quantity))
  }

  /** A quote with a price suggests the cent nearest to price times quantity, the upper one
      of two; the suggestion grows with the quantity, and posting it unchanged rounds
      nothing a second time. A quote without a price suggests nothing. */
  lemma SuggestedAmountIsFair(unitPrice: int, quantity: nat, more: nat)
    requires quantity <= more
    ensures SuggestedAmount(unitPrice, quantity).Some? <==> unitPrice > 0
    ensures unitPrice > 0 ==>
              var r := SuggestedAmount(unitPrice, quantity).value;
              && -500 < 1000 * r - unitPrice * quantity <= 500
              && r <= SuggestedAmount(unitPrice, more).value
              && HalfEven(Value(r)) == r
  {
    if unitPrice > 0 {
      assert unitPrice * quantity <= unitPrice * more;
      BalanceIsExact(SuggestedAmount(unitPrice, quantity).value, 0);
    }
  }

  lemma SuggestedAmountGrowsWithPrice(cheap: int, dear: int, quantity: nat)
    requires 0 < cheap <= dear
    ensures SuggestedAmount(cheap, quantity).value <= SuggestedAmount(dear, quantity).value
  {
    assert cheap * quantity <= dear * quantity;
  }
}
