/** What the strategy components share: configuration and quotes. Floating-point settings are reals. */
module Strategy {
  import opened FixedPoint

  datatype Config = Config(
    maxPositionSize: real,
    maxOrderSize: real,
    targetInventory: real,
    baseQuoteSize: real,
    minConfidence: real)

  datatype StrategyQuote = StrategyQuote(
    timestamp: nat,
    bidPrice: int,
    bidSize: int,
    askPrice: int,
    askSize: int,
    fairValue: int,
    inventory: int,
    confidence: real)

  function ToReal(x: int): real {
    x as real / 100000000.0
  }

  function FromReal(x: real): int {
    RoundReal(x * 100000000.0)
  }
}
