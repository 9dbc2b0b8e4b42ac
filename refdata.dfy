/**
 The common record every fetcher produces, the text labels it carries and the
 fixed allow-list of instruments the synchronizer cares about.
 */
module RefData {

  /** The two product types the synchronizer fetches. */
  datatype ProductType = Spot | Perp

  /** The text stored in the `product_type` column for a product type. */
  function ProductLabel(pt: ProductType): string
  {
    match pt
    case Spot => "spot"
    case Perp => "perp"
  }

  /** The text stored in the `exchange` column. */
  const BinanceLabel: string := "binance"
  const OkxLabel: string := "okx"

  /** One normalised instrument, as the fetchers hand it to the store. */
  datatype ReferenceData = ReferenceData(
    productType: string,
    exchange: string,
    exchangeSymbol: string,
    tickSize: string,
    lotSize: string)

  /** The fixed allow-list of concatenated symbols. */
  const Symbols: seq<string> := ["BTCUSDT", "ETHUSDT", "SOLUSDT", "LINKUSDT", "BNBUSDT", "AVAXUSDT"]

  predicate Listed(s: string)
  {
    s in Symbols
  }

  /** Number of records in `recs` whose exchange symbol is `s`. */
  function CountSymbol(recs: seq<ReferenceData>, s: string): nat
  {
    if recs == [] then 0
    else CountSymbol(recs[..|recs| - 1], s) + (if recs[|recs| - 1].exchangeSymbol == s then 1 else 0)
  }

  lemma {:induction false} CountSymbolAppend(a: seq<ReferenceData>, b: seq<ReferenceData>, s: string)
    ensures CountSymbol(a + b, s) == CountSymbol(a, s) + CountSymbol(b, s)
    decreases |b|
  {
    if b == [] {
      assert a + b == a;
    } else {
      var n := |b| - 1;
      assert (a + b)[..|a + b| - 1] == a + b[..n];
      CountSymbolAppend(a, b[..n], s);
    }
  }

  /** No allow-listed symbol contains a hyphen. */
  lemma ListedHasNoHyphen(s: string)
    requires Listed(s)
    ensures '-' !in s
  {
  }
}
