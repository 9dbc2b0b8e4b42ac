/**
 The synchronizer's entry point: the four fetchers run in a fixed order, their
 results are concatenated, and the combined list is upserted into the table.
 */
module Sync {
  import opened RefData
  import opened BinanceFetch
  import opened OkxFetch
  import opened Store

  /** The combined list, in the order the fetchers run. */
  function Combined(binanceSpot: seq<BinanceSymbol>, binanceFutures: seq<BinanceSymbol>,
                    okxSpot: seq<OkxInstrument>, okxSwap: seq<OkxInstrument>): seq<ReferenceData>
  {
    SelectBinance(binanceSpot, Spot) + SelectBinance(binanceFutures, Perp)
      + SelectOkx(okxSpot, Spot) + SelectOkx(okxSwap, Perp)
  }

  /**
   The fetch half of `main`: the four result lists are appended to one list in
   the order Binance spot, Binance futures, OKX spot, OKX swap, and the count
   reported is the sum of their lengths.
   */
  method FetchAll(binanceSpot: seq<BinanceSymbol>, binanceFutures: seq<BinanceSymbol>,
                  okxSpot: seq<OkxInstrument>, okxSwap: seq<OkxInstrument>)
    returns (allData: seq<ReferenceData>, fetched: nat)
    ensures allData == Combined(binanceSpot, binanceFutures, okxSpot, okxSwap)
    ensures fetched == |SelectBinance(binanceSpot, Spot)| + |SelectBinance(binanceFutures, Perp)|
                       + |SelectOkx(okxSpot, Spot)| + |SelectOkx(okxSwap, Perp)|
  {
    allData := [];
    var part := FetchBinance(binanceSpot, Spot);
    allData := allData + part;
    part := FetchBinance(binanceFutures, Perp);
    allData := allData + part;
    part := FetchOkx(okxSpot, Spot);
    allData := allData + part;
    part := FetchOkx(okxSwap, Perp);
    allData := allData + part;
    fetched := |allData|;
  }

  /** The whole of `main`: fetch, then save every record to the table. */
  method Synchronize(table: Table, binanceSpot: seq<BinanceSymbol>, binanceFutures: seq<BinanceSymbol>,
                     okxSpot: seq<OkxInstrument>, okxSwap: seq<OkxInstrument>)
    returns (fetched: nat)
    requires table.Valid()
    modifies table
    ensures table.Valid()
    ensures fetched == |Combined(binanceSpot, binanceFutures, okxSpot, okxSwap)|
    ensures table.rows == UpsertAll(old(table.rows), Combined(binanceSpot, binanceFutures, okxSpot, okxSwap), old(table.clock))
    ensures table.clock == old(table.clock) + fetched
  {
    var allData;
    allData, fetched := FetchAll(binanceSpot, binanceFutures, okxSpot, okxSwap);
    table.SaveAll(allData);
  }

  /** The label pair a record of the combined list carries: one of the four fetchers'. */
  predicate FetcherLabels(r: ReferenceData)
  {
    || (r.exchange == BinanceLabel && r.productType == ProductLabel(Spot))
    || (r.exchange == BinanceLabel && r.productType == ProductLabel(Perp))
    || (r.exchange == OkxLabel && r.productType == ProductLabel(Spot))
    || (r.exchange == OkxLabel && r.productType == ProductLabel(Perp))
  }

  /**
   Every record of a run carries one of the four fetcher label pairs, and its
   symbol with hyphens removed is on the allow-list.
   */
  lemma CombinedRecordsListed(binanceSpot: seq<BinanceSymbol>, binanceFutures: seq<BinanceSymbol>,
                              okxSpot: seq<OkxInstrument>, okxSwap: seq<OkxInstrument>, r: ReferenceData)
    requires r in Combined(binanceSpot, binanceFutures, okxSpot, okxSwap)
    ensures FetcherLabels(r)
    ensures OkxListed(r.exchangeSymbol)
  {
    if r in SelectBinance(binanceSpot, Spot) || r in SelectBinance(binanceFutures, Perp) {
      var pt := if r in SelectBinance(binanceSpot, Spot) then Spot else Perp;
      var infos := if pt == Spot then binanceSpot else binanceFutures;
      SelectBinanceMember(infos, pt, r);
      ListedHasNoHyphen(r.exchangeSymbol);
    } else if r in SelectOkx(okxSpot, Spot) {
      SelectOkxLabels(okxSpot, Spot, r);
    } else {
      SelectOkxLabels(okxSwap, Perp, r);
    }
  }

  /**
   Records from different fetchers never share a table key, so no fetcher's
   rows are overwritten by another's during the same run.
   */
  lemma FetcherKeysDisjoint(binanceSpot: seq<BinanceSymbol>, binanceFutures: seq<BinanceSymbol>,
                            okxSpot: seq<OkxInstrument>, okxSwap: seq<OkxInstrument>)
    ensures KeysOf(SelectBinance(binanceSpot, Spot)) !! KeysOf(SelectBinance(binanceFutures, Perp))
    ensures KeysOf(SelectBinance(binanceSpot, Spot)) !! KeysOf(SelectOkx(okxSpot, Spot))
    ensures KeysOf(SelectBinance(binanceSpot, Spot)) !! KeysOf(SelectOkx(okxSwap, Perp))
    ensures KeysOf(SelectBinance(binanceFutures, Perp)) !! KeysOf(SelectOkx(okxSpot, Spot))
    ensures KeysOf(SelectBinance(binanceFutures, Perp)) !! KeysOf(SelectOkx(okxSwap, Perp))
    ensures KeysOf(SelectOkx(okxSpot, Spot)) !! KeysOf(SelectOkx(okxSwap, Perp))
  {
    KeysLabelled(SelectBinance(binanceSpot, Spot), BinanceLabel, "spot") by {
      forall r | r in SelectBinance(binanceSpot, Spot) ensures r.exchange == BinanceLabel && r.productType == "spot" {
        SelectBinanceMember(binanceSpot, Spot, r);
      }
    }
    KeysLabelled(SelectBinance(binanceFutures, Perp), BinanceLabel, "perp") by {
      forall r | r in SelectBinance(binanceFutures, Perp) ensures r.exchange == BinanceLabel && r.productType == "perp" {
        SelectBinanceMember(binanceFutures, Perp, r);
      }
    }
    KeysLabelled(SelectOkx(okxSpot, Spot), OkxLabel, "spot") by {
      forall r | r in SelectOkx(okxSpot, Spot) ensures r.exchange == OkxLabel && r.productType == "spot" {
        SelectOkxLabels(okxSpot, Spot, r);
      }
    }
    KeysLabelled(SelectOkx(okxSwap, Perp), OkxLabel, "perp") by {
      forall r | r in SelectOkx(okxSwap, Perp) ensures r.exchange == OkxLabel && r.productType == "perp" {
        SelectOkxLabels(okxSwap, Perp, r);
      }
    }
  }

  /** Keys of records that all carry one label pair carry that pair too. */
  lemma KeysLabelled(recs: seq<ReferenceData>, exchange: string, productType: string)
    requires forall r | r in recs :: r.exchange == exchange && r.productType == productType
    ensures forall k | k in KeysOf(recs) :: k.exchange == exchange && k.productType == productType
  {
    forall k | k in KeysOf(recs) ensures k.exchange == exchange && k.productType == productType {
      var i :| 0 <= i < |recs| && k == KeyOf(recs[i]);
      assert recs[i] in recs;
    }
  }
}
