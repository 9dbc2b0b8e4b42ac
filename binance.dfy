/**
 Selection of Binance instruments (spot and USD-M futures share one shape):
 keep the allow-listed symbols and read tick size and lot size from the
 symbol's filter list.
 */
module BinanceFetch {
  import opened RefData

  /** One entry of a symbol's `filters` list, tagged by `filterType`. */
  datatype BinanceFilter = PriceFilter(tickSize: string) | LotSize(stepSize: string) | Other

  datatype BinanceSymbol = BinanceSymbol(symbol: string, filters: seq<BinanceFilter>)

  // ---------------------------------------------------------------------------
  // The filter scan

  /** The tick size the scan ends with: that of the last PRICE_FILTER, or "". */
  function LastTick(fs: seq<BinanceFilter>): string
  {
    if fs == [] then ""
    else match fs[|fs| - 1]
      case PriceFilter(t) => t
      case _ => LastTick(fs[..|fs| - 1])
  }

  /** The lot size the scan ends with: that of the last LOT_SIZE, or "". */
  function LastLot(fs: seq<BinanceFilter>): string
  {
    if fs == [] then ""
    else match fs[|fs| - 1]
      case LotSize(s) => s
      case _ => LastLot(fs[..|fs| - 1])
  }

  predicate HasPriceFilter(fs: seq<BinanceFilter>)
  {
    exists i :: 0 <= i < |fs| && fs[i].PriceFilter?
  }

  predicate HasLotSize(fs: seq<BinanceFilter>)
  {
    exists i :: 0 <= i < |fs| && fs[i].LotSize?
  }

  /** Without a PRICE_FILTER the tick size stays the empty string. */
  lemma {:induction false} LastTickNone(fs: seq<BinanceFilter>)
    requires !HasPriceFilter(fs)
    ensures LastTick(fs) == ""
    decreases |fs|
  {
    if fs != [] {
      var n := |fs| - 1;
      assert !fs[n].PriceFilter?;
      assert !HasPriceFilter(fs[..n]) by {
        forall i | 0 <= i < n ensures !fs[..n][i].PriceFilter? {
          assert fs[..n][i] == fs[i];
        }
      }
      LastTickNone(fs[..n]);
    }
  }

  /** The tick size is that of the PRICE_FILTER at `i` when no later one follows. */
  lemma {:induction false} LastTickAt(fs: seq<BinanceFilter>, i: nat)
    requires i < |fs| && fs[i].PriceFilter?
    requires forall j :: i < j < |fs| ==> !fs[j].PriceFilter?
    ensures LastTick(fs) == fs[i].tickSize
    decreases |fs|
  {
    var n := |fs| - 1;
    if i < n {
      assert fs[..n][i] == fs[i];
      forall j | i < j < n ensures !fs[..n][j].PriceFilter? {
        assert fs[..n][j] == fs[j];
      }
      LastTickAt(fs[..n], i);
    }
  }

  /** Without a LOT_SIZE the lot size stays the empty string. */
  lemma {:induction false} LastLotNone(fs: seq<BinanceFilter>)
    requires !HasLotSize(fs)
    ensures LastLot(fs) == ""
    decreases |fs|
  {
    if fs != [] {
      var n := |fs| - 1;
      assert !fs[n].LotSize?;
      assert !HasLotSize(fs[..n]) by {
        forall i | 0 <= i < n ensures !fs[..n][i].LotSize? {
          assert fs[..n][i] == fs[i];
        }
      }
      LastLotNone(fs[..n]);
    }
  }

  /** The lot size is that of the LOT_SIZE at `i` when no later one follows. */
  lemma {:induction false} LastLotAt(fs: seq<BinanceFilter>, i: nat)
    requires i < |fs| && fs[i].LotSize?
    requires forall j :: i < j < |fs| ==> !fs[j].LotSize?
    ensures LastLot(fs) == fs[i].stepSize
    decreases |fs|
  {
    var n := |fs| - 1;
    if i < n {
      assert fs[..n][i] == fs[i];
      forall j | i < j < n ensures !fs[..n][j].LotSize? {
        assert fs[..n][j] == fs[j];
      }
      LastLotAt(fs[..n], i);
    }
  }

  /** Scanning a concatenation: a later match overrides, otherwise the earlier part decides. */
  lemma {:induction false} ScanAppend(fs: seq<BinanceFilter>, gs: seq<BinanceFilter>)
    ensures LastTick(fs + gs) == if HasPriceFilter(gs) then LastTick(gs) else LastTick(fs)
    ensures LastLot(fs + gs) == if HasLotSize(gs) then LastLot(gs) else LastLot(fs)
    decreases |gs|
  {
    if gs == [] {
      assert fs + gs == fs;
    } else {
      var n := |gs| - 1;
      var fg := fs + gs;
      assert fg[..|fg| - 1] == fs + gs[..n];
      assert fg[|fg| - 1] == gs[n];
      ScanAppend(fs, gs[..n]);
      assert HasPriceFilter(gs[..n]) ==> HasPriceFilter(gs) by {
        if HasPriceFilter(gs[..n]) {
          var i :| 0 <= i < n && gs[..n][i].PriceFilter?;
          assert gs[i] == gs[..n][i];
        }
      }
      assert HasPriceFilter(gs) && !gs[n].PriceFilter? ==> HasPriceFilter(gs[..n]) by {
        if HasPriceFilter(gs) && !gs[n].PriceFilter? {
          var i :| 0 <= i < |gs| && gs[i].PriceFilter?;
          assert gs[..n][i] == gs[i];
        }
      }
      assert HasLotSize(gs[..n]) ==> HasLotSize(gs) by {
        if HasLotSize(gs[..n]) {
          var i :| 0 <= i < n && gs[..n][i].LotSize?;
          assert gs[i] == gs[..n][i];
        }
      }
      assert HasLotSize(gs) && !gs[n].LotSize? ==> HasLotSize(gs[..n]) by {
        if HasLotSize(gs) && !gs[n].LotSize? {
          var i :| 0 <= i < |gs| && gs[i].LotSize?;
          assert gs[..n][i] == gs[i];
        }
      }
    }
  }

  /** A filter of any other kind changes neither field, wherever it stands. */
  lemma OtherIgnored(fs: seq<BinanceFilter>, gs: seq<BinanceFilter>)
    ensures LastTick(fs + [Other] + gs) == LastTick(fs + gs)
    ensures LastLot(fs + [Other] + gs) == LastLot(fs + gs)
  {
    ScanAppend(fs + [Other], gs);
    ScanAppend(fs, gs);
    ScanAppend(fs, [Other]);
    assert !HasPriceFilter([Other]) && !HasLotSize([Other]);
  }

  /** The inner loop of the fetchers: every filter overwrites the field it carries. */
  method ScanFilters(fs: seq<BinanceFilter>) returns (tick: string, lot: string)
    ensures tick == LastTick(fs) && lot == LastLot(fs)
  {
    tick, lot := "", "";
    for i := 0 to |fs|
      invariant tick == LastTick(fs[..i]) && lot == LastLot(fs[..i])
    {
      assert fs[..i + 1][..i] == fs[..i];
      match fs[i]
      case PriceFilter(t) => tick := t;
      case LotSize(s) => lot := s;
      case Other =>
    }
    assert fs[..|fs|] == fs;
  }

  // ---------------------------------------------------------------------------
  // Symbol selection

  /** The record built for one allow-listed symbol. */
  function BinanceRecord(info: BinanceSymbol, pt: ProductType): ReferenceData
  {
    ReferenceData(ProductLabel(pt), BinanceLabel, info.symbol, LastTick(info.filters), LastLot(info.filters))
  }

  /** What a fetcher returns for the decoded `symbols` list. */
  function SelectBinance(infos: seq<BinanceSymbol>, pt: ProductType): seq<ReferenceData>
  {
    if infos == [] then []
    else
      var last := infos[|infos| - 1];
      SelectBinance(infos[..|infos| - 1], pt) + (if Listed(last.symbol) then [BinanceRecord(last, pt)] else [])
  }

  /** Number of entries of `infos` named `s`. */
  function CountInput(infos: seq<BinanceSymbol>, s: string): nat
  {
    if infos == [] then 0
    else CountInput(infos[..|infos| - 1], s) + (if infos[|infos| - 1].symbol == s then 1 else 0)
  }

  /**
   The selection loop of `fetch_binance_spot` (pt = Spot) and
   `fetch_binance_futures` (pt = Perp).
   */
  method FetchBinance(infos: seq<BinanceSymbol>, pt: ProductType) returns (results: seq<ReferenceData>)
    ensures results == SelectBinance(infos, pt)
  {
    results := [];
    for i := 0 to |infos|
      invariant results == SelectBinance(infos[..i], pt)
    {
      var info := infos[i];
      assert infos[..i + 1][..i] == infos[..i];
      if !Listed(info.symbol) {
        continue;
      }
      var tick, lot := ScanFilters(info.filters);
      results := results + [ReferenceData(ProductLabel(pt), BinanceLabel, info.symbol, tick, lot)];
    }
    assert infos[..|infos|] == infos;
  }

  /** Selection is order-preserving: it distributes over concatenation. */
  lemma {:induction false} SelectBinanceAppend(a: seq<BinanceSymbol>, b: seq<BinanceSymbol>, pt: ProductType)
    ensures SelectBinance(a + b, pt) == SelectBinance(a, pt) + SelectBinance(b, pt)
    decreases |b|
  {
    if b == [] {
      assert a + b == a;
    } else {
      var n := |b| - 1;
      assert (a + b)[..|a + b| - 1] == a + b[..n];
      SelectBinanceAppend(a, b[..n], pt);
    }
  }

  /**
   A record is produced exactly when some allow-listed input symbol yields it;
   it carries the Binance label pair and an allow-listed symbol.
   */
  lemma {:induction false} SelectBinanceMember(infos: seq<BinanceSymbol>, pt: ProductType, r: ReferenceData)
    ensures r in SelectBinance(infos, pt) <==>
      exists i :: 0 <= i < |infos| && Listed(infos[i].symbol) && r == BinanceRecord(infos[i], pt)
    ensures r in SelectBinance(infos, pt) ==>
      r.productType == ProductLabel(pt) && r.exchange == BinanceLabel && Listed(r.exchangeSymbol)
    decreases |infos|
  {
    if infos != [] {
      var n := |infos| - 1;
      SelectBinanceMember(infos[..n], pt, r);
      if exists i :: 0 <= i < |infos| && Listed(infos[i].symbol) && r == BinanceRecord(infos[i], pt) {
        var i :| 0 <= i < |infos| && Listed(infos[i].symbol) && r == BinanceRecord(infos[i], pt);
        if i < n {
          assert infos[..n][i] == infos[i];
        }
      }
      if exists i :: 0 <= i < n && Listed(infos[..n][i].symbol) && r == BinanceRecord(infos[..n][i], pt) {
        var i :| 0 <= i < n && Listed(infos[..n][i].symbol) && r == BinanceRecord(infos[..n][i], pt);
        assert infos[..n][i] == infos[i];
      }
    }
  }

  /**
   Exactly one record per allow-listed input symbol: an allow-listed symbol
   appears among the records as often as among the inputs, any other symbol never.
   */
  lemma {:induction false} SelectBinanceCount(infos: seq<BinanceSymbol>, pt: ProductType, s: string)
    ensures CountSymbol(SelectBinance(infos, pt), s) == if Listed(s) then CountInput(infos, s) else 0
    decreases |infos|
  {
    if infos != [] {
      var n := |infos| - 1;
      var last := infos[n];
      var tail := if Listed(last.symbol) then [BinanceRecord(last, pt)] else [];
      SelectBinanceCount(infos[..n], pt, s);
      CountSymbolAppend(SelectBinance(infos[..n], pt), tail, s);
      if tail != [] {
        assert tail[..0] == [];
      }
    }
  }
}
