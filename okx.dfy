/**
 Selection of OKX instruments (SPOT and SWAP share one shape): the hyphenated
 instrument id is matched against the allow-list after removing its hyphens,
 and the record keeps the id and the size fields as the exchange gave them.
 */
module OkxFetch {
  import opened RefData

  datatype OkxInstrument = OkxInstrument(instId: string, tickSz: string, lotSz: string)

  /** `s` with every '-' removed; every other character is kept, in order. */
  function StripHyphens(s: string): (r: string)
    ensures '-' !in r
    ensures |r| <= |s|
    ensures '-' !in s ==> r == s
  {
    if s == [] then []
    else
      var init := StripHyphens(s[..|s| - 1]);
      if s[|s| - 1] == '-' then init else init + [s[|s| - 1]]
  }

  /** Removing hyphens works piecewise. */
  lemma {:induction false} StripHyphensAppend(a: string, b: string)
    ensures StripHyphens(a + b) == StripHyphens(a) + StripHyphens(b)
    decreases |b|
  {
    if b != [] {
      var n := |b| - 1;
      assert (a + b)[..|a + b| - 1] == a + b[..n];
      StripHyphensAppend(a, b[..n]);
    } else {
      assert a + b == a;
    }
  }

  /** Every character other than '-' occurs in the result exactly as often as in `s`. */
  lemma {:induction false} StripHyphensKeepsOthers(s: string, c: char)
    requires c != '-'
    ensures multiset(StripHyphens(s))[c] == multiset(s)[c]
    decreases |s|
  {
    if s != [] {
      var n := |s| - 1;
      assert s == s[..n] + [s[n]];
      StripHyphensKeepsOthers(s[..n], c);
    }
  }

  /** Stripping is idempotent. */
  lemma StripHyphensIdempotent(s: string)
    ensures StripHyphens(StripHyphens(s)) == StripHyphens(s)
  {
  }

  /** The allow-list test applied to an instrument id. */
  predicate OkxListed(instId: string)
  {
    Listed(StripHyphens(instId))
  }

  /** Stripping "BASE-QUOTE" yields "BASEQUOTE" when neither part holds a hyphen. */
  lemma StripPair(base: string, quote: string)
    requires '-' !in base && '-' !in quote
    ensures StripHyphens(base + "-" + quote) == base + quote
  {
    StripHyphensAppend(base + "-", quote);
    StripHyphensAppend(base, "-");
    assert StripHyphens("-") == [];
  }

  /** "BTC-USDT" matches the allow-listed "BTCUSDT". */
  lemma OkxListedBtcUsdt()
    ensures StripHyphens("BTC-USDT") == "BTCUSDT" && OkxListed("BTC-USDT")
  {
    StripPair("BTC", "USDT");
    assert "BTC" + "-" + "USDT" == "BTC-USDT";
    assert "BTC" + "USDT" == "BTCUSDT";
  }

  /** "BTC-USD" matches nothing on the allow-list. */
  lemma OkxNotListedBtcUsd()
    ensures StripHyphens("BTC-USD") == "BTCUSD" && !OkxListed("BTC-USD")
  {
    StripPair("BTC", "USD");
    assert "BTC" + "-" + "USD" == "BTC-USD";
    assert "BTC" + "USD" == "BTCUSD";
  }

  /** The record built for one kept instrument. */
  function OkxRecord(inst: OkxInstrument, pt: ProductType): ReferenceData
  {
    ReferenceData(ProductLabel(pt), OkxLabel, inst.instId, inst.tickSz, inst.lotSz)
  }

  /** Instrument `inst` is kept and yields the record `r`. */
  predicate Yields(inst: OkxInstrument, pt: ProductType, r: ReferenceData)
  {
    OkxListed(inst.instId) && r == OkxRecord(inst, pt)
  }

  /** What a fetcher returns for the decoded `data` list. */
  function SelectOkx(insts: seq<OkxInstrument>, pt: ProductType): seq<ReferenceData>
  {
    if insts == [] then []
    else
      var last := insts[|insts| - 1];
      SelectOkx(insts[..|insts| - 1], pt) + (if OkxListed(last.instId) then [OkxRecord(last, pt)] else [])
  }

  /** Number of instruments in `insts` whose id is `id`. */
  function CountInstId(insts: seq<OkxInstrument>, id: string): nat
  {
    if insts == [] then 0
    else CountInstId(insts[..|insts| - 1], id) + (if insts[|insts| - 1].instId == id then 1 else 0)
  }

  /**
   The selection loop of `fetch_okx_spot` (pt = Spot) and `fetch_okx_futures`
   (pt = Perp).
   */
  method FetchOkx(insts: seq<OkxInstrument>, pt: ProductType) returns (results: seq<ReferenceData>)
    ensures results == SelectOkx(insts, pt)
  {
    results := [];
    for i := 0 to |insts|
      invariant results == SelectOkx(insts[..i], pt)
    {
      var inst := insts[i];
      assert insts[..i + 1][..i] == insts[..i];
      var normalized := StripHyphens(inst.instId);
      if !Listed(normalized) {
        continue;
      }
      results := results + [ReferenceData(ProductLabel(pt), OkxLabel, inst.instId, inst.tickSz, inst.lotSz)];
    }
    assert insts[..|insts|] == insts;
  }

  /** Selection is order-preserving: it distributes over concatenation. */
  lemma {:induction false} SelectOkxAppend(a: seq<OkxInstrument>, b: seq<OkxInstrument>, pt: ProductType)
    ensures SelectOkx(a + b, pt) == SelectOkx(a, pt) + SelectOkx(b, pt)
    decreases |b|
  {
    if b == [] {
      assert a + b == a;
    } else {
      var n := |b| - 1;
      assert (a + b)[..|a + b| - 1] == a + b[..n];
      SelectOkxAppend(a, b[..n], pt);
    }
  }

  /**
   A record is produced exactly when an instrument whose hyphen-free id is
   allow-listed yields it; the record keeps the hyphenated id and copies the
   size fields unchanged, under the OKX label pair.
   */
  lemma {:induction false} SelectOkxMember(insts: seq<OkxInstrument>, pt: ProductType, r: ReferenceData)
    ensures r in SelectOkx(insts, pt) <==>
      exists i :: 0 <= i < |insts| && Yields(insts[i], pt, r)
    decreases |insts|
  {
    if insts != [] {
      var n := |insts| - 1;
      var init := insts[..n];
      SelectOkxMember(init, pt, r);
      var tail := if OkxListed(insts[n].instId) then [OkxRecord(insts[n], pt)] else [];
      assert SelectOkx(insts, pt) == SelectOkx(init, pt) + tail;
      assert r in tail <==> Yields(insts[n], pt, r);
      assert (exists i :: 0 <= i < n && Yields(init[i], pt, r)) <==>
             (exists i :: 0 <= i < n && Yields(insts[i], pt, r)) by {
        forall i | 0 <= i < n ensures init[i] == insts[i] { }
      }
    }
  }

  /** Every record carries the OKX label pair and an id that passes the allow-list test. */
  lemma SelectOkxLabels(insts: seq<OkxInstrument>, pt: ProductType, r: ReferenceData)
    requires r in SelectOkx(insts, pt)
    ensures r.productType == ProductLabel(pt) && r.exchange == OkxLabel && OkxListed(r.exchangeSymbol)
  {
    SelectOkxMember(insts, pt, r);
    var i :| 0 <= i < |insts| && Yields(insts[i], pt, r);
  }

  /**
   Exactly one record per kept instrument: an id whose hyphen-free form is
   allow-listed appears among the records as often as among the inputs, any
   other id never.
   */
  lemma {:induction false} SelectOkxCount(insts: seq<OkxInstrument>, pt: ProductType, id: string)
    ensures CountSymbol(SelectOkx(insts, pt), id) == if OkxListed(id) then CountInstId(insts, id) else 0
    decreases |insts|
  {
    if insts != [] {
      var n := |insts| - 1;
      var last := insts[n];
      var tail := if OkxListed(last.instId) then [OkxRecord(last, pt)] else [];
      SelectOkxCount(insts[..n], pt, id);
      CountSymbolAppend(SelectOkx(insts[..n], pt), tail, id);
      if tail != [] {
        assert tail[..0] == [];
      }
    }
  }
}
