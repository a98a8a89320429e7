/** A model of the price step of the oracle's `main`: the HTTP client it
configures, the CoinGecko price request it builds from the fixed ID table, and
the filtering of the response into asset prices keyed by internal asset ID.

Prices are an opaque type `V`; nothing here depends on them being floats.
 */
module PriceFeed {
  import RHttp

  /** `CG_ID_TO_ASSET_ID_MAP`: CoinGecko API ID to internal asset ID. */
  const CgIdToAssetId: map<string, string> := map[
    "bitcoin" := "btc",
    "ethereum" := "eth",
    "usd-coin" := "usdc",
    "tether" := "usdt",
    "solana" := "sol",
    "jupiter-exchange-solana" := "jup"
  ]

  /** The only currency asked for and kept. */
  const Usd: string := "usd"

  /** True iff distinct keys of `m` map to distinct values. */
  ghost predicate Injective(m: map<string, string>)
  {
    forall x, y :: x in m && y in m && x != y ==> m[x] != m[y]
  }

  /** No two IDs of the table share an asset ID, so no asset's price can be
      overwritten by another's: its six IDs have six distinct asset IDs. */
  lemma TableInjective()
    ensures Injective(CgIdToAssetId)
  {
    TableSize();
    TableAssets();
    assert "btc"[0] == 'b' && "eth"[0] == 'e' && "sol"[0] == 's' && "jup"[0] == 'j';
    assert "usdc"[0] == 'u' && "usdt"[0] == 'u' && "usdc"[3] == 'c' && "usdt"[3] == 't';
    SixDistinct("btc", "eth", "usdc", "usdt", "sol", "jup");
    InjectiveByCount(CgIdToAssetId);
  }

  /** The six IDs of the table, which differ in their first letter. */
  lemma TableKeys()
    ensures CgIdToAssetId.Keys == {"bitcoin", "ethereum", "usd-coin", "tether", "solana", "jupiter-exchange-solana"}
    ensures "bitcoin"[0] == 'b' && "ethereum"[0] == 'e' && "usd-coin"[0] == 'u'
    ensures "tether"[0] == 't' && "solana"[0] == 's' && "jupiter-exchange-solana"[0] == 'j'
  {
  }

  /** The table holds six IDs. */
  lemma TableSize()
    ensures |CgIdToAssetId| == 6
  {
    TableKeys();
    SixDistinct("bitcoin", "ethereum", "usd-coin", "tether", "solana", "jupiter-exchange-solana");
  }

  /** The asset IDs of the table. */
  lemma TableAssets()
    ensures CgIdToAssetId.Values == {"btc", "eth", "usdc", "usdt", "sol", "jup"}
  {
    TableKeys();
    var m := CgIdToAssetId;
    assert m["bitcoin"] in m.Values && m["ethereum"] in m.Values && m["usd-coin"] in m.Values;
    assert m["tether"] in m.Values && m["solana"] in m.Values && m["jupiter-exchange-solana"] in m.Values;
    forall v | v in m.Values
      ensures v in {"btc", "eth", "usdc", "usdt", "sol", "jup"}
    {
      var k :| k in m && m[k] == v;
    }
  }

  /** Six pairwise distinct strings make a set of six. */
  lemma SixDistinct(a: string, b: string, c: string, d: string, e: string, f: string)
    requires a != b && a != c && a != d && a != e && a != f
    requires b != c && b != d && b != e && b != f
    requires c != d && c != e && c != f
    requires d != e && d != f
    requires e != f
    ensures |{a, b, c, d, e, f}| == 6
  {
    assert |{a, b}| == 2;
    assert |{a, b} + {c}| == 3;
    assert |{a, b, c} + {d}| == 4;
    assert |{a, b, c, d} + {e}| == 5;
    assert |{a, b, c, d, e} + {f}| == 6;
    assert {a, b, c, d, e} + {f} == {a, b, c, d, e, f};
  }

  // ---------------------------------------------------------------------------
  // The HTTP client

  /** The client `main` builds: half a request per second, five retries. */
  function ConfiguredClient(): (c: RHttp.Client)
    ensures c.rateLimiter == RHttp.Some(RHttp.RateLimiter(0.5))
    ensures c.maxRetries == 5
  {
    RHttp.WithMaxRetries(RHttp.WithMaxRequestsPerSecond(RHttp.New(), 0.5), 5)
  }

  /** The worst case of the configured client: against a transport that always
      fails, it makes six paced dispatches, sleeps 2, 4, 8, 16 and 32 seconds in
      between, and returns the sixth error. */
  lemma ConfiguredWorstCase<R, E>(outcomes: seq<RHttp.Outcome<R, E>>)
    requires 5 < |outcomes|
    requires forall i :: 0 <= i <= 5 ==> outcomes[i].Err?
    ensures RHttp.Attempt(ConfiguredClient(), true, outcomes, 0).result == RHttp.TransportError(outcomes[5].error)
    ensures RHttp.Count(RHttp.Attempt(ConfiguredClient(), true, outcomes, 0).trace, RHttp.Dispatch) == 6
    ensures RHttp.Count(RHttp.Attempt(ConfiguredClient(), true, outcomes, 0).trace, RHttp.Tick) == 6
    ensures RHttp.Sleeps(RHttp.Attempt(ConfiguredClient(), true, outcomes, 0).trace) == [2, 4, 8, 16, 32]
  {
    var c := ConfiguredClient();
    RHttp.AttemptSettles(c, outcomes, 0, 5);
    FiveBackoffs();
  }

  /** The first five backoffs are 2, 4, 8, 16 and 32 seconds. */
  lemma FiveBackoffs()
    ensures RHttp.Schedule(1, 5) == [2, 4, 8, 16, 32]
  {
    RHttp.BackoffExact(1);
    RHttp.BackoffExact(2);
    RHttp.BackoffExact(3);
    RHttp.BackoffExact(4);
    RHttp.BackoffExact(5);
  }

  // ---------------------------------------------------------------------------
  // The price request

  /** The arguments of `get_latest_prices`: CoinGecko IDs and currencies. */
  datatype PriceRequest = PriceRequest(ids: seq<string>, currencies: seq<string>)

  /** The elements of `s` in some order, each once: the iteration order of a
      hash map's keys, which the program does not fix. */
  ghost function InSomeOrder(s: set<string>): (xs: seq<string>)
    ensures |xs| == |s|
    ensures forall x :: x in xs <==> x in s
    ensures forall i, j :: 0 <= i < j < |xs| ==> xs[i] != xs[j]
    decreases |s|
  {
    if s == {} then []
    else
      var x :| x in s;
      [x] + InSomeOrder(s - {x})
  }

  /** The request `main` issues: every table key once, and only `"usd"`. */
  ghost function LatestPricesRequest(): (req: PriceRequest)
    ensures forall id :: id in req.ids <==> id in CgIdToAssetId
    ensures forall i, j :: 0 <= i < j < |req.ids| ==> req.ids[i] != req.ids[j]
    ensures |req.ids| == 6
    ensures req.currencies == [Usd]
  {
    TableSize();
    PriceRequest(InSomeOrder(CgIdToAssetId.Keys), [Usd])
  }

  // ---------------------------------------------------------------------------
  // Filtering the response

  /** A CoinGecko price response: CoinGecko ID to currency to price. */
  type Response<V> = map<string, map<string, V>>

  /** The reference meaning of the filtering step for an ID table `table`:
      for every response ID the table knows and that carries a `"usd"` price,
      that price under the ID's asset ID. An injective table never sends two
      IDs to one asset, so the prices cannot clash. */
  function Reprice<V>(table: map<string, string>, response: Response<V>): (prices: map<string, V>)
    requires Injective(table)
  {
    map id | id in response && id in table && Usd in response[id] :: table[id] := response[id][Usd]
  }

  /** Adding the entry of an ID that is unknown, or that has no `"usd"` price,
      changes no price. */
  lemma RepriceSkip<V>(table: map<string, string>, seen: Response<V>, id: string, inner: map<string, V>)
    requires Injective(table)
    requires id !in seen
    requires !(id in table && Usd in inner)
    ensures Reprice(table, seen[id := inner]) == Reprice(table, seen)
  {
    var before := Reprice(table, seen);
    var after := Reprice(table, seen[id := inner]);
    forall asset | asset in after
      ensures asset in before && after[asset] == before[asset]
    {
      var other :| other in seen[id := inner] && other in table && Usd in seen[id := inner][other]
                   && table[other] == asset;
      assert other in seen && seen[other] == seen[id := inner][other];
    }
    forall asset | asset in before
      ensures asset in after
    {
      var other :| other in seen && other in table && Usd in seen[other] && table[other] == asset;
      assert other in seen[id := inner] && seen[id := inner][other] == seen[other];
    }
    assert after.Keys == before.Keys;
  }

  /** Before a known ID is seen, no price is stored under its asset. */
  lemma RepriceFresh<V>(table: map<string, string>, seen: Response<V>, id: string)
    requires Injective(table)
    requires id !in seen
    requires id in table
    ensures table[id] !in Reprice(table, seen)
  {
    forall other | other in seen && other in table
      ensures table[other] != table[id]
    {
      assert other != id;
    }
  }

  /** Adding the entry of a known ID with a `"usd"` price adds that price under
      the ID's asset, at a key that held none, and changes no other price. */
  lemma RepriceInsert<V>(table: map<string, string>, seen: Response<V>, id: string, inner: map<string, V>)
    requires Injective(table)
    requires id !in seen
    requires id in table && Usd in inner
    ensures table[id] !in Reprice(table, seen)
    ensures Reprice(table, seen[id := inner]) == Reprice(table, seen)[table[id] := inner[Usd]]
  {
    RepriceFresh(table, seen, id);
    var before := Reprice(table, seen);
    var after := Reprice(table, seen[id := inner]);
    var expected := before[table[id] := inner[Usd]];
    forall asset | asset in after
      ensures asset in expected && after[asset] == expected[asset]
    {
      var other :| other in seen[id := inner] && other in table && Usd in seen[id := inner][other]
                   && table[other] == asset;
      if other != id {
        assert other in seen && Usd in seen[other];
      }
    }
    forall asset | asset in expected
      ensures asset in after
    {
      if asset != table[id] {
        var other :| other in seen && other in table && Usd in seen[other] && table[other] == asset;
        assert other in seen[id := inner] && seen[id := inner][other] == seen[other];
      }
    }
    assert after.Keys == expected.Keys;
  }

  /** Adding the entry of one more ID to a response adds at most that ID's
      asset price, at a key that held none, and leaves every other price as it was. */
  lemma RepriceAdd<V>(table: map<string, string>, seen: Response<V>, id: string, inner: map<string, V>)
    requires Injective(table)
    requires id !in seen
    ensures id in table && Usd in inner ==>
      table[id] !in Reprice(table, seen) &&
      Reprice(table, seen[id := inner]) == Reprice(table, seen)[table[id] := inner[Usd]]
    ensures !(id in table && Usd in inner) ==> Reprice(table, seen[id := inner]) == Reprice(table, seen)
  {
    if id in table && Usd in inner {
      RepriceInsert(table, seen, id, inner);
    } else {
      RepriceSkip(table, seen, id, inner);
    }
  }

  /** The loop of `main` over the response, in whatever order its map yields
      the IDs: unknown IDs and entries without `"usd"` are skipped, the others
      inserted under their asset ID. */
  method CollectPrices<V>(table: map<string, string>, response: Response<V>) returns (prices: map<string, V>)
    requires Injective(table)
    ensures prices == Reprice(table, response)
  {
    prices := map[];
    var todo := response.Keys;
    while todo != {}
      invariant todo <= response.Keys
      invariant prices == Reprice(table, response - todo)
      decreases todo
    {
      var id :| id in todo;
      VisitOne(response, todo, id);
      RepriceAdd(table, response - todo, id, response[id]);
      if id in table {
        var inner := response[id];
        if Usd in inner {
          prices := prices[table[id] := inner[Usd]];
        }
      }
      todo := todo - {id};
    }
    NothingLeft(response);
  }

  /** The visited part of `m` grows by the key `k` taken off `todo`. */
  lemma VisitOne<X>(m: map<string, X>, todo: set<string>, k: string)
    requires k in todo && todo <= m.Keys
    ensures k !in m - todo
    ensures m - (todo - {k}) == (m - todo)[k := m[k]]
  {
  }

  lemma NothingLeft<X>(m: map<string, X>)
    ensures m - {} == m
  {
  }

  /** Every key of the output is an asset ID of the table. */
  lemma PricesKeyedByAssets<V>(table: map<string, string>, response: Response<V>)
    requires Injective(table)
    ensures Reprice(table, response).Keys <= table.Values
  {
  }

  /** `prices[asset]` is defined iff some ID the table maps to `asset` has a
      `"usd"` entry in the response, and then it is that entry. */
  lemma PriceDefinedIff<V>(table: map<string, string>, response: Response<V>, asset: string)
    requires Injective(table)
    ensures asset in Reprice(table, response)
        <==> exists id :: id in response && id in table && table[id] == asset && Usd in response[id]
    ensures forall id :: (id in response && id in table && table[id] == asset && Usd in response[id]
                          ==> Reprice(table, response)[asset] == response[id][Usd])
  {
  }

  /** Setting a key is setting it in the map without that key; setting a key
      to the value it has changes nothing; removing an absent key changes nothing. */
  lemma ReplaceEntry<X>(m: map<string, X>, k: string, x: X)
    ensures m[k := x] == (m - {k})[k := x]
    ensures k in m && m[k] == x ==> m == (m - {k})[k := x]
    ensures k !in m ==> m == m - {k}
  {
  }

  /** A response ID the table does not know changes nothing. */
  lemma UnknownIdIgnored<V>(table: map<string, string>, response: Response<V>, id: string, inner: map<string, V>)
    requires Injective(table)
    requires id !in table
    ensures Reprice(table, response[id := inner]) == Reprice(table, response)
  {
    var rest := response - {id};
    RepriceAdd(table, rest, id, inner);
    ReplaceEntry(response, id, inner);
    if id in response {
      RepriceAdd(table, rest, id, response[id]);
      ReplaceEntry(response, id, response[id]);
    } else {
      ReplaceEntry(response, id, inner);
    }
  }

  /** A currency other than `"usd"` changes nothing. */
  lemma OtherCurrencyIgnored<V>(table: map<string, string>, response: Response<V>, id: string, currency: string, price: V)
    requires Injective(table)
    requires id in response
    requires currency != Usd
    ensures Reprice(table, response[id := response[id][currency := price]]) == Reprice(table, response)
  {
    var rest := response - {id};
    var inner := response[id];
    var changed := inner[currency := price];
    RepriceAdd(table, rest, id, inner);
    RepriceAdd(table, rest, id, changed);
    ReplaceEntry(response, id, inner);
    ReplaceEntry(response, id, changed);
  }

  /** A map has no more distinct values than keys. */
  lemma {:induction false} ValuesCardinality(m: map<string, string>)
    ensures |m.Values| <= |m.Keys|
    decreases |m.Keys|
  {
    if m.Keys != {} {
      var k :| k in m.Keys;
      var rest := m - {k};
      ValuesCardinality(rest);
      assert m.Keys == rest.Keys + {k};
      assert m.Values <= rest.Values + {m[k]};
      SubsetCardinality(m.Values, rest.Values + {m[k]});
    }
  }

  lemma {:induction false} SubsetCardinality(a: set<string>, b: set<string>)
    ensures a <= b ==> |a| <= |b|
    decreases |b|
  {
    if b != {} {
      var x :| x in b;
      SubsetCardinality(a - {x}, b - {x});
    }
  }

  /** Two distinct keys of a map with as many values as keys have distinct values. */
  lemma DistinctByCount(m: map<string, string>, x: string, y: string)
    requires x in m && y in m && x != y
    requires |m.Values| == |m.Keys|
    ensures m[x] != m[y]
  {
    var rest := m - {x};
    ValuesCardinality(rest);
    assert m.Keys == rest.Keys + {x};
    assert y in rest && rest[y] == m[y];
    assert m.Values <= rest.Values + {m[x]};
    SubsetCardinality(m.Values, rest.Values);
  }

  /** A map with as many values as keys is injective. */
  lemma InjectiveByCount(m: map<string, string>)
    requires |m.Values| == |m.Keys|
    ensures Injective(m)
  {
    forall x, y | x in m && y in m && x != y
      ensures m[x] != m[y]
    {
      DistinctByCount(m, x, y);
    }
  }

  /** The output has at most one price per table entry. */
  lemma AtMostOnePricePerEntry<V>(table: map<string, string>, response: Response<V>)
    requires Injective(table)
    ensures |Reprice(table, response)| <= |table|
  {
    SubsetCardinality(Reprice(table, response).Keys, table.Values);
    ValuesCardinality(table);
  }

  // ---------------------------------------------------------------------------
  // The price step of `main`

  /** What the price step of `main` computes from a response. */
  function UsdPrices<V>(response: Response<V>): map<string, V>
  {
    TableInjective();
    Reprice(CgIdToAssetId, response)
  }

  /** The prices `main` stores: the response filtered through the ID table.
      They are keyed by the table's asset IDs, at most one price per table
      entry, so there are at most six. */
  method MainPrices<V>(response: Response<V>) returns (prices: map<string, V>)
    ensures prices == UsdPrices(response)
    ensures prices.Keys <= CgIdToAssetId.Values
    ensures |prices| <= 6
  {
    TableInjective();
    prices := CollectPrices(CgIdToAssetId, response);
    PricesKeyedByAssets(CgIdToAssetId, response);
    AtMostOnePricePerEntry(CgIdToAssetId, response);
    TableSize();
  }
}
