/**
 * Successive single-key lookups on one cache, as a caller makes them one
 * after the other, and what the cache promises across them: records it did
 * not touch stay as they were, a refreshed price is served until it expires
 * and not after, with no positive lifetime nothing is ever served from the
 * table, and every price handed out is one the service gave for that item.
 */
module CacheRuns {
  import opened Cache

  /** One call of the lookup: the item code and the two instants it reads. */
  datatype Request = Request(itemCode: string, nowCheck: int, nowStore: int)

  /** The results of a sequence of lookups, the table after them, and which ones asked the service. */
  datatype Run<V> = Run(results: seq<Result<V>>, prices: map<string, Price<V>>, consulted: seq<bool>)

  /** The lookups `reqs`, in order, on a cache holding `prices`. */
  function Replay<V>(prices: map<string, Price<V>>, maxAge: int, service: PriceService<V>,
                     reqs: seq<Request>): (run: Run<V>)
    ensures |run.results| == |run.consulted| == |reqs|
    ensures prices.Keys <= run.prices.Keys
    decreases |reqs|
  {
    if reqs == [] then Run([], prices, [])
    else
      var s := PriceFor(prices, maxAge, service, reqs[0].itemCode, reqs[0].nowCheck, reqs[0].nowStore);
      var rest := Replay(s.prices, maxAge, service, reqs[1..]);
      Run([s.result] + rest.results, rest.prices, [s.consulted] + rest.consulted)
  }

  /**
   * A lookup leaves the record (or the absence) of every other item code as
   * it was: the frame clause of `PriceFor`, restated per key.
   */
  lemma OtherKeys<V>(prices: map<string, Price<V>>, maxAge: int, service: PriceService<V>,
                     r: Request, itemCode: string)
    requires r.itemCode != itemCode
    ensures var after := PriceFor(prices, maxAge, service, r.itemCode, r.nowCheck, r.nowStore).prices;
            (itemCode in after <==> itemCode in prices) &&
            (itemCode in prices ==> after[itemCode] == prices[itemCode])
  {
  }

  /** No lookup in `reqs`, made in order on a cache holding `prices`, stores a price for `itemCode`. */
  ghost predicate StoresNothingFor<V>(prices: map<string, Price<V>>, maxAge: int, service: PriceService<V>,
                                      reqs: seq<Request>, itemCode: string)
    decreases |reqs|
  {
    reqs == [] ||
    (var s := PriceFor(prices, maxAge, service, reqs[0].itemCode, reqs[0].nowCheck, reqs[0].nowStore);
     (reqs[0].itemCode == itemCode ==> !(s.consulted && s.result.Ok?)) &&
     StoresNothingFor(s.prices, maxAge, service, reqs[1..], itemCode))
  }

  /**
   * Lookups that store nothing for `itemCode` (lookups of other items, cache
   * hits on it, failed refreshes of it) leave its record or absence as it was.
   */
  lemma {:induction false} KeepsRecord<V>(prices: map<string, Price<V>>, maxAge: int, service: PriceService<V>,
                                          reqs: seq<Request>, itemCode: string)
    requires StoresNothingFor(prices, maxAge, service, reqs, itemCode)
    ensures var after := Replay(prices, maxAge, service, reqs).prices;
            (itemCode in after <==> itemCode in prices) &&
            (itemCode in prices ==> after[itemCode] == prices[itemCode])
    decreases |reqs|
  {
    if reqs != [] {
      var s := PriceFor(prices, maxAge, service, reqs[0].itemCode, reqs[0].nowCheck, reqs[0].nowStore);
      if reqs[0].itemCode != itemCode {
        OtherKeys(prices, maxAge, service, reqs[0], itemCode);
      }
      KeepsRecord(s.prices, maxAge, service, reqs[1..], itemCode);
    }
  }

  /**
   * Lookups of `itemCode` made while its record is still fresh are cache hits:
   * they do not ask the service, they return the stored price, and so they
   * store nothing for it.
   */
  lemma {:induction false} HitsStoreNothing<V>(prices: map<string, Price<V>>, maxAge: int,
                                               service: PriceService<V>, reqs: seq<Request>, itemCode: string)
    requires itemCode in prices
    requires forall i :: 0 <= i < |reqs| && reqs[i].itemCode == itemCode ==>
               reqs[i].nowCheck < prices[itemCode].expiration
    ensures StoresNothingFor(prices, maxAge, service, reqs, itemCode)
    ensures forall i :: 0 <= i < |reqs| && reqs[i].itemCode == itemCode ==>
              !Replay(prices, maxAge, service, reqs).consulted[i] &&
              Replay(prices, maxAge, service, reqs).results[i] == Ok(prices[itemCode].priceValue)
    decreases |reqs|
  {
    if reqs != [] {
      var s := PriceFor(prices, maxAge, service, reqs[0].itemCode, reqs[0].nowCheck, reqs[0].nowStore);
      if reqs[0].itemCode != itemCode {
        OtherKeys(prices, maxAge, service, reqs[0], itemCode);
      }
      forall i | 0 <= i < |reqs[1..]| && reqs[1..][i].itemCode == itemCode
        ensures reqs[1..][i].nowCheck < s.prices[itemCode].expiration
      {
        assert reqs[1..][i] == reqs[i + 1];
      }
      HitsStoreNothing(s.prices, maxAge, service, reqs[1..], itemCode);
      forall i | 0 < i < |reqs| && reqs[i].itemCode == itemCode
        ensures !Replay(prices, maxAge, service, reqs).consulted[i] &&
                Replay(prices, maxAge, service, reqs).results[i] == Ok(prices[itemCode].priceValue)
      {
        assert reqs[1..][i - 1] == reqs[i];
      }
    }
  }

  /**
   * After a lookup `first` that fetched a price from the service, and any
   * lookups that store nothing for that item, a lookup `later` of the same
   * item is served that same price without asking the service exactly when it
   * comes before `first.nowStore + maxAge`; from that instant on the service
   * is asked again.
   */
  lemma FreshnessAcrossCalls<V>(prices: map<string, Price<V>>, maxAge: int, service: PriceService<V>,
                                first: Request, between: seq<Request>, later: Request)
    requires var s := PriceFor(prices, maxAge, service, first.itemCode, first.nowCheck, first.nowStore);
             s.consulted && s.result.Ok? &&
             StoresNothingFor(s.prices, maxAge, service, between, first.itemCode)
    requires later.itemCode == first.itemCode
    ensures var s := PriceFor(prices, maxAge, service, first.itemCode, first.nowCheck, first.nowStore);
            var t := PriceFor(Replay(s.prices, maxAge, service, between).prices, maxAge, service,
                              later.itemCode, later.nowCheck, later.nowStore);
            (t.consulted <==> first.nowStore + maxAge <= later.nowCheck) &&
            (!t.consulted ==> t.result == s.result)
  {
    var s := PriceFor(prices, maxAge, service, first.itemCode, first.nowCheck, first.nowStore);
    KeepsRecord(s.prices, maxAge, service, between, first.itemCode);
  }

  /**
   * A price fetched at `first.nowStore` is served to every later lookup of
   * the item before `first.nowStore + maxAge`, whatever lookups came in
   * between: those of the same item, made no later, were cache hits.
   */
  lemma FreshThroughHits<V>(prices: map<string, Price<V>>, maxAge: int, service: PriceService<V>,
                            first: Request, between: seq<Request>, later: Request)
    requires var s := PriceFor(prices, maxAge, service, first.itemCode, first.nowCheck, first.nowStore);
             s.consulted && s.result.Ok?
    requires later.itemCode == first.itemCode && later.nowCheck < first.nowStore + maxAge
    requires forall i :: 0 <= i < |between| && between[i].itemCode == first.itemCode ==>
               between[i].nowCheck <= later.nowCheck
    ensures var s := PriceFor(prices, maxAge, service, first.itemCode, first.nowCheck, first.nowStore);
            var t := PriceFor(Replay(s.prices, maxAge, service, between).prices, maxAge, service,
                              later.itemCode, later.nowCheck, later.nowStore);
            !t.consulted && t.result == s.result
  {
    var s := PriceFor(prices, maxAge, service, first.itemCode, first.nowCheck, first.nowStore);
    HitsStoreNothing(s.prices, maxAge, service, between, first.itemCode);
    FreshnessAcrossCalls(prices, maxAge, service, first, between, later);
  }

  /**
   * The clock reads of `reqs` never go back, starting from `clock`: each
   * request reads its second instant no earlier than its first, and its first
   * no earlier than the previous request's second.
   */
  ghost predicate Chronological(clock: int, reqs: seq<Request>)
    decreases |reqs|
  {
    reqs == [] ||
    (clock <= reqs[0].nowCheck <= reqs[0].nowStore && Chronological(reqs[0].nowStore, reqs[1..]))
  }

  /** Every record of `prices` is stale from `deadline` on. */
  ghost predicate ExpireBy<V>(prices: map<string, Price<V>>, deadline: int)
  {
    forall k :: k in prices ==> prices[k].expiration <= deadline
  }

  /**
   * If every record expires within maxAge of the latest clock reading, a
   * lookup keeps that so: the record it writes expires maxAge after its own
   * later reading.
   */
  lemma ExpireByStep<V>(prices: map<string, Price<V>>, maxAge: int, service: PriceService<V>,
                        clock: int, r: Request)
    requires ExpireBy(prices, clock + maxAge) && clock <= r.nowCheck <= r.nowStore
    ensures ExpireBy(PriceFor(prices, maxAge, service, r.itemCode, r.nowCheck, r.nowStore).prices,
                     r.nowStore + maxAge)
  {
  }

  /**
   * With a lifetime of zero or less and a clock that never goes back, every
   * lookup asks the service: nothing stored is ever served.
   */
  lemma {:induction false} NeverServedWithoutMaxAge<V>(prices: map<string, Price<V>>, maxAge: int,
                                                       service: PriceService<V>, clock: int, reqs: seq<Request>)
    requires maxAge <= 0
    requires Chronological(clock, reqs) && ExpireBy(prices, clock + maxAge)
    ensures forall i :: 0 <= i < |reqs| ==> Replay(prices, maxAge, service, reqs).consulted[i]
    decreases |reqs|
  {
    if reqs != [] {
      var r := reqs[0];
      var s := PriceFor(prices, maxAge, service, r.itemCode, r.nowCheck, r.nowStore);
      assert s.consulted;
      ExpireByStep(prices, maxAge, service, clock, r);
      NeverServedWithoutMaxAge(s.prices, maxAge, service, r.nowStore, reqs[1..]);
      var rest := Replay(s.prices, maxAge, service, reqs[1..]);
      forall i | 0 < i < |reqs| ensures Replay(prices, maxAge, service, reqs).consulted[i] {
        assert rest.consulted[i - 1];
      }
    }
  }

  /** A cache created empty asks the service on every lookup when its lifetime is zero or less. */
  lemma NewCacheWithoutMaxAge<V>(maxAge: int, service: PriceService<V>, clock: int, reqs: seq<Request>)
    requires maxAge <= 0 && Chronological(clock, reqs)
    ensures var run := Replay(map[], maxAge, service, reqs);
            forall i :: 0 <= i < |reqs| ==> run.consulted[i]
  {
    NeverServedWithoutMaxAge(map[], maxAge, service, clock, reqs);
  }

  /**
   * Among the lookups `history`, whose flags `asked` say which ones asked the
   * service, one asked the service for `itemCode` and got the price `v`.
   */
  ghost predicate Answered<V>(service: PriceService<V>, history: seq<Request>, asked: seq<bool>,
                              itemCode: string, v: V)
  {
    exists j :: 0 <= j < |history| && j < |asked| && asked[j] && history[j].itemCode == itemCode &&
                service(itemCode, history[j].nowCheck) == Ok(v)
  }

  /** Every record of `prices` holds a price the service gave for its item when asked during `history`. */
  ghost predicate Sourced<V>(prices: map<string, Price<V>>, service: PriceService<V>,
                             history: seq<Request>, asked: seq<bool>)
  {
    forall k :: k in prices ==> Answered(service, history, asked, k, prices[k].priceValue)
  }

  lemma AnsweredExtends<V>(service: PriceService<V>, history: seq<Request>, asked: seq<bool>,
                           r: Request, b: bool, itemCode: string, v: V)
    requires |history| == |asked| && Answered(service, history, asked, itemCode, v)
    ensures Answered(service, history + [r], asked + [b], itemCode, v)
  {
    var j :| 0 <= j < |history| && j < |asked| && asked[j] && history[j].itemCode == itemCode &&
             service(itemCode, history[j].nowCheck) == Ok(v);
    assert (history + [r])[j] == history[j] && (asked + [b])[j] == asked[j];
  }

  /**
   * One lookup keeps the table sourced, and a price it returns was the
   * service's answer to a lookup of that item that asked it: this one, or an
   * earlier one.
   */
  lemma SourcedStep<V>(prices: map<string, Price<V>>, maxAge: int, service: PriceService<V>,
                       history: seq<Request>, asked: seq<bool>, r: Request)
    requires |history| == |asked| && Sourced(prices, service, history, asked)
    ensures var s := PriceFor(prices, maxAge, service, r.itemCode, r.nowCheck, r.nowStore);
            Sourced(s.prices, service, history + [r], asked + [s.consulted]) &&
            (s.result.Ok? ==> Answered(service, history + [r], asked + [s.consulted], r.itemCode, s.result.value))
  {
    var s := PriceFor(prices, maxAge, service, r.itemCode, r.nowCheck, r.nowStore);
    var h, a := history + [r], asked + [s.consulted];
    assert h[|history|] == r && a[|history|] == s.consulted;
    forall k | k in s.prices ensures Answered(service, h, a, k, s.prices[k].priceValue) {
      if k == r.itemCode && s.consulted && s.result.Ok? {
        assert service(k, h[|history|].nowCheck) == Ok(s.prices[k].priceValue);
      } else {
        assert k in prices && s.prices[k] == prices[k] by {
          assert k in s.prices - {r.itemCode} || s.prices == prices;
        }
        AnsweredExtends(service, history, asked, r, s.consulted, k, prices[k].priceValue);
      }
    }
    if s.result.Ok? && !s.consulted {
      AnsweredExtends(service, history, asked, r, s.consulted, r.itemCode, prices[r.itemCode].priceValue);
    }
  }

  /**
   * The cache is transparent: starting from a sourced table, every price the
   * i-th lookup returns is the service's answer to a lookup of that same item
   * that asked it, the i-th or an earlier one.
   */
  lemma {:induction false} Transparent<V>(prices: map<string, Price<V>>, maxAge: int, service: PriceService<V>,
                                          history: seq<Request>, asked: seq<bool>, reqs: seq<Request>)
    requires |history| == |asked| && Sourced(prices, service, history, asked)
    ensures forall i :: 0 <= i < |reqs| && Replay(prices, maxAge, service, reqs).results[i].Ok? ==>
              Answered(service, history + reqs[..i + 1],
                       asked + Replay(prices, maxAge, service, reqs).consulted[..i + 1],
                       reqs[i].itemCode, Replay(prices, maxAge, service, reqs).results[i].value)
    decreases |reqs|
  {
    if reqs != [] {
      var r := reqs[0];
      var s := PriceFor(prices, maxAge, service, r.itemCode, r.nowCheck, r.nowStore);
      SourcedStep(prices, maxAge, service, history, asked, r);
      Transparent(s.prices, maxAge, service, history + [r], asked + [s.consulted], reqs[1..]);
      var run := Replay(prices, maxAge, service, reqs);
      var rest := Replay(s.prices, maxAge, service, reqs[1..]);
      forall i | 0 <= i < |reqs| && run.results[i].Ok?
        ensures Answered(service, history + reqs[..i + 1], asked + run.consulted[..i + 1],
                         reqs[i].itemCode, run.results[i].value)
      {
        if i == 0 {
          assert reqs[..1] == [r] && run.consulted[..1] == [s.consulted];
        } else {
          assert rest.results[i - 1].Ok?;
          assert run.results[i] == rest.results[i - 1];
          assert reqs[1..][i - 1] == reqs[i];
          assert (history + [r]) + reqs[1..][..i] == history + reqs[..i + 1];
          assert (asked + [s.consulted]) + rest.consulted[..i] == asked + run.consulted[..i + 1];
        }
      }
    }
  }

  /**
   * From a new, empty cache, every price the i-th lookup returns is the
   * service's answer to a lookup of that same item that asked it, the i-th or
   * an earlier one.
   */
  lemma NewCacheTransparent<V>(maxAge: int, service: PriceService<V>, reqs: seq<Request>)
    ensures var run := Replay(map[], maxAge, service, reqs);
            forall i :: 0 <= i < |reqs| && run.results[i].Ok? ==>
              exists j :: 0 <= j <= i && run.consulted[j] && reqs[j].itemCode == reqs[i].itemCode &&
                          service(reqs[j].itemCode, reqs[j].nowCheck) == run.results[i]
  {
    Transparent(map[], maxAge, service, [], [], reqs);
    var run := Replay(map[], maxAge, service, reqs);
    forall i | 0 <= i < |reqs| && run.results[i].Ok?
      ensures exists j :: 0 <= j <= i && run.consulted[j] && reqs[j].itemCode == reqs[i].itemCode &&
                          service(reqs[j].itemCode, reqs[j].nowCheck) == run.results[i]
    {
      assert [] + reqs[..i + 1] == reqs[..i + 1] && [] + run.consulted[..i + 1] == run.consulted[..i + 1];
      var j :| 0 <= j < i + 1 && run.consulted[..i + 1][j] && reqs[..i + 1][j].itemCode == reqs[i].itemCode &&
               service(reqs[i].itemCode, reqs[..i + 1][j].nowCheck) == Ok(run.results[i].value);
      assert run.consulted[j] && reqs[j] == reqs[..i + 1][j];
    }
  }
}
