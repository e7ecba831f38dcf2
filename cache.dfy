/**
 * A read-through, time-bounded price cache in front of a slow, fallible price
 * service (cache.go). Instants are integers, durations are integer differences
 * of instants, and a price is an opaque value of type V that the cache only
 * stores and returns.
 */
module Cache {

  /** The `(value, error)` pair of a Go call: a value, or an error message. */
  datatype Result<T> = Ok(value: T) | Err(error: string)

  /**
   * The upstream price service: the answer it gives when asked for the price
   * of an item code at a given instant. The instant lets the service answer
   * differently over time, as a real one does.
   */
  type PriceService<V> = (string, int) -> Result<V>

  /** A cached price and the instant from which it is stale. */
  datatype Price<V> = Price(priceValue: V, expiration: int)

  /** Go's `expiration.After(now)`: a record is fresh strictly before it expires. */
  predicate IsFresh<V>(p: Price<V>, now: int)
  {
    now < p.expiration
  }

  /** The text put in front of the service's own message when it fails. */
  const ServiceErrorPrefix: string := "getting price from service : "

  /**
   * What one lookup does: its result, the table afterwards, and whether the
   * service was asked.
   */
  datatype Step<V> = Step(result: Result<V>, prices: map<string, Price<V>>, consulted: bool)

  /**
   * The single-key lookup on a table `prices`, for a cache whose records live
   * `maxAge`: `nowCheck` is the instant the stored record is tested against,
   * `nowStore` the instant read after the service answered, from which the
   * new record's expiration is counted.
   */
  function PriceFor<V>(prices: map<string, Price<V>>, maxAge: int, service: PriceService<V>,
                       itemCode: string, nowCheck: int, nowStore: int): (s: Step<V>)
    // the service is asked exactly when there is no fresh record for the key
    ensures s.consulted <==> !(itemCode in prices && IsFresh(prices[itemCode], nowCheck))
    // a fresh record is served as it is, and nothing is written
    ensures !s.consulted ==> s.result == Ok(prices[itemCode].priceValue) && s.prices == prices
    // a failing service is reported with its message, and nothing is cached:
    // an expired record stays as it was, not extended
    ensures s.consulted && service(itemCode, nowCheck).Err? ==>
              s.result == Err(ServiceErrorPrefix + service(itemCode, nowCheck).error) && s.prices == prices
    // an answer of the service is returned and cached for maxAge from nowStore
    ensures s.consulted && service(itemCode, nowCheck).Ok? ==>
              s.result == service(itemCode, nowCheck) &&
              itemCode in s.prices && s.prices[itemCode] == Price(s.result.value, nowStore + maxAge)
    // after every successful lookup the table holds the returned value for the key
    ensures s.result.Ok? ==> itemCode in s.prices && s.prices[itemCode].priceValue == s.result.value
    // nothing but the entry of itemCode changes, and no entry is removed
    ensures s.prices - {itemCode} == prices - {itemCode}
    ensures prices.Keys <= s.prices.Keys
  {
    if itemCode in prices && IsFresh(prices[itemCode], nowCheck) then
      Step(Ok(prices[itemCode].priceValue), prices, false)
    else
      match service(itemCode, nowCheck)
      case Err(e) => Step(Err(ServiceErrorPrefix + e), prices, true)
      case Ok(v) => Step(Ok(v), prices[itemCode := Price(v, nowStore + maxAge)], true)
  }

  /** The cache object: the service it wraps, the lifetime of its records, and its table. */
  class TransparentCache<V> {
    const actualPriceService: PriceService<V>
    const maxAge: int
    var prices: map<string, Price<V>>
    /** The item codes the service has been asked for, oldest first. */
    ghost var consulted: seq<string>

    /** A cache over `actualPriceService` whose records live `maxAge`, with an empty table. */
    constructor (actualPriceService: PriceService<V>, maxAge: int)
      ensures this.actualPriceService == actualPriceService && this.maxAge == maxAge
      ensures prices == map[] && consulted == []
    {
      this.actualPriceService := actualPriceService;
      this.maxAge := maxAge;
      prices := map[];
      consulted := [];
    }

    /**
     * The price of `itemCode`: the cached one while it is fresh at `nowCheck`,
     * otherwise the service's, which is then cached until `nowStore + maxAge`.
     */
    method GetPriceFor(itemCode: string, nowCheck: int, nowStore: int) returns (r: Result<V>)
      modifies this
      ensures var s := PriceFor(old(prices), maxAge, actualPriceService, itemCode, nowCheck, nowStore);
              r == s.result && prices == s.prices &&
              consulted == old(consulted) + (if s.consulted then [itemCode] else [])
    {
      if itemCode in prices {
        var price := prices[itemCode];
        if IsFresh(price, nowCheck) {
          return Ok(price.priceValue);
        }
      }
      consulted := consulted + [itemCode];
      var answer := actualPriceService(itemCode, nowCheck);
      if answer.Err? {
        return Err(ServiceErrorPrefix + answer.error);
      }
      prices := prices[itemCode := Price(answer.value, nowStore + maxAge)];
      return Ok(answer.value);
    }
  }
}
