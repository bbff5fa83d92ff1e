/**
  Pricing one request in fixed-point arithmetic: the checked 128-bit computation gives the exact
  cost, rounded half up, and overflows only when the result could not be stored anyway.
*/
module Pricing {
  import opened Bytes
  import opened Words
  import opened Texts

  const PARTS_PER_MILLION: nat := 1_000_000
  const PRICE_DENOMINATOR: nat := 1_000_000 * PARTS_PER_MILLION

  datatype Problem = InvalidCatalog | ArithmeticOverflow

  datatype Result<+T> = Ok(value: T) | Err(problem: Problem)

  /** Token counts as the usage parsers deliver them. */
  datatype Usage = Usage(input: nat, cachedInput: nat, cacheCreationInput: nat, output: nat)
  {
    predicate Representable() {
      input <= MAX_U64 && cachedInput <= MAX_U64 && cacheCreationInput <= MAX_U64 && output <= MAX_U64
    }
  }

  datatype CatalogPrice = CatalogPrice(
    model: string, inputPerMillion: nat, outputPerMillion: nat, cacheReadPpm: nat, cacheCreationPpm: nat)
  {
    /** What loading a catalog guarantees of its prices. */
    predicate Bounded() {
      inputPerMillion <= MAX_I64 && outputPerMillion <= MAX_I64 && cacheReadPpm <= MAX_I64 && cacheCreationPpm <= MAX_I64
    }
  }

  datatype PricingSnapshot = PricingSnapshot(version: string, source: string, price: CatalogPrice, pricedAt: nat, cost: nat)

  function Checked(value: nat): Option<nat> { if value <= MAX_U128 then Some(value) else None }

  /** One addend: tokens, unit price, multiplier. */
  type Component = (nat, nat, nat)

  function Components(usage: Usage, price: CatalogPrice): (r: seq<Component>)
    ensures |r| == 4
  {
    [(usage.input, price.inputPerMillion, 1_000_000),
     (usage.cachedInput, price.inputPerMillion, price.cacheReadPpm),
     (usage.cacheCreationInput, price.inputPerMillion, price.cacheCreationPpm),
     (usage.output, price.outputPerMillion, 1_000_000)]
  }

  function Amount(c: Component): nat { c.0 * c.1 * c.2 }

  /** The sum over unbounded integers. */
  function Total(components: seq<Component>): nat {
    if components == [] then 0 else Total(components[..|components| - 1]) + Amount(components[|components| - 1])
  }

  /** Division by the denominator, rounded half up. */
  function HalfUp(numerator: nat, denominator: nat): nat
    requires denominator > 0
  {
    (numerator + denominator / 2) / denominator
  }

  /** The exact cost in nano dollars. */
  function Cost(usage: Usage, price: CatalogPrice): nat { HalfUp(Total(Components(usage, price)), PRICE_DENOMINATOR) }

  /** Half up means: no integer is nearer, and a tie goes up. */
  lemma HalfUpIsNearest(numerator: nat, denominator: nat)
    requires denominator > 0 && denominator % 2 == 0
    ensures var r := HalfUp(numerator, denominator);
            2 * numerator - denominator < 2 * r * denominator <= 2 * numerator + denominator
  {
    var half := denominator / 2;
    var r := (numerator + half) / denominator;
    DivisionBounds(numerator + half, denominator);
    assert 2 * r * denominator == 2 * (r * denominator);
  }

  lemma DivisionBounds(value: nat, divisor: nat)
    requires divisor > 0
    ensures (value / divisor) * divisor <= value < (value / divisor) * divisor + divisor
  {}

  lemma Monotone(a: nat, b: nat, c: nat)
    requires a <= b
    ensures a * c <= b * c
  {}

  lemma TotalGrows(components: seq<Component>, k: nat)
    requires k <= |components|
    ensures Total(components[..k]) <= Total(components)
    decreases |components| - k
  {
    if k < |components| {
      assert components[..k + 1][..k] == components[..k];
      TotalGrows(components, k + 1);
    } else {
      assert components[..k] == components;
    }
  }

  /** A sum that does not fit 128 bits costs far more than can be stored. */
  lemma OverflowIsExpensive(numerator: nat)
    requires numerator + PRICE_DENOMINATOR / 2 > MAX_U128
    ensures HalfUp(numerator, PRICE_DENOMINATOR) > MAX_I64
  {
    DivisionBounds(numerator + PRICE_DENOMINATOR / 2, PRICE_DENOMINATOR);
  }

  /**
    The price list read directly: tokens at the price of a million, cached ones at their share of the
    input price, counted in millionths of a millionth of a nano dollar.
  */
  function Dues(usage: Usage, price: CatalogPrice): nat {
    (usage.input * price.inputPerMillion + usage.output * price.outputPerMillion) * 1_000_000
    + usage.cachedInput * price.inputPerMillion * price.cacheReadPpm
    + usage.cacheCreationInput * price.inputPerMillion * price.cacheCreationPpm
  }

  lemma TotalIsDues(usage: Usage, price: CatalogPrice)
    ensures Total(Components(usage, price)) == Dues(usage, price)
  {
    hide Components, Amount;
    var c := Components(usage, price);
    assert c[..3][..2] == c[..2] && c[..2][..1] == c[..1];
    assert Total(c[..1]) == Amount(c[0]);
    assert Total(c[..2]) == Total(c[..1]) + Amount(c[1]);
    assert Total(c[..3]) == Total(c[..2]) + Amount(c[2]);
    ComponentsAre(usage, price);
  }

  lemma ComponentsAre(usage: Usage, price: CatalogPrice)
    ensures var c := Components(usage, price);
            && Amount(c[0]) + Amount(c[3]) == (usage.input * price.inputPerMillion + usage.output * price.outputPerMillion) * 1_000_000
            && Amount(c[1]) == usage.cachedInput * price.inputPerMillion * price.cacheReadPpm
            && Amount(c[2]) == usage.cacheCreationInput * price.inputPerMillion * price.cacheCreationPpm
  {}

  /** The cost is the nearest whole number of nano dollars: nothing below half of one, too large beyond 63 bits. */
  lemma CostIsNearest(usage: Usage, price: CatalogPrice)
    ensures var due, cost := Dues(usage, price), Cost(usage, price);
            && 2 * due - 1_000_000_000_000 < 2 * cost * 1_000_000_000_000 <= 2 * due + 1_000_000_000_000
            && (cost == 0 <==> 2 * due < 1_000_000_000_000)
            && (cost > MAX_I64 <==> 2 * due + 1_000_000_000_000 >= 2 * 0x8000_0000_0000_0000 * 1_000_000_000_000)
  {
    hide Total, Components, Dues;
    TotalIsDues(usage, price);
    HalfUpIsNearest(Dues(usage, price), 1_000_000_000_000);
  }

  /** What `price` answers for a known model. */
  function Answer(version: string, source: string, price: CatalogPrice, usage: Usage, pricedAt: nat): Result<Option<PricingSnapshot>> {
    var cost := Cost(usage, price);
    if cost == 0 then Ok(None)
    else if cost > MAX_I64 || pricedAt > MAX_I64 then Err(ArithmeticOverflow)
    else Ok(Some(PricingSnapshot(version, source, price, pricedAt, cost)))
  }

  lemma ProductFits(a: nat, b: nat)
    requires a <= MAX_U64 && b <= MAX_I64
    ensures a * b <= MAX_U128
  {
    Monotone(a, MAX_U64, b);
    Monotone(b, MAX_I64, MAX_U64);
    assert a * b <= MAX_U64 * b == b * MAX_U64 <= MAX_I64 * MAX_U64;
  }

  class PricingCatalog {
    const version: string
    const source: string
    const models: map<string, CatalogPrice>

    ghost predicate Valid() {
      forall model <- models :: models[model].model == model && models[model].Bounded()
    }

    constructor (version: string, source: string, models: map<string, CatalogPrice>)
      ensures this.version == version && this.source == source && this.models == models
    {
      this.version := version;
      this.source := source;
      this.models := models;
    }

    /** `price`, with every step checked. */
    method Price(model: string, usage: Usage, pricedAt: nat) returns (r: Result<Option<PricingSnapshot>>)
      requires Valid() && usage.Representable() && pricedAt <= MAX_U64
      ensures r == if model in models then Answer(version, source, models[model], usage, pricedAt) else Ok(None)
      ensures model in models ==>
                var due := Dues(usage, models[model]);
                && (r == Ok(None) <==> 2 * due < 1_000_000_000_000)
                && (r.Err? <==> && 2 * due >= 1_000_000_000_000
                                && (|| 2 * due + 1_000_000_000_000 >= 2 * 0x8000_0000_0000_0000 * 1_000_000_000_000
                                    || pricedAt >= 0x8000_0000_0000_0000))
                && (r.Ok? && r.value.Some? ==>
                      && 2 * due - 1_000_000_000_000 < 2 * r.value.value.cost * 1_000_000_000_000 <= 2 * due + 1_000_000_000_000
                      && r.value.value.price == models[model] && r.value.value.pricedAt == pricedAt)
    {
      hide HalfUp, Total, Amount, Dues;
      if model !in models {
        return Ok(None);
      }
      var price := models[model];
      CostIsNearest(usage, price);
      var components := Components(usage, price);
      var sum := SumChecked(components);
      if sum.None? {
        OverflowIsExpensive(Total(components));
        return Err(ArithmeticOverflow);
      }
      var rounded := Checked(sum.value + PRICE_DENOMINATOR / 2);
      if rounded.None? {
        OverflowIsExpensive(Total(components));
        return Err(ArithmeticOverflow);
      }
      var estimate := rounded.value / PRICE_DENOMINATOR;
      assert estimate == Cost(usage, price) by { HalfUpIs(sum.value, PRICE_DENOMINATOR); }
      if estimate == 0 {
        return Ok(None);
      }
      if estimate > MAX_U64 {
        return Err(ArithmeticOverflow);
      }
      if estimate > MAX_I64 || pricedAt > MAX_I64 {
        return Err(ArithmeticOverflow);
      }
      r := Ok(Some(PricingSnapshot(version, source, price, pricedAt, estimate)));
    }
  }

  lemma HalfUpIs(numerator: nat, denominator: nat)
    requires denominator > 0
    ensures HalfUp(numerator, denominator) == (numerator + denominator / 2) / denominator
  {}

  /** The loop over the components: the exact sum, unless it cannot fit. */
  method SumChecked(components: seq<Component>) returns (r: Option<nat>)
    requires forall k :: 0 <= k < |components| ==> components[k].0 <= MAX_U64 && components[k].1 <= MAX_I64
    ensures r == Checked(Total(components))
  {
    var numerator := 0;
    assert components[..0] == [];
    for k := 0 to |components|
      invariant numerator == Total(components[..k]) <= MAX_U128
    {
      var (tokens, unitPrice, multiplier) := components[k];
      assert components[..k + 1][..k] == components[..k];
      TotalGrows(components, k + 1);
      assert Total(components[..k + 1]) == numerator + Amount(components[k]);
      ProductFits(tokens, unitPrice);
      var product := Checked(tokens * unitPrice);
      if product.None? {
        return None;
      }
      var component := Checked(product.value * multiplier);
      if component.None? {
        return None;
      }
      var sum := Checked(numerator + component.value);
      if sum.None? {
        return None;
      }
      numerator := sum.value;
    }
    assert components[..|components|] == components;
    r := Some(numerator);
  }

  // ---- loading

  datatype CatalogDocument = CatalogDocument(version: string, source: string, models: seq<CatalogPrice>)

  /** Entry by entry; one bad or repeated entry spoils the catalog. */
  function Loaded(models: seq<CatalogPrice>): Option<map<string, CatalogPrice>> {
    if models == [] then Some(map[])
    else
      var price := models[|models| - 1];
      match Loaded(models[..|models| - 1])
      case None => None
      case Some(loaded) =>
        if Blank(price.model) || !price.Bounded() || price.model in loaded then None else Some(loaded[price.model := price])
  }

  ghost predicate Loadable(models: seq<CatalogPrice>) {
    && (forall k :: 0 <= k < |models| ==> !Blank(models[k].model) && models[k].Bounded())
    && (forall j, k :: 0 <= j < k < |models| ==> models[j].model != models[k].model)
  }

  ghost predicate Distinct(models: seq<CatalogPrice>) {
    forall j, k :: 0 <= j < k < |models| ==> models[j].model != models[k].model
  }

  /** Every figure of the entry fits a signed 64-bit integer. */
  predicate InSignedRange(price: CatalogPrice) {
    && price.inputPerMillion < 0x8000_0000_0000_0000 && price.outputPerMillion < 0x8000_0000_0000_0000
    && price.cacheReadPpm < 0x8000_0000_0000_0000 && price.cacheCreationPpm < 0x8000_0000_0000_0000
  }

  lemma LoadableTells(models: seq<CatalogPrice>)
    ensures Loadable(models) <==> Distinct(models) && forall price <- models :: !Blank(price.model) && InSignedRange(price)
  {
    hide Blank;
    forall price <- models ensures price.Bounded() <==> InSignedRange(price) {}
    if forall price <- models :: !Blank(price.model) && InSignedRange(price) {
      forall k | 0 <= k < |models| ensures !Blank(models[k].model) && models[k].Bounded() {
        assert models[k] in models;
      }
    }
  }

  /** `loaded` holds exactly the entries, each under its model. */
  ghost predicate Indexes(loaded: map<string, CatalogPrice>, models: seq<CatalogPrice>) {
    && |loaded| == |models|
    && (forall k :: 0 <= k < |models| ==> models[k].model in loaded && loaded[models[k].model] == models[k])
    && (forall model <- loaded :: loaded[model].model == model && loaded[model].Bounded())
  }

  /** Every key of the index is the model of an entry. */
  ghost predicate Sourced(loaded: map<string, CatalogPrice>, models: seq<CatalogPrice>) {
    forall model <- loaded :: exists k :: 0 <= k < |models| && models[k].model == model
  }

  lemma {:induction false} LoadedMeans(models: seq<CatalogPrice>)
    ensures Loaded(models).Some? <==> Loadable(models)
    ensures Loaded(models).Some? ==> Indexes(Loaded(models).value, models) && Sourced(Loaded(models).value, models)
  {
    hide Blank, Indexes, Sourced, Loadable, CatalogPrice.Bounded;
    if models == [] {
      NothingLoaded();
    } else {
      var front, price := models[..|models| - 1], models[|models| - 1];
      assert models == front + [price];
      LoadedMeans(front);
      LoadableExtends(front, price);
      if Loaded(front).Some? {
        var before := Loaded(front).value;
        KnownModels(before, front, price.model);
        if !Blank(price.model) && price.Bounded() && price.model !in before {
          IndexExtends(before, front, price);
          SourceExtends(before, front, price);
        }
      }
    }
  }

  lemma NothingLoaded()
    ensures Loadable([]) && Indexes(map[], []) && Sourced(map[], [])
  {}

  ghost predicate Among(models: seq<CatalogPrice>, model: string) {
    exists k :: 0 <= k < |models| && models[k].model == model
  }

  lemma LoadableExtends(front: seq<CatalogPrice>, price: CatalogPrice)
    ensures Loadable(front + [price])
            <==> Loadable(front) && !Blank(price.model) && price.Bounded() && !Among(front, price.model)
  {
    hide Blank, CatalogPrice.Bounded;
    var all := front + [price];
    assert all[|front|] == price;
    assert forall k :: 0 <= k < |front| ==> all[k] == front[k];
  }

  lemma KnownModels(loaded: map<string, CatalogPrice>, models: seq<CatalogPrice>, model: string)
    requires Indexes(loaded, models) && Sourced(loaded, models)
    ensures model in loaded <==> Among(models, model)
  {
    hide CatalogPrice.Bounded;
  }

  lemma IndexExtends(before: map<string, CatalogPrice>, front: seq<CatalogPrice>, price: CatalogPrice)
    requires Indexes(before, front) && price.model !in before && price.Bounded()
    ensures Indexes(before[price.model := price], front + [price])
  {
    hide CatalogPrice.Bounded;
    var all, loaded := front + [price], before[price.model := price];
    forall k | 0 <= k < |all| ensures all[k].model in loaded && loaded[all[k].model] == all[k] {
      if k < |front| {
        assert all[k] == front[k];
      }
    }
  }

  lemma SourceExtends(before: map<string, CatalogPrice>, front: seq<CatalogPrice>, price: CatalogPrice)
    requires Sourced(before, front)
    ensures Sourced(before[price.model := price], front + [price])
  {
    var all := front + [price];
    assert all[|front|] == price;
    forall model <- before ensures exists k :: 0 <= k < |all| && all[k].model == model {
      var k :| 0 <= k < |front| && front[k].model == model;
      assert all[k].model == model;
    }
  }

  /** The loop over the entries. */
  method LoadModels(models: seq<CatalogPrice>) returns (r: Option<map<string, CatalogPrice>>)
    ensures r == Loaded(models)
  {
    hide Blank, CatalogPrice.Bounded;
    var loaded: map<string, CatalogPrice> := map[];
    assert models[..0] == [];
    for k := 0 to |models|
      invariant Loaded(models[..k]) == Some(loaded)
    {
      var price := models[k];
      assert models[..k + 1][..k] == models[..k];
      if Blank(price.model) || !price.Bounded() || price.model in loaded {
        NotLoaded(models, k + 1);
        return None;
      }
      loaded := loaded[price.model := price];
    }
    assert models[..|models|] == models;
    r := Some(loaded);
  }

  /** `from_json` behind the JSON parser: every model once, every field in range, or nothing at all. */
  method FromDocument(document: CatalogDocument) returns (r: Result<PricingCatalog>)
    ensures r.Ok? <==> !Blank(document.version) && !Blank(document.source) && Loadable(document.models)
    ensures r.Ok? <==> && !Blank(document.version) && !Blank(document.source) && Distinct(document.models)
                       && forall price <- document.models :: !Blank(price.model) && InSignedRange(price)
    ensures r.Ok? ==>
              && fresh(r.value) && r.value.Valid() && Indexes(r.value.models, document.models)
              && r.value.version == document.version && r.value.source == document.source
  {
    hide Blank, Loadable, Loaded, Distinct;
    LoadedMeans(document.models);
    LoadableTells(document.models);
    if Blank(document.version) || Blank(document.source) {
      return Err(InvalidCatalog);
    }
    var models := LoadModels(document.models);
    if models.None? {
      return Err(InvalidCatalog);
    }
    var catalog := new PricingCatalog(document.version, document.source, models.value);
    r := Ok(catalog);
  }

  lemma {:induction false} NotLoaded(models: seq<CatalogPrice>, k: nat)
    requires k <= |models| && Loaded(models[..k]).None?
    ensures Loaded(models).None?
    decreases |models| - k
  {
    if k == |models| {
      assert models[..k] == models;
    } else {
      assert models[..k + 1][..k] == models[..k];
      NotLoaded(models, k + 1);
    }
  }

  // ---- ratios

  /** `ratio_ppm`: parts per million, rounded half up. */
  method RatioPpm(numerator: nat, denominator: nat) returns (r: Result<nat>)
    requires numerator <= MAX_U64 && denominator <= MAX_U64
    ensures r == if denominator == 0 then Err(InvalidCatalog)
                 else if HalfUp(numerator * 1_000_000, denominator) > MAX_I64 then Err(InvalidCatalog)
                 else Ok(HalfUp(numerator * 1_000_000, denominator))
  {
    if denominator == 0 {
      return Err(InvalidCatalog);
    }
    var scaled := Checked(numerator * 1_000_000);
    if scaled.None? {
      return Err(InvalidCatalog);
    }
    var shifted := Checked(scaled.value + denominator / 2);
    if shifted.None? {
      return Err(InvalidCatalog);
    }
    var ratio := shifted.value / denominator;
    if ratio > MAX_U64 || ratio > MAX_I64 {
      return Err(InvalidCatalog);
    }
    r := Ok(ratio);
  }

  /** The ratio is off by half a part per million at most, however odd the denominator. */
  lemma RatioIsClose(numerator: nat, denominator: nat)
    requires denominator > 0
    ensures var r := HalfUp(numerator * 1_000_000, denominator);
            2 * (numerator * 1_000_000) - denominator <= 2 * r * denominator <= 2 * (numerator * 1_000_000) + denominator
  {
    var scaled := numerator * 1_000_000;
    var half := denominator / 2;
    var r := (scaled + half) / denominator;
    DivisionBounds(scaled + half, denominator);
    assert 2 * r * denominator == 2 * (r * denominator);
  }
}
