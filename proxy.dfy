// `proxy()` without validation (proxy.py:123-193), over the rows
// `make_request()` would have matched and the positions `random.sample`
// would have drawn.

module Proxy {
  import opened Wrappers
  import opened Text
  import opened Rows
  import opened Selection
  import opened Sampling

  /** The keyword arguments of `proxy()`, with `validate=False`. */
  datatype Options = Options(
    number: int,
    exclude: seq<string>,
    require: seq<string>,
    httpsOnly: bool,
    httpOnly: bool,
    verbose: bool)

  /** Lines 150-153: the matched rows that are parsed at all. */
  function CutRows(raw: seq<string>, o: Options): seq<string> {
    Cut(raw, NormalizeCount(o.number),
      KeepsAllRows(LowerSet(o.exclude), LowerSet(o.require), o.httpsOnly, o.httpOnly))
  }

  /** Lines 156-159 on the rows that are parsed. */
  function Parsed(raw: seq<string>, o: Options): Result<seq<ProxyRecord>> {
    ParseRows(CutRows(raw, o))
  }

  /** A record passes the require, exclude and protocol filters of lines 162-173. */
  predicate Passes(p: ProxyRecord, o: Options) {
    Qualifies(p, LowerSet(o.require), LowerSet(o.exclude), o.httpsOnly, o.httpOnly)
  }


  /** Lines 141-177: the list `proxies` before line 179. */
  function Pool(raw: seq<string>, o: Options): (r: Result<seq<Item>>)
    ensures r.Err? <==> Parsed(raw, o).Err?
    ensures r.Ok? ==> |r.value| <= |CutRows(raw, o)|
  {
    var parsed := Parsed(raw, o);
    if parsed.Err? then Err(parsed.error)
    else
      var kept := Filtered(parsed.value, LowerSet(o.require), LowerSet(o.exclude), o.httpsOnly, o.httpOnly);
      SubseqLength(kept, parsed.value);
      Ok(Project(kept, o.verbose))
  }

  /** Every element of the pool shows a parsed record that passes the filters. */
  lemma PoolQualified(raw: seq<string>, o: Options, it: Item)
    requires Pool(raw, o).Ok? && it in Pool(raw, o).value
    ensures exists p | p in Parsed(raw, o).value :: Passes(p, o) && it == Shown(p, o.verbose)
  {
    var parsed := Parsed(raw, o).value;
    var kept := Filtered(parsed, LowerSet(o.require), LowerSet(o.exclude), o.httpsOnly, o.httpOnly);
    var pool := Project(kept, o.verbose);
    var i :| 0 <= i < |pool| && pool[i] == it;
    var p := kept[i];
    assert p in kept;
    assert it == Shown(p, o.verbose);
    assert p in parsed && Passes(p, o);
  }

  /**
   * Conversely every parsed record that passes the filters reaches the
   * pool, as many times as it was parsed.
   */
  lemma PoolComplete(raw: seq<string>, o: Options, p: ProxyRecord)
    requires Parsed(raw, o).Ok? && p in Parsed(raw, o).value && Passes(p, o)
    ensures Pool(raw, o).Ok? && Shown(p, o.verbose) in Pool(raw, o).value
    ensures multiset(Pool(raw, o).value)[Shown(p, o.verbose)] >= multiset(Parsed(raw, o).value)[p]
  {
    var parsed := Parsed(raw, o).value;
    var kept := Filtered(parsed, LowerSet(o.require), LowerSet(o.exclude), o.httpsOnly, o.httpOnly);
    var pool := Project(kept, o.verbose);
    assert p in kept;
    ProjectCount(kept, o.verbose, p);
  }

  /** `random.sample` draws distinct positions of the pool, as many as the clamped count. */
  predicate Drawn(raw: seq<string>, o: Options, picks: seq<nat>) {
    var pool := Pool(raw, o);
    pool.Ok? && pool.value != [] ==>
      IsSample(picks, Clamp(NormalizeCount(o.number), |pool.value|), |pool.value|)
  }

  /** `proxy(number, exclude, require, False, https_only, http_only, verbose)`. */
  function Proxy(raw: seq<string>, o: Options, picks: seq<nat>): (r: Result<Outcome>)
    requires Drawn(raw, o, picks)
    ensures r.Err? <==>
      Parsed(raw, o).Err? || (Pool(raw, o).value != [] && NormalizeCount(o.number) == 0)
    ensures r.Err? ==> r.error == IndexError
    ensures Pool(raw, o) == Ok([]) ==> r == Ok(Listed([]))
  {
    var pool := Pool(raw, o);
    if pool.Err? then Err(pool.error) else Shape(pool.value, NormalizeCount(o.number), picks)
  }

  /** The positions `0, 1, ..., k - 1`. */
  function Range(k: nat): (r: seq<nat>)
    ensures |r| == k && forall i | 0 <= i < k :: r[i] == i
  {
    seq(k, i requires 0 <= i < k => i)
  }

  /** Some draw always exists: the first positions of the pool. */
  lemma FirstPositionsDrawn(raw: seq<string>, o: Options)
    ensures var pool := Pool(raw, o);
      Drawn(raw, o, Range(if pool.Ok? then Clamp(NormalizeCount(o.number), |pool.value|) else 0))
  {
    var pool := Pool(raw, o);
    if pool.Ok? {
      var k := Clamp(NormalizeCount(o.number), |pool.value|);
      RangeIsSample(k, |pool.value|);
    }
  }

  lemma RangeIsSample(k: nat, n: nat)
    requires k <= n
    ensures IsSample(Range(k), k, n)
  {
  }

  /** The elements returned. */
  function Returned(r: Outcome): seq<Item> {
    match r
    case Listed(items) => items
    case Single(item) => [item]
  }

  /**
   * Every address returned comes from a matched row among the first
   * `number` (all of them when the four options are set) and passes the
   * filters; no more than the count asked for are returned.
   */
  lemma ProxyReturnsQualified(raw: seq<string>, o: Options, picks: seq<nat>)
    requires Drawn(raw, o, picks)
    ensures var r := Proxy(raw, o, picks);
      r.Ok? ==> |Returned(r.value)| <= NormalizeCount(o.number)
    ensures var r := Proxy(raw, o, picks);
      r.Ok? ==> forall it | it in Returned(r.value) ::
        exists p | p in Parsed(raw, o).value :: Passes(p, o) && it == Shown(p, o.verbose)
  {
    var r := Proxy(raw, o, picks);
    if r.Ok? {
      var pool := Pool(raw, o).value;
      forall it | it in Returned(r.value)
        ensures exists p | p in Parsed(raw, o).value :: Passes(p, o) && it == Shown(p, o.verbose)
      {
        ReturnedFromPool(pool, NormalizeCount(o.number), picks, it);
        PoolQualified(raw, o, it);
      }
    }
  }

  /** What `Shape` returns is drawn from the pool. */
  lemma ReturnedFromPool(pool: seq<Item>, number: nat, picks: seq<nat>, it: Item)
    requires pool != [] ==> IsSample(picks, Clamp(number, |pool|), |pool|)
    requires Shape(pool, number, picks).Ok? && it in Returned(Shape(pool, number, picks).value)
    ensures it in pool
  {
    var r := Shape(pool, number, picks).value;
    if r.Listed? {
      assert it in multiset(r.items);
    }
  }

  /** With `http_only` alone no `https://` address is returned. */
  lemma HttpOnlyReturnsHttp(raw: seq<string>, o: Options, picks: seq<nat>)
    requires Drawn(raw, o, picks) && o.httpOnly && !o.httpsOnly
    ensures var r := Proxy(raw, o, picks);
      r.Ok? ==> forall it | it in Returned(r.value) ::
        StartsWith(AddressOf(it), Http) && !StartsWith(AddressOf(it), Https)
  {
    ProxyReturnsQualified(raw, o, picks);
    var r := Proxy(raw, o, picks);
    if r.Ok? {
      forall it | it in Returned(r.value)
        ensures StartsWith(AddressOf(it), Http) && !StartsWith(AddressOf(it), Https)
      {
        SchemesDisjoint(AddressOf(it));
      }
    }
  }

  /**
   * Unless all four options are set, at most `number` rows are parsed, so
   * the count is never clamped below the pool: a list returned is the
   * whole pool in some order.
   */
  lemma CutPoolIsWhole(raw: seq<string>, o: Options, picks: seq<nat>)
    requires Drawn(raw, o, picks)
    requires !KeepsAllRows(LowerSet(o.exclude), LowerSet(o.require), o.httpsOnly, o.httpOnly)
    requires Pool(raw, o).Ok?
    ensures var r := Proxy(raw, o, picks);
      r.Ok? && r.value.Listed? ==> multiset(r.value.items) == multiset(Pool(raw, o).value)
  {
    var pool := Pool(raw, o).value;
    var n := NormalizeCount(o.number);
    if |pool| >= 2 {
      assert n >= |pool|;
      ShapeWholePool(pool, n, picks);
    }
  }

  /** Rows built from cells without `<` never fail at line 159. */
  lemma MatchedRowsNeverFail(cs: seq<Cells>, o: Options)
    requires forall i | 0 <= i < |cs| :: Matchable(cs[i])
    ensures Pool(seq(|cs|, i requires 0 <= i < |cs| => RowText(cs[i])), o).Ok?
  {
    var raw := seq(|cs|, i requires 0 <= i < |cs| => RowText(cs[i]));
    var rows := CutRows(raw, o);
    forall i | 0 <= i < |rows| ensures ParseRow(rows[i]).Ok? {
      assert rows[i] == raw[i];
      MatchedRowParses(cs[i]);
    }
  }

  /** No rows at all: `proxy()` returns `[]`. */
  lemma NoRowsEmptyList(o: Options, picks: seq<nat>)
    ensures Drawn([], o, picks)
    ensures Proxy([], o, picks) == Ok(Listed([]))
  {
    assert CutRows([], o) == [];
  }
}
