// The selection steps of `proxy()` (proxy.py:141-177): the count, the cut of
// the raw rows, the require and exclude filters, the protocol filter and the
// projection to bare addresses.

module Selection {
  import opened Text
  import opened Rows

  // ---------------------------------------------------------------------------
  // Subsequences
  // ---------------------------------------------------------------------------

  /** `a` is `b` with some elements left out, the rest in their order. */
  predicate IsSubseq<T(==)>(a: seq<T>, b: seq<T>)
    decreases |b|
  {
    if a == [] then true
    else if b == [] then false
    else (a[0] == b[0] && IsSubseq(a[1..], b[1..])) || IsSubseq(a, b[1..])
  }

  lemma {:induction false} SubseqRefl<T>(a: seq<T>)
    ensures IsSubseq(a, a)
    decreases |a|
  {
    if a != [] {
      SubseqRefl(a[1..]);
    }
  }

  lemma {:induction false} SubseqLength<T>(a: seq<T>, b: seq<T>)
    requires IsSubseq(a, b)
    ensures |a| <= |b|
    decreases |b|
  {
    if a != [] {
      if a[0] == b[0] && IsSubseq(a[1..], b[1..]) {
        SubseqLength(a[1..], b[1..]);
      } else {
        SubseqLength(a, b[1..]);
      }
    }
  }

  /** Dropping the first element of a subsequence keeps it a subsequence. */
  lemma {:induction false} SubseqTail<T>(a: seq<T>, b: seq<T>)
    requires a != [] && IsSubseq(a, b)
    ensures IsSubseq(a[1..], b)
    decreases |b|
  {
    if a[1..] != [] {
      if a[0] == b[0] && IsSubseq(a[1..], b[1..]) {
      } else {
        SubseqTail(a, b[1..]);
      }
    }
  }

  /** A subsequence of a subsequence is a subsequence. */
  lemma {:induction false} SubseqTrans<T>(a: seq<T>, b: seq<T>, c: seq<T>)
    requires IsSubseq(a, b) && IsSubseq(b, c)
    ensures IsSubseq(a, c)
    decreases |c|
  {
    if a != [] {
      if b[0] == c[0] && IsSubseq(b[1..], c[1..]) {
        if a[0] == b[0] && IsSubseq(a[1..], b[1..]) {
          SubseqTrans(a[1..], b[1..], c[1..]);
        } else {
          SubseqTrans(a, b[1..], c[1..]);
        }
      } else {
        SubseqTrans(a, b, c[1..]);
      }
    }
  }

  // ---------------------------------------------------------------------------
  // The count and the cut of the raw rows (lines 141-153)
  // ---------------------------------------------------------------------------

  /** Line 141-142: a negative count asks for one proxy; 0 stays 0. */
  function NormalizeCount(number: int): (n: nat)
    ensures number < 0 ==> n == 1
    ensures number >= 0 ==> n == number
  {
    if number < 0 then 1 else number
  }

  /** `set([i.lower() for i in xs])` (lines 144 and 147). */
  function LowerSet(xs: seq<string>): (s: set<string>)
    ensures forall i | 0 <= i < |xs| :: Lower(xs[i]) in s
    ensures forall k | k in s :: exists i | 0 <= i < |xs| :: k == Lower(xs[i])
    ensures s == {} <==> xs == []
  {
    var s := set i | 0 <= i < |xs| :: Lower(xs[i]);
    assert xs != [] ==> Lower(xs[0]) in s;
    s
  }

  /** `all((exclude, require, https_only, http_only))`: every row is fetched. */
  predicate KeepsAllRows(exclude: set<string>, require: set<string>, httpsOnly: bool, httpOnly: bool) {
    exclude != {} && require != {} && httpsOnly && httpOnly
  }

  /** Lines 150-153: `raw[:number]` unless all four options are set. */
  function Cut<T>(raw: seq<T>, number: nat, keepAll: bool): (r: seq<T>)
    ensures r <= raw
    ensures keepAll ==> r == raw
    ensures !keepAll ==> |r| == if number < |raw| then number else |raw|
  {
    if keepAll || number >= |raw| then raw else raw[..number]
  }

  // ---------------------------------------------------------------------------
  // The require and exclude filters (lines 161-167)
  // ---------------------------------------------------------------------------

  /**
   * `(m[1].lower() or m[2].lower() or m[3].lower())`: the first non-empty
   * of the lower-cased region code, region name and anonymity level, and
   * the lower-cased anonymity level when all three are empty.
   */
  function Key(p: ProxyRecord): (k: string)
    ensures p.regionCode != [] ==> k == Lower(p.regionCode)
    ensures p.regionCode == [] && p.regionName != [] ==> k == Lower(p.regionName)
    ensures p.regionCode == [] && p.regionName == [] ==> k == Lower(p.anonymity)
  {
    var code := Lower(p.regionCode);
    var name := Lower(p.regionName);
    if code != [] then code else if name != [] then name else Lower(p.anonymity)
  }

  /** The records whose key is in `s` (`keep`) or not in `s` (`!keep`), in order. */
  function KeepKeyed(ps: seq<ProxyRecord>, s: set<string>, keep: bool): (r: seq<ProxyRecord>)
    ensures IsSubseq(r, ps)
    ensures forall p :: p in r <==> p in ps && ((Key(p) in s) == keep)
    ensures forall q :: multiset(r)[q] == if (Key(q) in s) == keep then multiset(ps)[q] else 0
  {
    if ps == [] then []
    else
      var rest := KeepKeyed(ps[1..], s, keep);
      assert ps == [ps[0]] + ps[1..];
      if (Key(ps[0]) in s) == keep then
        assert forall p | p in ps :: p == ps[0] || p in ps[1..];
        [ps[0]] + rest
      else
        assert rest == [] || IsSubseq(rest, ps[1..]);
        assert forall p | p in ps :: p == ps[0] || p in ps[1..];
        rest
  }

  /** Lines 162-163: with a non-empty `require`, keep the records whose key it holds. */
  function Require(ps: seq<ProxyRecord>, require: set<string>): (r: seq<ProxyRecord>)
    ensures require == {} ==> r == ps
    ensures require != {} ==> forall p :: p in r <==> p in ps && Key(p) in require
    ensures require != {} ==>
      forall q :: multiset(r)[q] == if Key(q) in require then multiset(ps)[q] else 0
    ensures IsSubseq(r, ps)
  {
    if require == {} then SubseqRefl(ps); ps else KeepKeyed(ps, require, true)
  }

  /** Lines 166-167: with a non-empty `exclude`, drop the records whose key it holds. */
  function Exclude(ps: seq<ProxyRecord>, exclude: set<string>): (r: seq<ProxyRecord>)
    ensures exclude == {} ==> r == ps
    ensures exclude != {} ==> forall p :: p in r <==> p in ps && Key(p) !in exclude
    ensures exclude != {} ==>
      forall q :: multiset(r)[q] == if Key(q) !in exclude then multiset(ps)[q] else 0
    ensures IsSubseq(r, ps)
  {
    if exclude == {} then SubseqRefl(ps); ps else KeepKeyed(ps, exclude, false)
  }

  /**
   * Exclude is the exact complement of require on the same set: between
   * them they keep every record once.
   */
  lemma {:induction false} RequireExcludeSplit(ps: seq<ProxyRecord>, s: set<string>)
    requires s != {}
    ensures multiset(Require(ps, s)) + multiset(Exclude(ps, s)) == multiset(ps)
    ensures |Require(ps, s)| + |Exclude(ps, s)| == |ps|
  {
    KeepKeyedSplit(ps, s);
    assert |multiset(Require(ps, s))| == |Require(ps, s)|;
    assert |multiset(Exclude(ps, s))| == |Exclude(ps, s)|;
    assert |multiset(ps)| == |ps|;
  }

  lemma {:induction false} KeepKeyedSplit(ps: seq<ProxyRecord>, s: set<string>)
    ensures multiset(KeepKeyed(ps, s, true)) + multiset(KeepKeyed(ps, s, false)) == multiset(ps)
  {
    if ps != [] {
      KeepKeyedSplit(ps[1..], s);
      assert ps == [ps[0]] + ps[1..];
    }
  }

  /**
   * The match is case-insensitive in ASCII: a record whose region code
   * differs from a required string only in case is kept.
   */
  lemma RequireIgnoresCase(ps: seq<ProxyRecord>, xs: seq<string>, i: nat, p: ProxyRecord)
    requires i < |xs| && p in ps && p.regionCode != [] && EqualIgnoringCase(p.regionCode, xs[i])
    ensures p in Require(ps, LowerSet(xs))
    ensures p !in Exclude(ps, LowerSet(xs))
  {
    LowerEqualIgnoringCase(p.regionCode, xs[i]);
  }

  /** The record matches `s` on any of the three fields the key looks at. */
  predicate AnyFieldIn(p: ProxyRecord, s: set<string>) {
    Lower(p.regionCode) in s || Lower(p.regionName) in s || Lower(p.anonymity) in s
  }

  /** Every record `require` keeps matches it on some field. */
  lemma RequiredMatchesSomeField(ps: seq<ProxyRecord>, s: set<string>, p: ProxyRecord)
    requires s != {} && p in Require(ps, s)
    ensures AnyFieldIn(p, s)
  {
  }

  /**
   * The converse fails: a record with a region code is judged by that code
   * alone, so `require` drops it even when its anonymity level or its
   * region name is required, and `exclude` keeps it even when they are
   * excluded.
   */
  lemma CodeShadowsOtherFields(ps: seq<ProxyRecord>, s: set<string>, p: ProxyRecord)
    requires s != {} && p in ps && p.regionCode != [] && Lower(p.regionCode) !in s
    ensures p !in Require(ps, s)
    ensures p in Exclude(ps, s)
  {
  }

  // ---------------------------------------------------------------------------
  // The protocol filter (lines 169-173)
  // ---------------------------------------------------------------------------

  /** The records whose address starts with `scheme`, in order. */
  function KeepScheme(ps: seq<ProxyRecord>, scheme: string): (r: seq<ProxyRecord>)
    ensures IsSubseq(r, ps)
    ensures forall p :: p in r <==> p in ps && StartsWith(p.address, scheme)
    ensures forall q :: multiset(r)[q] == if StartsWith(q.address, scheme) then multiset(ps)[q] else 0
  {
    if ps == [] then []
    else
      var rest := KeepScheme(ps[1..], scheme);
      assert ps == [ps[0]] + ps[1..];
      assert forall p | p in ps :: p == ps[0] || p in ps[1..];
      if StartsWith(ps[0].address, scheme) then [ps[0]] + rest
      else
        assert rest == [] || IsSubseq(rest, ps[1..]);
        rest
  }

  /**
   * `https_only` alone keeps the `https://` addresses, `http_only` alone the
   * `http://` ones; both or neither leave the list as it is.
   */
  function Protocol(ps: seq<ProxyRecord>, httpsOnly: bool, httpOnly: bool): (r: seq<ProxyRecord>)
    ensures httpsOnly == httpOnly ==> r == ps
    ensures httpsOnly && !httpOnly ==>
      forall p :: p in r <==> p in ps && StartsWith(p.address, Https)
    ensures httpOnly && !httpsOnly ==>
      forall p :: p in r <==> p in ps && StartsWith(p.address, Http)
    ensures httpsOnly && !httpOnly ==>
      forall q :: multiset(r)[q] == if StartsWith(q.address, Https) then multiset(ps)[q] else 0
    ensures httpOnly && !httpsOnly ==>
      forall q :: multiset(r)[q] == if StartsWith(q.address, Http) then multiset(ps)[q] else 0
    ensures IsSubseq(r, ps)
  {
    if httpsOnly && httpOnly then SubseqRefl(ps); ps
    else if httpsOnly then KeepScheme(ps, Https)
    else if httpOnly then KeepScheme(ps, Http)
    else SubseqRefl(ps); ps
  }

  /** No address starts with both `https://` and `http://`. */
  lemma SchemesDisjoint(a: string)
    ensures !(StartsWith(a, Https) && StartsWith(a, Http))
  {
    if StartsWith(a, Https) {
      assert a[4] == 's' && Http[4] == ':';
    }
  }

  /** `http_only` alone drops every `https://` address. */
  lemma HttpOnlyDropsHttps(ps: seq<ProxyRecord>, p: ProxyRecord)
    requires StartsWith(p.address, Https)
    ensures p !in Protocol(ps, false, true)
  {
    SchemesDisjoint(p.address);
  }

  // ---------------------------------------------------------------------------
  // The projection (lines 176-177)
  // ---------------------------------------------------------------------------

  /** An element of the result: the whole record, or only its address. */
  datatype Item = Full(record: ProxyRecord) | Bare(address: string)

  function AddressOf(it: Item): string {
    match it
    case Full(p) => p.address
    case Bare(a) => a
  }

  /** What line 177 makes of a record: the record itself when verbose, else its address. */
  function Shown(p: ProxyRecord, verbose: bool): (it: Item)
    ensures AddressOf(it) == p.address
  {
    if verbose then Full(p) else Bare(p.address)
  }

  /** Lines 176-177: without `verbose` each record becomes its address. */
  function Project(ps: seq<ProxyRecord>, verbose: bool): (r: seq<Item>)
    ensures |r| == |ps|
    ensures forall i | 0 <= i < |r| :: AddressOf(r[i]) == ps[i].address
    ensures verbose ==> forall i | 0 <= i < |r| :: r[i].Full? && r[i].record == ps[i]
    ensures !verbose ==> forall i | 0 <= i < |r| :: r[i].Bare?
  {
    seq(|ps|, i requires 0 <= i < |ps| => Shown(ps[i], verbose))
  }

  lemma ProjectCons(ps: seq<ProxyRecord>, verbose: bool)
    requires ps != []
    ensures Project(ps, verbose) == [Shown(ps[0], verbose)] + Project(ps[1..], verbose)
  {
    var r := Project(ps, verbose);
    var rest := Project(ps[1..], verbose);
    forall i | 0 <= i < |rest| ensures r[i + 1] == rest[i] {
      assert ps[1..][i] == ps[i + 1];
    }
  }

  /** Projecting keeps at least as many copies of what a record shows as there were of it. */
  lemma {:induction false} ProjectCount(ps: seq<ProxyRecord>, verbose: bool, p: ProxyRecord)
    ensures multiset(Project(ps, verbose))[Shown(p, verbose)] >= multiset(ps)[p]
  {
    if ps != [] {
      ProjectCount(ps[1..], verbose, p);
      ProjectCons(ps, verbose);
      CountCons(Shown(ps[0], verbose), Project(ps[1..], verbose), Shown(p, verbose));
      CountCons(ps[0], ps[1..], p);
      assert ps == [ps[0]] + ps[1..];
    }
  }

  /** How often `q` occurs in a sequence with `x` in front. */
  lemma CountCons<T>(x: T, xs: seq<T>, q: T)
    ensures multiset([x] + xs)[q] == (if x == q then 1 else 0) + multiset(xs)[q]
  {
  }

  // ---------------------------------------------------------------------------
  // The whole selection
  // ---------------------------------------------------------------------------

  /** A record passes the require, exclude and protocol filters of lines 162-173. */
  predicate Qualifies(p: ProxyRecord, require: set<string>, exclude: set<string>,
                      httpsOnly: bool, httpOnly: bool) {
    && (require != {} ==> Key(p) in require)
    && (exclude != {} ==> Key(p) !in exclude)
    && (httpsOnly && !httpOnly ==> StartsWith(p.address, Https))
    && (httpOnly && !httpsOnly ==> StartsWith(p.address, Http))
  }

  /**
   * Lines 162-173 in order, on the parsed records: exactly the records that
   * pass every filter survive, each as often as it was parsed, in order.
   */
  function Filtered(ps: seq<ProxyRecord>, require: set<string>, exclude: set<string>,
                    httpsOnly: bool, httpOnly: bool): (r: seq<ProxyRecord>)
    ensures IsSubseq(r, ps)
    ensures forall p :: p in r <==> p in ps && Qualifies(p, require, exclude, httpsOnly, httpOnly)
    ensures forall q ::
      multiset(r)[q] == (if Qualifies(q, require, exclude, httpsOnly, httpOnly) then multiset(ps)[q] else 0)
  {
    var a := Require(ps, require);
    var b := Exclude(a, exclude);
    var c := Protocol(b, httpsOnly, httpOnly);
    SubseqTrans(b, a, ps);
    SubseqTrans(c, b, ps);
    c
  }
}
