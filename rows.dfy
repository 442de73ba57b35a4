/**
 * The table parser of proxy.py: the text of one table row as the row pattern
 * of `make_request` matches it, the cleanup chain of `replace` calls and the
 * `split(">")` that cut it into pieces, and the four-field proxy record built
 * from those pieces.
 */
module Rows {
  import opened Text
  import opened Wrappers

  /**
   * The eight cells of one row of the listing page's table, left to right:
   * IP address, port, country code, country, anonymity, Google, Https and
   * last checked.
   */
  datatype Cells = Cells(
    host: string, port: string, code: string, country: string,
    anonymity: string, google: string, https: string, lastChecked: string)

  /** One parsed proxy, the list `[address, region_code, region_name, anonymity]`. */
  datatype ProxyRecord = ProxyRecord(
    address: string, regionCode: string, regionName: string, anonymity: string)

  /** The markup that the cleanup chain of line 156 removes, in that order. */
  const RowStart := "<tr><td>"
  const CellEnd := "</td><td"
  const RowEnd := "</td></tr>"

  /** The rest of the markup between two cells of a row. */
  const CellBreak := "</td><td>"
  const HmTail := " class='hm'"
  const HxTail := " class='hx'"

  /** The class attribute stripped from the record's fields. */
  const Hm := "class='hm'"

  const Https := "https://"
  const Http := "http://"

  /**
   * The markup of a row, cut so that the class attributes ` class='hm'` and
   * ` class='hx'` stand apart as texts, each followed by the `>` that closes
   * its tag.
   */
  const Tags: seq<string> :=
    [RowStart, CellBreak, CellBreak, CellEnd, ">", CellBreak, CellEnd, ">", CellEnd, ">", CellEnd, ">", RowEnd]

  /** The texts between the pieces of `Tags`: the cells and the attributes. */
  function Texts(c: Cells): (r: seq<string>)
    ensures |r| == 12
  {
    [c.host, c.port, c.code, HmTail, c.country, c.anonymity, HmTail, c.google, HxTail,
     c.https, HmTail, c.lastChecked]
  }

  /**
   * The text of a row that the row pattern of `make_request` matches:
   * `<tr><td>` host `</td><td>` port `</td><td>` code `</td><td class='hm'>`
   * country `</td><td>` anonymity `</td><td class='hm'>` Google
   * `</td><td class='hx'>` Https `</td><td class='hm'>` last checked `</td></tr>`.
   */
  function RowText(c: Cells): string {
    Weave(Tags, Texts(c))
  }

  /** The pattern's `[^<]*` admits a cell only when it holds no `<`. */
  predicate Matchable(c: Cells) {
    && '<' !in c.host && '<' !in c.port && '<' !in c.code && '<' !in c.country
    && '<' !in c.anonymity && '<' !in c.google && '<' !in c.https && '<' !in c.lastChecked
  }

  /** Cells whose text holds no `>`, so that `split(">")` finds only the markup's. */
  predicate Unbroken(c: Cells) {
    && '>' !in c.host && '>' !in c.port && '>' !in c.code && '>' !in c.country
    && '>' !in c.anonymity && '>' !in c.google && '>' !in c.https
  }

  /** The three `replace` calls of the comprehension at line 156, before `split`. */
  function Unwrap(m: string): string {
    Replace(Replace(Replace(m, RowStart, ""), CellEnd, ""), RowEnd, "")
  }

  /** `m.replace(...).replace(...).replace(...).split(">")`. */
  function Pieces(m: string): seq<string> {
    Split(Unwrap(m), '>')
  }

  /**
   * The record built from one row at line 159. The scheme depends on the
   * seventh piece; indexing a piece that is not there raises `IndexError`.
   */
  function ParseRow(m: string): (r: Result<ProxyRecord>)
    ensures r.Err? <==> |Pieces(m)| < 7
  {
    var p := Pieces(m);
    if |p| < 7 then Err(IndexError)
    else
      var scheme := if Replace(p[6], Hm, "") == "yes " then Https else Http;
      Ok(ProxyRecord(
        Address(scheme, p[0], p[1]),
        Strip(Replace(p[2], Hm, "")),
        p[3],
        Strip(Replace(p[4], Hm, ""))))
  }

  /** `"https://" + m[0] + ":" + m[1]`, and likewise with `http://`. */
  function Address(scheme: string, host: string, port: string): (a: string)
    requires scheme == Https || scheme == Http
    ensures StartsWith(a, scheme) && a[|scheme|..] == host + ":" + port
  {
    assert (scheme + host + ":" + port)[..|scheme|] == scheme;
    scheme + host + ":" + port
  }

  /** Both comprehensions of lines 156 and 159 over the matched rows. */
  function ParseRows(rows: seq<string>): (r: Result<seq<ProxyRecord>>)
    ensures r.Ok? <==> forall i | 0 <= i < |rows| :: ParseRow(rows[i]).Ok?
    ensures r.Ok? ==> |r.value| == |rows|
    ensures r.Ok? ==> forall i | 0 <= i < |rows| :: r.value[i] == ParseRow(rows[i]).value
  {
    if rows == [] then Ok([])
    else
      var head := ParseRow(rows[0]);
      var tail := ParseRows(rows[1..]);
      if head.Err? then Err(head.error)
      else if tail.Err? then Err(tail.error)
      else Ok([head.value] + tail.value)
  }

  // ---------------------------------------------------------------------------
  // What the cleanup chain leaves of a matched row
  // ---------------------------------------------------------------------------

  /**
   * The pieces the chain should leave, before `split`: each cell text,
   * followed by what remains of the next cell's opening tag.
   */
  function Parts(c: Cells): (r: seq<string>)
    ensures |r| == 8
  {
    [c.host, c.port, c.code + HmTail, c.country, c.anonymity + HmTail,
     c.google + HxTail, c.https + HmTail, c.lastChecked]
  }

  /** The markup once `<tr><td>` is gone. */
  const Tags1: seq<string> :=
    ["", CellBreak, CellBreak, CellEnd, ">", CellBreak, CellEnd, ">", CellEnd, ">", CellEnd, ">", RowEnd]

  /** The markup once `</td><td` is gone as well. */
  const Tags2: seq<string> :=
    ["", ">", ">", "", ">", ">", "", ">", "", ">", "", ">", RowEnd]

  /** The markup once `</td></tr>` is gone as well. */
  const Tags3: seq<string> :=
    ["", ">", ">", "", ">", ">", "", ">", "", ">", "", ">", ""]

  lemma TextsFree(c: Cells)
    requires Matchable(c)
    ensures forall i | 0 <= i < |Texts(c)| :: '<' !in Texts(c)[i]
  {
  }

  lemma RowStartGone()
    ensures Closed(RowStart, RowStart) && Replace(RowStart, RowStart, "") == ""
  {
    assert RowStart == RowStart + [];
  }

  lemma CellBreakKept()
    ensures Closed(CellBreak, RowStart) && Replace(CellBreak, RowStart, "") == CellBreak
  {
    InertUnchanged(CellBreak, RowStart, "");
  }

  lemma CellEndKept()
    ensures Closed(CellEnd, RowStart) && Replace(CellEnd, RowStart, "") == CellEnd
  {
    InertUnchanged(CellEnd, RowStart, "");
  }

  lemma RowEndKept()
    ensures Closed(RowEnd, RowStart) && Replace(RowEnd, RowStart, "") == RowEnd
  {
    forall i | 0 <= i < |RowEnd| ensures Blocked(RowEnd[i..], RowStart) {
      BlockedAt(RowEnd, RowStart, i, if i == 0 || i == 5 then 1 else 0);
    }
    InertByPositions(RowEnd, RowStart);
    InertUnchanged(RowEnd, RowStart, "");
  }

  lemma RowEndKeptByCellEnd()
    ensures Closed(RowEnd, CellEnd) && Replace(RowEnd, CellEnd, "") == RowEnd
  {
    forall i | 0 <= i < |RowEnd| ensures Blocked(RowEnd[i..], CellEnd) {
      BlockedAt(RowEnd, CellEnd, i, if i == 0 then 6 else if i == 5 then 3 else 0);
    }
    InertByPositions(RowEnd, CellEnd);
    InertUnchanged(RowEnd, CellEnd, "");
  }

  lemma FirstPassTag(t: string, t1: string)
    requires (t == RowStart && t1 == "") || (t in {CellBreak, CellEnd, RowEnd, ">"} && t1 == t)
    ensures Closed(t, RowStart) && Replace(t, RowStart, "") == t1
  {
    if t == RowStart {
      RowStartGone();
    } else if t == CellBreak {
      CellBreakKept();
    } else if t == CellEnd {
      CellEndKept();
    } else if t == RowEnd {
      RowEndKept();
    } else {
      ReplaceFree(">", RowStart, "");
    }
  }

  lemma FirstPassTags()
    ensures forall i | 0 <= i < |Tags| :: Closed(Tags[i], RowStart)
    ensures ReplaceEach(Tags, RowStart, "") == Tags1
  {
    forall i | 0 <= i < |Tags|
      ensures Closed(Tags[i], RowStart) && Replace(Tags[i], RowStart, "") == Tags1[i]
    {
      FirstPassTag(Tags[i], Tags1[i]);
    }
  }

  lemma ClosedAfterCellEnd()
    ensures Closed(CellBreak, CellEnd) && Replace(CellBreak, CellEnd, "") == ">"
  {
    assert CellBreak == CellEnd + ">";
    assert CellBreak[|CellEnd|..] == ">";
  }

  lemma SecondPassTags()
    ensures forall i | 0 <= i < |Tags1| :: Closed(Tags1[i], CellEnd)
    ensures ReplaceEach(Tags1, CellEnd, "") == Tags2
  {
    forall i | 0 <= i < |Tags1|
      ensures Closed(Tags1[i], CellEnd) && Replace(Tags1[i], CellEnd, "") == Tags2[i]
    {
      var t := Tags1[i];
      if t == CellBreak {
        ClosedAfterCellEnd();
      } else if t == CellEnd {
        assert CellEnd == CellEnd + [];
      } else if t == RowEnd {
        RowEndKeptByCellEnd();
      } else if t == ">" {
        ReplaceFree(">", CellEnd, "");
      }
    }
  }

  lemma ThirdPassTags()
    ensures forall i | 0 <= i < |Tags2| :: Closed(Tags2[i], RowEnd)
    ensures ReplaceEach(Tags2, RowEnd, "") == Tags3
  {
    forall i | 0 <= i < |Tags2|
      ensures Closed(Tags2[i], RowEnd) && Replace(Tags2[i], RowEnd, "") == Tags3[i]
    {
      var t := Tags2[i];
      if t == RowEnd {
        assert t == RowEnd + [];
      } else if t == ">" {
        ReplaceFree(t, RowEnd, "");
      }
    }
  }

  /**
   * The chain of line 156 turns a matched row into its cell texts joined by
   * `>`, where the code, anonymity, Google and Https cells keep the rest of
   * the next cell's opening tag (` class='hm'` or ` class='hx'`).
   */
  lemma UnwrapRow(c: Cells)
    requires Matchable(c)
    ensures Unwrap(RowText(c)) == Join(Parts(c), '>')
  {
    var t := Texts(c);
    TextsFree(c);
    FirstPassTags();
    ReplaceWeave(Tags, t, RowStart, "");
    SecondPassTags();
    ReplaceWeave(Tags1, t, CellEnd, "");
    ThirdPassTags();
    ReplaceWeave(Tags2, t, RowEnd, "");
    WovenParts(c);
  }

  /** The row from text `k` on, once the chain is done. */
  function WovenFrom(c: Cells, k: nat): string
    requires k <= 12
  {
    Weave(Tags3[k..], Texts(c)[k..])
  }

  /** The joined parts from part `k` on. */
  function JoinedFrom(c: Cells, k: nat): string
    requires k < 8
  {
    Join(Parts(c)[k..], '>')
  }

  lemma JoinedStep(c: Cells, k: nat)
    requires k < 7
    ensures JoinedFrom(c, k) == Parts(c)[k] + (">" + JoinedFrom(c, k + 1))
  {
    assert Parts(c)[k..][1..] == Parts(c)[k + 1..];
  }

  // Each step below matches the woven row from one text on with the joined
  // parts from one part on: a `>` of the markup is the separator `Join` puts
  // before that part.

  lemma WovenLast(c: Cells)
    ensures WovenFrom(c, 11) == ">" + JoinedFrom(c, 7)
  {
    var t := Texts(c);
    assert Tags3[12..] == [""] && t[12..] == [];
    WeaveFrom(Tags3, t, 11);
  }

  lemma WovenHttps(c: Cells)
    ensures WovenFrom(c, 9) == ">" + JoinedFrom(c, 6)
  {
    WovenLast(c);
    WeaveGlue(Tags3, Texts(c), 9);
    JoinedStep(c, 6);
  }

  lemma WovenGoogle(c: Cells)
    ensures WovenFrom(c, 7) == ">" + JoinedFrom(c, 5)
  {
    WovenHttps(c);
    WeaveGlue(Tags3, Texts(c), 7);
    JoinedStep(c, 5);
  }

  lemma WovenAnonymity(c: Cells)
    ensures WovenFrom(c, 5) == ">" + JoinedFrom(c, 4)
  {
    WovenGoogle(c);
    WeaveGlue(Tags3, Texts(c), 5);
    JoinedStep(c, 4);
  }

  lemma WovenCountry(c: Cells)
    ensures WovenFrom(c, 4) == ">" + JoinedFrom(c, 3)
  {
    WovenAnonymity(c);
    WeaveFrom(Tags3, Texts(c), 4);
    JoinedStep(c, 3);
  }

  lemma WovenCode(c: Cells)
    ensures WovenFrom(c, 2) == ">" + JoinedFrom(c, 2)
  {
    WovenCountry(c);
    WeaveGlue(Tags3, Texts(c), 2);
    JoinedStep(c, 2);
  }

  /** What is left of the markup, put back between the texts, is `Parts` joined by `>`. */
  lemma WovenParts(c: Cells)
    ensures Weave(Tags3, Texts(c)) == Join(Parts(c), '>')
  {
    var t := Texts(c);
    WovenCode(c);
    WeaveFrom(Tags3, t, 1);
    JoinedStep(c, 1);
    WeaveFrom(Tags3, t, 0);
    JoinedStep(c, 0);
    assert Tags3[0..] == Tags3 && t[0..] == t && Parts(c)[0..] == Parts(c);
  }

  // ---------------------------------------------------------------------------
  // The record parsed from a matched row
  // ---------------------------------------------------------------------------

  /** A row the pattern matches always has the seven pieces line 159 indexes. */
  lemma MatchedRowParses(c: Cells)
    requires Matchable(c)
    ensures |Pieces(RowText(c))| >= 8
    ensures ParseRow(RowText(c)).Ok?
  {
    UnwrapRow(c);
    SplitJoin(Parts(c), '>', 0);
  }

  /** What remains of a cell that the next cell's ` class='hm'` follows. */
  lemma HmTailCleaned(cell: string)
    ensures Replace(cell + HmTail, Hm, "") == Replace(cell, Hm, "") + " "
  {
    assert cell + HmTail == cell + [' '] + Hm;
    ReplaceAround(cell, ' ', Hm, Hm, "");
    assert Hm == Hm + [];
    assert Replace(Hm, Hm, "") == "";
  }

  /** The Https cell, cleaned, reads `yes ` exactly when it read `yes` before the space. */
  lemma YesWithSpace(x: string)
    ensures (x + " " == "yes ") <==> (x == "yes")
  {
    if x + " " == "yes " {
      assert |x| == 3;
      assert x == (x + " ")[..3];
    }
  }

  /** The scheme chosen from the seventh piece `https + " class='hm'"`. */
  lemma SchemeOfCell(cell: string)
    ensures (Replace(cell + HmTail, Hm, "") == "yes ") <==> (Replace(cell, Hm, "") == "yes")
  {
    HmTailCleaned(cell);
    YesWithSpace(Replace(cell, Hm, ""));
  }

  /**
   * The fields of a matched row whose first seven cells hold no `>`: the
   * scheme is `https://` exactly when the Https cell, without any
   * `class='hm'`, reads `yes`; host and port are copied as they are; the
   * region code and the anonymity level lose every `class='hm'` and their
   * surrounding whitespace; the region name is the country cell verbatim.
   */
  lemma ParseMatchedRow(c: Cells)
    requires Matchable(c) && Unbroken(c)
    ensures ParseRow(RowText(c)) == Ok(ProxyRecord(
      Address(if Replace(c.https, Hm, "") == "yes" then Https else Http, c.host, c.port),
      Strip(Replace(c.code, Hm, "")),
      c.country,
      Strip(Replace(c.anonymity, Hm, ""))))
  {
    MatchedPieces(c);
    ParseFromPieces(RowText(c), c);
  }

  /** The record line 159 builds from pieces that begin like `Parts(c)`. */
  lemma ParseFromPieces(m: string, c: Cells)
    requires |Pieces(m)| >= 7 && Pieces(m)[..7] == Parts(c)[..7]
    ensures ParseRow(m) == Ok(ProxyRecord(
      Address(if Replace(c.https, Hm, "") == "yes" then Https else Http, c.host, c.port),
      Strip(Replace(c.code, Hm, "")),
      c.country,
      Strip(Replace(c.anonymity, Hm, ""))))
  {
    var p := Pieces(m);
    assert p[6] == Parts(c)[6] == c.https + HmTail;
    assert p[2] == c.code + HmTail && p[4] == c.anonymity + HmTail;
    assert p[0] == c.host && p[1] == c.port && p[3] == c.country;
    SchemeOfCell(c.https);
    CleanedField(c.code);
    CleanedField(c.anonymity);
  }

  /** The first seven pieces of a matched row whose cells hold no `>`. */
  lemma MatchedPieces(c: Cells)
    requires Matchable(c) && Unbroken(c)
    ensures |Pieces(RowText(c))| >= 8
    ensures Pieces(RowText(c))[..7] == Parts(c)[..7]
  {
    var parts := Parts(c);
    UnwrapRow(c);
    assert '>' !in HmTail && '>' !in HxTail;
    SplitJoin(parts, '>', 7);
  }

  /** A cell followed by ` class='hm'`, cleaned and stripped. */
  lemma CleanedField(cell: string)
    ensures Strip(Replace(cell + HmTail, Hm, "")) == Strip(Replace(cell, Hm, ""))
  {
    HmTailCleaned(cell);
    StripTrailingSpace(Replace(cell, Hm, ""), " ");
  }

  /** Cells without `class='hm'` and without surrounding whitespace. */
  predicate Plain(c: Cells) {
    && !Contains(c.code, Hm) && !Contains(c.anonymity, Hm) && !Contains(c.https, Hm)
    && Trimmed(c.code) && Trimmed(c.anonymity)
  }

  /**
   * For plain cells the record is the cells themselves: `https://` exactly
   * when the Https cell is `yes`, so a cell reading `yes ` gets `http://`.
   */
  lemma ParsePlainRow(c: Cells)
    requires Matchable(c) && Unbroken(c) && Plain(c)
    ensures ParseRow(RowText(c)) == Ok(ProxyRecord(
      Address(if c.https == "yes" then Https else Http, c.host, c.port),
      c.code, c.country, c.anonymity))
  {
    ParseMatchedRow(c);
    ReplaceAbsent(c.https, Hm, "");
    ReplaceAbsent(c.code, Hm, "");
    ReplaceAbsent(c.anonymity, Hm, "");
    StripTrimmed(c.code);
    StripTrimmed(c.anonymity);
  }

  /** Matched rows parse to one record each, in row order. */
  lemma ParseMatchedRows(cs: seq<Cells>)
    requires forall i | 0 <= i < |cs| :: Matchable(cs[i])
    ensures var rows := seq(|cs|, i requires 0 <= i < |cs| => RowText(cs[i]));
      ParseRows(rows).Ok? && |ParseRows(rows).value| == |cs|
  {
    var rows := seq(|cs|, i requires 0 <= i < |cs| => RowText(cs[i]));
    forall i | 0 <= i < |rows| ensures ParseRow(rows[i]).Ok? {
      MatchedRowParses(cs[i]);
    }
  }

  /** The cells of an example row, with the given Https cell. */
  predicate ExampleCells(c: Cells, https: string) {
    c == Cells("47.75.62.90", "80", "US", "United States", "elite proxy", "no", https, "1 minute ago")
  }

  lemma ExamplePlain(c: Cells, https: string)
    requires ExampleCells(c, https) && (https == "yes" || https == "yes ")
    ensures Matchable(c) && Unbroken(c) && Plain(c)
  {
    ExampleMatchable(c, https);
    ExampleUnbroken(c, https);
    ExampleTrimmed(c, https);
    assert Hm[0] == 'c';
    FreeAbsent(c.code, Hm);
    FreeAbsent(c.anonymity, Hm);
    FreeAbsent(c.https, Hm);
  }

  lemma ExampleMatchable(c: Cells, https: string)
    requires ExampleCells(c, https) && (https == "yes" || https == "yes ")
    ensures Matchable(c)
  {
  }

  lemma ExampleUnbroken(c: Cells, https: string)
    requires ExampleCells(c, https) && (https == "yes" || https == "yes ")
    ensures Unbroken(c)
  {
  }

  lemma ExampleTrimmed(c: Cells, https: string)
    requires ExampleCells(c, https)
    ensures Trimmed(c.code) && Trimmed(c.anonymity)
  {
  }

  /** With the Https cell `yes` the row of `ExampleCells` yields `https://47.75.62.90:80`, `US`, `United States`, `elite proxy`. */
  lemma ExampleHttpsRow(c: Cells)
    requires ExampleCells(c, "yes")
    ensures ParseRow(RowText(c)) ==
      Ok(ProxyRecord(Address(Https, "47.75.62.90", "80"), "US", "United States", "elite proxy"))
  {
    ExamplePlain(c, "yes");
    ParsePlainRow(c);
  }

  /**
   * An Https cell reading `yes ` with a trailing space does not compare
   * equal at line 159, since ` class='hm'` leaves a second space behind:
   * the row yields `http://`.
   */
  lemma ExampleTrailingSpaceRow(c: Cells)
    requires ExampleCells(c, "yes ")
    ensures ParseRow(RowText(c)) ==
      Ok(ProxyRecord(Address(Http, "47.75.62.90", "80"), "US", "United States", "elite proxy"))
  {
    ExamplePlain(c, "yes ");
    ParsePlainRow(c);
    assert c.https != "yes";
  }

}
