# proxy() as a verified model

`proxy()` in `proxy.py` fetches the table of free-proxy-list.net, turns every
matched table row into a record `[address, region_code, region_name,
anonymity_level]`, filters the records by the caller's options, and returns a
random choice of them. This project models in Dafny what `proxy()` does with
the rows once they are matched, without validation (`validate=False`). It
also proves what that code does with them.

Modules, one file each:

- `wrappers.dfy` (`Wrappers`): `Result` and the one error the pipeline can raise, `IndexError`.
- `text.dfy` (`Text`): the Python string operations the pipeline uses: `replace`, `split` on `>`, `strip()`, ASCII `lower()` and `startswith`. Each comes with the lemmas the row proofs need, for example that `Join` undoes `Split`.
- `rows.dfy` (`Rows`): the text of a matched row, built from its eight cells after the pattern at `proxy.py:89`. It also holds the `replace`/`split` chain of line 156 and the record built at line 159.
- `selection.dfy` (`Selection`): the count normalisation and the cut of the raw rows (lines 141-153). It also holds the require and exclude filters with their key (lines 162-167), the protocol filter (lines 169-173) and the projection to bare addresses (lines 176-177).
- `sampling.dfy` (`Sampling`): the clamp, the empty pool, the sample and the unwrapping of a single element (lines 179-193).
- `proxy.dfy` (`Proxy`): the whole of `proxy()` composed from the above, and the end-to-end properties.

What the proofs show about the code as written:

- **Cell order.** After the three `replace` calls and `split(">")`, the first seven pieces of a matched row, when none of its first seven cells holds `>`, are the cells in order. The fields that the next cell's opening tag follows keep its leftover ` class='hm'` or ` class='hx'` (`UnwrapRow`, `MatchedPieces`).
- **Matched rows never fail.** A row the pattern matches always has at least eight pieces, so line 159 never raises (`MatchedRowParses`, `MatchedRowsNeverFail`).
- **Scheme choice.** The seventh piece is the Https cell plus ` class='hm'`. With `class='hm'` removed it is the cleaned cell (the cell with every `class='hm'` of its own removed) plus one space. So the comparison with `"yes "` holds exactly when the cleaned cell reads `yes`. A cell reading `yes ` with its own trailing space gives `http://` (`SchemeOfCell`, `ParseMatchedRow`, `ExampleTrailingSpaceRow`).
- **Region code and anonymity.** Both lose every `class='hm'` and are stripped. The region name is the country cell verbatim.
- **The filter key.** The require and exclude filters ignore ASCII case (`RequireIgnoresCase`). They test one key: the first non-empty of the lower-cased region code, region name and anonymity level. Every record kept by `require` matches on some field. The converse fails: a record with a region code is judged by its code alone, so asking for an anonymity level such as `elite proxy` drops every record that has a region code (`CodeShadowsOtherFields`). On the same set, `exclude` keeps exactly what `require` drops (`RequireExcludeSplit`).
- **Exactly the qualifying records.** The pool holds every parsed record that passes the four filters, as often as it was parsed, and nothing else (`Filtered`, `PoolQualified`, `PoolComplete`).
- **The cut hides the sample.** Unless `exclude`, `require`, `https_only` and `http_only` are all set, only the first `number` rows are parsed. The clamp then never bites, so a list returned is the whole filtered pool in some order (`CutPoolIsWhole`).
- **Count 0.** `number=0` with a non-empty pool raises `IndexError` at `proxies[0]` (`Shape`, `Proxy`).

## Model

| member | source | states |
|---|---|---|
| Text.Replace | proxy.py:156 | `s.replace(pat, rep)` scanning left to right over non-overlapping occurrences; removing a non-empty pattern never lengthens the string |
| Text.ReplaceAbsent | proxy.py:156 | `replace` leaves a string that does not contain the pattern unchanged |
| Text.ReplaceWeave | proxy.py:156 | when each piece of markup is closed for the pattern and no cell text holds its first character, `replace` on the row acts on the markup alone and leaves every cell text intact |
| Text.ReplaceAround | proxy.py:159 | a character absent from the pattern splits a `replace`: no occurrence straddles it |
| Text.Split | proxy.py:156 | `split` on one character gives at least one piece, and no piece holds the separator |
| Text.JoinSplit | proxy.py:156 | joining the pieces of a split with the separator gives back the string |
| Text.SplitFree | proxy.py:156 | a string without the separator splits into itself alone |
| Text.SplitAround | proxy.py:156 | splitting around a separator concatenates the splits of both sides |
| Text.SplitJoin | proxy.py:156 | splitting a join gives at least as many pieces, and gives back every leading piece that holds no separator |
| Text.StripLeft | proxy.py:159 | `lstrip()` removes only whitespace, all of the leading whitespace, and leaves a suffix |
| Text.StripRight | proxy.py:159 | `rstrip()` removes only whitespace, all of the trailing whitespace, and leaves a prefix |
| Text.Strip | proxy.py:159 | `strip()` returns a string with no whitespace at either end, no longer than its input, and empty exactly when the input is all whitespace |
| Text.StripTrailingSpace | proxy.py:159 | whitespace appended to a string does not change its `strip()` |
| Text.StripTrimmed | proxy.py:159 | `strip()` leaves a string with no whitespace at either end unchanged |
| Text.FreeAbsent | proxy.py:159 | a string without the pattern's first character does not contain the pattern |
| Text.StartsWith | proxy.py:171-173 | `s.startswith(prefix)`: `prefix` is a prefix of `s`; its consequence for the two schemes is `Selection.SchemesDisjoint` |
| Text.LowerChar | proxy.py:144 | an ASCII upper-case letter becomes the lower-case letter 32 code points above it; every other character is unchanged |
| Text.Lower | proxy.py:144 | `lower()` maps each character by `LowerChar`, keeps the length and leaves no upper-case ASCII letter |
| Text.LowerEqualIgnoringCase | proxy.py:144-147 | two strings have the same `lower()` exactly when they differ only in the case of ASCII letters |
| Text.LowerUnchanged | proxy.py:144 | a string without upper-case ASCII letters is its own `lower()` |
| Rows.RowText | proxy.py:89 | the text `re.findall` returns for a row of eight cells: the pattern's fixed markup with the cells in their places; what the chain of line 156 makes of it is `Rows.UnwrapRow` |
| Rows.Unwrap | proxy.py:156 | the three `replace` calls of line 156; their effect on a matched row is `Rows.UnwrapRow` |
| Rows.Pieces | proxy.py:156 | `split(">")` after the three `replace` calls; the pieces of a matched row are `Rows.MatchedPieces` |
| Rows.UnwrapRow | proxy.py:156 | the three `replace` calls turn the text of a row matched by the pattern of line 89 into the cell texts joined by `>`, with the class attributes left on the code, anonymity, Google and Https cells |
| Rows.MatchedPieces | proxy.py:156 | when none of the first seven cells holds `>`, a matched row splits into at least eight pieces. The first seven are the cells in order, with the code, anonymity, Google and Https cells each followed by the class attribute the next tag leaves (`Parts`) |
| Rows.ParseRow | proxy.py:156-159 | building a record fails with `IndexError` exactly when the row splits into fewer than seven pieces |
| Rows.Address | proxy.py:159 | the address starts with its scheme and continues with `host:port` |
| Rows.ParseRows | proxy.py:156-159 | the rows fail to parse exactly when one row fails; otherwise there is one record per row, in row order |
| Rows.MatchedRowParses | proxy.py:156-159 | a matched row always has the pieces line 159 indexes, so it never raises |
| Rows.SchemeOfCell | proxy.py:159 | the seventh piece compares equal to `"yes "` exactly when the Https cell, with `class='hm'` removed, reads `yes` |
| Rows.ParseMatchedRow | proxy.py:159 | a matched row without `>` in its cells yields `https://` exactly when the cleaned Https cell is `yes`; host and port come verbatim; the region code and anonymity are cleaned and stripped; the region name is the country cell verbatim |
| Rows.ParseFromPieces | proxy.py:159 | the record built from any pieces whose first seven are those of `Parts`: the cells in order, with the code, anonymity, Google and Https cells each followed by the class attribute the next tag leaves; the fields are as in `ParseMatchedRow` |
| Rows.CleanedField | proxy.py:159 | a cell followed by ` class='hm'` strips to the same text as the cell alone |
| Rows.HmTailCleaned | proxy.py:159 | removing `class='hm'` from a cell followed by ` class='hm'` leaves the cleaned cell plus one space |
| Rows.ParsePlainRow | proxy.py:159 | for cells without `class='hm'` and already stripped, the record is `https://` exactly when the Https cell is `yes`, and the other fields are the cells themselves |
| Rows.ParseMatchedRows | proxy.py:156-159 | matched rows parse to exactly one record each |
| Rows.ExampleHttpsRow | proxy.py:159 | the example row with Https cell `yes` yields `https://47.75.62.90:80`, `US`, `United States`, `elite proxy` |
| Rows.ExampleTrailingSpaceRow | proxy.py:159 | the same row with Https cell `yes ` yields `http://47.75.62.90:80` |
| Selection.SubseqTrans | proxy.py:162-173 | a subsequence of a subsequence is a subsequence, so the successive filters keep order |
| Selection.SubseqLength | proxy.py:162-173 | a subsequence is no longer than the sequence it comes from |
| Selection.NormalizeCount | proxy.py:141-142 | a negative count becomes 1; a count of 0 or more is kept |
| Selection.LowerSet | proxy.py:144-147 | the set holds the lower-cased form of every given string and nothing else, and is empty exactly when no string is given |
| Selection.KeepsAllRows | proxy.py:150 | `all((exclude, require, https_only, http_only))`: true exactly when both sets are non-empty and both flags are set; its effect is `Selection.Cut` |
| Selection.Cut | proxy.py:150-153 | the rows kept are a prefix of the raw rows: all of them when the four options are set, otherwise the first `number` of them or all if fewer |
| Selection.Key | proxy.py:163 | the key is the lower-cased region code if it is non-empty, else the lower-cased region name if that is non-empty, else the lower-cased anonymity level |
| Selection.KeepKeyed | proxy.py:163 | the records whose key is, or is not, in the set: an order-preserving subsequence holding exactly those records, each as many times as the input holds it |
| Selection.Require | proxy.py:162-163 | an empty require set changes nothing; otherwise a record is kept exactly when its key is in the set, as many times as the input holds it; the result is an order-preserving subsequence |
| Selection.Exclude | proxy.py:166-167 | an empty exclude set changes nothing; otherwise a record is kept exactly when its key is not in the set, as many times as the input holds it; the result is an order-preserving subsequence |
| Selection.RequireExcludeSplit | proxy.py:162-167 | on the same non-empty set, require and exclude together keep every record exactly once |
| Selection.KeepKeyedSplit | proxy.py:162-167 | keeping the records whose key is in a set and those whose key is not partitions the records |
| Selection.RequireIgnoresCase | proxy.py:144-167 | a record whose region code differs from a given string only in ASCII case is kept by require and dropped by exclude |
| Selection.RequiredMatchesSomeField | proxy.py:163 | every record kept by require matches the set on its region code, region name or anonymity level |
| Selection.CodeShadowsOtherFields | proxy.py:162-167 | a record whose non-empty region code is not in the set is dropped by require and kept by exclude, whatever its other fields |
| Selection.KeepScheme | proxy.py:171-173 | keeps exactly the records whose address starts with the scheme, each as many times as the input holds it, in order |
| Selection.Protocol | proxy.py:169-173 | both flags or neither leave the list unchanged; `https_only` alone keeps exactly the `https://` addresses and `http_only` alone the `http://` ones, each as many times as the input holds it; order is kept |
| Selection.SchemesDisjoint | proxy.py:171-173 | no address starts with both `https://` and `http://` |
| Selection.HttpOnlyDropsHttps | proxy.py:172-173 | `http_only` alone drops every `https://` address |
| Selection.Shown | proxy.py:176-177 | what the result holds for a record: the record when verbose, its address otherwise; either way its address is the record's |
| Selection.Project | proxy.py:176-177 | the projection keeps the length and each element's address; verbose keeps the records, otherwise each becomes its bare address |
| Selection.ProjectCount | proxy.py:176-177 | the projection holds what a record shows at least as often as the input holds the record |
| Selection.Filtered | proxy.py:162-173 | require, exclude and protocol filtering keep exactly the records that pass all three filters (`Qualifies`), each as many times as the input holds it, as an order-preserving subsequence |
| Sampling.Clamp | proxy.py:179-180 | the count is clamped to at most the pool size |
| Sampling.Sample | proxy.py:190 | the sample holds the pool elements at the drawn positions, in the order drawn |
| Sampling.Without | proxy.py:190 | removing one position removes exactly that element |
| Sampling.ShiftSample | proxy.py:190 | a sample that avoids one position is the same sample from the pool without it |
| Sampling.SampleWithin | proxy.py:190 | a sample at distinct positions takes each element at most as often as the pool holds it |
| Sampling.SampleAll | proxy.py:190 | a sample as large as the pool is the whole pool reordered |
| Sampling.Shape | proxy.py:179-193 | an empty pool gives `[]`; otherwise it fails exactly when the count is 0; a list has the clamped count, at least two, drawn from the pool; a single element comes from the pool and is returned when the clamped count is one |
| Sampling.ShapeWholePool | proxy.py:179-193 | when the count covers a pool of two or more, the result is a list holding the whole pool reordered |
| Proxy.Pool | proxy.py:141-177 | the pool fails exactly when parsing the cut rows fails, and is no larger than the cut rows |
| Proxy.CutRows | proxy.py:150-153 | the raw rows after the cut of lines 150-153 (see `Selection.Cut`) |
| Proxy.Parsed | proxy.py:156-159 | the records parsed from the cut rows (see `Rows.ParseRows`) |
| Proxy.Passes | proxy.py:162-173 | a record passes the filters for the lower-cased `require` and `exclude` sets and the two flags (`Selection.Qualifies`) |
| Proxy.PoolQualified | proxy.py:156-177 | every pool element is what line 177 makes of a parsed record that passes the require, exclude and protocol filters: the record itself when verbose, else its address |
| Proxy.PoolComplete | proxy.py:156-177 | every parsed record that passes the filters reaches the pool, as the record when verbose or its address otherwise, at least as many times as it was parsed |
| Proxy.Proxy | proxy.py:123-193 | `proxy()` raises `IndexError` exactly when a row fails to parse, or when the count is 0 and the pool is not empty; an empty pool gives `[]` |
| Proxy.Range | proxy.py:190 | the first `k` positions |
| Proxy.FirstPositionsDrawn | proxy.py:190 | a draw the sample precondition admits always exists |
| Proxy.ProxyReturnsQualified | proxy.py:141-193 | no more elements than the normalised count are returned, and each is what line 177 makes of a parsed record that passes every filter |
| Proxy.ReturnedFromPool | proxy.py:190-193 | whatever is returned is an element of the pool |
| Proxy.HttpOnlyReturnsHttp | proxy.py:169-193 | with `http_only` alone every address returned starts with `http://` and not with `https://` |
| Proxy.CutPoolIsWhole | proxy.py:150-193 | unless all four options are set, a list returned is the whole filtered pool reordered |
| Proxy.MatchedRowsNeverFail | proxy.py:156-159 | rows matched by the pattern of line 89 never make `proxy()` fail while parsing |
| Proxy.NoRowsEmptyList | proxy.py:186-188 | with no rows at all, `proxy()` returns `[]` |

## Left out

- `make_request` (proxy.py:65-89) sends an HTTP request and runs `re.findall`. Its result is the parameter `raw`. The pattern is modelled only as the shape of the row text `RowText` builds from eight cells without `<`.
- `validate=True` is not modelled: `threader`, `validate_proxy` and the global `VALID_PROXIES` (proxy.py:91-121, 182-184, 195-225). That path is threads and network probes.
- `random.sample` (proxy.py:190) is not modelled as randomness. The drawn positions are the parameter `picks`, required to be distinct, in range and as many as the clamped count.
- The message printed for an empty pool (proxy.py:187) is output only.
- The default arguments of `proxy()` (`number=1`, empty `exclude` and `require`, `validate=True`, `https_only=False`, `http_only=False`, `verbose=False`) are not modelled. `Options` has no defaults, and every call states all of its fields. A bare `proxy()` call would take the validation path, which is left out.
- `main` and `handle_args` (proxy.py:11-61) parse command-line arguments and print.
- The `isinstance` coercion of a single `require` or `exclude` value into a list (proxy.py:136-139) is not modelled. Both are taken as sequences of strings.
- Text.Lower: lower-cases ASCII letters only. Python's `str.lower` also maps other Unicode letters.
- Rows.ParseMatchedRow: states the fields only for rows whose first seven cells hold no `>`. With one, the pieces shift. `ParseRow` still computes the record, and `MatchedRowParses` still rules out `IndexError`.
