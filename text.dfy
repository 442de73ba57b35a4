/**
 * The few Python `str` operations the proxy pipeline uses, on Dafny strings
 * (`seq<char>`): `replace`, `split` on one separator character, `strip()`
 * without arguments, `lower()` and `startswith`.
 */
module Text {

  /** `s.startswith(prefix)`. */
  predicate StartsWith(s: string, prefix: string) {
    prefix <= s
  }

  /** Some occurrence of `pat` starts somewhere in `s`. */
  predicate Contains(s: string, pat: string) {
    exists i | 0 <= i <= |s| :: pat <= s[i..]
  }

  // ---------------------------------------------------------------------------
  // str.replace
  // ---------------------------------------------------------------------------

  /**
   * `s.replace(pat, rep)`: scanning left to right, every occurrence of `pat`
   * that does not overlap an earlier one becomes `rep`. An empty `pat` puts
   * `rep` before every character and once more at the end, as Python does.
   */
  function Replace(s: string, pat: string, rep: string): (r: string)
    ensures pat != [] && |rep| <= |pat| ==> |r| <= |s|
    decreases |s|
  {
    if pat == [] then
      (if s == [] then rep else rep + [s[0]] + Replace(s[1..], pat, rep))
    else if s == [] then []
    else if pat <= s then rep + Replace(s[|pat|..], pat, rep)
    else [s[0]] + Replace(s[1..], pat, rep)
  }

  /** A string in which `pat` does not occur is left alone by `Replace`. */
  lemma {:induction false} ReplaceAbsent(s: string, pat: string, rep: string)
    requires pat != [] && !Contains(s, pat)
    ensures Replace(s, pat, rep) == s
    decreases |s|
  {
    if s != [] {
      assert s[0..] == s;
      assert !Contains(s[1..], pat) by {
        forall i | 0 <= i <= |s[1..]| ensures !(pat <= s[1..][i..]) {
          assert s[1..][i..] == s[i + 1..];
        }
      }
      ReplaceAbsent(s[1..], pat, rep);
    }
  }

  /**
   * `Blocked(t, pat)`: the text `t` already rules out an occurrence of `pat`
   * at its first position, whatever follows `t`.
   */
  predicate Blocked(t: string, pat: string)
    decreases |t|
  {
    pat != [] && t != [] && (t[0] != pat[0] || Blocked(t[1..], pat[1..]))
  }

  lemma {:induction false} BlockedNotPrefix(t: string, pat: string, s: string)
    requires Blocked(t, pat)
    ensures !(pat <= t + s) && !(pat <= t)
    decreases |t|
  {
    if t[0] == pat[0] {
      BlockedNotPrefix(t[1..], pat[1..], s);
      assert (t + s)[1..] == t[1..] + s;
    }
  }

  /**
   * `Closed(t, pat)`: scanning `t` on its own finds exactly the occurrences
   * of `pat` that scanning `t + s` finds inside `t`, for every `s`. Each
   * position of `t` either starts a whole occurrence or is blocked.
   */
  predicate Closed(t: string, pat: string)
    decreases |t|
  {
    pat != [] &&
    (t == [] ||
     if pat <= t then Closed(t[|pat|..], pat)
     else Blocked(t, pat) && Closed(t[1..], pat))
  }

  /** Replacement distributes over a concatenation whose left part is closed. */
  lemma {:induction false} ReplaceClosed(t: string, s: string, pat: string, rep: string)
    requires Closed(t, pat)
    ensures Replace(t + s, pat, rep) == Replace(t, pat, rep) + Replace(s, pat, rep)
    decreases |t|
  {
    if t == [] {
      assert t + s == s;
    } else if pat <= t {
      assert (t + s)[|pat|..] == t[|pat|..] + s;
      assert pat <= t + s;
      ReplaceClosed(t[|pat|..], s, pat, rep);
    } else {
      BlockedNotPrefix(t, pat, s);
      assert (t + s)[1..] == t[1..] + s;
      ReplaceClosed(t[1..], s, pat, rep);
    }
  }

  /** No position of `t` can start an occurrence of `pat`, whatever follows `t`. */
  predicate Inert(t: string, pat: string)
    decreases |t|
  {
    t == [] || (Blocked(t, pat) && Inert(t[1..], pat))
  }

  lemma {:induction false} BlockedAppend(a: string, b: string, pat: string)
    requires Blocked(a, pat)
    ensures Blocked(a + b, pat)
    decreases |a|
  {
    if a[0] == pat[0] {
      BlockedAppend(a[1..], b, pat[1..]);
      assert (a + b)[1..] == a[1..] + b;
    }
  }

  /** `t[i..]` agrees with `pat` on its first `j` characters and then differs from it. */
  lemma {:induction false} BlockedAt(t: string, pat: string, i: nat, j: nat)
    requires i + j < |t| && j < |pat|
    requires forall k | 0 <= k < j :: t[i + k] == pat[k]
    requires t[i + j] != pat[j]
    ensures Blocked(t[i..], pat)
    decreases j
  {
    if j > 0 {
      assert t[i] == pat[0] by { assert t[i + 0] == pat[0]; }
      forall k | 0 <= k < j - 1 ensures t[i + 1 + k] == pat[1..][k] {
        assert t[i + (k + 1)] == pat[k + 1];
      }
      BlockedAt(t, pat[1..], i + 1, j - 1);
      assert t[i..][1..] == t[i + 1..];
    }
  }

  /** A text every suffix of which is blocked is inert. */
  lemma {:induction false} InertByPositions(t: string, pat: string)
    requires forall i | 0 <= i < |t| :: Blocked(t[i..], pat)
    ensures Inert(t, pat)
    decreases |t|
  {
    if t != [] {
      assert t[0..] == t;
      forall i | 0 <= i < |t| - 1 ensures Blocked(t[1..][i..], pat) {
        assert t[1..][i..] == t[i + 1..];
      }
      InertByPositions(t[1..], pat);
    }
  }

  /** Inert texts stay inert side by side. */
  lemma {:induction false} InertAppend(a: string, b: string, pat: string)
    requires Inert(a, pat) && Inert(b, pat)
    ensures Inert(a + b, pat)
    decreases |a|
  {
    if a == [] {
      assert a + b == b;
    } else {
      BlockedAppend(a, b, pat);
      InertAppend(a[1..], b, pat);
      assert (a + b)[1..] == a[1..] + b;
    }
  }

  /** Text without the first character of `pat` is inert. */
  lemma {:induction false} FreeInert(t: string, pat: string)
    requires pat != [] && pat[0] !in t
    ensures Inert(t, pat)
    decreases |t|
  {
    if t != [] {
      FreeInert(t[1..], pat);
    }
  }

  /** An inert text is closed and left alone by `Replace`. */
  lemma {:induction false} InertUnchanged(t: string, pat: string, rep: string)
    requires pat != [] && Inert(t, pat)
    ensures Closed(t, pat) && Replace(t, pat, rep) == t
    decreases |t|
  {
    if t != [] {
      BlockedNotPrefix(t, pat, []);
      InertUnchanged(t[1..], pat, rep);
    }
  }

  /** Text without the first character of `pat` is left alone by `Replace`. */
  lemma {:induction false} ReplaceFree(t: string, pat: string, rep: string)
    requires pat != [] && pat[0] !in t
    ensures Closed(t, pat) && Replace(t, pat, rep) == t
    decreases |t|
  {
    if t != [] {
      assert !(pat <= t);
      ReplaceFree(t[1..], pat, rep);
    }
  }

  /**
   * Markup and text in alternation, nested to the right:
   * `tags[0] + (texts[0] + (tags[1] + ... + tags[|texts|]))`.
   */
  function Weave(tags: seq<string>, texts: seq<string>): string
    requires |tags| == |texts| + 1
  {
    if texts == [] then tags[0]
    else tags[0] + (texts[0] + Weave(tags[1..], texts[1..]))
  }

  /** `Weave` unfolded once, from any starting point. */
  lemma WeaveFrom(tags: seq<string>, texts: seq<string>, k: nat)
    requires |tags| == |texts| + 1 && k < |texts|
    ensures Weave(tags[k..], texts[k..]) == tags[k] + (texts[k] + Weave(tags[k + 1..], texts[k + 1..]))
  {
    assert tags[k..][1..] == tags[k + 1..];
    assert texts[k..][1..] == texts[k + 1..];
  }

  /** Two texts with empty markup between them read as one. */
  lemma WeaveGlue(tags: seq<string>, texts: seq<string>, k: nat)
    requires |tags| == |texts| + 1 && k + 1 < |texts| && tags[k + 1] == []
    ensures Weave(tags[k..], texts[k..]) ==
      tags[k] + ((texts[k] + texts[k + 1]) + Weave(tags[k + 2..], texts[k + 2..]))
  {
    WeaveFrom(tags, texts, k);
    WeaveFrom(tags, texts, k + 1);
  }

  /** Each string of `segs` replaced on its own. */
  function ReplaceEach(segs: seq<string>, pat: string, rep: string): (r: seq<string>)
    ensures |r| == |segs|
  {
    seq(|segs|, i requires 0 <= i < |segs| => Replace(segs[i], pat, rep))
  }

  /**
   * When every piece of markup is closed for `pat` and no text holds the
   * first character of `pat`, replacing in the whole replaces in the markup
   * alone and leaves the texts as they are.
   */
  lemma {:induction false} ReplaceWeave(tags: seq<string>, texts: seq<string>, pat: string, rep: string)
    requires |tags| == |texts| + 1 && pat != []
    requires forall i | 0 <= i < |tags| :: Closed(tags[i], pat)
    requires forall i | 0 <= i < |texts| :: pat[0] !in texts[i]
    ensures Replace(Weave(tags, texts), pat, rep) == Weave(ReplaceEach(tags, pat, rep), texts)
  {
    var tags' := ReplaceEach(tags, pat, rep);
    if texts != [] {
      var rest := Weave(tags[1..], texts[1..]);
      assert Closed(tags[0], pat);
      ReplaceClosed(tags[0], texts[0] + rest, pat, rep);
      ReplaceFree(texts[0], pat, rep);
      ReplaceClosed(texts[0], rest, pat, rep);
      ReplaceWeave(tags[1..], texts[1..], pat, rep);
      assert tags'[1..] == ReplaceEach(tags[1..], pat, rep);
    }
  }

  /** Before a character that `pat` lacks, `pat` can only match inside `a`. */
  lemma PrefixBeforeSeparator(a: string, x: char, b: string, pat: string)
    requires x !in pat
    ensures (pat <= a + [x] + b) == (pat <= a)
  {
    var s := a + [x] + b;
    if |pat| <= |a| {
      assert s[..|pat|] == a[..|pat|];
    } else {
      assert pat[|a|] in pat;
      assert s[|a|] == x;
    }
  }

  /**
   * A character that does not occur in `pat` separates the replacement: no
   * occurrence can straddle it.
   */
  lemma {:induction false} ReplaceAround(a: string, x: char, b: string, pat: string, rep: string)
    requires pat != [] && x !in pat
    ensures Replace(a + [x] + b, pat, rep) == Replace(a, pat, rep) + [x] + Replace(b, pat, rep)
    decreases |a|
  {
    var s := a + [x] + b;
    PrefixBeforeSeparator(a, x, b, pat);
    if a == [] {
      assert s == [x] + b && s[1..] == b;
    } else if pat <= a {
      assert s[|pat|..] == a[|pat|..] + [x] + b;
      ReplaceAround(a[|pat|..], x, b, pat, rep);
    } else {
      assert s[1..] == a[1..] + [x] + b;
      ReplaceAround(a[1..], x, b, pat, rep);
    }
  }

  // ---------------------------------------------------------------------------
  // str.split on one character
  // ---------------------------------------------------------------------------

  /**
   * `s.split(sep)` for a one-character separator: the pieces between
   * separators, in order, empty pieces included (`"".split(">") == [""]`).
   */
  function Split(s: string, sep: char): (r: seq<string>)
    ensures |r| >= 1
    ensures forall i | 0 <= i < |r| :: sep !in r[i]
  {
    if s == [] then [[]]
    else
      var rest := Split(s[1..], sep);
      if s[0] == sep then [[]] + rest
      else [[s[0]] + rest[0]] + rest[1..]
  }

  /** `sep.join(parts)`, the inverse of `Split`. */
  function Join(parts: seq<string>, sep: char): string
    requires |parts| >= 1
  {
    if |parts| == 1 then parts[0] else parts[0] + ([sep] + Join(parts[1..], sep))
  }

  /** Joining the pieces of a split gives back the string. */
  lemma {:induction false} JoinSplit(s: string, sep: char)
    ensures Join(Split(s, sep), sep) == s
  {
    if s != [] {
      var rest := Split(s[1..], sep);
      JoinSplit(s[1..], sep);
      if s[0] == sep {
        assert Split(s, sep)[1..] == rest;
        assert s == [s[0]] + s[1..];
      } else if |rest| == 1 {
        assert s == [s[0]] + s[1..];
      } else {
        var r := Split(s, sep);
        assert r[1..] == rest[1..];
        assert r[0] == [s[0]] + rest[0];
        assert Join(rest, sep) == rest[0] + ([sep] + Join(rest[1..], sep));
        assert s == [s[0]] + s[1..];
      }
    }
  }

  /** A string without the separator is one piece. */
  lemma {:induction false} SplitFree(s: string, sep: char)
    requires sep !in s
    ensures Split(s, sep) == [s]
  {
    if s != [] {
      SplitFree(s[1..], sep);
      assert s == [s[0]] + s[1..];
    }
  }

  /** Splitting at a separator splits each side on its own. */
  lemma {:induction false} SplitAround(a: string, sep: char, b: string)
    ensures Split(a + [sep] + b, sep) == Split(a, sep) + Split(b, sep)
  {
    var s := a + [sep] + b;
    if a == [] {
      assert s == [sep] + b;
      assert s[1..] == b;
    } else {
      assert s[1..] == a[1..] + [sep] + b;
      SplitAround(a[1..], sep, b);
    }
  }

  /**
   * Splitting a join recovers every leading part that is free of the
   * separator, and never yields fewer pieces than there were parts.
   */
  lemma {:induction false} SplitJoin(parts: seq<string>, sep: char, k: nat)
    requires |parts| >= 1 && k <= |parts|
    requires forall j | 0 <= j < k :: sep !in parts[j]
    ensures |Split(Join(parts, sep), sep)| >= |parts|
    ensures Split(Join(parts, sep), sep)[..k] == parts[..k]
  {
    if |parts| == 1 {
      if k == 1 { SplitFree(parts[0], sep); }
    } else {
      var rest := parts[1..];
      assert Join(parts, sep) == parts[0] + [sep] + Join(rest, sep);
      SplitAround(parts[0], sep, Join(rest, sep));
      SplitJoin(rest, sep, if k == 0 then 0 else k - 1);
      if k > 0 {
        SplitFree(parts[0], sep);
        assert parts[..k] == [parts[0]] + rest[..k - 1];
      }
    }
  }

  // ---------------------------------------------------------------------------
  // str.strip() and str.lower()
  // ---------------------------------------------------------------------------

  /** Python's whitespace characters (`str.isspace`). */
  predicate IsSpace(c: char) {
    (9 <= c as int <= 13) || (28 <= c as int <= 32) || c as int == 0x85 || c as int == 0xA0 ||
    c as int == 0x1680 || (0x2000 <= c as int <= 0x200A) || c as int == 0x2028 ||
    c as int == 0x2029 || c as int == 0x202F || c as int == 0x205F || c as int == 0x3000
  }

  predicate AllSpace(s: string) {
    forall i | 0 <= i < |s| :: IsSpace(s[i])
  }

  /** `s.lstrip()`: `s` without its leading whitespace. */
  function StripLeft(s: string): (r: string)
    ensures |r| <= |s| && r == s[|s| - |r|..]
    ensures AllSpace(s[..|s| - |r|])
    ensures r == [] || !IsSpace(r[0])
  {
    if s != [] && IsSpace(s[0]) then
      var r := StripLeft(s[1..]);
      var k := |s| - |r|;
      assert s[1..][k - 1..] == s[k..];
      assert s[..k] == [s[0]] + s[1..][..k - 1];
      r
    else s
  }

  /** `s.rstrip()`: `s` without its trailing whitespace. */
  function StripRight(s: string): (r: string)
    ensures |r| <= |s| && r == s[..|r|]
    ensures AllSpace(s[|r|..])
    ensures r == [] || !IsSpace(r[|r| - 1])
  {
    if s != [] && IsSpace(s[|s| - 1]) then
      var init := s[..|s| - 1];
      var r := StripRight(init);
      assert init[..|r|] == s[..|r|];
      assert s[|r|..] == init[|r|..] + [s[|s| - 1]];
      AllSpaceConcat(init[|r|..], [s[|s| - 1]]);
      r
    else s
  }

  /** `s.strip()`. */
  function Strip(s: string): (r: string)
    ensures |r| <= |s| && Trimmed(r)
    ensures r == [] <==> AllSpace(s)
  {
    var t := StripLeft(s);
    var r := StripRight(t);
    StripBoth(s, t, r);
    r
  }

  /** Why `Strip` is trimmed, and empty exactly on whitespace. */
  lemma StripBoth(s: string, t: string, r: string)
    requires t == StripLeft(s) && r == StripRight(t)
    ensures |r| <= |s| && Trimmed(r)
    ensures r == [] <==> AllSpace(s)
  {
    SpacePrefix(s, |s| - |t|);
    SpaceSuffix(t, |r|);
    if r != [] {
      assert r[0] == t[0];
    }
  }

  /** Dropping leading whitespace keeps a string all whitespace or not. */
  lemma SpacePrefix(s: string, k: nat)
    requires k <= |s| && AllSpace(s[..k])
    ensures AllSpace(s) <==> AllSpace(s[k..])
  {
    assert s == s[..k] + s[k..];
    AllSpaceConcat(s[..k], s[k..]);
  }

  /** A prefix ending in a non-space, followed by whitespace only, is empty exactly on whitespace. */
  lemma SpaceSuffix(t: string, k: nat)
    requires k <= |t| && AllSpace(t[k..])
    requires k == 0 || !IsSpace(t[k - 1])
    ensures AllSpace(t) <==> k == 0
  {
    assert t == t[..k] + t[k..];
    AllSpaceConcat(t[..k], t[k..]);
    if k > 0 {
      assert t[..k][k - 1] == t[k - 1];
    }
  }

  lemma AllSpaceConcat(a: string, b: string)
    ensures AllSpace(a + b) <==> AllSpace(a) && AllSpace(b)
  {
    if AllSpace(a) && AllSpace(b) {
      forall i | 0 <= i < |a + b| ensures IsSpace((a + b)[i]) {
        if i >= |a| { assert (a + b)[i] == b[i - |a|]; }
      }
    }
    if AllSpace(a + b) {
      forall i | 0 <= i < |a| ensures IsSpace(a[i]) {
        assert (a + b)[i] == a[i];
      }
      forall i | 0 <= i < |b| ensures IsSpace(b[i]) {
        assert (a + b)[i + |a|] == b[i];
      }
    }
  }

  /** A string without the pattern's first character does not contain it. */
  lemma FreeAbsent(s: string, pat: string)
    requires pat != [] && pat[0] !in s
    ensures !Contains(s, pat)
  {
    forall i | 0 <= i <= |s| ensures !(pat <= s[i..]) {
      if i < |s| {
        assert s[i..][0] == s[i];
      }
    }
  }

  /** Neither begins nor ends with whitespace. */
  predicate Trimmed(s: string) {
    s == [] || (!IsSpace(s[0]) && !IsSpace(s[|s| - 1]))
  }

  /** `strip()` leaves a trimmed string alone. */
  lemma StripTrimmed(s: string)
    requires Trimmed(s)
    ensures Strip(s) == s
  {
  }

  lemma {:induction false} StripLeftAllSpace(w: string)
    requires AllSpace(w)
    ensures StripLeft(w) == []
  {
    if w != [] { StripLeftAllSpace(w[1..]); }
  }

  lemma {:induction false} StripLeftAppend(s: string, w: string)
    requires AllSpace(w)
    ensures StripLeft(s + w) == if StripLeft(s) == [] then [] else StripLeft(s) + w
  {
    if s == [] {
      assert s + w == w;
      StripLeftAllSpace(w);
    } else if IsSpace(s[0]) {
      assert (s + w)[1..] == s[1..] + w;
      StripLeftAppend(s[1..], w);
    }
  }

  lemma {:induction false} StripRightAppend(s: string, w: string)
    requires AllSpace(w)
    ensures StripRight(s + w) == StripRight(s)
    decreases |w|
  {
    if w != [] {
      var s' := s + w;
      assert s'[..|s'| - 1] == s + w[..|w| - 1];
      StripRightAppend(s, w[..|w| - 1]);
    } else {
      assert s + w == s;
    }
  }

  /** Trailing whitespace does not change what `strip()` returns. */
  lemma StripTrailingSpace(s: string, w: string)
    requires AllSpace(w)
    ensures Strip(s + w) == Strip(s)
  {
    StripLeftAppend(s, w);
    if StripLeft(s) != [] {
      StripRightAppend(StripLeft(s), w);
    }
  }

  /** ASCII upper case to lower case; every other character unchanged. */
  function LowerChar(c: char): (r: char)
    ensures 'A' <= c <= 'Z' ==> 'a' <= r <= 'z' && r as int == c as int + 32
    ensures !('A' <= c <= 'Z') ==> r == c
  {
    if 'A' <= c <= 'Z' then (c as int + 32) as char else c
  }

  /** `s.lower()`, on the ASCII letters. */
  function Lower(s: string): (r: string)
    ensures |r| == |s|
    ensures forall i | 0 <= i < |r| :: r[i] == LowerChar(s[i])
    ensures forall i | 0 <= i < |r| :: !('A' <= r[i] <= 'Z')
  {
    seq(|s|, i requires 0 <= i < |s| => LowerChar(s[i]))
  }

  /** The same letter, or an ASCII letter and its other case. */
  predicate SameIgnoringCase(x: char, y: char) {
    || x == y
    || ('A' <= x <= 'Z' && y as int == x as int + 32)
    || ('A' <= y <= 'Z' && x as int == y as int + 32)
  }

  /** Two strings that differ at most in the case of ASCII letters. */
  predicate EqualIgnoringCase(a: string, b: string) {
    |a| == |b| && forall i | 0 <= i < |a| :: SameIgnoringCase(a[i], b[i])
  }

  /** `lower()` makes two strings equal exactly when they differ only in ASCII case. */
  lemma LowerEqualIgnoringCase(a: string, b: string)
    ensures Lower(a) == Lower(b) <==> EqualIgnoringCase(a, b)
  {
    if Lower(a) == Lower(b) {
      forall i | 0 <= i < |a| ensures SameIgnoringCase(a[i], b[i]) {
        assert Lower(a)[i] == Lower(b)[i];
      }
    }
    if EqualIgnoringCase(a, b) {
      forall i | 0 <= i < |a| ensures Lower(a)[i] == Lower(b)[i] {
        assert SameIgnoringCase(a[i], b[i]);
      }
    }
  }

  /** A string without upper-case ASCII letters is its own `lower()`. */
  lemma LowerUnchanged(s: string)
    requires forall i | 0 <= i < |s| :: !('A' <= s[i] <= 'Z')
    ensures Lower(s) == s
  {
    forall i | 0 <= i < |s| ensures Lower(s)[i] == s[i] {
    }
  }
}
