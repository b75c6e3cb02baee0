/** Finding the asset references in the content and unwrapping the link from
    each: the two `preg_match_all` calls of `addVersionsToAssetLinks`
    (`src="..."` / `src='...'`, then CSS `url(...)` in bare, double-quoted and
    single-quoted form, each character guarded against `data:`), and the
    `preg_replace` + `trim` that turns a token into its link. `href` attributes
    are not scanned. */
module Scanner {
  import opened Wrappers
  import opened Strings
  import opened Regex

  /** `src="[^"]+"` */
  const SrcDouble := Pattern("src=\"", '"', NoLook, "\"")
  /** `src='[^']+'` */
  const SrcSingle := Pattern("src='", '\'', NoLook, "'")

  /** The alternatives of the `sources` regex, in order. */
  const SrcPatterns := [SrcDouble, SrcSingle]

  /** The alternatives of the `urls` regex, in order: `url\((?:(?<!data:)[^)])+\)`,
      `url\("(?:(?<!data:)[^)])+"\)`, `url\('(?:(?!data:)[^)])+'\)`. */
  const UrlPatterns := [
    Pattern("url(", ')', NotAfterData, ")"),
    Pattern("url(\"", ')', NotAfterData, "\")"),
    Pattern("url('", ')', NotBeforeData, "')")
  ]

  /** The tokens `addVersionsToAssetLinks` processes: every `src` match, then
      every `url` match, each list in order of appearance (`array_merge`). */
  function LinkTokens(content: string): (r: seq<string>)
    ensures forall k :: 0 <= k < |r| ==> |r[k]| > 0 && Occurs(content, r[k])
  {
    MatchesOccur(content, SrcPatterns);
    MatchesOccur(content, UrlPatterns);
    Matches(content, SrcPatterns) + Matches(content, UrlPatterns)
  }

  /** `t` is `src="x"` with a non-empty `x` free of `"`, or the same with `'`. */
  predicate IsSrcToken(t: string) {
    exists q :: (q == '"' || q == '\'')
      && |t| >= 7 && t[..5] == "src=" + [q] && t[|t| - 1] == q && q !in t[5..|t| - 1]
  }

  /** Every occurrence of `data:` in `x` ends it, or ends just before a
      closing `"` when `x` opens with `"`. */
  predicate DataOnlyAtEnd(x: string) {
    forall k: nat :: k < |x| && HasAt(x, k, Data) ==>
      k + |Data| == |x| || (k + |Data| + 1 == |x| && x[0] == '"')
  }

  /** `t` is `url(x)` with a non-empty `x` free of `)`, in which `data:` is
      never followed by anything but the closing quote of a `"`-quoted `x`. */
  predicate IsUrlToken(t: string) {
    && |t| >= 6 && t[..4] == "url(" && t[|t| - 1] == ')'
    && ')' !in t[4..|t| - 1]
    && DataOnlyAtEnd(t[4..|t| - 1])
  }

  lemma SrcTokenShape(content: string, sp: Span)
    requires sp.lo < sp.hi <= |content| && Found(content, SrcPatterns, sp)
    ensures IsSrcToken(content[sp.lo..sp.hi])
  {
    var a, m := FoundShape(content, SrcPatterns, sp);
    var pat := SrcPatterns[a];
    var body := content[sp.lo + 5..m];
    assert pat.prefix == "src=" + [pat.stop] && pat.suffix == [pat.stop];
    forall x | 0 <= x < |body| ensures body[x] != pat.stop {
      assert RunChar(content, sp.lo + 5 + x, pat);
    }
    SrcShape(content[sp.lo..sp.hi], pat.stop, body);
  }

  /** `src=` + `q` + `body` + `q` is a `src` token. */
  lemma SrcShape(t: string, q: char, body: string)
    requires q == '"' || q == '\''
    requires t == "src=" + [q] + body + [q] && |body| > 0 && q !in body
    ensures IsSrcToken(t)
  {
    assert t[..5] == "src=" + [q];
    assert t[5..|t| - 1] == body;
  }

  /** Every `src` token is `src="x"` or `src='x'` with a non-empty `x` that
      does not contain its quote. */
  lemma SrcTokensShape(content: string)
    ensures forall k :: 0 <= k < |Matches(content, SrcPatterns)| ==> IsSrcToken(Matches(content, SrcPatterns)[k])
  {
    var spans := Scan(content, SrcPatterns);
    forall k | 0 <= k < |spans| ensures IsSrcToken(Matches(content, SrcPatterns)[k]) {
      SrcTokenShape(content, spans[k]);
    }
  }

  /** The run of a `url` match guarded by the lookbehind cannot hold a
      character right after `data:`. */
  lemma LookbehindBlocks(s: string, pat: Pattern, from: nat, to: nat, x: string, off: nat, k: nat)
    requires pat.look == NotAfterData && from <= to <= |s| && RunsOver(s, pat, from, to)
    requires off + |x| <= |s| && x == s[off..off + |x|]
    requires HasAt(x, k, Data)
    ensures !(from <= off + k + |Data| < to)
  {
    var p := off + k + |Data|;
    assert forall i :: k <= i < k + |Data| ==> x[i] == s[off + i];
    assert x[k..k + |Data|] == s[p - |Data|..p];
    assert from <= p < to ==> RunChar(s, p, pat);
  }

  /** Likewise for the lookahead: no run character starts `data:`. */
  lemma LookaheadBlocks(s: string, pat: Pattern, from: nat, to: nat, x: string, off: nat, k: nat)
    requires pat.look == NotBeforeData && from <= to <= |s| && RunsOver(s, pat, from, to)
    requires off + |x| <= |s| && x == s[off..off + |x|]
    requires HasAt(x, k, Data)
    ensures !(from <= off + k < to)
    ensures x[k] == 'd'
  {
    assert x[k] == x[k..k + |Data|][0];
    var p := off + k;
    assert forall i :: k <= i < k + |Data| ==> x[i] == s[off + i];
    assert x[k..k + |Data|] == s[p..p + |Data|];
    assert from <= p < to ==> RunChar(s, p, pat);
  }

  lemma UrlTokenShape(content: string, sp: Span)
    requires sp.lo < sp.hi <= |content| && Found(content, UrlPatterns, sp)
    ensures IsUrlToken(content[sp.lo..sp.hi])
  {
    var a, m := FoundShape(content, UrlPatterns, sp);
    var pat := UrlPatterns[a];
    var t := content[sp.lo..sp.hi];
    var start := sp.lo + |pat.prefix|;
    var body := content[start..m];
    assert |t| == sp.hi - sp.lo;
    forall y | 0 <= y < |body| ensures body[y] != ')' {
      assert RunChar(content, start + y, pat);
    }
    if a == 0 {
      UrlBodyBare(content, sp, pat, m);
    } else if a == 1 {
      UrlBodyQuoted(content, sp, pat, m, '"');
    } else {
      UrlBodyQuoted(content, sp, pat, m, '\'');
    }
  }

  lemma UrlTokenOfBody(x: string)
    requires |x| > 0 && ')' !in x && DataOnlyAtEnd(x)
    ensures IsUrlToken("url(" + x + ")")
  {
    var t := "url(" + x + ")";
    assert t[4..|t| - 1] == x;
  }

  lemma UrlBodyBare(content: string, sp: Span, pat: Pattern, m: nat)
    requires pat == UrlPatterns[0] && MatchesWithRunEnd(content, sp.lo, pat, m) && sp.hi == m + 1
    requires content[sp.lo..sp.hi] == pat.prefix + content[sp.lo + 4..m] + pat.suffix
    requires ')' !in content[sp.lo + 4..m]
    ensures IsUrlToken(content[sp.lo..sp.hi])
  {
    var x := content[sp.lo + 4..m];
    forall k: nat | HasAt(x, k, Data) ensures k + |Data| == |x| {
      LookbehindBlocks(content, pat, sp.lo + 4, m, x, sp.lo + 4, k);
    }
    UrlTokenOfBody(x);
  }

  lemma QuotedSlice(content: string, lo: nat, m: nat, q: char, pat: Pattern)
    requires pat.prefix == "url(" + [q] && pat.suffix == [q] + ")"
    requires HasAt(content, lo, pat.prefix) && HasAt(content, m, pat.suffix) && lo + 5 <= m
    ensures content[lo + 4..m + 1] == [q] + content[lo + 5..m] + [q]
    ensures content[lo..m + 2] == "url(" + content[lo + 4..m + 1] + ")"
  {
    assert content[lo + 4] == content[lo..lo + 5][4] == q;
    assert content[m] == content[m..m + 2][0] == q;
    assert content[m + 1] == content[m..m + 2][1] == ')';
    assert content[lo..lo + 4] == content[lo..lo + 5][..4] == "url(";
    assert content[lo..m + 2] == content[lo..lo + 4] + content[lo + 4..m + 1] + content[m + 1..m + 2];
  }

  lemma UrlBodyQuoted(content: string, sp: Span, pat: Pattern, m: nat, q: char)
    requires (pat == UrlPatterns[1] && q == '"') || (pat == UrlPatterns[2] && q == '\'')
    requires MatchesWithRunEnd(content, sp.lo, pat, m) && sp.hi == m + 2
    requires ')' !in content[sp.lo + 5..m]
    ensures IsUrlToken(content[sp.lo..sp.hi])
  {
    assert pat.prefix == "url(" + [q] && pat.suffix == [q] + ")";
    QuotedSlice(content, sp.lo, m, q, pat);
    var x := content[sp.lo + 4..m + 1];
    assert x[0] == q && x[|x| - 1] == q;
    forall k: nat | HasAt(x, k, Data)
      ensures k + |Data| + 1 == |x| && x[0] == '"'
    {
      assert x[k + |Data| - 1] == x[k..k + |Data|][|Data| - 1] == ':';
      if q == '"' {
        LookbehindBlocks(content, pat, sp.lo + 5, m, x, sp.lo + 4, k);
      } else {
        LookaheadBlocks(content, pat, sp.lo + 5, m, x, sp.lo + 4, k);
        assert false;
      }
    }
    UrlTokenOfBody(x);
  }

  /** Every `url` token is `url(x)` with a non-empty `x` free of `)`; `data:`
      in it ends `x`, or is followed only by the closing quote of a
      `"`-quoted `x`, so no `data:` URI with content is matched. */
  lemma UrlTokensShape(content: string)
    ensures forall k :: 0 <= k < |Matches(content, UrlPatterns)| ==> IsUrlToken(Matches(content, UrlPatterns)[k])
  {
    var spans := Scan(content, UrlPatterns);
    forall k | 0 <= k < |spans| ensures IsUrlToken(Matches(content, UrlPatterns)[k]) {
      UrlTokenShape(content, spans[k]);
    }
  }

  /** A `data:` URI with content, written bare in `url(...)`, is never a
      token. */
  lemma DataUriNotToken(d: string)
    requires |d| > 0
    ensures !IsUrlToken("url(" + Data + d + ")")
  {
    var x := Data + d;
    var t := "url(" + Data + d + ")";
    assert t == "url(" + x + ")";
    assert t[4..|t| - 1] == x;
    assert x[..|Data|] == Data && x[0] == 'd';
    assert HasAt(x, 0, Data) && 0 < |x|;
  }

  /** All `src` tokens come first, then all `url` tokens, each of its shape. */
  lemma LinkTokensOrder(content: string)
    ensures var n := |Matches(content, SrcPatterns)|;
            && n <= |LinkTokens(content)|
            && (forall k :: 0 <= k < n ==> IsSrcToken(LinkTokens(content)[k]))
            && (forall k :: n <= k < |LinkTokens(content)| ==> IsUrlToken(LinkTokens(content)[k]))
  {
    SrcTokensShape(content);
    UrlTokensShape(content);
    var src := Matches(content, SrcPatterns);
    var url := Matches(content, UrlPatterns);
    forall k | |src| <= k < |src + url|
      ensures IsUrlToken((src + url)[k])
    {
      assert (src + url)[k] == url[k - |src|];
    }
  }

  /** The scan finds no token exactly when none of the five alternatives
      matches anywhere in the content. */
  lemma LinkTokensEmptyIff(content: string)
    ensures LinkTokens(content) == [] <==>
            forall j :: 0 <= j < |content| ==>
              MatchFirst(content, j, SrcPatterns).None? && MatchFirst(content, j, UrlPatterns).None?
  {
    MatchesEmptyIff(content, SrcPatterns);
    MatchesEmptyIff(content, UrlPatterns);
  }

  // ---- Normaliser ----

  /** `url\(([^)]+)\)` of the normaliser: no `data:` guard. */
  const UnwrapUrl := Pattern("url(", ')', NoLook, ")")

  const Quotes: set<char> := {'"', '\''}

  /** The link inside a token: the three `preg_replace` calls with `$1`, in
      order, then `trim` of both quote characters. */
  function LinkOf(token: string): (r: string)
    ensures |r| > 0 ==> r[0] !in Quotes && r[|r| - 1] !in Quotes
  {
    var unwrapped := ReplaceWithGroup(ReplaceWithGroup(ReplaceWithGroup(token, UnwrapUrl), SrcDouble), SrcSingle);
    Trim(unwrapped, Quotes)
  }

  /** A text holding its quote only as first and last character does not
      match `src=` with that quote. */
  lemma QuotedNoSrcMatch(body: string, pat: Pattern)
    requires pat == SrcDouble || pat == SrcSingle
    requires pat.stop !in body
    ensures forall j :: 0 <= j < |[pat.stop] + body + [pat.stop]| ==>
              MatchAt([pat.stop] + body + [pat.stop], j, pat).None?
  {
    var q := pat.stop;
    var s := [q] + body + [q];
    forall j | 0 <= j < |s| ensures MatchAt(s, j, pat).None? {
      if HasAt(s, j, pat.prefix) {
        assert s[j + 4] == q;
      }
    }
  }

  lemma PlainBody(body: string)
    requires |body| > 0 && '"' !in body && '\'' !in body
    ensures Trim(body, Quotes) == body
    ensures Trim("\"" + body + "\"", Quotes) == body
    ensures Trim("'" + body + "'", Quotes) == body
  {
    TrimExact("", body, "", Quotes);
    assert "" + body + "" == body;
    TrimExact("\"", body, "\"", Quotes);
    TrimExact("'", body, "'", Quotes);
  }

  /** For a link `l` without quotes or `)`, `src="l"` unwraps to `l`. */
  lemma LinkOfSrcDouble(l: string)
    requires |l| > 0 && '"' !in l && '\'' !in l && ')' !in l
    ensures LinkOf("src=\"" + l + "\"") == l
  {
    var t := "src=\"" + l + "\"";
    NoMatchWithoutSuffixChar(t, UnwrapUrl);
    ReplaceWithGroupNoMatch(t, UnwrapUrl);
    ReplaceWithGroupWhole(SrcDouble, l);
    NoMatchWithoutChar(l, SrcSingle, '\'');
    ReplaceWithGroupNoMatch(l, SrcSingle);
    PlainBody(l);
  }

  /** For a link `l` without quotes or `)`, `src='l'` unwraps to `l`. */
  lemma LinkOfSrcSingle(l: string)
    requires |l| > 0 && '"' !in l && '\'' !in l && ')' !in l
    ensures LinkOf("src='" + l + "'") == l
  {
    var t := "src='" + l + "'";
    NoMatchWithoutSuffixChar(t, UnwrapUrl);
    ReplaceWithGroupNoMatch(t, UnwrapUrl);
    NoMatchWithoutChar(t, SrcDouble, '"');
    ReplaceWithGroupNoMatch(t, SrcDouble);
    ReplaceWithGroupWhole(SrcSingle, l);
    PlainBody(l);
  }

  /** For a link `l` without quotes or `)`, `url(l)` unwraps to `l`. */
  lemma LinkOfUrlBare(l: string)
    requires |l| > 0 && '"' !in l && '\'' !in l && ')' !in l
    ensures LinkOf("url(" + l + ")") == l
  {
    ReplaceWithGroupWhole(UnwrapUrl, l);
    NoMatchWithoutChar(l, SrcDouble, '"');
    ReplaceWithGroupNoMatch(l, SrcDouble);
    NoMatchWithoutChar(l, SrcSingle, '\'');
    ReplaceWithGroupNoMatch(l, SrcSingle);
    PlainBody(l);
  }

  /** For a link `l` without quotes or `)`, `url("l")` unwraps to `l`. */
  lemma LinkOfUrlDouble(l: string)
    requires |l| > 0 && '"' !in l && '\'' !in l && ')' !in l
    ensures LinkOf("url(\"" + l + "\")") == l
  {
    var dq := "\"" + l + "\"";
    assert "url(\"" + l + "\")" == UnwrapUrl.prefix + dq + UnwrapUrl.suffix;
    ReplaceWithGroupWhole(UnwrapUrl, dq);
    QuotedNoSrcMatch(l, SrcDouble);
    ReplaceWithGroupNoMatch(dq, SrcDouble);
    NoMatchWithoutChar(dq, SrcSingle, '\'');
    ReplaceWithGroupNoMatch(dq, SrcSingle);
    PlainBody(l);
  }

  /** For a link `l` without quotes or `)`, `url('l')` unwraps to `l`. */
  lemma LinkOfUrlSingle(l: string)
    requires |l| > 0 && '"' !in l && '\'' !in l && ')' !in l
    ensures LinkOf("url('" + l + "')") == l
  {
    var sq := "'" + l + "'";
    assert "url('" + l + "')" == UnwrapUrl.prefix + sq + UnwrapUrl.suffix;
    ReplaceWithGroupWhole(UnwrapUrl, sq);
    NoMatchWithoutChar(sq, SrcDouble, '"');
    ReplaceWithGroupNoMatch(sq, SrcDouble);
    QuotedNoSrcMatch(l, SrcSingle);
    ReplaceWithGroupNoMatch(sq, SrcSingle);
    PlainBody(l);
  }
}
