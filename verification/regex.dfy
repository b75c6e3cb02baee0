/** The fragment of PCRE the injector's regular expressions use: a literal
    prefix, one or more characters of a class `[^stop]` (each possibly guarded
    by the `data:` lookbehind or lookahead), then a literal suffix. `MatchAt`
    is one attempt at a fixed position (greedy run, backtracking from the
    longest); `Scan` is `preg_match_all` over an alternation of such patterns;
    `ReplaceWithGroup` is `preg_replace(pattern, '$1', s)` where group 1 is the
    run. */
module Regex {
  import opened Wrappers
  import opened Strings

  /** The guard on each character of the repeated class. */
  datatype Look =
    | NoLook
      /** `(?<!data:)`: the five characters before this one are not `data:`. */
    | NotAfterData
      /** `(?!data:)`: the five characters from this one on are not `data:`. */
    | NotBeforeData

  /** The regex `prefix (?:look [^stop])+ suffix`, prefix and suffix literal. */
  datatype Pattern = Pattern(prefix: string, stop: char, look: Look, suffix: string)

  const Data := "data:"

  /** The character at `p` may be taken by the repeated class. Lookarounds
      see the whole subject, not just the text after the prefix. */
  predicate RunChar(s: string, p: nat, pat: Pattern)
    requires p < |s|
  {
    && s[p] != pat.stop
    && match pat.look
       case NoLook => true
       case NotAfterData => !(p >= |Data| && s[p - |Data|..p] == Data)
       case NotBeforeData => !HasAt(s, p, Data)
  }

  /** The repeated class can take every character of `s[from..to]`. */
  predicate RunsOver(s: string, pat: Pattern, from: nat, to: nat)
    requires from <= to <= |s|
  {
    forall q :: from <= q < to ==> RunChar(s, q, pat)
  }

  /** The pattern matches `s[i..m + |suffix|]` with its run ending at `m`:
      the regex semantics, stated without any search order. */
  predicate MatchesWithRunEnd(s: string, i: nat, pat: Pattern, m: nat) {
    && HasAt(s, i, pat.prefix)
    && i + |pat.prefix| < m <= |s|
    && RunsOver(s, pat, i + |pat.prefix|, m)
    && HasAt(s, m, pat.suffix)
  }

  /** Where the greedy run that starts at `p` stops. */
  function RunEnd(s: string, p: nat, pat: Pattern): (e: nat)
    requires p <= |s|
    ensures p <= e <= |s|
    ensures RunsOver(s, pat, p, e)
    ensures e < |s| ==> !RunChar(s, e, pat)
    decreases |s| - p
  {
    if p < |s| && RunChar(s, p, pat) then RunEnd(s, p + 1, pat) else p
  }

  /** Backtracking: the largest run end in `(start, m]` followed by the suffix. */
  function Backtrack(s: string, start: nat, m: nat, pat: Pattern): (r: Option<nat>)
    requires m <= |s|
    ensures r.Some? ==> start < r.value <= m && HasAt(s, r.value, pat.suffix)
    ensures r.Some? ==> forall m' :: r.value < m' <= m ==> !HasAt(s, m', pat.suffix)
    ensures r.None? ==> forall m' :: start < m' <= m ==> !HasAt(s, m', pat.suffix)
    decreases m
  {
    if m <= start then None
    else if HasAt(s, m, pat.suffix) then Some(m)
    else Backtrack(s, start, m - 1, pat)
  }

  /** One attempt of the pattern at position `i`: the run end of the match,
      which is the longest one the regex allows, or `None`. */
  function MatchAt(s: string, i: nat, pat: Pattern): (r: Option<nat>)
    ensures r.Some? ==> MatchesWithRunEnd(s, i, pat, r.value)
    ensures r.Some? ==> forall m :: r.value < m <= |s| ==> !MatchesWithRunEnd(s, i, pat, m)
    ensures r.None? ==> forall m :: 0 <= m <= |s| ==> !MatchesWithRunEnd(s, i, pat, m)
  {
    if !HasAt(s, i, pat.prefix) then None
    else
      var start := i + |pat.prefix|;
      var e := RunEnd(s, start, pat);
      var r := Backtrack(s, start, e, pat);
      assert forall m :: e < m <= |s| ==> !RunsOver(s, pat, start, m) by {
        forall m | e < m <= |s| ensures !RunsOver(s, pat, start, m) {
          assert !RunChar(s, e, pat);
        }
      }
      r
  }

  /** Where a match found by `MatchAt` ends. */
  function MatchEnd(pat: Pattern, runEnd: nat): nat {
    runEnd + |pat.suffix|
  }

  /** The alternative that matched and the end of its match. */
  datatype Hit = Hit(alt: nat, end: nat)

  /** An alternation `pats[0]|pats[1]|...` tried at position `i`: the first
      alternative that matches there wins. */
  function MatchFirst(s: string, i: nat, pats: seq<Pattern>): (r: Option<Hit>)
    ensures r.Some? ==> r.value.alt < |pats| && MatchAt(s, i, pats[r.value.alt]).Some?
                        && r.value.end == MatchEnd(pats[r.value.alt], MatchAt(s, i, pats[r.value.alt]).value)
    ensures r.Some? ==> i < r.value.end <= |s|
    ensures r.Some? ==> forall b :: 0 <= b < r.value.alt ==> MatchAt(s, i, pats[b]).None?
    ensures r.None? ==> forall b :: 0 <= b < |pats| ==> MatchAt(s, i, pats[b]).None?
  {
    MatchFirstFrom(s, i, pats, 0)
  }

  function MatchFirstFrom(s: string, i: nat, pats: seq<Pattern>, a: nat): (r: Option<Hit>)
    requires a <= |pats|
    requires forall b :: 0 <= b < a ==> MatchAt(s, i, pats[b]).None?
    ensures r.Some? ==> a <= r.value.alt < |pats| && MatchAt(s, i, pats[r.value.alt]).Some?
                        && r.value.end == MatchEnd(pats[r.value.alt], MatchAt(s, i, pats[r.value.alt]).value)
    ensures r.Some? ==> i < r.value.end <= |s|
    ensures r.Some? ==> forall b :: 0 <= b < r.value.alt ==> MatchAt(s, i, pats[b]).None?
    ensures r.None? ==> forall b :: 0 <= b < |pats| ==> MatchAt(s, i, pats[b]).None?
    decreases |pats| - a
  {
    if a == |pats| then None
    else match MatchAt(s, i, pats[a])
      case Some(m) =>
        assert MatchesWithRunEnd(s, i, pats[a], m);
        Some(Hit(a, MatchEnd(pats[a], m)))
      case None => MatchFirstFrom(s, i, pats, a + 1)
  }

  /** A match found in the subject: `s[lo..hi]`. */
  datatype Span = Span(lo: nat, hi: nat)

  /** `sp` is what the alternation matches when tried at `sp.lo`. */
  predicate Found(s: string, pats: seq<Pattern>, sp: Span) {
    && MatchFirst(s, sp.lo, pats).Some?
    && MatchFirst(s, sp.lo, pats).value.end == sp.hi
  }

  /** Position `j` lies inside one of `spans`. */
  predicate Covered(spans: seq<Span>, j: nat) {
    |spans| > 0 && (spans[0].lo <= j < spans[0].hi || Covered(spans[1..], j))
  }

  /** The spans follow each other without overlapping. */
  predicate Ordered(spans: seq<Span>) {
    forall k :: 0 <= k < |spans| - 1 ==> spans[k].hi <= spans[k + 1].lo
  }

  /** No match was passed over: every position from `i` on that no span
      covers is one where the alternation fails. */
  predicate Exhaustive(s: string, pats: seq<Pattern>, spans: seq<Span>, i: nat) {
    forall j :: i <= j < |s| && !Covered(spans, j) ==> MatchFirst(s, j, pats).None?
  }

  /** `preg_match_all` from position `i`: try the alternation at each
      position; after a match continue where it ended, otherwise one further. */
  function ScanFrom(s: string, pats: seq<Pattern>, i: nat): (r: seq<Span>)
    requires i <= |s|
    ensures forall k :: 0 <= k < |r| ==> i <= r[k].lo < r[k].hi <= |s|
    ensures forall k :: 0 <= k < |r| ==> Found(s, pats, r[k])
    ensures Ordered(r)
    ensures Exhaustive(s, pats, r, i)
    decreases |s| - i
  {
    if i == |s| then []
    else match MatchFirst(s, i, pats)
      case Some(h) =>
        var rest := ScanFrom(s, pats, h.end);
        ScanCons(s, pats, i, h.end, rest);
        [Span(i, h.end)] + rest
      case None =>
        ScanFrom(s, pats, i + 1)
  }

  lemma ScanCons(s: string, pats: seq<Pattern>, i: nat, end: nat, rest: seq<Span>)
    requires i < end <= |s| && Found(s, pats, Span(i, end))
    requires forall k :: 0 <= k < |rest| ==> end <= rest[k].lo < rest[k].hi <= |s|
    requires forall k :: 0 <= k < |rest| ==> Found(s, pats, rest[k])
    requires Ordered(rest) && Exhaustive(s, pats, rest, end)
    ensures var r := [Span(i, end)] + rest;
            && (forall k :: 0 <= k < |r| ==> i <= r[k].lo < r[k].hi <= |s|)
            && (forall k :: 0 <= k < |r| ==> Found(s, pats, r[k]))
            && Ordered(r)
            && Exhaustive(s, pats, r, i)
  {
    var r := [Span(i, end)] + rest;
    assert r[1..] == rest;
    forall j | i <= j < |s| && !Covered(r, j) ensures MatchFirst(s, j, pats).None? {
      assert end <= j && !Covered(rest, j);
    }
  }

  /** The spans `preg_match_all` reports for the alternation `pats`: matches
      in order, none overlapping, none passed over. */
  function Scan(s: string, pats: seq<Pattern>): (r: seq<Span>)
    ensures forall k :: 0 <= k < |r| ==> r[k].lo < r[k].hi <= |s|
    ensures forall k :: 0 <= k < |r| ==> Found(s, pats, r[k])
    ensures Ordered(r)
    ensures Exhaustive(s, pats, r, 0)
  {
    ScanFrom(s, pats, 0)
  }

  /** The matched texts of `Scan`, in order. */
  function Matches(s: string, pats: seq<Pattern>): (r: seq<string>)
    ensures |r| == |Scan(s, pats)|
    ensures forall k :: 0 <= k < |r| ==> r[k] == s[Scan(s, pats)[k].lo..Scan(s, pats)[k].hi]
  {
    var spans := Scan(s, pats);
    seq(|spans|, k requires 0 <= k < |spans| => s[spans[k].lo..spans[k].hi])
  }

  /** Every matched text is non-empty and occurs in the subject. */
  lemma MatchesOccur(s: string, pats: seq<Pattern>)
    ensures forall k :: 0 <= k < |Matches(s, pats)| ==>
              |Matches(s, pats)[k]| > 0 && Occurs(s, Matches(s, pats)[k])
  {
    var spans := Scan(s, pats);
    var m := Matches(s, pats);
    forall k | 0 <= k < |m|
      ensures |m[k]| > 0 && Occurs(s, m[k])
    {
      SliceOccurs(s, spans[k].lo, spans[k].hi);
    }
  }

  lemma SliceOccurs(s: string, lo: nat, hi: nat)
    requires lo < hi <= |s|
    ensures |s[lo..hi]| > 0 && Occurs(s, s[lo..hi])
  {
    assert HasAt(s, lo, s[lo..hi]);
  }

  /** `preg_match_all` finds nothing exactly when the alternation matches at
      no position of the subject. */
  lemma MatchesEmptyIff(s: string, pats: seq<Pattern>)
    ensures Matches(s, pats) == [] <==> forall j :: 0 <= j < |s| ==> MatchFirst(s, j, pats).None?
  {
    var spans := Scan(s, pats);
    if spans != [] {
      assert MatchFirst(s, spans[0].lo, pats).Some?;
    }
  }

  /** `preg_replace(pat, '$1', s)` from position `i`: each match, found left
      to right, is replaced by its run; other characters are copied. */
  function ReplaceWithGroupFrom(s: string, pat: Pattern, i: nat): string
    requires i <= |s|
    decreases |s| - i
  {
    if i == |s| then ""
    else match MatchAt(s, i, pat)
      case Some(m) => s[i + |pat.prefix|..m] + ReplaceWithGroupFrom(s, pat, m + |pat.suffix|)
      case None => [s[i]] + ReplaceWithGroupFrom(s, pat, i + 1)
  }

  function ReplaceWithGroup(s: string, pat: Pattern): string {
    ReplaceWithGroupFrom(s, pat, 0)
  }

  lemma {:induction false} ReplaceWithGroupFromNoMatch(s: string, pat: Pattern, i: nat)
    requires i <= |s|
    requires forall j :: i <= j < |s| ==> MatchAt(s, j, pat).None?
    ensures ReplaceWithGroupFrom(s, pat, i) == s[i..]
    decreases |s| - i
  {
    if i < |s| {
      ReplaceWithGroupFromNoMatch(s, pat, i + 1);
      assert s[i..] == [s[i]] + s[i + 1..];
    }
  }

  /** Where the pattern matches nowhere, `preg_replace` returns the subject. */
  lemma ReplaceWithGroupNoMatch(s: string, pat: Pattern)
    requires forall j :: 0 <= j < |s| ==> MatchAt(s, j, pat).None?
    ensures ReplaceWithGroup(s, pat) == s
  {
    ReplaceWithGroupFromNoMatch(s, pat, 0);
  }

  /** A pattern cannot match a subject lacking one of its prefix characters. */
  lemma NoMatchWithoutChar(s: string, pat: Pattern, c: char)
    requires c in pat.prefix && c !in s
    ensures forall j :: 0 <= j < |s| ==> MatchAt(s, j, pat).None?
  {

  }

  /** A pattern cannot match a subject lacking the first suffix character. */
  lemma NoMatchWithoutSuffixChar(s: string, pat: Pattern)
    requires |pat.suffix| > 0 && pat.suffix[0] !in s
    ensures forall j :: 0 <= j < |s| ==> MatchAt(s, j, pat).None?
  {

  }

  /** A subject that is one whole match of a plain `prefix([^c]+)c` pattern
      is replaced by its run. */
  lemma ReplaceWithGroupWhole(pat: Pattern, body: string)
    requires pat.look == NoLook && pat.suffix == [pat.stop]
    requires |body| > 0 && pat.stop !in body
    ensures ReplaceWithGroup(pat.prefix + body + pat.suffix, pat) == body
  {
    var s := pat.prefix + body + pat.suffix;
    var start := |pat.prefix|;
    var e := |pat.prefix| + |body|;
    assert s[..start] == pat.prefix;
    assert s[start..e] == body;
    assert s[e..] == pat.suffix;
    assert HasAt(s, 0, pat.prefix);
    assert RunsOver(s, pat, start, e) by {
      forall q | start <= q < e ensures RunChar(s, q, pat) {
        assert s[q] == body[q - start];
      }
    }
    assert HasAt(s, e, pat.suffix);
    assert MatchesWithRunEnd(s, 0, pat, e);
    var r := MatchAt(s, 0, pat);
    assert r == Some(e);
    assert ReplaceWithGroupFrom(s, pat, e + 1) == "";
  }

  /** The text of a found span is the prefix of the alternative that matched,
      its run, and its suffix. */
  lemma FoundShape(s: string, pats: seq<Pattern>, sp: Span) returns (a: nat, m: nat)
    requires sp.lo < sp.hi <= |s| && Found(s, pats, sp)
    ensures a < |pats| && MatchAt(s, sp.lo, pats[a]) == Some(m)
    ensures MatchesWithRunEnd(s, sp.lo, pats[a], m)
    ensures sp.hi == m + |pats[a].suffix|
    ensures s[sp.lo..sp.hi] == pats[a].prefix + s[sp.lo + |pats[a].prefix|..m] + pats[a].suffix
  {
    a := MatchFirst(s, sp.lo, pats).value.alt;
    m := MatchAt(s, sp.lo, pats[a]).value;
    var pat := pats[a];
    assert s[sp.lo..sp.hi] == s[sp.lo..sp.lo + |pat.prefix|] + s[sp.lo + |pat.prefix|..m] + s[m..sp.hi];
  }
}
