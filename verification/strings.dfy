/** The PHP string primitives the injector leans on, as pure functions over
    `string`: `explode`, `implode`, `str_replace`, `strpos` for one character,
    `trim`/`ltrim`/`rtrim` with a character list. PHP strings are byte strings;
    here every `char` stands for one byte. */
module Strings {

  /** `w` occurs in `s` starting at index `i`. */
  predicate HasAt(s: string, i: nat, w: string) {
    i + |w| <= |s| && s[i..i + |w|] == w
  }

  /** `w` occurs somewhere in `s`. */
  predicate Occurs(s: string, w: string) {
    exists i: nat | i <= |s| :: HasAt(s, i, w)
  }

  lemma HasAtShift(s: string, j: nat, w: string)
    requires |s| > 0
    ensures HasAt(s[1..], j, w) == HasAt(s, j + 1, w)
  {
    if j + |w| <= |s[1..]| {
      assert s[1..][j..j + |w|] == s[j + 1..j + 1 + |w|];
    }
  }

  /** Index of the first `c` in `s`, or `|s|` when there is none (PHP's
      `strpos` for a one-character needle, with `false` read as `|s|`). */
  function IndexOf(s: string, c: char): (r: nat)
    ensures r <= |s|
    ensures c !in s[..r]
    ensures r < |s| ==> s[r] == c
  {
    if |s| == 0 then 0
    else if s[0] == c then 0
    else
      var k := IndexOf(s[1..], c);
      assert s[..k + 1] == [s[0]] + s[1..][..k];
      k + 1
  }

  /** `IndexOf` is the one position that holds the first `c`. */
  lemma IndexOfUnique(s: string, c: char, r: nat)
    requires r <= |s| && c !in s[..r] && (r < |s| ==> s[r] == c)
    ensures IndexOf(s, c) == r
  {
    var k := IndexOf(s, c);
    assert forall i :: 0 <= i < r ==> s[..r][i] == s[i];
    assert forall i :: 0 <= i < k ==> s[..k][i] == s[i];
  }

  /** The first `c` in a prefix of `s` is the first `c` of `s`, if the prefix
      reaches it. */
  lemma IndexOfTake(s: string, c: char, n: nat)
    requires n <= |s|
    ensures IndexOf(s[..n], c) == if IndexOf(s, c) < n then IndexOf(s, c) else n
  {
    var k := IndexOf(s, c);
    if k < n {
      assert s[..n][..k] == s[..k];
      IndexOfUnique(s[..n], c, k);
    } else {
      assert s[..n] == s[..k][..n];
      IndexOfUnique(s[..n], c, n);
    }
  }

  /** Everything in `s` before its first `c`; the whole of `s` without one. */
  function Before(s: string, c: char): (r: string)
    ensures c !in r
    ensures r == s || (|r| < |s| && s[|r|] == c)
    ensures r == s[..|r|]
  {
    s[..IndexOf(s, c)]
  }

  /** The text before a `c` that is the first one. */
  lemma BeforeJoin(w: string, c: char, rest: string)
    requires c !in w
    ensures Before(w + [c] + rest, c) == w
  {
    var s := w + [c] + rest;
    assert forall j :: 0 <= j < |w| ==> s[..|w|][j] == w[j];
    IndexOfUnique(s, c, |w|);
  }

  /** PHP `implode(sep, xs)`: the pieces joined by `sep`. */
  function Implode(xs: seq<string>, sep: string): string
  {
    if |xs| == 0 then ""
    else if |xs| == 1 then xs[0]
    else xs[0] + sep + Implode(xs[1..], sep)
  }

  /** A character in no piece and not in the separator is not in the join. */
  lemma {:induction false} ImplodeFree(xs: seq<string>, sep: string, c: char)
    requires forall k :: 0 <= k < |xs| ==> c !in xs[k]
    requires c !in sep
    ensures c !in Implode(xs, sep)
    decreases |xs|
  {
    if |xs| > 1 {
      ImplodeFree(xs[1..], sep, c);
    }
  }

  /** PHP `str_replace(search, replacement, s)`: every non-overlapping
      occurrence of `search`, found scanning left to right, becomes
      `replacement`; an empty `search` leaves `s` as it is. */
  function ReplaceAll(s: string, search: string, replacement: string): (r: string)
    ensures replacement == search ==> r == s
    decreases |s|
  {
    if |search| == 0 || |s| < |search| then s
    else if s[..|search|] == search then replacement + ReplaceAll(s[|search|..], search, replacement)
    else [s[0]] + ReplaceAll(s[1..], search, replacement)
  }

  /** With a one-character `search`, the first character is replaced or kept
      on its own. */
  lemma ReplaceStep(c: char, s: string, search: string, replacement: string)
    requires |search| == 1
    ensures ReplaceAll([c] + s, search, replacement)
            == (if [c] == search then replacement else [c]) + ReplaceAll(s, search, replacement)
  {
    assert ([c] + s)[..1] == [c];
    assert ([c] + s)[1..] == s;
  }

  /** PHP `explode(d, s)` for a non-empty delimiter: the texts between the
      non-overlapping occurrences of `d`, always at least one. */
  function Explode(s: string, d: string): (r: seq<string>)
    requires |d| > 0
    ensures |r| >= 1
  {
    ExplodeAcc(s, d, "")
  }

  /** Explode `s`, where `piece` is the part of the current piece already read. */
  function ExplodeAcc(s: string, d: string, piece: string): (r: seq<string>)
    requires |d| > 0
    ensures |r| >= 1
    decreases |s|
  {
    if |s| < |d| then [piece + s]
    else if s[..|d|] == d then [piece] + ExplodeAcc(s[|d|..], d, "")
    else ExplodeAcc(s[1..], d, piece + [s[0]])
  }

  lemma ImplodeCons(x: string, ys: seq<string>, sep: string)
    requires |ys| >= 1
    ensures Implode([x] + ys, sep) == x + sep + Implode(ys, sep)
  {
    assert ([x] + ys)[1..] == ys;
  }

  lemma {:induction false} ExplodeAccReplace(s: string, d: string, t: string, piece: string)
    requires |d| > 0
    ensures Implode(ExplodeAcc(s, d, piece), t) == piece + ReplaceAll(s, d, t)
    decreases |s|
  {
    if |s| < |d| {
    } else if s[..|d|] == d {
      ExplodeAccReplace(s[|d|..], d, t, "");
      ImplodeCons(piece, ExplodeAcc(s[|d|..], d, ""), t);
    } else {
      ExplodeAccReplace(s[1..], d, t, piece + [s[0]]);
    }
  }

  /** str_replace is explode on the search string followed by implode with the
      replacement: the two PHP formulations of "replace every occurrence". */
  lemma ReplaceAllIsImplodeExplode(s: string, search: string, replacement: string)
    requires |search| > 0
    ensures ReplaceAll(s, search, replacement) == Implode(Explode(s, search), replacement)
  {
    ExplodeAccReplace(s, search, replacement, "");
  }

  /** Implode undoes explode. */
  lemma ImplodeExplode(s: string, d: string)
    requires |d| > 0
    ensures Implode(Explode(s, d), d) == s
  {
    ExplodeAccReplace(s, d, d, "");
  }

  /** Where the search string does not occur, str_replace changes nothing,
      whatever else the text contains. */
  lemma {:induction false} ReplaceAllAbsent(s: string, search: string, replacement: string)
    requires !Occurs(s, search)
    ensures ReplaceAll(s, search, replacement) == s
    decreases |s|
  {
    if |search| == 0 || |s| < |search| {
    } else {
      assert !HasAt(s, 0, search);
      forall j: nat
        ensures !HasAt(s[1..], j, search)
      {
        HasAtShift(s, j, search);
      }
      ReplaceAllAbsent(s[1..], search, replacement);
    }
  }

  /** When `w` first occurs right after `p` and not at all in `s`, str_replace
      rewrites just that occurrence. */
  lemma {:induction false} ReplaceAfter(p: string, w: string, s: string, v: string)
    requires |w| > 0
    requires forall j: nat :: j < |p| ==> !HasAt(p + w + s, j, w)
    requires !Occurs(s, w)
    ensures ReplaceAll(p + w + s, w, v) == p + v + s
    decreases |p|
  {
    var t := p + w + s;
    if |p| == 0 {
      assert t == w + s && t[..|w|] == w && t[|w|..] == s;
      ReplaceAllAbsent(s, w, v);
    } else {
      assert !HasAt(t, 0, w);
      assert t[1..] == p[1..] + w + s;
      forall j: nat | j < |p[1..]|
        ensures !HasAt(p[1..] + w + s, j, w)
      {
        HasAtShift(t, j, w);
      }
      ReplaceAfter(p[1..], w, s, v);
      assert p + v + s == [p[0]] + (p[1..] + v + s);
    }
  }

  /** A text enclosed as `pre` + `q` + `w` + `post` is rewritten to
      `pre` + `q` + `v` + `post` when `w` holds no `q` and occurs in neither
      `pre` nor `post`. */
  lemma ReplaceEnclosed(pre: string, q: char, w: string, post: string, v: string)
    requires |w| > 0 && q !in w
    requires !Occurs(pre, w) && !Occurs(post, w)
    ensures ReplaceAll(pre + [q] + w + post, w, v) == pre + [q] + v + post
  {
    var p := pre + [q];
    var t := p + w + post;
    assert t == pre + [q] + w + post;
    forall j: nat | j < |p|
      ensures !HasAt(t, j, w)
    {
      if j + |w| <= |pre| {
        assert t[j..j + |w|] == pre[j..j + |w|];
        assert !HasAt(pre, j, w);
      } else if j + |w| <= |t| {
        assert t[j..j + |w|][|pre| - j] == t[|pre|] == q;
      }
    }
    ReplaceAfter(p, w, post, v);
  }

  lemma {:induction false} ExplodeAccFree(s: string, c: char, piece: string)
    requires c !in piece
    ensures forall k :: 0 <= k < |ExplodeAcc(s, [c], piece)| ==> c !in ExplodeAcc(s, [c], piece)[k]
    decreases |s|
  {
    if |s| < 1 {
    } else if s[..1] == [c] {
      ExplodeAccFree(s[1..], c, "");
    } else {
      ExplodeAccFree(s[1..], c, piece + [s[0]]);
    }
  }

  /** No piece of an explode on one character contains that character. */
  lemma ExplodeFree(s: string, c: char)
    ensures forall k :: 0 <= k < |Explode(s, [c])| ==> c !in Explode(s, [c])[k]
  {
    ExplodeAccFree(s, c, "");
  }

  lemma {:induction false} ExplodeAccPiece(a: string, c: char, piece: string, rest: string)
    requires c !in a
    ensures rest == "" ==> ExplodeAcc(a, [c], piece) == [piece + a]
    ensures ExplodeAcc(a + [c] + rest, [c], piece) == [piece + a] + ExplodeAcc(rest, [c], "")
    decreases |a|
  {
    if |a| == 0 {
      assert a + [c] + rest == [c] + rest;
      assert piece + a == piece;
      assert (a + [c] + rest)[..1] == [c];
      assert (a + [c] + rest)[1..] == rest;
    } else {
      assert (a + [c] + rest)[1..] == a[1..] + [c] + rest;
      assert (a + [c] + rest)[..1] == [a[0]];
      ExplodeAccPiece(a[1..], c, piece + [a[0]], rest);
      assert piece + [a[0]] + a[1..] == piece + a;
    }
  }

  /** Explode on one character undoes implode with it, provided no piece
      contains the character. */
  lemma {:induction false} ExplodeImplode(xs: seq<string>, c: char)
    requires |xs| >= 1
    requires forall k :: 0 <= k < |xs| ==> c !in xs[k]
    ensures Explode(Implode(xs, [c]), [c]) == xs
    decreases |xs|
  {
    if |xs| == 1 {
      ExplodeAccPiece(xs[0], c, "", "");
      assert "" + xs[0] == xs[0];
    } else {
      ExplodeImplode(xs[1..], c);
      ExplodeAccPiece(xs[0], c, "", Implode(xs[1..], [c]));
      assert "" + xs[0] == xs[0];
      assert Implode(xs, [c]) == xs[0] + [c] + Implode(xs[1..], [c]);
      assert xs == [xs[0]] + xs[1..];
    }
  }

  /** PHP `ltrim(s, list)`: drops the leading characters that are in `cs`. */
  function TrimLeft(s: string, cs: set<char>): (r: string)
    ensures |r| <= |s| && r == s[|s| - |r|..]
    ensures forall k :: 0 <= k < |s| - |r| ==> s[k] in cs
    ensures |r| > 0 ==> r[0] !in cs
    decreases |s|
  {
    if |s| > 0 && s[0] in cs then TrimLeft(s[1..], cs) else s
  }

  /** PHP `rtrim(s, list)`: drops the trailing characters that are in `cs`. */
  function TrimRight(s: string, cs: set<char>): (r: string)
    ensures |r| <= |s| && r == s[..|r|]
    ensures forall k :: |r| <= k < |s| ==> s[k] in cs
    ensures |r| > 0 ==> r[|r| - 1] !in cs
    decreases |s|
  {
    if |s| > 0 && s[|s| - 1] in cs then TrimRight(s[..|s| - 1], cs) else s
  }

  /** PHP `trim(s, list)`: `s` with the characters in `cs` dropped from both
      ends. */
  function Trim(s: string, cs: set<char>): (r: string)
    ensures |r| <= |s|
    ensures |r| > 0 ==> r[0] !in cs && r[|r| - 1] !in cs
  {
    TrimRight(TrimLeft(s, cs), cs)
  }

  lemma TrimLeftExact(x: string, m: string, cs: set<char>)
    requires forall k :: 0 <= k < |x| ==> x[k] in cs
    requires |m| > 0 && m[0] !in cs
    ensures TrimLeft(x + m, cs) == m
  {
    var s := x + m;
    var l := TrimLeft(s, cs);
    var a := |s| - |l|;
    assert s[|x|] == m[0];
    assert a == |x|;
    assert l == s[|x|..];
  }

  lemma TrimRightExact(m: string, y: string, cs: set<char>)
    requires forall k :: 0 <= k < |y| ==> y[k] in cs
    requires |m| > 0 && m[|m| - 1] !in cs
    ensures TrimRight(m + y, cs) == m
  {
    var s := m + y;
    var r := TrimRight(s, cs);
    assert s[|m| - 1] == m[|m| - 1];
    assert |r| == |m|;
    assert r == s[..|m|];
  }

  /** Trimming text whose first and last characters are not in `cs` leaves
      exactly that text, however many characters of `cs` surround it. */
  lemma TrimExact(x: string, m: string, y: string, cs: set<char>)
    requires forall k :: 0 <= k < |x| ==> x[k] in cs
    requires forall k :: 0 <= k < |y| ==> y[k] in cs
    requires |m| > 0 && m[0] !in cs && m[|m| - 1] !in cs
    ensures Trim(x + m + y, cs) == m
  {
    assert x + m + y == x + (m + y);
    TrimLeftExact(x, m + y, cs);
    TrimRightExact(m, y, cs);
  }
}
