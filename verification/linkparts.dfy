/** The part of PHP's `parse_url` the injector depends on, for links without
    a scheme or authority: the path runs to the first `?` or `#`, the query
    from the first `?` to the first `#`, the fragment after the first `#`. */
module LinkParts {
  import opened Wrappers
  import opened Strings

  /** A link split into its parts; an absent query or fragment is `None`
      (PHP leaves the key out of the array). */
  datatype ParsedLink = ParsedLink(path: string, query: Option<string>, fragment: Option<string>)

  /** The parts are ones a parse can produce: the path holds neither `?` nor
      `#`, the query holds no `#`. */
  predicate WellFormed(p: ParsedLink) {
    && '?' !in p.path && '#' !in p.path
    && (p.query.Some? ==> '#' !in p.query.value)
  }

  /** The link a parse came from. */
  function Unparse(p: ParsedLink): string {
    p.path
    + (if p.query.Some? then "?" + p.query.value else "")
    + (if p.fragment.Some? then "#" + p.fragment.value else "")
  }

  /** `parse_url(link)` restricted to path, query and fragment. */
  function ParseLink(link: string): (p: ParsedLink)
    ensures WellFormed(p)
    ensures Unparse(p) == link
  {
    var h := IndexOf(link, '#');
    var beforeHash := link[..h];
    var fragment := if h < |link| then Some(link[h + 1..]) else None;
    var q := IndexOf(beforeHash, '?');
    var path := beforeHash[..q];
    var query := if q < |beforeHash| then Some(beforeHash[q + 1..]) else None;
    SplitAt(beforeHash, q, '?');
    SplitAt(link, h, '#');
    ParsedLink(path, query, fragment)
  }

  /** A text is its part before position `i` followed, when `i` is inside
      it, by the `c` at `i` and the rest. */
  lemma SplitAt(s: string, i: nat, c: char)
    requires i <= |s| && (i < |s| ==> s[i] == c)
    ensures s == s[..i] + (if i < |s| then [c] + s[i + 1..] else "")
  {
    if i < |s| {
      assert s == s[..i] + s[i..];
      assert s[i..] == [c] + s[i + 1..];
    }
  }

  /** Splitting `a + [c] + b` at its first `c`, where `a` holds none. */
  lemma SplitFirst(a: string, c: char, b: string)
    requires c !in a
    ensures IndexOf(a + ([c] + b), c) == |a|
    ensures (a + ([c] + b))[..|a|] == a && (a + ([c] + b))[|a| + 1..] == b
  {
    var s := a + ([c] + b);
    assert s[..|a|] == a;
    IndexOfUnique(s, c, |a|);
  }

  /** A text without `c` has its first `c` at its end. */
  lemma NoSplit(a: string, c: char)
    requires c !in a
    ensures IndexOf(a, c) == |a| && a[..|a|] == a
  {
    IndexOfUnique(a, c, |a|);
  }

  /** Parsing is the inverse of `Unparse` on well-formed parts: together with
      the contract of `ParseLink`, the split is unique. */
  lemma ParseUnparse(p: ParsedLink)
    requires WellFormed(p)
    ensures ParseLink(Unparse(p)) == p
  {
    var link := Unparse(p);
    UnparseHash(p);
    assert ParseLink(link).fragment == p.fragment;
    UnparseQuery(p);
    assert ParseLink(link).path == p.path;
    assert ParseLink(link).query == p.query;
  }

  lemma UnparseHash(p: ParsedLink)
    requires WellFormed(p)
    ensures var qpart := if p.query.Some? then "?" + p.query.value else "";
            var h := IndexOf(Unparse(p), '#');
            && h == |p.path + qpart| && Unparse(p)[..h] == p.path + qpart
            && (p.fragment.Some? ==> h < |Unparse(p)| && Unparse(p)[h + 1..] == p.fragment.value)
            && (p.fragment.None? ==> h == |Unparse(p)|)
  {
    var qpart := if p.query.Some? then "?" + p.query.value else "";
    var beforeHash := p.path + qpart;
    assert '#' !in beforeHash;
    if p.fragment.Some? {
      SplitFirst(beforeHash, '#', p.fragment.value);
    } else {
      assert Unparse(p) == beforeHash + "";
      NoSplit(beforeHash, '#');
    }
  }

  lemma UnparseQuery(p: ParsedLink)
    requires WellFormed(p)
    ensures var qpart := if p.query.Some? then "?" + p.query.value else "";
            var q := IndexOf(p.path + qpart, '?');
            && q == |p.path| && (p.path + qpart)[..q] == p.path
            && (p.query.Some? ==> q < |p.path + qpart| && (p.path + qpart)[q + 1..] == p.query.value)
            && (p.query.None? ==> q == |p.path + qpart|)
  {
    if p.query.Some? {
      SplitFirst(p.path, '?', p.query.value);
    } else {
      assert p.path + "" == p.path;
      NoSplit(p.path, '?');
    }
  }

  /** The fragment is everything after the first `#`, and absent without one. */
  lemma FragmentAfterHash(link: string)
    ensures var h := IndexOf(link, '#');
            ParseLink(link).fragment == if h < |link| then Some(link[h + 1..]) else None
  {
  }

  /** A link whose first `#` does not come before its first `?` has the text
      before the `?` as its path. */
  lemma PathBeforeQuery(link: string)
    requires '#' !in Before(link, '?')
    ensures ParseLink(link).path == Before(link, '?')
  {
    var h := IndexOf(link, '#');
    var i := IndexOf(link, '?');
    assert forall j :: 0 <= j < i ==> Before(link, '?')[j] == link[j];
    assert i <= h;
    IndexOfTake(link, '?', h);
    assert link[..h][..i] == link[..i];
  }

  /** A link with a `#` before any `?` has no query: the `?` lies in the
      fragment. */
  lemma HashFirstNoQuery(link: string)
    requires '#' in Before(link, '?')
    ensures ParseLink(link).query == None
    ensures IndexOf(link, '#') < |Before(link, '?')|
  {
    var h := IndexOf(link, '#');
    var i := IndexOf(link, '?');
    var w := Before(link, '?');
    assert forall j :: 0 <= j < |w| ==> w[j] == link[j];
    assert forall j :: 0 <= j < h ==> link[..h][j] == link[j];
    assert h < i;
    IndexOfTake(link, '?', h);
  }

  /** Joining a text with a `#` and no `?` to anything with a `?` puts the
      `#` first. */
  lemma JoinHashFirst(link: string, w: string, tail: string)
    requires link == w + "?" + tail
    requires '#' in w && '?' !in w
    ensures Before(link, '?') == w
    ensures ParseLink(link).query == None
  {
    BeforeJoin(w, '?', tail);
    HashFirstNoQuery(link);
  }
}
