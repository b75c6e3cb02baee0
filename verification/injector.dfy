/** `AssetsVersionInjector`: the problem report, the hash lookup
    (`getFileMd5`), the version appender (`appendVersionHashToLink`) and the
    rewrite loop (`addVersionsToAssetLinks`). The file system and `md5_file`
    are the parameter `hashOf`: the hash of a file, or `None` when the file
    cannot be read. `trigger_error` calls, and the warning `md5_file` raises
    for a file it cannot open, become diagnostics collected next to the
    content; the exception becomes a `Failure`. */
module Injector {
  import opened Wrappers
  import opened Strings
  import opened Regex
  import opened Scanner
  import opened LinkParts
  import opened QueryMap
  import UrlCodec

  const VersionKey := "version"
  const ReportAsIgnore := "ignore"
  const ReportAsNotice := "notice"
  const ReportAsWarning := "warning"
  const ReportAsException := "exception"

  /** PHP's `E_WARNING`, `E_USER_WARNING` and `E_USER_NOTICE`. */
  const PhpWarning := 2
  const UserWarning := 512
  const UserNotice := 1024

  /** One diagnostic: a `trigger_error(message, level)`, or a warning PHP
      raises itself. */
  datatype Diagnostic = Diagnostic(level: int, message: string)

  /** An `AssetsVersionParsingException` with its message and code. */
  datatype ParsingError = ParsingError(message: string, code: int)

  /** An injector: what to do about a link whose asset cannot be hashed. */
  datatype Injector = Injector(notFoundAssetFileReport: string)

  /** The constructor; without an argument, problems raise an exception. */
  function NewInjector(problemReport: string := ReportAsException): Injector {
    Injector(problemReport)
  }

  // ---------------------------------------------------------------------
  // reportProblem

  /** The report types that abort the rewrite: `exception` and every string
      that is not one of the three known modes. */
  predicate Aborts(reportType: string) {
    reportType != ReportAsIgnore && reportType != ReportAsNotice && reportType != ReportAsWarning
  }

  /** What reporting a problem does: nothing, a notice, a warning, or an
      exception carrying the problem and the code `E_USER_WARNING`. */
  function ReportProblem(problem: string, reportType: string): (r: Result<seq<Diagnostic>, ParsingError>)
    ensures r.Failure? <==> Aborts(reportType)
    ensures r.Failure? ==> r.error == ParsingError(problem, UserWarning)
    ensures r.Success? ==> |r.value| <= 1 && (r.value == [] <==> reportType == ReportAsIgnore)
    ensures r.Success? && r.value != [] ==>
      r.value[0] == Diagnostic(if reportType == ReportAsNotice then UserNotice else UserWarning, problem)
  {
    match reportType
    case "ignore" => Success([])
    case "notice" => Success([Diagnostic(UserNotice, problem)])
    case "warning" => Success([Diagnostic(UserWarning, problem)])
    case _ => Failure(ParsingError(problem, UserWarning))
  }

  /** An injector built without an argument aborts on every problem. */
  lemma DefaultInjectorAborts(problem: string)
    ensures ReportProblem(problem, NewInjector().notFoundAssetFileReport) == Failure(ParsingError(problem, UserWarning))
  {
    assert NewInjector().notFoundAssetFileReport == "exception";
  }

  // ---------------------------------------------------------------------
  // getFileMd5

  /** The file a link's path names: the root, one `/`, and the path without
      its leading slashes. */
  function AssetFile(root: string, path: string): string {
    root + "/" + TrimLeft(path, {'/'})
  }

  /** Leading slashes of the path make no difference to the file. */
  lemma {:induction false} AssetFileSlashes(root: string, path: string)
    ensures AssetFile(root, "/" + path) == AssetFile(root, path)
  {
    assert ("/" + path)[1..] == path;
  }

  /** The hash a link resolves to: the file's hash when the link has a
      non-empty path, nothing otherwise. */
  function HashFor(link: string, root: string, hashOf: string -> Option<string>): Option<string> {
    var path := ParseLink(link).path;
    if path == "" then None else hashOf(AssetFile(root, path))
  }

  /** The link names a file, but `md5_file` cannot read it. */
  predicate Unreadable(link: string, root: string, hashOf: string -> Option<string>) {
    var path := ParseLink(link).path;
    path != "" && hashOf(AssetFile(root, path)).None?
  }

  /** The warning `md5_file` raises for a file it cannot open. */
  function OpenWarning(file: string): Diagnostic {
    Diagnostic(PhpWarning, "md5_file(" + file + "): Failed to open stream")
  }

  /** How many diagnostics looking up a link adds: none when it resolves;
      otherwise `md5_file`'s warning when the file cannot be read, and the
      report unless problems are ignored. */
  function ProblemCount(link: string, root: string, reportType: string, hashOf: string -> Option<string>): nat {
    if HashFor(link, root, hashOf).Some? then 0
    else (if Unreadable(link, root, hashOf) then 1 else 0) + (if reportType == ReportAsIgnore then 0 else 1)
  }

  /** Every diagnostic is a warning PHP raised itself, none a report. */
  predicate OnlyPhpWarnings(ds: seq<Diagnostic>) {
    forall k :: 0 <= k < |ds| ==> ds[k].level == PhpWarning
  }

  /** The outcome of a lookup: the hash or `null`, and what was reported. */
  datatype Lookup = Lookup(md5: Option<string>, diagnostics: seq<Diagnostic>)

  /** `getFileMd5`: the hash of the file a link points at; a link with an
      empty path, or a file that cannot be read, is reported and gives no
      hash, and `md5_file` itself warns about a file it cannot read. */
  function FileMd5(link: string, root: string, reportType: string, hashOf: string -> Option<string>)
    : (r: Result<Lookup, ParsingError>)
    ensures r.Success? ==> r.value.md5 == HashFor(link, root, hashOf)
    ensures r.Failure? <==> HashFor(link, root, hashOf).None? && Aborts(reportType)
    ensures r.Success? ==> |r.value.diagnostics| == ProblemCount(link, root, reportType, hashOf)
    ensures r.Success? && Unreadable(link, root, hashOf) ==>
      r.value.diagnostics[0] == OpenWarning(AssetFile(root, ParseLink(link).path))
    ensures r.Success? && reportType == ReportAsIgnore ==> OnlyPhpWarnings(r.value.diagnostics)
    ensures r.Failure? ==> r.error.code == UserWarning
  {
    var path := ParseLink(link).path;
    if path == "" then
      var report := ReportProblem("Can not parse URL from link '" + link, reportType);
      if report.Failure? then Failure(report.error) else Success(Lookup(None, report.value))
    else
      var file := AssetFile(root, path);
      var md5 := hashOf(file);
      if md5.None? then
        var report := ReportProblem("Can not read asset file " + file + " figured from link '" + path, reportType);
        if report.Failure? then Failure(report.error) else Success(Lookup(None, [OpenWarning(file)] + report.value))
      else Success(Lookup(md5, []))
  }

  // ---------------------------------------------------------------------
  // appendVersionHashToLink

  /** PHP falsiness of a string: `""` and `"0"`. */
  predicate PhpEmpty(s: string) {
    s == "" || s == "0"
  }

  /** The parameters of a link's query. */
  function QueryOf(link: string): Query {
    ParseQuery(ParseLink(link).query.GetOr(""))
  }

  /** The link already carries this version, as a non-empty `version`
      parameter. */
  predicate IsCurrent(link: string, version: string) {
    var v := Get(QueryOf(link), VersionKey);
    v.Some? && !PhpEmpty(v.value) && v.value == version
  }

  /** The setting `appendVersionHashToLink` writes into the query. */
  function VersionedQuery(link: string, version: string): Query {
    Put(QueryOf(link), VersionKey, version)
  }

  /** The tail of `appendVersionHashToLink`: the link without its query,
      `?`, the new query, and a non-empty fragment behind `##`. */
  function Assemble(withoutQuery: string, versionedQuery: string, fragment: string): string {
    var hashFragment := if fragment != "" then "#" + fragment else "";
    var withFragment := if hashFragment != "" then versionedQuery + "#" + hashFragment else versionedQuery;
    withoutQuery + "?" + withFragment
  }

  /** The link written back with the version set: its text up to the first
      `?`, the versioned query, and its fragment. */
  function VersionedLink(link: string, version: string): string {
    Assemble(Before(link, '?'), EncodeQuery(VersionedQuery(link, version)), ParseLink(link).fragment.GetOr(""))
  }

  /** `appendVersionHashToLink`: a link already carrying the version is
      returned as it is, any other is written back with the version set. */
  function AppendVersion(link: string, version: string): (r: string)
    ensures Before(link, '?') <= r
    ensures '?' in r
  {
    if IsCurrent(link, version) then
      CurrentHasQuery(link, version);
      link
    else
      var w := Before(link, '?');
      assert VersionedLink(link, version)[|w|] == '?';
      VersionedLink(link, version)
  }

  /** A link that already carries the version is returned as it is. */
  lemma CurrentKept(link: string, version: string)
    requires IsCurrent(link, version)
    ensures AppendVersion(link, version) == link
  {
  }

  /** A link that carries a version has a query, so a `?`. */
  lemma CurrentHasQuery(link: string, version: string)
    requires IsCurrent(link, version)
    ensures '?' in link
  {
    var p := ParseLink(link);
    if p.query.None? {
      ParseQueryEmpty();
      assert false;
    }
    assert link[|p.path|] == '?';
  }

  lemma VersionKeyPlain()
    ensures Plain(VersionKey)
  {
  }

  lemma AssembleShape(withoutQuery: string, versionedQuery: string, fragment: string)
    ensures Assemble(withoutQuery, versionedQuery, fragment)
            == withoutQuery + "?" + (versionedQuery + (if fragment != "" then "##" + fragment else ""))
  {
  }

  lemma UnparseVersioned(path: string, query: string, fragment: string)
    ensures Unparse(ParsedLink(path, Some(query), if fragment != "" then Some("#" + fragment) else None))
            == path + "?" + (query + (if fragment != "" then "##" + fragment else ""))
  {
  }

  /** The shape of a rewritten link: the link up to its first `?` (all of it
      without one), `?`, the encoded query with the version set, and a
      non-empty fragment behind `##`. */
  lemma AppendVersionShape(link: string, version: string)
    requires !IsCurrent(link, version)
    ensures var f := ParseLink(link).fragment.GetOr("");
            AppendVersion(link, version)
            == Before(link, '?') + "?" + (EncodeQuery(VersionedQuery(link, version)) + (if f != "" then "##" + f else ""))
  {
    AssembleShape(Before(link, '?'), EncodeQuery(VersionedQuery(link, version)), ParseLink(link).fragment.GetOr(""));
  }

  /** Parsing a rewritten link, when the link's `?` comes before its `#`: the
      path is kept, the query is the versioned one, and a non-empty fragment
      comes back with an extra `#` in front. */
  lemma AppendVersionParse(link: string, version: string)
    requires '#' !in Before(link, '?')
    requires !IsCurrent(link, version)
    ensures var p := ParseLink(link);
            var f := p.fragment.GetOr("");
            ParseLink(AppendVersion(link, version))
            == ParsedLink(p.path, Some(EncodeQuery(VersionedQuery(link, version))), if f != "" then Some("#" + f) else None)
  {
    var p := ParseLink(link);
    var f := p.fragment.GetOr("");
    var e := EncodeQuery(VersionedQuery(link, version));
    var w := Before(link, '?');
    PathBeforeQuery(link);
    var q := ParsedLink(w, Some(e), if f != "" then Some("#" + f) else None);
    assert WellFormed(q);
    assert AppendVersion(link, version) == Assemble(w, e, f);
    AssembleShape(w, e, f);
    UnparseVersioned(w, e, f);
    ParseUnparse(q);
  }

  /** After appending, the query holds `version` with the new value (in its
      old place, or last when it is new) and every other parameter as it
      was; the path is kept. */
  lemma AppendVersionQuery(link: string, version: string)
    requires '#' !in Before(link, '?')
    requires Plain(version)
    ensures QueryOf(AppendVersion(link, version)) == VersionedQuery(link, version)
    ensures ParseLink(AppendVersion(link, version)).path == ParseLink(link).path
  {
    var parts := QueryOf(link);
    if IsCurrent(link, version) {
      PutExisting(parts, VersionKey, version);
    } else {
      AppendVersionParse(link, version);
      ParseQueryPlain(ParseLink(link).query.GetOr(""));
      VersionKeyPlain();
      PutUnique(parts, VersionKey, version);
      PutPlain(parts, VersionKey, version);
      ParseEncodeQuery(VersionedQuery(link, version));
    }
  }

  /** Appending the same non-empty version twice is appending it once. */
  lemma AppendVersionIdempotent(link: string, version: string)
    requires '#' !in Before(link, '?')
    requires Plain(version) && !PhpEmpty(version)
    ensures AppendVersion(AppendVersion(link, version), version) == AppendVersion(link, version)
  {
    AppendVersionQuery(link, version);
    assert IsCurrent(AppendVersion(link, version), version);
  }

  /** A link with a `#` before any `?` never gets the version into its
      query: the result is longer, still has the `#` first, and so changes
      again on every later call. */
  lemma AppendVersionHashFirst(link: string, version: string)
    requires '#' in Before(link, '?')
    ensures |AppendVersion(link, version)| > |link|
    ensures '#' in Before(AppendVersion(link, version), '?')
    ensures ParseLink(AppendVersion(link, version)).query == None
  {
    HashFirstShape(link, version);
    HashFirstLonger(link, version);
    HashFirstStays(link, version);
  }

  lemma HashFirstLonger(link: string, version: string)
    requires '#' in Before(link, '?')
    ensures |AppendVersion(link, version)| > |link|
  {
    var w := Before(link, '?');
    var f := ParseLink(link).fragment.GetOr("");
    HashFirstShape(link, version);
    HashFirstFragment(link);
    assert |AppendVersion(link, version)| >= |w| + 1 + (if f != "" then 2 + |f| else 0);
  }

  lemma HashFirstStays(link: string, version: string)
    requires '#' in Before(link, '?')
    ensures '#' in Before(AppendVersion(link, version), '?')
    ensures ParseLink(AppendVersion(link, version)).query == None
  {
    var w := Before(link, '?');
    var f := ParseLink(link).fragment.GetOr("");
    var e := EncodeQuery(VersionedQuery(link, version));
    HashFirstShape(link, version);
    JoinHashFirst(AppendVersion(link, version), w, e + (if f != "" then "##" + f else ""));
  }

  /** A link with a `#` before any `?` never carries a version, so it is
      always written back. */
  lemma HashFirstShape(link: string, version: string)
    requires '#' in Before(link, '?')
    ensures var f := ParseLink(link).fragment.GetOr("");
            AppendVersion(link, version)
            == Before(link, '?') + "?" + (EncodeQuery(VersionedQuery(link, version)) + (if f != "" then "##" + f else ""))
  {
    HashFirstNoQuery(link);
    ParseQueryEmpty();
    assert !IsCurrent(link, version);
    AssembleShape(Before(link, '?'), EncodeQuery(VersionedQuery(link, version)), ParseLink(link).fragment.GetOr(""));
  }

  /** A link with a `#` before any `?` has a fragment that reaches past the
      `?`, so it is non-empty when the link has a `?` at all. */
  lemma HashFirstFragment(link: string)
    requires '#' in Before(link, '?')
    ensures var f := ParseLink(link).fragment.GetOr("");
            Before(link, '?') == link || |f| >= |link| - |Before(link, '?')| > 0
  {
    HashFirstNoQuery(link);
    FragmentAfterHash(link);
  }

  /** The query written for a link that has none is `version=<version>`
      alone, for a version of unreserved characters. */
  lemma EncodeVersionOnly(link: string, version: string)
    requires ParseLink(link).query == None
    requires forall k :: 0 <= k < |version| ==> UrlCodec.IsUnreserved(version[k])
    ensures !IsCurrent(link, version)
    ensures EncodeQuery(VersionedQuery(link, version)) == VersionKey + "=" + version
  {
    VersionOnlyQuery(link, version);
    EncodeVersionEntry(version);
  }

  /** A link without a query gets exactly the version parameter. */
  lemma VersionOnlyQuery(link: string, version: string)
    requires ParseLink(link).query == None
    ensures !IsCurrent(link, version)
    ensures VersionedQuery(link, version) == [Entry(VersionKey, version)]
  {
    ParseQueryEmpty();
    var q := QueryOf(link);
    assert q == [];
    PutIntoEmpty(q, VersionKey, version);
  }

  /** The version parameter alone is written back as `version=<version>`. */
  lemma EncodeVersionEntry(version: string)
    requires forall k :: 0 <= k < |version| ==> UrlCodec.IsUnreserved(version[k])
    ensures EncodeQuery([Entry(VersionKey, version)]) == VersionKey + "=" + version
  {
    var e := Entry(VersionKey, version);
    EncodeSingle(e);
    VersionKeyEncoded();
    assert EncodeEntry(e) == VersionKey + "=" + version;
  }

  /** `urlencode` leaves the parameter name as it is. */
  lemma VersionKeyEncoded()
    ensures UrlCodec.UrlEncode(VersionKey) == VersionKey
  {
    assert forall k :: 0 <= k < |VersionKey| ==> UrlCodec.IsUnreserved(VersionKey[k]);
  }

  /** A link with neither `?` nor `#` gets `?version=<version>` appended. */
  lemma AppendVersionBare(link: string, version: string)
    requires '?' !in link && '#' !in link
    requires forall k :: 0 <= k < |version| ==> UrlCodec.IsUnreserved(version[k])
    ensures AppendVersion(link, version) == link + "?" + VersionKey + "=" + version
  {
    BareParts(link);
    EncodeVersionOnly(link, version);
    AppendVersionShape(link, version);
    var f := ParseLink(link).fragment.GetOr("");
    assert f == "";
    JoinTail(AppendVersion(link, version), link, EncodeQuery(VersionedQuery(link, version)), f, version);
  }

  /** Concatenation bookkeeping for the lemmas above. */
  lemma JoinTail(r: string, w: string, e: string, f: string, version: string)
    requires e == VersionKey + "=" + version
    requires r == w + "?" + (e + (if f != "" then "##" + f else ""))
    ensures r == w + "?" + VersionKey + "=" + version + (if f != "" then "##" + f else "")
    ensures f != "" ==> r == w + "?" + VersionKey + "=" + version + "##" + f
  {
    var x := w + "?" + VersionKey + "=" + version;
    if f != "" {
      assert x + ("##" + f) == x + "##" + f;
    }
  }

  lemma BareParts(link: string)
    requires '?' !in link && '#' !in link
    ensures ParseLink(link) == ParsedLink(link, None, None)
    ensures Before(link, '?') == link
  {
    var p := ParsedLink(link, None, None);
    assert Unparse(p) == link;
    ParseUnparse(p);
    NoSplit(link, '?');
  }

  /** A link `w#f` without `?` keeps `#f` in front of the new query and
      repeats `f` behind `##` at the end. */
  lemma AppendVersionFragmentOnly(w: string, f: string, version: string)
    requires '?' !in w && '?' !in f && '#' !in w && |f| > 0
    requires forall k :: 0 <= k < |version| ==> UrlCodec.IsUnreserved(version[k])
    ensures AppendVersion(w + "#" + f, version) == w + "#" + f + "?" + VersionKey + "=" + version + "##" + f
  {
    var link := w + "#" + f;
    FragmentParts(w, f);
    EncodeVersionOnly(link, version);
    var e := EncodeQuery(VersionedQuery(link, version));
    var r := AppendVersion(link, version);
    assert r == link + "?" + (e + (if f != "" then "##" + f else "")) by {
      AppendVersionShape(link, version);
    }
    JoinTail(r, link, e, f, version);
  }

  lemma FragmentParts(w: string, f: string)
    requires '?' !in w && '?' !in f && '#' !in w
    ensures ParseLink(w + "#" + f) == ParsedLink(w, None, Some(f))
    ensures Before(w + "#" + f, '?') == w + "#" + f
  {
    var link := w + "#" + f;
    var p := ParsedLink(w, None, Some(f));
    assert Unparse(p) == link;
    ParseUnparse(p);
    assert '?' !in link;
    NoSplit(link, '?');
  }

  /** An example: a link with a fragment and no query. The literals are
      pinned by `requires` on parameters, which keeps Dafny from unfolding
      `AppendVersion` on literal text. */
  lemma HashFirstExample(w: string, f: string, version: string)
    requires w == "img.png" && f == "top" && version == "abc"
    ensures AppendVersion(w + "#" + f, version) == "img.png#top?version=abc##top"
  {
    ExampleText(w, f, version);
    AppendVersionFragmentOnly(w, f, version);
  }

  /** The literal facts the example needs, stated on parameters for the same
      reason. */
  lemma ExampleText(w: string, f: string, version: string)
    requires w == "img.png" && f == "top" && version == "abc"
    ensures '?' !in w && '?' !in f && '#' !in w && |f| > 0
    ensures forall k :: 0 <= k < |version| ==> UrlCodec.IsUnreserved(version[k])
    ensures w + "#" + f + "?" + VersionKey + "=" + version + "##" + f == "img.png#top?version=abc##top"
  {
  }

  /** With a non-empty version free of `&` and `=`, the link comes back
      unchanged exactly when it already carries that version. */
  lemma AppendVersionUnchangedIff(link: string, version: string)
    requires Plain(version) && !PhpEmpty(version)
    ensures AppendVersion(link, version) == link <==> IsCurrent(link, version)
  {
    if !IsCurrent(link, version) && AppendVersion(link, version) == link {
      if '#' in Before(link, '?') {
        AppendVersionHashFirst(link, version);
      } else {
        AppendVersionQuery(link, version);
      }
    }
  }

  // ---------------------------------------------------------------------
  // addVersionsToAssetLinks

  /** The content being rewritten and the problems reported so far. */
  datatype Rewritten = Rewritten(content: string, diagnostics: seq<Diagnostic>)

  /** One pass of the loop: normalise the token to its link, look up the
      hash, and replace the token (never the bare link) wherever it occurs,
      by the token with its link versioned. */
  function RewriteToken(acc: Rewritten, token: string, root: string, reportType: string, hashOf: string -> Option<string>)
    : (r: Result<Rewritten, ParsingError>)
    ensures r.Failure? <==> HashFor(LinkOf(token), root, hashOf).None? && Aborts(reportType)
    ensures r.Success? ==> acc.diagnostics <= r.value.diagnostics
    ensures r.Success? ==>
      |r.value.diagnostics| == |acc.diagnostics| + ProblemCount(LinkOf(token), root, reportType, hashOf)
    ensures r.Success? && reportType == ReportAsIgnore ==> OnlyPhpWarnings(r.value.diagnostics[|acc.diagnostics|..])
    ensures r.Success? && HashFor(LinkOf(token), root, hashOf).None? ==> r.value.content == acc.content
    ensures r.Success? && HashFor(LinkOf(token), root, hashOf).Some? ==> r.value.diagnostics == acc.diagnostics
  {
    var link := LinkOf(token);
    var lookup := FileMd5(link, root, reportType, hashOf);
    if lookup.Failure? then Failure(lookup.error)
    else
      var r := AfterLookup(acc, token, link, lookup.value);
      assert r.diagnostics[|acc.diagnostics|..] == lookup.value.diagnostics;
      Success(r)
  }

  /** The rest of a pass once the lookup has returned: a usable hash that the
      link does not carry yet versions every occurrence of the token. */
  function AfterLookup(acc: Rewritten, token: string, link: string, lookup: Lookup): (r: Rewritten)
    ensures r.diagnostics == acc.diagnostics + lookup.diagnostics
    ensures lookup.md5.None? ==> r.content == acc.content
  {
    var log := acc.diagnostics + lookup.diagnostics;
    var md5 := lookup.md5;
    if md5.None? || PhpEmpty(md5.value) then Rewritten(acc.content, log)
    else
      var versionedLink := AppendVersion(link, md5.value);
      if versionedLink == link then Rewritten(acc.content, log)
      else
        var versionedToken := ReplaceAll(token, link, versionedLink);
        Rewritten(ReplaceAll(acc.content, token, versionedToken), log)
  }

  /** How many diagnostics looking up every token's link adds. */
  function Problems(tokens: seq<string>, root: string, reportType: string, hashOf: string -> Option<string>): (n: nat)
    ensures n <= |tokens| + (if reportType == ReportAsIgnore then 0 else |tokens|)
    decreases |tokens|
  {
    if |tokens| == 0 then 0
    else ProblemCount(LinkOf(tokens[0]), root, reportType, hashOf) + Problems(tokens[1..], root, reportType, hashOf)
  }

  /** The loop over all tokens, stopping at the first exception. */
  function RewriteAll(acc: Rewritten, tokens: seq<string>, root: string, reportType: string, hashOf: string -> Option<string>)
    : (r: Result<Rewritten, ParsingError>)
    ensures r.Success? ==> acc.diagnostics <= r.value.diagnostics
    ensures r.Success? ==> |r.value.diagnostics| == |acc.diagnostics| + Problems(tokens, root, reportType, hashOf)
    ensures r.Success? && reportType == ReportAsIgnore ==> OnlyPhpWarnings(r.value.diagnostics[|acc.diagnostics|..])
    decreases |tokens|
  {
    if |tokens| == 0 then Success(acc)
    else
      var step := RewriteToken(acc, tokens[0], root, reportType, hashOf);
      if step.Failure? then Failure(step.error)
      else
        var rest := RewriteAll(step.value, tokens[1..], root, reportType, hashOf);
        if rest.Success? then
          WarningsCompose(acc.diagnostics, step.value.diagnostics, rest.value.diagnostics);
          rest
        else rest
  }

  /** Warnings added in two steps are warnings added in one. */
  lemma WarningsCompose(a: seq<Diagnostic>, b: seq<Diagnostic>, c: seq<Diagnostic>)
    requires a <= b <= c
    ensures OnlyPhpWarnings(b[|a|..]) && OnlyPhpWarnings(c[|b|..]) ==> OnlyPhpWarnings(c[|a|..])
  {
    if OnlyPhpWarnings(b[|a|..]) && OnlyPhpWarnings(c[|b|..]) {
      forall k | 0 <= k < |c| - |a|
        ensures c[|a|..][k].level == PhpWarning
      {
        if |a| + k < |b| {
          assert c[|a|..][k] == b[|a|..][k];
        } else {
          assert c[|a|..][k] == c[|b|..][|a| + k - |b|];
        }
      }
    }
  }

  /** `addVersionsToAssetLinks`. */
  function AddVersionsToAssetLinks(injector: Injector, content: string, root: string, hashOf: string -> Option<string>)
    : (r: Result<Rewritten, ParsingError>)
    ensures r.Success? ==>
      |r.value.diagnostics| == Problems(LinkTokens(content), root, injector.notFoundAssetFileReport, hashOf)
    ensures r.Success? && injector.notFoundAssetFileReport == ReportAsIgnore ==> OnlyPhpWarnings(r.value.diagnostics)
  {
    var tokens := LinkTokens(content);
    if tokens == [] then Success(Rewritten(content, []))
    else RewriteAll(Rewritten(content, []), tokens, root, injector.notFoundAssetFileReport, hashOf)
  }

  /** `addVersionsToAssetLinks` as the loop it is written as. */
  method AddVersions(injector: Injector, content: string, root: string, hashOf: string -> Option<string>)
    returns (r: Result<Rewritten, ParsingError>)
    ensures r == AddVersionsToAssetLinks(injector, content, root, hashOf)
  {
    var tokens := LinkTokens(content);
    if tokens == [] {
      return Success(Rewritten(content, []));
    }
    var reportType := injector.notFoundAssetFileReport;
    var acc := Rewritten(content, []);
    var i := 0;
    while i < |tokens|
      invariant 0 <= i <= |tokens|
      invariant RewriteAll(acc, tokens[i..], root, reportType, hashOf)
                == RewriteAll(Rewritten(content, []), tokens, root, reportType, hashOf)
    {
      var step := RewriteToken(acc, tokens[i], root, reportType, hashOf);
      assert tokens[i..][1..] == tokens[i + 1..];
      if step.Failure? {
        return Failure(step.error);
      }
      acc := step.value;
      i := i + 1;
    }
    return Success(acc);
  }

  /** Content in which none of the five reference shapes matches comes back
      as it is, with nothing reported. */
  lemma NoTokensUnchanged(injector: Injector, content: string, root: string, hashOf: string -> Option<string>)
    requires forall j :: 0 <= j < |content| ==>
               MatchFirst(content, j, SrcPatterns).None? && MatchFirst(content, j, UrlPatterns).None?
    ensures AddVersionsToAssetLinks(injector, content, root, hashOf) == Success(Rewritten(content, []))
  {
    LinkTokensEmptyIff(content);
  }

  /** The token's link resolves to no hash. */
  predicate Unresolved(token: string, root: string, hashOf: string -> Option<string>) {
    HashFor(LinkOf(token), root, hashOf).None?
  }

  /** Some token's link resolves to no hash. */
  predicate SomeUnresolved(tokens: seq<string>, root: string, hashOf: string -> Option<string>) {
    exists k :: 0 <= k < |tokens| && Unresolved(tokens[k], root, hashOf)
  }

  lemma SomeUnresolvedCons(tokens: seq<string>, root: string, hashOf: string -> Option<string>)
    requires |tokens| > 0
    ensures SomeUnresolved(tokens, root, hashOf)
            <==> Unresolved(tokens[0], root, hashOf) || SomeUnresolved(tokens[1..], root, hashOf)
  {
    ExistsCons(tokens, t => Unresolved(t, root, hashOf));
  }

  lemma ExistsCons<T>(xs: seq<T>, p: T -> bool)
    requires |xs| > 0
    ensures (exists k :: 0 <= k < |xs| && p(xs[k])) <==> p(xs[0]) || exists k :: 0 <= k < |xs[1..]| && p(xs[1..][k])
  {
    var rest := xs[1..];
    if exists k :: 0 <= k < |xs| && p(xs[k]) {
      var k :| 0 <= k < |xs| && p(xs[k]);
      if k > 0 {
        assert rest[k - 1] == xs[k];
      }
    }
    if exists k :: 0 <= k < |rest| && p(rest[k]) {
      var k :| 0 <= k < |rest| && p(rest[k]);
      assert xs[k + 1] == rest[k];
    }
  }

  /** The loop aborts exactly when the mode aborts and some token's link does
      not resolve to a hash. */
  lemma {:induction false} RewriteAllFails(acc: Rewritten, tokens: seq<string>, root: string, reportType: string, hashOf: string -> Option<string>)
    ensures RewriteAll(acc, tokens, root, reportType, hashOf).Failure? <==>
            Aborts(reportType) && SomeUnresolved(tokens, root, hashOf)
    decreases |tokens|
  {
    if |tokens| > 0 {
      SomeUnresolvedCons(tokens, root, hashOf);
      var step := RewriteToken(acc, tokens[0], root, reportType, hashOf);
      if step.Success? {
        RewriteAllFails(step.value, tokens[1..], root, reportType, hashOf);
      }
    }
  }

  /** In the model, the rewrite always completes in the modes `ignore`,
      `notice` and `warning`; in any other it fails exactly when some link
      does not resolve. */
  lemma AddVersionsFails(injector: Injector, content: string, root: string, hashOf: string -> Option<string>)
    ensures var tokens := LinkTokens(content);
            AddVersionsToAssetLinks(injector, content, root, hashOf).Failure? <==>
            Aborts(injector.notFoundAssetFileReport) && SomeUnresolved(tokens, root, hashOf)
  {
    RewriteAllFails(Rewritten(content, []), LinkTokens(content), root, injector.notFoundAssetFileReport, hashOf);
  }

  /** When no link resolves and the mode does not abort, the content is left
      as it is; there is one report per token unless problems are ignored,
      plus `md5_file`'s warning for each file it cannot read. */
  lemma {:induction false} NothingResolves(acc: Rewritten, tokens: seq<string>, root: string, reportType: string, hashOf: string -> Option<string>)
    requires !Aborts(reportType)
    requires forall k :: 0 <= k < |tokens| ==> HashFor(LinkOf(tokens[k]), root, hashOf).None?
    ensures var r := RewriteAll(acc, tokens, root, reportType, hashOf);
            && r.Success? && r.value.content == acc.content
            && |r.value.diagnostics| == |acc.diagnostics| + Problems(tokens, root, reportType, hashOf)
            && Problems(tokens, root, reportType, hashOf) >= (if reportType == ReportAsIgnore then 0 else |tokens|)
    decreases |tokens|
  {
    if |tokens| > 0 {
      var step := RewriteToken(acc, tokens[0], root, reportType, hashOf);
      var rest := tokens[1..];
      forall k | 0 <= k < |rest|
        ensures HashFor(LinkOf(rest[k]), root, hashOf).None?
      {
        assert rest[k] == tokens[k + 1];
      }
      NothingResolves(step.value, rest, root, reportType, hashOf);
    }
  }

  /** A token that does not occur in the content changes nothing, even where
      its bare link does occur. */
  lemma AbsentTokenUnchanged(acc: Rewritten, token: string, root: string, reportType: string, hashOf: string -> Option<string>)
    requires !Occurs(acc.content, token)
    ensures var r := RewriteToken(acc, token, root, reportType, hashOf);
            r.Success? ==> r.value.content == acc.content
  {
    var link := LinkOf(token);
    var h := HashFor(link, root, hashOf);
    if h.Some? {
      var versionedToken := ReplaceAll(token, link, AppendVersion(link, h.value));
      ReplaceAllAbsent(acc.content, token, versionedToken);
    }
  }

  /** One pass for a token whose link resolves to a usable hash that the
      link does not carry yet: nothing is reported, and the content is cut at
      every occurrence of the token and joined again with the token whose
      link is versioned. */
  lemma RewriteTokenResolved(acc: Rewritten, token: string, root: string, reportType: string,
                             hashOf: string -> Option<string>, h: string)
    requires HashFor(LinkOf(token), root, hashOf) == Some(h)
    requires !PhpEmpty(h) && AppendVersion(LinkOf(token), h) != LinkOf(token)
    requires |token| > 0
    ensures var l := LinkOf(token);
            RewriteToken(acc, token, root, reportType, hashOf)
            == Success(Rewritten(Implode(Explode(acc.content, token), ReplaceAll(token, l, AppendVersion(l, h))),
                                 acc.diagnostics))
  {
    var l := LinkOf(token);
    RewriteVersioned(acc, token, root, reportType, hashOf, h);
    ReplaceAllIsImplodeExplode(acc.content, token, ReplaceAll(token, l, AppendVersion(l, h)));
  }

  /** A token whose link resolves to a PHP-empty hash, or that already
      carries its version, leaves the content as it is, with nothing
      reported. */
  lemma RewriteCurrent(acc: Rewritten, token: string, root: string, reportType: string,
                       hashOf: string -> Option<string>, h: string)
    requires HashFor(LinkOf(token), root, hashOf) == Some(h)
    requires PhpEmpty(h) || AppendVersion(LinkOf(token), h) == LinkOf(token)
    ensures RewriteToken(acc, token, root, reportType, hashOf) == Success(acc)
  {
    ResolvedLookup(LinkOf(token), root, reportType, hashOf, h);
    assert acc.diagnostics + [] == acc.diagnostics;
  }

  lemma RewriteVersioned(acc: Rewritten, token: string, root: string, reportType: string,
                         hashOf: string -> Option<string>, h: string)
    requires HashFor(LinkOf(token), root, hashOf) == Some(h)
    requires !PhpEmpty(h) && AppendVersion(LinkOf(token), h) != LinkOf(token)
    ensures var l := LinkOf(token);
            RewriteToken(acc, token, root, reportType, hashOf)
            == Success(Rewritten(ReplaceAll(acc.content, token, ReplaceAll(token, l, AppendVersion(l, h))), acc.diagnostics))
  {
    var l := LinkOf(token);
    var lookup := Lookup(Some(h), []);
    assert FileMd5(l, root, reportType, hashOf) == Success(lookup) by {
      ResolvedLookup(l, root, reportType, hashOf, h);
    }
    assert RewriteToken(acc, token, root, reportType, hashOf) == Success(AfterLookup(acc, token, l, lookup));
    VersionedAfterLookup(acc, token, l, h);
  }

  lemma VersionedAfterLookup(acc: Rewritten, token: string, l: string, h: string)
    requires !PhpEmpty(h) && AppendVersion(l, h) != l
    ensures AfterLookup(acc, token, l, Lookup(Some(h), []))
            == Rewritten(ReplaceAll(acc.content, token, ReplaceAll(token, l, AppendVersion(l, h))), acc.diagnostics)
  {
    assert acc.diagnostics + [] == acc.diagnostics;
  }

  /** Ignoring problems does not silence `md5_file`: a file it cannot read
      still gives its warning, and nothing else. */
  lemma IgnoredUnreadable(link: string, root: string, hashOf: string -> Option<string>)
    requires Unreadable(link, root, hashOf)
    ensures FileMd5(link, root, ReportAsIgnore, hashOf)
            == Success(Lookup(None, [OpenWarning(AssetFile(root, ParseLink(link).path))]))
  {
    var report := ReportProblem("Can not read asset file " + AssetFile(root, ParseLink(link).path)
                                + " figured from link '" + ParseLink(link).path, ReportAsIgnore);
    assert report == Success([]);
    assert [OpenWarning(AssetFile(root, ParseLink(link).path))] + [] == [OpenWarning(AssetFile(root, ParseLink(link).path))];
  }

  lemma ResolvedLookup(link: string, root: string, reportType: string, hashOf: string -> Option<string>, h: string)
    requires HashFor(link, root, hashOf) == Some(h)
    ensures FileMd5(link, root, reportType, hashOf) == Success(Lookup(Some(h), []))
  {
  }

  /** Only a non-empty token can resolve, since the empty token unwraps to
      the empty link, whose path is empty. */
  lemma ResolvedTokenNonEmpty(token: string, root: string, hashOf: string -> Option<string>)
    requires HashFor(LinkOf(token), root, hashOf).Some?
    ensures |token| > 0
  {
    if token == "" {
      EmptyTokenNoLink(token);
      EmptyLinkNoPath(LinkOf(token));
      assert false;
    }
  }

  lemma EmptyTokenNoLink(token: string)
    requires token == ""
    ensures LinkOf(token) == ""
  {
  }

  lemma EmptyLinkNoPath(link: string)
    requires link == ""
    ensures ParseLink(link).path == ""
  {
    assert |Unparse(ParseLink(link))| == 0;
  }

  /** A token that encloses its link as `pre` + `q` + `l` + `post` (every
      `src` and `url` form does), where `l` does not occur in the wrapper,
      is rewritten to the same wrapper around the versioned link. */
  lemma RewriteEnclosed(acc: Rewritten, pre: string, q: char, l: string, post: string, root: string,
                        reportType: string, hashOf: string -> Option<string>, h: string)
    requires LinkOf(pre + [q] + l + post) == l
    requires |l| > 0 && q !in l && !Occurs(pre, l) && !Occurs(post, l)
    requires HashFor(l, root, hashOf) == Some(h) && !PhpEmpty(h) && AppendVersion(l, h) != l
    ensures var token := pre + [q] + l + post;
            |token| > 0
            && RewriteToken(acc, token, root, reportType, hashOf)
               == Success(Rewritten(Implode(Explode(acc.content, token), pre + [q] + AppendVersion(l, h) + post),
                                    acc.diagnostics))
  {
    var token := pre + [q] + l + post;
    RewriteTokenResolved(acc, token, root, reportType, hashOf, h);
    ReplaceEnclosed(pre, q, l, post, AppendVersion(l, h));
  }

  /** The replacement inside the token is a plain `str_replace` of the link,
      so a link that also occurs in its wrapper is versioned there too:
      `src="c"` becomes `src?version=<h>="c?version=<h>"`. The token is
      pinned by `requires` on a parameter, and the helpers below take the
      same form, which keeps Dafny from unfolding `LinkOf` and
      `AppendVersion` on literal text. */
  lemma LinkInWrapper(token: string, root: string, reportType: string, hashOf: string -> Option<string>, h: string)
    requires token == "src=\"c\""
    requires hashOf(AssetFile(root, "c")) == Some(h) && !PhpEmpty(h)
    requires forall k :: 0 <= k < |h| ==> UrlCodec.IsUnreserved(h[k])
    ensures var v := "c?" + VersionKey + "=" + h;
            RewriteToken(Rewritten(token, []), token, root, reportType, hashOf)
            == Success(Rewritten("sr" + v + "=\"" + v + "\"", []))
  {
    var l := LinkOfC(token);
    AppendVersionBare(l, h);
    var v := AppendVersion(l, h);
    VersionedC(l, v, h);
    WrapperHit(token, l, v);
    RewriteWhole(token, l, root, reportType, hashOf, h);
  }

  /** The versioned link `c`, with its literal pinned by `requires`. */
  lemma VersionedC(l: string, v: string, h: string)
    requires l == "c" && v == l + "?" + VersionKey + "=" + h
    ensures v == "c?" + VersionKey + "=" + h && v != l
  {
  }

  /** The token `src="c"` unwraps to the link `c`, which names the file `c`;
      the token is a parameter so that `LinkOf` is not unfolded on a
      literal. */
  lemma LinkOfC(token: string) returns (l: string)
    requires token == "src=\"c\""
    ensures l == "c" && LinkOf(token) == l && ParseLink(l).path == l
    ensures '?' !in l && '#' !in l
  {
    l := "c";
    LinkOfSrcDouble(l);
    assert token == "src=\"" + l + "\"";
    BareParts(l);
  }

  /** A token that is the whole content becomes the token with its link
      versioned. */
  lemma RewriteWhole(token: string, l: string, root: string, reportType: string,
                     hashOf: string -> Option<string>, h: string)
    requires |token| > 0 && LinkOf(token) == l
    requires HashFor(l, root, hashOf) == Some(h) && !PhpEmpty(h) && AppendVersion(l, h) != l
    ensures RewriteToken(Rewritten(token, []), token, root, reportType, hashOf)
            == Success(Rewritten(ReplaceAll(token, l, AppendVersion(l, h)), []))
  {
    RewriteTokenResolved(Rewritten(token, []), token, root, reportType, hashOf, h);
    ExplodeWhole(token, ReplaceAll(token, l, AppendVersion(l, h)));
  }

  /** `str_replace` of `c` in `src="c"` hits the wrapper as well as the link;
      the literals are pinned by `requires` on parameters. */
  lemma WrapperHit(token: string, l: string, v: string)
    requires token == "src=\"c\"" && l == "c"
    ensures ReplaceAll(token, l, v) == "sr" + v + "=\"" + v + "\""
  {
    TokenChars(token);
    var t1 := ['"'];
    ReplaceStep('"', [], l, v);
    assert [('"')] + [] == t1;
    var t2 := ['c'] + t1;
    ReplaceStep('c', t1, l, v);
    var t3 := ['"'] + t2;
    ReplaceStep('"', t2, l, v);
    var t4 := ['='] + t3;
    ReplaceStep('=', t3, l, v);
    var t5 := ['c'] + t4;
    ReplaceStep('c', t4, l, v);
    var t6 := ['r'] + t5;
    ReplaceStep('r', t5, l, v);
    ReplaceStep('s', t6, l, v);
    WrapperChars(v);
  }

  /** `src="c"`, one character at a time. */
  lemma TokenChars(token: string)
    requires token == "src=\"c\""
    ensures token == ['s'] + (['r'] + (['c'] + (['='] + (['"'] + (['c'] + ['"'])))))
  {
  }

  /** `src="c"` with both `c` replaced by `v`, one piece at a time. */
  lemma WrapperChars(v: string)
    ensures ['s'] + (['r'] + (v + (['='] + (['"'] + (v + ['"']))))) == "sr" + v + "=\"" + v + "\""
  {
  }

  lemma ExplodeWhole(s: string, x: string)
    requires |s| > 0
    ensures Implode(Explode(s, s), x) == x
  {
    ReplaceAllIsImplodeExplode(s, s, x);
    assert s[..|s|] == s && s[|s|..] == "";
  }

  /** A token whose link resolves and already carries its file's version. */
  predicate UpToDate(token: string, root: string, hashOf: string -> Option<string>) {
    var h := HashFor(LinkOf(token), root, hashOf);
    h.Some? && IsCurrent(LinkOf(token), h.value)
  }

  /** A first token that is up to date can be skipped. */
  lemma RewriteAllSkip(acc: Rewritten, tokens: seq<string>, root: string, reportType: string, hashOf: string -> Option<string>)
    requires |tokens| > 0 && UpToDate(tokens[0], root, hashOf)
    ensures RewriteAll(acc, tokens, root, reportType, hashOf) == RewriteAll(acc, tokens[1..], root, reportType, hashOf)
  {
    var t := tokens[0];
    var h := HashFor(LinkOf(t), root, hashOf).value;
    CurrentKept(LinkOf(t), h);
    RewriteCurrent(acc, t, root, reportType, hashOf, h);
  }

  /** Content whose every token is up to date comes back as it is, with
      nothing reported. */
  lemma {:induction false} UpToDateUnchanged(acc: Rewritten, tokens: seq<string>, root: string, reportType: string, hashOf: string -> Option<string>)
    requires forall k :: 0 <= k < |tokens| ==> UpToDate(tokens[k], root, hashOf)
    ensures RewriteAll(acc, tokens, root, reportType, hashOf) == Success(acc)
    decreases |tokens|
  {
    if |tokens| > 0 {
      RewriteAllSkip(acc, tokens, root, reportType, hashOf);
      var rest := tokens[1..];
      forall k | 0 <= k < |rest|
        ensures UpToDate(rest[k], root, hashOf)
      {
        assert rest[k] == tokens[k + 1];
      }
      UpToDateUnchanged(acc, rest, root, reportType, hashOf);
    }
  }
}
