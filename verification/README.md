# assets-version in Dafny

A model of `AssetsVersionInjector` from granam/assets-version. The class adds
cache-busting versions to asset links found in HTML or CSS text. It finds every
`src="..."`, `src='...'` and CSS `url(...)` reference and unwraps the link from
each one. It looks up the md5 hash of the file the link points at, beneath an
assets root directory. It then writes the hash into the link's query as
`version=<md5>`, keeping the other query parameters. Finally it replaces each
whole reference in the text with its versioned form. A file that cannot be
hashed is reported in one of four modes: `ignore`, `notice`, `warning` or
`exception`. Any unknown mode behaves as `exception`, and so does the default.

Modules, one per concern of the class:

- `Wrappers`: `Option` and `Result`.
- `Strings`: the PHP string functions the class calls. These are `explode`,
  `implode`, `str_replace`, `trim`, `ltrim` and `strpos`, written as
  `IndexOf`/`Before`.
- `UrlCodec`: `urlencode` and `urldecode`, with the proof that decoding
  inverts encoding.
- `Regex`: the part of PCRE that the five reference patterns use. A pattern
  is a literal prefix, a greedy run of `[^c]`, and a literal suffix. Each
  character of the run may carry the `(?<!data:)` lookbehind or the
  `(?!data:)` lookahead. A single attempt backtracks from the longest run.
  `preg_match_all` is a left-to-right scan with no overlaps. `preg_replace`
  with `$1` is also modelled.
- `Scanner`: the two scans (`src`, then `url`), their concatenation, and
  the normaliser. The normaliser is three `preg_replace` calls followed by
  `trim` of both quote characters.
- `LinkParts`: `parse_url` restricted to path, query and fragment.
- `QueryMap`: PHP's ordered array of query parameters. It covers reading the
  parameters from a query string (the chunk loop) and writing them back. It
  also gives reference definitions of what that loop computes.
- `Injector`:
  - `reportProblem`;
  - `getFileMd5`;
  - `appendVersionHashToLink`;
  - the rewrite loop of `addVersionsToAssetLinks`, both as a fold and as a
    `while` loop.

The file system and `md5_file` are a parameter, `hashOf`. It gives the hash
of a file name, or `None` when the file cannot be read. A `trigger_error`
call becomes a `Diagnostic`, added to a list carried next to the content. So
does the `E_WARNING` that `md5_file` raises for a file it cannot open, since
the call is not silenced with `@`. The
`AssetsVersionParsingException` becomes a `Failure` holding its message and
code.

Behaviour that the code has and a reader might not expect, all modelled as
written:

- A non-empty fragment is written back behind two `#` characters. For
  example, `a.css?x=1#top` becomes `a.css?x=1&version=<md5>##top`.
- A link whose `#` comes before any `?` has no query. The whole link is
  therefore taken as the part before the query, and the new query is put
  after its fragment. For example, `img.png#top` becomes
  `img.png#top?version=abc##top`. Such a link never carries its version, so
  it changes again on every run (`Injector.AppendVersionHashFirst`,
  `Injector.HashFirstExample`).
- `href` attributes are not scanned, and `addVersionsToAssetLinks` takes two
  arguments.
- The link is versioned inside its token with a plain `str_replace`, so a
  link that also occurs in the token's wrapper is versioned there too. For
  example, `src="c"` becomes `src?version=<md5>="c?version=<md5>"`
  (`Injector.LinkInWrapper`). A link that does not occur in its wrapper is
  versioned only inside the quotes or parentheses
  (`Injector.RewriteEnclosed`).

## Model

| member | source | states |
|---|---|---|
| Regex.MatchAt | Granam/AssetsVersion/AssetsVersionInjector.php:25-26 | One attempt at a position is PCRE's greedy match. A result is a genuine match, and no longer run also matches. `None` means no run length matches there at all. |
| Regex.ScanFrom | Granam/AssetsVersion/AssetsVersionInjector.php:25-26 | `preg_match_all` returns matches in increasing order without overlap. Each one is what the alternation matches at its start, with the first alternative winning. No position outside a match starts a match. |
| Regex.MatchesOccur | Granam/AssetsVersion/AssetsVersionInjector.php:25-26 | Every text `preg_match_all` returns is non-empty and occurs in the subject. |
| Regex.MatchesEmptyIff | Granam/AssetsVersion/AssetsVersionInjector.php:25-29 | `preg_match_all` finds nothing if and only if the alternation matches at no position. |
| Scanner.SrcTokensShape | Granam/AssetsVersion/AssetsVersionInjector.php:25 | Every `src` token is `src="x"` or `src='x'`, where `x` is non-empty and free of that quote. |
| Scanner.UrlTokensShape | Granam/AssetsVersion/AssetsVersionInjector.php:26 | Every `url` token is `url(x)` with a non-empty `x` free of `)`. A `data:` inside `x` ends `x`, or is followed only by the closing quote of a `"`-quoted `x`. |
| Scanner.DataUriNotToken | Granam/AssetsVersion/AssetsVersionInjector.php:26 | `url(data:d)` with a non-empty `d` is never a `url` token, so a `data:` URI with content is never picked up. |
| Scanner.LinkTokens | Granam/AssetsVersion/AssetsVersionInjector.php:25-30 | Every token processed is a non-empty text that occurs in the content. |
| Scanner.LinkTokensOrder | Granam/AssetsVersion/AssetsVersionInjector.php:25-30 | The token list holds all `src` tokens first, then all `url` tokens, each of its shape. |
| Scanner.LinkTokensEmptyIff | Granam/AssetsVersion/AssetsVersionInjector.php:25-29 | No token is found if and only if none of the five reference shapes matches anywhere in the content. |
| Regex.ReplaceWithGroupWhole | Granam/AssetsVersion/AssetsVersionInjector.php:33 | `preg_replace` with `$1` turns a subject that is one whole match of `prefix([^c]+)c` into its group. |
| Regex.ReplaceWithGroupNoMatch | Granam/AssetsVersion/AssetsVersionInjector.php:33 | A pattern that matches nowhere leaves the subject as it is. |
| Strings.TrimExact | Granam/AssetsVersion/AssetsVersionInjector.php:34 | `trim` removes exactly the listed characters around a text whose ends are not listed, however many there are. |
| Scanner.LinkOf | Granam/AssetsVersion/AssetsVersionInjector.php:33-34 | The link never starts or ends with a quote character. |
| Scanner.LinkOfSrcDouble | Granam/AssetsVersion/AssetsVersionInjector.php:33-34 | The normaliser gives back `l` from `src="l"`, for any non-empty `l` without quotes or `)`. |
| Scanner.LinkOfSrcSingle | Granam/AssetsVersion/AssetsVersionInjector.php:33-34 | The normaliser gives back `l` from `src='l'`. |
| Scanner.LinkOfUrlBare | Granam/AssetsVersion/AssetsVersionInjector.php:33-34 | The normaliser gives back `l` from `url(l)`. |
| Scanner.LinkOfUrlDouble | Granam/AssetsVersion/AssetsVersionInjector.php:33-34 | The normaliser gives back `l` from `url("l")`; the quotes are stripped by `trim`. |
| Scanner.LinkOfUrlSingle | Granam/AssetsVersion/AssetsVersionInjector.php:33-34 | The normaliser gives back `l` from `url('l')`. |
| Injector.ReportProblem | Granam/AssetsVersion/AssetsVersionInjector.php:70-85 | `ignore` reports nothing. `notice` and `warning` report one diagnostic at their own level. The call fails if and only if the mode is none of those three. Failure raises an exception with the problem text and code `E_USER_WARNING`. |
| Injector.DefaultInjectorAborts | Granam/AssetsVersion/AssetsVersionInjector.php:18-21 | An injector built without an argument turns every problem into the exception. |
| Injector.AssetFileSlashes | Granam/AssetsVersion/AssetsVersionInjector.php:60 | Leading slashes of the link's path do not change which file under the root is hashed. |
| Injector.FileMd5 | Granam/AssetsVersion/AssetsVersionInjector.php:51-68 | On success the lookup gives the hash of the file the link's path names. It gives none when the path is empty or the file cannot be read. It fails if and only if there is no hash and the mode aborts. Otherwise it adds `md5_file`'s own warning for a file it cannot read, as the first diagnostic, and then one report unless problems are ignored; under `ignore` only that warning remains. |
| LinkParts.ParseLink | Granam/AssetsVersion/AssetsVersionInjector.php:89 | A parse splits the link into a path without `?` or `#`, an optional query without `#`, and an optional fragment. The three parts put back together give the link. |
| LinkParts.ParseUnparse | Granam/AssetsVersion/AssetsVersionInjector.php:89 | Parsing inverts reassembly, so the split into parts is unique. |
| LinkParts.PathBeforeQuery | Granam/AssetsVersion/AssetsVersionInjector.php:116-120 | When no `#` precedes the first `?`, the text before that `?` is the parsed path. |
| LinkParts.HashFirstNoQuery | Granam/AssetsVersion/AssetsVersionInjector.php:89-90 | A link with a `#` before any `?` has no query, because its `?` belongs to the fragment. |
| UrlCodec.DecodeEncode | Granam/AssetsVersion/AssetsVersionInjector.php:90-106 | `urldecode` gives back every text `urlencode` produced. |
| UrlCodec.UrlEncode | Granam/AssetsVersion/AssetsVersionInjector.php:106 | Encoded text contains only unreserved characters, `%`, `+` and code points of 256 and above (which the model copies unchanged), so never `&`, `=` or `#`. Text that is all unreserved is copied unchanged. |
| UrlCodec.UrlDecode | Granam/AssetsVersion/AssetsVersionInjector.php:90 | Decoding never makes a text longer. |
| Strings.ImplodeExplode | Granam/AssetsVersion/AssetsVersionInjector.php:91 | Joining the pieces of `explode` with the delimiter gives back the text. |
| Strings.ExplodeImplode | Granam/AssetsVersion/AssetsVersionInjector.php:91-108 | `explode` on a character undoes `implode` with it when no piece holds the character. |
| QueryMap.ChunkEntry | Granam/AssetsVersion/AssetsVersionInjector.php:97 | The name of a chunk is the text before its first `=`. The value is the text between the first and second `=` (so `a=b=c` gives `b`), or empty when there is no `=`. |
| QueryMap.Get | Granam/AssetsVersion/AssetsVersionInjector.php:100 | A key has no value if and only if it is not among the array's keys. |
| QueryMap.GetFirst | Granam/AssetsVersion/AssetsVersionInjector.php:100 | A value read is the value of the first entry with that name. |
| QueryMap.Put | Granam/AssetsVersion/AssetsVersionInjector.php:98 | After writing, the key holds the new value and every other key keeps its value. |
| QueryMap.PutNames | Granam/AssetsVersion/AssetsVersionInjector.php:103 | Writing an existing key keeps the key order. Writing a new key appends it last. |
| QueryMap.PutExisting | Granam/AssetsVersion/AssetsVersionInjector.php:100-103 | Writing the value a key already holds leaves the array unchanged. |
| QueryMap.Collect | Granam/AssetsVersion/AssetsVersionInjector.php:93-99 | The chunk loop keeps the array's keys unique. |
| QueryMap.ParseQuery | Granam/AssetsVersion/AssetsVersionInjector.php:89-99 | Reading a query gives an array whose keys are unique. |
| QueryMap.CollectLastWins | Granam/AssetsVersion/AssetsVersionInjector.php:93-99 | For each name, the array holds the value of the last non-empty chunk with that name, and nothing if no chunk has it. |
| QueryMap.CollectKeyOrder | Granam/AssetsVersion/AssetsVersionInjector.php:93-99 | The array's keys are the chunk names in order of first appearance, without repeats. |
| QueryMap.ParseQueryEmpty | Granam/AssetsVersion/AssetsVersionInjector.php:90-96 | A link without a query contributes no parameters. |
| QueryMap.ParseQueryPlain | Granam/AssetsVersion/AssetsVersionInjector.php:90-98 | No name or value read from a query contains `&` or `=`. |
| QueryMap.ParseEncodeQuery | Granam/AssetsVersion/AssetsVersionInjector.php:104-108 | A query written back from an array with unique, plain keys and values reads back as the same array, order included. |
| QueryMap.EncodeQuery | Granam/AssetsVersion/AssetsVersionInjector.php:104-108 | A written-back query never contains `#`. |
| Injector.AppendVersionUnchangedIff | Granam/AssetsVersion/AssetsVersionInjector.php:100-102 | The link comes back unchanged if and only if it already carries the same non-empty version. |
| Injector.AppendVersionQuery | Granam/AssetsVersion/AssetsVersionInjector.php:100-108 | The returned link's query is the old one with `version` set: kept in place if it was present, appended otherwise. Every other parameter keeps its value and position, and the path is kept. |
| Injector.AppendVersion | Granam/AssetsVersion/AssetsVersionInjector.php:87-123 | The result always keeps the link's text up to its first `?`, and always has a `?`. |
| Injector.AppendVersionShape | Granam/AssetsVersion/AssetsVersionInjector.php:109-122 | A link that is not current comes back as its text up to the first `?` (all of it when there is none), then `?`, the encoded query with `version` set, then `##` and the fragment when the parsed fragment is non-empty. |
| Injector.AppendVersionParse | Granam/AssetsVersion/AssetsVersionInjector.php:109-122 | When `?` precedes `#`, the result parses to the same path, the encoded versioned query, and the old fragment with an extra `#` in front. This is the `##` of the output. |
| Injector.IgnoredUnreadable | Granam/AssetsVersion/AssetsVersionInjector.php:60-65 | Under `ignore`, a file that cannot be read gives no hash and exactly one diagnostic: the `E_WARNING` of `md5_file`, which is not silenced with `@`. |
| Injector.AppendVersionIdempotent | Granam/AssetsVersion/AssetsVersionInjector.php:87-123 | Appending the same version to an already versioned link, whose `#` does not precede its `?`, changes nothing. |
| Injector.AppendVersionHashFirst | Granam/AssetsVersion/AssetsVersionInjector.php:116-122 | A link whose `#` precedes any `?` grows on every call and never gains a query. |
| Injector.HashFirstShape | Granam/AssetsVersion/AssetsVersionInjector.php:109-122 | For such a link, the result is the link up to its first `?` (all of it when there is none), then `?`, the new query, and `##` with the fragment. |
| Injector.EncodeVersionOnly | Granam/AssetsVersion/AssetsVersionInjector.php:90-108 | A link without a query is not current, and its new query is `version=<version>` alone, for a version of unreserved characters. |
| Injector.AppendVersionBare | Granam/AssetsVersion/AssetsVersionInjector.php:87-123 | A link with neither `?` nor `#` gets `?version=<version>` appended. |
| Injector.AppendVersionFragmentOnly | Granam/AssetsVersion/AssetsVersionInjector.php:87-123 | A link `w#f` without `?` becomes `w#f?version=<version>##f`. |
| Injector.HashFirstExample | Granam/AssetsVersion/AssetsVersionInjector.php:87-123 | `img.png#top` with version `abc` becomes `img.png#top?version=abc##top`. |
| Injector.RewriteToken | Granam/AssetsVersion/AssetsVersionInjector.php:32-46 | One pass fails if and only if the token's link has no hash and the mode aborts. It adds exactly the diagnostics of the lookup: with a hash none, without one `md5_file`'s warning for an unreadable file plus one report unless problems are ignored. Under `ignore` only `md5_file`'s warnings are added. Without a hash the content stays as it is. |
| Injector.ResolvedTokenNonEmpty | Granam/AssetsVersion/AssetsVersionInjector.php:33-35 | Only a non-empty token can have a link that resolves. |
| Injector.RewriteTokenResolved | Granam/AssetsVersion/AssetsVersionInjector.php:39-45 | When the link resolves to a usable hash it does not carry yet, nothing is reported. The content is cut at every occurrence of the token and joined again with the token whose link is versioned. |
| Injector.RewriteCurrent | Granam/AssetsVersion/AssetsVersionInjector.php:36-41 | When the hash is PHP-empty or the link already carries it, the pass changes nothing and reports nothing. |
| Strings.ReplaceEnclosed | Granam/AssetsVersion/AssetsVersionInjector.php:43 | `str_replace` of a link enclosed as `pre` + quote + link + `post` rewrites only that occurrence, when the link holds no quote and occurs in neither `pre` nor `post`. |
| Injector.RewriteEnclosed | Granam/AssetsVersion/AssetsVersionInjector.php:43-45 | A token that encloses its link, where the link does not occur in the wrapper, is replaced everywhere in the content by the same wrapper around the versioned link. |
| Injector.LinkInWrapper | Granam/AssetsVersion/AssetsVersionInjector.php:43-45 | A link that occurs in its wrapper is versioned there too: the content `src="c"` becomes `src?version=<h>="c?version=<h>"`. |
| Injector.RewriteAll | Granam/AssetsVersion/AssetsVersionInjector.php:32-46 | The loop only ever adds diagnostics: exactly the lookups' diagnostics, summed over the tokens. That is at most two per token, and under `ignore` at most one per token, each a warning of `md5_file`. |
| Injector.Problems | Granam/AssetsVersion/AssetsVersionInjector.php:32-46 | The lookups of a list of tokens add at most two diagnostics per token, and at most one under `ignore`. |
| Injector.AddVersionsToAssetLinks | Granam/AssetsVersion/AssetsVersionInjector.php:23-48 | A completed rewrite carries exactly the lookups' diagnostics, summed over the tokens found: at most two per token, and under `ignore` only `md5_file`'s warnings, at most one per token. |
| Injector.AddVersions | Granam/AssetsVersion/AssetsVersionInjector.php:23-49 | The `foreach` over the tokens, stopping at the first exception, computes the fold `AddVersionsToAssetLinks`. |
| Injector.NoTokensUnchanged | Granam/AssetsVersion/AssetsVersionInjector.php:27-29 | Content without any reference comes back unchanged, with nothing reported. |
| Injector.RewriteAllFails | Granam/AssetsVersion/AssetsVersionInjector.php:31-46 | The loop throws if and only if the mode aborts and some token's link has no hash. |
| Injector.AddVersionsFails | Granam/AssetsVersion/AssetsVersionInjector.php:23-48 | The whole rewrite throws the parsing exception if and only if the mode aborts and some found reference cannot be hashed. |
| Injector.NothingResolves | Granam/AssetsVersion/AssetsVersionInjector.php:35-38 | When no link resolves and the mode does not abort, the content is unchanged. There is at least one report per token, unless problems are ignored, and `md5_file`'s warning for each file it cannot read. |
| Injector.AbsentTokenUnchanged | Granam/AssetsVersion/AssetsVersionInjector.php:43-45 | Only whole tokens are replaced. A token absent from the content changes nothing, even where its bare link occurs. |
| Injector.UpToDateUnchanged | Granam/AssetsVersion/AssetsVersionInjector.php:39-42 | When every token's link already carries its file's version, the content comes back unchanged and nothing is reported. |
| Strings.ReplaceAll | Granam/AssetsVersion/AssetsVersionInjector.php:43-45 | `str_replace` of a text by itself changes nothing. |
| Strings.ReplaceAllAbsent | Granam/AssetsVersion/AssetsVersionInjector.php:45 | `str_replace` changes nothing where the search text does not occur. |
| Strings.ReplaceAllIsImplodeExplode | Granam/AssetsVersion/AssetsVersionInjector.php:43-45 | `str_replace` equals `explode` on the search text followed by `implode` with the replacement. |

## Left out

- The file system and `md5_file` are the parameter `hashOf`. The model does
  not check that a hash is 32 hex digits. Like the code, it treats a hash of
  `""` or `"0"` as missing.
- `trigger_error` is a diagnostic in a list. What a PHP error handler does
  with it is not modelled, including one that throws.
- `parse_url` is modelled only as the split into path, query and fragment
  at the first `?` and `#`. A scheme, host, port or user is not recognised,
  so `http://h/a.css` has the path `http://h/a.css`. The `false` that
  `parse_url` returns for seriously malformed URLs is not modelled. Nor is
  its replacement of control characters in the path, query and fragment by
  `_`, which would show in the output because the fragment is written back
  after `##`.
- Injector.OpenWarning: the message of `md5_file`'s warning stops at
  "Failed to open stream"; the reason PHP appends (such as "No such file or
  directory") depends on the file system and is not modelled. Every file
  `hashOf` cannot hash is taken to fail at opening; a file that opens but
  cannot be read warns differently in PHP.
- Injector.FileMd5: a `Failure` carries only the exception. The diagnostics
  raised before it, such as `md5_file`'s warning, are not kept with it.
- `preg_match_all` and `preg_replace` are modelled only for the five
  patterns of the class. Their `false` result on a PCRE error is not
  modelled.
- Characters are Dafny `char`s, not bytes. `urlencode` copies code points
  above 255 unchanged, and multibyte encodings are not modelled.
- QueryMap.ChunkEntry: a chunk without `=` gets the value `""`. In PHP it is
  `null`, with an undefined-offset warning that is not modelled. Writing it
  back passes `null` to `urlencode`, which `strict_types` rejects. The model
  writes `name=` instead.
- QueryMap.Put: PHP turns a numeric name such as `1` into an integer key. It
  then passes that integer to `urlencode` when writing back, which
  `strict_types` rejects. The model keeps every name a string.
- Injector.AppendVersionQuery: requires a version free of `&` and `=`, and a
  link whose `#` does not precede its `?`. Otherwise the written-back query
  does not read back as the same parameters.
- Injector.AppendVersionIdempotent: requires a non-empty version free of
  `&` and `=`, which an md5 hash always is, and a link whose `#` does not
  precede its `?`. A link whose `#` comes first gains a new query on every
  run (`Injector.AppendVersionHashFirst`).
- Injector.AppendVersionUnchangedIff: requires a non-empty version free of
  `&` and `=`. An md5 hash always is.
- Scanner.UrlTokensShape: states a property every `url` token has, not an
  exact description of the `url` matches. It does not say, for example, that
  a `data:` in a `'`-quoted link is always rejected.
- Injector.AddVersionsFails: covers only the parsing exception. Under
  `strict_types`, a query chunk without `=` (as in `a.css?nocache`) or with
  a numeric name makes `urlencode` at line 106 throw a `TypeError`, in every
  mode. The model writes such chunks back instead (see
  `QueryMap.ChunkEntry` and `QueryMap.Put` above), so it does not show
  this failure.
- Injector.RewriteTokenResolved: requires a non-empty token, which every
  scanned token is (`Scanner.LinkTokens`, `Injector.ResolvedTokenNonEmpty`).
- The `StrictObject` base class, the exception class hierarchy and PHP
  types beyond strings are not modelled.
