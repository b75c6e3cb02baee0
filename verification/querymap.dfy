/** The query handling of `appendVersionHashToLink`: the decoded query is
    split on `&`, each non-empty chunk gives a name (text before the first
    `=`) and a value (text between the first and second `=`), and the pairs
    are stored in a PHP array. A PHP array keeps insertion order and one
    entry per key, so a repeated name overwrites the value in place. */
module QueryMap {
  import opened Wrappers
  import opened Strings
  import opened UrlCodec

  datatype Entry = Entry(name: string, value: string)

  /** A PHP array from names to values, in insertion order. */
  type Query = seq<Entry>

  function Names(q: Query): (r: seq<string>)
    ensures |r| == |q|
    ensures forall k :: 0 <= k < |q| ==> r[k] == q[k].name
  {
    if |q| == 0 then [] else [q[0].name] + Names(q[1..])
  }

  /** No name occurs twice, as in any PHP array. */
  predicate UniqueNames(q: Query) {
    forall i, j :: 0 <= i < j < |q| ==> q[i].name != q[j].name
  }

  /** `q[k]` is the first entry named `name`. */
  predicate FirstWith(q: Query, name: string, k: nat) {
    k < |q| && q[k].name == name && forall j :: 0 <= j < k ==> q[j].name != name
  }

  /** `$q[name]`, or `None` when the key is not set. */
  function Get(q: Query, name: string): (r: Option<string>)
    ensures r.None? <==> name !in Names(q)
  {
    if |q| == 0 then None
    else if q[0].name == name then Some(q[0].value)
    else Get(q[1..], name)
  }

  /** A value read is the value of the first entry with that name. */
  lemma {:induction false} GetFirst(q: Query, name: string)
    ensures Get(q, name).Some? ==>
      exists k: nat :: FirstWith(q, name, k) && q[k].value == Get(q, name).value
    decreases |q|
  {
    if |q| > 0 && Get(q, name).Some? {
      if q[0].name == name {
        assert FirstWith(q, name, 0);
      } else {
        GetFirst(q[1..], name);
        var k: nat :| FirstWith(q[1..], name, k) && q[1..][k].value == Get(q[1..], name).value;
        assert FirstWith(q, name, k + 1);
      }
    }
  }

  /** `$q[name] = value`: an existing key keeps its position and takes the
      new value; a new key goes at the end. */
  function Put(q: Query, name: string, value: string): (r: Query)
    ensures Get(r, name) == Some(value)
    ensures forall n :: n != name ==> Get(r, n) == Get(q, n)
    decreases |q|
  {
    if |q| == 0 then [Entry(name, value)]
    else if q[0].name == name then [Entry(name, value)] + q[1..]
    else
      var rest := Put(q[1..], name, value);
      assert ([q[0]] + rest)[1..] == rest;
      [q[0]] + rest
  }

  /** Setting a key in the empty query gives one pair. */
  lemma PutIntoEmpty(q: Query, name: string, value: string)
    requires q == []
    ensures Put(q, name, value) == [Entry(name, value)]
  {
  }

  /** Writing the value a key already has changes nothing. */
  lemma {:induction false} PutExisting(q: Query, name: string, value: string)
    requires Get(q, name) == Some(value)
    ensures Put(q, name, value) == q
    decreases |q|
  {
    if q[0].name != name {
      PutExisting(q[1..], name, value);
    }
  }

  /** No encoded query holds a `#`. */
  lemma EncodedNoHashJoined(q: Query)
    ensures '#' !in Implode(EncodeEntries(q), "&")
  {
    var xs := EncodeEntries(q);
    forall k | 0 <= k < |xs|
      ensures '#' !in xs[k]
    {
      EncodeEntriesAt(q, k);
      EncodeEntryNoHash(q[k]);
    }
    ImplodeFree(xs, "&", '#');
  }

  lemma EncodeEntryNoHash(e: Entry)
    ensures '#' !in EncodeEntry(e)
  {
    EncodedNoHash(e.name);
    EncodedNoHash(e.value);
  }

  lemma EncodedNoHash(s: string)
    ensures '#' !in UrlEncode(s)
  {
    var r := UrlEncode(s);
    assert forall k :: 0 <= k < |r| ==> r[k] != '#';
  }

  lemma {:induction false} EncodeEntriesAt(q: Query, k: nat)
    requires k < |q|
    ensures EncodeEntries(q)[k] == EncodeEntry(q[k])
    decreases k
  {
    if k > 0 {
      EncodeEntriesAt(q[1..], k - 1);
    }
  }

  /** Overwriting keeps a key's position; a new key goes last. */
  lemma {:induction false} PutNames(q: Query, name: string, value: string)
    ensures Names(Put(q, name, value)) == if name in Names(q) then Names(q) else Names(q) + [name]
    decreases |q|
  {
    if |q| > 0 {
      assert Names(q) == [q[0].name] + Names(q[1..]);
      if q[0].name != name {
        PutNames(q[1..], name, value);
        PutNamesStep(q, name, value);
        assert name in Names(q) <==> name in Names(q[1..]);
        assert [q[0].name] + (Names(q[1..]) + [name]) == Names(q) + [name];
      } else {
        assert Names(Put(q, name, value)) == [name] + Names(q[1..]);
      }
    }
  }

  /** Past a first entry with another name, `Put` keeps that entry. */
  lemma PutNamesStep(q: Query, name: string, value: string)
    requires |q| > 0 && q[0].name != name
    ensures Names(Put(q, name, value)) == [q[0].name] + Names(Put(q[1..], name, value))
  {
    var rest := Put(q[1..], name, value);
    PutStep(q, name, value);
    assert ([q[0]] + rest)[1..] == rest;
  }

  lemma PutStep(q: Query, name: string, value: string)
    requires |q| > 0 && q[0].name != name
    ensures Put(q, name, value) == [q[0]] + Put(q[1..], name, value)
  {
  }

  lemma PutUnique(q: Query, name: string, value: string)
    requires UniqueNames(q)
    ensures UniqueNames(Put(q, name, value))
  {
    var r := Put(q, name, value);
    PutNames(q, name, value);
    forall i, j | 0 <= i < j < |r|
      ensures r[i].name != r[j].name
    {
      assert Names(r)[i] == r[i].name && Names(r)[j] == r[j].name;
      if j < |q| {
        assert Names(q)[i] == q[i].name && Names(q)[j] == q[j].name;
      } else {
        assert name !in Names(q);
        assert Names(q)[i] == q[i].name;
      }
    }
  }

  /** The characters that would split a chunk or a pair when a query is read
      back. */
  predicate Plain(s: string) {
    '&' !in s && '=' !in s
  }

  predicate PlainQuery(q: Query) {
    forall k :: 0 <= k < |q| ==> Plain(q[k].name) && Plain(q[k].value)
  }

  /** `[$name, $value] = explode('=', $chunk)`: the name is the text before
      the first `=`, the value the text up to the next `=` after it (the rest
      is dropped). A chunk without `=` has a `null` value, which behaves as
      the empty string from here on. */
  function ChunkEntry(chunk: string): (r: Entry)
    ensures r.name == Before(chunk, '=')
    ensures '=' !in chunk ==> r.value == ""
    ensures '=' in chunk ==> r.value == Before(chunk[|r.name| + 1..], '=')
    ensures Plain(r.name) == ('&' !in r.name) && Plain(r.value) == ('&' !in r.value)
  {
    var pieces := Explode(chunk, "=");
    ChunkPieces(chunk);
    Entry(pieces[0], if |pieces| > 1 then pieces[1] else "")
  }

  /** The first two pieces of `explode('=', chunk)`. */
  lemma ChunkPieces(chunk: string)
    ensures Explode(chunk, "=")[0] == Before(chunk, '=')
    ensures '=' !in chunk ==> |Explode(chunk, "=")| == 1
    ensures '=' in chunk ==>
      |Explode(chunk, "=")| > 1 && Explode(chunk, "=")[1] == Before(chunk[|Before(chunk, '=')| + 1..], '=')
  {
    var a := Before(chunk, '=');
    if a == chunk {
      ExplodeAccPiece(chunk, '=', "", "");
      assert "" + chunk == chunk;
    } else {
      var rest := chunk[|a| + 1..];
      assert chunk == a + "=" + rest;
      ExplodeAccPiece(a, '=', "", rest);
      assert "" + a == a;
      var b := Before(rest, '=');
      if b == rest {
        ExplodeAccPiece(rest, '=', "", "");
      } else {
        assert rest == b + "=" + rest[|b| + 1..];
        ExplodeAccPiece(b, '=', "", rest[|b| + 1..]);
      }
      assert "" + b == b;
    }
  }

  /** One step of the chunk loop: an empty chunk is skipped. */
  function AddChunk(q: Query, chunk: string): Query {
    if chunk == "" then q
    else Put(q, ChunkEntry(chunk).name, ChunkEntry(chunk).value)
  }

  /** The chunk loop, from the array built so far. */
  function Collect(q: Query, chunks: seq<string>): (r: Query)
    ensures UniqueNames(q) ==> UniqueNames(r)
    decreases |chunks|
  {
    if |chunks| == 0 then q
    else
      var c := chunks[0];
      if c != "" && UniqueNames(q) then
        PutUnique(q, ChunkEntry(c).name, ChunkEntry(c).value);
        Collect(AddChunk(q, c), chunks[1..])
      else Collect(AddChunk(q, c), chunks[1..])
  }

  /** The array built from a query string. */
  function ParseQuery(query: string): (r: Query)
    ensures UniqueNames(r)
  {
    Collect([], Explode(UrlDecode(query), "&"))
  }

  /** The query of an empty query string has no parameters. */
  lemma ParseQueryEmpty()
    ensures ParseQuery("") == []
  {
    assert UrlDecode("") == "";
    assert Explode("", "&") == ["" + ""];
    assert "" + "" == "";
  }

  /** One pair as `urlencode(name) . '=' . urlencode(value)`. */
  function EncodeEntry(e: Entry): string {
    UrlEncode(e.name) + "=" + UrlEncode(e.value)
  }

  function EncodeEntries(q: Query): (r: seq<string>)
    ensures |r| == |q|
  {
    if |q| == 0 then [] else [EncodeEntry(q[0])] + EncodeEntries(q[1..])
  }

  /** The query string written back: the encoded pairs joined by `&`. */
  function EncodeQuery(q: Query): (r: string)
    ensures '#' !in r
  {
    EncodedNoHashJoined(q);
    Implode(EncodeEntries(q), "&")
  }

  /** A single pair is written back without a separator. */
  lemma EncodeSingle(e: Entry)
    ensures EncodeQuery([e]) == EncodeEntry(e)
  {
    assert [e][1..] == [];
    assert EncodeEntries([e]) == [EncodeEntry(e)];
  }

  // ---------------------------------------------------------------------
  // Reference definitions: what the chunk loop is meant to compute.

  /** The value of the last non-empty chunk with this name: the last write
      wins. */
  function LastValue(chunks: seq<string>, name: string): Option<string>
    decreases |chunks|
  {
    if |chunks| == 0 then None
    else
      var c := chunks[|chunks| - 1];
      if c != "" && ChunkEntry(c).name == name then Some(ChunkEntry(c).value)
      else LastValue(chunks[..|chunks| - 1], name)
  }

  /** The names of the non-empty chunks, in order, repeats included. */
  function ChunkNames(chunks: seq<string>): seq<string>
    decreases |chunks|
  {
    if |chunks| == 0 then []
    else
      var c := chunks[|chunks| - 1];
      ChunkNames(chunks[..|chunks| - 1]) + (if c != "" then [ChunkEntry(c).name] else [])
  }

  /** Each element at its first occurrence only. */
  function Dedup(xs: seq<string>): seq<string>
    decreases |xs|
  {
    if |xs| == 0 then []
    else
      var init := xs[..|xs| - 1];
      Dedup(init) + (if xs[|xs| - 1] in init then [] else [xs[|xs| - 1]])
  }

  lemma {:induction false} DedupMembers(xs: seq<string>, x: string)
    ensures x in Dedup(xs) <==> x in xs
    decreases |xs|
  {
    if |xs| > 0 {
      var init := xs[..|xs| - 1];
      DedupMembers(init, x);
      assert xs == init + [xs[|xs| - 1]];
    }
  }

  /** The chunk loop run over one more chunk is one more step. */
  lemma {:induction false} CollectSnoc(q: Query, chunks: seq<string>, c: string)
    ensures Collect(q, chunks + [c]) == AddChunk(Collect(q, chunks), c)
    decreases |chunks|
  {
    if |chunks| == 0 {
      assert chunks + [c] == [c];
      assert [c][1..] == [];
    } else {
      assert (chunks + [c])[0] == chunks[0];
      assert (chunks + [c])[1..] == chunks[1..] + [c];
      CollectSnoc(AddChunk(q, chunks[0]), chunks[1..], c);
    }
  }

  /** Last write wins: the array holds, for each name, the value of the last
      chunk with that name, and nothing for a name no chunk has. */
  lemma {:induction false} CollectLastWins(chunks: seq<string>, name: string)
    ensures Get(Collect([], chunks), name) == LastValue(chunks, name)
    decreases |chunks|
  {
    if |chunks| > 0 {
      var init := chunks[..|chunks| - 1];
      var c := chunks[|chunks| - 1];
      assert chunks == init + [c];
      CollectSnoc([], init, c);
      CollectLastWins(init, name);
    }
  }

  /** First position kept: the array's keys are the chunk names in order of
      their first appearance. */
  lemma {:induction false} CollectKeyOrder(chunks: seq<string>)
    ensures Names(Collect([], chunks)) == Dedup(ChunkNames(chunks))
    decreases |chunks|
  {
    if |chunks| > 0 {
      var init := chunks[..|chunks| - 1];
      var c := chunks[|chunks| - 1];
      assert chunks == init + [c];
      CollectSnoc([], init, c);
      CollectKeyOrder(init);
      var ys := ChunkNames(init);
      var before := Collect([], init);
      if c != "" {
        var n := ChunkEntry(c).name;
        assert ChunkNames(chunks) == ys + [n];
        PutNames(before, n, ChunkEntry(c).value);
        DedupMembers(ys, n);
        DedupSnoc(ys, n);
        assert Names(Collect([], chunks)) == Names(before) + (if n in ys then [] else [n]);
      } else {
        assert ChunkNames(chunks) == ys;
        assert Collect([], chunks) == before;
      }
    }
  }

  lemma DedupSnoc(ys: seq<string>, n: string)
    ensures Dedup(ys + [n]) == Dedup(ys) + (if n in ys then [] else [n])
  {
    assert (ys + [n])[..|ys + [n]| - 1] == ys;
  }

  // ---------------------------------------------------------------------
  // Writing the array back and reading it again.

  /** The pairs written without encoding. */
  function PlainEntries(q: Query): (r: seq<string>)
    ensures |r| == |q|
  {
    if |q| == 0 then [] else [q[0].name + "=" + q[0].value] + PlainEntries(q[1..])
  }

  /** One encoded pair decodes to the plain pair, whatever follows it. */
  lemma DecodeEntry(e: Entry, tail: string)
    ensures UrlDecode(EncodeEntry(e) + tail) == e.name + "=" + e.value + UrlDecode(tail)
  {
    var a := UrlEncode(e.name);
    var b := UrlEncode(e.value);
    calc {
      UrlDecode(EncodeEntry(e) + tail);
      { assert EncodeEntry(e) + tail == a + ("=" + (b + tail)); }
      UrlDecode(a + ("=" + (b + tail)));
      { DecodeEncodedPrefix(e.name, "=" + (b + tail)); }
      e.name + UrlDecode("=" + (b + tail));
      { DecodeLiteral('=', b + tail); }
      e.name + ("=" + UrlDecode(b + tail));
      { DecodeEncodedPrefix(e.value, tail); }
      e.name + ("=" + (e.value + UrlDecode(tail)));
      { assert e.name + ("=" + (e.value + UrlDecode(tail))) == e.name + "=" + e.value + UrlDecode(tail); }
      e.name + "=" + e.value + UrlDecode(tail);
    }
  }

  lemma {:induction false} DecodeEncodedEntries(q: Query)
    requires |q| >= 1
    ensures UrlDecode(EncodeQuery(q)) == Implode(PlainEntries(q), "&")
    decreases |q|
  {
    if |q| == 1 {
      var e := q[0];
      assert EncodeEntries(q) == [EncodeEntry(e)];
      assert PlainEntries(q) == [e.name + "=" + e.value];
      DecodeEntry(e, "");
      assert EncodeEntry(e) + "" == EncodeEntry(e);
    } else {
      DecodeEncodedEntries(q[1..]);
      DecodeEntriesCons(q);
    }
  }

  lemma DecodeEntriesCons(q: Query)
    requires |q| >= 2
    requires UrlDecode(EncodeQuery(q[1..])) == Implode(PlainEntries(q[1..]), "&")
    ensures UrlDecode(EncodeQuery(q)) == Implode(PlainEntries(q), "&")
  {
    var e := q[0];
    var rest := EncodeQuery(q[1..]);
    EncodeQueryCons(q);
    DecodeEntry(e, "&" + rest);
    DecodeLiteral('&', rest);
    PlainEntriesCons(q);
  }

  lemma EncodeQueryCons(q: Query)
    requires |q| >= 2
    ensures EncodeQuery(q) == EncodeEntry(q[0]) + ("&" + EncodeQuery(q[1..]))
  {
    assert EncodeEntries(q) == [EncodeEntry(q[0])] + EncodeEntries(q[1..]);
    ImplodeCons(EncodeEntry(q[0]), EncodeEntries(q[1..]), "&");
  }

  lemma PlainEntriesCons(q: Query)
    requires |q| >= 2
    ensures Implode(PlainEntries(q), "&")
            == q[0].name + "=" + q[0].value + ("&" + Implode(PlainEntries(q[1..]), "&"))
  {
    var plain := q[0].name + "=" + q[0].value;
    assert PlainEntries(q) == [plain] + PlainEntries(q[1..]);
    ImplodeCons(plain, PlainEntries(q[1..]), "&");
  }

  lemma PlainChunk(e: Entry)
    requires Plain(e.name) && Plain(e.value)
    ensures ChunkEntry(e.name + "=" + e.value) == e
    ensures e.name + "=" + e.value != ""
  {
    var chunk := e.name + "=" + e.value;
    assert chunk[|e.name|] == '=';
    assert chunk[..|e.name|] == e.name;
    assert Before(chunk, '=') == e.name;
    assert chunk[|e.name| + 1..] == e.value;
  }

  lemma {:induction false} CollectPlain(acc: Query, q: Query)
    requires UniqueNames(acc + q)
    requires PlainQuery(q)
    ensures Collect(acc, PlainEntries(q)) == acc + q
    decreases |q|
  {
    if |q| == 0 {
      assert acc + q == acc;
    } else {
      var chunks := PlainEntries(q);
      CollectPlainStep(acc, q);
      assert chunks[1..] == PlainEntries(q[1..]);
      assert Collect(acc, chunks) == Collect(acc + [q[0]], PlainEntries(q[1..]));
      SplitFirst(acc, q);
      CollectPlain(acc + [q[0]], q[1..]);
    }
  }

  /** The first pair of a plain query, read back, goes at the end. */
  lemma CollectPlainStep(acc: Query, q: Query)
    requires |q| > 0
    requires UniqueNames(acc + q)
    requires PlainQuery(q)
    ensures PlainEntries(q)[0] != "" && AddChunk(acc, PlainEntries(q)[0]) == acc + [q[0]]
  {
    PlainChunk(q[0]);
    FreshName(acc, q);
    PutNew(acc, q[0].name, q[0].value);
  }

  lemma SplitFirst(acc: Query, q: Query)
    requires |q| > 0
    ensures acc + [q[0]] + q[1..] == acc + q
  {
    assert q == [q[0]] + q[1..];
  }

  lemma FreshName(acc: Query, q: Query)
    requires |q| > 0
    requires UniqueNames(acc + q)
    ensures q[0].name !in Names(acc)
  {
    forall k | 0 <= k < |acc|
      ensures acc[k].name != q[0].name
    {
      assert (acc + q)[k] == acc[k] && (acc + q)[|acc|] == q[0];
    }
  }

  lemma {:induction false} PutNew(q: Query, name: string, value: string)
    requires name !in Names(q)
    ensures Put(q, name, value) == q + [Entry(name, value)]
    decreases |q|
  {
    if |q| > 0 {
      assert Names(q) == [q[0].name] + Names(q[1..]);
      assert q[0].name != name;
      PutNew(q[1..], name, value);
      PutStep(q, name, value);
      assert q == [q[0]] + q[1..];
    }
  }

  /** Reading back what was written: an array whose names and values hold no
      `&` or `=` comes back unchanged, order included. */
  lemma ParseEncodeQuery(q: Query)
    requires UniqueNames(q)
    requires PlainQuery(q)
    ensures ParseQuery(EncodeQuery(q)) == q
  {
    if |q| == 0 {
      assert EncodeQuery(q) == "";
      ParseQueryEmpty();
    } else {
      DecodeEncodedEntries(q);
      forall k | 0 <= k < |PlainEntries(q)|
        ensures '&' !in PlainEntries(q)[k]
      {
        PlainEntriesFree(q, k);
      }
      ExplodeImplode(PlainEntries(q), '&');
      CollectPlain([], q);
      assert [] + q == q;
    }
  }

  lemma {:induction false} PlainEntriesFree(q: Query, k: nat)
    requires PlainQuery(q)
    requires k < |q|
    ensures PlainEntries(q)[k] == q[k].name + "=" + q[k].value
    ensures '&' !in PlainEntries(q)[k]
    decreases k
  {
    if k > 0 {
      PlainEntriesFree(q[1..], k - 1);
    }
  }

  /** Every name and value read from a query is free of `&` and `=`. */
  lemma ParseQueryPlain(query: string)
    ensures PlainQuery(ParseQuery(query))
  {
    var chunks := Explode(UrlDecode(query), "&");
    ExplodeFree(UrlDecode(query), '&');
    CollectPlainFrom([], chunks);
  }

  lemma {:induction false} CollectPlainFrom(q: Query, chunks: seq<string>)
    requires PlainQuery(q)
    requires forall k :: 0 <= k < |chunks| ==> '&' !in chunks[k]
    ensures PlainQuery(Collect(q, chunks))
    decreases |chunks|
  {
    if |chunks| > 0 {
      var c := chunks[0];
      if c != "" {
        var e := ChunkEntry(c);
        assert '&' !in e.name by { assert e.name == c[..|e.name|]; }
        if '=' in c {
          var tail := c[|e.name| + 1..];
          assert '&' !in tail by {
            forall k | 0 <= k < |tail| ensures tail[k] != '&' {
              assert tail[k] == c[|e.name| + 1 + k];
            }
          }
          assert '&' !in e.value by { assert e.value == tail[..|e.value|]; }
        }
        PutPlain(q, e.name, e.value);
      }
      CollectPlainFrom(AddChunk(q, c), chunks[1..]);
    }
  }

  lemma {:induction false} PutPlain(q: Query, name: string, value: string)
    requires PlainQuery(q)
    requires Plain(name) && Plain(value)
    ensures PlainQuery(Put(q, name, value))
    decreases |q|
  {
    if |q| > 0 && q[0].name != name {
      PutPlain(q[1..], name, value);
      var rest := Put(q[1..], name, value);
      assert Put(q, name, value) == [q[0]] + rest;
    }
  }
}
