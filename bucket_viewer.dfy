/** A model of the S3 bucket content viewer: the `home` route and the
    `list_bucket_content` handler of app.py. The object store is not called;
    it is an input, a function from the prefix asked for to what
    `list_objects_v2` answers for it. */
module BucketViewer {

  /** The hierarchy separator of object keys and of listing paths. */
  const Sep: char := '/'

  const WelcomeMessage: string := "Welcome to the S3 Bucket Content Viewer!"
  const MissingCredentialsMessage: string := "AWS credentials are missing"
  const PartialCredentialsMessage: string := "Incomplete AWS credentials"

  /** An `Exception` raised by the store call, as the `except` clauses see it:
      whether it is an instance of NoCredentialsError, whether it is an
      instance of PartialCredentialsError, and its text `str(e)`. */
  datatype StoreError = StoreError(isNoCredentials: bool, isPartialCredentials: bool, text: string)

  /** What `list_objects_v2` does for one prefix. */
  datatype StoreResult =
    | Listed(keys: seq<string>)   // a response with a `Contents` field holding these keys, in order
    | NoContentsField             // a response without a `Contents` field
    | Raised(error: StoreError)   // the call raised an exception

  /** The body of an HTTP response: plain text, `{"content": [...]}` or `{"error": "..."}`. */
  datatype Body = Text(text: string) | Content(names: seq<string>) | Error(message: string)

  datatype Response = Response(status: int, body: Body)

  /** The store as the handler sees it: for each prefix, the outcome of listing it. */
  type Store = string -> StoreResult

  // ---------------------------------------------------------------------------
  // GET /

  /** The welcome route: a constant, and it takes no store. */
  function Home(): (r: Response)
    ensures r.status == 200 && r.body == Text(WelcomeMessage)
  {
    Response(200, Text(WelcomeMessage))
  }

  // ---------------------------------------------------------------------------
  // Path normalisation: `path.strip('/')`

  /** `s` with every leading separator removed. */
  function TrimLeading(s: string): (r: string)
    ensures |r| <= |s| && r == s[|s| - |r|..]
    ensures forall k :: 0 <= k < |s| - |r| ==> s[k] == Sep
    ensures r == [] || r[0] != Sep
  {
    if s != [] && s[0] == Sep then TrimLeading(s[1..]) else s
  }

  /** `s` with every trailing separator removed. */
  function TrimTrailing(s: string): (r: string)
    ensures |r| <= |s| && r == s[..|r|]
    ensures forall k :: |r| <= k < |s| ==> s[k] == Sep
    ensures r == [] || r[|r| - 1] != Sep
  {
    if s != [] && s[|s| - 1] == Sep then TrimTrailing(s[..|s| - 1]) else s
  }

  /** `r` is what stripping separators from both ends of `s` leaves, found at
      offset `i` of `s`: only separators lie before and after it, and `r`
      neither starts nor ends with one. */
  predicate IsStripOf(s: string, i: nat, r: string)
  {
    && i + |r| <= |s|
    && s[i..i + |r|] == r
    && (forall k :: 0 <= k < i ==> s[k] == Sep)
    && (forall k :: i + |r| <= k < |s| ==> s[k] == Sep)
    && (r == [] || (r[0] != Sep && r[|r| - 1] != Sep))
  }

  /** The handler's normalised path: a strip of `s` (`IsStripOf`). By
      `NormalizeCharacterized`, it is the only one. */
  function Normalize(s: string): (r: string)
    ensures r == [] || (r[0] != Sep && r[|r| - 1] != Sep)
    ensures IsStripOf(s, |s| - |TrimLeading(s)|, r)
  {
    var t := TrimLeading(s);
    StripOfTrims(s, t, TrimTrailing(t));
    TrimTrailing(t)
  }

  /** The two trims together strip `s`, at the offset the leading trim stops at. */
  lemma StripOfTrims(s: string, t: string, r: string)
    requires |t| <= |s| && t == s[|s| - |t|..]
    requires forall k :: 0 <= k < |s| - |t| ==> s[k] == Sep
    requires t == [] || t[0] != Sep
    requires |r| <= |t| && r == t[..|r|]
    requires forall k :: |r| <= k < |t| ==> t[k] == Sep
    requires r == [] || r[|r| - 1] != Sep
    ensures IsStripOf(s, |s| - |t|, r)
  {
    var i := |s| - |t|;
    assert s[i..i + |r|] == t[..|r|];
    forall k | i + |r| <= k < |s|
      ensures s[k] == Sep
    {
      assert s[k] == t[k - i];
    }
    if r != [] {
      assert r[0] == t[0];
    }
  }

  /** At most one string is a strip of `s`. */
  lemma StripUnique(s: string, i: nat, r: string, j: nat, q: string)
    requires IsStripOf(s, i, r) && IsStripOf(s, j, q)
    ensures r == q
  {
    if r != [] && q != [] {
      assert r[0] == s[i] && q[0] == s[j];
      assert i == j;
      assert r[|r| - 1] == s[i + |r| - 1] && q[|q| - 1] == s[j + |q| - 1];
      assert |r| == |q|;
    }
  }

  /** Normalisation is exactly stripping: any strip of `s` is `Normalize(s)`. */
  lemma NormalizeCharacterized(s: string, i: nat, r: string)
    requires IsStripOf(s, i, r)
    ensures Normalize(s) == r
  {
    StripUnique(s, i, r, |s| - |TrimLeading(s)|, Normalize(s));
  }

  /** The normalised path is a strip of its input, at some offset. */
  lemma NormalizeIsStrip(s: string)
    ensures exists i: nat :: IsStripOf(s, i, Normalize(s))
  {
    assert IsStripOf(s, |s| - |TrimLeading(s)|, Normalize(s));
  }

  /** Normalising twice is normalising once. */
  lemma NormalizeIdempotent(s: string)
    ensures Normalize(Normalize(s)) == Normalize(s)
  {
    var r := Normalize(s);
    assert r[0..|r|] == r;
    NormalizeCharacterized(r, 0, r);
  }

  /** A path normalises to the empty string exactly when it is made of separators only. */
  lemma NormalizeEmptyIff(s: string)
    ensures Normalize(s) == [] <==> forall k :: 0 <= k < |s| ==> s[k] == Sep
  {
    if forall k :: 0 <= k < |s| ==> s[k] == Sep {
      NormalizeCharacterized(s, 0, []);
    }
  }

  /** Interior separators are kept, outer ones removed. */
  lemma NormalizeExamples()
    ensures Normalize("/a/b/") == "a/b"
    ensures Normalize("///") == ""
  {
    var s := "/a/b/";
    assert s[1..4] == "a/b";
    assert IsStripOf(s, 1, "a/b");
    NormalizeCharacterized(s, 1, "a/b");
    NormalizeEmptyIff("///");
  }

  // ---------------------------------------------------------------------------
  // First-level name of one key: `obj['Key'][len(path):].split('/')[0]`

  /** `s.split('/')[0]`: the longest separator-free prefix of `s`. */
  function FirstSegment(s: string): (r: string)
    ensures |r| <= |s| && r == s[..|r|]
    ensures Sep !in r
    ensures |r| == |s| || s[|r|] == Sep
  {
    if s == [] || s[0] == Sep then [] else [s[0]] + FirstSegment(s[1..])
  }

  /** The separator-free name before the first separator is the first segment. */
  lemma {:induction false} FirstSegmentOfJoin(name: string, rest: string)
    requires Sep !in name
    ensures FirstSegment(name + [Sep] + rest) == name
    ensures FirstSegment(name) == name
  {
    if name != [] {
      assert (name + [Sep] + rest)[1..] == name[1..] + [Sep] + rest;
      assert name[0] in name;
      FirstSegmentOfJoin(name[1..], rest);
    }
  }

  /** Python's `key[n:]` for `n >= 0`: empty when `n` is past the end. */
  function Drop(key: string, n: nat): string
  {
    if n <= |key| then key[n..] else []
  }

  /** What the handler appends for `key` when the normalised path is `path`:
      a separator-free prefix of `key[len(path):]` that stops at its first
      separator or at its end. */
  function Entry(key: string, path: string): (e: string)
    ensures Sep !in e
    ensures |e| <= |Drop(key, |path|)| && e == Drop(key, |path|)[..|e|]
    ensures |e| == |Drop(key, |path|)| || Drop(key, |path|)[|e|] == Sep
  {
    FirstSegment(Drop(key, |path|))
  }

  /** A key no longer than the path yields the empty name, as Python's
      slice past the end is empty. */
  lemma EntryOfShortKey(key: string, path: string)
    requires |key| <= |path|
    ensures Entry(key, path) == ""
  {
  }

  /** For a key that starts with the path, as S3's prefix listing guarantees,
      the entry is the first segment of what follows the path. */
  lemma EntryOfPrefixedKey(path: string, rest: string)
    ensures Entry(path + rest, path) == FirstSegment(rest)
  {
    assert (path + rest)[|path|..] == rest;
  }

  /** A key `path + "/" + rest` yields the empty name, not the name of the child. */
  lemma EntryOfChildKey(path: string, rest: string)
    ensures Entry(path + [Sep] + rest, path) == ""
  {
    assert path + [Sep] + rest == path + ([Sep] + rest);
    EntryOfPrefixedKey(path, [Sep] + rest);
  }

  /** With the empty path, each entry is the key's first segment: a key
      `name + "/" + rest` or a bare `name` yields `name`. */
  lemma EntryAtTopLevel(name: string, rest: string)
    requires Sep !in name
    ensures Entry(name + [Sep] + rest, "") == name
    ensures Entry(name, "") == name
  {
    FirstSegmentOfJoin(name, rest);
  }

  // ---------------------------------------------------------------------------
  // The listing: one entry per key, in the store's order

  /** The names the handler collects for `keys`, in order, without deduplication. */
  function Entries(keys: seq<string>, path: string): (names: seq<string>)
    ensures |names| == |keys|
    ensures forall i :: 0 <= i < |keys| ==> names[i] == Entry(keys[i], path)
  {
    if keys == [] then []
    else Entries(keys[..|keys| - 1], path) + [Entry(keys[|keys| - 1], path)]
  }

  /** The `for` loop of the handler, appending one entry per key. */
  method ExtractNames(keys: seq<string>, path: string) returns (content: seq<string>)
    ensures content == Entries(keys, path)
  {
    content := [];
    for i := 0 to |keys|
      invariant content == Entries(keys[..i], path)
    {
      assert keys[..i + 1][..i] == keys[..i];
      content := content + [Entry(keys[i], path)];
    }
    assert keys[..|keys|] == keys;
  }

  /** Keys with the same first-level name give repeated entries. */
  lemma EntriesExamples()
    ensures Entries(["docs/a.txt", "docs/b.txt", "docs/sub/c.txt"], "docs") == ["", "", ""]
    ensures Entries(["a/x", "a/y", "b"], "") == ["a", "a", "b"]
  {
    EntryOfChildKey("docs", "a.txt");
    EntryOfChildKey("docs", "b.txt");
    EntryOfChildKey("docs", "sub/c.txt");
    EntryAtTopLevel("a", "x");
    EntryAtTopLevel("a", "y");
    EntryAtTopLevel("b", "");
  }

  // ---------------------------------------------------------------------------
  // Responses

  function NotFoundMessage(path: string): string
  {
    "No content found for path '" + path + "'"
  }

  /** The response built from the collected names: 404 when there are none. */
  function ListingResponse(path: string, content: seq<string>): (r: Response)
    ensures r.status == 200 <==> content != []
    ensures r.status == 200 ==> r.body == Content(content)
    ensures r.status != 200 ==> r == Response(404, Error(NotFoundMessage(path)))
  {
    if content == [] then Response(404, Error(NotFoundMessage(path)))
    else Response(200, Content(content))
  }

  /** The `except` clauses, tried top to bottom: the first that matches wins. */
  function ErrorResponse(e: StoreError): (r: Response)
    ensures r.body.Error?
    ensures r.status == 403 <==> e.isNoCredentials || e.isPartialCredentials
    ensures r.status != 403 ==> r.status == 500 && r.body.message == e.text
    ensures e.isNoCredentials ==> r.body.message == MissingCredentialsMessage
    ensures (r.status == 403 && r.body.message == PartialCredentialsMessage)
            <==> (!e.isNoCredentials && e.isPartialCredentials)
  {
    if e.isNoCredentials then Response(403, Error(MissingCredentialsMessage))
    else if e.isPartialCredentials then Response(403, Error(PartialCredentialsMessage))
    else Response(500, Error(e.text))
  }

  /** The response of `GET /list-bucket-content/<rawPath>` against `store`. */
  function Respond(rawPath: string, store: Store): (r: Response)
    ensures r.status in {200, 403, 404, 500}
    ensures r.body.Content? <==> r.status == 200
    ensures r.status == 200 <==>
            store(Normalize(rawPath)).Listed? && store(Normalize(rawPath)).keys != []
    ensures r.status == 200 ==>
            r.body == Content(Entries(store(Normalize(rawPath)).keys, Normalize(rawPath)))
    ensures r.status == 404 <==>
            store(Normalize(rawPath)) == NoContentsField || store(Normalize(rawPath)) == Listed([])
    ensures r.status == 404 ==> r.body == Error(NotFoundMessage(Normalize(rawPath)))
    ensures store(Normalize(rawPath)).Raised? ==> r == ErrorResponse(store(Normalize(rawPath)).error)
  {
    var path := Normalize(rawPath);
    match store(path)
    case Raised(e) => ErrorResponse(e)
    case NoContentsField => ListingResponse(path, [])
    case Listed(keys) => ListingResponse(path, Entries(keys, path))
  }

  /** The handler: normalise, query the store once, collect, then choose the response. */
  method ListBucketContent(rawPath: string, store: Store) returns (r: Response)
    ensures r == Respond(rawPath, store)
  {
    var path := Normalize(rawPath);
    var result := store(path);
    if result.Raised? {
      r := ErrorResponse(result.error);
    } else {
      var content := [];
      if result.Listed? {
        content := ExtractNames(result.keys, path);
      }
      r := ListingResponse(path, content);
    }
  }

  /** The response depends on the store only through the normalised prefix it is asked for. */
  lemma RespondQueriesNormalizedPath(rawPath: string, store1: Store, store2: Store)
    requires store1(Normalize(rawPath)) == store2(Normalize(rawPath))
    ensures Respond(rawPath, store1) == Respond(rawPath, store2)
  {
  }

  /** Paths that differ only in outer separators get the same response. */
  lemma RespondIgnoresOuterSeparators(rawPath: string, store: Store)
    ensures Respond(Normalize(rawPath), store) == Respond(rawPath, store)
  {
    NormalizeIdempotent(rawPath);
    RespondQueriesNormalizedPath(rawPath, store, store);
  }
}
