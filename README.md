# S3 bucket content viewer — a Dafny model

This project models the request handling of a small Flask service that lists
the contents of one S3 bucket (app.py). Two routes exist:

- `GET /` returns the fixed text "Welcome to the S3 Bucket Content Viewer!"
  with status 200. It never touches the store.
- `GET /list-bucket-content/<path>` strips `/` from both ends of the path. It
  asks S3 for the keys under that prefix. For each key it drops the first
  `len(path)` characters and keeps the part before the first `/`. It answers
  404 when that list is empty and 200 with the list otherwise. Store
  exceptions are mapped to 403 or 500 by three `except` clauses, tried in
  order.

The model is one module, `BucketViewer` (bucket_viewer.dfy):

- The `list_objects_v2` call is an input, `Store = string -> StoreResult`.
  The handler queries it once, with the normalised path.
- A `StoreResult` is a listing with a `Contents` field (the keys, in order),
  a response without `Contents`, or a raised exception.
- An exception is a `StoreError`. It records whether it is a
  `NoCredentialsError`, whether it is a `PartialCredentialsError`, and its
  text `str(e)`. Both flags may hold at once. This is how the model shows
  that the first matching clause wins.
- Bodies are a datatype: `Text` for the welcome route, `Content(names)` for
  `{"content": [...]}`, and `Error(message)` for `{"error": "..."}`.
- The per-key `for` loop is the method `ExtractNames`. Its loop invariant
  ties the accumulated list to `Entries` on the keys processed so far.
  `ListBucketContent` is the handler as a method. It is proved equal to the
  function `Respond`, and the properties of the response are proved about
  `Respond`.

Facts about app.py that the model keeps:

- app.py has no bucket-not-found, access-denied or 400 cases. Every
  `Exception` other than the two credential errors gives 500 with the bare
  `str(e)`.
- The prefix does not end in `/`. So with path `docs`, the key
  `docs/a.txt` yields the empty name `""`, not `a.txt`. `EntriesExamples`
  shows that `docs/a.txt`, `docs/b.txt` and `docs/sub/c.txt` give
  `["", "", ""]`.
- Names are not deduplicated. Keys that share a first segment give repeated
  entries.

## Model

| member | source | states |
|---|---|---|
| `BucketViewer.Home` | app.py:14-15 | The welcome route always answers 200 with the fixed welcome text. It takes no store, so it queries nothing. |
| `BucketViewer.TrimLeading` | app.py:20 | The result is a suffix of the input. Everything removed is `/`. The result does not start with `/`. |
| `BucketViewer.TrimTrailing` | app.py:20 | The result is a prefix of the input. Everything removed is `/`. The result does not end with `/`. |
| `BucketViewer.Normalize` | app.py:20 | The normalised path has no `/` at either end. It is a contiguous slice of the input with only `/` before and after it (`IsStripOf`). |
| `BucketViewer.NormalizeIsStrip` | app.py:20 | The normalised path is a strip of its input at some offset. |
| `BucketViewer.StripOfTrims` | app.py:20 | Trimming the leading `/` and then the trailing `/` leaves a strip of the original string. |
| `BucketViewer.StripUnique` | app.py:20 | A string has at most one strip, so `strip('/')` is fully determined by `IsStripOf`. |
| `BucketViewer.NormalizeCharacterized` | app.py:20 | Any string that is a strip of the input is the normalised path. |
| `BucketViewer.NormalizeIdempotent` | app.py:20 | Normalising an already normalised path changes nothing. |
| `BucketViewer.NormalizeEmptyIff` | app.py:20 | A path normalises to `""` exactly when it consists only of `/`. |
| `BucketViewer.NormalizeExamples` | app.py:20 | `"/a/b/"` becomes `"a/b"`, so interior separators are kept. `"///"` becomes `""`. |
| `BucketViewer.FirstSegment` | app.py:29 | `s.split('/')[0]` is the prefix of `s` with no `/`, ending at the first `/` or at the end of `s`. |
| `BucketViewer.FirstSegmentOfJoin` | app.py:29 | For a `/`-free `name`, both `name + "/" + rest` and `name` have first segment `name`. |
| `BucketViewer.Entry` | app.py:29 | An entry contains no `/`. It is a prefix of `key[len(path):]` that stops at a `/` or at the end. Python's empty slice past the end is modelled too. |
| `BucketViewer.EntryOfShortKey` | app.py:29 | A key no longer than the path yields `""`, as Python's slice past the end is empty. |
| `BucketViewer.EntryOfPrefixedKey` | app.py:29 | For a key that starts with the path, the entry is the first segment of what follows the path. |
| `BucketViewer.EntryOfChildKey` | app.py:29 | A key `path + "/" + rest` yields the empty entry, not the child's name. |
| `BucketViewer.EntryAtTopLevel` | app.py:29 | With the empty path, the entry of `name + "/" + rest` is `name`, and so is the entry of a bare `name`. |
| `BucketViewer.Entries` | app.py:26-29 | There is exactly one name per key, in the store's order: the `i`-th name is the entry of the `i`-th key. |
| `BucketViewer.ExtractNames` | app.py:26-29 | The append loop builds exactly `Entries(keys, path)`. |
| `BucketViewer.EntriesExamples` | app.py:26-29 | Keys under `docs/` listed with path `docs` give `["", "", ""]`. Keys `a/x`, `a/y` and `b` with the empty path give `["a", "a", "b"]`, so nothing is deduplicated. |
| `BucketViewer.ListingResponse` | app.py:32-35 | The status is 200 exactly when the collected list is non-empty, and the body is then that list. Otherwise the status is 404 with "No content found for path '<path>'". |
| `BucketViewer.ErrorResponse` | app.py:37-42 | Every outcome is an error body; none carries content. The status is 403 exactly when one of the credential flags holds, and 500 with the exception text otherwise. `NoCredentialsError` wins over `PartialCredentialsError`. "Incomplete AWS credentials" is given exactly when only the partial flag holds. |
| `BucketViewer.Respond` | app.py:19-42 | The status is one of 200, 403, 404 and 500, and only 200 carries content. 200 happens exactly when a `Contents` field with at least one key is returned, and the body is then the entries of those keys. 404 happens exactly when `Contents` is absent or empty, and the message embeds the normalised path. A raised exception gives the ordered error mapping. |
| `BucketViewer.ListBucketContent` | app.py:19-42 | The handler, with its loop, returns exactly `Respond(rawPath, store)`. |
| `BucketViewer.RespondQueriesNormalizedPath` | app.py:20-24 | The response depends on the store only through what it returns for the normalised path. |
| `BucketViewer.RespondIgnoresOuterSeparators` | app.py:20 | A path and its normalised form get the same response. |

## Left out

- The Flask application, route decorators and `app.run` (app.py:5, 13, 17-18, 44-45) are HTTP server plumbing. The optional path segment defaulting to `""` is covered because `Respond` accepts any string, including the empty one.
- The boto3 client and the `list_objects_v2` network call (app.py:8, 24) are foreign I/O. They are replaced by the `Store` input. `BUCKET_NAME` does not appear in any response, so it is not modelled.
- `jsonify` serialisation is a library call. Bodies are the `Body` datatype.
- The text of `str(e)` comes from the library. It is an opaque string in `StoreError`.
- `StoreError` stands only for subclasses of `Exception`. Any other `BaseException` raised by the store call, such as `KeyboardInterrupt` or `SystemExit`, passes all three `except` clauses (app.py:37-42) and propagates out of the handler. The model has no such outcome.
- Exceptions are modelled only from the store call. `obj['Key']` and `jsonify` inside the `try` are taken not to raise.
- Pagination and truncation of S3 listings are not modelled, because the code does not handle them either.
- Concurrent requests and the shared global client are not modelled. The model holds no state between requests.
- Characters are Dafny's Unicode characters. `len` and slicing count code points, as Python's do.
