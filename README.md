# Geolocation endpoint and protected-image gate, in Dafny

This project models the two pieces of request logic in the repository:

- **`/geo` (script.js).** `normalizeIP` turns the connection's address into
  the address to look up. It cuts off an IPv6 zone id, unwraps an
  IPv4-mapped address `::ffff:a.b.c.d` and maps `::1` to `127.0.0.1`. The
  handler then picks the `?ip=` override or the normalised address, asks the
  database, and shapes one of three answers:
  - a 400 `Could not determine IP`;
  - `found: false`;
  - `found: true` with the friendly `country`, `region`, `city` and
    `location` fields and the raw record.
- **serve-image.php.** The script serves an image from a protected
  directory. It checks, in this order:
  - the session flag (strictly `true`);
  - PHP `basename` of the `file` parameter;
  - the lower-cased `pathinfo` extension against the allow-list
    `jpg, jpeg, png, gif`;
  - whether the file exists.

  It answers 403, 404, or 200 with a content type chosen by extension and
  the file's bytes.

Layout:

- `wrappers.dfy`: `Option`.
- `strings.dfy`: the string primitives the sources rely on. These are
  JavaScript `indexOf`, `startsWith` and `split`, a last-occurrence search,
  and ASCII `strtolower`.
- `geo_lookup.dfy`: module `GeoLookup` (script.js).
- `image_gate.dfy`: module `ImageGate` (serve-image.php). It ends with four
  client scenarios as methods: a traversal request, a request without a
  session, a missing `<stem>.png` and an existing `<stem>.jpg`. Each calls
  `ServeImage` and asserts the response.

Modelling conventions:

- **JavaScript values.** An absent JavaScript value (`undefined` or `null`)
  is `None`. A string is truthy when it is present and non-empty. A chain
  `a || b || null` is `FirstTruthy([a, b])`.
- **The database lookup** is a parameter `lookup: string -> LookupOutcome`
  that returns `Found(record)`, `Absent` or `Threw`.
- **The PHP session entry** is an `Option<PhpValue>`, so that the strict
  `=== true` comparison can be stated. `None` means the entry is unset.
- **PHP effects.** `file_exists` and `readfile` become the parameters
  `fileExists` and `contents`. The `header`/`exit` pairs become the returned
  `Response`.
- **File-system paths.** To say what path the file system opens, paths are
  read POSIX-style:
  - `Segments` splits a path at `/`.
  - `Resolve` walks the pieces: empty and `.` stay put, `..` climbs one
    level, and any other name descends.

Where the code and its surrounding description differ, the model follows the
code:

- The 400 response happens only when both the override and the normalised
  connection address are falsy. An address that normalises to `""`, such as
  `::ffff:` alone or `%eth0`, also ends in 400.
- `::ffff:X` yields `X` only when `X` holds no further `::ffff:`. The result
  of `split` stops at the next occurrence, so `::ffff:a::ffff:b` gives `a`.
- `normalizeIP` is not idempotent. `::ffff:::1` gives `::1`, which a second
  pass would turn into `127.0.0.1`.
- The `?ip=` override is used verbatim, without normalisation.

## Model

| member | source | states |
|---|---|---|
| GeoLookup.NormalizeIP | script.js:34-47 | the result is null exactly when the input is falsy (absent or the empty string) |
| GeoLookup.UnzonedHasNoPercent | script.js:37-38 | cutting the address at its first `%` leaves no `%` |
| GeoLookup.NormalizedHasNoPercent | script.js:37-43 | a normalised address never contains `%`, whichever branch produced it |
| GeoLookup.FirstPercentAt | script.js:37-38 | in `a%z` with no `%` in `a`, the first `%` is right after `a` and the slice before it is `a` |
| GeoLookup.ZoneDiscarded | script.js:37-38 | everything from the first `%` on is discarded before any other rule applies: `a%z` normalises like `a` |
| GeoLookup.ZoneOnlyIsEmpty | script.js:35-38 | a zone id alone (`%eth0`) normalises to the empty string, not to null |
| GeoLookup.MappedUnwrapped | script.js:37-43 | for X with neither `%` nor `::ffff:`, both `::ffff:X` and `::ffff:X%zone` normalise to exactly X |
| GeoLookup.LoopbackMapped | script.js:37-38 | `::1`, with or without a zone suffix, normalises to `127.0.0.1` |
| GeoLookup.OtherAddressUnchanged | script.js:46 | a non-empty address with no `%` that neither starts with `::ffff:` nor equals `::1` is returned unchanged |
| GeoLookup.NotIdempotent | script.js:41-45 | `::ffff:::1` normalises to `::1`, and normalising again gives `127.0.0.1`, so normalisation is not idempotent |
| GeoLookup.MappedStopsAtNextPrefix | script.js:41-42 | `::ffff:` + X + `::ffff:` + Y (X without `:` or `%`, Y without `%`) normalises to X: only the piece up to the next `::ffff:` survives |
| GeoLookup.MappedStopsExample | script.js:41-42 | `::ffff:a::ffff:b` normalises to `a` |
| Strings.IndexOf | script.js:37 | `indexOf`: the result is -1 or a position at or after `from` where the pattern occurs, with no occurrence between `from` and the result (and none at all when -1) |
| Strings.StartsWith | script.js:41 | `startsWith`: true exactly when the prefix occurs at index 0 |
| Strings.StartsWithIsPrefix | script.js:41 | `startsWith` holds exactly when the string is the prefix followed by some text |
| Strings.IndexOfChar | script.js:37 | `indexOf` of a single character: -1 exactly when the character is absent, otherwise the position of its first occurrence |
| Strings.Split | script.js:42 | `split`: at least one piece, joining the pieces with the separator gives back the input, no piece contains the separator, every cut is at the leftmost occurrence (no occurrence starts inside a piece and runs into the separator that follows it), and an input that starts with the separator gives an empty first piece followed by at least one more |
| GeoLookup.StatusCode | script.js:60-99 | 400 exactly for the error response, 200 otherwise |
| GeoLookup.FirstTruthy | script.js:81-83 | the JavaScript or-chain of the candidates ending in null: null exactly when every candidate is falsy; otherwise the first non-empty candidate, which is non-empty |
| GeoLookup.FirstTruthyOfTwo | script.js:81-83 | the or-chain of `a`, `b` and null is `a` when `a` is truthy, else `b` when `b` is, else null |
| GeoLookup.CountryName | script.js:81 | `country` is the English name when non-empty, else the ISO code when non-empty, else null (an empty name falls back) |
| GeoLookup.RegionName | script.js:83 | `region` is the first subdivision's English name when non-empty, else its ISO code when non-empty, else null; it is non-null only when there is a first subdivision |
| GeoLookup.CityName | script.js:82 | `city` is non-null exactly when the city's English name is non-empty, and is then that name |
| GeoLookup.LocationOf | script.js:84-89 | `location` is null exactly when the record has none, otherwise a copy of latitude, longitude, time zone and accuracy radius |
| GeoLookup.HandleGeo | script.js:53-99 | 400 with `Could not determine IP` exactly when both the override and the normalised address are falsy; a non-empty override is the lookup address verbatim, otherwise the normalised address; `found: false` with `No data for this IP in DB` exactly when the lookup yields no record; otherwise the response carries that record as `raw` and the fields derived from it |
| GeoLookup.ThrowLikeAbsent | script.js:64-78 | two lookups that agree on every record found, whatever they do otherwise (throw or return nothing), give the same response |
| GeoLookup.OverrideNotNormalized | script.js:57-58 | the override `::1` is looked up as `::1`, though normalisation would have changed it |
| GeoLookup.EmptyNormalizationIsBadRequest | script.js:35-62 | with no override, `::ffff:` alone and a zone id alone both end in 400 `Could not determine IP` |
| ImageGate.StatusCode | serve-image.php:6-52 | 403, 404 and 200 correspond exactly to the three responses |
| ImageGate.IsAuthenticated | serve-image.php:6 | the session check passes exactly when the entry is set to the boolean `true` |
| ImageGate.OnlyStrictTrueAuthenticates | serve-image.php:6 | the loosely true values `1` and `"1"` and an unset entry are all refused by the strict check |
| ImageGate.StripTrailingSlashes | serve-image.php:18 | the result is a prefix of the path, does not end in `/`, and only `/` characters were removed |
| ImageGate.Basename | serve-image.php:18 | the base name contains no `/` and is no longer than the path |
| ImageGate.BasenameOfComponent | serve-image.php:18 | a name without `/` is its own base name |
| ImageGate.BasenameIgnoresTrailingSlash | serve-image.php:18 | a trailing `/` does not change the base name |
| ImageGate.BasenameDropsDirectories | serve-image.php:18 | `dir/name` has base name `name`, for any directory part |
| ImageGate.TraversalReduced | serve-image.php:18-30 | `<dirs>/<stem>` (such as `../../etc/passwd`) is reduced to `<stem>`; with no `.` in the stem its extension is empty and is refused |
| ImageGate.Extension | serve-image.php:24 | the extension contains neither `.` nor `/`; it is empty when the base name has no `.`; when the base name has a `.`, it is the suffix of the base name that directly follows a `.`, and since it holds no `.` that is the last one |
| ImageGate.AfterLastDot | serve-image.php:24 | the text after a `.` in a base name is a suffix of it, directly preceded by that `.`, and holds no `/` |
| ImageGate.RequestedExtension | serve-image.php:24 | the extension lower-cased character by character: same length, no `.` or `/`, and empty when the base name has no `.` |
| ImageGate.Allowed | serve-image.php:21-27 | an extension in the allow-list is non-empty and made of lower-case ASCII letters only, so an upper-case extension passes only after lower-casing |
| Strings.LastIndexOf | serve-image.php:18-24 | the last index of a character (the last `/` inside `basename`, the last `.` inside `pathinfo`), or -1 exactly when it does not occur; nothing after it is that character |
| ImageGate.ExtensionOfName | serve-image.php:18-24 | `stem.ext` (no `/`, no `.` in `ext`) is its own base name and has extension `ext` |
| ImageGate.UpperCaseAccepted | serve-image.php:24-27 | for any stem without `/`, `<stem>.PNG` (such as `A.PNG`) has requested extension `png`, which the allow-list accepts |
| ImageGate.MissingFileRejected | serve-image.php:15-30 | a missing `file` parameter becomes `''`, whose extension is empty and refused |
| Strings.ToLower | serve-image.php:24 | `strtolower`: same length, each character lower-cased (ASCII) |
| Strings.ToLowerOfLower | serve-image.php:24-27 | lower-casing a string with no upper-case letter leaves it unchanged |
| ImageGate.AllowedNameIsSafe | serve-image.php:18-33 | any base name that passes the allow-list is non-empty, contains no `/`, and is neither `.` nor `..` |
| ImageGate.ChildOfDirectory | serve-image.php:12-33 | appending such a safe name to a directory path ending in `/` resolves to a direct child of that directory |
| ImageGate.OpenedPathIsChildOfImagesDir | serve-image.php:12-36 | for any `file` whose base name passes the allow-list, `$imagesDir . $filename` resolves to a direct child of the image directory named by that base name |
| ImageGate.AppendComponent | serve-image.php:33 | appending `/c` to a path takes one resolution step by `c` |
| ImageGate.ClimbOne | serve-image.php:18-33 | appending `/..` climbs one level out of a non-empty directory chain |
| ImageGate.DescendOne | serve-image.php:33 | appending a safe name descends one level into it |
| ImageGate.ClimbTwice | serve-image.php:18-33 | appending `/../..` climbs two levels |
| ImageGate.TraversalEscapesWithoutBasename | serve-image.php:18-33 | without `basename`, `dir/../../a/b` (such as `dir/../../etc/passwd`) names `a/b` two levels above `dir` |
| ImageGate.ContentTypeFor | serve-image.php:42-47 | the content type is always one of `image/jpeg`, `image/png` and `image/gif`; for an allowed extension it is `image/` followed by the extension, with `jpg` giving `jpeg` |
| ImageGate.ServeImage | serve-image.php:6-52 | checks run in order (session, extension, existence): no session gives 403 whatever the file; a refused extension gives 403; 404 exactly when session and extension pass and the file is missing; 200 exactly when all pass, with a safe base name, the content type for the extension and the bytes of that file |

## Left out

- Express wiring is not modelled: static files, `trust proxy`, `app.listen`,
  the asynchronous database opening and `process.exit`. These are framework
  set-up and I/O.
- The MaxMind lookup itself is not modelled. It is the abstract `lookup`
  parameter.
- How `req.ip`, `req.socket.remoteAddress` and `req.connection.remoteAddress`
  are chosen (script.js:53) is not modelled. The result of that chain is the
  `rawIp` input.
- Logging with `console.warn` is not modelled.
- Latitude and longitude are copied as opaque `real` values, and nothing is
  computed with them. `metroCode` stands for the other record fields the
  response drops.
- A `?ip=` or `?file=` given as an array is not modelled. Both are taken as
  strings or absent.
- PHP `session_start`, `header` and the `exit` calls are represented by the
  returned `Response`.
- `file_exists` and `readfile` are the `fileExists` and `contents`
  parameters.
- Windows `\` separators, locale-dependent and multibyte `strtolower`, and
  the multibyte behaviour of `basename` are not modelled. Only POSIX paths
  and ASCII case are.
- Symbolic links are not modelled. `Resolve` reads paths lexically.
- Localised names other than English are not modelled, because the response
  reads only `names.en`.
