# Demo web application back end: stress controller, image store, S3 helpers, provider routes

This project models the request-handling core of a small Express application
used to demonstrate AWS architecture. Four parts are modelled:

- **The CPU stress controller** (`routes/stress.js`). `/start` fills a pool of
  worker threads unless one is already running, and `/stop` sends every worker
  `'stop'`, terminates it and empties the pool. `/status` reports the pool, a
  CPU-usage figure computed from per-core tick counters, and the EC2 instance
  id. The id is fetched from the metadata service and memoised.
- **The EFS image store** (`routes/efs.js`). It chooses the EFS mount point or
  a fallback directory. The listing keeps image file names only and gives one
  record per file, sorted newest first. The upload handler guards against a
  missing file, generates the stored name and moves the temporary file into
  place.
- **The S3 helpers** (`db/s3.js`). One builds the object key of a product
  image. The other returns a pre-signed url for a stored key, or the empty
  string for a missing key.
- **The provider routes** (`routes/providers.js`). POST validates the body and
  defaults the city. The other routes shape each reply around one SQL query.

Modules:

| file | module | form |
|---|---|---|
| `results.dfy` | `Results` | Option and Result |
| `js.dfy` | `Js` | the JavaScript and Node.js built-ins used: truthiness, or-defaulting, decimal rendering of a timestamp, ASCII case folding, `split('.').pop()`, `path.extname`, `substring` |
| `stress.dfy` | `Stress` | A class `StressController`. Its fields are the pool, the handle counter, the log of worker events, the cached instance id and the log of metadata requests. `getCPUUsage` is a method with its loop. |
| `efs.dfy` | `Efs` | functions: the handlers only compute a reply from what the file system answers |
| `s3.dfy` | `S3` | functions producing the request sent to S3 or the signer, and what the promise settles to |
| `providers.dfy` | `Providers` | functions producing the query sent to the pool and the reply |

Everything outside the process is an input to these functions rather than a
call the model makes:
- the file system, S3, the signer, the SQL pool and the metadata service;
- `Date.now()`, `Math.random().toString(36)` and `os.cpus()`.

A worker thread is an opaque handle issued by a counter.

getInstanceId caches only an id the metadata service returned. The
`local-dev` fallback is returned from the catch block without being stored
(routes/stress.js:47-49), so a later call asks the service again. The model
follows this code, and `Stress.FallbackIsRetried` states it.

## Model

| member | source | states |
|---|---|---|
| `Js.AfterLast` | db/s3.js:8 | `split('.').pop()`: the result is a suffix of the input and holds no `.`. When it is shorter than the input, the character before it is the last `.`. |
| `Js.LastIndexOf` | db/s3.js:8 | The index found holds the character, and no later index does. The result is -1 when there is none. |
| `Js.LastIndexUnique` | db/s3.js:8 | Any index with the last-occurrence property is the one LastIndexOf returns. |
| `Js.AfterLastConcat` | db/s3.js:8 | Text in front of a part that contains the separator does not change what follows the last separator. |
| `Js.AfterLastDotTail` | db/s3.js:8 | For `stem + "." + tail` with a dot-free tail, the text after the last `.` is the tail and the text before it is the stem. |
| `Js.DecimalString` | routes/efs.js:75 | `${Date.now()}`: non-empty, all digits, no leading zero. |
| `Js.DecimalRoundTrip` | routes/efs.js:75 | Reading the decimal rendering back gives the number. |
| `Js.DecimalStringInjective` | db/s3.js:8 | Different timestamps render differently. |
| `Js.Lower` | routes/efs.js:33 | The `i` flag's folding: the same length, each character folded. |
| `Js.LowerAfterLast` | routes/efs.js:33 | Folding case and taking the text after the last `.` commute. |
| `Js.EndsWithDotExt` | routes/efs.js:33 | For a dot-free ext, ending in `"." + ext` is the same as having a `.` followed by exactly `ext`. This holds in both directions. |
| `Js.TrimEnd` | routes/efs.js:74 | Trailing separators are dropped. The result is a prefix that does not end in one, and everything removed was a separator. |
| `Js.Or` | routes/providers.js:16 | The or operator on values gives the first operand when it is truthy and the second otherwise. The result is truthy exactly when one of the operands is. |
| `Js.Extname` | routes/efs.js:74 | `path.extname` (POSIX): empty, or a `.` followed by text with no `.` and no `/`. A non-empty extension ends the path once trailing `/` are dropped. |
| `Js.ExtnameOfName` | routes/efs.js:74 | For a name without `/`, other than `..`, whose last `.` is not its first character, the extension is that `.` and all text after it. |
| `Js.ExtnameOfNameNone` | routes/efs.js:74 | A name without `/` that has no `.`, or whose only `.` leads it, has an empty extension. |
| `Js.ExtnameAfterPlainPrefix` | routes/efs.js:74-75 | Placing a name without `.` or `/` in front of an extension-shaped text gives a path whose extname is that text. |
| `Js.Substring` | routes/efs.js:75 | `substring(k)`: the suffix from k, or empty when k is past the end. |
| `Stress.RequestedWorkers` | routes/stress.js:76 | The body's `workers` or-defaulted to the core count: the core count when the body's count is missing or 0, else the body's count. |
| `Stress.StopEvents` | routes/stress.js:92-95 | Two events per worker, and event i concerns worker i/2 of the pool. |
| `Stress.StopEventsAt` | routes/stress.js:92-95 | Worker i is sent `'stop'` at step 2i and terminated at step 2i+1, two steps per worker. |
| `Stress.StopEventsOnce` | routes/stress.js:92-95 | Of distinct workers, each is stopped exactly once and terminated exactly once, and no other worker is touched. |
| `Stress.Ticks` | routes/stress.js:58-60 | A core's total counts its idle ticks among the five kinds. |
| `Stress.TotalIdle` | routes/stress.js:57-62 | The idle sum over all cores is at least each core's idle count. |
| `Stress.TotalTick` | routes/stress.js:57-62 | The tick sum over all cores is at least each core's total. |
| `Stress.IdleWithinTotal` | routes/stress.js:57-62 | Summed idle ticks never exceed summed total ticks. |
| `Stress.Clamp` | routes/stress.js:69 | `Math.max(0, Math.min(100, x))` lies in [0,100] and is x when x already does. |
| `Stress.Usage` | routes/stress.js:64-69 | The usage figure always lies in [0,100]; the no-tick case is stated by `Stress.UsageNoTicks`. |
| `Stress.UsageNoTicks` | routes/stress.js:64-69 | With no ticks the quotient is NaN, `~~` makes it 0, and the usage is 100. |
| `Stress.UsageUnclamped` | routes/stress.js:64-69 | With idle inside the total, the clamp is inactive. The usage is 100 minus the truncated idle percentage: 100 when fully busy, 0 when fully idle. |
| `Stress.GetCpuUsage` | routes/stress.js:53-72 | The loop's sums are the idle and total ticks over all cores. The reading reports the core count and the usage of those sums, within [0,100]: 100 minus the truncated idle percentage, or 100 when there are no ticks. |
| `Stress.CacheHit` | routes/stress.js:13 | The cache test is JavaScript truthiness of the cached value: null and the empty string miss, any other string hits. |
| `Stress.ResolveInstanceId` | routes/stress.js:12-50 | A cached non-empty id is returned with no request. Otherwise the token PUT comes first, then the id GET with that token. Any failure gives `local-dev` and leaves the cache as it was. A fetched id, even an empty one, is cached. |
| `Stress.FallbackIsRetried` | routes/stress.js:33-49 | `local-dev` is never cached, so a later call that reaches the service returns and caches the real id. |
| `Stress.CachedIdIsStable` | routes/stress.js:13 | A cached non-empty id is returned with no request, whatever the service would answer. |
| `Stress.EmptyIdIsRefetched` | routes/stress.js:13 | A cached empty id is falsy, so the service is asked again, whatever it answers. |
| `Stress.StressController.constructor` | routes/stress.js:7-9 | Starts with no workers, no cached id and no events. |
| `Stress.StressController.Start` | routes/stress.js:75-88 | A running pool is left alone and reported "already running" with its size. An empty pool gets max(n, 0) fresh distinct workers for the requested n, reported "started" with that count. |
| `Stress.StressController.Stop` | routes/stress.js:91-99 | Each worker in turn gets `'stop'` then is terminated, in pool order. The pool ends empty, and the reply is "Stress test stopped". |
| `Stress.StressController.GetInstanceId` | routes/stress.js:12-50 | The id, the cache and the requests made are those of ResolveInstanceId on the previous cache. |
| `Stress.StressController.Status` | routes/stress.js:102-112 | `running` is true exactly when workers exist. The count, the usage and the core count are reported, and the id comes from getInstanceId. |
| `Stress.StartThenStatus` | routes/stress.js:75-112 | Starting an empty pool with N ≥ 1 workers makes the status report running with N workers. |
| `Stress.StartTwice` | routes/stress.js:78-80 | A second start without a stop changes nothing and reports the first start's pool. |
| `Stress.StopTwice` | routes/stress.js:91-99 | A second stop emits no events. |
| `Efs.StorageDir` | routes/efs.js:13-25 | The EFS mount point when accessible. Otherwise the fallback directory, which fails only when it is missing and mkdir fails. |
| `Efs.CreatesFallback` | routes/efs.js:18-22 | mkdir is tried only when the EFS mount is unreachable, and it is tried whenever choosing the directory fails. |
| `Efs.ImageExtensionByTail` | routes/efs.js:33 | The regex's anchored alternatives match exactly when the text after the last `.` is one of the five extensions. |
| `Efs.IsImageName` | routes/efs.js:33 | A file is listed exactly when it has a `.` and the text after its last `.` is jpg, jpeg, png, gif or webp in any letter case. |
| `Efs.ImageFiles` | routes/efs.js:32-34 | The filter keeps exactly the image names, with their multiplicities. |
| `Efs.ImageFilesAppend` | routes/efs.js:32-34 | The filter keeps readdir's order: filtering a concatenation concatenates the filtered parts. |
| `Efs.Record` | routes/efs.js:37-52 | The record carries the file name and `/efs/image/<name>`. Its date is the mtime, or null when stat failed. |
| `Efs.Records` | routes/efs.js:36-53 | There is one record per file, in order. |
| `Efs.DateKey` | routes/efs.js:56 | The sort key is the mtime, and a null date counts as time 0, as `new Date(null)` does. |
| `Efs.NewestFirstOrdered` | routes/efs.js:55-57 | A newest-first list is ordered between any two positions. |
| `Efs.WithKeyAppend` | routes/efs.js:55-57 | Selecting the records of one date distributes over concatenation. |
| `Efs.ConsNewestFirst` | routes/efs.js:55-57 | A record no older than the head may go in front. |
| `Efs.Insert` | routes/efs.js:55-57 | Insertion keeps the list newest first, adds one record, and puts the new one first only when it is strictly newer. |
| `Efs.InsertPermutes` | routes/efs.js:55-57 | Insertion adds exactly the new record. |
| `Efs.InsertAfterEqual` | routes/efs.js:55-57 | An inserted record lands after the records of its own date. |
| `Efs.SortNewestFirst` | routes/efs.js:55-57 | The sort's result is newest first (null dates as 0) and a permutation of its input. |
| `Efs.SortIsStable` | routes/efs.js:55-57 | Records with the same date keep their relative order. |
| `Efs.ListImages` | routes/efs.js:28-62 | 500 exactly when the directory cannot be chosen or read. Otherwise a newest-first list. |
| `Efs.ListingContents` | routes/efs.js:30-57 | Every listed record is the record of an image file of the directory. Each image file appears as many times as readdir returned it. |
| `Efs.RecordsCount` | routes/efs.js:36-53 | A file's record occurs as often as the file name. |
| `Efs.GeneratedPrefixPlain` | routes/efs.js:75 | The timestamp, the dash and the random tag contain no `.` and no `/`. |
| `Efs.ImageNameAfterPlainPrefix` | routes/efs.js:33 | A dot-free prefix does not change the regex's verdict on an extension. |
| `Efs.StoredFilename` | routes/efs.js:75 | The generated name is the timestamp and a dash, then the random tag from its eighth character on, then the original name's extension: each part can be read back at its position. |
| `Efs.JoinPath` | routes/efs.js:76 | The destination lies under the storage directory, and for a plain name its base name is that name. |
| `Efs.StoredFilenameExtension` | routes/efs.js:74-75 | The stored name's extension is the original's. The stored file is listed exactly when that extension is an image extension. |
| `Efs.Upload` | routes/efs.js:65-101 | No file gives 400 "No file uploaded" with no file-system step. Every other failure gives 500. Success happens exactly when the directory, the copy and the unlink all succeed. When a temporary path exists, the last step always removes it. |
| `Efs.Store` | routes/efs.js:73-99 | The handler after the guard: 500 on any failure, success exactly when every step succeeds, and the temporary file removed last. |
| `Efs.StoreSucceeds` | routes/efs.js:76-90 | On success, the reply carries the name and its url. The last two steps copy to `<dir>/<name>` and then unlink the temporary file. The fallback is created only when EFS is unreachable and the directory is missing. |
| `Efs.UploadSucceeds` | routes/efs.js:73-90 | A successful upload replies with the generated name and url, and moves the file there. |
| `S3.ObjectKey` | db/s3.js:8 | The key's text after its last `.` is the original name's `split('.').pop()`. The text before it is `products/<productId>-<timestamp>`. |
| `S3.ObjectKeyDistinctTimes` | db/s3.js:8 | Same product, same file: equal keys only for equal timestamps. |
| `S3.DotJoin` | db/s3.js:8 | In `stem + "." + tail` with a dot-free tail, the tail follows the last `.` and the stem precedes it. |
| `S3.UploadImage` | db/s3.js:7-18 | The put carries the bucket, the generated key, the bytes and the mimetype. The promise resolves to the very key put, or rejects with the client's error. |
| `S3.GetImageUrl` | db/s3.js:20-27 | A falsy key gives `''` and no signing request. Any other key is signed as given for the bucket with a 3600-second expiry. |
| `S3.UploadedKeyIsSigned` | db/s3.js:17-21 | A key returned by uploadImage is never empty, so it is always signed. |
| `Providers.CreateProvider` | routes/providers.js:5-23 | 400 with the fixed message and no query exactly when the id or the name is falsy. Otherwise the insert of (id, name, city or-defaulted to null) is sent. A failure gives 500 with the error's message and detail; success gives "Provider created" echoing the id. |
| `Providers.CreateStoresCityOrNull` | routes/providers.js:15-16 | The stored city is null exactly when the given city is falsy, and is the given city otherwise. |
| `Providers.ListProviders` | routes/providers.js:25-35 | All rows, or 500 with the message. |
| `Providers.GetProvider` | routes/providers.js:37-44 | Queries by the path id. Replies with the first row, `{}` when no row matches, or 500 with the message. |
| `Providers.UpdateProvider` | routes/providers.js:46-55 | Name and city are passed unchecked, in SQL parameter order. Any successful query replies "Provider updated". |
| `Providers.DeleteProvider` | routes/providers.js:57-64 | Any successful query replies "Provider deleted". |
| `Providers.RowCountIsInvisible` | routes/providers.js:46-64 | PUT and DELETE reply the same whether or not a row matched. |

## Left out

- Stress.GetCpuUsage: computes the usage in exact arithmetic, as `Stress.Usage` of the integer sums. The source first divides both sums by the core count in double precision (routes/stress.js:64-66). When the exact idle percentage is an integer and the core count is not a power of two, that rounding can leave the percentage just below the integer, so `~~` drops it by one and the source reports a usage one point above the model's. For example, 3 cores with 1 idle tick out of 2 give 51 in the source and 50 in the model.
- `~~` truncation and toward-zero rounding. The quotient is non-negative and at most 100, so these agree with Dafny's division. The 32-bit wrap of `~~` cannot be reached.
- The worker threads (`stress-worker.js`): their busy loop and message handler. Workers are opaque handles, and `postMessage`/`terminate` are recorded as events.
- Concurrency between requests. Two overlapping getInstanceId calls can both reach the metadata service; the model runs one request at a time.
- The metadata requests' headers, host, timeout and token TTL. A timeout, an error and a closed connection are all the same failing answer.
- Logging (`console.log`/`console.error`).
- The serve (`GET /image/:filename`) and delete (`DELETE /:filename`) image handlers. Each wraps one file-system call: serve replies 404 with a fixed message on any error, and delete replies 500 with the error's message.
- `path.join` normalisation. The stored path is modelled as directory + `/` + name, which is what `path.join` gives for the normalised directories and plain generated names used here.
- The actual bytes of `Math.random().toString(36)`. The random tag is an input, assumed shaped like `0.` followed by base-36 digits.
- `Date` objects in the listing. A modification time is an integer number of milliseconds, and a null date sorts as time 0 (`new Date(null)`).
- JSON serialisation. An undefined `detail` or an `undefined` query parameter is kept as a value; the network format is not modelled.
- Providers: the model takes the body's three properties as values. With `express.json()` (server.js:8) and body-parser 1.x, a request without a JSON body gets `{}` as its body, so the properties are undefined and POST replies 400, which the model covers. A parser that left `req.body` undefined would make the destructuring throw and reply 500; that path is not modelled.
- Providers: what the SQL statements do to the table. The pool is opaque and only its answer is an input.
- S3 request signing and the url's contents. The signer's answer is an input.
- `productId` is taken as already rendered to text by the template literal.
- `Js.Value` numbers are integers. NaN and fractional numbers (a falsy `NaN` for `provider_id`, a fractional worker count) are not modelled.
- Stress.StressController.Start: the source loop also runs for a fractional or string `workers`. The model takes an integer count.
- `server.js` mounts only `/products` and `/providers`. The stress and image routers are modelled as standalone.
- `routes/products.js`, `instance-id.js`, `public/app.js` and the database client files are not part of this model.
