# Image search service: indexing job, search shaping and image route

This project models the core of a small image search service. A Flask
application (app.py) fronts a service object (service.py) that:
- indexes a folder of images into a vector collection, in background batches, while it publishes a progress record;
- answers text queries by nearest-neighbour search over that collection;
- serves image files from a configured root directory, after a path containment check.

The model covers what the service does with those pieces:
- **Indexing state machine** (`Indexing.ImageSearchService`). The status record is `is_indexing`, `progress`, `total` and `message`. There is one guarded start. The batch loop writes progress, counts errors per batch and ends with a summary message.
- **Job as a function** (`Indexing.Run`). It is a pure specification of what the batch loop computes. `Indexing.ImageSearchService.RunBatches` is the loop, proved against it with invariants. Lemmas about `Run` give the bounds, the error accounting, when progress reaches the total, when the job aborts, and idempotent re-indexing.
- **File snapshot** (`Listing`). It takes the image files by their `pathlib` suffix, in any letter case, and sorts them by `PurePath` ordering.
- **Collection** (`Store`). Points are keyed by the `uuid5` of the absolute path, and upsert overwrites.
- **Search** (`Search.Search`). It checks the query, keeps the hits at or above `min_score` in store order, and shapes each result record.
- **HTTP routes** (`Routes`):
  - `top_k`/`min_score` conversion, capping and error codes of the search route;
  - the folder check and start-result mapping of the index route;
  - the `os.path.join` + `os.path.realpath` + `startswith` check of the image route. `os.path.realpath` is modelled as lexical normalisation, in `PosixPath`.

The embedding model, the vector store's ranking, the filesystem, and Python's parsing of numeric strings are inputs of the model:
- `embedded(i)`: whether the batch that starts at position `i` embedded;
- `nearest(k)`: the store's reply when asked for `k` hits;
- `isDirectory` and `isFile`;
- `parseInt` and `parseFloat`.

Behaviour a reader might not expect (the model follows the code):
- **Errors per batch.** A failed embedding fails the whole batch. All of the batch's files count as errors, not only the bad file (`Indexing.OneFailedBatch`).
- **Progress on failure.** A failed batch does not advance `progress`. At the end, `progress == total` holds exactly when the last batch embedded (`Indexing.RunReachesTotal`).
- **Files outside `BASE_IMAGE_DIR`.** Indexing a folder with such a file raises in `relative_to`, once that file's batch has embedded. The job stops before its summary and `is_indexing` stays true (`Indexing.RunAbortsOutsideBase`). Any later start is then refused. A batch whose embedding failed is skipped before `relative_to`, so its outside files never raise (`Indexing.OutsideFilesInFailedBatch`).
- **Store key.** Points are keyed by the absolute path, not the relative one.
- **Blank queries.** Only the empty query is rejected; a blank one such as `" "` is searched (`Search.BlankQueryIsSearched`).
- **`top_k <= 0`.** It is passed to the store unchanged.
- **Containment test.** The image route's test is a plain string prefix test. It also admits a sibling directory whose name extends the base's last component (`Routes.SiblingWithBasePrefixPasses`).
- **Order of the index route's checks.** The folder is checked (404) before the running job (400).

## Model

| member | source | states |
|---|---|---|
| Common.Decimal | service.py:268 | the rendering of a count has at least one digit, only digits, and no leading zero |
| Common.DecimalRoundTrip | service.py:268 | reading back a rendered count gives the count |
| Common.DecimalInjective | service.py:274-276 | different counts render differently |
| Common.Min | service.py:255 | Python's `min`: at most both arguments and equal to one of them; also the top_k cap at app.py:60 |
| Common.StartsWith | app.py:132 | `str.startswith`; PosixPath.SlashedPrefix and Routes.AccessRule state what it decides on normalised paths |
| Common.LowerChar | service.py:202 | lower-casing of one character: ASCII capitals map to small letters, every other character is kept |
| Common.Lower | service.py:202 | `.lower()`, of the same length; Listing.IsImageByEnding states its use in the extension filter |
| PosixPath.Join | app.py:128 | an absolute second part replaces the first; otherwise the result starts with the first part and ends with the second |
| PosixPath.Split | app.py:129 | splitting gives at least one piece, with no separator in any piece |
| PosixPath.GlueSplit | app.py:129 | joining the pieces of a path with '/' gives the path back |
| PosixPath.SplitGlue | app.py:129 | splitting a '/'-join of separator-free pieces gives the pieces back |
| PosixPath.Resolve | app.py:129 | normalisation yields only proper names (no "", ".", ".." or separator) and never grows beyond its input |
| PosixPath.ResolveNames | app.py:129 | proper names are appended as they are |
| PosixPath.ResolveParents | app.py:129 | k leading ".." climb k levels, stopping at the root |
| PosixPath.RealPath | app.py:129 | realpath of an absolute path is absolute |
| PosixPath.ComponentsOfRender | app.py:129 | normalising the string of canonical components gives them back |
| PosixPath.RealPathIdempotent | app.py:132 | normalising a normalised path changes nothing |
| PosixPath.JoinComponents | app.py:128-129 | base joined with a relative path normalises as the relative pieces resolved on top of the base's components |
| PosixPath.SlashedPrefix | app.py:132 | one normalised path string starts with another exactly when the components agree up to the last base component and the target's component there starts with the base's last one |
| Listing.StrBelow | service.py:200 | Python's `<` on strings, by code point; Listing.PathOrder states that it and PathBelow are strict total orders |
| Listing.PathBelow | service.py:200 | `PurePath.__lt__`, component-wise, which `sorted` uses; Listing.PathOrder states that it is a strict total order, and Listing.SortedUnique that the sorted listing is unique under it |
| Listing.LastDot | service.py:202 | the index of the last '.' of a name, or -1 if there is none |
| Listing.Name | service.py:239 | `PurePath.name`, the last component; Indexing.SearchReadsIndexedPoint and Indexing.RunStoresDescriptions state where it is stored and read |
| Listing.Suffix | service.py:202 | `PurePath.suffix`: the name from its last dot, unless that dot is first or last; its meaning is stated by Listing.IsImageByEnding |
| Listing.IsImage | service.py:202 | the filter `p.suffix.lower() in IMAGE_EXTENSIONS`; Listing.IsImageByEnding states it in terms of name endings, both directions |
| Listing.IsImageByEnding | service.py:202 | a file is indexed exactly when its name, lower-cased, ends in .jpg, .jpeg or .png after a non-empty stem |
| Listing.ImageFiles | service.py:200-203 | the filter keeps each image file as often as the listing holds it and drops every other file |
| Listing.PathOrder | service.py:200 | path ordering (component lists compared lexicographically, strings by code point) is a strict total order |
| Listing.LexOrder | service.py:200 | the lexicographic extension of a strict total order is irreflexive, transitive and total |
| Listing.Insert | service.py:200 | inserting into a sorted list keeps it sorted and adds exactly that element |
| Listing.SortPaths | service.py:200 | the result is sorted and a permutation of the input |
| Listing.SortedUnique | service.py:200 | two sorted arrangements of the same paths are equal |
| Listing.DistinctCounts | service.py:200-203 | a list has no repeats exactly when no element occurs twice in its multiset |
| Listing.Snapshot | service.py:199-203 | the snapshot is sorted and holds exactly the image files of the listing, with their multiplicities |
| Listing.SnapshotMembers | service.py:199-204 | a path is in the snapshot exactly when it is listed and is an image; total is the number of image files |
| Listing.SnapshotIsTheSortedImages | service.py:199-203 | any sorted permutation of the image files is the snapshot |
| Listing.SnapshotStrictlyAscending | service.py:199-203 | a listing without repeats gives a strictly ascending snapshot |
| Store.Ids | service.py:236 | the ids of a point list are exactly the ids its points carry |
| Store.Upsert | service.py:247-251 | each point overwrites the entry with its id, in order; Store.UpsertStores, Store.UpsertKeeps, Store.UpsertOverrides and Store.UpsertIdempotent state what it does |
| Store.UpsertKeeps | service.py:247-251 | an id no point carries keeps its entry, or stays absent |
| Store.UpsertStores | service.py:247-251 | a point that no later point overwrites is stored with its own payload: the last point of an id wins |
| Store.UpsertOverrides | service.py:247-251 | upsert overrides the collection with entries that depend only on the points, keyed by exactly their ids |
| Store.UpsertIdempotent | service.py:247-251 | upserting the same points twice equals upserting them once |
| Search.Shape | service.py:315-323 | no more results than hits, and every result scores at least min_score |
| Search.Search | service.py:285-332 | fails exactly for an empty query, a failed embedding or a store exception ("Query is required" for the empty query, "Failed to process query" for a failed embedding, the store's own error text for a store exception); otherwise echoes the query with count equal to the number of results, which are the shaped store hits |
| Search.ToRecord | service.py:318-323 | the record of one hit: its score, `filename`, `relative_path` as path, and the description defaulting to "No description"; Indexing.SearchReadsIndexedPoint states it on the points indexing writes |
| Search.Get | service.py:320-322 | `payload.get(key)`: the value when the key is present, else None; Indexing.SearchReadsIndexedPoint states what it reads from indexed points |
| Search.Kept | service.py:316-317 | the positions of the hits at or above min_score, ascending, and all of them |
| Search.ShapeIsKeptHits | service.py:315-323 | the k-th result is the record of the k-th hit that reaches min_score |
| Search.ShapeAppend | service.py:316-323 | each hit's fate is independent of the others |
| Search.ShapeKeepsRanking | service.py:316-323 | hits in descending score give results in descending score |
| Search.ShapeKeepsAll | service.py:316-323 | with every hit at or above the threshold, every hit is returned, in order |
| Search.BlankQueryIsSearched | service.py:297-298 | a one-space query is not rejected |
| Search.RedCarScenario | service.py:285-332 | one hit at 0.9 and four below 0.5 with min_score 0.5 give exactly the one record |
| Indexing.BuildPoints | service.py:224-244 | succeeds exactly when every file of the batch is under the base; then it builds one point per file, with the id of the file's absolute path |
| Indexing.RelativeTo | service.py:241 | `relative_to(BASE_IMAGE_DIR)`, None where Python raises; Indexing.RelativePathLocatesFile states that the result joined to the base gives the file back |
| Indexing.AbsolutePath | service.py:122 | `str(path.absolute())` of a file; Routes.IndexedImageIsServed states that the image route serves this path for the stored relative path, and Indexing.CanonicalPathsAreDistinct that it keys points apart |
| Indexing.PointOf | service.py:227-244 | the point of one file, id from its absolute path; Indexing.SearchReadsIndexedPoint states what search reads back from it |
| Indexing.BatchPoints | service.py:224-244 | the points of a batch, None when a file is outside the base; Indexing.BuildPoints is proved to compute it |
| Indexing.FoundMessage | service.py:209 | "Found {n} images."; Indexing.FoundMessageDeterminesTotal states that it determines n |
| Indexing.ProcessedMessage | service.py:267-269 | "Processed {p}/{t} images"; Indexing.ProcessedMessageDeterminesCounts states that it determines p and t |
| Indexing.CompletedMessage | service.py:273-276 | the summary; Indexing.CompletedMentionsErrors and Indexing.CompletedMessageDeterminesCounts state what it reports |
| Indexing.ErrorNote | service.py:275-276 | the " ({errors} errors)" note, empty when there are none; Indexing.ErrorNoteDeterminesCount states that it determines the count |
| Indexing.ErrorNoteDeterminesCount | service.py:275-276 | the error note determines the error count |
| Indexing.FoundMessageDeterminesTotal | service.py:207-210 | the listing message determines the total |
| Indexing.ProcessedMessageDeterminesCounts | service.py:267-269 | the progress message determines progress and total |
| Indexing.SearchReadsIndexedPoint | service.py:235-244 | a search hit on an indexed point yields the file's name, its relative path and its description, or "No description" |
| Indexing.Step | service.py:216-269 | one pass of the loop body: a failed embedding adds the batch to errors (service.py:219-221), a file outside the base raises, otherwise upsert and progress to the batch end; Indexing.RunBounds, RunCountsFailedBatches, RunReachesTotal and RunAbortsOutsideBase state its effect over the loop |
| Indexing.RunFrom | service.py:215-269 | the `for` loop from batch offset i, ended early by an exception; its properties are the Run lemmas below |
| Indexing.Run | service.py:212-269 | the whole loop from the listing step's state; Indexing.ImageSearchService.RunBatches is proved to compute it |
| Indexing.FailedFiles | service.py:219-221 | an independent count of the files in failed batches; Indexing.RunCountsFailedBatches equates errors with it |
| Indexing.RunBounds | service.py:215-269 | progress only grows and stays within total; errors stay within total |
| Indexing.StepAdvances | service.py:216-269 | one batch never moves progress back or past its end; a batch that embedded and did not raise sets progress to min(i+128, total) with the "Processed" message; a failed batch leaves progress, message, collection and the abort flag as they were and adds its size to errors |
| Indexing.After | service.py:215-269 | the state a status poll sees after some batches; Indexing.ProgressNeverDecreases and Indexing.AfterAllBatches state its meaning |
| Indexing.ProgressNeverDecreases | service.py:254-256 | a later poll during the job sees at least the progress of an earlier one |
| Indexing.AfterAllBatches | service.py:215 | once every batch has run, the polled state is the job's end state |
| Indexing.RunCountsFailedBatches | service.py:219-221 | a finished job's error count is the number of files in batches whose embedding failed |
| Indexing.RunReachesTotal | service.py:247-256 | a finished job reports progress == total exactly when its last batch embedded |
| Indexing.RunAbortsOutsideBase | service.py:219-241 | for any embedding outcome, the job raises exactly when some batch that embedded holds a file outside the base |
| Indexing.AllEmbeddedAbortsOutsideBase | service.py:215-241 | with every batch embedding, the job raises exactly when some file lies outside the base |
| Indexing.OutsideFilesInFailedBatch | service.py:219-221 | three files outside the base in a failed batch: the job completes with three errors and progress 0 |
| Indexing.RunOverrides | service.py:215-269 | the job overrides the collection with a map that does not depend on its old content, and the rest of its outcome does not depend on it either |
| Indexing.ReindexIsIdempotent | service.py:236-251 | running the same job again leaves the collection as the first run left it |
| Indexing.RunWritesSnapshotIds | service.py:236 | every id the job writes is the id of a snapshot file |
| Indexing.CanonicalPathsAreDistinct | service.py:122 | distinct normalised paths have distinct absolute-path strings, so distinct point ids |
| Indexing.StepStoresBatch | service.py:235-251 | after a batch that embedded and did not raise, each of its files (the last one of an absolute path) has its point's payload under its id |
| Indexing.StepKeeps | service.py:247-251 | a batch leaves the entry of an id none of its files has |
| Indexing.RunKeeps | service.py:215-251 | the remaining batches leave the entry of an id none of their files has |
| Indexing.RunStoresEmbeddedFiles | service.py:215-251 | a job that completes, with no two files sharing an absolute path, leaves each file of an embedded batch stored with its point's payload |
| Indexing.RunStoresDescriptions | service.py:227-251 | after a completed job each such file's entry holds its name, absolute path, relative path, and its description or "No description" |
| Indexing.CleanRun | service.py:215-281 | with every batch embedding and every file under the base, the job finishes with no errors and progress at total |
| Indexing.RelativePathLocatesFile | service.py:241 | the stored relative path is relative, and joined to the base and normalised it gives the file's own components |
| Indexing.CompletedMentionsErrors | service.py:273-276 | the summary ends in " errors)" exactly when there were errors |
| Indexing.CompletedMessageDeterminesCounts | service.py:273-276 | the summary determines both the indexed count and the error count |
| Indexing.EmptyFolder | service.py:199-281 | no image files: nothing fails, progress 0, collection untouched, "Completed! Indexed 0 images." |
| Indexing.OneFailedBatch | service.py:215-221 | ten files in one failed batch: ten errors, progress 0, "Completed! Indexed 0 images. (10 errors)" |
| Indexing.ImageSearchService.constructor | service.py:85-94 | the status starts idle, at 0 of 0, "Not started" |
| Indexing.ImageSearchService.StartIndexingThread | service.py:155-188 | starts exactly when no job runs; a refused start changes nothing; a start resets the status to running, 0 of 0, "Starting..." |
| Indexing.ImageSearchService.GetIndexingStatus | service.py:354-362 | returns a copy of the status fields |
| Indexing.ImageSearchService.IndexImages | service.py:190-283 | total is the snapshot size; progress, errors and collection are the job's; a finished job clears is_indexing and writes the summary, an aborted one leaves is_indexing set |
| Indexing.ImageSearchService.RunBatches | service.py:212-269 | the batch loop computes exactly what the job specification computes, keeping 0 <= progress <= total |
| Routes.Truncate | app.py:60 | int() of a float truncates toward zero |
| Routes.ToInt | app.py:60 | Python's `int(v)` on a JSON value: bool as 0/1, float truncated, string parsed (ValueError when it does not parse), null, arrays and objects a TypeError; Routes.OddLimits and Routes.SearchApi state its use |
| Routes.ToFloat | app.py:61 | Python's `float(v)` with the same cases; Routes.SearchApi states how its errors are answered |
| Routes.RequestedLimit | app.py:60 | `int(data.get('top_k', 48))`; Routes.SearchLimit's contract states it with the cap |
| Routes.SearchLimit | app.py:60 | top_k is the requested number capped at 200, 48 when absent, and conversion errors pass through |
| Routes.MinScore | app.py:61 | `float(data.get('min_score', 0.0))`; Routes.SearchApi states that its ValueError answers 400 and its TypeError 500, after top_k converted |
| Routes.SearchApi | app.py:57-75 | 500 exactly for a TypeError in conversion; "Invalid parameters" exactly for a ValueError; 200 exactly for results; otherwise the service's reply for the converted parameters |
| Routes.StoreAskedWithinMax | app.py:60 | the store's answers for limits above 200 never affect the response |
| Routes.LargeLimitsAnswerAlike | app.py:60 | every top_k of 200 or more gives the same response |
| Routes.OddLimits | app.py:60 | top_k 12.9 gives 12, -0.5 gives 0, true gives 1 |
| Routes.EmptyRequest | app.py:58-66 | a JSON body with none of the fields (`{}`) answers 400 "Query is required" |
| Routes.StartIndexing | app.py:86-103 | 404 "Folder not found: f" when f is not a directory; 400 and nothing changed when a job runs; otherwise 200 with the fresh status |
| Routes.Resolved | app.py:128-129 | the resolved request path is absolute |
| Routes.ServeImage | app.py:126-139 | answers 200, 403 or 404; 403 exactly when the resolved path fails the prefix test; 200, sending the resolved path, exactly when it passes the test and names a file |
| Routes.AccessRule | app.py:132-134 | denial in terms of components: allowed exactly when the base is the root or the target agrees with the base before its last component and extends that component |
| Routes.InsideIsAllowed | app.py:132 | every path inside the base passes the containment check |
| Routes.IndexedImageIsServed | app.py:126-137 | an indexed image, requested by its stored relative path, is served from its own absolute path |
| Routes.ParentsAreDenied | app.py:132-134 | a request made only of ".." pieces is denied |
| Routes.SiblingWithBasePrefixPasses | app.py:132-137 | "../<base name><suffix>/<name>" lies outside the base yet passes the check, and is served when it names a file |
| Routes.PasswdIsDenied | app.py:132-134 | "../../etc/passwd" under /srv/app/scraped_images is denied |

## Left out

- The CLIP model, torch, image decoding and the vectors are left out. Whether a batch or a query embeds is an input.
- Qdrant's ranking and persistence are left out. The collection is a map from id to payload, and the store's search reply is an input.
- `get_stats` is left out. It only reports the collection size, the device and the model name.
- Threading and the lock are left out. Each `with self.lock` block is one atomic step, and the job runs after the start that launched it, without interleaving. Concurrent searches during indexing are not modelled.
- Routes.StartIndexing: the status in the 200 reply is taken as the start left it. In the running program the background thread may already have changed it.
- Indexing.ImageSearchService.IndexImages: does not model `start_time`, `estimated_time` or the ETA arithmetic (service.py:258-265), which only feed a display string. The listing of the folder is an input: `rglob` and the filesystem are not modelled.
- Indexing.ImageSearchService.IndexImages: an exception other than `relative_to`'s is not modelled, for example a failed upsert or a failed status write.
- Point ids: `uuid5` of the absolute path is modelled as an injective tag of that path. UUID hash collisions are not modelled.
- The `.txt` descriptions are an input map from file to stripped text. Reading and decoding the files is not modelled.
- Routes.ServeImage: `os.path.realpath` is modelled as lexical normalisation. Symbolic links are not resolved, and `exists and isfile` is one input predicate.
- Routes.SearchApi: the query is taken to be a string or absent, and the body a JSON object. Other query types and non-object bodies are not modelled.
- Routes.SearchApi: a zero-length or non-JSON request body is not modelled. Flask's `request.json` raises on it, which is not a ValueError, so the route answers 500.
- Indexing.RunStoresEmbeddedFiles: stated for files with distinct absolute paths, which Indexing.CanonicalPathsAreDistinct derives for a listing of distinct normalised paths. With a repeated path the last point wins, as Store.UpsertStores states.
- Routes.SearchApi: parsing of numeric strings, float rounding, infinities and NaN are not modelled. `int(big float)` overflow is not modelled either.
- Routes.StartIndexing: the folder is taken as a string or absent, and a non-string folder value is not modelled. The realpath handed to the thread is not modelled: the job's listing is an input of `IndexImages`.
- Flask itself is not modelled: routing, JSON encoding, `send_file`, logging, error handlers, page rendering and the health check.
- Common.Lower: only ASCII letters are lower-cased. Python's full Unicode case mapping is not modelled.
