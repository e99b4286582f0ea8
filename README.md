# ecrm expiration engine in Dafny

A model of the core of `ecrm`, a tool that deletes unused images from
Amazon ECR repositories. For each repository whose name a retention policy
matches, the engine decides which image digests expire, in three cascading
tiers:

1. plain container images, newest first: the age cutoff, then a keep-count
   budget that only tagged images consume, then the hold set by digest, then
   each tag (tag patterns of the policy, then the hold set by tag);
2. image indexes: an index expires when one of its tags is the "link tag"
   (`sha256:` replaced by `sha256-`) of an expired plain image;
3. SOCI indexes: the manifests fetched for the link tags (in batches of at
   most 100 tags) are OCI image indexes; a SOCI index expires when its
   digest is that of a descriptor whose `artifactType` is
   `application/vnd.amazon.soci.index.v1+json`.

Around the engine the model covers: bucketing and newest-first stable
sorting of a listing, the per-repository summary and its printed row, the
output-format parser and printer, deletion in batches of at most 100
identifiers, the images held by task definitions and running containers,
first-match-wins selection of policies, clusters and task-definition
families, and the repository scan that ties these together.

Files, one module each: `wrappers.dfy` (Option, Result), `seqs.dfy`
(`lo.Chunk`, order-keeping filter, first-occurrence de-duplication),
`stable_sort.dfy` (`sort.SliceStable` as a value, Go string order),
`image.dfy` (records, references, `imageTag`, link tags), `listing.dfy`
(`listImageDetails`), `soci.dfy` (`findSociIndex`), `engine.dfy`
(`unusedImageIdentifiers` and its properties), `summary.dfy` (`summary.go`),
`deletion.dfy` (`DeleteImages`), `usage.dfy` (`collectImages`,
`extractECRImages`, the container loop of `availableResourcesInCluster`),
`selection.dfy` (first-match loops), `scan.dfy` (`scanRepositories`).

The AWS calls are inputs: a listing is a `Result` of a record sequence; the
manifests returned by `BatchGetImage` are a map from link tag to an optional
descriptor list (`None` for a missing or unparsable manifest) together with
a function giving the error, if any, each request returns; `BatchDeleteImage` and
`DescribeTaskDefinition` are functions from a request to its response. The
helpers defined outside the modelled files (`RepositoryConfig.IsExpired`,
`MatchName`, `MatchTag`, `KeepCount`, the cluster and task-definition
`Match`, `ImageURI.IsECRImage`, `IsDigestURI`, `Base`, and the
`isContainerImage`/`isImageIndex`/`isSociIndex` classifiers) are
uninterpreted: function-valued fields of `Policy`, `UriOps` and the selector
records, and a `kind` field on each record.

The link-tag lookup (`foundTags`) collects the tags of every record of the
listing, whatever its kind, not only those of image indexes
(ecrm.go:387-389).

## Model

| member | source | states |
|---|---|---|
| Image.ImageTag | ecrm.go:444-452 | an image counts as tagged exactly when it has at least one tag; untagged images display as `__UNTAGGED__`, a single tag as itself |
| Image.DigestUriIsNotTagUri | ecrm.go:299-314 | the digest reference and a tag reference of an image are never the same hold-set entry |
| Image.DigestUriInjective | ecrm.go:299-301 | within one repository, digest references are equal exactly when the digests are |
| Image.ReplaceFirstAt | ecrm.go:325 | `strings.Replace(s, old, new, 1)` replaces the first occurrence and keeps the rest |
| Image.ReplaceFirstAbsent | ecrm.go:325 | with no occurrence the string is unchanged |
| Image.LinkTagOfSha256 | ecrm.go:325 | the link tag of `sha256:<hex>` is `sha256-<hex>` |
| Listing.ListImageDetails | ecrm.go:379-402 | the three buckets are the records of each kind sorted newest first, and the tag index maps every tag of the listing to a digest |
| Listing.AddTags | ecrm.go:387-389 | the tag loop of one record maps each of its tags to its digest over the index built so far |
| Listing.NewestFirstSpec | ecrm.go:393-401 | each sorted bucket is a permutation of its records, non-increasing in push time, and records pushed at the same time keep their listing order |
| Listing.BucketsPartition | ecrm.go:379-386 | every record lands in exactly one bucket or in none; nothing is dropped or duplicated |
| Listing.TagIndexKeys | ecrm.go:387-389 | a tag is in the tag index exactly when some record of the listing, of any kind, carries it |
| Listing.TagIndexLast | ecrm.go:387-389 | a tag maps to the digest of the last record carrying it |
| Listing.TagsToSpec | ecrm.go:387-389 | one record's tags all map to its digest, and nothing else |
| Soci.FindSociIndex | ecrm.go:405-442 | requests are the chunks of at most 100 tags, in order, up to the first failing one; it succeeds exactly when no chunk fails, a failure returns the failing request's own error, and success returns the SOCI descriptor digests of the parsed manifests of the tags |
| Soci.CollectBatch | ecrm.go:425-439 | one batch appends the SOCI digests of its tags' parsed manifests; missing or unparsable manifests add nothing |
| Soci.CollectDescriptors | ecrm.go:434-438 | only descriptors with the SOCI artifact type contribute, in order |
| Soci.SociIdsMembers | ecrm.go:425-438 | a digest is returned exactly when a parsed manifest of one of the tags lists it with the SOCI artifact type |
| Soci.SociDescriptorsMembers | ecrm.go:434-438 | a digest is taken from a manifest exactly when one of its descriptors has that digest and the SOCI artifact type |
| Soci.SociIdsAppend | ecrm.go:408 | looking tags up chunk by chunk gives the same identifiers as one lookup of all of them |
| Engine.TagProtected | ecrm.go:306-318 | the tag loop keeps an image exactly when one of its tags matches a tag pattern or is held by tag |
| Engine.CheckImage | ecrm.go:279-318 | the checks for one image, in source order, expire it exactly when `PlainExpires` holds, and advance the keep-count counter exactly for tagged images past the cutoff |
| Engine.PlainPass | ecrm.go:277-329 | the expired plain digests, in order, the link tags carried by some record, and a summary counting every image once and every expired one once more |
| Engine.HasLinkTag | ecrm.go:335-342 | an index's tag loop finds a link tag exactly when the index expires |
| Engine.IndexPass | ecrm.go:331-343 | every index is counted; those carrying a link tag are appended once each, in order |
| Engine.Returned | ecrm.go:354-361 | the identifier loop finds a digest exactly when it was returned |
| Engine.SociPass | ecrm.go:350-362 | every SOCI index is counted; those whose digest was returned are appended once each, in order |
| Engine.Members | ecrm.go:345 | the link tags are passed on once each, in some order |
| Engine.UnusedImageIdentifiers | ecrm.go:267-365 | a listing error is returned with an empty summary; on success the expired identifiers are the digests of the three tiers in order and the summary tallies the three buckets and the expired records; it cannot fail when every `BatchGetImage` request it can make succeeds, a request being a 100-tag chunk of some duplicate-free ordering of the listing's link tags (`set.members()` then `lo.Chunk`); when it does fail, the error is the one such a request returned |
| Engine.NoLinkTagsNoRequest | ecrm.go:405-409 | a listing without link tags makes no `BatchGetImage` request, so the engine cannot fail on one |
| Engine.ExpiredPlainMembers | ecrm.go:320-323 | a record is expired as a plain image exactly when it sits at a position where the checks expire it |
| Engine.PlainExpiryConditions | ecrm.go:283-318 | an image younger than the cutoff, held by digest, with a tag matching a pattern, or held by tag is never expired; an expired one is past the cutoff and, if tagged, found the budget spent |
| Engine.BudgetCountsTaggedExpired | ecrm.go:290-296 | the keep-count counter counts exactly the tagged images past the cutoff; untagged images never consume it |
| Engine.BudgetMonotone | ecrm.go:290-291 | the counter never decreases along the newest-first walk |
| Engine.BudgetKeepsNewest | ecrm.go:290-296 | if the budget keeps a tagged image past the cutoff, it keeps every newer one too |
| Engine.BudgetKeepsExactly | ecrm.go:290-296 | the budget keeps exactly `keepCount` tagged images past the cutoff, or all of them when there are fewer |
| Engine.ExpiredPlainDistinct | ecrm.go:320-323 | with distinct digests in the listing, the recorded digests are distinct: no expired image is sent for deletion twice |
| Engine.ExpiredPlainAbsent | ecrm.go:320-323 | a digest no plain image has is never recorded as expired |
| Engine.LinksMembers | ecrm.go:325-328 | a tag is a link tag exactly when it is the link tag of an expired plain image and in the tag index |
| Engine.LinkTagIffCarried | ecrm.go:325-328 | for a listing, a tag is a link tag exactly when it is the link tag of an expired plain image and some record of the listing carries it |
| Engine.IndexExpiry | ecrm.go:331-343 | an image index expires exactly when one of its tags is a link tag, whatever its age, and is recorded once per occurrence |
| Engine.SociExpiry | ecrm.go:350-362 | a SOCI index expires exactly when a parsed manifest of a link tag lists its digest with the SOCI artifact type, and is recorded once per occurrence |
| Engine.ParseFailureOnlyRetains | ecrm.go:426-433 | turning any manifest into a parse failure can only shrink the set of expired SOCI indexes |
| Engine.NoManifestNoSoci | ecrm.go:425-433 | when no link tag has a parsed manifest, no SOCI index expires |
| Engine.SummaryConsistent | ecrm.go:268-362 | with non-negative sizes, expired counts and sizes are between zero and the totals |
| Engine.RepositoryRow | summary.go:21-27 | the row of a scanned repository shows a kept count equal to total minus expired and never negative, and kept plus expired size equal to the total size while it fits an `int64` |
| Engine.CountedCoversListing | ecrm.go:379-386 | the summary counts every record of the three kinds exactly once |
| Engine.ExpiredPlainWithin | ecrm.go:320-323 | no more plain images expire than exist, and their sizes add up to no more than the total |
| Engine.KeepCountScenario | ecrm.go:283-296 | with a 30-day cutoff and a budget of two, of five tagged images aged 0, 10, 40, 50 and 60 days only the 60-day one expires |
| Engine.KeepCountScenarioDigests | ecrm.go:283-296 | the scenario's five images have distinct digests |
| Summary.Row | summary.go:21-27 | four cells matching the header: the repository, the total, the negated expired count, and a keep figure equal to total minus expired |
| Summary.RowKeepsRemainder | summary.go:21-27 | for a consistent summary the keep count is non-negative and the keep size plus the expired size is the total size |
| Summary.NewOutputFormatFrom | summary.go:30-39 | exactly `table` and `json` parse, to non-zero formats that print back as the input; anything else gives format 0 and the `invalid format name` error |
| Summary.FormatRoundTrip | summary.go:30-52 | each of the two formats parses back from its printed name |
| Summary.UnknownFormatDoesNotParse | summary.go:43-52 | every other value prints as `unknown`, which does not parse |
| Summary.FormatsDistinct | summary.go:54-57 | the two formats are distinct and non-zero |
| Summary.Print | summary.go:61-69 | printing dispatches to a renderer exactly for the two formats; any other value is an `unknown output format` error |
| Deletion.DeleteImages | ecrm.go:230-263 | nothing is sent for an empty list or outside delete mode; a declined prompt aborts; otherwise the chunks of at most 100 ids go out in order up to the first failure, whose error is returned, and the count is the sum of the ids each batch reports deleted |
| Deletion.SendBatches | ecrm.go:249-262 | the batch loop sends chunks in order until one fails, and sums what the successful ones report |
| Deletion.DeletedSumAllDeleted | ecrm.go:261 | when every batch deletes what it is sent, the count is the number of ids sent |
| Deletion.DeleteEverything | ecrm.go:248-262 | a fully successful deletion counts every identifier of the input |
| Deletion.TwoHundredFiftyIds | ecrm.go:248 | 250 identifiers go out as three batches of 100, 100 and 50 |
| Usage.ExtractEcrImages | ecrm.go:537-545 | only ECR images of a task definition are kept, in order |
| Usage.CollectImages | ecrm.go:142-163 | each distinct task definition is described once, in order of first occurrence, up to the first failure, whose error is returned; on success the held images are the ECR images of all task definitions |
| Usage.TaskdefImagesMembers | ecrm.go:142-163 | an image is held exactly when it is an ECR image of a task definition that could be described |
| Usage.DedupKeepsImages | ecrm.go:144-151 | describing each distinct task definition only once loses no image |
| Usage.AddContainerImages | ecrm.go:584-602 | non-ECR images are skipped, digest references added unchanged, tag references added as base `@` running digest |
| Usage.ContainerImagesMembers | ecrm.go:584-602 | a container holds an image exactly in those three ways |
| Usage.TaskImagesMembers | ecrm.go:584-602 | a cluster holds an image exactly when a container of one of its running tasks holds it |
| Usage.ClusterResources | ecrm.go:549-645 | the task definitions in use are those of running tasks and of service deployments; the held images are those of the running containers |
| Selection.FirstIndex | ecrm.go:199-208 | the least index whose item matches, or none when nothing matches |
| Selection.FirstMatch | ecrm.go:199-208 | the matching loop with `break` finds that index |
| Selection.SelectClusters | ecrm.go:463-473 | the clusters scanned are the listed ones with a non-empty ARN that some selector matches, in order |
| Selection.ClusterSelection | ecrm.go:465-473 | a cluster is scanned exactly when it is listed, its ARN is non-empty and a selector matches it |
| Selection.SelectFamilies | ecrm.go:494-506 | the families kept are the listed, matched, non-empty ones, in order, with the keep count of their first matching selector |
| Selection.SelectedFamiliesMembers | ecrm.go:497-506 | a family is kept with a keep count exactly when it is listed, non-empty, and the first matching selector has that keep count |
| Scan.ScanRepository | ecrm.go:196-212 | a repository no policy matches is skipped without error; a matched one runs the engine under its first matching policy, and does not fail when its listing and the manifest requests the engine can make for it succeed; a failure is the listing's error or the error of one of those requests |
| Scan.ScanAll | ecrm.go:194-215 | on success every matched repository's listing succeeded, the identifier map has exactly the matched repositories with the engine's identifiers, and the summaries are those of the matched repositories in scan order; it cannot fail when, for every matched repository, the listing and the manifest requests the engine can make succeed; a failure is the error of one listed repository's listing or manifest request |
| Scan.ScanRepositories | ecrm.go:183-224 | as the repository loop, then a listing error or an unknown output format fails the scan; the printed summaries are the scan's summaries sorted stably by repository name; it succeeds when the listings, the manifest requests the engine can make, the repository paging and the format all succeed; a failure is the paging error, the format error, or the error of one repository's listing or manifest request |
| Scan.SummariesOfMatched | ecrm.go:202-214 | one summary per matched repository, each named after a scanned repository |
| Scan.PrintedOrder | ecrm.go:217-219 | the printed summaries are a permutation of the scanned ones, sorted by repository name, and summaries of equal name keep their scan order |
| Scan.RepoBeforeIsStrictWeakOrder | ecrm.go:217-219 | ordering summaries by repository name is a strict weak order |
| Seqs.Chunk | ecrm.go:248 | the chunks concatenate back to the input, each has between 1 and 100 elements, all but the last exactly 100, and there are none only for empty input |
| Seqs.Dedup | ecrm.go:144-151 | the first-occurrence de-duplication has the same members as its input and no repeats |
| StableSort.SortPermutes | ecrm.go:393-395 | the stable sort returns a permutation of its input |
| StableSort.SortSorted | ecrm.go:393-395 | under a strict weak order the result is sorted |
| StableSort.SortKeepsClasses | ecrm.go:393-395 | equivalent elements keep their relative order |
| StableSort.LexLessIsStrictWeakOrder | ecrm.go:217-219 | Go's string order is a strict weak order |
| Listing.PushedLaterIsStrictWeakOrder | ecrm.go:393-395 | ordering by push time, later first, is a strict weak order |

## Left out

- AWS I/O: client construction, all paginated listing and describe calls, `ListTaskDefinitions` and `DescribeTasks`; their results are inputs.
- `Run`: its deletion loop iterates a Go map in nondeterministic order; the per-repository `DeleteImages` is modelled instead.
- The confirmation prompt is a boolean input, consulted only without `--force`.
- JSON decoding of manifests: a parse failure or a missing manifest is `None` in the manifest map.
- `Images` provenance (which task or function holds an image): held images are a set of references.
- `parseTaskdefArn`, `arn.Parse`, `arnToName` and `clusterArnToName`, and the errors they can return, are not part of this model; task definitions are strings.
- `scanLambdaFunctions` and the `Images.Merge` of `Run` are not part of this model.
- The `--repository` filter of `scanRepositories` only narrows the `DescribeRepositories` request; the listed names are an input.
- `RepoSummary` is a slice of rows defined outside the modelled files (ecrm.go:213 appends it); the model abstracts it as one row per repository, with `Add` adding one to a count and the size to a total, and `Expire` doing the same for the expired figures. How many rows the real type holds is not modelled.
- `BatchGetImage` results: the model looks each requested tag up in a manifest map, in request order; the source walks `res.Images` in whatever order the service returns them (ecrm.go:425). The set of SOCI digests is the same; their order is not modelled, and nothing downstream depends on it.
- Engine.UnusedImageIdentifiers: when `findSociIndex` fails, the summary returned beside the error is not specified, since the scan discards it.
- Engine.Members: `set.members()` returns Go map order; the model only says each link tag appears once.
- Scan.ScanRepositories: the printed rendering (`printTable`, `printJSON`, `humanize.Bytes`, `tablewriter`) is left out; the model states the order of the summaries handed to `print` and the format dispatch.
- Usage.ClusterResources: the task definitions are returned as a set, since the source builds its list from a Go map; `ListTasks` pages are one sequence of tasks.
- Summary.Row: the byte figures model `uint64` conversion of the sizes explicitly; the `int64` counts and sums are unbounded integers, so overflow of very large repositories is not modelled.
- Selection.SelectFamilies: the revision listing with `MaxResults` set to the keep count is AWS I/O and is left out.
- All logging.
