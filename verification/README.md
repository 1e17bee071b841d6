# AIStore core logic in Dafny

This project models six pieces of sequential logic from AIStore and proves their properties:

- **Token access control** (`authnsrv/utils.go`): finding the cluster and bucket ACL that apply to a request, the `CheckPermissions` decision over permission bitmasks, and the two ACL-merge helpers.
- **S3 multipart-upload registry** (`ais/s3/mpt.go`): a map from upload ID to an upload record with an ordered list of parts. It is modelled as a state machine whose operations map the registry before to the registry after.
- **Datapath query parser** (`ais/dpq.go`): splitting a raw query at `&` and at the first `=`, dispatching on the supported keys into the `dpq` record, and the zero reset.
- **S3 bucket inventory** (`ais/backend/awsinv.go`): the saturated time difference, manifest schema validation, choosing the newest `.csv.gz`, deciding whether the cached copy is usable, choosing cleanup victims, and the page loop of `listInventory` over CSV lines.
- **Tar-record assembly for the TensorFlow dataset** (`tar2tf/tar2tf/ais_dataset.py`): entry filtering, grouping members into records by name-without-extension, op validation and op evaluation, and the keyword check of `load_from_tar`.
- **PyTorch worker sharding** (`python/aistore/pytorch/iter_dataset.py`): the stride partition `islice(objs, id, None, numWorkers)`.

Each file is a module:

- `wrappers.dfy` (`Option`, `Result`, `Outcome`)
- `strings.dfy` (`strings.IndexByte`, `strings.Split`, `strings.Join`, and `strconv.ParseUint`/`strconv.ParseInt` for base 10, including the point at which the digit loop reports a range error)
- `authn.dfy`
- `mpt.dfy`
- `dpq.dfy`
- `awsinv.dfy`
- `tardataset.dfy`
- `iterdataset.dfy`

Go's `int64` is an explicit subset type wherever its wrap-around matters (`Mpt.Wrap64`), and `time.Duration` saturation is written out (`AwsInv.Sub`). Python exceptions are `Err` values.

Some library functions the code calls are not defined in this model; they are parameters of the model instead:

- `url.QueryUnescape` and `cos.IsParseBool`;
- the `apc.Qparam*` key strings and the `apc.AccessCluster` mask;
- `cos.Ext` and `torch.utils.data.get_worker_info`;
- an op's `do`, and the object reader;
- the order in which Go iterates a map;
- the clock.

Where the code behaves differently from the behaviour its documentation describes, the model follows the code:

- `is_valid_tar_entry` raises `TypeError` for an extension outside its list, because it calls `str.startswith` unbound.
- The list branch of `operation_to_value` raises unless the list is empty, because it reads `op.ext_name` on a list.
- `aclForBucket` compares the ACL's own bucket, UUID included; the UUID-cleared copy it builds is never used.
- `url.QueryUnescape` failing leaves `""` in the field before `parse` returns the error.

Two places where the code as written contradicts its evident intent are listed under Findings. There, the corrected definition is what the rest of the model uses.

## Model

| member | source | states |
|---|---|---|
| Authn.Lookup | authnsrv/utils.go:75-89 | an ACL list answers for a key exactly when some entry has that key, and the first such entry decides |
| Authn.LastLookup | authnsrv/utils.go:65-67 | the default cluster ACL is the last entry with the key, since every later match overwrites it |
| Authn.ScanClusterAclsSpec | authnsrv/utils.go:59-73 | the single scan of `aclForCluster` equals: the first exact-ID entry if any, else the last empty-ID entry, else nothing |
| Authn.AclForCluster | authnsrv/utils.go:59-73 | an exact-ID entry wins wherever it sits; the empty-ID entry is used only when no exact match exists; with neither the result is absent |
| Authn.AclForBucketSpec | authnsrv/utils.go:75-89 | a bucket ACL applies only when the bucket's namespace UUID is the cluster ID, and then the first ACL for that bucket decides |
| Authn.CheckPermissions | authnsrv/utils.go:105-119 | an admin is granted everything (even an empty mask); a non-admin asking for no bits is refused; cluster bits with no cluster ACL give ErrNoPermissions |
| Authn.DecideGranted | authnsrv/utils.go:105-146 | the decision passes iff admin, or the request is non-empty, the cluster part is granted and the object part is granted |
| Authn.DecideClusterPart | authnsrv/utils.go:114-126 | an ungranted cluster part refuses the request, whatever the bucket ACL says |
| Authn.DecideObjectPart | authnsrv/utils.go:127-145 | once the cluster part is granted, the object part alone decides |
| Authn.HasSubset | authnsrv/utils.go:137 | an ACL that has a set of bits has every subset of it |
| Authn.CheckPermissionsGranted | authnsrv/utils.go:91-146 | the closed-form rule: granted iff admin, or non-empty with the cluster part granted by the cluster ACL (with a cluster ID) and the object part granted by the bucket ACL, or by the cluster ACL when no bucket ACL applies |
| Authn.MaskParts | authnsrv/utils.go:112-113 | the split into cluster and object bits loses nothing: a non-empty request has a non-empty part |
| Authn.ClusterBitsNeedAcl | authnsrv/utils.go:115-126 | a granted request for cluster bits implies a cluster ACL exists, the cluster ID is non-empty and the ACL has those bits |
| Authn.ObjectBitsNeedBucket | authnsrv/utils.go:127-134 | object bits without a bucket are always refused |
| Authn.ObjectRequestRule | authnsrv/utils.go:135-145 | for a pure object request, a matching bucket ACL alone decides (even over a granting cluster ACL); otherwise it is granted iff a cluster ACL exists and has all the bits |
| Authn.SubMaskParts | authnsrv/utils.go:112-113 | the cluster and object parts of a sub-request are sub-parts of the request's parts |
| Authn.ClusterGrantedMonotone | authnsrv/utils.go:115-126 | granting a set of cluster bits grants every subset |
| Authn.ObjectGrantedMonotone | authnsrv/utils.go:127-145 | granting a set of object bits grants every subset |
| Authn.ClusterPartMonotone | authnsrv/utils.go:112-126 | the cluster part of a sub-request is granted when that of the request is |
| Authn.ObjectPartMonotone | authnsrv/utils.go:112-145 | the object part of a sub-request is granted when that of the request is |
| Authn.GrantIsMonotone | authnsrv/utils.go:105-146 | a token granted a request is granted every non-empty sub-request |
| Authn.Upsert | authnsrv/utils.go:170-181 | one outer step of the merge keeps every old key in place, changes only entries with the new key, and appends the new ACL exactly when its key is absent |
| Authn.UpsertFirstOnly | authnsrv/utils.go:172-177 | the step stops at the first entry with the new key: that entry takes the new access, and a later entry repeating the key is left as it was |
| Authn.UpsertLookup | authnsrv/utils.go:170-181 | after one step the new key answers with the new access and every other key as before |
| Authn.UpsertKeepsKeys | authnsrv/utils.go:172-178 | one step never removes a key |
| Authn.MergeLookup | authnsrv/utils.go:169-184 | after the merge every key of the new list answers with its last access there, and every other key as in the old list |
| Authn.MergeKeepsOld | authnsrv/utils.go:169-184 | the merge keeps the old entries in place; an old entry whose key is not in the new list, or whose key appeared earlier in the old list, is unchanged |
| Authn.MergeAppendsNew | authnsrv/utils.go:179-181 | entries are appended only for keys of the new list absent from the old list |
| Authn.MergeAppendsDistinct | authnsrv/utils.go:170-181 | no key is appended twice |
| Authn.MergeClusterAcls | authnsrv/utils.go:169-184 | every new ID is present with its new access; other old entries, and old entries repeating an earlier ID, are unchanged in place; only new, absent IDs are appended, each once |
| Authn.MergeBckAcls | authnsrv/utils.go:152-167 | the merge of bucket ACLs the code evidently intends, with the same five guarantees as the cluster merge |
| Authn.MergeBckAclsAsWrittenDiffers | authnsrv/utils.go:152-167 | the code as written drops a new ACL when the old list is empty and appends a duplicate when the match is not first; the intended merge does neither |
| Mpt.InitUpload | ais/s3/mpt.go:44-53 | the upload exists afterwards with no parts, the given names and the start time; no other upload changes |
| Mpt.GetUpload | ais/s3/mpt.go:141-154 | an upload is found exactly when it exists; a missing one is UploadNotFound |
| Mpt.AddPart | ais/s3/mpt.go:58-68 | an unknown ID fails and changes nothing; a known ID gets the part appended at the end; no other upload changes |
| Mpt.GetPart | ais/s3/mpt.go:82 | a part number is found exactly when some stored part has it, and a found part is a stored part with that number |
| Mpt.CheckParts | ais/s3/mpt.go:71-93 | an unknown upload fails; otherwise the call fails iff some requested number is missing, reporting the first missing one, and succeeds with one stored part per request, in request order |
| Mpt.ParsePartNum | ais/s3/mpt.go:95-101 | parsing succeeds exactly on decimal strings (sign and leading zeros allowed) whose value fits in 16 signed bits, and then yields that value; every error carries the string and its cause: a range error for a decimal out of range and as soon as the digits after the sign exceed 16 unsigned bits (so "65536a" is a range error), and a syntax error otherwise |
| Mpt.ParsePartNumFormat | ais/s3/mpt.go:95-101 | every 16-bit signed value, printed in base 10, parses back to itself |
| Mpt.ParsePartNumOverflowFirst | ais/s3/mpt.go:95-101 | "65536a" fails with a range error: its digits exceed 16 unsigned bits before the letter is reached |
| Mpt.Wrap64 | ais/s3/mpt.go:111-113 | Go's int64 addition: the exact value when it fits, and otherwise the value congruent to it modulo 2^64 |
| Mpt.ObjSize | ais/s3/mpt.go:105-117 | the size is the int64 sum of the part sizes, which is the exact sum when it fits; an unknown upload is an error |
| Mpt.FinishUpload | ais/s3/mpt.go:121-138 | the upload no longer exists afterwards, and every other upload is untouched |
| Mpt.InitThenAddParts | ais/s3/mpt.go:44-68 | starting an upload and adding parts one by one leaves exactly those parts, in order, with the names and time it was started with |
| Mpt.AddAfterFinishFails | ais/s3/mpt.go:121-138 | once an upload has finished, adding a part to it fails and changes nothing |
| Mpt.Infos | ais/s3/mpt.go:166-169 | the listing collects one entry per upload visited, with its object name, ID and start time |
| Mpt.Insert | ais/s3/mpt.go:172-174 | inserting into a list sorted by start time keeps it sorted and adds exactly that entry |
| Mpt.SortByInitiated | ais/s3/mpt.go:172-174 | the result is sorted by start time and is a permutation of the input |
| Mpt.MarkerEnd | ais/s3/mpt.go:178-183 | the listing resumes just after the first entry whose ID is the marker, or at the start when no entry has it |
| Mpt.Truncate | ais/s3/mpt.go:188-190 | a positive maximum bounds the length; the result is a prefix, and it is the whole list when no cut is needed |
| Mpt.ListUploads | ais/s3/mpt.go:164-193 | the listing is a window of some ordering of all live uploads by start time, resumed after the marker and cut to a positive maximum; it is truncated iff the marker is a live upload, omits the marker and anything older, and an upload newer than the marker is missing only when the page is full of uploads no newer than it |
| Mpt.MarkerExcluded | ais/s3/mpt.go:176-187 | resuming after a live marker leaves it out and lists nothing that started before it |
| Mpt.ListingComplete | ais/s3/mpt.go:176-190 | an upload that sorts after the marker but is not listed was cut by the maximum: the page is full and everything on it started no later |
| Mpt.ListingFacts | ais/s3/mpt.go:188-191 | cutting a sorted listing keeps it sorted and made of live uploads |
| Mpt.ListUploadsFacts | ais/s3/mpt.go:166-174 | the sorted listing holds every live upload and only live uploads, one entry each |
| Mpt.EnumerationSize | ais/s3/mpt.go:166-169 | a range over the map visits as many IDs as there are uploads |
| Mpt.ListUploadsAsWrittenDiffers | ais/s3/mpt.go:176-187 | as written, a marker naming the oldest upload is listed again; the intended listing starts after it |
| Dpq.DpqFree | ais/dpq.go:60-63 | every field of the record is reset to its zero value |
| Dpq.Store | ais/dpq.go:83-131 | storing a parameter sets its field and no field the parser never reaches |
| Dpq.StoreFrame | ais/dpq.go:83-131 | storing one parameter leaves every other parameter's field unchanged |
| Dpq.FlagStoreFrame | ais/dpq.go:90-131 | storing a boolean parameter leaves every other parameter's field unchanged |
| Dpq.SubStoreFrame | ais/dpq.go:84-115 | storing a bucket, append or archive parameter leaves every other parameter's field unchanged |
| Dpq.TopStoreFrame | ais/dpq.go:92-127 | storing any other string parameter leaves every other parameter's field unchanged |
| Dpq.KeyEqValSpec | ais/dpq.go:156-161 | a split gives a non-empty key free of `=` that joins back to the segment with `=`; with no `=`, or `=` first, the whole segment is the key and the value is empty |
| Dpq.KeyEqValJoin | ais/dpq.go:156-161 | a non-empty key without `=`, joined to any value with `=`, splits back into that key and value |
| Dpq.Apply | ais/dpq.go:84-131 | a switch arm stores the parameter's value (parsed as a boolean, or unescaped, where the parameter requires it); it fails exactly on a malformed escape of an escaped parameter, and reports that parameter and the raw value |
| Dpq.ApplyFrame | ais/dpq.go:83-131 | an arm changes no other parameter's field |
| Dpq.Step | ais/dpq.go:78-133 | a key outside the supported set changes nothing and does not fail; a supported key runs its arm |
| Dpq.StepField | ais/dpq.go:78-131 | after one segment a field holds the segment's value when the segment names it, and is unchanged otherwise |
| Dpq.FirstSeg | ais/dpq.go:72-77 | the segment taken from the query contains no `&` |
| Dpq.RestAfter | ais/dpq.go:72-77 | the query is the first segment, `&`, and the rest; with no `&` the segment is the whole query and nothing remains |
| Dpq.ParseWith | ais/dpq.go:69-72 | an empty query changes nothing and does not fail |
| Dpq.ParseJoin | ais/dpq.go:71-80 | the loop handles the `&`-separated segments one after another, in order |
| Dpq.TrailingAmpersand | ais/dpq.go:71-77 | appending `&` to a non-empty query that does not already end in `&` changes nothing: no empty segment is handled |
| Dpq.ExtraAmpersandWith | ais/dpq.go:69-77 | for a loop whose handler ignores the empty segment, appending `&` to any query, even an empty one or one ending in `&`, changes nothing |
| Dpq.ExtraAmpersand | ais/dpq.go:69-87 | when no supported key is empty, an empty segment changes nothing and passes, so any number of trailing `&` leaves the parse unchanged |
| Dpq.SegmentWithoutEquals | ais/dpq.go:78-80 | a segment without `=` is a key with an empty value |
| Dpq.FailStops | ais/dpq.go:86-89 | once a segment fails, the segments after it are not looked at |
| Dpq.ParseKeepsUnreached | ais/dpq.go:69-154 | parsing never touches the record fields no parameter names |
| Dpq.RunFails | ais/dpq.go:71-131 | processing fails exactly when some segment fails, and reports the error of the first failing segment |
| Dpq.StepFails | ais/dpq.go:86-115 | a segment fails exactly when it names an escaped parameter whose value does not unescape |
| Dpq.ApplyAllFails | ais/dpq.go:69-131 | the parse fails iff some segment carries a malformed escape of an escaped parameter; the error names the first such segment's parameter and raw value |
| Dpq.ApplyAllFailsAt | ais/dpq.go:69-131 | the parse fails exactly at the first failing segment, with that segment's error |
| Dpq.RunLastWins | ais/dpq.go:71-131 | without failure, a field holds what the last segment assigning it stored |
| Dpq.HandleTracks | ais/dpq.go:83-131 | each segment assigns exactly the parameter its key names |
| Dpq.LastOccurrenceWins | ais/dpq.go:71-131 | after a successful parse every parameter holds the value of its last occurrence, or its old value when absent |
| Dpq.UnknownKeysIgnored | ais/dpq.go:133-151 | a query of unsupported keys changes nothing and does not fail |
| AwsInv.Sub | ais/backend/awsinv.go:86-91 | a time difference is exact within the `time.Duration` range and saturates at its bounds |
| AwsInv.SinceInv | ais/backend/awsinv.go:86-91 | the distance between two times is never negative and is the absolute difference, capped at the largest duration |
| AwsInv.UsableInv | ais/backend/awsinv.go:93-109 | the cached inventory is usable iff it exists and its time is within 4 seconds of the latest; its size is reported only then |
| AwsInv.ValidateSchema | ais/backend/awsinv.go:158-170 | an empty schema is an error; the schema is accepted iff its fields split at `", "` start with `Bucket`, `Key`; the fields join back to the text |
| AwsInv.SplitHead | ais/backend/awsinv.go:163-166 | the first field of the split is a given separator-free word exactly when the text starts with that word and the separator |
| AwsInv.SchemaShape | ais/backend/awsinv.go:163-169 | the field checks hold exactly when the text is `Bucket, Key` or starts with `Bucket, Key, ` |
| AwsInv.Newest | ais/backend/awsinv.go:214-231 | nothing is chosen iff no name qualifies; otherwise the chosen object qualifies, is at least as new as every other, and on a tie the first one seen is kept (the last one when all are at Go's zero time, which the loop treats as nothing chosen) |
| AwsInv.CleanupVictims | ais/backend/awsinv.go:253-263 | the chosen CSV is never deleted, and an object is deleted iff it is at least 23 hours older than the chosen one |
| AwsInv.GetInventory | ais/backend/awsinv.go:198-263 | no `.csv.gz` listed is NotFound naming the prefix or bucket; with one listed the result is Ok exactly when the schema validates, and the schema error otherwise; the newest `.csv.gz` is chosen; the cached copy and its size are kept iff usable; otherwise the refresh deletes exactly the cleanup victims, never the chosen CSV |
| AwsInv.SizeFrom | ais/backend/awsinv.go:384-391 | a parsed size fits in 64 signed bits |
| AwsInv.SizeFromFails | ais/backend/awsinv.go:384-391 | the size fails exactly when some `Size` column fails to parse, and then with the first such column's error |
| AwsInv.SizeFromValue | ais/backend/awsinv.go:384-391 | without failure the last `Size` column's signed value counts, and the earlier size stands when there is none |
| AwsInv.Visible | ais/backend/awsinv.go:340-376 | the listable lines are increasing line numbers within the file |
| AwsInv.VisibleExtends | ais/backend/awsinv.go:340-376 | a listable line is the next entry after the listable lines before it |
| AwsInv.TokenSeenSpec | ais/backend/awsinv.go:360-370 | skipping ends exactly once a line with the prefix names the continuation token |
| AwsInv.VisibleMembers | ais/backend/awsinv.go:351-370 | a line is listable iff its name has the prefix and, with a token, the token line has been reached |
| AwsInv.ListingPrefix | ais/backend/awsinv.go:356-358 | only names with the prefix are listed, and without a token every such name is |
| AwsInv.ListingStartsAtToken | ais/backend/awsinv.go:360-370 | with a token, the listing starts at the first line naming it and nothing before it is listed |
| AwsInv.NoTokenBeforeFirst | ais/backend/awsinv.go:360-370 | no line before the first listable one names the token |
| AwsInv.FirstNamesToken | ais/backend/awsinv.go:365-370 | the first listable line names the token itself |
| AwsInv.PageFull | ais/backend/awsinv.go:372-376 | when the page is full, the next listable name becomes the new token |
| AwsInv.PageError | ais/backend/awsinv.go:384-391 | a size that does not parse before the page is full is the page's error |
| AwsInv.PageEnd | ais/backend/awsinv.go:340-345 | reaching the end of the file with room left ends the listing |
| AwsInv.MatchExtends | ais/backend/awsinv.go:378-391 | a listable line adds its name and parsed size as the next entry |
| AwsInv.ListInventory | ais/backend/awsinv.go:328-409 | over the lines read after the offset: the page holds the first page-size listable lines in order with their sizes; it fails iff one of those sizes is malformed; eof iff everything fit; otherwise the token is the next listable name |
| TarDataset.LastIndex | tar2tf/tar2tf/ais_dataset.py:76 | the position of the last occurrence of a character, or -1 when there is none |
| TarDataset.Basename | tar2tf/tar2tf/ais_dataset.py:44 | the base name is the part after the last `/` |
| TarDataset.SplitExt | tar2tf/tar2tf/ais_dataset.py:76 | root and extension rejoin to the name, and the extension is empty or one dot followed by non-dot, non-slash characters |
| TarDataset.SplitExtJoin | tar2tf/tar2tf/ais_dataset.py:76-77 | appending `.ext` to a root whose base name is not all dots splits back into that root and extension |
| TarDataset.IsValidTarEntry | tar2tf/tar2tf/ais_dataset.py:39-47 | an extension outside the list raises TypeError; a listed extension is accepted iff the base name does not start with `._` |
| TarDataset.LastContent | tar2tf/tar2tf/ais_dataset.py:82-85 | content for a key and extension exists only when some kept member has that key |
| TarDataset.LastContentSpec | tar2tf/tar2tf/ais_dataset.py:82-85 | the content for an extension is that of the last kept member with that key and extension |
| TarDataset.TarRecords | tar2tf/tar2tf/ais_dataset.py:60-87 | the pass raises TypeError iff some extractable member has an extension outside the list; otherwise it builds the records of all members |
| TarDataset.CollectEntries | tar2tf/tar2tf/ais_dataset.py:63-85 | the loop over entries raises iff some entry raises, and otherwise builds the reference records |
| TarDataset.BuildInv | tar2tf/tar2tf/ais_dataset.py:60-87 | records appear once each in first-seen order, one per key of a kept member; `__key__` holds the key; each extension holds the last content seen for it |
| TarDataset.StepKeeps | tar2tf/tar2tf/ais_dataset.py:68-85 | one member keeps the record order and contents invariants |
| TarDataset.Put | tar2tf/tar2tf/ais_dataset.py:82-85 | adding a member sets `__key__` and its extension in its key's record and changes nothing else |
| TarDataset.SkipEntry | tar2tf/tar2tf/ais_dataset.py:68-80 | a member that is not extractable or is filtered out contributes nothing |
| TarDataset.AddEntryOrder | tar2tf/tar2tf/ais_dataset.py:82-83 | a kept member with a new key starts a record at the end of the order |
| TarDataset.AddEntryContent | tar2tf/tar2tf/ais_dataset.py:82-85 | a kept member overwrites its extension in its key's record |
| TarDataset.ValidateOp | tar2tf/tar2tf/ais_dataset.py:114-123 | a single op passes iff its type is supported, failing with an unknown-type error otherwise; a list always fails, a nested list with the nested-list error |
| TarDataset.FirstBadItem | tar2tf/tar2tf/ais_dataset.py:116-121 | a list item fails iff it is a nested list or of an unsupported type, and the first such item gives the error |
| TarDataset.OperationToValue | tar2tf/tar2tf/ais_dataset.py:196-206 | a single op without the required `ext_name` raises; otherwise it yields its `do`; a non-empty list raises |
| TarDataset.ValidatedOpEvaluates | tar2tf/tar2tf/ais_dataset.py:196-206 | an op that validates evaluates to its `do` on the record |
| TarDataset.CheckLoadArgs | tar2tf/tar2tf/ais_dataset.py:153-158 | `load_from_tar` accepts exactly `output_types`, `output_shapes` and `path`, and names an offending argument otherwise |
| TarDataset.NewAisDataset | tar2tf/tar2tf/ais_dataset.py:128-138 | the dataset is created iff both ops validate, the value op's error being reported first |
| TarDataset.DefaultOpsValidate | tar2tf/tar2tf/ais_dataset.py:128-134 | the default ops validate |
| IterDataset.BelowCount | python/aistore/pytorch/iter_dataset.py:47-49 | a slice with stride n has a k-th element iff k steps stay inside the source |
| IterDataset.CeilDivClosed | python/aistore/pytorch/iter_dataset.py:47-49 | shard w of n holds ceil((L - w) / n) objects when w < L, and none otherwise |
| IterDataset.IsliceIndex | python/aistore/pytorch/iter_dataset.py:47-49 | the k-th object of a shard is the source object at `start + k * step`, so the shard keeps source order |
| IterDataset.InShard | python/aistore/pytorch/iter_dataset.py:47-49 | worker w of n yields source position i iff `i mod n == w`, at place `i / n` |
| IterDataset.ShardsPartition | python/aistore/pytorch/iter_dataset.py:46-51 | every source position is in exactly one worker's shard |
| IterDataset.Iter | python/aistore/pytorch/iter_dataset.py:38-51 | with no worker every object is yielded once in order; a worker's stream is its shard; each pair is the object's name and content; an invalid worker raises |
| Strings.IndexByte | ais/dpq.go:73 | the first position of the character, or -1 iff it does not occur |
| Strings.Find | ais/backend/awsinv.go:163 | the first occurrence of the separator, or -1 when there is none |
| Strings.Split | ais/backend/awsinv.go:163 | a split always has at least one field |
| Strings.SplitJoinsBack | ais/backend/awsinv.go:163 | joining the fields of a split with the separator gives back the text |
| Strings.SplitPiecesFree | ais/backend/awsinv.go:163 | no field of a split contains the separator |
| Strings.SplitJoin | ais/backend/awsinv.go:346 | splitting fields joined by a character they do not contain gives back the fields |
| Strings.ParseFormat | ais/s3/mpt.go:96 | a value in range, printed in base 10, parses back to itself |
| Strings.ParseUintSpec | ais/backend/awsinv.go:388 | the unsigned digit loop gives a range error as soon as a leading digit run exceeds the width, else a syntax error for an empty or non-digit text, else the value of the digits |
| Strings.ParseIntAccepts | ais/backend/awsinv.go:388 | `strconv.ParseInt` base 10 succeeds exactly on a decimal whose signed value fits the width and yields that value; it reports a range error for a decimal out of range and as soon as the leading digits after the sign exceed the unsigned width, even before a non-digit, and a syntax error otherwise |

## Left out

- Locks (`mu` in `ais/s3/mpt.go`, the inventory lock in `ais/backend/awsinv.go`) are left out: each public call is one atomic step on the state.
- I/O is left out: S3 SDK calls, gzip, file create/rename/chtimes, SGL buffers, xattrs and `os.RemoveAll`. The inventory model starts from the listing and the CSV lines the calls would produce.
- The seek to the saved offset (awsinv.go:315-321) is left out. The listing's lines are those from the offset on, and the continuation token is found by scanning them. The read that follows the seek is covered under AwsInv.ListInventory below.
- The manifest line scan (awsinv.go:136-156) is left out. The schema string it extracts is an input of `AwsInv.ValidateSchema`.
- Optional inventory properties are left out: custom properties, ETag and LastModified (awsinv.go:337-339, 392-404). The `LsNoRecursion` check (awsinv.go:352-355) and `calcPageSize` are left out too. Entries carry only a name and a size.
- Reuse of entries from a previous page (awsinv.go:311-313, 379) is left out; every page builds fresh entries.
- AwsInv.ListInventory: models the line loop (awsinv.go:328-409) over all the lines after the saved offset. It leaves out the read before it (awsinv.go:323-327). There, `io.CopyN(sgl, fh, invSizeSGL-cos.KiB)` returns `io.EOF` whenever less than 1 MiB - 1 KiB remains. The page is then emptied and that `io.EOF` is returned, so in the source an inventory remainder shorter than that lists nothing. A longer remainder is read only up to that window. The model's "eof iff everything fit" therefore holds of the loop, not of `listInventory` as a whole. How the caller treats that `io.EOF` is not part of this model.
- AwsInv.ListInventory: the model requires every CSV line to have the key column and one column per schema field (`WellFormed`). The source needs less. It reads the key column of every line it reaches (awsinv.go:349). It reads other columns only on lines it lists: the `Size` columns (awsinv.go:384-391), and ETag and LastModified only when custom properties are requested (awsinv.go:392-403). So an input whose unlisted lines stop after the key, which the source lists normally, is outside the model. A line too short for a column the source does read is a Go index panic, which is not modelled either.
- `ListParts` (mpt.go:195-214), `DecryptToken` and `expiresIn` (authnsrv/utils.go:48-57, 186-205) are left out. They are JWT parsing, the wall clock, or xattr reads.
- Dpq.DpqFree: only the zero reset of `dpqFree` (dpq.go:60-63) is modelled. Handing the record back to `dpqPool` and taking it from the pool in `dpqAlloc` (dpq.go:53-58) are memory reuse with no effect on parsing.
- The debug-build check for unknown query keys (dpq.go:133-151) is left out. Only the release behaviour is modelled: the key is ignored.
- Aliasing in the ACL merges is left out. The code assigns `o.Access = n.Access` through shared references, so a later merge step can change an ACL already appended from the new list. The model merges values.
- The UUID-cleared bucket copy in `aclForBucket` (authnsrv/utils.go:83) is never read and is not modelled.
- The `isfile` test in `tar_records` (ais_dataset.py:73) is a bound method, which is always truthy. Only the `extractfile` test (ais_dataset.py:68-71) filters members.
- TFRecord writing, image decode/resize and the other generator helpers of `ais_dataset.py` are left out.
- `islice`'s `sys.maxsize` bound on a start index is left out.
- The debug assertions in `mpt.go` are not modelled.
- Mpt.GetPart: `getPart` is not part of this model. It is taken to return the first part with the requested number.

## Findings

| source | as written | input that shows it | evidently intended | confidence | as-written member | corrected member |
|---|---|---|---|---|---|---|
| authnsrv/utils.go:161-163 | the `if !found` append sits inside the inner loop, so it runs once per non-matching old ACL | old `[]`, new `[A(a,x)]` gives `[]`; old `[A(a,x), A(b,x)]`, new `[A(b,y)]` gives `[A(a,x), A(b,y), A(b,y)]` | append once after the inner loop, as `MergeClusterACLs` does | high, not executed | Authn.MergeBckAclsAsWrittenDiffers | Authn.MergeBckAcls |
| ais/s3/mpt.go:176-187 | the copy and re-slice run only before the marker is found, while `from` is still 0, so nothing is cut | two uploads, the marker naming the older one: the marker upload is listed again | drop the entries up to and including the marker | high, not executed | Mpt.ListUploadsAsWrittenDiffers | Mpt.ListUploads |
