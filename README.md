# Container Linux userdata validator — validation pipeline

A Dafny model of the decision logic of `validate.go`, the validator that
tells whether a machine-provisioning blob is a valid Ignition config, a
cloud-config or a script. Both entry points, `fileValidate` (the command line,
reading stdin) and `putValidate` (the HTTP `PUT /validate` handler, reading the
request body), run the same pipeline:

1. **Normalize** — every carriage-return byte is removed (`normalize.dfy`).
2. **Dispatch** on the error value of the Ignition parser (`validate.dfy`):
   `ErrCloudConfig`, `ErrEmpty` and `ErrScript` go to the coreos-cloudinit
   validator, whose entries are returned as they are (its failure is a hard
   failure); `ErrUnknownVersion` gives one fixed Error entry; anything else,
   success included, gives the parser's own report, sorted (`report.dfy`).
3. **Outcome** — the command line logs "fatal", "looks good" or "failed" from
   `(count, entries, err)`.

`Validation.Pipeline` is the shared pipeline, parameterised by the entry
point's unknown-version message; `FileValidate` and `PutValidate` shape its
`Outcome` into their own results (`-1, nil, err` against an `InternalError`
status with a nil payload). The Ignition parser, the cloud-config/script
validator and the report's sort key are foreign code: they are the three
function fields of a `Collaborators` value, so every property holds for any
behaviour of theirs. Reading the input is the `ReadResult` given to the entry
point (bytes, or a read error's message).

Two consequences of the code worth spelling out:
- Empty input: when `ignConfig.Parse` returns `ErrEmpty` (validate.go:115),
  the input goes to the cloud-config/script validator and is not reported as
  an unknown version (`FallbackEntriesReturned`).
- Validity: the command line says "looks good" only when the count of all
  entries is zero (validate.go:81), so a report holding only warnings is
  "failed" (`CheckStdinVerdicts`).

## Model

| member | source | states |
|---|---|---|
| Normalization.Normalize | validate.go:111 | the result holds no carriage return and every other byte value as often as the input does |
| Normalization.NormalizeSelectsKept | validate.go:138 | the result is exactly the input read at its non-CR positions, in increasing order |
| Normalization.NormalizeAppend | validate.go:111 | normalizing a concatenation is concatenating the normalized parts |
| Normalization.NormalizeFixedPoint | validate.go:111 | an input is unchanged by normalization if and only if it holds no carriage return |
| Normalization.NormalizeIdempotent | validate.go:111 | normalizing twice equals normalizing once |
| Normalization.OnlyCarriageReturnsNormalizeToEmpty | validate.go:111 | an input made only of carriage returns normalizes to the empty input |
| Report.Insert | validate.go:127 | inserting into a sorted report keeps it sorted and adds exactly that entry |
| Report.SortEntries | validate.go:154 | the sorted report is ordered by the key and is a permutation of the parser's entries |
| Report.SortEntriesKeepsSorted | validate.go:127 | a report already in key order is left unchanged by the sort |
| Report.SortEntriesIdempotent | validate.go:127 | sorting twice equals sorting once |
| Report.SortedPermutationUnique | validate.go:127 | with no key ties, two sorted permutations of the same entries are equal |
| Report.SortEntriesIsTheSort | validate.go:154 | with no key ties, any sorted permutation of the entries is the model's sort result |
| Validation.RoutesToFallback | validate.go:115 | only the cloud-config, empty and script errors route to the fallback validator; success, an unknown version and any other error do not |
| Validation.Pipeline | validate.go:111-129 | a failed read is a hard failure with its message; on a routing error the fallback's failure or its entries unchanged; otherwise findings: the fixed unknown-version entry, or a sorted permutation of the parser's report |
| Validation.UnknownVersionEntry | validate.go:122-125 | the fixed finding has kind Error and the entry point's message |
| Validation.FileValidate | validate.go:105-130 | the error is set exactly when the count is -1 and exactly when there are no entries; otherwise the count is the number of entries |
| Validation.PutValidate | validate.go:132-157 | the status is an internal error exactly when the payload is nil |
| Validation.Decide | validate.go:77-85 | "fatal" exactly when there is an error; "looks good" exactly when there is none and the count is 0 |
| Validation.CheckStdin | validate.go:78-85 | stdin validation is fatal exactly on a hard failure of the pipeline and looks good exactly when it finds nothing |
| Validation.ReadFailureIsHard | validate.go:106-109 | a failed read gives count -1, no entries and the read error (an internal error over HTTP) before any parsing |
| Validation.OnlyNormalizedInputIsParsed | validate.go:113-116 | collaborators that agree on the normalized bytes give the same outcome: the raw input reaches no parser |
| Validation.NormalizationInvariance | validate.go:138-143 | stripping carriage returns beforehand does not change the outcome |
| Validation.CarriageReturnsAreIgnored | validate.go:111-113 | inputs equal up to carriage returns get identical results at both entry points |
| Validation.FallbackEntriesReturned | validate.go:115-120 | on ErrCloudConfig, ErrEmpty or ErrScript the fallback's entries are returned unchanged with their count (OK status over HTTP) |
| Validation.FallbackFailureIsHard | validate.go:142-147 | a failing fallback validator gives count -1, no entries and its error; over HTTP an internal error with a nil payload |
| Validation.UnknownVersionIsOneError | validate.go:121-125 | ErrUnknownVersion gives one Error entry with the entry point's message, count 1, no error, whatever the fallback validator would do |
| Validation.PrimaryReportSorted | validate.go:126-128 | any other parse result gives a sorted permutation of the parser's entries, counted by their number, independent of the fallback validator |
| Validation.HardFailureOnlyFromReadOrFallback | validate.go:132-157 | the pipeline fails if and only if the read fails or a routed-to fallback validator fails |
| Validation.EntryPointsAgree | validate.go:141-156 | the HTTP status is an internal error exactly when the command line gets an error, with the same message; outside the unknown-version case both return the same entries |
| Validation.CheckStdinVerdicts | validate.go:77-85 | fatal exactly on a hard failure, looks good exactly when there are no findings, failed exactly when there are some |
| Validation.UnknownVersionFails | validate.go:121-125 | an unknown Ignition version is reported as a failed validation on the command line |
| Validation.OnlyCarriageReturnsParsedAsEmpty | validate.go:111-113 | an input of carriage returns only is validated as the empty input |

## Left out

- The HTTP server, routing, `optionsValidate`, `getHealth`, the `payloadWrapper` envelope, response headers and `panicHandler` (validate.go:44-72, 86-103, 159-161): transport plumbing and global setup.
- Flag parsing and the log lines of `main`: I/O; only the decision they encode is modelled (`Decide`).
- Reading stdin or the request body: an input `ReadResult`, not an operation.
- The internals of `ignConfig.Parse`, coreos-cloudinit's `validate.Validate` and the report library's sort: foreign code, modelled as arbitrary functions. The parsed config that `ignConfig.Parse` also returns is discarded by both callers and is not modelled.
- Report.SortEntries: `rpt.Sort()` reorders the report in place; the model returns the reordered sequence as a value. Its order is a stable insertion sort by an integer key; Go's `sort.Sort` is not stable, so among entries whose keys tie the model fixes one order the library need not (with no ties the result is the same, `SortEntriesIsTheSort`).
- Entry kinds and fields: one `Entry` type (kind, message, line, column) stands for both the Ignition report entry and the cloud-config entry; their different JSON shapes are not modelled, nor the difference between a nil and an empty entry slice from the parser.
