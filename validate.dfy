/**
  The per-input validation pipeline of validate.go, shared by the command-line
  entry point `fileValidate` and the HTTP entry point `putValidate`: strip
  carriage returns, hand the bytes to the Ignition parser, and route on the
  error value it returns — to the cloud-config/script validator, to a fixed
  unknown-version finding, or to the parser's own sorted report.

  The Ignition parser (`ignConfig.Parse`), the cloud-config/script validator
  (`validate.Validate`) and the sort key of the Ignition report library are
  not visible here; they are the fields of a `Collaborators` value, arbitrary
  total functions, so every lemma holds whatever they compute.
*/
module Validation {
  import opened Wrappers
  import opened Normalization
  import opened Report

  /** The error values `ignConfig.Parse` can return that the pipeline tells apart. */
  datatype ParseError =
    | ErrCloudConfig
    | ErrEmpty
    | ErrScript
    | ErrUnknownVersion
    | OtherError(message: string)

  /** What `ignConfig.Parse` returns apart from the config, which both callers discard. */
  datatype ParseResult = ParseResult(report: seq<Entry>, err: Option<ParseError>)

  /** What `validate.Validate` of coreos-cloudinit returns. */
  datatype FallbackResult = FallbackResult(entries: seq<Entry>, err: Option<string>)

  /** The foreign code the pipeline calls. */
  datatype Collaborators = Collaborators(
    parse: Bytes -> ParseResult,
    fallback: Bytes -> FallbackResult,
    sortKey: Entry -> int)

  /** Reading all of stdin or of the request body: its bytes, or the read error's message. */
  datatype ReadResult = ReadOk(data: Bytes) | ReadFailed(message: string)

  /** What one run of the pipeline produces before an entry point shapes it. */
  datatype Outcome =
    | Findings(entries: seq<Entry>)   // validation completed with these findings
    | HardFailure(message: string)    // the read or the fallback validator failed

  /** The message `fileValidate` reports for an unknown Ignition version. */
  const FileUnknownVersionMessage: string := "Unknown ignition version"

  /** The message `putValidate` reports for an unknown Ignition version. */
  const PutUnknownVersionMessage: string :=
    "Failed to parse config. Is this a valid Ignition Config, Cloud-Config, or script?"

  /** The parse errors that mean "not an Ignition config, try the other validator". */
  function RoutesToFallback(err: Option<ParseError>): (b: bool)
    ensures err.None? ==> !b
    ensures b ==> err.value != ErrUnknownVersion && !err.value.OtherError?
  {
    err == Some(ErrCloudConfig) || err == Some(ErrEmpty) || err == Some(ErrScript)
  }

  /** The single finding reported for an unknown Ignition version. */
  function UnknownVersionEntry(message: string): (e: Entry)
    ensures e.kind == Error && e.message == message
  {
    Entry(Error, message, 0, 0)
  }

  /** The pipeline shared by both entry points, given the entry point's unknown-version message. */
  function Pipeline(c: Collaborators, input: ReadResult, unknownVersionMessage: string): (r: Outcome)
    ensures input.ReadFailed? ==> r == HardFailure(input.message)
    ensures input.ReadOk? && RoutesToFallback(c.parse(Normalize(input.data)).err) ==>
      r == if c.fallback(Normalize(input.data)).err.Some?
           then HardFailure(c.fallback(Normalize(input.data)).err.value)
           else Findings(c.fallback(Normalize(input.data)).entries)
    ensures input.ReadOk? && !RoutesToFallback(c.parse(Normalize(input.data)).err) ==>
      r.Findings? &&
      (c.parse(Normalize(input.data)).err == Some(ErrUnknownVersion) ==>
         r.entries == [UnknownVersionEntry(unknownVersionMessage)]) &&
      (c.parse(Normalize(input.data)).err != Some(ErrUnknownVersion) ==>
         SortedBy(c.sortKey, r.entries) &&
         multiset(r.entries) == multiset(c.parse(Normalize(input.data)).report))
  {
    match input
    case ReadFailed(m) => HardFailure(m)
    case ReadOk(src) =>
      var config := Normalize(src);
      var parsed := c.parse(config);
      if RoutesToFallback(parsed.err) then
        var checked := c.fallback(config);
        if checked.err.Some? then HardFailure(checked.err.value) else Findings(checked.entries)
      else if parsed.err == Some(ErrUnknownVersion) then
        Findings([UnknownVersionEntry(unknownVersionMessage)])
      else
        Findings(SortEntries(c.sortKey, parsed.report))
  }

  /** `fileValidate`'s triple: the count, the entries (nil as None) and the error. */
  datatype FileResult = FileResult(count: int, entries: Option<seq<Entry>>, err: Option<string>)

  /** The command-line entry point. */
  function FileValidate(c: Collaborators, stdin: ReadResult): (r: FileResult)
    ensures r.err.Some? <==> r.count == -1
    ensures r.err.None? <==> r.entries.Some?
    ensures r.entries.Some? ==> r.count == |r.entries.value|
  {
    match Pipeline(c, stdin, FileUnknownVersionMessage)
    case Findings(es) => FileResult(|es|, Some(es), None)
    case HardFailure(m) => FileResult(-1, None, Some(m))
  }

  /** The status part of a response of the HTTP entry point. */
  datatype Status = OK | InternalError(message: string)

  /** `putValidate`'s payload (nil as None) and status. */
  datatype Response = Response(payload: Option<seq<Entry>>, status: Status)

  /** The HTTP entry point. */
  function PutValidate(c: Collaborators, body: ReadResult): (r: Response)
    ensures r.status.InternalError? <==> r.payload.None?
  {
    match Pipeline(c, body, PutUnknownVersionMessage)
    case Findings(es) => Response(Some(es), OK)
    case HardFailure(m) => Response(None, InternalError(m))
  }

  /** The three things the command line can log about stdin. */
  datatype Verdict = Fatal(message: string) | LooksGood | FailedToValidate(entries: Option<seq<Entry>>)

  /** The decision of `main` in stdin mode, on `fileValidate`'s result. */
  function Decide(r: FileResult): (v: Verdict)
    ensures v.Fatal? <==> r.err.Some?
    ensures v == LooksGood <==> r.err.None? && r.count == 0
  {
    if r.err.Some? then Fatal(r.err.value)
    else if r.count == 0 then LooksGood
    else FailedToValidate(r.entries)
  }

  /** Validating stdin on the command line, from the read to the logged verdict. */
  function CheckStdin(c: Collaborators, stdin: ReadResult): (v: Verdict)
    ensures v.Fatal? <==> Pipeline(c, stdin, FileUnknownVersionMessage).HardFailure?
    ensures v == LooksGood <==> Pipeline(c, stdin, FileUnknownVersionMessage) == Findings([])
  {
    Decide(FileValidate(c, stdin))
  }

  // ---------------------------------------------------------------------------
  // Properties of the pipeline

  /** A failed read is a hard failure carrying the read error, whatever the parsers would do. */
  lemma ReadFailureIsHard(c: Collaborators, m: string, msg: string)
    ensures Pipeline(c, ReadFailed(m), msg) == HardFailure(m)
    ensures FileValidate(c, ReadFailed(m)) == FileResult(-1, None, Some(m))
    ensures PutValidate(c, ReadFailed(m)) == Response(None, InternalError(m))
  {
  }

  /**
    The parser and the fallback validator see only the normalized bytes: two
    sets of collaborators that agree on `Normalize(raw)` give the same outcome.
  */
  lemma OnlyNormalizedInputIsParsed(c1: Collaborators, c2: Collaborators, raw: Bytes, msg: string)
    requires c1.parse(Normalize(raw)) == c2.parse(Normalize(raw))
    requires c1.fallback(Normalize(raw)) == c2.fallback(Normalize(raw))
    requires c1.sortKey == c2.sortKey
    ensures Pipeline(c1, ReadOk(raw), msg) == Pipeline(c2, ReadOk(raw), msg)
  {
  }

  /** Carriage returns make no difference: stripping them beforehand yields the same outcome. */
  lemma NormalizationInvariance(c: Collaborators, raw: Bytes, msg: string)
    ensures Pipeline(c, ReadOk(Normalize(raw)), msg) == Pipeline(c, ReadOk(raw), msg)
  {
    NormalizeIdempotent(raw);
  }

  /** Two inputs that differ only in carriage returns get the same findings at both entry points. */
  lemma CarriageReturnsAreIgnored(c: Collaborators, raw1: Bytes, raw2: Bytes)
    requires Normalize(raw1) == Normalize(raw2)
    ensures FileValidate(c, ReadOk(raw1)) == FileValidate(c, ReadOk(raw2))
    ensures PutValidate(c, ReadOk(raw1)) == PutValidate(c, ReadOk(raw2))
  {
  }

  /** A cloud-config, empty or script input gets the fallback validator's entries, unchanged. */
  lemma FallbackEntriesReturned(c: Collaborators, raw: Bytes)
    requires RoutesToFallback(c.parse(Normalize(raw)).err)
    requires c.fallback(Normalize(raw)).err.None?
    ensures var es := c.fallback(Normalize(raw)).entries;
      FileValidate(c, ReadOk(raw)) == FileResult(|es|, Some(es), None) &&
      PutValidate(c, ReadOk(raw)) == Response(Some(es), OK)
  {
  }

  /** A failing fallback validator is a hard failure, never a finding. */
  lemma FallbackFailureIsHard(c: Collaborators, raw: Bytes)
    requires RoutesToFallback(c.parse(Normalize(raw)).err)
    requires c.fallback(Normalize(raw)).err.Some?
    ensures var m := c.fallback(Normalize(raw)).err.value;
      FileValidate(c, ReadOk(raw)) == FileResult(-1, None, Some(m)) &&
      PutValidate(c, ReadOk(raw)) == Response(None, InternalError(m))
  {
  }

  /**
    An unknown Ignition version is one Error finding with the entry point's
    message, and the fallback validator is not consulted: any other fallback
    gives the same result.
  */
  lemma UnknownVersionIsOneError(c: Collaborators, raw: Bytes, otherFallback: Bytes -> FallbackResult)
    requires c.parse(Normalize(raw)).err == Some(ErrUnknownVersion)
    ensures var fileEntry := Entry(Error, FileUnknownVersionMessage, 0, 0);
      FileValidate(c, ReadOk(raw)) == FileResult(1, Some([fileEntry]), None)
    ensures var putEntry := Entry(Error, PutUnknownVersionMessage, 0, 0);
      PutValidate(c, ReadOk(raw)) == Response(Some([putEntry]), OK)
    ensures forall msg :: Pipeline(c.(fallback := otherFallback), ReadOk(raw), msg) == Pipeline(c, ReadOk(raw), msg)
  {
  }

  /**
    Any other parse result, success included, gives the parser's own entries
    sorted by the report key: a sorted permutation, as many as the parser
    reported, without consulting the fallback validator.
  */
  lemma PrimaryReportSorted(c: Collaborators, raw: Bytes, msg: string, otherFallback: Bytes -> FallbackResult)
    requires !RoutesToFallback(c.parse(Normalize(raw)).err)
    requires c.parse(Normalize(raw)).err != Some(ErrUnknownVersion)
    ensures var parsed := c.parse(Normalize(raw));
      Pipeline(c, ReadOk(raw), msg).Findings? &&
      SortedBy(c.sortKey, Pipeline(c, ReadOk(raw), msg).entries) &&
      multiset(Pipeline(c, ReadOk(raw), msg).entries) == multiset(parsed.report) &&
      FileValidate(c, ReadOk(raw)).count == |parsed.report|
    ensures Pipeline(c.(fallback := otherFallback), ReadOk(raw), msg) == Pipeline(c, ReadOk(raw), msg)
  {
  }

  /** The pipeline fails only on a failed read or a failed fallback validator, never for an invalid config. */
  lemma HardFailureOnlyFromReadOrFallback(c: Collaborators, input: ReadResult, msg: string)
    ensures Pipeline(c, input, msg).HardFailure? <==>
      input.ReadFailed? ||
      (RoutesToFallback(c.parse(Normalize(input.data)).err) && c.fallback(Normalize(input.data)).err.Some?)
  {
  }

  /**
    The two entry points report the same thing: the HTTP status is an internal
    error exactly when `fileValidate` returns an error, with the same message,
    and outside the unknown-version case the payload equals `fileValidate`'s entries.
  */
  lemma EntryPointsAgree(c: Collaborators, input: ReadResult)
    ensures PutValidate(c, input).status.InternalError? <==> FileValidate(c, input).err.Some?
    ensures FileValidate(c, input).err.Some? ==>
      PutValidate(c, input).status == InternalError(FileValidate(c, input).err.value)
    ensures (input.ReadFailed? || c.parse(Normalize(input.data)).err != Some(ErrUnknownVersion)) ==>
      PutValidate(c, input).payload == FileValidate(c, input).entries
  {
  }

  /**
    The command line reports "fatal" exactly for a hard failure, "looks good"
    exactly when validation found nothing, and "failed" otherwise.
  */
  lemma CheckStdinVerdicts(c: Collaborators, stdin: ReadResult)
    ensures CheckStdin(c, stdin).Fatal? <==> Pipeline(c, stdin, FileUnknownVersionMessage).HardFailure?
    ensures CheckStdin(c, stdin) == LooksGood <==> Pipeline(c, stdin, FileUnknownVersionMessage) == Findings([])
    ensures CheckStdin(c, stdin).FailedToValidate? <==>
      Pipeline(c, stdin, FileUnknownVersionMessage).Findings? &&
      Pipeline(c, stdin, FileUnknownVersionMessage).entries != []
  {
  }

  /** An unknown Ignition version never looks good on the command line. */
  lemma UnknownVersionFails(c: Collaborators, raw: Bytes)
    requires c.parse(Normalize(raw)).err == Some(ErrUnknownVersion)
    ensures CheckStdin(c, ReadOk(raw)) == FailedToValidate(Some([UnknownVersionEntry(FileUnknownVersionMessage)]))
  {
  }

  /** An input of carriage returns only is handed to the parser as the empty input. */
  lemma OnlyCarriageReturnsParsedAsEmpty(c: Collaborators, raw: Bytes, msg: string)
    requires forall i :: 0 <= i < |raw| ==> raw[i] == CR
    ensures Pipeline(c, ReadOk(raw), msg) == Pipeline(c, ReadOk([]), msg)
  {
    OnlyCarriageReturnsNormalizeToEmpty(raw);
  }
}
