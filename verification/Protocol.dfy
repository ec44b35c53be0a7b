/** The wire contract between the controller and the host helper for one page of a scan. */
module Protocol {
  import opened Wrappers

  const MAX_SAFE_INTEGER: int := 9007199254740991

  datatype GapCode =
    | PermissionDenied
    | CapabilityUnavailable
    | Deadline
    | NodeLimit
    | ByteLimit
    | OutputLimit
    | SourceChanged
    | FieldUnavailable
    | CollectorError

  datatype Gap = Gap(code: GapCode, resumable: bool)

  datatype Scan = Scan(
    sourceGeneration: string,
    scannedCount: int,
    matchedCount: int,
    returnedCount: int,
    nextOffset: int,
    upperBound: Option<int>,
    complete: bool)

  datatype Status = Success | Partial

  /** A reply envelope, once its identity, cost and field types have been accepted. */
  datatype Response<+R> =
    | Page(status: Status, objects: seq<R>, gaps: seq<Gap>, cursor: Option<string>, scan: Option<Scan>)
    | Failure(message: string)

  predicate IsSafeCount(n: int) {
    0 <= n <= MAX_SAFE_INTEGER
  }

  /** The agreement checks between scan progress, objects and cursor. */
  predicate ScanAgrees<R>(scan: Scan, objects: seq<R>, cursor: Option<string>) {
    && IsSafeCount(scan.scannedCount) && IsSafeCount(scan.matchedCount)
    && IsSafeCount(scan.returnedCount) && IsSafeCount(scan.nextOffset)
    && (scan.upperBound.Some? ==>
          -MAX_SAFE_INTEGER <= scan.upperBound.value <= MAX_SAFE_INTEGER && scan.upperBound.value >= scan.nextOffset)
    && scan.returnedCount == |objects|
    && scan.complete == cursor.None?
  }

  predicate ParsesOnTheWire<R>(r: Response<R>) {
    match r
    case Failure(_) => true
    case Page(status, objects, gaps, cursor, scan) =>
      && (scan.Some? ==> ScanAgrees(scan.value, objects, cursor))
      && (status.Partial? ==> |gaps| > 0)
  }

  /**
    What the executor sees of one tool call: an exception, the details of a page, or, before the call,
    that its arguments do not fit the operation.
  */
  datatype Details<+R> =
    | Threw
    | Unfit
    | Details(status: Status, cursorRef: Option<string>, gaps: seq<Gap>, rows: seq<R>)

  /** A text that may be missing, as a truth test takes it: an empty one counts as missing. */
  function Given(text: Option<string>): Option<string> {
    if text == Some("") then None else text
  }

  /** The tool layer turns wire errors and unacceptable envelopes into exceptions and passes the rest on. */
  function ToolDetails<R>(r: Response<R>): Details<R> {
    if r.Failure? || !ParsesOnTheWire(r) then Threw
    else Details(r.status, Given(r.cursor), r.gaps, r.objects)
  }

  predicate IsPageBoundary(gap: Gap) {
    gap.code.NodeLimit? && gap.resumable
  }

  /** NODE_LIMIT with a cursor only says that this page is full. */
  predicate IsIncompleteRemotePage<R>(details: Details<R>)
    requires details.Details?
  {
    && details.status.Partial?
    && !(details.cursorRef.Some? && |details.gaps| > 0 && forall g :: g in details.gaps ==> IsPageBoundary(g))
  }

  /** What a page must not say if it is to be accepted. */
  predicate ContradictsItself<R>(r: Response<R>)
    requires r.Page?
  {
    || (r.status.Partial? && r.gaps == [])
    || (r.scan.Some?
        && var scan := r.scan.value;
        || scan.returnedCount != |r.objects|
        || (scan.complete && r.cursor.Some?) || (!scan.complete && r.cursor.None?)
        || (exists n :: n in [scan.scannedCount, scan.matchedCount, scan.returnedCount, scan.nextOffset]
                        && (n < 0 || n >= 0x20_0000_0000_0000))
        || (scan.upperBound.Some?
            && (scan.upperBound.value < scan.nextOffset || scan.upperBound.value >= 0x20_0000_0000_0000)))
  }

  /**
    A reply comes to an exception exactly if it is an error or contradicts itself; otherwise its
    page goes on unchanged.
  */
  lemma WhatIsAccepted<R>(r: Response<R>)
    ensures ToolDetails(r).Threw? <==> r.Failure? || ContradictsItself(r)
    ensures !ToolDetails(r).Threw? ==>
      && r.Page?
      && ToolDetails(r) == Details(r.status, if r.cursor == Some("") then None else r.cursor, r.gaps, r.objects)
  {
    if r.Page? && r.scan.Some? {
      var scan := r.scan.value;
      var counts := [scan.scannedCount, scan.matchedCount, scan.returnedCount, scan.nextOffset];
      assert counts[0] in counts && counts[1] in counts && counts[2] in counts && counts[3] in counts;
    }
  }

  /** A page falls short if it is PARTIAL for another reason than being full with a cursor to go on. */
  ghost predicate FallsShort<R>(details: Details<R>)
    requires details.Details?
  {
    && details.status == Partial
    && (details.cursorRef == None || details.gaps == [] || exists g :: g in details.gaps && g != Gap(NodeLimit, true))
  }

  lemma IncompleteMeans<R>(details: Details<R>)
    requires details.Details?
    ensures IsIncompleteRemotePage(details) <==> FallsShort(details)
  {
  }
}
