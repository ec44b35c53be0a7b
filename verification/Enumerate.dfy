/** The enumerate operation: sorting, the assembly of a page into a reply, and its wire contract. */
module Enumerate {
  import opened Wrappers
  import opened Ordering
  import opened TextOrder
  import opened OffsetScan
  import opened Protocol
  import opened Cursor
  import Base64

  // ---- Sorting materialised rows ----

  /** A row as the sorter sees it: the text of its fields; a field may also be absent or null. */
  type Fields = map<string, Option<string>>

  datatype SortKey = SortKey(field: string, descending: bool)

  /** An absent field reads as the empty text, and a null one as the text Python prints for it. */
  function FieldText(row: Fields, field: string): string {
    if field !in row then "" else if row[field].None? then "None" else row[field].value
  }

  predicate HasValue(row: Fields, field: string) {
    field in row && row[field].Some?
  }

  /** Rows without a value come after rows that have one; among them the texts still decide. */
  predicate FieldLe(field: string, a: Fields, b: Fields) {
    if HasValue(a, field) != HasValue(b, field) then HasValue(a, field)
       else TextLe(FieldText(a, field), FieldText(b, field))
  }

  /** The order one pass sorts by; a descending pass reverses it and stays stable. */
  function PassOrder(key: SortKey): (Fields, Fields) -> bool {
    (a, b) => if key.descending then FieldLe(key.field, b, a) else FieldLe(key.field, a, b)
  }

  function IdentityOrder(names: seq<string>): (Fields, Fields) -> bool {
    if names == [] then (a, b) => true
    else Lexicographic((a, b) => TextLe(FieldText(a, names[0]), FieldText(b, names[0])), IdentityOrder(names[1..]))
  }

  /** One comparison by all keys, most significant first, with the identity as the last resort. */
  function KeyedOrder(keys: seq<SortKey>, identity: seq<string>): (Fields, Fields) -> bool {
    if keys == [] then IdentityOrder(identity)
    else Lexicographic(PassOrder(keys[0]), KeyedOrder(keys[1..], identity))
  }

  lemma PassOrderIsTotal(key: SortKey)
    ensures TotalPreorder(PassOrder(key))
  {
    TextLeIsTotalOrder();
  }

  lemma {:induction false} IdentityOrderIsTotal(names: seq<string>)
    ensures TotalPreorder(IdentityOrder(names))
  {
    if names != [] {
      TextLeIsTotalOrder();
      IdentityOrderIsTotal(names[1..]);
      var first: (Fields, Fields) -> bool := (a, b) => TextLe(FieldText(a, names[0]), FieldText(b, names[0]));
      LexicographicIsTotal(first, IdentityOrder(names[1..]));
    }
  }

  lemma {:induction false} KeyedOrderIsTotal(keys: seq<SortKey>, identity: seq<string>)
    ensures TotalPreorder(KeyedOrder(keys, identity))
  {
    if keys == [] {
      IdentityOrderIsTotal(identity);
    } else {
      PassOrderIsTotal(keys[0]);
      KeyedOrderIsTotal(keys[1..], identity);
      LexicographicIsTotal(PassOrder(keys[0]), KeyedOrder(keys[1..], identity));
    }
  }

  // ---- The order, read off the rows ----

  /** What a field reads as: nothing where it is absent, and Python's text for null. */
  function ReadsAs(row: Fields, field: string): string {
    if field !in row then ""
    else
      match row[field]
      case None => "None"
      case Some(text) => text
  }

  predicate IsEmpty(row: Fields, field: string) {
    field !in row || row[field] == None
  }

  predicate Alike(field: string, a: Fields, b: Fields) {
    IsEmpty(a, field) == IsEmpty(b, field) && ReadsAs(a, field) == ReadsAs(b, field)
  }

  /** Upwards, values come by their text, and rows without one after all others. */
  predicate IsLower(field: string, a: Fields, b: Fields) {
    if IsEmpty(a, field) == IsEmpty(b, field)
    then ReadsAs(a, field) != ReadsAs(b, field) && TextLe(ReadsAs(a, field), ReadsAs(b, field))
    else IsEmpty(b, field)
  }

  /** The first key by which two rows differ decides, downwards if it is descending. */
  ghost predicate DecidedByKey(keys: seq<SortKey>, k: nat, a: Fields, b: Fields) {
    && k < |keys| && (forall m :: 0 <= m < k ==> Alike(keys[m].field, a, b))
    && if keys[k].descending then IsLower(keys[k].field, b, a) else IsLower(keys[k].field, a, b)
  }

  /** Among the texts of the identity fields the first difference decides, upwards. */
  ghost predicate DecidedByName(names: seq<string>, k: nat, a: Fields, b: Fields) {
    && k < |names| && (forall m :: 0 <= m < k ==> ReadsAs(a, names[m]) == ReadsAs(b, names[m]))
    && ReadsAs(a, names[k]) != ReadsAs(b, names[k]) && TextLe(ReadsAs(a, names[k]), ReadsAs(b, names[k]))
  }

  ghost predicate IdentityInOrder(names: seq<string>, a: Fields, b: Fields) {
    || (exists k: nat :: DecidedByName(names, k, a, b))
    || (forall m :: 0 <= m < |names| ==> ReadsAs(a, names[m]) == ReadsAs(b, names[m]))
  }

  /** `a` may come before `b`. */
  ghost predicate MayPrecede(keys: seq<SortKey>, identity: seq<string>, a: Fields, b: Fields) {
    || (exists k: nat :: DecidedByKey(keys, k, a, b))
    || ((forall m :: 0 <= m < |keys| ==> Alike(keys[m].field, a, b)) && IdentityInOrder(identity, a, b))
  }

  lemma PassMeans(key: SortKey, a: Fields, b: Fields)
    ensures PassOrder(key)(a, b) && PassOrder(key)(b, a) <==> Alike(key.field, a, b)
    ensures PassOrder(key)(a, b) && !PassOrder(key)(b, a) <==>
      if key.descending then IsLower(key.field, b, a) else IsLower(key.field, a, b)
  {
    TextLeIsTotalOrder();
  }

  lemma FirstNameDecides(names: seq<string>, a: Fields, b: Fields)
    requires names != []
    ensures var x, y := ReadsAs(a, names[0]), ReadsAs(b, names[0]);
      IdentityOrder(names)(a, b) <==> if x == y then IdentityOrder(names[1..])(a, b) else TextLe(x, y)
  {
    TextLeIsTotalOrder();
  }

  lemma {:induction false} IdentityMeans(names: seq<string>, a: Fields, b: Fields)
    ensures IdentityOrder(names)(a, b) <==> IdentityInOrder(names, a, b)
  {
    if names != [] {
      var rest := names[1..];
      FirstNameDecides(names, a, b);
      IdentityMeans(rest, a, b);
      hide IdentityOrder, ReadsAs, TextLe;
      if k: nat :| DecidedByName(names, k, a, b) {
        if k > 0 {
          assert rest[k - 1] == names[k] && forall m :: 0 <= m < k - 1 ==> rest[m] == names[m + 1];
          assert DecidedByName(rest, k - 1, a, b);
        }
      }
      if ReadsAs(a, names[0]) == ReadsAs(b, names[0]) {
        if k: nat :| DecidedByName(rest, k, a, b) {
          assert rest[k] == names[k + 1] && forall m :: 1 <= m < k + 1 ==> names[m] == rest[m - 1];
          assert DecidedByName(names, k + 1, a, b);
        }
        assert forall m :: 1 <= m < |names| ==> names[m] == rest[m - 1];
        assert forall m :: 0 <= m < |rest| ==> rest[m] == names[m + 1];
      } else if TextLe(ReadsAs(a, names[0]), ReadsAs(b, names[0])) {
        assert DecidedByName(names, 0, a, b);
      }
    }
  }

  lemma {:induction false} KeyedMeans(keys: seq<SortKey>, identity: seq<string>, a: Fields, b: Fields)
    ensures KeyedOrder(keys, identity)(a, b) <==> MayPrecede(keys, identity, a, b)
  {
    if keys == [] {
      IdentityMeans(identity, a, b);
    } else {
      var rest := keys[1..];
      PassMeans(keys[0], a, b);
      KeyedMeans(rest, identity, a, b);
      hide PassOrder, Alike, IsLower, IdentityInOrder;
      if k: nat :| DecidedByKey(keys, k, a, b) {
        if k > 0 {
          assert rest[k - 1] == keys[k] && forall m :: 0 <= m < k - 1 ==> rest[m] == keys[m + 1];
          assert DecidedByKey(rest, k - 1, a, b);
        }
      }
      if Alike(keys[0].field, a, b) {
        if k: nat :| DecidedByKey(rest, k, a, b) {
          assert rest[k] == keys[k + 1] && forall m :: 1 <= m < k + 1 ==> keys[m] == rest[m - 1];
          assert DecidedByKey(keys, k + 1, a, b);
        }
        assert forall m :: 1 <= m < |keys| ==> keys[m] == rest[m - 1];
        assert forall m :: 0 <= m < |rest| ==> rest[m] == keys[m + 1];
      } else if PassOrder(keys[0])(a, b) {
        if PassOrder(keys[0])(b, a) {
          assert false;
        }
        assert DecidedByKey(keys, 0, a, b);
      }
    }
  }

  /**
    Sorts by identity, then stably by the caller's keys from last to first. The result is one sort by
    the lexicographic order of all keys with ascending identity as the final tie-break.
  */
  method SortRows(collected: seq<Fields>, keys: seq<SortKey>, identity: seq<string>) returns (rows: seq<Fields>)
    ensures rows == StableSort(KeyedOrder(keys, identity), collected)
    ensures multiset(rows) == multiset(collected)
    ensures Ordered(KeyedOrder(keys, identity), rows)
    ensures forall i, j :: 0 <= i < j < |rows| ==> MayPrecede(keys, identity, rows[i], rows[j])
  {
    rows := StableSort(IdentityOrder(identity), collected);
    var i := |keys|;
    assert keys[|keys|..] == [];
    while i > 0
      invariant 0 <= i <= |keys|
      invariant rows == StableSort(KeyedOrder(keys[i..], identity), collected)
    {
      i := i - 1;
      assert keys[i..][0] == keys[i] && keys[i..][1..] == keys[i + 1..];
      PassOrderIsTotal(keys[i]);
      KeyedOrderIsTotal(keys[i + 1..], identity);
      StablePassesCompose(PassOrder(keys[i]), KeyedOrder(keys[i + 1..], identity), collected);
      rows := StableSort(PassOrder(keys[i]), rows);
    }
    assert keys[0..] == keys;
    KeyedOrderIsTotal(keys, identity);
    SortIsPermutation(KeyedOrder(keys, identity), collected);
    SortIsOrdered(KeyedOrder(keys, identity), collected);
    RowsAreInOrder(keys, identity, rows);
  }

  lemma RowsAreInOrder(keys: seq<SortKey>, identity: seq<string>, rows: seq<Fields>)
    requires Ordered(KeyedOrder(keys, identity), rows)
    ensures forall i, j :: 0 <= i < j < |rows| ==> MayPrecede(keys, identity, rows[i], rows[j])
  {
    forall i, j | 0 <= i < j < |rows|
      ensures MayPrecede(keys, identity, rows[i], rows[j])
    {
      KeyedMeans(keys, identity, rows[i], rows[j]);
    }
  }

  // ---- From a collected page to a reply ----

  /** What of a request the reply depends on. */
  datatype Request = Request(namespace: string, params: map<string, string>, epoch: string, limit: nat,
                             toleratesChange: bool, keyset: bool)

  function Gaps<R>(page: Collected<R>, changed: bool): seq<Gap> {
    (if page.partial then [Gap(CollectorError, false)] else [])
    + (if !page.complete then [Gap(NodeLimit, true)] else [])
    + (if changed then [Gap(SourceChanged, true)] else [])
  }

  function Finish<R>(codec: Codec, request: Request, start: Start, page: Collected<R>, before: string,
                     after: string): Response<R> {
    var more := !page.complete;
    var changed := start.sourceChanged || (more && after != before);
    if changed && page.rows == [] then Failure("enumerate source changed before any object was produced")
    else
      var gaps := Gaps(page, changed);
      var bound := if request.keyset && page.upperBound.Some? then Some(page.upperBound.value as int) else None;
      var cursor := if more then
          Some(EncodeCursor(codec, request.namespace, page.nextOffset, Binding(codec, request.params, request.epoch),
                            after, bound))
        else None;
      var upper := if page.upperBound.Some? then Some(page.upperBound.value as int) else None;
      var scan := Scan(before, page.scannedCount, page.matchedCount, |page.rows|, page.nextOffset, upper, !more);
      Page(if gaps == [] then Success else Partial, page.rows, gaps, cursor, Some(scan))
  }

  /** Every assembled page passes the wire contract, as long as its counts are those of one page. */
  lemma RepliesParse<R>(codec: Codec, request: Request, start: Start, page: Collected<R>, before: string, after: string)
    requires page.matchedCount == |page.rows| <= page.scannedCount <= ENUMERATE_SCAN_PAGE_LIMIT
    requires start.offset <= MAX_CURSOR_OFFSET
    requires page.upperBound.None? ==> page.nextOffset == start.offset + page.scannedCount
    requires page.upperBound.Some? ==> page.nextOffset <= page.upperBound.value <= MAX_CURSOR_OFFSET
    ensures ParsesOnTheWire(Finish(codec, request, start, page, before, after))
  {
  }

  /** What a reply says of its page: what it holds, what it could not see, where it goes on, and how far it has come. */
  lemma ReplyMeans<R>(codec: Codec, request: Request, start: Start, page: Collected<R>, before: string, after: string)
    requires Faithful(codec)
    ensures var reply := Finish(codec, request, start, page, before, after);
      var changed := start.sourceChanged || (!page.complete && after != before);
      if changed && page.rows == [] then reply.Failure?
      else
        && reply.Page? && reply.objects == page.rows
        && (reply.status == Success <==> !page.partial && page.complete && !changed)
        && (forall gap :: gap in reply.gaps <==>
              || (page.partial && gap == Gap(CollectorError, false))
              || (!page.complete && gap == Gap(NodeLimit, true))
              || (changed && gap == Gap(SourceChanged, true)))
        && (reply.cursor == None <==> page.complete)
        && reply.scan == Some(Scan(before, page.scannedCount, page.matchedCount, |page.rows|, page.nextOffset,
                                   if page.upperBound.Some? then Some(page.upperBound.value as int) else None,
                                   page.complete))
    ensures var reply := Finish(codec, request, start, page, before, after);
      reply.Page? && reply.cursor.Some? ==>
        var bytes := Base64.Decode(Base64.RestorePadding(reply.cursor.value));
        var bound := if request.keyset && page.upperBound.Some? then Some(page.upperBound.value as int) else None;
        var body := Body(1, request.namespace, page.nextOffset, Binding(codec, request.params, request.epoch), after,
                         bound);
        bytes.Some? && codec.read(bytes.value) == Some((body, codec.digestBody(body)))
  {
    hide Base64.Decode, Base64.RestorePadding, EncodeCursor;
    var bound := if request.keyset && page.upperBound.Some? then Some(page.upperBound.value as int) else None;
    IssuedTokenDecodes(codec, request.namespace, page.nextOffset, Binding(codec, request.params, request.epoch), after,
                       bound);
    var changed := start.sourceChanged || (!page.complete && after != before);
    GapsMean(page, changed);
  }

  lemma GapsMean<R>(page: Collected<R>, changed: bool)
    ensures forall gap :: gap in Gaps(page, changed) <==>
      || (page.partial && gap == Gap(CollectorError, false))
      || (!page.complete && gap == Gap(NodeLimit, true))
      || (changed && gap == Gap(SourceChanged, true))
    ensures Gaps(page, changed) == [] <==> !page.partial && page.complete && !changed
  {
  }

  /** The executor sees a clean page exactly when nothing was skipped and the source did not move. */
  lemma CleanPageIff<R>(codec: Codec, request: Request, start: Start, page: Collected<R>, before: string, after: string)
    requires Faithful(codec) && ParsesOnTheWire(Finish(codec, request, start, page, before, after))
    ensures var details := ToolDetails(Finish(codec, request, start, page, before, after));
      var changed := start.sourceChanged || (!page.complete && after != before);
      && (details.Details? && !IsIncompleteRemotePage(details) <==> !page.partial && !changed)
      && (!page.partial && !changed ==> details.rows == page.rows && (details.cursorRef.None? <==> page.complete))
  {
    var changed := start.sourceChanged || (!page.complete && after != before);
    var details := ToolDetails(Finish(codec, request, start, page, before, after));
    var bound := if request.keyset && page.upperBound.Some? then Some(page.upperBound.value as int) else None;
    IssuedTokenIsNotEmpty(codec, request.namespace, page.nextOffset, Binding(codec, request.params, request.epoch),
                          after, bound);
    hide EncodeCursor;
    if details.Details? {
      assert details.gaps == Gaps(page, changed);
      if page.partial {
        assert Gap(CollectorError, false) in details.gaps;
      } else if changed {
        assert Gap(SourceChanged, true) in details.gaps;
      }
    }
  }
}
