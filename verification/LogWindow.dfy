/**
  The log window moves: every page of a log scan computes its own cutoff from its own clock, while
  its offset counts events of the previous page's window. This is where the exactness of offset
  paging ends for log events: exactly when an event is lost between two pages, and over a whole walk.
*/
module LogWindow {
  import opened Wrappers
  import opened OffsetScan
  import opened LogScan
  import opened Selection

  lemma {:induction false} EventsAreInWindow<R>(cutoff: int, records: seq<LogRecord<R>>)
    ensures forall i :: 0 <= i < |LogicalEvents(cutoff, records)| ==>
      LogicalEvents(cutoff, records)[i].timestamp >= cutoff
  {
    if records != [] {
      EventsAreInWindow(cutoff, records[..|records| - 1]);
    }
  }

  lemma {:induction false} NoExpiryNoChange<R>(earlier: int, later: int, records: seq<LogRecord<R>>)
    requires earlier <= later
    requires forall i :: 0 <= i < |LogicalEvents(earlier, records)| ==>
      LogicalEvents(earlier, records)[i].timestamp >= later
    ensures LogicalEvents(earlier, records) == LogicalEvents(later, records)
  {
    if records != [] {
      var front := records[..|records| - 1];
      LogicalEventsExtend(earlier, front, records);
      var events, before := LogicalEvents(earlier, records), LogicalEvents(earlier, front);
      assert before == events[..|before|];
      forall i | 0 <= i < |before|
        ensures before[i].timestamp >= later
      {
        assert before[i] == events[i];
      }
      NoExpiryNoChange(earlier, later, front);
      var last := records[|records| - 1];
      if last.timestamp >= earlier && !HasKey(before, last.key) {
        assert events[|before|] == last;
      }
    }
  }

  /**
    Moving the cutoff leaves the logical source of a log scan as it was exactly when no event of the
    earlier window has expired; only then do offsets of one page mean anything to the next.
  */
  lemma WindowUnchangedIffNothingExpired<R>(earlier: int, later: int, records: seq<LogRecord<R>>)
    requires earlier <= later
    ensures LogicalEvents(earlier, records) == LogicalEvents(later, records)
       <==> forall i :: 0 <= i < |LogicalEvents(earlier, records)| ==>
         LogicalEvents(earlier, records)[i].timestamp >= later
  {
    EventsAreInWindow(later, records);
    if forall i :: 0 <= i < |LogicalEvents(earlier, records)| ==>
       LogicalEvents(earlier, records)[i].timestamp >= later {
      NoExpiryNoChange(earlier, later, records);
    }
  }

  // ---- Two windows over the same records ----

  /** Copies of one event fall on the same side of the cutoff. */
  ghost predicate CopiesAgree<R>(cutoff: int, records: seq<LogRecord<R>>) {
    forall i, j :: 0 <= i < |records| && 0 <= j < |records| && records[i].key == records[j].key ==>
      (records[i].timestamp >= cutoff <==> records[j].timestamp >= cutoff)
  }

  function Within<R>(cutoff: int): LogRecord<R> -> bool {
    (event: LogRecord<R>) => event.timestamp >= cutoff
  }

  ghost predicate DistinctKeys<R>(events: seq<LogRecord<R>>) {
    forall i, j :: 0 <= i < j < |events| ==> events[i].key != events[j].key
  }

  /** No two events of a window have the same key, and each is one of the records. */
  lemma {:induction false} EventsAreDistinct<R>(cutoff: int, records: seq<LogRecord<R>>)
    ensures DistinctKeys(LogicalEvents(cutoff, records))
    ensures forall event :: event in LogicalEvents(cutoff, records) ==> event in records
  {
    if records != [] {
      var front := records[..|records| - 1];
      var before := LogicalEvents(cutoff, front);
      EventsAreDistinct(cutoff, front);
      assert records == front + [records[|records| - 1]];
      var events, last := LogicalEvents(cutoff, records), records[|records| - 1];
      assert events == before || (events == before + [last] && !HasKey(before, last.key));
      if events != before {
        assert forall i :: 0 <= i < |before| ==> events[i] == before[i] && before[i].key != last.key;
      }
    }
  }

  /**
    The first `count` events of the earlier window are the first of the later one exactly when none of
    them has expired, whatever became of the events after them.
  */
  lemma PassedEventsStayIffUnexpired<R>(earlier: int, later: int, records: seq<LogRecord<R>>, count: nat)
    requires earlier <= later && count <= |LogicalEvents(earlier, records)|
    ensures LogicalEvents(earlier, records)[..count] <= LogicalEvents(later, records)
       <==> forall i :: 0 <= i < count ==> LogicalEvents(earlier, records)[i].timestamp >= later
  {
    EventsAreInWindow(later, records);
    var events, after := LogicalEvents(earlier, records), LogicalEvents(later, records);
    if events[..count] <= after {
      forall i | 0 <= i < count
        ensures events[i].timestamp >= later
      {
        assert events[i] == events[..count][i] == after[i];
      }
    } else if forall i :: 0 <= i < count ==> events[i].timestamp >= later {
      UnexpiredPrefixStays(earlier, later, records, count);
    }
  }

  lemma {:induction false} UnexpiredPrefixStays<R>(earlier: int, later: int, records: seq<LogRecord<R>>, count: nat)
    requires earlier <= later && count <= |LogicalEvents(earlier, records)|
    requires forall i :: 0 <= i < count ==> LogicalEvents(earlier, records)[i].timestamp >= later
    ensures LogicalEvents(earlier, records)[..count] <= LogicalEvents(later, records)
  {
    if records != [] {
      var front, last := records[..|records| - 1], records[|records| - 1];
      var events, before, after := LogicalEvents(earlier, records), LogicalEvents(earlier, front),
        LogicalEvents(later, front);
      LogicalEventsExtend(earlier, front, records);
      LogicalEventsExtend(later, front, records);
      if count <= |before| {
        assert events[..count] == before[..count];
        UnexpiredPrefixStays(earlier, later, front, count);
      } else {
        assert forall i :: 0 <= i < |before| ==> before[i] == events[i];
        assert events == before + [last] && events[|before|] == last;
        assert events[..count] == events;
        NoExpiryNoChange(earlier, later, front);
        assert LogicalEvents(later, records) == before + [last];
      }
    }
  }

  /** Where copies agree, the later window is what has not expired of the earlier one. */
  lemma {:induction false} LaterWindowIsWhatRemains<R>(earlier: int, later: int, records: seq<LogRecord<R>>)
    requires earlier <= later && CopiesAgree(later, records)
    ensures LogicalEvents(later, records) == Keep(Within(later), LogicalEvents(earlier, records))
  {
    hide CopiesAgree, HasKey, Keep;
    if records != [] {
      var front, last := records[..|records| - 1], records[|records| - 1];
      var before := LogicalEvents(earlier, front);
      CopiesAgreeBefore(later, records);
      LaterWindowIsWhatRemains(earlier, later, front);
      KeepOfBoth(Within<R>(later), before, [last]);
      KeepOfOne(Within<R>(later), last);
      var kept := Keep(Within(later), before);
      assert kept + [] == kept;
      if last.timestamp >= later {
        KnownEitherWay(earlier, later, records);
      }
    } else {
      KeepNone(Within<R>(later), []);
    }
  }

  lemma CopiesAgreeBefore<R>(cutoff: int, records: seq<LogRecord<R>>)
    requires CopiesAgree(cutoff, records) && records != []
    ensures CopiesAgree(cutoff, records[..|records| - 1])
  {
  }

  lemma KeepOfOne<T>(wanted: T -> bool, x: T)
    ensures Keep(wanted, [x]) == if wanted(x) then [x] else []
  {
    assert [x][1..] == [];
  }

  /** A record inside the later window repeats an event of the earlier one exactly when it repeats one that remains. */
  lemma KnownEitherWay<R>(earlier: int, later: int, records: seq<LogRecord<R>>)
    requires CopiesAgree(later, records) && records != [] && records[|records| - 1].timestamp >= later
    ensures var before := LogicalEvents(earlier, records[..|records| - 1]);
      HasKey(before, records[|records| - 1].key) <==> HasKey(Keep(Within(later), before), records[|records| - 1].key)
  {
    hide LogicalEvents, Keep;
    var front, last := records[..|records| - 1], records[|records| - 1];
    var before := LogicalEvents(earlier, front);
    var kept := Keep(Within(later), before);
    KeepMembers(Within<R>(later), before);
    EventsAreDistinct(earlier, front);
    if HasKey(before, last.key) {
      var i :| 0 <= i < |before| && before[i].key == last.key;
      assert before[i] in before && before[i] in front;
      var j :| 0 <= j < |front| && front[j] == before[i];
      assert records[j] == front[j];
      assert before[i] in kept;
      var k :| 0 <= k < |kept| && kept[k] == before[i];
    }
    if HasKey(kept, last.key) {
      var k :| 0 <= k < |kept| && kept[k].key == last.key;
      assert kept[k] in before;
    }
  }

  // ---- Between two pages ----

  /** The event is among those an offset leaves behind in a window. */
  ghost predicate Passed<R>(events: seq<LogRecord<R>>, offset: nat, key: string) {
    HasKey(events[..First(offset, |events|)], key)
  }

  /** The later window leaves the event behind, although the pages before had not come to it. */
  ghost predicate LostBetween<R>(events: seq<LogRecord<R>>, later: seq<LogRecord<R>>, offset: nat, key: string) {
    !Passed(events, offset, key) && Passed(later, offset, key)
  }

  lemma {:induction false} KeepIsShorter<T>(wanted: T -> bool, s: seq<T>)
    ensures |Keep(wanted, s)| <= |s|
    ensures |Keep(wanted, s)| == |s| <==> forall i :: 0 <= i < |s| ==> wanted(s[i])
  {
    if s != [] {
      KeepIsShorter(wanted, s[1..]);
      assert forall i :: 0 < i < |s| ==> s[1..][i - 1] == s[i];
      if forall i :: 0 <= i < |s| ==> wanted(s[i]) {
        assert forall i :: 0 <= i < |s[1..]| ==> s[1..][i] == s[i + 1];
      }
    }
  }

  lemma KeyOfMember<R>(events: seq<LogRecord<R>>, event: LogRecord<R>)
    requires event in events
    ensures HasKey(events, event.key)
  {
    var i :| 0 <= i < |events| && events[i] == event;
  }

  lemma {:induction false} KeptIsThere<R>(wanted: LogRecord<R> -> bool, s: seq<LogRecord<R>>, event: LogRecord<R>)
    requires event in Keep(wanted, s)
    ensures event in s
  {
    KeepMembers(wanted, s);
  }

  /** What an offset leaves behind and what is still to come, after some have expired. */
  lemma KeptParts<R>(later: int, events: seq<LogRecord<R>>, offset: nat)
    requires offset <= |events| && DistinctKeys(events)
    ensures var kept, rest := Keep(Within<R>(later), events[..offset]), Keep(Within<R>(later), events[offset..]);
      && (forall event :: event in kept ==> HasKey(events[..offset], event.key))
      && (forall event :: event in rest ==> !HasKey(events[..offset], event.key))
  {
    var passed, coming := events[..offset], events[offset..];
    var kept, rest := Keep(Within<R>(later), passed), Keep(Within<R>(later), coming);
    forall event: LogRecord<R> | event in kept
      ensures HasKey(passed, event.key)
    {
      KeptIsThere(Within(later), passed, event);
      KeyOfMember(passed, event);
    }
    forall event: LogRecord<R> | event in rest
      ensures !HasKey(passed, event.key)
    {
      KeptIsThere(Within(later), coming, event);
      var j :| 0 <= j < |coming| && coming[j] == event;
      assert events[offset + j] == event;
    }
  }

  /** How the two windows lie to each other at an offset. */
  lemma WindowSplits<R>(earlier: int, later: int, records: seq<LogRecord<R>>, offset: nat)
    requires earlier <= later && CopiesAgree(later, records) && offset <= |LogicalEvents(earlier, records)|
    ensures var events := LogicalEvents(earlier, records);
      var kept, rest := Keep(Within<R>(later), events[..offset]), Keep(Within<R>(later), events[offset..]);
      && LogicalEvents(later, records) == kept + rest && |kept| <= offset
      && (|kept| == offset <==> forall i :: 0 <= i < offset ==> events[i].timestamp >= later)
      && (forall event :: event in kept ==> HasKey(events[..offset], event.key))
      && (forall event :: event in rest ==> !HasKey(events[..offset], event.key))
  {
    var events := LogicalEvents(earlier, records);
    EventsAreDistinct(earlier, records);
    LaterWindowIsWhatRemains(earlier, later, records);
    hide LogicalEvents, Keep, HasKey, CopiesAgree;
    KeptParts(later, events, offset);
    assert events == events[..offset] + events[offset..];
    KeepOfBoth(Within<R>(later), events[..offset], events[offset..]);
    KeepIsShorter(Within<R>(later), events[..offset]);
  }

  /**
    Exactly when nothing is lost between two pages: none of the passed events has expired, or every
    event that is left had been passed. What expires further on does no harm.
  */
  lemma NothingLostBetweenIff<R>(earlier: int, later: int, records: seq<LogRecord<R>>, offset: nat)
    requires earlier <= later && CopiesAgree(later, records) && offset <= |LogicalEvents(earlier, records)|
    ensures var events, after := LogicalEvents(earlier, records), LogicalEvents(later, records);
      (forall key :: !LostBetween(events, after, offset, key))
      <==> (forall i :: 0 <= i < offset ==> events[i].timestamp >= later)
           || (forall i :: 0 <= i < |after| ==> HasKey(events[..offset], after[i].key))
  {
    var events, after := LogicalEvents(earlier, records), LogicalEvents(later, records);
    var kept, rest := Keep(Within<R>(later), events[..offset]), Keep(Within<R>(later), events[offset..]);
    WindowSplits(earlier, later, records, offset);
    hide LogicalEvents, Keep;
    if |kept| == offset || rest == [] {
      forall key | Passed(after, offset, key)
        ensures Passed(events, offset, key)
      {
        var i :| 0 <= i < First(offset, |after|) && after[..First(offset, |after|)][i].key == key;
        assert after[i] == kept[i] && kept[i] in kept;
      }
      if rest == [] {
        assert forall i :: 0 <= i < |after| ==> after[i] in kept;
      }
    } else {
      var key := rest[0].key;
      assert after[|kept|] == rest[0] && rest[0] in rest;
      assert after[..First(offset, |after|)][|kept|].key == key;
      assert LostBetween(events, after, offset, key);
    }
  }

  /** What was passed in one window and has not expired is passed in the next, at the same offset. */
  lemma PassedStaysPassed<R>(earlier: int, later: int, records: seq<LogRecord<R>>, offset: nat, key: string)
    requires earlier <= later && CopiesAgree(later, records)
    requires Passed(LogicalEvents(earlier, records), offset, key) && HasKey(LogicalEvents(later, records), key)
    ensures Passed(LogicalEvents(later, records), offset, key)
  {
    var events, after := LogicalEvents(earlier, records), LogicalEvents(later, records);
    var at := First(offset, |events|);
    WindowSplits(earlier, later, records, at);
    hide LogicalEvents, Keep, CopiesAgree, HasKey;
    FoundInFront(after, Keep(Within<R>(later), events[..at]), Keep(Within<R>(later), events[at..]), events[..at],
                 offset, key);
  }

  lemma FoundInFront<R>(after: seq<LogRecord<R>>, kept: seq<LogRecord<R>>, rest: seq<LogRecord<R>>,
                        passed: seq<LogRecord<R>>, offset: nat, key: string)
    requires after == kept + rest && |kept| <= offset && HasKey(after, key) && HasKey(passed, key)
    requires forall event :: event in rest ==> !HasKey(passed, event.key)
    ensures Passed(after, offset, key)
  {
    var i :| 0 <= i < |after| && after[i].key == key;
    assert forall j :: |kept| <= j < |after| ==> after[j] == rest[j - |kept|] && after[j] in rest;
    assert after[..First(offset, |after|)][i].key == key;
  }

  lemma PassedFurther<R>(events: seq<LogRecord<R>>, offset: nat, further: nat, key: string)
    requires offset <= further && Passed(events, offset, key)
    ensures Passed(events, further, key)
  {
    var i :| 0 <= i < First(offset, |events|) && events[..First(offset, |events|)][i].key == key;
    assert events[..First(further, |events|)][i].key == key;
  }

  // ---- A whole walk ----

  function StartOf<R>(pages: seq<Collected<R>>, i: nat): nat
    requires i <= |pages|
  {
    if i == 0 then 0 else pages[i - 1].nextOffset
  }

  /** Clean pages along the cursors, each over its own window of the same records, the last one complete. */
  ghost predicate IsLogWalk<R>(matches: R -> bool, limit: nat, records: seq<LogRecord<R>>, cutoffs: seq<int>,
                               pages: seq<Collected<R>>) {
    && |pages| == |cutoffs| > 0
    && (forall i, j :: 0 <= i <= j < |cutoffs| ==> cutoffs[i] <= cutoffs[j])
    && (forall i :: 0 <= i < |cutoffs| ==> CopiesAgree(cutoffs[i], records))
    && (forall i :: 0 <= i < |pages| ==> IsPageOf(matches, limit, records, cutoffs, pages, i))
    && pages[|pages| - 1].complete
  }

  ghost predicate IsPageOf<R>(matches: R -> bool, limit: nat, records: seq<LogRecord<R>>, cutoffs: seq<int>,
                              pages: seq<Collected<R>>, i: nat)
    requires i < |pages| == |cutoffs|
  {
    LogPage(matches, LogicalEvents(cutoffs[i], records), StartOf(pages, i), limit, pages[i])
  }

  ghost predicate InEveryWindow<R>(records: seq<LogRecord<R>>, cutoffs: seq<int>, key: string) {
    forall i :: 0 <= i < |cutoffs| ==> HasKey(LogicalEvents(cutoffs[i], records), key)
  }

  /** Page `i` came to the event. */
  ghost predicate Visits<R>(records: seq<LogRecord<R>>, cutoffs: seq<int>, pages: seq<Collected<R>>, i: nat,
                            key: string)
    requires i < |pages| == |cutoffs|
  {
    var events := LogicalEvents(cutoffs[i], records);
    Passed(events, pages[i].nextOffset, key) && !Passed(events, StartOf(pages, i), key)
  }

  ghost predicate LostAfter<R>(records: seq<LogRecord<R>>, cutoffs: seq<int>, pages: seq<Collected<R>>, i: nat,
                               key: string)
    requires i + 1 < |pages| == |cutoffs|
  {
    LostBetween(LogicalEvents(cutoffs[i], records), LogicalEvents(cutoffs[i + 1], records), pages[i].nextOffset, key)
  }

  lemma PageEnds<R>(matches: R -> bool, events: seq<LogRecord<R>>, start: nat, limit: nat, page: Collected<R>,
                    key: string)
    requires LogPage(matches, events, start, limit, page)
    ensures start <= page.nextOffset
    ensures page.complete && HasKey(events, key) ==> Passed(events, page.nextOffset, key)
  {
    hide Filtered, ScanEnd;
    assert page.complete ==> events[..First(page.nextOffset, |events|)] == events;
  }

  lemma {:induction false} OffsetsAscend<R>(matches: R -> bool, limit: nat, records: seq<LogRecord<R>>,
                                            cutoffs: seq<int>, pages: seq<Collected<R>>, i: nat, j: nat)
    requires IsLogWalk(matches, limit, records, cutoffs, pages) && i <= j <= |pages|
    ensures StartOf(pages, i) <= StartOf(pages, j)
    decreases j - i
  {
    hide LogicalEvents, LogPage, CopiesAgree;
    if i < j {
      assert IsPageOf(matches, limit, records, cutoffs, pages, j - 1);
      PageEnds(matches, LogicalEvents(cutoffs[j - 1], records), StartOf(pages, j - 1), limit, pages[j - 1], "");
      OffsetsAscend(matches, limit, records, cutoffs, pages, i, j - 1);
    }
  }

  lemma {:induction false} PassedCarries<R>(matches: R -> bool, limit: nat, records: seq<LogRecord<R>>,
                                            cutoffs: seq<int>, pages: seq<Collected<R>>, i: nat, j: nat, offset: nat,
                                            key: string)
    requires IsLogWalk(matches, limit, records, cutoffs, pages) && InEveryWindow(records, cutoffs, key)
    requires i <= j < |pages|
    requires Passed(LogicalEvents(cutoffs[i], records), offset, key)
    ensures Passed(LogicalEvents(cutoffs[j], records), offset, key)
    decreases j - i
  {
    hide LogicalEvents, IsPageOf, Passed, CopiesAgree, HasKey;
    if i < j {
      PassedCarries(matches, limit, records, cutoffs, pages, i, j - 1, offset, key);
      PassedStaysPassed(cutoffs[j - 1], cutoffs[j], records, offset, key);
    }
  }

  lemma LostWasNotVisited<R>(matches: R -> bool, limit: nat, records: seq<LogRecord<R>>, cutoffs: seq<int>,
                             pages: seq<Collected<R>>, i: nat, j: nat, key: string)
    requires IsLogWalk(matches, limit, records, cutoffs, pages) && InEveryWindow(records, cutoffs, key)
    requires j <= i < |pages| && Passed(LogicalEvents(cutoffs[j], records), pages[j].nextOffset, key)
    ensures Passed(LogicalEvents(cutoffs[i], records), pages[i].nextOffset, key)
  {
    hide LogicalEvents, Passed, CopiesAgree, HasKey, IsPageOf, InEveryWindow;
    PassedCarries(matches, limit, records, cutoffs, pages, j, i, pages[j].nextOffset, key);
    OffsetsAscend(matches, limit, records, cutoffs, pages, j + 1, i + 1);
    PassedFurther(LogicalEvents(cutoffs[i], records), pages[j].nextOffset, pages[i].nextOffset, key);
  }

  lemma LostWillNotBeVisited<R>(matches: R -> bool, limit: nat, records: seq<LogRecord<R>>, cutoffs: seq<int>,
                                pages: seq<Collected<R>>, i: nat, j: nat, key: string)
    requires IsLogWalk(matches, limit, records, cutoffs, pages) && InEveryWindow(records, cutoffs, key)
    requires i < j < |pages| && Passed(LogicalEvents(cutoffs[i + 1], records), pages[i].nextOffset, key)
    ensures Passed(LogicalEvents(cutoffs[j], records), StartOf(pages, j), key)
  {
    hide LogicalEvents, Passed, CopiesAgree, HasKey, IsPageOf, InEveryWindow;
    PassedCarries(matches, limit, records, cutoffs, pages, i + 1, j, pages[i].nextOffset, key);
    OffsetsAscend(matches, limit, records, cutoffs, pages, i + 1, j);
    PassedFurther(LogicalEvents(cutoffs[j], records), pages[i].nextOffset, StartOf(pages, j), key);
  }

  /** An event lost between two pages is visited by none. */
  lemma LostIsNeverVisited<R>(matches: R -> bool, limit: nat, records: seq<LogRecord<R>>, cutoffs: seq<int>,
                              pages: seq<Collected<R>>, i: nat, j: nat, key: string)
    requires IsLogWalk(matches, limit, records, cutoffs, pages) && InEveryWindow(records, cutoffs, key)
    requires i + 1 < |pages| && j < |pages| && LostAfter(records, cutoffs, pages, i, key)
    ensures !Visits(records, cutoffs, pages, j, key)
  {
    hide LogicalEvents, Passed, CopiesAgree, HasKey, IsPageOf, StartOf, InEveryWindow;
    if j > i {
      LostWillNotBeVisited(matches, limit, records, cutoffs, pages, i, j, key);
    } else if Visits(records, cutoffs, pages, j, key) {
      LostWasNotVisited(matches, limit, records, cutoffs, pages, i, j, key);
    }
  }

  lemma {:induction false} NotComeToYet<R>(matches: R -> bool, limit: nat, records: seq<LogRecord<R>>,
                                           cutoffs: seq<int>, pages: seq<Collected<R>>, i: nat, key: string)
    requires IsLogWalk(matches, limit, records, cutoffs, pages) && i < |pages|
    requires forall j :: 0 <= j < |pages| ==> !Visits(records, cutoffs, pages, j, key)
    requires forall j :: 0 <= j < |pages| - 1 ==> !LostAfter(records, cutoffs, pages, j, key)
    ensures !Passed(LogicalEvents(cutoffs[i], records), pages[i].nextOffset, key)
  {
    hide LogicalEvents, LogPage, CopiesAgree;
    if i == 0 {
      assert !Passed(LogicalEvents(cutoffs[0], records), 0, key);
      assert !Visits(records, cutoffs, pages, 0, key);
    } else {
      NotComeToYet(matches, limit, records, cutoffs, pages, i - 1, key);
      assert !LostAfter(records, cutoffs, pages, i - 1, key);
      assert !Visits(records, cutoffs, pages, i, key);
    }
  }

  /** An event that stays in every window is visited by some page exactly if it is lost between none. */
  lemma VisitedIffNeverLost<R>(matches: R -> bool, limit: nat, records: seq<LogRecord<R>>, cutoffs: seq<int>,
                               pages: seq<Collected<R>>, key: string)
    requires IsLogWalk(matches, limit, records, cutoffs, pages) && InEveryWindow(records, cutoffs, key)
    ensures (exists i :: 0 <= i < |pages| && Visits(records, cutoffs, pages, i, key))
       <==> forall i :: 0 <= i < |pages| - 1 ==> !LostAfter(records, cutoffs, pages, i, key)
  {
    hide LogicalEvents, LogPage, Passed, CopiesAgree, HasKey;
    var last := |pages| - 1;
    if i :| 0 <= i < last && LostAfter(records, cutoffs, pages, i, key) {
      forall j | 0 <= j < |pages|
        ensures !Visits(records, cutoffs, pages, j, key)
      {
        LostIsNeverVisited(matches, limit, records, cutoffs, pages, i, j, key);
      }
    } else if forall j :: 0 <= j < |pages| ==> !Visits(records, cutoffs, pages, j, key) {
      NotComeToYet(matches, limit, records, cutoffs, pages, last, key);
      assert IsPageOf(matches, limit, records, cutoffs, pages, last);
      PageEnds(matches, LogicalEvents(cutoffs[last], records), StartOf(pages, last), limit, pages[last], key);
    }
  }

  /** None of the events passed before page `i + 1` has expired by then, or all that is left was passed. */
  ghost predicate SafeAfter<R>(records: seq<LogRecord<R>>, cutoffs: seq<int>, pages: seq<Collected<R>>, i: nat)
    requires i + 1 < |pages| == |cutoffs|
  {
    var events, after := LogicalEvents(cutoffs[i], records), LogicalEvents(cutoffs[i + 1], records);
    var offset := First(pages[i].nextOffset, |events|);
    || (forall k :: 0 <= k < offset ==> events[k].timestamp >= cutoffs[i + 1])
    || (forall k :: 0 <= k < |after| ==> HasKey(events[..offset], after[k].key))
  }

  /**
    Exactly when nothing is lost between two pages of a walk: none of the events the pages had passed
    has expired since, or all that is left had been passed.
  */
  lemma NothingLostAfterIff<R>(matches: R -> bool, limit: nat, records: seq<LogRecord<R>>, cutoffs: seq<int>,
                               pages: seq<Collected<R>>, i: nat)
    requires IsLogWalk(matches, limit, records, cutoffs, pages) && i + 1 < |pages|
    ensures (forall key :: !LostAfter(records, cutoffs, pages, i, key)) <==> SafeAfter(records, cutoffs, pages, i)
  {
    hide LogicalEvents, IsPageOf, HasKey;
    var events, after := LogicalEvents(cutoffs[i], records), LogicalEvents(cutoffs[i + 1], records);
    var offset := pages[i].nextOffset;
    LaterIsNotLonger(cutoffs[i], cutoffs[i + 1], records);
    assert events[..First(First(offset, |events|), |events|)] == events[..First(offset, |events|)];
    NothingLostBetweenIff(cutoffs[i], cutoffs[i + 1], records, First(offset, |events|));
    assert First(First(offset, |events|), |after|) == First(offset, |after|);
    forall key
      ensures LostAfter(records, cutoffs, pages, i, key) <==> LostBetween(events, after, First(offset, |events|), key)
    {
    }
  }

  lemma LaterIsNotLonger<R>(earlier: int, later: int, records: seq<LogRecord<R>>)
    requires earlier <= later && CopiesAgree(later, records)
    ensures |LogicalEvents(later, records)| <= |LogicalEvents(earlier, records)|
  {
    LaterWindowIsWhatRemains(earlier, later, records);
    KeepIsShorter(Within<R>(later), LogicalEvents(earlier, records));
  }

  /** Hence a walk that is safe between all its pages visits every event that stays in every window. */
  lemma SafeWalksVisitEverything<R>(matches: R -> bool, limit: nat, records: seq<LogRecord<R>>, cutoffs: seq<int>,
                                    pages: seq<Collected<R>>, key: string)
    requires IsLogWalk(matches, limit, records, cutoffs, pages) && InEveryWindow(records, cutoffs, key)
    requires forall i :: 0 <= i < |pages| - 1 ==> SafeAfter(records, cutoffs, pages, i)
    ensures exists i :: 0 <= i < |pages| && Visits(records, cutoffs, pages, i, key)
  {
    hide LogicalEvents, IsPageOf, HasKey, Passed, LostAfter, CopiesAgree, SafeAfter, InEveryWindow, Visits;
    forall i | 0 <= i < |pages| - 1
      ensures !LostAfter(records, cutoffs, pages, i, key)
    {
      NothingLostAfterIff(matches, limit, records, cutoffs, pages, i);
    }
    VisitedIffNeverLost(matches, limit, records, cutoffs, pages, key);
  }

  /** A visited event that matches is among the rows of the page that visits it. */
  lemma VisitedMeansReturned<R>(matches: R -> bool, limit: nat, records: seq<LogRecord<R>>, cutoffs: seq<int>,
                                pages: seq<Collected<R>>, i: nat, key: string)
    returns (event: LogRecord<R>)
    requires IsLogWalk(matches, limit, records, cutoffs, pages) && i < |pages|
    requires Visits(records, cutoffs, pages, i, key)
    ensures event in LogicalEvents(cutoffs[i], records) && event.key == key
    ensures matches(event.row) ==> event.row in pages[i].rows
  {
    hide LogicalEvents, Filtered, ScanEnd;
    assert IsPageOf(matches, limit, records, cutoffs, pages, i);
    event := FoundOnPage(matches, LogicalEvents(cutoffs[i], records), StartOf(pages, i), limit, pages[i], key);
  }

  lemma FoundOnPage<R>(matches: R -> bool, events: seq<LogRecord<R>>, start: nat, limit: nat, page: Collected<R>,
                       key: string)
    returns (event: LogRecord<R>)
    requires LogPage(matches, events, start, limit, page)
    requires Passed(events, page.nextOffset, key) && !Passed(events, start, key)
    ensures event in events && event.key == key
    ensures matches(event.row) ==> event.row in page.rows
  {
    hide Filtered, ScanEnd;
    var first, at := First(start, |events|), First(page.nextOffset, |events|);
    var k :| 0 <= k < at && events[..at][k].key == key;
    event := events[k];
    assert forall m :: 0 <= m < first ==> events[..first][m].key != key;
    var nodes := EventNodes(events);
    assert first + page.scannedCount == at;
    assert nodes[first..at][k - first] == Some(event.row);
    if matches(event.row) {
      FilteredHas(matches, nodes[first..at], k - first);
    }
  }

  lemma {:induction false} FilteredHas<R>(matches: R -> bool, nodes: seq<Option<R>>, i: nat)
    requires i < |nodes| && Hits(matches, nodes[i])
    ensures nodes[i].value in Filtered(matches, nodes)
  {
    if i > 0 {
      FilteredHas(matches, nodes[1..], i - 1);
    }
  }

  // ---- Examples ----

  lemma ThreeEvents<R>(cutoff: int, a: LogRecord<R>, b: LogRecord<R>, c: LogRecord<R>)
    requires a.key != b.key && b.key != c.key && a.key != c.key && b.timestamp >= cutoff && c.timestamp >= cutoff
    ensures LogicalEvents(cutoff, [a, b, c]) == if a.timestamp < cutoff then [b, c] else [a, b, c]
  {
    hide LogicalEvents;
    NoLogicalEvents<R>(cutoff);
    LogicalEventsStep(cutoff, [], a);
    assert [] + [a] == [a];
    LogicalEventsStep(cutoff, [a], b);
    assert [a] + [b] == [a, b];
    LogicalEventsStep(cutoff, [a, b], c);
    assert [a, b] + [c] == [a, b, c];
  }

  lemma OneEventPage<R>(matches: R -> bool, events: seq<LogRecord<R>>, start: nat, page: Collected<R>)
    requires start < |events| && matches(events[start].row)
    requires page == Collected([events[start].row], false, 1, 1, start + 1, None, false)
    ensures LogPage(matches, events, start, 1, page)
  {
    var nodes := EventNodes(events);
    WalkStarts(matches, nodes, start, 1, ENUMERATE_SCAN_PAGE_LIMIT);
    WalkGoesOn(matches, nodes, start, start, 1, ENUMERATE_SCAN_PAGE_LIMIT, []);
    assert [] + [events[start].row] == [events[start].row];
    WalkStops(matches, nodes, start, start + 1, 1, ENUMERATE_SCAN_PAGE_LIMIT, page.rows);
  }

  lemma LastPage<R>(matches: R -> bool, events: seq<LogRecord<R>>, start: nat, page: Collected<R>)
    requires start >= |events| && page == Collected([], false, 0, 0, start, None, true)
    ensures LogPage(matches, events, start, 1, page)
  {
    WalkStarts(matches, EventNodes(events), |events|, 1, ENUMERATE_SCAN_PAGE_LIMIT);
    WalkStops(matches, EventNodes(events), |events|, |events|, 1, ENUMERATE_SCAN_PAGE_LIMIT, []);
  }

  /**
    When an event does expire, an event that never left the window can be lost: three clean pages,
    each exact for its own window, return the first and the third event and never the second.
  */
  lemma ExpiryLosesAnEvent() returns (records: seq<LogRecord<int>>, pages: seq<Collected<int>>)
    ensures |records| == 3 && |pages| == 3
    ensures var everything := (row: int) => true;
      && LogPage(everything, LogicalEvents(5, records), 0, 1, pages[0])
      && LogPage(everything, LogicalEvents(15, records), pages[0].nextOffset, 1, pages[1])
      && LogPage(everything, LogicalEvents(15, records), pages[1].nextOffset, 1, pages[2])
    ensures pages[2].complete && forall i :: 0 <= i < 3 ==> !pages[i].partial
    ensures records[1].timestamp >= 15
    ensures records[1].row !in pages[0].rows + pages[1].rows + pages[2].rows
  {
    var a, b, c := LogRecord(10, "a", 1), LogRecord(20, "b", 2), LogRecord(30, "c", 3);
    records := [a, b, c];
    ThreeEvents(5, a, b, c);
    ThreeEvents(15, a, b, c);
    var everything := (row: int) => true;
    pages := [Collected([1], false, 1, 1, 1, None, false), Collected([3], false, 1, 1, 2, None, false),
              Collected([], false, 0, 0, 2, None, true)];
    OneEventPage(everything, [a, b, c], 0, pages[0]);
    OneEventPage(everything, [b, c], 1, pages[1]);
    LastPage(everything, [b, c], 2, pages[2]);
  }

  /** Expiry further on does no harm: the windows differ, and nothing is lost after the first event. */
  lemma ExpiryFurtherOnIsHarmless() returns (records: seq<LogRecord<int>>)
    ensures LogicalEvents(5, records) != LogicalEvents(15, records) && |LogicalEvents(15, records)| > 1
    ensures forall key :: !LostBetween(LogicalEvents(5, records), LogicalEvents(15, records), 1, key)
  {
    var a, b, c := LogRecord(20, "a", 1), LogRecord(10, "b", 2), LogRecord(30, "c", 3);
    records := [a, b, c];
    LogicalEventsOfThree(5, a, b, c);
    LogicalEventsOfThree(15, a, b, c);
    assert CopiesAgree(15, records);
    assert LogicalEvents(5, records) == [a, b, c] && LogicalEvents(15, records) == [a, c];
    NothingLostBetweenIff(5, 15, records, 1);
  }

  lemma NoLogicalEvents<R>(cutoff: int)
    ensures LogicalEvents<R>(cutoff, []) == []
  {
  }

  lemma LogicalEventsOfThree<R>(cutoff: int, a: LogRecord<R>, b: LogRecord<R>, c: LogRecord<R>)
    requires b.key != c.key && a.key != b.key && c.timestamp >= cutoff
    ensures LogicalEvents(cutoff, [a, b, c])
         == (if a.timestamp >= cutoff then [a] else []) + (if b.timestamp >= cutoff then [b] else [])
            + (if a.key == c.key && a.timestamp >= cutoff then [] else [c])
  {
    LogicalEventsStep(cutoff, [], a);
    assert [] + [a] == [a];
    LogicalEventsStep(cutoff, [a], b);
    assert [a] + [b] == [a, b];
    LogicalEventsStep(cutoff, [a, b], c);
    assert [a, b] + [c] == [a, b, c];
  }

  /**
    Copies on both sides of a cutoff: the passed copy has expired and another event is left, yet
    nothing is lost, because a later copy takes the place of the passed one.
  */
  lemma StraddlingCopiesAreDifferent() returns (records: seq<LogRecord<int>>)
    ensures var events, after := LogicalEvents(5, records), LogicalEvents(15, records);
      && !CopiesAgree(15, records) && |events| == 2 && events[0].timestamp < 15
      && |after| == 2 && !HasKey(events[..1], after[1].key)
      && forall key :: !LostBetween(events, after, 1, key)
  {
    var a, c, copy := LogRecord(10, "a", 1), LogRecord(30, "c", 2), LogRecord(20, "a", 1);
    records := [a, copy, c];
    LogicalEventsStep(5, [], a);
    LogicalEventsStep(15, [], a);
    assert [] + [a] == [a] && [a] + [copy] == [a, copy] && [a, copy] + [c] == records;
    LogicalEventsStep(5, [a], copy);
    LogicalEventsStep(15, [a], copy);
    assert HasKey([a], copy.key) by { assert [a][0].key == copy.key; }
    LogicalEventsStep(5, [a, copy], c);
    LogicalEventsStep(15, [a, copy], c);
    var events, after := LogicalEvents(5, records), LogicalEvents(15, records);
    assert events == [a, c] && after == [copy, c];
    assert records[0].key == records[1].key;
    forall key | Passed(after, 1, key)
      ensures Passed(events, 1, key)
    {
      assert events[..1][0].key == key;
    }
  }
}
