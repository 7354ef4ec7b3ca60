/** Event filtering by hashtags and by date range
    (src/cal_exporter/filters.py, `filter_events` and `filter_by_date_range`).
    The source overwrites `event.hashtags` in place on a match; here the filter
    returns the updated event values instead. */
module Filters {
  import opened Wrappers
  import opened PyStr
  import opened Hashtags
  import opened Models

  /** The event with its stored tags replaced by the case-preserved tags
      extracted from its description. */
  function Refresh(e: Event): (r: Event)
    ensures r.(hashtags := e.hashtags) == e
    ensures r.hashtags == ExtractHashtags(r.description)
  {
    e.(hashtags := ExtractHashtags(e.description))
  }

  /** Some AND-group is contained in the event's lower-cased description tags. */
  predicate Selected(groups: seq<set<string>>, e: Event) {
    GroupsMatch(groups, ExtractHashtags(e.description))
  }

  /** The loop of `filter_events` over already parsed groups. */
  function KeepMatching(events: seq<Event>, groups: seq<set<string>>): (r: seq<Event>)
    ensures |r| <= |events|
    decreases |events|
  {
    if |events| == 0 then []
    else
      var e := events[0];
      (if Selected(groups, e) then [Refresh(e)] else []) + KeepMatching(events[1..], groups)
  }

  /** `filter_events(events, terms)`: no terms means no filtering and no tag
      refresh; otherwise the matching events, in order, with refreshed tags. */
  function FilterEvents(events: seq<Event>, terms: seq<string>): (r: seq<Event>)
    ensures |terms| == 0 ==> r == events
    ensures |r| <= |events|
    ensures |terms| > 0 ==> forall k :: 0 <= k < |r| ==>
              Selected(ParseGroups(terms), r[k]) && r[k].hashtags == ExtractHashtags(r[k].description)
  {
    if |terms| == 0 then events
    else
      KeepMatchingSound(events, ParseGroups(terms));
      KeepMatching(events, ParseGroups(terms))
  }

  /** Every event kept matches some group and carries its refreshed tags. */
  lemma {:induction false} KeepMatchingSound(events: seq<Event>, groups: seq<set<string>>)
    ensures forall k :: 0 <= k < |KeepMatching(events, groups)| ==>
              Selected(groups, KeepMatching(events, groups)[k])
              && KeepMatching(events, groups)[k].hashtags == ExtractHashtags(KeepMatching(events, groups)[k].description)
    decreases |events|
  {
    if |events| > 0 {
      var e := events[0];
      var h := if Selected(groups, e) then [Refresh(e)] else [];
      var rest := KeepMatching(events[1..], groups);
      var r := KeepMatching(events, groups);
      assert r == h + rest;
      KeepMatchingSound(events[1..], groups);
      forall k | 0 <= k < |r|
        ensures Selected(groups, r[k]) && r[k].hashtags == ExtractHashtags(r[k].description)
      {
        if k < |h| {
          assert r[k] == Refresh(e);
        } else {
          assert r[k] == rest[k - |h|];
        }
      }
    }
  }

  /** Filtering distributes over concatenation: the result keeps input order. */
  lemma {:induction false} KeepMatchingAppend(a: seq<Event>, b: seq<Event>, groups: seq<set<string>>)
    ensures KeepMatching(a + b, groups) == KeepMatching(a, groups) + KeepMatching(b, groups)
    decreases |a|
  {
    if |a| == 0 {
      assert a + b == b;
    } else {
      var h := if Selected(groups, a[0]) then [Refresh(a[0])] else [];
      assert (a + b)[0] == a[0];
      assert (a + b)[1..] == a[1..] + b;
      assert KeepMatching(a + b, groups) == h + KeepMatching(a[1..] + b, groups);
      KeepMatchingAppend(a[1..], b, groups);
      assert h + (KeepMatching(a[1..], groups) + KeepMatching(b, groups))
          == (h + KeepMatching(a[1..], groups)) + KeepMatching(b, groups);
    }
  }

  lemma FilterEventsAppend(a: seq<Event>, b: seq<Event>, terms: seq<string>)
    ensures FilterEvents(a + b, terms) == FilterEvents(a, terms) + FilterEvents(b, terms)
  {
    if |terms| > 0 {
      KeepMatchingAppend(a, b, ParseGroups(terms));
    }
  }

  /** On one event the filter keeps it, refreshed, exactly when some group
      matches its description tags. */
  lemma FilterEventsSingle(e: Event, terms: seq<string>)
    requires |terms| > 0
    ensures FilterEvents([e], terms) == if Selected(ParseGroups(terms), e) then [Refresh(e)] else []
  {
    assert [e][1..] == [];
  }

  /** The events kept are the refreshed versions of the matching inputs. */
  lemma {:induction false} KeepMatchingMembership(events: seq<Event>, groups: seq<set<string>>, x: Event)
    ensures x in KeepMatching(events, groups) <==> exists e :: e in events && Selected(groups, e) && x == Refresh(e)
    decreases |events|
  {
    if |events| > 0 {
      KeepMatchingMembership(events[1..], groups, x);
      assert events == [events[0]] + events[1..];
      if exists e :: e in events && Selected(groups, e) && x == Refresh(e) {
        var e :| e in events && Selected(groups, e) && x == Refresh(e);
        if e != events[0] {
          assert e in events[1..];
        }
      }
    }
  }

  lemma FilterEventsMembership(events: seq<Event>, terms: seq<string>, x: Event)
    requires |terms| > 0
    ensures x in FilterEvents(events, terms) <==>
              exists e :: e in events && Selected(ParseGroups(terms), e) && x == Refresh(e)
  {
    KeepMatchingMembership(events, ParseGroups(terms), x);
  }

  /** Refreshing is idempotent and does not change whether an event matches,
      since matching reads the description only. */
  lemma {:induction false} KeepMatchingFixedPoint(events: seq<Event>, groups: seq<set<string>>)
    ensures KeepMatching(KeepMatching(events, groups), groups) == KeepMatching(events, groups)
    decreases |events|
  {
    if |events| > 0 {
      var e := events[0];
      var head := if Selected(groups, e) then [Refresh(e)] else [];
      var tail := KeepMatching(events[1..], groups);
      KeepMatchingAppend(head, tail, groups);
      KeepMatchingFixedPoint(events[1..], groups);
      if Selected(groups, e) {
        assert KeepMatching(head, groups) == [Refresh(Refresh(e))] by {
          assert head[1..] == [];
        }
        assert Refresh(Refresh(e)) == Refresh(e);
      }
    }
  }

  /** Running the filter on its own output with the same terms changes nothing. */
  lemma FilterEventsFixedPoint(events: seq<Event>, terms: seq<string>)
    ensures FilterEvents(FilterEvents(events, terms), terms) == FilterEvents(events, terms)
  {
    if |terms| > 0 {
      KeepMatchingFixedPoint(events, ParseGroups(terms));
    }
  }

  /** Only `hashtags` may differ between a kept event and the input it came from. */
  lemma FilterEventsKeepsFields(events: seq<Event>, terms: seq<string>, x: Event)
    ensures x in FilterEvents(events, terms) ==> exists e :: e in events && x == e.(hashtags := x.hashtags)
  {
    if x in FilterEvents(events, terms) {
      if |terms| > 0 {
        FilterEventsMembership(events, terms, x);
        var e :| e in events && Selected(ParseGroups(terms), e) && x == Refresh(e);
        assert x == e.(hashtags := x.hashtags);
      } else {
        assert x == x.(hashtags := x.hashtags);
      }
    }
  }

  /** Filtering ignores the letter case of the search terms. */
  lemma FilterEventsIgnoresCase(events: seq<Event>, terms: seq<string>)
    ensures FilterEvents(events, LowerEach(terms)) == FilterEvents(events, terms)
  {
    ParseGroupsIgnoresCase(terms);
  }

  /** `-s billable` filters like `-s '#billable'`. */
  lemma FilterWithoutHashPrefix(events: seq<Event>, word: string)
    requires |word| > 0 && word[0] != '#' && ',' !in word
    requires !IsSpace(word[0]) && !IsSpace(word[|word| - 1])
    ensures FilterEvents(events, [word]) == FilterEvents(events, ["#" + word])
  {
    ParseGroupsAddsHash(word);
  }

  /** A search term with a blank comma piece selects nothing. */
  lemma BlankPieceFiltersEverything(events: seq<Event>, term: string)
    requires exists k :: 0 <= k < |Split(term, ',')| && AllSpace(Split(term, ',')[k])
    ensures FilterEvents(events, [term]) == []
  {
    if FilterEvents(events, [term]) != [] {
      var x := FilterEvents(events, [term])[0];
      BlankPieceNeverMatches(term, x.description);
    }
  }

  /** The exported tag column (`", ".join(hashtags)`) of a kept event scans
      back to exactly its tags. */
  lemma {:induction false} ExportedTagsRescan(tags: seq<string>)
    requires forall k :: 0 <= k < |tags| ==> IsHashtag(tags[k])
    ensures Scan(Join(tags, ", ")) == tags
    decreases |tags|
  {
    if |tags| == 1 {
      ScanHashtag(tags[0]);
    } else if |tags| > 1 {
      var rest := Join(tags[1..], ", ");
      ExportedTagsRescan(tags[1..]);
      assert Join(tags, ", ") == tags[0] + (", " + rest);
      ScanAppend(tags[0], ", " + rest);
      ScanHashtag(tags[0]);
      SeparatorScan(rest);
    }
  }

  /** The separator ", " contributes no tag. */
  lemma SeparatorScan(rest: string)
    ensures Scan(", " + rest) == Scan(rest)
  {
    assert (", " + rest)[1..] == " " + rest;
    assert (" " + rest)[1..] == rest;
  }

  lemma ExportedTagsOfFiltered(events: seq<Event>, terms: seq<string>, k: int)
    requires |terms| > 0 && 0 <= k < |FilterEvents(events, terms)|
    ensures var x := FilterEvents(events, terms)[k];
      Scan(ToDict(x).hashtags) == x.hashtags
  {
    var x := FilterEvents(events, terms)[k];
    ExportedTagsRescan(x.hashtags);
  }

  // ---------------------------------------------------------------------------
  // Date-range overlap

  /** The inclusive overlap test of `filter_by_date_range`. */
  predicate Overlaps(e: Event, start: int, end: int) {
    e.start <= end && e.end >= start
  }

  function FilterByDateRange(events: seq<Event>, start: int, end: int): (r: seq<Event>)
    ensures |r| <= |events|
    ensures forall k :: 0 <= k < |r| ==> Overlaps(r[k], start, end) && r[k] in events
    decreases |events|
  {
    if |events| == 0 then []
    else
      (if Overlaps(events[0], start, end) then [events[0]] else [])
      + FilterByDateRange(events[1..], start, end)
  }

  lemma {:induction false} DateRangeMembership(events: seq<Event>, start: int, end: int, x: Event)
    ensures x in FilterByDateRange(events, start, end) <==> x in events && Overlaps(x, start, end)
    decreases |events|
  {
    if |events| > 0 {
      DateRangeMembership(events[1..], start, end, x);
      assert events == [events[0]] + events[1..];
    }
  }

  lemma {:induction false} DateRangeAppend(a: seq<Event>, b: seq<Event>, start: int, end: int)
    ensures FilterByDateRange(a + b, start, end) == FilterByDateRange(a, start, end) + FilterByDateRange(b, start, end)
    decreases |a|
  {
    if |a| == 0 {
      assert a + b == b;
    } else {
      var h := if Overlaps(a[0], start, end) then [a[0]] else [];
      assert (a + b)[0] == a[0];
      assert (a + b)[1..] == a[1..] + b;
      assert FilterByDateRange(a + b, start, end) == h + FilterByDateRange(a[1..] + b, start, end);
      DateRangeAppend(a[1..], b, start, end);
      assert h + (FilterByDateRange(a[1..], start, end) + FilterByDateRange(b, start, end))
          == (h + FilterByDateRange(a[1..], start, end)) + FilterByDateRange(b, start, end);
    }
  }

  lemma {:induction false} DateRangeIdempotent(events: seq<Event>, start: int, end: int)
    ensures FilterByDateRange(FilterByDateRange(events, start, end), start, end) == FilterByDateRange(events, start, end)
    decreases |events|
  {
    if |events| > 0 {
      var head := if Overlaps(events[0], start, end) then [events[0]] else [];
      DateRangeAppend(head, FilterByDateRange(events[1..], start, end), start, end);
      DateRangeIdempotent(events[1..], start, end);
      assert head == [] || head[1..] == [];
    }
  }

  /** The two filters commute: the hashtag filter's refresh leaves `start`
      and `end` alone, and the overlap test ignores tags. */
  lemma {:induction false} FiltersCommute(events: seq<Event>, groups: seq<set<string>>, start: int, end: int)
    ensures KeepMatching(FilterByDateRange(events, start, end), groups)
         == FilterByDateRange(KeepMatching(events, groups), start, end)
    decreases |events|
  {
    if |events| > 0 {
      var e := events[0];
      var h1 := if Overlaps(e, start, end) then [e] else [];
      var h2 := if Selected(groups, e) then [Refresh(e)] else [];
      KeepMatchingAppend(h1, FilterByDateRange(events[1..], start, end), groups);
      DateRangeAppend(h2, KeepMatching(events[1..], groups), start, end);
      FiltersCommute(events[1..], groups, start, end);
      assert h1 == [] || h1[1..] == [];
      assert h2 == [] || h2[1..] == [];
    }
  }

  /** An inverted range does not reject everything: an event spanning both
      bounds still passes the overlap test. */
  lemma InvertedRangeCanMatch(e: Event, start: int, end: int)
    requires end < start && e.start <= end && start <= e.end
    ensures FilterByDateRange([e], start, end) == [e]
  {
  }
}
