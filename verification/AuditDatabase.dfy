/**
  The audit store on a database.
 */
module AuditDatabase {
  import opened AuditDigits
  import opened AuditLog

  /** A record of the underlying store: an encoded event, or anything else. */
  datatype Record = EventRecord(event: AuditEvent) | OtherRecord(data: string)

  type Records = map<string, Record>

  /** Insertion behind everything not later. */
  function Insert(e: AuditEvent, es: seq<AuditEvent>): seq<AuditEvent> {
    if es == [] || LexLess(e.timestamp, es[0].timestamp) then [e] + es
    else [es[0]] + Insert(e, es[1..])
  }

  function SortByTime(es: seq<AuditEvent>): seq<AuditEvent> {
    if es == [] then [] else Insert(es[|es| - 1], SortByTime(es[..|es| - 1]))
  }

  lemma {:induction false} LexTransitive(a: string, b: string, c: string)
    requires !LexLess(b, a) && !LexLess(c, b)
    ensures !LexLess(c, a)
  {
    if a != [] && b != [] && c != [] && a[0] == b[0] == c[0] {
      LexTransitive(a[1..], b[1..], c[1..]);
    }
  }

  lemma {:induction false} InsertAdds(e: AuditEvent, es: seq<AuditEvent>)
    ensures multiset(Insert(e, es)) == multiset(es) + multiset{e}
  {
    hide LexLess;
    if es != [] && !LexLess(e.timestamp, es[0].timestamp) {
      InsertAdds(e, es[1..]);
      assert es == [es[0]] + es[1..];
    }
  }

  lemma NoneBeforeHead(e: AuditEvent, es: seq<AuditEvent>)
    requires InOrder(es) && (es != [] ==> !LexLess(es[0].timestamp, e.timestamp))
    ensures NoneBefore(e, es)
  {
    hide LexLess;
    forall x | x in es
      ensures !LexLess(x.timestamp, e.timestamp)
    {
      var j :| 0 <= j < |es| && es[j] == x;
      if j > 0 {
        LexTransitive(e.timestamp, es[0].timestamp, x.timestamp);
      }
    }
  }

  lemma {:induction false} InsertKeepsOrder(e: AuditEvent, es: seq<AuditEvent>)
    requires InOrder(es)
    ensures InOrder(Insert(e, es))
  {
    hide LexLess, InOrder;
    if es == [] {
      InOrderCons(e, []);
      NothingInOrder();
    } else if LexLess(e.timestamp, es[0].timestamp) {
      LexTotal(e.timestamp, es[0].timestamp);
      NoneBeforeHead(e, es);
      InOrderCons(e, es);
    } else {
      var rest := es[1..];
      assert es == [es[0]] + rest;
      InOrderCons(es[0], rest);
      InsertKeepsOrder(e, rest);
      InsertAdds(e, rest);
      forall x | x in Insert(e, rest)
        ensures !LexLess(x.timestamp, es[0].timestamp)
      {
        assert x in multiset(Insert(e, rest));
        assert x in rest || x == e;
      }
      InOrderCons(es[0], Insert(e, rest));
    }
  }

  lemma {:induction false} SortIsOrdered(es: seq<AuditEvent>)
    ensures InOrder(SortByTime(es)) && multiset(SortByTime(es)) == multiset(es)
  {
    hide InOrder, Insert;
    if es == [] {
      NothingInOrder();
    } else {
      var init := es[..|es| - 1];
      SortIsOrdered(init);
      InsertKeepsOrder(es[|es| - 1], SortByTime(init));
      InsertAdds(es[|es| - 1], SortByTime(init));
      assert es == init + [es[|es| - 1]];
    }
  }

  ghost predicate TimesDiffer(es: seq<AuditEvent>) {
    forall i, j :: 0 <= i < j < |es| ==> es[i].timestamp != es[j].timestamp
  }

  lemma SameHead(a: seq<AuditEvent>, b: seq<AuditEvent>)
    requires InOrder(a) && InOrder(b) && multiset(a) == multiset(b) && a != [] && b != [] && TimesDiffer(a)
    ensures a[0] == b[0]
  {
    hide LexLess;
    SameElements(a, b);
    assert a[0] in b && b[0] in a;
    var i :| 0 <= i < |a| && a[i] == b[0];
    var j :| 0 <= j < |b| && b[j] == a[0];
    LexTotal(a[0].timestamp, b[0].timestamp);
  }

  lemma TailInOrder(es: seq<AuditEvent>)
    requires es != []
    ensures InOrder(es) ==> InOrder(es[1..])
    ensures TimesDiffer(es) ==> TimesDiffer(es[1..])
    ensures multiset(es[1..]) == multiset(es) - multiset{es[0]}
  {
    hide LexLess;
    assert es == [es[0]] + es[1..];
  }

  /** Two lists in order with the same events, no two at one time, are the same. */
  lemma {:induction false} SortedIsUnique(a: seq<AuditEvent>, b: seq<AuditEvent>)
    requires InOrder(a) && InOrder(b) && multiset(a) == multiset(b) && TimesDiffer(a)
    ensures a == b
  {
    hide InOrder, TimesDiffer;
    assert |a| == |multiset(a)| == |b|;
    if a != [] {
      SameHead(a, b);
      TailInOrder(a);
      TailInOrder(b);
      SortedIsUnique(a[1..], b[1..]);
      assert a == [a[0]] + a[1..] && b == [b[0]] + b[1..];
    }
  }

  lemma SameElements(a: seq<AuditEvent>, b: seq<AuditEvent>)
    requires multiset(a) == multiset(b)
    ensures forall e :: e in a <==> e in b
  {
    forall e
      ensures e in a <==> e in b
    {
      assert e in a <==> e in multiset(a);
      assert e in b <==> e in multiset(b);
    }
  }

  lemma {:induction false} InsertLast(e: AuditEvent, es: seq<AuditEvent>)
    requires InOrder(es + [e])
    ensures Insert(e, es) == es + [e]
  {
    hide LexLess, InOrder;
    if es == [] {
      assert [e] + es == es + [e];
    } else {
      assert es + [e] == [es[0]] + (es[1..] + [e]);
      InOrderCons(es[0], es[1..] + [e]);
      assert e in es[1..] + [e];
      InsertLast(e, es[1..]);
    }
  }

  /** Sorting leaves a list in order as it is: it is stable. */
  lemma {:induction false} SortOfSorted(es: seq<AuditEvent>)
    requires InOrder(es)
    ensures SortByTime(es) == es
  {
    if es != [] {
      var init := es[..|es| - 1];
      assert es == init + [es[|es| - 1]];
      SortOfSorted(init);
      InsertLast(es[|es| - 1], init);
    }
  }

  // ---------------------------------------------------------------------------------------------
  // Listing the records
  // ---------------------------------------------------------------------------------------------

  /** `es` are the events of `records`, each once, in some order; `keys` says under which key. */
  ghost predicate Lists(es: seq<AuditEvent>, keys: seq<string>, records: Records) {
    && |keys| == |es|
    && (forall i, j :: 0 <= i < j < |keys| ==> keys[i] != keys[j])
    && (forall i :: 0 <= i < |keys| ==> keys[i] in records && records[keys[i]] == EventRecord(es[i]))
    && (forall k :: k in records && records[k].EventRecord? ==> k in keys)
  }

  ghost predicate Stored(e: AuditEvent, records: Records) {
    exists k :: k in records && records[k] == EventRecord(e)
  }

  lemma ListedIsStored(es: seq<AuditEvent>, keys: seq<string>, records: Records)
    requires Lists(es, keys, records)
    ensures forall e :: e in es <==> Stored(e, records)
  {
    forall e | Stored(e, records)
      ensures e in es
    {
      var k :| k in records && records[k] == EventRecord(e);
      assert k in keys;
      var i :| 0 <= i < |keys| && keys[i] == k;
      assert es[i] == e;
    }
    forall e | e in es
      ensures Stored(e, records)
    {
      var i :| 0 <= i < |es| && es[i] == e;
      assert keys[i] in records;
    }
  }

  /** All events have one timestamp. */
  ghost predicate AllAtOneTime(records: Records) {
    forall j, k :: j in records && k in records && records[j].EventRecord? && records[k].EventRecord? ==>
      records[j].event.timestamp == records[k].event.timestamp
  }

  /** The events under the given keys. */
  lemma {:induction false} ListKeys(records: Records, todo: set<string>)
    returns (es: seq<AuditEvent>, keys: seq<string>)
    requires todo <= records.Keys
    ensures |keys| == |es|
    ensures forall i, j :: 0 <= i < j < |keys| ==> keys[i] != keys[j]
    ensures forall i :: 0 <= i < |keys| ==> keys[i] in todo && records[keys[i]] == EventRecord(es[i])
    ensures forall k :: k in todo && records[k].EventRecord? ==> k in keys
    decreases |todo|
  {
    if todo == {} {
      es, keys := [], [];
    } else {
      var k :| k in todo;
      es, keys := ListKeys(records, todo - {k});
      if records[k].EventRecord? {
        es, keys := es + [records[k].event], keys + [k];
      }
    }
  }

  /** A listing that has a later event in front of an earlier one. */
  lemma ListingOutOfOrder(records: Records, j: string, k: string) returns (es: seq<AuditEvent>, keys: seq<string>)
    requires j in records && k in records && records[j].EventRecord? && records[k].EventRecord?
    requires LexLess(records[k].event.timestamp, records[j].event.timestamp)
    ensures Lists(es, keys, records) && !InOrder(es)
  {
    LexTotal(records[j].event.timestamp, records[j].event.timestamp);
    hide LexLess;
    var restEs, restKeys := ListKeys(records, records.Keys - {j, k});
    es, keys := [records[j].event, records[k].event] + restEs, [j, k] + restKeys;
    assert forall x :: x in restKeys ==> x in keys;
    assert j == keys[0] && k == keys[1];
    assert es[0] == records[j].event && es[1] == records[k].event;
  }

  /**
    The order in which the underlying store lists its records is its own. Query results are chronological for every
    such order and every query if and only if all stored events have one timestamp.
   */
  lemma ListedQueryInOrderIff(records: Records)
    ensures (forall es: seq<AuditEvent>, keys, q :: Lists(es, keys, records) ==> InOrder(Matching(es, q)))
       <==> AllAtOneTime(records)
  {
    hide LexLess, AuditQuery.Matches;
    if AllAtOneTime(records) {
      forall es: seq<AuditEvent>, keys, q | Lists(es, keys, records)
        ensures InOrder(Matching(es, q))
      {
        forall i, j | 0 <= i < j < |es|
          ensures !LexLess(es[j].timestamp, es[i].timestamp)
        {
          assert records[keys[i]] == EventRecord(es[i]) && records[keys[j]] == EventRecord(es[j]);
          LexTotal(es[i].timestamp, es[j].timestamp);
        }
        MatchingKeepsOrder(es, q);
      }
    } else {
      var j, k :| j in records && k in records && records[j].EventRecord? && records[k].EventRecord?
                  && records[j].event.timestamp != records[k].event.timestamp;
      LexTotal(records[j].event.timestamp, records[k].event.timestamp);
      var es, keys;
      if LexLess(records[k].event.timestamp, records[j].event.timestamp) {
        es, keys := ListingOutOfOrder(records, j, k);
      } else {
        es, keys := ListingOutOfOrder(records, k, j);
      }
      MatchingAll(es);
      assert !InOrder(Matching(es, MATCH_ALL));
    }
  }

  // ---------------------------------------------------------------------------------------------
  // The store
  // ---------------------------------------------------------------------------------------------

  ghost predicate OwnKeys(records: Records) {
    forall k :: k in records && records[k].EventRecord? ==> records[k].event.id == k
  }

  /** The ids of the events before the cutoff. */
  function Outdated(records: Records, cutoff: string): set<string> {
    set k | k in records && records[k].EventRecord? && LexLess(records[k].event.timestamp, cutoff)
      :: records[k].event.id
  }

  // ---------------------------------------------------------------------------------------------
  // Insertion order
  // ---------------------------------------------------------------------------------------------

  ghost predicate NoneTwice(es: seq<AuditEvent>) {
    forall i, j :: 0 <= i < j < |es| ==> es[i] != es[j]
  }

  lemma {:induction false} CountedOnce(es: seq<AuditEvent>, e: AuditEvent)
    requires NoneTwice(es)
    ensures multiset(es)[e] == if e in es then 1 else 0
  {
    if es != [] {
      CountedOnce(es[1..], e);
      assert es == [es[0]] + es[1..];
    }
  }

  /** Two listings of the same records differ in their order only. */
  lemma ListingsAgree(a: seq<AuditEvent>, ka: seq<string>, b: seq<AuditEvent>, kb: seq<string>, records: Records)
    requires Lists(a, ka, records) && Lists(b, kb, records) && OwnKeys(records)
    ensures multiset(a) == multiset(b)
  {
    ListedIsStored(a, ka, records);
    ListedIsStored(b, kb, records);
    ListedOnce(a, ka, records);
    ListedOnce(b, kb, records);
    hide Lists, OwnKeys, Stored, NoneTwice;
    forall e
      ensures multiset(a)[e] == multiset(b)[e]
    {
      CountedOnce(a, e);
      CountedOnce(b, e);
    }
  }

  lemma ListedOnce(es: seq<AuditEvent>, keys: seq<string>, records: Records)
    requires Lists(es, keys, records) && OwnKeys(records)
    ensures NoneTwice(es)
  {
    forall i, j | 0 <= i < j < |es|
      ensures es[i] != es[j]
    {
      assert es[i].id == keys[i] && es[j].id == keys[j];
    }
  }

  /** The listing with two events exchanged. */
  lemma Exchanged(es: seq<AuditEvent>, keys: seq<string>, records: Records, i: nat, j: nat)
    returns (swapped: seq<string>)
    requires Lists(es, keys, records) && i < j < |es|
    ensures Lists(es[i := es[j]][j := es[i]], swapped, records)
  {
    swapped := keys[i := keys[j]][j := keys[i]];
    forall k | k in records && records[k].EventRecord?
      ensures k in swapped
    {
      var m :| 0 <= m < |keys| && keys[m] == k;
      assert swapped[if m == i then j else if m == j then i else m] == k;
    }
  }

  /**
    All events are listed in the order in which they were stored, however the database lists its records, if and only if
    they were stored in chronological order, no two at one time.
   */
  lemma AllInInsertionOrderIff(stored: seq<AuditEvent>, keys: seq<string>, records: Records)
    requires Lists(stored, keys, records) && OwnKeys(records)
    ensures (forall es: seq<AuditEvent>, ks :: Lists(es, ks, records) ==> SortByTime(es) == stored)
       <==> InOrder(stored) && TimesDiffer(stored)
  {
    hide InOrder, OwnKeys, SortByTime, Lists;
    if InOrder(stored) && TimesDiffer(stored) {
      forall es: seq<AuditEvent>, ks | Lists(es, ks, records)
        ensures SortByTime(es) == stored
      {
        ListingsAgree(es, ks, stored, keys, records);
        SortIsOrdered(es);
        SortedIsUnique(stored, SortByTime(es));
      }
    } else if !InOrder(stored) {
      SortIsOrdered(stored);
      assert SortByTime(stored) != stored;
    } else {
      var i, j :| 0 <= i < j < |stored| && stored[i].timestamp == stored[j].timestamp;
      var es := stored[i := stored[j]][j := stored[i]];
      var ks := Exchanged(stored, keys, records, i, j);
      SameTimesInOrder(stored, es);
      SortOfSorted(es);
      ListedOnce(stored, keys, records);
      assert es[i] == stored[j] != stored[i];
      assert Lists(es, ks, records) && SortByTime(es) != stored;
    }
  }

  lemma SameTimesInOrder(a: seq<AuditEvent>, b: seq<AuditEvent>)
    requires InOrder(a) && |a| == |b| && forall k :: 0 <= k < |a| ==> a[k].timestamp == b[k].timestamp
    ensures InOrder(b)
  {
    hide LexLess;
  }

  class PluresDbAuditStore {
    var records: Records

    constructor ()
      ensures records == map[] && Valid()
    {
      records := map[];
    }

    /** Every event is stored under its own id. */
    ghost predicate Valid()
      reads this
    {
      OwnKeys(records)
    }

    method Append(e: AuditEvent)
      modifies this
      ensures records == old(records)[e.id := EventRecord(e)]
      ensures old(Valid()) ==> Valid()
    {
      records := records[e.id := EventRecord(e)];
    }

    /** The stored events, in the order in which the underlying store lists its records. */
    method List() returns (es: seq<AuditEvent>, ghost keys: seq<string>)
      ensures Lists(es, keys, records)
    {
      es, keys := [], [];
      var todo := records.Keys;
      while todo != {}
        invariant todo <= records.Keys
        invariant |keys| == |es| && forall i :: 0 <= i < |keys| ==> keys[i] !in todo
        invariant forall i, j :: 0 <= i < j < |keys| ==> keys[i] != keys[j]
        invariant forall i :: 0 <= i < |keys| ==> keys[i] in records && records[keys[i]] == EventRecord(es[i])
        invariant forall k :: k in records && k !in todo && records[k].EventRecord? ==> k in keys
        decreases |todo|
      {
        var k :| k in todo;
        todo := todo - {k};
        if records[k].EventRecord? {
          es := es + [records[k].event];
          keys := keys + [k];
        }
      }
    }

    /** The events the query matches, in the order of the listing: nothing sorts them. */
    method Query(q: AuditQuery) returns (r: seq<AuditEvent>, ghost listed: seq<AuditEvent>, ghost keys: seq<string>)
      ensures Lists(listed, keys, records) && r == Matching(listed, q)
      ensures forall e :: e in r <==> q.Matches(e) && Stored(e, records)
    {
      var es;
      es, keys := List();
      listed := es;
      r := Matching(es, q);
      ListedIsStored(es, keys, records);
      MatchingMembers(es, q);
    }

    /** Every stored event once, in chronological order. */
    method All() returns (es: seq<AuditEvent>, ghost listed: seq<AuditEvent>, ghost keys: seq<string>)
      ensures Lists(listed, keys, records)
      ensures InOrder(es) && multiset(es) == multiset(listed)
      ensures forall e :: e in es <==> Stored(e, records)
    {
      var unsorted;
      unsorted, keys := List();
      listed := unsorted;
      es := SortByTime(unsorted);
      SortIsOrdered(unsorted);
      ListedIsStored(unsorted, keys, records);
      SameElements(es, unsorted);
    }

    /** Deletes, by id, the events before the cutoff. */
    method PurgeBefore(cutoff: string)
      modifies this
      ensures records == old(records) - Outdated(old(records), cutoff)
      ensures old(Valid()) ==> Valid()
    {
      hide LexLess;
      var toDelete: set<string> := {};
      var todo := records.Keys;
      while todo != {}
        invariant records == old(records) && todo <= records.Keys
        invariant toDelete == set k | k in records && k !in todo && records[k].EventRecord?
                                      && LexLess(records[k].event.timestamp, cutoff) :: records[k].event.id
        decreases |todo|
      {
        var k :| k in todo;
        todo := todo - {k};
        if records[k].EventRecord? && LexLess(records[k].event.timestamp, cutoff) {
          toDelete := toDelete + {records[k].event.id};
        }
      }
      records := records - toDelete;
    }
  }

  /** Where every event is stored under its own id, purging deletes exactly the events before the cutoff. */
  lemma PurgeDeletesOutdated(records: Records, cutoff: string, k: string)
    requires OwnKeys(records) && k in records
    ensures k in records - Outdated(records, cutoff)
       <==> records[k].EventRecord? ==> !LexLess(records[k].event.timestamp, cutoff)
  {
    hide LexLess;
  }

  /** In general, records are deleted under the ids of events before the cutoff, wherever these events are stored. */
  lemma PurgeDeletesById(records: Records, cutoff: string, k: string)
    ensures k in records - Outdated(records, cutoff)
       <==> k in records
            && forall j :: j in records && records[j].EventRecord? && records[j].event.id == k ==>
                 !LexLess(records[j].event.timestamp, cutoff)
  {
    hide LexLess;
  }
}
