/**
  * The order in which a person's special dates and meetings are kept: the
  * stream sort by `Comparator.comparing(Event::getDate).reversed()`, which is
  * stable and puts the latest effective date first. The effective date of a
  * recurring event depends on the day the sort runs, so that day is a
  * parameter, read once for the whole sort.
  */
module EventOrder {
  import opened Calendar
  import opened Events

  predicate AllValid(s: seq<Event>) {
    forall i :: 0 <= i < |s| ==> ValidEvent(s[i])
  }

  /** The sort key: Event.getDate on the day of the sort. */
  function Key(e: Event, today: Date): Date
    requires ValidEvent(e) && ValidDate(today)
  {
    Events.GetDate(e, today)
  }

  /** No event is followed by one with a later effective date. */
  predicate Descending(s: seq<Event>, today: Date)
    requires AllValid(s) && ValidDate(today)
  {
    forall i, j :: 0 <= i < j < |s| ==> !Before(Key(s[i], today), Key(s[j], today))
  }

  /** The events of `s` whose effective date is `k`, in their order in `s`. */
  function WithKey(s: seq<Event>, k: Date, today: Date): seq<Event>
    requires AllValid(s) && ValidDate(today)
  {
    if s == [] then []
    else (if Key(s[0], today) == k then [s[0]] else []) + WithKey(s[1..], k, today)
  }

  /** Places `x` in front of the first event whose date is not later than its own. */
  function Insert(x: Event, s: seq<Event>, today: Date): (r: seq<Event>)
    requires ValidEvent(x) && AllValid(s) && ValidDate(today)
    ensures AllValid(r) && multiset(r) == multiset(s) + multiset{x}
  {
    if s == [] || !Before(Key(x, today), Key(s[0], today)) then [x] + s
    else
      assert s == [s[0]] + s[1..];
      [s[0]] + Insert(x, s[1..], today)
  }

  /** The stable sort, latest effective date first. */
  function SortDescending(s: seq<Event>, today: Date): (r: seq<Event>)
    requires AllValid(s) && ValidDate(today)
    ensures AllValid(r) && multiset(r) == multiset(s)
  {
    if s == [] then []
    else
      assert s == [s[0]] + s[1..];
      Insert(s[0], SortDescending(s[1..], today), today)
  }

  /** Not-later-than is transitive and, between distinct dates, strict one way. */
  lemma NotBeforeFacts(a: Date, b: Date, c: Date)
    ensures !Before(a, b) && !Before(b, c) ==> !Before(a, c)
    ensures !Before(a, b) && !Before(b, a) ==> a == b
    ensures Before(a, b) ==> !Before(b, a)
  {
  }

  lemma {:induction false} InsertDescending(x: Event, s: seq<Event>, today: Date)
    requires ValidEvent(x) && AllValid(s) && ValidDate(today) && Descending(s, today)
    ensures Descending(Insert(x, s, today), today)
    ensures Insert(x, s, today)[0] == x || (s != [] && Insert(x, s, today)[0] == s[0])
  {
    var r := Insert(x, s, today);
    if s == [] || !Before(Key(x, today), Key(s[0], today)) {
      forall i, j | 0 <= i < j < |r|
        ensures !Before(Key(r[i], today), Key(r[j], today))
      {
        if i == 0 && j > 1 {
          NotBeforeFacts(Key(x, today), Key(s[0], today), Key(s[j - 1], today));
        }
      }
    } else {
      InsertDescending(x, s[1..], today);
      var t := Insert(x, s[1..], today);
      assert r == [s[0]] + t;
      forall i, j | 0 <= i < j < |r|
        ensures !Before(Key(r[i], today), Key(r[j], today))
      {
        if i == 0 {
          var y := r[j];
          assert y in multiset(t);
          assert y == x || y in s[1..];
          if y == x {
            NotBeforeFacts(Key(x, today), Key(s[0], today), Key(s[0], today));
          } else {
            var m :| 0 <= m < |s[1..]| && s[1..][m] == y;
            assert s[m + 1] == y;
          }
        }
      }
    }
  }

  /** The sort's result is in non-increasing order of effective date. */
  lemma {:induction false} SortIsDescending(s: seq<Event>, today: Date)
    requires AllValid(s) && ValidDate(today)
    ensures Descending(SortDescending(s, today), today)
  {
    if s != [] {
      SortIsDescending(s[1..], today);
      InsertDescending(s[0], SortDescending(s[1..], today), today);
    }
  }

  /** Filtering by date distributes over concatenation. */
  lemma {:induction false} WithKeyAppend(a: seq<Event>, b: seq<Event>, k: Date, today: Date)
    requires AllValid(a) && AllValid(b) && ValidDate(today)
    ensures AllValid(a + b)
    ensures WithKey(a + b, k, today) == WithKey(a, k, today) + WithKey(b, k, today)
  {
    assert AllValid(a + b) by {
      forall i | 0 <= i < |a + b| ensures ValidEvent((a + b)[i]) {
        if i >= |a| {
          assert (a + b)[i] == b[i - |a|];
        }
      }
    }
    if a != [] {
      WithKeyAppend(a[1..], b, k, today);
      assert (a + b)[0] == a[0] && (a + b)[1..] == a[1..] + b;
      var p := if Key(a[0], today) == k then [a[0]] else [];
      calc {
        WithKey(a + b, k, today);
        p + WithKey(a[1..] + b, k, today);
        p + (WithKey(a[1..], k, today) + WithKey(b, k, today));
        (p + WithKey(a[1..], k, today)) + WithKey(b, k, today);
      }
    } else {
      assert a + b == b;
    }
  }

  /** Inserting adds the event to the group of its own date, in front, and to no other group. */
  lemma {:induction false} InsertWithKey(x: Event, s: seq<Event>, k: Date, today: Date)
    requires ValidEvent(x) && AllValid(s) && ValidDate(today)
    ensures WithKey(Insert(x, s, today), k, today)
         == (if Key(x, today) == k then [x] else []) + WithKey(s, k, today)
  {
    var px := if Key(x, today) == k then [x] else [];
    if s == [] || !Before(Key(x, today), Key(s[0], today)) {
      assert ([x] + s)[0] == x && ([x] + s)[1..] == s;
    } else {
      InsertWithKey(x, s[1..], k, today);
      var t := Insert(x, s[1..], today);
      assert ([s[0]] + t)[0] == s[0] && ([s[0]] + t)[1..] == t;
      var ps := if Key(s[0], today) == k then [s[0]] else [];
      assert ps == [] || px == [] by {
        NotBeforeFacts(Key(x, today), Key(s[0], today), Key(s[0], today));
      }
      calc {
        WithKey(Insert(x, s, today), k, today);
        ps + WithKey(t, k, today);
        ps + (px + WithKey(s[1..], k, today));
        px + (ps + WithKey(s[1..], k, today));
        px + WithKey(s, k, today);
      }
    }
  }

  /** Stability: the events sharing a date keep their relative order. */
  lemma {:induction false} SortIsStable(s: seq<Event>, k: Date, today: Date)
    requires AllValid(s) && ValidDate(today)
    ensures WithKey(SortDescending(s, today), k, today) == WithKey(s, k, today)
  {
    if s != [] {
      SortIsStable(s[1..], k, today);
      InsertWithKey(s[0], SortDescending(s[1..], today), k, today);
    }
  }

  lemma {:induction false} WithKeyMembers(s: seq<Event>, k: Date, today: Date, x: Event)
    requires AllValid(s) && ValidDate(today)
    ensures x in WithKey(s, k, today) <==> x in s && ValidEvent(x) && Key(x, today) == k
  {
    if s != [] {
      WithKeyMembers(s[1..], k, today, x);
      assert s == [s[0]] + s[1..];
    }
  }

  /** The first event of a sequence belongs to the group of its own date. */
  lemma NonEmptyGroup(r: seq<Event>, today: Date)
    requires AllValid(r) && ValidDate(today) && r != []
    ensures WithKey(r, Key(r[0], today), today) != []
  {
  }

  /** Two descending sequences with the same date groups start with the same event. */
  lemma SameGroupsSameHead(r1: seq<Event>, r2: seq<Event>, today: Date)
    requires AllValid(r1) && AllValid(r2) && ValidDate(today) && r1 != [] && r2 != []
    requires Descending(r1, today) && Descending(r2, today)
    requires forall k :: WithKey(r1, k, today) == WithKey(r2, k, today)
    ensures r1[0] == r2[0]
  {
    var k1, k2 := Key(r1[0], today), Key(r2[0], today);
    assert WithKey(r1, k1, today) == WithKey(r2, k1, today);
    assert WithKey(r1, k2, today) == WithKey(r2, k2, today);
    assert !Before(k2, k1) by {
      WithKeyMembers(r1, k1, today, r1[0]);
      WithKeyMembers(r2, k1, today, r1[0]);
      var j :| 0 <= j < |r2| && r2[j] == r1[0];
    }
    assert !Before(k1, k2) by {
      WithKeyMembers(r2, k2, today, r2[0]);
      WithKeyMembers(r1, k2, today, r2[0]);
      var j :| 0 <= j < |r1| && r1[j] == r2[0];
    }
    NotBeforeFacts(k1, k2, k2);
    assert WithKey(r1, k1, today)[0] == r1[0];
    assert WithKey(r2, k1, today)[0] == r2[0];
  }

  /** Removing a common first event leaves the date groups equal. */
  lemma SameGroupsTails(r1: seq<Event>, r2: seq<Event>, today: Date)
    requires AllValid(r1) && AllValid(r2) && ValidDate(today) && r1 != [] && r2 != [] && r1[0] == r2[0]
    requires forall k :: WithKey(r1, k, today) == WithKey(r2, k, today)
    ensures forall k :: WithKey(r1[1..], k, today) == WithKey(r2[1..], k, today)
  {
    forall k
      ensures WithKey(r1[1..], k, today) == WithKey(r2[1..], k, today)
    {
      var p := if Key(r1[0], today) == k then [r1[0]] else [];
      var x1, x2 := WithKey(r1[1..], k, today), WithKey(r2[1..], k, today);
      assert WithKey(r1, k, today) == p + x1;
      assert WithKey(r2, k, today) == p + x2;
      assert x1 == (p + x1)[|p|..] && x2 == (p + x2)[|p|..];
    }
  }

  /**
    * A descending sequence is determined by its date groups: two descending
    * sequences whose events of each date agree, in order, are equal.
    */
  lemma {:induction false} DescendingDeterminedByGroups(r1: seq<Event>, r2: seq<Event>, today: Date)
    requires AllValid(r1) && AllValid(r2) && ValidDate(today)
    requires Descending(r1, today) && Descending(r2, today)
    requires forall k :: WithKey(r1, k, today) == WithKey(r2, k, today)
    ensures r1 == r2
    decreases |r1| + |r2|
  {
    if r1 == [] && r2 == [] {
    } else if r1 == [] {
      NonEmptyGroup(r2, today);
      assert false;
    } else if r2 == [] {
      NonEmptyGroup(r1, today);
      assert false;
    } else {
      SameGroupsSameHead(r1, r2, today);
      SameGroupsTails(r1, r2, today);
      DescendingDeterminedByGroups(r1[1..], r2[1..], today);
      assert r1 == [r1[0]] + r1[1..] && r2 == [r2[0]] + r2[1..];
    }
  }

  /**
    * The sort is the only stable descending arrangement: any descending
    * sequence that keeps the order of each date group of `s` is the sort of
    * `s`, which in turn is descending, stable and a permutation of `s`.
    */
  lemma SortCharacterized(s: seq<Event>, r: seq<Event>, today: Date)
    requires AllValid(s) && AllValid(r) && ValidDate(today)
    ensures Descending(SortDescending(s, today), today)
    ensures multiset(SortDescending(s, today)) == multiset(s)
    ensures forall k :: WithKey(SortDescending(s, today), k, today) == WithKey(s, k, today)
    ensures Descending(r, today) && (forall k :: WithKey(r, k, today) == WithKey(s, k, today))
        ==> r == SortDescending(s, today)
  {
    SortIsDescending(s, today);
    forall k ensures WithKey(SortDescending(s, today), k, today) == WithKey(s, k, today) {
      SortIsStable(s, k, today);
    }
    if Descending(r, today) && (forall k :: WithKey(r, k, today) == WithKey(s, k, today)) {
      DescendingDeterminedByGroups(r, SortDescending(s, today), today);
    }
  }
}
