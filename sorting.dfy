/**
 * `entries.sort(Comparator.comparing(LogEntry::getDate))`: Java's
 * `List.sort` is stable, so entries logged on the same day keep their
 * order. The sort is stated on values, as an insertion sort, together
 * with the three facts that pin down any stable sort by date: the result
 * is ordered by date, it is a permutation, and the entries of each day
 * come out in their original order.
 */
module Sorting {
  import opened Dates
  import opened Entries

  predicate SortedByDate(s: seq<Entry>)
  {
    forall i, j :: 0 <= i < j < |s| ==> NotAfter(s[i].date, s[j].date)
  }

  /** The entries of `s` dated `d`, in the order of `s`. */
  function OnDate(s: seq<Entry>, d: Date): seq<Entry>
  {
    if s == [] then []
    else
      var rest := OnDate(s[..|s| - 1], d);
      if s[|s| - 1].date == d then rest + [s[|s| - 1]] else rest
  }

  /** Puts `x` after every entry of `s` not later than it. */
  function Insert(s: seq<Entry>, x: Entry): (r: seq<Entry>)
    ensures |r| == |s| + 1
  {
    if s == [] then [x]
    else if NotAfter(s[|s| - 1].date, x.date) then s + [x]
    else Insert(s[..|s| - 1], x) + [s[|s| - 1]]
  }

  /** The list after `sort`: a stable insertion sort by date. */
  function SortByDate(s: seq<Entry>): (r: seq<Entry>)
    ensures |r| == |s|
  {
    if s == [] then [] else Insert(SortByDate(s[..|s| - 1]), s[|s| - 1])
  }

  /** A non-empty sequence's elements: those before its last, and the last. */
  lemma SnocMultiset<T>(xs: seq<T>)
    requires xs != []
    ensures multiset(xs) == multiset(xs[..|xs| - 1]) + multiset{xs[|xs| - 1]}
  {
    assert xs == xs[..|xs| - 1] + [xs[|xs| - 1]];
  }

  lemma {:induction false} InsertMultiset(s: seq<Entry>, x: Entry)
    ensures multiset(Insert(s, x)) == multiset(s) + multiset{x}
  {
    if s != [] && !NotAfter(s[|s| - 1].date, x.date) {
      var init, last := s[..|s| - 1], s[|s| - 1];
      InsertMultiset(init, x);
      SnocMultiset(s);
    }
  }

  /** Appending an entry not earlier than any other keeps a sequence ordered. */
  lemma SortedSnoc(s: seq<Entry>, x: Entry)
    requires SortedByDate(s)
    requires forall i :: 0 <= i < |s| ==> NotAfter(s[i].date, x.date)
    ensures SortedByDate(s + [x])
  {
    var t := s + [x];
    forall i, j | 0 <= i < j < |t|
      ensures NotAfter(t[i].date, t[j].date)
    {
      assert t[i] == s[i];
      if j < |s| {
        assert t[j] == s[j];
      }
    }
  }

  /** Inserting an entry keeps every date within a common upper bound. */
  lemma {:induction false} InsertBounded(s: seq<Entry>, x: Entry, b: Date)
    requires forall i :: 0 <= i < |s| ==> NotAfter(s[i].date, b)
    requires NotAfter(x.date, b)
    ensures forall i :: 0 <= i < |Insert(s, x)| ==> NotAfter(Insert(s, x)[i].date, b)
  {
    if s != [] && !NotAfter(s[|s| - 1].date, x.date) {
      var init := s[..|s| - 1];
      assert forall i :: 0 <= i < |init| ==> init[i] == s[i];
      InsertBounded(init, x, b);
    }
  }

  lemma {:induction false} InsertSorted(s: seq<Entry>, x: Entry)
    requires SortedByDate(s)
    ensures SortedByDate(Insert(s, x))
  {
    if s == [] {
    } else {
      var init, last := s[..|s| - 1], s[|s| - 1];
      assert forall i :: 0 <= i < |init| ==> init[i] == s[i];
      if NotAfter(last.date, x.date) {
        forall i | 0 <= i < |s|
          ensures NotAfter(s[i].date, x.date)
        {
          NotAfterTotalOrder(s[i].date, last.date, x.date);
        }
        SortedSnoc(s, x);
      } else {
        NotAfterTotalOrder(last.date, x.date, x.date);
        InsertSorted(init, x);
        InsertBounded(init, x, last.date);
        SortedSnoc(Insert(init, x), last);
      }
    }
  }

  /** Dated entries other than `x` keep their order, and `x` comes after those of its day. */
  lemma {:induction false} InsertStable(s: seq<Entry>, x: Entry, d: Date)
    ensures OnDate(Insert(s, x), d) == OnDate(s, d) + (if x.date == d then [x] else [])
  {
    if s == [] {
      assert Insert(s, x) == [x];
      assert [x][..0] == [];
    } else {
      var init, last := s[..|s| - 1], s[|s| - 1];
      if NotAfter(last.date, x.date) {
        assert (s + [x])[..|s|] == s;
      } else {
        var r := Insert(init, x);
        InsertStable(init, x, d);
        assert (r + [last])[..|r|] == r;
        // `last` is strictly later than `x`, so at most one of them is dated `d`
        NotAfterTotalOrder(last.date, x.date, x.date);
      }
    }
  }

  lemma {:induction false} SortMultiset(s: seq<Entry>)
    ensures multiset(SortByDate(s)) == multiset(s)
  {
    if s != [] {
      var init, last := s[..|s| - 1], s[|s| - 1];
      SortMultiset(init);
      InsertMultiset(SortByDate(init), last);
      SnocMultiset(s);
    }
  }

  lemma {:induction false} SortSorted(s: seq<Entry>)
    ensures SortedByDate(SortByDate(s))
  {
    if s != [] {
      SortSorted(s[..|s| - 1]);
      InsertSorted(SortByDate(s[..|s| - 1]), s[|s| - 1]);
    }
  }

  /** The sort is stable: the entries of every day come out in their logged order. */
  lemma {:induction false} SortStable(s: seq<Entry>, d: Date)
    ensures OnDate(SortByDate(s), d) == OnDate(s, d)
  {
    if s != [] {
      var init, last := s[..|s| - 1], s[|s| - 1];
      SortStable(init, d);
      InsertStable(SortByDate(init), last, d);
    }
  }

  lemma {:induction false} OnDateMembers(s: seq<Entry>, d: Date)
    ensures forall i :: 0 <= i < |OnDate(s, d)| ==> OnDate(s, d)[i] in s && OnDate(s, d)[i].date == d
  {
    if s != [] {
      var init := s[..|s| - 1];
      OnDateMembers(init, d);
      assert forall e :: e in init ==> e in s;
    }
  }

  lemma {:induction false} OnDateConcat(a: seq<Entry>, b: seq<Entry>, d: Date)
    ensures OnDate(a + b, d) == OnDate(a, d) + OnDate(b, d)
  {
    if b == [] {
      assert a + b == a;
    } else {
      var binit := b[..|b| - 1];
      assert (a + b)[..|a + b| - 1] == a + binit;
      assert (a + b)[|a + b| - 1] == b[|b| - 1];
      OnDateConcat(a, binit, d);
    }
  }

  /** The sort keeps exactly the entries it was given. */
  lemma SortMembers(s: seq<Entry>)
    ensures forall e :: e in SortByDate(s) <==> e in s
  {
    SortMultiset(s);
    assert forall e :: e in SortByDate(s) <==> e in multiset(SortByDate(s));
  }

  /**
   * `entries.get(0)` after the sort: an entry with the earliest date, and
   * of those the first one logged.
   */
  lemma Oldest(s: seq<Entry>)
    requires |s| > 0
    ensures var o := SortByDate(s)[0];
      o in s && (forall e :: e in s ==> NotAfter(o.date, e.date)) &&
      OnDate(s, o.date) != [] && OnDate(s, o.date)[0] == o
  {
    var r := SortByDate(s);
    var o := r[0];
    SortMembers(s);
    SortSorted(s);
    SortStable(s, o.date);
    assert forall k :: 0 <= k < |r| ==> NotAfter(o.date, r[k].date);
    OnDateConcat([o], r[1..], o.date);
    assert [o] + r[1..] == r;
    assert OnDate([o], o.date) == [o] by {
      assert [o][..0] == [];
    }
  }

  /**
   * `entries.get(entries.size() - 1)` after the sort: an entry with the
   * latest date, and of those the last one logged.
   */
  lemma Latest(s: seq<Entry>)
    requires |s| > 0
    ensures var l := SortByDate(s)[|s| - 1];
      l in s && (forall e :: e in s ==> NotAfter(e.date, l.date)) &&
      OnDate(s, l.date) != [] && OnDate(s, l.date)[|OnDate(s, l.date)| - 1] == l
  {
    var r := SortByDate(s);
    var l := r[|r| - 1];
    SortMembers(s);
    SortSorted(s);
    SortStable(s, l.date);
    assert forall k :: 0 <= k < |r| ==> NotAfter(r[k].date, l.date);
  }

  /** The last entry of a sequence is the last of its own day. */
  lemma OnDateLast(s: seq<Entry>)
    requires s != []
    ensures OnDate(s, s[|s| - 1].date) == OnDate(s[..|s| - 1], s[|s| - 1].date) + [s[|s| - 1]]
  {
  }

  /** A non-empty sequence has entries on the day of its last entry. */
  lemma LastDayOccupied(s: seq<Entry>)
    requires s != []
    ensures OnDate(s, s[|s| - 1].date) != []
  {
  }

  /**
   * Two non-empty sequences ordered by date that list the entries of every
   * day in the same order end with the same entry, and what comes before
   * it again lists every day in the same order.
   */
  lemma LastsAgree(s: seq<Entry>, t: seq<Entry>, si: seq<Entry>, ti: seq<Entry>)
    requires s != [] && t != [] && si == s[..|s| - 1] && ti == t[..|t| - 1]
    requires SortedByDate(s) && SortedByDate(t)
    requires forall d :: OnDate(s, d) == OnDate(t, d)
    ensures s[|s| - 1] == t[|t| - 1]
    ensures forall d :: OnDate(si, d) == OnDate(ti, d)
  {
    var ls, lt := s[|s| - 1], t[|t| - 1];
    OnDateLast(s);
    OnDateLast(t);
    OnDateMembers(s, lt.date);
    OnDateMembers(t, ls.date);
    // each last entry appears in the other sequence, so neither date is later
    assert ls in t by {
      var o := OnDate(t, ls.date);
      assert o[|o| - 1] == ls;
    }
    assert lt in s by {
      var o := OnDate(s, lt.date);
      assert o[|o| - 1] == lt;
    }
    var i :| 0 <= i < |s| && s[i] == lt;
    var j :| 0 <= j < |t| && t[j] == ls;
    assert NotAfter(lt.date, ls.date) && NotAfter(ls.date, lt.date);
    NotAfterTotalOrder(ls.date, lt.date, lt.date);
    var day := ls.date;
    assert lt.date == day;
    var os, ot := OnDate(s, day), OnDate(t, day);
    assert os == ot;
    assert os == OnDate(si, day) + [ls] && ot == OnDate(ti, day) + [lt];
    assert ls == os[|os| - 1] == ot[|ot| - 1] == lt;
    assert OnDate(si, day) == os[..|os| - 1] == ot[..|ot| - 1] == OnDate(ti, day);
    forall d
      ensures OnDate(si, d) == OnDate(ti, d)
    {
      assert OnDate(s, d) == OnDate(t, d);
      if d != day {
        assert OnDate(s, d) == OnDate(si, d) && OnDate(t, d) == OnDate(ti, d);
      }
    }
  }

  /**
   * Two sequences ordered by date that list the entries of every day in
   * the same order are equal.
   */
  lemma {:induction false} SameDaysSame(s: seq<Entry>, t: seq<Entry>)
    requires SortedByDate(s) && SortedByDate(t)
    requires forall d :: OnDate(s, d) == OnDate(t, d)
    ensures s == t
  {
    if s != [] && t == [] {
      LastDayOccupied(s);
      assert false;
    } else if s == [] && t != [] {
      LastDayOccupied(t);
      assert false;
    } else if s != [] {
      LastsAgree(s, t, s[..|s| - 1], t[..|t| - 1]);
      SameDaysSame(s[..|s| - 1], t[..|t| - 1]);
      assert s == s[..|s| - 1] + [s[|s| - 1]] && t == t[..|t| - 1] + [t[|t| - 1]];
    }
  }

  /**
   * Any stable sort by date gives the same list: whatever algorithm
   * `List.sort` runs, its result is `SortByDate`.
   */
  lemma StableSortUnique(s: seq<Entry>, t: seq<Entry>)
    requires SortedByDate(t)
    requires forall d :: OnDate(t, d) == OnDate(s, d)
    ensures t == SortByDate(s)
  {
    SortSorted(s);
    forall d
      ensures OnDate(SortByDate(s), d) == OnDate(t, d)
    {
      SortStable(s, d);
    }
    SameDaysSame(SortByDate(s), t);
  }
}
