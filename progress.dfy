/**
 * `showProgress`: the log is grouped per kind by lower-cased name; every
 * group of at least two entries is sorted by date, and its oldest and
 * latest entries are compared: total reps for strength, duration times
 * sets for cardio, speed for endurance. A group is reported only when
 * the gain is strictly positive, and "No progress yet" is shown exactly
 * when no group of any kind is reported.
 */
module Progress {
  import opened Wrappers
  import opened JavaText
  import opened Dates
  import opened Entries
  import opened Sorting

  // ------------------------------------------------------------ grouping

  /** The three maps `showProgress` fills: one per entry class. */
  datatype Kind = StrengthKind | CardioKind | EnduranceKind

  function KindOf(e: Entry): Kind
  {
    match e
    case Strength(_, _, _, _) => StrengthKind
    case Cardio(_, _, _, _) => CardioKind
    case Endurance(_, _, _, _) => EnduranceKind
  }

  /** The map key of an entry: `name.toLowerCase()`. */
  function Key(e: Entry): string
  {
    LowerString(e.name)
  }

  predicate OfKind(g: seq<Entry>, kind: Kind)
  {
    forall i :: 0 <= i < |g| ==> KindOf(g[i]) == kind
  }

  /** The entries of `es` of one kind under one key, in log order. */
  function Group(es: seq<Entry>, kind: Kind, key: string): (r: seq<Entry>)
    ensures OfKind(r, kind)
  {
    if es == [] then []
    else
      var rest := Group(es[..|es| - 1], kind, key);
      var e := es[|es| - 1];
      if KindOf(e) == kind && Key(e) == key then rest + [e] else rest
  }

  /** The keys of one map: the lower-cased names of the entries of that kind. */
  function Keys(es: seq<Entry>, kind: Kind): set<string>
  {
    set i | 0 <= i < |es| && KindOf(es[i]) == kind :: Key(es[i])
  }

  /** One of the maps after the grouping loop. */
  function Groups(es: seq<Entry>, kind: Kind): (r: map<string, seq<Entry>>)
    ensures forall key :: key in r ==> OfKind(r[key], kind)
  {
    map key | key in Keys(es, kind) :: Group(es, kind, key)
  }

  /** `computeIfAbsent(key, k -> new ArrayList<>()).add(e)`. */
  function Added(m: map<string, seq<Entry>>, key: string, e: Entry): map<string, seq<Entry>>
  {
    m[key := (if key in m then m[key] else []) + [e]]
  }

  /** A group holds only entries of the log of its kind and key. */
  lemma {:induction false} GroupMembers(es: seq<Entry>, kind: Kind, key: string)
    ensures forall e :: e in Group(es, kind, key) ==> e in es && KindOf(e) == kind && Key(e) == key
  {
    if es != [] {
      var init, last := es[..|es| - 1], es[|es| - 1];
      GroupMembers(init, kind, key);
      assert forall e :: e in init ==> e in es;
      assert last in es;
    }
  }

  /** A group holds every entry of its kind and key, as often as the log does. */
  lemma {:induction false} GroupCounts(es: seq<Entry>, kind: Kind, key: string, e: Entry)
    ensures multiset(Group(es, kind, key))[e] ==
      if KindOf(e) == kind && Key(e) == key then multiset(es)[e] else 0
  {
    if es != [] {
      var init, last := es[..|es| - 1], es[|es| - 1];
      GroupCounts(init, kind, key, e);
      GroupSnoc(init, last, kind, key);
      assert es == init + [last];
      assert multiset(es) == multiset(init) + multiset{last};
    }
  }

  /** Grouping is a filter: the group of a concatenation is the concatenation of groups. */
  lemma {:induction false} GroupConcat(a: seq<Entry>, b: seq<Entry>, kind: Kind, key: string)
    ensures Group(a + b, kind, key) == Group(a, kind, key) + Group(b, kind, key)
  {
    if b == [] {
      assert a + b == a;
    } else {
      var binit := b[..|b| - 1];
      assert (a + b)[..|a + b| - 1] == a + binit;
      assert (a + b)[|a + b| - 1] == b[|b| - 1];
      GroupConcat(a, binit, kind, key);
    }
  }

  /** A key that no entry of the kind has names an empty group. */
  lemma {:induction false} GroupOutsideKeys(es: seq<Entry>, kind: Kind, key: string)
    requires key !in Keys(es, kind)
    ensures Group(es, kind, key) == []
  {
    if es != [] {
      var init := es[..|es| - 1];
      assert Keys(init, kind) <= Keys(es, kind) by {
        forall k | k in Keys(init, kind)
          ensures k in Keys(es, kind)
        {
          var i :| 0 <= i < |init| && KindOf(init[i]) == kind && Key(init[i]) == k;
          assert es[i] == init[i];
        }
      }
      GroupOutsideKeys(init, kind, key);
      assert KindOf(es[|es| - 1]) == kind ==> Key(es[|es| - 1]) in Keys(es, kind);
    }
  }

  /** Every entry of a kind is in the group under its own lower-cased name. */
  lemma EntryInItsGroup(es: seq<Entry>, i: nat)
    requires i < |es|
    ensures var kind := KindOf(es[i]);
      Key(es[i]) in Groups(es, kind) && es[i] in Groups(es, kind)[Key(es[i])]
  {
    var e := es[i];
    GroupCounts(es, KindOf(e), Key(e), e);
    assert e in multiset(es);
    assert e in multiset(Group(es, KindOf(e), Key(e)));
  }

  /** Every group in a map is non-empty. */
  lemma GroupsNonEmpty(es: seq<Entry>, kind: Kind, key: string)
    requires key in Groups(es, kind)
    ensures |Groups(es, kind)[key]| > 0
  {
    var i :| 0 <= i < |es| && KindOf(es[i]) == kind && Key(es[i]) == key;
    GroupCounts(es, kind, key, es[i]);
    assert es[i] in multiset(es);
  }

  lemma KeysStep(es: seq<Entry>, e: Entry, kind: Kind)
    ensures Keys(es + [e], kind) == Keys(es, kind) + (if KindOf(e) == kind then {Key(e)} else {})
  {
    var t := es + [e];
    forall k | k in Keys(t, kind)
      ensures k in Keys(es, kind) + (if KindOf(e) == kind then {Key(e)} else {})
    {
      var i :| 0 <= i < |t| && KindOf(t[i]) == kind && Key(t[i]) == k;
      if i < |es| {
        assert t[i] == es[i];
      }
    }
    forall k | k in Keys(es, kind)
      ensures k in Keys(t, kind)
    {
      var i :| 0 <= i < |es| && KindOf(es[i]) == kind && Key(es[i]) == k;
      assert t[i] == es[i];
    }
    if KindOf(e) == kind {
      assert t[|es|] == e;
    }
  }

  /** One more entry joins the end of its own group and no other. */
  lemma GroupSnoc(es: seq<Entry>, e: Entry, kind: Kind, key: string)
    ensures Group(es + [e], kind, key) ==
      if KindOf(e) == kind && Key(e) == key then Group(es, kind, key) + [e] else Group(es, kind, key)
  {
    assert (es + [e])[..|es|] == es;
  }

  /** One pass of the grouping loop. */
  lemma GroupsStep(es: seq<Entry>, e: Entry, kind: Kind)
    ensures Groups(es + [e], kind) ==
      if KindOf(e) == kind then Added(Groups(es, kind), Key(e), e) else Groups(es, kind)
  {
    KeysStep(es, e, kind);
    var before, after := Groups(es, kind), Groups(es + [e], kind);
    var expected := if KindOf(e) == kind then Added(before, Key(e), e) else before;
    assert after.Keys == expected.Keys;
    forall k | k in after
      ensures after[k] == expected[k]
    {
      GroupSnoc(es, e, kind, k);
      if KindOf(e) == kind && k == Key(e) && k !in before {
        GroupOutsideKeys(es, kind, k);
      }
    }
  }

  /**
   * The grouping loop of `showProgress`: every entry goes to the list of
   * its class under its lower-cased name.
   */
  method GroupByKind(log: seq<Entry>) returns (strength: map<string, seq<Entry>>,
                                                cardio: map<string, seq<Entry>>,
                                                endurance: map<string, seq<Entry>>)
    ensures strength == Groups(log, StrengthKind)
    ensures cardio == Groups(log, CardioKind)
    ensures endurance == Groups(log, EnduranceKind)
  {
    strength, cardio, endurance := map[], map[], map[];
    var i := 0;
    while i < |log|
      invariant 0 <= i <= |log|
      invariant strength == Groups(log[..i], StrengthKind)
      invariant cardio == Groups(log[..i], CardioKind)
      invariant endurance == Groups(log[..i], EnduranceKind)
    {
      var e := log[i];
      assert log[..i + 1] == log[..i] + [e];
      GroupsStep(log[..i], e, StrengthKind);
      GroupsStep(log[..i], e, CardioKind);
      GroupsStep(log[..i], e, EnduranceKind);
      var key := LowerString(e.name);
      match e {
        case Strength(_, _, _, _) =>
          strength := strength[key := (if key in strength then strength[key] else []) + [e]];
        case Cardio(_, _, _, _) =>
          cardio := cardio[key := (if key in cardio then cardio[key] else []) + [e]];
        case Endurance(_, _, _, _) =>
          endurance := endurance[key := (if key in endurance then endurance[key] else []) + [e]];
      }
      i := i + 1;
    }
    assert log[..i] == log;
  }

  // ---------------------------------------------------- oldest and latest

  /** The entry `entries.get(0)` names after the sort, stated without the sort. */
  predicate IsOldest(g: seq<Entry>, o: Entry)
  {
    o in g && (forall e :: e in g ==> NotAfter(o.date, e.date))
    && OnDate(g, o.date) != [] && OnDate(g, o.date)[0] == o
  }

  /** The entry `entries.get(entries.size() - 1)` names after the sort, stated without the sort. */
  predicate IsLatest(g: seq<Entry>, l: Entry)
  {
    l in g && (forall e :: e in g ==> NotAfter(e.date, l.date))
    && OnDate(g, l.date) != [] && OnDate(g, l.date)[|OnDate(g, l.date)| - 1] == l
  }

  /** There is only one oldest entry: first logged on the earliest date. */
  lemma OldestUnique(g: seq<Entry>, a: Entry, b: Entry)
    requires IsOldest(g, a) && IsOldest(g, b)
    ensures a == b
  {
    NotAfterTotalOrder(a.date, b.date, b.date);
  }

  /** There is only one latest entry: last logged on the latest date. */
  lemma LatestUnique(g: seq<Entry>, a: Entry, b: Entry)
    requires IsLatest(g, a) && IsLatest(g, b)
    ensures a == b
  {
    NotAfterTotalOrder(a.date, b.date, b.date);
  }

  /** The first and last entries of the sorted list, with the facts that identify them. */
  function Ends(g: seq<Entry>): (r: (Entry, Entry))
    requires |g| > 0
    ensures IsOldest(g, r.0) && IsLatest(g, r.1)
  {
    Oldest(g);
    Latest(g);
    var s := SortByDate(g);
    (s[0], s[|s| - 1])
  }

  // ------------------------------------------------------------- reports

  /** What one reported group shows: its oldest and latest entries and, for strength and cardio, the gain. */
  datatype Report =
    | Gain(oldest: Entry, latest: Entry, diff: Int32)
    | Faster(oldest: Entry, latest: Entry)

  /** The compared quantity of a cardio entry: `duration * sets` in `int` arithmetic. */
  function Volume(e: Entry): Int32
    requires e.Cardio?
  {
    Wrap32(e.duration as int * e.sets as int)
  }

  /** The strength loop body for one group (FitnessLogger.java:584-588). */
  function StrengthReport(g: seq<Entry>): Option<Report>
    requires OfKind(g, StrengthKind)
  {
    if |g| < 2 then None
    else
      var (oldest, latest) := Ends(g);
      var diff := Wrap32(latest.TotalReps() as int - oldest.TotalReps() as int);
      if diff <= 0 then None else Some(Gain(oldest, latest, diff))
  }

  /** The cardio loop body for one group (FitnessLogger.java:600-604). */
  function CardioReport(g: seq<Entry>): Option<Report>
    requires OfKind(g, CardioKind)
  {
    if |g| < 2 then None
    else
      var (oldest, latest) := Ends(g);
      var diff := Wrap32(Volume(latest) as int - Volume(oldest) as int);
      if diff <= 0 then None else Some(Gain(oldest, latest, diff))
  }

  /**
   * The endurance loop body for one group. The speeds are `double`s; whether
   * the latest entry is faster than the oldest is the parameter `faster`.
   */
  function EnduranceReport(g: seq<Entry>, faster: (Entry, Entry) -> bool): Option<Report>
  {
    if |g| < 2 then None
    else
      var (oldest, latest) := Ends(g);
      if faster(oldest, latest) then Some(Faster(oldest, latest)) else None
  }

  /** The minutes a cardio gain is shown as: `diff / 60`. */
  function Minutes(diff: Int32): (r: int)
    requires diff > 0
    ensures 0 <= r && r * 60 <= diff < (r + 1) * 60
  {
    JavaDiv(diff, 60)
  }

  /** The ends of the sorted list are the oldest and the latest entry, whatever the sort. */
  lemma EndsUnique(g: seq<Entry>, o: Entry, l: Entry)
    requires |g| > 0 && IsOldest(g, o) && IsLatest(g, l)
    ensures Ends(g) == (o, l)
  {
    var (oldest, latest) := Ends(g);
    OldestUnique(g, o, oldest);
    LatestUnique(g, l, latest);
  }

  /**
   * A strength group of two entries or more is reported exactly when the
   * latest entry's total reps exceed the oldest entry's, and the report
   * names those two entries and the difference.
   */
  lemma StrengthReportMeaning(g: seq<Entry>, o: Entry, l: Entry)
    requires OfKind(g, StrengthKind) && |g| >= 2 && IsOldest(g, o) && IsLatest(g, l)
    ensures o.Strength? && l.Strength?
    ensures var diff := Wrap32(l.TotalReps() as int - o.TotalReps() as int);
      StrengthReport(g) == if diff > 0 then Some(Gain(o, l, diff)) else None
  {
    EndsUnique(g, o, l);
    assert KindOf(o) == StrengthKind && KindOf(l) == StrengthKind;
  }

  /**
   * A cardio group of two entries or more is reported exactly when the
   * latest entry's duration times sets exceeds the oldest entry's.
   */
  lemma CardioReportMeaning(g: seq<Entry>, o: Entry, l: Entry)
    requires OfKind(g, CardioKind) && |g| >= 2 && IsOldest(g, o) && IsLatest(g, l)
    ensures o.Cardio? && l.Cardio?
    ensures var diff := Wrap32(Volume(l) as int - Volume(o) as int);
      CardioReport(g) == if diff > 0 then Some(Gain(o, l, diff)) else None
  {
    EndsUnique(g, o, l);
    assert KindOf(o) == CardioKind && KindOf(l) == CardioKind;
  }

  /** An endurance group of two entries or more is reported exactly when its latest entry is faster. */
  lemma EnduranceReportMeaning(g: seq<Entry>, faster: (Entry, Entry) -> bool, o: Entry, l: Entry)
    requires |g| >= 2 && IsOldest(g, o) && IsLatest(g, l)
    ensures EnduranceReport(g, faster) == if faster(o, l) then Some(Faster(o, l)) else None
  {
    EndsUnique(g, o, l);
  }

  /** A group of fewer than two entries is never reported. */
  lemma ShortGroupsSilent(g: seq<Entry>, faster: (Entry, Entry) -> bool)
    requires |g| < 2
    ensures OfKind(g, StrengthKind) ==> StrengthReport(g).None?
    ensures OfKind(g, CardioKind) ==> CardioReport(g).None?
    ensures EnduranceReport(g, faster).None?
  {
  }

  /** Of two entries logged with the later date first, the second is the oldest. */
  lemma LaterLoggedFirst(late: Entry, early: Entry)
    requires !NotAfter(late.date, early.date)
    ensures IsOldest([late, early], early) && IsLatest([late, early], late)
  {
    var g := [late, early];
    assert g[..1] == [late] && [late][..0] == [];
    assert OnDate([late], early.date) == [];
    assert OnDate([late], late.date) == [late];
    assert OnDate(g, early.date) == [early];
    assert OnDate(g, late.date) == [late];
  }

  /**
   * Push-ups logged out of date order, 4x10 on 8 January and 3x10 on
   * 1 January 2024: the sort puts 1 January first and the report is +10
   * reps.
   */
  lemma PushUpsExample()
    ensures var early := Strength("push-ups", 3, 10, CalendarDate(2024, 1, 1));
      var late := Strength("push-ups", 4, 10, CalendarDate(2024, 1, 8));
      StrengthReport([late, early]) == Some(Gain(early, late, 10))
  {
    var early := Strength("push-ups", 3, 10, CalendarDate(2024, 1, 1));
    var late := Strength("push-ups", 4, 10, CalendarDate(2024, 1, 8));
    LaterLoggedFirst(late, early);
    StrengthReportMeaning([late, early], early, late);
  }

  /** The reports of the groups under the keys in `done`. */
  function Reports(groups: map<string, seq<Entry>>, done: set<string>,
                   report: seq<Entry> --> Option<Report>): map<string, Report>
    requires forall key :: key in groups ==> report.requires(groups[key])
  {
    map key | key in done && key in groups && report(groups[key]).Some? :: report(groups[key]).value
  }

  /** Visiting one more key adds its report, if the group has one. */
  lemma ReportsStep(groups: map<string, seq<Entry>>, done: set<string>, key: string,
                    report: seq<Entry> --> Option<Report>)
    requires forall k :: k in groups ==> report.requires(groups[k])
    requires key in groups && key !in done
    ensures var before := Reports(groups, done, report);
      var r := report(groups[key]);
      key !in before &&
      Reports(groups, done + {key}, report) == if r.Some? then before[key := r.value] else before
  {
  }

  /**
   * One of the `entrySet()` loops of `showProgress`: the groups are visited
   * in no particular order and every group the report function accepts is
   * reported; `any` is whether one was.
   */
  method ReportEach(groups: map<string, seq<Entry>>, report: seq<Entry> --> Option<Report>)
    returns (reports: map<string, Report>, any: bool)
    requires forall key :: key in groups ==> report.requires(groups[key])
    ensures reports == Reports(groups, groups.Keys, report)
    ensures any <==> exists k :: k in reports
  {
    reports, any := map[], false;
    var todo := groups.Keys;
    ghost var done := {};
    while todo != {}
      invariant todo <= groups.Keys && done == groups.Keys - todo
      invariant reports == Reports(groups, done, report)
      invariant any <==> exists k :: k in reports
      decreases |todo|
    {
      var key :| key in todo;
      ReportsStep(groups, done, key, report);
      var r := report(groups[key]);
      if r.Some? {
        reports := reports[key := r.value];
        any := true;
      }
      todo := todo - {key};
      done := done + {key};
    }
  }

  /** What `showProgress` prints, up to layout. */
  datatype Summary = Summary(
    strength: map<string, Report>,
    cardio: map<string, Report>,
    endurance: map<string, Report>,
    noProgress: bool)

  /**
   * `showProgress`: group the log, report every group of each map, and
   * show "No progress yet" exactly when nothing was reported.
   */
  method ShowProgress(log: seq<Entry>, faster: (Entry, Entry) -> bool) returns (summary: Summary)
    ensures var groups := Groups(log, StrengthKind);
      summary.strength == Reports(groups, groups.Keys, StrengthReport)
    ensures var groups := Groups(log, CardioKind);
      summary.cardio == Reports(groups, groups.Keys, CardioReport)
    ensures var groups := Groups(log, EnduranceKind);
      summary.endurance == Reports(groups, groups.Keys, g => EnduranceReport(g, faster))
    ensures summary.noProgress <==> summary.strength == map[] && summary.cardio == map[] && summary.endurance == map[]
  {
    var strength, cardio, endurance := GroupByKind(log);
    var strengthReports, strengthAny := ReportEach(strength, StrengthReport);
    var cardioReports, cardioAny := ReportEach(cardio, CardioReport);
    var enduranceReports, enduranceAny := ReportEach(endurance, g => EnduranceReport(g, faster));
    var hasProgress := strengthAny || cardioAny || enduranceAny;
    summary := Summary(strengthReports, cardioReports, enduranceReports, !hasProgress);
  }
}
