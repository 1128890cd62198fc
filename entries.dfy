/**
 * The three entry classes `StrengthEntry`, `CardioEntry` and
 * `EnduranceEntry` of the `LogEntry` interface, with the `;`-separated
 * line each one writes (`toCSV`) and reads (`fromCSV`).
 */
module Entries {
  import opened Wrappers
  import opened JavaText
  import opened Dates

  /** One logged workout; all numbers are Java `int`s. */
  datatype Entry =
    | Strength(name: string, sets: Int32, reps: Int32, date: Date)
    | Cardio(name: string, duration: Int32, sets: Int32, date: Date)
    | Endurance(name: string, distance: Int32, duration: Int32, date: Date)
  {
    /** `totalReps()`: `sets * reps` in `int` arithmetic. */
    function TotalReps(): Int32
      requires Strength?
    {
      Wrap32(sets as int * reps as int)
    }
  }

  /** `totalReps()` is the exact product whenever that fits in an `int`. */
  lemma TotalRepsExact(e: Entry)
    requires e.Strength? && INT_MIN <= e.sets as int * e.reps as int <= INT_MAX
    ensures e.TotalReps() == e.sets as int * e.reps as int
  {
  }

  /** Beyond that it wraps around: 65536 sets of 65536 reps count as 0. */
  lemma TotalRepsOverflow(d: Date)
    ensures Strength("push-ups", 65536, 65536, d).TotalReps() == 0
  {
  }

  /** `toCSV()`: tag, name, the two numbers and the ISO date, joined by `;`. */
  function ToCsv(e: Entry): string
  {
    match e
    case Strength(name, sets, reps, date) =>
      "strength" + ";" + name + ";" + IntToString(sets) + ";" + IntToString(reps) + ";" + FormatIso(date)
    case Cardio(name, duration, sets, date) =>
      "cardio" + ";" + name + ";" + IntToString(duration) + ";" + IntToString(sets) + ";" + FormatIso(date)
    case Endurance(name, distance, duration, date) =>
      "endurance" + ";" + name + ";" + IntToString(distance) + ";" + IntToString(duration) + ";" + FormatIso(date)
  }

  /** The tag each variant writes first. */
  function Tag(e: Entry): string
  {
    match e
    case Strength(_, _, _, _) => "strength"
    case Cardio(_, _, _, _) => "cardio"
    case Endurance(_, _, _, _) => "endurance"
  }

  /** The fields of the written line, in the order they are written. */
  function Fields(e: Entry): seq<string>
  {
    match e
    case Strength(name, sets, reps, date) => [Tag(e), name, IntToString(sets), IntToString(reps), FormatIso(date)]
    case Cardio(name, duration, sets, date) => [Tag(e), name, IntToString(duration), IntToString(sets), FormatIso(date)]
    case Endurance(name, distance, duration, date) => [Tag(e), name, IntToString(distance), IntToString(duration), FormatIso(date)]
  }

  /**
   * The three numeric-and-date fields every `fromCSV` reads: `parts[2]` and
   * `parts[3]` through `Integer.parseInt`, `parts[4]` through
   * `LocalDate.parse`; `None` where Java throws (a missing field, a bad
   * number, a bad date). Fields after the fifth are ignored.
   */
  function ReadNumbers(parts: seq<string>): Option<(Int32, Int32, Date)>
  {
    if |parts| < 5 then None
    else
      match (ParseInt(parts[2]), ParseInt(parts[3]), ParseIso(parts[4]))
      case (Some(a), Some(b), Some(d)) => Some((a, b, d))
      case _ => None
  }

  /** `StrengthEntry.fromCSV(parts)`. */
  function StrengthFromCsv(parts: seq<string>): Option<Entry>
  {
    match ReadNumbers(parts)
    case Some((sets, reps, date)) => Some(Strength(parts[1], sets, reps, date))
    case None => None
  }

  /** `CardioEntry.fromCSV(parts)`. */
  function CardioFromCsv(parts: seq<string>): Option<Entry>
  {
    match ReadNumbers(parts)
    case Some((duration, sets, date)) => Some(Cardio(parts[1], duration, sets, date))
    case None => None
  }

  /** `EnduranceEntry.fromCSV(parts)`. */
  function EnduranceFromCsv(parts: seq<string>): Option<Entry>
  {
    match ReadNumbers(parts)
    case Some((distance, duration, date)) => Some(Endurance(parts[1], distance, duration, date))
    case None => None
  }

  /** What `loadLog` does with one line of the file. */
  datatype LineResult =
    | Blank           // its trim is empty: skipped
    | UnknownTag      // a first field other than the three tags: dropped
    | Read(e: Entry)  // one entry to append
    | Malformed       // `fromCSV` or `parts[0]` throws: `loadLog` stops with an uncaught exception

  /** The body of `loadLog`'s loop for one line (FitnessLogger.java:183-191). */
  function ParseLine(line: string): LineResult
  {
    if Trim(line) == [] then Blank
    else
      var parts := Split(line, ';');
      if |parts| == 0 then Malformed
      else if parts[0] == "strength" then
        (match StrengthFromCsv(parts) case Some(e) => Read(e) case None => Malformed)
      else if parts[0] == "cardio" then
        (match CardioFromCsv(parts) case Some(e) => Read(e) case None => Malformed)
      else if parts[0] == "endurance" then
        (match EnduranceFromCsv(parts) case Some(e) => Read(e) case None => Malformed)
      else UnknownTag
  }

  /**
   * The four outcomes of a line: blank exactly when its trim is empty;
   * dropped exactly when its first field is none of the three tags; a
   * read entry carries the line's tag, its second field as the name and
   * its fifth field as the date.
   */
  lemma ParseLineOutcomes(line: string)
    ensures ParseLine(line).Blank? <==> Trim(line) == []
    ensures var parts := Split(line, ';');
      ParseLine(line).UnknownTag? <==>
        (Trim(line) != [] && |parts| > 0 && parts[0] != "strength" && parts[0] != "cardio" && parts[0] != "endurance")
    ensures var parts := Split(line, ';');
      ParseLine(line).Read? ==>
        (|parts| >= 5 && parts[0] == Tag(ParseLine(line).e) && parts[1] == ParseLine(line).e.name &&
         ParseIso(parts[4]) == Some(ParseLine(line).e.date))
  {
  }

  lemma JoinFive(a: string, b: string, c: string, d: string, e: string)
    ensures Join([a, b, c, d, e], ';') == a + ";" + b + ";" + c + ";" + d + ";" + e
  {
    var f := [a, b, c, d, e];
    assert f[1..] == [b, c, d, e] && f[1..][1..] == [c, d, e] && f[1..][1..][1..] == [d, e];
    assert [d, e][1..] == [e];
    var j4 := d + ";" + e;
    assert Join([d, e], ';') == j4;
    var j3 := c + ";" + j4;
    assert Join([c, d, e], ';') == j3;
    var j2 := b + ";" + j3;
    assert Join([b, c, d, e], ';') == j2;
    assert Join(f, ';') == a + ";" + j2;
    assert a + ";" + j2 == a + ";" + b + ";" + c + ";" + d + ";" + e;
  }

  /** The written line is the fields joined by `;`. */
  lemma ToCsvJoinsFields(e: Entry)
    ensures ToCsv(e) == Join(Fields(e), ';')
  {
    var f := Fields(e);
    JoinFive(f[0], f[1], f[2], f[3], f[4]);
  }

  lemma IntSeparatorFree(n: int)
    ensures ';' !in IntToString(n)
  {
    IntToStringChars(n);
  }

  lemma DateSeparatorFree(d: Date)
    ensures ';' !in FormatIso(d) && FormatIso(d) != []
  {
    IsoCharacters(d);
  }

  /** No written field but the name can hold `;`, and the date is never empty. */
  lemma FieldsSeparatorFree(e: Entry)
    requires ';' !in e.name
    ensures |Fields(e)| == 5
    ensures forall i :: 0 <= i < 5 ==> ';' !in Fields(e)[i]
    ensures Fields(e)[4] != []
  {
    match e
    case Strength(_, a, b, d) => IntSeparatorFree(a); IntSeparatorFree(b); DateSeparatorFree(d);
    case Cardio(_, a, b, d) => IntSeparatorFree(a); IntSeparatorFree(b); DateSeparatorFree(d);
    case Endurance(_, a, b, d) => IntSeparatorFree(a); IntSeparatorFree(b); DateSeparatorFree(d);
  }

  /**
   * The line round trip: reading back the line `toCSV` wrote gives the same
   * variant, name, numbers and date, for every name without `;`.
   */
  lemma CsvRoundTrip(e: Entry)
    requires ';' !in e.name
    ensures ParseLine(ToCsv(e)) == Read(e)
  {
    CsvSplits(e);
    FieldsRead(e);
  }

  /** The written line is not blank and splits back into its five fields. */
  lemma CsvSplits(e: Entry)
    requires ';' !in e.name
    ensures Trim(ToCsv(e)) != [] && Split(ToCsv(e), ';') == Fields(e)
  {
    var line := ToCsv(e);
    ToCsvJoinsFields(e);
    FieldsSeparatorFree(e);
    SplitJoin(Fields(e), ';');
    assert line[0] == Tag(e)[0];
    TrimStartVisible(line);
  }

  /** The two numbers and the date written into a line, in field order. */
  function Numbers(e: Entry): (Int32, Int32, Date)
  {
    match e
    case Strength(_, sets, reps, date) => (sets, reps, date)
    case Cardio(_, duration, sets, date) => (duration, sets, date)
    case Endurance(_, distance, duration, date) => (distance, duration, date)
  }

  /** `parseInt` and `LocalDate.parse` read back the written fields. */
  lemma FieldsRead(e: Entry)
    ensures ReadNumbers(Fields(e)) == Some(Numbers(e))
  {
    var (a, b, d) := Numbers(e);
    ParseIntToString(a);
    ParseIntToString(b);
    IsoRoundTrip(d);
  }

  /**
   * A name holding `;` breaks its own line: `split(";")` cuts the name in
   * two, `parts[2]` is then the name's second half, and `Integer.parseInt`
   * throws on it, so `loadLog` stops at this line on every later start.
   */
  lemma SeparatorInNameBreaksLine(sets: Int32, reps: Int32, d: Date)
    ensures ParseLine(ToCsv(Strength("a;b", sets, reps, d))) == Malformed
  {
    var line := ToCsv(Strength("a;b", sets, reps, d));
    var six := BrokenFields(sets, reps, d);
    BrokenLineSplits(sets, reps, d);
    assert six[0] == "strength" && six[2] == "b";
    assert ParseInt("b") == None;
    assert ReadNumbers(six) == None;
  }

  /** The six pieces a line with the name `a;b` falls into. */
  function BrokenFields(sets: Int32, reps: Int32, d: Date): seq<string>
  {
    ["strength", "a", "b", IntToString(sets), IntToString(reps), FormatIso(d)]
  }

  lemma BrokenLineSplits(sets: Int32, reps: Int32, d: Date)
    ensures var line := ToCsv(Strength("a;b", sets, reps, d));
      Trim(line) != [] && Split(line, ';') == BrokenFields(sets, reps, d)
  {
    var line := ToCsv(Strength("a;b", sets, reps, d));
    var six := BrokenFields(sets, reps, d);
    BrokenLineJoins(sets, reps, d);
    IntSeparatorFree(sets);
    IntSeparatorFree(reps);
    DateSeparatorFree(d);
    SplitJoin(six, ';');
    assert line[0] == 's';
    TrimStartVisible(line);
  }

  lemma BrokenLineJoins(sets: Int32, reps: Int32, d: Date)
    ensures ToCsv(Strength("a;b", sets, reps, d)) == Join(BrokenFields(sets, reps, d), ';')
  {
    var six := BrokenFields(sets, reps, d);
    var x, y, z := IntToString(sets), IntToString(reps), FormatIso(d);
    JoinFive("a", "b", x, y, z);
    assert six[1..] == ["a", "b", x, y, z];
    assert Join(six, ';') == "strength" + [';'] + Join(six[1..], ';');
    assert "a;b" == "a" + ";" + "b";
    Regroup("strength", "a", "b", x, y, z);
  }

  /** Moving the brackets of a `;`-joined line whose second field is `a;b`. */
  lemma Regroup(t: string, a: string, b: string, x: string, y: string, z: string)
    ensures t + ";" + (a + ";" + b) + ";" + x + ";" + y + ";" + z
         == t + [';'] + (a + ";" + b + ";" + x + ";" + y + ";" + z)
  {
  }

  lemma TrimStartVisible(s: string)
    requires s != [] && !IsTrimmed(s[0])
    ensures Trim(s) != []
  {
    assert TrimStart(s) == s;
    TrimEndKeepsFirst(s);
  }

  lemma {:induction false} TrimEndKeepsFirst(s: string)
    requires s != [] && !IsTrimmed(s[0])
    ensures TrimEnd(s) != []
  {
    if IsTrimmed(s[|s| - 1]) {
      assert |s| > 1;
      TrimEndKeepsFirst(s[..|s| - 1]);
    }
  }
}
