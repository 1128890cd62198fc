/**
 * The in-memory `log` list and the log file behind it: `loadLog`,
 * `saveLog`, `clearLog` and the append-and-save tails of the three add
 * operations. The file is the sequence of lines a reader of it returns;
 * a missing file reads as no lines.
 */
module LogStore {
  import opened Wrappers
  import opened JavaText
  import opened Dates
  import opened Entries

  /** `f` applied to every element, in order. */
  function MapSeq<A, B>(f: A -> B, xs: seq<A>): (r: seq<B>)
    ensures |r| == |xs|
    ensures forall i :: 0 <= i < |xs| ==> r[i] == f(xs[i])
  {
    seq(|xs|, i requires 0 <= i < |xs| => f(xs[i]))
  }

  lemma MapPrefixStep<A, B>(f: A -> B, xs: seq<A>, i: nat)
    requires i < |xs|
    ensures MapSeq(f, xs[..i + 1]) == MapSeq(f, xs[..i]) + [f(xs[i])]
  {
    assert xs[..i + 1] == xs[..i] + [xs[i]];
  }

  /** A sequence is its part before `i`, its element at `i`, and its part after `i`. */
  lemma SplitAt<T>(xs: seq<T>, i: nat)
    requires i < |xs|
    ensures xs == xs[..i] + [xs[i]] + xs[i + 1..]
  {
  }

  /** The lines `saveLog` writes for a log: one `toCSV` line per entry, in order. */
  function Lines(es: seq<Entry>): seq<string>
  {
    MapSeq(ToCsv, es)
  }

  /**
   * What `loadLog` has done after reading some lines: the entries it
   * appended and, when a line made it throw, that line's index (the
   * exception escapes `loadLog`; the entries before it stay appended).
   */
  datatype LoadResult = LoadResult(entries: seq<Entry>, failedAt: Option<nat>)

  /** The outcome of each line, in file order. */
  function Parsed(lines: seq<string>): seq<LineResult>
  {
    MapSeq(ParseLine, lines)
  }

  /** `loadLog`'s loop over the line outcomes, taken one at a time from the first. */
  function Fold(rs: seq<LineResult>): LoadResult
  {
    if rs == [] then LoadResult([], None)
    else
      var prev := Fold(rs[..|rs| - 1]);
      if prev.failedAt.Some? then prev
      else
        match rs[|rs| - 1]
        case Blank => prev
        case UnknownTag => prev
        case Read(e) => LoadResult(prev.entries + [e], None)
        case Malformed => LoadResult(prev.entries, Some(|rs| - 1))
  }

  /** What `loadLog` does with the lines of the file. */
  function ReadAll(lines: seq<string>): LoadResult
  {
    Fold(Parsed(lines))
  }

  /** The entry an outcome contributes when `loadLog` does not stop at it. */
  function Contribution(r: LineResult): seq<Entry>
  {
    if r.Read? then [r.e] else []
  }

  /**
   * `loadLog` stops at outcome `k` exactly when `k` is the first outcome
   * that makes it throw.
   */
  lemma {:induction false} FoldFailure(rs: seq<LineResult>, k: nat)
    ensures Fold(rs).failedAt == Some(k) <==>
      (k < |rs| && rs[k].Malformed? && forall j :: 0 <= j < k ==> !rs[j].Malformed?)
  {
    if rs != [] {
      var init := rs[..|rs| - 1];
      assert forall j :: 0 <= j < |init| ==> init[j] == rs[j];
      FoldFailure(init, k);
      match Fold(init).failedAt
      case Some(first) =>
        FoldFailure(init, first);
      case None =>
        forall j | 0 <= j < |init|
          ensures !init[j].Malformed?
        {
          if init[j].Malformed? {
            MalformedFails(init, j);
          }
        }
    }
  }

  /** Outcomes that include a malformed one fail somewhere. */
  lemma {:induction false} MalformedFails(rs: seq<LineResult>, k: nat)
    requires k < |rs| && rs[k].Malformed?
    ensures Fold(rs).failedAt.Some?
  {
    var init := rs[..|rs| - 1];
    if k < |rs| - 1 {
      assert init[k] == rs[k];
      MalformedFails(init, k);
    }
  }

  /**
   * When no line makes it throw, reading two stretches of lines appends
   * the entries of the first, then those of the second.
   */
  lemma {:induction false} FoldConcat(a: seq<LineResult>, b: seq<LineResult>)
    requires Fold(a).failedAt.None? && Fold(b).failedAt.None?
    ensures Fold(a + b) == LoadResult(Fold(a).entries + Fold(b).entries, None)
  {
    if b == [] {
      assert a + b == a;
    } else {
      var binit := b[..|b| - 1];
      assert (a + b)[..|a + b| - 1] == a + binit;
      assert (a + b)[|a + b| - 1] == b[|b| - 1];
      assert Fold(binit).failedAt.None?;
      FoldConcat(a, binit);
    }
  }

  /** Once `loadLog` has thrown, no later line changes what it did. */
  lemma {:induction false} FoldFailureStable(a: seq<LineResult>, b: seq<LineResult>)
    requires Fold(a).failedAt.Some?
    ensures Fold(a + b) == Fold(a)
  {
    if b == [] {
      assert a + b == a;
    } else {
      var binit := b[..|b| - 1];
      assert (a + b)[..|a + b| - 1] == a + binit;
      FoldFailureStable(a, binit);
    }
  }

  /**
   * One more line that does not make `loadLog` throw: a blank line or an
   * unknown tag leaves the entries as they were, a recognised line
   * appends exactly its one entry.
   */
  lemma FoldSnoc(rs: seq<LineResult>, r: LineResult)
    requires Fold(rs).failedAt.None? && !r.Malformed?
    ensures Fold(rs + [r]) == LoadResult(Fold(rs).entries + Contribution(r), None)
    ensures (r.Blank? || r.UnknownTag?) ==> Fold(rs + [r]) == Fold(rs)
  {
    assert (rs + [r])[..|rs|] == rs;
  }

  /** One more line read by the `loadLog` loop, which does not stop at it. */
  lemma FoldPrefixStep(rs: seq<LineResult>, i: nat)
    requires i < |rs| && Fold(rs[..i]).failedAt.None? && !rs[i].Malformed?
    ensures Fold(rs[..i + 1]) == LoadResult(Fold(rs[..i]).entries + Contribution(rs[i]), None)
  {
    assert rs[..i + 1] == rs[..i] + [rs[i]];
    FoldSnoc(rs[..i], rs[i]);
  }

  /** A malformed line after lines that were all read ends `loadLog` there. */
  lemma FoldMalformedThen(a: seq<LineResult>, b: seq<LineResult>)
    requires Fold(a).failedAt.None?
    ensures Fold(a + [Malformed] + b) == LoadResult(Fold(a).entries, Some(|a|))
  {
    var upto := a + [Malformed];
    assert upto[..|upto| - 1] == a;
    FoldFailureStable(upto, b);
  }

  /** The `loadLog` loop stops at line `i` and the rest of the file is never read. */
  lemma FoldStopsAt(rs: seq<LineResult>, i: nat)
    requires i < |rs| && Fold(rs[..i]).failedAt.None? && rs[i].Malformed?
    ensures Fold(rs) == LoadResult(Fold(rs[..i]).entries, Some(i))
  {
    SplitAt(rs, i);
    FoldMalformedThen(rs[..i], rs[i + 1..]);
  }

  /** Reading only recognised lines gives their entries, in order. */
  lemma {:induction false} FoldOfReads(es: seq<Entry>)
    ensures Fold(seq(|es|, i requires 0 <= i < |es| => Read(es[i]))) == LoadResult(es, None)
  {
    var rs := seq(|es|, i requires 0 <= i < |es| => Read(es[i]));
    if es != [] {
      var init := es[..|es| - 1];
      assert rs[..|rs| - 1] == seq(|init|, i requires 0 <= i < |init| => Read(init[i]));
      FoldOfReads(init);
      assert es == init + [es[|es| - 1]];
    }
  }

  /** Names without `;` survive a save and a load: the file reads back as the log. */
  predicate SeparatorFreeNames(es: seq<Entry>)
  {
    forall i :: 0 <= i < |es| ==> ';' !in es[i].name
  }

  lemma LoadOfSaved(es: seq<Entry>)
    requires SeparatorFreeNames(es)
    ensures ReadAll(Lines(es)) == LoadResult(es, None)
  {
    var rs := Parsed(Lines(es));
    forall i | 0 <= i < |es|
      ensures rs[i] == Read(es[i])
    {
      CsvRoundTrip(es[i]);
    }
    assert rs == seq(|es|, i requires 0 <= i < |es| => Read(es[i]));
    FoldOfReads(es);
  }

  /**
   * One saved entry whose name holds `;` makes every later `loadLog` stop
   * at its line: the entries saved before it are read, the line itself
   * throws, and nothing after it is read.
   */
  lemma SeparatorInNameStopsLoad(es: seq<Entry>, sets: Int32, reps: Int32, d: Date, rest: seq<Entry>)
    requires SeparatorFreeNames(es)
    ensures ReadAll(Lines(es + [Strength("a;b", sets, reps, d)] + rest)) == LoadResult(es, Some(|es|))
  {
    var all := es + [Strength("a;b", sets, reps, d)] + rest;
    var rs := Parsed(Lines(all));
    assert rs[..|es|] == Parsed(Lines(es)) by {
      assert forall i :: 0 <= i < |es| ==> all[i] == es[i];
    }
    LoadOfSaved(es);
    assert all[|es|] == Strength("a;b", sets, reps, d);
    SeparatorInNameBreaksLine(sets, reps, d);
    FoldStopsAt(rs, |es|);
  }

  /**
   * The program's `log` list and the lines of `log.txt`.
   */
  class Store {
    var log: seq<Entry>
    var file: seq<string>

    /** The state the program starts with: an empty list, the file as found on disk. */
    constructor(existing: seq<string>)
      ensures log == [] && file == existing
    {
      log := [];
      file := existing;
    }

    /** The file holds exactly the lines of the log. */
    predicate InSync()
      reads this
    {
      file == Lines(log)
    }

    /**
     * `loadLog()`: appends the entry of every recognised line, in file
     * order, after what is already in `log`. It returns the index of the
     * line that made it throw, if one did; the entries before that line
     * stay appended.
     */
    method Load() returns (failedAt: Option<nat>)
      modifies this
      ensures file == old(file)
      ensures log == old(log) + ReadAll(file).entries
      ensures failedAt == ReadAll(file).failedAt
    {
      ghost var rs := Parsed(file);
      var i := 0;
      while i < |file|
        invariant 0 <= i <= |file| && file == old(file)
        invariant Fold(rs[..i]).failedAt.None?
        invariant log == old(log) + Fold(rs[..i]).entries
      {
        var r := ParseLine(file[i]);
        assert r == rs[i];
        match r {
          case Blank =>
          case UnknownTag =>
          case Read(e) =>
            log := log + [e];
          case Malformed =>
            FoldStopsAt(rs, i);
            return Some(i);
        }
        FoldPrefixStep(rs, i);
        i := i + 1;
      }
      assert rs[..i] == rs;
      return None;
    }

    /** `saveLog()`: the file becomes one `toCSV` line per entry of the log, in order. */
    method Save()
      modifies this
      ensures log == old(log)
      ensures file == Lines(log)
    {
      var lines := [];
      var i := 0;
      while i < |log|
        invariant 0 <= i <= |log| && log == old(log)
        invariant lines == Lines(log[..i])
      {
        MapPrefixStep(ToCsv, log, i);
        lines := lines + [ToCsv(log[i])];
        i := i + 1;
      }
      assert log[..i] == log;
      file := lines;
    }

    /** `clearLog()`: the list and the file are both emptied. */
    method Clear()
      modifies this
      ensures log == [] && file == []
    {
      log := [];
      file := [];
    }

    /** The tail of `addStrengthExercise`: append the new entry, then save. */
    method AddStrength(name: string, sets: Int32, reps: Int32, date: Date)
      modifies this
      ensures log == old(log) + [Strength(name, sets, reps, date)]
      ensures InSync()
    {
      log := log + [Strength(name, sets, reps, date)];
      Save();
    }

    /** The tail of `addCardioExercise`: append the new entry, then save. */
    method AddCardio(name: string, duration: Int32, sets: Int32, date: Date)
      modifies this
      ensures log == old(log) + [Cardio(name, duration, sets, date)]
      ensures InSync()
    {
      log := log + [Cardio(name, duration, sets, date)];
      Save();
    }

    /** The tail of `addEnduranceExercise`: append the new entry, then save. */
    method AddEndurance(name: string, distance: Int32, duration: Int32, date: Date)
      modifies this
      ensures log == old(log) + [Endurance(name, distance, duration, date)]
      ensures InSync()
    {
      log := log + [Endurance(name, distance, duration, date)];
      Save();
    }
  }
}
