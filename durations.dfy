/**
 * `parseDuration` and `formatDuration`: durations written as
 * `<digits><unit>` segments with units `h`, `m` and `s`.
 */
module Durations {
  import opened Wrappers
  import opened JavaText

  /** One `<digits><unit>` piece of a duration text. */
  datatype Segment = Segment(digits: string, unit: char)

  predicate IsUnit(c: char) { c == 'h' || c == 'm' || c == 's' }


  /** At least one digit, a unit letter, and a number `Integer.parseInt` accepts. */
  predicate WellFormed(seg: Segment)
  {
    |seg.digits| > 0 && AllDigits(seg.digits) && DigitsValue(seg.digits) <= INT_MAX && IsUnit(seg.unit)
  }

  predicate AllWellFormed(segs: seq<Segment>)
  {
    forall i :: 0 <= i < |segs| ==> WellFormed(segs[i])
  }

  /** The seconds one segment denotes: its number times 3600, 60 or 1. */
  function SegmentSeconds(seg: Segment): nat
    requires WellFormed(seg)
  {
    var n := DigitsValue(seg.digits);
    if seg.unit == 'h' then n * 3600 else if seg.unit == 'm' then n * 60 else n
  }

  /** The text that a sequence of segments spells. */
  function Render(segs: seq<Segment>): string
  {
    if segs == [] then []
    else
      var last := segs[|segs| - 1];
      Render(segs[..|segs| - 1]) + last.digits + [last.unit]
  }

  /** The exact number of seconds the segments denote. */
  function Total(segs: seq<Segment>): nat
    requires AllWellFormed(segs)
  {
    if segs == [] then 0
    else
      var last := segs[|segs| - 1];
      Total(segs[..|segs| - 1]) + SegmentSeconds(last)
  }

  /**
   * What the scanning loop has seen after reading `s`: the completed
   * segments and the digits still waiting for a unit, or `None` once the
   * loop has given up (a foreign character, a unit with no digits before it,
   * or a number too large for an `int`).
   */
  function Lex(s: string): Option<(seq<Segment>, string)>
  {
    if s == [] then Some(([], []))
    else
      var c := s[|s| - 1];
      match Lex(s[..|s| - 1])
      case None => None
      case Some((segs, pending)) =>
        if IsDigit(c) then Some((segs, pending + [c]))
        else if IsUnit(c) && pending != [] && AllDigits(pending) && DigitsValue(pending) <= INT_MAX then
          Some((segs + [Segment(pending, c)], []))
        else None
  }

  /** What the loop has read so far is spelled by its segments followed by its pending digits. */
  lemma {:induction false} LexSound(s: string)
    ensures Lex(s).Some? ==> AllWellFormed(Lex(s).value.0) && AllDigits(Lex(s).value.1)
    ensures Lex(s).Some? ==> Render(Lex(s).value.0) + Lex(s).value.1 == s
  {
    if s != [] {
      var p := s[..|s| - 1];
      var c := s[|s| - 1];
      LexSound(p);
      assert s == p + [c];
      if Lex(s).Some? {
        var (segs, pending) := Lex(p).value;
        if !IsDigit(c) {
          var segs' := segs + [Segment(pending, c)];
          assert segs'[..|segs'| - 1] == segs;
          assert forall i :: 0 <= i < |segs'| ==> WellFormed(segs'[i]) by {
            forall i | 0 <= i < |segs'| ensures WellFormed(segs'[i]) {
              if i < |segs| { assert segs'[i] == segs[i]; }
            }
          }
        }
      }
    }
  }

  /**
   * The value `parseDuration(input)` returns: the segments' seconds summed
   * in `int` arithmetic, when the whole trimmed, lower-cased input is made
   * of segments and that sum is positive.
   */
  function DurationSpec(input: string): (r: Option<Int32>)
    ensures r.Some? ==> r.value > 0
  {
    var s := Normalize(input);
    if s == [] then None
    else
      LexSound(s);
      match Lex(s)
      case None => None
      case Some((segs, pending)) =>
        if pending != [] then None
        else
          var t := Wrap32(Total(segs));
          if t > 0 then Some(t) else None
  }

  /** Reading one more character, as one turn of the scanning loop does. */
  lemma LexSnoc(p: string, c: char)
    ensures Lex(p + [c]) ==
      match Lex(p)
      case None => None
      case Some((segs, pending)) =>
        if IsDigit(c) then Some((segs, pending + [c]))
        else if IsUnit(c) && pending != [] && AllDigits(pending) && DigitsValue(pending) <= INT_MAX then Some((segs + [Segment(pending, c)], []))
        else None
  {
    assert (p + [c])[..|p + [c]| - 1] == p;
  }

  /** One turn of the scanning loop over `s`, at position `i`. */
  lemma LexNext(s: string, i: nat)
    requires i < |s|
    ensures Lex(s[..i + 1]) ==
      match Lex(s[..i])
      case None => None
      case Some((segs, pending)) =>
        if IsDigit(s[i]) then Some((segs, pending + [s[i]]))
        else if IsUnit(s[i]) && pending != [] && AllDigits(pending) && DigitsValue(pending) <= INT_MAX then Some((segs + [Segment(pending, s[i])], []))
        else None
  {
    assert s[..i + 1] == s[..i] + [s[i]];
    LexSnoc(s[..i], s[i]);
  }

  /** Once the loop has given up, reading further characters changes nothing. */
  lemma {:induction false} LexStaysFailed(s: string, t: string)
    requires Lex(s) == None
    ensures Lex(s + t) == None
  {
    if t != [] {
      var u := t[..|t| - 1];
      LexStaysFailed(s, u);
      assert s + t == (s + u) + [t[|t| - 1]];
      LexSnoc(s + u, t[|t| - 1]);
    } else {
      assert s + t == s;
    }
  }

  /** Digits read after a complete text stay pending. */
  lemma {:induction false} LexPending(r: string, segs: seq<Segment>, pending: string)
    requires Lex(r) == Some((segs, []))
    requires AllDigits(pending)
    ensures Lex(r + pending) == Some((segs, pending))
  {
    if pending == [] {
      assert r + pending == r;
    } else {
      var p := pending[..|pending| - 1];
      var c := pending[|pending| - 1];
      assert AllDigits(p) by {
        forall i | 0 <= i < |p|
          ensures IsDigit(p[i])
        {
          assert p[i] == pending[i];
        }
      }
      LexPending(r, segs, p);
      assert pending == p + [c];
      assert r + pending == (r + p) + [c];
      assert IsDigit(c);
      LexSnoc(r + p, c);
      assert Lex((r + p) + [c]) == Some((segs, p + [c]));
    }
  }

  /** Every text spelled by well-formed segments is read back as exactly those segments. */
  lemma {:induction false} LexRender(segs: seq<Segment>)
    requires AllWellFormed(segs)
    ensures Lex(Render(segs)) == Some((segs, []))
  {
    if segs != [] {
      var init := segs[..|segs| - 1];
      var last := segs[|segs| - 1];
      assert AllWellFormed(init);
      LexRender(init);
      LexPending(Render(init), init, last.digits);
      assert Render(segs) == (Render(init) + last.digits) + [last.unit];
      LexSnoc(Render(init) + last.digits, last.unit);
      assert init + [Segment(last.digits, last.unit)] == segs;
    }
  }

  /** Every character of a rendered text is a digit or a unit letter. */
  lemma {:induction false} RenderCharacters(segs: seq<Segment>)
    requires AllWellFormed(segs)
    ensures forall i :: 0 <= i < |Render(segs)| ==> IsDigit(Render(segs)[i]) || IsUnit(Render(segs)[i])
    ensures forall i :: 0 <= i < |Render(segs)| && IsUnit(Render(segs)[i]) ==> i > 0 && IsDigit(Render(segs)[i - 1])
    ensures segs != [] ==> IsUnit(Render(segs)[|Render(segs)| - 1])
  {
    if segs != [] {
      var init := segs[..|segs| - 1];
      var last := segs[|segs| - 1];
      assert AllWellFormed(init);
      RenderCharacters(init);
      var r := Render(segs);
      var p := Render(init);
      assert r == p + last.digits + [last.unit];
      forall i | 0 <= i < |r|
        ensures IsDigit(r[i]) || IsUnit(r[i])
        ensures IsUnit(r[i]) ==> i > 0 && IsDigit(r[i - 1])
      {
        if i < |p| {
          assert r[i] == p[i];
          if IsUnit(r[i]) { assert r[i - 1] == p[i - 1]; }
        } else if i < |p| + |last.digits| {
          assert r[i] == last.digits[i - |p|];
        } else {
          assert i == |r| - 1;
          assert r[i - 1] == last.digits[|last.digits| - 1];
        }
      }
    }
  }

  /** One unit letter adds its segment's seconds to the running `int` total. */
  lemma AddSegment(segs: seq<Segment>, seg: Segment, seconds: Int32, num: Int32)
    requires AllWellFormed(segs) && WellFormed(seg)
    requires seconds == Wrap32(Total(segs)) && num == DigitsValue(seg.digits)
    ensures AllWellFormed(segs + [seg])
    ensures Wrap32(Total(segs + [seg])) ==
      if seg.unit == 'h' then Wrap32(seconds as int + Wrap32(num as int * 3600))
      else if seg.unit == 'm' then Wrap32(seconds as int + Wrap32(num as int * 60))
      else Wrap32(seconds as int + num as int)
  {
    TotalSnoc(segs, seg);
    WrapAdd(Total(segs), SegmentSeconds(seg));
    if seg.unit == 'h' {
      assert SegmentSeconds(seg) == num as int * 3600;
    } else if seg.unit == 'm' {
      assert SegmentSeconds(seg) == num as int * 60;
    } else {
      assert SegmentSeconds(seg) == num as int;
      assert Wrap32(num as int) == num as int;
    }
  }

  /** Once the loop gives up at position `i`, the whole input is rejected. */
  lemma RejectedAt(input: string, i: nat)
    requires i < |Normalize(input)| && Lex(Normalize(input)[..i + 1]) == None
    ensures DurationSpec(input) == None
  {
    var s := Normalize(input);
    LexStaysFailed(s[..i + 1], s[i + 1..]);
    assert s == s[..i + 1] + s[i + 1..];
  }

  /** What the input yields when the loop reads it to the end. */
  lemma Finished(input: string, segs: seq<Segment>, pending: string)
    requires Normalize(input) != [] && Lex(Normalize(input)) == Some((segs, pending))
    requires AllWellFormed(segs)
    ensures DurationSpec(input) ==
      if pending != [] || Wrap32(Total(segs)) <= 0 then None else Some(Wrap32(Total(segs)))
  {
  }

  /**
   * `parseDuration` (FitnessLogger.java:293-319): the loop keeps the digits
   * read since the last unit and the running `int` total, and returns
   * `None` wherever the Java code returns `null`.
   */
  method ParseDuration(input: string) returns (r: Option<Int32>)
    ensures r == DurationSpec(input)
  {
    var s := Normalize(input);
    if |s| == 0 {
      return None;
    }
    var seconds: Int32 := 0;
    var currentNum: string := "";
    ghost var segs: seq<Segment> := [];
    var i := 0;
    while i < |s|
      invariant 0 <= i <= |s|
      invariant Lex(s[..i]) == Some((segs, currentNum))
      invariant AllWellFormed(segs) && AllDigits(currentNum)
      invariant seconds == Wrap32(Total(segs))
    {
      var c := s[i];
      LexNext(s, i);
      if IsDigit(c) {
        currentNum := currentNum + [c];
      } else if IsUnit(c) {
        if |currentNum| == 0 {
          RejectedAt(input, i);
          return None;
        }
        var parsed := ParseInt(currentNum);
        ParseIntDigits(currentNum);
        if parsed.None? {
          RejectedAt(input, i);
          return None;
        }
        var num := parsed.value;
        ghost var seg := Segment(currentNum, c);
        AddSegment(segs, seg, seconds, num);
        if c == 'h' {
          seconds := Wrap32(seconds as int + Wrap32(num as int * 3600));
        } else if c == 'm' {
          seconds := Wrap32(seconds as int + Wrap32(num as int * 60));
        } else {
          seconds := Wrap32(seconds as int + num as int);
        }
        segs := segs + [seg];
        currentNum := "";
      } else {
        RejectedAt(input, i);
        return None;
      }
      i := i + 1;
    }
    assert s[..i] == s;
    Finished(input, segs, currentNum);
    if |currentNum| != 0 {
      return None;
    }
    if seconds > 0 {
      r := Some(seconds);
    } else {
      r := None;
    }
  }

  /**
   * Soundness: a text `parseDuration` accepts is a concatenation of
   * well-formed segments, and the value is their total (in `int` arithmetic).
   */
  lemma DurationSound(input: string, t: Int32)
    requires DurationSpec(input) == Some(t)
    ensures t > 0
    ensures exists segs :: AllWellFormed(segs) && Render(segs) == Normalize(input) && Wrap32(Total(segs)) == t
  {
    LexSound(Normalize(input));
    var segs := Lex(Normalize(input)).value.0;
    assert Render(segs) + [] == Normalize(input);
  }

  /** A rendered text is unchanged by trimming and lower-casing. */
  lemma RenderIsNormal(segs: seq<Segment>)
    requires AllWellFormed(segs) && segs != []
    ensures Normalize(Render(segs)) == Render(segs)
  {
    var s := Render(segs);
    RenderCharacters(segs);
    assert s != [] && IsDigit(s[0]);
    NormalizePlain(s);
  }

  /**
   * Completeness: every concatenation of well-formed segments, in any order
   * and with repeated units, is accepted with its exact total when that
   * total is positive and fits in an `int`.
   */
  lemma DurationComplete(segs: seq<Segment>)
    requires AllWellFormed(segs)
    requires 0 < Total(segs) <= INT_MAX
    ensures DurationSpec(Render(segs)) == Some(Total(segs))
  {
    assert segs != [];
    RenderIsNormal(segs);
    LexRender(segs);
    assert Wrap32(Total(segs)) == Total(segs);
  }

  /**
   * The three ways `parseDuration` rejects a non-empty text: a character
   * that is neither a digit nor `h`, `m`, `s`; a unit letter with no digit
   * right before it; digits left over at the end.
   */
  lemma DurationShape(input: string, t: Int32)
    requires DurationSpec(input) == Some(t)
    ensures var s := Normalize(input);
      && s != []
      && (forall i :: 0 <= i < |s| ==> IsDigit(s[i]) || IsUnit(s[i]))
      && (forall i :: 0 <= i < |s| && IsUnit(s[i]) ==> i > 0 && IsDigit(s[i - 1]))
      && IsUnit(s[|s| - 1])
  {
    var s := Normalize(input);
    LexSound(s);
    var segs := Lex(s).value.0;
    assert Render(segs) + [] == s;
    RenderCharacters(segs);
  }

  /** A total that is zero (`0s`, `0h0m`) is rejected: only positive durations come out. */
  lemma ZeroRejected(segs: seq<Segment>)
    requires AllWellFormed(segs) && Total(segs) == 0
    ensures DurationSpec(Render(segs)) == None
  {
    if segs != [] {
      RenderCharacters(segs);
      TrimVisible(Render(segs));
      LowerNoUpper(Render(segs));
      LexRender(segs);
    }
  }

  lemma RenderSnoc(segs: seq<Segment>, seg: Segment)
    ensures Render(segs + [seg]) == Render(segs) + seg.digits + [seg.unit]
  {
    assert (segs + [seg])[..|segs|] == segs;
  }

  lemma TotalSnoc(segs: seq<Segment>, seg: Segment)
    requires AllWellFormed(segs) && WellFormed(seg)
    ensures AllWellFormed(segs + [seg])
    ensures Total(segs + [seg]) == Total(segs) + SegmentSeconds(seg)
  {
    assert (segs + [seg])[..|segs|] == segs;
  }

  /** The example `2h30m15s` is 9015 seconds. */
  lemma DurationExampleFull()
    ensures DurationSpec("2h30m15s") == Some(9015)
  {
    var segs := [Segment("2", 'h'), Segment("30", 'm'), Segment("15", 's')];
    ThreeSegments(2, 30, 15);
    assert IntToString(2) == "2" && IntToString(30) == "30" && IntToString(15) == "15";
    assert Render(segs) == "2h30m15s" && Total(segs) == 9015;
    DurationComplete(segs);
  }

  /** Units may repeat and come in any order: `5s2h` is 7205 seconds. */
  lemma DurationExampleUnordered()
    ensures DurationSpec("5s2h") == Some(7205)
  {
    var s5, h2 := Segment("5", 's'), Segment("2", 'h');
    OneSegment(5);
    assert IntToString(5) == "5";
    assert DigitsValue("2") == 2;
    TotalSnoc([s5], h2);
    RenderSnoc([s5], h2);
    assert [s5] + [h2] == [s5, h2];
    assert Render([s5, h2]) == "5s2h" && Total([s5, h2]) == 7205;
    DurationComplete([s5, h2]);
  }

  // ------------------------------------------------------------ formatting

  /** `formatDuration()` of `CardioEntry` and `EnduranceEntry` (the same code twice). */
  function FormatDuration(d: Int32): string
  {
    var h := JavaDiv(d, 3600);
    var m := JavaDiv(JavaRem(d, 3600), 60);
    var s := JavaRem(d, 60);
    if h > 0 then IntToString(h) + "h" + IntToString(m) + "m" + IntToString(s) + "s"
    else if m > 0 then IntToString(m) + "m" + IntToString(s) + "s"
    else IntToString(s) + "s"
  }

  /** For a non-negative duration the three parts rebuild it, with minutes and seconds below 60. */
  lemma PartsRebuild(d: int)
    requires d >= 0
    ensures var h, m, s := JavaDiv(d, 3600), JavaDiv(JavaRem(d, 3600), 60), JavaRem(d, 60);
      h * 3600 + m * 60 + s == d && h >= 0 && 0 <= m < 60 && 0 <= s < 60
  {
    var h := d / 3600;
    var rest := d % 3600;
    assert d == h * 3600 + rest;
    assert rest == (rest / 60) * 60 + rest % 60;
    assert rest % 60 == d % 60 by {
      assert d == (h * 60 + rest / 60) * 60 + rest % 60;
    }
  }

  /** A non-negative part, written by `Integer.toString`, is a well-formed segment. */
  lemma PartSegment(n: int, u: char)
    requires 0 <= n <= INT_MAX && IsUnit(u)
    ensures WellFormed(Segment(IntToString(n), u))
    ensures DigitsValue(IntToString(n)) == n
  {
  }

  /** The segments that spell `HhMmSs`, `MmSs` or `Ss`, with their total. */
  lemma ThreeSegments(h: int, m: int, s: int)
    requires 0 <= h <= INT_MAX && 0 <= m <= INT_MAX && 0 <= s <= INT_MAX
    ensures var segs := [Segment(IntToString(h), 'h'), Segment(IntToString(m), 'm'), Segment(IntToString(s), 's')];
      AllWellFormed(segs)
      && Render(segs) == IntToString(h) + "h" + IntToString(m) + "m" + IntToString(s) + "s"
      && Total(segs) == h * 3600 + m * 60 + s
  {
    PartSegment(h, 'h');
    PartSegment(m, 'm');
    PartSegment(s, 's');
    var hs, ms, ss := Segment(IntToString(h), 'h'), Segment(IntToString(m), 'm'), Segment(IntToString(s), 's');
    assert [] + [hs] == [hs] && [hs] + [ms] == [hs, ms] && [hs, ms] + [ss] == [hs, ms, ss];
    TotalSnoc([], hs);
    TotalSnoc([hs], ms);
    TotalSnoc([hs, ms], ss);
    assert Total([hs, ms, ss]) == h * 3600 + m * 60 + s;
    RenderSnoc([], hs);
    RenderSnoc([hs], ms);
    RenderSnoc([hs, ms], ss);
    assert Render([hs]) == IntToString(h) + "h";
    assert Render([hs, ms]) == IntToString(h) + "h" + IntToString(m) + "m";
  }

  lemma TwoSegments(m: int, s: int)
    requires 0 <= m <= INT_MAX && 0 <= s <= INT_MAX
    ensures var segs := [Segment(IntToString(m), 'm'), Segment(IntToString(s), 's')];
      AllWellFormed(segs)
      && Render(segs) == IntToString(m) + "m" + IntToString(s) + "s"
      && Total(segs) == m * 60 + s
  {
    PartSegment(m, 'm');
    PartSegment(s, 's');
    var ms, ss := Segment(IntToString(m), 'm'), Segment(IntToString(s), 's');
    TotalSnoc([], ms);
    TotalSnoc([ms], ss);
    RenderSnoc([], ms);
    RenderSnoc([ms], ss);
    assert [] + [ms] == [ms] && [ms] + [ss] == [ms, ss];
  }

  lemma OneSegment(s: int)
    requires 0 <= s <= INT_MAX
    ensures var segs := [Segment(IntToString(s), 's')];
      AllWellFormed(segs)
      && Render(segs) == IntToString(s) + "s"
      && Total(segs) == s
  {
    PartSegment(s, 's');
    var ss := Segment(IntToString(s), 's');
    TotalSnoc([], ss);
    RenderSnoc([], ss);
    assert [] + [ss] == [ss];
  }

  /**
   * Every positive duration that `formatDuration` displays (`1h0m5s`,
   * `1m5s`, `5s`) is read back by `parseDuration` as the same number of
   * seconds; a zero inner unit is still written.
   */
  lemma FormatDurationParses(d: Int32)
    requires d > 0
    ensures DurationSpec(FormatDuration(d)) == Some(d)
  {
    PartsRebuild(d);
    var h, m, s := JavaDiv(d, 3600), JavaDiv(JavaRem(d, 3600), 60), JavaRem(d, 60);
    var text := FormatDuration(d);
    var segs: seq<Segment>;
    if h > 0 {
      segs := [Segment(IntToString(h), 'h'), Segment(IntToString(m), 'm'), Segment(IntToString(s), 's')];
      ThreeSegments(h, m, s);
      assert text == IntToString(h) + "h" + IntToString(m) + "m" + IntToString(s) + "s";
    } else if m > 0 {
      segs := [Segment(IntToString(m), 'm'), Segment(IntToString(s), 's')];
      TwoSegments(m, s);
      assert text == IntToString(m) + "m" + IntToString(s) + "s";
    } else {
      segs := [Segment(IntToString(s), 's')];
      OneSegment(s);
      assert text == IntToString(s) + "s";
    }
    assert AllWellFormed(segs) && Render(segs) == text && Total(segs) == d;
    DurationComplete(segs);
  }

  /** A zero inner unit is still written: 3605 seconds is `1h0m5s`. */
  lemma FormatDurationExamples()
    ensures FormatDuration(3605) == "1h0m5s"
  {
    var one, zero, five := IntToString(1), IntToString(0), IntToString(5);
    assert one == "1" && zero == "0" && five == "5";
    assert JavaDiv(3605, 3600) == 1;
    assert JavaRem(3605, 3600) == 5;
    assert JavaDiv(5, 60) == 0;
    assert JavaRem(3605, 60) == 5;
    assert FormatDuration(3605) == one + "h" + zero + "m" + five + "s";
  }

  /** Without hours the minutes are shown even when the seconds are zero: 60 is `1m0s`. */
  lemma FormatDurationMinuteExample()
    ensures FormatDuration(60) == "1m0s"
  {
    var one, zero := IntToString(1), IntToString(0);
    assert one == "1" && zero == "0";
    assert JavaDiv(60, 3600) == 0;
    assert JavaRem(60, 3600) == 60;
    assert JavaDiv(60, 60) == 1;
    assert JavaRem(60, 60) == 0;
    assert FormatDuration(60) == one + "m" + zero + "s";
  }
}
