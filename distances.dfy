/**
 * `parseDistance`: metres written as `<int>m`, as a bare `<int>`, or as
 * kilometres `<decimal>km`. The kilometre branch goes through
 * `Double.parseDouble`; that floating-point step is a parameter here.
 */
module Distances {
  import opened Wrappers
  import opened JavaText

  /**
   * `(int) (Double.parseDouble(t) * 1000)`, or `None` where
   * `Double.parseDouble` throws.
   */
  type KilometreParser = string -> Option<Int32>

  /** `parseDistance(input)` (FitnessLogger.java:326-335). */
  function ParseDistance(input: string, parseKm: KilometreParser): Option<Int32>
  {
    var s := Normalize(input);
    if EndsWith(s, "km") then parseKm(DeleteAll(s, "km"))
    else if EndsWith(s, "m") then ParseInt(DeleteAll(s, "m"))
    else ParseInt(s)
  }

  lemma {:induction false} DeleteAbsent(s: string, target: char)
    requires target !in s
    ensures DeleteAll(s, [target]) == s
  {
    if |s| >= 1 {
      assert s[..1] != [target] by { assert s[0] != target; }
      DeleteAbsent(s[1..], target);
      assert s == [s[0]] + s[1..];
    }
  }

  lemma {:induction false} DeleteLast(s: string, target: char)
    requires target !in s
    ensures DeleteAll(s + [target], [target]) == s
  {
    if s == [] {
      assert [] + [target] == [target];
      assert [target][1..] == [];
    } else {
      var t := s + [target];
      assert t[..1] != [target] by { assert t[0] == s[0] != target; }
      assert t[1..] == s[1..] + [target];
      DeleteLast(s[1..], target);
      assert s == [s[0]] + s[1..];
    }
  }

  /** What `Integer.toString` writes has no spaces, no letters and ends in a digit. */
  lemma IntTextIsPlain(n: int)
    ensures var t := IntToString(n);
      'm' !in t && !IsTrimmed(t[0]) && IsDigit(t[|t| - 1])
      && forall i :: 0 <= i < |t| ==> !('A' <= t[i] <= 'Z')
  {
    IntToStringChars(n);
  }

  /** A whole number of metres with the `m` suffix is read back exactly. */
  lemma MetresRoundTrip(n: Int32, parseKm: KilometreParser)
    ensures ParseDistance(IntToString(n) + "m", parseKm) == Some(n)
  {
    var t := IntToString(n);
    var s := t + "m";
    IntTextIsPlain(n);
    assert s[0] == t[0] && s[|s| - 1] == 'm';
    TrimVisible(s);
    assert forall i :: 0 <= i < |s| ==> !('A' <= s[i] <= 'Z') by {
      forall i | 0 <= i < |s| ensures !('A' <= s[i] <= 'Z') {
        if i < |t| { assert s[i] == t[i]; }
      }
    }
    LowerNoUpper(s);
    assert Normalize(s) == s;
    assert s[|s| - 2] == t[|t| - 1];
    assert !EndsWith(s, "km");
    assert EndsWith(s, "m");
    DeleteLast(t, 'm');
    ParseIntToString(n);
  }

  /** A bare whole number is read as metres. */
  lemma BareRoundTrip(n: Int32, parseKm: KilometreParser)
    ensures ParseDistance(IntToString(n), parseKm) == Some(n)
  {
    var t := IntToString(n);
    IntTextIsPlain(n);
    NormalizePlain(t);
    assert !EndsWith(t, "m") by {
      assert t[|t| - 1] != 'm';
    }
    assert !EndsWith(t, "km") by {
      assert |t| >= 2 ==> t[|t| - 2..][1] == t[|t| - 1];
    }
    assert ParseDistance(t, parseKm) == ParseInt(t);
    ParseIntToString(n);
  }

  /**
   * Only a text ending in `km` reaches the floating-point parser; in the two
   * integer branches the result does not depend on it.
   */
  lemma IntegerBranchesIgnoreKm(input: string, p: KilometreParser, q: KilometreParser)
    requires !EndsWith(Normalize(input), "km")
    ensures ParseDistance(input, p) == ParseDistance(input, q)
  {
  }

  /** Every `m` is deleted, not just the suffix: `1m0m` is 10 metres. */
  lemma DistanceDeletesEveryM(parseKm: KilometreParser)
    ensures ParseDistance("1m0m", parseKm) == Some(10)
  {
    var a := "1m0m";
    NormalizePlain(a);
    assert !EndsWith(a, "km") && EndsWith(a, "m");
    assert a[1..] == "m0m" && a[1..][1..] == "0m" && a[1..][1..][1..] == "m";
    assert DeleteAll("m", "m") == [];
    assert DeleteAll("0m", "m") == "0";
    assert DeleteAll("m0m", "m") == "0";
    assert DeleteAll(a, "m") == "10";
    assert "10"[..1] == "1";
    assert DigitsValue("10") == 10;
  }

  /** A sign is accepted: `-5m` is minus five metres. */
  lemma DistanceNegative(parseKm: KilometreParser)
    ensures ParseDistance("-5m", parseKm) == Some(-5)
  {
    var b := "-5m";
    NormalizePlain(b);
    assert !EndsWith(b, "km") && EndsWith(b, "m");
    assert b[1..] == "5m" && b[1..][1..] == "m";
    assert DeleteAll("m", "m") == [];
    assert DeleteAll("5m", "m") == "5";
    assert DeleteAll(b, "m") == "-5";
    assert "-5"[1..] == "5";
    assert DigitsValue("5") == 5;
  }

  /** A text that is no number is rejected. */
  lemma DistanceRejectsText(parseKm: KilometreParser)
    ensures ParseDistance("abc", parseKm) == None
  {
    var c := "abc";
    NormalizePlain(c);
    assert !EndsWith(c, "km") && !EndsWith(c, "m");
    assert !IsDigit(c[0]);
  }
}
