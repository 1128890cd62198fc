/**
 * The pieces of the Java runtime that the logger leans on, written out:
 * 32-bit `int` arithmetic, `Integer.parseInt`, `Integer.toString`,
 * `String.trim`, `String.toLowerCase`, `String.endsWith`, `String.replace`
 * and `String.split`. Characters are ASCII here.
 */
module JavaText {
  import opened Wrappers

  const INT_MIN: int := -0x8000_0000
  const INT_MAX: int := 0x7fff_ffff
  const MODULUS: int := 0x1_0000_0000

  /** A Java `int`. */
  type Int32 = x: int | -0x8000_0000 <= x <= 0x7fff_ffff

  /** The two's-complement wrap-around that every Java `int` operation applies. */
  function Wrap32(x: int): (r: Int32)
    ensures INT_MIN <= x <= INT_MAX ==> r == x
    ensures (x - r) % MODULUS == 0
  {
    (x + 0x8000_0000) % MODULUS - 0x8000_0000
  }

  /** Two numbers that agree modulo 2^32 wrap to the same `int`. */
  lemma WrapCongruent(x: int, y: int)
    requires (x - y) % MODULUS == 0
    ensures Wrap32(x) == Wrap32(y)
  {
    var k := (x - y) / MODULUS;
    assert x == y + k * MODULUS;
    assert (x + 0x8000_0000) % MODULUS == (y + 0x8000_0000) % MODULUS;
  }

  /** `a + b` on two wrapped operands is the wrap of the exact sum. */
  lemma WrapAdd(a: int, b: int)
    ensures Wrap32(Wrap32(a) + Wrap32(b)) == Wrap32(a + b)
  {
    var ka := (a - Wrap32(a)) / MODULUS;
    var kb := (b - Wrap32(b)) / MODULUS;
    assert (a + b) - (Wrap32(a) + Wrap32(b)) == (ka + kb) * MODULUS;
    WrapCongruent(a + b, Wrap32(a) + Wrap32(b));
  }

  /** `a - b` on two wrapped operands is the wrap of the exact difference. */
  lemma WrapSub(a: int, b: int)
    ensures Wrap32(Wrap32(a) - Wrap32(b)) == Wrap32(a - b)
  {
    var ka := (a - Wrap32(a)) / MODULUS;
    var kb := (b - Wrap32(b)) / MODULUS;
    assert (a - b) - (Wrap32(a) - Wrap32(b)) == (ka - kb) * MODULUS;
    WrapCongruent(a - b, Wrap32(a) - Wrap32(b));
  }

  /** Java's `/` on `int`: truncates toward zero. */
  function JavaDiv(a: int, b: int): int
    requires b > 0
  {
    if a >= 0 then a / b else -((-a) / b)
  }

  /** Java's `%` on `int`: the remainder takes the sign of the dividend. */
  function JavaRem(a: int, b: int): int
    requires b > 0
  {
    a - b * JavaDiv(a, b)
  }

  // ---------------------------------------------------------------- digits

  predicate IsDigit(c: char) { '0' <= c <= '9' }

  predicate AllDigits(s: string) { forall i :: 0 <= i < |s| ==> IsDigit(s[i]) }

  function DigitValue(c: char): nat
    requires IsDigit(c)
  {
    c as int - '0' as int
  }

  function DigitChar(n: nat): (c: char)
    requires n < 10
    ensures IsDigit(c) && DigitValue(c) == n
  {
    ('0' as int + n) as char
  }

  /** The value of a string of decimal digits, read most significant first. */
  function DigitsValue(s: string): nat
    requires AllDigits(s)
  {
    if s == [] then 0 else DigitsValue(s[..|s| - 1]) * 10 + DigitValue(s[|s| - 1])
  }

  /** Decimal digits of `n` without leading zeros. */
  function NatToString(n: nat): (r: string)
    ensures |r| > 0 && AllDigits(r) && DigitsValue(r) == n
    ensures |r| > 1 ==> r[0] != '0'
  {
    if n < 10 then [DigitChar(n)]
    else
      var prefix := NatToString(n / 10);
      var r := prefix + [DigitChar(n % 10)];
      assert r[..|r| - 1] == prefix;
      r
  }

  /** `Integer.toString(n)`. */
  function IntToString(n: int): string
  {
    if n < 0 then "-" + NatToString(-n) else NatToString(n)
  }

  /**
   * `Integer.parseInt(s)`: an optional `+` or `-` sign followed by at least
   * one digit, with a value that fits in an `int`; `None` where Java throws
   * `NumberFormatException`.
   */
  function ParseInt(s: string): Option<Int32>
  {
    if |s| == 0 then None
    else if s[0] == '-' || s[0] == '+' then
      if |s| == 1 || !AllDigits(s[1..]) then None
      else
        var v: int := if s[0] == '-' then -(DigitsValue(s[1..]) as int) else DigitsValue(s[1..]);
        if INT_MIN <= v <= INT_MAX then Some(v) else None
    else if AllDigits(s) && DigitsValue(s) <= INT_MAX then Some(DigitsValue(s))
    else None
  }

  /** `Integer.parseInt` reads back what `Integer.toString` writes. */
  lemma ParseIntToString(n: Int32)
    ensures ParseInt(IntToString(n)) == Some(n)
  {
    var s := IntToString(n);
    if n < 0 {
      var digits := NatToString(-(n as int));
      assert s == "-" + digits;
      assert s[1..] == digits;
      assert AllDigits(s[1..]) && DigitsValue(s[1..]) == -(n as int);
    } else {
      assert s == NatToString(n);
      assert IsDigit(s[0]);
    }
  }

  /** On a plain digit string, `parseInt` fails exactly on overflow. */
  lemma ParseIntDigits(s: string)
    requires |s| > 0 && AllDigits(s)
    ensures ParseInt(s) == if DigitsValue(s) <= INT_MAX then Some(DigitsValue(s)) else None
  {
    assert IsDigit(s[0]);
  }

  /** The characters `Integer.toString` can produce. */
  lemma IntToStringChars(n: int)
    ensures |IntToString(n)| > 0
    ensures forall i :: 0 <= i < |IntToString(n)| ==> IsDigit(IntToString(n)[i]) || IntToString(n)[i] == '-'
    ensures IsDigit(IntToString(n)[|IntToString(n)| - 1])
  {
  }

  // ------------------------------------------------------- trim and case

  /** `String.trim` removes every character up to U+0020 from both ends. */
  predicate IsTrimmed(c: char) { c <= ' ' }

  function TrimStart(s: string): (r: string)
    ensures |r| <= |s|
  {
    if s != [] && IsTrimmed(s[0]) then TrimStart(s[1..]) else s
  }

  function TrimEnd(s: string): (r: string)
    ensures |r| <= |s|
  {
    if s != [] && IsTrimmed(s[|s| - 1]) then TrimEnd(s[..|s| - 1]) else s
  }

  function Trim(s: string): string
  {
    TrimEnd(TrimStart(s))
  }

  /** `TrimStart` drops a run of trimmed characters from the front and stops at a visible one. */
  lemma {:induction false} TrimStartDrops(s: string)
    ensures |TrimStart(s)| <= |s| && TrimStart(s) == s[|s| - |TrimStart(s)|..]
    ensures forall i :: 0 <= i < |s| - |TrimStart(s)| ==> IsTrimmed(s[i])
    ensures TrimStart(s) != [] ==> !IsTrimmed(TrimStart(s)[0])
  {
    if s != [] && IsTrimmed(s[0]) {
      var rest := s[1..];
      TrimStartDrops(rest);
      var n := |TrimStart(rest)|;
      assert rest[|rest| - n..] == s[|s| - n..];
      forall i | 1 <= i < |s| - n
        ensures IsTrimmed(s[i])
      {
        assert s[i] == rest[i - 1];
      }
    }
  }

  /** `TrimEnd` drops a run of trimmed characters from the back and stops at a visible one. */
  lemma {:induction false} TrimEndDrops(s: string)
    ensures |TrimEnd(s)| <= |s| && TrimEnd(s) == s[..|TrimEnd(s)|]
    ensures forall i :: |TrimEnd(s)| <= i < |s| ==> IsTrimmed(s[i])
    ensures TrimEnd(s) != [] ==> !IsTrimmed(TrimEnd(s)[|TrimEnd(s)| - 1])
  {
    if s != [] && IsTrimmed(s[|s| - 1]) {
      var init := s[..|s| - 1];
      TrimEndDrops(init);
      var n := |TrimEnd(init)|;
      assert init[..n] == s[..n];
      forall i | n <= i < |s| - 1
        ensures IsTrimmed(s[i])
      {
        assert s[i] == init[i];
      }
    }
  }

  /**
   * `String.trim`: the result is the stretch of `s` that starts after the
   * leading trimmed characters and ends before the trailing ones; what is
   * left starts and ends with a visible character.
   */
  lemma TrimMeaning(s: string)
    ensures var k := |s| - |TrimStart(s)|; var t := Trim(s);
      k + |t| <= |s| && t == s[k..k + |t|] &&
      (forall i :: 0 <= i < k ==> IsTrimmed(s[i])) &&
      (forall i :: k + |t| <= i < |s| ==> IsTrimmed(s[i])) &&
      (t != [] ==> !IsTrimmed(t[0]) && !IsTrimmed(t[|t| - 1]))
  {
    var k := |s| - |TrimStart(s)|;
    var u := TrimStart(s);
    var t := Trim(s);
    TrimStartDrops(s);
    TrimEndDrops(u);
    assert t == u[..|t|];
    assert forall i :: k + |t| <= i < |s| ==> s[i] == u[i - k];
    if t != [] {
      assert t[0] == u[0];
    }
  }

  /** A string that starts and ends with a visible character is its own trim. */
  lemma TrimVisible(s: string)
    requires s != [] ==> !IsTrimmed(s[0]) && !IsTrimmed(s[|s| - 1])
    ensures Trim(s) == s
  {
  }

  /** `Character.toLowerCase` on ASCII letters. */
  function Lower(c: char): char
  {
    if 'A' <= c <= 'Z' then (c as int + 32) as char else c
  }

  /** `String.toLowerCase`, character by character. */
  function LowerString(s: string): (r: string)
    ensures |r| == |s|
  {
    seq(|s|, i requires 0 <= i < |s| => Lower(s[i]))
  }

  /** `toLowerCase` leaves no ASCII upper-case letter behind. */
  lemma LowerHasNoUpper(s: string)
    ensures forall i :: 0 <= i < |s| ==> !('A' <= LowerString(s)[i] <= 'Z')
  {
  }

  /** A string without upper-case letters is its own lower case. */
  lemma LowerNoUpper(s: string)
    requires forall i :: 0 <= i < |s| ==> !('A' <= s[i] <= 'Z')
    ensures LowerString(s) == s
  {
  }

  /** `input.trim().toLowerCase()`, what every parser and `getInput` apply first. */
  function Normalize(s: string): string
  {
    LowerString(Trim(s))
  }

  /** A text with visible ends and no upper-case letter is unchanged by trimming and lower-casing. */
  lemma NormalizePlain(s: string)
    requires s != [] ==> !IsTrimmed(s[0]) && !IsTrimmed(s[|s| - 1])
    requires forall i :: 0 <= i < |s| ==> !('A' <= s[i] <= 'Z')
    ensures Normalize(s) == s
  {
    TrimVisible(s);
    LowerNoUpper(s);
  }

  // ------------------------------------------------ suffixes, replace, split

  predicate EndsWith(s: string, suffix: string)
  {
    |suffix| <= |s| && s[|s| - |suffix|..] == suffix
  }

  /** `s.replace(target, "")`: deletes every occurrence, scanning left to right. */
  function DeleteAll(s: string, target: string): string
    requires |target| > 0
  {
    if |s| < |target| then s
    else if s[..|target|] == target then DeleteAll(s[|target|..], target)
    else [s[0]] + DeleteAll(s[1..], target)
  }

  /** The pieces between the separators, empty ones included. */
  function Pieces(s: string, sep: char): (r: seq<string>)
    ensures |r| > 0
  {
    if s == [] then [[]]
    else if s[0] == sep then [[]] + Pieces(s[1..], sep)
    else
      var rest := Pieces(s[1..], sep);
      [[s[0]] + rest[0]] + rest[1..]
  }

  function DropTrailingEmpty(fs: seq<string>): seq<string>
  {
    if fs != [] && fs[|fs| - 1] == [] then DropTrailingEmpty(fs[..|fs| - 1]) else fs
  }

  /**
   * `s.split(";")`: a string without the separator comes back whole;
   * otherwise the pieces, with trailing empty pieces dropped.
   */
  function Split(s: string, sep: char): seq<string>
  {
    if sep !in s then [s] else DropTrailingEmpty(Pieces(s, sep))
  }

  /** The fields joined with the separator, as the CSV writers concatenate them. */
  function Join(fs: seq<string>, sep: char): string
    requires |fs| > 0
  {
    if |fs| == 1 then fs[0] else fs[0] + [sep] + Join(fs[1..], sep)
  }

  lemma {:induction false} PiecesPrefix(a: string, b: string, sep: char)
    requires sep !in a
    ensures var r := Pieces(a + b, sep); var t := Pieces(b, sep); r == [a + t[0]] + t[1..]
  {
    if a != [] {
      assert (a + b)[1..] == a[1..] + b;
      PiecesPrefix(a[1..], b, sep);
      assert [a[0]] + (a[1..] + Pieces(b, sep)[0]) == a + Pieces(b, sep)[0];
    } else {
      var t := Pieces(b, sep);
      assert a + b == b;
      assert a + t[0] == t[0];
      assert [t[0]] + t[1..] == t;
    }
  }

  /** Splitting what `Join` wrote gives back the fields, when no field holds the separator. */
  lemma {:induction false} PiecesJoin(fs: seq<string>, sep: char)
    requires |fs| > 0
    requires forall i :: 0 <= i < |fs| ==> sep !in fs[i]
    ensures Pieces(Join(fs, sep), sep) == fs
  {
    if |fs| == 1 {
      PiecesPrefix(fs[0], [], sep);
      assert fs[0] + [] == fs[0];
    } else {
      var rest := Join(fs[1..], sep);
      PiecesJoin(fs[1..], sep);
      assert Join(fs, sep) == fs[0] + ([sep] + rest);
      PiecesPrefix(fs[0], [sep] + rest, sep);
      assert ([sep] + rest)[1..] == rest;
      assert fs[0] + [] == fs[0];
      assert fs == [fs[0]] + fs[1..];
    }
  }

  lemma {:induction false} JoinHasSeparator(fs: seq<string>, sep: char)
    requires |fs| >= 2
    ensures sep in Join(fs, sep)
  {
    assert Join(fs, sep)[|fs[0]|] == sep;
  }

  /**
   * `String.split` reads back a `;`-joined line: at least two fields, none
   * holding the separator, the last one non-empty.
   */
  lemma SplitJoin(fs: seq<string>, sep: char)
    requires |fs| >= 2
    requires forall i :: 0 <= i < |fs| ==> sep !in fs[i]
    requires fs[|fs| - 1] != []
    ensures Split(Join(fs, sep), sep) == fs
  {
    JoinHasSeparator(fs, sep);
    PiecesJoin(fs, sep);
  }
}
