/**
 * The few string operations the reconciliation script relies on: `strpos` for a single
 * character, the first two fields of `explode`, and the numeric value PHP gives a digit
 * string when it compares two of them with `<=>`.
 */
module Text {

  predicate IsDigit(c: char) {
    '0' <= c <= '9'
  }

  /** A non-empty run of ASCII digits: what PCRE's `\d+` matches and what PHP treats as a numeric string. */
  predicate IsDigits(s: string) {
    |s| > 0 && forall i :: 0 <= i < |s| ==> IsDigit(s[i])
  }

  /** Position of the first `c` in `s`, or `|s|` when `c` does not occur (`strpos(...) === false`). */
  function IndexOf(s: string, c: char): (i: nat)
    ensures i <= |s|
    ensures i < |s| ==> s[i] == c
    ensures forall j :: 0 <= j < i ==> s[j] != c
    ensures i == |s| <==> c !in s
  {
    if |s| == 0 then 0
    else if s[0] == c then 0
    else 1 + IndexOf(s[1..], c)
  }

  /** The first field of `explode(sep, s)`: everything before the first `sep`. */
  function Field0(s: string, sep: char): (f: string)
    ensures sep !in f
    ensures |f| <= |s| && f == s[..|f|]
    ensures |f| < |s| <==> sep in s
  {
    s[..IndexOf(s, sep)]
  }

  /** What follows the first `sep` of `s`. */
  function AfterFirst(s: string, sep: char): (r: string)
    requires sep in s
    ensures |r| < |s|
  {
    s[IndexOf(s, sep) + 1..]
  }

  /** The second field of `explode(sep, s)`: everything between the first and the second `sep`. */
  function Field1(s: string, sep: char): (f: string)
    requires sep in s
    ensures sep !in f
  {
    Field0(AfterFirst(s, sep), sep)
  }

  /** The value of a decimal digit (and 0 for any other character). */
  function DigitValue(c: char): (d: nat)
    ensures d < 10
  {
    if IsDigit(c) then c as int - '0' as int else 0
  }

  /** Digits of `s` read left to right onto the running value `acc`. */
  function DigitsOnto(s: string, acc: nat): nat {
    if s == [] then acc
    else DigitsOnto(s[1..], 10 * acc + DigitValue(s[0]))
  }

  /**
   * Numeric value of a string of decimal digits, most significant first, as PHP reads a
   * numeric string. It is total, but it is PHP's value only on a digit string (`IsDigits`).
   */
  function DecimalValue(s: string): nat {
    DigitsOnto(s, 0)
  }

  /** Digits of `s` up to the first `sep` (or the end), read onto `acc`: the value of the first field. */
  function FieldValueOnto(s: string, sep: char, acc: nat): nat {
    if s == [] || s[0] == sep then acc
    else FieldValueOnto(s[1..], sep, 10 * acc + DigitValue(s[0]))
  }

  /** The value of the second `sep`-separated field of `s` (0 when `s` has no `sep`). */
  function SecondFieldValue(s: string, sep: char): nat {
    if s == [] then 0
    else if s[0] == sep then FieldValueOnto(s[1..], sep, 0)
    else SecondFieldValue(s[1..], sep)
  }

  /** Reading a field stops at the separator that ends it. */
  lemma {:induction false} FieldValueOfField(a: string, sep: char, tail: string, acc: nat)
    requires sep !in a
    requires tail == [] || tail[0] == sep
    ensures FieldValueOnto(a + tail, sep, acc) == DigitsOnto(a, acc)
  {
    if a != [] {
      assert (a + tail)[0] == a[0] && (a + tail)[1..] == a[1..] + tail;
      FieldValueOfField(a[1..], sep, tail, 10 * acc + DigitValue(a[0]));
    } else {
      assert a + tail == tail;
    }
  }

  /** The second field starts right after the first separator. */
  lemma {:induction false} SecondFieldValueAfter(a: string, sep: char, rest: string)
    requires sep !in a
    ensures SecondFieldValue(a + [sep] + rest, sep) == FieldValueOnto(rest, sep, 0)
  {
    if a != [] {
      assert (a + [sep] + rest)[0] == a[0] && (a + [sep] + rest)[1..] == a[1..] + [sep] + rest;
      SecondFieldValueAfter(a[1..], sep, rest);
    } else {
      assert a + [sep] + rest == [sep] + rest;
    }
  }

  /** Reading the first field of `s` as a number is the value of `explode`'s first field. */
  lemma FirstFieldValue(s: string, sep: char)
    ensures FieldValueOnto(s, sep, 0) == DecimalValue(Field0(s, sep))
  {
    var a := Field0(s, sep);
    var tail := s[|a|..];
    assert s == a + tail;
    FieldValueOfField(a, sep, tail, 0);
  }

  /** Reading the second field of `s` as a number is the value of `explode`'s second field, or 0 when there is none. */
  lemma SecondFieldValueIs(s: string, sep: char)
    ensures sep in s ==> SecondFieldValue(s, sep) == DecimalValue(Field1(s, sep))
    ensures sep !in s ==> SecondFieldValue(s, sep) == 0
  {
    if sep in s {
      JoinOfFields(s, sep);
      SecondOfJoin(Field0(s, sep), sep, Field1(s, sep), FieldsTail(s, sep));
    } else {
      NoSecondField(s, sep);
    }
  }

  lemma SecondOfJoin(a: string, sep: char, b: string, t: string)
    requires sep !in a && sep !in b && (t == [] || t[0] == sep)
    ensures SecondFieldValue(a + [sep] + b + t, sep) == DecimalValue(b)
  {
    assert a + [sep] + b + t == a + [sep] + (b + t);
    SecondFieldValueAfter(a, sep, b + t);
    FieldValueOfField(b, sep, t, 0);
  }

  lemma {:induction false} NoSecondField(s: string, sep: char)
    requires sep !in s
    ensures SecondFieldValue(s, sep) == 0
  {
    if s != [] {
      NoSecondField(s[1..], sep);
    }
  }

  /** The first occurrence of `sep` in `a + [sep] + b` is right after `a`. */
  lemma FirstSeparator(a: string, sep: char, b: string)
    requires sep !in a
    ensures IndexOf(a + [sep] + b, sep) == |a|
  {
    var s := a + [sep] + b;
    assert s[|a|] == sep;
    assert forall j :: 0 <= j < |a| ==> s[j] == a[j];
  }

  /**
   * `explode` inverts joining: the first two fields of `a + sep + b + tail` are `a` and `b`,
   * whatever further fields `tail` holds.
   */
  lemma {:induction false} FieldsOfJoin(a: string, sep: char, b: string, tail: string)
    requires sep !in a && sep !in b
    requires tail == [] || tail[0] == sep
    ensures sep in a + [sep] + b + tail
    ensures Field0(a + [sep] + b + tail, sep) == a
    ensures Field1(a + [sep] + b + tail, sep) == b
  {
    var s := a + [sep] + b + tail;
    assert s == a + [sep] + (b + tail);
    FirstSeparator(a, sep, b + tail);
    assert s[|a|] == sep;
    assert AfterFirst(s, sep) == b + tail;
    if tail == [] {
      assert b + tail == b;
      FirstSeparator(b, sep, []);
      assert b + [sep] + [] == b + [sep];
      assert IndexOf(b, sep) == |b|;
    } else {
      assert b + tail == b + [sep] + tail[1..];
      FirstSeparator(b, sep, tail[1..]);
    }
  }

  /** What follows the second field of `explode(sep, s)`: empty, or the third field onwards with its leading `sep`. */
  function FieldsTail(s: string, sep: char): (t: string)
    requires sep in s
    ensures t == [] || t[0] == sep
  {
    var rest := AfterFirst(s, sep);
    rest[IndexOf(rest, sep)..]
  }

  /**
   * Conversely, every string holding `sep` is its first two fields joined by `sep`, followed by
   * the remaining fields.
   */
  lemma JoinOfFields(s: string, sep: char)
    requires sep in s
    ensures s == Field0(s, sep) + [sep] + Field1(s, sep) + FieldsTail(s, sep)
  {
    var i := IndexOf(s, sep);
    var rest := AfterFirst(s, sep);
    var j := IndexOf(rest, sep);
    var a, b, t := Field0(s, sep), Field1(s, sep), FieldsTail(s, sep);
    assert a == s[..i] && rest == s[i + 1..] && s[i] == sep;
    assert b == rest[..j] && t == rest[j..];
    SplitAround(s, i);
    SplitAt(rest, j);
    Regroup(a, [sep], b, t);
  }

  lemma SplitAround(s: string, i: nat)
    requires i < |s|
    ensures s == s[..i] + [s[i]] + s[i + 1..]
  {
  }

  lemma SplitAt(s: string, i: nat)
    requires i <= |s|
    ensures s == s[..i] + s[i..]
  {
  }

  lemma Regroup(a: string, b: string, c: string, d: string)
    ensures a + b + (c + d) == a + b + c + d
  {
  }
}
