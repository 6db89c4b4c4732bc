/**
 * The few pieces of the Java platform that the activities' decisions rest on:
 * the integer widths, String.split with a positive limit, Integer.parseInt
 * and String.compareTo.
 */
module JavaLang {
  import opened Wrappers

  const INT_MIN: int := -0x8000_0000
  const INT_MAX: int := 0x7fff_ffff

  /** Java `int`. */
  type Int32 = x: int | INT_MIN <= x <= INT_MAX

  /** Java `long`. */
  type Int64 = x: int | -0x8000_0000_0000_0000 <= x < 0x8000_0000_0000_0000

  // ---------------------------------------------------------------------------
  // String.indexOf(char) and String.split(String, int)
  // ---------------------------------------------------------------------------

  /** The first position of `c` in `s`, or -1 when `c` does not occur. */
  function IndexOf(s: string, c: char): (i: int)
    ensures -1 <= i < |s|
    ensures 0 <= i ==> s[i] == c
  {
    if |s| == 0 then -1
    else if s[0] == c then 0
    else
      var j := IndexOf(s[1..], c);
      if j < 0 then -1 else j + 1
  }

  /** IndexOf finds an occurrence exactly when there is one, and it is the first. */
  lemma {:induction false} IndexOfFirst(s: string, c: char)
    ensures var i := IndexOf(s, c);
      (i < 0 <==> c !in s) && (0 <= i ==> c !in s[..i])
    decreases |s|
  {
    if |s| > 0 && s[0] != c {
      IndexOfFirst(s[1..], c);
      var j := IndexOf(s[1..], c);
      assert s == [s[0]] + s[1..];
      assert 0 <= j ==> s[..j + 1] == [s[0]] + s[1..][..j];
    }
  }

  /** Number of occurrences of `c` in `s`. */
  function Count(s: string, c: char): nat
  {
    if |s| == 0 then 0 else (if s[0] == c then 1 else 0) + Count(s[1..], c)
  }

  /**
   * `s.split(sep, limit)` for a one-character, non-meta separator and a
   * positive limit: the separator is matched at most `limit - 1` times,
   * leading and trailing empty fields are kept, and the last field holds the
   * rest of the input, separators included.
   */
  function Split(s: string, sep: char, limit: nat): (parts: seq<string>)
    requires limit >= 1
    ensures 1 <= |parts| <= limit
    decreases |s|
  {
    var i := IndexOf(s, sep);
    if limit == 1 || i < 0 then [s]
    else [s[..i]] + Split(s[i + 1..], sep, limit - 1)
  }

  /** `String.join` with a one-character delimiter. */
  function Join(parts: seq<string>, sep: char): string
  {
    if |parts| == 0 then ""
    else if |parts| == 1 then parts[0]
    else parts[0] + [sep] + Join(parts[1..], sep)
  }

  /** One step of Split: the field before the first separator, then the split of the rest. */
  lemma SplitStep(s: string, sep: char, limit: nat)
    requires limit >= 2 && sep in s
    ensures var i := IndexOf(s, sep);
      0 <= i && Split(s, sep, limit) == [s[..i]] + Split(s[i + 1..], sep, limit - 1)
  {
    IndexOfFirst(s, sep);
  }

  lemma JoinCons(first: string, rest: seq<string>, sep: char)
    requires |rest| >= 1
    ensures Join([first] + rest, sep) == first + [sep] + Join(rest, sep)
  {
    assert ([first] + rest)[1..] == rest;
  }

  /** Splitting loses nothing: joining the fields back gives the input. */
  lemma {:induction false} SplitJoin(s: string, sep: char, limit: nat)
    requires limit >= 1
    ensures Join(Split(s, sep, limit), sep) == s
    decreases |s|
  {
    IndexOfFirst(s, sep);
    if limit > 1 && sep in s {
      var i := IndexOf(s, sep);
      var tail := s[i + 1..];
      SplitStep(s, sep, limit);
      JoinCons(s[..i], Split(tail, sep, limit - 1), sep);
      SplitJoin(tail, sep, limit - 1);
      assert s == s[..i] + [sep] + tail;
    }
  }

  /** Every field but the last is free of the separator. */
  predicate InnerFieldsFree(parts: seq<string>, sep: char)
  {
    |parts| <= 1 || (sep !in parts[0] && InnerFieldsFree(parts[1..], sep))
  }

  /**
   * The shape of a split: no field but the last contains the separator, and
   * the last contains one only when the limit cut the split short.
   */
  lemma {:induction false} SplitFieldsFree(s: string, sep: char, limit: nat)
    requires limit >= 1
    ensures var parts := Split(s, sep, limit);
      InnerFieldsFree(parts, sep) && (|parts| < limit ==> sep !in parts[|parts| - 1])
    decreases |s|
  {
    if limit > 1 && sep in s {
      var i := IndexOf(s, sep);
      var rest := Split(s[i + 1..], sep, limit - 1);
      SplitStep(s, sep, limit);
      IndexOfFirst(s, sep);
      SplitFieldsFree(s[i + 1..], sep, limit - 1);
      FieldsFreeCons(s[..i], rest, sep);
    } else {
      SplitWhole(s, sep, limit);
    }
  }

  /** With no separator to match, or no match allowed, the input is the only field. */
  lemma SplitWhole(s: string, sep: char, limit: nat)
    requires limit == 1 || (limit >= 1 && sep !in s)
    ensures Split(s, sep, limit) == [s]
  {
    IndexOfFirst(s, sep);
  }

  lemma FieldsFreeCons(first: string, rest: seq<string>, sep: char)
    requires sep !in first && |rest| >= 1 && InnerFieldsFree(rest, sep)
    ensures InnerFieldsFree([first] + rest, sep)
    ensures ([first] + rest)[|rest|] == rest[|rest| - 1]
  {
    assert ([first] + rest)[1..] == rest;
  }

  /** Splitting after a first field free of separators peels off that field. */
  lemma SplitAfterField(field: string, sep: char, t: string, limit: nat)
    requires sep !in field && limit >= 2
    ensures Split(field + [sep] + t, sep, limit) == [field] + Split(t, sep, limit - 1)
  {
    var s := field + [sep] + t;
    assert s[..|field|] == field && s[|field|] == sep && s[|field| + 1..] == t;
    IndexOfFirst(s, sep);
    assert IndexOf(s, sep) == |field|;
    SplitStep(s, sep, limit);
  }

  lemma JoinSplitSingle(field: string, sep: char, limit: nat)
    requires limit >= 1 && (limit > 1 ==> sep !in field)
    ensures Split(Join([field], sep), sep, limit) == [field]
  {
    assert Join([field], sep) == field;
    IndexOfFirst(field, sep);
  }

  lemma JoinSplitStep(first: string, rest: seq<string>, sep: char, limit: nat)
    requires sep !in first && limit >= 2 && |rest| >= 1
    requires Split(Join(rest, sep), sep, limit - 1) == rest
    ensures Split(Join([first] + rest, sep), sep, limit) == [first] + rest
  {
    JoinCons(first, rest, sep);
    SplitAfterField(first, sep, Join(rest, sep), limit);
  }


  /**
   * Conversely, fields that split could have produced (separators only in
   * the last one, and there only when the limit is reached) are recovered
   * from their join.
   */
  lemma {:induction false} JoinSplit(parts: seq<string>, sep: char, limit: nat)
    requires 1 <= |parts| <= limit
    requires InnerFieldsFree(parts, sep)
    requires |parts| < limit ==> sep !in parts[|parts| - 1]
    ensures Split(Join(parts, sep), sep, limit) == parts
    decreases |parts|
  {
    if |parts| == 1 {
      JoinSplitSingle(parts[0], sep, limit);
      assert parts == [parts[0]];
    } else {
      var rest := parts[1..];
      assert rest[|rest| - 1] == parts[|parts| - 1];
      JoinSplit(rest, sep, limit - 1);
      JoinSplitStep(parts[0], rest, sep, limit);
      assert parts == [parts[0]] + rest;
    }
  }

  lemma {:induction false} CountAppend(a: string, b: string, c: char)
    ensures Count(a + b, c) == Count(a, c) + Count(b, c)
    decreases |a|
  {
    if |a| == 0 {
      assert a + b == b;
    } else {
      assert (a + b)[1..] == a[1..] + b;
      CountAppend(a[1..], b, c);
    }
  }

  lemma {:induction false} CountAbsent(s: string, c: char)
    requires c !in s
    ensures Count(s, c) == 0
    decreases |s|
  {
    if |s| > 0 {
      CountAbsent(s[1..], c);
    }
  }

  /** Counting across the first separator. */
  lemma CountAtFirst(s: string, c: char)
    requires c in s
    ensures Count(s, c) == 1 + Count(s[IndexOf(s, c) + 1..], c)
  {
    IndexOfFirst(s, c);
    var i := IndexOf(s, c);
    assert s == s[..i] + ([c] + s[i + 1..]);
    CountAppend(s[..i], [c] + s[i + 1..], c);
    CountAbsent(s[..i], c);
    assert ([c] + s[i + 1..])[1..] == s[i + 1..];
  }

  /** The number of fields is one more than the number of separators, capped by the limit. */
  lemma {:induction false} SplitLength(s: string, sep: char, limit: nat)
    requires limit >= 1
    ensures |Split(s, sep, limit)| == if Count(s, sep) + 1 < limit then Count(s, sep) + 1 else limit
    decreases |s|
  {
    IndexOfFirst(s, sep);
    if sep !in s {
      CountAbsent(s, sep);
    } else {
      CountAtFirst(s, sep);
      if limit > 1 {
        SplitStep(s, sep, limit);
        SplitLength(s[IndexOf(s, sep) + 1..], sep, limit - 1);
      }
    }
  }

  // ---------------------------------------------------------------------------
  // Integer.parseInt(String) and Integer.toString(int)
  // ---------------------------------------------------------------------------

  predicate IsDigit(c: char)
  {
    '0' <= c <= '9'
  }

  predicate AllDigits(ds: string)
  {
    forall k :: 0 <= k < |ds| ==> IsDigit(ds[k])
  }

  /** The value of a string of decimal digits, read most significant first. */
  function DigitsValue(ds: string): nat
    requires AllDigits(ds)
    decreases |ds|
  {
    if |ds| == 0 then 0
    else 10 * DigitsValue(ds[..|ds| - 1]) + (ds[|ds| - 1] as int - '0' as int)
  }

  /** The part of `s` after an optional leading '-' or '+'. */
  function Unsigned(s: string): (u: string)
    ensures |u| == |s| || (|u| == |s| - 1 && (s[0] == '-' || s[0] == '+'))
  {
    if |s| > 0 && (s[0] == '-' || s[0] == '+') then s[1..] else s
  }

  /**
   * `Integer.parseInt(s)`: an optional leading '-' or '+', then at least one
   * decimal digit and nothing else, denoting a value in the 32-bit range.
   * `None` stands for the NumberFormatException thrown otherwise.
   */
  function ParseInt(s: string): (r: Option<Int32>)
    ensures r.Some? ==> |s| > 0 && IsDigit(s[|s| - 1])
    ensures r.Some? && r.value < 0 ==> s[0] == '-'
  {
    var digits := Unsigned(s);
    if |digits| == 0 || !AllDigits(digits) then None
    else
      var magnitude := DigitsValue(digits);
      var v: int := if s[0] == '-' then -(magnitude as int) else magnitude;
      if INT_MIN <= v <= INT_MAX then Some(v) else None
  }

  function Digit(d: nat): (c: char)
    requires d < 10
    ensures IsDigit(c) && c as int - '0' as int == d
  {
    ('0' as int + d) as char
  }

  /** The shortest decimal numeral of `n`, without sign or leading zeros. */
  function NatToDigits(n: nat): (ds: string)
    ensures |ds| >= 1 && AllDigits(ds) && DigitsValue(ds) == n
    ensures |ds| > 1 ==> ds[0] != '0'
    decreases n
  {
    if n < 10 then [Digit(n)]
    else
      var prefix := NatToDigits(n / 10);
      var ds := prefix + [Digit(n % 10)];
      assert ds[..|ds| - 1] == prefix;
      ds
  }

  /** `Integer.toString(v)`. */
  function IntToString(v: Int32): string
  {
    if v < 0 then "-" + NatToDigits(-(v as int)) else NatToDigits(v)
  }

  /** Every 32-bit integer written in decimal parses back to itself. */
  lemma ParseIntToString(v: Int32)
    ensures ParseInt(IntToString(v)) == Some(v)
  {
    var s := IntToString(v);
    if v < 0 {
      assert s[1..] == NatToDigits(-(v as int));
    } else {
      assert IsDigit(s[0]);
    }
  }

  /**
   * What an accepted string means: after the optional sign come one or more
   * digits, and the result is their decimal value, negated under a '-'.
   */
  lemma ParseIntValue(s: string)
    requires ParseInt(s).Some?
    ensures |Unsigned(s)| > 0 && AllDigits(Unsigned(s))
    ensures ParseInt(s).value
      == if s[0] == '-' then -(DigitsValue(Unsigned(s)) as int) else DigitsValue(Unsigned(s))
  {
  }

  /** A character that is neither a digit nor a leading sign makes the parse fail. */
  lemma ParseIntRejectsNonDigit(s: string, k: nat)
    requires k < |s| && !IsDigit(s[k])
    requires k == 0 ==> s[0] != '-' && s[0] != '+'
    ensures ParseInt(s) == None
  {
    if 0 < k && (s[0] == '-' || s[0] == '+') {
      assert s[1..][k - 1] == s[k];
    }
  }

  /** The empty string and a sign alone are rejected. */
  lemma ParseIntRejectsNoDigits()
    ensures ParseInt("") == None && ParseInt("-") == None && ParseInt("+") == None
  {
  }

  /** Parsing a numeral with no sign: its value, when that fits. */
  lemma ParseIntUnsigned(ds: string)
    requires |ds| > 0 && AllDigits(ds)
    ensures ParseInt(ds) == if DigitsValue(ds) <= INT_MAX then Some(DigitsValue(ds)) else None
  {
    assert IsDigit(ds[0]);
  }

  /** Parsing a numeral after '+': its value, when that fits. */
  lemma ParseIntPlus(ds: string)
    requires |ds| > 0 && AllDigits(ds)
    ensures ParseInt("+" + ds) == if DigitsValue(ds) <= INT_MAX then Some(DigitsValue(ds)) else None
  {
    var s := "+" + ds;
    assert s[0] == '+' && s[1..] == ds;
    assert Unsigned(s) == ds;
  }

  /** Parsing a numeral after '-': its value negated, when that fits. */
  lemma ParseIntMinus(ds: string)
    requires |ds| > 0 && AllDigits(ds)
    ensures ParseInt("-" + ds) == if DigitsValue(ds) <= -INT_MIN then Some(-(DigitsValue(ds) as int)) else None
  {
    var s := "-" + ds;
    assert s[0] == '-' && s[1..] == ds;
    assert Unsigned(s) == ds;
  }

  /** A numeral of at most 2^31 - 1 is accepted with its value, with or without a sign. */
  lemma ParseIntAcceptsInRange(ds: string)
    requires |ds| > 0 && AllDigits(ds) && DigitsValue(ds) <= INT_MAX
    ensures ParseInt(ds) == Some(DigitsValue(ds))
    ensures ParseInt("+" + ds) == Some(DigitsValue(ds))
    ensures ParseInt("-" + ds) == Some(-(DigitsValue(ds) as int))
  {
    ParseIntUnsigned(ds);
    ParseIntPlus(ds);
    ParseIntMinus(ds);
  }

  /** Numerals outside the 32-bit range are rejected: above 2^31 - 1, or below -2^31 under a '-'. */
  lemma ParseIntRejectsOutOfRange(ds: string)
    requires |ds| > 0 && AllDigits(ds)
    ensures DigitsValue(ds) > INT_MAX ==> ParseInt(ds) == None && ParseInt("+" + ds) == None
    ensures DigitsValue(ds) > -INT_MIN ==> ParseInt("-" + ds) == None
  {
    ParseIntUnsigned(ds);
    ParseIntPlus(ds);
    ParseIntMinus(ds);
  }

  /** A leading zero does not change the value of a numeral. */
  lemma {:induction false} DigitsValueLeadingZero(ds: string)
    requires AllDigits(ds)
    ensures AllDigits("0" + ds) && DigitsValue("0" + ds) == DigitsValue(ds)
    decreases |ds|
  {
    var z := "0" + ds;
    assert forall k :: 0 < k < |z| ==> z[k] == ds[k - 1];
    if |ds| > 0 {
      var init := ds[..|ds| - 1];
      assert z[..|z| - 1] == "0" + init;
      DigitsValueLeadingZero(init);
    }
  }

  /** Leading zeros are accepted and ignored: "007" parses as 7. */
  lemma ParseIntLeadingZero(ds: string)
    requires |ds| > 0 && AllDigits(ds)
    ensures ParseInt("0" + ds) == ParseInt(ds)
  {
    DigitsValueLeadingZero(ds);
  }

  /** Some inputs the version field may hold. */
  lemma ParseIntExamples()
    ensures ParseInt("1a2") == None
    ensures ParseInt("+7") == Some(7)
    ensures ParseInt("007") == Some(7)
    ensures ParseInt("-0") == Some(0)
  {
    assert ParseInt("1a2") == None by {
      ParseIntRejectsNonDigit("1a2", 1);
    }
    assert ParseInt("7") == Some(7) && ParseInt("+7") == Some(7) by {
      assert AllDigits("7");
      ParseIntAcceptsInRange("7");
      assert "+7" == "+" + "7";
    }
    assert ParseInt("007") == Some(7) by {
      assert AllDigits("7");
      ParseIntLeadingZero("7");
      ParseIntLeadingZero("07");
      assert "007" == "0" + "07" && "07" == "0" + "7";
    }
    assert ParseInt("-0") == Some(0) by {
      assert AllDigits("0");
      ParseIntAcceptsInRange("0");
      assert "-0" == "-" + "0";
    }
  }

  // ---------------------------------------------------------------------------
  // String.compareTo(String)
  // ---------------------------------------------------------------------------

  /**
   * `a.compareTo(b)`: the difference of the first pair of characters that
   * differ, or the difference of the lengths when one string is a prefix of
   * the other.
   */
  function CompareTo(a: string, b: string): (c: int)
    ensures |a| <= |b| && a == b[..|a|] ==> c == |a| - |b|
    ensures |b| <= |a| && b == a[..|b|] ==> c == |a| - |b|
    decreases |a|
  {
    if |a| == 0 || |b| == 0 then |a| - |b|
    else if a[0] != b[0] then a[0] as int - b[0] as int
    else
      assert |a| <= |b| && a == b[..|a|] ==> a[1..] == b[1..][..|a| - 1];
      assert |b| <= |a| && b == a[..|b|] ==> b[1..] == a[1..][..|b| - 1];
      CompareTo(a[1..], b[1..])
  }

  /** compareTo is zero exactly on equal strings. */
  lemma {:induction false} CompareToZeroIffEqual(a: string, b: string)
    ensures CompareTo(a, b) == 0 <==> a == b
    decreases |a|
  {
    if |a| == 0 || |b| == 0 {
    } else if a[0] != b[0] {
    } else {
      CompareToZeroIffEqual(a[1..], b[1..]);
      assert a == [a[0]] + a[1..] && b == [b[0]] + b[1..];
    }
  }

  /** Swapping the operands negates the result. */
  lemma {:induction false} CompareToAntisymmetric(a: string, b: string)
    ensures CompareTo(a, b) == -CompareTo(b, a)
    decreases |a|
  {
    if |a| == 0 || |b| == 0 {
    } else if a[0] != b[0] {
    } else {
      CompareToAntisymmetric(a[1..], b[1..]);
    }
  }

  /**
   * Lexicographic order on strings, as Java documents `compareTo`: `a` is a
   * proper prefix of `b`, or at the first position where they differ `a`
   * holds the smaller character.
   */
  predicate LexLess(a: string, b: string)
  {
    || (|a| < |b| && a == b[..|a|])
    || exists k :: 0 <= k < |a| && k < |b| && a[..k] == b[..k] && a[k] < b[k]
  }

  /** Dropping a common first character does not change the lexicographic order. */
  lemma LexLessTail(a: string, b: string)
    requires |a| > 0 && |b| > 0 && a[0] == b[0]
    ensures LexLess(a, b) <==> LexLess(a[1..], b[1..])
  {
    var a', b' := a[1..], b[1..];
    if |a| < |b| && a == b[..|a|] {
      assert a' == b'[..|a'|];
    }
    if |a'| < |b'| && a' == b'[..|a'|] {
      assert a == [a[0]] + a' && b[..|a|] == [b[0]] + b'[..|a'|];
    }
    if k :| 0 <= k < |a| && k < |b| && a[..k] == b[..k] && a[k] < b[k] {
      if k > 0 {
        assert a'[..k - 1] == a[..k][1..] && b'[..k - 1] == b[..k][1..];
        assert a'[k - 1] == a[k] && b'[k - 1] == b[k];
      }
    }
    if k :| 0 <= k < |a'| && k < |b'| && a'[..k] == b'[..k] && a'[k] < b'[k] {
      assert a[..k + 1] == [a[0]] + a'[..k] && b[..k + 1] == [b[0]] + b'[..k];
      assert a[k + 1] == a'[k] && b[k + 1] == b'[k];
    }
  }

  /** `compareTo` is negative exactly when the first string sorts first lexicographically. */
  lemma {:induction false} CompareToLex(a: string, b: string)
    ensures CompareTo(a, b) < 0 <==> LexLess(a, b)
    decreases |a|
  {
    if |a| == 0 || |b| == 0 {
      assert |a| == 0 && |b| > 0 ==> a == b[..|a|];
    } else if a[0] != b[0] {
      if a[0] < b[0] {
        assert a[..0] == b[..0];
      }
      if k :| 0 <= k < |a| && k < |b| && a[..k] == b[..k] && a[k] < b[k] {
        assert k > 0 ==> a[..k][0] == b[..k][0];
      }
    } else {
      LexLessTail(a, b);
      CompareToLex(a[1..], b[1..]);
    }
  }

  /** The order is lexicographic, not numeric: "1.10" sorts before "1.9". */
  lemma CompareToIsNotNumeric()
    ensures CompareTo("1.10", "1.9") < 0
  {
    assert "1.10"[1..] == ".10" && "1.9"[1..] == ".9";
    assert ".10"[1..] == "10" && ".9"[1..] == "9";
  }
}
