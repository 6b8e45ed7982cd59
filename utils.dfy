/** The Django version test. The version string that `django.get_version()` returns is
    a parameter. */
module Utils {
  import opened Wrappers
  import opened Text

  /** Index of the first `c` in `s`, or `|s|`. */
  function IndexOf(s: string, c: char): (n: nat)
    ensures n <= |s|
    ensures forall i :: 0 <= i < n ==> s[i] != c
    ensures n < |s| ==> s[n] == c
  {
    if s == [] || s[0] == c then 0 else 1 + IndexOf(s[1..], c)
  }

  /** `sep.join(parts)`. */
  function Join(parts: seq<string>, sep: char): string
    requires |parts| >= 1
  {
    if |parts| == 1 then parts[0] else parts[0] + [sep] + Join(parts[1..], sep)
  }

  /** `s.split(sep)`: the pieces between the separators, at least one of them. */
  function Split(s: string, sep: char): (parts: seq<string>)
    ensures |parts| >= 1
    ensures forall i :: 0 <= i < |parts| ==> sep !in parts[i]
    ensures Join(parts, sep) == s
    decreases |s|
  {
    var n := IndexOf(s, sep);
    if n == |s| then [s]
    else
      var rest := Split(s[n + 1..], sep);
      var parts := [s[..n]] + rest;
      assert parts[1..] == rest;
      assert s == s[..n] + [sep] + s[n + 1..];
      parts
  }

  lemma {:induction false} IndexOfJoin(p: string, sep: char, rest: string)
    requires sep !in p
    ensures IndexOf(p + [sep] + rest, sep) == |p|
  {
    if p != [] {
      assert (p + [sep] + rest)[1..] == p[1..] + [sep] + rest;
      IndexOfJoin(p[1..], sep, rest);
    }
  }

  /** Splitting a join of separator-free pieces gives the pieces back. */
  lemma {:induction false} SplitJoin(parts: seq<string>, sep: char)
    requires |parts| >= 1
    requires forall i :: 0 <= i < |parts| ==> sep !in parts[i]
    ensures Split(Join(parts, sep), sep) == parts
  {
    if |parts| == 1 {
      assert forall i :: 0 <= i < |parts[0]| ==> parts[0][i] != sep;
    } else {
      var s := Join(parts, sep);
      var tail := Join(parts[1..], sep);
      IndexOfJoin(parts[0], sep, tail);
      assert s[..|parts[0]|] == parts[0];
      assert s[|parts[0]| + 1..] == tail;
      SplitJoin(parts[1..], sep);
    }
  }

  /** An unsigned run of ASCII digits and its value. */
  function ParseDigits(d: string): (r: Option<nat>)
    ensures r.Some? <==> d != [] && AllDigits(d)
  {
    if d != [] && AllDigits(d) then Some(DigitsValue(d)) else None
  }

  /** Python `int(s)` in base 10: whitespace around, an optional sign, then ASCII digits. */
  function ParseInt(s: string): (r: Option<int>)
    ensures r.Some? ==> Strip(s) != []
  {
    ParseSigned(Strip(s))
  }

  /** `int` of text with no whitespace around it: an optional sign, then digits. */
  function ParseSigned(t: string): (r: Option<int>)
    ensures r.Some? ==> t != []
  {
    if t != [] && (t[0] == '+' || t[0] == '-') then
      match ParseDigits(t[1..])
      case None => None
      case Some(v) => Some(if t[0] == '-' then -(v as int) else v)
    else
      match ParseDigits(t)
      case None => None
      case Some(v) => Some(v)
  }

  lemma DigitsNoDot(s: string)
    requires AllDigits(s)
    ensures '.' !in s
  {
  }

  /** A run of digits is read as its decimal value. */
  lemma ParseDigitRun(d: string)
    requires ParseDigits(d).Some?
    ensures ParseInt(d) == Some(ParseDigits(d).value as int)
  {
    assert IsDigit(d[0]) && IsDigit(d[|d| - 1]);
    StripTrimmed(d);
  }

  /** A minus sign and a run of digits is read as the negated value. */
  lemma ParseMinusDigitRun(d: string)
    requires ParseDigits(d).Some?
    ensures ParseInt("-" + d) == Some(-(ParseDigits(d).value as int))
  {
    var m := "-" + d;
    assert IsDigit(d[|d| - 1]);
    assert m[|m| - 1] == d[|d| - 1];
    StripTrimmed(m);
    assert m[1..] == d;
  }

  /** `int(str(n)) == n`. */
  lemma ParseDecimalString(n: nat)
    ensures ParseInt(DecimalString(n)) == Some(n)
  {
    var d := DecimalString(n);
    assert ParseDigits(d) == Some(n);
    ParseDigitRun(d);
  }

  /** `int("-" + str(n)) == -n`. */
  lemma ParseNegativeDecimalString(n: nat)
    ensures ParseInt("-" + DecimalString(n)) == Some(-(n as int))
  {
    var d := DecimalString(n);
    assert ParseDigits(d) == Some(n);
    ParseMinusDigitRun(d);
  }

  /** A piece with a dot in it is not an integer literal. */
  lemma ParseRejectsDot(s: string, i: nat)
    requires i < |Strip(s)| && Strip(s)[i] == '.'
    ensures ParseInt(s) == None
  {
    var t := Strip(s);
    if t[0] == '+' || t[0] == '-' {
      assert t[1..][i - 1] == '.';
    }
  }

  /** The part of `is_django_version_greater_than` after the unpacking: convert the first
      piece with `int` and, only when it reaches `major`, the second, and compare each
      with its own bound. */
  function CompareAsWritten(first: string, second: string, major: int, minor: int): (r: Result<bool, PyError>)
    ensures r.Failure? <==> ParseInt(first).None? || (ParseInt(first).value >= major && ParseInt(second).None?)
    ensures r.Failure? ==> r.error.ValueError?
  {
    match ParseInt(first)
    case None => Failure(ValueError("invalid literal for int() with base 10"))
    case Some(ma) =>
      if !(ma >= major) then Success(false)
      else
        match ParseInt(second)
        case None => Failure(ValueError("invalid literal for int() with base 10"))
        case Some(mi) => Success(mi > minor)
  }

  /** `is_django_version_greater_than`: unpack the first two dot-separated pieces (a
      ValueError when there are fewer) and compare them. */
  function IsDjangoVersionGreaterThan(version: string, major: int, minor: int): (r: Result<bool, PyError>)
    ensures |Split(version, '.')| < 2 ==> r.Failure?
    ensures r.Failure? ==> r.error.ValueError?
  {
    var parts := Split(version, '.');
    if |parts| < 2 then Failure(ValueError("not enough values to unpack"))
    else CompareAsWritten(parts[0], parts[1], major, minor)
  }

  /** The pieces of the rendered version `ma.mi[.rest]`. */
  lemma RenderedVersion(ma: nat, mi: nat, rest: seq<string>)
    requires forall i :: 0 <= i < |rest| ==> '.' !in rest[i]
    ensures Split(Join([DecimalString(ma), DecimalString(mi)] + rest, '.'), '.')
      == [DecimalString(ma), DecimalString(mi)] + rest
  {
    var a, b := DecimalString(ma), DecimalString(mi);
    DigitsNoDot(a);
    DigitsNoDot(b);
    NoDotPieces(a, b, rest);
    SplitJoin([a, b] + rest, '.');
  }

  lemma NoDotPieces(a: string, b: string, rest: seq<string>)
    requires '.' !in a && '.' !in b
    requires forall i :: 0 <= i < |rest| ==> '.' !in rest[i]
    ensures forall i :: 0 <= i < |[a, b] + rest| ==> '.' !in ([a, b] + rest)[i]
  {
    var parts := [a, b] + rest;
    forall i | 0 <= i < |parts| ensures '.' !in parts[i] {
      if i >= 2 {
        assert parts[i] == rest[i - 2];
      }
    }
  }

  /** Two rendered numbers compare component by component. */
  lemma CompareRendered(ma: nat, mi: nat, major: int, minor: int)
    ensures CompareAsWritten(DecimalString(ma), DecimalString(mi), major, minor) == Success(ma >= major && mi > minor)
  {
    ParseDecimalString(ma);
    ParseDecimalString(mi);
  }

  /** The version `ma.mi[.rest]` passes exactly when `ma >= major` and `mi > minor`. */
  lemma VersionComparedPerComponent(ma: nat, mi: nat, rest: seq<string>, major: int, minor: int)
    requires forall i :: 0 <= i < |rest| ==> '.' !in rest[i]
    ensures IsDjangoVersionGreaterThan(Join([DecimalString(ma), DecimalString(mi)] + rest, '.'), major, minor)
      == Success(ma >= major && mi > minor)
  {
    var parts := Split(Join([DecimalString(ma), DecimalString(mi)] + rest, '.'), '.');
    RenderedVersion(ma, mi, rest);
    assert parts[0] == DecimalString(ma) && parts[1] == DecimalString(mi);
    CompareRendered(ma, mi, major, minor);
  }

  /** Only the first two pieces are read: whatever follows them does not matter. */
  lemma OnlyFirstTwoComponentsRead(version: string, rest: seq<string>, major: int, minor: int)
    requires |Split(version, '.')| >= 2
    requires forall i :: 0 <= i < |rest| ==> '.' !in rest[i]
    ensures IsDjangoVersionGreaterThan(Join(Split(version, '.')[..2] + rest, '.'), major, minor)
      == IsDjangoVersionGreaterThan(version, major, minor)
  {
    var parts := Split(version, '.');
    var other := parts[..2] + rest;
    forall i | 0 <= i < |other| ensures '.' !in other[i] {
      if i < 2 {
        assert other[i] == parts[i];
      } else {
        assert other[i] == rest[i - 2];
      }
    }
    SplitJoin(other, '.');
    assert other[0] == parts[0] && other[1] == parts[1];
  }

  /** With the default bounds 1 and 4: `1.5` passes, `1.4` and `2.0` do not. */
  lemma DefaultBoundsExamples()
    ensures IsDjangoVersionGreaterThan("1.5", 1, 4) == Success(true)
    ensures IsDjangoVersionGreaterThan("1.4", 1, 4) == Success(false)
    ensures IsDjangoVersionGreaterThan("2.0", 1, 4) == Success(false)
  {
    assert Join([DecimalString(1), DecimalString(5)], '.') == "1.5";
    assert Join([DecimalString(1), DecimalString(4)], '.') == "1.4";
    assert Join([DecimalString(2), DecimalString(0)], '.') == "2.0";
    VersionComparedPerComponent(1, 5, [], 1, 4);
    VersionComparedPerComponent(1, 4, [], 1, 4);
    VersionComparedPerComponent(2, 0, [], 1, 4);
  }

  /** The comparison the docstring describes: the first two pieces, read as a pair, come
      after `(major, minor)` in lexicographic order. */
  function CompareAfter(first: string, second: string, major: int, minor: int): (r: Result<bool, PyError>)
    ensures r.Failure? <==> ParseInt(first).None? || ParseInt(second).None?
    ensures r.Failure? ==> r.error.ValueError?
  {
    match ParseInt(first)
    case None => Failure(ValueError("invalid literal for int() with base 10"))
    case Some(ma) =>
      match ParseInt(second)
      case None => Failure(ValueError("invalid literal for int() with base 10"))
      case Some(mi) => Success(ma > major || (ma == major && mi > minor))
  }

  /** The corrected version test. */
  function IsVersionAfter(version: string, major: int, minor: int): (r: Result<bool, PyError>)
    ensures |Split(version, '.')| < 2 ==> r.Failure?
    ensures r.Failure? ==> r.error.ValueError?
  {
    var parts := Split(version, '.');
    if |parts| < 2 then Failure(ValueError("not enough values to unpack"))
    else CompareAfter(parts[0], parts[1], major, minor)
  }

  /** `ma.mi[.rest]` is after `major.minor` exactly when it is later in version order. */
  lemma VersionAfterIsLexicographic(ma: nat, mi: nat, rest: seq<string>, major: int, minor: int)
    requires forall i :: 0 <= i < |rest| ==> '.' !in rest[i]
    ensures IsVersionAfter(Join([DecimalString(ma), DecimalString(mi)] + rest, '.'), major, minor)
      == Success(ma > major || (ma == major && mi > minor))
  {
    var parts := Split(Join([DecimalString(ma), DecimalString(mi)] + rest, '.'), '.');
    RenderedVersion(ma, mi, rest);
    assert parts[0] == DecimalString(ma) && parts[1] == DecimalString(mi);
    CompareAfterRendered(ma, mi, major, minor);
  }

  lemma CompareAfterRendered(ma: nat, mi: nat, major: int, minor: int)
    ensures CompareAfter(DecimalString(ma), DecimalString(mi), major, minor)
      == Success(ma > major || (ma == major && mi > minor))
  {
    ParseDecimalString(ma);
    ParseDecimalString(mi);
  }

  /** Version 2.0 is after 1.4, which the per-component test denies (see
      `DefaultBoundsExamples`). */
  lemma MajorReleaseAfter()
    ensures IsVersionAfter("2.0", 1, 4) == Success(true)
  {
    assert Join([DecimalString(2), DecimalString(0)] + [], '.') == "2.0";
    VersionAfterIsLexicographic(2, 0, [], 1, 4);
  }
}
