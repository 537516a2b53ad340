/** The string operations the services rely on: decimal rendering of ids (Long.toString and
    SpEL concatenation), substring search (a derived "NameContaining" query), Java's
    equalsIgnoreCase against "asc", and the order used by "OrderByNameAsc" queries. */
module Text {
  import opened Results

  function DigitChar(d: nat): (c: char)
    requires d < 10
    ensures '0' <= c <= '9'
  {
    ('0' as int + d) as char
  }

  /** Decimal digits of a natural number, most significant first. */
  function Digits(n: nat): (s: string)
    ensures 1 <= |s|
    ensures forall i :: 0 <= i < |s| ==> '0' <= s[i] <= '9'
    ensures n < 10 <==> |s| == 1
  {
    if n < 10 then [DigitChar(n)] else Digits(n / 10) + [DigitChar(n % 10)]
  }

  /** Long.toString: an optional minus sign, then the digits. */
  function IntToString(n: int): (s: string)
    ensures 1 <= |s|
    ensures s[0] == '-' <==> n < 0
    ensures forall i :: 0 < i < |s| ==> '0' <= s[i] <= '9'
  {
    if n < 0 then "-" + Digits(-n) else Digits(n)
  }

  /** Rendering of a nullable Long inside a SpEL or Java string concatenation. */
  function NullableInt(o: Option<int>): string {
    match o
    case None => "null"
    case Some(n) => IntToString(n)
  }

  /** Rendering of a nullable String inside a SpEL or Java string concatenation. */
  function NullableString(o: Option<string>): string {
    match o
    case None => "null"
    case Some(s) => s
  }

  lemma {:induction false} DigitsInjective(a: nat, b: nat)
    requires Digits(a) == Digits(b)
    ensures a == b
  {
    var da, db := Digits(a), Digits(b);
    if a >= 10 && b >= 10 {
      assert da[|da| - 1] == DigitChar(a % 10);
      assert db[|db| - 1] == DigitChar(b % 10);
      assert da[..|da| - 1] == Digits(a / 10);
      assert db[..|db| - 1] == Digits(b / 10);
      DigitsInjective(a / 10, b / 10);
    } else {
      assert da[0] == db[0];
    }
  }

  /** Distinct numbers render differently, so keys built from distinct ids are distinct. */
  lemma IntToStringInjective(a: int, b: int)
    requires IntToString(a) == IntToString(b)
    ensures a == b
  {
    if a < 0 {
      assert IntToString(a)[1..] == Digits(-a);
      assert IntToString(b)[1..] == Digits(-b);
      DigitsInjective(-a, -b);
    } else {
      DigitsInjective(a, b);
    }
  }

  /** Equal prefixes followed by renderings of two numbers are equal only for equal numbers. */
  lemma PrefixedIntInjective(p: string, a: int, b: int)
    requires p + IntToString(a) == p + IntToString(b)
    ensures a == b
  {
    assert IntToString(a) == (p + IntToString(a))[|p|..];
    assert IntToString(b) == (p + IntToString(b))[|p|..];
    IntToStringInjective(a, b);
  }

  predicate IsPrefix(p: string, s: string) {
    |p| <= |s| && s[..|p|] == p
  }

  /** Substring search: the meaning of a derived "NameContaining" query, whose argument
      Spring Data escapes, so '%' and '_' are matched literally. */
  predicate Contains(s: string, p: string)
    decreases |s|
  {
    IsPrefix(p, s) || (|s| > 0 && Contains(s[1..], p))
  }

  lemma {:induction false} ContainsAt(s: string, p: string, i: nat)
    requires i + |p| <= |s| && s[i..i + |p|] == p
    ensures Contains(s, p)
  {
    if i > 0 {
      assert s[1..][i - 1..i - 1 + |p|] == p;
      ContainsAt(s[1..], p, i - 1);
    }
  }

  /** "asc".equalsIgnoreCase(s): Java compares the upper-case forms of each character, so
      besides a/A, s/S and c/C the long s (U+017F), whose upper case is 'S', matches too. */
  predicate IsAsc(s: string) {
    && |s| == 3
    && (s[0] == 'a' || s[0] == 'A')
    && (s[1] == 's' || s[1] == 'S' || s[1] == 'ſ')
    && (s[2] == 'c' || s[2] == 'C')
  }

  /** The null-safe test of the subject listing and the null-checked test of the group listing. */
  predicate IsAscOption(o: Option<string>) {
    o.Some? && IsAsc(o.value)
  }

  /** Lexicographic order on names by character code: the order the model gives to
      "OrderByNameAsc" queries (the database's collation is not modelled). */
  predicate NameLe(a: string, b: string)
    decreases |a|
  {
    a == [] || (b != [] && (a[0] < b[0] || (a[0] == b[0] && NameLe(a[1..], b[1..]))))
  }

  lemma {:induction false} NameLeTotal(a: string, b: string)
    ensures NameLe(a, b) || NameLe(b, a)
    decreases |a|
  {
    if a != [] && b != [] && a[0] == b[0] {
      NameLeTotal(a[1..], b[1..]);
    }
  }

  lemma {:induction false} NameLeTransitive(a: string, b: string, c: string)
    requires NameLe(a, b) && NameLe(b, c)
    ensures NameLe(a, c)
    decreases |a|
  {
    if a != [] && a[0] == b[0] && b[0] == c[0] {
      NameLeTransitive(a[1..], b[1..], c[1..]);
    }
  }
}
