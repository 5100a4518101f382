/** The immutable value type `VersionChecker.Version` and its `compareTo`. */
module Versions {

  /** Largest value `Integer.parseInt` accepts (Integer.MAX_VALUE). */
  const IntMax: int := 0x7fff_ffff

  /** A version. `minor`, `build`, `revision` and `patch` hold -1 when unset,
      an absent stage is the empty string. */
  datatype Version = Version(major: nat, minor: int, build: int, revision: int, stage: string, patch: int)

  /** `[a-zA-Z]` */
  predicate IsLetter(c: char) {
    'a' <= c <= 'z' || 'A' <= c <= 'Z'
  }

  /** Every character of `s` satisfies `p`. */
  predicate All(s: string, p: char -> bool) {
    s == [] || (p(s[0]) && All(s[1..], p))
  }

  lemma {:induction false} AllAppend(a: string, b: string, p: char -> bool)
    ensures All(a + b, p) <==> All(a, p) && All(b, p)
  {
    if a == [] {
      assert a + b == b;
    } else {
      assert (a + b)[1..] == a[1..] + b;
      AllAppend(a[1..], b, p);
    }
  }

  lemma {:induction false} AllExcludes(s: string, p: char -> bool, c: char)
    requires All(s, p) && !p(c)
    ensures c !in s
  {
    if s != [] {
      AllExcludes(s[1..], p, c);
      assert s == [s[0]] + s[1..];
    }
  }

  /** An unset (-1) or parsed numeric field. */
  predicate IsField(x: int) {
    -1 <= x <= IntMax
  }

  /** The shape of every version the parser builds: numbers fit a Java `int`,
      a field is only set when the fields to its left are, and the stage is letters only. */
  predicate WellFormed(v: Version) {
    && v.major <= IntMax
    && IsField(v.minor) && IsField(v.build) && IsField(v.revision) && IsField(v.patch)
    && (v.build >= 0 ==> v.minor >= 0)
    && (v.revision >= 0 ==> v.build >= 0)
    && All(v.stage, IsLetter)
  }

  /** `Integer.compare`: only the sign carries meaning. */
  function IntCompare(x: int, y: int): (r: int)
    ensures -1 <= r <= 1
    ensures r < 0 <==> x < y
    ensures r == 0 <==> x == y
  {
    if x < y then -1 else if x == y then 0 else 1
  }

  /** `String.compareTo`: the difference of the first differing characters,
      or else the difference of the lengths. When neither string is a prefix
      of the other, the lengths do not matter; when one is, they decide. */
  function StringCompare(s: string, t: string): (r: int)
    ensures s <= t || t <= s ==> r == |s| - |t|
  {
    if s == [] || t == [] then |s| - |t|
    else if s[0] != t[0] then s[0] as int - t[0] as int
    else
      assert s <= t ==> s[1..] <= t[1..];
      assert t <= s ==> t[1..] <= s[1..];
      StringCompare(s[1..], t[1..])
  }

  /** Lexicographic order on character sequences: a proper prefix comes first,
      otherwise the first differing character decides. */
  ghost predicate LexLess(s: string, t: string) {
    || (|s| < |t| && s == t[..|s|])
    || exists k :: 0 <= k < |s| && k < |t| && s[..k] == t[..k] && s[k] < t[k]
  }

  lemma LexLessEmpty(s: string, t: string)
    requires s == [] || t == []
    ensures LexLess(s, t) <==> |s| < |t|
  {
    if |s| < |t| { assert s == t[..|s|]; }
  }

  lemma LexLessHeads(s: string, t: string)
    requires s != [] && t != [] && s[0] != t[0]
    ensures LexLess(s, t) <==> s[0] < t[0]
  {
    if s[0] < t[0] {
      assert s[..0] == t[..0];
    } else {
      assert |s| < |t| ==> t[..|s|][0] == t[0];
      assert forall k :: 0 < k <= |s| && k <= |t| ==> s[..k][0] == s[0] && t[..k][0] == t[0];
    }
  }

  lemma LexLessDropHead(s: string, t: string)
    requires s != [] && t != [] && s[0] == t[0]
    requires LexLess(s, t)
    ensures LexLess(s[1..], t[1..])
  {
    if |s| < |t| && s == t[..|s|] {
      assert s[1..] == t[1..][..|s[1..]|];
    } else {
      var k :| 0 <= k < |s| && k < |t| && s[..k] == t[..k] && s[k] < t[k];
      assert k > 0;
      assert s[1..][..k - 1] == s[..k][1..];
      assert t[1..][..k - 1] == t[..k][1..];
      assert s[1..][k - 1] == s[k];
    }
  }

  lemma LexLessAddHead(s: string, t: string)
    requires s != [] && t != [] && s[0] == t[0]
    requires LexLess(s[1..], t[1..])
    ensures LexLess(s, t)
  {
    if |s[1..]| < |t[1..]| && s[1..] == t[1..][..|s[1..]|] {
      assert s == [s[0]] + s[1..];
      assert t[..|s|] == [t[0]] + t[1..][..|s[1..]|];
    } else {
      var k :| 0 <= k < |s[1..]| && k < |t[1..]| && s[1..][..k] == t[1..][..k] && s[1..][k] < t[1..][k];
      assert s[..k + 1] == [s[0]] + s[1..][..k];
      assert t[..k + 1] == [t[0]] + t[1..][..k];
    }
  }

  /** `String.compareTo` is negative exactly on the lexicographic order of
      characters (a proper prefix comes first). */
  lemma {:induction false} StringCompareIsLexLess(s: string, t: string)
    ensures StringCompare(s, t) < 0 <==> LexLess(s, t)
  {
    if s == [] || t == [] {
      LexLessEmpty(s, t);
    } else if s[0] != t[0] {
      LexLessHeads(s, t);
    } else {
      StringCompareIsLexLess(s[1..], t[1..]);
      if LexLess(s, t) { LexLessDropHead(s, t); }
      if LexLess(s[1..], t[1..]) { LexLessAddHead(s, t); }
    }
  }

  lemma {:induction false} StringCompareZero(s: string, t: string)
    ensures StringCompare(s, t) == 0 <==> s == t
  {
    if s != [] && t != [] && s[0] == t[0] {
      StringCompareZero(s[1..], t[1..]);
      if s[1..] == t[1..] { assert s == [s[0]] + s[1..] && t == [t[0]] + t[1..]; }
    }
  }

  lemma {:induction false} StringCompareAntisymmetric(s: string, t: string)
    ensures StringCompare(s, t) == -StringCompare(t, s)
  {
    if s != [] && t != [] && s[0] == t[0] {
      StringCompareAntisymmetric(s[1..], t[1..]);
    }
  }

  lemma {:induction false} StringCompareTransitive(s: string, t: string, u: string)
    requires StringCompare(s, t) < 0 && StringCompare(t, u) < 0
    ensures StringCompare(s, u) < 0
  {
    if s != [] && t != [] && u != [] && s[0] == t[0] && t[0] == u[0] {
      StringCompareTransitive(s[1..], t[1..], u[1..]);
    }
  }

  /** `Version.compareTo`: the first of major, minor, build, revision, stage and
      patch that differs decides; an unset field (-1) sorts before every set one. */
  function Compare(a: Version, b: Version): (r: int)
    ensures r == 0 <==> a == b
  {
    StringCompareZero(a.stage, b.stage);
    var c0 := IntCompare(a.major, b.major);
    if c0 != 0 then c0 else
    var c1 := IntCompare(a.minor, b.minor);
    if c1 != 0 then c1 else
    var c2 := IntCompare(a.build, b.build);
    if c2 != 0 then c2 else
    var c3 := IntCompare(a.revision, b.revision);
    if c3 != 0 then c3 else
    var c4 := StringCompare(a.stage, b.stage);
    if c4 != 0 then c4 else
    IntCompare(a.patch, b.patch)
  }

  /** The lexicographic order on (major, minor, build, revision, stage, patch). */
  ghost predicate Precedes(a: Version, b: Version) {
    || a.major < b.major
    || (a.major == b.major && a.minor < b.minor)
    || (a.major == b.major && a.minor == b.minor && a.build < b.build)
    || (a.major == b.major && a.minor == b.minor && a.build == b.build && a.revision < b.revision)
    || (a.major == b.major && a.minor == b.minor && a.build == b.build && a.revision == b.revision
        && LexLess(a.stage, b.stage))
    || (a.major == b.major && a.minor == b.minor && a.build == b.build && a.revision == b.revision
        && a.stage == b.stage && a.patch < b.patch)
  }

  lemma CompareIsLexicographic(a: Version, b: Version)
    ensures Compare(a, b) < 0 <==> Precedes(a, b)
  {
    StringCompareIsLexLess(a.stage, b.stage);
    StringCompareZero(a.stage, b.stage);
  }

  lemma CompareAntisymmetric(a: Version, b: Version)
    ensures Compare(a, b) == -Compare(b, a)
  {
    StringCompareAntisymmetric(a.stage, b.stage);
  }

  lemma CompareTransitive(a: Version, b: Version, c: Version)
    requires Compare(a, b) <= 0 && Compare(b, c) <= 0
    ensures Compare(a, c) <= 0
    ensures Compare(a, b) < 0 || Compare(b, c) < 0 ==> Compare(a, c) < 0
  {
    StringCompareZero(a.stage, b.stage);
    StringCompareZero(b.stage, c.stage);
    StringCompareZero(a.stage, c.stage);
    if a.stage != b.stage && b.stage != c.stage && a.major == b.major == c.major && a.minor == b.minor == c.minor
      && a.build == b.build == c.build && a.revision == b.revision == c.revision
    {
      StringCompareTransitive(a.stage, b.stage, c.stage);
    }
  }
}
