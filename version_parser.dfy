/** The `Version(String)` constructor: a full match of the pattern
      (?:[Vv]?\s*)?(\d+)(?:\.(\d+)(?:\.(\d+)(?:\.(\d+))?)?)?(?:[-_]([a-zA-Z]+)?[-_]?(\d+)?)?
    followed by `Integer.parseInt` on each numeric group. The pattern is written
    as a grammar over match trees (`Grammatical`, `Spell`) and recognised by a
    greedy descent (`ParseTree`); the two are proved to agree. */
module VersionParser {
  import opened Wrappers
  import opened Versions

  /** `\d` */
  predicate IsDigit(c: char) {
    '0' <= c <= '9'
  }

  /** `\s`: space, tab, line feed, vertical tab, form feed, carriage return. */
  predicate IsSpace(c: char) {
    c == ' ' || c == '\t' || c == '\n' || c as int == 0x0B || c as int == 0x0C || c == '\r'
  }

  /** `\d+` */
  predicate IsNumeral(s: string) {
    |s| > 0 && All(s, IsDigit)
  }

  /** Length of the longest prefix of `s` made of characters satisfying `p`:
      what a greedy repetition consumes. */
  function Span(s: string, p: char -> bool): (n: nat)
    ensures n <= |s|
  {
    if s == [] || !p(s[0]) then 0 else 1 + Span(s[1..], p)
  }

  /** `Span` stops at the first character outside `p`, and only then. */
  lemma {:induction false} SpanProps(s: string, p: char -> bool)
    ensures All(s[..Span(s, p)], p)
    ensures Span(s, p) < |s| ==> !p(s[Span(s, p)])
  {
    if s != [] && p(s[0]) {
      var n := Span(s, p);
      SpanProps(s[1..], p);
      assert s[..n][1..] == s[1..][..n - 1];
    }
  }

  lemma {:induction false} SpanOfRun(a: string, b: string, p: char -> bool)
    requires All(a, p)
    requires b == [] || !p(b[0])
    ensures Span(a + b, p) == |a|
  {
    if a == [] {
      assert a + b == b;
    } else {
      assert (a + b)[1..] == a[1..] + b;
      SpanOfRun(a[1..], b, p);
    }
  }

  /** The text of the suffix group `[-_]([a-zA-Z]+)?[-_]?(\d+)?`; an empty
      `stage` or `patch` is a group that took no part in the match. */
  datatype Suffix = Suffix(lead: char, stage: string, sep: string, patch: string)

  /** How a string matches the pattern: the optional `[Vv]`, the `\s*` run, the
      major group, the up to three `.`-prefixed groups and the optional suffix. */
  datatype Match = Match(vee: string, space: string, major: string, dots: seq<string>, suffix: Option<Suffix>)

  predicate GrammaticalSuffix(x: Suffix) {
    && (x.lead == '-' || x.lead == '_')
    && All(x.stage, IsLetter)
    && (x.sep == "" || x.sep == "-" || x.sep == "_")
    && All(x.patch, IsDigit)
  }

  /** Every element of `ds` is a `\d+` run. */
  predicate Numerals(ds: seq<string>) {
    ds == [] || (IsNumeral(ds[0]) && Numerals(ds[1..]))
  }

  predicate Grammatical(m: Match) {
    && (m.vee == "" || m.vee == "V" || m.vee == "v")
    && All(m.space, IsSpace)
    && IsNumeral(m.major)
    && |m.dots| <= 3
    && Numerals(m.dots)
    && (m.suffix.Some? ==> GrammaticalSuffix(m.suffix.value))
  }

  function SpellDots(ds: seq<string>): string {
    if ds == [] then "" else "." + ds[0] + SpellDots(ds[1..])
  }

  function SpellSuffix(x: Option<Suffix>): string {
    match x
    case None => ""
    case Some(x) => [x.lead] + x.stage + x.sep + x.patch
  }

  /** The string a match tree spells out; the language of the pattern is
      { Spell(m) | Grammatical(m) }. */
  function Spell(m: Match): string {
    m.vee + m.space + m.major + SpellDots(m.dots) + SpellSuffix(m.suffix)
  }

  /** Up to `n` groups `\.(\d+)` at the front of `s`, and the text after them. */
  function ParseDots(s: string, n: nat): (seq<string>, string)
    decreases n
  {
    if n > 0 && |s| > 0 && s[0] == '.' && Span(s[1..], IsDigit) > 0 then
      var u := s[1..];
      var k := Span(u, IsDigit);
      var tail := ParseDots(u[k..], n - 1);
      ([u[..k]] + tail.0, tail.1)
    else
      ([], s)
  }

  /** The suffix group followed by the end of the input: `Some(None)` when
      `s` is empty, `None` when `s` does not match. */
  function ParseSuffix(s: string): Option<Option<Suffix>> {
    if s == [] then Some(None)
    else if s[0] != '-' && s[0] != '_' then None
    else
      var u := s[1..];
      var a := Span(u, IsLetter);
      var v := u[a..];
      var b := if |v| > 0 && (v[0] == '-' || v[0] == '_') then 1 else 0;
      var w := v[b..];
      if Span(w, IsDigit) == |w| then Some(Some(Suffix(s[0], u[..a], v[..b], w))) else None
  }

  /** The match tree of `s`, taken greedily from left to right. */
  function ParseTree(s: string): Option<Match> {
    var vee := if |s| > 0 && (s[0] == 'V' || s[0] == 'v') then s[..1] else "";
    var s1 := s[|vee|..];
    var w := Span(s1, IsSpace);
    var s2 := s1[w..];
    var k := Span(s2, IsDigit);
    var dots := ParseDots(s2[k..], 3);
    var suffix := ParseSuffix(dots.1);
    if k == 0 || suffix.None? then None
    else Some(Match(vee, s1[..w], s2[..k], dots.0, suffix.value))
  }

  // Facts about concatenation, one per lemma so that each proof stays small.

  lemma Split(s: string, k: nat)
    requires k <= |s|
    ensures s[..k] + s[k..] == s
  {
  }

  lemma Regroup(a: string, b: string, c: string, d: string)
    ensures a + b + c + d == a + b + (c + d)
  {
  }

  lemma Regroup3(a: string, b: string, c: string)
    ensures a + b + c == a + (b + c)
  {
  }

  lemma ConsParts(d: string, ds: seq<string>)
    ensures ([d] + ds)[0] == d && ([d] + ds)[1..] == ds
  {
  }

  lemma HeadTail(ds: seq<string>)
    requires ds != []
    ensures [ds[0]] + ds[1..] == ds
  {
  }

  lemma DropFirst(c: char, s: string)
    ensures ([c] + s)[1..] == s
  {
  }

  lemma DotPrefix(s: string)
    requires |s| > 0 && s[0] == '.'
    ensures "." + s[1..] == s
  {
  }

  lemma SpellDotsCons(ds: seq<string>, t: string)
    requires ds != []
    ensures SpellDots(ds) + t == "." + ds[0] + (SpellDots(ds[1..]) + t)
  {
    Regroup(".", ds[0], SpellDots(ds[1..]), t);
  }

  /** Soundness of `ParseDots`: the groups it takes are numerals, at most `n`
      of them, and they spell the consumed text. */
  lemma {:induction false} ParseDotsSound(s: string, n: nat)
    ensures |ParseDots(s, n).0| <= n
    ensures Numerals(ParseDots(s, n).0)
    ensures SpellDots(ParseDots(s, n).0) + ParseDots(s, n).1 == s
    decreases n
  {
    if n > 0 && |s| > 0 && s[0] == '.' && Span(s[1..], IsDigit) > 0 {
      var u := s[1..];
      var k := Span(u, IsDigit);
      var tail := ParseDots(u[k..], n - 1);
      ParseDotsSound(u[k..], n - 1);
      SpanProps(u, IsDigit);
      var ds := [u[..k]] + tail.0;
      assert ParseDots(s, n) == (ds, tail.1);
      ConsParts(u[..k], tail.0);
      assert Numerals(ds);
      SpellDotsCons(ds, tail.1);
      Split(u, k);
      DotPrefix(s);
      Regroup3(".", u[..k], u[k..]);
    }
  }

  lemma ConsTail(s: string)
    requires |s| > 0
    ensures [s[0]] + s[1..] == s
  {
  }

  lemma Join(c: string, x: string, y: string, z: string, u: string)
    requires x + (y + z) == u
    ensures c + x + y + z == c + u
  {
    Regroup(c, x, y, z);
  }

  lemma AllPrefixWhole(w: string, p: char -> bool)
    requires All(w[..|w|], p)
    ensures All(w, p)
  {
    assert w[..|w|] == w;
  }

  /** The pieces `ParseSuffix` cuts spell its input back. */
  lemma SuffixPiecesSpell(s: string, a: nat, b: nat)
    requires |s| > 0 && a <= |s| - 1 && b <= |s[1..][a..]|
    ensures [s[0]] + s[1..][..a] + s[1..][a..][..b] + s[1..][a..][b..] == s
  {
    var u := s[1..];
    var v := u[a..];
    Split(v, b);
    Split(u, a);
    assert u[..a] + (v[..b] + v[b..]) == u;
    Join([s[0]], u[..a], v[..b], v[b..], u);
    ConsTail(s);
  }

  /** Soundness of `ParseSuffix`. */
  lemma ParseSuffixSound(s: string)
    requires ParseSuffix(s).Some?
    ensures SpellSuffix(ParseSuffix(s).value) == s
    ensures ParseSuffix(s).value.Some? ==> GrammaticalSuffix(ParseSuffix(s).value.value)
  {
    if s != [] {
      var u := s[1..];
      var a := Span(u, IsLetter);
      var v := u[a..];
      var b := if |v| > 0 && (v[0] == '-' || v[0] == '_') then 1 else 0;
      var w := v[b..];
      SuffixPiecesSpell(s, a, b);
      SpanProps(w, IsDigit);
      SpanProps(u, IsLetter);
      AllPrefixWhole(w, IsDigit);
    }
  }

  /** The pieces `ParseTree` cuts spell its input back. */
  lemma TreePiecesSpell(s: string, i: nat, w: nat, k: nat)
    requires i <= |s| && w <= |s[i..]| && k <= |s[i..][w..]|
    ensures s[..i] + (s[i..][..w] + (s[i..][w..][..k] + s[i..][w..][k..])) == s
  {
    var s1 := s[i..];
    var s2 := s1[w..];
    Split(s2, k);
    Split(s1, w);
    assert s1[..w] + (s2[..k] + s2[k..]) == s1;
    Split(s, i);
  }

  lemma VeeIsPrefix(s: string)
    ensures var vee := if |s| > 0 && (s[0] == 'V' || s[0] == 'v') then s[..1] else "";
      vee == s[..|vee|] && (vee == "" || vee == "V" || vee == "v")
  {
    if |s| > 0 && (s[0] == 'V' || s[0] == 'v') {
      assert s[..1] == [s[0]];
    }
  }

  /** Soundness of `ParseTree`: every tree it returns spells `s`. */
  lemma ParseTreeSpells(s: string)
    requires ParseTree(s).Some?
    ensures Spell(ParseTree(s).value) == s
  {
    var vee := if |s| > 0 && (s[0] == 'V' || s[0] == 'v') then s[..1] else "";
    var s1 := s[|vee|..];
    var w := Span(s1, IsSpace);
    var s2 := s1[w..];
    var k := Span(s2, IsDigit);
    var dots := ParseDots(s2[k..], 3);
    ParseDotsSound(s2[k..], 3);
    ParseSuffixSound(dots.1);
    var m := ParseTree(s).value;
    assert SpellDots(m.dots) + SpellSuffix(m.suffix) == s2[k..];
    SpellShape(m);
    VeeIsPrefix(s);
    TreePiecesSpell(s, |vee|, w, k);
  }

  /** Soundness of `ParseTree`: every tree it returns is grammatical. */
  lemma ParseTreeGrammatical(s: string)
    requires ParseTree(s).Some?
    ensures Grammatical(ParseTree(s).value)
  {
    var vee := if |s| > 0 && (s[0] == 'V' || s[0] == 'v') then s[..1] else "";
    var s1 := s[|vee|..];
    var w := Span(s1, IsSpace);
    var s2 := s1[w..];
    var k := Span(s2, IsDigit);
    var dots := ParseDots(s2[k..], 3);
    ParseDotsSound(s2[k..], 3);
    ParseSuffixSound(dots.1);
    SpanProps(s1, IsSpace);
    SpanProps(s2, IsDigit);
    VeeIsPrefix(s);
  }

  lemma ParseTreeSound(s: string)
    requires ParseTree(s).Some?
    ensures Grammatical(ParseTree(s).value)
    ensures Spell(ParseTree(s).value) == s
  {
    ParseTreeGrammatical(s);
    ParseTreeSpells(s);
  }

  lemma SpellShape(m: Match)
    ensures Spell(m) == m.vee + (m.space + (m.major + (SpellDots(m.dots) + SpellSuffix(m.suffix))))
  {
    var d := SpellDots(m.dots);
    var x := SpellSuffix(m.suffix);
    Regroup(m.vee, m.space, m.major, d);
    assert m.vee + m.space + m.major + d + x == m.vee + (m.space + (m.major + (d + x)));
  }

  lemma CatFront(a: string, b: string)
    ensures (a + b)[..|a|] == a
  {
  }

  lemma CatBack(a: string, b: string)
    ensures (a + b)[|a|..] == b
  {
  }

  lemma DotFront(d: string, rest: string)
    ensures ("." + d + rest)[0] == '.'
  {
  }

  lemma DotBack(d: string, rest: string)
    ensures ("." + d + rest)[1..] == d + rest
  {
  }

  /** One step of `ParseDots` over a group that is followed by a non-digit. */
  lemma DotStep(d: string, rest: string, n: nat)
    requires IsNumeral(d) && n > 0
    requires rest == [] || !IsDigit(rest[0])
    ensures ParseDots("." + d + rest, n) == ([d] + ParseDots(rest, n - 1).0, ParseDots(rest, n - 1).1)
  {
    var s := "." + d + rest;
    DotFront(d, rest);
    DotBack(d, rest);
    SpanOfRun(d, rest, IsDigit);
    CatFront(d, rest);
    CatBack(d, rest);
  }

  lemma SpelledRestNoDigit(ds: seq<string>, t: string)
    requires t == [] || t[0] == '-' || t[0] == '_'
    ensures SpellDots(ds) + t == [] || !IsDigit((SpellDots(ds) + t)[0])
  {
    if ds != [] {
      assert (SpellDots(ds) + t)[0] == '.';
    } else {
      assert SpellDots(ds) + t == t;
    }
  }

  /** Completeness of `ParseDots`: spelled groups followed by a suffix (or the
      end) are taken back exactly. */
  lemma {:induction false} ParseDotsComplete(ds: seq<string>, t: string, n: nat)
    requires |ds| <= n && Numerals(ds)
    requires t == [] || t[0] == '-' || t[0] == '_'
    ensures ParseDots(SpellDots(ds) + t, n) == (ds, t)
    decreases n
  {
    if ds == [] {
      assert SpellDots(ds) + t == t;
    } else {
      SpellDotsCons(ds, t);
      SpelledRestNoDigit(ds[1..], t);
      DotStep(ds[0], SpellDots(ds[1..]) + t, n);
      ParseDotsComplete(ds[1..], t, n - 1);
      HeadTail(ds);
    }
  }

  lemma SuffixShape(x: Suffix)
    ensures SpellSuffix(Some(x)) == [x.lead] + (x.stage + (x.sep + x.patch))
  {
    Regroup([x.lead], x.stage, x.sep, x.patch);
    Regroup3(x.stage, x.sep, x.patch);
  }

  lemma SepStep(sep: string, patch: string)
    requires sep == "" || sep == "-" || sep == "_"
    requires All(patch, IsDigit)
    ensures var v := sep + patch;
      var b := if |v| > 0 && (v[0] == '-' || v[0] == '_') then 1 else 0;
      v[..b] == sep && v[b..] == patch
  {
    if sep == "" {
      assert sep + patch == patch;
      if |patch| > 0 {
        assert IsDigit(patch[0]);
      }
    }
  }

  lemma AllWhole(w: string, p: char -> bool)
    requires All(w, p)
    ensures Span(w, p) == |w|
  {
    SpanOfRun(w, [], p);
    assert w + [] == w;
  }

  lemma StageStep(stage: string, v: string)
    requires All(stage, IsLetter)
    requires v == [] || v[0] == '-' || v[0] == '_' || IsDigit(v[0])
    ensures Span(stage + v, IsLetter) == |stage|
  {
    SpanOfRun(stage, v, IsLetter);
  }

  lemma SepFirst(sep: string, patch: string)
    requires sep == "" || sep == "-" || sep == "_"
    requires All(patch, IsDigit)
    ensures sep + patch == [] || (sep + patch)[0] == '-' || (sep + patch)[0] == '_' || IsDigit((sep + patch)[0])
  {
    if sep == "" {
      assert sep + patch == patch;
    }
  }

  /** Completeness of `ParseSuffix`. */
  lemma ParseSuffixComplete(x: Option<Suffix>)
    requires x.Some? ==> GrammaticalSuffix(x.value)
    ensures ParseSuffix(SpellSuffix(x)) == Some(x)
  {
    if x.Some? {
      var y := x.value;
      var s := SpellSuffix(x);
      SuffixShape(y);
      DropFirst(y.lead, y.stage + (y.sep + y.patch));
      SepFirst(y.sep, y.patch);
      StageStep(y.stage, y.sep + y.patch);
      CatFront(y.stage, y.sep + y.patch);
      CatBack(y.stage, y.sep + y.patch);
      SepStep(y.sep, y.patch);
      AllWhole(y.patch, IsDigit);
    }
  }

  lemma VeeStep(vee: string, rest: string)
    requires vee == "" || vee == "V" || vee == "v"
    requires rest == [] || (rest[0] != 'V' && rest[0] != 'v')
    ensures (if |vee + rest| > 0 && ((vee + rest)[0] == 'V' || (vee + rest)[0] == 'v') then (vee + rest)[..1] else "") == vee
  {
    if vee == "" {
      assert vee + rest == rest;
    } else {
      assert (vee + rest)[0] == vee[0];
      CatFront(vee, rest);
    }
  }

  lemma SpaceFirst(space: string, rest: string)
    requires All(space, IsSpace)
    requires |rest| > 0 && IsDigit(rest[0])
    ensures (space + rest)[0] != 'V' && (space + rest)[0] != 'v'
  {
    if space == [] {
      assert space + rest == rest;
    }
  }

  lemma FirstOfNumeral(d: string, rest: string)
    requires IsNumeral(d)
    ensures |d + rest| > 0 && IsDigit((d + rest)[0])
  {
  }

  lemma AfterMajor(ds: seq<string>, x: Option<Suffix>)
    requires x.Some? ==> GrammaticalSuffix(x.value)
    ensures var t := SpellSuffix(x); t == [] || t[0] == '-' || t[0] == '_'
  {
  }

  /** Completeness of `ParseTree`: a grammatical tree is recovered from its spelling. */
  lemma ParseTreeComplete(m: Match)
    requires Grammatical(m)
    ensures ParseTree(Spell(m)) == Some(m)
  {
    var sfx := SpellSuffix(m.suffix);
    var tail := SpellDots(m.dots) + sfx;
    var s2 := m.major + tail;
    var s1 := m.space + s2;
    var s := m.vee + s1;
    SpellShape(m);
    assert Spell(m) == s;
    FirstOfNumeral(m.major, tail);
    SpaceFirst(m.space, s2);
    VeeStep(m.vee, s1);
    CatBack(m.vee, s1);
    assert s[|m.vee|..] == s1;
    AfterMajor(m.dots, m.suffix);
    SpelledRestNoDigit(m.dots, sfx);
    SpanOfRun(m.space, s2, IsSpace);
    CatFront(m.space, s2);
    CatBack(m.space, s2);
    SpanOfRun(m.major, tail, IsDigit);
    CatFront(m.major, tail);
    CatBack(m.major, tail);
    ParseDotsComplete(m.dots, sfx, 3);
    ParseSuffixComplete(m.suffix);
  }

  /** Only one tree spells a given string: the pattern is unambiguous, so the
      groups of a match are determined by the input. */
  lemma MatchUnique(m1: Match, m2: Match)
    requires Grammatical(m1) && Grammatical(m2)
    requires Spell(m1) == Spell(m2)
    ensures m1 == m2
  {
    ParseTreeComplete(m1);
    ParseTreeComplete(m2);
  }

  /** `Integer.parseInt` on a run of decimal digits (leading zeros allowed). */
  function NumeralValue(s: string): nat {
    if s == [] then 0 else NumeralValue(s[..|s| - 1]) * 10 + DigitValue(s[|s| - 1])
  }

  function DigitValue(c: char): nat {
    if IsDigit(c) then c as int - '0' as int else 0
  }

  /** The six fields the constructor stores for a match: -1 for a numeric group
      that did not take part, "" for an absent stage. */
  function Fields(m: Match): Version {
    var sfx := m.suffix;
    Version(
      NumeralValue(m.major),
      if |m.dots| > 0 then NumeralValue(m.dots[0]) else -1,
      if |m.dots| > 1 then NumeralValue(m.dots[1]) else -1,
      if |m.dots| > 2 then NumeralValue(m.dots[2]) else -1,
      if sfx.Some? then sfx.value.stage else "",
      if sfx.Some? && sfx.value.patch != "" then NumeralValue(sfx.value.patch) else -1)
  }

  /** `Integer.parseInt` throws (a NumberFormatException, hence an
      IllegalArgumentException) for a value above Integer.MAX_VALUE. */
  predicate FitsInt(m: Match) {
    var v := Fields(m);
    v.major <= IntMax && v.minor <= IntMax && v.build <= IntMax && v.revision <= IntMax && v.patch <= IntMax
  }

  /** `new Version(text)`: `None` where the constructor throws. */
  function Parse(s: string): (r: Option<Version>)
    ensures r.Some? ==> WellFormed(r.value)
  {
    match ParseTree(s)
    case None => None
    case Some(m) =>
      ParseTreeSound(s);
      if FitsInt(m) then Some(Fields(m)) else None
  }

  /** The constructor accepts exactly the strings the pattern spells (with
      numbers that fit an `int`), and stores the groups of that match. */
  lemma ParseIsPattern(s: string, v: Version)
    ensures Parse(s) == Some(v) <==> exists m :: Grammatical(m) && Spell(m) == s && FitsInt(m) && Fields(m) == v
  {
    if Parse(s) == Some(v) {
      ParseTreeSound(s);
      var m := ParseTree(s).value;
      assert Grammatical(m) && Spell(m) == s && FitsInt(m) && Fields(m) == v;
    }
    if exists m :: Grammatical(m) && Spell(m) == s && FitsInt(m) && Fields(m) == v {
      var m :| Grammatical(m) && Spell(m) == s && FitsInt(m) && Fields(m) == v;
      ParseTreeComplete(m);
    }
  }

  /** A string outside the pattern is rejected. */
  lemma ParseRejectsNonMatching(s: string)
    requires forall m :: Grammatical(m) ==> Spell(m) != s
    ensures Parse(s) == None
  {
    if ParseTree(s).Some? {
      ParseTreeSound(s);
      assert false;
    }
  }
}
