/** `Version.toString()`: the fields written back into the pattern's syntax. */
module VersionRender {
  import opened Wrappers
  import opened Versions
  import opened VersionParser

  function Digit(d: nat): char
    requires d < 10
  {
    ('0' as int + d) as char
  }

  /** `StringBuilder.append(int)` for a non-negative value: its decimal digits. */
  function NumberText(n: nat): (t: string)
    ensures IsNumeral(t)
    ensures NumeralValue(t) == n
    decreases n
  {
    if n < 10 then
      assert [Digit(n)][1..] == [];
      assert All([Digit(n)][1..], IsDigit);
      [Digit(n)]
    else
      var a := NumberText(n / 10);
      var t := a + [Digit(n % 10)];
      AllAppend(a, [Digit(n % 10)], IsDigit);
      assert t[..|t| - 1] == a;
      t
  }

  /** The digits are the canonical decimal: zero is written `0`, and no other
      number starts with a zero. */
  lemma {:induction false} NumberTextCanonical(n: nat)
    ensures n == 0 ==> NumberText(n) == "0"
    ensures n > 0 ==> NumberText(n)[0] != '0'
    decreases n
  {
    if n >= 10 {
      NumberTextCanonical(n / 10);
    }
  }

  /** What `toString` writes for the minor field: the field after a dot, or a
      `.0` placeholder when it is unset but a later field is positive. */
  function MinorPart(v: Version): string {
    if v.minor >= 0 then "." + NumberText(v.minor) else if v.build > 0 || v.revision > 0 then ".0" else ""
  }

  /** What `toString` writes for the build field, placeholder included. */
  function BuildPart(v: Version): string {
    if v.build >= 0 then "." + NumberText(v.build) else if v.revision > 0 then ".0" else ""
  }

  function RevisionPart(v: Version): string {
    if v.revision >= 0 then "." + NumberText(v.revision) else ""
  }

  /** The dash, then the stage, then the patch, written when either is set. */
  function SuffixPart(v: Version): string {
    if v.patch >= 0 || v.stage != "" then "-" + v.stage + (if v.patch >= 0 then NumberText(v.patch) else "") else ""
  }

  /** The text `toString` produces. */
  function Rendered(v: Version): string {
    NumberText(v.major) + MinorPart(v) + BuildPart(v) + RevisionPart(v) + SuffixPart(v)
  }

  /** `toString`, appending to a buffer as the `StringBuilder` does. */
  method ToString(v: Version) returns (s: string)
    ensures s == Rendered(v)
    ensures WellFormed(v) ==> Parse(s) == Some(v)
  {
    s := NumberText(v.major);
    ghost var acc := s;
    if v.minor >= 0 {
      s := s + ".";
      s := s + NumberText(v.minor);
      Regroup3(acc, ".", NumberText(v.minor));
    } else if v.build > 0 || v.revision > 0 {
      s := s + ".0";
    }
    assert s == acc + MinorPart(v);
    acc := s;
    if v.build >= 0 {
      s := s + ".";
      s := s + NumberText(v.build);
      Regroup3(acc, ".", NumberText(v.build));
    } else if v.revision > 0 {
      s := s + ".0";
    }
    assert s == acc + BuildPart(v);
    acc := s;
    if v.revision >= 0 {
      s := s + ".";
      s := s + NumberText(v.revision);
      Regroup3(acc, ".", NumberText(v.revision));
    }
    assert s == acc + RevisionPart(v);
    acc := s;
    if v.patch >= 0 || v.stage != "" {
      s := s + "-";
      if v.stage != "" {
        s := s + v.stage;
      }
      assert s == acc + "-" + v.stage;
      if v.patch >= 0 {
        s := s + NumberText(v.patch);
      }
      assert s == acc + "-" + v.stage + (if v.patch >= 0 then NumberText(v.patch) else "");
      AppendSuffix(acc, v.stage, if v.patch >= 0 then NumberText(v.patch) else "");
    }
    assert s == acc + SuffixPart(v);
    if WellFormed(v) {
      RenderRoundTrip(v);
    }
  }

  lemma AppendSuffix(acc: string, stage: string, patch: string)
    ensures acc + "-" + stage + patch == acc + ("-" + stage + patch)
  {
  }

  /** The match tree `toString` writes for a well-formed version. */
  function TreeOf(v: Version): Match
    requires WellFormed(v)
  {
    var dots :=
      if v.minor < 0 then []
      else if v.build < 0 then [NumberText(v.minor)]
      else if v.revision < 0 then [NumberText(v.minor), NumberText(v.build)]
      else [NumberText(v.minor), NumberText(v.build), NumberText(v.revision)];
    var suffix :=
      if v.patch >= 0 || v.stage != "" then
        Some(Suffix('-', v.stage, "", if v.patch >= 0 then NumberText(v.patch) else ""))
      else None;
    Match("", "", NumberText(v.major), dots, suffix)
  }

  lemma DotsOne(a: string)
    ensures SpellDots([a]) == "." + a
  {
    assert [a][1..] == [];
  }

  lemma DotsTwo(a: string, b: string)
    ensures SpellDots([a, b]) == "." + a + ("." + b)
  {
    assert [a, b][1..] == [b];
    DotsOne(b);
  }

  lemma DotsThree(a: string, b: string, c: string)
    ensures SpellDots([a, b, c]) == "." + a + ("." + b + ("." + c))
  {
    assert [a, b, c][1..] == [b, c];
    DotsTwo(b, c);
  }

  lemma Regroup5(a: string, b: string, c: string, d: string, e: string)
    ensures a + b + c + d + e == a + (b + c + d) + e
  {
  }

  lemma TreeDotsSpell(v: Version)
    requires WellFormed(v)
    ensures SpellDots(TreeOf(v).dots)
      == (if v.minor >= 0 then "." + NumberText(v.minor) else "")
       + (if v.build >= 0 then "." + NumberText(v.build) else "")
       + (if v.revision >= 0 then "." + NumberText(v.revision) else "")
  {
    if v.minor < 0 {
    } else if v.build < 0 {
      DotsOne(NumberText(v.minor));
    } else if v.revision < 0 {
      DotsTwo(NumberText(v.minor), NumberText(v.build));
    } else {
      DotsThree(NumberText(v.minor), NumberText(v.build), NumberText(v.revision));
    }
  }

  lemma TreeSuffixSpell(v: Version)
    requires WellFormed(v)
    ensures SpellSuffix(TreeOf(v).suffix)
      == (if v.patch >= 0 || v.stage != "" then "-" + v.stage + (if v.patch >= 0 then NumberText(v.patch) else "") else "")
  {
    if v.patch >= 0 || v.stage != "" {
      EmptySep("-" + v.stage, if v.patch >= 0 then NumberText(v.patch) else "");
    }
  }

  lemma EmptySep(a: string, p: string)
    ensures a + "" + p == a + p
  {
    assert a + "" == a;
  }

  lemma TreeSpellsRendered(v: Version)
    requires WellFormed(v)
    ensures Spell(TreeOf(v)) == Rendered(v)
  {
    var m := TreeOf(v);
    var major := NumberText(v.major);
    var a := if v.minor >= 0 then "." + NumberText(v.minor) else "";
    var b := if v.build >= 0 then "." + NumberText(v.build) else "";
    var c := if v.revision >= 0 then "." + NumberText(v.revision) else "";
    var e := SpellSuffix(m.suffix);
    TreeDotsSpell(v);
    TreeSuffixSpell(v);
    assert "" + "" + major == major;
    assert MinorPart(v) == a && BuildPart(v) == b;
    Regroup5(major, a, b, c, e);
  }

  lemma NumeralsOne(a: string)
    requires IsNumeral(a)
    ensures Numerals([a])
  {
    assert [a][1..] == [];
  }

  lemma NumeralsTwo(a: string, b: string)
    requires IsNumeral(a) && IsNumeral(b)
    ensures Numerals([a, b])
  {
    assert [a, b][1..] == [b];
    NumeralsOne(b);
  }

  lemma NumeralsThree(a: string, b: string, c: string)
    requires IsNumeral(a) && IsNumeral(b) && IsNumeral(c)
    ensures Numerals([a, b, c])
  {
    assert [a, b, c][1..] == [b, c];
    NumeralsTwo(b, c);
  }

  lemma TreeGrammatical(v: Version)
    requires WellFormed(v)
    ensures Grammatical(TreeOf(v))
  {
    if v.minor >= 0 {
      if v.build < 0 {
        NumeralsOne(NumberText(v.minor));
      } else if v.revision < 0 {
        NumeralsTwo(NumberText(v.minor), NumberText(v.build));
      } else {
        NumeralsThree(NumberText(v.minor), NumberText(v.build), NumberText(v.revision));
      }
    }
  }

  lemma TreeFields(v: Version)
    requires WellFormed(v)
    ensures FitsInt(TreeOf(v)) && Fields(TreeOf(v)) == v
  {
  }

  /** Parsing what `toString` writes gives the version back: rendering is a
      right inverse of the constructor on every version it can build. */
  lemma RenderRoundTrip(v: Version)
    requires WellFormed(v)
    ensures Parse(Rendered(v)) == Some(v)
  {
    var m := TreeOf(v);
    TreeGrammatical(v);
    TreeSpellsRendered(v);
    TreeFields(v);
    ParseTreeComplete(m);
  }

  /** Whatever spelling a version was parsed from, `toString` gives its
      canonical spelling, which parses to the same version. */
  lemma RenderNormalises(s: string)
    requires Parse(s).Some?
    ensures Parse(Rendered(Parse(s).value)) == Parse(s)
  {
    RenderRoundTrip(Parse(s).value);
  }

  /** The dash is written exactly when a stage or a patch is set. */
  lemma RenderDash(v: Version)
    requires WellFormed(v)
    ensures '-' in Rendered(v) <==> v.stage != "" || v.patch >= 0
  {
    var major := NumberText(v.major);
    var a := if v.minor >= 0 then "." + NumberText(v.minor) else "";
    var b := if v.build >= 0 then "." + NumberText(v.build) else "";
    var c := if v.revision >= 0 then "." + NumberText(v.revision) else "";
    var e := SuffixPart(v);
    assert MinorPart(v) == a && BuildPart(v) == b;
    DigitsNoDash(v.major);
    if v.minor >= 0 { DigitsNoDash(v.minor); }
    if v.build >= 0 { DigitsNoDash(v.build); }
    if v.revision >= 0 { DigitsNoDash(v.revision); }
    if v.patch >= 0 || v.stage != "" {
      assert e[0] == '-';
    }
  }

  lemma DigitsNoDash(n: nat)
    ensures '-' !in NumberText(n)
  {
    AllExcludes(NumberText(n), IsDigit, '-');
  }

  /** The two renderings the documentation of `toString` gives. */
  lemma RenderExamples()
    ensures Rendered(Version(1, 2, -1, -1, "Release", -1)) == "1.2-Release"
    ensures Rendered(Version(1, -1, -1, 5, "", -1)) == "1.0.0.5"
  {
    assert NumberText(1) == "1";
    assert NumberText(2) == "2";
    assert NumberText(5) == "5";
  }
}
