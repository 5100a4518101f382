/** `_checkPluginDependencies`: the dependency manifest of a newer release
    compared with the installed plugins and with the dependencies the running
    plugin declares. */
module Dependencies {
  import opened Wrappers
  import opened Versions
  import opened VersionParser
  import opened VersionRender

  // ---------------------------------------------------------------------
  // `String.split(",")`
  // ---------------------------------------------------------------------

  predicate IsComma(c: char) {
    c == ','
  }

  /** Every piece between commas, empty ones included: `"a,,b,"` gives
      `["a", "", "b", ""]`. */
  function Pieces(x: string): (ps: seq<string>)
    ensures |ps| >= 1
  {
    if x == [] then [""]
    else if x[0] == ',' then [""] + Pieces(x[1..])
    else
      var p := Pieces(x[1..]);
      [[x[0]] + p[0]] + p[1..]
  }

  /** No piece holds a comma: the commas are exactly the separators. */
  lemma {:induction false} PiecesNoComma(x: string)
    ensures forall i :: 0 <= i < |Pieces(x)| ==> ',' !in Pieces(x)[i]
  {
    if x != [] {
      PiecesNoComma(x[1..]);
      var p := Pieces(x[1..]);
      if x[0] != ',' {
        assert ',' !in [x[0]] + p[0];
        assert forall i :: 1 <= i < |Pieces(x)| ==> Pieces(x)[i] == p[i];
      } else {
        assert forall i :: 1 <= i < |Pieces(x)| ==> Pieces(x)[i] == p[i - 1];
      }
    }
  }

  /** Removes the empty strings at the end, as `split` with limit zero does:
      what remains is a prefix of the pieces. */
  function DropTrailingEmpty(ps: seq<string>): (r: seq<string>)
    ensures r <= ps
  {
    if ps != [] && ps[|ps| - 1] == "" then DropTrailingEmpty(ps[..|ps| - 1]) else ps
  }

  /** `x.split(",")`: the whole string when it has no comma, otherwise its
      pieces without the trailing empty ones, possibly none at all. */
  function SplitOnComma(x: string): (r: seq<string>)
    ensures forall i :: 0 <= i < |r| ==> ',' !in r[i]
  {
    if ',' !in x then [x]
    else
      PiecesNoComma(x);
      DropTrailingEmpty(Pieces(x))
  }

  /** The text before the first comma. */
  function UpToComma(x: string): string {
    if x == [] || x[0] == ',' then "" else [x[0]] + UpToComma(x[1..])
  }

  predicate AllEmpty(ps: seq<string>) {
    forall i :: 0 <= i < |ps| ==> ps[i] == ""
  }

  lemma {:induction false} PiecesHead(x: string)
    ensures Pieces(x)[0] == UpToComma(x)
  {
    if x != [] && x[0] != ',' {
      PiecesHead(x[1..]);
    }
  }

  lemma {:induction false} PiecesAllEmpty(x: string)
    ensures AllEmpty(Pieces(x)) <==> All(x, IsComma)
  {
    if x != [] {
      PiecesAllEmpty(x[1..]);
      if x[0] == ',' {
        var ps := Pieces(x[1..]);
        assert Pieces(x) == [""] + ps;
        assert forall i :: 1 <= i < |Pieces(x)| ==> Pieces(x)[i] == ps[i - 1];
        assert forall j :: 0 <= j < |ps| ==> ps[j] == Pieces(x)[j + 1];
      } else {
        assert Pieces(x)[0] != "";
      }
    }
  }

  lemma {:induction false} DropAllEmpty(ps: seq<string>)
    ensures DropTrailingEmpty(ps) == [] <==> AllEmpty(ps)
    decreases |ps|
  {
    if ps != [] && ps[|ps| - 1] == "" {
      var front := ps[..|ps| - 1];
      DropAllEmpty(front);
      assert forall i :: 0 <= i < |front| ==> front[i] == ps[i];
    }
  }

  lemma {:induction false} DropKeepsHead(ps: seq<string>)
    requires DropTrailingEmpty(ps) != []
    ensures DropTrailingEmpty(ps)[0] == ps[0]
    decreases |ps|
  {
    if ps != [] && ps[|ps| - 1] == "" {
      DropKeepsHead(ps[..|ps| - 1]);
    }
  }

  lemma {:induction false} UpToCommaWhole(x: string)
    requires ',' !in x
    ensures UpToComma(x) == x
  {
    if x != [] {
      assert ',' !in x[1..] by {
        assert forall c :: c in x[1..] ==> c in x;
      }
      UpToCommaWhole(x[1..]);
      assert x == [x[0]] + x[1..];
    }
  }

  /** `split(",")` yields no element exactly for a non-empty run of commas,
      and otherwise its first element is the text before the first comma. */
  lemma SplitOnCommaSpec(x: string)
    ensures SplitOnComma(x) == [] <==> |x| > 0 && All(x, IsComma)
    ensures SplitOnComma(x) != [] ==> SplitOnComma(x)[0] == UpToComma(x)
  {
    if ',' !in x {
      UpToCommaWhole(x);
      if |x| > 0 {
        assert x[0] in x;
      }
    } else {
      PiecesAllEmpty(x);
      DropAllEmpty(Pieces(x));
      PiecesHead(x);
      if SplitOnComma(x) != [] {
        DropKeepsHead(Pieces(x));
      }
    }
  }

  // ---------------------------------------------------------------------
  // One manifest entry
  // ---------------------------------------------------------------------

  /** What an entry's version text amounts to: a version, a text the
      `Version` constructor rejects (the entry is ignored), or a range whose
      split yields no bound at all (indexing the empty array throws). */
  datatype Requirement = Required(version: Version) | Unparseable | OutOfBounds

  /** Starts with `[` or `(`: a version range, whose lower bound is used. */
  predicate IsRange(text: string) {
    |text| > 0 && (text[0] == '[' || text[0] == '(')
  }

  function RequirementOf(text: string): Requirement {
    var parsed: Option<Option<Version>> :=
      if IsRange(text) then
        var bounds := SplitOnComma(text[1..]);
        if bounds == [] then None else Some(Parse(bounds[0]))
      else Some(Parse(text));
    match parsed
    case None => OutOfBounds
    case Some(None) => Unparseable
    case Some(Some(v)) => Required(v)
  }

  function FromParse(p: Option<Version>): Requirement {
    match p
    case None => Unparseable
    case Some(v) => Required(v)
  }

  /** A range is out of bounds exactly when all that follows its bracket is
      one or more commas; otherwise its requirement is the version before the
      first comma. Any other text is parsed whole. */
  lemma RequirementOfSpec(text: string)
    ensures RequirementOf(text).OutOfBounds? <==> IsRange(text) && |text| > 1 && All(text[1..], IsComma)
    ensures IsRange(text) && !RequirementOf(text).OutOfBounds? ==> RequirementOf(text) == FromParse(Parse(UpToComma(text[1..])))
    ensures !IsRange(text) ==> RequirementOf(text) == FromParse(Parse(text))
  {
    if IsRange(text) {
      SplitOnCommaSpec(text[1..]);
    }
  }

  lemma LowerBoundText()
    ensures UpToComma("1.0,2.0)") == "1.0"
  {
    assert "1.0,2.0)"[1..] == ".0,2.0)";
    assert ".0,2.0)"[1..] == "0,2.0)";
    assert "0,2.0)"[1..] == ",2.0)";
  }

  /** `"<n>.0"` parses to major `n`, minor 0. */
  lemma ParseDotZero(n: nat)
    requires n <= IntMax
    ensures Parse(NumberText(n) + ".0") == Some(Version(n, 0, -1, -1, "", -1))
  {
    RenderDotZero(n);
    RenderRoundTrip(Version(n, 0, -1, -1, "", -1));
  }

  lemma RenderDotZero(n: nat)
    ensures Rendered(Version(n, 0, -1, -1, "", -1)) == NumberText(n) + ".0"
  {
    assert NumberText(0) == "0";
  }

  lemma OneDotZero()
    ensures NumberText(1) + ".0" == "1.0"
  {
    assert NumberText(1) == "1";
  }

  lemma TwoDotZero()
    ensures NumberText(2) + ".0" == "2.0"
  {
    assert NumberText(2) == "2";
  }

  lemma ParseOnePointZero()
    ensures Parse("1.0") == Some(Version(1, 0, -1, -1, "", -1))
  {
    OneDotZero();
    ParseDotZero(1);
  }

  lemma ParseTwoPointZero()
    ensures Parse("2.0") == Some(Version(2, 0, -1, -1, "", -1))
  {
    TwoDotZero();
    ParseDotZero(2);
  }

  /** A range uses its lower bound. */
  lemma RangeLowerBound()
    ensures RequirementOf("[1.0,2.0)") == Required(Version(1, 0, -1, -1, "", -1))
  {
    RequirementOfSpec("[1.0,2.0)");
    assert "[1.0,2.0)"[1..] == "1.0,2.0)";
    LowerBoundText();
    ParseOnePointZero();
  }

  /** A range without a lower bound is ignored. */
  lemma RangeWithoutLowerBound()
    ensures RequirementOf("(,2.0]") == Unparseable
  {
    RequirementOfSpec("(,2.0]");
    assert "(,2.0]"[1..] == ",2.0]";
    assert Parse("") == None;
  }

  /** A range made of commas only splits into nothing. */
  lemma RangeOfCommas()
    ensures RequirementOf("[,") == OutOfBounds
  {
    RequirementOfSpec("[,");
    assert "[,"[1..] == ",";
    assert All(","[1..], IsComma);
  }

  // ---------------------------------------------------------------------
  // The manifest as a whole
  // ---------------------------------------------------------------------

  /** A manifest entry: `plugin_id` and `version`. */
  type Entry = (string, string)

  // The functions below take the reading of a version text as a parameter
  // `read`; the diff passes `RequirementOf`. Their lemmas hold for any reading.

  /** `newDeps` after the first loop: each id mapped to the version of its
      last entry that parsed. */
  function Requirements(entries: seq<Entry>, read: string -> Requirement): map<string, Version>
    decreases |entries|
  {
    if entries == [] then map[]
    else
      var prev := Requirements(entries[..|entries| - 1], read);
      var e := entries[|entries| - 1];
      match read(e.1)
      case Required(v) => prev[e.0 := v]
      case _ => prev
  }

  /** `ignore` after the first loop: the ids with an entry that did not parse. */
  function Ignored(entries: seq<Entry>, read: string -> Requirement): set<string>
    decreases |entries|
  {
    if entries == [] then {}
    else
      var prev := Ignored(entries[..|entries| - 1], read);
      var e := entries[|entries| - 1];
      if read(e.1).Unparseable? then prev + {e.0} else prev
  }

  /** Some entry's range splits into nothing: the first loop throws. */
  predicate Aborts(entries: seq<Entry>, read: string -> Requirement)
    decreases |entries|
  {
    entries != [] && (Aborts(entries[..|entries| - 1], read) || read(entries[|entries| - 1].1).OutOfBounds?)
  }

  predicate RequiresAt(entries: seq<Entry>, id: string, i: int, read: string -> Requirement) {
    0 <= i < |entries| && entries[i].0 == id && read(entries[i].1).Required?
  }

  /** Entry `i` is the last entry for `id` that parsed. */
  predicate LastRequiresAt(entries: seq<Entry>, id: string, i: int, read: string -> Requirement) {
    RequiresAt(entries, id, i, read) && forall k :: i < k < |entries| ==> !RequiresAt(entries, id, k, read)
  }

  lemma PrefixAt(entries: seq<Entry>, k: int)
    requires entries != [] && 0 <= k < |entries| - 1
    ensures entries[..|entries| - 1][k] == entries[k]
  {
  }

  lemma PrefixStep(entries: seq<Entry>, i: int)
    requires 0 <= i < |entries|
    ensures entries[..i + 1][..i] == entries[..i] && entries[..i + 1][i] == entries[i]
  {
  }

  lemma RequirementsStep(entries: seq<Entry>, i: int, read: string -> Requirement)
    requires 0 <= i < |entries|
    ensures Requirements(entries[..i + 1], read)
      == match read(entries[i].1)
         case Required(v) => Requirements(entries[..i], read)[entries[i].0 := v]
         case _ => Requirements(entries[..i], read)
  {
    PrefixStep(entries, i);
  }

  lemma IgnoredStep(entries: seq<Entry>, i: int, read: string -> Requirement)
    requires 0 <= i < |entries|
    ensures Ignored(entries[..i + 1], read)
      == if read(entries[i].1).Unparseable? then Ignored(entries[..i], read) + {entries[i].0} else Ignored(entries[..i], read)
  {
    PrefixStep(entries, i);
  }

  lemma AbortsStep(entries: seq<Entry>, i: int, read: string -> Requirement)
    requires 0 <= i < |entries|
    ensures Aborts(entries[..i + 1], read) == (Aborts(entries[..i], read) || read(entries[i].1).OutOfBounds?)
  {
    PrefixStep(entries, i);
  }

  /** The first loop throws exactly when one of the entries is out of bounds. */
  lemma {:induction false} AbortsIff(entries: seq<Entry>, read: string -> Requirement)
    ensures Aborts(entries, read) <==> exists i :: 0 <= i < |entries| && read(entries[i].1).OutOfBounds?
    decreases |entries|
  {
    if entries != [] {
      var n := |entries| - 1;
      var front := entries[..n];
      AbortsIff(front, read);
      if Aborts(front, read) {
        var i :| 0 <= i < |front| && read(front[i].1).OutOfBounds?;
        PrefixAt(entries, i);
        assert read(entries[i].1).OutOfBounds?;
      }
      if read(entries[n].1).OutOfBounds? {
        assert 0 <= n < |entries|;
      }
      if exists i :: 0 <= i < n && read(entries[i].1).OutOfBounds? {
        var i :| 0 <= i < n && read(entries[i].1).OutOfBounds?;
        PrefixAt(entries, i);
        assert read(front[i].1).OutOfBounds?;
      }
    }
  }

  lemma AbortsPrefix(entries: seq<Entry>, j: int, read: string -> Requirement)
    requires 0 <= j <= |entries| && Aborts(entries[..j], read)
    ensures Aborts(entries, read)
  {
    AbortsIff(entries[..j], read);
    AbortsIff(entries, read);
    var i :| 0 <= i < j && read(entries[..j][i].1).OutOfBounds?;
    assert entries[..j][i] == entries[i];
  }

  /** An id is required exactly when one of its entries parsed. */
  lemma {:induction false} RequirementsDomain(entries: seq<Entry>, id: string, read: string -> Requirement)
    ensures id in Requirements(entries, read) <==> exists i :: RequiresAt(entries, id, i, read)
    decreases |entries|
  {
    if entries != [] {
      var n := |entries| - 1;
      var front := entries[..n];
      RequirementsDomain(front, id, read);
      if RequiresAt(entries, id, n, read) {
        assert id in Requirements(entries, read);
      } else {
        assert id in Requirements(entries, read) <==> id in Requirements(front, read);
      }
      if exists i :: RequiresAt(front, id, i, read) {
        var i :| RequiresAt(front, id, i, read);
        PrefixAt(entries, i);
        assert RequiresAt(entries, id, i, read);
      }
      if exists i :: RequiresAt(entries, id, i, read) && i < |entries| - 1 {
        var i :| RequiresAt(entries, id, i, read) && i < |entries| - 1;
        PrefixAt(entries, i);
        assert RequiresAt(front, id, i, read);
      }
    }
  }

  /** The last entry that parsed wins: `HashMap.put` overwrites. */
  lemma {:induction false} RequirementsLastWins(entries: seq<Entry>, id: string, i: int, read: string -> Requirement)
    requires LastRequiresAt(entries, id, i, read)
    ensures id in Requirements(entries, read)
    ensures Requirements(entries, read)[id] == read(entries[i].1).version
    decreases |entries|
  {
    var n := |entries| - 1;
    var front := entries[..n];
    if i < n {
      PrefixAt(entries, i);
      forall k | i < k < |front|
        ensures !RequiresAt(front, id, k, read)
      {
        PrefixAt(entries, k);
        assert !RequiresAt(entries, id, k, read);
      }
      RequirementsLastWins(front, id, i, read);
      assert !RequiresAt(entries, id, n, read);
    }
  }

  /** An id is ignored exactly when one of its entries did not parse. */
  lemma {:induction false} IgnoredIff(entries: seq<Entry>, id: string, read: string -> Requirement)
    ensures id in Ignored(entries, read) <==> exists i :: 0 <= i < |entries| && entries[i].0 == id && read(entries[i].1).Unparseable?
    decreases |entries|
  {
    if entries != [] {
      var front := entries[..|entries| - 1];
      IgnoredIff(front, id, read);
      if exists i :: 0 <= i < |front| && front[i].0 == id && read(front[i].1).Unparseable? {
        var i :| 0 <= i < |front| && front[i].0 == id && read(front[i].1).Unparseable?;
        PrefixAt(entries, i);
      }
      if exists i :: 0 <= i < |entries| - 1 && entries[i].0 == id && read(entries[i].1).Unparseable? {
        var i :| 0 <= i < |entries| - 1 && entries[i].0 == id && read(entries[i].1).Unparseable?;
        PrefixAt(entries, i);
        assert front[i] == entries[i];
      }
    }
  }

  /** Without an abort, an id is neither required nor ignored exactly when
      the manifest does not mention it. */
  lemma Unmentioned(entries: seq<Entry>, id: string, read: string -> Requirement)
    requires !Aborts(entries, read)
    ensures id !in Requirements(entries, read) && id !in Ignored(entries, read) <==> forall i :: 0 <= i < |entries| ==> entries[i].0 != id
  {
    AbortsIff(entries, read);
    RequirementsDomain(entries, id, read);
    IgnoredIff(entries, id, read);
    if exists i :: 0 <= i < |entries| && entries[i].0 == id {
      var i :| 0 <= i < |entries| && entries[i].0 == id;
      assert !read(entries[i].1).OutOfBounds?;
      if read(entries[i].1).Required? {
        assert RequiresAt(entries, id, i, read);
      }
    }
  }

  // ---------------------------------------------------------------------
  // The report
  // ---------------------------------------------------------------------

  /** The three warnings the diff logs: a dependency that is not installed,
      one installed below the required version, and a declared dependency the
      manifest no longer lists. */
  datatype Classification =
    | New(id: string, required: Version)
    | NeedsUpgrade(id: string, required: Version)
    | Stale(id: string)

  /** Aborted: the first loop threw; no warning about dependencies is logged. */
  datatype Diff = Aborted | Report(items: set<Classification>)

  /** The installed version text parses and is below the requirement. A
      missing or unparseable installed version is skipped. */
  predicate Outdated(installed: Option<string>, required: Version) {
    installed.Some? && Parse(installed.value).Some? && Compare(Parse(installed.value).value, required) < 0
  }

  /** Reference definition of the report: which warnings are due. `installed`
      maps each installed plugin to its version text, if it has one. */
  predicate Belongs(c: Classification, entries: seq<Entry>, installed: map<string, Option<string>>, declared: set<string>) {
    var req := Requirements(entries, RequirementOf);
    match c
    case New(id, v) => id in req && req[id] == v && id !in installed
    case NeedsUpgrade(id, v) => id in req && req[id] == v && id in installed && Outdated(installed[id], v)
    case Stale(id) => id in declared && id !in req && id !in Ignored(entries, RequirementOf)
  }

  /** The body of the first loop: the version of one entry, from the lower
      bound of a range or from the whole text. */
  method ReadRequirement(text: string) returns (req: Requirement)
    ensures req == RequirementOf(text)
  {
    var version: Option<Version>;
    if |text| > 0 && (text[0] == '[' || text[0] == '(') {
      var bounds := SplitOnComma(text[1..]);
      if |bounds| == 0 {
        return OutOfBounds;
      }
      version := Parse(bounds[0]);
    } else {
      version := Parse(text);
    }
    req := FromParse(version);
  }

  /** The body of the second loop for an installed dependency: its version is
      read, and a failure to read it is caught and skipped. */
  method IsOutdated(current: Option<string>, required: Version) returns (outdated: bool)
    ensures outdated == Outdated(current, required)
  {
    outdated := false;
    if current.Some? {
      var parsed := Parse(current.value);
      if parsed.Some? && Compare(parsed.value, required) < 0 {
        outdated := true;
      }
    }
  }

  /** The diff, loop by loop as the source runs it. */
  method CheckDependencies(entries: seq<Entry>, installed: map<string, Option<string>>, declared: set<string>) returns (r: Diff)
    ensures r.Aborted? <==> Aborts(entries, RequirementOf)
    ensures r.Report? ==> forall c :: c in r.items <==> Belongs(c, entries, installed, declared)
  {
    var newDeps: map<string, Version> := map[];
    var ignore: set<string> := {};
    var i := 0;
    while i < |entries|
      invariant 0 <= i <= |entries|
      invariant newDeps == Requirements(entries[..i], RequirementOf)
      invariant ignore == Ignored(entries[..i], RequirementOf)
      invariant !Aborts(entries[..i], RequirementOf)
    {
      var (id, text) := entries[i];
      var req := ReadRequirement(text);
      RequirementsStep(entries, i, RequirementOf);
      IgnoredStep(entries, i, RequirementOf);
      AbortsStep(entries, i, RequirementOf);
      match req {
        case OutOfBounds =>
          AbortsPrefix(entries, i + 1, RequirementOf);
          return Aborted;
        case Unparseable =>
          ignore := ignore + {id};
        case Required(version) =>
          newDeps := newDeps[id := version];
      }
      i := i + 1;
    }
    assert entries[..i] == entries;

    var items: set<Classification> := {};
    var todo := newDeps.Keys;
    while todo != {}
      invariant todo <= newDeps.Keys
      invariant forall c :: c in items <==> !c.Stale? && c.id !in todo && Belongs(c, entries, installed, declared)
      decreases todo
    {
      var id :| id in todo;
      var required := newDeps[id];
      if id !in installed {
        items := items + {New(id, required)};
      } else {
        var outdated := IsOutdated(installed[id], required);
        if outdated {
          items := items + {NeedsUpgrade(id, required)};
        }
      }
      todo := todo - {id};
    }

    var rest := declared;
    while rest != {}
      invariant rest <= declared
      invariant forall c :: c in items <==> Belongs(c, entries, installed, declared) && (c.Stale? ==> c.id !in rest)
      decreases rest
    {
      var id :| id in rest;
      if id !in newDeps && id !in ignore {
        items := items + {Stale(id)};
      }
      rest := rest - {id};
    }
    r := Report(items);
  }

  /** A dependency is never both new and due for an upgrade, and one the
      manifest requires is never reported stale, even when another entry for
      it was ignored. */
  lemma ReportExclusive(c: Classification, entries: seq<Entry>, installed: map<string, Option<string>>, declared: set<string>)
    requires Belongs(c, entries, installed, declared)
    ensures c.New? ==> !Belongs(NeedsUpgrade(c.id, c.required), entries, installed, declared)
    ensures !c.Stale? ==> !Belongs(Stale(c.id), entries, installed, declared)
  {
  }

  lemma ReadX()
    ensures RequirementOf("x") == Unparseable
  {
    assert Parse("x") == None;
  }

  lemma ReadOnePointZero()
    ensures RequirementOf("1.0") == Required(Version(1, 0, -1, -1, "", -1))
  {
    ParseOnePointZero();
  }

  lemma ReadTwoPointZero()
    ensures RequirementOf("2.0") == Required(Version(2, 0, -1, -1, "", -1))
  {
    ParseTwoPointZero();
  }

  /** An id whose first entry did not parse but whose later entry did is both
      ignored and required: it is compared, not excluded. */
  lemma IgnoredYetRequired()
    ensures var entries := [("a", "x"), ("a", "1.0")];
      && Requirements(entries, RequirementOf) == map["a" := Version(1, 0, -1, -1, "", -1)]
      && Ignored(entries, RequirementOf) == {"a"}
  {
    var entries := [("a", "x"), ("a", "1.0")];
    ReadX();
    ReadOnePointZero();
    assert entries[..1] == [("a", "x")];
    assert entries[..1][..0] == [];
  }

  lemma ScenarioManifest()
    ensures Requirements([("a", "2.0")], RequirementOf) == map["a" := Version(2, 0, -1, -1, "", -1)]
    ensures Ignored([("a", "2.0")], RequirementOf) == {}
  {
    ReadTwoPointZero();
    assert [("a", "2.0")][..0] == [];
  }

  lemma ScenarioOutdated()
    ensures Outdated(Some("1.0"), Version(2, 0, -1, -1, "", -1))
  {
    ParseOnePointZero();
  }

  /** Manifest `a 2.0`, `a 1.0` installed, `a` and `b` declared: `a` needs an
      upgrade and `b` is no longer required. */
  lemma UpgradeAndStaleScenario()
    ensures forall c :: (Belongs(c, [("a", "2.0")], map["a" := Some("1.0")], {"a", "b"})
      <==> c == NeedsUpgrade("a", Version(2, 0, -1, -1, "", -1)) || c == Stale("b"))
  {
    ScenarioManifest();
    ScenarioOutdated();
  }
}
