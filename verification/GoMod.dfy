/**
  Reading go.mod (app/core/manifests.py, `_parse_go_mod` and its collectors): a state machine over
  lines. Blocks are only an abbreviation, and where an exclusion stands does not matter.
*/
module GoMod {
  import opened Prelude
  import opened Text
  import opened Domain
  import opened Versions

  datatype Directive = Require | Replace | Exclude | Retract

  /** A line's text before any comment, stripped, and whether its comment says "indirect". */
  datatype Line = Line(text: string, indirect: bool)

  datatype RequireEntry = RequireEntry(path: string, version: string, restSaysIndirect: bool)

  datatype ReplaceEntry = ReplaceEntry(path: string, target: string, targetVersion: Option<string>)

  /** The regular expressions for a module line and for single entries, not part of this model. */
  datatype Matchers = Matchers(
    moduleOf: string -> Option<string>,
    requireOf: string -> Option<RequireEntry>,
    replaceOf: string -> Option<ReplaceEntry>)

  /** A `module` line starts with that word, so no directive line is one. */
  ghost predicate Sensible(m: Matchers) {
    forall s :: m.moduleOf(s).Some? ==> StartsWith(s, "module")
  }

  datatype Requirement = Requirement(path: string, version: string, indirect: bool)

  datatype Warning =
    UnparseableRequire(text: string) | UnparseableReplace(text: string) | LocalReplacement(path: string, target: string)

  datatype State = State(
    block: Option<Directive>,
    project: Option<string>,
    requirements: seq<Requirement>,
    replacements: map<string, (string, Option<string>)>,
    excluded: set<(string, string)>,
    warnings: seq<Warning>)

  const START := State(None, None, [], map[], {}, [])

  // ---------- one line ----------

  function Word(d: Directive): string {
    match d
    case Require => "require"
    case Replace => "replace"
    case Exclude => "exclude"
    case Retract => "retract"
  }

  function Header(d: Directive): string {
    Word(d) + " ("
  }

  /** One entry of a directive, from a block or from a directive of its own. */
  function Collect(m: Matchers, s: State, d: Directive, text: string, indirect: bool): State {
    match d
    case Require =>
      (match m.requireOf(Strip(text))
       case Some(e) =>
         s.(requirements := s.requirements + [Requirement(e.path, e.version, indirect || e.restSaysIndirect)])
       case None =>
         if Strip(text) != "" && Strip(text) != "("
         then s.(warnings := s.warnings + [UnparseableRequire(Strip(text))]) else s)
    case Replace =>
      (match m.replaceOf(Strip(text))
       case Some(e) => s.(replacements := s.replacements[e.path := (e.target, e.targetVersion)])
       case None => s.(warnings := s.warnings + [UnparseableReplace(Strip(text))]))
    case Exclude =>
      (match m.requireOf(Strip(text))
       case Some(e) => s.(excluded := s.excluded + {(e.path, e.version)})
       case None => s)
    case Retract => s
  }

  /** The block a line opens, if it opens one. */
  function Opens(text: string): Option<Directive> {
    if StartsWith(text, Header(Require)) then Some(Require)
    else if StartsWith(text, Header(Replace)) then Some(Replace)
    else if StartsWith(text, Header(Exclude)) then Some(Exclude)
    else if StartsWith(text, Header(Retract)) then Some(Retract)
    else None
  }

  /** The directive a one-line entry gives, and its entry; `retract` entries are not read. */
  function OneLine(text: string): Option<(Directive, string)> {
    if StartsWith(text, "require ") then Some((Require, text[8..]))
    else if StartsWith(text, "replace ") then Some((Replace, text[8..]))
    else if StartsWith(text, "exclude ") then Some((Exclude, text[8..]))
    else None
  }

  function ReadLine(m: Matchers, s: State, line: Line): State {
    if line.text == "" then s
    else if s.block.None? then
      if m.moduleOf(line.text).Some? then s.(project := m.moduleOf(line.text))
      else if Opens(line.text).Some? then s.(block := Opens(line.text))
      else if OneLine(line.text).Some? then
        Collect(m, s, OneLine(line.text).value.0, OneLine(line.text).value.1, line.indirect)
      else s
    else if line.text == ")" then s.(block := None)
    else Collect(m, s, s.block.value, line.text, line.indirect)
  }

  function ReadLines(m: Matchers, s: State, lines: seq<Line>): State
    decreases |lines|
  {
    if lines == [] then s else ReadLines(m, ReadLine(m, s, lines[0]), lines[1..])
  }

  // ---------- the dependencies ----------

  function DependencyOf(path: string, version: string, indirect: bool): Dependency {
    Found(Go, path, Normalize(Go, version), version,
      if indirect then RuntimeTransitive else RuntimeDirect, true, if indirect then 1 else 0, [])
  }

  /** What one requirement becomes: excluded, replaced by a local path, replaced, or itself. */
  function Resolve(s: State, r: Requirement): Option<Dependency> {
    if (r.path, r.version) in s.excluded then None
    else if r.path in s.replacements then
      var (path, version) := s.replacements[r.path];
      if version.None? then None else Some(DependencyOf(path, version.value, r.indirect))
    else Some(DependencyOf(r.path, r.version, r.indirect))
  }

  predicate ReplacedLocally(s: State, r: Requirement) {
    (r.path, r.version) !in s.excluded && r.path in s.replacements && s.replacements[r.path].1.None?
  }

  function Resolved(s: State, rs: seq<Requirement>): seq<Dependency> {
    if rs == [] then []
    else
      var last := Resolve(s, rs[|rs| - 1]);
      Resolved(s, rs[..|rs| - 1]) + (if last.Some? then [last.value] else [])
  }

  function LocalWarnings(s: State, rs: seq<Requirement>): seq<Warning> {
    if rs == [] then []
    else
      var last := rs[|rs| - 1];
      LocalWarnings(s, rs[..|rs| - 1])
      + (if ReplacedLocally(s, last) then [LocalReplacement(last.path, s.replacements[last.path].0)] else [])
  }

  datatype Parsed = Parsed(project: Option<string>, dependencies: seq<Dependency>, warnings: seq<Warning>)

  function Parse(m: Matchers, lines: seq<Line>): Parsed {
    var s := ReadLines(m, START, lines);
    Parsed(s.project, Resolved(s, s.requirements), s.warnings + LocalWarnings(s, s.requirements))
  }

  method ReadAll(m: Matchers, lines: seq<Line>) returns (s: State)
    ensures s == ReadLines(m, START, lines)
  {
    s := START;
    for i := 0 to |lines|
      invariant ReadLines(m, s, lines[i..]) == ReadLines(m, START, lines)
    {
      assert lines[i..][1..] == lines[i + 1..];
      s := ReadLine(m, s, lines[i]);
    }
  }

  /** Exclusions and replacements, applied after everything has been read. */
  method ResolveAll(s: State) returns (dependencies: seq<Dependency>, warnings: seq<Warning>)
    ensures dependencies == Resolved(s, s.requirements)
    ensures warnings == s.warnings + LocalWarnings(s, s.requirements)
  {
    dependencies, warnings := [], s.warnings;
    for i := 0 to |s.requirements|
      invariant dependencies == Resolved(s, s.requirements[..i])
      invariant warnings == s.warnings + LocalWarnings(s, s.requirements[..i])
    {
      var required := s.requirements[i];
      assert s.requirements[..i + 1][..i] == s.requirements[..i];
      if (required.path, required.version) in s.excluded {
        continue;
      }
      var path, version := required.path, required.version;
      if path in s.replacements {
        var (newPath, newVersion) := s.replacements[path];
        if newVersion.None? {
          warnings := warnings + [LocalReplacement(path, newPath)];
          continue;
        }
        path, version := newPath, newVersion.value;
      }
      dependencies := dependencies + [DependencyOf(path, version, required.indirect)];
    }
    assert s.requirements[..|s.requirements|] == s.requirements;
  }

  method ParseGoMod(m: Matchers, lines: seq<Line>) returns (r: Parsed)
    ensures r == Parse(m, lines)
  {
    var s := ReadAll(m, lines);
    var dependencies, warnings := ResolveAll(s);
    return Parsed(s.project, dependencies, warnings);
  }

  // ---------- reading in pieces ----------

  lemma {:induction false} ReadConcat(m: Matchers, s: State, a: seq<Line>, b: seq<Line>)
    ensures ReadLines(m, s, a + b) == ReadLines(m, ReadLines(m, s, a), b)
    decreases |a|
  {
    if a == [] {
      assert a + b == b;
    } else {
      assert (a + b)[1..] == a[1..] + b;
      ReadConcat(m, ReadLine(m, s, a[0]), a[1..], b);
    }
  }

  // ---------- blocks are an abbreviation ----------

  /** An entry of a block: not its end, and not starting with a parenthesis. */
  predicate IsEntry(line: Line) {
    line.text != "" && line.text != ")" && line.text[0] != '('
  }

  /** The same entry as a directive of its own. */
  function AsDirective(d: Directive, line: Line): Line {
    Line(Word(d) + " " + line.text, line.indirect)
  }

  function AsDirectives(d: Directive, lines: seq<Line>): (r: seq<Line>)
    ensures |r| == |lines|
  {
    if lines == [] then [] else [AsDirective(d, lines[0])] + AsDirectives(d, lines[1..])
  }

  lemma DirectiveText(d: Directive, entry: string)
    requires entry != "" && entry[0] != '('
    ensures
      var text := Word(d) + " " + entry;
      && Opens(text).None? && !StartsWith(text, "module")
      && OneLine(text) == if d == Retract then None else Some((d, entry))
  {
    var text := Word(d) + " " + entry;
    assert |Word(d)| == 7;
    assert text[0] == Word(d)[0] && text[2] == Word(d)[2] && text[3] == Word(d)[3];
    assert text[7] == ' ' && text[8] == entry[0];
    assert text[8..] == entry;
    assert text[..8] == Word(d) + " ";
  }

  /** Reading an entry inside its block and reading it as a directive outside collect the same. */
  lemma EntryEitherWay(m: Matchers, s: State, d: Directive, line: Line)
    requires Sensible(m) && s.block.None? && IsEntry(line)
    ensures ReadLine(m, s, AsDirective(d, line)) == Collect(m, s, d, line.text, line.indirect)
    ensures ReadLine(m, s.(block := Some(d)), line) == Collect(m, s, d, line.text, line.indirect).(block := Some(d))
  {
    DirectiveText(d, line.text);
  }

  lemma {:induction false} EntriesEitherWay(m: Matchers, s: State, d: Directive, entries: seq<Line>)
    requires Sensible(m) && s.block.None? && forall i :: 0 <= i < |entries| ==> IsEntry(entries[i])
    ensures ReadLines(m, s.(block := Some(d)), entries) == ReadLines(m, s, AsDirectives(d, entries)).(block := Some(d))
    ensures ReadLines(m, s, AsDirectives(d, entries)).block.None?
    decreases |entries|
  {
    if entries != [] {
      var next := Collect(m, s, d, entries[0].text, entries[0].indirect);
      EntryEitherWay(m, s, d, entries[0]);
      EntriesEitherWay(m, next, d, entries[1..]);
      assert AsDirectives(d, entries)[1..] == AsDirectives(d, entries[1..]);
    }
  }

  /** A block with its header and closing parenthesis. */
  function Block(d: Directive, comment: bool, entries: seq<Line>): seq<Line> {
    [Line(Header(d), comment)] + entries + [Line(")", false)]
  }

  lemma HeaderOpens(d: Directive)
    ensures Opens(Header(d)) == Some(d) && !StartsWith(Header(d), "module")
  {
    assert Header(d)[0] == Word(d)[0] && Header(d)[2] == Word(d)[2] && Header(d)[3] == Word(d)[3];
    assert Word(d)[2] in "qpct" ;
  }

  lemma BlockReadsAsDirectives(m: Matchers, s: State, d: Directive, comment: bool, entries: seq<Line>)
    requires Sensible(m) && s.block.None? && forall i :: 0 <= i < |entries| ==> IsEntry(entries[i])
    ensures ReadLines(m, s, Block(d, comment, entries)) == ReadLines(m, s, AsDirectives(d, entries))
  {
    var header, close := Line(Header(d), comment), Line(")", false);
    HeaderOpens(d);
    ReadConcat(m, s, [header] + entries, [close]);
    ReadConcat(m, s, [header], entries);
    assert ReadLines(m, s, [header]) == s.(block := Some(d));
    EntriesEitherWay(m, s, d, entries);
    var inside := ReadLines(m, s, AsDirectives(d, entries));
    assert ReadLines(m, inside.(block := Some(d)), [close]) == inside;
  }

  /** Writing any block as one-line directives, anywhere in the file, changes nothing that is parsed. */
  lemma BlocksAreAbbreviations(
    m: Matchers, before: seq<Line>, d: Directive, comment: bool, entries: seq<Line>, after: seq<Line>)
    requires Sensible(m) && ReadLines(m, START, before).block.None?
    requires forall i :: 0 <= i < |entries| ==> IsEntry(entries[i])
    ensures Parse(m, before + Block(d, comment, entries) + after) == Parse(m, before + AsDirectives(d, entries) + after)
  {
    var s := ReadLines(m, START, before);
    BlockReadsAsDirectives(m, s, d, comment, entries);
    ReadConcat(m, START, before, Block(d, comment, entries));
    ReadConcat(m, START, before, AsDirectives(d, entries));
    ReadConcat(m, START, before + Block(d, comment, entries), after);
    ReadConcat(m, START, before + AsDirectives(d, entries), after);
  }

  // ---------- exclusions can stand anywhere ----------

  function Excluding(s: State, more: set<(string, string)>): State {
    s.(excluded := s.excluded + more)
  }

  lemma ExclusionCommutes(m: Matchers, s: State, line: Line, more: set<(string, string)>)
    ensures ReadLine(m, Excluding(s, more), line) == Excluding(ReadLine(m, s, line), more)
  {
    forall d, text, indirect
      ensures Collect(m, Excluding(s, more), d, text, indirect) == Excluding(Collect(m, s, d, text, indirect), more)
    {
      if d == Exclude && m.requireOf(Strip(text)).Some? {
        var e := m.requireOf(Strip(text)).value;
        assert s.excluded + more + {(e.path, e.version)} == s.excluded + {(e.path, e.version)} + more;
      }
    }
  }

  lemma {:induction false} ExclusionsCommute(m: Matchers, s: State, lines: seq<Line>, more: set<(string, string)>)
    ensures ReadLines(m, Excluding(s, more), lines) == Excluding(ReadLines(m, s, lines), more)
    decreases |lines|
  {
    if lines != [] {
      ExclusionCommutes(m, s, lines[0], more);
      ExclusionsCommute(m, ReadLine(m, s, lines[0]), lines[1..], more);
    }
  }

  /** An `exclude` directive of its own. */
  predicate IsExclusion(line: Line) {
    |line.text| > 8 && StartsWith(line.text, "exclude ") && line.text[8] != '('
  }

  function ExcludedBy(m: Matchers, line: Line): set<(string, string)>
    requires IsExclusion(line)
  {
    match m.requireOf(Strip(line.text[8..]))
    case Some(e) => {(e.path, e.version)}
    case None => {}
  }

  lemma ExclusionOnlyExcludes(m: Matchers, s: State, line: Line)
    requires Sensible(m) && s.block.None? && IsExclusion(line)
    ensures ReadLine(m, s, line) == Excluding(s, ExcludedBy(m, line))
  {
    DirectiveText(Exclude, line.text[8..]);
    assert line.text == Word(Exclude) + " " + line.text[8..];
    assert s.excluded + {} == s.excluded;
  }

  /** An exclusion outside any block can be moved past any lines to another place outside any block. */
  lemma ExclusionsCanMove(m: Matchers, before: seq<Line>, line: Line, between: seq<Line>, after: seq<Line>)
    requires Sensible(m) && IsExclusion(line)
    requires ReadLines(m, START, before).block.None? && ReadLines(m, START, before + between).block.None?
    ensures Parse(m, before + [line] + between + after) == Parse(m, before + between + [line] + after)
  {
    var s := ReadLines(m, START, before);
    var x := ExcludedBy(m, line);
    ReadConcat(m, START, before, between);
    ExclusionOnlyExcludes(m, s, line);
    ExclusionOnlyExcludes(m, ReadLines(m, s, between), line);
    ExclusionsCommute(m, s, between, x);
    ReadConcat(m, START, before, [line]);
    ReadConcat(m, START, before + [line], between);
    ReadConcat(m, START, before + between, [line]);
    ReadConcat(m, START, before + [line] + between, after);
    ReadConcat(m, START, before + between + [line], after);
    assert ReadLines(m, s, [line]) == ReadLine(m, s, line);
    assert ReadLines(m, ReadLines(m, s, between), [line]) == ReadLine(m, ReadLines(m, s, between), line);
  }

  // ---------- what is reported ----------

  /** A requirement is left out exactly when it is excluded, or replaced by a local path. */
  lemma LeftOutIff(s: State, r: Requirement)
    ensures Resolve(s, r).None? <==> (r.path, r.version) in s.excluded || ReplacedLocally(s, r)
  {
  }

  /** What is reported is exactly what the requirements neither excluded nor replaced locally become. */
  lemma {:induction false} ReportedIff(s: State, rs: seq<Requirement>, d: Dependency)
    ensures d in Resolved(s, rs) <==>
      exists r :: r in rs && (r.path, r.version) !in s.excluded && !ReplacedLocally(s, r) && Resolve(s, r) == Some(d)
    decreases |rs|
  {
    if rs != [] {
      var front, last := rs[..|rs| - 1], rs[|rs| - 1];
      assert rs == front + [last];
      ReportedIff(s, front, d);
      LeftOutIff(s, last);
    }
  }

  /** What a requirement is reported as: a Go module at an exact version, direct unless marked indirect. */
  predicate IsModule(d: Dependency, path: string, version: string, indirect: bool) {
    && d.ecosystem == Go && d.name == path && d.versionSpec == version && d.version == Normalize(Go, version)
    && d.versionExact && d.via == [] && d.automated == Unknown && d.evidence == []
    && d.reachability == (if indirect then RuntimeTransitive else RuntimeDirect)
    && d.depth == (if indirect then 1 else 0)
  }

  /** A replacement is reported under its own path and version; without a version it is a local path, and dropped. */
  lemma RequirementBecomes(s: State, r: Requirement)
    ensures (r.path, r.version) in s.excluded ==> Resolve(s, r) == None
    ensures (r.path, r.version) !in s.excluded && r.path !in s.replacements ==>
      Resolve(s, r).Some? && IsModule(Resolve(s, r).value, r.path, r.version, r.indirect)
    ensures (r.path, r.version) !in s.excluded && r.path in s.replacements && s.replacements[r.path].1.None? ==>
      Resolve(s, r) == None
    ensures (r.path, r.version) !in s.excluded && r.path in s.replacements && s.replacements[r.path].1.Some? ==>
      && Resolve(s, r).Some?
      && IsModule(Resolve(s, r).value, s.replacements[r.path].0, s.replacements[r.path].1.value, r.indirect)
  {
  }

  // ---------- what each line does ----------

  lemma Words(entry: string)
    ensures Word(Require) + " " + entry == "require " + entry
    ensures Word(Exclude) + " " + entry == "exclude " + entry
    ensures Word(Replace) + " " + entry == "replace " + entry
  {
    assert Word(Require) + " " == "require " && Word(Exclude) + " " == "exclude " && Word(Replace) + " " == "replace ";
  }

  lemma DirectiveReads(m: Matchers, s: State, d: Directive, entry: string, text: string, comment: bool)
    requires Sensible(m) && s.block.None? && entry != "" && entry[0] != '(' && text == Word(d) + " " + entry
    ensures ReadLine(m, s, Line(text, comment)) == Collect(m, s, d, entry, comment)
  {
    DirectiveText(d, entry);
  }

  /** `require` adds a requirement, indirect if the line or the rest of the entry says so, or a warning. */
  lemma RequireLine(m: Matchers, s: State, entry: string, comment: bool)
    requires Sensible(m) && s.block.None? && entry != "" && entry[0] != '('
    ensures
      var after, stripped := ReadLine(m, s, Line("require " + entry, comment)), Strip(entry);
      match m.requireOf(stripped)
      case Some(e) =>
        after == s.(requirements := s.requirements + [Requirement(e.path, e.version, comment || e.restSaysIndirect)])
      case None =>
        after == if stripped == "" || stripped == "(" then s
                 else s.(warnings := s.warnings + [UnparseableRequire(stripped)])
  {
    Words(entry);
    DirectiveReads(m, s, Require, entry, "require " + entry, comment);
  }

  /** `exclude` names one path and version to leave out. */
  lemma ExcludeLine(m: Matchers, s: State, entry: string, comment: bool)
    requires Sensible(m) && s.block.None? && entry != "" && entry[0] != '('
    ensures
      var after := ReadLine(m, s, Line("exclude " + entry, comment));
      match m.requireOf(Strip(entry))
      case Some(e) => after == s.(excluded := s.excluded + {(e.path, e.version)})
      case None => after == s
  {
    Words(entry);
    DirectiveReads(m, s, Exclude, entry, "exclude " + entry, comment);
  }

  /** `replace` says what stands for a path, the last word winning. */
  lemma ReplaceLine(m: Matchers, s: State, entry: string, comment: bool)
    requires Sensible(m) && s.block.None? && entry != "" && entry[0] != '('
    ensures
      var after := ReadLine(m, s, Line("replace " + entry, comment));
      match m.replaceOf(Strip(entry))
      case Some(e) => after == s.(replacements := s.replacements[e.path := (e.target, e.targetVersion)])
      case None => after == s.(warnings := s.warnings + [UnparseableReplace(Strip(entry))])
  {
    Words(entry);
    DirectiveReads(m, s, Replace, entry, "replace " + entry, comment);
  }

  /** A `module` line names the project; a `retract` line, and any other, does nothing. */
  lemma OtherLines(m: Matchers, s: State, text: string, comment: bool)
    requires s.block.None? && text != ""
    ensures m.moduleOf(text).Some? ==> ReadLine(m, s, Line(text, comment)) == s.(project := m.moduleOf(text))
    ensures
      && m.moduleOf(text).None?
      && !("require " <= text) && !("replace " <= text) && !("exclude " <= text) && !("retract (" <= text)
      ==> ReadLine(m, s, Line(text, comment)) == s
  {
    assert "require (" <= text ==> "require " <= text;
    assert "replace (" <= text ==> "replace " <= text;
    assert "exclude (" <= text ==> "exclude " <= text;
  }
}
