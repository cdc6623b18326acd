/** JavaGeneratorMojo.generateJavaFile without the file system: which
    message is the header, which become init lines, where the class goes,
    its package and class name, and the plural formula read from the
    header's Plural-Forms line. */
module JavaGeneratorMojo {
  import opened Wrappers
  import opened JavaString
  import opened GettextMessage

  /** ResourceNameWithoutClass is the ArrayIndexOutOfBoundsException of
      packageNames[packageNames.length - 1] when the split is empty;
      PluralFormulaMissing is the MojoExecutionException for a Plural-Forms
      line without "plural=". */
  datatype GeneratorError = ResourceNameWithoutClass | PluralFormulaMissing

  // ---------------------------------------------------------------------
  // The catalog loop

  /** The last message without a context: each one overwrites poProperties. */
  function HeaderOf(msgs: seq<Message>): (r: Option<Message>)
    ensures r.Some? ==> r.value in msgs && r.value.msgctxt.None?
    decreases |msgs|
  {
    if msgs == [] then None
    else if msgs[|msgs| - 1].msgctxt.None? then Some(msgs[|msgs| - 1])
    else HeaderOf(msgs[..|msgs| - 1])
  }

  /** The messages with a context, in catalog order: those passed to
      addInitLine. */
  function InitLines(msgs: seq<Message>): (r: seq<Message>)
    ensures |r| <= |msgs|
    ensures forall k :: 0 <= k < |r| ==> r[k].msgctxt.Some?
    decreases |msgs|
  {
    if msgs == [] then []
    else InitLines(msgs[..|msgs| - 1]) + (if msgs[|msgs| - 1].msgctxt.Some? then [msgs[|msgs| - 1]] else [])
  }

  /** generateJavaFile's loop over the catalog. */
  method ReadCatalog(msgs: seq<Message>) returns (poProperties: Option<Message>, initLines: seq<Message>)
    ensures poProperties == HeaderOf(msgs)
    ensures initLines == InitLines(msgs)
  {
    poProperties := None;
    initLines := [];
    for i := 0 to |msgs|
      invariant poProperties == HeaderOf(msgs[..i])
      invariant initLines == InitLines(msgs[..i])
    {
      assert msgs[..i + 1][..i] == msgs[..i];
      var message := msgs[i];
      if message.msgctxt.None? {
        poProperties := Some(message);
        continue;
      }
      initLines := initLines + [message];
    }
    assert msgs[..|msgs|] == msgs;
  }

  /** The header is absent exactly when every message has a context, and is
      otherwise the last message without one. */
  lemma {:induction false} HeaderOfLast(msgs: seq<Message>)
    ensures HeaderOf(msgs).None? <==> forall k :: 0 <= k < |msgs| ==> msgs[k].msgctxt.Some?
    ensures HeaderOf(msgs).Some? ==> exists k ::
      && 0 <= k < |msgs| && msgs[k] == HeaderOf(msgs).value && msgs[k].msgctxt.None?
      && forall l :: k < l < |msgs| ==> msgs[l].msgctxt.Some?
    decreases |msgs|
  {
    if msgs != [] {
      var front := msgs[..|msgs| - 1];
      HeaderOfLast(front);
      assert forall k :: 0 <= k < |front| ==> front[k] == msgs[k];
      if msgs[|msgs| - 1].msgctxt.Some? && HeaderOf(front).Some? {
        var k :| && 0 <= k < |front| && front[k] == HeaderOf(front).value && front[k].msgctxt.None?
                 && forall l :: k < l < |front| ==> front[l].msgctxt.Some?;
        assert forall l :: k < l < |msgs| ==> msgs[l].msgctxt.Some?;
      }
    }
  }

  /** The init lines are the messages with a context, and only those. */
  lemma {:induction false} InitLinesContexts(msgs: seq<Message>)
    ensures forall m :: m in InitLines(msgs) <==> m in msgs && m.msgctxt.Some?
    decreases |msgs|
  {
    if msgs != [] {
      var front := msgs[..|msgs| - 1];
      InitLinesContexts(front);
      assert msgs == front + [msgs[|msgs| - 1]];
    }
  }

  /** Keeping the messages with a context distributes over concatenation,
      so the init lines keep the catalog's order. */
  lemma {:induction false} InitLinesAppend(a: seq<Message>, b: seq<Message>)
    ensures InitLines(a + b) == InitLines(a) + InitLines(b)
    decreases |b|
  {
    if b == [] {
      assert a + b == a;
    } else {
      var front := b[..|b| - 1];
      var last := b[|b| - 1];
      InitLinesAppend(a, front);
      assert (a + b)[..|a + b| - 1] == a + front;
      assert (a + b)[|a + b| - 1] == last;
    }
  }

  /** One message is an init line exactly when it has a context. */
  lemma InitLinesOne(m: Message)
    ensures InitLines([m]) == if m.msgctxt.Some? then [m] else []
  {
    assert [m][..0] == [];
  }

  /** Without a header every message is an init line, in order. */
  lemma {:induction false} InitLinesAll(msgs: seq<Message>)
    requires forall k :: 0 <= k < |msgs| ==> msgs[k].msgctxt.Some?
    ensures InitLines(msgs) == msgs
    decreases |msgs|
  {
    if msgs != [] {
      var front := msgs[..|msgs| - 1];
      assert forall k :: 0 <= k < |front| ==> front[k] == msgs[k];
      InitLinesAll(front);
      assert msgs == front + [msgs[|msgs| - 1]];
    }
  }

  // ---------------------------------------------------------------------
  // Paths, package and class name

  /** A path as its components; Paths.get(outputDir) is given as one. */
  type Path = seq<string>

  /** Path.resolve of one name: the empty name leaves the path as it is. */
  function Resolve(path: Path, name: string): Path {
    if name == [] then path else path + [name]
  }

  /** The path after resolving each name in turn. */
  function ResolveAll(path: Path, names: seq<string>): Path
    decreases |names|
  {
    if names == [] then path else Resolve(ResolveAll(path, names[..|names| - 1]), names[|names| - 1])
  }

  /** The names that are not empty, in order. */
  function NonEmpty(names: seq<string>): seq<string>
    decreases |names|
  {
    if names == [] then [] else (if names[0] == [] then [] else [names[0]]) + NonEmpty(names[1..])
  }

  lemma {:induction false} NonEmptyAppend(a: seq<string>, b: seq<string>)
    ensures NonEmpty(a + b) == NonEmpty(a) + NonEmpty(b)
    decreases |a|
  {
    if a == [] {
      assert a + b == b;
    } else {
      assert (a + b)[0] == a[0] && (a + b)[1..] == a[1..] + b;
      NonEmptyAppend(a[1..], b);
    }
  }

  /** Resolving names appends the non-empty ones as components. */
  lemma {:induction false} ResolveAllAppends(path: Path, names: seq<string>)
    ensures ResolveAll(path, names) == path + NonEmpty(names)
    decreases |names|
  {
    if names != [] {
      var front := names[..|names| - 1];
      var last := names[|names| - 1];
      ResolveAllAppends(path, front);
      assert names == front + [last];
      NonEmptyAppend(front, [last]);
      assert NonEmpty([last]) == (if last == [] then [] else [last]) + NonEmpty([]);
    }
  }

  lemma {:induction false} NonEmptyMembers(names: seq<string>)
    ensures forall n :: n in NonEmpty(names) <==> n in names && n != []
    decreases |names|
  {
    if names != [] {
      NonEmptyMembers(names[1..]);
      assert names == [names[0]] + names[1..];
    }
  }

  /** Path.normalize, one name at a time: "." is dropped, ".." drops the
      name before it unless that is itself "..", and a leading ".." stays,
      as for a relative path. */
  function NormalizeStep(kept: Path, name: string): Path {
    if name == "." then kept
    else if name == ".." && kept != [] && kept[|kept| - 1] != ".." then kept[..|kept| - 1]
    else kept + [name]
  }

  /** The names after kept, normalised onto it in turn. */
  function NormalizeFrom(kept: Path, names: Path): Path
    decreases |names|
  {
    if names == [] then kept else NormalizeFrom(NormalizeStep(kept, names[0]), names[1..])
  }

  /** A normal path: no "." and no ".." after a name other than "..". */
  predicate IsNormal(p: Path) {
    && (forall k :: 0 <= k < |p| ==> p[k] != ".")
    && (forall k :: 0 < k < |p| && p[k] == ".." ==> p[k - 1] == "..")
  }

  /** Path.normalize: the result is normal. */
  function Normalize(p: Path): (r: Path)
    ensures IsNormal(r)
  {
    NormalizeFromNormal([], p);
    NormalizeFrom([], p)
  }

  lemma NormalizeStepNormal(kept: Path, name: string)
    requires IsNormal(kept)
    ensures IsNormal(NormalizeStep(kept, name))
  {
    var r := NormalizeStep(kept, name);
    if name != "." && !(name == ".." && kept != [] && kept[|kept| - 1] != "..") {
      assert r == kept + [name];
      forall k | 0 < k < |r| && r[k] == ".." ensures r[k - 1] == ".." {
        if k < |kept| { assert r[k] == kept[k] && r[k - 1] == kept[k - 1]; }
      }
    }
  }

  lemma {:induction false} NormalizeFromNormal(kept: Path, names: Path)
    requires IsNormal(kept)
    ensures IsNormal(NormalizeFrom(kept, names))
    decreases |names|
  {
    if names != [] {
      NormalizeStepNormal(kept, names[0]);
      NormalizeFromNormal(NormalizeStep(kept, names[0]), names[1..]);
    }
  }

  /** Normalising a normal path onto kept, where kept followed by it is
      normal, only appends it. */
  lemma {:induction false} NormalizeFromOfNormal(kept: Path, names: Path)
    requires IsNormal(kept + names)
    ensures NormalizeFrom(kept, names) == kept + names
    decreases |names|
  {
    if names != [] {
      var p := kept + names;
      assert p[|kept|] == names[0];
      if names[0] == ".." && kept != [] {
        assert p[|kept| - 1] == kept[|kept| - 1];
      }
      assert NormalizeStep(kept, names[0]) == kept + [names[0]];
      assert (kept + [names[0]]) + names[1..] == p;
      NormalizeFromOfNormal(kept + [names[0]], names[1..]);
    }
  }

  /** Normalising a normal path changes nothing, so normalize is
      idempotent. */
  lemma NormalizeIdempotent(p: Path)
    ensures IsNormal(p) ==> Normalize(p) == p
    ensures Normalize(Normalize(p)) == Normalize(p)
  {
    if IsNormal(p) {
      assert [] + p == p;
      NormalizeFromOfNormal([], p);
    }
    assert [] + Normalize(p) == Normalize(p);
    NormalizeFromOfNormal([], Normalize(p));
  }

  /** Normalising a + b is normalising a, then b onto the result. */
  lemma {:induction false} NormalizeFromAppend(kept: Path, a: Path, b: Path)
    ensures NormalizeFrom(kept, a + b) == NormalizeFrom(NormalizeFrom(kept, a), b)
    decreases |a|
  {
    if a == [] {
      assert a + b == b;
    } else {
      assert (a + b)[0] == a[0] && (a + b)[1..] == a[1..] + b;
      NormalizeFromAppend(NormalizeStep(kept, a[0]), a[1..], b);
    }
  }

  /** Names other than "." and ".." are appended as they are. */
  lemma {:induction false} NormalizeFromPlain(kept: Path, names: Path)
    requires forall k :: 0 <= k < |names| ==> names[k] != "." && names[k] != ".."
    ensures NormalizeFrom(kept, names) == kept + names
    decreases |names|
  {
    if names != [] {
      NormalizeFromPlain(kept + [names[0]], names[1..]);
      assert (kept + [names[0]]) + names[1..] == kept + names;
    }
  }

  /** Normalising outputDir followed by names without "." or "..": the
      names come after the normalised outputDir. */
  lemma NormalizeBelow(outputDir: Path, names: Path)
    requires forall k :: 0 <= k < |names| ==> names[k] != "." && names[k] != ".."
    ensures Normalize(outputDir + names) == Normalize(outputDir) + names
  {
    NormalizeFromAppend([], outputDir, names);
    NormalizeFromPlain(NormalizeFrom([], outputDir), names);
  }

  /** Where the generated class goes and what it is called. */
  datatype Target = Target(file: Path, packageName: string, className: string)

  /** resourceName up to its last '.', or "" without one. */
  function PackageOf(resourceName: string): (r: string)
    ensures '.' !in resourceName ==> r == []
    ensures '.' in resourceName ==>
      |r| < |resourceName| && r == resourceName[..|r|] && resourceName[|r|] == '.' && '.' !in resourceName[|r| + 1..]
  {
    var lastDotPos := LastIndexOf(resourceName, '.');
    if lastDotPos == -1 then "" else resourceName[..lastDotPos]
  }

  /** The file, package and class generateJavaFile writes, or the
      exception it throws first: the class file sits in a normal
      directory, and the class name is a name without '.' followed by "_"
      and the language. */
  function TargetOf(outputDir: Path, resourceName: string, language: string): (r: Result<Target, GeneratorError>)
    ensures r.Failure? ==> r.error == ResourceNameWithoutClass
    ensures r.Success? ==>
      && |r.value.file| > 0 && r.value.file[|r.value.file| - 1] == r.value.className + ".java"
      && IsNormal(r.value.file[..|r.value.file| - 1])
      && exists name :: '.' !in name && r.value.className == name + "_" + language
  {
    var packageNames := Split(resourceName, '.');
    if packageNames == [] then Failure(ResourceNameWithoutClass)
    else
      var className := packageNames[|packageNames| - 1] + "_" + language;
      var dir := Normalize(ResolveAll(outputDir, packageNames[..|packageNames| - 1]));
      var file := Resolve(dir, className + ".java");
      assert file[..|file| - 1] == dir;
      Success(Target(file, PackageOf(resourceName), className))
  }

  /** generateJavaFile's path loop, class name and package. */
  method Locate(outputDir: Path, resourceName: string, language: string) returns (r: Result<Target, GeneratorError>)
    ensures r == TargetOf(outputDir, resourceName, language)
  {
    var path := outputDir;
    var packageNames := Split(resourceName, '.');
    var i := 0;
    while i < |packageNames| - 1
      invariant 0 <= i <= |packageNames|
      invariant i <= |packageNames| - 1 || i == 0
      invariant path == ResolveAll(outputDir, packageNames[..i])
    {
      assert packageNames[..i + 1][..i] == packageNames[..i];
      path := Resolve(path, packageNames[i]);
      i := i + 1;
    }
    path := Normalize(path);
    if |packageNames| == 0 {
      return Failure(ResourceNameWithoutClass);
    }
    var className := packageNames[|packageNames| - 1] + "_" + language;
    path := Resolve(path, className + ".java");
    var lastDotPos := LastIndexOf(resourceName, '.');
    var fullPackagePath := "";
    if lastDotPos != -1 {
      fullPackagePath := resourceName[..lastDotPos];
    }
    return Success(Target(path, fullPackagePath, className));
  }

  /** The only resource names with no class name are the non-empty runs of
      '.'. */
  lemma TargetFails(outputDir: Path, resourceName: string, language: string)
    ensures TargetOf(outputDir, resourceName, language).Failure? <==>
      resourceName != [] && forall k :: 0 <= k < |resourceName| ==> resourceName[k] == '.'
  {
    SplitEmpty(resourceName, '.');
  }

  /** The pieces before the last '.', and the one after it. */
  lemma PiecesAtLastDot(s: string)
    ensures LastIndexOf(s, '.') == -1 ==> Pieces(s, '.') == [s]
    ensures LastIndexOf(s, '.') != -1 ==>
      var d := LastIndexOf(s, '.');
      Pieces(s, '.') == Pieces(s[..d], '.') + [s[d + 1..]]
  {
    var d := LastIndexOf(s, '.');
    if d == -1 {
      PiecesOfPlain(s, '.');
    } else {
      assert s == s[..d] + ['.'] + s[d + 1..];
      PiecesAppend(s[..d], s[d + 1..], '.');
      PiecesOfPlain(s[d + 1..], '.');
    }
  }

  /** The class is the last name plus "_" and the language, and its file
      sits in the normalised outputDir, one directory per non-empty name
      before the last; for a resource name that does not end with '.', the
      package is those names joined with '.', so package, '.' and the last
      name give the resource name back. */
  lemma TargetLayout(outputDir: Path, resourceName: string, language: string)
    requires TargetOf(outputDir, resourceName, language).Success?
    ensures var t := TargetOf(outputDir, resourceName, language).value;
      var names := Split(resourceName, '.');
      var n := |names|;
      && n > 0
      && t.className == names[n - 1] + "_" + language
      && t.file == Normalize(outputDir) + NonEmpty(names[..n - 1]) + [t.className + ".java"]
      && ((resourceName == [] || resourceName[|resourceName| - 1] != '.') ==>
            && t.packageName == JoinWith(names[..n - 1], '.')
            && resourceName == (if '.' in resourceName then t.packageName + "." + names[n - 1] else names[n - 1]))
  {
    var names := Split(resourceName, '.');
    var n := |names|;
    var front := names[..n - 1];
    ResolveAllAppends(outputDir, front);
    NonEmptyPlain(front);
    NormalizeBelow(outputDir, NonEmpty(front));
    if resourceName == [] || resourceName[|resourceName| - 1] != '.' {
      NameRoundTrip(resourceName);
    }
  }

  /** The non-empty names of a split on '.' are neither "." nor "..",
      and hold no '.'. */
  lemma NonEmptyPlain(names: seq<string>)
    requires forall k :: 0 <= k < |names| ==> '.' !in names[k]
    ensures forall k :: 0 <= k < |NonEmpty(names)| ==>
      NonEmpty(names)[k] != [] && '.' !in NonEmpty(names)[k] && NonEmpty(names)[k] != "." && NonEmpty(names)[k] != ".."
  {
    NonEmptyMembers(names);
    forall k | 0 <= k < |NonEmpty(names)|
      ensures NonEmpty(names)[k] != [] && '.' !in NonEmpty(names)[k] && NonEmpty(names)[k] != "." && NonEmpty(names)[k] != ".."
    {
      var x := NonEmpty(names)[k];
      assert x in NonEmpty(names);
      var j :| 0 <= j < |names| && names[j] == x;
      assert "."[0] == '.' && ".."[0] == '.';
    }
  }

  /** The package is the names before the last joined with '.'; with '.'
      and the last name it gives back a resource name that does not end
      with '.'. */
  lemma NameRoundTrip(resourceName: string)
    requires resourceName == [] || resourceName[|resourceName| - 1] != '.'
    ensures var names := Split(resourceName, '.');
      var n := |names|;
      && n > 0
      && PackageOf(resourceName) == JoinWith(names[..n - 1], '.')
      && resourceName == (if '.' in resourceName then PackageOf(resourceName) + "." + names[n - 1] else names[n - 1])
  {
    SplitWhole(resourceName, '.');
    PiecesAtLastDot(resourceName);
    var names := Split(resourceName, '.');
    var n := |names|;
    var d := LastIndexOf(resourceName, '.');
    if d != -1 {
      assert names[..n - 1] == Pieces(resourceName[..d], '.');
      PiecesJoin(resourceName[..d], '.');
      assert resourceName == resourceName[..d] + "." + resourceName[d + 1..];
    } else {
      assert names[..n - 1] == [];
    }
  }

  /** The class file sits below the normalised outputDir, and every
      directory added there is a non-empty name without '.'. */
  lemma TargetDirectories(outputDir: Path, resourceName: string, language: string)
    requires TargetOf(outputDir, resourceName, language).Success?
    ensures var t := TargetOf(outputDir, resourceName, language).value;
      var dir := Normalize(outputDir);
      && |t.file| > |dir| && t.file[..|dir|] == dir
      && forall k :: |dir| <= k < |t.file| - 1 ==> t.file[k] != [] && '.' !in t.file[k]
  {
    TargetLayout(outputDir, resourceName, language);
    var names := Split(resourceName, '.');
    var front := names[..|names| - 1];
    NonEmptyPlain(front);
    var t := TargetOf(outputDir, resourceName, language).value;
    var dir := Normalize(outputDir);
    forall k | |dir| <= k < |t.file| - 1
      ensures t.file[k] != [] && '.' !in t.file[k]
    {
      assert t.file[k] == NonEmpty(front)[k - |dir|];
    }
  }

  // ---------------------------------------------------------------------
  // The plural formula

  predicate IsPluralForms(line: string) {
    StartsWith(line, "Plural-Forms:")
  }

  /** The text after the first "plural=" of the line, trimmed. */
  function FormulaText(line: string): string
    requires IndexOf(line, "plural=") != -1
  {
    Trim(line[IndexOf(line, "plural=") + 7..])
  }

  /** The text without one trailing ';': at most one ';' goes, and only
      from the end. */
  function DropSemicolon(v: string): (r: string)
    ensures r == v || r + ";" == v
    ensures r != v <==> v != [] && v[|v| - 1] == ';'
  {
    if v != [] && v[|v| - 1] == ';' then
      assert v[..|v| - 1] + ";" == v;
      v[..|v| - 1]
    else v
  }

  /** The formula with "? 0 : 1" added when it has no '?': it always holds
      a '?', either its own or the one added, and keeps the text as a
      prefix. */
  function Completed(v: string): (r: string)
    ensures '?' in r
    ensures StartsWith(r, v)
    ensures '?' in v <==> r == v
    ensures '?' !in v ==> r == v + "? 0 : 1"
  {
    if '?' in v then v
    else
      assert (v + "? 0 : 1")[|v|] == '?';
      assert (v + "? 0 : 1")[..|v|] == v;
      v + "? 0 : 1"
  }

  /** The plural formula of a Plural-Forms line. */
  function FormulaOf(line: string): string
    requires IndexOf(line, "plural=") != -1
  {
    Completed(DropSemicolon(FormulaText(line)))
  }

  /** The loop over the header's lines from i, with the formula so far. */
  function PluralFrom(lines: seq<string>, i: nat, pluralEval: Option<string>): (r: Result<Option<string>, GeneratorError>)
    requires i <= |lines|
    ensures r.Failure? ==> r.error == PluralFormulaMissing
    ensures r.Success? && r.value.Some? ==> r.value == pluralEval || '?' in r.value.value
    decreases |lines| - i
  {
    if i == |lines| then Success(pluralEval)
    else if !IsPluralForms(lines[i]) then PluralFrom(lines, i + 1, pluralEval)
    else if IndexOf(lines[i], "plural=") == -1 then Failure(PluralFormulaMissing)
    else PluralFrom(lines, i + 1, Some(FormulaOf(lines[i])))
  }

  /** pluralEval for a header, or null when there is none. */
  function PluralEvalOf(poProperties: Option<Message>): Result<Option<string>, GeneratorError> {
    if poProperties.None? then Success(None)
    else PluralFrom(Split(poProperties.value.msgstr, '\n'), 0, None)
  }

  /** generateJavaFile's loop over the header's lines. */
  method PluralEval(poProperties: Option<Message>) returns (r: Result<Option<string>, GeneratorError>)
    ensures r == PluralEvalOf(poProperties)
  {
    var pluralEval: Option<string> := None;
    if poProperties.Some? {
      var lines := Split(poProperties.value.msgstr, '\n');
      for i := 0 to |lines|
        invariant PluralEvalOf(poProperties) == PluralFrom(lines, i, pluralEval)
      {
        var str := lines[i];
        if StartsWith(str, "Plural-Forms:") {
          var pluralFormPrefix := "plural=";
          var pluralFormulaPos := IndexOf(str, pluralFormPrefix);
          if pluralFormulaPos == -1 {
            return Failure(PluralFormulaMissing);
          }
          var formula := str[pluralFormulaPos + |pluralFormPrefix|..];
          formula := Trim(formula);
          assert formula == FormulaText(str);
          if formula != [] && formula[|formula| - 1] == ';' {
            formula := formula[..|formula| - 1];
          }
          assert formula == DropSemicolon(FormulaText(str));
          if '?' !in formula {
            formula := formula + "? 0 : 1";
          }
          assert formula == FormulaOf(str);
          pluralEval := Some(formula);
        }
      }
    }
    return Success(pluralEval);
  }

  /** The loop fails exactly when some Plural-Forms line lacks "plural=". */
  lemma {:induction false} PluralFromFails(lines: seq<string>, i: nat, pluralEval: Option<string>)
    requires i <= |lines|
    ensures PluralFrom(lines, i, pluralEval).Failure? <==>
      exists k :: i <= k < |lines| && IsPluralForms(lines[k]) && IndexOf(lines[k], "plural=") == -1
    decreases |lines| - i
  {
    hide IsPluralForms, IndexOf, FormulaOf;
    if i < |lines| {
      if !IsPluralForms(lines[i]) {
        PluralFromFails(lines, i + 1, pluralEval);
      } else if IndexOf(lines[i], "plural=") != -1 {
        PluralFromFails(lines, i + 1, Some(FormulaOf(lines[i])));
      }
    }
  }

  /** Without a Plural-Forms line the formula stays as it was. */
  lemma {:induction false} PluralFromUnchanged(lines: seq<string>, i: nat, pluralEval: Option<string>)
    requires i <= |lines|
    requires forall k :: i <= k < |lines| ==> !IsPluralForms(lines[k])
    ensures PluralFrom(lines, i, pluralEval) == Success(pluralEval)
    decreases |lines| - i
  {
    if i < |lines| {
      PluralFromUnchanged(lines, i + 1, pluralEval);
    }
  }

  /** Once a formula is read, or with a Plural-Forms line still to come, a
      successful loop ends with a formula. */
  lemma {:induction false} PluralFromSome(lines: seq<string>, i: nat, pluralEval: Option<string>)
    requires i <= |lines|
    requires pluralEval.Some? || exists k :: i <= k < |lines| && IsPluralForms(lines[k])
    requires PluralFrom(lines, i, pluralEval).Success?
    ensures PluralFrom(lines, i, pluralEval).value.Some?
    decreases |lines| - i
  {
    if i < |lines| {
      if !IsPluralForms(lines[i]) {
        PluralFromSome(lines, i + 1, pluralEval);
      } else {
        PluralFromSome(lines, i + 1, Some(FormulaOf(lines[i])));
      }
    }
  }

  /** When the loop succeeds, the formula is that of the last Plural-Forms
      line. */
  lemma {:induction false} PluralFromLast(lines: seq<string>, i: nat, pluralEval: Option<string>, k: nat)
    requires i <= k < |lines| && IsPluralForms(lines[k]) && IndexOf(lines[k], "plural=") != -1
    requires forall l :: k < l < |lines| ==> !IsPluralForms(lines[l])
    requires PluralFrom(lines, i, pluralEval).Success?
    ensures PluralFrom(lines, i, pluralEval) == Success(Some(FormulaOf(lines[k])))
    decreases |lines| - i
  {
    if i < k {
      if !IsPluralForms(lines[i]) {
        PluralFromLast(lines, i + 1, pluralEval, k);
      } else {
        PluralFromLast(lines, i + 1, Some(FormulaOf(lines[i])), k);
      }
    } else {
      PluralFromUnchanged(lines, k + 1, Some(FormulaOf(lines[k])));
    }
  }

  /** Line k is the last Plural-Forms line, and it has a formula. */
  predicate LastPluralForms(lines: seq<string>, k: nat) {
    && k < |lines| && IsPluralForms(lines[k]) && IndexOf(lines[k], "plural=") != -1
    && forall l :: k < l < |lines| ==> !IsPluralForms(lines[l])
  }

  /** pluralEval is null exactly when there is no header or no line of it
      is a Plural-Forms line; an exception exactly when one such line has
      no "plural="; otherwise the formula of the last such line. */
  lemma PluralEvalSpec(poProperties: Option<Message>)
    ensures var lines := if poProperties.None? then [] else Split(poProperties.value.msgstr, '\n');
      && (PluralEvalOf(poProperties).Failure? <==>
           exists k :: 0 <= k < |lines| && IsPluralForms(lines[k]) && IndexOf(lines[k], "plural=") == -1)
      && (PluralEvalOf(poProperties) == Success(None) <==> forall k :: 0 <= k < |lines| ==> !IsPluralForms(lines[k]))
      && forall k: nat :: LastPluralForms(lines, k) && PluralEvalOf(poProperties).Success? ==>
           PluralEvalOf(poProperties) == Success(Some(FormulaOf(lines[k])))
  {
    if poProperties.Some? {
      var lines := Split(poProperties.value.msgstr, '\n');
      PluralFromFails(lines, 0, None);
      if forall k :: 0 <= k < |lines| ==> !IsPluralForms(lines[k]) {
        PluralFromUnchanged(lines, 0, None);
      } else if PluralFrom(lines, 0, None).Success? {
        PluralFromSome(lines, 0, None);
      }
      forall k: nat | LastPluralForms(lines, k) && PluralEvalOf(poProperties).Success?
        ensures PluralEvalOf(poProperties) == Success(Some(FormulaOf(lines[k])))
      {
        PluralFromLast(lines, 0, None, k);
      }
    }
  }
}
