/** Worked examples of where generateJavaFile puts the class. */
module GeneratorExamples {
  import opened Wrappers
  import opened JavaString
  import opened JavaGeneratorMojo

  lemma SplitPackaged()
    ensures Split("ui.Msg", '.') == ["ui", "Msg"]
    ensures LastIndexOf("ui.Msg", '.') == 2
  {
    var s := "ui.Msg";
    assert s == "ui" + ['.'] + "Msg";
    PiecesAppend("ui", "Msg", '.');
    PiecesOfPlain("ui", '.');
    PiecesOfPlain("Msg", '.');
    assert Pieces(s, '.') == ["ui", "Msg"];
  }

  /** "ui.Msg" in "en": the class Msg_en in package ui, in
      the directory ui. */
  lemma PackagedResource()
    ensures TargetOf(["out"], "ui.Msg", "en") ==
      Success(Target(["out", "ui", "Msg" + "_" + "en" + ".java"], "ui", "Msg" + "_" + "en"))
  {
    assert IsNormal(["out"]);
    NormalizeIdempotent(["out"]);
    assert "ui" + "." + "Msg" == "ui.Msg";
    var name := "Msg" + "_" + "en" + ".java";
    assert ["out"] + ["ui", name] == ["out", "ui", name];
    OnePackage(["out"], "ui", "Msg", "en");
  }

  /** A resource name pkg.Cls, both plain names: the class Cls_lang in
      package pkg, in the directory pkg below the normalised outputDir. */
  lemma OnePackage(outputDir: Path, pkg: string, cls: string, language: string)
    requires pkg != [] && cls != [] && '.' !in pkg && '.' !in cls
    ensures TargetOf(outputDir, pkg + "." + cls, language) ==
      Success(Target(Normalize(outputDir) + [pkg, cls + "_" + language + ".java"], pkg, cls + "_" + language))
  {
    var s := pkg + "." + cls;
    SplitOnePackage(pkg, cls);
    NonEmptyOne(pkg);
    assert [pkg, cls][..1] == [pkg];
    assert JoinWith([pkg], '.') == pkg;
    hide *;
    TargetFails(outputDir, s, language);
    TargetLayout(outputDir, s, language);
    var t := TargetOf(outputDir, s, language).value;
    assert t.className == cls + "_" + language;
    assert t.file == Normalize(outputDir) + [pkg] + [cls + "_" + language + ".java"];
    assert Normalize(outputDir) + [pkg] + [cls + "_" + language + ".java"] == Normalize(outputDir) + [pkg, cls + "_" + language + ".java"];
    assert t.packageName == pkg;
  }

  lemma SplitOnePackage(pkg: string, cls: string)
    requires pkg != [] && cls != [] && '.' !in pkg && '.' !in cls
    ensures Split(pkg + "." + cls, '.') == [pkg, cls]
    ensures var s := pkg + "." + cls; s != [] && s[|s| - 1] != '.' && s[0] != '.' && '.' in s
  {
    var s := pkg + "." + cls;
    assert s == pkg + ['.'] + cls;
    PiecesAppend(pkg, cls, '.');
    PiecesOfPlain(pkg, '.');
    PiecesOfPlain(cls, '.');
    assert s[|s| - 1] == cls[|cls| - 1];
    assert s[0] == pkg[0];
    assert s[|pkg|] == '.';
    SplitWhole(s, '.');
  }

  lemma SplitTrailingDot()
    ensures Split("a.b.", '.') == ["a", "b"]
    ensures LastIndexOf("a.b.", '.') == 3
  {
    var s := "a.b.";
    assert s == "a" + ['.'] + ("b" + ['.'] + "");
    PiecesAppend("a", "b" + ['.'] + "", '.');
    PiecesAppend("b", "", '.');
    PiecesOfPlain("a", '.');
    PiecesOfPlain("b", '.');
    assert Pieces(s, '.') == ["a", "b", ""];
    assert DropTrailingEmpty(["a", "b", ""]) == ["a", "b"];
  }

  /** A trailing '.' is dropped by split but not by lastIndexOf: "a.b." puts
      the class b_en in the directory a, and declares the package a.b. */
  lemma TrailingDotResource()
    ensures TargetOf([], "a.b.", "en") == Success(Target(["a", "b" + "_" + "en" + ".java"], "a.b", "b" + "_" + "en"))
  {
    var s := "a.b.";
    SplitTrailingDot();
    assert PackageOf(s) == "a.b";
    assert ["a", "b"][..1] == ["a"];
    assert ["a"][..0] == [];
    assert ResolveAll([], ["a"]) == ["a"];
    var names := Split(s, '.');
    assert names[|names| - 1] == "b" && names[..|names| - 1] == ["a"];
    var cls := names[|names| - 1] + "_" + "en";
    assert TargetOf([], s, "en") == Success(Target(Resolve(Normalize(ResolveAll([], names[..|names| - 1])), cls + ".java"), PackageOf(s), cls));
    assert IsNormal(["a"]);
    NormalizeIdempotent(["a"]);
    assert cls == "b" + "_" + "en";
    assert Resolve(["a"], cls + ".java") == ["a", cls + ".java"];
  }

  /** normalize drops the leading "." of ./i18n/generated. */
  lemma NormalizeDotDir()
    ensures Normalize([".", "i18n", "generated"]) == ["i18n", "generated"]
  {
    var dir := [".", "i18n", "generated"];
    var plain := ["i18n", "generated"];
    assert dir[0] == "." && dir[1..] == plain;
    assert NormalizeStep([], ".") == [];
    assert Normalize(dir) == NormalizeFrom([], plain);
    assert IsNormal(plain);
    NormalizeIdempotent(plain);
  }

  /** The usage text's ./i18n/generated with com.indigobyte.i18n.messages
      shortened to ui.Msg: the class goes to
      i18n/generated/ui/Msg_en.java. */
  lemma DotRelativeOutputDir()
    ensures TargetOf([".", "i18n", "generated"], "ui.Msg", "en") ==
      Success(Target(["i18n", "generated", "ui", "Msg" + "_" + "en" + ".java"], "ui", "Msg" + "_" + "en"))
  {
    NormalizeDotDir();
    assert "ui" + "." + "Msg" == "ui.Msg";
    var name := "Msg" + "_" + "en" + ".java";
    assert ["i18n", "generated"] + ["ui", name] == ["i18n", "generated", "ui", name];
    OnePackage([".", "i18n", "generated"], "ui", "Msg", "en");
  }

  lemma NonEmptyOne(name: string)
    requires name != []
    ensures NonEmpty([name]) == [name]
  {
    assert [name][1..] == [];
  }
}
