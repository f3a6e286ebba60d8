/** Worked cases of the sniff on small token streams: matching and
    mismatching names, the Behat sub-context convention, anonymous classes,
    and exempt extensions. */
module Scenarios {
  import opened Wrappers
  import opened PhpStrings
  import opened Tokens
  import opened ClassFileName

  /** `<?php` newline `class <name> {}` as the host tokenizes it. The
      ensures only name the two entries the scenarios rely on, so that the
      solver need not unfold the literal; they make no claim of their own. */
  function ClassFile(name: string): (tokens: seq<Token>)
    ensures |tokens| == 7 && tokens[1] == Token(ClassKeyword, "class")
    ensures tokens[3] == Token(Identifier, name)
  {
    [ Token(Other("T_OPEN_TAG"), "<?php\n"),
      Token(ClassKeyword, "class"),
      Token(Whitespace, " "),
      Token(Identifier, name),
      Token(Whitespace, " "),
      Token(Other("T_OPEN_CURLY_BRACKET"), "{"),
      Token(Other("T_CLOSE_CURLY_BRACKET"), "}") ]
  }

  /** `<?php` newline `$x = new class {};`: the keyword is followed by a
      brace, not a name. PHP_CodeSniffer 3 retokenizes this `class` as
      `T_ANON_CLASS`, so the host never calls the sniff on it; the scenario
      exercises `Process` directly on the stream as written here. As for `ClassFile`, the ensures only shortcut the
      literal for the solver. */
  function AnonymousClassFile(): (tokens: seq<Token>)
    ensures |tokens| == 12 && tokens[7].kind == ClassKeyword
  {
    [ Token(Other("T_OPEN_TAG"), "<?php\n"),
      Token(Other("T_VARIABLE"), "$x"),
      Token(Whitespace, " "),
      Token(Other("T_EQUAL"), "="),
      Token(Whitespace, " "),
      Token(Other("T_NEW"), "new"),
      Token(Whitespace, " "),
      Token(ClassKeyword, "class"),
      Token(Whitespace, " "),
      Token(Other("T_OPEN_CURLY_BRACKET"), "{"),
      Token(Other("T_CLOSE_CURLY_BRACKET"), "}"),
      Token(Other("T_SEMICOLON"), ";") ]
  }

  /** The path `dir/stem.ext`. When neither part holds a slash and the
      extension has no dot, the host's base-name and extension helpers
      recover exactly `stem` and `ext` from it, whatever the directory. */
  function PathOf(dir: string, stem: string, ext: string): (path: string)
    ensures '/' !in stem && '/' !in ext && '.' !in ext ==>
              && Basename(path) == stem + "." + ext
              && StripExtension(Basename(path)) == stem
              && Extension(Basename(path)) == ext
  {
    if '/' !in stem && '/' !in ext && '.' !in ext then
      NoSlashInJoin(stem, ext);
      BasenameAfterSlash(dir, stem + "." + ext);
      StemExtensionSplit(stem, ext);
      dir + "/" + (stem + "." + ext)
    else
      dir + "/" + stem + "." + ext
  }

  /** On a one-class file the verdict depends only on the gates and on the
      declared name. */
  lemma ClassFileVerdict(path: string, name: string, version: int)
    ensures Process(ClassFile(name), 1, path, version).violation.Some? <==>
            version >= MinCoreVersion && IsCheckedFile(path) && name != ExpectedNameFor(path)
  {
    ReportsIffNameDiffers(ClassFile(name), 1, path, version, 3);
  }

  /** The first datum of a violation names the declaration kind with a
      capital letter. */
  lemma DeclarationLabels()
    ensures UcFirst("class") == "Class"
    ensures UcFirst("interface") == "Interface"
    ensures UcFirst("trait") == "Trait"
  {
  }

  /** `dir/stem.ext` declaring `class name`, for any whitelisted extension
      and any stem that is not a Behat one, is accepted exactly when `name`
      is the stem; otherwise it is reported once, at the keyword, with the
      data `Class`, `class`, stem. */
  lemma PlainClassFile(dir: string, stem: string, ext: string, name: string, version: int)
    requires '/' !in stem && stem != "" && !IsSuffix(BehatSuffix, stem)
    requires ext in PhpExtensions && version >= MinCoreVersion
    ensures Process(ClassFile(name), 1, PathOf(dir, stem, ext), version).violation.None? <==> name == stem
    ensures name != stem ==>
              Process(ClassFile(name), 1, PathOf(dir, stem, ext), version).violation ==
              Some(Violation(1, "NoMatch", NoMatchMessage, ["Class", "class", stem]))
  {
    var path := PathOf(dir, stem, ext);
    assert '.' !in ext && '/' !in ext;
    ClassFileVerdict(path, name, version);
    DeclarationLabels();
  }

  /** `dir/m.behat.ext` must declare the camel-cased `m` followed by
      `SubContext`. */
  lemma BehatSubContextFile(dir: string, moduleName: string, ext: string, name: string, version: int)
    requires '/' !in moduleName && ext in PhpExtensions && version >= MinCoreVersion
    ensures ExpectedNameFor(PathOf(dir, moduleName + BehatSuffix, ext)) == CamelFromWords(moduleName, true) + SubContextSuffix
    ensures Process(ClassFile(name), 1, PathOf(dir, moduleName + BehatSuffix, ext), version).violation.None? <==>
            name == CamelFromWords(moduleName, true) + SubContextSuffix
  {
    var stem := moduleName + BehatSuffix;
    BehatStemHasNoSlash(moduleName);
    var path := PathOf(dir, stem, ext);
    assert '.' !in ext && '/' !in ext;
    assert StripExtension(Basename(path)) == stem;
    SubContextNameIsCamelWords(moduleName);
    ClassFileVerdict(path, name, version);
  }

  /** Appending `.behat` to a slash-free name keeps it slash-free. */
  lemma BehatStemHasNoSlash(moduleName: string)
    requires '/' !in moduleName
    ensures '/' !in moduleName + BehatSuffix
  {
    NoSlashInJoin(moduleName, "behat");
    assert moduleName + BehatSuffix == moduleName + "." + "behat";
  }

  /** Two underscore-joined words camel-case to both words capitalised. */
  lemma CamelOfTwoWords(a: string, b: string)
    requires '_' !in a && '_' !in b
    ensures CamelFromWords(a + ['_'] + b, true) == UcFirst(a) + UcFirst(b)
  {
    var words := Split(a + ['_'] + b, '_');
    SplitOnce(a, b, '_');
    assert words[1..] == [b];
    assert ConcatCapitalized([b]) == UcFirst(b) + ConcatCapitalized([]);
  }

  /** `my_module` camel-cases to `MyModule`, so `my_module.behat.inc` must
      declare `MyModuleSubContext`. The two words are parameters fixed by
      the requires, and the proof goes through the helpers below, only so
      that the solver does not try to evaluate `Split` on a string literal. */
  lemma MyModuleSubContext(first: string, second: string)
    requires first == "my" && second == "module"
    ensures CamelFromWords(first + "_" + second, true) + SubContextSuffix == "MyModuleSubContext"
  {
    CapitalisedWords(first, second);
    SubContextOfTwoWords(first, second, "My", "Module");
    MyModuleSpelling();
  }

  /** The sniff's own expectation: a file with base name `my_module.behat`
      must declare `MyModuleSubContext`. */
  lemma MyModuleBehatName(first: string, second: string)
    requires first == "my" && second == "module"
    ensures ExpectedName(first + "_" + second + BehatSuffix) == "MyModuleSubContext"
  {
    MyModuleSubContext(first, second);
    SubContextNameIsCamelWords(first + "_" + second);
  }

  /** Two capitalised underscore-free words, followed by `SubContext`. */
  lemma SubContextOfTwoWords(a: string, b: string, ua: string, ub: string)
    requires '_' !in a && '_' !in b && UcFirst(a) == ua && UcFirst(b) == ub
    ensures CamelFromWords(a + "_" + b, true) + SubContextSuffix == ua + ub + SubContextSuffix
  {
    assert a + "_" + b == a + ['_'] + b;
    CamelOfTwoWords(a, b);
  }

  /** The expected class name, spelled out. */
  lemma MyModuleSpelling()
    ensures "My" + "Module" + SubContextSuffix == "MyModuleSubContext"
  {
  }

  /** The words `my` and `module` capitalise to `My` and `Module`. */
  lemma CapitalisedWords(first: string, second: string)
    requires first == "my" && second == "module"
    ensures UcFirst(first) == "My" && UcFirst(second) == "Module"
    ensures '_' !in first && '_' !in second
  {
    var m, y, odule := 'm', "y", "odule";
    assert UpperChar(m) == 'M';
    assert first == [m] + y && second == [m] + odule;
    UcFirstCons(m, y);
    UcFirstCons(m, odule);
  }

  /** An anonymous class has no name to compare and is never reported. */
  lemma AnonymousClassAccepted(path: string, version: int)
    ensures Process(AnonymousClassFile(), 7, path, version).violation.None?
  {
    ReportsIffNameDiffers(AnonymousClassFile(), 7, path, version, 9);
  }

  /** The whitelist is case-sensitive: `Foo.PHP`, `Foo.Inc` and any other
      extension outside it are exempt, whatever class they declare. */
  lemma OtherExtensionExempt(dir: string, stem: string, ext: string, name: string, version: int)
    requires '/' !in stem && '.' !in ext && '/' !in ext
    requires ext !in PhpExtensions
    ensures Process(ClassFile(name), 1, PathOf(dir, stem, ext), version).violation.None?
  {
    var path := PathOf(dir, stem, ext);
    assert Extension(Basename(path)) == ext;
  }

  /** The extension test is case-sensitive: a file `stem.PHP` is never
      reported, while the same class in `stem.php` is. */
  lemma ExtensionCaseMatters(dir: string, stem: string, name: string, version: int)
    requires '/' !in stem && stem != "" && !IsSuffix(BehatSuffix, stem)
    requires name != stem && version >= MinCoreVersion
    ensures Process(ClassFile(name), 1, PathOf(dir, stem, "PHP"), version).violation.None?
    ensures Process(ClassFile(name), 1, PathOf(dir, stem, "php"), version).violation.Some?
  {
    var upper, lower := "PHP", "php";
    assert upper !in PhpExtensions && lower in PhpExtensions;
    assert '.' !in upper && '/' !in upper;
    OtherExtensionExempt(dir, stem, upper, name, version);
    PlainClassFile(dir, stem, lower, name, version);
  }
}
