/** The Drupal `ClassFileName` sniff: the first class, interface or trait
    declared in a PHP-carrying file of a Drupal 8+ project must be named
    after the file. One call inspects the declaration keyword at `cursor`,
    reports at most one `NoMatch` violation, and always tells the host to
    skip the rest of the file. */
module ClassFileName {
  import opened Wrappers
  import opened PhpStrings
  import opened Tokens

  /** An error handed to the host's `addError`: where, which code, the
      message template and the values substituted into it. */
  datatype Violation = Violation(position: nat, code: string, message: string, data: seq<string>)

  /** What one call returns: the violation it reports, if any, and the
      token index the host should resume this sniff at. */
  datatype Outcome = Outcome(violation: Option<Violation>, next: nat)

  const NoMatchCode := "NoMatch"
  const NoMatchMessage := "%s name doesn't match filename; expected \"%s %s\""
  const SubContextSuffix := "SubContext"
  const BehatSuffix := ".behat"
  /** Extensions of files that carry PHP code; anything else is exempt. */
  const PhpExtensions := ["inc", "php", "module", "theme"]
  /** Drupal major versions below this one allow classes in any file. */
  const MinCoreVersion := 8

  /** The token kinds the sniff asks the host to be called on. */
  function Register(): (kinds: seq<TokenKind>)
    ensures |kinds| == 3
    ensures forall k :: k in kinds <==> k.ClassKeyword? || k.InterfaceKeyword? || k.TraitKeyword?
  {
    [ClassKeyword, InterfaceKeyword, TraitKeyword]
  }

  predicate IsRegistered(k: TokenKind) {
    k in Register()
  }

  /** The Behat Drupal Extension convention: `foo_bar.behat.inc` holds
      `FooBarSubContext`. The `.behat` suffix is dropped, each
      underscore-separated word is capitalised, underscores are removed and
      `SubContext` is appended. */
  function SubContextName(fileName: string): (r: string)
    requires IsSuffix(BehatSuffix, fileName)
    ensures '_' !in r
    ensures IsSuffix(SubContextSuffix, r)
  {
    var stem := fileName[..|fileName| - |BehatSuffix|];
    var r := RemoveChar(UcWords(stem), '_') + SubContextSuffix;
    SuffixOfConcat(RemoveChar(UcWords(stem), '_'), SubContextSuffix);
    r
  }

  /** The type name a file with base name `fileName` must declare. */
  function ExpectedName(fileName: string): (r: string)
    ensures !IsSuffix(BehatSuffix, fileName) ==> r == fileName
    ensures IsSuffix(BehatSuffix, fileName) ==> '_' !in r && IsSuffix(SubContextSuffix, r)
  {
    if IsSuffix(BehatSuffix, fileName) then SubContextName(fileName) else fileName
  }

  /** The Behat name is the words of the stem, each capitalised, glued
      together and followed by `SubContext`. */
  lemma SubContextNameIsCamelWords(stem: string)
    ensures ExpectedName(stem + BehatSuffix) == CamelFromWords(stem, true) + SubContextSuffix
  {
    var fileName := stem + BehatSuffix;
    SuffixOfConcat(stem, BehatSuffix);
    assert fileName[..|fileName| - |BehatSuffix|] == stem;
    RemoveUcWordsIsCamel(stem, true);
  }

  /** The index of the token naming the declared type: the first
      significant token after the keyword. When there is none, `findNext`
      yields `false`, which as an array key reads token 0. */
  function DeclarationNameIndex(tokens: seq<Token>, cursor: nat): (i: nat)
    requires cursor < |tokens|
    ensures i < |tokens|
    ensures cursor < i ==> !IsEmptyKind(tokens[i].kind)
    ensures cursor < i ==> forall j :: cursor < j < i ==> IsEmptyKind(tokens[j].kind)
    ensures i <= cursor ==> i == 0 && forall j :: cursor < j < |tokens| ==> IsEmptyKind(tokens[j].kind)
  {
    match NextSignificant(tokens, cursor + 1)
    case Some(i) => i
    case None => 0
  }

  /** The file-name gates: the base name (basename up to its last dot) is
      not empty and the extension is one of the PHP ones. */
  predicate IsCheckedFile(path: string) {
    var full := Basename(path);
    StripExtension(full) != "" && Extension(full) in PhpExtensions
  }

  /** The expected type name for the file at `path`. */
  function ExpectedNameFor(path: string): string {
    ExpectedName(StripExtension(Basename(path)))
  }

  /** `ClassFileNameSniff::process`. */
  function Process(tokens: seq<Token>, cursor: nat, path: string, version: int): (r: Outcome)
    requires cursor < |tokens|
    ensures r.next == |tokens| + 1
    ensures r.next > cursor
    ensures version < MinCoreVersion ==> r.violation.None?
    ensures StripExtension(Basename(path)) == "" ==> r.violation.None?
    ensures Extension(Basename(path)) !in PhpExtensions ==> r.violation.None?
    ensures r.violation.Some? ==>
              && r.violation.value.position == cursor
              && r.violation.value.code == NoMatchCode
              && r.violation.value.message == NoMatchMessage
              && r.violation.value.data ==
                 [UcFirst(tokens[cursor].content), tokens[cursor].content, ExpectedNameFor(path)]
    ensures r.violation.Some? ==>
              tokens[DeclarationNameIndex(tokens, cursor)].kind == Identifier &&
              tokens[DeclarationNameIndex(tokens, cursor)].content != r.violation.value.data[2]
  {
    var skipFile := |tokens| + 1;
    if version < MinCoreVersion then Outcome(None, skipFile)
    else
      var full := Basename(path);
      var fileName := StripExtension(full);
      if fileName == "" then Outcome(None, skipFile)
      else if Extension(full) !in PhpExtensions then Outcome(None, skipFile)
      else
        var decName := DeclarationNameIndex(tokens, cursor);
        var expected := ExpectedName(fileName);
        var keyword := tokens[cursor].content;
        if tokens[decName].kind == Identifier && tokens[decName].content != expected then
          Outcome(Some(Violation(cursor, NoMatchCode, NoMatchMessage, [UcFirst(keyword), keyword, expected])), skipFile)
        else Outcome(None, skipFile)
  }

  /** Reports exactly when the project is Drupal 8+, the file is a checked
      PHP file, and the first token after the keyword that is not
      whitespace or a comment is a bare name different from the expected
      one. In particular an anonymous class (the keyword followed by `(`,
      `{` or `extends`) and a matching name never report. */
  lemma {:induction false} ReportsIffNameDiffers(tokens: seq<Token>, cursor: nat, path: string, version: int, j: nat)
    requires cursor < j < |tokens|
    requires !IsEmptyKind(tokens[j].kind)
    requires forall k :: cursor < k < j ==> IsEmptyKind(tokens[k].kind)
    ensures Process(tokens, cursor, path, version).violation.Some? <==>
              && version >= MinCoreVersion
              && IsCheckedFile(path)
              && tokens[j].kind == Identifier
              && tokens[j].content != ExpectedNameFor(path)
  {
    NextSignificantUnique(tokens, cursor + 1, j);
    assert DeclarationNameIndex(tokens, cursor) == j;
  }

  /** When nothing significant follows the keyword, the host's `false` is
      read as index 0, so the sniff compares the file's first token. A file
      that starts with an open tag (never a bare name) is not reported. */
  lemma NoSignificantTokenReadsFirstToken(tokens: seq<Token>, cursor: nat, path: string, version: int)
    requires cursor < |tokens|
    requires forall k :: cursor < k < |tokens| ==> IsEmptyKind(tokens[k].kind)
    ensures Process(tokens, cursor, path, version).violation.Some? <==>
              && version >= MinCoreVersion
              && IsCheckedFile(path)
              && tokens[0].kind == Identifier
              && tokens[0].content != ExpectedNameFor(path)
  {
    assert NextSignificant(tokens, cursor + 1).None?;
  }

  /** A path whose base name has no dot, or only a leading one (the host's
      `STDIN` pseudo-file, `README`, `.php`), is never checked. */
  lemma {:induction false} NoStemNeverReports(tokens: seq<Token>, cursor: nat, path: string, version: int)
    requires cursor < |tokens|
    requires var full := Basename(path);
             '.' !in full || (full[0] == '.' && '.' !in full[1..])
    ensures Process(tokens, cursor, path, version).violation.None?
  {
    StemEmptyIff(Basename(path));
  }

  /** A file `stem.ext` is checked exactly when the stem is not empty and
      `ext` is, case-sensitively, one of the PHP extensions. */
  lemma CheckedFileIff(dir: string, stem: string, ext: string)
    requires '/' !in stem && '.' !in ext && '/' !in ext
    ensures IsCheckedFile(dir + "/" + stem + "." + ext) <==> stem != "" && ext in PhpExtensions
  {
    var name := stem + "." + ext;
    NoSlashInJoin(stem, ext);
    BasenameAfterSlash(dir, name);
    assert dir + "/" + stem + "." + ext == dir + "/" + name;
    StemExtensionSplit(stem, ext);
  }

  /** For `dir/stem.ext` with a dot-free extension the expected name
      depends on the stem alone. */
  lemma ExpectedNameForPath(dir: string, stem: string, ext: string)
    requires '/' !in stem && '/' !in ext && '.' !in ext
    ensures ExpectedNameFor(dir + "/" + stem + "." + ext) == ExpectedName(stem)
  {
    NoSlashInJoin(stem, ext);
    BasenameAfterSlash(dir, stem + "." + ext);
    assert dir + "/" + stem + "." + ext == dir + "/" + (stem + "." + ext);
    StemExtensionSplit(stem, ext);
  }
}
