# Drupal `ClassFileName` sniff, modelled in Dafny

The Drupal coding standard (the `coder` project's PHP_CodeSniffer rules)
requires that the first class, interface or trait declared in a PHP file is
named after the file. The sniff `ClassFileNameSniff` enforces this.

PHP_CodeSniffer tokenizes each file and calls the sniff on every `class`,
`interface` or `trait` keyword. The sniff then:

1. declines for Drupal 7 and older projects;
2. declines when the file's base name is empty;
3. declines when the extension is not one of `inc`, `php`, `module` or
   `theme`;
4. derives the expected type name from the base name, using the Behat
   convention for files whose base name ends in `.behat`
   (`<name>.behat.<ext>`: `my_module.behat.inc` must declare
   `MyModuleSubContext`);
5. compares it with the first significant token after the keyword;
6. reports one `NoMatch` error when that token is a bare name that differs.

Whatever happens, the sniff returns "number of tokens + 1". This tells the
host to skip the rest of the file, so only the first declaration is checked.

The project is organised as follows:

- `wrappers.dfy`: `Option`.
- `php_strings.dfy` (module `PhpStrings`): the PHP string built-ins the
  sniff calls, each with its defining property. They are `strrpos`,
  `basename`, `substr` up to the last dot, `pathinfo(…, PATHINFO_EXTENSION)`,
  `ucfirst`, `ucwords(…, '_')` and `str_replace`. The module also holds an
  `explode`/`implode` pair. It serves as the word-level reference for the
  Behat rewrite.
- `tokens.dfy` (module `Tokens`): token kinds and tokens, the host's set of
  "empty" (insignificant) kinds, and `findNext` over it.
- `class_file_name.dfy` (module `ClassFileName`): `register()`, the
  expected-name derivation, `process()` and the lemmas about them.
- `file_scan.dfy` (module `FileScan`): the host's per-file loop. It calls
  `Process` on each registered keyword and resumes at the returned index, and
  it shows that at most one violation per file results.
- `scenarios.dfy` (module `Scenarios`): worked cases over small token
  streams, stated for every directory, stem and extension. The version gate
  needs no scenario: it is part of `Process`'s own contract.

Inputs that the host supplies become plain parameters:

- the token stream is a `seq<Token>`;
- the cursor is a `nat`;
- the file name is a `string`;
- the Drupal major version is an `int` (`Project::getCoreVersion` reads
  project files, which is not part of this model).

The reported error becomes a returned `Violation`. The returned index is
`Outcome.next`.

Behaviour of the code worth noting:

- The extension is compared exactly as extracted, with no lower-casing, so
  `Foo.PHP` is exempt while `Foo.php` is checked. `in_array` compares
  loosely, but every whitelist entry is a non-numeric string, so loose and
  strict equality agree.
- When no significant token follows the keyword, `findNext` returns `false`.
  The code then reads `$tokens[false]`, which PHP reads as `$tokens[0]`. The
  model does the same (`DeclarationNameIndex` returns 0). The lemma
  `NoSignificantTokenReadsFirstToken` states the resulting behaviour: a
  violation is reported only if the file's first token is a bare name, which
  an open tag never is.

## Model

| member | source | states |
|---|---|---|
| ClassFileName.Register | coder_sniffer/Drupal/Sniffs/Classes/ClassFileNameSniff.php:25-31 | The sniff listens to exactly three token kinds: the class, interface and trait keywords. |
| ClassFileName.Process | coder_sniffer/Drupal/Sniffs/Classes/ClassFileNameSniff.php:45-101 | Every path returns the number of tokens plus one. Versions below 8, an empty base name and a non-whitelisted extension never report. A violation sits at the cursor, has code `NoMatch` and the message template, carries the data [ucfirst(keyword), keyword, expected name], and is only produced when the declaration-name token is a bare name different from that expected name. |
| ClassFileName.ReportsIffNameDiffers | coder_sniffer/Drupal/Sniffs/Classes/ClassFileNameSniff.php:75-95 | Take the first token after the keyword that is not whitespace or a comment, characterised by quantifiers rather than by the search function. A violation is reported iff the version is at least 8, the file passes both name gates, and that token is an identifier whose text differs from the expected name. Anonymous classes and matching names therefore never report. |
| ClassFileName.NoSignificantTokenReadsFirstToken | coder_sniffer/Drupal/Sniffs/Classes/ClassFileNameSniff.php:75-87 | When only whitespace and comments follow the keyword, the verdict compares token 0, which is where PHP's `$tokens[false]` reads. |
| ClassFileName.NoStemNeverReports | coder_sniffer/Drupal/Sniffs/Classes/ClassFileNameSniff.php:53-58 | A basename with no dot, or whose only dot is its first character (e.g. `STDIN`, `.php`), is never reported. |
| ClassFileName.CheckedFileIff | coder_sniffer/Drupal/Sniffs/Classes/ClassFileNameSniff.php:53-72 | The file `dir/stem.ext` passes the file-name gates iff the stem is non-empty and the extension is, case-sensitively, one of `inc`, `php`, `module`, `theme`. |
| ClassFileName.ExpectedName | coder_sniffer/Drupal/Sniffs/Classes/ClassFileNameSniff.php:77-83 | A base name without the `.behat` suffix is expected unchanged. A Behat name contains no underscore and ends with `SubContext`. |
| ClassFileName.SubContextName | coder_sniffer/Drupal/Sniffs/Classes/ClassFileNameSniff.php:79-82 | The rewritten Behat name has no underscore and ends in `SubContext`. |
| ClassFileName.SubContextNameIsCamelWords | coder_sniffer/Drupal/Sniffs/Classes/ClassFileNameSniff.php:79-82 | For `stem.behat`, the expected name is built as follows: split the stem on underscores, capitalise every word, concatenate them, then append `SubContext`. |
| ClassFileName.ExpectedNameForPath | coder_sniffer/Drupal/Sniffs/Classes/ClassFileNameSniff.php:53-54 | The expected name for `dir/stem.ext` depends only on the stem. |
| ClassFileName.DeclarationNameIndex | coder_sniffer/Drupal/Sniffs/Classes/ClassFileNameSniff.php:75 | The index compared is the first significant token after the keyword. When none exists, it is token 0. |
| Tokens.IsEmptyKind | coder_sniffer/Drupal/Sniffs/Classes/ClassFileNameSniff.php:75 | The kinds `findNext` skips (`Tokens::$emptyTokens`) never include a name, a declaration keyword or any other syntax-bearing kind. |
| Tokens.NextSignificant | coder_sniffer/Drupal/Sniffs/Classes/ClassFileNameSniff.php:75 | `findNext` with exclusion returns the first non-empty token at or after the start, with only empty tokens before it. It returns nothing iff every token from the start on is empty. |
| Tokens.NextSignificantUnique | coder_sniffer/Drupal/Sniffs/Classes/ClassFileNameSniff.php:75 | A non-empty token preceded only by empty ones is the token `findNext` returns. |
| PhpStrings.LastIndexOf | coder_sniffer/Drupal/Sniffs/Classes/ClassFileNameSniff.php:54 | `strrpos` finds a position holding the character with no later occurrence, and fails iff the character is absent. |
| PhpStrings.LastIndexOfUnique | coder_sniffer/Drupal/Sniffs/Classes/ClassFileNameSniff.php:54 | Any occurrence with no later occurrence is the one `strrpos` returns. |
| PhpStrings.Basename | coder_sniffer/Drupal/Sniffs/Classes/ClassFileNameSniff.php:53 | `basename` returns a slash-free suffix of the path, which is either the whole path or preceded by a slash. |
| PhpStrings.BasenameAfterSlash | coder_sniffer/Drupal/Sniffs/Classes/ClassFileNameSniff.php:53 | `basename` recovers any slash-free name appended after a slash. |
| PhpStrings.StripExtension | coder_sniffer/Drupal/Sniffs/Classes/ClassFileNameSniff.php:54 | The base name is a prefix of the basename. When the basename has a dot, the dot comes right after that prefix and no dot follows it. |
| PhpStrings.Extension | coder_sniffer/Drupal/Sniffs/Classes/ClassFileNameSniff.php:63 | The extension is a dot-free suffix of the basename, and is empty when there is no dot. |
| PhpStrings.StemExtensionJoin | coder_sniffer/Drupal/Sniffs/Classes/ClassFileNameSniff.php:53-63 | A name with a dot is exactly its base name, a dot, and its extension. |
| PhpStrings.StemExtensionSplit | coder_sniffer/Drupal/Sniffs/Classes/ClassFileNameSniff.php:53-63 | Gluing any stem to a dot-free extension splits back into the same stem and extension. |
| PhpStrings.StemEmptyIff | coder_sniffer/Drupal/Sniffs/Classes/ClassFileNameSniff.php:54-55 | The base name is empty iff the basename has no dot, or its only dot is at index 0. |
| PhpStrings.UpperChar | coder_sniffer/Drupal/Sniffs/Classes/ClassFileNameSniff.php:82 | ASCII `toupper` maps each lower-case letter to its own capital (32 code points down), leaves every other character unchanged, and never yields a lower-case letter. |
| PhpStrings.UcFirst | coder_sniffer/Drupal/Sniffs/Classes/ClassFileNameSniff.php:90 | `ucfirst` upper-cases the first character and keeps the rest and the length. |
| PhpStrings.UcWordsFrom | coder_sniffer/Drupal/Sniffs/Classes/ClassFileNameSniff.php:82 | `ucwords(s, '_')` keeps the length and exactly the underscore positions; `UcWordsFromChars` gives every position exactly. |
| PhpStrings.UcWordsFromChars | coder_sniffer/Drupal/Sniffs/Classes/ClassFileNameSniff.php:82 | `ucwords(s, '_')` upper-cases exactly the first character and each character right after an underscore. Every other character is unchanged. |
| PhpStrings.RemoveChar | coder_sniffer/Drupal/Sniffs/Classes/ClassFileNameSniff.php:82 | `str_replace('_', '', s)` removes every underscore, keeps every other character that occurs, and leaves an underscore-free string unchanged. |
| PhpStrings.RemoveCharConcat | coder_sniffer/Drupal/Sniffs/Classes/ClassFileNameSniff.php:82 | Removal distributes over concatenation, so order and repeats of the kept characters are preserved. |
| PhpStrings.RemoveCharIsConcatOfSplit | coder_sniffer/Drupal/Sniffs/Classes/ClassFileNameSniff.php:82 | `str_replace('_', '', s)` equals the concatenation of the `explode('_', s)` pieces, which fixes its value on every input. |
| PhpStrings.RemoveUcWordsIsCamel | coder_sniffer/Drupal/Sniffs/Classes/ClassFileNameSniff.php:82 | Character-level `ucwords` followed by removing underscores equals the word-level reference: split on underscores, capitalise each word, concatenate. |
| PhpStrings.JoinSplit | coder_sniffer/Drupal/Sniffs/Classes/ClassFileNameSniff.php:82 | The word split used by the reference is faithful: joining the pieces back with the delimiter gives the original string. |
| PhpStrings.SplitOnce | coder_sniffer/Drupal/Sniffs/Classes/ClassFileNameSniff.php:82 | A string with exactly one delimiter splits into the two parts on either side of it. |
| FileScan.ScanFile | coder_sniffer/Drupal/Sniffs/Classes/ClassFileNameSniff.php:97-99 | When the host honours the returned index, a whole file yields at most one violation. That violation is exactly what `Process` reports for the file's first declaration keyword. |
| FileScan.FirstDeclaration | coder_sniffer/Drupal/Sniffs/Classes/ClassFileNameSniff.php:25-31 | Returns the first registered keyword at or after the start, with none before it. It returns nothing iff there is none. |
| Scenarios.PathOf | coder_sniffer/Drupal/Sniffs/Classes/ClassFileNameSniff.php:53-63 | For a slash-free stem and a slash- and dot-free extension, `basename` of `dir/stem.ext` is `stem.ext`, and the last-dot split returns `stem` and `ext`, whatever the directory. |
| Scenarios.PlainClassFile | coder_sniffer/Drupal/Sniffs/Classes/ClassFileNameSniff.php:85-94 | Consider `dir/stem.ext` with a whitelisted extension and a non-Behat stem, declaring `class name`. It is accepted iff name equals stem. Otherwise it yields exactly `NoMatch` with data `Class`, `class`, stem. |
| Scenarios.BehatSubContextFile | coder_sniffer/Drupal/Sniffs/Classes/ClassFileNameSniff.php:77-87 | `dir/m.behat.ext` expects the camel-cased `m` followed by `SubContext`. It is accepted iff it declares that name. |
| Scenarios.MyModuleBehatName | coder_sniffer/Drupal/Sniffs/Classes/ClassFileNameSniff.php:77-83 | The sniff expects the base name `my_module.behat` to declare `MyModuleSubContext`. |
| Scenarios.MyModuleSubContext | coder_sniffer/Drupal/Sniffs/Classes/ClassFileNameSniff.php:77-83 | The words `my` and `module` joined by `_` become `MyModuleSubContext`. |
| Scenarios.CamelOfTwoWords | coder_sniffer/Drupal/Sniffs/Classes/ClassFileNameSniff.php:82 | `a_b` camel-cases to `ucfirst(a)` followed by `ucfirst(b)`. |
| Scenarios.AnonymousClassAccepted | coder_sniffer/Drupal/Sniffs/Classes/ClassFileNameSniff.php:85 | `new class {}` is never reported, whatever the path and version. |
| Scenarios.OtherExtensionExempt | coder_sniffer/Drupal/Sniffs/Classes/ClassFileNameSniff.php:63-72 | A file with any extension outside the whitelist (`PHP`, `txt`, …) is never reported. |
| Scenarios.ExtensionCaseMatters | coder_sniffer/Drupal/Sniffs/Classes/ClassFileNameSniff.php:63-72 | The extension test is case-sensitive: `dir/stem.PHP` declaring a mismatching class is never reported, while the same class in `dir/stem.php` is. |
| Scenarios.DeclarationLabels | coder_sniffer/Drupal/Sniffs/Classes/ClassFileNameSniff.php:90 | The first violation datum for `class`, `interface` and `trait` is `Class`, `Interface` and `Trait`. |

## Left out

- `Project::getCoreVersion`: it inspects project files. The detected version
  is a parameter.
- The PHP_CodeSniffer tokenizer and the `File` object (`getTokens`,
  `getFilename`, `numTokens`, `addError`): tokens are an input sequence, and
  the error is a returned value.
- `Tokens::$emptyTokens` (`Tokens.IsEmptyKind`): modelled as two kinds, `Whitespace` and `Comment`.
  `Comment` stands for every comment, doc-comment and `phpcs:` annotation
  kind.
- PHP `basename` strips trailing slashes and has platform-specific
  separators. The model takes the text after the last `/`.
- PCRE's `$` in `/\.behat$/` also matches just before a final newline. The
  model treats the test as a plain suffix check, so file names ending in a
  newline are not modelled.
- `ucwords`, `ucfirst` and `toupper` are modelled on ASCII `a`–`z` only, as
  in the C locale and in every locale from PHP 8.2 on. The model has no
  other locale or multibyte behaviour.
- The message text is the template constant. `sprintf` substitution is the
  host's job.
- Calling the sniff twice on the same inputs gives the same result, because
  `Process` is a function. No separate lemma states this.
