/** The handful of PHP string built-ins the sniff relies on (`strrpos`,
    `basename`, `substr`, `pathinfo`, `ucfirst`, `ucwords`, `str_replace`),
    restricted to the arguments it passes them. Upper-casing is ASCII-only,
    as in the C locale (and in every locale from PHP 8.2 on). */
module PhpStrings {
  import opened Wrappers

  /** `strrpos(s, c)` for a one-character needle: the index of the last
      occurrence of `c`, or `None` where PHP returns `false`. */
  function LastIndexOf(s: string, c: char): (r: Option<nat>)
    ensures r.Some? ==> r.value < |s| && s[r.value] == c
    ensures r.Some? ==> forall j :: r.value < j < |s| ==> s[j] != c
    ensures r.None? <==> c !in s
  {
    if |s| == 0 then None
    else if s[|s| - 1] == c then Some(|s| - 1)
    else
      var r := LastIndexOf(s[..|s| - 1], c);
      assert forall j :: 0 <= j < |s| - 1 ==> s[..|s| - 1][j] == s[j];
      r
  }

  /** The last occurrence is unique: any position holding `c` with no `c`
      after it is the one `LastIndexOf` finds. */
  lemma LastIndexOfUnique(s: string, c: char, i: nat)
    requires i < |s| && s[i] == c
    requires forall j :: i < j < |s| ==> s[j] != c
    ensures LastIndexOf(s, c) == Some(i)
  {
  }

  predicate IsPrefix(p: string, s: string) {
    |p| <= |s| && s[..|p|] == p
  }

  predicate IsSuffix(t: string, s: string) {
    |t| <= |s| && s[|s| - |t|..] == t
  }

  /** `basename(path)`: the text after the last `/`, or the whole path when
      it has none. */
  function Basename(path: string): (r: string)
    ensures '/' !in r
    ensures IsSuffix(r, path)
    ensures r == path || path[|path| - |r| - 1] == '/'
  {
    match LastIndexOf(path, '/')
    case None => path
    case Some(i) => path[i + 1..]
  }

  /** `substr(name, 0, strrpos(name, '.'))`: the text before the last dot.
      When there is no dot, `strrpos` yields `false`, which `substr` reads
      as the length 0, so the result is empty. */
  function StripExtension(name: string): (r: string)
    ensures IsPrefix(r, name)
    ensures '.' in name ==> |r| < |name| && name[|r|] == '.' && '.' !in name[|r| + 1..]
  {
    match LastIndexOf(name, '.')
    case None => ""
    case Some(i) => name[..i]
  }

  /** `pathinfo(name, PATHINFO_EXTENSION)`: the text after the last dot, or
      the empty string when there is no dot. */
  function Extension(name: string): (r: string)
    ensures '.' !in r
    ensures IsSuffix(r, name)
    ensures '.' !in name ==> r == ""
  {
    match LastIndexOf(name, '.')
    case None => ""
    case Some(i) => name[i + 1..]
  }

  /** A file name with a dot is exactly its stem, a dot and its extension. */
  lemma StemExtensionJoin(name: string)
    requires '.' in name
    ensures StripExtension(name) + "." + Extension(name) == name
  {
    var i := LastIndexOf(name, '.').value;
    assert name == name[..i] + "." + name[i + 1..];
  }

  /** Conversely, gluing any stem to a dot-free extension splits back into
      the same two parts. */
  lemma {:induction false} StemExtensionSplit(stem: string, ext: string)
    requires '.' !in ext
    ensures StripExtension(stem + "." + ext) == stem
    ensures Extension(stem + "." + ext) == ext
  {
    var name := stem + "." + ext;
    assert name[|stem|] == '.';
    forall j | |stem| < j < |name|
      ensures name[j] != '.'
    {
      assert name[j] == ext[j - |stem| - 1];
    }
    LastIndexOfUnique(name, '.', |stem|);
    assert name[..|stem|] == stem;
    assert name[|stem| + 1..] == ext;
  }

  /** The stem is empty exactly when there is no dot, or the only dot is the
      first character (a "hidden" file such as `.php`). */
  lemma StemEmptyIff(name: string)
    ensures StripExtension(name) == "" <==>
            ('.' !in name || (name[0] == '.' && '.' !in name[1..]))
  {
    if '.' in name {
      forall j | 0 <= j < |name| - 1
        ensures name[1..][j] == name[j + 1]
      {
      }
    }
  }

  predicate IsLowerAscii(c: char) {
    'a' <= c <= 'z'
  }

  /** ASCII `toupper`: each lower-case letter moves to its own capital (32
      code points down), every other character is left alone. */
  function UpperChar(c: char): (r: char)
    ensures IsLowerAscii(c) ==> 'A' <= r <= 'Z' && r as int == c as int - 32
    ensures !IsLowerAscii(c) ==> r == c
    ensures !IsLowerAscii(r)
  {
    if IsLowerAscii(c) then (c as int - 32) as char else c
  }

  /** `ucfirst(s)`: the first character upper-cased, the rest unchanged. */
  function UcFirst(s: string): (r: string)
    ensures |r| == |s|
    ensures |s| > 0 ==> r[0] == UpperChar(s[0]) && r[1..] == s[1..]
  {
    if |s| == 0 then s else [UpperChar(s[0])] + s[1..]
  }

  /** `ucfirst` of a string with first character `c` and tail `rest`. */
  lemma UcFirstCons(c: char, rest: string)
    ensures UcFirst([c] + rest) == [UpperChar(c)] + rest
  {
    assert ([c] + rest)[1..] == rest;
  }

  /** `ucwords(s, '_')`, scanning left to right: a character is upper-cased
      when it is the first one (`capNext` holds on entry) or follows an
      underscore. Underscores themselves are not letters and stay as they
      are. */
  function UcWordsFrom(s: string, capNext: bool): (r: string)
    ensures |r| == |s|
    ensures forall i :: 0 <= i < |s| ==> (r[i] == '_' <==> s[i] == '_')
    decreases |s|
  {
    if |s| == 0 then ""
    else
      var head := if capNext then UpperChar(s[0]) else s[0];
      var r := [head] + UcWordsFrom(s[1..], s[0] == '_');
      assert forall i :: 1 <= i < |s| ==> r[i] == UcWordsFrom(s[1..], s[0] == '_')[i - 1];
      r
  }

  function UcWords(s: string): (r: string)
    ensures |r| == |s|
  {
    UcWordsFrom(s, true)
  }

  /** `ucwords` upper-cases exactly the first character and every character
      right after an underscore, and leaves every other character alone. */
  lemma {:induction false} UcWordsFromChars(s: string, capNext: bool)
    ensures |s| > 0 ==> UcWordsFrom(s, capNext)[0] == (if capNext then UpperChar(s[0]) else s[0])
    ensures forall i :: 0 < i < |s| ==>
              UcWordsFrom(s, capNext)[i] == (if s[i - 1] == '_' then UpperChar(s[i]) else s[i])
    decreases |s|
  {
    if |s| > 0 {
      var tail := s[1..];
      UcWordsFromChars(tail, s[0] == '_');
      var r := UcWordsFrom(s, capNext);
      forall i | 0 < i < |s|
        ensures r[i] == (if s[i - 1] == '_' then UpperChar(s[i]) else s[i])
      {
        assert r[i] == UcWordsFrom(tail, s[0] == '_')[i - 1];
        if i > 1 {
          assert tail[i - 2] == s[i - 1] && tail[i - 1] == s[i];
        }
      }
    }
  }

  /** `str_replace(c, '', s)`: every occurrence of `c` removed, everything
      else kept in order. */
  function RemoveChar(s: string, c: char): (r: string)
    ensures c !in r
    ensures |r| <= |s|
    ensures forall x :: x != c ==> (x in r <==> x in s)
    ensures c !in s ==> r == s
  {
    if |s| == 0 then ""
    else if s[0] == c then RemoveChar(s[1..], c)
    else [s[0]] + RemoveChar(s[1..], c)
  }

  /** Removal works piecewise: removing from a concatenation is removing
      from each part and concatenating, so order and repeats are kept. */
  lemma {:induction false} RemoveCharConcat(a: string, b: string, c: char)
    ensures RemoveChar(a + b, c) == RemoveChar(a, c) + RemoveChar(b, c)
    decreases |a|
  {
    if |a| == 0 {
      assert a + b == b;
    } else {
      assert (a + b)[1..] == a[1..] + b;
      RemoveCharConcat(a[1..], b, c);
    }
  }

  /** `explode(delimiter, s)`: the pieces between delimiters, in order,
      empty pieces included; there is always at least one piece. */
  function Split(s: string, delimiter: char): (r: seq<string>)
    ensures |r| >= 1
    ensures forall k :: 0 <= k < |r| ==> delimiter !in r[k]
    decreases |s|
  {
    if |s| == 0 then [""]
    else
      var rest := Split(s[1..], delimiter);
      if s[0] == delimiter then [""] + rest
      else [[s[0]] + rest[0]] + rest[1..]
  }

  /** Without a delimiter there is a single piece, the whole string. */
  lemma {:induction false} SplitNoDelimiter(s: string, delimiter: char)
    requires delimiter !in s
    ensures Split(s, delimiter) == [s]
    decreases |s|
  {
    if |s| > 0 {
      SplitNoDelimiter(s[1..], delimiter);
      assert [s[0]] + s[1..] == s;
    }
  }

  /** With exactly one delimiter there are two pieces, either side of it. */
  lemma {:induction false} SplitOnce(a: string, b: string, delimiter: char)
    requires delimiter !in a && delimiter !in b
    ensures Split(a + [delimiter] + b, delimiter) == [a, b]
    decreases |a|
  {
    var s := a + [delimiter] + b;
    if |a| == 0 {
      assert s[1..] == b;
      SplitNoDelimiter(b, delimiter);
    } else {
      assert s[1..] == a[1..] + [delimiter] + b;
      SplitOnce(a[1..], b, delimiter);
      assert [a[0]] + a[1..] == a;
    }
  }

  /** `implode(delimiter, pieces)`. */
  function Join(pieces: seq<string>, delimiter: char): string
    requires |pieces| >= 1
    decreases |pieces|
  {
    if |pieces| == 1 then pieces[0]
    else pieces[0] + [delimiter] + Join(pieces[1..], delimiter)
  }

  /** Splitting on a delimiter and joining back on it gives the original. */
  lemma {:induction false} JoinSplit(s: string, delimiter: char)
    ensures Join(Split(s, delimiter), delimiter) == s
    decreases |s|
  {
    if |s| > 0 {
      var rest := Split(s[1..], delimiter);
      JoinSplit(s[1..], delimiter);
      if s[0] == delimiter {
        assert Split(s, delimiter)[1..] == rest;
        assert s == "" + [delimiter] + s[1..];
      } else {
        var pieces := Split(s, delimiter);
        assert pieces[1..] == rest[1..];
        if |rest| == 1 {
          assert s == [s[0]] + rest[0];
        } else {
          assert Join(rest, delimiter) == rest[0] + [delimiter] + Join(rest[1..], delimiter);
          assert s == [s[0]] + s[1..];
        }
      }
    }
  }

  /** The pieces glued together with nothing between them. */
  function Concat(pieces: seq<string>): string
    decreases |pieces|
  {
    if |pieces| == 0 then "" else pieces[0] + Concat(pieces[1..])
  }

  /** Removing the delimiter from delimiter-free pieces joined by it glues
      the pieces together; with `JoinSplit` this fixes `str_replace` as the
      concatenation of the `explode` pieces. */
  lemma {:induction false} RemoveCharJoin(pieces: seq<string>, c: char)
    requires |pieces| >= 1
    requires forall k :: 0 <= k < |pieces| ==> c !in pieces[k]
    ensures RemoveChar(Join(pieces, c), c) == Concat(pieces)
    decreases |pieces|
  {
    if |pieces| == 1 {
      assert Concat(pieces) == pieces[0] + Concat([]);
    } else {
      RemoveCharJoin(pieces[1..], c);
      RemoveCharConcat(pieces[0] + [c], Join(pieces[1..], c), c);
      RemoveCharConcat(pieces[0], [c], c);
      assert RemoveChar([c], c) == "";
    }
  }

  /** `str_replace(c, '', s)` is the concatenation of the pieces of `s`
      between occurrences of `c`. */
  lemma RemoveCharIsConcatOfSplit(s: string, c: char)
    ensures RemoveChar(s, c) == Concat(Split(s, c))
  {
    JoinSplit(s, c);
    RemoveCharJoin(Split(s, c), c);
  }

  /** Every piece with its first letter upper-cased, concatenated. */
  function ConcatCapitalized(pieces: seq<string>): string
    decreases |pieces|
  {
    if |pieces| == 0 then "" else UcFirst(pieces[0]) + ConcatCapitalized(pieces[1..])
  }

  /** Reference reading of `str_replace('_', '', ucwords(s, '_'))` in terms
      of words: split on underscores, capitalise each word (the first one
      only when `capFirst`), glue the words together. */
  function CamelFromWords(s: string, capFirst: bool): string {
    var words := Split(s, '_');
    (if capFirst then UcFirst(words[0]) else words[0]) + ConcatCapitalized(words[1..])
  }

  /** The character-level `ucwords` followed by dropping delimiters equals
      the word-level reference. */
  lemma {:induction false} RemoveUcWordsIsCamel(s: string, capNext: bool)
    ensures RemoveChar(UcWordsFrom(s, capNext), '_') == CamelFromWords(s, capNext)
    decreases |s|
  {
    if |s| > 0 {
      var rest := Split(s[1..], '_');
      var u := UcWordsFrom(s, capNext);
      var tail := UcWordsFrom(s[1..], s[0] == '_');
      assert u == [u[0]] + tail;
      assert u[1..] == tail;
      RemoveUcWordsIsCamel(s[1..], s[0] == '_');
      if s[0] == '_' {
        assert Split(s, '_')[1..] == rest;
        assert ConcatCapitalized(rest) == UcFirst(rest[0]) + ConcatCapitalized(rest[1..]);
      } else {
        var words := Split(s, '_');
        assert RemoveChar(u, '_') == [u[0]] + RemoveChar(tail, '_');
        assert words[0] == [s[0]] + rest[0];
        assert words[1..] == rest[1..];
        assert u[0] != '_';
        if capNext {
          assert UcFirst(words[0]) == [UpperChar(s[0])] + rest[0];
        }
      }
    }
  }

  /** `t` is a suffix of `s + t`. */
  lemma SuffixOfConcat(s: string, t: string)
    ensures IsSuffix(t, s + t)
  {
    assert (s + t)[|s|..] == t;
  }

  /** A stem and an extension without slashes make a name without one. */
  lemma NoSlashInJoin(stem: string, ext: string)
    requires '/' !in stem && '/' !in ext
    ensures '/' !in stem + "." + ext
  {
    var name := stem + "." + ext;
    forall i | 0 <= i < |name|
      ensures name[i] != '/'
    {
      if i < |stem| { assert name[i] == stem[i]; }
      else if i > |stem| { assert name[i] == ext[i - |stem| - 1]; }
    }
  }

  /** `basename` recovers a slash-free name appended to any directory. */
  lemma BasenameAfterSlash(dir: string, name: string)
    requires '/' !in name
    ensures Basename(dir + "/" + name) == name
  {
    var path := dir + "/" + name;
    assert path[|dir|] == '/';
    forall i | |dir| < i < |path|
      ensures path[i] != '/'
    {
      assert path[i] == name[i - |dir| - 1];
    }
    LastIndexOfUnique(path, '/', |dir|);
    assert path[|dir| + 1..] == name;
  }
}
