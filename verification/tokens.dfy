/** The host's token stream as the sniff sees it: each token has a kind and
    its literal text. Only the kinds the sniff distinguishes are named;
    every other kind is carried as `Other` with its code name. A host token
    has exactly one code, so `Other` never carries the code of a named kind
    (`T_STRING`, `T_WHITESPACE`, a comment code, ...): such a token is always
    written with its named constructor. */
module Tokens {
  import opened Wrappers

  datatype TokenKind =
    | ClassKeyword        // T_CLASS
    | InterfaceKeyword    // T_INTERFACE
    | TraitKeyword        // T_TRAIT
    | Identifier          // T_STRING, a bare name
    | Whitespace          // T_WHITESPACE
    | Comment             // T_COMMENT, the doc-comment kinds and phpcs annotations
    | Other(code: string) // any other kind: braces, parentheses, `extends`, ...

  datatype Token = Token(kind: TokenKind, content: string)

  /** Membership in the host's "empty tokens" set: kinds that carry no
      syntax, which `findNext` skips when asked for significant tokens. A
      name or a declaration keyword is never skipped. */
  function IsEmptyKind(k: TokenKind): (r: bool)
    ensures r ==> !k.Identifier? && !k.ClassKeyword? && !k.InterfaceKeyword? && !k.TraitKeyword?
    ensures k.Other? ==> !r
  {
    k.Whitespace? || k.Comment?
  }

  /** `findNext(emptyTokens, from, null, true)`: the first index at or after
      `from` whose token is not an empty kind, or `None` where the host
      returns `false`. */
  function NextSignificant(tokens: seq<Token>, from: nat): (r: Option<nat>)
    ensures r.Some? ==> from <= r.value < |tokens| && !IsEmptyKind(tokens[r.value].kind)
    ensures r.Some? ==> forall j :: from <= j < r.value ==> IsEmptyKind(tokens[j].kind)
    ensures r.None? <==> forall j :: from <= j < |tokens| ==> IsEmptyKind(tokens[j].kind)
    decreases |tokens| - from
  {
    if from >= |tokens| then None
    else if !IsEmptyKind(tokens[from].kind) then Some(from)
    else NextSignificant(tokens, from + 1)
  }

  /** The first significant token is unique: any non-empty token preceded
      only by empty ones from `from` on is the one `NextSignificant`
      finds. */
  lemma NextSignificantUnique(tokens: seq<Token>, from: nat, j: nat)
    requires from <= j < |tokens| && !IsEmptyKind(tokens[j].kind)
    requires forall k :: from <= k < j ==> IsEmptyKind(tokens[k].kind)
    ensures NextSignificant(tokens, from) == Some(j)
  {
  }
}
