/** How the host drives the sniff over one file: it walks the tokens, calls
    `Process` on every registered keyword, and resumes at the index the
    sniff returns. Because `Process` always returns one past the last
    token, only the file's first declaration is ever inspected. */
module FileScan {
  import opened Wrappers
  import opened Tokens
  import opened ClassFileName

  /** The first index at or after `from` holding a registered keyword. */
  function FirstDeclaration(tokens: seq<Token>, from: nat): (r: Option<nat>)
    ensures r.Some? ==> from <= r.value < |tokens| && IsRegistered(tokens[r.value].kind)
    ensures r.Some? ==> forall j :: from <= j < r.value ==> !IsRegistered(tokens[j].kind)
    ensures r.None? <==> forall j :: from <= j < |tokens| ==> !IsRegistered(tokens[j].kind)
    decreases |tokens| - from
  {
    if from >= |tokens| then None
    else if IsRegistered(tokens[from].kind) then Some(from)
    else FirstDeclaration(tokens, from + 1)
  }

  function Reported(v: Option<Violation>): seq<Violation> {
    match v
    case None => []
    case Some(x) => [x]
  }

  /** All violations the sniff reports for one file: at most one, and it is
      exactly what `Process` says about the first declaration keyword. */
  method ScanFile(tokens: seq<Token>, path: string, version: int) returns (reported: seq<Violation>)
    ensures |reported| <= 1
    ensures FirstDeclaration(tokens, 0).None? ==> reported == []
    ensures FirstDeclaration(tokens, 0).Some? ==>
              reported == Reported(Process(tokens, FirstDeclaration(tokens, 0).value, path, version).violation)
    ensures forall k :: 0 <= k < |reported| ==>
              reported[k].position == FirstDeclaration(tokens, 0).value && reported[k].code == NoMatchCode
  {
    reported := [];
    ghost var first := FirstDeclaration(tokens, 0);
    var i: nat := 0;
    while i < |tokens|
      invariant i <= |tokens| + 1
      invariant i <= |tokens| ==> reported == [] && FirstDeclaration(tokens, i) == first
      invariant i > |tokens| ==>
                  && first.Some?
                  && reported == Reported(Process(tokens, first.value, path, version).violation)
      decreases |tokens| + 1 - i
    {
      if IsRegistered(tokens[i].kind) {
        var outcome := Process(tokens, i, path, version);
        reported := reported + Reported(outcome.violation);
        i := outcome.next;
      } else {
        i := i + 1;
      }
    }
    if first.Some? {
      var v := Process(tokens, first.value, path, version).violation;
      assert v.Some? ==> v.value.position == first.value && v.value.code == NoMatchCode;
    }
  }
}
