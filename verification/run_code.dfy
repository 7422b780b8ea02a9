/** The pure part of `handleRunCode`: the parameter names, argument values
    and body handed to `new Function`, computed from the translated text and
    the argument text. Building and calling the function is not modelled. */
module RunCode {
  import opened Wrappers
  import opened JsTrim
  import opened JsSearch
  import opened Extraction
  import opened Parameters

  /** The pattern and the replacement of the rewrite. */
  const ReturnKeyword: string := "return"
  const SpacedReturn: string := "return "

  /** `body.replace('return', 'return ')`: one blank inserted right after the
      first `return`; a body without `return` is unchanged. Only the first
      occurrence is touched: what follows it is copied verbatim. */
  function FormatBody(body: string): (r: string)
    ensures !Contains(body, ReturnKeyword) ==> r == body
    ensures Contains(body, ReturnKeyword) ==> |r| == |body| + 1
    ensures Contains(body, ReturnKeyword) ==> multiset(r) == multiset(body) + multiset{' '}
    ensures forall p :: IsFirstOccurrence(body, ReturnKeyword, p) ==>
      r[..p + 6] == body[..p + 6] && r[p + 6] == ' ' && r[p + 7..] == body[p + 6..]
  {
    assert SpacedReturn == ReturnKeyword + [' '];
    AppendAfterFirst(body, ReturnKeyword, ' ');
    ReplaceFirst(body, ReturnKeyword, SpacedReturn)
  }

  /** Deleting the inserted blank gives back the original body. */
  lemma FormatBodyInverse(body: string, p: nat)
    requires IsFirstOccurrence(body, ReturnKeyword, p)
    ensures FormatBody(body)[..p + 6] + FormatBody(body)[p + 7..] == body
  {
    assert body == body[..p + 6] + body[p + 6..];
  }

  /** The keyword stays where it was and is still the first one. */
  lemma FormatBodyKeepsFirst(body: string, p: nat)
    requires IsFirstOccurrence(body, ReturnKeyword, p)
    ensures IsFirstOccurrence(FormatBody(body), ReturnKeyword, p)
  {
    assert SpacedReturn == ReturnKeyword + [' '];
    AppendKeepsFirst(body, ReturnKeyword, ' ', p);
  }

  /** ReturnKeyword cannot overlap itself: a second occurrence starts at least
      six characters after the first. */
  lemma ReturnDoesNotOverlap(s: string, p: int, q: int)
    requires OccursAt(s, ReturnKeyword, p) && OccursAt(s, ReturnKeyword, q) && p < q
    ensures p + 6 <= q
  {
    ReturnLetters(s, p);
    ReturnLetters(s, q);
  }

  /** The six letters of an occurrence of `return`. */
  lemma ReturnLetters(s: string, p: int)
    requires OccursAt(s, ReturnKeyword, p)
    ensures s[p] == 'r' && s[p + 1] == 'e' && s[p + 2] == 't'
    ensures s[p + 3] == 'u' && s[p + 4] == 'r' && s[p + 5] == 'n'
  {
    assert s[p..p + 6] == "return";
    var w := s[p..p + 6];
    assert w[0] == s[p] && w[1] == s[p + 1] && w[2] == s[p + 2];
    assert w[3] == s[p + 3] && w[4] == s[p + 4] && w[5] == s[p + 5];
  }

  /** Every later `return` is left untouched, one position further on. */
  lemma LaterOccurrencesUntouched(body: string, p: nat, q: nat)
    requires IsFirstOccurrence(body, ReturnKeyword, p)
    requires OccursAt(body, ReturnKeyword, q) && q != p
    ensures OccursAt(FormatBody(body), ReturnKeyword, q + 1)
  {
    ReturnDoesNotOverlap(body, p, q);
    assert SpacedReturn == ReturnKeyword + [' '];
    AppendShiftsLater(body, ReturnKeyword, ' ', p, q);
  }

  /** The rewrite is not idempotent: every application adds another blank,
      so a body that already reads `return ` ends up with two. */
  lemma FormatBodyNotIdempotent(body: string)
    requires Contains(body, ReturnKeyword)
    ensures |FormatBody(FormatBody(body))| == |body| + 2
  {
    var p := FirstOccurrence(body, ReturnKeyword);
    FormatBodyKeepsFirst(body, p);
  }

  /** A `return` inside a longer identifier is split as well:
      `returned` becomes `return ed`. */
  lemma FormatBodySplitsIdentifier()
    ensures FormatBody("returned") == "return ed"
  {
    ReturnedSpelled();
    FormatBodyAtStart("ed");
  }

  lemma ReturnedSpelled()
    ensures "returned" == ReturnKeyword + "ed"
    ensures "return ed" == SpacedReturn + "ed"
  {
  }

  /** A body that starts with `return` gets its blank right there. */
  lemma FormatBodyAtStart(rest: string)
    ensures FormatBody(ReturnKeyword + rest) == SpacedReturn + rest
  {
    var body := ReturnKeyword + rest;
    assert body[0..6] == ReturnKeyword;
    assert IsFirstOccurrence(body, ReturnKeyword, 0);
    var r := FormatBody(body);
    assert r == r[..6] + [r[6]] + r[7..];
  }

  /** The arguments of `new Function(...fnParams, fnBody)` and of the call
      `func(...valueParams)`. */
  datatype RunInputs<V> = RunInputs(fnParams: seq<Arg<V>>, valueParams: seq<Arg<V>>, fnBody: string)

  /** Lines 60-65 of `handleRunCode`: extract, materialize both parameter
      texts, and rewrite the body. Without a parenthesized region the
      declared parameters are the single empty text; without a braced region
      the body is empty; there is one argument value per comma-separated
      field of `paramsValues`. */
  function PrepareRun<V>(translatedCode: string, paramsValues: string, parse: string -> Option<V>): (r: RunInputs<V>)
    ensures NoMatch(translatedCode, '{', '}') ==> r.fnBody == ""
    ensures NoMatch(translatedCode, '(', ')') && parse("") == None ==> r.fnParams == [Raw("")]
    ensures |r.valueParams| == multiset(paramsValues)[','] + 1
    ensures '}' !in r.fnBody
  {
    var components := ExtractFunctionComponents(translatedCode);
    EmptyParamsWithoutParentheses(translatedCode, parse);
    FormatBodyKeepsOut(components.body, '}');
    RunInputs(
      ProcessParameters(components.params, parse),
      ProcessParameters(paramsValues, parse),
      FormatBody(components.body))
  }

  /** Without a parenthesized region the one declared parameter is the
      empty text. */
  lemma EmptyParamsWithoutParentheses<V>(code: string, parse: string -> Option<V>)
    ensures NoMatch(code, '(', ')') && parse("") == None ==>
      ProcessParameters(ExtractFunctionComponents(code).params, parse) == [Raw("")]
  {
    if NoMatch(code, '(', ')') && parse("") == None {
      EmptyTextYieldsOneValue(parse);
    }
  }

  /** The rewrite adds only a blank, so it introduces no other character. */
  lemma FormatBodyKeepsOut(body: string, c: char)
    requires c != ' ' && c !in body
    ensures c !in FormatBody(body)
  {
    var r := FormatBody(body);
    if Contains(body, ReturnKeyword) {
      assert multiset(r)[c] == multiset(body)[c];
    }
  }
}
