/** The worked examples of the run feature: a two-parameter function, a
    text without braces, a parameter list without a body, and nested
    parentheses. */
module Scenarios {
  import opened Wrappers
  import opened JsTrim
  import opened Extraction
  import opened Parameters
  import opened RunCode

  /** `function add(a, b) { return a + b; }` yields the parameter text
      `a, b` and the body `return a + b;`. */
  lemma AddFunctionExtracted()
    ensures ExtractFunctionComponents("function add(a, b) { return a + b; }")
      == Components("a, b", "return a + b;")
  {
    AddParams("function add(a, b) { return a + b; }");
    AddBody("function add(a, b) { return a + b; }");
  }

  lemma AddParams(s: string)
    requires s == "function add(a, b) { return a + b; }"
    ensures Capture(s, '(', ')') == "a, b"
  {
    assert s == "function add" + "(" + "a, b" + ")" + " { return a + b; }";
    CaptureOfParts("function add", "a, b", " { return a + b; }", '(', ')');
    AddParamsTrimmed();
  }

  lemma AddParamsTrimmed()
    ensures Trim("a, b") == "a, b"
  {
    TrimOfTrimmed("a, b");
  }

  lemma AddBody(s: string)
    requires s == "function add(a, b) { return a + b; }"
    ensures Capture(s, '{', '}') == "return a + b;"
  {
    assert s == "function add(a, b) " + "{" + " return a + b; " + "}" + "";
    CaptureOfParts("function add(a, b) ", " return a + b; ", "", '{', '}');
    AddBodyTrimmed();
  }

  lemma AddBodyTrimmed()
    ensures Trim(" return a + b; ") == "return a + b;"
  {
    assert " return a + b; " == " " + "return a + b;" + " ";
    SpacedTrim("return a + b;");
  }

  /** One blank on each side is trimmed away. */
  lemma SpacedTrim(t: string)
    requires IsTrimmed(t)
    ensures Trim(" " + t + " ") == t
  {
    var s := " " + t + " ";
    assert s[1..1 + |t|] == t;
    assert TrimmedAt(s, t, 1);
    TrimUnique(s, t, 1);
  }

  /** Running `add` with the argument text `2, 3`: the declared names `a`
      and `b` are not JSON and stay text, the arguments parse, and the body
      gains a second blank after `return`. */
  lemma AddFunctionRun<V>(parse: string -> Option<V>, two: V, three: V)
    requires parse("a") == None && parse("b") == None
    requires parse("2") == Some(two) && parse("3") == Some(three)
    ensures PrepareRun("function add(a, b) { return a + b; }", "2, 3", parse)
      == RunInputs([Raw("a"), Raw("b")], [Parsed(two), Parsed(three)], "return  a + b;")
  {
    AddFunctionExtracted();
    AddNames(parse);
    AddValues(parse, two, three);
    AddFormattedBody();
  }

  lemma AddNames<V>(parse: string -> Option<V>)
    requires parse("a") == None && parse("b") == None
    ensures ProcessParameters("a, b", parse) == [Raw("a"), Raw("b")]
  {
    TwoFields("a, b", "a", "b");
    ProcessTwoPieces("a, b", parse, "a", "b");
  }

  lemma AddValues<V>(parse: string -> Option<V>, two: V, three: V)
    requires parse("2") == Some(two) && parse("3") == Some(three)
    ensures ProcessParameters("2, 3", parse) == [Parsed(two), Parsed(three)]
  {
    TwoFields("2, 3", "2", "3");
    ProcessTwoPieces("2, 3", parse, "2", "3");
  }

  lemma AddFormattedBody()
    ensures FormatBody("return a + b;") == "return  a + b;"
  {
    AddBodySpelled();
    FormatBodyAtStart(" a + b;");
  }

  lemma AddBodySpelled()
    ensures "return a + b;" == ReturnKeyword + " a + b;"
    ensures "return  a + b;" == SpacedReturn + " a + b;"
  {
  }

  /** `const x = 1;` has neither parentheses nor braces: both texts are
      empty, so the declared parameters are the one empty text and the body
      is empty. */
  lemma NoBracesRun<V>(paramsValues: string, parse: string -> Option<V>)
    requires parse("") == None
    ensures ExtractFunctionComponents("const x = 1;") == Components("", "")
    ensures PrepareRun("const x = 1;", paramsValues, parse).fnParams == [Raw("")]
    ensures PrepareRun("const x = 1;", paramsValues, parse).fnBody == ""
  {
    NoOpenerNoMatch("const x = 1;", '(', ')');
    NoOpenerNoMatch("const x = 1;", '{', '}');
  }

  /** Nested parentheses are not balanced: the parameter text stops at the
      first closing parenthesis, inside the default value. */
  lemma NestedParenthesesTruncate()
    ensures ExtractFunctionComponents("function f(a = g(1), b) {}").params == "a = g(1"
  {
    NestedParams("function f(a = g(1), b) {}");
  }

  lemma NestedParams(s: string)
    requires s == "function f(a = g(1), b) {}"
    ensures Capture(s, '(', ')') == "a = g(1"
  {
    assert s == "function f" + "(" + "a = g(1" + ")" + ", b) {}";
    CaptureOfParts("function f", "a = g(1", ", b) {}", '(', ')');
    NestedParamsTrimmed();
  }

  lemma NestedParamsTrimmed()
    ensures Trim("a = g(1") == "a = g(1"
  {
    TrimOfTrimmed("a = g(1");
  }

  /** The two patterns are matched independently: a text with a parameter
      list but no braces keeps its parameter text and has an empty body. */
  lemma ParamsWithoutBody()
    ensures ExtractFunctionComponents("function f(x)") == Components("x", "")
  {
    OnlyParams("function f(x)");
    NoOpenerNoMatch("function f(x)", '{', '}');
  }

  lemma OnlyParams(s: string)
    requires s == "function f(x)"
    ensures Capture(s, '(', ')') == "x"
  {
    assert s == "function f" + "(" + "x" + ")" + "";
    CaptureOfParts("function f", "x", "", '(', ')');
    OneLetterTrimmed();
  }

  lemma OneLetterTrimmed()
    ensures Trim("x") == "x"
  {
    TrimOfTrimmed("x");
  }
}
