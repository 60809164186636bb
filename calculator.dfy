/** `calculator` of tools.py: normalise the text, parse it, evaluate the tree
    with the whitelist, and turn every outcome into one of a few fixed
    messages. Python's parser is not modelled: it is the parameter `parse`. */
module Calculator {
  import opened Text
  import opened SafeEval
  import opened Normalizer

  /** What `ast.parse(expr, mode="eval").body` does with a text: a tree, a
      `SyntaxError` or `ValueError` (caught together), or any other exception
      with its message. */
  datatype ParseOutcome = Parsed(tree: Expr) | Rejected | Crashed(message: string)

  /** The outcomes `calculator` distinguishes. `PowerOutsideModel` is a power
      with a fractional exponent, whose inexact float result is not modelled. */
  datatype CalcOutcome =
    | Result(value: real)
    | DivisionByZero
    | InvalidExpression
    | NoExpression
    | EvaluationError(message: string)
    | PowerOutsideModel

  /** `calculator(expression)`. */
  function Calculate(expression: string, parse: string -> ParseOutcome): (r: CalcOutcome)
    ensures r == NoExpression <==> Normalize(expression) == []
    ensures r.Result? ==>
              && Normalize(expression) != []
              && parse(Normalize(expression)).Parsed?
              && Eval(parse(Normalize(expression)).tree) == Val(r.value)
              && Whitelisted(parse(Normalize(expression)).tree)
    ensures r == DivisionByZero <==>
              && Normalize(expression) != []
              && parse(Normalize(expression)).Parsed?
              && Eval(parse(Normalize(expression)).tree) == Raised(ZeroDivision)
    ensures r == InvalidExpression <==>
              && Normalize(expression) != []
              && (|| parse(Normalize(expression)).Rejected?
                  || (&& parse(Normalize(expression)).Parsed?
                      && Eval(parse(Normalize(expression)).tree).Raised?
                      && IsUnsupported(Eval(parse(Normalize(expression)).tree).failure)))
    ensures r.EvaluationError? <==> Normalize(expression) != [] && parse(Normalize(expression)).Crashed?
    ensures Normalize(expression) != [] && parse(Normalize(expression)).Parsed?
            && Eval(parse(Normalize(expression)).tree).Val?
            ==> r == Result(Eval(parse(Normalize(expression)).tree).v)
    ensures r == PowerOutsideModel <==>
              && Normalize(expression) != []
              && parse(Normalize(expression)).Parsed?
              && Eval(parse(Normalize(expression)).tree) == Raised(FractionalPower)
  {
    var expr := Normalize(expression);
    if expr == [] then NoExpression else Evaluate(parse(expr))
  }

  /** The rest of `calculator` once the expression is not empty: what it
      answers for each thing the parser can make of the expression. */
  function Evaluate(p: ParseOutcome): (r: CalcOutcome)
    ensures r != NoExpression
    ensures r.Result? <==> p.Parsed? && Eval(p.tree).Val?
    ensures r.Result? ==> r.value == Eval(p.tree).v && Whitelisted(p.tree)
    ensures r == DivisionByZero <==> p.Parsed? && Eval(p.tree) == Raised(ZeroDivision)
    ensures r == PowerOutsideModel <==> p.Parsed? && Eval(p.tree) == Raised(FractionalPower)
    ensures r == InvalidExpression <==>
              || p.Rejected?
              || (p.Parsed? && Eval(p.tree).Raised? && IsUnsupported(Eval(p.tree).failure))
    ensures r.EvaluationError? <==> p.Crashed?
  {
    match p
    case Rejected => InvalidExpression
    case Crashed(m) => EvaluationError(m)
    case Parsed(e) =>
      WhitelistDecides(e);
      match Eval(e)
      case Val(v) => Result(v)
      case Raised(ZeroDivision) => DivisionByZero
      case Raised(FractionalPower) => PowerOutsideModel
      case Raised(_) => InvalidExpression
  }

  const ErrorTag := "Error: "
  const NoExpressionMessage := ErrorTag + "No mathematical expression found."
  const DivisionMessage := ErrorTag + "Division by zero is not allowed"
  const InvalidMessage := ErrorTag + "Invalid or unsupported mathematical expression"
  const ResultPrefix := "Result: "
  const EvaluationPrefix := "Error evaluating expression: "

  /** The string `calculator` returns; `render` stands for Python's `str` of
      the number. */
  function Message(o: CalcOutcome, render: real -> string): string
    requires !o.PowerOutsideModel?
  {
    match o
    case Result(v) => ResultPrefix + render(v)
    case DivisionByZero => DivisionMessage
    case InvalidExpression => InvalidMessage
    case NoExpression => NoExpressionMessage
    case EvaluationError(m) => EvaluationPrefix + m
  }

  /** The caller can tell every outcome apart from its message: a result never
      reads as an error, and no two error outcomes share a message. */
  lemma MessagesDistinct(o1: CalcOutcome, o2: CalcOutcome, render: real -> string)
    requires !o1.PowerOutsideModel? && !o2.PowerOutsideModel?
    requires !o1.Result? || !o2.Result?
    requires Message(o1, render) == Message(o2, render)
    ensures o1 == o2
  {
    MessageMarks(o1, render);
    MessageMarks(o2, render);
    if o1.EvaluationError? && o2.EvaluationError? {
      var m := Message(o1, render);
      assert o1.message == m[|EvaluationPrefix|..];
      assert o2.message == m[|EvaluationPrefix|..];
    }
  }

  /** The characters that tell the kinds of message apart: the first one
      separates results from errors, the sixth the evaluation error from the
      fixed messages, and the length the fixed messages from each other. */
  lemma MessageMarks(o: CalcOutcome, render: real -> string)
    requires !o.PowerOutsideModel?
    ensures |Message(o, render)| > 6
    ensures Message(o, render)[0] == 'R' <==> o.Result?
    ensures !o.Result? ==> (Message(o, render)[5] == ' ' <==> o.EvaluationError?)
    ensures o == DivisionByZero <==> Message(o, render) == DivisionMessage
    ensures o == InvalidExpression <==> Message(o, render) == InvalidMessage
    ensures o == NoExpression <==> Message(o, render) == NoExpressionMessage
  {
    var m := Message(o, render);
    assert DivisionMessage[0] == ErrorTag[0] && DivisionMessage[5] == ErrorTag[5];
    assert InvalidMessage[0] == ErrorTag[0] && InvalidMessage[5] == ErrorTag[5];
    assert NoExpressionMessage[0] == ErrorTag[0] && NoExpressionMessage[5] == ErrorTag[5];
    match o
    case Result(v) =>
      assert m[0] == ResultPrefix[0];
    case EvaluationError(e) =>
      assert m[0] == EvaluationPrefix[0] && m[5] == EvaluationPrefix[5];
    case DivisionByZero =>
    case InvalidExpression =>
    case NoExpression =>
  }

  /** A tree with a node outside the whitelist never produces a result. */
  lemma RejectsNonWhitelisted(expression: string, parse: string -> ParseOutcome)
    requires Normalize(expression) != [] && parse(Normalize(expression)).Parsed?
    requires !Whitelisted(parse(Normalize(expression)).tree)
    ensures Calculate(expression, parse) in {InvalidExpression, DivisionByZero, PowerOutsideModel}
  {
    WhitelistDecides(parse(Normalize(expression)).tree);
  }

  /** Text made only of whitespace holds no expression. */
  lemma WhitespaceHasNoExpression(text: string, parse: string -> ParseOutcome)
    requires AllSpace(text)
    ensures Calculate(text, parse) == NoExpression
  {
    assert Lower(text) == text;
    WhitespaceKept(text);
    WhitespaceExtract(text);
  }

  lemma WhitespaceKept(text: string)
    requires AllSpace(text)
    ensures Rewrite(text) == text
  {
    forall i | 0 <= i < 10
      ensures Replacements[i].0[0] !in text
    {
      assert !IsSpace(Replacements[i].0[0]);
    }
    KeepsFrom(text, 0);
  }

  lemma WhitespaceExtract(text: string)
    requires AllSpace(text)
    ensures Extract(text) == []
  {
    if text != [] {
      var sp := Span(0, |text|);
      assert text[sp.start..sp.end] == text;
      assert IsRun(text, sp);
      RunsFromExact(text, 0);
      assert sp in Runs(text);
      assert forall o :: o in Runs(text) ==> o.start == 0;
      assert Runs(text) == [sp];
      assert StripStart(text) == [];
    }
  }

  /** `calculator("128 * 46")` is `Result: 5888`, given the tree Python's
      parser builds for the text. */
  lemma ProductExample(parse: string -> ParseOutcome)
    requires parse("128 * 46") == Parsed(BinOp(Mult, Const(128.0), Const(46.0)))
    ensures Calculate("128 * 46", parse) == Result(5888.0)
  {
    var s := "128 * 46";
    forall i | 0 <= i < |s|
      ensures InClass(s[i]) && s[i] != '^' && (IsSpace(s[i]) ==> s[i] == ' ')
    {
      if i == 0 {} else if i == 1 {} else if i == 2 {} else if i == 3 {}
      else if i == 4 {} else if i == 5 {} else if i == 6 {} else {}
    }
    assert Canonical(s);
    NormalizeFixes(s);
    SafeEval.Examples();
  }

  /** `calculator("10 / 0")` reports the division by zero. */
  lemma DivisionExample(parse: string -> ParseOutcome)
    requires parse("10 / 0") == Parsed(BinOp(Div, Const(10.0), Const(0.0)))
    ensures Calculate("10 / 0", parse) == DivisionByZero
  {
    var s := "10 / 0";
    DivisionCanonical(s);
    NormalizeFixes(s);
    SafeEval.DivisionByZero(Div, Const(10.0), Const(0.0));
  }

  lemma DivisionCanonical(s: string)
    requires s == "10 / 0"
    ensures Canonical(s) && s != []
  {
    forall i | 0 <= i < |s|
      ensures InClass(s[i]) && s[i] != '^' && (IsSpace(s[i]) ==> s[i] == ' ')
    {
      if i == 0 {} else if i == 1 {} else if i == 2 {} else if i == 3 {} else if i == 4 {} else {}
    }
  }

  /** `calculator("10 + abc")`: the word is dropped, and what is left, "10 +",
      is not an expression Python's parser accepts. */
  lemma InvalidExample(parse: string -> ParseOutcome)
    requires parse("10 +") == Rejected
    ensures Calculate("10 + abc", parse) == InvalidExpression
  {
    TrailingWord();
  }

  /** A single word has no arithmetic run, so it is handed to the parser
      whole; its name node is then refused. */
  lemma WordIsRefused(parse: string -> ParseOutcome)
    requires parse("hello") == Parsed(Other(Name))
    ensures Calculate("hello", parse) == InvalidExpression
  {
    NoRunKeepsText();
  }

  /** Two words have only the space between them as a run, which strips to
      nothing. */
  lemma TwoWordsHaveNoExpression(parse: string -> ParseOutcome)
    ensures Calculate("hello world", parse) == NoExpression
  {
    SpaceRunIsEmpty();
  }
}
