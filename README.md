# A verified model of the assistant's tools and tool router

The assistant answers a question in one of two ways. Its router (`identify_tool`
in agent.py) tries three pattern tests in order and may pick one of three
deterministic tools. If it picks none, the question goes to a language-model
agent. The three tools are:

- the calculator: it normalises natural-language arithmetic, then evaluates the
  syntax tree with a whitelist of operators;
- the currency converter: it uses a fixed table of example rates;
- the date/time tool: it picks one of four formats by keywords.

`process_question` runs the chosen tool, or else the agent. It turns every
exception into an error reply, and it tells authorization failures apart from
other failures.

The Dafny project models that core, one module per component:

| module | file | models |
|---|---|---|
| `Text` | text.dfy | the Python string operations the tools use: `lower`, `upper`, `in`, `strip`, `split`, `replace`, and `re.sub(r"\s+", " ", …)` |
| `SafeEval` | safe_eval.dfy | the syntax tree, `_ALLOWED_OPERATORS`, `_eval_ast`, Python's floor `%` and integral `**` |
| `Normalizer` | normalizer.dfy | `_normalize_expression`: the substitution loop (a method), and the run extraction specified by `re.findall`, maximality and `max(..., key=len)` |
| `Calculator` | calculator.dfy | `calculator`: the outcomes it tells apart and their fixed messages |
| `Currency` | currency.dfy | `currency_converter`: rate table, tokenising, the order of the checks, `float()` on decimal text |
| `DateTime` | datetime.dfy | `date_time`: which of the four formats is chosen |
| `Tools` | tools.dfy | `all_tools`: the three names and what each tool replies |
| `Router` | router.dfy | `identify_tool`: each regular expression is given declaratively and as a scanner, and lemmas prove the two agree |
| `Agent` | agent.dfy | `process_question`: the search loop over the tools and the classification of errors |

Numbers are exact `real`s. Everything the core takes from outside is a parameter:

- Python's parser `ast.parse`;
- the rendering of numbers (`str`, `:.2f`);
- the clock with `strftime`;
- what the agent's `invoke` returns or raises.

Four behaviours of the code that are easy to miss:

- When the rewritten text holds no arithmetic character, `_normalize_expression` keeps the whole rewritten text (tools.py:70-71). `Normalizer.NormalizeShape` states this. So a single word such as "hello" is handed to the parser and reported as an invalid expression (`Calculator.WordIsRefused`). "hello world", whose only run is the space between the words, strips to nothing and gives "No mathematical expression found." (`Calculator.TwoWordsHaveNoExpression`).
- `_ALLOWED_OPERATORS` holds `ast.Mod` (tools.py:17), but the router's calculator pattern has no `%` (agent.py:29). So "10 % 3" is answered by the agent and not by the calculator (`Router.RoutesModulo`).
- With the model's exact rates, converting there and back gives the amount exactly (`Currency.RoundTrip`). The code's floating-point rates round.
- The test script expects `calculator("sqrt of 144")` to contain "12" (tests.py:20). The code has no square root: the longest run of arithmetic characters is " 144", so the text normalises to "144" (`Normalizer.LongestRunWins`), and the reply is `Result: 144`.

## Model

| member | source | states |
|---|---|---|
| SafeEval.BinaryTable | tools.py:10-18 | a binary operator is in the table exactly when it is one of `+ - * / ** %`, and each maps to its own arithmetic: `Add` to addition, `Sub` to subtraction, `Mult` to multiplication, `Div` to true division, `Pow` to power, `Mod` to modulo; `//` and every other tag are absent |
| SafeEval.BinaryArithmetic | tools.py:26-32 | for every pair of operands with values, `+ - *` give the sum, difference and product, `/` the quotient and `%` Python's remainder when the divisor is not zero, and `**` Python's power |
| SafeEval.Negation | tools.py:34-37 | unary minus gives the negated value of its operand |
| SafeEval.UnaryTable | tools.py:10-18 | unary negation is the only unary operator in the table; unary `+` is absent |
| SafeEval.PyMod | tools.py:17 | Python's `%`: `(a - r) / b` is an integer, and the remainder has the sign of the divisor and is smaller than it in magnitude |
| SafeEval.PyModAgainstEuclidean | tools.py:17 | for a positive divisor, Python's `%` agrees with the Euclidean remainder on integers |
| SafeEval.PyModNegativeDivisor | tools.py:17 | for a negative divisor they differ: `7 % -2` is `-1` in Python |
| SafeEval.PyPow | tools.py:15 | `**` with a natural exponent is repeated multiplication, and with a negative integer exponent it is the reciprocal. A negative exponent raises `ZeroDivisionError` exactly when the base is zero, whether or not the exponent is an integer. A zero base to a positive power gives zero. `FractionalPower` arises exactly for a non-zero base with a non-integer exponent |
| SafeEval.WhitelistDecides | tools.py:21-39 | deny by default: a tree that yields a value holds only constants and table operators, and a whitelisted tree never fails as unsupported |
| SafeEval.WhitelistedTotal | tools.py:21-39 | inside the whitelist, the only failures are division by zero and fractional powers; without `/`, `%` and `**` evaluation always yields a value |
| SafeEval.ErrorPrecedence | tools.py:26-32 | the left operand is evaluated first, then the right one, then the operator is looked up; the first exception raised wins |
| SafeEval.DivisionByZero | tools.py:14-17 | `/` and `%` raise `ZeroDivisionError` whenever the divisor evaluates to zero, whatever the dividend and however either was computed |
| SafeEval.Examples | tests.py:15-19 | `2 + 2` is 4, `128 * 46` is 5888, `100 / 5` is 20, `2 ** 10` is 1024, `(10 + 5) * 3` is 45 |
| SafeEval.OperatorExamples | tools.py:10-39 | `10 - 15` is -5, `7 % -2` is -1, `-4` is -4, and `0 ** -0.5` raises `ZeroDivisionError`; `//`, unary `+` and a name are rejected |
| SafeEval.Eval | tools.py:21-39 | `_eval_ast` as a recursive function with no contract of its own. Its properties are carried by `WhitelistDecides`, `WhitelistedTotal`, `ErrorPrecedence`, `BinaryArithmetic`, `Negation` and `DivisionByZero` |
| Calculator.Calculate | tools.py:78-99 | an empty normalised text gives "no expression"; a parse failure or an unsupported node gives "invalid"; division by zero gives its own outcome; a parsed tree that evaluates to a value always gives that value as the result, and a result comes from nothing else; the fractional-power outcome arises exactly when evaluation hits a fractional exponent |
| Calculator.Evaluate | tools.py:90-99 | for the outcome of the parser: a value gives that result and only a value does; division by zero, a fractional power, a parse failure or an unsupported node, and a reported parser error each give their own outcome, each as an if-and-only-if |
| Calculator.Message | tools.py:87-99 | the reply text for each outcome, with no contract of its own. The fixed messages are the source's literals, and the result is `Result: ` before the rendering parameter. `MessageMarks` and `MessagesDistinct` carry its properties |
| Calculator.MessageMarks | tools.py:87-99 | a result message is the only one that does not start with `Error`; each fixed error message belongs to exactly one outcome |
| Calculator.MessagesDistinct | tools.py:87-99 | two outcomes with the same message are the same outcome, unless both are results |
| Calculator.RejectsNonWhitelisted | tools.py:91-97 | a tree with a node outside the whitelist never produces a result |
| Calculator.WhitespaceHasNoExpression | tools.py:86-88 | text made only of whitespace gives "No mathematical expression found." |
| Calculator.ProductExample | tests.py:16 | `calculator("128 * 46")` gives the result 5888 |
| Calculator.DivisionExample | tests.py:29 | `calculator("10 / 0")` reports division by zero |
| Calculator.WordIsRefused | tools.py:70-95 | a single word has no run, so it reaches the parser whole and its name node is refused as an invalid expression |
| Calculator.TwoWordsHaveNoExpression | tools.py:66-88 | "hello world" has only a space as its run, which strips to nothing, so no expression is found |
| Calculator.InvalidExample | tests.py:30 | `calculator("10 + abc")` reports an invalid expression, given that Python's parser rejects "10 +" |
| Normalizer.NormalizeExpression | tools.py:42-75 | the loop applies the substitutions in table order to the lower-cased text, and the method returns the normalised expression |
| Normalizer.Normalize | tools.py:42-75 | the specification of `_normalize_expression`: collapse, after extraction of the longest run, after the substitutions on the lower-cased text. It has no contract of its own; `NormalizeShape`, `NormalizeFixes`, `NormalizeIdempotent` and `ChosenRun` carry its properties, and `NormalizeExpression` is proved equal to it |
| Normalizer.ApplyAllRemoves | tools.py:62-63 | a one-character key that neither its own value nor any later value holds does not survive the loop |
| Normalizer.RewriteRemoves | tools.py:49-63 | no `x` (even inside a word) and no `^` survives the substitutions |
| Normalizer.RunsFromExact | tools.py:66 | the runs listed are exactly the maximal non-empty runs of class characters, left to right |
| Normalizer.RunsEmptyIff | tools.py:66-67 | there is no run exactly when the text holds no class character |
| Normalizer.FirstLongest | tools.py:69 | the chosen index holds a longest run, and every earlier run is strictly shorter |
| Normalizer.ChosenRun | tools.py:66-69 | the kept run is a maximal run, as long as any other, and the leftmost of the longest |
| Normalizer.NormalizeShape | tools.py:66-75 | with a run, the output holds only class characters other than `^`, single plain spaces and no space at either end; without one it is the rewritten text; it never holds `^` or `x` |
| Normalizer.NormalizeFixes | tools.py:42-75 | a non-empty canonical expression is left unchanged |
| Normalizer.NormalizeIdempotent | tools.py:42-75 | normalising twice equals normalising once, for every text |
| Normalizer.NoRunFixed | tools.py:62-71 | when the rewritten text has no run, no substitution fired: the output is the lower-cased text, which normalises to itself |
| Normalizer.ReplaceChanges | tools.py:63 | a substitution whose value starts with an arithmetic symbol either changes nothing or leaves that symbol in the text |
| Normalizer.ApplyAllClassFree | tools.py:62-63 | if the substitution loop leaves no arithmetic character, it changed nothing |
| Normalizer.PowerPhrase | tools.py:45-63 | "to the power of" is rewritten before "power of": "2 to the power of 8" becomes "2 ** 8" |
| Normalizer.TimesPhrase | tools.py:45-63 | "128 times 46" becomes "128 * 46" |
| Normalizer.LongestRunWins | tools.py:66-74 | the longest run is kept whatever surrounds it: "sqrt of 144" becomes "144" |
| Normalizer.NoRunKeepsText | tools.py:70-71 | text without a run of arithmetic characters is kept whole: "hello" stays "hello" |
| Normalizer.SpaceRunIsEmpty | tools.py:66-75 | a whitespace-only longest run strips to the empty text: "hello world" becomes "" |
| Normalizer.TrailingWord | tools.py:66-74 | a word ends the run and trailing whitespace is stripped: "10 + abc" becomes "10 +" |
| Currency.RatesShape | tools.py:112-116 | three currencies, each with exactly the other two as targets, every rate positive |
| Currency.NoSelfRate | tools.py:112-116 | no currency has a rate to itself |
| Currency.RatesReciprocal | tools.py:112-116 | every listed pair is listed both ways, and the two rates multiply to 1 |
| Currency.ConvertAmount | tools.py:131-132 | the converted amount is zero or positive exactly when the amount is |
| Currency.RoundTrip | tools.py:112-132 | converting there and back gives the original amount exactly |
| Currency.ParseAmount | tools.py:122 | a parsed number is non-empty and made only of digits, signs and points |
| Currency.ParseDecimal | tools.py:122 | every decimal numeral with an optional sign (such as "1.5", ".5", "1.", "-12") is read as its value, and the digits after the point add less than one |
| Currency.ParseAmountForms | tools.py:122 | every accepted text is such a numeral, read as its value |
| Currency.ParseNatText | tools.py:122 | the text of a whole number, with or without a minus sign, reads back as that number |
| Currency.ParseRejects | tools.py:122 | text with any other character is not a number |
| Currency.ConvertParts | tools.py:118-135 | checks in order: format, then amount, then source code, then target code; codes are upper-cased and named in the errors; a conversion is the amount times the table rate |
| Currency.Convert | tools.py:118-119 | `currency_converter` on the split entry, with no contract of its own; `ConvertParts` carries its properties and `DollarsToReais`, `MissingSpace` and `UnknownTarget` its examples |
| Currency.Message | tools.py:120-135 | the reply text for each conversion outcome, with no contract of its own. The error texts are the source's literals with the upper-cased code, and an amount is `amount source = result target` under the `:.2f` rendering parameter |
| Currency.SameCurrencyRefused | tools.py:128-129 | converting a supported currency into itself is an unsupported-target error |
| Currency.CaseInsensitive | tools.py:119-124 | requests that differ only in the case of the codes and of `to` get the same answer |
| Currency.ToWord | tools.py:119 | the third token passes exactly when it is `to` in some mix of cases |
| Currency.DollarsToReais | tools.py:118-133 | "100 USD to BRL" converts 100 dollars into 533 reais |
| Currency.MissingSpace | tools.py:118-120 | "100USD to BRL" has three tokens and is a format error |
| Currency.UnknownTarget | tools.py:126-129 | "10 BRL to JPY" is refused as an unsupported target, naming JPY |
| DateTime.SelectFormat | tools.py:150-159 | exactly one format is chosen: both words give date and time, only "date" the date, only "time" the time, neither the "Now" format, all on the lower-cased query |
| DateTime.Pattern | tools.py:152-159 | the `strftime` pattern of each format, as the source's literals; no contract of its own |
| DateTime.DateTimeReply | tools.py:149-159 | `date_time`: the clock's `strftime` applied to the pattern of the selected format, with no contract of its own; `SelectFormat` carries the choice |
| DateTime.StripKeeps | tools.py:150-152 | stripping the query never changes whether it holds "date" or "time" |
| DateTime.CaseBlind | tools.py:150 | queries equal after lower-casing get the same format |
| DateTime.DateQuery | tools.py:144-155 | the query "date" selects the date-only format |
| DateTime.TimeQuery | tools.py:144-157 | the query "time" selects the time-only format |
| DateTime.DateAndTimeQuery | tools.py:144-153 | the query "date and time" selects the date-and-time format |
| Tools.Lookup | tools.py:162-196 | a name is found exactly when some registered tool has it, and the tool found has that name |
| Tools.Run | agent.py:44 | `tool.func(question)` for each registered kind, with no contract of its own: the calculator's message, the converter's message, or the date/time reply. `Calculate`, `ConvertParts` and `SelectFormat` carry their properties |
| Tools.NamesDistinct | tools.py:192-196 | no two registered tools share a name or a kind |
| Router.CurrencyScan | agent.py:25 | the left-to-right scan finds the currency pattern exactly when the declarative pattern matches somewhere |
| Router.CalcScan | agent.py:29 | the scan finds the calculator pattern exactly when the declarative pattern matches somewhere |
| Router.IdentifyTool | agent.py:21-35 | first match wins: currency pattern, then calculator pattern on the lower-cased text, then a keyword, then none; every name returned is a registered tool |
| Router.CurrencyCaseBlind | agent.py:25 | the currency pattern ignores case |
| Router.DigitFree | agent.py:21-35 | a question without digits is routed by the keywords alone |
| Router.CurrencyNeedsO | agent.py:25 | without the letter o there is no currency match |
| Router.NoKeyword | agent.py:32-33 | a question without d, m and o has no keyword |
| Router.RoutesCurrency | agent.py:24-26 | "100 USD to BRL" goes to the currency converter |
| Router.RoutesProduct | agent.py:28-30 | "What is 128 times 46?" goes to the calculator |
| Router.RoutesClock | agent.py:32-33 | "What time is it now?" and "What is the date today?" go to the date/time tool |
| Router.RoutesAgent | agent.py:21-35 | "What is artificial intelligence?" goes to the agent |
| Router.RoutesKnow | agent.py:32-33 | keywords match inside words: "Do you know Python?" goes to the date/time tool |
| Router.RoutesDividedBy | agent.py:29 | "10 divided by 2" is not a calculator match, because "divided" must be followed by a number |
| Router.RoutesModulo | agent.py:29 | "10 % 3" is not a calculator match, because the operator group has no `%`; it goes to the agent |
| Agent.Classify | agent.py:49-60 | an exception text holding "403", "Unauthorized" or "access_denied" gets the authorization message, any other the apology followed by the text; the text is kept as the error either way |
| Agent.AgentResponse | agent.py:47-60 | the agent's output and echoed input when it returns an output; otherwise exactly `Classify` of the exception text, with a missing output read as the `KeyError` text `'output'` |
| Agent.AgentReplies | agent.py:47-60 | an answer when the output is there; for an exception, the authorization advice exactly when its text holds an authorization marker and the apology with the text otherwise; a missing output always gets the apology |
| Agent.ProcessQuestion | agent.py:37-60 | a routed question goes unchanged to the tool registered under the router's name, and the agent is not asked; any other question gets the agent's reply; nothing escapes |
| Text.ContainsIff | agent.py:32-33 | Python's `w in s` holds exactly when `w` occurs at some index |
| Text.Strip | tools.py:69 | `strip()` gives the part of the text between whitespace-only ends, with no whitespace at its own ends |
| Text.ContainsStrip | tools.py:150-152 | a word without whitespace occurs in the stripped text exactly when it occurs in the text |
| Text.CollapseKeeps | tools.py:74 | `re.sub(r"\s+", " ", …)` keeps the other characters in order and leaves only single plain spaces, at the ends only where the text had whitespace |
| Text.CollapseLayout | tools.py:74 | for every text cut into words and whitespace gaps, each non-empty gap, inside or at either end, becomes exactly one plain space and the words are kept |
| Text.LayoutOf | tools.py:74 | every text can be cut into words and whitespace gaps, with a non-empty gap between two words |
| Text.CollapseCanonical | tools.py:74 | text already single-spaced is unchanged |
| Text.Split | tools.py:118 | `split()` gives non-empty tokens without whitespace, which together are the text's non-whitespace characters |
| Text.SplitJoin | tools.py:118 | splitting words joined by single spaces gives the words back |
| Text.SplitLayout | tools.py:118 | for every text cut into words and whitespace gaps, `split()` gives exactly the words: a token never spans a gap and never stops inside a word |
| Text.ReplaceAll | tools.py:63 | every character of the result comes from the text or the value; a one-character key absent from its value is gone |
| Text.ReplaceFirst | tools.py:63 | when the key occurs, the text before its first occurrence is kept, that occurrence becomes the value, and replacing goes on after it |
| Text.ReplaceAbsent | tools.py:63 | a key whose first character does not occur changes nothing |
| Text.ReplaceIdentity | tools.py:60-63 | replacing a key by itself (the `%` entry) changes nothing |
| Text.ReplaceMissing | tools.py:62-63 | a key that does not occur changes nothing |

## Left out

- `ast.parse` is a parameter. Python's grammar is not modelled, so the model cannot say which text parses to which tree.
- SafeEval.Eval: only numeric constants are modelled. When the rewritten text has no arithmetic character, the whole text is parsed, and a string literal there would evaluate to itself. A run made only of points, such as "...", normalises to "...", which Python parses as the constant `Ellipsis`, so the reply is "Result: Ellipsis". The model has neither kind of constant.
- SafeEval.Eval: the model follows Python 3.11 to 3.13. On those versions the `ast.Num` test at tools.py:24 runs only after the `ast.Constant` test has failed, and it never holds, so it changes nothing. Python 3.14 removed `ast.Num`. There, tools.py:24 raises `AttributeError` for every node that is not a constant, and the handler at tools.py:98-99 answers "Error evaluating expression: module 'ast' has no attribute 'Num'" for `2 + 2` and every other operator expression. The model does not capture that behaviour.
- SafeEval.PyPow: a non-zero base with a non-integer exponent yields the outcome `FractionalPower`. Python computes a float there: sometimes exact, as `4 ** 0.5` is `2.0`, in general rounded, and a complex number for a negative base. The calculator's reply to it is a parameter. A zero base is modelled exactly: a negative exponent raises `ZeroDivisionError` and a positive one gives zero.
- Floating point is not modelled. That covers `/` producing floats, rounding, overflow, and the `str` and `:.2f` rendering of numbers.
- Calculator.Calculate: the text of "Error evaluating expression: …" is whatever message the parser parameter reports. Exceptions raised during evaluation other than the modelled ones are not modelled (type errors on non-numeric constants, recursion depth).
- Currency.ParseAmount models `float()` on decimal text only. The model reads exponent forms (`1e3`), `inf`, `nan`, underscores between digits and surrounding whitespace as invalid numbers, although Python accepts them.
- Calculator.Message: Python 3.11 and later refuse to turn an integer of more than 4300 digits into text. So for `10 ** 5000` the f-string at tools.py:93 raises `ValueError`, and the handler at tools.py:96-97 answers with the invalid-expression message. The model keeps the result and leaves its text to the parameter `render`.
- Currency.Message takes the `:.2f` rendering of amounts as a parameter.
- DateTime: `datetime.now()` and `strftime` are the parameter `strftime`. Only the choice of format is modelled.
- Character classes are ASCII throughout. That covers `lower`, `upper`, `split`, `strip`, and the classes `\d`, `\s`, `\w` and `[A-Za-z]` under `re.IGNORECASE`. Python's Unicode digits, spaces and case mappings are not modelled.
- `create_agent` and the LangChain `Tool` objects are not modelled beyond the tool names. The agent's reasoning loop is the parameter `reply` of `ProcessQuestion`.
- app.py (the chat UI), config.py (credentials and the LLM client), prompt.py (the prompt template) and the `__main__` demonstration drivers are not part of this model.
