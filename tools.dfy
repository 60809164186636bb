/** `all_tools` of tools.py: the three tools by name, and what each one
    replies to a text. */
module Tools {
  import opened Wrappers
  import Calculator
  import Currency
  import DateTime

  datatype ToolKind = CalculatorTool | CurrencyTool | DateTimeTool

  datatype Tool = Tool(name: string, kind: ToolKind)

  /** The registered tools, in order. */
  const AllTools: seq<Tool> := [
    Tool("Calculator", CalculatorTool),
    Tool("CurrencyConverter", CurrencyTool),
    Tool("DateTime", DateTimeTool)
  ]

  /** The outside world the tools depend on: Python's parser, the rendering
      of numbers, the clock with `strftime`, and the reply to a power with a
      fractional exponent, which the model does not evaluate. */
  datatype Environment = Environment(
    parse: string -> Calculator.ParseOutcome,
    render: real -> string,
    fixed2: real -> string,
    strftime: string -> string,
    fractionalPower: string -> string)

  /** `tool.func(text)`. */
  function Run(kind: ToolKind, text: string, env: Environment): string {
    match kind
    case CalculatorTool =>
      var o := Calculator.Calculate(text, env.parse);
      if o.PowerOutsideModel? then env.fractionalPower(text)
      else Calculator.Message(o, env.render)
    case CurrencyTool => Currency.Message(Currency.Convert(text), env.fixed2)
    case DateTimeTool => DateTime.DateTimeReply(text, env.strftime)
  }

  /** The tool registered under a name, if any. */
  function Lookup(name: string): (r: Option<Tool>)
    ensures r.Some? <==> exists i :: 0 <= i < |AllTools| && AllTools[i].name == name
    ensures r.Some? ==> r.value in AllTools && r.value.name == name
  {
    if name == "Calculator" then Some(AllTools[0])
    else if name == "CurrencyConverter" then Some(AllTools[1])
    else if name == "DateTime" then Some(AllTools[2])
    else None
  }

  /** No two tools share a name, and each kind is registered once. */
  lemma NamesDistinct()
    ensures forall i, j :: 0 <= i < j < |AllTools| ==> AllTools[i].name != AllTools[j].name
    ensures forall i, j :: 0 <= i < j < |AllTools| ==> AllTools[i].kind != AllTools[j].kind
  {
    assert |"Calculator"| == 10 && |"CurrencyConverter"| == 17 && |"DateTime"| == 8;
  }
}
