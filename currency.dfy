/** `currency_converter` of tools.py: "AMOUNT FROM to TO" converted with a
    fixed table of example rates. Amounts and rates are exact reals; the
    two-decimal rendering of the reply is the parameter `fixed2`. */
module Currency {
  import opened Wrappers
  import opened Text

  /** The rate table: for each supported source code, the rate to each
      supported target code. */
  const Rates: map<string, map<string, real>> :=
    map[
      "USD" := map["BRL" := 5.33, "EUR" := 0.86],
      "BRL" := map["USD" := 1.0 / 5.33, "EUR" := 1.0 / 6.19],
      "EUR" := map["USD" := 1.0 / 0.86, "BRL" := 6.19]
    ]

  /** Three currencies, each convertible into exactly the two others. */
  lemma RatesShape()
    ensures Rates.Keys == {"USD", "BRL", "EUR"}
    ensures forall a :: a in Rates ==> Rates[a].Keys == Rates.Keys - {a}
    ensures forall a, b :: a in Rates && b in Rates[a] ==> Rates[a][b] > 0.0
  {
    assert Rates["USD"].Keys == {"BRL", "EUR"};
    assert Rates["BRL"].Keys == {"USD", "EUR"};
    assert Rates["EUR"].Keys == {"USD", "BRL"};
    assert "USD" != "BRL" && "USD" != "EUR" && "BRL" != "EUR";
  }

  /** No currency has a rate to itself. */
  lemma NoSelfRate(a: string)
    requires a in Rates
    ensures a !in Rates[a]
  {
    RatesShape();
    assert Rates[a].Keys == Rates.Keys - {a};
  }

  /** The table is consistent in both directions: the rate back is the
      reciprocal of the rate there. */
  lemma RatesReciprocal(a: string, b: string)
    requires a in Rates && b in Rates[a]
    ensures b in Rates && a in Rates[b]
    ensures Rates[a][b] * Rates[b][a] == 1.0
  {
    RatesShape();
  }

  /** `amount * rates[source][target]`. */
  function ConvertAmount(amount: real, source: string, target: string): (r: real)
    requires source in Rates && target in Rates[source]
    ensures (r == 0.0) == (amount == 0.0)
    ensures (r > 0.0) == (amount > 0.0)
  {
    RatesShape();
    amount * Rates[source][target]
  }

  /** Converting there and back gives the amount back. */
  lemma RoundTrip(amount: real, source: string, target: string)
    requires source in Rates && target in Rates[source]
    ensures target in Rates && source in Rates[target]
    ensures ConvertAmount(ConvertAmount(amount, source, target), target, source) == amount
  {
    RatesReciprocal(source, target);
    calc {
      ConvertAmount(ConvertAmount(amount, source, target), target, source);
      (amount * Rates[source][target]) * Rates[target][source];
      amount * (Rates[source][target] * Rates[target][source]);
      amount;
    }
  }

  // ---- Parsing the amount ----------------------------------------------------

  predicate AllDigits(s: string) {
    forall i :: 0 <= i < |s| ==> IsDigit(s[i])
  }

  function DigitValue(c: char): nat
    requires IsDigit(c)
  {
    c as int - '0' as int
  }

  /** The value of a string of decimal digits. */
  function DigitsValue(s: string): (n: nat)
    requires AllDigits(s)
    ensures s == [] ==> n == 0
    ensures n < Pow10(|s|)
    decreases |s|
  {
    if s == [] then 0
    else DigitsValue(s[..|s| - 1]) * 10 + DigitValue(s[|s| - 1])
  }

  function Pow10(n: nat): (p: nat)
    ensures p >= 1
  {
    if n == 0 then 1 else 10 * Pow10(n - 1)
  }

  /** The length of the leading run of digits. */
  function DigitsEnd(s: string): (n: nat)
    ensures n <= |s| && AllDigits(s[..n]) && (n == |s| || !IsDigit(s[n]))
    decreases |s|
  {
    if s == [] || !IsDigit(s[0]) then 0
    else
      var n := 1 + DigitsEnd(s[1..]);
      assert s[..n] == [s[0]] + s[1..][..n - 1];
      n
  }

  /** `float(token)` for the decimal forms: an optional sign, then digits with
      an optional fractional part, at least one digit in all. */
  function ParseAmount(s: string): (r: Option<real>)
    ensures r.Some? ==> s != [] && (IsDigit(s[0]) || s[0] in "+-.")
    ensures r.Some? ==> forall i :: 0 <= i < |s| ==> IsDigit(s[i]) || s[i] in "+-."
  {
    var sign := if s != [] && s[0] in "+-" then [s[0]] else [];
    match ParseUnsigned(s[|sign|..])
    case None => None
    case Some(v) => Some(Signed(sign, v))
  }

  /** A numeral without sign: digits, then optionally a point and more digits,
      with at least one digit in all. */
  function ParseUnsigned(body: string): (r: Option<real>)
    ensures r.Some? ==> body != [] && (IsDigit(body[0]) || body[0] == '.')
    ensures r.Some? ==> forall i :: 0 <= i < |body| ==> IsDigit(body[i]) || body[i] == '.'
  {
    var n := DigitsEnd(body);
    if n == |body| then
      if n == 0 then None else Some(DigitsValue(body) as real)
    else if body[n] == '.' && AllDigits(body[n + 1..]) && (n > 0 || n + 1 < |body|) then
      assert forall i :: n < i < |body| ==> body[n + 1..][i - n - 1] == body[i];
      Some(DecimalValue(body[..n], body[n + 1..]))
    else None
  }

  /** The value of a sign followed by a numeral. */
  function Signed(sign: string, v: real): real {
    if sign == "-" then -v else v
  }

  /** The value of `whole.frac`. */
  function DecimalValue(whole: string, frac: string): real
    requires AllDigits(whole) && AllDigits(frac)
  {
    DigitsValue(whole) as real + DigitsValue(frac) as real / Pow10(|frac|) as real
  }

  /** Every decimal numeral with an optional sign is read as its value, with or
      without a point, and with digits on either side of the point or both:
      "1.5", ".5" and "1." are numbers. The fractional digits add less than
      one. */
  lemma ParseDecimal(sign: string, whole: string, frac: string)
    requires sign in {"", "+", "-"}
    requires AllDigits(whole) && AllDigits(frac) && whole + frac != []
    ensures ParseAmount(sign + whole + "." + frac) == Some(Signed(sign, DecimalValue(whole, frac)))
    ensures whole != [] ==> ParseAmount(sign + whole) == Some(Signed(sign, DigitsValue(whole) as real))
    ensures DigitsValue(whole) as real <= DecimalValue(whole, frac) < DigitsValue(whole) as real + 1.0
  {
    SignedPoint(sign, whole, frac);
    if whole != [] {
      UnsignedWhole(whole);
      SignedBody(sign, whole);
    }
    DecimalBounds(whole, frac);
  }

  lemma SignedPoint(sign: string, whole: string, frac: string)
    requires sign in {"", "+", "-"}
    requires AllDigits(whole) && AllDigits(frac) && whole + frac != []
    ensures ParseAmount(sign + whole + "." + frac) == Some(Signed(sign, DecimalValue(whole, frac)))
  {
    var body := whole + "." + frac;
    UnsignedPoint(whole, frac);
    assert sign + whole + "." + frac == sign + body;
    SignedBody(sign, body);
  }

  lemma DecimalBounds(whole: string, frac: string)
    requires AllDigits(whole) && AllDigits(frac)
    ensures DigitsValue(whole) as real <= DecimalValue(whole, frac) < DigitsValue(whole) as real + 1.0
  {
    FractionBelowOne(DigitsValue(frac), Pow10(|frac|));
  }

  lemma UnsignedPoint(whole: string, frac: string)
    requires AllDigits(whole) && AllDigits(frac) && whole + frac != []
    ensures ParseUnsigned(whole + "." + frac) == Some(DecimalValue(whole, frac))
    ensures (whole + "." + frac)[0] == '.' || IsDigit((whole + "." + frac)[0])
  {
    var body := whole + "." + frac;
    DigitsEndOf(whole, "." + frac);
    assert body == whole + ("." + frac);
    assert body[..|whole|] == whole && body[|whole| + 1..] == frac;
  }

  lemma UnsignedWhole(whole: string)
    requires AllDigits(whole) && whole != []
    ensures ParseUnsigned(whole) == Some(DigitsValue(whole) as real)
  {
    DigitsEndOf(whole, []);
    assert whole + [] == whole;
  }

  /** The sign comes off before the numeral is read. */
  lemma SignedBody(sign: string, body: string)
    requires sign in {"", "+", "-"}
    requires body != [] && (IsDigit(body[0]) || body[0] == '.')
    ensures ParseAmount(sign + body) == (match ParseUnsigned(body)
                                         case None => None
                                         case Some(v) => Some(Signed(sign, v)))
  {
    if sign != [] {
      assert (sign + body)[0] == sign[0] && (sign + body)[|sign|..] == body;
    } else {
      assert sign + body == body;
    }
  }

  lemma FractionBelowOne(x: nat, p: nat)
    requires x < p
    ensures 0.0 <= x as real / p as real < 1.0
  {
  }

  /** Digits followed by a non-digit, or by nothing: the leading run of digits
      is exactly those digits. */
  lemma {:induction false} DigitsEndOf(digits: string, rest: string)
    requires AllDigits(digits) && (rest == [] || !IsDigit(rest[0]))
    ensures DigitsEnd(digits + rest) == |digits|
    decreases |digits|
  {
    if digits != [] {
      assert (digits + rest)[1..] == digits[1..] + rest;
      DigitsEndOf(digits[1..], rest);
    } else {
      assert digits + rest == rest;
    }
  }

  /** Conversely, every text `float` is taken to accept here is a decimal
      numeral with an optional sign, read as its value. */
  lemma ParseAmountForms(s: string) returns (sign: string, whole: string, point: bool, frac: string)
    requires ParseAmount(s).Some?
    ensures sign in {"", "+", "-"} && AllDigits(whole) && AllDigits(frac) && whole + frac != []
    ensures s == sign + whole + (if point then "." + frac else [])
    ensures point ==> ParseAmount(s) == Some(Signed(sign, DecimalValue(whole, frac)))
    ensures !point ==> frac == [] && ParseAmount(s) == Some(Signed(sign, DigitsValue(whole) as real))
  {
    sign := if s != [] && s[0] in "+-" then [s[0]] else [];
    var body := s[|sign|..];
    assert s == sign + body;
    point, whole, frac := UnsignedForms(body);
  }

  lemma UnsignedForms(body: string) returns (point: bool, whole: string, frac: string)
    requires ParseUnsigned(body).Some?
    ensures AllDigits(whole) && AllDigits(frac) && whole + frac != []
    ensures body == whole + (if point then "." + frac else [])
    ensures point ==> ParseUnsigned(body) == Some(DecimalValue(whole, frac))
    ensures !point ==> frac == [] && ParseUnsigned(body) == Some(DigitsValue(whole) as real)
  {
    var n := DigitsEnd(body);
    whole := body[..n];
    point := n < |body|;
    if point {
      frac := body[n + 1..];
      assert body == whole + "." + frac;
    } else {
      frac := [];
      assert body == whole && whole + [] == whole;
    }
  }

  /** Python's `str(n)` for a natural number. */
  function NatText(n: nat): (s: string)
    ensures s != [] && AllDigits(s)
  {
    if n < 10 then [DigitChar(n)] else NatText(n / 10) + [DigitChar(n % 10)]
  }

  function DigitChar(d: nat): (c: char)
    requires d < 10
    ensures IsDigit(c) && DigitValue(c) == d
  {
    ('0' as int + d) as char
  }

  lemma {:induction false} NatTextValue(n: nat)
    ensures DigitsValue(NatText(n)) == n
  {
    if n >= 10 {
      var s := NatText(n);
      NatTextValue(n / 10);
      assert s[..|s| - 1] == NatText(n / 10);
    }
  }

  /** Reading back the text of a whole number, signed or not, gives the
      number. */
  lemma ParseNatText(n: nat)
    ensures ParseAmount(NatText(n)) == Some(n as real)
    ensures ParseAmount("-" + NatText(n)) == Some(-(n as real))
  {
    var s := NatText(n);
    NatTextValue(n);
    assert s[..|s|] == s;
    assert ("-" + s)[1..] == s;
  }

  /** Text with a character that is neither a digit, a sign nor a point is
      not a number. */
  lemma ParseRejects(s: string, i: nat)
    requires i < |s| && !IsDigit(s[i]) && s[i] !in "+-."
    ensures ParseAmount(s) == None
  {
  }

  // ---- The converter ---------------------------------------------------------

  datatype Conversion =
    | Converted(amount: real, source: string, result: real, target: string)
    | FormatError
    | InvalidNumber
    | UnsupportedSource(code: string)
    | UnsupportedTarget(code: string)

  /** Four tokens, the third one the word "to" in any case. */
  predicate WellFormed(parts: seq<string>) {
    |parts| == 4 && Lower(parts[2]) == "to"
  }

  /** `currency_converter` after `entry.split()`: the format is checked
      first, then the amount, then the source code, then the target code. */
  function ConvertParts(parts: seq<string>): (r: Conversion)
    ensures r == FormatError <==> !WellFormed(parts)
    ensures r == InvalidNumber <==> WellFormed(parts) && ParseAmount(parts[0]).None?
    ensures r.UnsupportedSource? ==> r.code !in Rates && r.code == Upper(parts[1])
    ensures r.UnsupportedTarget? ==>
              && Upper(parts[1]) in Rates
              && r.code !in Rates[Upper(parts[1])]
              && r.code == Upper(parts[3])
    ensures r.Converted? ==>
              && WellFormed(parts)
              && ParseAmount(parts[0]) == Some(r.amount)
              && r.source == Upper(parts[1]) && r.target == Upper(parts[3])
              && r.source in Rates && r.target in Rates[r.source] && r.source != r.target
              && r.result == r.amount * Rates[r.source][r.target]
  {
    if !WellFormed(parts) then FormatError
    else
      match ParseAmount(parts[0])
      case None => InvalidNumber
      case Some(amount) =>
        var source := Upper(parts[1]);
        var target := Upper(parts[3]);
        if source !in Rates then UnsupportedSource(source)
        else if target !in Rates[source] then UnsupportedTarget(target)
        else
          NoSelfRate(source);
          Converted(amount, source, ConvertAmount(amount, source, target), target)
  }

  /** `currency_converter(entry)`. */
  function Convert(entry: string): Conversion {
    ConvertParts(Split(entry))
  }

  /** A currency is never converted into itself: that request is refused as
      an unsupported target. */
  lemma SameCurrencyRefused(parts: seq<string>)
    requires WellFormed(parts) && ParseAmount(parts[0]).Some?
    requires Upper(parts[1]) in Rates
    requires Upper(parts[1]) == Upper(parts[3])
    ensures ConvertParts(parts) == UnsupportedTarget(Upper(parts[3]))
  {
    RatesShape();
  }

  /** The codes are read without regard to case. */
  lemma CaseInsensitive(p1: seq<string>, p2: seq<string>)
    requires |p1| == 4 && |p2| == 4
    requires p1[0] == p2[0] && Lower(p1[2]) == Lower(p2[2])
    requires Upper(p1[1]) == Upper(p2[1]) && Upper(p1[3]) == Upper(p2[3])
    ensures ConvertParts(p1) == ConvertParts(p2)
  {
  }

  /** The third token passes when it reads "to" in any mix of cases, and
      only then. */
  lemma ToWord(w: string)
    ensures Lower(w) == "to" <==> w in {"to", "To", "tO", "TO"}
  {
    if Lower(w) == "to" {
      assert |w| == 2;
      assert LowerChar(w[0]) == 't' && LowerChar(w[1]) == 'o';
      assert w[0] in "tT" && w[1] in "oO";
      assert w == [w[0], w[1]];
    }
  }

  const FormatMessage := "Error: invalid format. Use: '100 USD to BRL'."
  const NumberMessage := "Error: invalid number."

  /** The reply; `fixed2` stands for the `.2f` rendering of an amount. */
  function Message(c: Conversion, fixed2: real -> string): string {
    match c
    case Converted(amount, source, result, target) =>
      fixed2(amount) + " " + source + " = " + fixed2(result) + " " + target
    case FormatError => FormatMessage
    case InvalidNumber => NumberMessage
    case UnsupportedSource(code) => "Error: source currency '" + code + "' not supported."
    case UnsupportedTarget(code) => "Error: target currency '" + code + "' not supported."
  }

  // ---- The documented requests -----------------------------------------------

  /** "100 USD to BRL" converts 100 dollars into 533 reais. */
  lemma DollarsToReais()
    ensures Convert("100 USD to BRL") == Converted(100.0, "USD", 533.0, "BRL")
  {
    SplitDollars();
    ConvertDollars();
  }

  lemma SplitDollars()
    ensures Split("100 USD to BRL") == ["100", "USD", "to", "BRL"]
  {
    assert Join(["100", "USD", "to", "BRL"]) == "100 USD to BRL";
    assert NoSpace("100") && NoSpace("USD") && NoSpace("BRL");
    Tokens4("100", "USD", "to", "BRL");
  }

  lemma ConvertDollars()
    ensures ConvertParts(["100", "USD", "to", "BRL"]) == Converted(100.0, "USD", 533.0, "BRL")
  {
    assert NatText(100) == "100";
    WholeAmount(100, "100");
    Codes("USD", "BRL");
    LowerTo();
  }

  /** Without the space between amount and code the request has three tokens
      and is refused as badly formed. */
  lemma MissingSpace()
    ensures Convert("100USD to BRL") == FormatError
  {
    var ws := ["100USD", "to", "BRL"];
    assert Join(ws) == "100USD to BRL";
    SplitJoin(ws);
  }

  /** A code outside the table is named in the refusal. */
  lemma UnknownTarget()
    ensures Convert("10 BRL to JPY") == UnsupportedTarget("JPY")
  {
    SplitUnknown();
    ConvertUnknown();
  }

  lemma SplitUnknown()
    ensures Split("10 BRL to JPY") == ["10", "BRL", "to", "JPY"]
  {
    assert Join(["10", "BRL", "to", "JPY"]) == "10 BRL to JPY";
    assert NoSpace("10") && NoSpace("BRL") && NoSpace("JPY");
    Tokens4("10", "BRL", "to", "JPY");
  }

  lemma ConvertUnknown()
    ensures ConvertParts(["10", "BRL", "to", "JPY"]) == UnsupportedTarget("JPY")
  {
    assert NatText(10) == "10";
    WholeAmount(10, "10");
    Codes("BRL", "JPY");
    LowerTo();
  }

  lemma Tokens4(a: string, b: string, c: string, d: string)
    requires a != [] && NoSpace(a) && b != [] && NoSpace(b)
    requires NoSpace(d) && d != []
    requires c == "to"
    ensures Split(Join([a, b, c, d])) == [a, b, c, d]
  {
    var ws := [a, b, c, d];
    assert NoSpace(c) by {
      assert c[0] == 't' && c[1] == 'o';
    }
    assert forall k :: 0 <= k < 4 ==> ws[k] != [] && NoSpace(ws[k]) by {
      assert ws[0] == a && ws[1] == b && ws[2] == c && ws[3] == d;
    }
    SplitJoin(ws);
  }

  lemma LowerTo()
    ensures Lower("to") == "to"
  {
    var r := Lower("to");
    assert r[0] == LowerChar('t') == 't';
    assert r[1] == LowerChar('o') == 'o';
    assert r == ['t', 'o'];
  }

  lemma WholeAmount(n: nat, s: string)
    requires s == NatText(n)
    ensures ParseAmount(s) == Some(n as real)
  {
    ParseNatText(n);
  }

  lemma Codes(a: string, b: string)
    requires forall i :: 0 <= i < |a| ==> IsUpper(a[i])
    requires forall i :: 0 <= i < |b| ==> IsUpper(b[i])
    ensures Upper(a) == a && Upper(b) == b
  {
  }
}
