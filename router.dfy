/** `identify_tool` of agent.py: which tool, if any, answers a question
    directly. Each of its regular-expression searches is modelled twice: as a
    declarative match (positions that split the text the way the pattern
    does) and as a left-to-right scan; lemmas prove the two agree. */
module Router {
  import opened Wrappers
  import opened Text
  import Tools

  // ---- Spans of one character class -------------------------------------------

  /** The end of the run of digits starting at `i`. */
  function DigitEnd(s: string, i: nat): (j: nat)
    requires i <= |s|
    ensures i <= j <= |s|
    ensures forall x :: i <= x < j ==> IsDigit(s[x])
    ensures j == |s| || !IsDigit(s[j])
    decreases |s| - i
  {
    if i < |s| && IsDigit(s[i]) then DigitEnd(s, i + 1) else i
  }

  /** The end of the run of whitespace starting at `i`. */
  function SpaceEnd(s: string, i: nat): (j: nat)
    requires i <= |s|
    ensures i <= j <= |s|
    ensures forall x :: i <= x < j ==> IsSpace(s[x])
    ensures j == |s| || !IsSpace(s[j])
    decreases |s| - i
  {
    if i < |s| && IsSpace(s[i]) then SpaceEnd(s, i + 1) else i
  }

  lemma DigitEndUnique(s: string, i: nat, j: nat)
    requires i <= j <= |s| && (forall x :: i <= x < j ==> IsDigit(s[x]))
    requires j == |s| || !IsDigit(s[j])
    ensures DigitEnd(s, i) == j
  {
  }

  lemma SpaceEndUnique(s: string, i: nat, j: nat)
    requires i <= j <= |s| && (forall x :: i <= x < j ==> IsSpace(s[x]))
    requires j == |s| || !IsSpace(s[j])
    ensures SpaceEnd(s, i) == j
  {
  }

  /** `re.search`: the pattern matches from some index in `[x, n)`, tried
      from left to right; `at(i)` says whether it matches from `i`. */
  predicate Scan(n: nat, x: nat, at: nat -> bool)
    decreases n - x
  {
    x < n && (at(x) || Scan(n, x + 1, at))
  }

  /** A successful scan names an index where the pattern matches. */
  lemma {:induction false} ScanFinds(n: nat, x: nat, at: nat -> bool) returns (i: nat)
    requires Scan(n, x, at)
    ensures x <= i < n && at(i)
    decreases n - x
  {
    if at(x) {
      i := x;
    } else {
      i := ScanFinds(n, x + 1, at);
    }
  }

  /** A scan that starts at or before a matching index succeeds. */
  lemma {:induction false} ScanReaches(n: nat, x: nat, i: nat, at: nat -> bool)
    requires x <= i < n && at(i)
    ensures Scan(n, x, at)
    decreases i - x
  {
    if x < i {
      ScanReaches(n, x + 1, i, at);
    }
  }

  /** A scan where no index matches fails. */
  lemma {:induction false} ScanNone(n: nat, x: nat, at: nat -> bool)
    requires forall i :: x <= i < n ==> !at(i)
    ensures !Scan(n, x, at)
    decreases n - x
  {
    if x < n {
      ScanNone(n, x + 1, at);
    }
  }

  // ---- The currency pattern ---------------------------------------------------
  // \b\d+(?:\.\d+)?\s+[A-Za-z]{3}\s+to\s+[A-Za-z]{3}\b, ignoring case.

  /** `\b` before index `i`, where `s[i]` is a word character. */
  predicate StartBoundary(s: string, i: nat) {
    i == 0 || (i <= |s| && !IsWordChar(s[i - 1]))
  }

  /** `\b` at index `e`, where `s[e - 1]` is a word character. */
  predicate EndBoundary(s: string, e: nat) {
    e == |s| || (e < |s| && !IsWordChar(s[e]))
  }

  /** `[A-Za-z]{3}` at index `k`. */
  predicate Letters3(s: string, k: nat) {
    k + 3 <= |s| && IsLetter(s[k]) && IsLetter(s[k + 1]) && IsLetter(s[k + 2])
  }

  /** `to`, in either case, at index `m`. */
  predicate ToAt(s: string, m: nat) {
    m + 2 <= |s| && LowerChar(s[m]) == 't' && LowerChar(s[m + 1]) == 'o'
  }

  /** `s[i..j]` is `\d+(?:\.\d+)?`. */
  predicate NumberSpan(s: string, i: nat, j: nat) {
    && i < j <= |s|
    && IsDigit(s[i]) && IsDigit(s[j - 1])
    && (forall x :: i <= x < j ==> IsDigit(s[x]) || s[x] == '.')
    && (forall x, y :: i <= x < y < j && s[x] == '.' ==> s[y] != '.')
  }

  /** `s[a..b]` is `\s+`. */
  predicate SpaceSpan(s: string, a: nat, b: nat) {
    a < b <= |s| && forall x :: a <= x < b ==> IsSpace(s[x])
  }

  /** The currency pattern matches from `i`: the number is `s[i..j]`, the
      codes start at `k` and `p`, and "to" at `m`. */
  predicate CurrencyMatch(s: string, i: nat, j: nat, k: nat, m: nat, p: nat) {
    && NumberSpan(s, i, j) && StartBoundary(s, i)
    && SpaceSpan(s, j, k) && Letters3(s, k)
    && SpaceSpan(s, k + 3, m) && ToAt(s, m)
    && SpaceSpan(s, m + 2, p) && Letters3(s, p)
    && EndBoundary(s, p + 3)
  }

  /** `re.search` of the currency pattern succeeds. */
  ghost predicate CurrencySearch(s: string) {
    exists i, j, k, m, p :: CurrencyMatch(s, i, j, k, m, p)
  }

  /** The end of `\d+(?:\.\d+)?` from `i`. */
  function NumberEnd(s: string, i: nat): (j: nat)
    requires i <= |s|
    ensures DigitEnd(s, i) <= j <= |s|
  {
    var d := DigitEnd(s, i);
    if d + 1 < |s| && s[d] == '.' && IsDigit(s[d + 1]) then DigitEnd(s, d + 1) else d
  }

  /** The scan: the currency pattern matches from index `i`. */
  predicate CurrencyAt(s: string, i: nat) {
    && i < |s| && IsDigit(s[i]) && StartBoundary(s, i)
    && var j := NumberEnd(s, i);
       var k := SpaceEnd(s, j);
       && j < k && Letters3(s, k)
       && var m := SpaceEnd(s, k + 3);
          && k + 3 < m && ToAt(s, m)
          && var p := SpaceEnd(s, m + 2);
             m + 2 < p && Letters3(s, p) && EndBoundary(s, p + 3)
  }

  lemma NumberEndSpan(s: string, i: nat)
    requires i < |s| && IsDigit(s[i])
    ensures NumberSpan(s, i, NumberEnd(s, i))
  {
    var d := DigitEnd(s, i);
    if d + 1 < |s| && s[d] == '.' && IsDigit(s[d + 1]) {
      var e := DigitEnd(s, d + 1);
      forall x, y | i <= x < y < e && s[x] == '.'
        ensures s[y] != '.'
      {
        assert x == d;
      }
    }
  }

  lemma NumberEndUnique(s: string, i: nat, j: nat)
    requires NumberSpan(s, i, j) && j < |s| && IsSpace(s[j])
    ensures NumberEnd(s, i) == j
  {
    var d := DigitEnd(s, i);
    if d < j {
      assert s[d] == '.';
      assert IsDigit(s[j - 1]);
      assert d + 1 < j;
      assert IsDigit(s[d + 1]) by {
        assert s[d + 1] != '.';
      }
      forall x | d + 1 <= x < j
        ensures IsDigit(s[x])
      {
        assert s[x] != '.';
      }
      DigitEndUnique(s, d + 1, j);
    } else {
      DigitEndUnique(s, i, j);
    }
  }

  /** A match found by the scan is a match of the pattern. */
  lemma CurrencyAtSound(s: string, i: nat)
    requires CurrencyAt(s, i)
    ensures CurrencySearch(s)
  {
    var j := NumberEnd(s, i);
    var k := SpaceEnd(s, j);
    var m := SpaceEnd(s, k + 3);
    var p := SpaceEnd(s, m + 2);
    NumberEndSpan(s, i);
    assert CurrencyMatch(s, i, j, k, m, p);
  }

  /** A match of the pattern is found by the scan at its start. */
  lemma CurrencyAtComplete(s: string, i: nat, j: nat, k: nat, m: nat, p: nat)
    requires CurrencyMatch(s, i, j, k, m, p)
    ensures CurrencyAt(s, i)
  {
    NumberEndUnique(s, i, j);
    SpaceEndUnique(s, j, k);
    SpaceEndUnique(s, k + 3, m);
    SpaceEndUnique(s, m + 2, p);
  }

  /** The scan finds a match exactly when the pattern has one. */
  lemma CurrencyScan(s: string)
    ensures Scan(|s|, 0, (i: nat) => CurrencyAt(s, i)) <==> CurrencySearch(s)
  {
    if Scan(|s|, 0, (i: nat) => CurrencyAt(s, i)) {
      CurrencyScanSound(s);
    }
    if CurrencySearch(s) {
      CurrencyScanComplete(s);
    }
  }

  lemma CurrencyScanSound(s: string)
    requires Scan(|s|, 0, (i: nat) => CurrencyAt(s, i))
    ensures CurrencySearch(s)
  {
    var i := ScanFinds(|s|, 0, (i: nat) => CurrencyAt(s, i));
    CurrencyAtSound(s, i);
  }

  lemma CurrencyScanComplete(s: string)
    requires CurrencySearch(s)
    ensures Scan(|s|, 0, (i: nat) => CurrencyAt(s, i))
  {
    var i, j, k, m, p :| CurrencyMatch(s, i, j, k, m, p);
    CurrencyAtComplete(s, i, j, k, m, p);
    ScanReaches(|s|, 0, i, (i: nat) => CurrencyAt(s, i));
  }

  // ---- The calculator pattern -------------------------------------------------
  // \d+\s*(?:\+|\-|\*|/|\^|\*\*|times|plus|minus|divided|over)\s*\d+

  /** The alternatives of the operator group, in order. */
  const Operators: seq<string> :=
    ["+", "-", "*", "/", "^", "**", "times", "plus", "minus", "divided", "over"]

  /** The calculator pattern matches from `i`: digits `s[i..j]`, spaces up to
      the operator `Operators[n]` at `k`, spaces up to the digit at `m`. */
  predicate CalcMatch(s: string, i: nat, j: nat, k: nat, n: nat, m: nat) {
    && i < j <= k <= m < |s| && n < |Operators|
    && (forall x :: i <= x < j ==> IsDigit(s[x]))
    && (forall x :: j <= x < k ==> IsSpace(s[x]))
    && OccursAt(s, Operators[n], k)
    && k + |Operators[n]| <= m
    && (forall x :: k + |Operators[n]| <= x < m ==> IsSpace(s[x]))
    && IsDigit(s[m])
  }

  /** `re.search` of the calculator pattern succeeds. */
  ghost predicate CalcSearch(s: string) {
    exists i, j, k, n, m :: CalcMatch(s, i, j, k, n, m)
  }

  /** After index `a`, optional whitespace and then a digit. */
  predicate DigitAfter(s: string, a: nat) {
    a <= |s| && var m := SpaceEnd(s, a); m < |s| && IsDigit(s[m])
  }

  /** Some alternative of the operator group matches at `k` and is followed
      by a number. */
  predicate OperatorAt(s: string, k: nat) {
    exists n :: 0 <= n < |Operators| && OccursAt(s, Operators[n], k) && DigitAfter(s, k + |Operators[n]|)
  }

  /** The scan: the calculator pattern matches from index `i`. */
  predicate CalcAt(s: string, i: nat) {
    i < |s| && IsDigit(s[i]) && OperatorAt(s, SpaceEnd(s, DigitEnd(s, i)))
  }

  /** No alternative starts with a digit or with whitespace. */
  lemma OperatorStarts(n: nat)
    requires n < |Operators|
    ensures Operators[n] != [] && !IsDigit(Operators[n][0]) && !IsSpace(Operators[n][0])
  {
  }

  lemma CalcAtSound(s: string, i: nat)
    requires CalcAt(s, i)
    ensures CalcSearch(s)
  {
    var n := OperatorWitness(s, SpaceEnd(s, DigitEnd(s, i)));
    CalcAtMatch(s, i, n);
  }

  lemma OperatorWitness(s: string, k: nat) returns (n: nat)
    requires OperatorAt(s, k)
    ensures n < |Operators| && OccursAt(s, Operators[n], k) && DigitAfter(s, k + |Operators[n]|)
  {
    n :| 0 <= n < |Operators| && OccursAt(s, Operators[n], k) && DigitAfter(s, k + |Operators[n]|);
  }

  lemma CalcAtMatch(s: string, i: nat, n: nat)
    requires i < |s| && IsDigit(s[i]) && n < |Operators|
    requires OccursAt(s, Operators[n], SpaceEnd(s, DigitEnd(s, i)))
    requires DigitAfter(s, SpaceEnd(s, DigitEnd(s, i)) + |Operators[n]|)
    ensures CalcSearch(s)
  {
    var j := DigitEnd(s, i);
    var k := SpaceEnd(s, j);
    var m := SpaceEnd(s, k + |Operators[n]|);
    assert CalcMatch(s, i, j, k, n, m);
  }

  lemma CalcAtComplete(s: string, i: nat, j: nat, k: nat, n: nat, m: nat)
    requires CalcMatch(s, i, j, k, n, m)
    ensures CalcAt(s, i)
  {
    OperatorStarts(n);
    assert s[k] == Operators[n][0] by {
      assert s[k..k + |Operators[n]|][0] == s[k];
    }
    DigitEndUnique(s, i, j);
    SpaceEndUnique(s, j, k);
    SpaceEndUnique(s, k + |Operators[n]|, m);
  }

  /** The scan finds a match exactly when the pattern has one. */
  lemma CalcScan(s: string)
    ensures Scan(|s|, 0, (i: nat) => CalcAt(s, i)) <==> CalcSearch(s)
  {
    var at := (i: nat) => CalcAt(s, i);
    if Scan(|s|, 0, at) {
      var i := ScanFinds(|s|, 0, at);
      CalcAtSound(s, i);
    }
    if CalcSearch(s) {
      var i, j, k, n, m :| CalcMatch(s, i, j, k, n, m);
      CalcAtComplete(s, i, j, k, n, m);
      ScanReaches(|s|, 0, i, at);
    }
  }

  // ---- The keywords -------------------------------------------------------------

  const Keywords: seq<string> := ["date", "time", "today", "now"]

  /** `any(keyword in lower for keyword in [...])`. */
  predicate HasKeyword(lower: string) {
    exists n :: 0 <= n < |Keywords| && Contains(lower, Keywords[n])
  }

  // ---- identify_tool --------------------------------------------------------------

  /** `identify_tool(question)`: the first of the three tests that succeeds
      names the tool; the calculator and keyword tests read the lower-cased
      question. */
  function IdentifyTool(question: string): (r: Option<string>)
    ensures r.Some? ==> Tools.Lookup(r.value).Some?
    ensures r == Some("CurrencyConverter") <==> CurrencySearch(question)
    ensures r == Some("Calculator") <==>
              !CurrencySearch(question) && CalcSearch(Lower(question))
    ensures r == Some("DateTime") <==>
              && !CurrencySearch(question) && !CalcSearch(Lower(question))
              && HasKeyword(Lower(question))
    ensures r == None <==>
              && !CurrencySearch(question) && !CalcSearch(Lower(question))
              && !HasKeyword(Lower(question))
  {
    var lower := Lower(question);
    CurrencyScan(question);
    CalcScan(lower);
    if Scan(|question|, 0, (i: nat) => CurrencyAt(question, i)) then Some("CurrencyConverter")
    else if Scan(|lower|, 0, (i: nat) => CalcAt(lower, i)) then Some("Calculator")
    else if HasKeyword(lower) then Some("DateTime")
    else None
  }

  // ---- Properties of the routing ------------------------------------------------

  /** Both patterns start with a digit, so a question without digits is routed
      by its keywords alone. */
  lemma DigitFree(q: string)
    requires forall x :: 0 <= x < |q| ==> !IsDigit(q[x])
    ensures IdentifyTool(q) == (if HasKeyword(Lower(q)) then Some("DateTime") else None)
  {
    NoMatchWithoutDigit(q);
    RoutedByKeywords(q);
  }

  lemma NoMatchWithoutDigit(q: string)
    requires forall x :: 0 <= x < |q| ==> !IsDigit(q[x])
    ensures !CurrencySearch(q) && !CalcSearch(Lower(q))
  {
    NoCurrencyWithoutDigit(q);
    LowerDigitFree(q);
    NoCalcWithoutDigit(Lower(q));
  }

  lemma LowerDigitFree(q: string)
    requires forall x :: 0 <= x < |q| ==> !IsDigit(q[x])
    ensures forall x :: 0 <= x < |Lower(q)| ==> !IsDigit(Lower(q)[x])
  {
  }

  lemma RoutedByKeywords(q: string)
    requires !CurrencySearch(q) && !CalcSearch(Lower(q))
    ensures IdentifyTool(q) == (if HasKeyword(Lower(q)) then Some("DateTime") else None)
  {
  }

  lemma NoCurrencyWithoutDigit(q: string)
    requires forall x :: 0 <= x < |q| ==> !IsDigit(q[x])
    ensures !CurrencySearch(q)
  {
    forall i: nat, j: nat, k: nat, m: nat, p: nat
      ensures !CurrencyMatch(q, i, j, k, m, p)
    {
      if i < |q| {
        assert !IsDigit(q[i]);
      }
    }
  }

  lemma NoCalcWithoutDigit(q: string)
    requires forall x :: 0 <= x < |q| ==> !IsDigit(q[x])
    ensures !CalcSearch(q)
  {
    forall i: nat, j: nat, k: nat, n: nat, m: nat
      ensures !CalcMatch(q, i, j, k, n, m)
    {
      if i < |q| {
        assert !IsDigit(q[i]);
      }
    }
  }

  /** `c` occurs nowhere in `q`. */
  predicate Absent(q: string, c: char) {
    forall x :: 0 <= x < |q| ==> q[x] != c
  }

  /** The currency pattern needs the word "to", so a question without the
      letter o is never a currency request. */
  lemma CurrencyNeedsO(q: string)
    requires Absent(q, 'o') && Absent(q, 'O')
    ensures !CurrencySearch(q)
  {
  }

  /** The currency search reads the question without regard to case, as the
      pattern's flag asks. */
  lemma CurrencyCaseBlind(q: string)
    ensures CurrencySearch(Lower(q)) <==> CurrencySearch(q)
  {
    if CurrencySearch(q) {
      CaseBlindLower(q);
    }
    if CurrencySearch(Lower(q)) {
      CaseBlindUpper(q);
    }
  }

  lemma CaseBlindLower(q: string)
    requires CurrencySearch(q)
    ensures CurrencySearch(Lower(q))
  {
    var i, j, k, m, p :| CurrencyMatch(q, i, j, k, m, p);
    CurrencyMatchLower(q, i, j, k, m, p);
  }

  lemma CaseBlindUpper(q: string)
    requires CurrencySearch(Lower(q))
    ensures CurrencySearch(q)
  {
    var i, j, k, m, p :| CurrencyMatch(Lower(q), i, j, k, m, p);
    CurrencyMatchLower(q, i, j, k, m, p);
  }

  lemma CurrencyMatchLower(q: string, i: nat, j: nat, k: nat, m: nat, p: nat)
    ensures CurrencyMatch(Lower(q), i, j, k, m, p) <==> CurrencyMatch(q, i, j, k, m, p)
  {
    var l := Lower(q);
    LowerKeepsClasses(q);
    assert NumberSpan(l, i, j) <==> NumberSpan(q, i, j);
    assert StartBoundary(l, i) <==> StartBoundary(q, i);
    assert EndBoundary(l, p + 3) <==> EndBoundary(q, p + 3);
    assert Letters3(l, k) <==> Letters3(q, k);
    assert Letters3(l, p) <==> Letters3(q, p);
    assert ToAt(l, m) <==> ToAt(q, m);
    assert SpaceSpan(l, j, k) <==> SpaceSpan(q, j, k);
    assert SpaceSpan(l, k + 3, m) <==> SpaceSpan(q, k + 3, m);
    assert SpaceSpan(l, m + 2, p) <==> SpaceSpan(q, m + 2, p);
  }

  lemma LowerKeepsClasses(q: string)
    ensures |Lower(q)| == |q|
    ensures forall x :: 0 <= x < |q| ==>
      && (IsDigit(Lower(q)[x]) <==> IsDigit(q[x]))
      && (IsSpace(Lower(q)[x]) <==> IsSpace(q[x]))
      && (IsLetter(Lower(q)[x]) <==> IsLetter(q[x]))
      && (IsWordChar(Lower(q)[x]) <==> IsWordChar(q[x]))
      && (Lower(q)[x] == '.' <==> q[x] == '.')
      && LowerChar(Lower(q)[x]) == LowerChar(q[x])
  {
  }

  // ---- The questions of agent.py's own run -----------------------------------
  // Each example is split in two: a lemma about the literal question that only
  // reads off some of its characters, and a lemma that reasons from those
  // characters alone.

  /** "100 USD to BRL" goes to the currency converter. */
  lemma RoutesCurrency()
    ensures IdentifyTool("100 USD to BRL") == Some("CurrencyConverter")
  {
    CurrencyRoute("100 USD to BRL");
  }

  lemma CurrencyRoute(q: string)
    requires q == "100 USD to BRL"
    ensures IdentifyTool(q) == Some("CurrencyConverter")
  {
    CurrencyText(q);
    CurrencyRequest(q);
  }

  lemma CurrencyText(q: string)
    requires q == "100 USD to BRL"
    ensures |q| == 14 && q[0] == '1' && q[1] == '0' && q[2] == '0' && q[3] == ' '
    ensures q[4] == 'U' && q[5] == 'S' && q[6] == 'D' && q[7] == ' '
    ensures q[8] == 't' && q[9] == 'o' && q[10] == ' '
    ensures q[11] == 'B' && q[12] == 'R' && q[13] == 'L'
  {
  }

  lemma CurrencyRequest(q: string)
    requires |q| == 14 && q[0] == '1' && q[1] == '0' && q[2] == '0' && q[3] == ' '
    requires q[4] == 'U' && q[5] == 'S' && q[6] == 'D' && q[7] == ' '
    requires q[8] == 't' && q[9] == 'o' && q[10] == ' '
    requires q[11] == 'B' && q[12] == 'R' && q[13] == 'L'
    ensures CurrencySearch(q)
  {
    assert NumberSpan(q, 0, 3);
    assert CurrencyMatch(q, 0, 3, 4, 8, 11);
  }

  /** "What is 128 times 46?" goes to the calculator. */
  lemma RoutesProduct()
    ensures IdentifyTool("What is 128 times 46?") == Some("Calculator")
  {
    ProductRoute("What is 128 times 46?");
  }

  lemma ProductRoute(q: string)
    requires q == "What is 128 times 46?"
    ensures IdentifyTool(q) == Some("Calculator")
  {
    ProductO(q);
    CurrencyNeedsO(q);
    ProductText(q);
    ProductRequest(q);
  }

  lemma ProductO(q: string)
    requires q == "What is 128 times 46?"
    ensures Absent(q, 'o') && Absent(q, 'O')
  {
  }

  lemma ProductText(q: string)
    requires q == "What is 128 times 46?"
    ensures |q| == 21 && forall x :: 8 <= x < 19 ==> !IsUpper(q[x])
    ensures q[8] == '1' && q[9] == '2' && q[10] == '8' && q[11] == ' '
    ensures q[12] == 't' && q[13] == 'i' && q[14] == 'm' && q[15] == 'e' && q[16] == 's'
    ensures q[17] == ' ' && q[18] == '4'
  {
  }

  lemma ProductRequest(q: string)
    requires |q| == 21 && forall x :: 8 <= x < 19 ==> !IsUpper(q[x])
    requires q[8] == '1' && q[9] == '2' && q[10] == '8' && q[11] == ' '
    requires q[12] == 't' && q[13] == 'i' && q[14] == 'm' && q[15] == 'e' && q[16] == 's'
    requires q[17] == ' ' && q[18] == '4'
    ensures CalcSearch(Lower(q))
  {
    var l := Lower(q);
    LowerSlice(q, 8, 19);
    SliceAgrees(l, q, 8, 19);
    ProductMatch(l);
  }

  /** Two texts with the same slice agree at each index of it. */
  lemma SliceAgrees(l: string, q: string, a: nat, b: nat)
    requires a <= b <= |l| && b <= |q| && l[a..b] == q[a..b]
    ensures forall x :: a <= x < b ==> l[x] == q[x]
  {
    forall x | a <= x < b
      ensures l[x] == q[x]
    {
      assert l[x] == l[a..b][x - a];
    }
  }

  lemma ProductMatch(l: string)
    requires |l| == 21 && l[8] == '1' && l[9] == '2' && l[10] == '8' && l[11] == ' '
    requires l[12] == 't' && l[13] == 'i' && l[14] == 'm' && l[15] == 'e' && l[16] == 's'
    requires l[17] == ' ' && l[18] == '4'
    ensures CalcSearch(l)
  {
    assert l[12..17] == Operators[6];
    assert CalcMatch(l, 8, 11, 12, 6, 18);
  }

  /** "What time is it now?" and "What is the date today?" go to the date and
      time tool. */
  lemma RoutesClock()
    ensures IdentifyTool("What time is it now?") == Some("DateTime")
    ensures IdentifyTool("What is the date today?") == Some("DateTime")
  {
    TimeRoute("What time is it now?");
    DateRoute("What is the date today?");
  }

  lemma TimeRoute(q: string)
    requires q == "What time is it now?"
    ensures IdentifyTool(q) == Some("DateTime")
  {
    TimeText(q);
    KeywordIn(q, 1, 5);
    DigitFree(q);
  }

  lemma DateRoute(q: string)
    requires q == "What is the date today?"
    ensures IdentifyTool(q) == Some("DateTime")
  {
    DateText(q);
    KeywordIn(q, 0, 12);
    DigitFree(q);
  }

  lemma TimeText(q: string)
    requires q == "What time is it now?"
    ensures forall x :: 0 <= x < |q| ==> !IsDigit(q[x])
    ensures |q| == 20 && q[5..9] == "time" && forall x :: 5 <= x < 9 ==> !IsUpper(q[x])
  {
  }

  lemma DateText(q: string)
    requires q == "What is the date today?"
    ensures forall x :: 0 <= x < |q| ==> !IsDigit(q[x])
    ensures |q| == 23 && q[12..16] == "date" && forall x :: 12 <= x < 16 ==> !IsUpper(q[x])
  {
  }

  /** A question holding a keyword at `x` has a keyword. */
  lemma KeywordIn(q: string, n: nat, x: nat)
    requires n < |Keywords| && x + |Keywords[n]| <= |q|
    requires q[x..x + |Keywords[n]|] == Keywords[n]
    requires forall i :: x <= i < x + |Keywords[n]| ==> !IsUpper(q[i])
    ensures HasKeyword(Lower(q))
  {
    KeywordLowered(q, n, x);
    KeywordOccurs(Lower(q), n, x);
  }

  lemma KeywordLowered(q: string, n: nat, x: nat)
    requires n < |Keywords| && x + |Keywords[n]| <= |q|
    requires q[x..x + |Keywords[n]|] == Keywords[n]
    requires forall i :: x <= i < x + |Keywords[n]| ==> !IsUpper(q[i])
    ensures OccursAt(Lower(q), Keywords[n], x)
  {
    LowerSlice(q, x, x + |Keywords[n]|);
  }

  lemma KeywordOccurs(l: string, n: nat, x: nat)
    requires n < |Keywords| && OccursAt(l, Keywords[n], x)
    ensures HasKeyword(l)
  {
    ContainsAt(l, Keywords[n], x);
  }

  /** "What is artificial intelligence?" holds no digit and no keyword, so it
      goes to the agent. */
  lemma RoutesAgent()
    ensures IdentifyTool("What is artificial intelligence?") == None
  {
    GeneralRoute("What is artificial intelligence?");
  }

  lemma GeneralRoute(q: string)
    requires q == "What is artificial intelligence?"
    ensures IdentifyTool(q) == None
  {
    GeneralDigits(q);
    GeneralLetters(q);
    GeneralO(q);
    NoKeyword(q);
    DigitFree(q);
  }

  lemma GeneralDigits(q: string)
    requires q == "What is artificial intelligence?"
    ensures forall x :: 0 <= x < |q| ==> !IsDigit(q[x])
  {
  }

  lemma GeneralLetters(q: string)
    requires q == "What is artificial intelligence?"
    ensures Absent(q, 'd') && Absent(q, 'D') && Absent(q, 'm') && Absent(q, 'M')
  {
  }

  lemma GeneralO(q: string)
    requires q == "What is artificial intelligence?"
    ensures Absent(q, 'o') && Absent(q, 'O')
  {
  }

  /** Without a d, an m or an o, in either case, no keyword occurs. */
  lemma NoKeyword(q: string)
    requires Absent(q, 'd') && Absent(q, 'D') && Absent(q, 'm') && Absent(q, 'M')
    requires Absent(q, 'o') && Absent(q, 'O')
    ensures !HasKeyword(Lower(q))
  {
    var l := Lower(q);
    LowerLacks(q, 'd');
    LowerLacks(q, 'm');
    LowerLacks(q, 'o');
    MissingChar(l, "date", 'd');
    MissingChar(l, "time", 'm');
    MissingChar(l, "today", 'd');
    MissingChar(l, "now", 'o');
  }

  /** The keywords are matched inside words: "know" holds "now", so
      "Do you know Python?" goes to the date and time tool. */
  lemma RoutesKnow()
    ensures IdentifyTool("Do you know Python?") == Some("DateTime")
  {
    KnowRoute("Do you know Python?");
  }

  lemma KnowRoute(q: string)
    requires q == "Do you know Python?"
    ensures IdentifyTool(q) == Some("DateTime")
  {
    KnowText(q);
    KeywordIn(q, 3, 8);
    DigitFree(q);
  }

  lemma KnowText(q: string)
    requires q == "Do you know Python?"
    ensures forall x :: 0 <= x < |q| ==> !IsDigit(q[x])
    ensures |q| == 19 && q[8..11] == "now" && forall x :: 8 <= x < 11 ==> !IsUpper(q[x])
  {
  }

  /** A lower-case letter absent from `q` in both cases is absent from its
      lower-cased form. */
  lemma LowerLacks(q: string, c: char)
    requires IsLower(c) && Absent(q, c) && Absent(q, UpperChar(c))
    ensures c !in Lower(q)
  {
    var l := Lower(q);
    assert forall x :: 0 <= x < |l| ==> l[x] != c;
  }

  /** The calculator pattern wants a number right after "divided", so
      "10 divided by 2" is not routed to the calculator and, holding no
      keyword, goes to the agent. */
  lemma RoutesDividedBy()
    ensures IdentifyTool("10 divided by 2") == None
  {
    DividedRoute("10 divided by 2");
  }

  lemma DividedRoute(q: string)
    requires q == "10 divided by 2"
    ensures IdentifyTool(q) == None
  {
    DividedLetters(q);
    CurrencyNeedsO(q);
    DividedText(q);
    DividedMisses(q);
    NoKeywordLetter(q);
    RoutedByKeywords(q);
  }

  lemma DividedLetters(q: string)
    requires q == "10 divided by 2"
    ensures Absent(q, 'o') && Absent(q, 'O')
    ensures Absent(q, 't') && Absent(q, 'T') && Absent(q, 'n') && Absent(q, 'N')
  {
  }

  /** The characters of "10 divided by 2" the argument below reads. */
  predicate DividedShape(q: string) {
    && |q| == 15 && q[0] == '1' && q[1] == '0' && q[2] == ' ' && q[3] == 'd'
    && q[10] == ' ' && q[11] == 'b' && q[14] == '2'
    && (forall x :: 3 <= x < 14 ==> !IsDigit(q[x]))
    && (forall x :: 3 <= x < 14 && x != 10 && x != 13 ==> !IsSpace(q[x]))
  }

  lemma DividedText(q: string)
    requires q == "10 divided by 2"
    ensures DividedShape(q)
    ensures forall x :: 0 <= x < |q| ==> !IsUpper(q[x])
  {
  }

  lemma DividedMisses(q: string)
    requires DividedShape(q) && forall x :: 0 <= x < |q| ==> !IsUpper(q[x])
    ensures !CalcSearch(Lower(q))
  {
    LowerIdentity(q);
    DividedNoMatch(q);
  }

  lemma DividedNoMatch(q: string)
    requires DividedShape(q)
    ensures !CalcSearch(q)
  {
    CalcScan(q);
    forall i | 0 <= i < |q|
      ensures !CalcAt(q, i)
    {
      DividedNotAt(q, i);
    }
    ScanNone(|q|, 0, (i: nat) => CalcAt(q, i));
  }

  /** Only "divided" starts with a d, and it has seven letters. */
  lemma OperatorD(n: nat)
    requires n < |Operators| && Operators[n] != [] && Operators[n][0] == 'd'
    ensures n == 9 && |Operators[n]| == 7
  {
  }

  /** The scan finds no match from any index: from the digits at the start it
      reaches "divided", which is followed by "by" rather than a number, and
      the final digit has nothing after it. */
  lemma DividedNotAt(q: string, i: nat)
    requires DividedShape(q) && i < |q|
    ensures !CalcAt(q, i)
  {
    if i <= 1 {
      DigitEndUnique(q, i, 2);
      SpaceEndUnique(q, 2, 3);
      forall n | 0 <= n < |Operators| && OccursAt(q, Operators[n], 3)
        ensures !DigitAfter(q, 3 + |Operators[n]|)
      {
        OperatorStarts(n);
        assert q[3] == q[3..3 + |Operators[n]|][0];
        OperatorD(n);
        SpaceEndUnique(q, 10, 11);
      }
    } else if i == 14 {
      DigitEndUnique(q, 14, 15);
      forall n | 0 <= n < |Operators|
        ensures !OccursAt(q, Operators[n], 15)
      {
        OperatorStarts(n);
      }
    }
  }

  /** Without a t or an n, in either case, no keyword occurs. */
  lemma NoKeywordLetter(q: string)
    requires Absent(q, 't') && Absent(q, 'T') && Absent(q, 'n') && Absent(q, 'N')
    ensures !HasKeyword(Lower(q))
  {
    var l := Lower(q);
    LowerLacks(q, 't');
    LowerLacks(q, 'n');
    MissingChar(l, "date", 't');
    MissingChar(l, "time", 't');
    MissingChar(l, "today", 't');
    MissingChar(l, "now", 'n');
  }

  /** The operator group has no `%`, so "10 % 3" is not routed to the
      calculator, although the calculator evaluates `%`; holding no keyword,
      it goes to the agent. */
  lemma RoutesModulo()
    ensures IdentifyTool("10 % 3") == None
  {
    ModuloRoute("10 % 3");
  }

  lemma ModuloRoute(q: string)
    requires q == "10 % 3"
    ensures IdentifyTool(q) == None
  {
    ModuloLetters(q);
    CurrencyNeedsO(q);
    ModuloMisses(q);
    NoKeywordLetter(q);
    RoutedByKeywords(q);
  }

  lemma ModuloLetters(q: string)
    requires q == "10 % 3"
    ensures Absent(q, 'o') && Absent(q, 'O')
    ensures Absent(q, 't') && Absent(q, 'T') && Absent(q, 'n') && Absent(q, 'N')
    ensures ModuloShape(q) && forall x :: 0 <= x < |q| ==> !IsUpper(q[x])
  {
  }

  /** The characters of "10 % 3". */
  predicate ModuloShape(q: string) {
    |q| == 6 && q[0] == '1' && q[1] == '0' && q[2] == ' ' && q[3] == '%' && q[4] == ' ' && q[5] == '3'
  }

  lemma ModuloMisses(q: string)
    requires ModuloShape(q) && forall x :: 0 <= x < |q| ==> !IsUpper(q[x])
    ensures !CalcSearch(Lower(q))
  {
    LowerIdentity(q);
    CalcScan(q);
    forall i | 0 <= i < |q|
      ensures !CalcAt(q, i)
    {
      ModuloNotAt(q, i);
    }
    ScanNone(|q|, 0, (i: nat) => CalcAt(q, i));
  }

  /** No alternative of the operator group starts with `%`. */
  lemma OperatorNotPercent(n: nat)
    requires n < |Operators|
    ensures Operators[n] != [] && Operators[n][0] != '%'
  {
  }

  /** From the leading digits the scan reaches `%`, which is no operator; the
      final digit has nothing after it. */
  lemma ModuloNotAt(q: string, i: nat)
    requires ModuloShape(q) && i < |q|
    ensures !CalcAt(q, i)
  {
    if i <= 1 {
      DigitEndUnique(q, i, 2);
      SpaceEndUnique(q, 2, 3);
      forall n | 0 <= n < |Operators|
        ensures !OccursAt(q, Operators[n], 3)
      {
        OperatorNotPercent(n);
      }
    } else if i == 5 {
      DigitEndUnique(q, 5, 6);
      forall n | 0 <= n < |Operators|
        ensures !OccursAt(q, Operators[n], 6)
      {
        OperatorStarts(n);
      }
    }
  }
}
