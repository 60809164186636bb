/** `_normalize_expression` of tools.py: natural-language arithmetic is
    lower-cased, rewritten by an ordered list of replace-all substitutions, and
    the longest maximal run of arithmetic characters (the first one on ties) is
    kept, stripped and with its whitespace collapsed. */
module Normalizer {
  import opened Text

  /** The substitution table, in the order its dictionary literal lists it,
      which is the order the loop applies it in. */
  const Replacements: seq<(string, string)> := [
    ("times", "*"),
    ("x", "*"),
    ("multiplied by", "*"),
    ("divided by", "/"),
    ("over", "/"),
    ("plus", "+"),
    ("minus", "-"),
    ("to the power of", "**"),
    ("power of", "**"),
    ("^", "**"),
    ("%", "%")
  ]

  predicate KeysNonEmpty(reps: seq<(string, string)>) {
    forall i :: 0 <= i < |reps| ==> reps[i].0 != []
  }

  /** Applies the substitutions one after the other, each to the whole text. */
  function ApplyAll(s: string, reps: seq<(string, string)>): string
    requires KeysNonEmpty(reps)
    decreases |reps|
  {
    if reps == [] then s
    else ApplyAll(ReplaceAll(s, reps[0].0, reps[0].1), reps[1..])
  }

  function Rewrite(s: string): string {
    ApplyAll(s, Replacements)
  }

  /** A character that is neither in the text nor in any replacement value is
      not in the rewritten text either. */
  lemma {:induction false} ApplyAllAvoids(s: string, reps: seq<(string, string)>, c: char)
    requires KeysNonEmpty(reps)
    requires c !in s && forall i :: 0 <= i < |reps| ==> c !in reps[i].1
    ensures c !in ApplyAll(s, reps)
    decreases |reps|
  {
    if reps != [] {
      ApplyAllAvoids(ReplaceAll(s, reps[0].0, reps[0].1), reps[1..], c);
    }
  }

  /** A one-character key whose value does not hold it, and that no later
      value holds either, is absent from the result. */
  lemma {:induction false} ApplyAllRemoves(s: string, reps: seq<(string, string)>, m: nat, c: char)
    requires KeysNonEmpty(reps) && m < |reps|
    requires reps[m].0 == [c] && c !in reps[m].1
    requires forall i :: m < i < |reps| ==> c !in reps[i].1
    ensures c !in ApplyAll(s, reps)
    decreases m
  {
    var s' := ReplaceAll(s, reps[0].0, reps[0].1);
    if m == 0 {
      ApplyAllAvoids(s', reps[1..], c);
    } else {
      ApplyAllRemoves(s', reps[1..], m - 1, c);
    }
  }

  /** Every replacement value is made of the symbols `* / + - %`. */
  lemma ValuesAreSymbols()
    ensures KeysNonEmpty(Replacements)
    ensures forall i :: 0 <= i < |Replacements| ==>
      forall c :: c in Replacements[i].1 ==> c in "*/+-%"
  {
    var r := Replacements;
    assert r[0].1 == "*" && r[1].1 == "*" && r[2].1 == "*" && r[3].1 == "/";
    assert r[4].1 == "/" && r[5].1 == "+" && r[6].1 == "-" && r[7].1 == "**";
    assert r[8].1 == "**" && r[9].1 == "**" && r[10].1 == "%";
  }

  /** Every `x`, even inside a word, becomes `*`, and every `^` becomes `**`:
      neither character survives the substitutions. */
  lemma RewriteRemoves(s: string)
    ensures 'x' !in Rewrite(s) && '^' !in Rewrite(s)
  {
    KeyAt(1, 'x');
    RewriteRemovesAt(s, 1, 'x');
    KeyAt(9, '^');
    RewriteRemovesAt(s, 9, '^');
  }

  lemma KeyAt(m: nat, c: char)
    requires (m == 1 && c == 'x') || (m == 9 && c == '^')
    ensures m < |Replacements| && Replacements[m].0 == [c] && c !in "*/+-%"
  {
  }

  lemma RewriteRemovesAt(s: string, m: nat, c: char)
    requires m < |Replacements| && Replacements[m].0 == [c] && c !in "*/+-%"
    ensures c !in Rewrite(s)
  {
    ValuesAreSymbols();
    assert forall i :: m < i < |Replacements| ==> c !in Replacements[i].1;
    ApplyAllRemoves(s, Replacements, m, c);
  }

  /** The regex class `[\d\.\s\+\-\*\/\%\(\)\^]`. */
  predicate InClass(c: char) {
    IsDigit(c) || c == '.' || IsSpace(c) || c in "+-*/%()^"
  }

  predicate AllInClass(s: string) {
    forall i :: 0 <= i < |s| ==> InClass(s[i])
  }

  datatype Span = Span(start: nat, end: nat)

  function Len(sp: Span): int {
    sp.end - sp.start
  }

  /** `sp` is a maximal non-empty run of class characters in `t`: one match of
      `re.findall` with the pattern `[...]+`. */
  predicate IsRun(t: string, sp: Span) {
    sp.start < sp.end <= |t|
    && AllInClass(t[sp.start..sp.end])
    && (sp.start == 0 || !InClass(t[sp.start - 1]))
    && (sp.end == |t| || !InClass(t[sp.end]))
  }

  /** The first index from `i` on that does not hold a class character. */
  function RunEnd(t: string, i: nat): (j: nat)
    requires i <= |t|
    ensures i <= j <= |t| && AllInClass(t[i..j]) && (j == |t| || !InClass(t[j]))
    decreases |t| - i
  {
    if i == |t| || !InClass(t[i]) then i
    else
      var j := RunEnd(t, i + 1);
      assert t[i..j] == [t[i]] + t[i + 1..j];
      j
  }

  /** `re.findall`: the maximal runs that start at `i` or later, left to right. */
  function RunsFrom(t: string, i: nat): seq<Span>
    requires i <= |t|
    decreases |t| - i
  {
    if i == |t| then []
    else if !InClass(t[i]) then RunsFrom(t, i + 1)
    else
      var j := RunEnd(t, i);
      [Span(i, j)] + (if j < |t| then RunsFrom(t, j + 1) else [])
  }

  function Runs(t: string): seq<Span> {
    RunsFrom(t, 0)
  }

  /** A run starting at `i` ends where `RunEnd` says. */
  lemma RunEndUnique(t: string, sp: Span)
    requires IsRun(t, sp)
    ensures RunEnd(t, sp.start) == sp.end
  {
  }

  /** The list holds exactly the maximal runs from `i` on, in increasing order
      of their starts. */
  lemma RunsFromExact(t: string, i: nat)
    requires i <= |t| && (i == 0 || !InClass(t[i - 1]))
    ensures forall sp :: sp in RunsFrom(t, i) ==> IsRun(t, sp) && sp.start >= i
    ensures forall sp :: IsRun(t, sp) && sp.start >= i ==> sp in RunsFrom(t, i)
    ensures forall k, m :: 0 <= k < m < |RunsFrom(t, i)| ==>
      RunsFrom(t, i)[k].start < RunsFrom(t, i)[m].start
  {
    RunsFromSound(t, i);
    RunsFromComplete(t, i);
    RunsFromSorted(t, i);
  }

  lemma {:induction false} RunsFromSound(t: string, i: nat)
    requires i <= |t| && (i == 0 || !InClass(t[i - 1]))
    ensures forall sp :: sp in RunsFrom(t, i) ==> IsRun(t, sp) && sp.start >= i
    decreases |t| - i
  {
    if i == |t| {
    } else if !InClass(t[i]) {
      RunsFromSound(t, i + 1);
    } else {
      var j := RunEnd(t, i);
      if j < |t| {
        RunsFromSound(t, j + 1);
      }
    }
  }

  /** The starts of the spans increase from left to right. */
  predicate StartsIncrease(rs: seq<Span>) {
    forall k, m :: 0 <= k < m < |rs| ==> rs[k].start < rs[m].start
  }

  lemma {:induction false} RunsFromSorted(t: string, i: nat)
    requires i <= |t| && (i == 0 || !InClass(t[i - 1]))
    ensures StartsIncrease(RunsFrom(t, i))
    decreases |t| - i
  {
    if i == |t| {
    } else if !InClass(t[i]) {
      RunsFromSorted(t, i + 1);
    } else {
      var j := RunEnd(t, i);
      if j < |t| {
        RunsFromSorted(t, j + 1);
        RunsFromSound(t, j + 1);
        SortedCons(Span(i, j), RunsFrom(t, j + 1));
      }
    }
  }

  lemma SortedCons(x: Span, rest: seq<Span>)
    requires StartsIncrease(rest)
    requires forall sp :: sp in rest ==> x.start < sp.start
    ensures StartsIncrease([x] + rest)
  {
    var rs := [x] + rest;
    forall k, m | 0 <= k < m < |rs|
      ensures rs[k].start < rs[m].start
    {
      assert rs[m] == rest[m - 1] && rest[m - 1] in rest;
      if k > 0 {
        assert rs[k] == rest[k - 1];
      }
    }
  }

  lemma {:induction false} RunsFromComplete(t: string, i: nat)
    requires i <= |t| && (i == 0 || !InClass(t[i - 1]))
    ensures forall sp :: IsRun(t, sp) && sp.start >= i ==> sp in RunsFrom(t, i)
    decreases |t| - i
  {
    if i == |t| {
    } else if !InClass(t[i]) {
      RunsFromComplete(t, i + 1);
      forall sp | IsRun(t, sp) && sp.start >= i
        ensures sp.start != i
      {
        RunStartInClass(t, sp);
      }
    } else {
      var j := RunEnd(t, i);
      if j < |t| {
        RunsFromComplete(t, j + 1);
      }
      forall sp | IsRun(t, sp) && sp.start >= i
        ensures sp == Span(i, j) || (j < |t| && sp.start >= j + 1)
      {
        if sp.start == i {
          RunEndUnique(t, sp);
        } else {
          NextRunStart(t, i, sp);
        }
      }
      assert RunsFrom(t, i) == [Span(i, j)] + (if j < |t| then RunsFrom(t, j + 1) else []);
    }
  }

  lemma RunStartInClass(t: string, sp: Span)
    requires IsRun(t, sp)
    ensures InClass(t[sp.start])
  {
    assert t[sp.start..sp.end][0] == t[sp.start];
  }

  /** A run starting after a class character at `i` starts after the run at `i`. */
  lemma NextRunStart(t: string, i: nat, sp: Span)
    requires i < |t| && InClass(t[i]) && IsRun(t, sp) && sp.start > i
    ensures RunEnd(t, i) < |t| && sp.start >= RunEnd(t, i) + 1
  {
    RunStartInClass(t, sp);
  }

  /** Some class character at `i` or later gives some run from `i` on. */
  lemma {:induction false} RunsFromNonEmpty(t: string, i: nat, p: nat)
    requires i <= p < |t| && InClass(t[p])
    ensures RunsFrom(t, i) != []
    decreases |t| - i
  {
    if !InClass(t[i]) {
      RunsFromNonEmpty(t, i + 1, p);
    }
  }

  /** `max(matches, key=len)`: the index of the first of the longest runs. */
  function FirstLongest(rs: seq<Span>): (k: nat)
    requires rs != []
    ensures k < |rs|
    ensures forall m :: 0 <= m < |rs| ==> Len(rs[m]) <= Len(rs[k])
    ensures forall m :: 0 <= m < k ==> Len(rs[m]) < Len(rs[k])
    decreases |rs|
  {
    if |rs| == 1 then 0
    else
      var k := FirstLongest(rs[..|rs| - 1]);
      assert forall m :: 0 <= m < |rs| - 1 ==> rs[..|rs| - 1][m] == rs[m];
      if Len(rs[|rs| - 1]) > Len(rs[k]) then |rs| - 1 else k
  }

  /** The run that is kept: the longest of all, and the leftmost among the
      longest. */
  lemma ChosenRun(t: string)
    requires Runs(t) != []
    ensures IsRun(t, Runs(t)[FirstLongest(Runs(t))])
    ensures forall o :: IsRun(t, o) ==> Len(o) <= Len(Runs(t)[FirstLongest(Runs(t))])
    ensures forall o :: (IsRun(t, o) && Len(o) == Len(Runs(t)[FirstLongest(Runs(t))])
                         ==> Runs(t)[FirstLongest(Runs(t))].start <= o.start)
  {
    var rs := Runs(t);
    var k := FirstLongest(rs);
    RunsFromExact(t, 0);
    forall o | IsRun(t, o)
      ensures Len(o) <= Len(rs[k])
      ensures Len(o) == Len(rs[k]) ==> rs[k].start <= o.start
    {
      assert o in rs;
      var m :| 0 <= m < |rs| && rs[m] == o;
      if m < k {
        assert Len(o) < Len(rs[k]);
      }
    }
  }

  /** There is no run exactly when the text holds no class character. */
  lemma RunsEmptyIff(t: string)
    ensures Runs(t) == [] <==> forall i :: 0 <= i < |t| ==> !InClass(t[i])
  {
    RunsFromExact(t, 0);
    if Runs(t) != [] {
      var sp := Runs(t)[0];
      assert t[sp.start..sp.end][0] == t[sp.start];
    }
    if exists p :: 0 <= p < |t| && InClass(t[p]) {
      var p :| 0 <= p < |t| && InClass(t[p]);
      RunsFromNonEmpty(t, 0, p);
    }
  }

  /** The candidate expression: the chosen run, stripped, or the whole text
      when there is no run. */
  function Extract(t: string): string {
    var rs := Runs(t);
    if rs == [] then t
    else
      var sp := rs[FirstLongest(rs)];
      RunsFromSound(t, 0);
      assert sp in rs;
      Strip(t[sp.start..sp.end])
  }

  /** The specification of `_normalize_expression`. */
  function Normalize(text: string): string {
    Collapse(Extract(Rewrite(Lower(text))))
  }

  /** `_normalize_expression`: the loop over the substitution table rewrites
      the lower-cased text in place, then the run is extracted. */
  method NormalizeExpression(text: string) returns (expr: string)
    ensures expr == Normalize(text)
  {
    var t := Lower(text);
    var i := 0;
    while i < |Replacements|
      invariant 0 <= i <= |Replacements|
      invariant ApplyAll(t, Replacements[i..]) == Rewrite(Lower(text))
    {
      var (k, v) := Replacements[i];
      ApplyStep(t, i);
      t := ReplaceAll(t, k, v);
      i := i + 1;
    }
    assert Replacements[i..] == [];
    assert t == Rewrite(Lower(text));
    expr := Collapse(Extract(t));
  }

  lemma ApplyStep(t: string, i: nat)
    requires i < |Replacements|
    ensures Replacements[i].0 != []
    ensures KeysNonEmpty(Replacements[i..]) && KeysNonEmpty(Replacements[i + 1..])
    ensures ApplyAll(t, Replacements[i..])
            == ApplyAll(ReplaceAll(t, Replacements[i].0, Replacements[i].1), Replacements[i + 1..])
  {
    ValuesAreSymbols();
    assert Replacements[i..][1..] == Replacements[i + 1..];
  }

  /** An expression in canonical form: class characters other than `^`, plain
      single spaces, none at either end. */
  predicate Canonical(s: string) {
    (forall i :: 0 <= i < |s| ==> InClass(s[i]) && s[i] != '^' && (IsSpace(s[i]) ==> s[i] == ' '))
    && (forall i :: 0 <= i < |s| - 1 && s[i] == ' ' ==> s[i + 1] != ' ')
    && (s != [] ==> s[0] != ' ' && s[|s| - 1] != ' ')
  }

  /** When the rewritten text holds a run, the normalised expression is
      canonical; otherwise it is the rewritten text itself. No `^` and no `x`
      is ever left. */
  lemma NormalizeShape(text: string)
    ensures Runs(Rewrite(Lower(text))) != [] ==> Canonical(Normalize(text))
    ensures Runs(Rewrite(Lower(text))) == [] ==> Normalize(text) == Rewrite(Lower(text))
    ensures '^' !in Normalize(text) && 'x' !in Normalize(text)
  {
    var t := Rewrite(Lower(text));
    RewriteRemoves(Lower(text));
    RunsEmptyIff(t);
    if Runs(t) == [] {
      assert SingleSpaced(t);
      CollapseCanonical(t);
      assert Normalize(text) == t;
    } else {
      ExtractFromRun(t);
      CollapseShape(Extract(t));
      CanonicalLetters(Normalize(text));
    }
  }

  /** A canonical expression holds neither `^` nor a letter such as `x`. */
  lemma CanonicalLetters(e: string)
    requires Canonical(e)
    ensures '^' !in e && 'x' !in e
  {
  }

  /** The stripped run holds only class characters of the text and no
      whitespace at either end. */
  lemma ExtractFromRun(t: string)
    requires Runs(t) != []
    ensures forall c :: c in Extract(t) ==> c in t && InClass(c)
    ensures Extract(t) != [] ==> !IsSpace(Extract(t)[0]) && !IsSpace(Extract(t)[|Extract(t)| - 1])
  {
    var rs := Runs(t);
    var sp := rs[FirstLongest(rs)];
    RunsFromSound(t, 0);
    assert sp in rs && IsRun(t, sp);
    var run := t[sp.start..sp.end];
    assert Extract(t) == Strip(run);
    StripInside(run);
    RunChars(t, sp);
  }

  /** The characters of a run are class characters of the text. */
  lemma RunChars(t: string, sp: Span)
    requires IsRun(t, sp)
    ensures forall c :: c in t[sp.start..sp.end] ==> c in t && InClass(c)
  {
    var run := t[sp.start..sp.end];
    forall c | c in run
      ensures c in t && InClass(c)
    {
      var k :| 0 <= k < |run| && run[k] == c;
      assert t[sp.start + k] == c;
    }
  }

  /** Collapsing a text of class characters without whitespace at its ends
      gives a canonical expression, provided `^` does not occur. */
  lemma CollapseShape(e: string)
    requires forall c :: c in e ==> InClass(c) && c != '^'
    requires e != [] ==> !IsSpace(e[0]) && !IsSpace(e[|e| - 1])
    ensures Canonical(Collapse(e))
  {
    CollapseKeeps(e);
    var out := Collapse(e);
    forall j | 0 <= j < |out|
      ensures InClass(out[j]) && out[j] != '^'
    {
      assert out[j] in out;
    }
  }

  /** A canonical expression is left unchanged by normalisation. */
  lemma NormalizeFixes(s: string)
    requires Canonical(s) && s != []
    ensures Normalize(s) == s
  {
    LowerCanonical(s);
    RewriteKeeps(s);
    ExtractCanonical(s);
    assert SingleSpaced(s);
    CollapseCanonical(s);
  }

  /** A canonical expression has no upper-case letter. */
  lemma LowerCanonical(s: string)
    requires Canonical(s)
    ensures Lower(s) == s
  {
    assert forall i :: 0 <= i < |s| ==> !IsUpper(s[i]);
  }

  /** A canonical expression is one run, with no whitespace to strip. */
  lemma ExtractCanonical(s: string)
    requires Canonical(s) && s != []
    ensures Extract(s) == s
  {
    RunsOfCanonical(s);
    assert s[0..|s|] == s;
    assert LeadingSpace(s) == 0 && TrailingSpace(s) == 0;
    assert StripStart(s) == s && StripEnd(s) == s;
  }

  /** A canonical expression holds no key of the table except `%`, which is
      replaced by itself. */
  lemma RewriteKeeps(s: string)
    requires Canonical(s)
    ensures Rewrite(s) == s
  {
    var r := Replacements;
    assert forall i :: 0 <= i < 10 ==> r[i].0[0] !in s;
    KeepsFrom(s, 0);
  }

  lemma {:induction false} KeepsFrom(s: string, n: nat)
    requires n <= |Replacements|
    requires forall i :: 0 <= i < 10 ==> Replacements[i].0[0] !in s
    ensures ApplyAll(s, Replacements[n..]) == s
    decreases |Replacements| - n
  {
    if n < |Replacements| {
      var (k, v) := Replacements[n];
      if n < 10 {
        ReplaceAbsent(s, k, v);
      } else {
        ReplaceIdentity(s, k);
      }
      assert Replacements[n..][1..] == Replacements[n + 1..];
      KeepsFrom(s, n + 1);
    }
  }

  lemma RunsOfCanonical(s: string)
    requires Canonical(s) && s != []
    ensures Runs(s) == [Span(0, |s|)]
  {
    assert AllInClass(s[0..|s|]);
    assert RunEnd(s, 0) == |s| by {
      RunEndUnique(s, Span(0, |s|));
    }
  }

  /** Normalising twice is normalising once, for every text. */
  lemma NormalizeIdempotent(text: string)
    ensures Normalize(Normalize(text)) == Normalize(text)
  {
    NormalizeShape(text);
    var out := Normalize(text);
    var t := Rewrite(Lower(text));
    if Runs(t) == [] {
      NoRunFixed(text);
    } else if out != [] {
      NormalizeFixes(out);
    } else {
      assert Lower(out) == [];
      assert Rewrite([]) == [] by { KeepsFrom([], 0); }
      assert Runs([]) == [];
    }
  }

  /** Text without a class character. */
  predicate ClassFree(t: string) {
    forall i :: 0 <= i < |t| ==> !InClass(t[i])
  }

  /** When the rewritten text has no run, no substitution fired, and the
      lower-cased text is its own normal form. */
  lemma NoRunFixed(text: string)
    requires Runs(Rewrite(Lower(text))) == []
    ensures Normalize(text) == Lower(text) && Normalize(Lower(text)) == Lower(text)
  {
    var l := Lower(text);
    var t := Rewrite(l);
    RunsEmptyIff(t);
    ValuesAreSymbols();
    ValuesStartInClass();
    ApplyAllClassFree(l, Replacements);
    assert t == l;
    LowerTwice(text);
    assert SingleSpaced(l);
    CollapseCanonical(l);
  }

  lemma LowerTwice(text: string)
    ensures Lower(Lower(text)) == Lower(text)
  {
    var l := Lower(text);
    assert forall i :: 0 <= i < |l| ==> !IsUpper(l[i]);
    LowerIdentity(l);
  }

  /** Every replacement value is non-empty and starts with a class character. */
  lemma ValuesStartInClass()
    ensures forall i :: 0 <= i < |Replacements| ==>
      Replacements[i].1 != [] && InClass(Replacements[i].1[0])
  {
  }

  /** A substitution whose value starts with a class character either changes
      nothing or leaves that character in the text. */
  lemma ReplaceChanges(s: string, k: string, v: string)
    requires k != [] && v != []
    ensures ReplaceAll(s, k, v) == s || v[0] in ReplaceAll(s, k, v)
  {
    if Contains(s, k) {
      ContainsIff(s, k);
      var p :| OccursAt(s, k, p);
      var i := FirstOccurrence(s, k, p);
      ReplaceFirst(s, k, v, i);
      assert ReplaceAll(s, k, v)[i] == v[0];
    } else {
      ReplaceMissing(s, k, v);
    }
  }

  /** The first index at which `k` occurs, at or before a known one. */
  lemma FirstOccurrence(s: string, k: string, p: nat) returns (i: nat)
    requires OccursAt(s, k, p)
    ensures i <= p && OccursAt(s, k, i)
    ensures forall j :: 0 <= j < i ==> !OccursAt(s, k, j)
    decreases p
  {
    if exists j :: 0 <= j < p && OccursAt(s, k, j) {
      var j :| 0 <= j < p && OccursAt(s, k, j);
      i := FirstOccurrence(s, k, j);
    } else {
      i := p;
    }
  }

  /** Substitutions whose values start with class characters that leave no
      class character behind have changed nothing. */
  lemma {:induction false} ApplyAllClassFree(s: string, reps: seq<(string, string)>)
    requires KeysNonEmpty(reps)
    requires forall i :: 0 <= i < |reps| ==> reps[i].1 != [] && InClass(reps[i].1[0])
    requires ClassFree(ApplyAll(s, reps))
    ensures ApplyAll(s, reps) == s
    decreases |reps|
  {
    if reps != [] {
      var u := ReplaceAll(s, reps[0].0, reps[0].1);
      ApplyAllClassFree(u, reps[1..]);
      ReplaceChanges(s, reps[0].0, reps[0].1);
    }
  }

  // ---- The documented rewritings -------------------------------------------------

  /** The `i`-th substitution leaves `s` as it is: its key does not occur, or
      it replaces the key by itself. */
  predicate Leaves(s: string, i: nat)
    requires i < |Replacements|
  {
    !Contains(s, Replacements[i].0) || Replacements[i].0 == Replacements[i].1
  }

  /** Substitutions that leave the text as it is can be skipped. */
  lemma {:induction false} SkipRange(s: string, a: nat, b: nat)
    requires a <= b <= |Replacements|
    requires forall i :: a <= i < b ==> Leaves(s, i)
    ensures KeysNonEmpty(Replacements[a..]) && KeysNonEmpty(Replacements[b..])
    ensures ApplyAll(s, Replacements[a..]) == ApplyAll(s, Replacements[b..])
    decreases b - a
  {
    ValuesAreSymbols();
    if a < b {
      ApplyStep(s, a);
      var (k, v) := Replacements[a];
      assert Leaves(s, a);
      if Contains(s, k) {
        ReplaceIdentity(s, k);
      } else {
        ReplaceMissing(s, k, v);
      }
      assert ReplaceAll(s, k, v) == s;
      SkipRange(s, a + 1, b);
    }
  }

  /** None of the substitutions changes `s`. */
  lemma RewriteNothing(s: string)
    requires forall i :: 0 <= i < |Replacements| ==> Leaves(s, i)
    ensures Rewrite(s) == s
  {
    SkipRange(s, 0, |Replacements|);
    assert Replacements[0..] == Replacements;
    assert Replacements[|Replacements|..] == [];
  }

  /** The keys other than `%` start with one of these characters. */
  lemma FirstCharsAbsent(t: string)
    requires 't' !in t && 'x' !in t && 'm' !in t && 'd' !in t && 'o' !in t && 'p' !in t && '^' !in t
    ensures forall i :: 0 <= i < 10 ==> Replacements[i].0[0] !in t
  {
  }

  /** Substitution `n` is the first one to change `s`, into `t`, and no later
      key occurs in `t`. */
  lemma RewriteOnce(s: string, n: nat, t: string)
    requires n < |Replacements|
    requires forall i :: 0 <= i < n ==> Leaves(s, i)
    requires ReplaceAll(s, Replacements[n].0, Replacements[n].1) == t
    requires forall i :: 0 <= i < 10 ==> Replacements[i].0[0] !in t
    ensures Rewrite(s) == t
  {
    SkipRange(s, 0, n);
    ApplyStep(s, n);
    KeepsFrom(t, n + 1);
    assert Replacements[0..] == Replacements;
  }

  /** A non-empty canonical text stays as it is through the run extraction
      and the whitespace collapse. */
  lemma CanonicalFixed(t: string)
    requires Canonical(t) && t != []
    ensures Collapse(Extract(t)) == t
  {
    ExtractCanonical(t);
    assert SingleSpaced(t);
    CollapseCanonical(t);
  }

  /** Text that the substitutions turn into a canonical expression is
      normalised to that expression. */
  lemma NormalizeVia(s: string, t: string)
    requires Lower(s) == s && Rewrite(s) == t && Canonical(t) && t != []
    ensures Normalize(s) == t
  {
    CanonicalFixed(t);
  }

  /** Text whose chosen run `sp` strips to the single-spaced `e` is
      normalised to `e`. */
  lemma NormalizeRun(s: string, sp: Span, e: string)
    requires Lower(s) == s && Rewrite(s) == s
    requires Runs(s) != [] && Runs(s)[FirstLongest(Runs(s))] == sp
    requires sp.start <= sp.end <= |s| && Strip(s[sp.start..sp.end]) == e
    requires SingleSpaced(e)
    ensures Normalize(s) == e
  {
    assert Extract(s) == e;
    CollapseCanonical(e);
  }

  /** "to the power of" is replaced before "power of" is looked for, so the
      whole phrase becomes `**`: "2 to the power of 8" is normalised to
      "2 ** 8", as the documentation of `_normalize_expression` says. */
  lemma PowerPhrase()
    ensures Normalize("2 to the power of 8") == "2 ** 8"
  {
    var s, t := "2 to the power of 8", "2 ** 8";
    PowerFacts(s, t);
    NormalizeVia(s, t);
  }

  lemma PowerFacts(s: string, t: string)
    requires s == "2 to the power of 8" && t == "2 ** 8"
    ensures Lower(s) == s && Rewrite(s) == t && Canonical(t) && t != []
  {
    NoUpper(s);
    PowerRewrite(s, t);
    PowerCanonical(t);
  }

  lemma NoUpper(s: string)
    requires s in {"2 to the power of 8", "sqrt of 144", "10 + abc", "hello", "hello world"}
    ensures Lower(s) == s
  {
    LowerIdentity(s);
  }

  lemma PowerRewrite(s: string, t: string)
    requires s == "2 to the power of 8" && t == "2 ** 8"
    ensures Rewrite(s) == t
  {
    PowerBefore(s);
    PowerReplace(s, t);
    SymbolsOnly(t);
    RewriteOnce(s, 7, t);
  }

  /** Text without any first character of a key other than `%`. */
  lemma SymbolsOnly(t: string)
    requires t in {"2 ** 8", "10 + abc"}
    ensures forall i :: 0 <= i < 10 ==> Replacements[i].0[0] !in t
  {
    assert 't' !in t && 'x' !in t && 'm' !in t && 'd' !in t && 'o' !in t && 'p' !in t && '^' !in t;
    FirstCharsAbsent(t);
  }

  lemma PowerCanonical(t: string)
    requires t == "2 ** 8"
    ensures Canonical(t)
  {
    forall i | 0 <= i < |t|
      ensures InClass(t[i]) && t[i] != '^' && (IsSpace(t[i]) ==> t[i] == ' ')
    {
      if i == 0 {} else if i == 1 {} else if i == 2 {} else if i == 3 {} else if i == 4 {} else {}
    }
  }

  /** The substitutions before "to the power of" find nothing. */
  lemma PowerBefore(s: string)
    requires s == "2 to the power of 8"
    ensures forall i :: 0 <= i < 7 ==> Leaves(s, i)
  {
    assert 'i' !in s && 'x' !in s && 'm' !in s && 'd' !in s && 'v' !in s && 'l' !in s;
    PowerBeforeEach(s);
    LeavesFirst7(s);
  }

  lemma LeavesFirst7(s: string)
    requires Leaves(s, 0) && Leaves(s, 1) && Leaves(s, 2) && Leaves(s, 3)
    requires Leaves(s, 4) && Leaves(s, 5) && Leaves(s, 6)
    ensures forall i :: 0 <= i < 7 ==> Leaves(s, i)
  {
  }

  lemma PowerBeforeEach(s: string)
    requires 'i' !in s && 'x' !in s && 'm' !in s && 'd' !in s && 'v' !in s && 'l' !in s
    ensures Leaves(s, 0) && Leaves(s, 1) && Leaves(s, 2) && Leaves(s, 3)
    ensures Leaves(s, 4) && Leaves(s, 5) && Leaves(s, 6)
  {
    LeavesBy(s, 0, 'i');
    LeavesBy(s, 1, 'x');
    LeavesBy(s, 2, 'm');
    LeavesBy(s, 3, 'd');
    LeavesBy(s, 4, 'v');
    LeavesBy(s, 5, 'l');
    LeavesBy(s, 6, 'm');
  }

  /** A substitution whose key holds a character missing from `s` leaves it. */
  lemma LeavesBy(s: string, i: nat, c: char)
    requires i < |Replacements| && c in Replacements[i].0 && c !in s
    ensures Leaves(s, i)
  {
    MissingChar(s, Replacements[i].0, c);
  }

  /** The one occurrence of the phrase is at index 2. */
  lemma PowerReplace(s: string, t: string)
    requires s == "2 to the power of 8" && t == "2 ** 8"
    ensures ReplaceAll(s, "to the power of", "**") == t
  {
    var k, v := "to the power of", "**";
    assert ReplaceAll(s[17..], k, v) == " 8";
    assert s[2..][..15] == k && s[2..][15..] == s[17..];
    assert ReplaceAll(s[2..], k, v) == "** 8";
    assert s[1..][..15] != k && s[1..][1..] == s[2..];
    assert ReplaceAll(s[1..], k, v) == " ** 8";
    assert s[..15] != k;
  }

  /** "128 times 46" is normalised to "128 * 46", as the documentation of
      `_normalize_expression` says. */
  lemma TimesPhrase()
    ensures Normalize("128 times 46") == "128 * 46"
  {
    var s, t := "128 times 46", "128 * 46";
    TimesFacts(s, t);
    NormalizeVia(s, t);
  }

  lemma TimesFacts(s: string, t: string)
    requires s == "128 times 46" && t == "128 * 46"
    ensures Lower(s) == s && Rewrite(s) == t && Canonical(t) && t != []
  {
    LowerIdentity(s);
    TimesRewrite(s, t);
    TimesCanonical(t);
  }

  lemma TimesRewrite(s: string, t: string)
    requires s == "128 times 46" && t == "128 * 46"
    ensures Rewrite(s) == t
  {
    TimesReplace(s, t);
    TimesSymbols(t);
    RewriteOnce(s, 0, t);
  }

  lemma TimesSymbols(t: string)
    requires t == "128 * 46"
    ensures forall i :: 0 <= i < 10 ==> Replacements[i].0[0] !in t
  {
    assert 't' !in t && 'x' !in t && 'm' !in t && 'd' !in t && 'o' !in t && 'p' !in t && '^' !in t;
    FirstCharsAbsent(t);
  }

  lemma TimesCanonical(t: string)
    requires t == "128 * 46"
    ensures Canonical(t)
  {
    forall i | 0 <= i < |t|
      ensures InClass(t[i]) && t[i] != '^' && (IsSpace(t[i]) ==> t[i] == ' ')
    {
      if i == 0 {} else if i == 1 {} else if i == 2 {} else if i == 3 {}
      else if i == 4 {} else if i == 5 {} else if i == 6 {} else {}
    }
  }

  lemma TimesReplace(s: string, t: string)
    requires s == "128 times 46" && t == "128 * 46"
    ensures ReplaceAll(s, "times", "*") == t
  {
    var k, v := "times", "*";
    assert ReplaceAll(s[9..], k, v) == " 46";
    assert s[4..][..5] == k && s[4..][5..] == s[9..];
    assert ReplaceAll(s[4..], k, v) == "* 46";
    assert s[3..][..5] != k && s[3..][1..] == s[4..];
    assert ReplaceAll(s[3..], k, v) == " * 46";
    assert s[2..][..5] != k && s[2..][1..] == s[3..];
    assert ReplaceAll(s[2..], k, v) == "8 * 46";
    assert s[1..][..5] != k && s[1..][1..] == s[2..];
    assert ReplaceAll(s[1..], k, v) == "28 * 46";
    assert s[..5] != k;
  }

  /** The longest run wins, whatever the words around it: "sqrt of 144" is
      normalised to "144", and the square root is silently dropped. */
  lemma LongestRunWins()
    ensures Normalize("sqrt of 144") == "144"
  {
    var s := "sqrt of 144";
    SqrtFacts(s);
    NormalizeRun(s, Span(7, 11), "144");
  }

  lemma SqrtFacts(s: string)
    requires s == "sqrt of 144"
    ensures Lower(s) == s && Rewrite(s) == s
    ensures Runs(s) != [] && Runs(s)[FirstLongest(Runs(s))] == Span(7, 11)
    ensures Strip(s[7..11]) == "144" && SingleSpaced("144")
  {
    NoUpper(s);
    SqrtKept(s);
    SqrtRuns(s);
    SecondLonger(Runs(s));
    SqrtRun(s);
  }

  lemma SqrtRun(s: string)
    requires s == "sqrt of 144"
    ensures Strip(s[7..11]) == "144" && SingleSpaced("144")
  {
    assert s[7..11] == " 144";
    StripOne(" 144", "144");
  }

  lemma SecondLonger(rs: seq<Span>)
    requires rs == [Span(4, 5), Span(7, 11)]
    ensures FirstLongest(rs) == 1
  {
    assert rs[..1] == [Span(4, 5)];
  }

  lemma SqrtKept(s: string)
    requires s == "sqrt of 144"
    ensures Rewrite(s) == s
  {
    forall i | 0 <= i < |Replacements|
      ensures Leaves(s, i)
    {
      if i < 10 {
        var c := if i == 0 then 'i' else if i == 1 then 'x' else if i == 2 then 'm'
          else if i == 3 then 'd' else if i == 4 then 'v' else if i == 5 then 'p'
          else if i == 6 then 'm' else if i == 7 then 'p' else if i == 8 then 'p' else '^';
        MissingChar(s, Replacements[i].0, c);
      }
    }
    RewriteNothing(s);
  }

  /** The runs of "sqrt of 144" are the space " " and " 144". */
  lemma SqrtRuns(s: string)
    requires s == "sqrt of 144"
    ensures Runs(s) == [Span(4, 5), Span(7, 11)]
  {
    assert RunEnd(s, 7) == 11;
    assert RunsFrom(s, 7) == [Span(7, 11)];
    assert RunsFrom(s, 5) == RunsFrom(s, 6) == RunsFrom(s, 7);
    assert RunEnd(s, 4) == 5;
    assert RunsFrom(s, 4) == [Span(4, 5)] + RunsFrom(s, 6);
    assert RunsFrom(s, 0) == RunsFrom(s, 1) == RunsFrom(s, 2) == RunsFrom(s, 3) == RunsFrom(s, 4);
  }

  /** Stripping one leading space. */
  lemma StripOne(s: string, r: string)
    requires |s| >= 2 && s[0] == ' ' && r == s[1..] && !IsSpace(s[1]) && !IsSpace(s[|s| - 1])
    ensures Strip(s) == r
  {
    assert LeadingSpace(s[1..]) == 0;
    assert StripStart(s) == r;
    assert TrailingSpace(r) == 0;
    assert r[..|r|] == r;
  }

  /** A stray word ends the run: "10 + abc" is normalised to "10 +". */
  lemma TrailingWord()
    ensures Normalize("10 + abc") == "10 +"
  {
    var s := "10 + abc";
    AbcFacts(s);
    NormalizeRun(s, Span(0, 5), "10 +");
  }

  lemma AbcFacts(s: string)
    requires s == "10 + abc"
    ensures Lower(s) == s && Rewrite(s) == s
    ensures Runs(s) != [] && Runs(s)[FirstLongest(Runs(s))] == Span(0, 5)
    ensures Strip(s[0..5]) == "10 +" && SingleSpaced("10 +")
  {
    NoUpper(s);
    SymbolsOnly(s);
    KeepsFrom(s, 0);
    assert Replacements[0..] == Replacements;
    AbcRuns(s);
    AbcRun(s);
  }

  lemma AbcRun(s: string)
    requires s == "10 + abc"
    ensures Strip(s[0..5]) == "10 +" && SingleSpaced("10 +")
  {
    assert s[0..5] == "10 + ";
    StripTrailing("10 + ", "10 +");
  }

  lemma AbcRuns(s: string)
    requires s == "10 + abc"
    ensures Runs(s) == [Span(0, 5)]
  {
    assert RunsFrom(s, 6) == RunsFrom(s, 7) == RunsFrom(s, 8) == [];
    assert RunEnd(s, 5) == 5;
    assert RunEnd(s, 3) == RunEnd(s, 4) == 5;
    assert RunEnd(s, 0) == RunEnd(s, 1) == RunEnd(s, 2) == 5;
  }

  /** Stripping one trailing space. */
  lemma StripTrailing(s: string, r: string)
    requires |s| >= 2 && s[|s| - 1] == ' ' && r == s[..|s| - 1]
    requires !IsSpace(s[0]) && !IsSpace(s[|s| - 2])
    ensures Strip(s) == r
  {
    assert StripStart(s) == s;
    assert TrailingSpace(r) == 0;
    assert StripEnd(s) == r;
  }

  /** Text without a run of arithmetic characters is kept whole: "hello" is
      normalised to "hello", not to an empty text. */
  lemma NoRunKeepsText()
    ensures Normalize("hello") == "hello"
  {
    var s := "hello";
    HelloFacts(s);
    CollapseCanonical(s);
  }

  lemma HelloFacts(s: string)
    requires s == "hello"
    ensures Lower(s) == s && Rewrite(s) == s && Runs(s) == [] && SingleSpaced(s)
  {
    NoUpper(s);
    WordsKept(s);
    HelloRuns(s);
    HelloSpaced(s);
  }

  lemma HelloSpaced(s: string)
    requires s == "hello"
    ensures SingleSpaced(s)
  {
    forall i | 0 <= i < |s|
      ensures !IsSpace(s[i])
    {
      assert s[i] in "helo";
    }
  }

  lemma HelloRuns(s: string)
    requires s == "hello"
    ensures Runs(s) == []
  {
    assert RunsFrom(s, 4) == [];
    assert RunsFrom(s, 3) == [];
    assert RunsFrom(s, 2) == [];
    assert RunsFrom(s, 1) == [];
  }

  /** None of the keys occurs in these words. */
  lemma WordsKept(s: string)
    requires s in {"hello", "hello world"}
    ensures Rewrite(s) == s
  {
    forall i | 0 <= i < |Replacements|
      ensures Leaves(s, i)
    {
      if i < 10 {
        var c := if i == 0 then 'i' else if i == 1 then 'x' else if i == 2 then 'm'
          else if i == 3 then 'v' else if i == 4 then 'v' else if i == 5 then 'p'
          else if i == 6 then 'm' else if i == 7 then 'p' else if i == 8 then 'p' else '^';
        MissingChar(s, Replacements[i].0, c);
      }
    }
    RewriteNothing(s);
  }

  /** When the longest run is whitespace, nothing is left: "hello world" is
      normalised to the empty text. */
  lemma SpaceRunIsEmpty()
    ensures Normalize("hello world") == []
  {
    var s := "hello world";
    HelloWorldFacts(s);
    NormalizeRun(s, Span(5, 6), []);
  }

  lemma HelloWorldFacts(s: string)
    requires s == "hello world"
    ensures Lower(s) == s && Rewrite(s) == s
    ensures Runs(s) != [] && Runs(s)[FirstLongest(Runs(s))] == Span(5, 6)
    ensures Strip(s[5..6]) == [] && SingleSpaced([])
  {
    NoUpper(s);
    WordsKept(s);
    HelloWorldRuns(s);
    OnlyRun(Runs(s));
    HelloWorldRun(s);
  }

  lemma HelloWorldRun(s: string)
    requires s == "hello world"
    ensures Strip(s[5..6]) == [] && SingleSpaced([])
  {
    assert s[5..6] == " ";
    SpaceStrips(s[5..6]);
  }

  lemma OnlyRun(rs: seq<Span>)
    requires |rs| == 1
    ensures FirstLongest(rs) == 0
  {
  }

  lemma SpaceStrips(s: string)
    requires s == " "
    ensures Strip(s) == []
  {
    assert LeadingSpace(s) == 1;
  }

  lemma HelloWorldRuns(s: string)
    requires s == "hello world"
    ensures Runs(s) == [Span(5, 6)]
  {
    assert RunsFrom(s, 10) == [];
    assert RunsFrom(s, 9) == [];
    assert RunsFrom(s, 8) == [];
    assert RunsFrom(s, 7) == [];
    assert RunsFrom(s, 6) == [];
    assert RunEnd(s, 5) == 6;
    assert RunsFrom(s, 4) == [Span(5, 6)];
    assert RunsFrom(s, 3) == [Span(5, 6)];
    assert RunsFrom(s, 2) == [Span(5, 6)];
    assert RunsFrom(s, 1) == [Span(5, 6)];
  }
}
