/** Character classes and the handful of Python `str` operations the assistant's
    tools are built from: `lower`, `upper`, `in`, `strip`, `split`, `replace`
    and the `re.sub(r"\s+", " ", ...)` whitespace collapse. Python's classes are
    Unicode-aware; this module models them on ASCII. */
module Text {

  /** `str.isspace()` on ASCII: space, \t \n \v \f \r and the separators
      \x1c-\x1f. `str.split()`, `str.strip()` and the regex class `\s` agree on it. */
  predicate IsSpace(c: char) {
    c == ' ' || 9 <= c as int <= 13 || 28 <= c as int <= 31
  }

  /** The regex class `\d` on ASCII. */
  predicate IsDigit(c: char) { '0' <= c <= '9' }

  predicate IsUpper(c: char) { 'A' <= c <= 'Z' }

  predicate IsLower(c: char) { 'a' <= c <= 'z' }

  /** The regex class `[A-Za-z]`. */
  predicate IsLetter(c: char) { IsUpper(c) || IsLower(c) }

  /** The regex class `\w` on ASCII; it decides where `\b` holds. */
  predicate IsWordChar(c: char) { IsLetter(c) || IsDigit(c) || c == '_' }

  function LowerChar(c: char): char {
    if IsUpper(c) then (c as int + 32) as char else c
  }

  function UpperChar(c: char): char {
    if IsLower(c) then (c as int - 32) as char else c
  }

  /** `str.lower()`. */
  function Lower(s: string): (r: string)
    ensures |r| == |s|
    ensures forall i :: 0 <= i < |s| ==> r[i] == LowerChar(s[i])
  {
    seq(|s|, i requires 0 <= i < |s| => LowerChar(s[i]))
  }

  /** `str.upper()`. */
  function Upper(s: string): (r: string)
    ensures |r| == |s|
    ensures forall i :: 0 <= i < |s| ==> r[i] == UpperChar(s[i])
  {
    seq(|s|, i requires 0 <= i < |s| => UpperChar(s[i]))
  }

  /** Lower-casing leaves a stretch without upper-case letters as it is. */
  lemma LowerSlice(s: string, a: nat, b: nat)
    requires a <= b <= |s| && forall i :: a <= i < b ==> !IsUpper(s[i])
    ensures Lower(s)[a..b] == s[a..b]
  {
  }

  /** Lower-casing a text without upper-case letters changes nothing. */
  lemma LowerIdentity(s: string)
    requires forall i :: 0 <= i < |s| ==> !IsUpper(s[i])
    ensures Lower(s) == s
  {
    LowerSlice(s, 0, |s|);
  }

  predicate NoSpace(s: string) {
    forall i :: 0 <= i < |s| ==> !IsSpace(s[i])
  }

  predicate AllSpace(s: string) {
    forall i :: 0 <= i < |s| ==> IsSpace(s[i])
  }

  /** `w` occurs in `s` starting at index `i`. */
  predicate OccursAt(s: string, w: string, i: int) {
    0 <= i && i + |w| <= |s| && s[i..i + |w|] == w
  }

  lemma SliceOfSlice<T>(s: seq<T>, i: nat, j: nat, a: nat, b: nat)
    requires i <= j <= |s| && a <= b <= j - i
    ensures s[i..j][a..b] == s[i + a..i + b]
  {
    var u := s[i..j];
    forall k | 0 <= k < b - a
      ensures u[a..b][k] == s[i + a..i + b][k]
    {
      assert u[a..b][k] == u[a + k] == s[i + a + k];
    }
  }

  /** Python's substring test `w in s`. */
  predicate Contains(s: string, w: string)
    decreases |s|
  {
    (|w| <= |s| && s[..|w|] == w) || (s != [] && Contains(s[1..], w))
  }

  /** The substring test holds exactly when there is an index of occurrence. */
  lemma {:induction false} ContainsIff(s: string, w: string)
    ensures Contains(s, w) <==> exists i :: OccursAt(s, w, i)
    decreases |s|
  {
    if |w| <= |s| && s[..|w|] == w {
      assert OccursAt(s, w, 0);
    } else if s != [] {
      ContainsIff(s[1..], w);
      OccursShift(s, w);
    }
  }

  /** When `w` does not start `s`, it occurs in `s` exactly when it occurs in
      `s` without its first character. */
  lemma OccursShift(s: string, w: string)
    requires s != [] && !(|w| <= |s| && s[..|w|] == w)
    ensures (exists i :: OccursAt(s, w, i)) <==> (exists i :: OccursAt(s[1..], w, i))
  {
    if exists i :: OccursAt(s[1..], w, i) {
      var i :| OccursAt(s[1..], w, i);
      assert s[1..][i..i + |w|] == s[i + 1..i + 1 + |w|];
      assert OccursAt(s, w, i + 1);
    }
    if exists i :: OccursAt(s, w, i) {
      var i :| OccursAt(s, w, i);
      assert i != 0;
      assert s[1..][i - 1..i - 1 + |w|] == s[i..i + |w|];
      assert OccursAt(s[1..], w, i - 1);
    }
  }

  /** The number of whitespace characters `s` starts with. */
  function LeadingSpace(s: string): (n: nat)
    ensures n <= |s| && (n == |s| || !IsSpace(s[n]))
    ensures forall i :: 0 <= i < n ==> IsSpace(s[i])
    decreases |s|
  {
    if s != [] && IsSpace(s[0]) then 1 + LeadingSpace(s[1..]) else 0
  }

  /** The number of whitespace characters `s` ends with. */
  function TrailingSpace(s: string): (n: nat)
    ensures n <= |s| && (n == |s| || !IsSpace(s[|s| - n - 1]))
    ensures forall i :: |s| - n <= i < |s| ==> IsSpace(s[i])
    decreases |s|
  {
    if s != [] && IsSpace(s[|s| - 1]) then 1 + TrailingSpace(s[..|s| - 1]) else 0
  }

  /** Drops the leading whitespace, like `str.lstrip()`. */
  function StripStart(s: string): (r: string)
    ensures |r| <= |s| && r == s[|s| - |r|..]
    ensures AllSpace(s[..|s| - |r|])
    ensures r == [] || !IsSpace(r[0])
  {
    s[LeadingSpace(s)..]
  }

  /** Drops the trailing whitespace, like `str.rstrip()`. */
  function StripEnd(s: string): (r: string)
    ensures |r| <= |s| && r == s[..|r|]
    ensures AllSpace(s[|r|..])
    ensures r == [] || !IsSpace(r[|r| - 1])
  {
    s[..|s| - TrailingSpace(s)]
  }

  /** `str.strip()`: the text between the leading and the trailing whitespace. */
  function Strip(s: string): (r: string)
    ensures exists i :: (0 <= i <= i + |r| <= |s| && r == s[i..i + |r|]
                         && AllSpace(s[..i]) && AllSpace(s[i + |r|..]))
    ensures r == [] || (!IsSpace(r[0]) && !IsSpace(r[|r| - 1]))
  {
    StripBetween(s);
    StripEnd(StripStart(s))
  }

  lemma StripBetween(s: string)
    ensures var t := StripStart(s); var r := StripEnd(t); var i := |s| - |t|;
            && i + |r| <= |s| && r == s[i..i + |r|]
            && AllSpace(s[..i]) && AllSpace(s[i + |r|..])
  {
    var t := StripStart(s);
    var r := StripEnd(t);
    var i := |s| - |t|;
    assert r == s[i..i + |r|];
    assert s[i + |r|..] == t[|r|..];
  }

  /** `str.strip()` keeps only characters of its argument. */
  lemma StripInside(s: string)
    ensures forall c :: c in Strip(s) ==> c in s
  {
    StripBetween(s);
    var t := StripStart(s);
    var r := StripEnd(t);
    var i := |s| - |t|;
    forall c | c in r
      ensures c in s
    {
      var k :| 0 <= k < |r| && r[k] == c;
      assert s[i + k] == c;
    }
  }

  /** An occurrence of a word without whitespace lies between a leading and a
      trailing stretch of whitespace. */
  lemma WordBetweenSpaces(s: string, i: nat, j: nat, w: string, p: int)
    requires i <= j <= |s| && AllSpace(s[..i]) && AllSpace(s[j..])
    requires w != [] && NoSpace(w) && OccursAt(s, w, p)
    ensures i <= p && p + |w| <= j
  {
    assert s[p] == s[p..p + |w|][0] == w[0];
    assert s[p + |w| - 1] == s[p..p + |w|][|w| - 1] == w[|w| - 1];
  }

  /** A word without whitespace occurs in `s` exactly when it occurs in `Strip(s)`. */
  lemma ContainsStrip(s: string, w: string)
    requires w != [] && NoSpace(w)
    ensures Contains(Strip(s), w) <==> Contains(s, w)
  {
    var t := StripStart(s);
    var r := StripEnd(t);
    var i := |s| - |t|;
    StripBetween(s);
    ContainsIff(r, w);
    ContainsIff(s, w);
    OccursInside(s, i, r, w);
  }

  lemma OccursInside(s: string, i: nat, r: string, w: string)
    requires i + |r| <= |s| && r == s[i..i + |r|]
    requires AllSpace(s[..i]) && AllSpace(s[i + |r|..])
    requires w != [] && NoSpace(w)
    ensures (exists p :: OccursAt(r, w, p)) <==> (exists p :: OccursAt(s, w, p))
  {
    if exists p :: OccursAt(r, w, p) {
      var p :| OccursAt(r, w, p);
      SliceOfSlice(s, i, i + |r|, p, p + |w|);
      assert OccursAt(s, w, i + p);
    }
    if exists p :: OccursAt(s, w, p) {
      var p :| OccursAt(s, w, p);
      WordBetweenSpaces(s, i, i + |r|, w, p);
      SliceOfSlice(s, i, i + |r|, p - i, p - i + |w|);
      assert OccursAt(r, w, p - i);
    }
  }

  /** An occurrence at a known index is an occurrence. */
  lemma ContainsAt(s: string, w: string, i: nat)
    requires OccursAt(s, w, i)
    ensures Contains(s, w)
  {
    ContainsIff(s, w);
  }

  /** A word with a character that `s` lacks does not occur in `s`. */
  lemma MissingChar(s: string, w: string, c: char)
    requires c in w && c !in s
    ensures !Contains(s, w)
  {
    ContainsIff(s, w);
    var k :| 0 <= k < |w| && w[k] == c;
    forall i | 0 <= i && i + |w| <= |s|
      ensures !OccursAt(s, w, i)
    {
      assert s[i..i + |w|][k] == s[i + k];
    }
  }

  /** The characters of `s` that are not whitespace, in order. */
  function NonSpace(s: string): (r: string)
    ensures NoSpace(r)
  {
    if s == [] then []
    else if IsSpace(s[0]) then NonSpace(s[1..])
    else [s[0]] + NonSpace(s[1..])
  }

  lemma {:induction false} NonSpaceAppend(a: string, b: string)
    ensures NonSpace(a + b) == NonSpace(a) + NonSpace(b)
    decreases |a|
  {
    if a != [] {
      assert (a + b)[0] == a[0] && (a + b)[1..] == a[1..] + b;
      NonSpaceAppend(a[1..], b);
      var h := if IsSpace(a[0]) then [] else [a[0]];
      assert NonSpace(a + b) == h + NonSpace(a[1..] + b);
      assert NonSpace(a) == h + NonSpace(a[1..]);
    } else {
      assert a + b == b;
    }
  }

  lemma {:induction false} NonSpaceOfSpaces(s: string)
    requires AllSpace(s)
    ensures NonSpace(s) == []
    decreases |s|
  {
    if s != [] {
      NonSpaceOfSpaces(s[1..]);
    }
  }

  lemma {:induction false} NonSpaceOfWord(s: string)
    requires NoSpace(s)
    ensures NonSpace(s) == s
    decreases |s|
  {
    if s != [] {
      NonSpaceOfWord(s[1..]);
    }
  }

  /** What `re.sub(r"\s+", " ", s)` promises of its result `r`: it keeps the
      non-whitespace characters in order, has no whitespace but plain spaces,
      never two spaces in a row, and starts and ends with whitespace only where
      `s` does. */
  predicate Collapsed(s: string, r: string) {
    && NonSpace(r) == NonSpace(s)
    && SingleSpaced(r)
    && (forall c :: c in r ==> c == ' ' || c in s)
    && (r == [] <==> s == [])
    && (r != [] ==> (IsSpace(r[0]) <==> IsSpace(s[0])))
    && (r != [] ==> (IsSpace(r[|r| - 1]) <==> IsSpace(s[|s| - 1])))
  }

  /** `re.sub(r"\s+", " ", s)`: every maximal run of whitespace becomes one
      space. `CollapseKeeps` and `CollapseLayout` state what it computes. */
  function Collapse(s: string): string
    decreases |s|
  {
    if s == [] then []
    else if IsSpace(s[0]) then [' '] + Collapse(StripStart(s))
    else [s[0]] + Collapse(s[1..])
  }

  /** The result of `Collapse` meets `Collapsed`. */
  lemma {:induction false} CollapseKeeps(s: string)
    ensures Collapsed(s, Collapse(s))
    decreases |s|
  {
    if s != [] {
      if IsSpace(s[0]) {
        CollapseKeeps(StripStart(s));
        CollapseSpace(s, Collapse(StripStart(s)));
      } else {
        CollapseKeeps(s[1..]);
        CollapseWord(s, Collapse(s[1..]));
      }
    }
  }

  /** A leading run of whitespace becomes one space. */
  lemma CollapseSpace(s: string, rest: string)
    requires s != [] && IsSpace(s[0]) && Collapsed(StripStart(s), rest)
    ensures Collapsed(s, [' '] + rest)
  {
    var t := StripStart(s);
    StripNonSpace(s);
    assert NonSpace([' '] + rest) == NonSpace(rest);
    SuffixChars(s, t);
    SpaceLast(s, t, rest);
    SpacedCons(rest);
  }

  lemma SuffixChars(s: string, t: string)
    requires |t| <= |s| && t == s[|s| - |t|..]
    ensures forall c :: c in t ==> c in s
  {
    forall c | c in t
      ensures c in s
    {
      var k :| 0 <= k < |t| && t[k] == c;
      assert s[|s| - |t| + k] == c;
    }
  }

  lemma SpaceLast(s: string, t: string, rest: string)
    requires s != [] && IsSpace(s[0]) && t == StripStart(s)
    requires rest == [] <==> t == []
    requires rest != [] ==> (IsSpace(rest[|rest| - 1]) <==> IsSpace(t[|t| - 1]))
    ensures IsSpace(([' '] + rest)[|rest|]) <==> IsSpace(s[|s| - 1])
  {
    if rest == [] {
      assert s[..|s| - |t|] == s;
    } else {
      assert s[|s| - 1] == t[|t| - 1];
    }
  }

  lemma SpacedCons(rest: string)
    requires SingleSpaced(rest) && (rest == [] || !IsSpace(rest[0]))
    ensures SingleSpaced([' '] + rest)
  {
  }

  /** A non-whitespace character is kept in front of the rest. */
  lemma CollapseWord(s: string, rest: string)
    requires s != [] && !IsSpace(s[0]) && Collapsed(s[1..], rest)
    ensures Collapsed(s, [s[0]] + rest)
  {
    assert s == [s[0]] + s[1..];
    NonSpaceAppend([s[0]], s[1..]);
    NonSpaceAppend([s[0]], rest);
  }

  /** Whitespace in `s` is only single plain spaces. */
  predicate SingleSpaced(s: string) {
    && (forall i :: 0 <= i < |s| && IsSpace(s[i]) ==> s[i] == ' ')
    && (forall i :: 0 <= i < |s| - 1 && s[i] == ' ' ==> s[i + 1] != ' ')
  }

  /** Whitespace that is already single plain spaces is left as it is. */
  lemma {:induction false} CollapseCanonical(s: string)
    requires SingleSpaced(s)
    ensures Collapse(s) == s
    decreases |s|
  {
    if s != [] {
      SingleSpacedTail(s);
      CollapseCanonical(s[1..]);
      if IsSpace(s[0]) {
        LeadingOne(s);
        assert Collapse(s) == [' '] + Collapse(s[1..]);
      } else {
        assert Collapse(s) == [s[0]] + Collapse(s[1..]);
      }
      assert s == [s[0]] + s[1..];
    }
  }

  lemma SingleSpacedTail(s: string)
    requires s != [] && SingleSpaced(s)
    ensures SingleSpaced(s[1..])
    ensures IsSpace(s[0]) ==> s[0] == ' ' && (|s| == 1 || !IsSpace(s[1]))
  {
  }

  /** A single leading whitespace character is all `str.lstrip()` removes. */
  lemma LeadingOne(s: string)
    requires s != [] && IsSpace(s[0]) && (|s| == 1 || !IsSpace(s[1]))
    ensures StripStart(s) == s[1..]
  {
    assert LeadingSpace(s[1..]) == 0;
  }

  /** The length of the leading run of non-whitespace characters. */
  function WordEnd(s: string): (n: nat)
    ensures n <= |s| && NoSpace(s[..n]) && (n == |s| || IsSpace(s[n]))
    decreases |s|
  {
    if s == [] || IsSpace(s[0]) then 0 else 1 + WordEnd(s[1..])
  }

  function Concat(ws: seq<string>): string {
    if ws == [] then [] else ws[0] + Concat(ws[1..])
  }

  /** `str.split()` with no separator: the maximal runs of non-whitespace, in
      order. No token is empty or holds whitespace, and together they are
      exactly the non-whitespace characters of `s`. */
  function Split(s: string): (ws: seq<string>)
    ensures forall k :: 0 <= k < |ws| ==> ws[k] != [] && NoSpace(ws[k])
    ensures Concat(ws) == NonSpace(s)
    decreases |s|
  {
    var t := StripStart(s);
    StripNonSpace(s);
    if t == [] then []
    else
      var n := WordEnd(t);
      var rest := Split(t[n..]);
      SplitStep(t, n, rest);
      [t[..n]] + rest
  }

  /** Leading whitespace holds no non-whitespace character. */
  lemma StripNonSpace(s: string)
    ensures NonSpace(StripStart(s)) == NonSpace(s)
  {
    var t := StripStart(s);
    NonSpaceOfSpaces(s[..|s| - |t|]);
    NonSpaceAppend(s[..|s| - |t|], t);
    assert s == s[..|s| - |t|] + t;
  }

  /** The first word followed by the tokens of the rest. */
  lemma SplitStep(t: string, n: nat, rest: seq<string>)
    requires t != [] && !IsSpace(t[0]) && n == WordEnd(t)
    requires forall k :: 0 <= k < |rest| ==> rest[k] != [] && NoSpace(rest[k])
    requires Concat(rest) == NonSpace(t[n..])
    ensures forall k :: 0 <= k < |[t[..n]] + rest| ==>
              ([t[..n]] + rest)[k] != [] && NoSpace(([t[..n]] + rest)[k])
    ensures Concat([t[..n]] + rest) == NonSpace(t)
  {
    assert t == t[..n] + t[n..];
    NonSpaceAppend(t[..n], t[n..]);
    NonSpaceOfWord(t[..n]);
    assert ([t[..n]] + rest)[1..] == rest;
  }

  /** `" ".join(ws)`. */
  function Join(ws: seq<string>): string {
    if ws == [] then []
    else if |ws| == 1 then ws[0]
    else ws[0] + " " + Join(ws[1..])
  }

  /** Splitting words joined by single spaces gives the words back, so the
      tokens `str.split()` finds are exactly the maximal runs of non-space. */
  lemma {:induction false} SplitJoin(ws: seq<string>)
    requires forall k :: 0 <= k < |ws| ==> ws[k] != [] && NoSpace(ws[k])
    ensures Split(Join(ws)) == ws
    decreases |ws|
  {
    if ws == [] {
      assert Join(ws) == [];
      assert StripStart([]) == [];
    } else if |ws| == 1 {
      assert Join(ws) == ws[0];
      SplitSingle(ws[0]);
    } else {
      SplitJoin(ws[1..]);
      SplitJoinStep(ws[0], ws[1..]);
      assert ws == [ws[0]] + ws[1..];
    }
  }

  lemma SplitSingle(w: string)
    requires w != [] && NoSpace(w)
    ensures Split(w) == [w]
  {
    SplitWord(w, []);
    assert w + [] == w;
    assert StripStart([]) == [];
  }

  lemma SplitJoinStep(w: string, ws: seq<string>)
    requires w != [] && NoSpace(w) && ws != []
    ensures Join([w] + ws) == w + (" " + Join(ws))
    ensures Split(Join([w] + ws)) == [w] + Split(Join(ws))
  {
    JoinCons(w, ws);
    var rest := Join(ws);
    SplitWord(w, " " + rest);
    SplitSpace(rest);
  }

  lemma JoinCons(w: string, ws: seq<string>)
    requires ws != []
    ensures Join([w] + ws) == w + (" " + Join(ws))
  {
    assert ([w] + ws)[1..] == ws;
  }

  /** A word followed by nothing or by whitespace is the first token. */
  lemma SplitWord(w: string, rest: string)
    requires w != [] && NoSpace(w)
    requires rest == [] || IsSpace(rest[0])
    ensures Split(w + rest) == [w] + Split(rest)
  {
    var s := w + rest;
    assert StripStart(s) == s;
    WordEndOf(w, rest);
    assert s[..|w|] == w && s[|w|..] == rest;
    SplitStripped(rest);
  }

  lemma {:induction false} WordEndOf(w: string, rest: string)
    requires NoSpace(w)
    requires rest == [] || IsSpace(rest[0])
    ensures WordEnd(w + rest) == |w|
    decreases |w|
  {
    if w != [] {
      assert (w + rest)[1..] == w[1..] + rest;
      WordEndOf(w[1..], rest);
    } else {
      assert w + rest == rest;
    }
  }

  /** Leading whitespace does not change the tokens. */
  lemma SplitStripped(s: string)
    ensures Split(s) == Split(StripStart(s))
  {
    var t := StripStart(s);
    assert StripStart(t) == t;
  }

  lemma SplitSpace(s: string)
    ensures Split(" " + s) == Split(s)
  {
    assert (" " + s)[1..] == s;
    SplitStripped(" " + s);
    SplitStripped(s);
  }

  // ---- Words and the whitespace between them -----------------------------------

  /** `gaps[0] + ws[0] + gaps[1] + … + ws[n - 1] + gaps[n]`. */
  function Interleave(gaps: seq<string>, ws: seq<string>): string
    requires |gaps| == |ws| + 1
    decreases |ws|
  {
    if ws == [] then gaps[0] else gaps[0] + ws[0] + Interleave(gaps[1..], ws[1..])
  }

  /** A text cut into its words and the whitespace around them: the words are
      non-empty and hold no whitespace, the gaps hold only whitespace, and the
      gap between two words is not empty. */
  predicate Layout(gaps: seq<string>, ws: seq<string>) {
    && |gaps| == |ws| + 1
    && (forall k :: 0 <= k < |ws| ==> ws[k] != [] && NoSpace(ws[k]))
    && (forall k :: 0 <= k < |gaps| ==> AllSpace(gaps[k]))
    && (forall k :: 0 < k < |ws| ==> gaps[k] != [])
  }

  /** Every text has a layout. */
  lemma {:induction false} LayoutOf(s: string) returns (gaps: seq<string>, ws: seq<string>)
    ensures Layout(gaps, ws) && Interleave(gaps, ws) == s
    decreases |s|
  {
    if s == [] {
      gaps, ws := [[]], [];
    } else {
      var g, w := LayoutOf(s[1..]);
      var c := s[0];
      assert s == [c] + s[1..];
      if IsSpace(c) {
        gaps, ws := [[c] + g[0]] + g[1..], w;
        InterleaveFirstGap([c], g, w);
      } else if w != [] && g[0] == [] {
        gaps, ws := g, [[c] + w[0]] + w[1..];
        InterleaveFirstWord(c, g, w);
      } else {
        gaps, ws := [[]] + g, [[c]] + w;
        assert gaps[1..] == g && ws[1..] == w;
        assert Interleave(gaps, ws) == [] + [c] + Interleave(g, w);
      }
    }
  }

  lemma InterleaveFirstGap(p: string, g: seq<string>, w: seq<string>)
    requires |g| == |w| + 1
    ensures Interleave([p + g[0]] + g[1..], w) == p + Interleave(g, w)
  {
    var g' := [p + g[0]] + g[1..];
    assert g'[1..] == g[1..];
  }

  lemma InterleaveFirstWord(c: char, g: seq<string>, w: seq<string>)
    requires |g| == |w| + 1 && w != [] && g[0] == []
    ensures Interleave(g, [[c] + w[0]] + w[1..]) == [c] + Interleave(g, w)
  {
    var w' := [[c] + w[0]] + w[1..];
    assert w'[1..] == w[1..] && w' != [] && w'[0] == [c] + w[0];
    var rest := Interleave(g[1..], w[1..]);
    InterleaveUnfold(g, w');
    InterleaveUnfold(g, w);
    FrontChar(c, g[0], w[0], rest);
  }

  lemma FrontChar(c: char, e: string, a: string, r: string)
    requires e == []
    ensures e + (([c] + a) + r) == [c] + (e + (a + r))
  {
  }

  /** The gaps and words after the first word. */
  lemma LayoutTail(gaps: seq<string>, ws: seq<string>)
    requires Layout(gaps, ws) && ws != []
    ensures Layout(gaps[1..], ws[1..])
    ensures Interleave(gaps, ws) == gaps[0] + (ws[0] + Interleave(gaps[1..], ws[1..]))
    ensures AllSpace(gaps[0]) && ws[0] != [] && NoSpace(ws[0])
    ensures Interleave(gaps[1..], ws[1..]) == [] || IsSpace(Interleave(gaps[1..], ws[1..])[0])
  {
    LayoutShift(gaps, ws);
    InterleaveUnfold(gaps, ws);
    LayoutRest(gaps[1..], ws[1..], |ws| > 1);
  }

  lemma LayoutShift(gaps: seq<string>, ws: seq<string>)
    requires Layout(gaps, ws) && ws != []
    ensures Layout(gaps[1..], ws[1..])
    ensures AllSpace(gaps[1..][0]) && (|ws| > 1 ==> gaps[1..][0] != [])
    ensures AllSpace(gaps[0]) && ws[0] != [] && NoSpace(ws[0])
  {
    var g, w := gaps[1..], ws[1..];
    forall k | 0 <= k < |w|
      ensures w[k] != [] && NoSpace(w[k])
    {
      assert w[k] == ws[k + 1];
    }
    forall k | 0 <= k < |g|
      ensures AllSpace(g[k])
    {
      assert g[k] == gaps[k + 1];
    }
    forall k | 0 < k < |w|
      ensures g[k] != []
    {
      assert g[k] == gaps[k + 1];
    }
  }

  lemma InterleaveUnfold(gaps: seq<string>, ws: seq<string>)
    requires |gaps| == |ws| + 1 && ws != []
    ensures Interleave(gaps, ws) == gaps[0] + (ws[0] + Interleave(gaps[1..], ws[1..]))
  {
    var rest := Interleave(gaps[1..], ws[1..]);
    Assoc(gaps[0], ws[0], rest);
  }

  lemma Assoc<T>(a: seq<T>, b: seq<T>, c: seq<T>)
    ensures a + b + c == a + (b + c)
  {
  }

  /** What follows the first word starts with whitespace, or is empty. */
  lemma LayoutRest(gaps: seq<string>, ws: seq<string>, more: bool)
    requires |gaps| == |ws| + 1 && AllSpace(gaps[0]) && (more ==> gaps[0] != [])
    requires !more ==> ws == []
    ensures Interleave(gaps, ws) == [] || IsSpace(Interleave(gaps, ws)[0])
  {
    if gaps[0] != [] {
      assert Interleave(gaps, ws)[0] == gaps[0][0];
    } else {
      assert Interleave(gaps, ws) == [];
    }
  }

  /** Whitespace in front of a text that does not start with whitespace is
      exactly what `str.lstrip()` removes. */
  lemma StripSpaces(g: string, x: string)
    requires AllSpace(g) && (x == [] || !IsSpace(x[0]))
    ensures StripStart(g + x) == x
  {
    LeadingOf(g, x);
    assert (g + x)[|g|..] == x;
  }

  lemma {:induction false} LeadingOf(g: string, x: string)
    requires AllSpace(g) && (x == [] || !IsSpace(x[0]))
    ensures LeadingSpace(g + x) == |g|
    decreases |g|
  {
    if g != [] {
      assert (g + x)[0] == g[0] && (g + x)[1..] == g[1..] + x;
      LeadingOf(g[1..], x);
    } else {
      assert g + x == x;
    }
  }

  /** `str.split()` returns exactly the words of the layout: a token never
      spans a gap and never stops inside a word. */
  lemma {:induction false} SplitLayout(gaps: seq<string>, ws: seq<string>)
    requires Layout(gaps, ws)
    ensures Split(Interleave(gaps, ws)) == ws
    decreases |ws|
  {
    if ws == [] {
      SplitGap(gaps[0]);
    } else {
      LayoutTail(gaps, ws);
      var rest := Interleave(gaps[1..], ws[1..]);
      SplitLayout(gaps[1..], ws[1..]);
      SplitLayoutStep(Interleave(gaps, ws), gaps[0], ws[0], rest, ws);
    }
  }

  /** Whitespace alone has no token. */
  lemma SplitGap(g: string)
    requires AllSpace(g)
    ensures Split(g) == []
  {
    StripSpaces(g, []);
    assert g + [] == g;
  }

  /** A gap, a word and the rest: the word is the first token. */
  lemma SplitLayoutStep(s: string, g: string, w: string, rest: string, ws: seq<string>)
    requires AllSpace(g) && w != [] && NoSpace(w) && (rest == [] || IsSpace(rest[0]))
    requires s == g + (w + rest) && ws != [] && ws[0] == w && Split(rest) == ws[1..]
    ensures Split(s) == ws
  {
    SplitGapWord(g, w, rest);
    ConsEq(Split(s), w, Split(rest), ws);
  }

  lemma ConsEq<T>(a: seq<T>, x: T, b: seq<T>, c: seq<T>)
    requires a == [x] + b && c != [] && c[0] == x && c[1..] == b
    ensures a == c
  {
    assert c == [c[0]] + c[1..];
  }

  lemma SplitGapWord(g: string, w: string, rest: string)
    requires AllSpace(g) && w != [] && NoSpace(w) && (rest == [] || IsSpace(rest[0]))
    ensures Split(g + (w + rest)) == [w] + Split(rest)
  {
    StripSpaces(g, w + rest);
    SplitStripped(g + (w + rest));
    SplitWord(w, rest);
  }

  /** The gaps with each non-empty one replaced by one plain space. */
  function Squeeze(gaps: seq<string>): (r: seq<string>)
    ensures |r| == |gaps|
    ensures forall k :: 0 <= k < |gaps| ==> r[k] == (if gaps[k] == [] then [] else " ")
  {
    if gaps == [] then []
    else [if gaps[0] == [] then [] else " "] + Squeeze(gaps[1..])
  }

  /** `re.sub(r"\s+", " ", s)` replaces every maximal run of whitespace,
      inside the text or at either end, by exactly one plain space, and keeps
      the words as they are. */
  lemma {:induction false} CollapseLayout(gaps: seq<string>, ws: seq<string>)
    requires Layout(gaps, ws)
    ensures Collapse(Interleave(gaps, ws)) == Interleave(Squeeze(gaps), ws)
    decreases |ws|
  {
    var sq := Squeeze(gaps);
    if ws == [] {
      CollapseGap(gaps[0], []);
      assert gaps[0] + [] == gaps[0];
    } else {
      LayoutTail(gaps, ws);
      var rest := Interleave(gaps[1..], ws[1..]);
      CollapseGapWord(gaps[0], ws[0], rest);
      CollapseLayout(gaps[1..], ws[1..]);
      assert sq[1..] == Squeeze(gaps[1..]);
      assert Interleave(sq, ws) == sq[0] + ws[0] + Interleave(sq[1..], ws[1..]);
    }
  }

  lemma CollapseGapWord(g: string, w: string, rest: string)
    requires AllSpace(g) && w != [] && NoSpace(w)
    ensures Collapse(g + (w + rest)) == (if g == [] then [] else " ") + w + Collapse(rest)
  {
    CollapseGap(g, w + rest);
    CollapseWordOf(w, rest);
  }

  /** A leading gap collapses to one space, or to nothing when it is empty. */
  lemma CollapseGap(g: string, x: string)
    requires AllSpace(g) && (x == [] || !IsSpace(x[0]))
    ensures Collapse(g + x) == (if g == [] then [] else " ") + Collapse(x)
  {
    if g == [] {
      assert g + x == x;
    } else {
      StripSpaces(g, x);
      assert (g + x)[0] == g[0];
    }
  }

  /** A word is copied as it is. */
  lemma {:induction false} CollapseWordOf(w: string, x: string)
    requires NoSpace(w)
    ensures Collapse(w + x) == w + Collapse(x)
    decreases |w|
  {
    if w != [] {
      assert w + x == [w[0]] + (w[1..] + x);
      CollapseCons(w[0], w[1..] + x);
      CollapseWordOf(w[1..], x);
      assert w == [w[0]] + w[1..];
    } else {
      assert w + x == x;
    }
  }

  lemma CollapseCons(c: char, y: string)
    requires !IsSpace(c)
    ensures Collapse([c] + y) == [c] + Collapse(y)
  {
    assert ([c] + y)[0] == c && ([c] + y)[1..] == y;
  }

  /** A key that occurs is replaced where it first occurs: `str.replace` keeps
      what comes before, writes `v` in place of the key, and goes on after it,
      so occurrences never overlap. */
  lemma {:induction false} ReplaceFirst(s: string, k: string, v: string, i: nat)
    requires k != [] && OccursAt(s, k, i)
    requires forall j :: 0 <= j < i ==> !OccursAt(s, k, j)
    ensures ReplaceAll(s, k, v) == s[..i] + v + ReplaceAll(s[i + |k|..], k, v)
    decreases i
  {
    if i == 0 {
      ReplaceHit(s, k, v);
    } else {
      var t := s[1..];
      ReplacePass(s, k, v);
      FirstOccurrenceShift(s, k, i);
      ReplaceFirst(t, k, v, i - 1);
      assert t[i - 1 + |k|..] == s[i + |k|..];
      ReplaceFirstStep(s, v, ReplaceAll(s, k, v), ReplaceAll(t, k, v), ReplaceAll(s[i + |k|..], k, v), i);
    }
  }

  /** Without its first character, `s` has its first occurrence of `k` one
      index earlier. */
  lemma FirstOccurrenceShift(s: string, k: string, i: nat)
    requires k != [] && i > 0 && OccursAt(s, k, i)
    requires forall j :: 0 <= j < i ==> !OccursAt(s, k, j)
    ensures OccursAt(s[1..], k, i - 1)
    ensures forall j :: 0 <= j < i - 1 ==> !OccursAt(s[1..], k, j)
  {
    var t := s[1..];
    forall j | 0 <= j < i - 1
      ensures !OccursAt(t, k, j)
    {
      assert !OccursAt(s, k, j + 1);
      assert t[j..j + |k|] == s[j + 1..j + 1 + |k|];
    }
    assert t[i - 1..i - 1 + |k|] == s[i..i + |k|];
  }

  /** Putting the first character back in front. */
  lemma ReplaceFirstStep(s: string, v: string, r: string, r1: string, tail: string, i: nat)
    requires 0 < i <= |s|
    requires r == [s[0]] + r1 && r1 == s[1..][..i - 1] + v + tail
    ensures r == s[..i] + v + tail
  {
    assert s[..i] == [s[0]] + s[1..][..i - 1];
  }

  lemma ReplaceHit(s: string, k: string, v: string)
    requires k != [] && OccursAt(s, k, 0)
    ensures ReplaceAll(s, k, v) == v + ReplaceAll(s[|k|..], k, v)
  {
    assert s[..|k|] == s[0..|k|];
  }

  lemma ReplacePass(s: string, k: string, v: string)
    requires k != [] && |k| <= |s| && !OccursAt(s, k, 0)
    ensures ReplaceAll(s, k, v) == [s[0]] + ReplaceAll(s[1..], k, v)
  {
    assert s[..|k|] == s[0..|k|];
  }

  /** Python's `s.replace(k, v)`: every occurrence of `k`, scanning from the left
      without overlaps, is replaced by `v`. Every character of the result comes
      from `s` or from `v`; a one-character key that `v` does not contain is gone
      from the result. */
  function ReplaceAll(s: string, k: string, v: string): (r: string)
    requires k != []
    ensures forall c :: c in r ==> c in s || c in v
    ensures |k| == 1 && k[0] !in v ==> k[0] !in r
    decreases |s|
  {
    if |s| < |k| then
      assert |k| == 1 ==> s == [];
      s
    else if s[..|k|] == k then v + ReplaceAll(s[|k|..], k, v)
    else
      assert |k| == 1 ==> s[0] != k[0];
      [s[0]] + ReplaceAll(s[1..], k, v)
  }

  /** A key whose first character does not occur in `s` changes nothing. */
  lemma {:induction false} ReplaceAbsent(s: string, k: string, v: string)
    requires k != [] && k[0] !in s
    ensures ReplaceAll(s, k, v) == s
    decreases |s|
  {
    if |s| >= |k| {
      assert s[..|k|][0] == s[0];
      ReplaceAbsent(s[1..], k, v);
    }
  }

  /** A key that does not occur changes nothing. */
  lemma {:induction false} ReplaceMissing(s: string, k: string, v: string)
    requires k != [] && !Contains(s, k)
    ensures ReplaceAll(s, k, v) == s
    decreases |s|
  {
    if |s| >= |k| {
      ReplaceMissing(s[1..], k, v);
      assert s == [s[0]] + s[1..];
    }
  }

  /** Replacing a key by itself changes nothing. */
  lemma {:induction false} ReplaceIdentity(s: string, k: string)
    requires k != []
    ensures ReplaceAll(s, k, k) == s
    decreases |s|
  {
    if |s| >= |k| {
      if s[..|k|] == k {
        ReplaceIdentity(s[|k|..], k);
        assert s == s[..|k|] + s[|k|..];
      } else {
        ReplaceIdentity(s[1..], k);
      }
    }
  }
}
