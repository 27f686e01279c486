/** The string primitives the scraper relies on, written out as Dafny
    functions: Python's `str.strip`, `lower`, `upper`, `in`, `startswith`,
    `endswith`, `replace`, `split`, `join`, and the regular expression
    substitution `re.sub(r"\s+", " ", s)`. */
module Text {

  /** Python's `str.isspace` for one character, which is also what `\s`
      matches in a `str` pattern. */
  predicate IsSpace(c: char) {
    var n := c as int;
    || (9 <= n <= 13) || (28 <= n <= 32) || n == 0x85 || n == 0xA0 || n == 0x1680
    || (0x2000 <= n <= 0x200A) || n == 0x2028 || n == 0x2029 || n == 0x202F
    || n == 0x205F || n == 0x3000
  }

  predicate AllSpace(s: string) {
    forall i :: 0 <= i < |s| ==> IsSpace(s[i])
  }

  /** Neither end of `s` is whitespace: what `strip` leaves behind. */
  predicate Stripped(s: string) {
    s == [] || (!IsSpace(s[0]) && !IsSpace(s[|s| - 1]))
  }

  /** Every character of `t` occurs in `s`. */
  predicate CharsWithin(t: string, s: string) {
    forall j :: 0 <= j < |t| ==> t[j] in s
  }

  /** No character of `s` is in `cs`. */
  predicate NoneOf(s: string, cs: set<char>) {
    forall j :: 0 <= j < |s| ==> s[j] !in cs
  }

  // ---------------------------------------------------------------- strip

  function LStrip(s: string): (r: string)
    ensures LeftStripped(s, r)
    ensures s != [] && IsSpace(s[0]) ==> |r| < |s|
  {
    if s != [] && IsSpace(s[0]) then
      var r := LStrip(s[1..]);
      LStripStep(s, r);
      r
    else
      assert s[..0] == [] && s[0..] == s;
      s
  }

  function RStrip(s: string): (r: string)
    ensures RightStripped(s, r)
  {
    if s != [] && IsSpace(s[|s| - 1]) then
      var r := RStrip(s[..|s| - 1]);
      RStripStep(s, r);
      r
    else
      assert s[|s|..] == [] && s[..|s|] == s;
      s
  }

  /** `r` is `s` without its leading whitespace. */
  predicate LeftStripped(s: string, r: string) {
    && |r| <= |s| && r == s[|s| - |r|..]
    && (r == [] || !IsSpace(r[0]))
    && AllSpace(s[..|s| - |r|])
  }

  /** `r` is `s` without its trailing whitespace. */
  predicate RightStripped(s: string, r: string) {
    && |r| <= |s| && r == s[..|r|]
    && (r == [] || !IsSpace(r[|r| - 1]))
    && AllSpace(s[|r|..])
  }

  lemma LStripStep(s: string, r: string)
    requires s != [] && IsSpace(s[0]) && LeftStripped(s[1..], r)
    ensures LeftStripped(s, r) && |r| < |s|
  {
    assert s[1..][|s| - 1 - |r|..] == s[|s| - |r|..];
    var p := s[..|s| - |r|];
    forall i | 0 <= i < |p|
      ensures IsSpace(p[i])
    {
      if i > 0 {
        assert p[i] == s[1..][..|s| - 1 - |r|][i - 1];
      }
    }
  }

  lemma RStripStep(s: string, r: string)
    requires s != [] && IsSpace(s[|s| - 1]) && RightStripped(s[..|s| - 1], r)
    ensures RightStripped(s, r)
  {
    assert s[..|s| - 1][..|r|] == s[..|r|];
    var p := s[|r|..];
    forall i | 0 <= i < |p|
      ensures IsSpace(p[i])
    {
      if |r| + i < |s| - 1 {
        assert p[i] == s[..|s| - 1][|r|..][i];
      }
    }
  }

  /** Python's `s.strip()`: the longest infix of `s` that neither starts nor
      ends with whitespace, empty exactly when `s` is all whitespace. */
  function Strip(s: string): (r: string)
    ensures Stripped(r)
    ensures |r| <= |s|
    ensures r == [] <==> AllSpace(s)
    ensures Stripped(s) ==> r == s
  {
    StrippedEnds(s);
    StripBlank(s);
    StripOfStripped(s);
    RStrip(LStrip(s))
  }

  lemma StrippedEnds(s: string)
    ensures Stripped(RStrip(LStrip(s)))
  {
    var l := LStrip(s);
    var r := RStrip(l);
    if r != [] {
      assert r[0] == l[0];
    }
  }

  lemma StripBlank(s: string)
    ensures RStrip(LStrip(s)) == [] <==> AllSpace(s)
  {
    var l := LStrip(s);
    var r := RStrip(l);
    if r == [] {
      assert l == [];
      assert s[..|s|] == s;
    } else {
      assert l[0] == s[|s| - |l|];
    }
  }

  lemma StripOfStripped(s: string)
    ensures Stripped(s) ==> RStrip(LStrip(s)) == s
  {
    if Stripped(s) && s != [] {
      assert LStrip(s) == s;
    }
  }

  // ------------------------------------------------------ case conversion

  /** `str.lower` on one character, for Basic Latin and Latin-1 Supplement. */
  function LowerChar(c: char): char {
    if 'A' <= c <= 'Z' || ('\U{C0}' <= c <= '\U{DE}' && c != '\U{D7}') then
      (c as int + 32) as char
    else c
  }

  /** `str.lower`: a character-wise map, so it keeps the length and the
      whitespace of its input. */
  function Lower(s: string): (r: string)
    ensures |r| == |s|
    ensures forall i :: 0 <= i < |s| ==> r[i] == LowerChar(s[i])
  {
    seq(|s|, i requires 0 <= i < |s| => LowerChar(s[i]))
  }

  /** Lower-casing twice is lower-casing once. */
  lemma LowerIdempotent(s: string)
    ensures Lower(Lower(s)) == Lower(s)
  {
  }

  lemma LowerKeepsSpace(c: char)
    ensures IsSpace(c) ==> LowerChar(c) == c
    ensures IsSpace(LowerChar(c)) <==> IsSpace(c)
  {
  }

  lemma LowerCons(s: string)
    requires s != []
    ensures Lower(s) == [LowerChar(s[0])] + Lower(s[1..])
    ensures Lower(s)[1..] == Lower(s[1..])
    ensures Lower(s)[..|s| - 1] == Lower(s[..|s| - 1])
  {
  }

  /** Stripping commutes with lower-casing. */
  lemma {:induction false} StripLower(s: string)
    ensures Strip(Lower(s)) == Lower(Strip(s))
  {
    LStripLower(s);
    RStripLower(LStrip(s));
  }

  lemma {:induction false} LStripLower(s: string)
    ensures LStrip(Lower(s)) == Lower(LStrip(s))
    decreases |s|
  {
    if s != [] {
      LowerCons(s);
      LowerKeepsSpace(s[0]);
      LStripLower(s[1..]);
    }
  }

  lemma {:induction false} RStripLower(s: string)
    ensures RStrip(Lower(s)) == Lower(RStrip(s))
    decreases |s|
  {
    if s != [] {
      LowerCons(s);
      LowerKeepsSpace(s[|s| - 1]);
      RStripLower(s[..|s| - 1]);
    }
  }

  /** `str.upper` on one character, for Basic Latin and Latin-1 Supplement;
      the German sharp s becomes two letters, as in Python. */
  function UpperChar(c: char): (r: string)
    ensures r != []
    ensures IsSpace(c) ==> r == [c]
    ensures !IsSpace(c) ==> NoSpace(r)
  {
    if 'a' <= c <= 'z' || ('\U{E0}' <= c <= '\U{FE}' && c != '\U{F7}') then
      [(c as int - 32) as char]
    else if c == '\U{DF}' then "SS"
    else if c == '\U{FF}' then ['\U{0178}']
    else if c == '\U{B5}' then ['\U{039C}']
    else [c]
  }

  predicate NoSpace(s: string) {
    forall j :: 0 <= j < |s| ==> !IsSpace(s[j])
  }

  function Upper(s: string): string {
    if s == [] then [] else UpperChar(s[0]) + Upper(s[1..])
  }

  // --------------------------------------------------- substring queries

  predicate StartsWith(s: string, p: string) {
    |p| <= |s| && s[..|p|] == p
  }

  predicate EndsWith(s: string, p: string) {
    |p| <= |s| && s[|s| - |p|..] == p
  }

  /** Python's `t in s`. */
  predicate Contains(s: string, t: string)
    decreases |s|
  {
    StartsWith(s, t) || (s != [] && Contains(s[1..], t))
  }

  lemma {:induction false} ContainsLength(s: string, t: string)
    requires Contains(s, t)
    ensures |t| <= |s|
    decreases |s|
  {
    if !StartsWith(s, t) {
      ContainsLength(s[1..], t);
    }
  }

  /** A match uses only characters of the string it is found in. */
  lemma {:induction false} ContainsChars(s: string, t: string)
    requires Contains(s, t)
    ensures forall k :: 0 <= k < |t| ==> t[k] in s
    decreases |s|
  {
    if StartsWith(s, t) {
      forall k | 0 <= k < |t| ensures t[k] in s { assert s[k] == t[k]; }
    } else {
      ContainsChars(s[1..], t);
      forall k | 0 <= k < |t| ensures t[k] in s { assert t[k] in s[1..]; }
    }
  }

  /** Whatever contains `t` contains each piece `t[a..b]` of it. */
  lemma ContainsInfix(s: string, t: string, a: nat, b: nat)
    requires a <= b <= |t| && Contains(s, t)
    ensures Contains(s, t[a..b])
  {
    assert t == t[..b] + t[b..];
    ContainsHead(s, t[..b], t[b..]);
    assert t[..b] == t[..a] + t[a..b];
    ContainsTail(s, t[..a], t[a..b]);
  }

  /** `u` occurs in `t` at `a`, from the `i`-th character of `u` on,
      checked one character at a time. */
  predicate OccursAt(t: string, a: nat, u: string, i: nat)
    decreases |u| - i
  {
    i >= |u| || (a + i < |t| && t[a + i] == u[i] && OccursAt(t, a, u, i + 1))
  }

  lemma {:induction false} OccursAtSlice(t: string, a: nat, u: string, i: nat)
    requires a + |u| <= |t| && i <= |u| && OccursAt(t, a, u, i)
    ensures forall j :: i <= j < |u| ==> t[a + j] == u[j]
    decreases |u| - i
  {
    if i < |u| {
      OccursAtSlice(t, a, u, i + 1);
    }
  }

  /** A needle found in `t` at `a` is the slice of `t` there. */
  lemma OccursAtInfix(t: string, a: nat, u: string)
    requires a + |u| <= |t| && OccursAt(t, a, u, 0)
    ensures t[a..a + |u|] == u
  {
    OccursAtSlice(t, a, u, 0);
  }

  /** A needle with a character the string lacks is not in it. */
  lemma MissingChar(s: string, t: string, k: nat)
    requires k < |t| && t[k] !in s
    ensures !Contains(s, t)
  {
    if Contains(s, t) {
      ContainsChars(s, t);
    }
  }

  /** A match inside a suffix is a match in the whole string. */
  lemma {:induction false} ContainsInSuffix(s: string, k: nat, t: string)
    requires k <= |s| && Contains(s[k..], t)
    ensures Contains(s, t)
    decreases k
  {
    if k > 0 {
      assert s[1..][k - 1..] == s[k..];
      ContainsInSuffix(s[1..], k - 1, t);
    }
  }

  /** Whatever contains `a + b` contains `b`. */
  lemma {:induction false} ContainsTail(s: string, a: string, b: string)
    requires Contains(s, a + b)
    ensures Contains(s, b)
    decreases |s|
  {
    if StartsWith(s, a + b) {
      assert s[|a|..][..|b|] == (a + b)[|a|..];
      ContainsInSuffix(s, |a|, b);
    } else {
      ContainsTail(s[1..], a, b);
    }
  }

  /** Whatever contains `a + b` contains `a`. */
  lemma {:induction false} ContainsHead(s: string, a: string, b: string)
    requires Contains(s, a + b)
    ensures Contains(s, a)
    decreases |s|
  {
    if StartsWith(s, a + b) {
      assert s[..|a|] == (a + b)[..|a|];
    } else {
      ContainsHead(s[1..], a, b);
    }
  }

  /** A needle without whitespace is found in `x + " " + y` only inside `x`
      or inside `y`: the separator cannot be part of a match. */
  lemma {:induction false} ContainsAcrossSpace(x: string, y: string, t: string)
    requires t != [] && NoneOf(t, {' '})
    ensures Contains(x + " " + y, t) <==> Contains(x, t) || Contains(y, t)
    decreases |x|
  {
    var h := x + " " + y;
    if x == [] {
      assert h == " " + y;
      assert h[1..] == y;
      assert |t| <= |h| ==> h[..|t|][0] == ' ';
      assert !Contains(x, t) by { assert !StartsWith(x, t); }
    } else {
      assert h[1..] == x[1..] + " " + y;
      ContainsAcrossSpace(x[1..], y, t);
      assert h[|x|] == ' ';
      assert |x| < |t| <= |h| ==> h[..|t|][|x|] == ' ';
      assert |t| <= |x| ==> h[..|t|] == x[..|t|];
      assert StartsWith(h, t) <==> StartsWith(x, t);
    }
  }

  // ------------------------------------------------- whitespace collapse

  /** Every whitespace character is a plain space and is followed by a
      non-whitespace character: what `re.sub(r"\s+", " ", s)` produces. */
  predicate SingleSpaced(s: string) {
    forall i :: 0 <= i < |s| && IsSpace(s[i]) ==>
      s[i] == ' ' && (i + 1 < |s| ==> !IsSpace(s[i + 1]))
  }

  /** `re.sub(r"\s+", " ", s)`: each maximal whitespace run becomes one
      space. */
  function Collapse(s: string): (r: string)
    ensures Collapsed(s, r)
    decreases |s|
  {
    if s == [] then []
    else if IsSpace(s[0]) then
      var t := LStrip(s);
      var rest := Collapse(t);
      CollapseSpaceStep(s, t, rest);
      " " + rest
    else
      var rest := Collapse(s[1..]);
      CollapseWordStep(s, rest);
      [s[0]] + rest
  }

  /** `r` is single-spaced, empty exactly when `s` is, and starts and ends
      with whitespace exactly when `s` does. */
  predicate Collapsed(s: string, r: string) {
    && SingleSpaced(r)
    && (r == [] <==> s == [])
    && (r != [] ==> (IsSpace(r[0]) <==> IsSpace(s[0])))
    && (r != [] ==> (IsSpace(r[|r| - 1]) <==> IsSpace(s[|s| - 1])))
  }

  lemma CollapseSpaceStep(s: string, t: string, rest: string)
    requires s != [] && IsSpace(s[0]) && LeftStripped(s, t) && Collapsed(t, rest)
    ensures Collapsed(s, " " + rest)
  {
    var r := " " + rest;
    forall i | 0 <= i < |r| && IsSpace(r[i])
      ensures r[i] == ' ' && (i + 1 < |r| ==> !IsSpace(r[i + 1]))
    {
      if i == 0 {
        if 1 < |r| {
          assert r[1] == rest[0];
        }
      } else {
        assert r[i] == rest[i - 1];
        if i + 1 < |r| {
          assert r[i + 1] == rest[i];
        }
      }
    }
    if rest == [] {
      assert s[..|s|] == s;
    } else {
      assert r[|r| - 1] == rest[|rest| - 1];
      assert t[|t| - 1] == s[|s| - 1];
    }
  }

  lemma CollapseWordStep(s: string, rest: string)
    requires s != [] && !IsSpace(s[0]) && Collapsed(s[1..], rest)
    ensures Collapsed(s, [s[0]] + rest)
  {
    var r := [s[0]] + rest;
    forall i | 0 <= i < |r| && IsSpace(r[i])
      ensures r[i] == ' ' && (i + 1 < |r| ==> !IsSpace(r[i + 1]))
    {
      assert i > 0;
      assert r[i] == rest[i - 1];
      if i + 1 < |r| {
        assert r[i + 1] == rest[i];
      }
    }
    if rest != [] {
      assert r[|r| - 1] == rest[|rest| - 1];
      assert s[1..][|s| - 2] == s[|s| - 1];
    }
  }

  /** Collapsing whitespace leaves a blank string blank and a non-blank one
      non-blank. */
  lemma CollapseAllSpace(s: string)
    ensures AllSpace(Collapse(s)) <==> AllSpace(s)
  {
    var r := Collapse(s);
    assert Collapsed(s, r);
    if s != [] {
      if !IsSpace(s[0]) {
        assert !IsSpace(r[0]);
      } else {
        var t := LStrip(s);
        CollapseLeadingSpace(s);
        LStripBlank(s);
        var rest := Collapse(t);
        assert Collapsed(t, rest);
        if t == [] {
          assert r == " ";
        } else {
          assert !IsSpace(rest[0]);
          assert r[1] == rest[0];
        }
      }
    }
  }

  /** A leading whitespace run collapses to one space before the rest. */
  lemma CollapseLeadingSpace(s: string)
    requires s != [] && IsSpace(s[0])
    ensures Collapse(s) == " " + Collapse(LStrip(s))
  {
  }

  /** Stripping the left end leaves nothing exactly when all is space. */
  lemma LStripBlank(s: string)
    ensures LStrip(s) == [] <==> AllSpace(s)
  {
    var t := LStrip(s);
    if t == [] {
      assert s[..|s|] == s;
    } else {
      assert s[|s| - |t|] == t[0];
    }
  }

  lemma LowerConcat(a: string, b: string)
    ensures Lower(a + b) == Lower(a) + Lower(b)
  {
  }

  lemma LowerOfSpace(x: string)
    ensures Lower(" " + x) == " " + Lower(x)
  {
    var a := Lower(" " + x);
    assert a[0] == LowerChar(' ') == ' ';
    assert forall i :: 1 <= i < |a| ==> a[i] == Lower(x)[i - 1];
  }

  /** Collapsing whitespace commutes with lower-casing. */
  lemma {:induction false} CollapseLower(s: string)
    ensures Collapse(Lower(s)) == Lower(Collapse(s))
    decreases |s|
  {
    if s != [] {
      if IsSpace(s[0]) {
        CollapseLower(LStrip(s));
        CollapseLowerSpaceStep(s);
      } else {
        CollapseLower(s[1..]);
        CollapseLowerWordStep(s);
      }
    }
  }

  lemma CollapseLowerSpaceStep(s: string)
    requires s != [] && IsSpace(s[0])
    requires Collapse(Lower(LStrip(s))) == Lower(Collapse(LStrip(s)))
    ensures Collapse(Lower(s)) == Lower(Collapse(s))
  {
    var l := Lower(s);
    var t := LStrip(s);
    LowerCons(s);
    LowerKeepsSpace(s[0]);
    LStripLower(s);
    CollapseLeadingSpace(l);
    CollapseLeadingSpace(s);
    LowerOfSpace(Collapse(t));
  }

  lemma CollapseLowerWordStep(s: string)
    requires s != [] && !IsSpace(s[0])
    requires Collapse(Lower(s[1..])) == Lower(Collapse(s[1..]))
    ensures Collapse(Lower(s)) == Lower(Collapse(s))
  {
    var l := Lower(s);
    LowerCons(s);
    LowerKeepsSpace(s[0]);
    assert Collapse(l) == [l[0]] + Collapse(l[1..]);
    LowerConcat([s[0]], Collapse(s[1..]));
    assert Lower([s[0]]) == [LowerChar(s[0])];
  }

  /** Upper-casing ignores a prior lower-casing. */
  lemma {:induction false} UpperLower(s: string)
    ensures Upper(Lower(s)) == Upper(s)
    decreases |s|
  {
    if s != [] {
      LowerCons(s);
      assert UpperChar(LowerChar(s[0])) == UpperChar(s[0]);
      UpperLower(s[1..]);
    }
  }

  lemma SingleSpacedInfix(s: string, i: nat, j: nat)
    requires i <= j <= |s| && SingleSpaced(s)
    ensures SingleSpaced(s[i..j])
  {
    var t := s[i..j];
    forall k | 0 <= k < |t| && IsSpace(t[k])
      ensures t[k] == ' ' && (k + 1 < |t| ==> !IsSpace(t[k + 1]))
    {
      assert t[k] == s[i + k];
      if k + 1 < |t| {
        assert t[k + 1] == s[i + k + 1];
      }
    }
  }

  /** A single-spaced string has nothing left to collapse. */
  lemma {:induction false} CollapseSingleSpaced(s: string)
    requires SingleSpaced(s)
    ensures Collapse(s) == s
    decreases |s|
  {
    if s != [] {
      SingleSpacedInfix(s, 1, |s|);
      CollapseSingleSpaced(s[1..]);
      if IsSpace(s[0]) {
        CollapseSpaceKept(s);
      } else {
        CollapseWordKept(s);
      }
    }
  }

  lemma CollapseSpaceKept(s: string)
    requires s != [] && s[0] == ' ' && (|s| == 1 || !IsSpace(s[1]))
    requires Collapse(s[1..]) == s[1..]
    ensures Collapse(s) == s
  {
    var t := s[1..];
    assert IsSpace(s[0]);
    assert LStrip(s) == LStrip(t);
    assert LStrip(t) == t;
    CollapseLeadingSpace(s);
    assert [s[0]] == " ";
    Uncons(s);
  }

  // Sequence identities, stated apart so that they are proved in a small
  // context.

  lemma Uncons<T>(s: seq<T>)
    requires s != []
    ensures s == [s[0]] + s[1..]
  {
  }

  lemma SliceAround<T>(s: seq<T>, i: nat)
    requires i < |s|
    ensures s == s[..i] + [s[i]] + s[i + 1..]
  {
  }

  lemma JoinPrepend(a: string, rest: seq<string>, sep: string)
    requires rest != []
    ensures Join([a] + rest, sep) == a + sep + Join(rest, sep)
  {
    assert ([a] + rest)[1..] == rest;
  }

  lemma CollapseWordKept(s: string)
    requires s != [] && !IsSpace(s[0])
    requires Collapse(s[1..]) == s[1..]
    ensures Collapse(s) == s
  {
    assert s == [s[0]] + s[1..];
  }

  /** Stripping a single-spaced string keeps it single-spaced. */
  lemma SingleSpacedStrip(s: string)
    requires SingleSpaced(s)
    ensures SingleSpaced(Strip(s))
  {
    var l := LStrip(s);
    SingleSpacedInfix(s, |s| - |l|, |s|);
    var r := RStrip(l);
    SingleSpacedInfix(l, 0, |r|);
  }

  lemma SingleSpacedConcat(a: string, b: string)
    requires SingleSpaced(a) && SingleSpaced(b)
    requires a != [] && b != [] ==> !(IsSpace(a[|a| - 1]) && IsSpace(b[0]))
    ensures SingleSpaced(a + b)
  {
    var u := a + b;
    forall k | 0 <= k < |u| && IsSpace(u[k])
      ensures u[k] == ' ' && (k + 1 < |u| ==> !IsSpace(u[k + 1]))
    {
      if k < |a| {
        assert u[k] == a[k];
        if k + 1 < |u| {
          assert u[k + 1] == if k + 1 < |a| then a[k + 1] else b[0];
        }
      } else {
        assert u[k] == b[k - |a|];
        if k + 1 < |u| {
          assert u[k + 1] == b[k + 1 - |a|];
        }
      }
    }
  }

  /** Capital letters and spaces are their own upper case. */
  lemma {:induction false} UpperOfCapitals(s: string)
    requires forall i :: 0 <= i < |s| ==> 'A' <= s[i] <= 'Z' || s[i] == ' '
    ensures Upper(s) == s
    decreases |s|
  {
    if s != [] {
      assert UpperChar(s[0]) == [s[0]];
      UpperOfCapitals(s[1..]);
    }
  }

  /** Upper-casing keeps a string single-spaced and keeps which of its ends
      are whitespace, and it never empties a string. */
  lemma {:induction false} UpperShape(s: string)
    requires SingleSpaced(s)
    ensures SingleSpaced(Upper(s))
    ensures Upper(s) == [] <==> s == []
    ensures s != [] ==> (IsSpace(Upper(s)[0]) <==> IsSpace(s[0]))
    ensures s != [] ==> (IsSpace(Upper(s)[|Upper(s)| - 1]) <==> IsSpace(s[|s| - 1]))
    decreases |s|
  {
    if s != [] {
      var a := UpperChar(s[0]);
      var b := Upper(s[1..]);
      SingleSpacedInfix(s, 1, |s|);
      UpperShape(s[1..]);
      assert Upper(s) == a + b;
      assert SingleSpaced(a) by {
        if IsSpace(s[0]) { assert a == [' ']; }
      }
      assert b != [] ==> (IsSpace(b[0]) <==> IsSpace(s[1]));
      assert IsSpace(s[0]) && |s| > 1 ==> !IsSpace(s[1]);
      SingleSpacedConcat(a, b);
      assert (a + b)[0] == a[0];
      if b == [] {
        assert |s| == 1;
        assert (a + b)[|a + b| - 1] == a[|a| - 1];
      } else {
        assert (a + b)[|a + b| - 1] == b[|b| - 1];
        assert s[|s| - 1] == s[1..][|s[1..]| - 1];
      }
    }
  }

  // ----------------------------------------------------- replace and split

  /** `s.replace(a, b)` for one-character `a` and `b`. */
  function Replace(s: string, a: char, b: char): (r: string)
    ensures |r| == |s|
    ensures forall i :: 0 <= i < |s| ==> r[i] == (if s[i] == a then b else s[i])
  {
    seq(|s|, i requires 0 <= i < |s| => if s[i] == a then b else s[i])
  }

  /** `s.replace(c, "")`: every occurrence of `c` removed. */
  function Remove(s: string, c: char): (r: string)
    ensures c !in r
    ensures CharsWithin(r, s)
  {
    if s == [] then []
    else if s[0] == c then Remove(s[1..], c)
    else [s[0]] + Remove(s[1..], c)
  }

  /** Position of the first character of `s` in `seps`, or `|s|`. */
  function FirstOf(s: string, seps: set<char>): (i: nat)
    ensures i <= |s|
    ensures forall k :: 0 <= k < i ==> s[k] !in seps
    ensures i < |s| ==> s[i] in seps
  {
    if s == [] || s[0] in seps then 0 else 1 + FirstOf(s[1..], seps)
  }

  /** Python's `s.split(d)` when `seps == {d}`; in general, the pieces
      between single separator characters, empty pieces included. */
  function Split(s: string, seps: set<char>): (r: seq<string>)
    ensures |r| >= 1
    ensures forall k :: 0 <= k < |r| ==> NoneOf(r[k], seps)
    decreases |s|
  {
    var i := FirstOf(s, seps);
    if i == |s| then [s] else [s[..i]] + Split(s[i + 1..], seps)
  }

  /** Every split piece is made of characters of the input. */
  lemma {:induction false} SplitChars(s: string, seps: set<char>)
    ensures forall k :: 0 <= k < |Split(s, seps)| ==> CharsWithin(Split(s, seps)[k], s)
    decreases |s|
  {
    var i := FirstOf(s, seps);
    if i < |s| {
      SplitChars(s[i + 1..], seps);
      var rest := Split(s[i + 1..], seps);
      forall k, j | 0 <= k < |rest| && 0 <= j < |rest[k]|
        ensures rest[k][j] in s
      {
        assert rest[k][j] in s[i + 1..];
      }
      assert Split(s, seps) == [s[..i]] + rest;
      forall k | 0 <= k < |Split(s, seps)|
        ensures CharsWithin(Split(s, seps)[k], s)
      {
        if k > 0 {
          assert Split(s, seps)[k] == rest[k - 1];
        } else {
          assert forall j :: 0 <= j < i ==> s[..i][j] == s[j];
        }
      }
    }
  }

  /** `sep.join(parts)`. */
  function Join(parts: seq<string>, sep: string): string {
    if parts == [] then []
    else if |parts| == 1 then parts[0]
    else parts[0] + sep + Join(parts[1..], sep)
  }

  /** Splitting at one separator and joining with it again is the identity. */
  lemma {:induction false} JoinSplit(s: string, d: char)
    ensures Join(Split(s, {d}), [d]) == s
    decreases |s|
  {
    var i := FirstOf(s, {d});
    if i < |s| {
      JoinSplit(s[i + 1..], d);
      var rest := Split(s[i + 1..], {d});
      assert Split(s, {d}) == [s[..i]] + rest;
      JoinPrepend(s[..i], rest, [d]);
      SliceAround(s, i);
    }
  }

  /** A split piece joined back with a separator it does not contain splits
      apart again: `Split` inverts `Join`. */
  lemma {:induction false} SplitJoin(parts: seq<string>, d: char)
    requires |parts| >= 1
    requires forall k :: 0 <= k < |parts| ==> NoneOf(parts[k], {d})
    ensures Split(Join(parts, [d]), {d}) == parts
    decreases |parts|
  {
    var p := parts[0];
    if |parts| == 1 {
      assert FirstOf(p, {d}) == |p|;
    } else {
      var rest := Join(parts[1..], [d]);
      Uncons(parts);
      JoinPrepend(p, parts[1..], [d]);
      SeparatedParts(p, d, rest);
      FirstOfPrefix(p, [d] + rest, {d});
      SplitJoin(parts[1..], d);
    }
  }

  lemma SeparatedParts(p: string, d: char, rest: string)
    ensures p + [d] + rest == p + ([d] + rest)
    ensures (p + [d] + rest)[..|p|] == p && (p + [d] + rest)[|p| + 1..] == rest
  {
  }

  lemma FirstOfPrefix(p: string, q: string, seps: set<char>)
    requires NoneOf(p, seps) && q != [] && q[0] in seps
    ensures FirstOf(p + q, seps) == |p|
  {
    assert forall k :: 0 <= k < |p| ==> (p + q)[k] == p[k];
    assert (p + q)[|p|] == q[0];
    FirstOfUnique(p + q, seps, |p|);
  }

  /** `FirstOf` is pinned down by its two defining facts. */
  lemma FirstOfUnique(s: string, seps: set<char>, n: nat)
    requires n <= |s|
    requires forall k :: 0 <= k < n ==> s[k] !in seps
    requires n < |s| ==> s[n] in seps
    ensures FirstOf(s, seps) == n
  {
  }

  /** Splitting a string in which one separator was first rewritten into
      another is splitting at both. */
  lemma {:induction false} SplitReplace(s: string, a: char, b: char)
    ensures Split(Replace(s, a, b), {b}) == Split(s, {a, b})
    decreases |s|
  {
    var t := Replace(s, a, b);
    var i := FirstOf(s, {a, b});
    assert forall k :: 0 <= k < |s| ==> (t[k] in {b} <==> s[k] in {a, b});
    FirstOfUnique(t, {b}, i);
    if i < |s| {
      assert t[i + 1..] == Replace(s[i + 1..], a, b);
      assert t[..i] == s[..i];
      SplitReplace(s[i + 1..], a, b);
    } else {
      assert t == s;
    }
  }

  /** Rewriting one separator into another that is already split on is
      the same as splitting on both. */
  lemma {:induction false} SplitReplaceInto(s: string, a: char, b: char, seps: set<char>)
    requires b in seps
    ensures Split(Replace(s, a, b), seps) == Split(s, seps + {a})
    decreases |s|
  {
    var t := Replace(s, a, b);
    var i := FirstOf(s, seps + {a});
    assert forall k :: 0 <= k < |s| ==> (t[k] in seps <==> s[k] in seps + {a});
    FirstOfUnique(t, seps, i);
    if i < |s| {
      assert t[i + 1..] == Replace(s[i + 1..], a, b);
      assert t[..i] == s[..i];
      SplitReplaceInto(s[i + 1..], a, b, seps);
    } else {
      assert t == s;
    }
  }

  /** `[p.strip() for p in parts if p.strip()]`. */
  function Kept(parts: seq<string>): (r: seq<string>)
    ensures |r| <= |parts|
    ensures forall k :: 0 <= k < |r| ==> r[k] != [] && Stripped(r[k])
  {
    if parts == [] then []
    else
      var p := Strip(parts[0]);
      var rest := Kept(parts[1..]);
      if p != [] then [p] + rest else rest
  }

  /** The kept pieces are exactly the non-empty stripped pieces. */
  lemma {:induction false} KeptMembers(parts: seq<string>)
    ensures forall x :: x in Kept(parts) <==> x != [] && exists p :: p in parts && Strip(p) == x
    decreases |parts|
  {
    if parts != [] {
      KeptMembers(parts[1..]);
      assert forall p :: p in parts <==> p == parts[0] || p in parts[1..];
    }
  }

  lemma KeptCons(x: string, rest: seq<string>)
    ensures Kept([x] + rest) == (if Strip(x) != [] then [Strip(x)] else []) + Kept(rest)
  {
    assert ([x] + rest)[1..] == rest;
  }

  /** A kept piece inherits every character restriction of the pieces. */
  lemma {:induction false} KeptNoneOf(parts: seq<string>, cs: set<char>)
    requires forall k :: 0 <= k < |parts| ==> NoneOf(parts[k], cs)
    ensures forall k :: 0 <= k < |Kept(parts)| ==> NoneOf(Kept(parts)[k], cs)
    decreases |parts|
  {
    if parts != [] {
      KeptNoneOf(parts[1..], cs);
      var p := Strip(parts[0]);
      var rest := Kept(parts[1..]);
      StripNoneOf(parts[0], cs);
      assert Kept(parts) == if p != [] then [p] + rest else rest;
      if p != [] {
        NoneOfCons(p, rest, cs);
      }
    }
  }

  lemma NoneOfCons(p: string, rest: seq<string>, cs: set<char>)
    requires NoneOf(p, cs)
    requires forall k :: 0 <= k < |rest| ==> NoneOf(rest[k], cs)
    ensures forall k :: 0 <= k < |[p] + rest| ==> NoneOf(([p] + rest)[k], cs)
  {
    forall k | 0 <= k < |[p] + rest|
      ensures NoneOf(([p] + rest)[k], cs)
    {
      if k > 0 {
        assert ([p] + rest)[k] == rest[k - 1];
      }
    }
  }

  /** Stripping adds no character. */
  lemma StripNoneOf(s: string, cs: set<char>)
    requires NoneOf(s, cs)
    ensures NoneOf(Strip(s), cs)
  {
    var l := LStrip(s);
    NoneOfSuffix(s, |s| - |l|, cs);
    NoneOfPrefix(l, |RStrip(l)|, cs);
  }

  lemma NoneOfSuffix(s: string, a: nat, cs: set<char>)
    requires a <= |s| && NoneOf(s, cs)
    ensures NoneOf(s[a..], cs)
  {
    forall j | 0 <= j < |s| - a
      ensures s[a..][j] !in cs
    {
      assert s[a..][j] == s[a + j];
    }
  }

  lemma NoneOfPrefix(s: string, b: nat, cs: set<char>)
    requires b <= |s| && NoneOf(s, cs)
    ensures NoneOf(s[..b], cs)
  {
    forall j | 0 <= j < b
      ensures s[..b][j] !in cs
    {
      assert s[..b][j] == s[j];
    }
  }
}
