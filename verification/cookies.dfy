/** The two cookie-header normalisers: the one the request layer applies to
    the pasted header, and the one the session applies before loading the
    cookies into its jar. Both accept an optional "Cookie:" prefix and
    cookies separated by ";" or by line breaks, and both produce the
    standard "a=b; c=d" form. */
module Cookies {
  import opened Text
  import opened Markup
  import opened Maps

  /** The characters that separate one pasted cookie from the next. */
  const Separators: set<char> := {'\n', ';'}

  /** The standard separator between cookies in a header. */
  const Glue: string := "; "

  predicate HasCookiePrefix(value: string) {
    StartsWith(Lower(value), "cookie:")
  }

  /** A prefixed value has its first colon at position 6, right after
      "cookie". */
  lemma PrefixColon(value: string)
    requires HasCookiePrefix(value)
    ensures FirstOf(value, {':'}) == 6
  {
    assert Lower(value)[..7] == "cookie:";
    assert forall k :: 0 <= k < 7 ==> Lower(value)[k] == LowerChar(value[k]);
    FirstOfUnique(value, {':'}, 6);
  }

  /** `value.split(":", 1)[1].strip()` when the value starts with a
      case-insensitive "cookie:"; the value itself otherwise. */
  function DropCookiePrefix(value: string): (r: string)
    ensures HasCookiePrefix(value) ==> r == Strip(value[7..])
    ensures !HasCookiePrefix(value) ==> r == value
  {
    if HasCookiePrefix(value) then
      PrefixColon(value);
      Strip(value[FirstOf(value, {':'}) + 1..])
    else value
  }

  /** The reference definition both normalisers are measured against: the
      trimmed, non-empty cookies of the pasted text, in order. */
  function Segments(raw: string): (r: seq<string>)
    ensures AllSpace(raw) ==> r == []
    ensures forall k :: 0 <= k < |r| ==> r[k] != [] && Stripped(r[k])
    ensures forall k :: 0 <= k < |r| ==> NoneOf(r[k], {'\n', ';', '\r'})
  {
    var value := Strip(raw);
    if value == [] then []
    else
      var v := Remove(DropCookiePrefix(value), '\r');
      var parts := Split(v, Separators);
      assert forall k :: 0 <= k < |parts| ==> NoneOf(parts[k], {'\n', ';', '\r'}) by {
        SplitChars(v, Separators);
        forall k, j | 0 <= k < |parts| && 0 <= j < |parts[k]|
          ensures parts[k][j] != '\r'
        {
          assert parts[k][j] in v;
        }
      }
      KeptNoneOf(parts, {'\n', ';', '\r'});
      Kept(parts)
  }

  // ------------------------------------------------- request-layer version

  /** The request layer's normaliser: line breaks are rewritten to ";" and
      the value is split at single ";" characters. */
  function NormalizeCookieHeader(raw: string): (r: string)
    ensures AllSpace(raw) ==> r == []
    ensures r == Join(Segments(raw), Glue)
  {
    var value := Strip(raw);
    if value == [] then []
    else
      var v := Remove(DropCookiePrefix(value), '\r');
      SplitReplace(v, '\n', ';');
      assert {'\n', ';'} == Separators;
      Join(Kept(Split(Replace(v, '\n', ';'), {';'})), Glue)
  }

  // ------------------------------------------------------ session version

  /** Skips a leading run of separators. */
  function SkipSeps(s: string, seps: set<char>): (r: string)
    ensures |r| <= |s| && r == s[|s| - |r|..]
    ensures r == [] || r[0] !in seps
    ensures s != [] && s[0] in seps ==> |r| < |s|
  {
    if s != [] && s[0] in seps then SkipSeps(s[1..], seps) else s
  }

  /** `re.split("[" + seps + "]+", s)`: the pieces between maximal runs of
      separators. */
  function SplitRuns(s: string, seps: set<char>): (r: seq<string>)
    ensures |r| >= 1
    decreases |s|
  {
    var i := FirstOf(s, seps);
    if i == |s| then [s] else [s[..i]] + SplitRuns(SkipSeps(s[i..], seps), seps)
  }

  /** The session's normaliser: the value is split at runs of ";" and line
      breaks. */
  function SessionCookieHeader(raw: string): (r: string)
    ensures AllSpace(raw) ==> r == []
    ensures r == Join(Segments(raw), Glue)
  {
    var value := Strip(raw);
    if value == [] then []
    else
      var v := Remove(DropCookiePrefix(value), '\r');
      RunsAgree(v, Separators);
      Join(Kept(SplitRuns(v, Separators)), Glue)
  }

  /** Splitting after one separator or after the whole run of separators
      keeps the same non-empty pieces. */
  lemma {:induction false} SkipAgree(u: string, seps: set<char>)
    requires u != [] && u[0] in seps
    ensures Kept(Split(u[1..], seps)) == Kept(Split(SkipSeps(u, seps), seps))
    decreases |u|
  {
    var v := u[1..];
    if v != [] && v[0] in seps {
      assert FirstOf(v, seps) == 0;
      assert Split(v, seps) == [v[..0]] + Split(v[1..], seps);
      KeptCons(v[..0], Split(v[1..], seps));
      SkipAgree(v, seps);
    }
  }

  /** Splitting at runs and splitting at single separators differ only in
      empty pieces, which both normalisers drop. */
  lemma {:induction false} RunsAgree(s: string, seps: set<char>)
    ensures Kept(SplitRuns(s, seps)) == Kept(Split(s, seps))
    decreases |s|
  {
    var i := FirstOf(s, seps);
    if i < |s| {
      var u := s[i..];
      assert u[1..] == s[i + 1..];
      var w := SkipSeps(u, seps);
      RunsAgree(w, seps);
      SkipAgree(u, seps);
      KeptCons(s[..i], SplitRuns(w, seps));
      KeptCons(s[..i], Split(s[i + 1..], seps));
    }
  }

  /** The two normalisers always produce the same header. */
  lemma NormalisersAgree(raw: string)
    ensures SessionCookieHeader(raw) == NormalizeCookieHeader(raw)
  {
  }

  // ------------------------------------------------------------ round trip

  lemma {:induction false} JoinShape(parts: seq<string>)
    requires forall k :: 0 <= k < |parts| ==> parts[k] != [] && Stripped(parts[k])
    requires forall k :: 0 <= k < |parts| ==> NoneOf(parts[k], {'\r'})
    ensures Stripped(Join(parts, Glue))
    ensures Join(parts, Glue) == [] <==> parts == []
    ensures NoneOf(Join(parts, Glue), {'\r'})
    decreases |parts|
  {
    if |parts| > 1 {
      var rest := Join(parts[1..], Glue);
      JoinShape(parts[1..]);
      var h := parts[0] + Glue + rest;
      assert h[0] == parts[0][0];
      assert h[|h| - 1] == rest[|rest| - 1];
      assert forall j :: 0 <= j < |h| ==> h[j] in parts[0] || h[j] in Glue || h[j] in rest;
    }
  }

  lemma {:induction false} RemoveAbsent(s: string, c: char)
    requires NoneOf(s, {c})
    ensures Remove(s, c) == s
  {
    if s != [] {
      RemoveAbsent(s[1..], c);
    }
  }

  lemma StripSpacePrefix(w: string, p: string)
    requires AllSpace(w) && p != [] && Stripped(p)
    ensures Strip(w + p) == p
  {
    var s := w + p;
    assert s[|s| - 1] == p[|p| - 1];
    assert s[|w|..] == p;
    LStripSpacePrefix(w, p);
    assert LStrip(s) == p;
  }

  lemma {:induction false} LStripSpacePrefix(w: string, p: string)
    requires AllSpace(w) && p != [] && !IsSpace(p[0])
    ensures LStrip(w + p) == p
    decreases |w|
  {
    if w == [] {
      assert w + p == p;
    } else {
      assert (w + p)[1..] == w[1..] + p;
      LStripSpacePrefix(w[1..], p);
    }
  }

  /** Well-formed cookies: trimmed, non-empty, free of separators. */
  predicate WellFormed(parts: seq<string>) {
    forall k :: 0 <= k < |parts| ==> parts[k] != [] && Stripped(parts[k]) && NoneOf(parts[k], Separators)
  }

  /** Splitting a joined header (after a run of spaces) and keeping the
      non-empty trimmed pieces gives back the cookies it was joined from. */
  lemma {:induction false} KeptSplitJoin(w: string, parts: seq<string>)
    requires AllSpace(w) && NoneOf(w, Separators)
    requires WellFormed(parts)
    ensures Kept(Split(w + Join(parts, Glue), Separators)) == parts
    decreases |parts|
  {
    if parts == [] {
      assert w + Join(parts, Glue) == w;
      KeptSplitSpace(w);
    } else if |parts| == 1 {
      KeptSplitOne(w, parts[0]);
      assert parts == [parts[0]];
    } else {
      assert WellFormed(parts[1..]);
      KeptSplitJoin(" ", parts[1..]);
      KeptSplitStep(w, parts);
    }
  }

  lemma KeptSplitStep(w: string, parts: seq<string>)
    requires AllSpace(w) && NoneOf(w, Separators)
    requires WellFormed(parts) && |parts| > 1
    requires Kept(Split(" " + Join(parts[1..], Glue), Separators)) == parts[1..]
    ensures Kept(Split(w + Join(parts, Glue), Separators)) == parts
  {
    var p := parts[0];
    var wp := w + p;
    var tail := " " + Join(parts[1..], Glue);
    WellFormedHead(w, p);
    JoinAfter(w, parts);
    SplitAtGlue(wp, tail);
    KeptCons(wp, Split(tail, Separators));
    Uncons(parts);
  }

  lemma JoinAfter(w: string, parts: seq<string>)
    requires |parts| > 1
    ensures w + Join(parts, Glue) == (w + parts[0]) + (";" + (" " + Join(parts[1..], Glue)))
  {
    JoinCons(parts);
  }

  /** The first cookie after a run of spaces: no separators, and stripping
      recovers the cookie. */
  lemma WellFormedHead(w: string, p: string)
    requires AllSpace(w) && NoneOf(w, Separators)
    requires p != [] && Stripped(p) && NoneOf(p, Separators)
    ensures NoneOf(w + p, Separators) && Strip(w + p) == p
  {
    var wp := w + p;
    assert forall j :: 0 <= j < |wp| ==> wp[j] == (if j < |w| then w[j] else p[j - |w|]);
    StripSpacePrefix(w, p);
  }

  lemma JoinCons(parts: seq<string>)
    requires |parts| > 1
    ensures Join(parts, Glue) == parts[0] + (";" + (" " + Join(parts[1..], Glue)))
  {
    var rest := Join(parts[1..], Glue);
    assert Join(parts, Glue) == parts[0] + Glue + rest;
    assert Glue == ";" + " ";
  }

  lemma KeptSplitSpace(w: string)
    requires AllSpace(w) && NoneOf(w, Separators)
    ensures Kept(Split(w, Separators)) == []
  {
    FirstOfUnique(w, Separators, |w|);
    assert Split(w, Separators) == [w];
    assert Strip(w) == [];
    assert [w][1..] == [];
  }

  lemma KeptSplitOne(w: string, p: string)
    requires AllSpace(w) && NoneOf(w, Separators)
    requires p != [] && Stripped(p) && NoneOf(p, Separators)
    ensures Kept(Split(w + Join([p], Glue), Separators)) == [p]
  {
    var wp := w + p;
    WellFormedHead(w, p);
    FirstOfUnique(wp, Separators, |wp|);
    assert Split(wp, Separators) == [wp];
    KeptCons(wp, []);
  }

  lemma SplitAtGlue(wp: string, tail: string)
    requires NoneOf(wp, Separators)
    ensures Split(wp + (";" + tail), Separators) == [wp] + Split(tail, Separators)
  {
    var s := wp + (";" + tail);
    FirstOfPrefix(wp, ";" + tail, Separators);
    assert s[..|wp|] == wp;
    assert s[|wp| + 1..] == tail;
  }

  /** Normalising a normalised header gives the same header back, unless
      what remains itself starts with "cookie:" (as after pasting
      "Cookie: cookie:a=b"), in which case that second prefix is dropped
      too. */
  lemma Idempotent(raw: string)
    requires !HasCookiePrefix(NormalizeCookieHeader(raw))
    ensures NormalizeCookieHeader(NormalizeCookieHeader(raw)) == NormalizeCookieHeader(raw)
  {
    var segs := Segments(raw);
    var h := Join(segs, Glue);
    JoinShape(segs);
    assert WellFormed(segs);
    if h != [] {
      assert Strip(h) == h;
      RemoveAbsent(h, '\r');
      KeptSplitJoin([], segs);
      assert [] + h == h;
      assert Segments(h) == segs;
    }
  }

  // ------------------------------------------------------------ cookie jar

  /** `_apply_cookie_header`: a blank header adds nothing; otherwise the
      normalised header is parsed and each cookie is set in the jar, so
      the jar only grows, cookies the header does not name keep their
      values, and a cookie the header names takes the value of its last
      occurrence. */
  function ApplyCookieHeader(jar: map<string, string>, raw: string, libs: Libs): (r: map<string, string>)
    ensures AllSpace(raw) ==> r == jar
    ensures !AllSpace(raw) ==> r.Keys == jar.Keys + Names(libs.parseCookies(Join(Segments(raw), Glue)))
    ensures forall k :: k in jar && k !in Names(libs.parseCookies(Join(Segments(raw), Glue))) ==> r[k] == jar[k]
    ensures !AllSpace(raw) ==>
              var pairs := libs.parseCookies(Join(Segments(raw), Glue));
              forall j :: 0 <= j < |pairs| && (forall i :: j < i < |pairs| ==> pairs[i].0 != pairs[j].0) ==>
                          r[pairs[j].0] == pairs[j].1
  {
    if Strip(raw) == [] then jar
    else
      var pairs := libs.parseCookies(SessionCookieHeader(raw));
      AssignKeepsAll(jar, pairs);
      AssignLastWinsAll(jar, pairs);
      Assign(jar, pairs)
  }
}
