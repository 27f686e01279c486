/** `_normalize_radicados`: the filing numbers of a request, from a text
    area, a JSON list or a single value, trimmed, without blanks and
    without repeats, in the order they were given. */
module Radicados {
  import opened Text
  import opened Lists
  import opened Json

  /** The characters that separate filing numbers in a text value. */
  const Separators: set<char> := {'\r', ',', ';', '\n'}

  /** The text value with every separator rewritten to a line break, as
      the source does with three `replace` calls. */
  function AsLines(s: string): string {
    Replace(Replace(Replace(s, '\r', '\n'), ',', '\n'), ';', '\n')
  }

  /** The trimmed, non-blank pieces before deduplication: the lines of a
      text, the renderings of a list's items, or the rendering of any
      other single value; none for null. */
  function Pieces(value: Value, repr: Value -> string): (r: seq<string>)
    ensures value.Null? ==> r == []
    ensures forall k :: 0 <= k < |r| ==> r[k] != [] && Stripped(r[k])
  {
    match value
    case Null => []
    case Str(s) => Kept(Split(AsLines(s), {'\n'}))
    case List(items) => Kept(seq(|items|, i requires 0 <= i < |items| => Render(items[i], repr)))
    case _ => Kept([Render(value, repr)])
  }

  /** Rewriting the separators to line breaks and splitting at line breaks
      is splitting at any of the four separators. */
  lemma LinesAreSeparated(s: string)
    ensures Split(AsLines(s), {'\n'}) == Split(s, Separators)
  {
    var t1 := Replace(s, '\r', '\n');
    var t2 := Replace(t1, ',', '\n');
    SplitReplaceInto(t2, ';', '\n', {'\n'});
    SplitReplaceInto(t1, ',', '\n', {'\n'} + {';'});
    SplitReplaceInto(s, '\r', '\n', {'\n'} + {';'} + {','});
    assert {'\n'} + {';'} + {','} + {'\r'} == Separators;
  }

  /** A text value's pieces are its trimmed non-blank fields, whichever
      separator delimits them; so a value without separators is one
      filing number. */
  lemma TextPieces(s: string, repr: Value -> string)
    ensures Pieces(Str(s), repr) == Kept(Split(s, Separators))
  {
    LinesAreSeparated(s);
  }

  /** The order-keeping deduplication loop. */
  method Dedup(xs: seq<string>) returns (unique: seq<string>)
    ensures unique == UniqueOf(xs)
    ensures Distinct(unique)
    ensures forall x :: x in unique <==> x in xs
    ensures forall i, j :: 0 <= i < j < |unique| ==> IndexOf(xs, unique[i]) < IndexOf(xs, unique[j])
  {
    var seen: set<string> := {};
    unique := [];
    for i := 0 to |xs|
      invariant unique == UniqueOf(xs[..i])
      invariant forall x :: x in seen <==> x in xs[..i]
    {
      assert xs[..i + 1][..i] == xs[..i];
      if xs[i] !in seen {
        unique := unique + [xs[i]];
        seen := seen + {xs[i]};
      }
      assert forall x :: x in xs[..i + 1] <==> x in xs[..i] || x == xs[i];
    }
    assert xs[..|xs|] == xs;
    UniqueOfSpec(xs);
  }

  /** `_normalize_radicados`: the distinct pieces in first-occurrence
      order. Every piece is kept once and nothing else is, and no filing
      number of a text value holds a separator. */
  method NormalizeRadicados(value: Value, repr: Value -> string) returns (r: seq<string>)
    ensures r == UniqueOf(Pieces(value, repr))
    ensures value.Null? ==> r == []
    ensures Distinct(r)
    ensures forall k :: 0 <= k < |r| ==> r[k] != [] && Stripped(r[k])
    ensures forall x :: x in r <==> x in Pieces(value, repr)
    ensures value.Str? ==> forall k :: 0 <= k < |r| ==> NoneOf(r[k], Separators)
  {
    var pieces := Pieces(value, repr);
    r := Dedup(pieces);
    forall k | 0 <= k < |r|
      ensures r[k] != [] && Stripped(r[k])
    {
      assert r[k] in pieces;
    }
    if value.Str? {
      TextPieces(value.s, repr);
      KeptNoneOf(Split(value.s, Separators), Separators);
      assert forall k :: 0 <= k < |r| ==> r[k] in pieces;
    }
  }
}
