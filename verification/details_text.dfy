/** The pure part of scraping a flavor's details text into raw allergen
    codes (cmd/newcity/icecream.go:53-57): drop the surrounding parentheses,
    then cut at every comma. */
module DetailsText {
  import opened Text

  predicate IsParen(c: char)
  {
    c == '(' || c == ')'
  }

  /** How many parentheses `s` starts with. */
  function LeadingParens(s: string): (n: nat)
    ensures n <= |s|
    ensures forall k :: 0 <= k < n ==> IsParen(s[k])
    ensures n < |s| ==> !IsParen(s[n])
  {
    if s != [] && IsParen(s[0]) then 1 + LeadingParens(s[1..]) else 0
  }

  /** How many parentheses `s` ends with. */
  function TrailingParens(s: string): (n: nat)
    ensures n <= |s|
    ensures forall k :: |s| - n <= k < |s| ==> IsParen(s[k])
    ensures n < |s| ==> !IsParen(s[|s| - n - 1])
  {
    if s != [] && IsParen(s[|s| - 1]) then 1 + TrailingParens(s[..|s| - 1]) else 0
  }

  /** Go's strings.Trim(s, "()"): what is left after cutting the leading
      parentheses and then the trailing ones; no parenthesis inside is
      touched. */
  function Trim(s: string): (r: string)
    ensures LeadingParens(s) + |r| <= |s|
    ensures r == s[LeadingParens(s)..LeadingParens(s) + |r|]
    ensures forall k :: LeadingParens(s) + |r| <= k < |s| ==> IsParen(s[k])
    ensures r == [] || (!IsParen(r[0]) && !IsParen(r[|r| - 1]))
  {
    var i := LeadingParens(s);
    var l := s[i..];
    var j := |s| - TrailingParens(l);
    assert forall k :: j <= k < |s| ==> s[k] == l[k - i];
    s[i..j]
  }

  /** Go's strings.Split(s, ","): the pieces between commas, at least one. */
  function Split(s: string): (r: seq<string>)
    ensures |r| >= 1
    ensures forall p :: p in r ==> ',' !in p
    ensures Join(r, ",") == s
  {
    if s == [] then [""]
    else
      var rest := Split(s[1..]);
      if s[0] == ',' then
        assert Join([""] + rest, ",") == "," + Join(rest, ",") by {
          assert ([""] + rest)[1..] == rest;
        }
        [""] + rest
      else
        JoinConsChar(s[0], rest);
        [[s[0]] + rest[0]] + rest[1..]
  }

  lemma {:induction false} JoinConsChar(c: char, ps: seq<string>)
    requires |ps| >= 1
    ensures Join([[c] + ps[0]] + ps[1..], ",") == [c] + Join(ps, ",")
  {
    var qs := [[c] + ps[0]] + ps[1..];
    if |ps| > 1 {
      assert qs[1..] == ps[1..];
      calc {
        Join(qs, ",");
        qs[0] + "," + Join(ps[1..], ",");
        [c] + (ps[0] + "," + Join(ps[1..], ","));
        [c] + Join(ps, ",");
      }
    }
  }

  /** A piece without commas followed by a comma is split off whole. */
  lemma {:induction false} SplitCons(x: string, y: string)
    requires ',' !in x
    ensures Split(x + "," + y) == [x] + Split(y)
  {
    if x == [] {
      assert ("" + "," + y)[1..] == y;
    } else {
      assert (x + "," + y)[1..] == x[1..] + "," + y;
      SplitCons(x[1..], y);
      assert [x[0]] + x[1..] == x;
    }
  }

  lemma {:induction false} SplitNoComma(x: string)
    requires ',' !in x
    ensures Split(x) == [x]
  {
    if x != [] {
      SplitNoComma(x[1..]);
      assert [x[0]] + x[1..] == x;
    }
  }

  /** Split undoes Join: any non-empty list of comma-free pieces is
      recovered from its comma-joined text. */
  lemma {:induction false} SplitJoin(ps: seq<string>)
    requires |ps| >= 1
    requires forall p :: p in ps ==> ',' !in p
    ensures Split(Join(ps, ",")) == ps
  {
    if |ps| == 1 {
      SplitNoComma(ps[0]);
    } else {
      assert ps[0] in ps;
      assert forall p :: p in ps[1..] ==> p in ps;
      SplitJoin(ps[1..]);
      SplitCons(ps[0], Join(ps[1..], ","));
      assert ps == [ps[0]] + ps[1..];
    }
  }

  /** The raw allergen codes of a flavor: none when the details text is
      empty, otherwise the comma-separated pieces of the trimmed text. */
  function ParseDetails(text: string): (codes: seq<string>)
    ensures codes == [] <==> text == ""
    ensures text != "" ==> Join(codes, ",") == Trim(text)
    ensures forall c :: c in codes ==> ',' !in c
  {
    if text != "" then Split(Trim(text)) else []
  }

  /** Details text made of parentheses only yields one empty code. */
  lemma ParseOnlyParens()
    ensures ParseDetails("()") == [""]
  {
    assert LeadingParens("()") == 2;
  }
}
