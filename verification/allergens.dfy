/** The allergen annotation printed after each added flavor: raw codes
    mapped to emoji, joined and parenthesised (cmd/newcity/message.go). */
module Allergens {
  import opened Text

  /** The fixed code-to-emoji table; keys are upper-case codes. */
  const DetailsEmoji: map<string, string> := map[
    "E" := ":egg:",
    "G" := ":ear_of_rice:",
    "S" := ":seedling:",
    "A" := ":tumbler_glass:",
    "N" := ":peanuts:"
  ]

  /** A code the table recognises, in either case. */
  predicate IsAllergenCode(code: string)
  {
    |code| == 1 && code[0] in "EGSANegsan"
  }

  /** Upper-casing a code lands on a table key exactly for the five letters,
      in upper or lower case. */
  lemma AllergenCodeIff(code: string)
    ensures ToUpper(code) in DetailsEmoji <==> IsAllergenCode(code)
  {
    var u := ToUpper(code);
    assert DetailsEmoji.Keys == {"E", "G", "S", "A", "N"};
    if |code| == 1 {
      var c := code[0];
      assert u == [UpperChar(c)];
      assert u in DetailsEmoji <==> UpperChar(c) in "EGSAN";
    } else {
      assert |u| != 1;
    }
  }

  /** The display text of one raw code: a recognised code becomes its
      emoji, any other code is shown as written. */
  function Emojify(code: string): (r: string)
    ensures IsAllergenCode(code) ==> r in DetailsEmoji.Values
    ensures !IsAllergenCode(code) ==> r == code
  {
    AllergenCodeIff(code);
    var u := ToUpper(code);
    if u in DetailsEmoji then DetailsEmoji[u] else code
  }

  /** Each of the five letters, in either case, shows its fixed emoji. */
  lemma EmojifyTable(code: string)
    ensures code == "E" || code == "e" ==> Emojify(code) == ":egg:"
    ensures code == "G" || code == "g" ==> Emojify(code) == ":ear_of_rice:"
    ensures code == "S" || code == "s" ==> Emojify(code) == ":seedling:"
    ensures code == "A" || code == "a" ==> Emojify(code) == ":tumbler_glass:"
    ensures code == "N" || code == "n" ==> Emojify(code) == ":peanuts:"
  {
    if |code| == 1 {
      assert ToUpper(code) == [UpperChar(code[0])];
    }
  }

  /** One display entry per raw code, in input order. */
  function Entries(codes: seq<string>): seq<string>
  {
    seq(|codes|, i requires 0 <= i < |codes| => Emojify(codes[i]))
  }

  /** The parenthesised allergen list of a flavor, or nothing at all when
      the flavor has no codes. */
  function Details(codes: seq<string>): (r: string)
    ensures r == "" <==> codes == []
  {
    if |codes| == 0 then "" else "(" + Join(Entries(codes), ", ") + ")"
  }

  /** A single code is shown alone in parentheses. */
  lemma DetailsSingleton(code: string)
    ensures Details([code]) == "(" + Emojify(code) + ")"
  {
    assert Entries([code]) == [Emojify(code)];
  }

  /** The list for `a + b` is the list for `a` and the list for `b` run
      together with ", ": entries keep input order and nothing is merged. */
  lemma DetailsAppend(a: seq<string>, b: seq<string>)
    requires a != [] && b != []
    ensures Details(a + b) == Details(a)[..|Details(a)| - 1] + ", " + Details(b)[1..]
  {
    var ja := Join(Entries(a), ", ");
    var jb := Join(Entries(b), ", ");
    EntriesAppend(a, b);
    JoinAppend(Entries(a), Entries(b), ", ");
    assert Details(a + b) == "(" + (ja + ", " + jb) + ")";
    DropLast("(" + ja, ")");
    DropFirst("(", jb + ")");
    assert "(" + (ja + ", " + jb) + ")" == ("(" + ja) + ", " + (jb + ")");
  }

  lemma EntriesAppend(a: seq<string>, b: seq<string>)
    ensures Entries(a + b) == Entries(a) + Entries(b)
  {
  }

  lemma DropLast(x: string, y: string)
    requires |y| == 1
    ensures (x + y)[..|x + y| - 1] == x
  {
  }

  lemma DropFirst(x: string, y: string)
    requires |x| == 1
    ensures (x + y)[1..] == y
  {
  }

  /** Case-insensitive lookup, unknown codes passed through verbatim. */
  lemma DetailsExample()
    ensures Details(["e", "G", "x"]) == "(:egg:, :ear_of_rice:, x)"
  {
    ExampleEntries();
    ExampleJoin();
    ExampleWrap();
  }

  lemma ExampleWrap()
    ensures "(" + ":egg:, :ear_of_rice:, x" + ")" == "(:egg:, :ear_of_rice:, x)"
  {
  }

  lemma ExampleEntries()
    ensures Entries(["e", "G", "x"]) == [":egg:", ":ear_of_rice:", "x"]
  {
    EmojifyTable("e");
    EmojifyTable("G");
    assert !IsAllergenCode("x");
  }

  lemma ExampleJoin()
    ensures Join([":egg:", ":ear_of_rice:", "x"], ", ") == ":egg:, :ear_of_rice:, x"
  {
    var es := [":egg:", ":ear_of_rice:", "x"];
    assert es[1..] == [":ear_of_rice:", "x"] && es[1..][1..] == ["x"];
  }
}
