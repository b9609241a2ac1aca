/**
 * Worked examples of the categoriser on concrete descriptions.
 *
 * The literals are written as concatenations of short pieces, and each
 * piece is lowered by a lemma of its own: the verifier evaluates
 * `Lower` and `includes` on a literal character by character, which is
 * cheap on four or five characters and runs out of resources on a whole
 * description. `LowerAppend` then joins the lowered pieces.
 */
module CategorizerExamples {
  import opened JsText
  import opened Categorizer

  /** A keyword of the first group anywhere in the lower-cased text makes it "Supermercado". */
  lemma SupermercadoFromKeyword(text: string, t: string, k: string, i: int)
    requires Lower(text) == t && k in Groups[0].0 && OccursAt(t, k, i)
    ensures Categorize(text) == "Supermercado"
  {
    CategorizeLabelOf(text, 0);
  }

  /** The description "COTO SUPER" (written in two pieces) is a supermarket purchase. */
  lemma ExampleCotoSuper()
    ensures Categorize("COTO " + "SUPER") == "Supermercado"
  {
    LowerCoto();
    LowerSuper();
    LowerAppend("COTO ", "SUPER");
    assert ("coto " + "super")[0..4] == "coto";
    SupermercadoFromKeyword("COTO " + "SUPER", "coto " + "super", "coto", 0);
  }

  /** Group order decides overlaps: in "YPF SUPER" the supermarket keyword beats the fuel keyword. */
  lemma ExampleOrder()
    ensures Categorize("YPF " + "SUPER") == "Supermercado"
  {
    LowerYpf();
    LowerSuper();
    LowerAppend("YPF ", "SUPER");
    assert ("ypf " + "super")[4..9] == "super";
    SupermercadoFromKeyword("YPF " + "SUPER", "ypf " + "super", "super", 4);
  }

  /** "dia" fires inside any word that contains it. */
  lemma ExampleInsideWord()
    ensures Categorize("Media") == "Supermercado"
  {
    assert Lower("Media") == "media";
    assert "media"[2..5] == "dia";
    SupermercadoFromKeyword("Media", "media", "dia", 2);
  }

  /**
   * The description "YPF COMBUSTIBLE" (written in three pieces) is a fuel
   * purchase: no supermarket keyword occurs in it and "ypf" does.
   */
  lemma ExampleFuel()
    ensures Categorize("YPF " + "COMB" + "USTIBLE") == "Transporte"
  {
    LowerFuel();
    FuelChars();
    FuelOs();
    FuelYpf();
    NoSupermarket("ypf " + "comb" + "ustible", 5);
    TransporteFromFirstKeywords("YPF " + "COMB" + "USTIBLE", "ypf " + "comb" + "ustible");
  }

  /** A text none of whose supermarket keywords can fit: it lacks r, d, j and v, and its only `o` (if any) is at `p`. */
  lemma NoSupermarket(t: string, p: nat)
    requires 'r' !in t && 'd' !in t && 'j' !in t && 'v' !in t
    requires p <= |t| && 'o' !in t[..p] && (p < |t| ==> 'o' !in t[p + 1..])
    ensures !KeywordOccurs(t, Groups[0].0)
  {
    assert Groups[0].0 == ["super", "coto", "carrefour", "dia", "jumbo", "vea"];
    forall k | k in Groups[0].0 ensures !exists i :: OccursAt(t, k, i) {
      if k == "super" {
        assert k[4] == 'r';
        KeywordLacksChar(t, k, 'r');
      } else if k == "coto" {
        CotoNeedsTwoOs(t, p);
      } else if k == "carrefour" {
        assert k[2] == 'r';
        KeywordLacksChar(t, k, 'r');
      } else if k == "dia" {
        assert k[0] == 'd';
        KeywordLacksChar(t, k, 'd');
      } else if k == "jumbo" {
        assert k[0] == 'j';
        KeywordLacksChar(t, k, 'j');
      } else {
        assert k == "vea" && k[0] == 'v';
        KeywordLacksChar(t, k, 'v');
      }
    }
  }

  /** "coto" has two `o`s, so it cannot occur in a text with a single one. */
  lemma CotoNeedsTwoOs(t: string, p: nat)
    requires p <= |t| && 'o' !in t[..p] && (p < |t| ==> 'o' !in t[p + 1..])
    ensures !exists i :: OccursAt(t, "coto", i)
  {
    if exists i :: OccursAt(t, "coto", i) {
      var i :| OccursAt(t, "coto", i);
      CotoOs(t, i);
      assert false;
    }
  }

  lemma CotoOs(t: string, i: nat)
    requires OccursAt(t, "coto", i)
    ensures i + 3 < |t| && t[i + 1] == 'o' && t[i + 3] == 'o'
  {
    assert t[i..i + 4][1] == 'o' && t[i..i + 4][3] == 'o';
  }

  /** A keyword with a character the text lacks does not occur in it. */
  lemma KeywordLacksChar(t: string, k: string, c: char)
    requires c in k && c !in t
    ensures !exists i :: OccursAt(t, k, i)
  {
    IncludesChars(t, k);
    IncludesIff(t, k);
  }

  /** With no supermarket keyword and "ypf" at the start, the label is "Transporte". */
  lemma TransporteFromFirstKeywords(text: string, t: string)
    requires Lower(text) == t
    requires !KeywordOccurs(t, Groups[0].0) && OccursAt(t, "ypf", 0)
    ensures Categorize(text) == "Transporte"
  {
    assert "ypf" in Groups[1].0;
    CategorizeLabelOf(text, 1);
  }

  lemma LowerFuel()
    ensures Lower("YPF " + "COMB" + "USTIBLE") == "ypf " + "comb" + "ustible"
  {
    LowerYpf();
    LowerComb();
    LowerUstible();
    LowerAppend("YPF ", "COMB");
    LowerAppend("YPF " + "COMB", "USTIBLE");
  }

  lemma LowerYpf() ensures Lower("YPF ") == "ypf " {}
  lemma LowerCoto() ensures Lower("COTO ") == "coto " {}
  lemma LowerSuper() ensures Lower("SUPER") == "super" {}
  lemma LowerComb() ensures Lower("COMB") == "comb" {}
  lemma LowerUstible() ensures Lower("USTIBLE") == "ustible" {
    LowerUst();
    LowerIble();
    LowerAppend("UST", "IBLE");
    assert "UST" + "IBLE" == "USTIBLE";
  }
  lemma LowerUst() ensures Lower("UST") == "ust" {}
  lemma LowerIble() ensures Lower("IBLE") == "ible" {}

  lemma FuelYpf()
    ensures OccursAt("ypf " + "comb" + "ustible", "ypf", 0)
  {
    assert ("ypf " + "comb" + "ustible")[0..3] == "ypf";
  }

  lemma FuelChars()
    ensures 'r' !in "ypf " + "comb" + "ustible" && 'd' !in "ypf " + "comb" + "ustible"
    ensures 'j' !in "ypf " + "comb" + "ustible" && 'v' !in "ypf " + "comb" + "ustible"
  {
  }

  /** The only `o` of "ypf combustible" is its sixth character. */
  lemma FuelOs()
    ensures 'o' !in ("ypf " + "comb" + "ustible")[..5] && 'o' !in ("ypf " + "comb" + "ustible")[6..]
  {
  }
}
