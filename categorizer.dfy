/**
 * The vendor-keyword categoriser: the lower-cased description is checked
 * against seven fixed keyword groups in a fixed order, and the label of the
 * first group with a keyword inside the text wins.
 */
module Categorizer {
  import opened JsText

  const Fallback: string := "Varios"

  /** The keyword groups and their labels, in the order they are tried. */
  const Groups: seq<(seq<string>, string)> := [
    (["super", "coto", "carrefour", "dia", "jumbo", "vea"], "Supermercado"),
    (["uber", "cabify", "shell", "ypf", "axion", "puma"], "Transporte"),
    (["netflix", "spotify", "steam", "hbo", "disney", "apple", "prime"], "Suscripciones"),
    (["mcdonalds", "burger", "rappi", "pedidosya", "starbucks", "mostaza"], "Comida"),
    (["farmacia", "hospital", "osde", "swiss", "galeno"], "Salud"),
    (["merpago", "mercado pago", "meli"], "MercadoPago/Compras"),
    (["impuesto", "sellos", "iva", "perc"], "Impuestos")
  ]

  /** The eight labels the categoriser can produce. */
  const Labels: set<string> := {
    "Supermercado", "Transporte", "Suscripciones", "Comida", "Salud",
    "MercadoPago/Compras", "Impuestos", Fallback
  }

  /** The `||` chain of `includes` tests of one group. */
  predicate AnyIncluded(t: string, keys: seq<string>)
    decreases |keys|
  {
    |keys| > 0 && (Includes(t, keys[0]) || AnyIncluded(t, keys[1..]))
  }

  /** The label of the first group with a hit, or the fallback. */
  function FirstHit(t: string, groups: seq<(seq<string>, string)>): string
    decreases |groups|
  {
    if groups == [] then Fallback
    else if AnyIncluded(t, groups[0].0) then groups[0].1
    else FirstHit(t, groups[1..])
  }

  /** `categorizar(texto)`. */
  function Categorize(text: string): string {
    if text == [] then Fallback else FirstHit(Lower(text), Groups)
  }

  // ---- the specification ----

  /** Some keyword of `keys` occurs in `t`. */
  ghost predicate KeywordOccurs(t: string, keys: seq<string>) {
    exists k, i :: k in keys && OccursAt(t, k, i)
  }

  lemma {:induction false} AnyIncludedIff(t: string, keys: seq<string>)
    ensures AnyIncluded(t, keys) <==> KeywordOccurs(t, keys)
    decreases |keys|
  {
    if keys != [] {
      AnyIncludedIff(t, keys[1..]);
      IncludesIff(t, keys[0]);
      if KeywordOccurs(t, keys) {
        var k, i :| k in keys && OccursAt(t, k, i);
        if k != keys[0] {
          assert k in keys[1..];
        }
      }
      if KeywordOccurs(t, keys[1..]) {
        var k, i :| k in keys[1..] && OccursAt(t, k, i);
        assert k in keys;
      }
    }
  }

  /** With group `g` the first to hit, the result is its label. */
  lemma {:induction false} FirstHitIsFirst(t: string, groups: seq<(seq<string>, string)>, g: nat)
    requires g < |groups|
    requires KeywordOccurs(t, groups[g].0)
    requires forall h :: 0 <= h < g ==> !KeywordOccurs(t, groups[h].0)
    ensures FirstHit(t, groups) == groups[g].1
    decreases g
  {
    AnyIncludedIff(t, groups[0].0);
    if g > 0 {
      FirstHitIsFirst(t, groups[1..], g - 1);
    }
  }

  /** With no group hitting, the result is the fallback. */
  lemma {:induction false} FirstHitNone(t: string, groups: seq<(seq<string>, string)>)
    requires forall h :: 0 <= h < |groups| ==> !KeywordOccurs(t, groups[h].0)
    ensures FirstHit(t, groups) == Fallback
    decreases |groups|
  {
    if groups != [] {
      AnyIncludedIff(t, groups[0].0);
      FirstHitNone(t, groups[1..]);
    }
  }

  /** No keyword occurs in the empty text, so the early return agrees with the group scan. */
  lemma EmptyHitsNothing(g: int)
    requires 0 <= g < |Groups|
    ensures !KeywordOccurs([], Groups[g].0)
  {
    forall k, i | k in Groups[g].0 ensures !OccursAt([], k, i) {
      assert |k| > 0;
    }
  }

  /** The seven group labels differ from each other and from the fallback. */
  lemma LabelsDistinct()
    ensures forall g, h :: 0 <= g < h < |Groups| ==> Groups[g].1 != Groups[h].1
    ensures forall g :: 0 <= g < |Groups| ==> Groups[g].1 != Fallback && Groups[g].1 in Labels
  {
  }

  /** The least group index that hits, given that group `g` does. */
  lemma LeastHit(t: string, groups: seq<(seq<string>, string)>, g: nat) returns (first: nat)
    requires g < |groups| && KeywordOccurs(t, groups[g].0)
    ensures first <= g && KeywordOccurs(t, groups[first].0)
    ensures forall h :: 0 <= h < first ==> !KeywordOccurs(t, groups[h].0)
  {
    first := 0;
    while !KeywordOccurs(t, groups[first].0)
      invariant first <= g
      invariant forall h :: 0 <= h < first ==> !KeywordOccurs(t, groups[h].0)
      decreases g - first
    {
      first := first + 1;
    }
  }

  /** For any groups with distinct labels, group `g`'s label comes out exactly when `g` is the first group to hit. */
  lemma FirstHitLabelOf(t: string, groups: seq<(seq<string>, string)>, g: nat)
    requires g < |groups|
    requires forall a, b :: 0 <= a < b < |groups| ==> groups[a].1 != groups[b].1
    requires forall a :: 0 <= a < |groups| ==> groups[a].1 != Fallback
    ensures FirstHit(t, groups) == groups[g].1
            <==> KeywordOccurs(t, groups[g].0) && forall h :: 0 <= h < g ==> !KeywordOccurs(t, groups[h].0)
  {
    if h :| 0 <= h < |groups| && KeywordOccurs(t, groups[h].0) {
      var first := LeastHit(t, groups, h);
      FirstHitIsFirst(t, groups, first);
      if g != first {
        assert groups[g].1 != groups[first].1;
      }
    } else {
      FirstHitNone(t, groups);
    }
  }

  /** Group `g`'s label comes out exactly when `g` is the first group to hit. */
  lemma CategorizeLabelOf(text: string, g: int)
    requires 0 <= g < |Groups|
    ensures Categorize(text) == Groups[g].1
            <==> KeywordOccurs(Lower(text), Groups[g].0) && forall h :: 0 <= h < g ==> !KeywordOccurs(Lower(text), Groups[h].0)
  {
    var t := Lower(text);
    LowerLength(text);
    LabelsDistinct();
    if text == [] {
      EmptyHitsNothing(g);
    } else {
      FirstHitLabelOf(t, Groups, g);
    }
  }

  /**
   * The label of group `g` comes out exactly when `g` is the first group with
   * a keyword in the lower-cased text; "Varios" exactly when no group has one.
   */
  lemma CategorizeIsFirstHit(text: string)
    ensures forall g :: 0 <= g < |Groups| ==>
              (Categorize(text) == Groups[g].1
               <==> KeywordOccurs(Lower(text), Groups[g].0) && forall h :: 0 <= h < g ==> !KeywordOccurs(Lower(text), Groups[h].0))
    ensures Categorize(text) == Fallback <==> forall g :: 0 <= g < |Groups| ==> !KeywordOccurs(Lower(text), Groups[g].0)
  {
    forall g | 0 <= g < |Groups|
      ensures Categorize(text) == Groups[g].1
              <==> KeywordOccurs(Lower(text), Groups[g].0) && forall h :: 0 <= h < g ==> !KeywordOccurs(Lower(text), Groups[h].0)
    {
      CategorizeLabelOf(text, g);
    }
    CategorizeFallback(text);
  }

  /** "Varios" comes out exactly when no group has a keyword in the lower-cased text. */
  lemma CategorizeFallback(text: string)
    ensures Categorize(text) == Fallback <==> forall g :: 0 <= g < |Groups| ==> !KeywordOccurs(Lower(text), Groups[g].0)
  {
    var t := Lower(text);
    LowerLength(text);
    LabelsDistinct();
    if text == [] {
      forall g | 0 <= g < |Groups| ensures !KeywordOccurs(t, Groups[g].0) { EmptyHitsNothing(g); }
    } else if h :| 0 <= h < |Groups| && KeywordOccurs(t, Groups[h].0) {
      var first := LeastHit(t, Groups, h);
      FirstHitIsFirst(t, Groups, first);
    } else {
      FirstHitNone(t, Groups);
    }
  }

  /** The result is always one of the eight labels. */
  lemma CategorizeInLabels(text: string)
    ensures Categorize(text) in Labels
  {
    if text != [] {
      FirstHitInLabels(Lower(text), Groups);
    }
  }

  lemma {:induction false} FirstHitInLabels(t: string, groups: seq<(seq<string>, string)>)
    requires forall g :: 0 <= g < |groups| ==> groups[g].1 in Labels
    ensures FirstHit(t, groups) in Labels
    decreases |groups|
  {
    if groups != [] && !AnyIncluded(t, groups[0].0) {
      FirstHitInLabels(t, groups[1..]);
    }
  }

  /** Only the lower-cased text matters: categorising it again gives the same label. */
  lemma CaseInsensitive(text: string)
    ensures Categorize(Lower(text)) == Categorize(text)
  {
    LowerLength(text);
    LowerIdempotent(text);
  }
}
