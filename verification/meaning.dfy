/** Picking the chapter's meaning out of its detail page: the first `div`
    with a "meal" class, falling back to the first paragraph. */
module Meaning {
  import opened Wrappers
  import opened Text
  import opened Search
  import opened Markup

  /** The class-name fragment that marks a translation block; matched
      case-sensitively anywhere inside a class name. */
  const MealMarker: string := "meal"

  /** Some class of the div contains the marker. An absent class attribute
      is an empty list and never qualifies. */
  predicate HasMealClass(d: Div): (b: bool)
    ensures (exists k :: 0 <= k < |d.classes| && d.classes[k] == MealMarker) ==> b
    ensures b ==> exists k :: 0 <= k < |d.classes| && |d.classes[k]| >= |MealMarker|
  {
    assert forall k :: 0 <= k < |d.classes| ==> d.classes[k][0..] == d.classes[k];
    exists k :: 0 <= k < |d.classes| && Contains(d.classes[k], MealMarker)
  }

  /** The div at `i` is the first one with a "meal" class. */
  predicate IsFirstMealDiv(divs: seq<Div>, i: int) {
    0 <= i < |divs| && HasMealClass(divs[i])
    && forall j :: 0 <= j < i ==> !HasMealClass(divs[j])
  }

  /** The first div with a "meal" class does not exist or has no text. */
  predicate NoMealText(divs: seq<Div>) {
    forall i :: 0 <= i < |divs| && IsFirstMealDiv(divs, i) ==> divs[i].text == ""
  }

  /** The meaning shown for a detail page, or `None` when the page has
      none: the text of the first "meal" div if it is non-empty, otherwise
      the text of the first paragraph if that exists and is non-empty. */
  function SelectMeaning(doc: Document): (r: Option<string>)
    ensures r.Some? ==> r.value != ""
    ensures forall i :: IsFirstMealDiv(doc.divs, i) && doc.divs[i].text != "" ==>
      r == Some(doc.divs[i].text)
    ensures NoMealText(doc.divs) ==>
      (r.Some? <==> doc.firstParagraph.Some? && doc.firstParagraph.value != "")
    ensures NoMealText(doc.divs) && r.Some? ==> r == doc.firstParagraph
  {
    var fromDiv := match FirstIndex(doc.divs, HasMealClass)
      case None => ""
      case Some(i) => doc.divs[i].text;
    if fromDiv != "" then Some(fromDiv)
    else match doc.firstParagraph
      case Some(p) => if p != "" then Some(p) else None
      case None => None
  }

  /** Only the first "meal" div is consulted: divs after it, even further
      "meal" divs with text, change nothing. */
  lemma LaterDivsIgnored(doc: Document, a: seq<Div>, b: seq<Div>)
    requires exists j :: 0 <= j < |a| && HasMealClass(a[j])
    ensures SelectMeaning(doc.(divs := a + b)) == SelectMeaning(doc.(divs := a))
  {
    FirstIndexPrefix(a, b, HasMealClass);
    var i := FirstIndex(a, HasMealClass).value;
    assert (a + b)[i] == a[i];
  }

  /** The paragraph is consulted only when no "meal" div supplies text. */
  lemma ParagraphOnlyAsFallback(doc: Document, p: Option<string>)
    requires !NoMealText(doc.divs)
    ensures SelectMeaning(doc.(firstParagraph := p)) == SelectMeaning(doc)
  {
  }

  /** The marker is case-sensitive: a class spelled "Meal" does not count,
      while one merely containing "meal" does. */
  lemma MarkerCaseSensitive()
    ensures !HasMealClass(Div(["Meal"], "x"))
    ensures HasMealClass(Div(["sure-meal"], "x"))
  {
    forall i | 0 <= i <= |"Meal"|
      ensures !(MealMarker <= "Meal"[i..])
    {
      if i == 0 {
        assert "Meal"[0] != MealMarker[0];
      }
    }
    assert !Contains(["Meal"][0], MealMarker);
    assert MealMarker <= "sure-meal"[5..];
    assert Contains(["sure-meal"][0], MealMarker);
  }

  /** An empty first "meal" div is not rescued by a later "meal" div with
      text; without a paragraph there is no meaning. */
  lemma EmptyFirstMealDivNotRescued()
    ensures SelectMeaning(Document([], [Div(["meal"], ""), Div(["meal"], "text")], None)) == None
  {
    var divs := [Div(["meal"], ""), Div(["meal"], "text")];
    assert MealMarker <= "meal"[0..];
    assert Contains(divs[0].classes[0], MealMarker);
    assert IsFirstMealDiv(divs, 0);
  }
}
