/** A parsed HTML page as the tracker's lookups see it: the elements in
    document order, each with the text strings it contains. */
module Document {
  import opened Wrappers
  import opened PyStr

  /** A tag: its name, its `id` attribute if any, its classes and the text
      strings below it (its own and its descendants'), in document order. */
  datatype Element = Element(name: string, id: Option<string>, classes: seq<string>, fragments: seq<string>)

  type Doc = seq<Element>

  /** The three kinds of lookup the tracker performs: `select_one('.c')`,
      `find(name=n, id=i)` and `find(name=n, class_=c)`. */
  datatype Selector =
    | ByClass(cls: string)
    | ByNameAndId(name: string, id: string)
    | ByNameAndClass(name: string, cls: string)

  predicate Matches(e: Element, sel: Selector) {
    match sel
    case ByClass(c) => c in e.classes
    case ByNameAndId(n, i) => e.name == n && e.id == Some(i)
    case ByNameAndClass(n, c) => e.name == n && c in e.classes
  }

  predicate NoMatch(doc: Doc, sel: Selector) {
    forall i :: 0 <= i < |doc| ==> !Matches(doc[i], sel)
  }

  /** Element `i` matches and no earlier element does. */
  predicate IsFirstMatch(doc: Doc, sel: Selector, i: int) {
    0 <= i < |doc| && Matches(doc[i], sel) && forall j :: 0 <= j < i ==> !Matches(doc[j], sel)
  }

  /** The position of the first matching element. */
  function FirstMatch(doc: Doc, sel: Selector): (r: Option<nat>)
    ensures r.None? <==> NoMatch(doc, sel)
    ensures r.Some? ==> IsFirstMatch(doc, sel, r.value)
  {
    if doc == [] then None
    else if Matches(doc[0], sel) then Some(0)
    else
      match FirstMatch(doc[1..], sel)
      case None => None
      case Some(k) => Some(k + 1)
  }

  lemma FirstMatchUnique(doc: Doc, sel: Selector, i: int, j: int)
    requires IsFirstMatch(doc, sel, i) && IsFirstMatch(doc, sel, j)
    ensures i == j
  {
  }

  /** `find` and `select_one`: the first matching element in document order,
      or nothing. */
  function Find(doc: Doc, sel: Selector): (r: Option<Element>)
    ensures r.None? <==> NoMatch(doc, sel)
    ensures forall i :: IsFirstMatch(doc, sel, i) ==> r == Some(doc[i])
  {
    match FirstMatch(doc, sel)
    case None => None
    case Some(i) =>
      assert forall j :: IsFirstMatch(doc, sel, j) ==> j == i by {
        forall j | IsFirstMatch(doc, sel, j) ensures j == i { FirstMatchUnique(doc, sel, i, j); }
      }
      Some(doc[i])
  }

  /** The matching elements, in document order. */
  function Matching(doc: Doc, sel: Selector): seq<Element> {
    if doc == [] then []
    else (if Matches(doc[0], sel) then [doc[0]] else []) + Matching(doc[1..], sel)
  }

  /** `Find` sees only the matching elements: it returns the first of them. */
  lemma {:induction false} FindIsFirstMatching(doc: Doc, sel: Selector)
    ensures Find(doc, sel) == if Matching(doc, sel) == [] then None else Some(Matching(doc, sel)[0])
  {
    if doc != [] && !Matches(doc[0], sel) {
      FindIsFirstMatching(doc[1..], sel);
      assert Matching(doc, sel) == Matching(doc[1..], sel);
      if Find(doc[1..], sel).Some? {
        var k :| IsFirstMatch(doc[1..], sel, k);
        assert IsFirstMatch(doc, sel, k + 1);
      } else {
        assert NoMatch(doc, sel) by {
          forall i | 0 <= i < |doc| ensures !Matches(doc[i], sel) {
            if i > 0 { assert doc[i] == doc[1..][i - 1]; }
          }
        }
      }
    } else if doc != [] {
      assert IsFirstMatch(doc, sel, 0);
    }
  }

  /** Two documents with the same matching elements give the same lookup
      result, whatever else they hold. */
  lemma FindLocal(d1: Doc, d2: Doc, sel: Selector)
    requires Matching(d1, sel) == Matching(d2, sel)
    ensures Find(d1, sel) == Find(d2, sel)
  {
    FindIsFirstMatching(d1, sel);
    FindIsFirstMatching(d2, sel);
  }

  lemma {:induction false} MatchingConcat(a: Doc, b: Doc, sel: Selector)
    ensures Matching(a + b, sel) == Matching(a, sel) + Matching(b, sel)
  {
    if a == [] {
      assert a + b == b;
    } else {
      assert (a + b)[1..] == a[1..] + b;
      MatchingConcat(a[1..], b, sel);
    }
  }

  /** Inserting an element the selector does not match, anywhere, leaves the
      matching elements as they were. */
  lemma InsertNonMatching(doc: Doc, k: nat, e: Element, sel: Selector)
    requires k <= |doc| && !Matches(e, sel)
    ensures Matching(doc[..k] + [e] + doc[k..], sel) == Matching(doc, sel)
  {
    SkipNonMatching(doc[..k], e, doc[k..], sel);
    assert doc[..k] + doc[k..] == doc;
  }

  lemma SkipNonMatching(before: Doc, e: Element, after: Doc, sel: Selector)
    requires !Matches(e, sel)
    ensures Matching(before + [e] + after, sel) == Matching(before + after, sel)
  {
    assert Matching([e], sel) == [] by {
      assert [e][1..] == [];
    }
    MatchingConcat(before, [e], sel);
    MatchingConcat(before + [e], after, sel);
    MatchingConcat(before, after, sel);
  }

  /** `tag.text`: every text string below the tag, concatenated. */
  function Text(e: Element): string {
    Concat(e.fragments)
  }

  /** `tag.get_text(strip=True)`: every text string stripped of surrounding
      whitespace, concatenated without a separator. */
  function StrippedText(e: Element): string {
    Concat(StripEach(e.fragments))
  }
}
