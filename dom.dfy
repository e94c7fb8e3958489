/**
 * The part of the document the dialog's focus trap looks at: elements with an
 * identity, a lower-case tag name and their attributes, and the query for the
 * focusable descendants of the dialog container in document order.
 */
module Dom {
  type ElementId = nat

  datatype Element = Element(id: ElementId, tag: string, attrs: map<string, string>)

  /**
   * The selector
   * `a[href], button, textarea, input, select, [tabindex]:not([tabindex="-1"])`.
   */
  predicate Focusable(e: Element) {
    || (e.tag == "a" && "href" in e.attrs)
    || e.tag in {"button", "textarea", "input", "select"}
    || ("tabindex" in e.attrs && e.attrs["tabindex"] != "-1")
  }

  /**
   * What the selector does and does not exclude: native form controls match
   * whatever their attributes, so disabled or hidden ones are kept;
   * `tabindex="-1"` removes only an element that would match through its
   * tabindex; any other element, an anchor without `href` or an `iframe`
   * included, matches only through a tabindex other than "-1".
   */
  lemma SelectorCases(e: Element)
    ensures e.tag in {"button", "textarea", "input", "select"} ==> Focusable(e)
    ensures e.tag == "a" && "href" in e.attrs ==> Focusable(e)
    ensures !(e.tag == "a" && "href" in e.attrs) && e.tag !in {"button", "textarea", "input", "select"} ==>
              (Focusable(e) <==> "tabindex" in e.attrs && e.attrs["tabindex"] != "-1")
  {
  }

  /** Distinct elements of a document are distinct objects. */
  predicate DistinctIds(s: seq<Element>) {
    forall i, j :: 0 <= i < j < |s| ==> s[i].id != s[j].id
  }

  /**
   * `querySelectorAll` over the container's descendants, listed in document
   * order: exactly the matching elements are kept.
   */
  function FocusableIn(descendants: seq<Element>): (r: seq<Element>)
    ensures |r| <= |descendants|
  {
    if descendants == [] then []
    else (if Focusable(descendants[0]) then [descendants[0]] else []) + FocusableIn(descendants[1..])
  }

  /** An element is in the list exactly when it is a descendant matching the selector. */
  lemma {:induction false} FocusableInMembers(descendants: seq<Element>, e: Element)
    ensures e in FocusableIn(descendants) <==> e in descendants && Focusable(e)
  {
    if descendants != [] {
      FocusableInMembers(descendants[1..], e);
      assert descendants == [descendants[0]] + descendants[1..];
    }
  }

  /** The query keeps document order: it distributes over concatenation. */
  lemma {:induction false} FocusableInConcat(a: seq<Element>, b: seq<Element>)
    ensures FocusableIn(a + b) == FocusableIn(a) + FocusableIn(b)
  {
    if a == [] {
      assert a + b == b;
    } else {
      var head := if Focusable(a[0]) then [a[0]] else [];
      assert (a + b)[0] == a[0] && (a + b)[1..] == a[1..] + b;
      assert FocusableIn(a + b) == head + FocusableIn(a[1..] + b);
      FocusableInConcat(a[1..], b);
      assert FocusableIn(a + b) == head + (FocusableIn(a[1..]) + FocusableIn(b));
    }
  }

  /** Descendants none of which match leave the list empty. */
  lemma {:induction false} NoneFocusable(s: seq<Element>)
    requires forall i :: 0 <= i < |s| ==> !Focusable(s[i])
    ensures FocusableIn(s) == []
  {
    if s != [] {
      NoneFocusable(s[1..]);
    }
  }

  /** The first element of the list is the first focusable descendant. */
  lemma FirstFocusable(descendants: seq<Element>, p: nat)
    requires p < |descendants| && Focusable(descendants[p])
    requires forall q :: 0 <= q < p ==> !Focusable(descendants[q])
    ensures FocusableIn(descendants) != [] && FocusableIn(descendants)[0] == descendants[p]
  {
    var before, rest := descendants[..p], descendants[p..];
    assert descendants == before + rest;
    FocusableInConcat(before, rest);
    NoneFocusable(before);
    assert rest[0] == descendants[p];
  }

  /** The last element of the list is the last focusable descendant. */
  lemma LastFocusable(descendants: seq<Element>, p: nat)
    requires p < |descendants| && Focusable(descendants[p])
    requires forall q :: p < q < |descendants| ==> !Focusable(descendants[q])
    ensures FocusableIn(descendants) != []
    ensures FocusableIn(descendants)[|FocusableIn(descendants)| - 1] == descendants[p]
  {
    var before, after := descendants[..p], descendants[p + 1..];
    forall i | 0 <= i < |after|
      ensures !Focusable(after[i])
    {
      assert after[i] == descendants[p + 1 + i];
    }
    NoneFocusable(after);
    FocusableInConcat([descendants[p]], after);
    assert FocusableIn([descendants[p]]) == [descendants[p]];
    assert descendants == before + ([descendants[p]] + after);
    FocusableInConcat(before, [descendants[p]] + after);
  }

  /**
   * The dialog container itself is a `div` with `tabindex="-1"`, which the
   * selector never matches.
   */
  lemma ContainerNotFocusable(id: ElementId, attrs: map<string, string>)
    requires "tabindex" in attrs && attrs["tabindex"] == "-1"
    ensures !Focusable(Element(id, "div", attrs))
  {
  }
}
