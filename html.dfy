/**
 * The slice of the `mergician/html` package the scan uses, over a
 * document flattened to its elements in document order. Parsing is not
 * modelled: a document arrives as that element sequence.
 */
module Html {
  import opened Options

  /** An element node: its tag name and its attributes. */
  datatype Element = Element(tag: string, attrs: map<string, string>)

  /** `html.Attr`: the attribute's value, or "" when the element has none. */
  function Attr(e: Element, name: string): (v: string)
    ensures name in e.attrs ==> v == e.attrs[name]
    ensures name !in e.attrs ==> v == ""
  {
    if name in e.attrs then e.attrs[name] else ""
  }

  /** `html.HasAttr(name, value)` as a matcher: the attribute is present with that value. */
  predicate HasAttr(e: Element, name: string, value: string) {
    name in e.attrs && e.attrs[name] == value
  }

  /**
   * The matcher built from the patterns `<a>`, `<form>`, `<img>`,
   * `<link rel="stylesheet">`, `<script>` and `<style>`: a pattern matches
   * an element of its tag that carries every attribute the pattern does.
   */
  predicate IsLinkElement(e: Element) {
    e.tag in {"a", "form", "img", "script", "style"}
    || (e.tag == "link" && HasAttr(e, "rel", "stylesheet"))
  }

  /** `html.FindAll` with the link matcher: the matching elements, in document order. */
  function FindAll(nodes: seq<Element>): (r: seq<Element>)
    ensures |r| <= |nodes|
    ensures forall e :: e in r <==> e in nodes && IsLinkElement(e)
  {
    if nodes == [] then []
    else
      var init := FindAll(nodes[..|nodes| - 1]);
      var last := nodes[|nodes| - 1];
      assert nodes == nodes[..|nodes| - 1] + [last];
      if IsLinkElement(last) then init + [last] else init
  }

  /** The element's `id` is one of `ids`: `html.HasAttr("id", v)` for some `v` in `ids`. */
  predicate HasIdIn(e: Element, ids: set<string>) {
    "id" in e.attrs && e.attrs["id"] in ids
  }

  /**
   * `html.Find` with an `id` matcher: the position of the first element,
   * in document order, whose `id` is one of `ids`; None when there is none.
   */
  function FindId(nodes: seq<Element>, ids: set<string>): (r: Option<nat>)
    ensures r.Some? ==> r.value < |nodes| && HasIdIn(nodes[r.value], ids)
    ensures r.Some? ==> forall j :: 0 <= j < r.value ==> !HasIdIn(nodes[j], ids)
    ensures r.None? <==> forall j :: 0 <= j < |nodes| ==> !HasIdIn(nodes[j], ids)
  {
    if nodes == [] then None
    else if HasIdIn(nodes[0], ids) then Some(0)
    else
      match FindId(nodes[1..], ids)
      case None => None
      case Some(k) => Some(k + 1)
  }
}
