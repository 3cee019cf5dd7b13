/** An already-parsed XML document, and the namespace-agnostic name helper (core.py:7-8). */
module XmlTree {

  /**
   * One element as ElementTree gives it: the tag as written (`{uri}local` when
   * namespaced), attributes in document order, children in document order, and the
   * text before the first child. ElementTree's `None` text is the empty string here:
   * the converter only ever reads `el.text or ""`.
   */
  datatype Element = Element(tag: string, attrs: seq<(string, string)>, children: seq<Element>, text: string)

  /** What parsing a document's bytes gives: its root, or the parser's error message. */
  datatype Document = Parsed(root: Element) | Malformed(message: string)

  /** Position of the first `c` in `t`, or -1. */
  function FirstIndexOf(t: string, c: char): (i: int)
    ensures -1 <= i < |t|
    ensures i >= 0 ==> t[i] == c && c !in t[..i]
    ensures i == -1 <==> c !in t
  {
    if t == [] then -1
    else if t[0] == c then 0
    else
      var j := FirstIndexOf(t[1..], c);
      if j < 0 then -1 else j + 1
  }

  /** `tag.split('}', 1)[1] if '}' in tag else tag`: what follows the first `}`, or the whole tag. */
  function LocalName(t: string): (r: string)
    ensures '}' !in t ==> r == t
    ensures '}' in t ==> |r| < |t| && r == t[|t| - |r|..]
    ensures '}' in t ==> t[|t| - |r| - 1] == '}' && '}' !in t[..|t| - |r| - 1]
  {
    var i := FirstIndexOf(t, '}');
    if i < 0 then t else t[i + 1..]
  }

  /** Stripping is not idempotent: only the first `}` is a separator. */
  lemma LocalNameNotIdempotent()
    ensures LocalName("{a}b}c") == "b}c"
    ensures LocalName(LocalName("{a}b}c")) == "c"
  {
    assert FirstIndexOf("{a}b}c", '}') == 2 by {
      assert "{a}b}c"[2] == '}' && "{a}b}c"[..2] == "{a";
    }
    assert FirstIndexOf("b}c", '}') == 1 by {
      assert "b}c"[1] == '}' && "b}c"[..1] == "b";
    }
  }
}
