/**
 * API colours (web/src/util/color.ts): the API stores `RRGGBBAA` hex text,
 * HTML wants it behind a `#`.
 */
module Color {

  /** The HTML colour for an API colour; the input is not validated. */
  function ParseApiColor(color: string): (html: string)
    ensures |html| == |color| + 1
    ensures html[0] == '#'
    ensures html[1..] == color
  {
    "#" + color
  }

  /** Different API colours give different HTML colours. */
  lemma ParseApiColorInjective(a: string, b: string)
    requires ParseApiColor(a) == ParseApiColor(b)
    ensures a == b
  {
    assert a == ParseApiColor(a)[1..];
  }

  /** With no validation, an already prefixed colour gains a second `#`. */
  lemma ParseApiColorDoublePrefix(color: string)
    requires |color| > 0 && color[0] == '#'
    ensures ParseApiColor(color)[..2] == "##"
  {
  }

  lemma ParseApiColorExample()
    ensures ParseApiColor("FF0000FF") == "#FF0000FF"
  {
  }
}
