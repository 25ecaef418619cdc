/** `TextLine` of pdf2data/pdf.py: one line of text with its font and bounding box. */
module TextLines {
  import opened Errors

  /** `fontname` is `None` for a line that held no characters. */
  datatype TextLine = TextLine(text: string, fontname: Option<string>, x0: real, y0: real, x1: real, y1: real)

  /** The coordinate attributes that the engine looks up by name. */
  datatype Attr = X0 | Y0 | X1 | Y1

  function Get(l: TextLine, a: Attr): real {
    match a
    case X0 => l.x0
    case Y0 => l.y0
    case X1 => l.x1
    case Y1 => l.y1
  }

  /** The attribute lookup as a key function, for sorting. */
  function KeyOf(a: Attr): TextLine -> real {
    l => Get(l, a)
  }

  /** Python's `sub in s` on strings. */
  predicate Contains(s: string, sub: string) {
    |sub| <= |s| && (s[..|sub|] == sub || Contains(s[1..], sub))
  }

  /** `TextLine.__str__`: the text, wrapped in asterisks when the font is a
      bold one. A missing font name makes the membership test fail. */
  function Str(l: TextLine): (r: Result<string>)
    ensures r.Err? <==> l.fontname.None?
    ensures r.Err? ==> r.error == NoFontName
    // the text is always recoverable from the rendering
    ensures r.Ok? && !Contains(l.fontname.value, "Bold") ==> r.value == l.text
    ensures r.Ok? && Contains(l.fontname.value, "Bold") ==>
              |r.value| == |l.text| + 2 && r.value[0] == '*' && r.value[|r.value| - 1] == '*'
              && r.value[1..|r.value| - 1] == l.text
  {
    match l.fontname
    case None => Err(NoFontName)
    case Some(f) => if Contains(f, "Bold") then Ok("*" + l.text + "*") else Ok(l.text)
  }

  /** `TextLine.copy`: same font and bounding box, with the text replaced when
      one is given. */
  function Copy(l: TextLine, text: Option<string> := None): (r: TextLine)
    ensures r.fontname == l.fontname
    ensures r.x0 == l.x0 && r.y0 == l.y0 && r.x1 == l.x1 && r.y1 == l.y1
    ensures text.Some? ==> r.text == text.value
    ensures text.None? ==> r == l
  {
    TextLine(if text.Some? then text.value else l.text, l.fontname, l.x0, l.y0, l.x1, l.y1)
  }

  /** A copy renders with the same bold marking as the line it was copied from. */
  lemma CopyKeepsMarking(l: TextLine, t: string)
    requires l.fontname.Some?
    ensures Str(Copy(l, Some(t))).Ok?
    ensures Str(l).value == "*" + l.text + "*" <==> Str(Copy(l, Some(t))).value == "*" + t + "*"
  {
  }
}
