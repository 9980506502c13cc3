/** Extraction of a symbol's view box and inner markup from one icon file
    (`extract_svg_content`).

    The XML parse is not modelled: its outcome is an input, the root's
    `viewBox` attribute (if any) and the serialized text of each direct
    child. What is modelled is the primary, textual strategy, a search for
    `<svg[^>]*>(.*?)</svg>` with `.` matching newlines, and how its group is
    stripped, with the child-serialization fallback and the default view box. */
module SvgExtract {
  import opened Wrappers
  import opened Text

  const DefaultViewBox := "0 0 24 24"
  const OpenTag := "<svg"
  const CloseTag := "</svg>"
  const TagEnd := ">"

  /** What the XML parser reports about a file's root element. */
  datatype XmlRoot = XmlRoot(viewBox: Option<string>, children: seq<string>)

  /** One icon file: its text (None when it cannot be read) and its parsed
      root (None when parsing raises). */
  datatype IconFile = IconFile(text: Option<string>, root: Option<XmlRoot>)

  // ---------------------------------------------------------------------
  // The regular expression `<svg[^>]*>(.*?)</svg>` under DOTALL

  /** A match of the pattern starting at `i`: `<svg` at `i`, no `>` from
      there until `g`, `>` at `g`, and `</svg>` at `e`, so group 1 is
      `s[g + 1..e]`. */
  ghost predicate IsMatch(s: string, i: nat, g: nat, e: nat) {
    && OccursAt(s, OpenTag, i)
    && i + |OpenTag| <= g < |s| && s[g] == '>'
    && (forall k :: i + |OpenTag| <= k < g ==> s[k] != '>')
    && g + 1 <= e && OccursAt(s, CloseTag, e)
  }

  /** Where `>` is, as far as a search for it from `from` can tell. */
  lemma TagEndPositions(s: string, from: nat)
    ensures Find(s, TagEnd, from).Some? ==>
      var g := Find(s, TagEnd, from).value;
      g < |s| && s[g] == '>' && forall k :: from <= k < g ==> s[k] != '>'
    ensures Find(s, TagEnd, from).None? ==> forall k :: from <= k < |s| ==> s[k] != '>'
  {
    forall k: nat
      ensures OccursAt(s, TagEnd, k) <==> k < |s| && s[k] == '>'
    {
      OccursAtChar(s, '>', k);
    }
  }

  /** The engine's attempt at start position `i`, returning `(g, e)`:
      `[^>]*` can only stop at the first `>` after `<svg`, and the lazy
      `(.*?)` stops at the first `</svg>` after that. */
  function MatchAt(s: string, i: nat): (m: Option<(nat, nat)>)
    ensures m.Some? ==> IsMatch(s, i, m.value.0, m.value.1)
  {
    if !OccursAt(s, OpenTag, i) then None
    else
      TagEndPositions(s, i + |OpenTag|);
      match Find(s, TagEnd, i + |OpenTag|)
      case None => None
      case Some(g) =>
        match Find(s, CloseTag, g + 1)
        case None => None
        case Some(e) => Some((g, e))
  }

  /** At a given start the engine takes the only possible `>` and the
      nearest `</svg>` after it, and it fails exactly when no match starts there. */
  lemma MatchAtSpec(s: string, i: nat)
    ensures MatchAt(s, i).None? ==> forall g: nat, e: nat :: !IsMatch(s, i, g, e)
    ensures MatchAt(s, i).Some? ==> forall g: nat, e: nat :: IsMatch(s, i, g, e) ==>
      g == MatchAt(s, i).value.0 && MatchAt(s, i).value.1 <= e
  {
    TagEndPositions(s, i + |OpenTag|);
  }

  /** `re.search`: the match at the first start position, at or after
      `from`, where the pattern matches; the result is the span of group 1. */
  function Search(s: string, from: nat): (m: Option<(nat, nat)>)
    ensures m.Some? ==> 0 < m.value.0 <= m.value.1 <= |s|
    decreases |s| - from
  {
    if |s| < from then None
    else match MatchAt(s, from)
      case Some((g, e)) => Some((g + 1, e))
      case None => Search(s, from + 1)
  }

  /** Group 1 described in words: from after the first `>` that follows the
      leftmost `<svg` at or after `from`, to the first `</svg>` after that. */
  function LeftmostGroup(s: string, from: nat): (m: Option<(nat, nat)>)
    ensures m.Some? ==> 0 < m.value.0 <= m.value.1 <= |s|
  {
    match Find(s, OpenTag, from)
    case None => None
    case Some(i) =>
      match Find(s, TagEnd, i + |OpenTag|)
      case None => None
      case Some(g) =>
        match Find(s, CloseTag, g + 1)
        case None => None
        case Some(e) => Some((g + 1, e))
  }

  /** A failed attempt at a `<svg` rules out every later start too: any
      later `<svg` sees a `>` no earlier and a `</svg>` no earlier. */
  lemma LaterStartsFail(s: string, i: nat, j: nat)
    requires OccursAt(s, OpenTag, i) && MatchAt(s, i).None?
    requires i <= j
    ensures MatchAt(s, j).None?
  {
    TagEndPositions(s, i + |OpenTag|);
  }

  /** From a start where `<svg` occurs, the description in words takes the
      same `>` and `</svg>` as the engine's attempt there. */
  lemma LeftmostGroupAt(s: string, i: nat)
    requires OccursAt(s, OpenTag, i)
    ensures MatchAt(s, i).None? ==> LeftmostGroup(s, i).None?
    ensures MatchAt(s, i).Some? ==> LeftmostGroup(s, i) == Some((MatchAt(s, i).value.0 + 1, MatchAt(s, i).value.1))
  {
    assert Find(s, OpenTag, i) == Some(i);
  }

  /** Where `<svg` does not occur, the search for it moves on. */
  lemma FindSkips(s: string, p: string, from: nat)
    requires !OccursAt(s, p, from)
    ensures Find(s, p, from) == Find(s, p, from + 1)
  {
  }

  /** A failed attempt at `from` leaves the leftmost group where it is
      when looking from the next position on. */
  lemma NoMatchMovesOn(s: string, from: nat)
    requires MatchAt(s, from).None?
    ensures LeftmostGroup(s, from) == LeftmostGroup(s, from + 1)
  {
    if OccursAt(s, OpenTag, from) {
      LeftmostGroupAt(s, from);
      var next := Find(s, OpenTag, from + 1);
      if next.Some? {
        LaterStartsFail(s, from, next.value);
        LeftmostGroupAt(s, next.value);
        assert LeftmostGroup(s, from + 1) == LeftmostGroup(s, next.value);
      }
    } else {
      FindSkips(s, OpenTag, from);
    }
  }

  /** The backtracking search and the description in words agree: the
      search succeeds or fails at the leftmost `<svg`. */
  lemma {:induction false} SearchIsLeftmostGroup(s: string, from: nat)
    ensures Search(s, from) == LeftmostGroup(s, from)
    decreases |s| - from
  {
    if |s| < from {
    } else if MatchAt(s, from).Some? {
      LeftmostGroupAt(s, from);
    } else {
      SearchIsLeftmostGroup(s, from + 1);
      NoMatchMovesOn(s, from);
    }
  }

  // ---------------------------------------------------------------------
  // The extraction

  /** The fallback: the stripped serialization of each child, concatenated. */
  function ChildMarkup(children: seq<string>): (r: string)
    ensures IsStripped(r)
  {
    if |children| == 0 then []
    else
      var init := ChildMarkup(children[..|children| - 1]);
      StrippedConcat(init, Strip(children[|children| - 1]));
      init + Strip(children[|children| - 1])
  }

  /** The inner markup: group 1 of the textual search, stripped, or the
      fallback when the search finds nothing. */
  function InnerMarkup(text: string, root: XmlRoot): (r: string)
    ensures IsStripped(r)
  {
    match Search(text, 0)
    case Some((a, b)) => Strip(text[a..b])
    case None => ChildMarkup(root.children)
  }

  /** `extract_svg_content`: `(viewBox, inner markup)`, or None (the source's
      `(None, None)`) when the file cannot be read or parsed. */
  function ExtractSvgContent(file: IconFile): (r: Option<(string, string)>)
    ensures r.Some? <==> file.text.Some? && file.root.Some?
    ensures r.Some? ==> r.value.0 == if file.root.value.viewBox.Some? then file.root.value.viewBox.value else DefaultViewBox
    ensures r.Some? ==> IsStripped(r.value.1)
  {
    match (file.text, file.root)
    case (Some(text), Some(root)) => Some((root.viewBox.GetOr(DefaultViewBox), InnerMarkup(text, root)))
    case _ => None
  }

  /** The inner markup is the stripped text between the first `>` after the
      leftmost `<svg` and the first `</svg>` after that; when one of the
      three is missing it is the children fallback. */
  lemma InnerMarkupSpec(text: string, root: XmlRoot)
    ensures LeftmostGroup(text, 0).Some? ==>
      InnerMarkup(text, root) == Strip(text[LeftmostGroup(text, 0).value.0..LeftmostGroup(text, 0).value.1])
    ensures LeftmostGroup(text, 0).None? ==> InnerMarkup(text, root) == ChildMarkup(root.children)
  {
    SearchIsLeftmostGroup(text, 0);
  }
}
