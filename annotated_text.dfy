/** The annotated text handed to the strategies, and the placeholder ranges
    that the lerp and binary-search strategies derive from its string
    annotations and the caller's inline content. */
module AnnotatedText {
  import opened Typography

  /** A string annotation: `item` names the inline content it stands for. */
  datatype StringAnnotation = StringAnnotation(tag: string, item: string, start: int, end: int)

  /** `AnnotatedString`: the text and its string annotations. It is also the
      key under which the reactive strategy remembers its size. */
  datatype AnnotatedString = AnnotatedString(text: string, annotations: seq<StringAnnotation>)

  /** The box an inline content occupies in the text. */
  datatype Placeholder = Placeholder(width: TextUnit, height: TextUnit)

  datatype InlineTextContent = InlineTextContent(placeholder: Placeholder)

  /** `AnnotatedString.Range<Placeholder>`: a placeholder laid over `[start, end)`. */
  datatype PlaceholderRange = PlaceholderRange(item: Placeholder, start: int, end: int)

  /** The range an annotation turns into when its item is a key of `inlineContent`. */
  function RangeOf(a: StringAnnotation, inlineContent: map<string, InlineTextContent>): (r: PlaceholderRange)
    requires a.item in inlineContent
    ensures r.item == inlineContent[a.item].placeholder
    ensures r.start == a.start && r.end == a.end
  {
    PlaceholderRange(inlineContent[a.item].placeholder, a.start, a.end)
  }

  /** How many of `places` name a key of `inlineContent`. */
  function KeptCount(places: seq<StringAnnotation>, inlineContent: map<string, InlineTextContent>): nat
  {
    if places == [] then 0
    else (if places[0].item in inlineContent then 1 else 0) + KeptCount(places[1..], inlineContent)
  }

  /** The `mapNotNull` over the text's annotations: an annotation whose item
      is a key of `inlineContent` becomes that content's placeholder over the
      annotation's range; every other annotation is dropped. */
  function PlaceholderRanges(places: seq<StringAnnotation>, inlineContent: map<string, InlineTextContent>): (r: seq<PlaceholderRange>)
    ensures |r| == KeptCount(places, inlineContent)
    ensures forall x :: x in r ==>
              exists a :: a in places && a.item in inlineContent && x == RangeOf(a, inlineContent)
  {
    if places == [] then []
    else
      var rest := PlaceholderRanges(places[1..], inlineContent);
      assert forall x :: x in rest ==>
               exists a :: a in places && a.item in inlineContent && x == RangeOf(a, inlineContent) by {
        forall x | x in rest
          ensures exists a :: a in places && a.item in inlineContent && x == RangeOf(a, inlineContent)
        {
          var a :| a in places[1..] && a.item in inlineContent && x == RangeOf(a, inlineContent);
          assert a in places;
        }
      }
      if places[0].item in inlineContent then [RangeOf(places[0], inlineContent)] + rest
      else rest
  }

  /** Order and completeness: the annotation at index `i`, when kept, lands at
      the position given by the number of kept annotations before it. */
  lemma {:induction false} PlaceholderRangeAt(places: seq<StringAnnotation>, inlineContent: map<string, InlineTextContent>, i: nat)
    requires i < |places| && places[i].item in inlineContent
    ensures KeptCount(places[..i], inlineContent) < |PlaceholderRanges(places, inlineContent)|
    ensures PlaceholderRanges(places, inlineContent)[KeptCount(places[..i], inlineContent)]
            == RangeOf(places[i], inlineContent)
  {
    if i == 0 {
      assert places[..0] == [];
    } else {
      PlaceholderRangeAt(places[1..], inlineContent, i - 1);
      assert places[..i][1..] == places[1..][..i - 1];
      assert places[..i][0] == places[0];
    }
  }

  /** An annotation whose item is not a key of `inlineContent` contributes
      nothing: removing it leaves the ranges unchanged. */
  lemma {:induction false} DroppedAnnotationIgnored(places: seq<StringAnnotation>, inlineContent: map<string, InlineTextContent>, i: nat)
    requires i < |places| && places[i].item !in inlineContent
    ensures PlaceholderRanges(places[..i] + places[i + 1..], inlineContent) == PlaceholderRanges(places, inlineContent)
  {
    if i == 0 {
      assert places[..0] + places[1..] == places[1..];
    } else {
      DroppedAnnotationIgnored(places[1..], inlineContent, i - 1);
      assert places[..i] + places[i + 1..] == [places[0]] + (places[1..][..i - 1] + places[1..][i..]);
      assert ([places[0]] + (places[1..][..i - 1] + places[1..][i..]))[1..] == places[1..][..i - 1] + places[1..][i..];
    }
  }
}
