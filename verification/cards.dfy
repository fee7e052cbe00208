/** The admin cards' `truncateText` and their "Read more" link. The student
    card and the tournament card carry the same helper; it is defined once
    here. */
module Cards {
  import opened Text

  const Ellipsis: string := "..."

  /** The limit both cards pass. */
  const CardLimit: nat := 50

  /** `truncateText(text, limit)`: a missing or empty text shows nothing; a
      text over the limit keeps its first `limit` characters and gains "...". */
  function TruncateText(text: Option<string>, limit: nat): (r: string)
    ensures text.None? ==> r == ""
    ensures text.Some? && |text.value| <= limit ==> r == text.value
    ensures text.Some? && |text.value| > limit ==>
              |r| == limit + |Ellipsis| && StartsWith(text.value, r[..limit]) && r[limit..] == Ellipsis
    ensures |r| <= limit + |Ellipsis|
  {
    match text
    case None => ""
    case Some(t) =>
      if t == "" then ""
      else if |t| > limit then t[..limit] + Ellipsis
      else t
  }

  /** The "Read more" link: shown when the text is there and longer than 50. */
  predicate ReadMore(text: Option<string>) {
    text.Some? && text.value != "" && |text.value| > CardLimit
  }

  /** Truncating what truncation shows changes nothing more. */
  lemma TruncateIdempotent(text: Option<string>, limit: nat)
    ensures TruncateText(Some(TruncateText(text, limit)), limit) == TruncateText(text, limit)
  {
    var r := TruncateText(text, limit);
    if text.Some? && |text.value| > limit {
      assert r[..limit] == text.value[..limit];
      assert r[..limit] + Ellipsis == r;
    }
  }

  /** The link is shown exactly when the card shows a truncated text: one
      ending in "..." after the first 50 characters of the original. */
  lemma ReadMoreIffTruncated(text: Option<string>)
    ensures ReadMore(text) <==>
              text.Some? && |text.value| > CardLimit && TruncateText(text, CardLimit) == text.value[..CardLimit] + Ellipsis
    ensures !ReadMore(text) ==> text.None? || TruncateText(text, CardLimit) == text.value
  {
  }

  /** Whenever the shown text differs from the original, the link is there;
      the converse fails only for a text of exactly 53 characters whose last
      three are "...": it is shown unchanged and still gets the link. */
  lemma ReadMoreWhenChanged(text: Option<string>)
    ensures text.Some? && TruncateText(text, CardLimit) != text.value ==> ReadMore(text)
    ensures ReadMore(text) && TruncateText(text, CardLimit) == text.value ==>
              |text.value| == CardLimit + |Ellipsis| && text.value[CardLimit..] == Ellipsis
  {
  }

  /** A 53-character text ending in "..." is shown unchanged with the link. */
  lemma UnchangedButReadMore()
    ensures var t := seq(CardLimit, _ => 'a') + Ellipsis;
            ReadMore(Some(t)) && TruncateText(Some(t), CardLimit) == t
  {
    var t := seq(CardLimit, _ => 'a') + Ellipsis;
    assert t[..CardLimit] + Ellipsis == t;
  }
}
