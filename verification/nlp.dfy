/** Date extraction from free-form to-do text: the Chinese date grammar is
    asked first, the English one only when the Chinese finds nothing, and
    the first match is cut out of the text, which is then trimmed and has
    its whitespace runs collapsed. The grammars themselves are parameters. */
module Nlp {
  import opened Wrappers
  import opened Text

  /** One match of a date grammar: the matched span and the instant it denotes. */
  datatype ChronoResult = ChronoResult(text: string, date: int)

  /** A date grammar: every match it finds in a text, in order. */
  type Parser = string -> seq<ChronoResult>

  datatype ParsedDate = ParsedDate(date: int, text: string, cleanText: string)

  /** The text left once the first occurrence of `matchText` is removed, with
      edge whitespace trimmed and every whitespace run turned into one space. */
  function CleanText(text: string, matchText: string): (r: string)
    ensures Normalized(r)
    ensures |r| <= |text|
    ensures IndexOf(text, matchText).None? ==> r == Normalize(text)
  {
    Normalize(RemoveFirst(text, matchText))
  }

  /** Builds the result from the first match of whichever grammar matched. */
  function FromFirst(text: string, results: seq<ChronoResult>): (r: ParsedDate)
    requires results != []
    ensures r.text == text && r.date == results[0].date
    ensures r.cleanText == CleanText(text, results[0].text)
  {
    ParsedDate(results[0].date, text, CleanText(text, results[0].text))
  }

  function ParseDateFromText(text: string, zh: Parser, en: Parser): (r: Option<ParsedDate>)
    ensures r.None? <==> zh(text) == [] && en(text) == []
    ensures zh(text) != [] ==> r == Some(FromFirst(text, zh(text)))
    ensures zh(text) == [] && en(text) != [] ==> r == Some(FromFirst(text, en(text)))
    ensures r.Some? ==> r.value.text == text
    ensures r.Some? ==> Normalized(r.value.cleanText) && |r.value.cleanText| <= |text|
  {
    var results := zh(text);
    if |results| == 0 then
      var enResults := en(text);
      if |enResults| == 0 then None else Some(FromFirst(text, enResults))
    else
      Some(FromFirst(text, results))
  }

  /** The English grammar is never consulted once the Chinese one matches:
      any two English grammars give the same answer. */
  lemma EnglishOnlyAsFallback(text: string, zh: Parser, en1: Parser, en2: Parser)
    requires zh(text) != []
    ensures ParseDateFromText(text, zh, en1) == ParseDateFromText(text, zh, en2)
  {
  }

  /** When the matched span occurs in the text, the clean text is the words
      before and after its first occurrence, joined by single spaces; no
      character outside that occurrence is lost. */
  lemma CleanTextIsRemainingWords(text: string, matchText: string, i: nat)
    requires IndexOf(text, matchText) == Some(i)
    ensures CleanText(text, matchText) == Join(Words(text[..i] + text[i + |matchText|..]))
    ensures Visible(CleanText(text, matchText), IsJsSpace)
         == Visible(text[..i], IsJsSpace) + Visible(text[i + |matchText|..], IsJsSpace)
  {
    var rest := RemoveFirst(text, matchText);
    assert rest == text[..i] + text[i + |matchText|..];
    NormalizeIsJoinedWords(rest);
    VisibleConcat(text[..i], text[i + |matchText|..], IsJsSpace);
  }

  /** A text that is nothing but the date leaves an empty clean text. */
  lemma WholeTextMatched(text: string)
    ensures CleanText(text, text) == []
  {
    assert OccursAt(text, text, 0);
    assert IndexOf(text, text) == Some(0);
    assert RemoveFirst(text, text) == [];
  }

  /** The clean text is already normalised: trimming and collapsing it again
      is the identity. */
  lemma CleanTextNormalizeFixed(text: string, matchText: string)
    ensures Normalize(CleanText(text, matchText)) == CleanText(text, matchText)
  {
    NormalizeIdempotent(RemoveFirst(text, matchText));
  }
}
