/**
 * Choosing the CV text kept for drafting (`process_and_save_files`): the
 * text extracted from the first uploaded file is kept as it is when an
 * accented letter typical of German or French appears near its start, and
 * is otherwise replaced by its translation. Extraction and translation are
 * external; their results arrive as optional strings.
 */
module Cv {
  import opened Wrappers
  import opened Text

  /** The letters taken as a sign that the CV is not in English. */
  const Accents: string := "àéâç"
  /** How many leading characters are inspected. */
  const HeadLength: nat := 500

  /** Some character of `s` is one of the accents. */
  function HasAccent(s: string): (b: bool)
    ensures b <==> exists i :: 0 <= i < |s| && s[i] in Accents
  {
    if s == [] then false else s[0] in Accents || HasAccent(s[1..])
  }

  /** `text[:500]`. */
  function Head(text: string): string
  {
    if |text| <= HeadLength then text else text[..HeadLength]
  }

  /** An accent occurs among the first 500 characters. */
  predicate AccentNearStart(text: string)
  {
    exists i :: 0 <= i < |text| && i < HeadLength && text[i] in Accents
  }

  /**
   * The CV text stored for the user: empty when nothing could be extracted,
   * the extracted text when it shows an accent near its start, the
   * translation (None when translation failed) otherwise.
   */
  function ChooseCvText(extracted: Option<string>, translated: Option<string>): (cv: Option<string>)
    ensures !Truthy(extracted) ==> cv == Some([])
    ensures Truthy(extracted) && AccentNearStart(extracted.value) ==> cv == extracted
    ensures Truthy(extracted) && !AccentNearStart(extracted.value) ==> cv == translated
  {
    if !Truthy(extracted) then Some([])
    else if HasAccent(Head(extracted.value)) then extracted
    else translated
  }

  /** Accents after the first 500 characters do not count: such a CV is sent for translation. */
  lemma LateAccentIgnored(prefix: string, rest: string, translated: Option<string>)
    requires |prefix| >= HeadLength && !HasAccent(prefix)
    ensures ChooseCvText(Some(prefix + rest), translated) == translated
  {
    var t := prefix + rest;
    forall i | 0 <= i < |t| && i < HeadLength
      ensures t[i] !in Accents
    {
      assert t[i] == prefix[i];
    }
  }
}
