/**
 * Turning the language model's reply into an email draft
 * (`generate_personalized_email`). The model itself is not part of this
 * module: its reply arrives as an optional string, None when the call
 * failed.
 */
module Composer {
  import opened Wrappers
  import opened Text

  /** A subject/body pair, as shown in the review form. */
  datatype Draft = Draft(subject: string, body: string)

  /** Separates subject from body in the reply. */
  const Delimiter: string := "|||"
  const SubjectTag: string := "Subject:"
  const BodyTag: string := "Body:"
  /** The subject used when the reply has no delimiter. */
  const FallbackSubject: string := "Bewerbung für die ausgeschriebene Position"
  /** The body used when there is no reply text at all. */
  const FallbackBody: string := "Could not generate email body."

  /** The text between the first and the second delimiter (or the end): `split('|||')[1]`. */
  function SecondSegment(t: string): string
    requires Contains(t, Delimiter)
  {
    var rest := t[Find(t, Delimiter).value + |Delimiter|..];
    FirstPiece(rest, Delimiter)
  }

  /**
   * The draft built from the CV text and the model's reply. An empty CV
   * gives an empty draft; a reply with a delimiter is cut into a subject
   * (tags removed, stripped) and a body; any other reply becomes the body
   * under the fixed subject.
   */
  function ParseResponse(cv: Option<string>, response: Option<string>): (d: Draft)
    ensures !Truthy(cv) ==> d == Draft([], [])
    ensures Truthy(cv) && Truthy(response) && Contains(response.value, Delimiter) ==>
      var t := response.value;
      && d.subject == Strip(RemoveAll(t[..Find(t, Delimiter).value], SubjectTag))
      && d.body == Strip(RemoveAll(SecondSegment(t), BodyTag))
    ensures Truthy(cv) && !(Truthy(response) && Contains(response.value, Delimiter)) ==>
      d == Draft(FallbackSubject, if Truthy(response) then response.value else FallbackBody)
  {
    if !Truthy(cv) then Draft([], [])
    else if Truthy(response) && Contains(response.value, Delimiter) then
      var parts := Split(response.value, Delimiter);
      Draft(Strip(RemoveAll(parts[0], SubjectTag)), Strip(RemoveAll(parts[1], BodyTag)))
    else
      Draft(FallbackSubject, if Truthy(response) then response.value else FallbackBody)
  }

  /** A non-empty CV always yields a non-empty body: the model's text or the fallback. */
  lemma FallbackBodyNonEmpty(cv: string, response: Option<string>)
    requires cv != []
    requires !Truthy(response) || !Contains(response.value, Delimiter)
    ensures ParseResponse(Some(cv), response).body != []
    ensures ParseResponse(Some(cv), response).subject == FallbackSubject
  {
  }

  /** The reply shape the prompt asks for: `Subject: <subject>|||Body: <body>`. */
  function FormatResponse(subject: string, body: string): string
  {
    SubjectTag + " " + subject + Delimiter + BodyTag + " " + body
  }

  /** None of the first `n` positions of `s` holds a `|`, so no delimiter starts there. */
  lemma NoDelimiterBefore(s: string, n: nat)
    requires n <= |s| && '|' !in s[..n]
    ensures forall k: nat :: k < n ==> !MatchAt(s, Delimiter, k)
  {
    forall k: nat | k < n ensures !MatchAt(s, Delimiter, k) {
      assert s[..n][k] == s[k];
    }
  }

  /** Removing the leading tag from `tag + " " + x` leaves `" " + x` when `x` holds no tag. */
  lemma RemoveLeadingTag(tag: string, x: string)
    requires tag != [] && tag[0] != ' ' && !Contains(x, tag)
    ensures RemoveAll(tag + " " + x, tag) == " " + x
  {
    assert tag + " " + x == tag + (" " + x);
    RemoveAllAtFront(tag, " " + x);
    assert !Contains(" " + x, tag) by {
      forall k: nat | 1 <= k ensures !MatchAt(" " + x, tag, k) {
        MatchInSuffix(" " + x, 1, tag, k - 1);
        assert (" " + x)[1..] == x;
      }
    }
  }

  /** A tag followed by a space and a text holds no delimiter when the text holds none. */
  lemma TaggedHasNoDelimiter(tag: string, x: string)
    requires '|' !in tag && !Contains(x, Delimiter)
    ensures !Contains(tag + " " + x, Delimiter)
  {
    var s := tag + " " + x;
    var n := |tag| + 1;
    assert s[..n] == tag + " ";
    NoDelimiterBefore(s, n);
    assert s[n..] == x;
    forall k: nat | n <= k ensures !MatchAt(s, Delimiter, k) {
      MatchInSuffix(s, n, Delimiter, k - n);
    }
  }

  /** In a reply of the requested shape, the first delimiter is the one after the subject. */
  lemma FormatDelimiterPosition(subject: string, body: string)
    requires '|' !in subject
    ensures var t := FormatResponse(subject, body);
            var n := |SubjectTag + " " + subject|;
            && Find(t, Delimiter) == Some(n)
            && t[..n] == SubjectTag + " " + subject
            && t[n + |Delimiter|..] == BodyTag + " " + body
  {
    var head := SubjectTag + " " + subject;
    var tail := BodyTag + " " + body;
    var t := FormatResponse(subject, body);
    assert t == head + Delimiter + tail;
    var n := |head|;
    assert t[..n] == head;
    assert '|' !in head by {
      assert head == SubjectTag + (" " + subject);
    }
    NoDelimiterBefore(t, n);
    assert t[n..n + 3] == Delimiter;
    FindIs(t, Delimiter, n);
    assert t[n + 3..] == tail;
  }

  /** The body segment of a reply in the requested shape is everything after the delimiter. */
  lemma SecondSegmentOfFormat(subject: string, body: string)
    requires '|' !in subject && !Contains(body, Delimiter)
    ensures Contains(FormatResponse(subject, body), Delimiter)
    ensures SecondSegment(FormatResponse(subject, body)) == BodyTag + " " + body
  {
    FormatDelimiterPosition(subject, body);
    TaggedHasNoDelimiter(BodyTag, body);
  }

  /** Stripping a stripped text behind one space gives the text back. */
  lemma StripAfterSpace(x: string)
    requires IsStripped(x)
    ensures Strip(" " + x) == x
  {
    TrimStartPadded(" ", x);
    StripStripped(x);
  }

  /**
   * A reply in the requested shape parses back to the subject and body it
   * was built from, provided the subject has no `|`, the body no delimiter,
   * neither repeats its own tag, and both are already stripped.
   */
  lemma ParseFormatRoundTrip(cv: string, subject: string, body: string)
    requires cv != []
    requires '|' !in subject && !Contains(body, Delimiter)
    requires !Contains(subject, SubjectTag) && !Contains(body, BodyTag)
    requires IsStripped(subject) && IsStripped(body)
    ensures ParseResponse(Some(cv), Some(FormatResponse(subject, body))) == Draft(subject, body)
  {
    var t := FormatResponse(subject, body);
    var head := SubjectTag + " " + subject;
    var tail := BodyTag + " " + body;
    FormatDelimiterPosition(subject, body);
    var n := |head|;
    assert Find(t, Delimiter) == Some(n) && t[..n] == head;
    assert t[0] == 'S';
    var d := ParseResponse(Some(cv), Some(t));
    SecondSegmentOfFormat(subject, body);
    assert d.subject == Strip(RemoveAll(head, SubjectTag));
    assert d.body == Strip(RemoveAll(tail, BodyTag));
    RemoveLeadingTag(SubjectTag, subject);
    RemoveLeadingTag(BodyTag, body);
    StripAfterSpace(subject);
    StripAfterSpace(body);
  }
}
