/** The attachments of a document: what is written about them can be read back. */
module MarkupMedia {
  import opened EvernoteMarkup

  const MEDIA_START: string := "<en-media hash=\""
  const MEDIA_TYPE: string := "\" type=\""
  const MEDIA_END: string := "\"/>"

  /** The part of `s` before the first quotation mark. */
  function BeforeQuote(s: string): (b: string)
    ensures b <= s
  {
    if s == "" || s[0] == '"' then "" else [s[0]] + BeforeQuote(s[1..])
  }

  /** What `s` has between `start` and the next quotation mark, and the rest from there on. */
  function Attribute(start: string, s: string): (r: (bool, string, string))
    ensures |r.2| <= |s| && (r.0 && start != "" ==> |r.2| < |s|)
  {
    if start <= s then
      var value := BeforeQuote(s[|start|..]);
      (true, value, s[|start| + |value|..])
    else (false, "", "")
  }

  datatype Element = NoElement | Element(hash: string, mimeType: string, rest: string)

  /** The media element that `e` starts with, if there is one. */
  function ElementAt(e: string): (r: Element)
    ensures r.Element? ==> |r.rest| < |e|
  {
    var (hasHash, hash, s) := Attribute(MEDIA_START, e);
    var (hasType, mimeType, rest) := Attribute(MEDIA_TYPE, s);
    if hasHash && hasType && MEDIA_END <= rest then Element(hash, mimeType, rest[|MEDIA_END|..]) else NoElement
  }

  /** The media elements of a document or a part of it, each with the text up to the next tag. */
  function MediaIn(e: string): seq<Attachment>
    decreases |e|
  {
    if e == "" then []
    else
      match ElementAt(e)
      case Element(hash, mimeType, rest) => [Attachment(hash, mimeType, Decoded(rest))] + MediaIn(rest)
      case NoElement => MediaIn(e[1..])
  }

  lemma {:induction false} BeforeQuoteIs(a: string, rest: string)
    requires IsAttributeText(a)
    ensures BeforeQuote(a + "\"" + rest) == a
  {
    var s := a + "\"" + rest;
    if a != "" {
      assert s[0] == a[0] && s[1..] == a[1..] + "\"" + rest;
      BeforeQuoteIs(a[1..], rest);
    }
  }

  lemma AttributeIsRead(start: string, a: string, rest: string)
    requires IsAttributeText(a) && rest != "" && rest[0] == '"'
    ensures Attribute(start, start + a + rest) == (true, a, rest)
  {
    hide IsAttributeText;
    var s := start + a + rest;
    assert s[|start|..] == a + "\"" + rest[1..];
    assert s[|start| + |a|..] == rest;
    BeforeQuoteIs(a, rest[1..]);
  }

  function ElementOf(a: Attachment): string {
    MEDIA_START + a.hash + (MEDIA_TYPE + a.mimeType + MEDIA_END)
  }

  lemma ElementIsRead(a: Attachment, rest: string)
    requires IsAttributeText(a.hash) && IsAttributeText(a.mimeType)
    ensures ElementAt(ElementOf(a) + rest) == Element(a.hash, a.mimeType, rest)
  {
    hide IsAttributeText, Attribute;
    var end := MEDIA_END + rest;
    var s := MEDIA_TYPE + a.mimeType + end;
    assert s[0] == MEDIA_TYPE[0] == '"' && end[0] == MEDIA_END[0] == '"';
    assert ElementOf(a) + rest == MEDIA_START + a.hash + s;
    AttributeIsRead(MEDIA_START, a.hash, s);
    AttributeIsRead(MEDIA_TYPE, a.mimeType, end);
    assert end[|MEDIA_END|..] == rest;
  }

  /** No tag of it is that of a media element, as its fifth character shows. */
  predicate HasNoMediaTag(e: string) {
    forall k :: 0 <= k < |e| && e[k] == '<' ==> k + 4 < |e| && e[k + 4] != 'm'
  }

  lemma NoElementAt(e: string)
    requires e != "" && (e[0] == '<' ==> |e| > 4 && e[4] != 'm')
    ensures ElementAt(e) == NoElement
  {
    assert MEDIA_START[0] == '<' && MEDIA_START[4] == 'm';
    assert !(MEDIA_START <= e);
    hide BeforeQuote;
  }

  lemma {:induction false} PassedOver(text: string, rest: string)
    requires HasNoMediaTag(text)
    ensures MediaIn(text + rest) == MediaIn(rest)
    decreases |text|
  {
    hide ElementAt, Decoded;
    var e := text + rest;
    if text == "" {
      assert e == rest;
    } else {
      NoElementAt(e);
      assert e[1..] == text[1..] + rest;
      forall k | 0 <= k < |text[1..]| && text[1..][k] == '<' ensures k + 4 < |text[1..]| && text[1..][k + 4] != 'm' {
        assert text[k + 1] == '<';
      }
      PassedOver(text[1..], rest);
    }
  }

  lemma TextHasNoMediaTag(text: string)
    requires TagsAreLineBreaks(text)
    ensures HasNoMediaTag(text)
  {
    forall k | 0 <= k < |text| && text[k] == '<' ensures k + 4 < |text| && text[k + 4] != 'm' {
      assert "<br/>" <= text[k..];
      assert text[k..][4] == "<br/>"[4] == '>';
    }
  }

  lemma ConcatHasNoMediaTag(a: string, b: string)
    requires HasNoMediaTag(a) && HasNoMediaTag(b)
    ensures HasNoMediaTag(a + b)
  {
  }

  /** As it is read back: no-break spaces read as spaces. */
  function ReadBack(a: Attachment): Attachment {
    a.(trailingText := WithoutNbsp(a.trailingText))
  }

  function AllReadBack(attachments: seq<Attachment>): (r: seq<Attachment>)
    ensures |r| == |attachments| && forall i :: 0 <= i < |r| ==> r[i] == ReadBack(attachments[i])
  {
    seq(|attachments|, i requires 0 <= i < |attachments| => ReadBack(attachments[i]))
  }

  predicate HaveAttributes(attachments: seq<Attachment>) {
    forall i :: 0 <= i < |attachments| ==>
      IsAttributeText(attachments[i].hash) && IsAttributeText(attachments[i].mimeType)
  }

  lemma {:induction false} AllMediaFront(attachments: seq<Attachment>)
    requires attachments != []
    ensures AllMedia(attachments) == Media(attachments[0]) + AllMedia(attachments[1..])
  {
    hide Media;
    if |attachments| > 1 {
      var init := attachments[..|attachments| - 1];
      AllMediaFront(init);
      assert init[1..] == attachments[1..][..|attachments| - 2];
    } else {
      assert attachments[..0] == [] && attachments[1..] == [];
    }
  }

  lemma TrailingTextIsRead(text: string, attachments: seq<Attachment>)
    ensures Decoded(Escaped(text) + (AllMedia(attachments) + ENML_FOOTER)) == WithoutNbsp(text)
  {
    hide EscapedFrom, AllMedia, Decoded;
    var rest := AllMedia(attachments) + ENML_FOOTER;
    MediaStartWithTag(attachments);
    StopsAtTag(rest);
    DecodedFrom(text, 0, rest);
    assert WithoutNbsp(text)[0..] + "" == WithoutNbsp(text);
  }

  lemma FooterHasNoMedia()
    ensures MediaIn(ENML_FOOTER) == []
  {
    hide MediaIn;
    assert HasNoMediaTag(ENML_FOOTER);
    PassedOver(ENML_FOOTER, "");
    assert ENML_FOOTER + "" == ENML_FOOTER;
    NoMediaInNothing();
  }

  lemma NoMediaInNothing()
    ensures MediaIn("") == []
  {
  }

  lemma MediaParts(a: Attachment)
    ensures Media(a) == ElementOf(a) + Escaped(a.trailingText)
  {
    hide Escaped;
  }

  lemma {:induction false} AllMediaAreRead(attachments: seq<Attachment>)
    requires HaveAttributes(attachments)
    ensures MediaIn(AllMedia(attachments) + ENML_FOOTER) == AllReadBack(attachments)
  {
    hide MediaIn, Decoded, Escaped, IsAttributeText, Media, ElementOf;
    if attachments == [] {
      FooterHasNoMedia();
      assert AllMedia(attachments) + ENML_FOOTER == ENML_FOOTER;
    } else {
      var a, others := attachments[0], attachments[1..];
      var rest := AllMedia(others) + ENML_FOOTER;
      AllMediaFront(attachments);
      AllMediaAreRead(others);
      MediaIsRead(a, others);
      MediaParts(a);
      assert AllMedia(attachments) + ENML_FOOTER == ElementOf(a) + (Escaped(a.trailingText) + rest);
    }
  }

  lemma MediaIsRead(a: Attachment, others: seq<Attachment>)
    requires IsAttributeText(a.hash) && IsAttributeText(a.mimeType)
    ensures var rest := AllMedia(others) + ENML_FOOTER;
            MediaIn(ElementOf(a) + (Escaped(a.trailingText) + rest)) == [ReadBack(a)] + MediaIn(rest)
  {
    hide ElementAt, Decoded, Escaped, IsAttributeText, AllMedia;
    var rest := AllMedia(others) + ENML_FOOTER;
    ElementIsRead(a, Escaped(a.trailingText) + rest);
    TrailingTextIsRead(a.trailingText, others);
    EscapedShape(a.trailingText);
    TextHasNoMediaTag(Escaped(a.trailingText));
    PassedOver(Escaped(a.trailingText), rest);
  }

  lemma HeaderHasNoMediaTag()
    ensures HasNoMediaTag(EnmlHeader(ENCODING))
  {
    hide HasNoMediaTag;
    HeaderParts();
    var s1, s2, s3 := "<?xml version=\"1.0\" encoding=\"", ENCODING, "\"?>";
    var s4, s5, s6 := "<!DOCTYPE en-note SYSTEM ", "\"http://xml.evernote.com/", "pub/enml2.dtd\">";
    ConcatHasNoMediaTag(s1, s2);
    ConcatHasNoMediaTag(s1 + s2, s3);
    ConcatHasNoMediaTag(s1 + s2 + s3, s4);
    ConcatHasNoMediaTag(s1 + s2 + s3 + s4, s5);
    ConcatHasNoMediaTag(s1 + s2 + s3 + s4 + s5, s6);
    ConcatHasNoMediaTag(s1 + s2 + s3 + s4 + s5 + s6, "<en-note>");
  }

  lemma HeaderParts()
    ensures HasNoMediaTag("<?xml version=\"1.0\" encoding=\"") && HasNoMediaTag(ENCODING) && HasNoMediaTag("\"?>")
    ensures HasNoMediaTag("<!DOCTYPE en-note SYSTEM ") && HasNoMediaTag("\"http://xml.evernote.com/")
    ensures HasNoMediaTag("pub/enml2.dtd\">") && HasNoMediaTag("<en-note>")
  {
  }

  /** Reading a written document finds its attachments in order, each with its hash, its type and the text behind it. */
  lemma AttachmentsRoundTrip(text: string, attachments: seq<Attachment>)
    requires HaveAttributes(attachments)
    ensures MediaIn(Document(text, attachments)) == AllReadBack(attachments)
  {
    hide EnmlHeader, Escaped, AllMedia, MediaIn, HaveAttributes, HasNoMediaTag;
    var rest := AllMedia(attachments) + ENML_FOOTER;
    assert Document(text, attachments) == EnmlHeader(ENCODING) + (Escaped(text) + rest);
    HeaderHasNoMediaTag();
    PassedOver(EnmlHeader(ENCODING), Escaped(text) + rest);
    EscapedShape(text);
    TextHasNoMediaTag(Escaped(text));
    PassedOver(Escaped(text), rest);
    AllMediaAreRead(attachments);
  }

  /** The text has the other, but does not begin with it, and is longer. */
  ghost predicate StandsFor(text: string, other: string) {
    |text| > |other| && Contains(text, other) && !(other <= text)
  }

  lemma FoundIff(s: string, sub: string)
    ensures IndexOf(s, sub) > 0 <==> Contains(s, sub) && !(sub <= s)
  {
    var k := IndexOf(s, sub);
    assert s[0..] == s;
  }

  /** The merge of two plain-text versions is the one whose text stands for the other's. Otherwise it is a document of
      both texts, the newer one first, and of the given attachments. */
  lemma MergeIs(lib: Library, newEnml: string, oldEnml: string, oldTimestampUtc: int, attachments: seq<Attachment>)
    requires lib.Valid() && LeavePlainText(attachments) && lib.IsPlain(newEnml) && lib.IsPlain(oldEnml)
    ensures var (merged, ok) := ResolveConflict(lib, newEnml, oldEnml, oldTimestampUtc, attachments);
            var (newText, oldText) := (lib.Text(newEnml), lib.Text(oldEnml));
            if StandsFor(newText, oldText) then merged == newEnml
            else if StandsFor(oldText, newText) then merged == oldEnml
            else
              && lib.Text(merged) == WithoutNbsp(newText + JoiningText(lib, oldTimestampUtc) + oldText)
              && MediaIn(merged) == AllReadBack(attachments)
  {
    hide Document, PlainText, IndexOf, MediaIn, AllReadBack, JoiningText, LeavePlainText, Contains, HaveAttributes;
    var newText, joining, oldText := lib.Text(newEnml), JoiningText(lib, oldTimestampUtc), lib.Text(oldEnml);
    FoundIff(newText, oldText);
    FoundIff(oldText, newText);
    HaveAttributesToo(attachments);
    AttachmentsRoundTrip(newText + joining + oldText, attachments);
    DocumentRoundTrip(newText + joining + oldText, attachments);
    CarriesJoiningText(lib, oldTimestampUtc);
    CarriesConcat(lib, newText, joining);
    CarriesConcat(lib, newText + joining, oldText);
    assert lib.ReadsBack(newText + joining + oldText, attachments);
  }

  lemma HaveAttributesToo(attachments: seq<Attachment>)
    requires LeavePlainText(attachments)
    ensures HaveAttributes(attachments)
  {
  }

  lemma {:induction false} DivLinesAreOneLine(s: string)
    ensures '\n' !in DivLines(s)
  {
    if s != "" {
      DivLinesAreOneLine(s[1..]);
    }
  }

  /** The merge of other readable versions has the markup of the newer one before that of the older one, on one line. */
  lemma RichMergeIsInOrder(
    lib: Library, newEnml: string, oldEnml: string, oldTimestampUtc: int, attachments: seq<Attachment>)
    requires lib.parse(newEnml).Readable? && lib.parse(oldEnml).Readable?
    requires !(lib.IsPlain(newEnml) && lib.IsPlain(oldEnml))
    ensures var (merged, ok) := ResolveConflict(lib, newEnml, oldEnml, oldTimestampUtc, attachments);
            exists between ::
              && merged == EnmlHeader(ENCODING) + lib.core(newEnml, attachments) + between
                         + lib.core(oldEnml, attachments) + ENML_FOOTER
              && "<div>" <= between && '\n' !in between
  {
    hide EnmlHeader, DivLines, JoiningText, IndexOf, Document;
    var divs := "<div>" + DivLines(JoiningText(lib, oldTimestampUtc)) + "</div>";
    DivLinesAreOneLine(JoiningText(lib, oldTimestampUtc));
    assert "<div>" <= divs && '\n' !in divs;
  }
}
