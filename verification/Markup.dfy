/** Plain text as note markup (ENML): escaping, whole documents, and the merge of two versions of a note.
    Documents are modelled as characters, before their encoding in UTF-8. */
module EvernoteMarkup {

  const NBSP: char := '\U{00A0}'

  // Escaping

  /** The space at `i` is written as a plain space: it neither starts nor ends the text nor follows a plain space. */
  predicate IsRawSpace(s: string, i: nat)
    requires i < |s|
  {
    s[i] == ' ' && 0 < i < |s| - 1 && !IsRawSpace(s, i - 1)
  }

  predicate IsEscapedChar(c: char) {
    c == '<' || c == '>' || c == '&' || c == '\"' || c == '\n' || c == ' '
  }

  function EntityOf(c: char): string
    requires IsEscapedChar(c)
  {
    match c
    case '<' => "&lt;"
    case '>' => "&gt;"
    case '&' => "&amp;"
    case '\"' => "&quot;"
    case '\n' => "<br/>"
    case _ => " "
  }

  /** What the character at `i` is written as. */
  function Token(s: string, i: nat): (t: string)
    requires i < |s|
  {
    if !IsEscapedChar(s[i]) then [s[i]]
    else if s[i] == ' ' && !IsRawSpace(s, i) then "&nbsp;"
    else EntityOf(s[i])
  }

  /** The escaped form of the text from position `i` on. */
  function EscapedFrom(s: string, i: nat): string
    requires i <= |s|
    decreases |s| - i
  {
    if i == |s| then "" else Token(s, i) + EscapedFrom(s, i + 1)
  }

  function Escaped(s: string): string {
    EscapedFrom(s, 0)
  }

  /** The written form, case by case. */
  lemma TokenCases(s: string, i: nat)
    requires i < |s|
    ensures !IsEscapedChar(s[i]) ==> Token(s, i) == [s[i]]
    ensures IsEscapedChar(s[i]) && s[i] != ' ' ==> Token(s, i) == EntityOf(s[i])
    ensures s[i] == ' ' ==> Token(s, i) == if i == 0 || i == |s| - 1 || IsRawSpace(s, i - 1) then "&nbsp;" else " "
    ensures IsRawSpace(s, i) ==> s[i] == ' ' && Token(s, i) == " "
  {
  }

  /** `result` is the escaped form of the first `n` characters. */
  ghost predicate IsWritten(s: string, n: nat, result: string)
    requires n <= |s|
  {
    && result + EscapedFrom(s, n) == Escaped(s)
    && (result == "" <==> n == 0)
    && (n > 0 && result != "" ==> (result[|result| - 1] == ' ' <==> IsRawSpace(s, n - 1)))
  }

  lemma {:induction false} WrittenPlain(s: string, n: nat, m: nat, result: string)
    requires n <= m <= |s| && IsWritten(s, n, result)
    requires forall k :: n <= k < m ==> !IsEscapedChar(s[k])
    ensures IsWritten(s, m, result + s[n..m])
    decreases m - n
  {
    hide Token, IsWritten, IsRawSpace, IsEscapedChar;
    if n < m {
      TokenCases(s, m - 1);
      WrittenPlain(s, n, m - 1, result);
      WrittenToken(s, m - 1, result + s[n..m - 1]);
      OneMore(result, s, n, m);
    } else {
      NoneMore(result, s, n);
    }
  }

  lemma OneMore(result: string, s: string, n: nat, m: nat)
    requires n < m <= |s|
    ensures result + s[n..m - 1] + [s[m - 1]] == result + s[n..m]
  {
    assert s[n..m] == s[n..m - 1] + [s[m - 1]];
  }

  lemma NoneMore(result: string, s: string, n: nat)
    requires n <= |s|
    ensures result + s[n..n] == result
  {
  }

  lemma WrittenToken(s: string, n: nat, result: string)
    requires n < |s| && IsWritten(s, n, result)
    ensures IsWritten(s, n + 1, result + Token(s, n))
  {
    hide Token, IsRawSpace, NoAdjacentSpaces, TagsAreLineBreaks;
    TokenShape(s, n);
    Regroup(result, Token(s, n), EscapedFrom(s, n + 1));
  }

  /** The test the program makes on what it has written so far decides how a space is written. */
  lemma SpaceDecision(s: string, n: nat, result: string)
    requires n < |s| && IsWritten(s, n, result) && s[n] == ' '
    ensures Token(s, n) == if result == "" || result[|result| - 1] == ' ' || n == |s| - 1 then "&nbsp;" else " "
  {
    hide Token, IsRawSpace, EscapedFrom;
    TokenCases(s, n);
  }

  lemma Regroup(a: string, b: string, c: string)
    ensures a + (b + c) == a + b + c
  {
  }

  method EntityFor(c: char) returns (isEscaped: bool, escaped: string)
    ensures isEscaped == IsEscapedChar(c)
    ensures isEscaped ==> escaped == EntityOf(c) && (escaped == " " <==> c == ' ')
  {
    isEscaped, escaped := false, "";
    if c == '<' {
      escaped := "&lt;";
      isEscaped := true;
    } else if c == '>' {
      escaped := "&gt;";
      isEscaped := true;
    } else if c == '&' {
      escaped := "&amp;";
      isEscaped := true;
    } else if c == '\"' {
      escaped := "&quot;";
      isEscaped := true;
    } else if c == '\n' {
      escaped := "<br/>";
      isEscaped := true;
    } else if c == ' ' {
      escaped := " ";
      isEscaped := true;
    }
    if isEscaped && escaped == " " {
      assert escaped[0] == ' ';
    }
  }

  method EscapedUtf8Html(s: string) returns (result: string)
    ensures result == Escaped(s)
  {
    hide Token, EntityOf, IsWritten;
    result := "";
    var escaped := "";
    var lastEscapedPos := -1;
    WrittenAtStart(s);
    for i := 0 to |s|
      invariant -1 <= lastEscapedPos < i
      invariant IsWritten(s, lastEscapedPos + 1, result)
      invariant forall k :: lastEscapedPos < k < i ==> !IsEscapedChar(s[k])
    {
      var isEscaped, entity := EntityFor(s[i]);
      if isEscaped {
        escaped := entity;
        WrittenPlain(s, lastEscapedPos + 1, i, result);
        if i > lastEscapedPos + 1 {
          result := result + s[lastEscapedPos + 1..i];
        } else {
          assert result + s[lastEscapedPos + 1..i] == result;
        }
        TokenCases(s, i);
        if escaped == " " {
          SpaceDecision(s, i, result);
          if result == "" || result[|result| - 1] == ' ' || i == |s| - 1 {
            escaped := "&nbsp;";
          }
        }
        WrittenToken(s, i, result);
        result := result + escaped;
        lastEscapedPos := i;
      }
    }
    WrittenPlain(s, lastEscapedPos + 1, |s|, result);
    assert s[lastEscapedPos + 1..|s|] == s[lastEscapedPos + 1..];
    WrittenAtEnd(s, result + s[lastEscapedPos + 1..]);
    if |s| > lastEscapedPos + 1 {
      result := result + s[lastEscapedPos + 1..];
    } else {
      assert result + s[lastEscapedPos + 1..] == result;
    }
  }

  lemma WrittenAtStart(s: string)
    ensures IsWritten(s, 0, "")
  {
    assert "" + EscapedFrom(s, 0) == Escaped(s);
  }

  lemma WrittenAtEnd(s: string, result: string)
    requires IsWritten(s, |s|, result)
    ensures result == Escaped(s)
  {
    assert result + "" == result;
  }

  // Unescaping

  function WithoutNbsp(s: string): (r: string)
    ensures |r| == |s|
  {
    seq(|s|, i requires 0 <= i < |s| => if s[i] == NBSP then ' ' else s[i])
  }

  /** What `e` begins with, decoded, and its length, which is 0 for a tag that is not a line break. */
  function FirstDecoded(e: string): (r: (string, nat))
    requires e != ""
    ensures r.1 <= |e|
  {
    if "&lt;" <= e then ("<", 4)
    else if "&gt;" <= e then (">", 4)
    else if "&amp;" <= e then ("&", 5)
    else if "&quot;" <= e then ("\"", 6)
    else if "&nbsp;" <= e then (" ", 6)
    else if "<br/>" <= e then ("\n", 5)
    else if e[0] == '<' then ("", 0)
    else ([if e[0] == NBSP then ' ' else e[0]], 1)
  }

  /** The text of a document body up to the first tag that is not a line break. */
  function Decoded(e: string): string
    decreases |e|
  {
    if e == "" then ""
    else
      var (text, length) := FirstDecoded(e);
      if length == 0 then "" else text + Decoded(e[length..])
  }

  lemma DecodedFirst(t: string, text: string, rest: string)
    requires t != "" && FirstDecoded(t + rest) == (text, |t|)
    ensures Decoded(t + rest) == text + Decoded(rest)
  {
    hide FirstDecoded;
    assert (t + rest)[|t|..] == rest;
  }

  lemma FirstIsEscape(t: string, c: char, rest: string)
    requires (IsEscapedChar(c) && c != ' ' && t == EntityOf(c)) || (c == ' ' && t == "&nbsp;")
    ensures FirstDecoded(t + rest) == ([c], |t|)
  {
    var e := t + rest;
    assert t <= e;
    if c != '<' {
      assert e[1] == t[1];
    }
  }

  lemma DecodedEscape(t: string, c: char, rest: string)
    requires (IsEscapedChar(c) && c != ' ' && t == EntityOf(c)) || (c == ' ' && t == "&nbsp;")
    ensures Decoded(t + rest) == [c] + Decoded(rest)
  {
    hide FirstDecoded, Decoded;
    FirstIsEscape(t, c, rest);
    DecodedFirst(t, [c], rest);
  }

  lemma FirstIsCharacter(c: char, rest: string)
    requires c != '<' && c != '&'
    ensures FirstDecoded([c] + rest) == ([if c == NBSP then ' ' else c], 1)
  {
    assert ([c] + rest)[0] == c;
  }

  lemma DecodedCharacter(c: char, rest: string)
    requires c != '<' && c != '&'
    ensures Decoded([c] + rest) == [if c == NBSP then ' ' else c] + Decoded(rest)
  {
    hide FirstDecoded, Decoded;
    FirstIsCharacter(c, rest);
    DecodedFirst([c], [if c == NBSP then ' ' else c], rest);
  }

  lemma DecodedToken(s: string, i: nat, rest: string)
    requires i < |s|
    ensures Decoded(Token(s, i) + rest) == [if s[i] == NBSP then ' ' else s[i]] + Decoded(rest)
  {
    hide Token, IsRawSpace, Decoded;
    TokenCases(s, i);
    if Token(s, i) == [s[i]] {
      DecodedCharacter(s[i], rest);
    } else {
      DecodedEscape(Token(s, i), s[i], rest);
    }
  }

  lemma {:induction false} DecodedFrom(s: string, i: nat, rest: string)
    requires i <= |s|
    ensures Decoded(EscapedFrom(s, i) + rest) == WithoutNbsp(s)[i..] + Decoded(rest)
    decreases |s| - i
  {
    hide Decoded, Token;
    if i < |s| {
      DecodedFrom(s, i + 1, rest);
      DecodedToken(s, i, EscapedFrom(s, i + 1) + rest);
      assert EscapedFrom(s, i) + rest == Token(s, i) + (EscapedFrom(s, i + 1) + rest);
      assert WithoutNbsp(s)[i..] == [WithoutNbsp(s)[i]] + WithoutNbsp(s)[i + 1..];
    } else {
      assert EscapedFrom(s, i) + rest == rest;
    }
  }

  /** Decoding gives the text back exactly when it has no no-break space, and otherwise turns those into spaces. */
  lemma EscapeRoundTrip(s: string)
    ensures Decoded(Escaped(s)) == WithoutNbsp(s)
    ensures Decoded(Escaped(s)) == s <==> forall i :: 0 <= i < |s| ==> s[i] != NBSP
  {
    DecodedFrom(s, 0, "");
    assert Escaped(s) + "" == Escaped(s);
    assert WithoutNbsp(s)[0..] == WithoutNbsp(s);
    if WithoutNbsp(s) == s {
      forall i | 0 <= i < |s| ensures s[i] != NBSP {
        assert WithoutNbsp(s)[i] == s[i];
      }
    }
  }

  ghost predicate NoAdjacentSpaces(e: string) {
    forall k :: 0 <= k < |e| - 1 ==> !(e[k] == ' ' && e[k + 1] == ' ')
  }

  ghost predicate TagsAreLineBreaks(e: string) {
    forall k :: 0 <= k < |e| && e[k] == '<' ==> "<br/>" <= e[k..]
  }

  lemma CharacterShape(c: char)
    requires c != '<'
    ensures NoAdjacentSpaces([c]) && TagsAreLineBreaks([c])
  {
  }

  lemma WithoutSpacesAndTags(t: string)
    requires forall k :: 0 <= k < |t| ==> t[k] != ' ' && t[k] != '<'
    ensures NoAdjacentSpaces(t) && TagsAreLineBreaks(t)
  {
  }

  lemma EscapeShape(t: string)
    requires t == "&lt;" || t == "&gt;" || t == "&amp;" || t == "&quot;" || t == "&nbsp;" || t == "<br/>"
    ensures t[0] != ' ' && t[|t| - 1] != ' ' && NoAdjacentSpaces(t) && TagsAreLineBreaks(t)
  {
    hide NoAdjacentSpaces, TagsAreLineBreaks;
    if t == "<br/>" {
      LineBreakShape();
    } else {
      WithoutSpacesAndTags(t);
    }
  }

  lemma LineBreakShape()
    ensures NoAdjacentSpaces("<br/>") && TagsAreLineBreaks("<br/>")
  {
    assert "<br/>"[0..] == "<br/>";
  }

  lemma TokenShape(s: string, i: nat)
    requires i < |s|
    ensures var t := Token(s, i);
            && t != "" && (t[0] == ' ' <==> IsRawSpace(s, i)) && (t[|t| - 1] == ' ' <==> IsRawSpace(s, i))
            && NoAdjacentSpaces(t) && TagsAreLineBreaks(t)
  {
    hide Token, IsRawSpace, NoAdjacentSpaces, TagsAreLineBreaks;
    TokenCases(s, i);
    var t := Token(s, i);
    if t == [s[i]] {
      CharacterShape(s[i]);
      RawSpaceIff(s, i);
    } else {
      EscapeShape(t);
    }
  }

  lemma RawSpaceIff(s: string, i: nat)
    requires i < |s|
    ensures IsRawSpace(s, i) <==> s[i] == ' ' && Token(s, i) == " "
  {
    TokenCases(s, i);
  }

  lemma SpacesOfConcat(t: string, e: string)
    requires t != "" && NoAdjacentSpaces(t) && NoAdjacentSpaces(e)
    requires e != "" ==> !(t[|t| - 1] == ' ' && e[0] == ' ')
    ensures NoAdjacentSpaces(t + e)
  {
  }

  lemma TagsOfConcat(t: string, e: string)
    requires TagsAreLineBreaks(t) && TagsAreLineBreaks(e)
    ensures TagsAreLineBreaks(t + e)
  {
    forall k | 0 <= k < |t + e| && (t + e)[k] == '<' ensures "<br/>" <= (t + e)[k..] {
      if k < |t| {
        assert (t + e)[k..] == t[k..] + e;
      } else {
        assert (t + e)[k..] == e[k - |t|..];
      }
    }
  }

  lemma {:induction false} EscapedFromShape(s: string, i: nat)
    requires i <= |s|
    ensures var e := EscapedFrom(s, i);
            && NoAdjacentSpaces(e) && TagsAreLineBreaks(e)
            && (e == "" <==> i == |s|)
            && (e != "" ==> (e[0] == ' ' <==> IsRawSpace(s, i)) && e[|e| - 1] != ' ')
    decreases |s| - i
  {
    hide Token;
    if i < |s| {
      var t, e := Token(s, i), EscapedFrom(s, i + 1);
      EscapedFromShape(s, i + 1);
      TokenShape(s, i);
      SpacesOfConcat(t, e);
      TagsOfConcat(t, e);
    }
  }

  /** White space survives an XML reader: no plain space is at an end or next to another one; and the only tags are
      line breaks. */
  lemma EscapedShape(s: string)
    ensures var e := Escaped(s);
            && NoAdjacentSpaces(e) && TagsAreLineBreaks(e)
            && (e != "" ==> e[0] != ' ' && e[|e| - 1] != ' ')
  {
    EscapedFromShape(s, 0);
  }

  /** Inside a text every other space of a run is written as a plain one, beginning with the first. */
  lemma {:induction false} SpacesAlternate(s: string, i: nat, j: nat)
    requires 0 < i && i + j + 1 < |s| && s[i - 1] != ' ' && forall k :: i <= k <= i + j ==> s[k] == ' '
    ensures Token(s, i + j) == if j % 2 == 0 then " " else "&nbsp;"
    ensures IsRawSpace(s, i + j) <==> j % 2 == 0
  {
    hide Token;
    TokenCases(s, i + j);
    if j > 0 {
      SpacesAlternate(s, i, j - 1);
    }
  }

  /** Nothing is left that has a meaning in markup but what is written for it. */
  ghost predicate NoMarkup(e: string) {
    && '"' !in e && '\n' !in e
    && forall k :: 0 <= k < |e| && e[k] == '>' ==> k >= 4 && e[k - 4..k + 1] == "<br/>"
  }

  lemma NoMarkupInConcat(a: string, b: string)
    requires NoMarkup(a) && NoMarkup(b)
    ensures NoMarkup(a + b)
  {
    var e := a + b;
    forall k | 0 <= k < |e| && e[k] == '>' ensures k >= 4 && e[k - 4..k + 1] == "<br/>" {
      if k < |a| {
        assert e[k - 4..k + 1] == a[k - 4..k + 1];
      } else {
        assert e[k - 4..k + 1] == b[k - |a| - 4..k - |a| + 1];
      }
    }
  }

  lemma PlainHasNoMarkup(t: string)
    requires forall k :: 0 <= k < |t| ==> t[k] != '"' && t[k] != '\n' && t[k] != '>'
    ensures NoMarkup(t)
  {
  }

  lemma LineBreakHasNoMarkup()
    ensures NoMarkup("<br/>")
  {
    assert "<br/>"[0..5] == "<br/>";
  }

  lemma TokenHasNoMarkup(s: string, i: nat)
    requires i < |s|
    ensures NoMarkup(Token(s, i))
  {
    hide Token, IsRawSpace, NoMarkup;
    TokenCases(s, i);
    if s[i] == '\n' {
      LineBreakHasNoMarkup();
    } else {
      PlainHasNoMarkup(Token(s, i));
    }
  }

  lemma {:induction false} EscapedHasNoMarkup(s: string, i: nat)
    requires i <= |s|
    ensures NoMarkup(EscapedFrom(s, i))
    decreases |s| - i
  {
    hide Token, NoMarkup;
    if i < |s| {
      TokenHasNoMarkup(s, i);
      EscapedHasNoMarkup(s, i + 1);
      NoMarkupInConcat(Token(s, i), EscapedFrom(s, i + 1));
    } else {
      NoMarkupInNothing();
    }
  }

  lemma NoMarkupInNothing()
    ensures NoMarkup("")
  {
  }

  // Documents

  const ENCODING: string := "UTF-8"

  function EnmlHeader(encoding: string): string {
    "<?xml version=\"1.0\" encoding=\"" + encoding + "\"?>"
    + "<!DOCTYPE en-note SYSTEM " + "\"http://xml.evernote.com/" + "pub/enml2.dtd\">" + "<en-note>"
  }

  const ENML_FOOTER: string := "</en-note>"

  datatype Attachment = Attachment(hash: string, mimeType: string, trailingText: string)

  function Media(a: Attachment): string {
    "<en-media hash=\"" + a.hash + "\" type=\"" + a.mimeType + "\"/>" + Escaped(a.trailingText)
  }

  function AllMedia(attachments: seq<Attachment>): string {
    if attachments == [] then "" else AllMedia(attachments[..|attachments| - 1]) + Media(attachments[|attachments| - 1])
  }

  function Document(text: string, attachments: seq<Attachment>): string {
    EnmlHeader(ENCODING) + Escaped(text) + AllMedia(attachments) + ENML_FOOTER
  }

  /** The text of a document this program writes, without its attachments. */
  function PlainText(document: string): string {
    if EnmlHeader(ENCODING) <= document then Decoded(document[|EnmlHeader(ENCODING)|..]) else ""
  }

  method ConstructEnml(plainText: string, attachments: seq<Attachment>, start: nat) returns (enml: string)
    requires start <= |plainText|
    ensures enml == Document(plainText[start..], attachments)
  {
    hide EnmlHeader, EscapedFrom;
    enml := EnmlHeader(ENCODING);
    var body := EscapedUtf8Html(plainText[start..]);
    enml := enml + body;
    for i := 0 to |attachments|
      invariant enml == EnmlHeader(ENCODING) + body + AllMedia(attachments[..i])
    {
      hide Escaped;
      var a := attachments[i];
      var enMedia := "<en-media hash=\"" + a.hash + "\" type=\"" + a.mimeType + "\"/>";
      var afterEnMedia := EscapedUtf8Html(a.trailingText);
      ghost var all := AllMedia(attachments[..i]);
      assert attachments[..i + 1][..i] == attachments[..i];
      assert EnmlHeader(ENCODING) + body + all + enMedia + afterEnMedia
          == EnmlHeader(ENCODING) + body + (all + (enMedia + afterEnMedia));
      enml := enml + enMedia;
      enml := enml + afterEnMedia;
    }
    assert attachments[..|attachments|] == attachments;
    enml := enml + ENML_FOOTER;
  }

  lemma {:induction false} MediaStartWithTag(attachments: seq<Attachment>)
    ensures var e := AllMedia(attachments) + ENML_FOOTER; e[0] == '<' && !("<br/>" <= e)
  {
    if attachments != [] {
      var front := AllMedia(attachments[..|attachments| - 1]);
      MediaStartWithTag(attachments[..|attachments| - 1]);
      var e := AllMedia(attachments) + ENML_FOOTER;
      if front == "" {
        assert e[1] == 'e';
      } else {
        assert e[0] == front[0];
        MediaSecondChar(attachments[..|attachments| - 1]);
        assert e[1] == front[1];
      }
    } else {
      assert (AllMedia(attachments) + ENML_FOOTER)[1] == '/';
    }
  }

  lemma {:induction false} MediaSecondChar(attachments: seq<Attachment>)
    ensures AllMedia(attachments) != "" ==> |AllMedia(attachments)| > 1 && AllMedia(attachments)[1] == 'e'
  {
    if attachments != [] {
      MediaSecondChar(attachments[..|attachments| - 1]);
    }
  }

  lemma StopsAtTag(e: string)
    requires e != "" && e[0] == '<' && !("<br/>" <= e)
    ensures Decoded(e) == ""
  {
    assert !("&lt;" <= e) && !("&gt;" <= e) && !("&amp;" <= e) && !("&quot;" <= e) && !("&nbsp;" <= e);
  }

  /** The decoder finds the text of a written document, whatever attachments follow it. It reads up to the first of them
      and so, unlike the program's own reader, is not put off by text behind one. */
  lemma DocumentRoundTrip(text: string, attachments: seq<Attachment>)
    ensures PlainText(Document(text, attachments)) == WithoutNbsp(text)
  {
    hide EnmlHeader, EscapedFrom, AllMedia, Decoded;
    var rest := AllMedia(attachments) + ENML_FOOTER;
    MediaStartWithTag(attachments);
    StopsAtTag(rest);
    DecodedFrom(text, 0, rest);
    assert Document(text, attachments) == EnmlHeader(ENCODING) + (Escaped(text) + rest);
    assert WithoutNbsp(text)[0..] + "" == WithoutNbsp(text);
  }

  /** The position of the first occurrence of `sub` in `s` from `k` on, or -1. */
  function IndexFrom(s: string, sub: string, k: nat): (r: int)
    ensures r == -1 || (k <= r <= |s| - |sub| && sub <= s[r..])
    ensures forall j :: k <= j <= |s| - |sub| && sub <= s[j..] ==> r != -1 && r <= j
    decreases |s| - k
  {
    if k + |sub| > |s| then -1
    else if sub <= s[k..] then k
    else IndexFrom(s, sub, k + 1)
  }

  function IndexOf(s: string, sub: string): int {
    IndexFrom(s, sub, 0)
  }

  /** Splitting the text of the editor into a title and a document. */
  method EnmlFromPlainText(
    titleAndContent: string, attachments: seq<Attachment>) returns (title: string, enmlContent: string)
    ensures '\n' !in titleAndContent ==> title == titleAndContent && enmlContent == EnmlHeader(ENCODING) + ENML_FOOTER
    ensures '\n' in titleAndContent ==>
              && '\n' !in title && title + "\n" <= titleAndContent
              && enmlContent == Document(titleAndContent[|title| + 1..], attachments)
              && WithoutNbsp(titleAndContent) == WithoutNbsp(title) + "\n" + PlainText(enmlContent)
  {
    hide Document, PlainText, Escaped;
    FirstNewline(titleAndContent);
    var firstNL := IndexOf(titleAndContent, "\n");
    if firstNL < 0 {
      title := titleAndContent;
      enmlContent := EnmlHeader(ENCODING) + ENML_FOOTER;
      return;
    }
    title := titleAndContent[..firstNL];
    enmlContent := ConstructEnml(titleAndContent, attachments, firstNL + 1);
    DocumentRoundTrip(titleAndContent[firstNL + 1..], attachments);
  }

  lemma FirstNewline(s: string)
    ensures var k := IndexOf(s, "\n");
            if k < 0 then '\n' !in s else '\n' !in s[..k] && s[k] == '\n'
  {
    forall i | 0 <= i < |s| && s[i] == '\n' ensures "\n" <= s[i..] {
    }
    var k := IndexOf(s, "\n");
    if k >= 0 {
      assert s[k..][0] == "\n"[0];
    }
  }

  // Merging two versions

  datatype Parse = Unreadable | Readable(isPlainText: bool, text: string)

  predicate IsBlank(s: string) {
    forall i :: 0 <= i < |s| ==> s[i] == ' ' || s[i] == '\n'
  }

  predicate IsAttributeText(s: string) {
    forall i :: 0 <= i < |s| ==> s[i] != '"' && s[i] != '<' && s[i] != '&'
  }

  /** Attachments after which a document still counts as plain text: the reader gives up on any text that follows
      one. */
  predicate LeavePlainText(attachments: seq<Attachment>) {
    forall i :: 0 <= i < |attachments| ==>
      var a := attachments[i];
      IsBlank(a.trailingText) && IsAttributeText(a.hash) && IsAttributeText(a.mimeType)
  }

  /** The XML reader and the characters it can carry, the rich-text part of the merge and the printed date, which are
      not part of this model. */
  datatype Library = Library(
    parse: string -> Parse,
    isXmlChar: char -> bool,
    core: (string, seq<Attachment>) -> string,
    date: int -> string)
  {
    predicate Carries(s: string) {
      forall i :: 0 <= i < |s| ==> isXmlChar(s[i])
    }

    /** The reader carries printed dates and what it has read itself. It takes a document this program writes for plain
        text and finds its text, if it carries the text and none follows an attachment. */
    ghost predicate Valid() {
      && (forall c: char :: c == '\n' || ' ' <= c <= '~' ==> isXmlChar(c))
      && (forall seconds: int :: Carries(date(seconds)))
      && (forall document: string :: parse(document).Readable? ==> Carries(parse(document).text))
      && (forall text, attachments :: Carries(text) && LeavePlainText(attachments) ==> ReadsBack(text, attachments))
    }

    ghost predicate ReadsBack(text: string, attachments: seq<Attachment>) {
      parse(Document(text, attachments)) == Readable(true, PlainText(Document(text, attachments)))
    }

    predicate IsPlain(document: string) {
      parse(document).Readable? && parse(document).isPlainText
    }

    /** The text found in a document, or nothing when it cannot be read. */
    function Text(document: string): string {
      var p := parse(document);
      if p.Readable? then p.text else ""
    }
  }

  /** A reader of nothing but the documents this program writes. */
  function WrittenDocuments(): Library {
    Library(
      document => if EnmlHeader(ENCODING) <= document then Readable(true, PlainText(document)) else Unreadable,
      c => true,
      (document, attachments) => "",
      seconds => "")
  }

  lemma WrittenDocumentsAreRead()
    ensures WrittenDocuments().Valid()
  {
    hide EnmlHeader, PlainText, LeavePlainText, Escaped, AllMedia;
    var lib := WrittenDocuments();
    forall text: string, attachments: seq<Attachment> ensures lib.ReadsBack(text, attachments) {
      assert Document(text, attachments)
             == EnmlHeader(ENCODING) + (Escaped(text) + AllMedia(attachments) + ENML_FOOTER);
    }
  }

  function JoiningText(lib: Library, oldTimestampUtc: int): string {
    if oldTimestampUtc > 0 then "\n\n\nConflicts with note edited on " + lib.date(oldTimestampUtc / 1000) + ":\n\n"
    else "\n\n\nConflicts with note edited elsewhere:\n\n"
  }

  function DivLines(s: string): string {
    if s == "" then "" else (if s[0] == '\n' then "</div><div>" else [s[0]]) + DivLines(s[1..])
  }

  /** The merged document and whether both versions could be read. */
  function ResolveConflict(
    lib: Library, newEnml: string, oldEnml: string, oldTimestampUtc: int, attachments: seq<Attachment>): (string, bool)
  {
    match (lib.parse(newEnml), lib.parse(oldEnml))
    case (Unreadable, Readable(_, _)) => (oldEnml, false)
    case (Readable(_, _), Unreadable) => (newEnml, false)
    case (Unreadable, Unreadable) => ("", false)
    case (Readable(newPlain, newText), Readable(oldPlain, oldText)) =>
      var joiningText := JoiningText(lib, oldTimestampUtc);
      if newPlain && oldPlain then
        if |newText| > |oldText| && IndexOf(newText, oldText) > 0 then (newEnml, true)
        else if |oldText| > |newText| && IndexOf(oldText, newText) > 0 then (oldEnml, true)
        else (Document(newText + joiningText + oldText, attachments), true)
      else
        var divs := "<div>" + DivLines(joiningText) + "</div>";
        (EnmlHeader(ENCODING) + lib.core(newEnml, attachments) + divs + lib.core(oldEnml, attachments) + ENML_FOOTER,
            true)
  }

  /** `sub` is a contiguous part of `s`. */
  ghost predicate Contains(s: string, sub: string) {
    exists k :: 0 <= k <= |s| - |sub| && sub <= s[k..]
  }

  lemma ContainsParts(a: string, b: string, c: string)
    ensures Contains(a + b + c, a) && Contains(a + b + c, c)
  {
    var s := a + b + c;
    assert s[0..] == a + (b + c) && a <= s[0..];
    assert s[|a + b|..] == c && c <= s[|a + b|..];
  }

  lemma WithoutNbspConcat(a: string, b: string)
    ensures WithoutNbsp(a + b) == WithoutNbsp(a) + WithoutNbsp(b)
  {
  }

  lemma CarriesConcat(lib: Library, a: string, b: string)
    requires lib.Carries(a) && lib.Carries(b)
    ensures lib.Carries(a + b)
  {
  }

  lemma CarriesJoiningText(lib: Library, oldTimestampUtc: int)
    requires lib.Valid()
    ensures lib.Carries(JoiningText(lib, oldTimestampUtc))
  {
    var date := lib.date(oldTimestampUtc / 1000);
    assert lib.Carries(date);
    CarriesHeadings(lib);
    CarriesConcat(lib, "\n\n\nConflicts with note edited on ", date);
    CarriesConcat(lib, "\n\n\nConflicts with note edited on " + date, ":\n\n");
  }

  lemma CarriesHeadings(lib: Library)
    requires forall c: char :: c == '\n' || ' ' <= c <= '~' ==> lib.isXmlChar(c)
    ensures lib.Carries("\n\n\nConflicts with note edited on ") && lib.Carries(":\n\n")
    ensures lib.Carries("\n\n\nConflicts with note edited elsewhere:\n\n")
  {
  }

  /** The merge of two plain-text versions holds both texts, no-break spaces read as spaces. */
  lemma MergeKeepsBothTexts(
    lib: Library, newEnml: string, oldEnml: string, oldTimestampUtc: int, attachments: seq<Attachment>)
    requires lib.Valid() && LeavePlainText(attachments)
    requires lib.IsPlain(newEnml) && lib.IsPlain(oldEnml)
    ensures var (merged, ok) := ResolveConflict(lib, newEnml, oldEnml, oldTimestampUtc, attachments);
            && ok
            && Contains(WithoutNbsp(lib.Text(merged)), WithoutNbsp(lib.Text(newEnml)))
            && Contains(WithoutNbsp(lib.Text(merged)), WithoutNbsp(lib.Text(oldEnml)))
  {
    hide Document, PlainText, IsRawSpace, JoiningText, LeavePlainText, IndexOf;
    var newText, oldText := lib.Text(newEnml), lib.Text(oldEnml);
    if |newText| > |oldText| && IndexOf(newText, oldText) > 0 {
      FoundAt(newText, oldText);
      ContainsAfterNbsp(newText, oldText, IndexOf(newText, oldText));
      ContainsAfterNbsp(newText, newText, 0);
    } else if |oldText| > |newText| && IndexOf(oldText, newText) > 0 {
      FoundAt(oldText, newText);
      ContainsAfterNbsp(oldText, newText, IndexOf(oldText, newText));
      ContainsAfterNbsp(oldText, oldText, 0);
    } else {
      JoinedTextIsRead(lib, newText, JoiningText(lib, oldTimestampUtc), oldText, attachments) by {
        CarriesJoiningText(lib, oldTimestampUtc);
      }
    }
  }

  lemma FoundAt(s: string, sub: string)
    ensures var k := IndexOf(s, sub); k >= 0 ==> k + |sub| <= |s| && sub <= s[k..]
  {
  }

  lemma JoinedTextIsRead(lib: Library, a: string, joining: string, b: string, attachments: seq<Attachment>)
    requires lib.Valid() && LeavePlainText(attachments) && lib.Carries(a) && lib.Carries(joining) && lib.Carries(b)
    ensures var text := lib.Text(Document(a + joining + b, attachments));
            Contains(WithoutNbsp(text), WithoutNbsp(a)) && Contains(WithoutNbsp(text), WithoutNbsp(b))
  {
    hide Document, PlainText, IsRawSpace, LeavePlainText;
    var all := a + joining + b;
    CarriesConcat(lib, a, joining);
    CarriesConcat(lib, a + joining, b);
    assert lib.ReadsBack(all, attachments);
    DocumentRoundTrip(all, attachments);
    WithoutNbspConcat(a + joining, b);
    WithoutNbspConcat(a, joining);
    assert WithoutNbsp(WithoutNbsp(all)) == WithoutNbsp(all);
    ContainsParts(WithoutNbsp(a), WithoutNbsp(joining), WithoutNbsp(b));
  }

  /** The merge of two plain-text versions is plain text again. */
  lemma MergeIsPlain(
    lib: Library, newEnml: string, oldEnml: string, oldTimestampUtc: int, attachments: seq<Attachment>)
    requires lib.Valid() && LeavePlainText(attachments)
    requires lib.IsPlain(newEnml) && lib.IsPlain(oldEnml)
    ensures lib.IsPlain(ResolveConflict(lib, newEnml, oldEnml, oldTimestampUtc, attachments).0)
  {
    hide Document, PlainText, IsRawSpace, JoiningText, LeavePlainText, IndexOf;
    var newText, joining, oldText := lib.Text(newEnml), JoiningText(lib, oldTimestampUtc), lib.Text(oldEnml);
    CarriesJoiningText(lib, oldTimestampUtc);
    CarriesConcat(lib, newText, joining);
    CarriesConcat(lib, newText + joining, oldText);
    assert lib.ReadsBack(newText + joining + oldText, attachments);
  }

  lemma ContainsTransitively(a: string, b: string, c: string)
    requires Contains(a, b) && Contains(b, c)
    ensures Contains(a, c)
  {
    var i :| 0 <= i <= |a| - |b| && b <= a[i..];
    var j :| 0 <= j <= |b| - |c| && c <= b[j..];
    assert a[i..][j..] == a[i + j..] && b[j..] <= a[i..][j..];
    assert c <= a[i + j..];
  }

  /** The merge of versions that can be read, not both as plain text, holds the markup of both. */
  lemma RichMergeKeepsBoth(
    lib: Library, newEnml: string, oldEnml: string, oldTimestampUtc: int, attachments: seq<Attachment>)
    requires lib.parse(newEnml).Readable? && lib.parse(oldEnml).Readable?
    requires !(lib.IsPlain(newEnml) && lib.IsPlain(oldEnml))
    ensures var (merged, ok) := ResolveConflict(lib, newEnml, oldEnml, oldTimestampUtc, attachments);
            ok && Contains(merged, lib.core(newEnml, attachments)) && Contains(merged, lib.core(oldEnml, attachments))
  {
    hide EnmlHeader, DivLines, JoiningText, IndexOf, Document, Contains;
    var header, divs := EnmlHeader(ENCODING), "<div>" + DivLines(JoiningText(lib, oldTimestampUtc)) + "</div>";
    var newCore, oldCore := lib.core(newEnml, attachments), lib.core(oldEnml, attachments);
    ContainsMiddle(header, newCore, divs + oldCore + ENML_FOOTER);
    ContainsMiddle(header + newCore + divs, oldCore, ENML_FOOTER);
    assert header + newCore + (divs + oldCore + ENML_FOOTER) == header + newCore + divs + oldCore + ENML_FOOTER;
  }

  lemma ContainsMiddle(a: string, b: string, c: string)
    ensures Contains(a + b + c, b)
  {
    var s := a + b + c;
    assert s[|a|..] == b + c && b <= s[|a|..];
  }

  lemma ContainsAfterNbsp(s: string, sub: string, k: nat)
    requires k + |sub| <= |s| && sub <= s[k..]
    ensures Contains(WithoutNbsp(s), WithoutNbsp(sub))
  {
    assert WithoutNbsp(sub) <= WithoutNbsp(s)[k..] by {
      forall i | 0 <= i < |sub| ensures WithoutNbsp(sub)[i] == WithoutNbsp(s)[k..][i] {
        assert s[k..][i] == sub[i];
      }
    }
  }
}
