/** What each kind of search term looks for, and which notes a query of one term reports. */
module SearchTerms {
  import opened Search

  function Folded(cc: CharClasses, w: string): (f: string)
    ensures |f| == |w| && forall i :: 0 <= i < |w| ==> f[i] == cc.fold(w[i])
  {
    seq(|w|, i requires 0 <= i < |w| => cc.fold(w[i]))
  }

  function AllFolded(cc: CharClasses, ws: seq<string>): (fs: seq<string>)
    ensures |fs| == |ws| && forall i :: 0 <= i < |ws| ==> fs[i] == Folded(cc, ws[i])
  {
    seq(|ws|, i requires 0 <= i < |ws| => Folded(cc, ws[i]))
  }

  lemma WordMatchIff(cc: CharClasses, termWord: string, noteWord: string, prefix: bool)
    ensures IsWordMatch(cc, termWord, noteWord, prefix) <==>
            if prefix then Folded(cc, termWord) <= Folded(cc, noteWord)
            else Folded(cc, termWord) == Folded(cc, noteWord)
  {
    var f, g := Folded(cc, termWord), Folded(cc, noteWord);
    if IsWordMatch(cc, termWord, noteWord, prefix) {
      assert f == g[..|f|];
    }
  }

  /** The words, but for case, are those of the text; the last one need only begin so if the text ends in a star. */
  predicate AreWordsOf(cc: CharClasses, words: seq<string>, text: string) {
    var term := AllFolded(cc, Words(cc, text));
    var found := AllFolded(cc, words);
    && term != [] && |found| == |term|
    && var last := |term| - 1;
       && found[..last] == term[..last]
       && if text[|text| - 1..] == "*" then term[last] <= found[last] else term[last] == found[last]
  }

  /** The text has words, and they are found together in the note. */
  ghost predicate Occurs(cc: CharClasses, text: string, note: seq<string>) {
    exists before, words, after :: note == before + words + after && AreWordsOf(cc, words, text)
  }

  predicate EndsInStar(text: string) {
    text != "" && text[|text| - 1] == '*'
  }

  lemma AreWordsIff(cc: CharClasses, words: seq<string>, text: string)
    ensures AreWordsOf(cc, words, text) <==>
            var term := Words(cc, text);
            term != [] && |words| == |term| && OccursAt(cc, term, words, 0, EndsInStar(text))
  {
    hide IsWordMatch, Words;
    var term := Words(cc, text);
    if term != [] && |words| == |term| {
      var last, star := |term| - 1, EndsInStar(text);
      assert text != "" by {
        NoWords(cc);
      }
      assert text[|text| - 1..] == [text[|text| - 1]];
      var f, g := AllFolded(cc, term), AllFolded(cc, words);
      forall i | 0 <= i < |term|
        ensures IsWordMatch(cc, term[i], words[i], star && i == last) <==>
                if star && i == last then f[i] <= g[i] else f[i] == g[i]
      {
        WordMatchIff(cc, term[i], words[i], star && i == last);
      }
      assert f[..last] == g[..last] <==> forall i :: 0 <= i < last ==> f[i] == g[i];
    }
  }

  lemma NoWords(cc: CharClasses)
    ensures Words(cc, "") == []
  {
  }

  lemma PartOccursAt(cc: CharClasses, term: seq<string>, note: seq<string>, k: nat, prefix: bool)
    requires k + |term| <= |note|
    ensures OccursAt(cc, term, note, k, prefix) <==> OccursAt(cc, term, note[k..k + |term|], 0, prefix)
  {
    hide IsWordMatch;
    var part := note[k..k + |term|];
    assert forall i :: 0 <= i < |term| ==> part[i] == note[k + i];
  }

  /** A text matches a list of words exactly when its words, but for case, are found there together. */
  lemma TextMatchesIff(cc: CharClasses, text: string, note: seq<string>)
    ensures TextMatches(cc, text, note) <==> Occurs(cc, text, note)
  {
    hide OccursAt, AreWordsOf, Words;
    var term, star := Words(cc, text), EndsInStar(text);
    if TextMatches(cc, text, note) {
      var k: nat :| OccursAt(cc, term, note, k, star);
      FitsIn(cc, term, note, k, star);
      PartOccursAt(cc, term, note, k, star);
      AreWordsIff(cc, note[k..k + |term|], text);
      assert note == note[..k] + note[k..k + |term|] + note[k + |term|..];
    }
    if Occurs(cc, text, note) {
      var before, words, after :| note == before + words + after && AreWordsOf(cc, words, text);
      AreWordsIff(cc, words, text);
      assert note[|before|..|before| + |term|] == words;
      PartOccursAt(cc, term, note, |before|, star);
    }
  }

  lemma FitsIn(cc: CharClasses, term: seq<string>, note: seq<string>, k: nat, prefix: bool)
    requires OccursAt(cc, term, note, k, prefix)
    ensures k + |term| <= |note|
  {
  }

  // The kinds of terms

  /** Different letters do not become the same by folding. */
  ghost predicate FoldsLetters(cc: CharClasses) {
    forall c: char, d: char :: 'a' <= c <= 'z' && 'a' <= d <= 'z' && cc.fold(c) == cc.fold(d) ==> c == d
  }

  /** Folding of upper-case letters, with letters and digits in words. */
  function Ascii(): CharClasses {
    var isWordChar := (c: char) => 'a' <= c <= 'z' || 'A' <= c <= 'Z' || '0' <= c <= '9';
    CharClasses(isWordChar, c => !isWordChar(c), c => if 'A' <= c <= 'Z' then c - 'A' + 'a' else c, s => s)
  }

  lemma AsciiFoldsLetters()
    ensures FoldsLetters(Ascii()) && HasPlainSeparators(Ascii())
    ensures EqualsIgnoringCase(Ascii(), "Tag", "tag")
  {
  }

  predicate Is(cc: CharClasses, t: SearchTerm, qualifier: string) {
    EqualsIgnoringCase(cc, t.qualifier, qualifier)
  }

  predicate IsKnown(cc: CharClasses, t: SearchTerm) {
    t.qualifier == "" || Is(cc, t, "tag") || Is(cc, t, "intitle") || Is(cc, t, "notebook") || Is(cc, t, "any")
  }

  /** What is found in the title and, when it is on the device, in the content. */
  function TitleAndContent(cc: CharClasses, n: NoteText): seq<string> {
    if n.contentAvailable then Words(cc, n.title) + n.contentWords else Words(cc, n.title)
  }

  /** The qualifiers are different. */
  lemma QualifiersDiffer(cc: CharClasses, t: SearchTerm)
    requires FoldsLetters(cc)
    ensures Is(cc, t, "tag") ==>
              !Is(cc, t, "any") && !Is(cc, t, "notebook") && !Is(cc, t, "intitle") && t.qualifier != ""
    ensures Is(cc, t, "intitle") ==> !Is(cc, t, "any") && !Is(cc, t, "notebook") && t.qualifier != ""
    ensures Is(cc, t, "notebook") ==> !Is(cc, t, "any") && t.qualifier != ""
    ensures Is(cc, t, "any") ==> t.qualifier != ""
  {
    assert "tag"[0] == 't' && "any"[0] == 'a';
  }

  /** Each kind of term reads its own part of the note: tag terms the names of the tags, one by one; intitle terms the
      title; terms without a qualifier the title and the content that is there. No other term finds anything, but for
      notebook terms, which are dealt with before. */
  lemma TermFindsIff(cc: CharClasses, t: SearchTerm, n: NoteText)
    requires FoldsLetters(cc)
    ensures Is(cc, t, "tag") ==>
              (TermMatches(cc, t, n) <==> exists tag :: tag in n.tagNames && Occurs(cc, t.text, Words(cc, tag)))
    ensures Is(cc, t, "intitle") ==> (TermMatches(cc, t, n) <==> Occurs(cc, t.text, Words(cc, n.title)))
    ensures t.qualifier == "" ==> (TermMatches(cc, t, n) <==> Occurs(cc, t.text, TitleAndContent(cc, n)))
    ensures Is(cc, t, "notebook") ==> TermMatches(cc, t, n)
    ensures Is(cc, t, "any") || !IsKnown(cc, t) ==> !TermMatches(cc, t, n)
  {
    hide TextMatches, Occurs, Words, EqualsIgnoringCase;
    QualifiersDiffer(cc, t);
    forall ws: seq<string> ensures TextMatches(cc, t.text, ws) <==> Occurs(cc, t.text, ws) {
      TextMatchesIff(cc, t.text, ws);
    }
    EmptyQualifier(cc, t);
    assert Words(cc, n.title) + [] == Words(cc, n.title);
  }

  lemma EmptyQualifier(cc: CharClasses, t: SearchTerm)
    ensures t.qualifier == "" ==>
              !Is(cc, t, "tag") && !Is(cc, t, "intitle") && !Is(cc, t, "notebook") && !Is(cc, t, "any")
  {
  }

  // Queries of one term

  /** What a query of one term asks of a note, the negation left aside. */
  ghost predicate Finds(cc: CharClasses, t: SearchTerm, n: NoteText) {
    if t.qualifier == "" then Occurs(cc, t.text, TitleAndContent(cc, n))
    else if Is(cc, t, "tag") then exists tag :: tag in n.tagNames && Occurs(cc, t.text, Words(cc, tag))
    else Is(cc, t, "intitle") && Occurs(cc, t.text, Words(cc, n.title))
  }

  lemma OneTermHits(cc: CharClasses, t: SearchTerm, n: NoteText)
    requires FoldsLetters(cc) && !Is(cc, t, "notebook")
    ensures QueryMatches(cc, [t], n) <==> Finds(cc, t, n) != t.isNegated
  {
    hide Occurs, TermMatches;
    TermFindsIff(cc, t, n);
    QualifiersDiffer(cc, t);
    assert [t][1..] == [];
    assert Agrees(cc, [t][0], n) == (TermMatches(cc, t, n) != t.isNegated);
  }

  /** The query of one term that names no notebook, typed as it is printed, reports exactly the listed notes that have
      what the term looks for or, if it is negated, those that do not. */
  lemma OneTermQueryReports(cc: CharClasses, t: SearchTerm, notes: Notes, id: string)
    requires HasPlainSeparators(cc) && FoldsLetters(cc) && IsPrintable(cc, t) && !Is(cc, t, "notebook")
    ensures var ts := Parsed(cc, Printed(t));
            id in Hits(cc, ts, notes, SearchedIds(cc, ts, notes)) <==>
            && id in notes.allNoteIds && id != "" && Finds(cc, t, notes.text(id)) != t.isNegated
  {
    hide Parsed, Printed, IsPrintable, Finds, QueryMatches, SearchedIds, EqualsIgnoringCase;
    QueryRoundTrip(cc, [t]);
    SearchReports(cc, [t], notes, id);
    NoNotebookTerm(cc, t);
    OneTermHits(cc, t, notes.text(id));
  }

  lemma NoNotebookTerm(cc: CharClasses, t: SearchTerm)
    ensures NotebookTerms(cc, [t]) == if Is(cc, t, "notebook") then [t] else []
  {
    hide EqualsIgnoringCase;
    assert [t][..0] == [];
    assert NotebookTerms(cc, []) == [];
  }

  // Queries of any number of terms

  lemma AgreesIff(cc: CharClasses, t: SearchTerm, n: NoteText)
    requires FoldsLetters(cc) && !Is(cc, t, "notebook")
    ensures Agrees(cc, t, n) <==> Finds(cc, t, n) != t.isNegated
  {
    hide Occurs, TermMatches;
    TermFindsIff(cc, t, n);
    QualifiersDiffer(cc, t);
  }

  lemma {:induction false} NoNotebookTerms(cc: CharClasses, ts: seq<SearchTerm>)
    requires forall t :: t in ts ==> !Is(cc, t, "notebook")
    ensures NotebookTerms(cc, ts) == []
  {
    hide EqualsIgnoringCase;
    if ts != [] {
      NoNotebookTerms(cc, ts[..|ts| - 1]);
      assert ts[|ts| - 1] in ts;
    }
  }

  /** A query that names no notebook and whose first `any:` term, if there is one, is at `k`: if that is the first term,
      the listed notes are reported that agree with some term; otherwise those that agree with all terms before it. */
  lemma QueryReports(cc: CharClasses, ts: seq<SearchTerm>, k: nat, notes: Notes, id: string)
    requires HasPlainSeparators(cc) && FoldsLetters(cc)
    requires forall t :: t in ts ==> IsPrintable(cc, t) && !Is(cc, t, "notebook")
    requires k <= |ts| && (k < |ts| ==> Is(cc, ts[k], "any")) && forall i :: 0 <= i < k ==> !Is(cc, ts[i], "any")
    ensures var parsed, n := Parsed(cc, PrintedQuery(ts)), notes.text(id);
            id in Hits(cc, parsed, notes, SearchedIds(cc, parsed, notes)) <==>
            && id in notes.allNoteIds && id != ""
            && if ts != [] && k == 0 then exists t :: t in ts && Finds(cc, t, n) != t.isNegated
               else forall t :: t in ts[..k] ==> Finds(cc, t, n) != t.isNegated
  {
    hide Parsed, PrintedQuery, IsPrintable, Finds, Agrees, SearchedIds, EqualsIgnoringCase;
    var n := notes.text(id);
    QueryRoundTrip(cc, ts);
    NoNotebookTerms(cc, ts);
    SearchReports(cc, ts, notes, id);
    forall t | t in ts ensures Agrees(cc, t, n) <==> Finds(cc, t, n) != t.isNegated {
      AgreesIff(cc, t, n);
    }
    assert FirstAny(cc, ts) == k;
    assert forall i :: 0 <= i < k ==> ts[i] in ts[..k];
  }

  // The number of notes not searched

  ghost function UnsearchedIn(cc: CharClasses, ts: seq<SearchTerm>, notes: Notes, ids: seq<string>): set<string> {
    set id | id in ids && IsUnsearched(cc, ts, notes, id)
  }

  /** Each listed note is counted once, if its content is not on the device and the rest of it does not match. */
  lemma {:induction false} UnsearchedCountIs(cc: CharClasses, ts: seq<SearchTerm>, notes: Notes, ids: seq<string>)
    requires forall i, j :: 0 <= i < j < |ids| ==> ids[i] != ids[j]
    ensures UnsearchedCount(cc, ts, notes, ids) == |UnsearchedIn(cc, ts, notes, ids)|
  {
    hide IsUnsearched, UnsearchedIn;
    if ids == [] {
      NoneUnsearched(cc, ts, notes);
    } else {
      var front, last := ids[..|ids| - 1], ids[|ids| - 1];
      UnsearchedCountIs(cc, ts, notes, front);
      assert ids == front + [last];
      OneMoreUnsearched(cc, ts, notes, front, last);
    }
  }

  lemma NoneUnsearched(cc: CharClasses, ts: seq<SearchTerm>, notes: Notes)
    ensures UnsearchedIn(cc, ts, notes, []) == {}
  {
  }

  lemma OneMoreUnsearched(cc: CharClasses, ts: seq<SearchTerm>, notes: Notes, front: seq<string>, last: string)
    requires last !in front
    ensures |UnsearchedIn(cc, ts, notes, front + [last])|
            == |UnsearchedIn(cc, ts, notes, front)| + if IsUnsearched(cc, ts, notes, last) then 1 else 0
  {
    hide IsUnsearched;
    var before := UnsearchedIn(cc, ts, notes, front);
    assert UnsearchedIn(cc, ts, notes, front + [last])
        == if IsUnsearched(cc, ts, notes, last) then before + {last} else before;
  }
}
