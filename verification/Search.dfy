/** Local search: the query language, the word matcher and the evaluation of a query on the notes. */
module Search {

  /** The character tests, the case folding and the trimming of white space of the program's string library. */
  datatype CharClasses = CharClasses(
    isLetterOrNumber: char -> bool,
    isSeparatorChar: char -> bool,
    fold: char -> char,
    simplified: string -> string)

  datatype SearchTerm = SearchTerm(qualifier: string, text: string, isNegated: bool)

  // Parsing a query

  datatype Scan = Scan(terms: seq<SearchTerm>, qualifier: string, word: string, isWithinQuotes: bool,
      isNegatedTerm: bool)

  const START := Scan([], "", "", false, false)

  predicate IsWordChar(cc: CharClasses, c: char) {
    cc.isLetterOrNumber(c) || c == '_' || c == '-' || c == '*'
  }

  /** The term read so far becomes a term of the query, unless it has neither a qualifier nor a text. */
  function Flushed(st: Scan): Scan {
    if st.qualifier == "" && st.word == "" then st
    else Scan(st.terms + [SearchTerm(st.qualifier, st.word, st.isNegatedTerm)], "", "", st.isWithinQuotes, false)
  }

  function Step(cc: CharClasses, st: Scan, previous: char, c: char): Scan {
    if c == '"' then
      if previous == '\\' then st else st.(isWithinQuotes := !st.isWithinQuotes)
    else if !st.isWithinQuotes && c == '-' && st.qualifier == "" && st.word == "" then st.(isNegatedTerm := true)
    else if !st.isWithinQuotes && c == ':' then st.(qualifier := st.word, word := "")
    else if !st.isWithinQuotes && !IsWordChar(cc, c) then Flushed(st)
    else st.(word := st.word + [c])
  }

  /** The scanner run over `s`, whose first character follows `previous`. */
  function Scanned(cc: CharClasses, st: Scan, previous: char, s: string): Scan
    decreases |s|
  {
    if s == "" then st else Scanned(cc, Step(cc, st, previous, s[0]), s[0], s[1..])
  }

  function Parsed(cc: CharClasses, s: string): seq<SearchTerm> {
    Flushed(Scanned(cc, START, ' ', s)).terms
  }

  method ParseQuery(cc: CharClasses, queryString: string) returns (terms: seq<SearchTerm>)
    ensures terms == Parsed(cc, queryString)
  {
    terms := [];
    var qualifier, text, currentWord := "", "", "";
    var isWithinQuotes, isNegatedTerm := false, false;
    for i := 0 to |queryString|
      invariant Scanned(cc, Scan(terms, qualifier, currentWord, isWithinQuotes, isNegatedTerm),
                        if i == 0 then ' ' else queryString[i - 1], queryString[i..])
             == Scanned(cc, START, ' ', queryString)
    {
      var c := queryString[i];
      var isSeparator := !cc.isLetterOrNumber(c) && c != '_' && c != '"' && c != '-' && c != '*';
      if c == '"' {
        var isQuoteEscaped := i > 0 && queryString[i - 1] == '\\';
        if !isQuoteEscaped {
          isWithinQuotes := !isWithinQuotes;
        }
      } else if !isWithinQuotes && c == '-' && qualifier == "" && currentWord == "" {
        isNegatedTerm := true;
      } else if !isWithinQuotes && c == ':' {
        qualifier := currentWord;
        currentWord := "";
      } else if !isWithinQuotes && isSeparator {
        text := currentWord;
        currentWord := "";
        if qualifier != "" || text != "" {
          terms := terms + [SearchTerm(qualifier, text, isNegatedTerm)];
          qualifier, text := "", "";
          isNegatedTerm := false;
        }
      } else {
        currentWord := currentWord + [c];
      }
      assert queryString[i..][1..] == queryString[i + 1..];
    }
    text := currentWord;
    if qualifier != "" || text != "" {
      terms := terms + [SearchTerm(qualifier, text, isNegatedTerm)];
    }
  }

  // Printing a query

  function Printed(t: SearchTerm): string {
    (if t.isNegated then "-" else "") + (if t.qualifier == "" then "" else t.qualifier + ":") + "\"" + t.text + "\""
  }

  function PrintedQuery(ts: seq<SearchTerm>): string {
    if ts == [] then "" else if |ts| == 1 then Printed(ts[0]) else Printed(ts[0]) + " " + PrintedQuery(ts[1..])
  }

  predicate HasPlainSeparators(cc: CharClasses) {
    !cc.isLetterOrNumber(' ') && !cc.isLetterOrNumber(':') && !cc.isLetterOrNumber('"')
  }

  /** Terms that the query language can express. */
  predicate IsPrintable(cc: CharClasses, t: SearchTerm) {
    && (forall i :: 0 <= i < |t.qualifier| ==> IsWordChar(cc, t.qualifier[i]))
    && (t.qualifier != "" ==> t.qualifier[0] != '-')
    && (forall i :: 0 <= i < |t.text| ==> t.text[i] != '"')
    && (t.text != "" ==> t.text[|t.text| - 1] != '\\')
    && (t.qualifier != "" || t.text != "")
  }

  function LastOf(previous: char, s: string): char {
    if s == "" then previous else s[|s| - 1]
  }

  lemma {:induction false} ScannedConcat(cc: CharClasses, st: Scan, previous: char, a: string, b: string)
    ensures Scanned(cc, st, previous, a + b) == Scanned(cc, Scanned(cc, st, previous, a), LastOf(previous, a), b)
    decreases |a|
  {
    if a == "" {
      assert a + b == b;
    } else {
      assert (a + b)[1..] == a[1..] + b;
      ScannedConcat(cc, Step(cc, st, previous, a[0]), a[0], a[1..], b);
    }
  }

  lemma {:induction false} ScanQualifier(cc: CharClasses, st: Scan, previous: char, s: string)
    requires HasPlainSeparators(cc) && !st.isWithinQuotes
    requires forall i :: 0 <= i < |s| ==> IsWordChar(cc, s[i])
    requires st.word == "" && s != "" ==> s[0] != '-'
    ensures Scanned(cc, st, previous, s) == st.(word := st.word + s)
    decreases |s|
  {
    if s == "" {
      assert st.word + s == st.word;
    } else {
      var st' := st.(word := st.word + [s[0]]);
      assert Step(cc, st, previous, s[0]) == st';
      ScanQualifier(cc, st', s[0], s[1..]);
      assert st'.word + s[1..] == st.word + s;
    }
  }

  lemma {:induction false} ScanQuoted(cc: CharClasses, st: Scan, previous: char, s: string)
    requires st.isWithinQuotes && forall i :: 0 <= i < |s| ==> s[i] != '"'
    ensures Scanned(cc, st, previous, s) == st.(word := st.word + s)
    decreases |s|
  {
    if s == "" {
      assert st.word + s == st.word;
    } else {
      var st' := st.(word := st.word + [s[0]]);
      ScanQuoted(cc, st', s[0], s[1..]);
      assert st'.word + s[1..] == st.word + s;
    }
  }

  lemma ScanChar(cc: CharClasses, st: Scan, previous: char, c: char)
    ensures Scanned(cc, st, previous, [c]) == Step(cc, st, previous, c)
  {
    assert [c][1..] == "";
    assert Scanned(cc, Step(cc, st, previous, c), c, "") == Step(cc, st, previous, c);
  }

  /** Scanning a quoted text from outside quotes. */
  lemma ScanQuotation(cc: CharClasses, st: Scan, previous: char, text: string)
    requires !st.isWithinQuotes && st.word == "" && previous != '\\'
    requires forall i :: 0 <= i < |text| ==> text[i] != '"'
    requires text != "" ==> text[|text| - 1] != '\\'
    ensures Scanned(cc, st, previous, "\"" + text + "\"") == st.(word := text)
  {
    var open := st.(isWithinQuotes := true);
    ScannedConcat(cc, st, previous, "\"" + text, "\"");
    ScannedConcat(cc, st, previous, "\"", text);
    ScanChar(cc, st, previous, '"');
    ScanQuoted(cc, open, '"', text);
    assert open.word + text == text;
    assert LastOf(previous, "\"" + text) == if text == "" then '"' else text[|text| - 1];
    ScanChar(cc, open.(word := text), LastOf(previous, "\"" + text), '"');
  }

  /** Scanning the optional qualifier and its colon. */
  lemma ScanQualification(cc: CharClasses, st: Scan, previous: char, q: string)
    requires HasPlainSeparators(cc) && !st.isWithinQuotes && st.word == "" && q != "" && q[0] != '-'
    requires forall i :: 0 <= i < |q| ==> IsWordChar(cc, q[i])
    ensures Scanned(cc, st, previous, q + ":") == st.(qualifier := q)
  {
    ScannedConcat(cc, st, previous, q, ":");
    ScanQualifier(cc, st, previous, q);
    assert st.word + q == q;
    ScanChar(cc, st.(word := q), LastOf(previous, q), ':');
  }

  lemma ScanTerm(cc: CharClasses, terms: seq<SearchTerm>, previous: char, t: SearchTerm)
    requires HasPlainSeparators(cc) && IsPrintable(cc, t) && previous != '\\'
    ensures Scanned(cc, Scan(terms, "", "", false, false), previous, Printed(t))
        == Scan(terms, t.qualifier, t.text, false, t.isNegated)
  {
    var sign := if t.isNegated then "-" else "";
    var qual := if t.qualifier == "" then "" else t.qualifier + ":";
    var body := "\"" + t.text + "\"";
    var st0 := Scan(terms, "", "", false, false);
    var st1 := st0.(isNegatedTerm := t.isNegated);
    var st2 := st1.(qualifier := t.qualifier);
    assert Printed(t) == sign + qual + body;
    ScannedConcat(cc, st0, previous, sign + qual, body);
    ScannedConcat(cc, st0, previous, sign, qual);
    if t.isNegated {
      ScanChar(cc, st0, previous, '-');
    }
    var previous1 := LastOf(previous, sign);
    if t.qualifier != "" {
      ScanQualification(cc, st1, previous1, t.qualifier);
    }
    ScanQuotation(cc, st2, LastOf(previous, sign + qual), t.text);
  }

  lemma TermEnds(cc: CharClasses, terms: seq<SearchTerm>, t: SearchTerm, previous: char)
    requires HasPlainSeparators(cc) && IsPrintable(cc, t)
    ensures Scanned(cc, Scan(terms, t.qualifier, t.text, false, t.isNegated), previous, " ")
        == Scan(terms + [t], "", "", false, false)
  {
    ScanChar(cc, Scan(terms, t.qualifier, t.text, false, t.isNegated), previous, ' ');
  }

  lemma {:induction false} ScanQuery(cc: CharClasses, terms: seq<SearchTerm>, previous: char, ts: seq<SearchTerm>)
    requires HasPlainSeparators(cc) && previous != '\\'
    requires forall i :: 0 <= i < |ts| ==> IsPrintable(cc, ts[i])
    ensures Flushed(Scanned(cc, Scan(terms, "", "", false, false), previous, PrintedQuery(ts))).terms == terms + ts
    decreases |ts|
  {
    if ts != [] {
      hide Step, IsPrintable, Printed;
      var st, t := Scan(terms, "", "", false, false), ts[0];
      ScanTerm(cc, terms, previous, t);
      if |ts| > 1 {
        var p := Printed(t);
        ScannedConcat(cc, st, previous, p + " ", PrintedQuery(ts[1..]));
        ScannedConcat(cc, st, previous, p, " ");
        TermEnds(cc, terms, t, LastOf(previous, p));
        ScanQuery(cc, terms + [t], ' ', ts[1..]);
        assert terms + [t] + ts[1..] == terms + ts;
      } else {
        assert ts == [t];
        LastTermEnds(cc, terms, t);
      }
    } else {
      assert terms + ts == terms;
    }
  }

  lemma LastTermEnds(cc: CharClasses, terms: seq<SearchTerm>, t: SearchTerm)
    requires IsPrintable(cc, t)
    ensures Flushed(Scan(terms, t.qualifier, t.text, false, t.isNegated)).terms == terms + [t]
  {
  }

  /** Parsing a printed query gives its terms back. */
  lemma QueryRoundTrip(cc: CharClasses, ts: seq<SearchTerm>)
    requires HasPlainSeparators(cc) && forall i :: 0 <= i < |ts| ==> IsPrintable(cc, ts[i])
    ensures Parsed(cc, PrintedQuery(ts)) == ts
  {
    ScanQuery(cc, [], ' ', ts);
  }

  // Words

  /** The words of `s` when `word` has been read just before it. */
  function WordsFrom(cc: CharClasses, word: string, s: string): seq<string>
    decreases |s|
  {
    if s == "" then (if word == "" then [] else [word])
    else if cc.isSeparatorChar(s[0]) then (if word == "" then [] else [word]) + WordsFrom(cc, "", s[1..])
    else WordsFrom(cc, word + [s[0]], s[1..])
  }

  function Words(cc: CharClasses, s: string): seq<string> {
    WordsFrom(cc, "", s)
  }

  method SplitWords(cc: CharClasses, text: string) returns (wordList: seq<string>)
    ensures wordList == Words(cc, text)
  {
    wordList := [];
    var word := "";
    for i := 0 to |text|
      invariant wordList + WordsFrom(cc, word, text[i..]) == Words(cc, text)
    {
      var c := text[i];
      assert text[i..][1..] == text[i + 1..];
      ghost var before, rest := wordList, WordsFrom(cc, "", text[i + 1..]);
      assert before + ([word] + rest) == before + [word] + rest;
      assert before + ([] + rest) == before + rest;
      if cc.isSeparatorChar(c) {
        if word != "" {
          wordList := wordList + [word];
        }
        word := "";
      } else {
        word := word + [c];
      }
    }
    if word != "" {
      wordList := wordList + [word];
    }
  }

  predicate IsWord(cc: CharClasses, w: string) {
    w != "" && forall i :: 0 <= i < |w| ==> !cc.isSeparatorChar(w[i])
  }

  lemma {:induction false} WordsAreWords(cc: CharClasses, word: string, s: string)
    requires word == "" || IsWord(cc, word)
    ensures forall w :: w in WordsFrom(cc, word, s) ==> IsWord(cc, w)
    decreases |s|
  {
    if s != "" {
      if cc.isSeparatorChar(s[0]) {
        WordsAreWords(cc, "", s[1..]);
      } else {
        WordsAreWords(cc, word + [s[0]], s[1..]);
      }
    }
  }

  /** A word is not split, and a separator splits anywhere else: the words are the maximal separator-free runs. */
  lemma {:induction false} WordsSplitAtSeparators(cc: CharClasses, word: string, a: string, sep: char, b: string)
    requires cc.isSeparatorChar(sep)
    ensures WordsFrom(cc, word, a + [sep] + b) == WordsFrom(cc, word, a) + Words(cc, b)
    decreases |a|
  {
    var s := a + [sep] + b;
    if a == "" {
      assert s[0] == sep && s[1..] == b;
    } else {
      assert s[0] == a[0] && s[1..] == a[1..] + [sep] + b;
      WordsSplitAtSeparators(cc, if cc.isSeparatorChar(a[0]) then "" else word + [a[0]], a[1..], sep, b);
    }
  }

  lemma {:induction false} WordIsOneWord(cc: CharClasses, word: string, w: string)
    requires w != "" && forall i :: 0 <= i < |w| ==> !cc.isSeparatorChar(w[i])
    ensures WordsFrom(cc, word, w) == [word + w]
    decreases |w|
  {
    if |w| == 1 {
      assert WordsFrom(cc, word + [w[0]], w[1..]) == [word + [w[0]]];
      assert w == [w[0]];
    } else {
      WordIsOneWord(cc, word + [w[0]], w[1..]);
      assert word + [w[0]] + w[1..] == word + w;
    }
  }

  // Matching

  /** Equal up to case, or equal up to case to a prefix of the note's word. Words contain no white space. */
  predicate IsWordMatch(cc: CharClasses, termWord: string, noteWord: string, wordPrefixMatch: bool) {
    && (if wordPrefixMatch then |termWord| <= |noteWord| else |termWord| == |noteWord|)
    && forall i :: 0 <= i < |termWord| ==> cc.fold(termWord[i]) == cc.fold(noteWord[i])
  }

  /** The term's words occur in the note's words from position `ni` on; the last one may be a prefix. */
  ghost predicate OccursAt(cc: CharClasses, term: seq<string>, note: seq<string>, ni: nat, prefix: bool) {
    && ni + |term| <= |note|
    && forall i :: 0 <= i < |term| ==> IsWordMatch(cc, term[i], note[ni + i], prefix && i == |term| - 1)
  }

  ghost predicate TextMatches(cc: CharClasses, text: string, note: seq<string>) {
    Words(cc, text) != [] && OccursSomewhere(cc, Words(cc, text), note, text != "" && text[|text| - 1] == '*')
  }

  ghost predicate OccursSomewhere(cc: CharClasses, term: seq<string>, note: seq<string>, prefix: bool) {
    exists ni: nat :: OccursAt(cc, term, note, ni, prefix)
  }

  method IsSequenceMatch(cc: CharClasses, term: seq<string>, note: seq<string>, ni: nat, prefix: bool) returns (r: bool)
    requires ni <= |note|
    ensures r == OccursAt(cc, term, note, ni, prefix)
  {
    if |term| > |note| - ni {
      return false;
    }
    var i := 0;
    while true
      invariant i <= |term|
      invariant forall j :: 0 <= j < i ==> IsWordMatch(cc, term[j], note[ni + j], prefix && j == |term| - 1)
      decreases |term| - i
    {
      if i >= |term| {
        break;
      }
      if ni + i >= |note| {
        return false;
      }
      var matching := IsWordMatch(cc, term[i], note[ni + i], prefix && i == |term| - 1);
      if !matching {
        return false;
      }
      i := i + 1;
    }
    r := true;
  }

  method IsTextMatching(cc: CharClasses, text: string, note: seq<string>) returns (matchFound: bool)
    ensures matchFound == TextMatches(cc, text, note)
  {
    if text == "" {
      return false;
    }
    var sequencePrefixMatch := text[|text| - 1] == '*';
    var term := SplitWords(cc, text);
    if term == [] {
      return false;
    }
    matchFound := false;
    for ni := 0 to |note|
      invariant !matchFound
      invariant forall k: nat :: k < ni ==> !OccursAt(cc, term, note, k, sequencePrefixMatch)
    {
      var isWordMatching := IsWordMatch(cc, term[0], note[ni], sequencePrefixMatch && |term| == 1);
      if isWordMatching {
        var isSequenceMatching := IsSequenceMatch(cc, term, note, ni, sequencePrefixMatch);
        if isSequenceMatching {
          assert OccursAt(cc, term, note, ni, sequencePrefixMatch);
          return true;
        }
      }
      assert !isWordMatching && ni + |term| <= |note| ==>
          !IsWordMatch(cc, term[0], note[ni + 0], sequencePrefixMatch && 0 == |term| - 1);
    }
  }

  // Evaluating a query on one note

  /** What the search looks at in a note. */
  datatype NoteText = NoteText(title: string, tagNames: seq<string>, contentWords: seq<string>, contentAvailable: bool)

  predicate EqualsIgnoringCase(cc: CharClasses, a: string, b: string) {
    |a| == |b| && forall i :: 0 <= i < |a| ==> cc.fold(a[i]) == cc.fold(b[i])
  }

  predicate IsAny(cc: CharClasses, t: SearchTerm) {
    EqualsIgnoringCase(cc, t.qualifier, "any")
  }

  function WordsInNote(cc: CharClasses, n: NoteText): seq<string> {
    Words(cc, n.title) + if n.contentAvailable then n.contentWords else []
  }

  ghost predicate TermMatches(cc: CharClasses, t: SearchTerm, n: NoteText) {
    if IsAny(cc, t) then false
    else if EqualsIgnoringCase(cc, t.qualifier, "notebook") then true
    else if EqualsIgnoringCase(cc, t.qualifier, "tag") then
      exists i :: 0 <= i < |n.tagNames| && TextMatches(cc, t.text, Words(cc, n.tagNames[i]))
    else if EqualsIgnoringCase(cc, t.qualifier, "intitle") then TextMatches(cc, t.text, Words(cc, n.title))
    else t.qualifier == "" && TextMatches(cc, t.text, WordsInNote(cc, n))
  }

  method IsTermTextMatched(cc: CharClasses, t: SearchTerm, n: NoteText) returns (matched: bool)
    ensures matched == TermMatches(cc, t, n)
  {
    matched := false;
    if IsAny(cc, t) {
    } else if EqualsIgnoringCase(cc, t.qualifier, "notebook") {
      matched := true;
    } else if EqualsIgnoringCase(cc, t.qualifier, "tag") {
      for i := 0 to |n.tagNames|
        invariant !matched && forall j :: 0 <= j < i ==> !TextMatches(cc, t.text, Words(cc, n.tagNames[j]))
      {
        var tagWords := SplitWords(cc, n.tagNames[i]);
        matched := IsTextMatching(cc, t.text, tagWords);
        if matched {
          return;
        }
      }
    } else if EqualsIgnoringCase(cc, t.qualifier, "intitle") {
      var titleWords := SplitWords(cc, n.title);
      matched := IsTextMatching(cc, t.text, titleWords);
    } else if t.qualifier == "" {
      var titleWords := SplitWords(cc, n.title);
      matched := IsTextMatching(cc, t.text, titleWords + if n.contentAvailable then n.contentWords else []);
    }
  }

  /** The term asks for what the note has, negation taken into account. */
  ghost predicate Agrees(cc: CharClasses, t: SearchTerm, n: NoteText) {
    TermMatches(cc, t, n) != t.isNegated
  }

  /** The position of the first `any:` term, or the number of terms. */
  function FirstAny(cc: CharClasses, ts: seq<SearchTerm>): (k: nat)
    ensures k <= |ts|
    ensures forall i :: 0 <= i < k ==> !IsAny(cc, ts[i])
    ensures k < |ts| ==> IsAny(cc, ts[k])
  {
    if ts == [] then 0 else if IsAny(cc, ts[0]) then 0 else
      var k := FirstAny(cc, ts[1..]);
      assert forall i :: 1 <= i < k + 1 ==> ts[i] == ts[1..][i - 1];
      k + 1
  }

  /** A leading `any:` asks for some agreeing term. Otherwise the terms before the first `any:` must all agree,
      and the terms from there on are not looked at. */
  ghost predicate QueryMatches(cc: CharClasses, ts: seq<SearchTerm>, n: NoteText) {
    var k := FirstAny(cc, ts);
    if ts != [] && k == 0 then exists i :: 0 <= i < |ts| && Agrees(cc, ts[i], n)
    else forall i :: 0 <= i < k ==> Agrees(cc, ts[i], n)
  }

  method IsNoteMatched(cc: CharClasses, ts: seq<SearchTerm>, n: NoteText) returns (noteMatched: bool)
    ensures noteMatched == QueryMatches(cc, ts, n)
  {
    hide TermMatches, IsAny;
    var matchedTermExists, unmatchedTermExists, anyTermCanMatch := false, false, false;
    ghost var k := FirstAny(cc, ts);
    for i := 0 to |ts|
      invariant anyTermCanMatch <==> k < i
      invariant matchedTermExists <==> exists j :: 0 <= j < i && Agrees(cc, ts[j], n)
      invariant unmatchedTermExists <==> exists j :: 0 <= j < i && !Agrees(cc, ts[j], n)
      invariant if anyTermCanMatch then !matchedTermExists && k == 0 else !unmatchedTermExists
    {
      var term := ts[i];
      var isTermTextMatched := IsTermTextMatched(cc, term, n);
      if IsAny(cc, term) {
        anyTermCanMatch := true;
      }
      assert Agrees(cc, ts[i], n) == (isTermTextMatched != term.isNegated);
      if term.isNegated {
        if isTermTextMatched {
          unmatchedTermExists := true;
        } else {
          matchedTermExists := true;
        }
      } else {
        if isTermTextMatched {
          matchedTermExists := true;
        } else {
          unmatchedTermExists := true;
        }
      }
      if !anyTermCanMatch && unmatchedTermExists {
        break;
      }
      if anyTermCanMatch && matchedTermExists {
        break;
      }
    }
    noteMatched := (anyTermCanMatch && matchedTermExists) || !unmatchedTermExists;
  }

  // The whole search

  /** What the search reads from the storage. An absent notebook has the empty id. */
  datatype Notes = Notes(allNoteIds: seq<string>, text: string -> NoteText, notebookIdForName: string -> string,
      noteIdsIn: string -> seq<string>)

  function NotebookTerms(cc: CharClasses, ts: seq<SearchTerm>): seq<SearchTerm> {
    if ts == [] then [] else
      NotebookTerms(cc, ts[..|ts| - 1]) + if EqualsIgnoringCase(cc, ts[|ts| - 1].qualifier, "notebook")
          then [ts[|ts| - 1]] else []
  }

  function Kept(ids: seq<string>, chosen: set<string>): seq<string> {
    if ids == [] then [] else Kept(ids[..|ids| - 1], chosen) + if ids[|ids| - 1] in chosen then [ids[|ids| - 1]] else []
  }

  /** The notes to look at: those of the one notebook that is asked for, or all of them. */
  function SearchedIds(cc: CharClasses, ts: seq<SearchTerm>, notes: Notes): seq<string> {
    var nts := NotebookTerms(cc, ts);
    if |nts| > 1 then []
    else if |nts| == 0 then notes.allNoteIds
    else if notes.notebookIdForName(cc.simplified(nts[0].text)) == "" then []
    else
      var ids := notes.noteIdsIn(notes.notebookIdForName(cc.simplified(nts[0].text)));
      if |ids| <= 1 then ids else Kept(notes.allNoteIds, (set id | id in ids))
  }

  ghost predicate IsHit(cc: CharClasses, ts: seq<SearchTerm>, notes: Notes, id: string) {
    id != "" && QueryMatches(cc, ts, notes.text(id))
  }

  ghost function Hits(cc: CharClasses, ts: seq<SearchTerm>, notes: Notes, ids: seq<string>): seq<string> {
    if ids == [] then [] else
      Hits(cc, ts, notes, ids[..|ids| - 1]) + if IsHit(cc, ts, notes, ids[|ids| - 1]) then [ids[|ids| - 1]] else []
  }

  /** Where the search stops: after looking at the first note at which it finds itself cancelled, or at the end. */
  function Stop(cancelled: nat -> bool, ids: seq<string>, i: nat): (stop: nat)
    requires i <= |ids|
    ensures i <= stop <= |ids|
    ensures stop < |ids| <==> exists j :: i <= j < |ids| && ids[j] != "" && cancelled(j)
    ensures stop < |ids| ==> ids[stop] != "" && cancelled(stop)
    ensures forall j :: i <= j < stop && ids[j] != "" ==> !cancelled(j)
    decreases |ids| - i
  {
    if i == |ids| || (ids[i] != "" && cancelled(i)) then i else Stop(cancelled, ids, i + 1)
  }

  /** The note does not match by what is on the device, but its content is not there to be searched. */
  ghost predicate IsUnsearched(cc: CharClasses, ts: seq<SearchTerm>, notes: Notes, id: string) {
    id != "" && !notes.text(id).contentAvailable && !QueryMatches(cc, ts, notes.text(id))
  }

  ghost function UnsearchedCount(cc: CharClasses, ts: seq<SearchTerm>, notes: Notes, ids: seq<string>): nat {
    if ids == [] then 0
    else
      UnsearchedCount(cc, ts, notes, ids[..|ids| - 1])
      + if IsUnsearched(cc, ts, notes, ids[|ids| - 1]) then 1 else 0
  }

  predicate NamesNoOneNotebook(cc: CharClasses, ts: seq<SearchTerm>, notes: Notes) {
    var nts := NotebookTerms(cc, ts);
    |nts| > 1 || (|nts| == 1 && notes.notebookIdForName(cc.simplified(nts[0].text)) == "")
  }

  /** The matches reported, and the number of notes reported as not searched at the end. `cancelled` says at which
      notes the search finds itself cancelled. */
  method Run(cc: CharClasses, queryString: string, notes: Notes, cancelled: nat -> bool)
    returns (matches: seq<string>, unsearched: nat)
    ensures var ts := Parsed(cc, queryString);
            var ids := SearchedIds(cc, ts, notes);
            var stop := Stop(cancelled, ids, 0);
            && matches == Hits(cc, ts, notes, ids[..stop])
            && unsearched == if NamesNoOneNotebook(cc, ts, notes) || stop < |ids| then |notes.allNoteIds|
                             else UnsearchedCount(cc, ts, notes, ids)
  {
    hide QueryMatches, EqualsIgnoringCase, Parsed;
    matches := [];
    var ts := ParseQuery(cc, queryString);
    var notebooks := [];
    for i := 0 to |ts|
      invariant notebooks == NotebookTerms(cc, ts[..i])
    {
      assert ts[..i + 1][..i] == ts[..i];
      if EqualsIgnoringCase(cc, ts[i].qualifier, "notebook") {
        notebooks := notebooks + [ts[i]];
      }
    }
    assert ts[..|ts|] == ts;
    var idsToSearchIn := notes.allNoteIds;
    if |notebooks| > 1 {
      return matches, |notes.allNoteIds|;
    } else if |notebooks| == 1 {
      var notebookId := notes.notebookIdForName(cc.simplified(notebooks[0].text));
      if notebookId == "" {
        return matches, |notes.allNoteIds|;
      }
      var noteIds := notes.noteIdsIn(notebookId);
      if |noteIds| <= 1 {
        idsToSearchIn := noteIds;
      } else {
        idsToSearchIn := KeepChosen(notes.allNoteIds, (set id | id in noteIds));
      }
    }
    matches, unsearched := SearchIn(cc, ts, notes, idsToSearchIn, cancelled);
  }

  method SearchIn(cc: CharClasses, ts: seq<SearchTerm>, notes: Notes, ids: seq<string>, cancelled: nat -> bool)
    returns (matches: seq<string>, unsearched: nat)
    ensures var stop := Stop(cancelled, ids, 0);
            && matches == Hits(cc, ts, notes, ids[..stop])
            && unsearched == if stop < |ids| then |notes.allNoteIds| else UnsearchedCount(cc, ts, notes, ids)
  {
    hide QueryMatches;
    matches, unsearched := [], 0;
    for i := 0 to |ids|
      invariant Stop(cancelled, ids, 0) == Stop(cancelled, ids, i)
      invariant matches == Hits(cc, ts, notes, ids[..i])
      invariant unsearched == UnsearchedCount(cc, ts, notes, ids[..i])
    {
      assert ids[..i + 1][..i] == ids[..i];
      var id := ids[i];
      if id == "" {
        continue;
      }
      var text := notes.text(id);
      var noteMatched := IsNoteMatched(cc, ts, text);
      if !text.contentAvailable && !noteMatched {
        unsearched := unsearched + 1;
      }
      if cancelled(i) {
        return matches, |notes.allNoteIds|;
      }
      if noteMatched {
        matches := matches + [id];
      }
    }
    assert ids[..|ids|] == ids;
  }

  method KeepChosen(ids: seq<string>, chosen: set<string>) returns (kept: seq<string>)
    ensures kept == Kept(ids, chosen)
  {
    kept := [];
    for i := 0 to |ids|
      invariant kept == Kept(ids[..i], chosen)
    {
      assert ids[..i + 1][..i] == ids[..i];
      if ids[i] in chosen {
        kept := kept + [ids[i]];
      }
    }
    assert ids[..|ids|] == ids;
  }

  lemma {:induction false} HitsAre(cc: CharClasses, ts: seq<SearchTerm>, notes: Notes, ids: seq<string>, id: string)
    ensures id in Hits(cc, ts, notes, ids) <==> id in ids && IsHit(cc, ts, notes, id)
  {
    hide IsHit;
    if ids != [] {
      HitsAre(cc, ts, notes, ids[..|ids| - 1], id);
      assert ids == ids[..|ids| - 1] + [ids[|ids| - 1]];
    }
  }

  lemma {:induction false} KeptAre(ids: seq<string>, chosen: set<string>, id: string)
    ensures id in Kept(ids, chosen) <==> id in ids && id in chosen
  {
    if ids != [] {
      KeptAre(ids[..|ids| - 1], chosen, id);
      assert ids == ids[..|ids| - 1] + [ids[|ids| - 1]];
    }
  }

  /** A search without notebook terms reports exactly the listed notes that match. With one such term it reports
      those that are also in the notebook, except that a notebook with a single note is not held against the list. */
  lemma SearchReports(cc: CharClasses, ts: seq<SearchTerm>, notes: Notes, id: string)
    ensures var nts := NotebookTerms(cc, ts);
            var ids := if |nts| == 1 then notes.noteIdsIn(notes.notebookIdForName(cc.simplified(nts[0].text))) else [];
            id in Hits(cc, ts, notes, SearchedIds(cc, ts, notes)) <==>
            && IsHit(cc, ts, notes, id)
            && (nts == [] || (|nts| == 1 && notes.notebookIdForName(cc.simplified(nts[0].text)) != "" && id in ids))
            && (id in notes.allNoteIds || |ids| == 1)
  {
    hide IsHit;
    HitsAre(cc, ts, notes, SearchedIds(cc, ts, notes), id);
    var nts := NotebookTerms(cc, ts);
    if |nts| == 1 {
      var ids := notes.noteIdsIn(notes.notebookIdForName(cc.simplified(nts[0].text)));
      KeptAre(notes.allNoteIds, (set i | i in ids), id);
    }
  }
}
