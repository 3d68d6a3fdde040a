/** What `CountVectorizer(stop_words='english', max_features=50)` does with the cleaned
    texts in app.py:81-83: tokenise with the default pattern `\b\w\w+\b`, drop stop
    words, and keep the most frequent terms of the whole corpus as the vocabulary. */
module Terms {
  import opened TextClean
  import opened Collections

  /** `max_features` (app.py:81). */
  const MaxFeatures: nat := 50

  /** The tokens the pattern `\b\w\w+\b` finds, left to right: every maximal run of word
      characters that is at least two characters long. */
  function Tokens(s: string): (ts: seq<string>)
    ensures forall t :: t in ts ==> |t| >= 2
    ensures forall t :: t in ts ==> forall c :: c in t ==> IsWordChar(c)
    decreases |s|
  {
    if s == [] then []
    else if !IsWordChar(s[0]) then Tokens(s[1..])
    else
      var n := Span(s, IsWordChar);
      (if n >= 2 then [s[..n]] else []) + Tokens(s[n..])
  }

  predicate NotBlank(c: char) {
    c != ' '
  }

  /** `str.split(' ')`: the pieces between single spaces, left to right, empty pieces
      included (so the empty text is one empty piece). */
  function Words(s: string): (ws: seq<string>)
    ensures |ws| > 0
    ensures forall w :: w in ws ==> forall c :: c in w ==> c != ' '
    decreases |s|
  {
    var n := Span(s, NotBlank);
    if n == |s| then [s] else [s[..n]] + Words(s[n + 1..])
  }

  /** What the token pattern asks of a run of word characters: at least two of them. */
  predicate IsLongWord(w: string) {
    |w| >= 2
  }

  /** On text made of word characters and spaces, a run of word characters is a run of
      non-spaces. */
  lemma {:induction false} WordSpanIsPiece(s: string)
    requires forall i :: 0 <= i < |s| ==> s[i] == ' ' || IsWordChar(s[i])
    ensures Span(s, IsWordChar) == Span(s, NotBlank)
    decreases |s|
  {
    if s != [] && s[0] != ' ' {
      WordSpanIsPiece(s[1..]);
    }
  }

  /** The step of TokensAreLongWords for a text starting with a word character and
      containing a space, given the property for the text after that space. */
  lemma TokensAreLongWordsStep(s: string, n: nat)
    requires 0 < n < |s| && s[n] == ' '
    requires Span(s, IsWordChar) == n && Span(s, NotBlank) == n
    requires Tokens(s[n + 1..]) == Filter(Words(s[n + 1..]), IsLongWord)
    ensures Tokens(s) == Filter(Words(s), IsLongWord)
  {
    var head := if n >= 2 then [s[..n]] else [];
    assert Tokens(s[n..]) == Tokens(s[n..][1..]);
    assert s[n..][1..] == s[n + 1..];
    assert Words(s) == [s[..n]] + Words(s[n + 1..]);
    FilterConcat([s[..n]], Words(s[n + 1..]), IsLongWord);
    assert Filter([s[..n]], IsLongWord) == head;
  }

  /** On text made of word characters and spaces, the tokens are exactly the pieces
      between spaces that have at least two characters, in order. */
  lemma {:induction false} TokensAreLongWords(s: string)
    requires forall i :: 0 <= i < |s| ==> s[i] == ' ' || IsWordChar(s[i])
    ensures Tokens(s) == Filter(Words(s), IsLongWord)
    decreases |s|
  {
    WordSpanIsPiece(s);
    var n := Span(s, NotBlank);
    if s == [] {
      assert Words(s) == [[]];
    } else if s[0] == ' ' {
      TokensAreLongWords(s[1..]);
      assert Words(s) == [[]] + Words(s[1..]);
      FilterConcat([[]], Words(s[1..]), IsLongWord);
    } else if n == |s| {
      assert s[n..] == [];
      assert Words(s) == [s];
      assert s[..n] == s;
    } else {
      TokensAreLongWords(s[n + 1..]);
      TokensAreLongWordsStep(s, n);
    }
  }

  /** Normalised text is made of word characters and spaces, so its tokens are its
      words of two or more characters. */
  lemma TokensOfClean(s: string)
    requires IsClean(s)
    ensures Tokens(s) == Filter(Words(s), IsLongWord)
  {
    TokensAreLongWords(s);
  }

  /** The stop-word test of the analyser. */
  function NotStopWord(stopWords: set<string>): string -> bool {
    t => t !in stopWords
  }

  /** The analyser applied to one document: lower-case (the vectoriser's default),
      tokenise, drop stop words. A token of the lower-cased document is a term exactly
      when it is not a stop word. */
  function DocTerms(doc: string, stopWords: set<string>): (ts: seq<string>)
    ensures forall t :: t in ts ==> t !in stopWords && |t| >= 2
    ensures forall t :: t in ts <==> t in Tokens(LowerCase(doc)) && t !in stopWords
  {
    Filter(Tokens(LowerCase(doc)), NotStopWord(stopWords))
  }

  /** A term occurs in a document's terms as often as it occurs among the tokens of the
      lower-cased document, unless it is a stop word. */
  lemma DocTermsCount(doc: string, stopWords: set<string>, t: string)
    ensures multiset(DocTerms(doc, stopWords))[t] ==
            if t in stopWords then 0 else multiset(Tokens(LowerCase(doc)))[t]
  {
    FilterMultiset(Tokens(LowerCase(doc)), NotStopWord(stopWords));
  }

  /** For a document `clean_text` has normalised, the terms are its space-separated
      words of two or more characters that are not stop words, in order. */
  lemma DocTermsOfClean(doc: string, stopWords: set<string>)
    requires IsClean(doc)
    ensures DocTerms(doc, stopWords) == Filter(Filter(Words(doc), IsLongWord), NotStopWord(stopWords))
  {
    LowerCaseFixed(doc);
    TokensOfClean(doc);
  }

  /** The terms of all documents, document by document. */
  function CorpusTerms(docs: seq<string>, stopWords: set<string>): (ts: seq<string>)
    ensures forall t :: t in ts ==> t !in stopWords && |t| >= 2
    ensures docs == [] ==> ts == []
    decreases |docs|
  {
    if docs == [] then [] else DocTerms(docs[0], stopWords) + CorpusTerms(docs[1..], stopWords)
  }

  lemma {:induction false} CorpusTermsConcat(a: seq<string>, b: seq<string>, stopWords: set<string>)
    ensures CorpusTerms(a + b, stopWords) == CorpusTerms(a, stopWords) + CorpusTerms(b, stopWords)
    decreases |a|
  {
    if a == [] {
      assert a + b == b;
    } else {
      var head := DocTerms(a[0], stopWords);
      assert (a + b)[0] == a[0];
      assert (a + b)[1..] == a[1..] + b;
      CorpusTermsConcat(a[1..], b, stopWords);
      calc {
        CorpusTerms(a + b, stopWords);
        head + CorpusTerms(a[1..] + b, stopWords);
        head + (CorpusTerms(a[1..], stopWords) + CorpusTerms(b, stopWords));
        (head + CorpusTerms(a[1..], stopWords)) + CorpusTerms(b, stopWords);
      }
    }
  }

  /** The fitted vocabulary: up to `maxFeatures` distinct corpus terms, taken by corpus
      frequency. */
  function Vocabulary(docs: seq<string>, stopWords: set<string>, maxFeatures: nat): (v: seq<string>)
    ensures |v| == Min(maxFeatures, |Distinct(CorpusTerms(docs, stopWords))|)
  {
    var ts := CorpusTerms(docs, stopWords);
    SelectTop(Distinct(ts), multiset(ts), maxFeatures)
  }

  /** The vocabulary is a valid choice of the `maxFeatures` most frequent distinct terms
      of the corpus (all of them when there are no more), in any order among equal
      counts; its terms are not stop words and are at least two characters long. */
  lemma VocabularyIsFitted(docs: seq<string>, stopWords: set<string>, maxFeatures: nat)
    ensures IsTopSelection(Distinct(CorpusTerms(docs, stopWords)), multiset(CorpusTerms(docs, stopWords)),
                           maxFeatures, Vocabulary(docs, stopWords, maxFeatures))
    ensures NoDuplicates(Vocabulary(docs, stopWords, maxFeatures))
    ensures forall t :: t in Vocabulary(docs, stopWords, maxFeatures) ==>
              t in CorpusTerms(docs, stopWords) && t !in stopWords && |t| >= 2
  {
    var ts := CorpusTerms(docs, stopWords);
    var v := Vocabulary(docs, stopWords, maxFeatures);
    SelectTopIsTop(Distinct(ts), multiset(ts), maxFeatures);
    forall t | t in v ensures t in ts {
      var i :| 0 <= i < |v| && v[i] == t;
      assert v[i] in Distinct(ts);
    }
  }

  /** The vocabulary is empty exactly when the corpus has no term; with no documents it
      is always empty (scikit-learn then raises "empty vocabulary"). */
  lemma VocabularyEmpty(docs: seq<string>, stopWords: set<string>, maxFeatures: nat)
    requires maxFeatures > 0
    ensures Vocabulary(docs, stopWords, maxFeatures) == [] <==> CorpusTerms(docs, stopWords) == []
  {
    var ts := CorpusTerms(docs, stopWords);
    if ts != [] {
      assert ts[0] in Distinct(ts);
    }
  }
}
