/** The body of the app.py script (lines 37-112) without its widgets and charts: ingest an
    upload, clean and classify every text, filter by the selected labels, count labels,
    fit the word-count vocabulary, build the per-label top-word table, pick the dominant
    label and list the recommendations. The classifier is the parameter `classify`. */
module Dashboard {
  import opened TextClean
  import opened Collections
  import opened Terms

  /** A sentiment label, whatever the classifier returns. */
  type Label = string

  /** One row of the data frame after line 60: its `Text`, `clean_text` and `Sentiment`. */
  datatype Record = Record(text: string, clean: string, sentiment: Label)

  /** `head(10)` (app.py:90). */
  const TopN: nat := 10

  // ---------------------------------------------------------------------------
  // Ingestion (app.py:40-55)
  // ---------------------------------------------------------------------------

  /** An upload as the script sees it: the text of each PDF page in page order, or a CSV
      file with or without a `Text` column, or any other file type. */
  datatype Upload =
    | PdfUpload(pages: seq<string>)
    | CsvUpload(hasTextColumn: bool, texts: seq<string>)
    | OtherUpload

  /** `if page_text:` (app.py:45). */
  predicate HasText(page: string) {
    page != ""
  }

  /** The pages whose text is non-empty, in page order. */
  function NonEmptyPages(pages: seq<string>): (texts: seq<string>)
    ensures |texts| <= |pages|
    ensures forall t :: t in texts <==> t in pages && t != ""
  {
    Filter(pages, HasText)
  }

  /** The page loop (app.py:43-46): the texts appended are exactly the non-empty pages,
      in page order. */
  method ExtractPageTexts(pages: seq<string>) returns (texts: seq<string>)
    ensures texts == NonEmptyPages(pages)
  {
    texts := [];
    for i := 0 to |pages|
      invariant texts == NonEmptyPages(pages[..i])
    {
      assert pages[..i + 1] == pages[..i] + [pages[i]];
      FilterConcat(pages[..i], [pages[i]], HasText);
      assert [pages[i]][1..] == [];
      if HasText(pages[i]) {
        texts := texts + [pages[i]];
      }
    }
    assert pages[..|pages|] == pages;
  }

  /** One record per non-empty page: the empty pages are the only ones dropped, so the
      record count is the page count less the number of empty pages. */
  lemma {:induction false} NonEmptyPagesCount(pages: seq<string>)
    ensures |NonEmptyPages(pages)| == |pages| - multiset(pages)[""]
    ensures forall p :: p in NonEmptyPages(pages) <==> p in pages && p != ""
    decreases |pages|
  {
    if pages != [] {
      NonEmptyPagesCount(pages[1..]);
      assert pages == [pages[0]] + pages[1..];
      assert multiset(pages)[""] == (if pages[0] == "" then 1 else 0) + multiset(pages[1..])[""];
    }
  }

  /** The texts an upload yields when it yields any (the failure cases are in RunDashboard). */
  function UploadTexts(upload: Upload): (texts: seq<string>)
    ensures upload.PdfUpload? ==> forall t :: t in texts <==> t in upload.pages && t != ""
    ensures upload.CsvUpload? ==> texts == upload.texts
    ensures upload.OtherUpload? ==> texts == []
  {
    match upload
    case PdfUpload(pages) => NonEmptyPages(pages)
    case CsvUpload(_, texts) => texts
    case OtherUpload => []
  }

  // ---------------------------------------------------------------------------
  // Cleaning and classification (app.py:58-60)
  // ---------------------------------------------------------------------------

  /** `df['clean_text'] = df['Text'].apply(clean_text)` followed by the prediction: one
      record per text, in order, each keeping its original text. */
  function Classify(texts: seq<string>, classify: string -> Label): (rs: seq<Record>)
    ensures |rs| == |texts|
    ensures forall i :: 0 <= i < |rs| ==> rs[i].text == texts[i]
  {
    seq(|texts|, i requires 0 <= i < |texts| => Record(texts[i], CleanText(texts[i]), classify(CleanText(texts[i]))))
  }

  /** Row i of the classified frame keeps text i, holds its normalised form (clean, free of
      URLs) and the label the classifier gives to that normalised form. */
  lemma ClassifyRows(texts: seq<string>, classify: string -> Label)
    ensures |Classify(texts, classify)| == |texts|
    ensures forall i :: 0 <= i < |texts| ==>
              && Classify(texts, classify)[i].text == texts[i]
              && Classify(texts, classify)[i].clean == CleanText(texts[i])
              && Classify(texts, classify)[i].sentiment == classify(CleanText(texts[i]))
    ensures forall i :: 0 <= i < |texts| ==>
              IsClean(Classify(texts, classify)[i].clean) && NoUrl(Classify(texts, classify)[i].clean)
  {
    forall i | 0 <= i < |texts|
      ensures IsClean(Classify(texts, classify)[i].clean) && NoUrl(Classify(texts, classify)[i].clean)
    {
      CleanTextIsClean(texts[i]);
      CleanTextNoUrl(texts[i]);
    }
  }

  function Labels(records: seq<Record>): (ls: seq<Label>)
    ensures |ls| == |records|
  {
    seq(|records|, i requires 0 <= i < |records| => records[i].sentiment)
  }

  function Docs(records: seq<Record>): (ds: seq<string>)
    ensures |ds| == |records|
  {
    seq(|records|, i requires 0 <= i < |records| => records[i].clean)
  }

  // ---------------------------------------------------------------------------
  // Label filter (app.py:63-70)
  // ---------------------------------------------------------------------------

  /** `df['Sentiment'].unique().tolist()`, the default selection: each label present in
      the rows, once. */
  function Available(records: seq<Record>): (a: seq<Label>)
    ensures NoDuplicates(a)
    ensures |a| <= |records|
    ensures forall l :: l in a <==> l in Labels(records)
  {
    Distinct(Labels(records))
  }

  function SelectedBy(selected: seq<Label>): Record -> bool {
    (r: Record) => r.sentiment in selected
  }

  /** `df[df['Sentiment'].isin(selected_sentiments)]`: a record is kept exactly when it
      is one of the input records and its label is selected. */
  function KeepSelected(records: seq<Record>, selected: seq<Label>): (f: seq<Record>)
    ensures |f| <= |records|
    ensures forall r :: r in f <==> r in records && r.sentiment in selected
  {
    Filter(records, SelectedBy(selected))
  }

  /** The filter keeps every record whose label is selected, as often as it occurs, and no
      other record. */
  lemma KeepSelectedExact(records: seq<Record>, selected: seq<Label>)
    ensures forall r :: multiset(KeepSelected(records, selected))[r] ==
              if r.sentiment in selected then multiset(records)[r] else 0
    ensures forall i :: 0 <= i < |KeepSelected(records, selected)| ==>
              KeepSelected(records, selected)[i].sentiment in selected
  {
    FilterMultiset(records, SelectedBy(selected));
    var f := KeepSelected(records, selected);
    forall i | 0 <= i < |f| ensures f[i].sentiment in selected {
      assert f[i] in f;
    }
  }

  /** The filter keeps the original order. */
  lemma KeepSelectedOrder(a: seq<Record>, b: seq<Record>, selected: seq<Label>)
    ensures KeepSelected(a + b, selected) == KeepSelected(a, selected) + KeepSelected(b, selected)
  {
    FilterConcat(a, b, SelectedBy(selected));
  }

  /** With the default selection (every label present) nothing is filtered out. */
  lemma DefaultSelectionKeepsAll(records: seq<Record>)
    ensures KeepSelected(records, Available(records)) == records
  {
    forall i | 0 <= i < |records| ensures SelectedBy(Available(records))(records[i]) {
      assert Labels(records)[i] == records[i].sentiment;
    }
    FilterAll(records, SelectedBy(Available(records)));
  }

  // ---------------------------------------------------------------------------
  // Label distribution and dominant label (app.py:73, 96-97)
  // ---------------------------------------------------------------------------

  function CountsOf(keys: seq<Label>, ms: multiset<Label>): (d: seq<(Label, nat)>)
    ensures |d| == |keys|
    ensures forall i :: 0 <= i < |d| ==> d[i] == (keys[i], ms[keys[i]])
    decreases |keys|
  {
    if keys == [] then [] else [(keys[0], ms[keys[0]])] + CountsOf(keys[1..], ms)
  }

  /** `value_counts()` as integer counts, one entry per label present, in order of first
      appearance. */
  function LabelCounts(labels: seq<Label>): (d: seq<(Label, nat)>)
    ensures |d| <= |labels|
    ensures forall i :: 0 <= i < |d| ==> d[i].0 in labels && d[i].1 == multiset(labels)[d[i].0]
  {
    CountsOf(Distinct(labels), multiset(labels))
  }

  function Total(d: seq<(Label, nat)>): nat
    decreases |d|
  {
    if d == [] then 0 else d[0].1 + Total(d[1..])
  }

  lemma {:induction false} TotalZero(keys: seq<Label>, ms: multiset<Label>)
    requires forall i :: 0 <= i < |keys| ==> ms[keys[i]] == 0
    ensures Total(CountsOf(keys, ms)) == 0
    decreases |keys|
  {
    if keys != [] {
      TotalZero(keys[1..], ms);
      assert CountsOf(keys, ms)[1..] == CountsOf(keys[1..], ms);
    }
  }

  lemma {:induction false} TotalUnion(keys: seq<Label>, a: multiset<Label>, b: multiset<Label>)
    ensures Total(CountsOf(keys, a + b)) == Total(CountsOf(keys, a)) + Total(CountsOf(keys, b))
    decreases |keys|
  {
    if keys != [] {
      TotalUnion(keys[1..], a, b);
      assert CountsOf(keys, a + b)[1..] == CountsOf(keys[1..], a + b);
      assert CountsOf(keys, a)[1..] == CountsOf(keys[1..], a);
      assert CountsOf(keys, b)[1..] == CountsOf(keys[1..], b);
    }
  }

  lemma {:induction false} TotalSingleton(keys: seq<Label>, x: Label)
    requires NoDuplicates(keys)
    requires x in keys
    ensures Total(CountsOf(keys, multiset{x})) == 1
    decreases |keys|
  {
    assert CountsOf(keys, multiset{x})[1..] == CountsOf(keys[1..], multiset{x});
    if keys[0] == x {
      TotalZero(keys[1..], multiset{x});
    } else {
      TotalSingleton(keys[1..], x);
    }
  }

  lemma {:induction false} TotalCounts(keys: seq<Label>, s: seq<Label>)
    requires NoDuplicates(keys)
    requires forall x :: x in s ==> x in keys
    ensures Total(CountsOf(keys, multiset(s))) == |s|
    decreases |s|
  {
    if s == [] {
      TotalZero(keys, multiset(s));
    } else {
      assert s == [s[0]] + s[1..];
      assert multiset(s) == multiset{s[0]} + multiset(s[1..]);
      TotalUnion(keys, multiset{s[0]}, multiset(s[1..]));
      TotalSingleton(keys, s[0]);
      TotalCounts(keys, s[1..]);
    }
  }

  /** The label counts list each present label once, with its number of records (at least
      one), and add up to the number of records counted. */
  lemma LabelCountsExact(labels: seq<Label>)
    ensures forall i :: 0 <= i < |LabelCounts(labels)| ==>
              && LabelCounts(labels)[i].0 in labels
              && LabelCounts(labels)[i].1 == multiset(labels)[LabelCounts(labels)[i].0]
              && LabelCounts(labels)[i].1 >= 1
    ensures forall l :: l in labels ==> (l, multiset(labels)[l]) in LabelCounts(labels)
    ensures forall i, j :: 0 <= i < j < |LabelCounts(labels)| ==> LabelCounts(labels)[i].0 != LabelCounts(labels)[j].0
    ensures Total(LabelCounts(labels)) == |labels|
  {
    var keys := Distinct(labels);
    var d := LabelCounts(labels);
    forall l | l in labels ensures (l, multiset(labels)[l]) in d {
      var i :| 0 <= i < |keys| && keys[i] == l;
      assert d[i] == (l, multiset(labels)[l]);
    }
    LabelCountsTotal(labels);
  }

  lemma LabelCountsTotal(labels: seq<Label>)
    ensures Total(LabelCounts(labels)) == |labels|
  {
    TotalCounts(Distinct(labels), labels);
  }

  function ScaledCounts(d: seq<(Label, nat)>, total: nat): (p: seq<(Label, real)>)
    requires total > 0
    ensures |p| == |d|
    decreases |d|
  {
    if d == [] then [] else [(d[0].0, (d[0].1 as real) * 100.0 / (total as real))] + ScaledCounts(d[1..], total)
  }

  /** `value_counts(normalize=True) * 100`: each label's share of the counted records, in
      percent (exact reals rather than floating point). */
  function Shares(d: seq<(Label, nat)>): (p: seq<(Label, real)>)
    requires Total(d) > 0
    ensures |p| == |d|
  {
    ScaledCounts(d, Total(d))
  }

  function RealTotal(p: seq<(Label, real)>): real
    decreases |p|
  {
    if p == [] then 0.0 else p[0].1 + RealTotal(p[1..])
  }

  lemma {:induction false} ScaledCountsSum(d: seq<(Label, nat)>, total: nat)
    requires total > 0
    ensures RealTotal(ScaledCounts(d, total)) == (Total(d) as real) * 100.0 / (total as real)
    decreases |d|
  {
    if d != [] {
      ScaledCountsSum(d[1..], total);
      var a := d[0].1 as real;
      var b := Total(d[1..]) as real;
      var t := total as real;
      assert ScaledCounts(d, total)[1..] == ScaledCounts(d[1..], total);
      assert a * 100.0 / t + b * 100.0 / t == (a + b) * 100.0 / t;
    }
  }

  lemma PercentOfWhole(t: real)
    requires t > 0.0
    ensures t * 100.0 / t == 100.0
  {
  }

  /** The shares keep the labels of the counts, each share is that label's count as a
      percentage of all counted records, and the shares add up to 100. */
  lemma SharesSpec(d: seq<(Label, nat)>)
    requires Total(d) > 0
    ensures |Shares(d)| == |d|
    ensures forall i :: 0 <= i < |d| ==>
              Shares(d)[i] == (d[i].0, (d[i].1 as real) * 100.0 / (Total(d) as real))
    ensures RealTotal(Shares(d)) == 100.0
  {
    ScaledCountsSum(d, Total(d));
    ScaledCountsAt(d, Total(d));
    PercentOfWhole(Total(d) as real);
  }

  lemma {:induction false} ScaledCountsAt(d: seq<(Label, nat)>, total: nat)
    requires total > 0
    ensures forall i :: 0 <= i < |d| ==>
              ScaledCounts(d, total)[i] == (d[i].0, (d[i].1 as real) * 100.0 / (total as real))
    decreases |d|
  {
    if d != [] {
      ScaledCountsAt(d[1..], total);
      assert ScaledCounts(d, total)[1..] == ScaledCounts(d[1..], total);
      forall i | 1 <= i < |d|
        ensures ScaledCounts(d, total)[i] == (d[i].0, (d[i].1 as real) * 100.0 / (total as real))
      {
        assert ScaledCounts(d, total)[i] == ScaledCounts(d[1..], total)[i - 1];
      }
    }
  }

  /** `value_counts().idxmax()`: a label of maximal count. Which of several tied labels
      it is is not specified. */
  function MostFrequent(labels: seq<Label>): (l: Label)
    requires |labels| > 0
    ensures l in labels
    ensures forall m :: multiset(labels)[m] <= multiset(labels)[l]
  {
    var i := ArgMax(labels, multiset(labels));
    assert forall m :: m in labels ==> multiset(labels)[m] <= multiset(labels)[labels[i]] by {
      forall m | m in labels ensures multiset(labels)[m] <= multiset(labels)[labels[i]] {
        var j :| 0 <= j < |labels| && labels[j] == m;
      }
    }
    labels[i]
  }

  // ---------------------------------------------------------------------------
  // Top words per label (app.py:81-91)
  // ---------------------------------------------------------------------------

  function HasLabel(l: Label): Record -> bool {
    (r: Record) => r.sentiment == l
  }

  /** The cleaned texts of the rows labelled `l`, each row with its own label. */
  function LabelDocs(filtered: seq<Record>, l: Label): (docs: seq<string>)
    ensures |docs| <= |filtered|
  {
    Docs(Filter(filtered, HasLabel(l)))
  }

  /** The terms of the rows labelled `l`. */
  function LabelTerms(filtered: seq<Record>, l: Label, stopWords: set<string>): (ts: seq<string>)
    ensures forall t :: t in ts ==> t !in stopWords && |t| >= 2
  {
    CorpusTerms(LabelDocs(filtered, l), stopWords)
  }

  /** The column sums of the count matrix over the rows labelled `l`
      (`temp.drop(columns=['Sentiment']).sum()`), term `t`'s column. */
  function ColumnSum(filtered: seq<Record>, l: Label, stopWords: set<string>, t: string): (n: nat)
    ensures (forall i :: 0 <= i < |filtered| ==> filtered[i].sentiment != l) ==> n == 0
    ensures t in stopWords ==> n == 0
    decreases |filtered|
  {
    if filtered == [] then 0
    else (if filtered[0].sentiment == l then multiset(DocTerms(filtered[0].clean, stopWords))[t] else 0)
         + ColumnSum(filtered[1..], l, stopWords, t)
  }

  /** LabelDocs unfolded by one row: the first row's text comes first when it carries
      label `l`, then the texts of the remaining rows labelled `l`. */
  lemma LabelDocsCons(filtered: seq<Record>, l: Label)
    requires filtered != []
    ensures LabelDocs(filtered, l) ==
            (if filtered[0].sentiment == l then [filtered[0].clean] else []) + LabelDocs(filtered[1..], l)
  {
    var rest := Filter(filtered[1..], HasLabel(l));
    if HasLabel(l)(filtered[0]) {
      assert Filter(filtered, HasLabel(l)) == [filtered[0]] + rest;
      assert Docs([filtered[0]] + rest) == [filtered[0].clean] + Docs(rest);
    } else {
      assert Filter(filtered, HasLabel(l)) == rest;
    }
  }

  /** A label's `temp` frame has as many rows as the label has in the filtered frame. */
  lemma {:induction false} LabelDocsCount(filtered: seq<Record>, l: Label)
    ensures |LabelDocs(filtered, l)| == multiset(Labels(filtered))[l]
    decreases |filtered|
  {
    if filtered != [] {
      LabelDocsCount(filtered[1..], l);
      LabelDocsCons(filtered, l);
      assert Labels(filtered) == [filtered[0].sentiment] + Labels(filtered[1..]);
    }
  }

  lemma CorpusTermsCons(d: string, docs: seq<string>, stopWords: set<string>)
    ensures CorpusTerms([d] + docs, stopWords) == DocTerms(d, stopWords) + CorpusTerms(docs, stopWords)
  {
    assert ([d] + docs)[1..] == docs;
  }

  /** Counting term `t` in the terms of label `l` is summing its column over the rows labelled `l`. */
  lemma {:induction false} LabelTermsCount(filtered: seq<Record>, l: Label, stopWords: set<string>, t: string)
    ensures multiset(LabelTerms(filtered, l, stopWords))[t] == ColumnSum(filtered, l, stopWords, t)
    decreases |filtered|
  {
    if filtered != [] {
      LabelTermsCount(filtered[1..], l, stopWords, t);
      LabelDocsCons(filtered, l);
      var rest := LabelDocs(filtered[1..], l);
      if filtered[0].sentiment == l {
        CorpusTermsCons(filtered[0].clean, rest, stopWords);
      } else {
        assert LabelDocs(filtered, l) == rest;
      }
    }
  }

  /** `sum().sort_values(ascending=False).head(10)` for label `l`: the chosen terms paired
      with their counts. */
  function TopWordsFor(filtered: seq<Record>, l: Label, vocab: seq<string>, stopWords: set<string>): (pairs: seq<(string, nat)>)
    ensures |pairs| == Min(TopN, |vocab|)
  {
    var ms := multiset(LabelTerms(filtered, l, stopWords));
    var top := SelectTop(vocab, ms, TopN);
    seq(|top|, i requires 0 <= i < |top| => (top[i], ms[top[i]]))
  }

  function TermsOf(pairs: seq<(string, nat)>): seq<string> {
    seq(|pairs|, i requires 0 <= i < |pairs| => pairs[i].0)
  }

  lemma TopWordsForPairs(filtered: seq<Record>, l: Label, vocab: seq<string>, stopWords: set<string>)
    ensures var pairs := TopWordsFor(filtered, l, vocab, stopWords);
            var ms := multiset(LabelTerms(filtered, l, stopWords));
            && TermsOf(pairs) == SelectTop(vocab, ms, TopN)
            && (forall i :: 0 <= i < |pairs| ==> pairs[i].1 == ms[pairs[i].0])
  {
    var ms := multiset(LabelTerms(filtered, l, stopWords));
    var top := SelectTop(vocab, ms, TopN);
    var pairs := TopWordsFor(filtered, l, vocab, stopWords);
    assert |pairs| == |top|;
    assert forall i :: 0 <= i < |pairs| ==> pairs[i] == (top[i], ms[top[i]]);
    assert TermsOf(pairs) == top;
  }

  /** The top words of a label: min(10, |vocab|) distinct vocabulary terms, each with the
      number of times it occurs in the rows of that label (possibly zero), in
      non-increasing order of count. */
  lemma TopWordsForSpec(filtered: seq<Record>, l: Label, vocab: seq<string>, stopWords: set<string>)
    requires NoDuplicates(vocab)
    ensures var pairs := TopWordsFor(filtered, l, vocab, stopWords);
            && |pairs| == Min(TopN, |vocab|)
            && (forall i :: 0 <= i < |pairs| ==>
                  pairs[i].0 in vocab && pairs[i].1 == multiset(LabelTerms(filtered, l, stopWords))[pairs[i].0])
            && (forall i, j :: 0 <= i < j < |pairs| ==> pairs[j].1 <= pairs[i].1)
            && NoDuplicates(TermsOf(pairs))
  {
    var ms := multiset(LabelTerms(filtered, l, stopWords));
    var top := SelectTop(vocab, ms, TopN);
    var pairs := TopWordsFor(filtered, l, vocab, stopWords);
    SelectTopIsTop(vocab, ms, TopN);
    TopWordsForPairs(filtered, l, vocab, stopWords);
    assert forall i :: 0 <= i < |pairs| ==> pairs[i] == (top[i], ms[top[i]]);
  }

  /** No vocabulary term left out of a label's top words occurs more often in that label's
      rows than one that was kept. */
  lemma TopWordsForDominates(filtered: seq<Record>, l: Label, vocab: seq<string>, stopWords: set<string>)
    requires NoDuplicates(vocab)
    ensures var pairs := TopWordsFor(filtered, l, vocab, stopWords);
            forall t, i :: t in vocab && t !in TermsOf(pairs) && 0 <= i < |pairs| ==>
              multiset(LabelTerms(filtered, l, stopWords))[t] <= pairs[i].1
  {
    var ms := multiset(LabelTerms(filtered, l, stopWords));
    var top := SelectTop(vocab, ms, TopN);
    var pairs := TopWordsFor(filtered, l, vocab, stopWords);
    SelectTopIsTop(vocab, ms, TopN);
    TopWordsForPairs(filtered, l, vocab, stopWords);
    assert forall i :: 0 <= i < |pairs| ==> pairs[i] == (top[i], ms[top[i]]);
  }

  /** The dictionary loop (app.py:86-91): one entry per selected label, holding that
      label's top words. */
  method TopWordsTable(filtered: seq<Record>, selected: seq<Label>, vocab: seq<string>, stopWords: set<string>)
    returns (table: map<Label, seq<(string, nat)>>)
    ensures forall l :: l in table <==> l in selected
    ensures forall l :: l in table ==> table[l] == TopWordsFor(filtered, l, vocab, stopWords)
  {
    table := map[];
    for i := 0 to |selected|
      invariant forall l :: l in table <==> l in selected[..i]
      invariant forall l :: l in table ==> table[l] == TopWordsFor(filtered, l, vocab, stopWords)
    {
      var l := selected[i];
      var entry := TopWordsFor(filtered, l, vocab, stopWords);
      var next := table[l := entry];
      TableKeysStep(table, next, selected, i);
      table := next;
    }
    assert selected[..|selected|] == selected;
  }

  lemma TableKeysStep(table: map<Label, seq<(string, nat)>>, next: map<Label, seq<(string, nat)>>, selected: seq<Label>, i: nat)
    requires i < |selected|
    requires forall l :: l in table <==> l in selected[..i]
    requires next.Keys == table.Keys + {selected[i]}
    ensures forall l :: l in next <==> l in selected[..i + 1]
  {
    assert selected[..i + 1] == selected[..i] + [selected[i]];
  }

  // ---------------------------------------------------------------------------
  // Recommendations (app.py:104-112)
  // ---------------------------------------------------------------------------

  const NegativeAdvice := "- Address complaints, improve product reliability."
  const PositiveAdvice := "- Reinforce strategies generating satisfaction."
  const NeutralAdvice := "- Convert neutral feedback into actionable insights."
  const IrrelevantAdvice := "- Clean dataset or create filtering rules for irrelevant content."

  /** The fixed label-to-advice table, in the order the script tests the labels. */
  const AdviceTable: seq<(Label, string)> := [
    ("Negative", NegativeAdvice),
    ("Positive", PositiveAdvice),
    ("Neutral", NeutralAdvice),
    ("Irrelevant", IrrelevantAdvice)
  ]

  /** The position of an advice line in AdviceTable; 4 for any other line. */
  function AdviceRank(line: string): nat {
    if line == NegativeAdvice then 0
    else if line == PositiveAdvice then 1
    else if line == NeutralAdvice then 2
    else if line == IrrelevantAdvice then 3
    else 4
  }

  /** The advice lines: the line of a table label appears exactly when that label is
      selected, only table lines appear, and they appear in table order. */
  function Recommendations(selected: seq<Label>): (lines: seq<string>)
    ensures forall k :: 0 <= k < |AdviceTable| ==> (AdviceTable[k].1 in lines <==> AdviceTable[k].0 in selected)
    ensures forall i :: 0 <= i < |lines| ==> AdviceRank(lines[i]) < |AdviceTable|
    ensures forall i, j :: 0 <= i < j < |lines| ==> AdviceRank(lines[i]) < AdviceRank(lines[j])
  {
    (if "Negative" in selected then [NegativeAdvice] else [])
    + (if "Positive" in selected then [PositiveAdvice] else [])
    + (if "Neutral" in selected then [NeutralAdvice] else [])
    + (if "Irrelevant" in selected then [IrrelevantAdvice] else [])
  }

  /** A selection without any of the four table labels, the empty one included, gets no advice. */
  lemma RecommendationsNone(selected: seq<Label>)
    requires forall k :: 0 <= k < |AdviceTable| ==> AdviceTable[k].0 !in selected
    ensures Recommendations(selected) == []
  {
    assert AdviceTable[0].0 !in selected && AdviceTable[1].0 !in selected;
    assert AdviceTable[2].0 !in selected && AdviceTable[3].0 !in selected;
  }

  // ---------------------------------------------------------------------------
  // The whole script body
  // ---------------------------------------------------------------------------

  /** Why no report is shown: the CSV has no `Text` column (an error message, then a
      KeyError once rows exist); the frame is empty; scikit-learn's "empty vocabulary"
      error at line 82. */
  datatype Failure = MissingTextColumn | NoRecords | EmptyVocabulary

  datatype Report = Report(
    records: seq<Record>,
    available: seq<Label>,
    filtered: seq<Record>,
    distribution: seq<(Label, nat)>,
    shares: seq<(Label, real)>,
    vocabulary: seq<string>,
    topWords: map<Label, seq<(string, nat)>>,
    dominant: Option<Label>,
    advice: seq<string>)

  datatype Outcome = Shown(report: Report) | Halted(failure: Failure)

  /** What a shown report holds for the given texts, classifier, stop words and selection. */
  ghost predicate IsReportFor(r: Report, texts: seq<string>, classify: string -> Label,
                              stopWords: set<string>, selected: seq<Label>) {
    && r.records == Classify(texts, classify)
    && r.available == Available(r.records)
    && r.filtered == KeepSelected(r.records, selected)
    && r.distribution == LabelCounts(Labels(r.filtered))
    && Total(r.distribution) > 0
    && r.shares == Shares(r.distribution)
    && r.vocabulary == Vocabulary(Docs(r.filtered), stopWords, MaxFeatures)
    && r.vocabulary != []
    && (forall l :: l in r.topWords <==> l in selected)
    && (forall l :: l in r.topWords ==> r.topWords[l] == TopWordsFor(r.filtered, l, r.vocabulary, stopWords))
    && r.dominant.Some?
    && r.dominant.value in r.topWords
    && r.dominant.value in Labels(r.filtered)
    && (forall l :: multiset(Labels(r.filtered))[l] <= multiset(Labels(r.filtered))[r.dominant.value])
    && r.advice == Recommendations(selected)
  }

  /** A list of at most 10 vocabulary terms, none a stop word and each at least two
      characters long, paired with their counts in `ms`, in non-increasing count order. */
  ghost predicate IsTopWordList(pairs: seq<(string, nat)>, vocab: seq<string>, stopWords: set<string>, ms: multiset<string>) {
    && |pairs| <= TopN
    && (forall i :: 0 <= i < |pairs| ==>
          pairs[i].0 in vocab && pairs[i].0 !in stopWords && |pairs[i].0| >= 2 && pairs[i].1 == ms[pairs[i].0])
    && (forall i, j :: 0 <= i < j < |pairs| ==> pairs[j].1 <= pairs[i].1)
  }

  lemma TopWordsForListed(filtered: seq<Record>, l: Label, stopWords: set<string>)
    ensures IsTopWordList(TopWordsFor(filtered, l, Vocabulary(Docs(filtered), stopWords, MaxFeatures), stopWords),
                          Vocabulary(Docs(filtered), stopWords, MaxFeatures), stopWords,
                          multiset(LabelTerms(filtered, l, stopWords)))
  {
    var vocab := Vocabulary(Docs(filtered), stopWords, MaxFeatures);
    var pairs := TopWordsFor(filtered, l, vocab, stopWords);
    var ms := multiset(LabelTerms(filtered, l, stopWords));
    VocabularyTerms(Docs(filtered), stopWords);
    TopWordsForSpec(filtered, l, vocab, stopWords);
    forall i | 0 <= i < |pairs|
      ensures pairs[i].0 in vocab && pairs[i].0 !in stopWords && |pairs[i].0| >= 2 && pairs[i].1 == ms[pairs[i].0]
    {
    }
  }

  /** The fitted vocabulary has no duplicate, and its terms are not stop words and have at
      least two characters. */
  lemma VocabularyTerms(docs: seq<string>, stopWords: set<string>)
    ensures NoDuplicates(Vocabulary(docs, stopWords, MaxFeatures))
    ensures forall t :: t in Vocabulary(docs, stopWords, MaxFeatures) ==> t !in stopWords && |t| >= 2
  {
    VocabularyIsFitted(docs, stopWords, MaxFeatures);
  }

  /** In a report built as IsReportFor says, the vocabulary is a valid choice of at
      most 50 most frequent corpus terms, and every selected label's top words are a
      top-word list over it whose terms are a valid choice of the 10 vocabulary terms
      most frequent in that label's rows. */
  lemma ReportTopWords(r: Report, stopWords: set<string>)
    requires r.vocabulary == Vocabulary(Docs(r.filtered), stopWords, MaxFeatures)
    requires forall l :: l in r.topWords ==> r.topWords[l] == TopWordsFor(r.filtered, l, r.vocabulary, stopWords)
    ensures |r.vocabulary| <= MaxFeatures
    ensures IsTopSelection(Distinct(CorpusTerms(Docs(r.filtered), stopWords)),
                           multiset(CorpusTerms(Docs(r.filtered), stopWords)), MaxFeatures, r.vocabulary)
    ensures forall l :: l in r.topWords ==>
              IsTopWordList(r.topWords[l], r.vocabulary, stopWords, multiset(LabelTerms(r.filtered, l, stopWords)))
    ensures forall l :: l in r.topWords ==>
              IsTopSelection(r.vocabulary, multiset(LabelTerms(r.filtered, l, stopWords)), TopN, TermsOf(r.topWords[l]))
  {
    VocabularyIsFitted(Docs(r.filtered), stopWords, MaxFeatures);
    forall l | l in r.topWords
      ensures IsTopWordList(r.topWords[l], r.vocabulary, stopWords, multiset(LabelTerms(r.filtered, l, stopWords)))
      ensures IsTopSelection(r.vocabulary, multiset(LabelTerms(r.filtered, l, stopWords)), TopN, TermsOf(r.topWords[l]))
    {
      TopWordsForListed(r.filtered, l, stopWords);
      TopWordsForPairs(r.filtered, l, r.vocabulary, stopWords);
      SelectTopIsTop(r.vocabulary, multiset(LabelTerms(r.filtered, l, stopWords)), TopN);
    }
  }

  /** A fitted vocabulary implies a non-empty filtered frame, hence a non-empty
      selection, and its most frequent label is one of the selected labels. */
  lemma NonEmptyCorpus(filtered: seq<Record>, selected: seq<Label>, records: seq<Record>, stopWords: set<string>)
    requires filtered == KeepSelected(records, selected)
    requires CorpusTerms(Docs(filtered), stopWords) != []
    ensures |filtered| > 0 && |selected| > 0
    ensures MostFrequent(Labels(filtered)) in selected
    ensures Total(LabelCounts(Labels(filtered))) > 0
  {
    KeepSelectedExact(records, selected);
    assert filtered[0].sentiment in selected;
    var main := MostFrequent(Labels(filtered));
    var i :| 0 <= i < |filtered| && Labels(filtered)[i] == main;
    LabelCountsTotal(Labels(filtered));
  }

  /** Lines 57-112 once the frame has rows. */
  method Analyse(texts: seq<string>, classify: string -> Label, stopWords: set<string>, selected: seq<Label>)
    returns (out: Outcome)
    ensures out.Halted? <==> out == Halted(EmptyVocabulary)
    ensures out == Halted(EmptyVocabulary) <==>
              CorpusTerms(Docs(KeepSelected(Classify(texts, classify), selected)), stopWords) == []
    ensures out.Shown? ==> IsReportFor(out.report, texts, classify, stopWords, selected)
  {
    var records := Classify(texts, classify);
    var available := Available(records);
    var filtered := KeepSelected(records, selected);
    var distribution := LabelCounts(Labels(filtered));
    var vocabulary := Vocabulary(Docs(filtered), stopWords, MaxFeatures);
    VocabularyEmpty(Docs(filtered), stopWords, MaxFeatures);
    if vocabulary == [] {
      return Halted(EmptyVocabulary);
    }
    NonEmptyCorpus(filtered, selected, records, stopWords);
    var shares := Shares(distribution);
    var topWords := TopWordsTable(filtered, selected, vocabulary, stopWords);
    var dominant: Option<Label> := None;
    if |selected| > 0 {
      dominant := Some(MostFrequent(Labels(filtered)));
    }
    var advice := Recommendations(selected);
    out := Shown(Report(records, available, filtered, distribution, shares, vocabulary, topWords, dominant, advice));
  }

  /** Lines 37-112 for one upload, `selected` being the user's choice in the multiselect. */
  method RunDashboard(upload: Upload, classify: string -> Label, stopWords: set<string>, selected: seq<Label>)
    returns (out: Outcome)
    ensures upload.CsvUpload? && !upload.hasTextColumn <==> out == Halted(MissingTextColumn)
    ensures out == Halted(NoRecords) <==>
              !(upload.CsvUpload? && !upload.hasTextColumn) && UploadTexts(upload) == []
    ensures out == Halted(EmptyVocabulary) <==>
              && !(upload.CsvUpload? && !upload.hasTextColumn)
              && UploadTexts(upload) != []
              && CorpusTerms(Docs(KeepSelected(Classify(UploadTexts(upload), classify), selected)), stopWords) == []
    ensures out.Shown? ==> IsReportFor(out.report, UploadTexts(upload), classify, stopWords, selected)
  {
    var texts: seq<string>;
    match upload {
      case PdfUpload(pages) =>
        texts := ExtractPageTexts(pages);
      case CsvUpload(hasTextColumn, column) =>
        if !hasTextColumn {
          return Halted(MissingTextColumn);
        }
        texts := column;
      case OtherUpload =>
        texts := [];
    }
    if |texts| == 0 {
      return Halted(NoRecords);
    }
    out := Analyse(texts, classify, stopWords, selected);
  }

  // ---------------------------------------------------------------------------
  // Finding: words_df['Sentiment'] = filtered_df['Sentiment'] (app.py:84)
  // ---------------------------------------------------------------------------

  /** As written: the assignment aligns on the index. Row j of the fresh count frame gets
      the label of the ORIGINAL row j if that row survived the filter, and no label (NaN)
      otherwise. */
  function AlignedLabels(records: seq<Record>, selected: seq<Label>): (tags: seq<Option<Label>>)
    ensures |tags| == |KeepSelected(records, selected)|
  {
    var n := |KeepSelected(records, selected)|;
    seq(n, j requires 0 <= j < n => if records[j].sentiment in selected then Some(records[j].sentiment) else None)
  }

  /** Each row tagged with its own label: the pairing the script means. */
  function RowLabels(rows: seq<Record>): (tags: seq<Option<Label>>)
    ensures |tags| == |rows|
  {
    seq(|rows|, j requires 0 <= j < |rows| => Some(rows[j].sentiment))
  }

  /** The documents whose tag is `l`, in order. */
  function PickDocs(docs: seq<string>, tags: seq<Option<Label>>, l: Label): (r: seq<string>)
    requires |docs| == |tags|
    ensures |r| <= |docs|
    ensures forall d :: d in r ==> d in docs
    decreases |docs|
  {
    if docs == [] then [] else (if tags[0] == Some(l) then [docs[0]] else []) + PickDocs(docs[1..], tags[1..], l)
  }

  /** The documents counted for label `l` as written. */
  function AsWrittenLabelDocs(records: seq<Record>, selected: seq<Label>, l: Label): (r: seq<string>)
    ensures |r| <= |KeepSelected(records, selected)|
    ensures forall d :: d in r ==> d in Docs(KeepSelected(records, selected))
  {
    PickDocs(Docs(KeepSelected(records, selected)), AlignedLabels(records, selected), l)
  }

  /** With one label filtered out, the surviving row loses its label: the texts counted for
      "Negative" are none as written, where the row-wise pairing counts "bad". */
  lemma AlignmentMisattributes()
    ensures AsWrittenLabelDocs([Record("good", "good", "Positive"), Record("bad", "bad", "Negative")], ["Negative"], "Negative") == []
    ensures LabelDocs(KeepSelected([Record("good", "good", "Positive"), Record("bad", "bad", "Negative")], ["Negative"]), "Negative") == ["bad"]
  {
    var records := [Record("good", "good", "Positive"), Record("bad", "bad", "Negative")];
    var f := KeepSelected(records, ["Negative"]);
    assert records[1..][1..] == [];
    assert f == [records[1]];
    assert AlignedLabels(records, ["Negative"]) == [None];
    assert Docs(f) == ["bad"];
    assert Filter(f, HasLabel("Negative")) == f by {
      assert f[1..] == [];
    }
  }

  /** LabelDocs pairs each row with its own label. */
  lemma {:induction false} LabelDocsRowWise(rows: seq<Record>, l: Label)
    ensures LabelDocs(rows, l) == PickDocs(Docs(rows), RowLabels(rows), l)
    decreases |rows|
  {
    if rows != [] {
      LabelDocsRowWise(rows[1..], l);
      LabelDocsCons(rows, l);
      assert Docs(rows)[1..] == Docs(rows[1..]);
      assert RowLabels(rows)[1..] == RowLabels(rows[1..]);
    }
  }

  lemma {:induction false} FilterLabelOfSelected(rows: seq<Record>, selected: seq<Label>, l: Label)
    requires l in selected
    ensures Filter(Filter(rows, SelectedBy(selected)), HasLabel(l)) == Filter(rows, HasLabel(l))
    decreases |rows|
  {
    if rows != [] {
      FilterLabelOfSelected(rows[1..], selected, l);
      var f := Filter(rows, SelectedBy(selected));
      if SelectedBy(selected)(rows[0]) {
        assert f[0] == rows[0] && f[1..] == Filter(rows[1..], SelectedBy(selected));
      } else {
        assert f == Filter(rows[1..], SelectedBy(selected));
        assert !HasLabel(l)(rows[0]);
        assert Filter(rows, HasLabel(l)) == Filter(rows[1..], HasLabel(l));
      }
    }
  }

  /** Intended behaviour: filtering never changes which texts a selected label counts. */
  lemma LabelDocsUnderFilter(records: seq<Record>, selected: seq<Label>, l: Label)
    requires l in selected
    ensures LabelDocs(KeepSelected(records, selected), l) == LabelDocs(records, l)
  {
    FilterLabelOfSelected(records, selected, l);
  }

  /** As written and intended agree when the filter drops no row. */
  lemma AlignmentHoldsWithoutFiltering(records: seq<Record>, selected: seq<Label>, l: Label)
    requires forall i :: 0 <= i < |records| ==> records[i].sentiment in selected
    ensures AsWrittenLabelDocs(records, selected, l) == LabelDocs(KeepSelected(records, selected), l)
  {
    FilterAll(records, SelectedBy(selected));
    assert AlignedLabels(records, selected) == RowLabels(records);
    LabelDocsRowWise(records, l);
  }
}
