/** The index of `KeywordRetriever` (evolution/hybrid_retrieval.py): document frequencies, document
    count and average length, kept up to date while documents are added and replaced.  Tokenising
    is an input: a document is given by its tokens.
 */
module KeywordIndex {

  type DocId = string
  type Token = string
  type Documents = map<DocId, seq<Token>>

  // ----- what an index built from scratch contains

  ghost function DocsWith(docs: Documents, t: Token): set<DocId> {
    set d | d in docs && t in docs[d]
  }

  /** freq holds exactly the occurring terms, each with the number of documents it occurs in. */
  ghost predicate Frequencies(docs: Documents, freq: map<Token, int>) {
    forall t :: FrequencyOf(docs, freq, t)
  }

  ghost predicate FrequencyOf(docs: Documents, freq: map<Token, int>, t: Token) {
    if DocsWith(docs, t) == {} then t !in freq else t in freq && freq[t] == |DocsWith(docs, t)|
  }

  /** The total length of the given documents. */
  ghost function TotalLength(docs: Documents, ids: set<DocId>): nat
    requires ids <= docs.Keys
  {
    if ids == {} then 0
    else
      var d :| d in ids;
      |docs[d]| + TotalLength(docs, ids - {d})
  }

  ghost predicate AverageLength(docs: Documents, average: real) {
    if docs == map[] then average == 0.0
    else average == TotalLength(docs, docs.Keys) as real / |docs| as real
  }

  lemma {:induction false} TotalTakeOut(docs: Documents, ids: set<DocId>, x: DocId)
    requires ids <= docs.Keys && x in ids
    ensures TotalLength(docs, ids) == |docs[x]| + TotalLength(docs, ids - {x})
    decreases ids
  {
    var d :| d in ids && TotalLength(docs, ids) == |docs[d]| + TotalLength(docs, ids - {d});
    if d == x {
    } else {
      TotalTakeOut(docs, ids - {d}, x);
      TotalTakeOut(docs, ids - {x}, d);
      assert ids - {d} - {x} == ids - {x} - {d};
    }
  }

  lemma {:induction false} TotalFrame(docs: Documents, docs': Documents, ids: set<DocId>)
    requires ids <= docs.Keys && ids <= docs'.Keys && forall d :: d in ids ==> docs[d] == docs'[d]
    ensures TotalLength(docs, ids) == TotalLength(docs', ids)
    decreases ids
  {
    if ids == {} {
    } else {
      var d :| d in ids;
      TotalFrame(docs, docs', ids - {d});
      TotalTakeOut(docs, ids, d);
      TotalTakeOut(docs', ids, d);
    }
  }

  lemma QuotientBack(x: real, y: real)
    requires y > 0.0
    ensures x / y * y == x
  {
  }

  lemma QuotientTimes(average: real, x: real, y: real)
    requires y > 0.0 && average == x / y
    ensures average * y == x
  {
    QuotientBack(x, y);
  }

  lemma AverageTimesCount(docs: Documents, average: real, n: real, total: real)
    requires AverageLength(docs, average) && n == |docs| as real && total == TotalLength(docs, docs.Keys) as real
    ensures average * n == total
  {
    if docs == map[] {
      assert docs.Keys == {};
    } else {
      assert |docs.Keys| > 0;
      QuotientTimes(average, total, n);
    }
  }

  lemma OneMoreDocument(docs: Documents, d: DocId, tokens: seq<Token>)
    requires d !in docs
    ensures var more := docs[d := tokens];
            |more| == |docs| + 1 && TotalLength(more, more.Keys) == TotalLength(docs, docs.Keys) + |tokens|
  {
    var more := docs[d := tokens];
    assert more.Keys == docs.Keys + {d} && more.Keys - {d} == docs.Keys;
    assert |more.Keys| == |docs.Keys| + 1;
    TotalTakeOut(more, more.Keys, d);
    TotalFrame(docs, more, docs.Keys);
  }

  lemma AverageOfNone(average: real)
    requires AverageLength(map[], average)
    ensures average == 0.0
  {
  }

  /** A new document moves the average by its length: times the number of documents, the average grows by the
      number of tokens. */
  lemma AverageMoves(docs: Documents, d: DocId, tokens: seq<Token>, before: real, after: real, n: real)
    requires d !in docs && AverageLength(docs, before) && AverageLength(docs[d := tokens], after)
    requires n == |docs| as real
    ensures after * (n + 1.0) == before * n + |tokens| as real
  {
    var more := docs[d := tokens];
    var total, total' := TotalLength(docs, docs.Keys), TotalLength(more, more.Keys);
    OneMoreDocument(docs, d, tokens);
    AverageTimesCount(docs, before, n, total as real);
    AverageTimesCount(more, after, n + 1.0, total' as real);
    assert total' as real == total as real + |tokens| as real;
  }

  /** The documents determine the index. */
  lemma IndexIsDetermined(docs: Documents, f1: map<Token, int>, f2: map<Token, int>)
    requires Frequencies(docs, f1) && Frequencies(docs, f2)
    ensures f1 == f2
  {
    forall t ensures t in f1 <==> t in f2 {
      assert FrequencyOf(docs, f1, t) && FrequencyOf(docs, f2, t);
    }
    forall t | t in f1 ensures f1[t] == f2[t] {
      assert FrequencyOf(docs, f1, t) && FrequencyOf(docs, f2, t);
    }
  }

  lemma FrequencyFits(docs: Documents, freq: map<Token, int>, t: Token)
    requires Frequencies(docs, freq) && t in freq
    ensures 1 <= freq[t] <= |docs|
  {
    assert FrequencyOf(docs, freq, t);
    SubsetSize(DocsWith(docs, t), docs.Keys);
  }

  lemma {:induction false} SubsetSize(a: set<DocId>, b: set<DocId>)
    requires a <= b
    ensures |a| <= |b|
  {
    assert b == a + (b - a);
  }

  /** The argument of the logarithm in `_idf`. */
  function IdfArgument(totalDocs: int, df: int): real
    requires df >= 0
  {
    1.0 + (totalDocs as real - df as real + 0.5) / (df as real + 0.5)
  }

  /** For a known term the logarithm is taken of a number above one, so the weight is positive. */
  lemma IdfIsPositive(docs: Documents, freq: map<Token, int>, t: Token)
    requires Frequencies(docs, freq) && t in freq
    ensures freq[t] >= 1 && IdfArgument(|docs|, freq[t]) > 1.0
    ensures IdfArgument(|docs|, freq[t]) * (freq[t] as real + 0.5) == |docs| as real + 1.0
  {
    FrequencyFits(docs, freq, t);
    QuotientBack(|docs| as real - freq[t] as real + 0.5, freq[t] as real + 0.5);
    PositiveQuotient(|docs| as real - freq[t] as real + 0.5, freq[t] as real + 0.5);
  }

  lemma PositiveQuotient(x: real, y: real)
    requires x > 0.0 && y > 0.0
    ensures x / y > 0.0
  {
  }

  lemma AddingChangesDocsWith(docs: Documents, d: DocId, tokens: seq<Token>, t: Token)
    requires d !in docs
    ensures DocsWith(docs[d := tokens], t) == DocsWith(docs, t) + if t in tokens then {d} else {}
    ensures d !in DocsWith(docs, t)
  {
  }

  // ----- the counting loops

  /** One token counted. */
  ghost predicate Counted(before: map<Token, int>, after: map<Token, int>, tokens: set<Token>) {
    forall t :: CountedAt(before, after, tokens, t)
  }

  ghost predicate CountedAt(before: map<Token, int>, after: map<Token, int>, tokens: set<Token>, t: Token) {
    if t in tokens then t in after && after[t] == (if t in before then before[t] else 0) + 1
    else (t in after <==> t in before) && (t in after ==> after[t] == before[t])
  }

  method CountUp(freq0: map<Token, int>, tokens: set<Token>) returns (freq: map<Token, int>)
    ensures Counted(freq0, freq, tokens)
  {
    freq := freq0;
    var todo := tokens;
    while todo != {}
      invariant todo <= tokens
      invariant Counted(freq0, freq, tokens - todo)
      decreases |todo|
    {
      var t :| t in todo;
      assert CountedAt(freq0, freq, tokens - todo, t);
      var next := freq[t := (if t in freq then freq[t] else 0) + 1];
      forall s ensures CountedAt(freq0, next, tokens - (todo - {t}), s) {
        assert CountedAt(freq0, freq, tokens - todo, s);
      }
      freq := next;
      todo := todo - {t};
    }
    assert tokens - todo == tokens;
  }

  /** The inverse: decrement, and delete what drops to zero. */
  ghost predicate UncountedAt(before: map<Token, int>, after: map<Token, int>, tokens: set<Token>, t: Token) {
    if t in tokens then
      var n := (if t in before then before[t] else 0) - 1;
      if n <= 0 then t !in after else t in after && after[t] == n
    else (t in after <==> t in before) && (t in after ==> after[t] == before[t])
  }

  ghost predicate Uncounted(before: map<Token, int>, after: map<Token, int>, tokens: set<Token>) {
    forall t :: UncountedAt(before, after, tokens, t)
  }

  method CountDown(freq0: map<Token, int>, tokens: set<Token>) returns (freq: map<Token, int>)
    ensures Uncounted(freq0, freq, tokens)
  {
    freq := freq0;
    var todo := tokens;
    while todo != {}
      invariant todo <= tokens
      invariant Uncounted(freq0, freq, tokens - todo)
      decreases |todo|
    {
      var t :| t in todo;
      assert UncountedAt(freq0, freq, tokens - todo, t);
      var n := (if t in freq then freq[t] else 0) - 1;
      var next := if n <= 0 then freq - {t} else freq[t := n];
      forall s ensures UncountedAt(freq0, next, tokens - (todo - {t}), s) {
        assert UncountedAt(freq0, freq, tokens - todo, s);
      }
      freq := next;
      todo := todo - {t};
    }
    assert tokens - todo == tokens;
  }

  ghost function TokenSet(tokens: seq<Token>): set<Token> {
    set t | t in tokens
  }

  lemma CountingAdds(docs: Documents, d: DocId, tokens: seq<Token>, before: map<Token, int>, after: map<Token, int>)
    requires d !in docs && Frequencies(docs, before) && Counted(before, after, TokenSet(tokens))
    ensures Frequencies(docs[d := tokens], after)
  {
    var more := docs[d := tokens];
    forall t ensures FrequencyOf(more, after, t) {
      assert FrequencyOf(docs, before, t) && CountedAt(before, after, TokenSet(tokens), t);
      AddingChangesDocsWith(docs, d, tokens, t);
    }
  }

  lemma UncountingRemoves(docs: Documents, d: DocId, before: map<Token, int>, after: map<Token, int>)
    requires d in docs && Frequencies(docs, before) && Uncounted(before, after, TokenSet(docs[d]))
    ensures Frequencies(docs - {d}, after)
  {
    var rest := docs - {d};
    assert rest[d := docs[d]] == docs;
    forall t ensures FrequencyOf(rest, after, t) {
      assert FrequencyOf(docs, before, t) && UncountedAt(before, after, TokenSet(docs[d]), t);
      AddingChangesDocsWith(rest, d, docs[d], t);
    }
  }

  class KeywordRetriever {
    var docTokens: Documents
    var docFreq: map<Token, int>
    var totalDocs: int
    var avgDocLength: real

    /** The index is the one built from scratch from the present documents. */
    ghost predicate Valid()
      reads this
    {
      && Frequencies(docTokens, docFreq)
      && totalDocs == |docTokens|
      && AverageLength(docTokens, avgDocLength)
    }

    constructor ()
      ensures Valid() && docTokens == map[]
    {
      docTokens, docFreq, totalDocs, avgDocLength := map[], map[], 0, 0.0;
      new;
      forall t ensures FrequencyOf(docTokens, docFreq, t) {
      }
    }

    method UpdateAvgLength()
      requires totalDocs == |docTokens|
      modifies this`avgDocLength
      ensures AverageLength(docTokens, avgDocLength)
    {
      if totalDocs == 0 {
        avgDocLength := 0.0;
        return;
      }
      var total, todo := 0, docTokens.Keys;
      while todo != {}
        invariant todo <= docTokens.Keys
        invariant total + TotalLength(docTokens, todo) == TotalLength(docTokens, docTokens.Keys)
        decreases |todo|
      {
        var d :| d in todo;
        TotalTakeOut(docTokens, todo, d);
        total := total + |docTokens[d]|;
        todo := todo - {d};
      }
      avgDocLength := total as real / totalDocs as real;
    }

    method RemoveDocument(d: DocId)
      requires Valid()
      modifies this
      ensures Valid() && docTokens == old(docTokens) - {d}
    {
      if d !in docTokens {
        return;
      }
      docFreq := CountDown(docFreq, set t | t in docTokens[d]);
      UncountingRemoves(docTokens, d, old(docFreq), docFreq);
      assert |docTokens| == |docTokens - {d}| + 1 by {
        assert docTokens == (docTokens - {d})[d := docTokens[d]];
      }
      docTokens := docTokens - {d};
      totalDocs := totalDocs - 1;
      UpdateAvgLength();
    }

    /** Adding, or replacing an earlier version. */
    method AddDocument(d: DocId, tokens: seq<Token>)
      requires Valid()
      modifies this
      ensures Valid() && docTokens == old(docTokens)[d := tokens]
    {
      if d in docTokens {
        RemoveDocument(d);
      }
      ghost var before := docFreq;
      docFreq := CountUp(docFreq, set t | t in tokens);
      CountingAdds(docTokens, d, tokens, before, docFreq);
      docTokens := docTokens[d := tokens];
      totalDocs := totalDocs + 1;
      UpdateAvgLength();
    }
  }

  /** After any history of additions and replacements two indexes with the same documents agree. */
  lemma HistoryDoesNotMatter(a: KeywordRetriever, b: KeywordRetriever)
    requires a.Valid() && b.Valid() && a.docTokens == b.docTokens
    ensures a.docFreq == b.docFreq && a.totalDocs == b.totalDocs && a.avgDocLength == b.avgDocLength
  {
    IndexIsDetermined(a.docTokens, a.docFreq, b.docFreq);
  }
}
