/** Gathering the statements of several documents into one transaction table
    (`pdfs_to_dataframe`): documents that yielded nothing are dropped, the rest are
    concatenated in the order given, and non-positive amounts are filtered out. */
module Aggregator {
  import opened Types
  import opened Scanner

  /** The per-document tables that hold at least one transaction, in order. */
  function NonEmpty(docs: seq<seq<Transaction>>): (r: seq<seq<Transaction>>)
    ensures forall i :: 0 <= i < |r| ==> |r[i]| > 0
    ensures IsSubseq(r, docs)
    ensures Flatten(r) == Flatten(docs)
  {
    if |docs| == 0 then []
    else
      var rest := NonEmpty(docs[1..]);
      if |docs[0]| == 0 then
        SubseqSkip(rest, docs);
        rest
      else
        assert ([docs[0]] + rest)[1..] == rest;
        [docs[0]] + rest
  }

  predicate IsExpense(t: Transaction)
  {
    t.amount > 0.0
  }

  /** The row filter `amount > 0`: exactly the positive transactions, in order, each
      as often as it occurs. */
  function KeepPositive(ts: seq<Transaction>): (r: seq<Transaction>)
    ensures AllPositive(r)
    ensures IsSubseq(r, ts)
    ensures forall t :: t in r <==> t in ts && t.amount > 0.0
    ensures |r| == Count(ts, IsExpense)
    ensures AllPositive(ts) ==> r == ts
  {
    Filter(ts, IsExpense)
  }

  /** The concatenation step followed by the positivity filter; no table at all gives
      an empty result, as the early return of an empty frame does. */
  function Aggregate(docs: seq<seq<Transaction>>): (r: seq<Transaction>)
    ensures AllPositive(r)
    ensures IsSubseq(r, Flatten(docs))
    ensures forall t :: t in r <==> t in Flatten(docs) && t.amount > 0.0
    ensures |r| == Count(Flatten(docs), IsExpense)
  {
    var kept := NonEmpty(docs);
    if |kept| == 0 then
      assert Flatten(docs) == [];
      []
    else
      KeepPositive(Flatten(kept))
  }

  /** The documents' extracted tables, one per document, in the order given. */
  function Extracted(docPages: seq<seq<Option<string>>>): seq<seq<Transaction>>
  {
    Map(ExtractDocument, docPages)
  }

  /** The whole loading step: extract every document, then aggregate. Extraction only
      keeps positive amounts, so the aggregation's filter removes nothing and the
      result is every document's transactions, document after document. */
  function LoadAll(docPages: seq<seq<Option<string>>>): (r: seq<Transaction>)
    ensures AllPositive(r)
    ensures r == Flatten(Extracted(docPages))
  {
    AggregatePositive(Extracted(docPages));
    Aggregate(Extracted(docPages))
  }

  /** When every table already holds positive amounts only, aggregation is plain
      concatenation. */
  lemma AggregatePositive(docs: seq<seq<Transaction>>)
    requires forall i :: 0 <= i < |docs| ==> AllPositive(docs[i])
    ensures Aggregate(docs) == Flatten(docs)
  {
    FlattenPositive(docs);
  }

  lemma {:induction false} FlattenPositive(docs: seq<seq<Transaction>>)
    requires forall i :: 0 <= i < |docs| ==> AllPositive(docs[i])
    ensures AllPositive(Flatten(docs))
    decreases |docs|
  {
    if |docs| > 0 {
      FlattenPositive(docs[1..]);
      var h: seq<Transaction>, t: seq<Transaction> := docs[0], Flatten(docs[1..]);
      assert AllPositive(h);
      forall i | 0 <= i < |h + t| ensures (h + t)[i].amount > 0.0 {
        if i >= |h| {
          assert (h + t)[i] == t[i - |h|];
        }
      }
    }
  }

  /** Loading documents one after another is loading each and concatenating. */
  lemma LoadAllAppend(a: seq<seq<Option<string>>>, b: seq<seq<Option<string>>>)
    ensures LoadAll(a + b) == LoadAll(a) + LoadAll(b)
  {
    var ea, eb := Extracted(a), Extracted(b);
    assert Extracted(a + b) == ea + eb by {
      MapAppend(ExtractDocument, a, b);
    }
    assert LoadAll(a + b) == Flatten(ea) + Flatten(eb) by {
      FlattenAppend(ea, eb);
    }
  }
}
