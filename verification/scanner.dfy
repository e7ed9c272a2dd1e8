/** The statement-line parser: every match of the pattern `-\s?[0-9.,]+` in a line,
    the rightmost one normalised into the line's expense, and the per-document
    extraction that applies it to every line of every page after the cover pages. */
module Scanner {
  import opened Types
  import opened Text
  import opened Nominal

  /** The character class `[0-9.,]`. */
  predicate InClass(c: char)
  {
    IsDigit(c) || c == '.' || c == ','
  }

  /** `s[b..j]` is a maximal, non-empty run of class characters. */
  predicate ClassRun(s: string, b: nat, j: nat)
  {
    && b < j <= |s|
    && (forall k :: b <= k < j ==> InClass(s[k]))
    && (j == |s| || !InClass(s[j]))
  }

  /** `s[i..j]` is what `-\s?[0-9.,]+` matches when the regular expression is tried at
      position `i`: a minus, at most one whitespace character, then the longest run of
      class characters (the `+` is greedy). */
  predicate IsMatch(s: string, i: nat, j: nat)
  {
    && i < |s| && s[i] == '-'
    && (ClassRun(s, i + 1, j) || (i + 1 < |s| && IsSpace(s[i + 1]) && ClassRun(s, i + 2, j)))
  }

  /** End of the run of class characters that starts at `b`. */
  function RunEnd(s: string, b: nat): (j: nat)
    requires b <= |s|
    ensures b <= j <= |s|
    ensures forall k :: b <= k < j ==> InClass(s[k])
    ensures j == |s| || !InClass(s[j])
    decreases |s| - b
  {
    if b == |s| || !InClass(s[b]) then b else RunEnd(s, b + 1)
  }

  lemma RunUnique(s: string, b: nat, j: nat)
    requires b <= |s|
    requires ClassRun(s, b, j)
    ensures j == RunEnd(s, b)
  {
  }

  /** Trying the pattern at position `i`: the end of the match, if there is one. */
  function MatchAt(s: string, i: nat): (r: Option<nat>)
    requires i <= |s|
    ensures r.Some? ==> IsMatch(s, i, r.value)
    ensures forall j: nat :: IsMatch(s, i, j) ==> r == Some(j)
  {
    if i < |s| && s[i] == '-' then
      if i + 2 < |s| && IsSpace(s[i + 1]) && InClass(s[i + 2]) then
        var j := RunEnd(s, i + 2);
        forall j': nat | IsMatch(s, i, j') ensures j' == j {
          assert !InClass(s[i + 1]);
          RunUnique(s, i + 2, j');
        }
        Some(j)
      else if i + 1 < |s| && InClass(s[i + 1]) then
        var j := RunEnd(s, i + 1);
        forall j': nat | IsMatch(s, i, j') ensures j' == j {
          assert !IsSpace(s[i + 1]);
          RunUnique(s, i + 1, j');
        }
        Some(j)
      else
        None
    else
      None
  }

  /** One match: the start and end positions of the matched slice. */
  datatype Span = Span(start: nat, end: nat)

  function Starts(spans: seq<Span>): set<nat>
  {
    set k | 0 <= k < |spans| :: spans[k].start
  }

  /** The left-to-right scan of `re.findall` from position `from`: after a match the
      scan resumes at its end, otherwise one position further. */
  function Spans(s: string, from: nat): (r: seq<Span>)
    requires from <= |s|
    ensures forall k :: 0 <= k < |r| ==> from <= r[k].start < r[k].end <= |s|
    decreases |s| - from
  {
    if from == |s| then []
    else
      match MatchAt(s, from)
      case None => Spans(s, from + 1)
      case Some(j) => [Span(from, j)] + Spans(s, j)
  }

  /** Every span the scan reports is a match. */
  lemma {:induction false} SpansAreMatches(s: string, from: nat)
    requires from <= |s|
    ensures forall k :: 0 <= k < |Spans(s, from)| ==>
              MatchAt(s, Spans(s, from)[k].start) == Some(Spans(s, from)[k].end)
    decreases |s| - from
  {
    if from < |s| {
      var m := MatchAt(s, from);
      if m.Some? {
        SpansAreMatches(s, m.value);
        MatchesStep(s, from, m.value);
      } else {
        SpansAreMatches(s, from + 1);
        assert Spans(s, from) == Spans(s, from + 1);
      }
    }
  }

  lemma MatchesStep(s: string, from: nat, j: nat)
    requires from < |s| && MatchAt(s, from) == Some(j)
    requires forall k :: 0 <= k < |Spans(s, j)| ==> MatchAt(s, Spans(s, j)[k].start) == Some(Spans(s, j)[k].end)
    ensures forall k :: 0 <= k < |Spans(s, from)| ==>
              MatchAt(s, Spans(s, from)[k].start) == Some(Spans(s, from)[k].end)
  {
    var rest := Spans(s, j);
    var sp := Spans(s, from);
    assert sp == [Span(from, j)] + rest;
    forall k | 0 <= k < |sp| ensures MatchAt(s, sp[k].start) == Some(sp[k].end) {
      if k > 0 {
        assert sp[k] == rest[k - 1];
      } else {
        assert sp[0] == Span(from, j);
      }
    }
  }

  /** The spans come in order and never overlap. */
  lemma {:induction false} SpansDisjoint(s: string, from: nat)
    requires from <= |s|
    ensures forall k :: 0 <= k < |Spans(s, from)| - 1 ==>
              Spans(s, from)[k].end <= Spans(s, from)[k + 1].start
    decreases |s| - from
  {
    if from < |s| {
      var m := MatchAt(s, from);
      if m.Some? {
        var j := m.value;
        SpansDisjoint(s, j);
        var rest := Spans(s, j);
        var sp := Spans(s, from);
        assert sp == [Span(from, j)] + rest;
        forall k | 0 <= k < |sp| - 1 ensures sp[k].end <= sp[k + 1].start {
          assert sp[k + 1] == rest[k];
          if k > 0 {
            assert sp[k] == rest[k - 1];
          }
        }
      } else {
        SpansDisjoint(s, from + 1);
        assert Spans(s, from) == Spans(s, from + 1);
      }
    }
  }

  /** The scan misses nothing: every position where the pattern matches starts a span.
      No match can begin inside another, since the class excludes `-`. */
  lemma {:induction false} SpansComplete(s: string, from: nat)
    requires from <= |s|
    ensures forall p :: from <= p < |s| && MatchAt(s, p).Some? ==> p in Starts(Spans(s, from))
    decreases |s| - from
  {
    if from < |s| {
      var m := MatchAt(s, from);
      if m.Some? {
        var j := m.value;
        SpansComplete(s, j);
        MatchInterior(s, from, j);
        CompleteStep(s, from, j);
      } else {
        SpansComplete(s, from + 1);
        assert Spans(s, from) == Spans(s, from + 1);
      }
    }
  }

  /** No match starts strictly inside another: the class excludes `-`. */
  lemma MatchInterior(s: string, i: nat, j: nat)
    requires i <= |s| && MatchAt(s, i) == Some(j)
    ensures forall p :: i < p < j ==> MatchAt(s, p).None?
  {
    assert forall p :: i < p < j ==> s[p] != '-';
  }

  lemma CompleteStep(s: string, from: nat, j: nat)
    requires from < |s| && MatchAt(s, from) == Some(j)
    requires forall p :: from < p < j ==> MatchAt(s, p).None?
    requires forall p :: j <= p < |s| && MatchAt(s, p).Some? ==> p in Starts(Spans(s, j))
    ensures forall p :: from <= p < |s| && MatchAt(s, p).Some? ==> p in Starts(Spans(s, from))
  {
    var rest := Spans(s, j);
    var sp := Spans(s, from);
    assert sp == [Span(from, j)] + rest;
    forall p | from <= p < |s| && MatchAt(s, p).Some? ensures p in Starts(sp) {
      if p == from {
        assert sp[0].start == p;
      } else if p >= j {
        var k :| 0 <= k < |rest| && rest[k].start == p;
        assert sp[k + 1].start == p;
      }
    }
  }

  /** The matches' slices, in order: what `re.findall` returns. */
  function FindAll(s: string): (r: seq<string>)
    ensures |r| == |Spans(s, 0)|
    ensures forall k :: 0 <= k < |r| ==> |r[k]| >= 2 && r[k][0] == '-'
    ensures forall k :: 0 <= k < |r| ==>
              Spans(s, 0)[k].start < Spans(s, 0)[k].end <= |s|
              && r[k] == s[Spans(s, 0)[k].start..Spans(s, 0)[k].end]
  {
    var sp := Spans(s, 0);
    SpansAreMatches(s, 0);
    seq(|sp|, k requires 0 <= k < |sp| => s[sp[k].start..sp[k].end])
  }

  /** The rightmost match of the line: `None` exactly when the pattern matches nowhere,
      and otherwise a match after which no further match starts. */
  function LastMatch(s: string): (r: Option<Span>)
    ensures r.Some? ==> r.value.start < r.value.end <= |s|
    ensures r.None? ==> forall p :: 0 <= p < |s| ==> MatchAt(s, p).None?
    ensures r.Some? ==> MatchAt(s, r.value.start) == Some(r.value.end)
    ensures r.Some? ==> forall p :: r.value.start < p < |s| ==> MatchAt(s, p).None?
  {
    var sp := Spans(s, 0);
    if |sp| == 0 then
      NoSpans(s);
      None
    else
      LastSpan(s);
      Some(sp[|sp| - 1])
  }

  lemma NoSpans(s: string)
    requires |Spans(s, 0)| == 0
    ensures forall p :: 0 <= p < |s| ==> MatchAt(s, p).None?
  {
    SpansComplete(s, 0);
  }

  lemma LastSpan(s: string)
    requires |Spans(s, 0)| > 0
    ensures var last := Spans(s, 0)[|Spans(s, 0)| - 1];
            && MatchAt(s, last.start) == Some(last.end)
            && forall p :: last.start < p < |s| ==> MatchAt(s, p).None?
  {
    var sp := Spans(s, 0);
    var last := sp[|sp| - 1];
    assert MatchAt(s, last.start) == Some(last.end) by {
      SpansAreMatches(s, 0);
    }
    forall p | last.start < p < |s| ensures MatchAt(s, p).None? {
      NoLaterMatch(s, p);
    }
  }

  lemma NoLaterMatch(s: string, p: nat)
    requires |Spans(s, 0)| > 0
    requires Spans(s, 0)[|Spans(s, 0)| - 1].start < p < |s|
    ensures MatchAt(s, p).None?
  {
    var sp := Spans(s, 0);
    if MatchAt(s, p).Some? {
      SpansComplete(s, 0);
      SpansDisjoint(s, 0);
      StartBeforeLast(sp, p);
    }
  }

  lemma StartBeforeLast(sp: seq<Span>, p: nat)
    requires p in Starts(sp)
    requires forall k :: 0 <= k < |sp| ==> sp[k].start < sp[k].end
    requires forall k :: 0 <= k < |sp| - 1 ==> sp[k].end <= sp[k + 1].start
    ensures p <= sp[|sp| - 1].start
  {
    var k :| 0 <= k < |sp| && sp[k].start == p;
    SpansOrdered(sp, k);
  }

  lemma SpansOrdered(sp: seq<Span>, k: nat)
    requires k < |sp|
    requires forall k :: 0 <= k < |sp| ==> sp[k].start < sp[k].end
    requires forall k :: 0 <= k < |sp| - 1 ==> sp[k].end <= sp[k + 1].start
    ensures sp[k].start <= sp[|sp| - 1].start
    decreases |sp| - k
  {
    if k < |sp| - 1 {
      SpansOrdered(sp, k + 1);
    }
  }

  /** The loop body of the statement extractor for one line: the rightmost amount token
      is normalised and the line becomes a transaction only if that amount is positive. */
  function ParseLine(line: string): (r: Option<Transaction>)
    ensures r.Some? ==> r.value.amount > 0.0
    ensures LastMatch(line).None? ==> r.None?
    ensures LastMatch(line).Some? ==>
              var m := LastMatch(line).value;
              var amount := Normalise(line[m.start..m.end]);
              && (r.Some? <==> amount > 0.0)
              && (r.Some? ==> r.value == Transaction(Trim(line), amount))
  {
    match LastMatch(line)
    case None => None
    case Some(m) =>
      var amount := Normalise(line[m.start..m.end]);
      if amount > 0.0 then Some(Transaction(Trim(line), amount)) else None
  }

  /** A line on which the pattern matches nowhere yields no transaction. */
  lemma NoMatchNoTransaction(line: string)
    requires forall i :: 0 <= i < |line| ==> line[i] != '-'
    ensures ParseLine(line) == None
  {
    forall p | 0 <= p < |line| ensures MatchAt(line, p).None? {
      assert line[p] != '-';
    }
  }

  /** The line contributes a transaction. */
  predicate Yields(line: string)
  {
    ParseLine(line).Some?
  }

  /** Every line of a page, in order: a transaction is extracted exactly when some
      line parses to it, and there is one per line that yields one. */
  function ParseLines(lines: seq<string>): (r: seq<Transaction>)
    ensures |r| <= |lines|
    ensures |r| == Count(lines, Yields)
    ensures AllPositive(r)
    ensures forall t :: t in r <==> exists i :: 0 <= i < |lines| && ParseLine(lines[i]) == Some(t)
  {
    if |lines| == 0 then []
    else
      var rest := ParseLines(lines[1..]);
      LinesStep(lines, rest);
      LineTransactions(lines[0]) + rest
  }

  /** One step of `ParseLines`: from the tail's transactions to the whole page's. */
  lemma LinesStep(lines: seq<string>, rest: seq<Transaction>)
    requires |lines| > 0
    requires |rest| <= |lines| - 1 && |rest| == Count(lines[1..], Yields) && AllPositive(rest)
    requires forall t :: t in rest <==> exists i :: 1 <= i < |lines| && ParseLine(lines[i]) == Some(t)
    ensures var r := LineTransactions(lines[0]) + rest;
            && |r| <= |lines| && |r| == Count(lines, Yields) && AllPositive(r)
            && forall t :: t in r <==> exists i :: 0 <= i < |lines| && ParseLine(lines[i]) == Some(t)
  {
    var h := LineTransactions(lines[0]);
    assert forall t :: t in h <==> ParseLine(lines[0]) == Some(t);
    assert AllPositive(h + rest) by {
      PositiveAppend(h, rest);
    }
    MembersStep(lines, ParseLine, h, rest);
  }

  lemma PositiveAppend(a: seq<Transaction>, b: seq<Transaction>)
    requires AllPositive(a) && AllPositive(b)
    ensures AllPositive(a + b)
  {
    forall k | 0 <= k < |a + b| ensures (a + b)[k].amount > 0.0 {
      if k >= |a| {
        assert (a + b)[k] == b[k - |a|];
      }
    }
  }

  /** What the first element yields, followed by what the rest yield, is what the
      whole sequence yields. */
  lemma MembersStep<A, B>(xs: seq<A>, f: A -> Option<B>, h: seq<B>, rest: seq<B>)
    requires |xs| > 0
    requires forall y :: y in h <==> f(xs[0]) == Some(y)
    requires forall y :: y in rest <==> exists i :: 1 <= i < |xs| && f(xs[i]) == Some(y)
    ensures forall y :: y in h + rest <==> exists i :: 0 <= i < |xs| && f(xs[i]) == Some(y)
  {
    forall y ensures y in h + rest <==> exists i :: 0 <= i < |xs| && f(xs[i]) == Some(y) {
      if y in h {
        assert f(xs[0]) == Some(y);
      }
    }
  }

  /** The page's transactions are the concatenation of what each line contributes. */
  lemma {:induction false} ParseLinesInOrder(lines: seq<string>)
    ensures ParseLines(lines) == Flatten(Map(LineTransactions, lines))
    decreases |lines|
  {
    if |lines| > 0 {
      ParseLinesInOrder(lines[1..]);
      MapCons(LineTransactions, lines);
    } else {
      assert Map(LineTransactions, lines) == [];
    }
  }

  /** The zero or one transaction a line contributes. */
  function LineTransactions(line: string): (r: seq<Transaction>)
    ensures |r| <= 1 && AllPositive(r)
    ensures |r| == 1 <==> ParseLine(line).Some?
    ensures |r| == 1 ==> ParseLine(line) == Some(r[0])
  {
    match ParseLine(line) case Some(t) => [t] case None => []
  }

  /** The lines of a page: none when it has no text or empty text, otherwise its text
      split on newlines. */
  function PageLines(page: Option<string>): (r: seq<string>)
    ensures page.None? || page.value == "" ==> r == []
    ensures page.Some? && page.value != "" ==> Join(r) == page.value
    ensures forall k :: 0 <= k < |r| ==> '\n' !in r[k]
  {
    match page
    case None => []
    case Some(text) => if text == "" then [] else Split(text)
  }

  /** The transactions of one page: those of its lines. */
  function PageTransactions(page: Option<string>): (r: seq<Transaction>)
    ensures AllPositive(r)
    ensures var lines := PageLines(page);
            forall t :: t in r <==> exists i :: 0 <= i < |lines| && ParseLine(lines[i]) == Some(t)
    ensures page.None? || page.value == "" ==> r == []
  {
    match page
    case None => []
    case Some(text) => if text == "" then [] else ParseLines(Split(text))
  }

  function PagesTransactions(pages: seq<Option<string>>): (r: seq<Transaction>)
    ensures AllPositive(r)
  {
    if |pages| == 0 then [] else PageTransactions(pages[0]) + PagesTransactions(pages[1..])
  }

  /** The lines of the pages, page after page. */
  function PagesLines(pages: seq<Option<string>>): seq<string>
  {
    Flatten(Map(PageLines, pages))
  }

  /** Reading page by page is reading all the pages' lines as one run: page
      boundaries play no part. */
  lemma {:induction false} PagesAreLines(pages: seq<Option<string>>)
    ensures PagesTransactions(pages) == ParseLines(PagesLines(pages))
    decreases |pages|
  {
    if |pages| > 0 {
      PagesAreLines(pages[1..]);
      MapCons(PageLines, pages);
      assert PagesLines(pages) == PageLines(pages[0]) + PagesLines(pages[1..]);
      ParseLinesAppend(PageLines(pages[0]), PagesLines(pages[1..]));
    } else {
      assert Map(PageLines, pages) == [];
    }
  }

  /** One statement document: the first two (cover) pages are skipped and the rest are
      read page by page, line by line. The result is the line extraction over every
      line of pages three onward. */
  function ExtractDocument(pages: seq<Option<string>>): (r: seq<Transaction>)
    ensures AllPositive(r)
    ensures |pages| <= 2 ==> r == []
    ensures |pages| > 2 ==> r == ParseLines(PagesLines(pages[2..]))
  {
    if |pages| <= 2 then []
    else
      PagesAreLines(pages[2..]);
      PagesTransactions(pages[2..])
  }

  /** The cover pages never influence the extraction. */
  lemma CoverPagesIgnored(pages: seq<Option<string>>, p0: Option<string>, p1: Option<string>)
    requires |pages| >= 2
    ensures ExtractDocument(pages) == ExtractDocument([p0, p1] + pages[2..])
  {
    assert ([p0, p1] + pages[2..])[2..] == pages[2..];
  }

  lemma ParseLinesAppend(a: seq<string>, b: seq<string>)
    ensures ParseLines(a + b) == ParseLines(a) + ParseLines(b)
  {
    ParseLinesInOrder(a + b);
    ParseLinesInOrder(a);
    ParseLinesInOrder(b);
    MapAppend(LineTransactions, a, b);
    FlattenAppend(Map(LineTransactions, a), Map(LineTransactions, b));
  }


  /** The rightmost match is the last entry of `re.findall`'s list, and the list is
      empty exactly when there is no match at all. */
  lemma FindAllLast(s: string)
    ensures |FindAll(s)| == 0 <==> LastMatch(s).None?
    ensures LastMatch(s).Some? ==>
              FindAll(s)[|FindAll(s)| - 1] == s[LastMatch(s).value.start..LastMatch(s).value.end]
  {
  }

  /** A line whose only minus sign introduces a final token of class characters: that
      token is the line's rightmost match, and the line's expense is its normalisation. */
  lemma LineAmount(p: string, tok: string)
    requires forall k :: 0 <= k < |p| ==> p[k] != '-'
    requires |tok| > 0 && forall k :: 0 <= k < |tok| ==> InClass(tok[k])
    ensures LastMatch(p + "-" + tok) == Some(Span(|p|, |p| + 1 + |tok|))
    ensures var a := Normalise("-" + tok);
            ParseLine(p + "-" + tok) == if a > 0.0 then Some(Transaction(Trim(p + "-" + tok), a)) else None
  {
    var line := p + "-" + tok;
    var i := |p|;
    assert line[i] == '-';
    assert forall k :: i < k < |line| ==> line[k] == tok[k - i - 1];
    assert MatchAt(line, i) == Some(|line|) by {
      assert InClass(line[i + 1]) && !IsSpace(line[i + 1]);
      assert ClassRun(line, i + 1, |line|);
      assert IsMatch(line, i, |line|);
    }
    var m := LastMatch(line).value;
    assert m.start == i;
    assert line[m.start..m.end] == "-" + tok;
  }

  /** The same with one whitespace character between the minus sign and the digits,
      which the pattern's `\s?` takes into the match. */
  lemma SpacedLineAmount(p: string, w: char, tok: string)
    requires forall k :: 0 <= k < |p| ==> p[k] != '-'
    requires IsSpace(w)
    requires |tok| > 0 && forall k :: 0 <= k < |tok| ==> InClass(tok[k])
    ensures LastMatch(p + "-" + [w] + tok) == Some(Span(|p|, |p| + 2 + |tok|))
    ensures var a := Normalise("-" + [w] + tok);
            ParseLine(p + "-" + [w] + tok) == if a > 0.0 then Some(Transaction(Trim(p + "-" + [w] + tok), a)) else None
  {
    var line := p + "-" + [w] + tok;
    var i := |p|;
    assert line[i] == '-' && line[i + 1] == w;
    assert forall k :: i + 1 < k < |line| ==> line[k] == tok[k - i - 2];
    assert MatchAt(line, i) == Some(|line|) by {
      assert InClass(line[i + 2]);
      assert ClassRun(line, i + 2, |line|);
      assert IsMatch(line, i, |line|);
    }
    var m := LastMatch(line).value;
    assert m.start == i;
    assert line[m.start..m.end] == "-" + [w] + tok;
  }

  /** A line whose amount token has one of the separators U+001C to U+001F after its
      minus sign: the pattern matches it, `float()` rejects the residue, and the line
      yields no transaction. */
  lemma SeparatorLine(p: string, w: char, tok: string)
    requires forall k :: 0 <= k < |p| ==> p[k] != '-'
    requires '\U{1c}' <= w <= '\U{1f}'
    requires |tok| > 0 && forall k :: 0 <= k < |tok| ==> InClass(tok[k])
    ensures LastMatch(p + "-" + [w] + tok).Some?
    ensures ParseLine(p + "-" + [w] + tok).None?
  {
    var t := "-" + [w] + tok;
    assert Normalise(t) == 0.0 by {
      assert t[1] == w;
      assert !IsDigit(w) && !IsFloatSpace(w);
      NormaliseStray(t, w);
    }
    SpacedLineAmount(p, w, tok);
  }

  lemma {:induction false} RenderInClass(n: nat)
    ensures forall k :: 0 <= k < |Render(n)| ==> InClass(Render(n)[k])
    decreases n
  {
    if n >= 1000 {
      RenderInClass(n / 1000);
      var a, g := Render(n / 1000), Group(n % 1000);
      assert Render(n) == a + "." + g;
      forall k | 0 <= k < |a + "." + g| ensures InClass((a + "." + g)[k]) {
        if k < |a| {
          assert (a + "." + g)[k] == a[k];
        } else if k > |a| {
          assert (a + "." + g)[k] == g[k - |a| - 1];
        }
      }
    }
  }

  /** A statement line ending in an expense printed the Indonesian way, `-1.250.000`,
      yields exactly that amount. */
  lemma RenderedLine(p: string, n: nat)
    requires forall k :: 0 <= k < |p| ==> p[k] != '-'
    requires n > 0
    ensures ParseLine(p + "-" + Render(n)) == Some(Transaction(Trim(p + "-" + Render(n)), n as real))
  {
    var r := Render(n);
    assert Normalise("-" + r) == n as real by {
      CleanOne('-');
      NormaliseRendered("-", n, "");
    }
    assert |r| > 0 by {
      CleanRender(n);
    }
    RenderInClass(n);
    LineAmount(p, r);
  }

  /** The same with decimal cents after a comma, `-21.500,50`. */
  lemma RenderedCentsLine(p: string, n: nat, cents: string)
    requires forall k :: 0 <= k < |p| ==> p[k] != '-'
    requires n > 0 && AllDigits(cents)
    ensures var tok := Render(n) + "," + cents;
            ParseLine(p + "-" + tok)
            == Some(Transaction(Trim(p + "-" + tok), n as real + Value(cents) as real / Pow10(|cents|) as real))
  {
    var tok := Render(n) + "," + cents;
    CentsAmount(n, cents);
    RenderInClass(n);
    CentsInClass(Render(n), cents);
    LineAmount(p, tok);
  }

  lemma CentsAmount(n: nat, cents: string)
    requires n > 0 && AllDigits(cents)
    ensures var a := n as real + Value(cents) as real / Pow10(|cents|) as real;
            a > 0.0 && Normalise("-" + (Render(n) + "," + cents)) == a
  {
    var f := Value(cents) as real / Pow10(|cents|) as real;
    assert Normalise("-" + (Render(n) + "," + cents)) == n as real + f by {
      CleanOne('-');
      NormaliseRendered("-", n, cents);
      Regroup("-", Render(n), ",", cents);
    }
    QuotientNonneg(Value(cents) as real, Pow10(|cents|) as real);
  }

  lemma Regroup(a: string, b: string, c: string, d: string)
    ensures a + (b + c + d) == a + b + c + d
  {
  }

  lemma QuotientNonneg(x: real, y: real)
    requires x >= 0.0 && y > 0.0
    ensures x / y >= 0.0
  {
  }

  lemma CentsInClass(r: string, cents: string)
    requires |r| > 0 && forall k :: 0 <= k < |r| ==> InClass(r[k])
    requires AllDigits(cents)
    ensures var tok := r + "," + cents;
            |tok| > 0 && forall k :: 0 <= k < |tok| ==> InClass(tok[k])
  {
    var tok := r + "," + cents;
    forall k | 0 <= k < |tok| ensures InClass(tok[k]) {
      if k < |r| {
        assert tok[k] == r[k];
      } else if k > |r| {
        assert tok[k] == cents[k - |r| - 1];
      }
    }
  }
}
