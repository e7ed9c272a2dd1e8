/** The few string operations of Python's `str` that the pipeline relies on:
    whitespace classification, `strip()`, `split("\n")` and `replace` of one character. */
module Text {
  import opened Types

  /** Python's `str.isspace` on one character: the set `strip()` removes and the
      regular-expression class `\s` matches. */
  predicate IsSpace(c: char)
  {
    || ('\t' <= c <= '\r')
    || ('\U{1c}' <= c <= '\U{1f}')
    || c == ' ' || c == '\U{85}' || c == '\U{a0}' || c == '\U{1680}'
    || ('\U{2000}' <= c <= '\U{200a}')
    || c == '\U{2028}' || c == '\U{2029}' || c == '\U{202f}' || c == '\U{205f}' || c == '\U{3000}'
  }

  /** The blanks `float()` ignores around its literal. It turns every non-ASCII
      whitespace character into a space and then strips only the ASCII blanks `\t`
      to `\r` and space, so the separators U+001C to U+001F stay and make it fail. */
  predicate IsFloatSpace(c: char)
  {
    IsSpace(c) && !('\U{1c}' <= c <= '\U{1f}')
  }

  /** Which set of blanks a strip removes. */
  datatype Blanks = StrBlanks | FloatBlanks

  predicate IsBlank(b: Blanks, c: char)
  {
    match b
    case StrBlanks => IsSpace(c)
    case FloatBlanks => IsFloatSpace(c)
  }

  predicate AllBlank(b: Blanks, s: string)
  {
    forall i :: 0 <= i < |s| ==> IsBlank(b, s[i])
  }

  /** Number of blanks at the front of `s[from..]`, counted from `from`. */
  function SkipBlanks(s: string, from: nat, b: Blanks): (k: nat)
    requires from <= |s|
    ensures from <= k <= |s|
    ensures forall i :: from <= i < k ==> IsBlank(b, s[i])
    ensures k == |s| || !IsBlank(b, s[k])
    decreases |s| - from
  {
    if from == |s| || !IsBlank(b, s[from]) then from else SkipBlanks(s, from + 1, b)
  }

  /** Start of the run of blanks that ends `s[..upto]`. */
  function BackBlanks(s: string, upto: nat, b: Blanks): (k: nat)
    requires upto <= |s|
    ensures k <= upto
    ensures forall i :: k <= i < upto ==> IsBlank(b, s[i])
    ensures k == 0 || !IsBlank(b, s[k - 1])
  {
    if upto == 0 || !IsBlank(b, s[upto - 1]) then upto else BackBlanks(s, upto - 1, b)
  }

  /** `s` with leading and trailing blanks of kind `b` cut. */
  function Strip(s: string, b: Blanks): (r: string)
    ensures |r| <= |s|
    ensures |r| == 0 || (!IsBlank(b, r[0]) && !IsBlank(b, r[|r| - 1]))
  {
    var i := SkipBlanks(s, 0, b);
    var j := BackBlanks(s, |s|, b);
    if j <= i then "" else s[i..j]
  }

  /** Python `s.strip()`: the slice left once leading and trailing whitespace is cut. */
  function Trim(s: string): (r: string)
    ensures |r| <= |s|
    ensures |r| == 0 || (!IsSpace(r[0]) && !IsSpace(r[|r| - 1]))
  {
    Strip(s, StrBlanks)
  }

  /** The stripping `float()` does before it reads its literal. */
  function FloatTrim(s: string): (r: string)
    ensures |r| <= |s|
    ensures |r| == 0 || (!IsFloatSpace(r[0]) && !IsFloatSpace(r[|r| - 1]))
  {
    Strip(s, FloatBlanks)
  }

  /** What a strip removes is blanks only: the result is a slice of the input with
      nothing but blanks on either side of it. */
  lemma StripSlice(s: string, b: Blanks)
    ensures exists i, j :: 0 <= i <= j <= |s| && Strip(s, b) == s[i..j] && AllBlank(b, s[..i]) && AllBlank(b, s[j..])
  {
    var i := SkipBlanks(s, 0, b);
    var j := BackBlanks(s, |s|, b);
    if j <= i {
      assert AllBlank(b, s[..i]) && AllBlank(b, s[i..]);
      assert Strip(s, b) == s[i..i];
    } else {
      assert AllBlank(b, s[..i]) && AllBlank(b, s[j..]);
    }
  }

  /** What `strip()` removes is whitespace only. */
  lemma TrimSlice(s: string)
    ensures exists i, j :: 0 <= i <= j <= |s| && Trim(s) == s[i..j]
                           && (forall k :: 0 <= k < i ==> IsSpace(s[k]))
                           && (forall k :: j <= k < |s| ==> IsSpace(s[k]))
  {
    StripSlice(s, StrBlanks);
    var i, j :| 0 <= i <= j <= |s| && Strip(s, StrBlanks) == s[i..j]
                && AllBlank(StrBlanks, s[..i]) && AllBlank(StrBlanks, s[j..]);
    assert forall k :: 0 <= k < i ==> s[..i][k] == s[k];
    assert forall k :: j <= k < |s| ==> s[j..][k - j] == s[k];
  }

  /** Position of the first `c` in `s[from..]`, or `|s|` when there is none. */
  function IndexOf(s: string, c: char, from: nat): (k: nat)
    requires from <= |s|
    ensures from <= k <= |s|
    ensures forall i :: from <= i < k ==> s[i] != c
    ensures k < |s| ==> s[k] == c
    decreases |s| - from
  {
    if from == |s| || s[from] == c then from else IndexOf(s, c, from + 1)
  }

  /** The parts joined back with a newline between each two. */
  function Join(parts: seq<string>): string
  {
    if |parts| == 0 then ""
    else if |parts| == 1 then parts[0]
    else parts[0] + "\n" + Join(parts[1..])
  }

  /** Python `s.split("\n")`: always at least one part, none holds a newline, and
      joining the parts with newlines gives `s` back. */
  function Split(s: string): (r: seq<string>)
    ensures |r| >= 1
    ensures forall i :: 0 <= i < |r| ==> '\n' !in r[i]
    ensures Join(r) == s
    decreases |s|
  {
    var k := IndexOf(s, '\n', 0);
    if k == |s| then
      assert '\n' !in s by {
        forall i | 0 <= i < |s| ensures s[i] != '\n' { }
      }
      [s]
    else
      var rest := Split(s[k + 1..]);
      assert '\n' !in s[..k] by {
        forall i | 0 <= i < k ensures s[..k][i] != '\n' { }
      }
      assert s == s[..k] + "\n" + s[k + 1..];
      [s[..k]] + rest
  }

  /** Splitting is the inverse of joining newline-free parts. */
  lemma {:induction false} SplitJoin(parts: seq<string>)
    requires |parts| >= 1
    requires forall i :: 0 <= i < |parts| ==> '\n' !in parts[i]
    ensures Split(Join(parts)) == parts
    decreases |parts|
  {
    if |parts| == 1 {
      var s := parts[0];
      var k := IndexOf(s, '\n', 0);
      assert forall i :: 0 <= i < |s| ==> s[i] != '\n';
      assert k == |s|;
    } else {
      var s := Join(parts);
      var p := parts[0];
      assert s == p + "\n" + Join(parts[1..]);
      var k := IndexOf(s, '\n', 0);
      assert s[|p|] == '\n';
      assert forall i :: 0 <= i < |p| ==> s[i] == p[i] && p[i] != '\n';
      assert k == |p|;
      assert s[..k] == p;
      assert s[k + 1..] == Join(parts[1..]);
      SplitJoin(parts[1..]);
      assert parts == [p] + parts[1..];
    }
  }

  /** Python `s.replace(c, "")`: every `c` deleted, all other characters kept in order. */
  function Remove(s: string, c: char): (r: string)
    ensures c !in r
    ensures |r| <= |s|
    ensures forall x :: x in r ==> x in s
  {
    if |s| == 0 then ""
    else
      var rest := Remove(s[1..], c);
      assert forall x :: x in rest ==> x in s[1..];
      (if s[0] == c then "" else [s[0]]) + rest
  }

  /** Deleting `c` keeps every other character, in order and as often as it occurs. */
  lemma {:induction false} RemoveKeepsRest(s: string, c: char)
    ensures IsSubseq(Remove(s, c), s)
    ensures multiset(Remove(s, c)) == multiset(s)[c := 0]
    decreases |s|
  {
    if |s| > 0 {
      RemoveKeepsRest(s[1..], c);
      KeepStep(s, c, Remove(s[1..], c));
    }
  }

  lemma KeepStep(s: string, c: char, rest: string)
    requires |s| > 0
    requires IsSubseq(rest, s[1..]) && multiset(rest) == multiset(s[1..])[c := 0]
    ensures var r := (if s[0] == c then "" else [s[0]]) + rest;
            IsSubseq(r, s) && multiset(r) == multiset(s)[c := 0]
  {
    assert s == [s[0]] + s[1..];
    assert multiset(s) == multiset{s[0]} + multiset(s[1..]);
    if s[0] == c {
      assert "" + rest == rest;
      SubseqSkip(rest, s);
    } else {
      var r := [s[0]] + rest;
      assert r[1..] == rest;
      assert multiset(r) == multiset{s[0]} + multiset(rest);
    }
  }

  lemma RemoveOne(x: char, c: char)
    ensures Remove([x], c) == (if x == c then "" else [x])
  {
    assert [x][1..] == "";
  }

  /** Python `s.replace(c, d)` for single characters. */
  function Replace(s: string, c: char, d: char): (r: string)
    ensures |r| == |s|
    ensures forall i :: 0 <= i < |s| ==> r[i] == (if s[i] == c then d else s[i])
  {
    if |s| == 0 then "" else [if s[0] == c then d else s[0]] + Replace(s[1..], c, d)
  }

  lemma {:induction false} RemoveAppend(a: string, b: string, c: char)
    ensures Remove(a + b, c) == Remove(a, c) + Remove(b, c)
    decreases |a|
  {
    if |a| == 0 {
      assert a + b == b;
    } else {
      assert (a + b)[0] == a[0];
      assert (a + b)[1..] == a[1..] + b;
      RemoveAppend(a[1..], b, c);
    }
  }

  lemma ReplaceAppend(a: string, b: string, c: char, d: char)
    ensures Replace(a + b, c, d) == Replace(a, c, d) + Replace(b, c, d)
  {
    var l, r := Replace(a + b, c, d), Replace(a, c, d) + Replace(b, c, d);
    assert forall i :: 0 <= i < |a| ==> (a + b)[i] == a[i];
    assert forall i :: |a| <= i < |a| + |b| ==> (a + b)[i] == b[i - |a|];
    assert |l| == |r|;
    forall i | 0 <= i < |l| ensures l[i] == r[i] {
      if i < |a| {
        assert r[i] == Replace(a, c, d)[i];
      } else {
        assert r[i] == Replace(b, c, d)[i - |a|];
      }
    }
  }
}
