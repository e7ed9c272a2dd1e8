/** Normalisation of an Indonesian-formatted amount token (`bersihkan_nominal`):
    signs and spaces are dropped, `.` is a thousands separator, `,` the decimal point. */
module Nominal {
  import opened Types
  import opened Text

  predicate IsDigit(c: char)
  {
    '0' <= c <= '9'
  }

  predicate AllDigits(s: string)
  {
    forall i :: 0 <= i < |s| ==> IsDigit(s[i])
  }

  function DigitValue(c: char): (d: nat)
    requires IsDigit(c)
    ensures d < 10
  {
    (c as int - '0' as int) as nat
  }

  function DigitChar(d: nat): (c: char)
    requires d < 10
    ensures IsDigit(c) && DigitValue(c) == d
  {
    ('0' as int + d) as char
  }

  function Pow10(n: nat): (p: nat)
    ensures p >= 1
  {
    if n == 0 then 1 else 10 * Pow10(n - 1)
  }

  /** The number a string of decimal digits denotes (most significant digit first). */
  function Value(s: string): nat
    requires AllDigits(s)
  {
    if |s| == 0 then 0 else Value(s[..|s| - 1]) * 10 + DigitValue(s[|s| - 1])
  }

  lemma {:induction false} ValueAppend(a: string, b: string)
    requires AllDigits(a) && AllDigits(b)
    ensures AllDigits(a + b)
    ensures Value(a + b) == Value(a) * Pow10(|b|) + Value(b)
    decreases |b|
  {
    if |b| > 0 {
      var b' := b[..|b| - 1];
      assert (a + b)[..|a + b| - 1] == a + b';
      ValueAppend(a, b');
      assert b[..|b| - 1] == b';
      assert (a + b)[|a + b| - 1] == b[|b| - 1];
      ShiftDigit(Value(a), Pow10(|b'|), Value(b'), DigitValue(b[|b| - 1]));
    } else {
      assert a + b == a;
    }
  }

  lemma ShiftDigit(x: int, p: int, y: int, d: int)
    ensures (x * p + y) * 10 + d == x * (p * 10) + (y * 10 + d)
  {
  }

  /** The residue of steps one to three of the normalisation: `+`, `-` and space
      removed, then every `.` deleted, then every `,` turned into `.`. */
  function Clean(s: string): (r: string)
    ensures '+' !in r && '-' !in r && ' ' !in r && ',' !in r
    ensures |r| <= |s|
  {
    var noSigns := Remove(Remove(Remove(s, '+'), '-'), ' ');
    Replace(Remove(noSigns, '.'), ',', '.')
  }

  /** What one character of the token becomes in the residue. */
  function CleanChar(c: char): string
  {
    if c == '+' || c == '-' || c == ' ' || c == '.' then ""
    else if c == ',' then "."
    else [c]
  }

  /** Independent per-character reading of the normalisation's first three steps. */
  function CleanEach(s: string): string
  {
    if |s| == 0 then "" else CleanChar(s[0]) + CleanEach(s[1..])
  }

  lemma CleanAppend(a: string, b: string)
    ensures Clean(a + b) == Clean(a) + Clean(b)
  {
    RemoveAppend(a, b, '+');
    var a1, b1 := Remove(a, '+'), Remove(b, '+');
    RemoveAppend(a1, b1, '-');
    var a2, b2 := Remove(a1, '-'), Remove(b1, '-');
    RemoveAppend(a2, b2, ' ');
    var a3, b3 := Remove(a2, ' '), Remove(b2, ' ');
    RemoveAppend(a3, b3, '.');
    ReplaceAppend(Remove(a3, '.'), Remove(b3, '.'), ',', '.');
  }

  lemma CleanOne(c: char)
    ensures Clean([c]) == CleanChar(c)
  {
    RemoveOne(c, '+');
    RemoveOne(c, '-');
    RemoveOne(c, ' ');
    RemoveOne(c, '.');
    assert Remove("", '-') == "" && Remove("", ' ') == "" && Remove("", '.') == "";
  }

  /** The four sequential `replace` passes act character by character. */
  lemma {:induction false} CleanIsPerCharacter(s: string)
    ensures Clean(s) == CleanEach(s)
    decreases |s|
  {
    if |s| == 0 {
      assert Remove(s, '+') == "";
    } else {
      assert s == [s[0]] + s[1..];
      CleanAppend([s[0]], s[1..]);
      CleanOne(s[0]);
      CleanIsPerCharacter(s[1..]);
    }
  }

  lemma {:induction false} CleanDigits(s: string)
    requires AllDigits(s)
    ensures Clean(s) == s
    decreases |s|
  {
    if |s| > 0 {
      assert s == [s[0]] + s[1..];
      CleanAppend([s[0]], s[1..]);
      CleanOne(s[0]);
      CleanDigits(s[1..]);
    } else {
      assert Remove(s, '+') == "";
    }
  }

  /** What Python's `float()` accepts once the residue holds no sign or exponent:
      decimal digits with at most one `.` and at least one digit. */
  predicate IsDecimalLiteral(u: string)
  {
    && (forall i :: 0 <= i < |u| ==> IsDigit(u[i]) || u[i] == '.')
    && (forall i, j :: 0 <= i < j < |u| && u[i] == '.' ==> u[j] != '.')
    && (exists i :: 0 <= i < |u| && IsDigit(u[i]))
  }

  /** `float(t)` on a sign-free string: the blanks `float()` ignores are cut from
      both ends, the rest must be a decimal literal; `None` is the `ValueError` the
      source catches. */
  function ParseDecimal(t: string): (r: Option<real>)
    ensures r.Some? <==> IsDecimalLiteral(FloatTrim(t))
    ensures r.Some? ==> r.value >= 0.0
    ensures var u := FloatTrim(t);
            AllDigits(u) && |u| > 0 ==> r == Some(Value(u) as real)
    ensures var u := FloatTrim(t);
            forall k :: (0 <= k < |u| && u[k] == '.' && |u| > 1 && AllDigits(u[..k]) && AllDigits(u[k + 1..]))
                        ==> r == Some(Decimal(u[..k], u[k + 1..]))
  {
    ParseLiteral(FloatTrim(t))
  }

  /** A decimal literal's value: a literal without a point is its digits' number;
      one with a point at `k` is the whole digits before it plus the fraction digits
      after it over a power of ten, either side possibly empty (`.5` is 0.5). */
  function ParseLiteral(u: string): (r: Option<real>)
    ensures r.Some? <==> IsDecimalLiteral(u)
    ensures r.Some? ==> r.value >= 0.0
    ensures AllDigits(u) && |u| > 0 ==> r == Some(Value(u) as real)
    ensures forall k :: (0 <= k < |u| && u[k] == '.' && |u| > 1 && AllDigits(u[..k]) && AllDigits(u[k + 1..]))
                        ==> r == Some(Decimal(u[..k], u[k + 1..]))
  {
    PointPosition(u);
    WholeLiteral(u);
    var k := IndexOf(u, '.', 0);
    var ip := u[..k];
    var fp := if k < |u| then u[k + 1..] else "";
    if AllDigits(ip) && AllDigits(fp) && |ip| + |fp| > 0 then
      LiteralShape(u, k);
      Some(Decimal(ip, fp))
    else
      NotLiteralShape(u, k);
      None
  }

  /** A point preceded only by digits is the first point. */
  lemma PointPosition(u: string)
    ensures forall k :: 0 <= k < |u| && u[k] == '.' && AllDigits(u[..k]) ==> IndexOf(u, '.', 0) == k
  {
    forall k | 0 <= k < |u| && u[k] == '.' && AllDigits(u[..k])
      ensures IndexOf(u, '.', 0) == k
    {
      forall i | 0 <= i < k ensures u[i] != '.' {
        assert u[i] == u[..k][i];
      }
    }
  }

  /** A literal of digits only has no point, and its value is its digits' number. */
  lemma WholeLiteral(u: string)
    ensures AllDigits(u) ==> IndexOf(u, '.', 0) == |u| && u[..|u|] == u
    ensures AllDigits(u) ==> Decimal(u, "") == Value(u) as real
  {
    if AllDigits(u) {
      NoPoint(u);
      DecimalWhole(u);
    }
  }

  function Decimal(ip: string, fp: string): (v: real)
    requires AllDigits(ip) && AllDigits(fp)
    ensures v >= 0.0
  {
    Value(ip) as real + Value(fp) as real / Pow10(|fp|) as real
  }

  lemma LiteralShape(u: string, k: nat)
    requires k <= |u|
    requires forall i :: 0 <= i < k ==> u[i] != '.'
    requires k < |u| ==> u[k] == '.'
    requires AllDigits(u[..k])
    requires AllDigits(if k < |u| then u[k + 1..] else "")
    requires k + |if k < |u| then u[k + 1..] else ""| > 0
    ensures IsDecimalLiteral(u)
  {
    var ip := u[..k];
    if k < |u| {
      var fp := u[k + 1..];
      forall i | 0 <= i < |u| ensures IsDigit(u[i]) || u[i] == '.'
      {
        if i < k {
          assert u[i] == ip[i];
        } else if i > k {
          assert u[i] == fp[i - k - 1];
        }
      }
      forall m | k < m < |u| ensures u[m] != '.' {
        assert u[m] == fp[m - k - 1];
      }
      if k > 0 {
        assert IsDigit(u[0]);
      } else {
        assert IsDigit(u[k + 1]);
      }
    } else {
      assert u == ip;
      assert IsDigit(u[0]);
    }
  }

  lemma NotLiteralShape(u: string, k: nat)
    requires k <= |u|
    requires forall i :: 0 <= i < k ==> u[i] != '.'
    requires k < |u| ==> u[k] == '.'
    requires !(AllDigits(u[..k]) && AllDigits(if k < |u| then u[k + 1..] else "")
               && k + |if k < |u| then u[k + 1..] else ""| > 0)
    ensures !IsDecimalLiteral(u)
  {
    var ip := u[..k];
    var fp := if k < |u| then u[k + 1..] else "";
    if !AllDigits(ip) {
      var i :| 0 <= i < |ip| && !IsDigit(ip[i]);
      assert u[i] == ip[i];
      assert !(IsDigit(u[i]) || u[i] == '.');
    } else if !AllDigits(fp) {
      var i :| 0 <= i < |fp| && !IsDigit(fp[i]);
      assert u == ip + ['.'] + fp;
      assert fp[i] == u[k + 1 + i];
      if fp[i] == '.' {
        assert u[k] == '.' && u[k + 1 + i] == '.';
      } else {
        assert !(IsDigit(u[k + 1 + i]) || u[k + 1 + i] == '.');
      }
    } else {
      assert |u| == 0 || u == ".";
      assert forall i :: 0 <= i < |u| ==> !IsDigit(u[i]);
    }
  }

  /** `bersihkan_nominal`: the amount a token denotes, or `0.0` when its residue
      does not parse. */
  function Normalise(s: string): (r: real)
    ensures r >= 0.0
    ensures ParseDecimal(Clean(s)).None? ==> r == 0.0
    ensures ParseDecimal(Clean(s)).Some? ==> r == ParseDecimal(Clean(s)).value
  {
    match ParseDecimal(Clean(s))
    case Some(v) => v
    case None => 0.0
  }

  // ---------------------------------------------------------------------------
  // Indonesian amount rendering, used to state what normalisation inverts.

  /** Decimal digits of `n`, no leading zeros. */
  function Digits(n: nat): (s: string)
    ensures |s| > 0 && AllDigits(s)
    ensures Value(s) == n
  {
    if n < 10 then [DigitChar(n)]
    else
      var s := Digits(n / 10) + [DigitChar(n % 10)];
      assert s[..|s| - 1] == Digits(n / 10);
      s
  }

  /** The three digits of a group, zero-padded. */
  function Group(m: nat): (s: string)
    requires m < 1000
    ensures |s| == 3 && AllDigits(s)
    ensures Value(s) == m
  {
    var a, b, c := m / 100, m / 10 % 10, m % 10;
    var s := [DigitChar(a), DigitChar(b), DigitChar(c)];
    assert s[..2][..1] == s[..1];
    assert s[..1][..0] == "";
    assert Value(s[..1]) == a;
    assert Value(s[..2]) == a * 10 + b;
    assert Value(s) == (a * 10 + b) * 10 + c;
    assert m == a * 100 + b * 10 + c;
    s
  }

  /** `n` written with `.` between groups of three digits, as statements print it. */
  function Render(n: nat): string
  {
    if n < 1000 then Digits(n) else Render(n / 1000) + "." + Group(n % 1000)
  }

  lemma {:induction false} CleanRender(n: nat)
    ensures AllDigits(Clean(Render(n))) && |Clean(Render(n))| > 0
    ensures Value(Clean(Render(n))) == n
    decreases n
  {
    if n < 1000 {
      CleanDigits(Digits(n));
    } else {
      var hi, g := Render(n / 1000), Group(n % 1000);
      CleanRender(n / 1000);
      var c := Clean(hi);
      assert Clean(Render(n)) == c + g by {
        CleanGrouped(hi, g);
      }
      assert Value(c + g) == n by {
        ValueAppend(c, g);
        assert Pow10(3) == 1000;
        DivMod1000(n);
      }
    }
  }

  lemma CleanGrouped(hi: string, g: string)
    requires AllDigits(g)
    ensures Clean(hi + "." + g) == Clean(hi) + g
  {
    CleanAppend(hi + ".", g);
    CleanAppend(hi, ".");
    CleanOne('.');
    CleanDigits(g);
  }

  lemma DivMod1000(n: nat)
    ensures n == (n / 1000) * 1000 + n % 1000
  {
  }

  lemma TrimUnspaced(u: string)
    requires |u| > 0 && !IsFloatSpace(u[0]) && !IsFloatSpace(u[|u| - 1])
    ensures FloatTrim(u) == u
  {
  }

  /** Normalisation inverts rendering: a token made of a sign part that normalises to
      nothing (`-`, `+`, spaces), a grouped whole part and an optional decimal comma
      with digits denotes exactly that number. */
  lemma NormaliseRendered(sign: string, n: nat, cents: string)
    requires Clean(sign) == ""
    requires AllDigits(cents)
    ensures Normalise(sign + Render(n)) == n as real
    ensures Normalise(sign + Render(n) + "," + cents)
            == n as real + Value(cents) as real / Pow10(|cents|) as real
  {
    var r := Render(n);
    var d := Clean(r);
    CleanRender(n);
    NormaliseWhole(sign, r, d);
    NormaliseCents(sign, r, d, cents);
  }

  lemma NormaliseWhole(sign: string, r: string, d: string)
    requires Clean(sign) == "" && Clean(r) == d
    requires AllDigits(d) && |d| > 0
    ensures Normalise(sign + r) == Value(d) as real
  {
    assert Clean(sign + r) == d by {
      CleanAppend(sign, r);
    }
    assert ParseLiteral(d) == Some(Value(d) as real) by {
      ParseWhole(d);
    }
    NormaliseResidue(sign + r, d);
  }

  lemma NormaliseCents(sign: string, r: string, d: string, cents: string)
    requires Clean(sign) == "" && Clean(r) == d
    requires AllDigits(d) && |d| > 0 && AllDigits(cents)
    ensures Normalise(sign + r + "," + cents)
            == Value(d) as real + Value(cents) as real / Pow10(|cents|) as real
  {
    CleanCents(sign, r, d, cents);
    NormaliseFraction(sign + r + "," + cents, d, cents);
  }

  lemma NormaliseFraction(t: string, d: string, cents: string)
    requires AllDigits(d) && |d| > 0 && AllDigits(cents)
    requires Clean(t) == d + "." + cents
    ensures Normalise(t) == Decimal(d, cents)
  {
    var u := d + "." + cents;
    assert forall i :: 0 <= i < |u| ==> IsDigit(u[i]) || u[i] == '.' by {
      forall i | 0 <= i < |u| ensures IsDigit(u[i]) || u[i] == '.' {
        if i < |d| {
          assert u[i] == d[i];
        } else if i > |d| {
          assert u[i] == cents[i - |d| - 1];
        }
      }
    }
    assert ParseLiteral(u) == Some(Decimal(d, cents)) by {
      ParseFraction(d, cents);
    }
    NormaliseResidue(t, u);
  }

  lemma CleanCents(sign: string, r: string, d: string, cents: string)
    requires Clean(sign) == "" && Clean(r) == d && AllDigits(cents)
    ensures Clean(sign + r + "," + cents) == d + "." + cents
  {
    CleanAppend(sign, r);
    assert Clean(sign + r) == d;
    CleanAppend(sign + r, ",");
    CleanOne(',');
    assert Clean(sign + r + ",") == d + ".";
    CleanAppend(sign + r + ",", cents);
    CleanDigits(cents);
  }

  /** When the residue needs no trimming, normalisation is the literal's value. */
  lemma NormaliseResidue(s: string, u: string)
    requires Clean(s) == u
    requires forall i :: 0 <= i < |u| ==> IsDigit(u[i]) || u[i] == '.'
    ensures ParseLiteral(u).Some? ==> Normalise(s) == ParseLiteral(u).value
    ensures ParseLiteral(u).None? ==> Normalise(s) == 0.0
  {
    if |u| > 0 {
      assert IsDigit(u[0]) || u[0] == '.';
      assert IsDigit(u[|u| - 1]) || u[|u| - 1] == '.';
      TrimUnspaced(u);
    } else {
      assert FloatTrim(u) == u;
    }
  }

  lemma ParseWhole(d: string)
    requires AllDigits(d) && |d| > 0
    ensures ParseLiteral(d) == Some(Value(d) as real)
  {
    NoPoint(d);
    assert d[..|d|] == d;
    DecimalWhole(d);
  }

  lemma DecimalWhole(d: string)
    requires AllDigits(d)
    ensures Decimal(d, "") == Value(d) as real
  {
    assert Value("") == 0 && Pow10(0) == 1;
  }

  lemma NoPoint(d: string)
    requires AllDigits(d)
    ensures IndexOf(d, '.', 0) == |d|
  {
    forall i | 0 <= i < |d| ensures d[i] != '.' {
      assert IsDigit(d[i]);
    }
  }

  lemma PointAfterDigits(d: string, f: string)
    requires AllDigits(d)
    ensures IndexOf(d + "." + f, '.', 0) == |d|
  {
    var u := d + "." + f;
    forall i | 0 <= i < |d| ensures u[i] != '.' {
      assert u[i] == d[i] && IsDigit(d[i]);
    }
    assert u[|d|] == '.';
  }

  lemma ParseFraction(d: string, f: string)
    requires AllDigits(d) && |d| > 0 && AllDigits(f)
    ensures ParseLiteral(d + "." + f) == Some(Decimal(d, f))
  {
    var u := d + "." + f;
    PointAfterDigits(d, f);
    assert u[..|d|] == d;
    assert u[|d| + 1..] == f;
  }

  /** A token `-<digits>,<digits>` is read with the comma as the decimal point, so
      `-21,500` (which the source's comment calls a thousands amount) is 21.5. */
  lemma NormaliseDecimalComma(whole: string, frac: string)
    requires AllDigits(whole) && |whole| > 0 && AllDigits(frac)
    ensures Normalise("-" + whole + "," + frac)
            == Value(whole) as real + Value(frac) as real / Pow10(|frac|) as real
  {
    CleanOne('-');
    CleanDigits(whole);
    NormaliseCents("-", whole, whole, frac);
  }

  /** Two decimal commas anywhere in a token leave two points in the residue, which
      `float()` rejects, so the amount is `0.0`. */
  lemma NormaliseTwoCommas(s: string)
    requires multiset(s)[','] >= 2
    ensures Normalise(s) == 0.0
  {
    CleanIsPerCharacter(s);
    CleanEachCommas(s);
    var u := Clean(s);
    StripKeeps(u, FloatBlanks, '.');
    var t := FloatTrim(u);
    if IsDecimalLiteral(t) {
      AtMostOnePoint(t);
      assert false;
    }
  }

  /** A character that normalisation does not touch and that is neither a digit, a
      point nor a blank `float()` ignores makes the amount `0.0`, wherever it stands.
      The separators U+001C to U+001F, which the extractor's `\s` admits after the
      minus sign, are such characters. */
  lemma NormaliseStray(s: string, c: char)
    requires c in s
    requires !IsDigit(c) && c != '+' && c != '-' && c != ' ' && c != '.' && c != ','
    requires !IsFloatSpace(c)
    ensures Normalise(s) == 0.0
  {
    CleanIsPerCharacter(s);
    CleanEachKeeps(s, c);
    var u := Clean(s);
    StripKeeps(u, FloatBlanks, c);
    var t := FloatTrim(u);
    assert c in multiset(t);
    var k :| 0 <= k < |t| && t[k] == c;
    assert !IsDecimalLiteral(t);
  }

  /** `-<U+001C>5`: the extractor matches it, but `float()` keeps the separator and fails. */
  lemma SeparatorExample()
    ensures Normalise("-\U{1c}5") == 0.0
  {
    assert "-\U{1c}5"[1] == '\U{1c}';
    NormaliseStray("-\U{1c}5", '\U{1c}');
  }

  lemma {:induction false} CleanEachCommas(s: string)
    ensures multiset(CleanEach(s))['.'] == multiset(s)[',']
    decreases |s|
  {
    if |s| > 0 {
      CleanEachCommas(s[1..]);
      var h, t := CleanChar(s[0]), CleanEach(s[1..]);
      assert CleanEach(s) == h + t;
      assert multiset(CleanEach(s)) == multiset(h) + multiset(t);
      assert s == [s[0]] + s[1..];
      assert multiset(s) == multiset([s[0]]) + multiset(s[1..]);
      CharCommas(s[0]);
    }
  }

  lemma CharCommas(c: char)
    ensures multiset(CleanChar(c))['.'] == multiset([c])[',']
  {
    if c == ',' {
      assert CleanChar(c) == ".";
    } else if c == '+' || c == '-' || c == ' ' || c == '.' {
      assert CleanChar(c) == "";
    } else {
      assert CleanChar(c) == [c];
    }
  }

  lemma {:induction false} CleanEachKeeps(s: string, c: char)
    requires !IsDigit(c) && c != '+' && c != '-' && c != ' ' && c != '.' && c != ','
    ensures multiset(CleanEach(s))[c] == multiset(s)[c]
    decreases |s|
  {
    if |s| > 0 {
      CleanEachKeeps(s[1..], c);
      var h, t := CleanChar(s[0]), CleanEach(s[1..]);
      assert CleanEach(s) == h + t;
      assert multiset(CleanEach(s)) == multiset(h) + multiset(t);
      assert s == [s[0]] + s[1..];
      assert multiset(s) == multiset([s[0]]) + multiset(s[1..]);
      CharKept(s[0], c);
    }
  }

  lemma CharKept(d: char, c: char)
    requires !IsDigit(c) && c != '+' && c != '-' && c != ' ' && c != '.' && c != ','
    ensures multiset(CleanChar(d))[c] == multiset([d])[c]
  {
    if d == ',' {
      assert CleanChar(d) == ".";
    } else if d == '+' || d == '-' || d == ' ' || d == '.' {
      assert CleanChar(d) == "";
    } else {
      assert CleanChar(d) == [d];
    }
  }

  /** Stripping removes blanks only, so it keeps every other character's count. */
  lemma StripKeeps(u: string, b: Blanks, c: char)
    requires !IsBlank(b, c)
    ensures multiset(Strip(u, b))[c] == multiset(u)[c]
  {
    StripSlice(u, b);
    var i, j :| 0 <= i <= j <= |u| && Strip(u, b) == u[i..j] && AllBlank(b, u[..i]) && AllBlank(b, u[j..]);
    BlanksLackIt(u[..i], b, c);
    BlanksLackIt(u[j..], b, c);
    MiddleCount(u, i, j, c);
  }

  lemma BlanksLackIt(s: string, b: Blanks, c: char)
    requires AllBlank(b, s) && !IsBlank(b, c)
    ensures c !in s
  {
  }

  lemma MiddleCount<T>(u: seq<T>, i: nat, j: nat, c: T)
    requires i <= j <= |u| && c !in u[..i] && c !in u[j..]
    ensures multiset(u[i..j])[c] == multiset(u)[c]
  {
    assert u == u[..i] + u[i..j] + u[j..];
    assert multiset(u) == multiset(u[..i]) + multiset(u[i..j]) + multiset(u[j..]);
  }

  /** A decimal literal holds at most one point. */
  lemma {:induction false} AtMostOnePoint(t: string)
    requires forall i, j :: 0 <= i < j < |t| && t[i] == '.' ==> t[j] != '.'
    ensures multiset(t)['.'] <= 1
    decreases |t|
  {
    if |t| > 0 {
      var rest := t[1..];
      assert forall i, j :: 0 <= i < j < |rest| && rest[i] == '.' ==> rest[j] != '.' by {
        forall i, j | 0 <= i < j < |rest| && rest[i] == '.' ensures rest[j] != '.' {
          assert t[i + 1] == rest[i] && t[j + 1] == rest[j];
        }
      }
      AtMostOnePoint(rest);
      assert t == [t[0]] + rest;
      if t[0] == '.' {
        assert '.' !in rest by {
          forall j | 0 <= j < |rest| ensures rest[j] != '.' {
            assert t[j + 1] == rest[j];
          }
        }
      }
    }
  }

  lemma {:induction false} CleanKeepsNoDigit(s: string)
    requires forall i :: 0 <= i < |s| ==> !IsDigit(s[i])
    ensures forall i :: 0 <= i < |CleanEach(s)| ==> !IsDigit(CleanEach(s)[i])
    decreases |s|
  {
    if |s| > 0 {
      CleanKeepsNoDigit(s[1..]);
      var h, t := CleanChar(s[0]), CleanEach(s[1..]);
      assert forall i :: 0 <= i < |h| ==> !IsDigit(h[i]);
      forall i | 0 <= i < |h + t| ensures !IsDigit((h + t)[i]) {
        if i >= |h| {
          assert (h + t)[i] == t[i - |h|];
        }
      }
    }
  }

  /** A token without a digit normalises to `0.0`. */
  lemma NormaliseNoDigit(s: string)
    requires forall i :: 0 <= i < |s| ==> !IsDigit(s[i])
    ensures Normalise(s) == 0.0
  {
    CleanIsPerCharacter(s);
    CleanKeepsNoDigit(s);
    TrimNoDigit(Clean(s));
  }

  lemma TrimNoDigit(u: string)
    requires forall k :: 0 <= k < |u| ==> !IsDigit(u[k])
    ensures !IsDecimalLiteral(FloatTrim(u))
  {
    var t := FloatTrim(u);
    StripSlice(u, FloatBlanks);
    var i, j :| 0 <= i <= j <= |u| && t == u[i..j];
    forall k | 0 <= k < |t| ensures !IsDigit(t[k]) {
      assert t[k] == u[i + k];
    }
  }

  /** A thousands amount as statements print it: `-21.500` is 21.500. */
  lemma ThousandsExample()
    ensures Normalise("-21.500") == 21500.0
  {
    assert Render(21500) == "21.500" by {
      assert Digits(21) == "21" by {
        assert Digits(2) == "2";
      }
      assert Group(500) == "500";
    }
    CleanOne('-');
    NormaliseRendered("-", 21500, "");
    Spelled();
  }

  /** The same digits with a comma: `-21,500` is 21.5, the comma being the decimal point. */
  lemma CommaExample()
    ensures Normalise("-21,500") == 21.5
  {
    var v := Value("21") as real + Value("500") as real / Pow10(|"500"|) as real;
    assert v == 21.5 by {
      assert Value("21") == 21 by {
        assert "21"[..1] == "2" && "2"[..0] == "";
      }
      assert Value("500") == 500 by {
        assert "500"[..2] == "50" && "50"[..1] == "5" && "5"[..0] == "";
      }
      assert Pow10(|"500"|) == 1000 by {
        assert Pow10(3) == 10 * Pow10(2) && Pow10(2) == 10 * Pow10(1) && Pow10(1) == 10;
      }
    }
    assert Normalise("-" + "21" + "," + "500") == v by {
      NormaliseDecimalComma("21", "500");
    }
    Spelled();
  }

  /** An empty whole part: a token such as `-,5` leaves the residue `.5`, which
      `float()` reads as the fraction alone (0.5). */
  lemma NormaliseEmptyWhole(sign: string, frac: string)
    requires Clean(sign) == "" && AllDigits(frac) && |frac| > 0
    ensures Normalise(sign + "," + frac) == Value(frac) as real / Pow10(|frac|) as real
  {
    var u := "." + frac;
    CleanEmptyWhole(sign, frac);
    FractionOnly(frac);
    NormaliseResidue(sign + "," + frac, u);
  }

  lemma CleanEmptyWhole(sign: string, frac: string)
    requires Clean(sign) == "" && AllDigits(frac)
    ensures Clean(sign + "," + frac) == "." + frac
  {
    CleanAppend(sign, ",");
    CleanOne(',');
    CleanAppend(sign + ",", frac);
    CleanDigits(frac);
  }

  lemma FractionOnly(frac: string)
    requires AllDigits(frac) && |frac| > 0
    ensures var u := "." + frac;
            forall i :: 0 <= i < |u| ==> IsDigit(u[i]) || u[i] == '.'
    ensures ParseLiteral("." + frac) == Some(Value(frac) as real / Pow10(|frac|) as real)
  {
    var u := "." + frac;
    assert u[..0] == "" && u[1..] == frac;
    assert forall i :: 0 <= i < |u| ==> IsDigit(u[i]) || u[i] == '.' by {
      forall i | 0 < i < |u| ensures IsDigit(u[i]) {
        assert u[i] == u[1..][i - 1];
      }
    }
    assert ParseLiteral(u) == Some(Decimal("", frac)) by {
      assert u[0] == '.' && AllDigits(u[..0]) && AllDigits(u[1..]) && |u| > 1;
    }
    assert Decimal("", frac) == Value(frac) as real / Pow10(|frac|) as real by {
      assert Value("") == 0;
    }
  }

  lemma Spelled()
    ensures "-" + "21.500" == "-21.500"
    ensures "-" + "21" + "," + "500" == "-21,500"
  {
  }
}
