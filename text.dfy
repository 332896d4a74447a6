/** The Kotlin and Java string and number operations the adapters rely on:
    trim, lowercase, indexOf, split, joinToString, replace, Int parsing and
    printing, and parsing of a chapter-number token as a decimal. */
module Text {
  import opened Wrappers

  // ---------------------------------------------------------------------
  // Whitespace and trim
  // ---------------------------------------------------------------------

  /** Kotlin's Char.isWhitespace on the JVM: Java's isWhitespace or
      isSpaceChar, written out as code points. */
  predicate IsWhitespace(c: char) {
    var n := c as int;
    (9 <= n <= 13) || (28 <= n <= 32) || n == 0xA0 || n == 0x1680 ||
    (0x2000 <= n <= 0x200A) || n == 0x2028 || n == 0x2029 || n == 0x202F ||
    n == 0x205F || n == 0x3000
  }

  predicate AllWhitespace(s: string) {
    forall i :: 0 <= i < |s| ==> IsWhitespace(s[i])
  }

  /** Drops the leading whitespace. */
  function TrimStart(s: string): (r: string)
    ensures |r| <= |s|
    ensures AllWhitespace(s[..|s| - |r|])
    ensures r == [] || !IsWhitespace(r[0])
    decreases |s|
  {
    if s != [] && IsWhitespace(s[0]) then
      var r := TrimStart(s[1..]);
      assert s[..|s| - |r|] == [s[0]] + s[1..][..|s| - 1 - |r|];
      r
    else
      s
  }

  /** Drops the trailing whitespace. */
  function TrimEnd(s: string): (r: string)
    ensures |r| <= |s| && r == s[..|r|]
    ensures AllWhitespace(s[|r|..])
    ensures r == [] || !IsWhitespace(r[|r| - 1])
    decreases |s|
  {
    if s != [] && IsWhitespace(s[|s| - 1]) then
      var r := TrimEnd(s[..|s| - 1]);
      assert s[|r|..] == s[..|s| - 1][|r|..] + [s[|s| - 1]];
      r
    else
      s
  }

  /** Kotlin's String.trim(). */
  function Trim(s: string): (r: string)
    ensures r == [] || (!IsWhitespace(r[0]) && !IsWhitespace(r[|r| - 1]))
  {
    TrimEnd(TrimStart(s))
  }

  lemma {:induction false} TrimStartAppend(s: string, t: string)
    ensures TrimStart(s) != [] ==> TrimStart(s + t) == TrimStart(s) + t
    ensures TrimStart(s) == [] ==> TrimStart(s + t) == TrimStart(t)
    decreases |s|
  {
    if s != [] && IsWhitespace(s[0]) {
      assert (s + t)[1..] == s[1..] + t;
      TrimStartAppend(s[1..], t);
    } else if s == [] {
      assert s + t == t;
    }
  }

  lemma {:induction false} TrimStartWhitespace(pre: string, s: string)
    requires AllWhitespace(pre)
    ensures TrimStart(pre + s) == TrimStart(s)
    decreases |pre|
  {
    if pre == [] {
      assert pre + s == s;
    } else {
      assert (pre + s)[0] == pre[0];
      assert (pre + s)[1..] == pre[1..] + s;
      TrimStartWhitespace(pre[1..], s);
    }
  }

  lemma {:induction false} TrimEndWhitespace(s: string, post: string)
    requires AllWhitespace(post)
    ensures TrimEnd(s + post) == TrimEnd(s)
    decreases |post|
  {
    if post == [] {
      assert s + post == s;
    } else {
      var n := |s + post|;
      assert (s + post)[n - 1] == post[|post| - 1];
      assert (s + post)[..n - 1] == s + post[..|post| - 1];
      TrimEndWhitespace(s, post[..|post| - 1]);
    }
  }

  lemma {:induction false} TrimStartBlank(s: string)
    requires AllWhitespace(s)
    ensures TrimStart(s) == []
    decreases |s|
  {
    if s != [] {
      TrimStartBlank(s[1..]);
    }
  }

  /** Whitespace around a text never changes what trim returns. */
  lemma TrimIgnoresPadding(pre: string, s: string, post: string)
    requires AllWhitespace(pre) && AllWhitespace(post)
    ensures Trim(pre + s + post) == Trim(s)
  {
    assert pre + s + post == pre + (s + post);
    TrimStartWhitespace(pre, s + post);
    TrimStartAppend(s, post);
    if TrimStart(s) != [] {
      TrimEndWhitespace(TrimStart(s), post);
    } else {
      TrimStartBlank(post);
    }
  }

  /** trim removes exactly the surrounding whitespace: a text that neither
      starts nor ends with whitespace comes back whatever whitespace
      surrounds it, and an all-whitespace text trims to "". */
  lemma TrimKeepsCore(pre: string, core: string, post: string)
    requires AllWhitespace(pre) && AllWhitespace(post)
    requires core == [] || (!IsWhitespace(core[0]) && !IsWhitespace(core[|core| - 1]))
    ensures Trim(pre + core + post) == core
  {
    TrimIgnoresPadding(pre, core, post);
  }

  // ---------------------------------------------------------------------
  // Lowercase
  // ---------------------------------------------------------------------

  predicate IsUpper(c: char) { 'A' <= c <= 'Z' }

  function LowerChar(c: char): char {
    if IsUpper(c) then (c as int + 32) as char else c
  }

  /** String.toLowerCase(), on ASCII letters. */
  function Lower(s: string): (r: string)
    ensures |r| == |s|
    ensures forall i :: 0 <= i < |r| ==> !IsUpper(r[i])
    ensures forall i :: 0 <= i < |r| ==>
      r[i] == s[i] || (IsUpper(s[i]) && r[i] as int == s[i] as int + 32)
  {
    seq(|s|, i requires 0 <= i < |s| => LowerChar(s[i]))
  }

  lemma LowerTwice(s: string)
    ensures Lower(Lower(s)) == Lower(s)
  {
  }

  /** Lowercasing never touches whitespace, so it commutes with trim. */
  lemma {:induction false} TrimLower(s: string)
    ensures Trim(Lower(s)) == Lower(Trim(s))
  {
    TrimStartLower(s);
    TrimEndLower(TrimStart(s));
  }

  lemma {:induction false} TrimStartLower(s: string)
    ensures TrimStart(Lower(s)) == Lower(TrimStart(s))
    decreases |s|
  {
    if s != [] {
      assert Lower(s)[1..] == Lower(s[1..]);
      TrimStartLower(s[1..]);
    }
  }

  lemma {:induction false} TrimEndLower(s: string)
    ensures TrimEnd(Lower(s)) == Lower(TrimEnd(s))
    decreases |s|
  {
    if s != [] {
      var init, c := s[..|s| - 1], s[|s| - 1];
      LowerInit(s);
      assert IsWhitespace(LowerChar(c)) <==> IsWhitespace(c);
      if IsWhitespace(c) {
        TrimEndLower(init);
      }
    }
  }

  /** Lowering commutes with dropping the last character. */
  lemma LowerInit(s: string)
    requires s != []
    ensures Lower(s)[..|s| - 1] == Lower(s[..|s| - 1])
    ensures Lower(s)[|s| - 1] == LowerChar(s[|s| - 1])
  {
  }

  /** String.replace(old, new) for one-character strings: every occurrence. */
  function ReplaceChar(s: string, from: char, to: char): (r: string)
    ensures |r| == |s|
    ensures from != to ==> forall i :: 0 <= i < |r| ==> r[i] != from
    ensures forall i :: 0 <= i < |r| && s[i] != from ==> r[i] == s[i]
    ensures forall i :: 0 <= i < |r| && s[i] == from ==> r[i] == to
  {
    seq(|s|, i requires 0 <= i < |s| => if s[i] == from then to else s[i])
  }

  // ---------------------------------------------------------------------
  // indexOf, split, joinToString
  // ---------------------------------------------------------------------

  predicate OccursAt(s: string, pat: string, k: int) {
    0 <= k && k + |pat| <= |s| && s[k..k + |pat|] == pat
  }

  /** String.startsWith(prefix). */
  predicate StartsWith(s: string, prefix: string) {
    |prefix| <= |s| && s[..|prefix|] == prefix
  }

  ghost predicate Contains(s: string, pat: string) {
    exists k :: OccursAt(s, pat, k)
  }

  /** String.indexOf(pat, from): the first occurrence at or after from,
      or -1. */
  function IndexOf(s: string, pat: string, from: nat): (r: int)
    requires from <= |s|
    ensures r == -1 || (from <= r && OccursAt(s, pat, r))
    ensures forall k :: from <= k && (r == -1 || k < r) ==> !OccursAt(s, pat, k)
    decreases |s| - from
  {
    if from + |pat| > |s| then -1
    else if s[from..from + |pat|] == pat then from
    else IndexOf(s, pat, from + 1)
  }

  /** indexOf finds an occurrence with none before it. */
  lemma IndexOfAt(s: string, pat: string, from: nat, k: int)
    requires from <= k && OccursAt(s, pat, k)
    requires forall j :: from <= j < k ==> !OccursAt(s, pat, j)
    ensures from <= |s| && IndexOf(s, pat, from) == k
  {
  }

  /** An occurrence in a slice is an occurrence in the whole. */
  lemma OccursInSlice(s: string, pat: string, a: nat, b: nat, k: int)
    requires a <= b <= |s| && OccursAt(s[a..b], pat, k)
    ensures OccursAt(s, pat, a + k)
  {
    forall j | 0 <= j < |pat| ensures s[a + k..a + k + |pat|][j] == pat[j] {
      assert s[a..b][k..k + |pat|][j] == pat[j];
    }
  }

  lemma OccursInPrefix(s: string, pat: string, i: nat, k: int)
    requires i <= |s| && OccursAt(s[..i], pat, k)
    ensures OccursAt(s, pat, k)
  {
    assert s[..i][k..k + |pat|] == s[k..k + |pat|];
  }

  /** joinToString(sep). */
  function Join(xs: seq<string>, sep: string): string {
    if |xs| == 0 then ""
    else if |xs| == 1 then xs[0]
    else xs[0] + sep + Join(xs[1..], sep)
  }

  /** Kotlin's String.split(sep) with one non-empty delimiter: the pieces
      between non-overlapping occurrences found left to right, trailing
      empty pieces kept. */
  function Split(s: string, sep: string): (parts: seq<string>)
    requires |sep| > 0
    ensures |parts| >= 1
    ensures Join(parts, sep) == s
    ensures forall i :: 0 <= i < |parts| ==> !Contains(parts[i], sep)
    decreases |s|
  {
    var i := IndexOf(s, sep, 0);
    if i < 0 then
      [s]
    else
      var rest := Split(s[i + |sep|..], sep);
      assert s == s[..i] + sep + s[i + |sep|..] by {
        assert s[i..i + |sep|] == sep;
      }
      assert !Contains(s[..i], sep) by {
        forall k | OccursAt(s[..i], sep, k) ensures OccursAt(s, sep, k) && k < i {
          OccursInPrefix(s, sep, i, k);
        }
      }
      [s[..i]] + rest
  }

  /** Splitting on one character yields one piece more than the number of
      times that character occurs. */
  lemma {:induction false} SplitCount(s: string, c: char)
    ensures |Split(s, [c])| == multiset(s)[c] + 1
    decreases |s|
  {
    var i := IndexOf(s, [c], 0);
    if i < 0 {
      assert c !in multiset(s) by {
        forall k | 0 <= k < |s| ensures s[k] != c {
          assert !OccursAt(s, [c], k) && s[k..k + 1] == [s[k]];
        }
      }
    } else {
      assert s == s[..i] + [c] + s[i + 1..] by {
        assert s[i..i + 1] == [c];
      }
      assert c !in multiset(s[..i]) by {
        forall k | 0 <= k < i ensures s[..i][k] != c {
          assert !OccursAt(s, [c], k) && s[k..k + 1] == [s[k]];
        }
      }
      SplitCount(s[i + 1..], c);
      calc {
        multiset(s)[c];
        == { assert multiset(s) == multiset(s[..i]) + multiset([c]) + multiset(s[i + 1..]); }
        multiset(s[..i])[c] + 1 + multiset(s[i + 1..])[c];
      }
    }
  }

  /** The first ", " of `x + ", " + rest` is the one after x when x has
      none of its own. */
  lemma JoinFirstSeparator(x: string, rest: string)
    requires !Contains(x, ", ")
    ensures IndexOf(x + ", " + rest, ", ", 0) == |x|
  {
    var s := x + ", " + rest;
    assert OccursAt(s, ", ", |x|) by {
      assert s[|x|..|x| + 2] == ", ";
    }
    forall k | 0 <= k < |x| ensures !OccursAt(s, ", ", k) {
      if k + 2 <= |x| {
        assert s[k..k + 2] == x[k..k + 2] && !OccursAt(x, ", ", k);
      } else {
        assert s[k + 1] == ',' && s[k..k + 2][1] == s[k + 1];
      }
    }
  }

  /** Splitting a ", "-joined list gives back its first element as the first
      piece whenever that element does not itself contain ", ". */
  lemma FirstPieceOfJoin(x: string, xs: seq<string>)
    requires !Contains(x, ", ")
    ensures Split(Join([x] + xs, ", "), ", ")[0] == x
  {
    var s := Join([x] + xs, ", ");
    if xs == [] {
      assert s == x;
      assert IndexOf(s, ", ", 0) == -1 by {
        assert !OccursAt(x, ", ", IndexOf(s, ", ", 0));
      }
    } else {
      assert ([x] + xs)[1..] == xs;
      JoinFirstSeparator(x, Join(xs, ", "));
      assert s[..|x|] == x;
    }
  }

  /** joinToString(", ") and split(", ") are inverse on a non-empty list
      whose elements contain no ", ". */
  lemma {:induction false} SplitJoin(xs: seq<string>)
    requires xs != []
    requires forall i :: 0 <= i < |xs| ==> !Contains(xs[i], ", ")
    ensures Split(Join(xs, ", "), ", ") == xs
    decreases |xs|
  {
    var x := xs[0];
    if |xs| == 1 {
      assert IndexOf(x, ", ", 0) == -1 by {
        assert !OccursAt(x, ", ", IndexOf(x, ", ", 0));
      }
    } else {
      var rest := Join(xs[1..], ", ");
      var s := x + ", " + rest;
      JoinFirstSeparator(x, rest);
      assert s[..|x|] == x && s[|x| + 2..] == rest;
      SplitJoin(xs[1..]);
      assert xs == [x] + xs[1..];
    }
  }

  // ---------------------------------------------------------------------
  // Integers: Kotlin Int, String.toInt(), Int.toString()
  // ---------------------------------------------------------------------

  const MinInt32: int := -0x8000_0000
  const MaxInt32: int := 0x7FFF_FFFF

  predicate IsInt32(n: int) { MinInt32 <= n <= MaxInt32 }

  predicate IsDigit(c: char) { '0' <= c <= '9' }

  predicate AllDigits(s: string) {
    forall i :: 0 <= i < |s| ==> IsDigit(s[i])
  }

  /** The value of a string of decimal digits, most significant first. */
  function DigitsValue(s: string): nat
    requires AllDigits(s)
    decreases |s|
  {
    if s == [] then 0 else 10 * DigitsValue(s[..|s| - 1]) + (s[|s| - 1] as int - '0' as int)
  }

  function DigitChar(d: nat): char
    requires d < 10
  {
    ('0' as int + d) as char
  }

  /** Decimal notation of a natural number, without leading zeros. */
  function NatToString(n: nat): (s: string)
    ensures |s| >= 1 && AllDigits(s) && DigitsValue(s) == n
    ensures |s| > 1 ==> s[0] != '0'
    decreases n
  {
    if n < 10 then
      [DigitChar(n)]
    else
      var prefix := NatToString(n / 10);
      var s := prefix + [DigitChar(n % 10)];
      assert s[..|s| - 1] == prefix;
      s
  }

  /** Int.toString(). */
  function IntToString(n: int): (s: string)
    ensures |s| >= 1
    ensures forall i :: 0 <= i < |s| ==> IsDigit(s[i]) || (i == 0 && s[i] == '-')
  {
    if n < 0 then "-" + NatToString(-n) else NatToString(n)
  }

  /** String.toInt() (Integer.parseInt in base 10): an optional sign, at
      least one ASCII digit, and a value within the 32-bit range; None where
      Kotlin throws NumberFormatException. */
  function ParseInt32(s: string): (r: Option<int>)
    ensures r.Some? ==> IsInt32(r.value)
    ensures r.Some? ==> s != [] && (AllDigits(s) || ((s[0] == '-' || s[0] == '+') && |s| >= 2 && AllDigits(s[1..])))
    ensures s != [] && AllDigits(s) ==>
      r == (if DigitsValue(s) <= MaxInt32 then Some(DigitsValue(s)) else None)
    ensures |s| >= 2 && s[0] == '+' && AllDigits(s[1..]) ==>
      r == (if DigitsValue(s[1..]) <= MaxInt32 then Some(DigitsValue(s[1..]) as int) else None)
    ensures |s| >= 2 && s[0] == '-' && AllDigits(s[1..]) ==>
      r == (if DigitsValue(s[1..]) <= -MinInt32 then Some(-(DigitsValue(s[1..]) as int)) else None)
  {
    if |s| == 0 then None
    else if s[0] == '-' || s[0] == '+' then
      var body := s[1..];
      if |body| == 0 || !AllDigits(body) then None
      else
        var v: int := if s[0] == '-' then -(DigitsValue(body) as int) else DigitsValue(body);
        if IsInt32(v) then Some(v) else None
    else if AllDigits(s) && DigitsValue(s) <= MaxInt32 then Some(DigitsValue(s))
    else None
  }

  /** A printed integer holds no ", ". */
  lemma IntToStringHasNoComma(n: int)
    ensures !Contains(IntToString(n), ", ")
  {
    var s := IntToString(n);
    forall k | 0 <= k ensures !OccursAt(s, ", ", k) {
      if k + 2 <= |s| {
        assert s[k..k + 2][0] == s[k];
      }
    }
  }

  /** Printing a 32-bit integer and parsing it back gives the integer. */
  lemma IntToStringRoundTrip(n: int)
    requires IsInt32(n)
    ensures ParseInt32(IntToString(n)) == Some(n)
  {
    if n < 0 {
      var body := NatToString(-n);
      assert ("-" + body)[1..] == body;
    }
  }

  // ---------------------------------------------------------------------
  // Chapter-number tokens: Float.parseFloat on digits and dots
  // ---------------------------------------------------------------------

  function Pow10(k: nat): (p: nat)
    ensures p >= 1
  {
    if k == 0 then 1 else 10 * Pow10(k - 1)
  }

  predicate IsNumberToken(s: string) {
    forall i :: 0 <= i < |s| ==> IsDigit(s[i]) || s[i] == '.'
  }

  /** String.toFloat() on a token made of digits and dots, as an exact
      decimal: a token with no dot is read as a whole number; one with a
      dot needs digits only after it and at least one digit overall. */
  function ParseDecimal(s: string): (r: Option<real>)
    requires IsNumberToken(s)
    ensures AllDigits(s) && s != [] ==> r == Some(DigitsValue(s) as real)
    ensures multiset(s)['.'] >= 2 ==> r == None
    ensures r.Some? ==> r.value >= 0.0
  {
    var dot := IndexOf(s, ".", 0);
    if dot < 0 then
      NoDotMeansDigits(s);
      if s != [] then Some(DigitsValue(s) as real) else None
    else
      var whole, frac := s[..dot], s[dot + 1..];
      DotSplit(s, dot);
      if AllDigits(frac) && |whole| + |frac| >= 1 then
        Some(DecimalValue(whole, frac))
      else
        None
  }

  /** The value of the decimal notation w.f. */
  function DecimalValue(w: string, f: string): real
    requires AllDigits(w) && AllDigits(f)
  {
    DigitsValue(w) as real + DigitsValue(f) as real / Pow10(|f|) as real
  }

  /** A token with one dot: the whole part plus the fraction, either part
      may be empty ("1." is 1, ".5" is 0.5), and "." alone does not
      parse. */
  lemma ParseDecimalOneDot(w: string, f: string)
    requires AllDigits(w) && AllDigits(f)
    ensures IsNumberToken(w + "." + f)
    ensures ParseDecimal(w + "." + f) == if |w| + |f| >= 1 then Some(DecimalValue(w, f)) else None
  {
    var s := w + "." + f;
    OneDotParts(w, f);
    var dot := IndexOf(s, ".", 0);
    assert s[..dot] == w && s[dot + 1..] == f;
  }

  lemma OneDotParts(w: string, f: string)
    requires AllDigits(w) && AllDigits(f)
    ensures IsNumberToken(w + "." + f)
    ensures IndexOf(w + "." + f, ".", 0) == |w|
    ensures (w + "." + f)[..|w|] == w && (w + "." + f)[|w| + 1..] == f
  {
    var s := w + "." + f;
    OneDotChars(w, f);
    assert OccursAt(s, ".", |w|) by {
      assert s[|w|..|w| + 1] == [s[|w|]];
    }
    forall j | 0 <= j < |w| ensures !OccursAt(s, ".", j) {
      assert s[j..j + 1] == [s[j]];
    }
    IndexOfAt(s, ".", 0, |w|);
  }

  lemma OneDotChars(w: string, f: string)
    requires AllDigits(w) && AllDigits(f)
    ensures |w + "." + f| == |w| + 1 + |f|
    ensures forall j :: 0 <= j < |w| ==> (w + "." + f)[j] == w[j] && IsDigit(w[j])
    ensures (w + "." + f)[|w|] == '.'
    ensures forall j :: |w| < j < |w| + 1 + |f| ==> (w + "." + f)[j] == f[j - |w| - 1] && IsDigit(f[j - |w| - 1])
    ensures (w + "." + f)[..|w|] == w && (w + "." + f)[|w| + 1..] == f
  {
    var s := w + "." + f;
    assert s == w + ("." + f);
  }

  lemma NoDotMeansDigits(s: string)
    requires IsNumberToken(s) && IndexOf(s, ".", 0) < 0
    ensures AllDigits(s) && multiset(s)['.'] == 0
  {
    forall k | 0 <= k < |s| ensures s[k] != '.' {
      assert !OccursAt(s, ".", k) && s[k..k + 1] == [s[k]];
    }
  }

  lemma DotSplit(s: string, dot: int)
    requires IsNumberToken(s) && 0 <= dot && dot == IndexOf(s, ".", 0)
    ensures AllDigits(s[..dot]) && !AllDigits(s)
    ensures multiset(s)['.'] >= 2 ==> !AllDigits(s[dot + 1..])
  {
    var whole, frac := s[..dot], s[dot + 1..];
    forall k | 0 <= k < |whole| ensures IsDigit(whole[k]) {
      assert !OccursAt(s, ".", k) && s[k..k + 1] == [s[k]];
    }
    assert s[dot] == s[dot..dot + 1][0];
    if multiset(s)['.'] >= 2 {
      DotInFraction(s, dot);
      var k :| 0 <= k < |frac| && frac[k] == '.';
      assert !IsDigit(frac[k]);
    }
  }

  /** A second dot lies after the first. */
  lemma DotInFraction(s: string, dot: int)
    requires 0 <= dot < |s| && s[dot] == '.' && multiset(s)['.'] >= 2
    requires forall k :: 0 <= k < dot ==> s[k] != '.'
    ensures '.' in s[dot + 1..]
  {
    var whole, frac := s[..dot], s[dot + 1..];
    assert s == whole + [s[dot]] + frac;
    assert multiset(s) == multiset(whole) + multiset([s[dot]]) + multiset(frac);
    assert '.' !in whole;
  }
}
