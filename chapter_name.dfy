/** The chapter-name regular expression of the three adapters,
    `.*(Chapter)\s([\d]+).*` (`[\d.]+` in Newmanganelos), as Kotlin's
    Regex.find applies it, and parseChapterName, which joins the two groups
    with a space.

    find tries start positions from the left. From a start p the leading
    `.*` runs to the end of p's line (Java's "." stops at line terminators)
    and then backs off one character at a time, so the match taken is the
    rightmost "Chapter" + \s + token character of the first line that has
    one; the greedy token group then takes the whole run of token
    characters (the trailing `.*` can match nothing). The flag `dotted`
    selects the token class: digits, or digits and dots. */
module ChapterName {
  import opened Wrappers
  import opened Text

  const Word: string := "Chapter"

  /** Java's \s: space, tab, newline, vertical tab, form feed, carriage return. */
  predicate RegexSpace(c: char) {
    c == ' ' || (9 <= c as int <= 13)
  }

  /** The characters Java's "." does not match. */
  predicate LineTerminator(c: char) {
    c == '\n' || c == '\r' || c as int == 0x85 || c as int == 0x2028 || c as int == 0x2029
  }

  /** `[\d]` (dotted false) or `[\d.]` (dotted true). */
  predicate TokenChar(c: char, dotted: bool) {
    IsDigit(c) || (dotted && c == '.')
  }

  /** "Chapter", one \s character and a token character start at q. */
  predicate MatchAt(s: string, q: int, dotted: bool) {
    0 <= q && q + 9 <= |s| && s[q..q + 7] == Word && RegexSpace(s[q + 7]) && TokenChar(s[q + 8], dotted)
  }

  /** No line terminator in s[a..b]. */
  predicate NoTerminator(s: string, a: int, b: int) {
    forall k :: a <= k < b && 0 <= k < |s| ==> !LineTerminator(s[k])
  }

  /** q is an earlier match than r on r's line. */
  predicate SameLineBefore(s: string, q: int, r: int) {
    q < r && NoTerminator(s, q, r)
  }

  /** q lies on a later line than r. */
  predicate LaterLine(s: string, r: int, q: int) {
    r < q && !NoTerminator(s, r, q)
  }

  lemma MatchStartsWithC(s: string, q: int, dotted: bool)
    ensures MatchAt(s, q, dotted) ==> s[q] == 'C'
  {
    if MatchAt(s, q, dotted) {
      assert s[q] == s[q..q + 7][0];
    }
  }

  /** End of the maximal run of token characters starting at k. */
  function RunEnd(s: string, k: nat, dotted: bool): (e: nat)
    requires k <= |s|
    ensures k <= e <= |s|
    ensures forall i :: k <= i < e ==> TokenChar(s[i], dotted)
    ensures e == |s| || !TokenChar(s[e], dotted)
    decreases |s| - k
  {
    if k < |s| && TokenChar(s[k], dotted) then RunEnd(s, k + 1, dotted) else k
  }

  /** The first line terminator at or after p, or |s|. */
  function LineEnd(s: string, p: nat): (t: nat)
    requires p <= |s|
    ensures p <= t <= |s| && NoTerminator(s, p, t)
    ensures t < |s| ==> LineTerminator(s[t])
    decreases |s| - p
  {
    if p == |s| || LineTerminator(s[p]) then p else LineEnd(s, p + 1)
  }

  /** The rightmost match starting in s[p..t]: where `.*` stops backing off. */
  function LastMatch(s: string, p: nat, t: nat, dotted: bool): (r: Option<nat>)
    requires p <= t <= |s|
    ensures r.Some? ==> p <= r.value < t && MatchAt(s, r.value, dotted)
    ensures forall q :: p <= q < t && MatchAt(s, q, dotted) ==> r.Some? && q <= r.value
    decreases t
  {
    if t <= p then None
    else if MatchAt(s, t - 1, dotted) then Some(t - 1)
    else LastMatch(s, p, t - 1, dotted)
  }

  /** Regex.find from position p: the start of "Chapter" in the match, or
      None. Every other match is either earlier on the same line or on a
      later line. */
  function FindFrom(s: string, p: nat, dotted: bool): (r: Option<nat>)
    requires p <= |s|
    ensures r.None? ==> forall q :: p <= q ==> !MatchAt(s, q, dotted)
    ensures r.Some? ==> p <= r.value && MatchAt(s, r.value, dotted)
    ensures r.Some? ==> forall q :: p <= q && MatchAt(s, q, dotted) ==>
      q == r.value || SameLineBefore(s, q, r.value) || LaterLine(s, r.value, q)
    decreases |s| - p
  {
    var t := LineEnd(s, p);
    match LastMatch(s, p, t, dotted)
    case Some(q) => Some(q)
    case None =>
      if t == |s| then None
      else
        NoMatchBeforeLineEnd(s, p, t, dotted);
        FindFrom(s, t + 1, dotted)
  }

  /** A line with no match: no match starts at or before its terminator. */
  lemma NoMatchBeforeLineEnd(s: string, p: nat, t: nat, dotted: bool)
    requires p <= t < |s| && t == LineEnd(s, p) && LastMatch(s, p, t, dotted).None?
    ensures forall q :: p <= q <= t ==> !MatchAt(s, q, dotted)
  {
    MatchStartsWithC(s, t, dotted);
  }

  /** A normalised chapter name: "Chapter ", then one or more token
      characters. */
  predicate IsChapterName(n: string, dotted: bool) {
    |n| >= 9 && n[..8] == "Chapter " && forall i :: 8 <= i < |n| ==> TokenChar(n[i], dotted)
  }

  /** parseChapterName: "Chapter", a space and the whole token run that
      follows the match find selects; None where find returns null and `!!`
      throws. */
  function ParseChapterName(s: string, dotted: bool): (r: Option<string>)
    ensures r.Some? <==> exists q :: MatchAt(s, q, dotted)
    ensures r.Some? ==> IsChapterName(r.value, dotted)
    ensures r.Some? ==> FindFrom(s, 0, dotted).Some?
    ensures r.Some? ==>
      r.value == "Chapter " + s[FindFrom(s, 0, dotted).value + 8..RunEnd(s, FindFrom(s, 0, dotted).value + 8, dotted)]
  {
    match FindFrom(s, 0, dotted)
    case None => None
    case Some(q) =>
      var e := RunEnd(s, q + 8, dotted);
      var n := "Chapter " + s[q + 8..e];
      assert n[..8] == "Chapter ";
      Some(n)
  }

  /** A normalised name is its own normal form. */
  lemma {:induction false} ChapterNameIsFixed(n: string, dotted: bool)
    requires IsChapterName(n, dotted)
    ensures ParseChapterName(n, dotted) == Some(n)
  {
    assert n[..7] == Word;
    assert MatchAt(n, 0, dotted) by {
      assert n[0..7] == n[..8][..7];
    }
    forall q | 0 < q && q < |n| ensures !MatchAt(n, q, dotted) {
      MatchStartsWithC(n, q, dotted);
      if q < 8 {
        assert n[q] == "Chapter "[q];
      }
    }
    assert NoTerminator(n, 0, |n|) by {
      forall k | 0 <= k < |n| ensures !LineTerminator(n[k]) {
        if k < 8 {
          assert n[k] == "Chapter "[k];
        }
      }
    }
    var r := FindFrom(n, 0, dotted);
    assert r == Some(0);
    var e := RunEnd(n, 8, dotted);
    assert e == |n|;
    assert "Chapter " + n[8..e] == n;
  }

  /** parseChapterName is idempotent. */
  lemma ParseChapterNameIdempotent(s: string, dotted: bool)
    requires ParseChapterName(s, dotted).Some?
    ensures ParseChapterName(ParseChapterName(s, dotted).value, dotted) == ParseChapterName(s, dotted)
  {
    ChapterNameIsFixed(ParseChapterName(s, dotted).value, dotted);
  }

  /** split(" ") of a normalised name is ["Chapter", token]. */
  lemma {:induction false} SplitChapterName(n: string, dotted: bool)
    requires IsChapterName(n, dotted)
    ensures Split(n, " ") == ["Chapter", n[8..]]
  {
    var tok := n[8..];
    assert n == "Chapter " + tok by {
      assert n == n[..8] + n[8..];
    }
    var i := IndexOf(n, " ", 0);
    assert OccursAt(n, " ", 7) by {
      assert n[7..8] == " ";
    }
    forall k | 0 <= k < 7 ensures !OccursAt(n, " ", k) {
      assert n[k..k + 1] == [n[k]] && n[k] == "Chapter "[k];
    }
    assert i == 7;
    assert n[..7] == "Chapter" && n[8..] == tok;
    assert IndexOf(tok, " ", 0) == -1 by {
      forall k | 0 <= k < |tok| ensures !OccursAt(tok, " ", k) {
        assert tok[k..k + 1] == [tok[k]] && tok[k] == n[8 + k];
      }
    }
  }

  /** String.toFloat() on a chapter-number token; a token that is not made
      of digits and dots is treated as unparseable. */
  function ToFloat(s: string): Option<real> {
    if IsNumberToken(s) then ParseDecimal(s) else None
  }

  /** `name.split(" ")[1].toFloat()`, or `fallback` where the index or the
      conversion throws. */
  function NumberFromName(name: string, fallback: real): real {
    var parts := Split(name, " ");
    if |parts| < 2 then fallback
    else ToFloat(parts[1]).GetOr(fallback)
  }

  /** The number of a normalised name is its token's value, or the fallback
      where the token (digits and dots) is not a number; a token of digits
      alone always has its value. */
  lemma NumberOfChapterName(name: string, dotted: bool, fallback: real)
    requires IsChapterName(name, dotted)
    ensures IsNumberToken(name[8..]) && name[8..] != []
    ensures NumberFromName(name, fallback) == ParseDecimal(name[8..]).GetOr(fallback)
    ensures !dotted ==> AllDigits(name[8..]) && NumberFromName(name, fallback) == DigitsValue(name[8..]) as real
  {
    SplitChapterName(name, dotted);
  }
}
