/** The chapter-list pipeline Mangakomi and Newmanganelos share after
    building one chapter per list item:
    distinctBy { Pair(name, chapter_number) }, sortedBy { chapter_number },
    reversed(). */
module ChapterOrder {

  /** An SChapter as these adapters fill it. The number is exact here where
      the source holds a 32-bit float. */
  datatype Chapter = Chapter(name: string, number: real, url: string, dateUpload: int)

  /** The pair distinctBy compares. */
  function Key(c: Chapter): (string, real) {
    (c.name, c.number)
  }

  /** Some chapter of s has the key. */
  predicate HasKey(s: seq<Chapter>, key: (string, real)) {
    exists i :: 0 <= i < |s| && Key(s[i]) == key
  }

  predicate UniqueKeys(s: seq<Chapter>) {
    forall i, j :: 0 <= i < |s| && 0 <= j < |s| && i != j ==> Key(s[i]) != Key(s[j])
  }

  // ---------------------------------------------------------------------
  // distinctBy
  // ---------------------------------------------------------------------

  /** Kotlin's distinctBy loop: walk the list once, keep an element when its
      key is not yet in the set of keys seen, and add the key. */
  function DistinctFrom(cs: seq<Chapter>, seen: set<(string, real)>): seq<Chapter>
    decreases |cs|
  {
    if cs == [] then []
    else if Key(cs[0]) in seen then DistinctFrom(cs[1..], seen)
    else [cs[0]] + DistinctFrom(cs[1..], seen + {Key(cs[0])})
  }

  lemma ConsUnique(x: Chapter, t: seq<Chapter>)
    requires UniqueKeys(t)
    requires forall i :: 0 <= i < |t| ==> Key(t[i]) != Key(x)
    ensures UniqueKeys([x] + t)
  {
    var r := [x] + t;
    forall i, j | 0 <= i < |r| && 0 <= j < |r| && i != j
      ensures Key(r[i]) != Key(r[j])
    {
      if i > 0 && j > 0 {
        assert r[i] == t[i - 1] && r[j] == t[j - 1];
      } else if i == 0 {
        assert r[j] == t[j - 1];
      } else {
        assert r[i] == t[i - 1];
      }
    }
  }

  /** Every kept chapter comes from the input and has a key not seen before. */
  lemma {:induction false} DistinctFromFresh(cs: seq<Chapter>, seen: set<(string, real)>)
    ensures forall i :: 0 <= i < |DistinctFrom(cs, seen)| ==>
      Key(DistinctFrom(cs, seen)[i]) !in seen && DistinctFrom(cs, seen)[i] in cs
    decreases |cs|
  {
    if cs != [] {
      var rest := cs[1..];
      if Key(cs[0]) in seen {
        DistinctFromFresh(rest, seen);
      } else {
        DistinctFromFresh(rest, seen + {Key(cs[0])});
        var tail := DistinctFrom(rest, seen + {Key(cs[0])});
        assert forall i :: 1 <= i < |tail| + 1 ==> ([cs[0]] + tail)[i] == tail[i - 1];
      }
    }
  }

  /** No two kept chapters share a key. */
  lemma {:induction false} DistinctFromUnique(cs: seq<Chapter>, seen: set<(string, real)>)
    ensures UniqueKeys(DistinctFrom(cs, seen))
    decreases |cs|
  {
    if cs != [] {
      var rest := cs[1..];
      if Key(cs[0]) in seen {
        DistinctFromUnique(rest, seen);
      } else {
        var seen' := seen + {Key(cs[0])};
        DistinctFromUnique(rest, seen');
        DistinctFromFresh(rest, seen');
        ConsUnique(cs[0], DistinctFrom(rest, seen'));
      }
    }
  }

  /** Every key of the input is either seen before or kept. */
  lemma {:induction false} DistinctFromCovers(cs: seq<Chapter>, seen: set<(string, real)>)
    ensures forall j :: 0 <= j < |cs| ==>
      Key(cs[j]) in seen || HasKey(DistinctFrom(cs, seen), Key(cs[j]))
    decreases |cs|
  {
    if cs != [] {
      var rest := cs[1..];
      assert forall j :: 1 <= j < |cs| ==> cs[j] == rest[j - 1];
      if Key(cs[0]) in seen {
        DistinctFromCovers(rest, seen);
        var r := DistinctFrom(rest, seen);
        assert DistinctFrom(cs, seen) == r;
        forall j | 1 <= j < |cs| && Key(cs[j]) !in seen
          ensures HasKey(r, Key(cs[j]))
        {
          assert cs[j] == rest[j - 1];
        }
      } else {
        var seen' := seen + {Key(cs[0])};
        DistinctFromCovers(rest, seen');
        var tail := DistinctFrom(rest, seen');
        var r := [cs[0]] + tail;
        assert DistinctFrom(cs, seen) == r;
        assert HasKey(r, Key(cs[0])) by { assert r[0] == cs[0]; }
        forall j | 1 <= j < |cs| && Key(cs[j]) !in seen && Key(cs[j]) != Key(cs[0])
          ensures HasKey(r, Key(cs[j]))
        {
          assert cs[j] == rest[j - 1];
          var i :| 0 <= i < |tail| && Key(tail[i]) == Key(cs[j]);
          assert r[i + 1] == tail[i];
        }
      }
    }
  }

  /** distinctBy { Pair(it.name, it.chapter_number) }: no two chapters share
      a key, every kept chapter comes from the input, every input key is
      kept. */
  function DistinctByKey(cs: seq<Chapter>): (r: seq<Chapter>)
    ensures UniqueKeys(r)
    ensures forall i :: 0 <= i < |r| ==> r[i] in cs
    ensures forall j :: 0 <= j < |cs| ==> HasKey(r, Key(cs[j]))
  {
    DistinctFromFresh(cs, {});
    DistinctFromUnique(cs, {});
    DistinctFromCovers(cs, {});
    DistinctFrom(cs, {})
  }

  /** No chapter before index j has the key of cs[j]. */
  predicate FirstWithKey(cs: seq<Chapter>, j: int)
    requires 0 <= j < |cs|
  {
    forall k :: 0 <= k < j ==> Key(cs[k]) != Key(cs[j])
  }

  /** Reference definition: the chapters among the first n that are the
      first with their key, in input order. */
  function FirstOccurrences(cs: seq<Chapter>, n: nat): seq<Chapter>
    requires n <= |cs|
  {
    if n == 0 then []
    else FirstOccurrences(cs, n - 1) + (if FirstWithKey(cs, n - 1) then [cs[n - 1]] else [])
  }

  /** The keys of the chapters before index n. */
  function KeysBefore(cs: seq<Chapter>, n: nat): set<(string, real)>
    requires n <= |cs|
  {
    if n == 0 then {} else KeysBefore(cs, n - 1) + {Key(cs[n - 1])}
  }

  /** A key was seen before index n exactly when a chapter before n has it. */
  lemma {:induction false} KeysBeforeHolds(cs: seq<Chapter>, n: nat, key: (string, real))
    requires n <= |cs|
    ensures key in KeysBefore(cs, n) <==> exists i :: 0 <= i < n && Key(cs[i]) == key
  {
    if n > 0 {
      KeysBeforeHolds(cs, n - 1, key);
    }
  }

  /** distinctBy keeps the FIRST chapter with each key and keeps input order. */
  lemma DistinctByKeyKeepsFirst(cs: seq<Chapter>)
    ensures DistinctByKey(cs) == FirstOccurrences(cs, |cs|)
  {
    DistinctSuffix(cs, 0);
    assert cs[0..] == cs;
    assert Walked(cs, 0) == DistinctFrom(cs, {});
  }

  /** The walk after j steps: the first occurrences among the first j
      chapters, then what the walk keeps of the rest. */
  function Walked(cs: seq<Chapter>, j: nat): seq<Chapter>
    requires j <= |cs|
  {
    FirstOccurrences(cs, j) + DistinctFrom(cs[j..], KeysBefore(cs, j))
  }

  lemma {:induction false} DistinctSuffix(cs: seq<Chapter>, j: nat)
    requires j <= |cs|
    ensures Walked(cs, j) == FirstOccurrences(cs, |cs|)
    decreases |cs| - j
  {
    if j == |cs| {
      assert cs[j..] == [];
    } else {
      DistinctStep(cs, j);
      DistinctSuffix(cs, j + 1);
    }
  }

  /** One step of the walk: index j moves from the input to the output. */
  lemma DistinctStep(cs: seq<Chapter>, j: nat)
    requires j < |cs|
    ensures Walked(cs, j) == Walked(cs, j + 1)
  {
    var seen := KeysBefore(cs, j);
    assert cs[j..][0] == cs[j] && cs[j..][1..] == cs[j + 1..];
    KeysBeforeHolds(cs, j, Key(cs[j]));
    assert FirstWithKey(cs, j) <==> Key(cs[j]) !in seen;
    if Key(cs[j]) in seen {
      assert KeysBefore(cs, j + 1) == seen;
    } else {
      assert DistinctFrom(cs[j..], seen) == [cs[j]] + DistinctFrom(cs[j + 1..], KeysBefore(cs, j + 1));
    }
  }

  // ---------------------------------------------------------------------
  // sortedBy (stable, ascending)
  // ---------------------------------------------------------------------

  predicate Ascending(s: seq<Chapter>) {
    forall i, j :: 0 <= i < j < |s| ==> s[i].number <= s[j].number
  }

  predicate Descending(s: seq<Chapter>) {
    forall i, j :: 0 <= i < j < |s| ==> s[i].number >= s[j].number
  }

  /** Every chapter of s has a number of at least v. */
  predicate AtLeast(s: seq<Chapter>, v: real) {
    forall i :: 0 <= i < |s| ==> s[i].number >= v
  }

  lemma AscendingCons(x: Chapter, t: seq<Chapter>)
    requires AtLeast(t, x.number) && Ascending(t)
    ensures Ascending([x] + t)
  {
    var r := [x] + t;
    forall i, j | 0 <= i < j < |r| ensures r[i].number <= r[j].number {
      assert r[j] == t[j - 1];
      if i > 0 {
        assert r[i] == t[i - 1];
      }
    }
  }

  lemma AscendingTail(s: seq<Chapter>)
    requires s != [] && Ascending(s)
    ensures AtLeast(s[1..], s[0].number) && Ascending(s[1..])
  {
    assert forall i :: 0 <= i < |s| - 1 ==> s[1..][i] == s[i + 1];
  }

  /** Puts x before the first chapter whose number is not below its own. */
  function Insert(x: Chapter, s: seq<Chapter>): seq<Chapter>
    decreases |s|
  {
    if s == [] then [x]
    else if x.number <= s[0].number then [x] + s
    else [s[0]] + Insert(x, s[1..])
  }

  /** Inserting adds x and loses nothing. */
  lemma {:induction false} InsertPermutes(x: Chapter, s: seq<Chapter>)
    ensures multiset(Insert(x, s)) == multiset(s) + multiset{x}
    decreases |s|
  {
    if s != [] && x.number > s[0].number {
      assert s == [s[0]] + s[1..];
      InsertPermutes(x, s[1..]);
    }
  }

  lemma {:induction false} InsertAtLeast(x: Chapter, s: seq<Chapter>, v: real)
    requires AtLeast(s, v) && x.number >= v
    ensures AtLeast(Insert(x, s), v)
    decreases |s|
  {
    if s != [] && x.number > s[0].number {
      InsertAtLeast(x, s[1..], v);
      var tail := Insert(x, s[1..]);
      assert forall i :: 1 <= i < |tail| + 1 ==> ([s[0]] + tail)[i] == tail[i - 1];
    }
  }

  /** Inserting into an ascending list keeps it ascending. */
  lemma {:induction false} InsertAscending(x: Chapter, s: seq<Chapter>)
    requires Ascending(s)
    ensures Ascending(Insert(x, s))
    decreases |s|
  {
    if s == [] {
    } else if x.number <= s[0].number {
      AscendingCons(x, s);
    } else {
      AscendingTail(s);
      InsertAscending(x, s[1..]);
      InsertAtLeast(x, s[1..], s[0].number);
      AscendingCons(s[0], Insert(x, s[1..]));
    }
  }

  /** sortedBy { it.chapter_number }: ascending and a permutation. */
  function SortByNumber(cs: seq<Chapter>): (r: seq<Chapter>)
    ensures Ascending(r)
    ensures multiset(r) == multiset(cs)
    decreases |cs|
  {
    if cs == [] then []
    else
      assert cs == [cs[0]] + cs[1..];
      var sorted := SortByNumber(cs[1..]);
      InsertAscending(cs[0], sorted);
      InsertPermutes(cs[0], sorted);
      Insert(cs[0], sorted)
  }

  /** The chapters of s with number v, in order. */
  function WithNumber(s: seq<Chapter>, v: real): seq<Chapter>
    decreases |s|
  {
    if s == [] then []
    else (if s[0].number == v then [s[0]] else []) + WithNumber(s[1..], v)
  }

  lemma {:induction false} WithNumberAppend(s: seq<Chapter>, t: seq<Chapter>, v: real)
    ensures WithNumber(s + t, v) == WithNumber(s, v) + WithNumber(t, v)
    decreases |s|
  {
    if s == [] {
      assert s + t == t;
    } else {
      var head := if s[0].number == v then [s[0]] else [];
      calc {
        WithNumber(s + t, v);
        { assert s + t == [s[0]] + (s[1..] + t); WithNumberCons(s[0], s[1..] + t, v); }
        head + WithNumber(s[1..] + t, v);
        { WithNumberAppend(s[1..], t, v); }
        head + (WithNumber(s[1..], v) + WithNumber(t, v));
        (head + WithNumber(s[1..], v)) + WithNumber(t, v);
        { assert s == [s[0]] + s[1..]; WithNumberCons(s[0], s[1..], v); }
        WithNumber(s, v) + WithNumber(t, v);
      }
    }
  }

  lemma WithNumberCons(y: Chapter, t: seq<Chapter>, v: real)
    ensures WithNumber([y] + t, v) == (if y.number == v then [y] else []) + WithNumber(t, v)
  {
    assert ([y] + t)[1..] == t;
  }

  lemma {:induction false} InsertStable(x: Chapter, s: seq<Chapter>, v: real)
    ensures WithNumber(Insert(x, s), v) == (if x.number == v then [x] else []) + WithNumber(s, v)
    decreases |s|
  {
    var here := if x.number == v then [x] else [];
    if s == [] {
      WithNumberCons(x, [], v);
    } else if x.number <= s[0].number {
      WithNumberCons(x, s, v);
    } else {
      var tail := Insert(x, s[1..]);
      var first := if s[0].number == v then [s[0]] else [];
      var rest := WithNumber(s[1..], v);
      assert here == [] || first == [];
      calc {
        WithNumber(Insert(x, s), v);
        { assert Insert(x, s) == [s[0]] + tail; }
        WithNumber([s[0]] + tail, v);
        { WithNumberCons(s[0], tail, v); }
        first + WithNumber(tail, v);
        { InsertStable(x, s[1..], v); }
        first + (here + rest);
        here + (first + rest);
        { assert s == [s[0]] + s[1..]; WithNumberCons(s[0], s[1..], v); }
        here + WithNumber(s, v);
      }
    }
  }

  /** sortedBy is stable: chapters with equal numbers keep their order. */
  lemma {:induction false} SortStable(cs: seq<Chapter>, v: real)
    ensures WithNumber(SortByNumber(cs), v) == WithNumber(cs, v)
    decreases |cs|
  {
    if cs != [] {
      SortStable(cs[1..], v);
      InsertStable(cs[0], SortByNumber(cs[1..]), v);
    }
  }

  // ---------------------------------------------------------------------
  // reversed
  // ---------------------------------------------------------------------

  function Reverse(s: seq<Chapter>): (r: seq<Chapter>)
    ensures |r| == |s|
    ensures forall i :: 0 <= i < |s| ==> r[i] == s[|s| - 1 - i]
    decreases |s|
  {
    if s == [] then [] else Reverse(s[1..]) + [s[0]]
  }

  lemma {:induction false} ReverseMultiset(s: seq<Chapter>)
    ensures multiset(Reverse(s)) == multiset(s)
    decreases |s|
  {
    if s != [] {
      ReverseMultiset(s[1..]);
      assert s == [s[0]] + s[1..];
    }
  }

  lemma {:induction false} ReverseWithNumber(s: seq<Chapter>, v: real)
    ensures WithNumber(Reverse(s), v) == Reverse(WithNumber(s, v))
    decreases |s|
  {
    if s != [] {
      ReverseWithNumber(s[1..], v);
      WithNumberAppend(Reverse(s[1..]), [s[0]], v);
      var head := if s[0].number == v then [s[0]] else [];
      var w := WithNumber(s[1..], v);
      assert WithNumber([s[0]], v) == head;
      assert Reverse(head + w) == Reverse(w) + head by {
        ReverseAppend(head, w);
      }
    }
  }

  lemma ReverseAppend(s: seq<Chapter>, t: seq<Chapter>)
    ensures Reverse(s + t) == Reverse(t) + Reverse(s)
  {
    assert forall i :: 0 <= i < |s + t| ==> Reverse(s + t)[i] == (Reverse(t) + Reverse(s))[i];
  }

  // ---------------------------------------------------------------------
  // Permutations
  // ---------------------------------------------------------------------

  /** A value at two distinct positions occurs at least twice. */
  lemma CountTwo(t: seq<Chapter>, i: int, j: int)
    requires 0 <= i < j < |t| && t[i] == t[j]
    ensures multiset(t)[t[i]] >= 2
  {
    assert t == t[..j] + [t[j]] + t[j + 1..];
    assert t[..j][i] == t[i];
    assert multiset(t[..j])[t[i]] >= 1;
  }

  /** A value occurring twice has a second position besides a. */
  lemma SecondPosition(s: seq<Chapter>, a: int)
    requires 0 <= a < |s| && multiset(s)[s[a]] >= 2
    ensures exists b :: 0 <= b < |s| && b != a && s[b] == s[a]
  {
    var x := s[a];
    assert s == s[..a] + [x] + s[a + 1..];
    assert multiset(s)[x] == multiset(s[..a])[x] + 1 + multiset(s[a + 1..])[x];
    if x in multiset(s[..a]) {
      var b :| 0 <= b < a && s[..a][b] == x;
      assert s[b] == x;
    } else {
      assert x in multiset(s[a + 1..]);
      var c :| 0 <= c < |s| - a - 1 && s[a + 1..][c] == x;
      assert s[a + 1 + c] == x;
    }
  }

  /** Two positions of t hold values found at two distinct positions of s,
      when s and t are permutations of each other. */
  lemma TwoPositions(s: seq<Chapter>, t: seq<Chapter>, i: int, j: int)
    requires multiset(s) == multiset(t)
    requires 0 <= i < |t| && 0 <= j < |t| && i != j
    ensures exists a, b :: 0 <= a < |s| && 0 <= b < |s| && a != b && s[a] == t[i] && s[b] == t[j]
  {
    assert t[i] in multiset(s) && t[j] in multiset(s);
    var a :| 0 <= a < |s| && s[a] == t[i];
    if t[i] != t[j] {
      var b :| 0 <= b < |s| && s[b] == t[j];
      assert s[b] != s[a];
    } else {
      if i < j {
        CountTwo(t, i, j);
      } else {
        CountTwo(t, j, i);
      }
      SecondPosition(s, a);
      var b :| 0 <= b < |s| && b != a && s[b] == s[a];
      assert s[b] == t[j];
    }
  }

  lemma PermutationKeepsUniqueKeys(s: seq<Chapter>, t: seq<Chapter>)
    requires multiset(s) == multiset(t) && UniqueKeys(s)
    ensures UniqueKeys(t)
  {
    forall i, j | 0 <= i < |t| && 0 <= j < |t| && i != j
      ensures Key(t[i]) != Key(t[j])
    {
      TwoPositions(s, t, i, j);
    }
  }

  // ---------------------------------------------------------------------
  // The whole pipeline
  // ---------------------------------------------------------------------

  lemma ReverseDescending(s: seq<Chapter>)
    requires Ascending(s)
    ensures Descending(Reverse(s))
  {
    var r := Reverse(s);
    forall i, j | 0 <= i < j < |r| ensures r[i].number >= r[j].number {
      assert r[i] == s[|s| - 1 - i] && r[j] == s[|s| - 1 - j];
    }
  }

  /** chapterListParse after the per-item mapping: the list shown is
      newest first. */
  function Normalize(cs: seq<Chapter>): (r: seq<Chapter>)
    ensures Descending(r)
  {
    var sorted := SortByNumber(DistinctByKey(cs));
    ReverseDescending(sorted);
    Reverse(sorted)
  }

  /** It holds exactly the first chapter seen for each (name, number) pair,
      so no pair twice. */
  lemma NormalizeKeepsFirstOccurrences(cs: seq<Chapter>)
    ensures multiset(Normalize(cs)) == multiset(FirstOccurrences(cs, |cs|))
    ensures UniqueKeys(Normalize(cs))
  {
    var d := DistinctByKey(cs);
    DistinctByKeyKeepsFirst(cs);
    ReverseMultiset(SortByNumber(d));
    PermutationKeepsUniqueKeys(d, Normalize(cs));
  }

  /** Every chapter listed is one of the page's chapters. */
  lemma NormalizeFromInput(cs: seq<Chapter>)
    ensures forall i :: 0 <= i < |Normalize(cs)| ==> Normalize(cs)[i] in cs
  {
    var d := DistinctByKey(cs);
    var r := Normalize(cs);
    ReverseMultiset(SortByNumber(d));
    forall i | 0 <= i < |r| ensures r[i] in cs {
      assert r[i] in multiset(d);
    }
  }

  /** No (name, number) pair of the page is lost. */
  lemma NormalizeCovers(cs: seq<Chapter>)
    ensures forall j :: 0 <= j < |cs| ==> HasKey(Normalize(cs), Key(cs[j]))
  {
    var d := DistinctByKey(cs);
    var r := Normalize(cs);
    ReverseMultiset(SortByNumber(d));
    forall j | 0 <= j < |cs| ensures HasKey(r, Key(cs[j])) {
      var i :| 0 <= i < |d| && Key(d[i]) == Key(cs[j]);
      assert d[i] in multiset(r);
      var k :| 0 <= k < |r| && r[k] == d[i];
    }
  }

  /** Chapters with equal numbers appear in the reverse of their page order. */
  lemma NormalizeTies(cs: seq<Chapter>, v: real)
    ensures WithNumber(Normalize(cs), v) == Reverse(WithNumber(FirstOccurrences(cs, |cs|), v))
  {
    var d := DistinctByKey(cs);
    DistinctByKeyKeepsFirst(cs);
    ReverseWithNumber(SortByNumber(d), v);
    SortStable(d, v);
  }
}
