/**
 The byte-string toolkit the command package relies on: Go's `strings` and
 `bytes` helpers (Trim, TrimSpace, TrimRight, Split, SplitN, Fields, ToLower,
 Count) restated over byte sequences, together with the join operation that
 undoes a split and the byte-wise ordering Go uses to compare strings.

 A Go `string` and a Go `[]byte` are both modelled as `Bytes`; converting one
 into the other is the identity. Whitespace and letter case are ASCII only.
 */
module Text {

  /**
   One element of a Go string or byte slice, written as a character so
   that literals read naturally. Its range is not restricted to a byte: no
   operation or property here depends on it.
   */
  type Char = char

  /** A Go string or byte slice. */
  type Bytes = seq<Char>

  // ---------------------------------------------------------------------------
  // Character classes
  // ---------------------------------------------------------------------------

  /** ASCII white space as Go's TrimSpace and Fields see it: \t \n \v \f \r and space. */
  function Whitespace(): set<Char> {
    {' ', '\t', '\n', 11 as char, 12 as char, '\r'}
  }

  predicate IsSpace(b: Char) {
    b in Whitespace()
  }

  predicate IsUpper(b: Char) {
    'A' <= b <= 'Z'
  }

  /** Go's `unicode.ToLower` restricted to ASCII. */
  function LowerByte(b: Char): (r: Char)
    ensures !IsUpper(r)
    ensures !IsUpper(b) ==> r == b
    ensures IsUpper(b) ==> 'a' <= r <= 'z'
  {
    if IsUpper(b) then ((b as int) + 32) as char else b
  }

  // ---------------------------------------------------------------------------
  // Trimming
  // ---------------------------------------------------------------------------

  /** Length of the longest prefix of `s` whose bytes all satisfy `p`. */
  function LeftSpan(s: Bytes, cut: set<Char>): (n: nat)
    ensures n <= |s|
    ensures forall i :: 0 <= i < n ==> s[i] in cut
    ensures n < |s| ==> s[n] !in cut
  {
    if s == [] || s[0] !in cut then 0 else 1 + LeftSpan(s[1..], cut)
  }

  /** Length of the longest suffix of `s` whose bytes all satisfy `p`. */
  function RightSpan(s: Bytes, cut: set<Char>): (n: nat)
    ensures n <= |s|
    ensures forall i :: |s| - n <= i < |s| ==> s[i] in cut
    ensures n < |s| ==> s[|s| - n - 1] !in cut
  {
    if s == [] || s[|s| - 1] !in cut then 0 else 1 + RightSpan(s[..|s| - 1], cut)
  }

  /** Go's `strings.TrimLeft` with a cutset: drop every leading byte of `cut`. */
  function TrimLeft(s: Bytes, cut: set<Char>): (r: Bytes)
    ensures |r| <= |s| && r == s[|s| - |r|..]
    ensures forall i :: 0 <= i < |s| - |r| ==> s[i] in cut
    ensures r != [] ==> r[0] !in cut
  {
    s[LeftSpan(s, cut)..]
  }

  /** Go's `strings.TrimRight` with a cutset: drop every trailing byte of `cut`. */
  function TrimRight(s: Bytes, cut: set<Char>): (r: Bytes)
    ensures |r| <= |s| && r == s[..|r|]
    ensures forall i :: |r| <= i < |s| ==> s[i] in cut
    ensures r != [] ==> r[|r| - 1] !in cut
  {
    s[..|s| - RightSpan(s, cut)]
  }

  /** Go's `strings.Trim` with a cutset: trim both ends. */
  function Trim(s: Bytes, cut: set<Char>): (r: Bytes)
    ensures |r| <= |s|
    ensures r != [] ==> r[0] !in cut && r[|r| - 1] !in cut
  {
    TrimRight(TrimLeft(s, cut), cut)
  }

  /** Go's `strings.TrimSpace` over ASCII white space. */
  function TrimSpace(s: Bytes): (r: Bytes)
    ensures r != [] ==> !IsSpace(r[0]) && !IsSpace(r[|r| - 1])
  {
    Trim(s, Whitespace())
  }

  /** A trailing byte of the cutset is trimmed. */
  lemma TrimRightDropsLast(s: Bytes, cut: set<Char>)
    requires s != [] && s[|s| - 1] in cut
    ensures TrimRight(s, cut) == TrimRight(s[..|s| - 1], cut)
  {
    assert RightSpan(s, cut) == 1 + RightSpan(s[..|s| - 1], cut);
  }

  /** A trailing byte outside the cutset stops the trim. */
  lemma TrimRightKeepsLast(s: Bytes, cut: set<Char>)
    requires s != [] && s[|s| - 1] !in cut
    ensures TrimRight(s, cut) == s
  {
    assert RightSpan(s, cut) == 0;
  }

  /** Trimming changes nothing when neither end carries a byte to trim. */
  lemma {:induction false} TrimUntouched(s: Bytes, cut: set<Char>)
    requires s != [] ==> s[0] !in cut && s[|s| - 1] !in cut
    ensures Trim(s, cut) == s
  {
    assert LeftSpan(s, cut) == 0;
    assert RightSpan(s, cut) == 0;
  }

  // ---------------------------------------------------------------------------
  // Searching and counting
  // ---------------------------------------------------------------------------

  /** Index of the first `sep` in `s`, or `|s|` when there is none (Go's `IndexByte`, with -1 read as |s|). */
  function IndexOf(s: Bytes, sep: Char): (i: nat)
    ensures i <= |s|
    ensures sep !in s[..i]
    ensures i < |s| ==> s[i] == sep
  {
    if s == [] then 0
    else if s[0] == sep then 0
    else 1 + IndexOf(s[1..], sep)
  }

  /** Go's `strings.Count` for a one-byte separator. */
  function Count(s: Bytes, sep: Char): nat {
    if s == [] then 0 else (if s[0] == sep then 1 else 0) + Count(s[1..], sep)
  }

  lemma {:induction false} CountAbsent(s: Bytes, sep: Char)
    requires sep !in s
    ensures Count(s, sep) == 0
    decreases |s|
  {
    if s != [] {
      CountAbsent(s[1..], sep);
    }
  }

  /** A separator at index i contributes one to the count, the rest is split between both sides. */
  lemma {:induction false} CountAround(s: Bytes, sep: Char, i: nat)
    requires i < |s| && s[i] == sep
    ensures Count(s, sep) == Count(s[..i], sep) + 1 + Count(s[i + 1..], sep)
    decreases i
  {
    if i > 0 {
      CountAround(s[1..], sep, i - 1);
      assert s[1..][..i - 1] == s[..i][1..];
      assert s[1..][i..] == s[i + 1..];
    } else {
      assert s[1..] == s[i + 1..];
    }
  }

  // ---------------------------------------------------------------------------
  // Join, Split, SplitN
  // ---------------------------------------------------------------------------

  /** Go's `strings.Join`. */
  function Join(parts: seq<Bytes>, sep: Bytes): Bytes
  {
    if |parts| == 0 then []
    else if |parts| == 1 then parts[0]
    else parts[0] + sep + Join(parts[1..], sep)
  }

  lemma JoinCons(x: Bytes, rest: seq<Bytes>, sep: Bytes)
    requires rest != []
    ensures Join([x] + rest, sep) == x + sep + Join(rest, sep)
  {
    assert ([x] + rest)[1..] == rest;
  }

  /** No part contains the separator. */
  ghost predicate Separated(parts: seq<Bytes>, sep: Char) {
    forall i :: 0 <= i < |parts| ==> sep !in parts[i]
  }

  /** Go's `strings.Split(s, sep)` for a one-byte separator. */
  function Split(s: Bytes, sep: Char): (r: seq<Bytes>)
    ensures |r| == Count(s, sep) + 1
    ensures Separated(r, sep)
    decreases |s|
  {
    var i := IndexOf(s, sep);
    if i == |s| then
      assert s[..i] == s;
      CountAbsent(s, sep);
      [s]
    else
      assert s == s[..i] + [sep] + s[i + 1..];
      CountAround(s, sep, i);
      CountAbsent(s[..i], sep);
      var rest := Split(s[i + 1..], sep);
      [s[..i]] + rest
  }

  /**
   Go's `bytes.SplitN(s, sep, n)` for n >= 1: at most n parts; the first n-1
   cuts are made at successive separators and the last part is the unsplit
   remainder.
   */
  function SplitN(s: Bytes, sep: Char, n: nat): (r: seq<Bytes>)
    requires n >= 1
    ensures 1 <= |r| <= n
    ensures forall i :: 0 <= i < |r| - 1 ==> sep !in r[i]
    ensures |r| < n ==> sep !in r[|r| - 1]
    decreases n
  {
    var i := IndexOf(s, sep);
    if n == 1 || i == |s| then
      assert i == |s| ==> s[..i] == s;
      [s]
    else
      assert s == s[..i] + [sep] + s[i + 1..];
      [s[..i]] + SplitN(s[i + 1..], sep, n - 1)
  }

  /** Joining the parts of a split with the separator gives back the input. */
  lemma {:induction false} JoinSplit(s: Bytes, sep: Char)
    ensures Join(Split(s, sep), [sep]) == s
    decreases |s|
  {
    var i := IndexOf(s, sep);
    SplitStep(s, sep);
    if i < |s| {
      JoinSplit(s[i + 1..], sep);
      JoinAtFirst(s, sep, i, Split(s[i + 1..], sep));
    }
  }

  /** Joining the parts of a bounded split with the separator gives back the input. */
  lemma {:induction false} JoinSplitN(s: Bytes, sep: Char, n: nat)
    requires n >= 1
    ensures Join(SplitN(s, sep, n), [sep]) == s
    decreases n
  {
    var i := IndexOf(s, sep);
    if n > 1 && i < |s| {
      JoinSplitN(s[i + 1..], sep, n - 1);
      JoinSplitNAt(s, sep, n, i);
    } else {
      assert SplitN(s, sep, n) == [s] by {
        SplitNStep(s, sep, n);
      }
    }
  }

  lemma JoinSplitNAt(s: Bytes, sep: Char, n: nat, i: nat)
    requires n > 1 && i == IndexOf(s, sep) && i < |s|
    requires Join(SplitN(s[i + 1..], sep, n - 1), [sep]) == s[i + 1..]
    ensures Join(SplitN(s, sep, n), [sep]) == s
  {
    var rest := SplitN(s[i + 1..], sep, n - 1);
    assert SplitN(s, sep, n) == [s[..i]] + rest by {
      SplitNStep(s, sep, n);
    }
    JoinAtFirst(s, sep, i, rest);
  }

  /** The part before the separator at i, joined to parts that rebuild what follows it, rebuilds `s`. */
  lemma JoinAtFirst(s: Bytes, sep: Char, i: nat, rest: seq<Bytes>)
    requires i < |s| && s[i] == sep
    requires rest != [] && Join(rest, [sep]) == s[i + 1..]
    ensures Join([s[..i]] + rest, [sep]) == s
  {
    JoinCons(s[..i], rest, [sep]);
    assert s == s[..i] + [sep] + s[i + 1..];
  }

  /** Splitting a joined list of separator-free parts gives back the parts. */
  lemma {:induction false} SplitJoin(parts: seq<Bytes>, sep: Char)
    requires |parts| >= 1
    requires Separated(parts, sep)
    ensures Split(Join(parts, [sep]), sep) == parts
    decreases |parts|
  {
    var s := Join(parts, [sep]);
    if |parts| == 1 {
      assert IndexOf(s, sep) == |s| by { IndexOfAbsent(s, sep); }
    } else {
      var rest := Join(parts[1..], [sep]);
      assert s == parts[0] + [sep] + rest;
      IndexOfAt(parts[0], sep, rest);
      assert s[|parts[0]| + 1..] == rest;
      assert s[..|parts[0]|] == parts[0];
      SplitJoin(parts[1..], sep);
      assert parts == [parts[0]] + parts[1..];
    }
  }

  /**
   Splitting a join of n parts into at most n parts gives the parts back
   when no part but the last contains the separator.
   */
  lemma {:induction false} SplitNJoin(parts: seq<Bytes>, sep: Char, n: nat)
    requires 1 <= |parts| <= n
    requires forall i :: 0 <= i < |parts| - 1 ==> sep !in parts[i]
    requires n > |parts| ==> sep !in parts[|parts| - 1]
    ensures SplitN(Join(parts, [sep]), sep, n) == parts
    decreases |parts|
  {
    if |parts| > 1 {
      SplitNJoinTail(parts, sep, n);
      SplitNJoin(parts[1..], sep, n - 1);
      SplitNJoinStep(parts, sep, n);
    } else {
      var head := parts[0];
      assert Join(parts, [sep]) == head;
      assert parts == [head];
      if n > 1 {
        IndexOfAbsent(head, sep);
      }
      SplitNStep(head, sep, n);
    }
  }

  /** A separator-free first part in front of parts SplitN gives back is given back too. */
  lemma SplitNJoinStep(parts: seq<Bytes>, sep: Char, n: nat)
    requires |parts| >= 2 && n >= 2 && sep !in parts[0]
    requires SplitN(Join(parts[1..], [sep]), sep, n - 1) == parts[1..]
    ensures SplitN(Join(parts, [sep]), sep, n) == parts
  {
    var head, tail := parts[0], parts[1..];
    var rest := Join(tail, [sep]);
    assert parts == [head] + tail;
    JoinCons(head, tail, [sep]);
    SplitNAt(head, sep, rest, n);
  }

  /** The conditions of `SplitNJoin` carry over from the parts to all but the first, with one cut less. */
  lemma SplitNJoinTail(parts: seq<Bytes>, sep: Char, n: nat)
    requires 2 <= |parts| <= n
    requires forall i :: 0 <= i < |parts| - 1 ==> sep !in parts[i]
    requires n > |parts| ==> sep !in parts[|parts| - 1]
    ensures forall i :: 0 <= i < |parts[1..]| - 1 ==> sep !in parts[1..][i]
    ensures n - 1 > |parts[1..]| ==> sep !in parts[1..][|parts[1..]| - 1]
  {
    forall i | 0 <= i < |parts[1..]| - 1 ensures sep !in parts[1..][i] {
      assert parts[1..][i] == parts[i + 1];
    }
  }

  /** With a bound larger than the number of separators, SplitN splits everywhere, like Split. */
  lemma {:induction false} SplitNUnbounded(s: Bytes, sep: Char, n: nat)
    requires n > Count(s, sep)
    ensures SplitN(s, sep, n) == Split(s, sep)
    decreases |s|
  {
    var i := IndexOf(s, sep);
    if i < |s| {
      var rest := s[i + 1..];
      assert n >= 2 && n - 1 > Count(rest, sep) by {
        CountAround(s, sep, i);
      }
      assert SplitN(rest, sep, n - 1) == Split(rest, sep) by {
        SplitNUnbounded(rest, sep, n - 1);
      }
      assert SplitN(s, sep, n) == [s[..i]] + SplitN(rest, sep, n - 1) by {
        SplitNStep(s, sep, n);
      }
      assert Split(s, sep) == [s[..i]] + Split(rest, sep) by {
        SplitStep(s, sep);
      }
    } else {
      SplitStep(s, sep);
      SplitNStep(s, sep, n);
    }
  }

  /** One unfolding of Split at the first separator. */
  lemma SplitStep(s: Bytes, sep: Char)
    ensures IndexOf(s, sep) == |s| ==> Split(s, sep) == [s]
    ensures IndexOf(s, sep) < |s| ==>
      Split(s, sep) == [s[..IndexOf(s, sep)]] + Split(s[IndexOf(s, sep) + 1..], sep)
  {
  }

  /** One unfolding of SplitN at the first separator. */
  lemma SplitNStep(s: Bytes, sep: Char, n: nat)
    requires n >= 1
    ensures n == 1 || IndexOf(s, sep) == |s| ==> SplitN(s, sep, n) == [s]
    ensures IndexOf(s, sep) < |s| && n >= 2 ==>
      SplitN(s, sep, n) == [s[..IndexOf(s, sep)]] + SplitN(s[IndexOf(s, sep) + 1..], sep, n - 1)
  {
  }

  /** SplitN gives one part per separator plus one, but never more than n. */
  lemma {:induction false} SplitNLength(s: Bytes, sep: Char, n: nat)
    requires n >= 1
    ensures |SplitN(s, sep, n)| == if Count(s, sep) < n then Count(s, sep) + 1 else n
    decreases n
  {
    SplitNStep(s, sep, n);
    var i := IndexOf(s, sep);
    var k := Count(s, sep);
    var len := |SplitN(s, sep, n)|;
    if i == |s| {
      assert s[..i] == s;
      CountAbsent(s, sep);
      assert len == 1 && k == 0;
    } else {
      var t := s[i + 1..];
      assert k == Count(t, sep) + 1 by {
        CountAround(s, sep, i);
        CountAbsent(s[..i], sep);
      }
      if n > 1 {
        SplitNLength(t, sep, n - 1);
        assert len == 1 + |SplitN(t, sep, n - 1)|;
      } else {
        assert len == 1 && k >= 1;
      }
    }
  }

  /**
   `suffix` is what follows the k-th separator of `s`: it ends `s`, the rest
   holds exactly k separators, and the last of them comes right before it.
   */
  predicate AfterSeparators(s: Bytes, sep: Char, suffix: Bytes, k: nat) {
    && |suffix| <= |s|
    && s[|s| - |suffix|..] == suffix
    && Count(s[..|s| - |suffix|], sep) == k
    && (k > 0 ==> |suffix| < |s| && s[|s| - |suffix| - 1] == sep)
  }

  /** When SplitN makes all n parts, the last one is what follows separator n-1. */
  lemma {:induction false} SplitNLast(s: Bytes, sep: Char, n: nat)
    requires n >= 1 && |SplitN(s, sep, n)| == n
    ensures AfterSeparators(s, sep, SplitN(s, sep, n)[n - 1], n - 1)
    decreases n
  {
    SplitNStep(s, sep, n);
    if n == 1 {
      assert SplitN(s, sep, 1)[0] == s;
      assert s[..0] == [];
    } else {
      var i := IndexOf(s, sep);
      assert i < |s|;
      var t := s[i + 1..];
      var rest := SplitN(t, sep, n - 1);
      assert SplitN(s, sep, n) == [s[..i]] + rest;
      assert SplitN(s, sep, n)[n - 1] == rest[n - 2];
      SplitNLast(t, sep, n - 1);
      if n == 2 {
        SplitNStep(t, sep, 1);
      }
      SuffixAfter(s, sep, i, rest[n - 2], n - 1);
    }
  }

  /** What follows separator k-1 after the first separator follows separator k of the whole. */
  lemma SuffixAfter(s: Bytes, sep: Char, i: nat, last: Bytes, k: nat)
    requires i < |s| && s[i] == sep && sep !in s[..i] && k >= 1
    requires AfterSeparators(s[i + 1..], sep, last, k - 1)
    requires k == 1 ==> last == s[i + 1..]
    ensures AfterSeparators(s, sep, last, k)
  {
    var t := s[i + 1..];
    var p := |s| - |last|;
    var q := p - i - 1;
    assert s[p..] == t[q..];
    assert s[..p][..i] == s[..i];
    assert s[..p][i + 1..] == t[..q];
    CountAround(s[..p], sep, i);
    CountAbsent(s[..i], sep);
  }

  /** SplitN cuts at the first separator when it may still cut. */
  lemma SplitNAt(a: Bytes, sep: Char, b: Bytes, n: nat)
    requires sep !in a && n >= 2
    ensures SplitN(a + [sep] + b, sep, n) == [a] + SplitN(b, sep, n - 1)
  {
    var s := a + [sep] + b;
    IndexOfAt(a, sep, b);
    SplitNStep(s, sep, n);
    assert s[..|a|] == a;
    assert s[|a| + 1..] == b;
  }

  lemma IndexOfAbsent(s: Bytes, sep: Char)
    requires sep !in s
    ensures IndexOf(s, sep) == |s|
  {
  }

  lemma {:induction false} IndexOfAt(a: Bytes, sep: Char, b: Bytes)
    requires sep !in a
    ensures IndexOf(a + [sep] + b, sep) == |a|
    decreases |a|
  {
    if a != [] {
      assert (a + [sep] + b)[1..] == a[1..] + [sep] + b;
      IndexOfAt(a[1..], sep, b);
    }
  }

  // ---------------------------------------------------------------------------
  // Fields
  // ---------------------------------------------------------------------------

  /** Length of the longest prefix of `s` without white space. */
  function WordSpan(s: Bytes): (n: nat)
    ensures n <= |s|
    ensures forall i :: 0 <= i < n ==> !IsSpace(s[i])
    ensures n < |s| ==> IsSpace(s[n])
  {
    if s == [] || IsSpace(s[0]) then 0 else 1 + WordSpan(s[1..])
  }

  /** A non-empty word without white space. */
  ghost predicate IsWord(w: Bytes) {
    w != [] && forall j :: 0 <= j < |w| ==> !IsSpace(w[j])
  }

  /** Go's `strings.Fields`: the maximal runs of non-space bytes, in order. */
  function Fields(s: Bytes): (r: seq<Bytes>)
    ensures forall i :: 0 <= i < |r| ==> IsWord(r[i])
    decreases |s|
  {
    var t := TrimLeft(s, Whitespace());
    if t == [] then []
    else
      var n := WordSpan(t);
      assert n > 0;
      var w := t[..n];
      assert IsWord(w);
      var rest := Fields(t[n..]);
      assert forall i :: 0 <= i < |rest| ==> IsWord(rest[i]);
      [w] + rest
  }

  /** Leading white space does not change the fields. */
  lemma {:induction false} FieldsSkipsSpace(b: Char, s: Bytes)
    requires IsSpace(b)
    ensures Fields([b] + s) == Fields(s)
  {
    assert ([b] + s)[1..] == s;
    assert LeftSpan([b] + s, Whitespace()) == 1 + LeftSpan(s, Whitespace());
    assert TrimLeft([b] + s, Whitespace()) == TrimLeft(s, Whitespace());
  }

  /** A single word is its own only field. */
  lemma {:induction false} FieldsOfWord(w: Bytes)
    requires IsWord(w)
    ensures Fields(w) == [w]
  {
    assert LeftSpan(w, Whitespace()) == 0;
    assert TrimLeft(w, Whitespace()) == w;
    WordSpanAll(w);
    assert w[..|w|] == w;
    assert w[|w|..] == [];
    assert Fields([]) == [];
  }

  /** A word followed by a space and more text: the word is the first field. */
  lemma {:induction false} FieldsOfCons(w: Bytes, rest: Bytes)
    requires IsWord(w)
    ensures Fields(w + [' '] + rest) == [w] + Fields(rest)
  {
    var s := w + [' '] + rest;
    assert LeftSpan(s, Whitespace()) == 0;
    assert TrimLeft(s, Whitespace()) == s;
    assert s == w + ([' '] + rest);
    WordSpanStopsAt(w, [' '] + rest);
    assert s[..|w|] == w;
    assert s[|w|..] == [' '] + rest;
    FieldsSkipsSpace(' ', rest);
  }

  /** Words joined by single spaces split back into the same words. */
  lemma {:induction false} FieldsJoin(ws: seq<Bytes>)
    requires forall i :: 0 <= i < |ws| ==> IsWord(ws[i])
    ensures Fields(Join(ws, " ")) == ws
    decreases |ws|
  {
    if |ws| == 1 {
      FieldsOfWord(ws[0]);
    } else if |ws| > 1 {
      var rest := Join(ws[1..], " ");
      assert Join(ws, " ") == ws[0] + [' '] + rest by {
        assert ws == [ws[0]] + ws[1..];
        JoinCons(ws[0], ws[1..], " ");
      }
      assert Fields(Join(ws, " ")) == [ws[0]] + Fields(rest) by {
        FieldsOfCons(ws[0], rest);
      }
      assert Fields(rest) == ws[1..] by {
        assert forall i :: 0 <= i < |ws[1..]| ==> IsWord(ws[1..][i]);
        FieldsJoin(ws[1..]);
      }
      assert ws == [ws[0]] + ws[1..];
    }
  }

  lemma {:induction false} WordSpanAll(s: Bytes)
    requires forall j :: 0 <= j < |s| ==> !IsSpace(s[j])
    ensures WordSpan(s) == |s|
    decreases |s|
  {
    if s != [] {
      WordSpanAll(s[1..]);
    }
  }

  lemma {:induction false} WordSpanStopsAt(a: Bytes, b: Bytes)
    requires forall j :: 0 <= j < |a| ==> !IsSpace(a[j])
    requires b != [] && IsSpace(b[0])
    ensures WordSpan(a + b) == |a|
    decreases |a|
  {
    if a != [] {
      assert (a + b)[1..] == a[1..] + b;
      WordSpanStopsAt(a[1..], b);
    } else {
      assert a + b == b;
    }
  }

  // ---------------------------------------------------------------------------
  // Case
  // ---------------------------------------------------------------------------

  /** Go's `strings.ToLower` over ASCII. */
  function ToLower(s: Bytes): (r: Bytes)
    ensures |r| == |s|
    ensures forall i :: 0 <= i < |s| ==> r[i] == LowerByte(s[i])
  {
    seq(|s|, i requires 0 <= i < |s| => LowerByte(s[i]))
  }

  /** Lower-casing distributes over concatenation. */
  lemma ToLowerAppend(a: Bytes, b: Bytes)
    ensures ToLower(a + b) == ToLower(a) + ToLower(b)
  {
    assert forall i :: 0 <= i < |a + b| ==> ToLower(a + b)[i] == (ToLower(a) + ToLower(b))[i];
  }

  // ---------------------------------------------------------------------------
  // Ordering
  // ---------------------------------------------------------------------------

  /** Go's `a < b` on strings: byte-wise lexicographic order. */
  predicate Less(a: Bytes, b: Bytes)
    decreases |a|
  {
    if a == [] then b != []
    else if b == [] then false
    else a[0] < b[0] || (a[0] == b[0] && Less(a[1..], b[1..]))
  }

  lemma {:induction false} LessIrreflexive(a: Bytes)
    ensures !Less(a, a)
    decreases |a|
  {
    if a != [] {
      LessIrreflexive(a[1..]);
    }
  }

  lemma {:induction false} LessTransitive(a: Bytes, b: Bytes, c: Bytes)
    requires Less(a, b) && Less(b, c)
    ensures Less(a, c)
    decreases |a|
  {
    if a != [] && b != [] && c != [] && a[0] == b[0] && b[0] == c[0] {
      LessTransitive(a[1..], b[1..], c[1..]);
    }
  }

  lemma {:induction false} LessTotal(a: Bytes, b: Bytes)
    requires a != b
    ensures Less(a, b) || Less(b, a)
    decreases |a|
  {
    if a != [] && b != [] && a[0] == b[0] {
      assert a == [a[0]] + a[1..] && b == [b[0]] + b[1..];
      LessTotal(a[1..], b[1..]);
    }
  }
}
