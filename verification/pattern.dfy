/**
 The parameter pattern of a v2 command (`CommandData.Params`), such as
 "{id}/{name}", and its compilation into the ordered list of parameter names.
 */
module Pattern {
  import opened Text

  /** The cutset `"{}"`. */
  function Braces(): set<Char> {
    {'{', '}'}
  }

  /** One segment of a pattern reduced to its parameter name: trim white space, braces, white space. */
  function CleanName(seg: Bytes): (r: Bytes)
    ensures |r| <= |seg|
    ensures r != [] ==> !IsSpace(r[0]) && !IsSpace(r[|r| - 1])
  {
    TrimSpace(Trim(TrimSpace(seg), Braces()))
  }

  /** Every segment cleaned, in order. */
  function CleanAll(segs: seq<Bytes>): (r: seq<Bytes>)
    ensures |r| == |segs|
    ensures forall i :: 0 <= i < |segs| ==> r[i] == CleanName(segs[i])
  {
    seq(|segs|, i requires 0 <= i < |segs| => CleanName(segs[i]))
  }

  /**
   `CommandData.ParamsSlice`: no names for an empty pattern; otherwise one
   name per '/'-separated segment, in segment order.
   */
  function ParamsSlice(params: Bytes): (r: seq<Bytes>)
    ensures params == [] ==> r == []
    ensures params != [] ==> |r| == Count(params, '/') + 1
    ensures forall i :: 0 <= i < |r| ==> '/' !in r[i]
    ensures forall i :: 0 <= i < |r| ==> r[i] != [] ==> !IsSpace(r[i][0]) && !IsSpace(r[i][|r[i]| - 1])
  {
    if params == [] then []
    else
      var segs := Split(params, '/');
      var r := CleanAll(segs);
      assert forall i :: 0 <= i < |r| ==> '/' !in r[i] by {
        forall i | 0 <= i < |r| ensures '/' !in r[i] {
          CleanNameWithin(segs[i], '/');
        }
      }
      r
  }

  /**
   For any pattern made of '/'-free segments, name i is segment i with
   spaces and braces trimmed. The pattern must not be empty: the lone empty
   segment gives no names at all.
   */
  lemma ParamsSliceOfSegments(segs: seq<Bytes>)
    requires segs != [] && Separated(segs, '/') && Join(segs, ['/']) != []
    ensures |ParamsSlice(Join(segs, ['/']))| == |segs|
    ensures forall i :: 0 <= i < |segs| ==> ParamsSlice(Join(segs, ['/']))[i] == CleanName(segs[i])
  {
    SplitJoin(segs, '/');
  }

  /** Cleaning only removes bytes: a byte absent from the segment is absent from its name. */
  lemma CleanNameWithin(seg: Bytes, b: Char)
    requires b !in seg
    ensures b !in CleanName(seg)
  {
    TrimWithin(seg, Whitespace(), b);
    TrimWithin(TrimSpace(seg), Braces(), b);
    TrimWithin(Trim(TrimSpace(seg), Braces()), Whitespace(), b);
  }

  lemma TrimWithin(s: Bytes, cut: set<Char>, b: Char)
    requires b !in s
    ensures b !in Trim(s, cut)
  {
    var l := TrimLeft(s, cut);
    assert forall i :: 0 <= i < |l| ==> l[i] == s[|s| - |l| + i];
    var t := TrimRight(l, cut);
    assert forall i :: 0 <= i < |t| ==> t[i] == l[i];
  }

  // ---------------------------------------------------------------------------
  // The pattern written for a list of names
  // ---------------------------------------------------------------------------

  /** A name as it is written in a pattern: "{name}". */
  function Braced(name: Bytes): Bytes {
    ['{'] + name + ['}']
  }

  /** The pattern "{n1}/{n2}/…" for a list of names. */
  function PatternOf(names: seq<Bytes>): Bytes {
    Join(seq(|names|, i requires 0 <= i < |names| => Braced(names[i])), ['/'])
  }

  /**
   A name that survives the round trip: no '/', and neither end is white
   space or a brace (the empty name is allowed).
   */
  predicate PlainName(n: Bytes) {
    '/' !in n && (n != [] ==> n[0] !in Whitespace() + Braces() && n[|n| - 1] !in Whitespace() + Braces())
  }

  /** Cleaning the written form of a plain name gives the name back. */
  lemma CleanBraced(n: Bytes)
    requires PlainName(n)
    ensures CleanName(Braced(n)) == n
  {
    BracedHasNoOuterSpace(n);
    TrimBraces(n);
    PlainNameHasNoOuterSpace(n);
  }

  lemma BracedHasNoOuterSpace(n: Bytes)
    ensures TrimSpace(Braced(n)) == Braced(n)
  {
    TrimUntouched(Braced(n), Whitespace());
  }

  lemma PlainNameHasNoOuterSpace(n: Bytes)
    requires PlainName(n)
    ensures TrimSpace(n) == n
  {
    TrimUntouched(n, Whitespace());
  }

  lemma TrimBraces(n: Bytes)
    requires n != [] ==> n[0] !in Braces() && n[|n| - 1] !in Braces()
    ensures Trim(Braced(n), Braces()) == n
  {
    var b := Braced(n);
    if n == [] {
      assert LeftSpan(b, Braces()) == 2 by {
        assert b == ['{', '}'];
        assert LeftSpan(b[1..], Braces()) == 1 by {
          assert b[1..][1..] == [];
        }
      }
      assert TrimLeft(b, Braces()) == [];
    } else {
      assert b[1..][0] == n[0];
      assert LeftSpan(b, Braces()) == 1;
      var l := TrimLeft(b, Braces());
      assert l == n + ['}'];
      assert l[..|l| - 1] == n;
      TrimRightDropsLast(l, Braces());
      TrimRightKeepsLast(n, Braces());
    }
  }

  /**
   Compiling the pattern written for a list of plain names gives back
   exactly those names, in order.
   */
  lemma ParamsSliceOfPattern(names: seq<Bytes>)
    requires forall i :: 0 <= i < |names| ==> PlainName(names[i])
    ensures ParamsSlice(PatternOf(names)) == names
  {
    var segs := seq(|names|, i requires 0 <= i < |names| => Braced(names[i]));
    if names != [] {
      assert PatternOf(names) != [] by {
        JoinNonEmpty(segs, ['/']);
      }
      assert Split(PatternOf(names), '/') == segs by {
        assert Separated(segs, '/') by {
          forall i | 0 <= i < |segs| ensures '/' !in segs[i] {
            assert segs[i] == ['{'] + names[i] + ['}'];
          }
        }
        SplitJoin(segs, '/');
      }
      forall i | 0 <= i < |names| ensures CleanName(segs[i]) == names[i] {
        CleanBraced(names[i]);
      }
    } else {
      assert PatternOf(names) == [];
    }
  }

  lemma JoinNonEmpty(parts: seq<Bytes>, sep: Bytes)
    requires parts != [] && parts[0] != []
    ensures Join(parts, sep) != []
  {
  }

  /** The pattern of the v2 test table compiles to its three names. */
  lemma ThreeParams()
    ensures ParamsSlice("{param1}/{param2}/{param3}") == ["param1", "param2", "param3"]
  {
    ThreeParamsPattern();
    ParamsSliceOfPattern(["param1", "param2", "param3"]);
  }

  lemma ThreeParamsPattern()
    ensures PatternOf(["param1", "param2", "param3"]) == "{param1}/{param2}/{param3}"
  {
    ThreeBraced();
    JoinThree("{param1}", "{param2}", "{param3}", ['/']);
    ThreeConcat();
  }

  lemma ThreeBraced()
    ensures var names: seq<Bytes> := ["param1", "param2", "param3"];
            seq(|names|, i requires 0 <= i < |names| => Braced(names[i])) == ["{param1}", "{param2}", "{param3}"]
  {
    assert Braced("param1") == "{param1}";
    assert Braced("param2") == "{param2}";
    assert Braced("param3") == "{param3}";
  }

  lemma ThreeConcat()
    ensures "{param1}" + ['/'] + "{param2}" + ['/'] + "{param3}" == "{param1}/{param2}/{param3}"
  {
  }

  lemma JoinThree(a: Bytes, b: Bytes, c: Bytes, sep: Bytes)
    ensures Join([a, b, c], sep) == a + sep + b + sep + c
  {
    JoinCons(b, [c], sep);
    assert [b, c] == [b] + [c];
    JoinCons(a, [b, c], sep);
    assert [a, b, c] == [a] + [b, c];
  }
}
