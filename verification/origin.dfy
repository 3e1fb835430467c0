/**
 The origin mask (`ProcessIn`): one bit per transport a command may be
 invoked from, and its deterministic rendering as text.
 */
module Origin {
  import opened Text

  /** Go's `type ProcessIn byte`. */
  type ProcessIn = bv8

  const HTTP: ProcessIn := 1 << 0
  const TRU: ProcessIn := 1 << 1
  const WebRTC: ProcessIn := 1 << 2
  const Teonet: ProcessIn := 1 << 3
  const WS: ProcessIn := 1 << 4
  const All: ProcessIn := HTTP | TRU | WebRTC | Teonet | WS

  /** Number of flags. */
  const FlagCount: nat := 5

  /** The k-th flag in declaration order. */
  function Flag(k: nat): ProcessIn
    requires k < FlagCount
  {
    if k == 0 then HTTP else if k == 1 then TRU else if k == 2 then WebRTC else if k == 3 then Teonet else WS
  }

  /** The name the string builder writes for the k-th flag. */
  function SourceName(k: nat): Bytes
    requires k < FlagCount
  {
    if k == 0 then "HTTP" else if k == 1 then "TRU" else if k == 2 then "WebRTC"
    else if k == 3 then "Teonet" else "Websocket"
  }

  /** The lower-case name of the k-th flag as it appears in the rendering. */
  function FlagName(k: nat): Bytes
    requires k < FlagCount
  {
    if k == 0 then "http" else if k == 1 then "tru" else if k == 2 then "webrtc"
    else if k == 3 then "teonet" else "websocket"
  }

  /** The flags are the five lowest bits, pairwise disjoint, and `All` is their union. */
  lemma FlagValues()
    ensures HTTP == 1 && TRU == 2 && WebRTC == 4 && Teonet == 8 && WS == 16
    ensures forall i, j :: 0 <= i < j < FlagCount ==> Flag(i) & Flag(j) == 0
    ensures All == 31
  {
  }

  /** The cutset ", " the rendering is trimmed with. */
  function CommaSpace(): set<Char> {
    {',', ' '}
  }

  /**
   The string builder of `ProcessIn.String`: for the flags from index k on,
   in declaration order, "Name, " for every flag set in `pi`.
   */
  function BuiltFrom(pi: ProcessIn, k: nat): Bytes
    requires k <= FlagCount
    decreases FlagCount - k
  {
    if k == FlagCount then []
    else (if pi & Flag(k) != 0 then SourceName(k) + ", " else []) + BuiltFrom(pi, k + 1)
  }

  /**
   `ProcessIn.String`: the builder's text with trailing commas and spaces
   trimmed, lower-cased.
   */
  function String(pi: ProcessIn): (r: Bytes)
    ensures forall i :: 0 <= i < |r| ==> !IsUpper(r[i])
    ensures r != [] ==> r[|r| - 1] != ',' && r[|r| - 1] != ' '
  {
    Finish(BuiltFrom(pi, 0))
  }

  /** The last two steps of `ProcessIn.String`: trim trailing ", " bytes, then lower-case. */
  function Finish(b: Bytes): (r: Bytes)
    ensures forall i :: 0 <= i < |r| ==> !IsUpper(r[i])
    ensures r != [] ==> r[|r| - 1] != ',' && r[|r| - 1] != ' '
  {
    var trimmed := TrimRight(b, CommaSpace());
    assert trimmed != [] ==> trimmed[|trimmed| - 1] !in CommaSpace();
    ToLower(trimmed)
  }

  // ---------------------------------------------------------------------------
  // Reference definition: the names of the set flags, in declaration order
  // ---------------------------------------------------------------------------

  /** The lower-case names of the flags from index k on that are set in `pi`. */
  function NamesFrom(pi: ProcessIn, k: nat): seq<Bytes>
    requires k <= FlagCount
    decreases FlagCount - k
  {
    if k == FlagCount then []
    else (if pi & Flag(k) != 0 then [FlagName(k)] else []) + NamesFrom(pi, k + 1)
  }

  /** The names of the flags set in `pi`, in declaration order. */
  function Names(pi: ProcessIn): seq<Bytes> {
    NamesFrom(pi, 0)
  }

  /**
   The rendering is the set flags' names, in declaration order, joined by
   ", "; a name is listed exactly when its flag is set.
   */
  lemma StringListsSetFlags(pi: ProcessIn)
    ensures String(pi) == Join(Names(pi), ", ")
    ensures forall k :: 0 <= k < FlagCount ==> (FlagName(k) in Names(pi) <==> pi & Flag(k) != 0)
  {
    StringIsJoin(pi);
    NamesListed(pi, 0);
  }

  lemma StringIsJoin(pi: ProcessIn)
    ensures String(pi) == Join(Names(pi), ", ")
  {
    StringTrimsTerminated(pi);
    if Names(pi) != [] {
      NamesEndInLetter(pi);
      TrimTerminated(Names(pi));
    }
  }

  lemma StringTrimsTerminated(pi: ProcessIn)
    ensures String(pi) == TrimRight(Terminated(Names(pi)), CommaSpace())
  {
    LowerBuilt(pi, 0);
    LowerTrimRight(BuiltFrom(pi, 0));
  }

  lemma TrimTerminated(xs: seq<Bytes>)
    requires xs != [] && EndsInName(xs[|xs| - 1])
    ensures TrimRight(Terminated(xs), CommaSpace()) == Join(xs, ", ")
  {
    var j := Join(xs, ", ");
    assert Terminated(xs) == j + ", " by {
      TerminatedIsJoin(xs);
    }
    assert j != [] && j[|j| - 1] !in CommaSpace() by {
      JoinEndsLikeLast(xs, ", ");
    }
    TrimRightSuffix(j, ", ", CommaSpace());
  }

  /** Flags outside `All` contribute nothing to the rendering. */
  lemma StringIgnoresUnknownBits(pi: ProcessIn)
    ensures String(pi) == String(pi & All)
  {
    forall k | 0 <= k <= FlagCount
      ensures BuiltFrom(pi, k) == BuiltFrom(pi & All, k)
    {
      SameBitsSameBuilt(pi, pi & All, k);
    }
  }

  /** Nothing set renders empty. */
  lemma StringOfNone()
    ensures String(0) == ""
  {
    StringListsSetFlags(0);
    assert Names(0) == [];
  }

  /** Everything set lists all five names. */
  lemma StringOfAll()
    ensures String(All) == "http, tru, webrtc, teonet, websocket"
  {
    StringListsSetFlags(All);
    NamesOfAll();
  }

  lemma NamesOfAll()
    ensures Join(Names(All), ", ") == "http, tru, webrtc, teonet, websocket"
  {
    AllNames();
    JoinFive("http", "tru", "webrtc", "teonet", "websocket", ", ");
    FiveConcat();
  }

  lemma AllNames()
    ensures Names(All) == ["http", "tru", "webrtc", "teonet", "websocket"]
  {
    AllNamesFrom(0);
    assert FlagName(0) == "http" && FlagName(1) == "tru" && FlagName(2) == "webrtc";
    assert FlagName(3) == "teonet" && FlagName(4) == "websocket";
  }

  lemma FiveConcat()
    ensures "http" + ", " + "tru" + ", " + "webrtc" + ", " + "teonet" + ", " + "websocket"
         == "http, tru, webrtc, teonet, websocket"
  {
  }

  /** With every flag set, the names from index k on are all the flag names from k on. */
  lemma {:induction false} AllNamesFrom(k: nat)
    requires k <= FlagCount
    ensures NamesFrom(All, k) == seq(FlagCount - k, i requires 0 <= i < FlagCount - k => FlagName(k + i))
    decreases FlagCount - k
  {
    if k < FlagCount {
      assert All & Flag(k) != 0;
      AllNamesFrom(k + 1);
    }
  }

  lemma JoinFive(a: Bytes, b: Bytes, c: Bytes, d: Bytes, e: Bytes, sep: Bytes)
    ensures Join([a, b, c, d, e], sep) == a + sep + b + sep + c + sep + d + sep + e
  {
    JoinCons(d, [e], sep);
    assert [d, e] == [d] + [e];
    JoinCons(c, [d, e], sep);
    assert [c, d, e] == [c] + [d, e];
    JoinCons(b, [c, d, e], sep);
    assert [b, c, d, e] == [b] + [c, d, e];
    JoinCons(a, [b, c, d, e], sep);
    assert [a, b, c, d, e] == [a] + [b, c, d, e];
  }

  // ---------------------------------------------------------------------------
  // Proof helpers
  // ---------------------------------------------------------------------------

  /** Every element followed by ", ". */
  function Terminated(xs: seq<Bytes>): Bytes {
    if xs == [] then [] else xs[0] + ", " + Terminated(xs[1..])
  }

  lemma LowerHTTP() ensures ToLower(SourceName(0) + ", ") == FlagName(0) + ", " {}
  lemma LowerTRU() ensures ToLower(SourceName(1) + ", ") == FlagName(1) + ", " {}
  lemma LowerWebRTC() ensures ToLower(SourceName(2) + ", ") == FlagName(2) + ", " {}
  lemma LowerTeonet() ensures ToLower(SourceName(3) + ", ") == FlagName(3) + ", " {}
  lemma LowerWebsocket() ensures ToLower(SourceName(4) + ", ") == FlagName(4) + ", " {}

  lemma SourceNameLowers(k: nat)
    requires k < FlagCount
    ensures ToLower(SourceName(k) + ", ") == FlagName(k) + ", "
  {
    if k == 0 { LowerHTTP(); }
    else if k == 1 { LowerTRU(); }
    else if k == 2 { LowerWebRTC(); }
    else if k == 3 { LowerTeonet(); }
    else { LowerWebsocket(); }
  }

  /** Every listed name is non-empty and ends in a letter. */
  lemma FlagNameEnds(k: nat)
    requires k < FlagCount
    ensures EndsInName(FlagName(k))
  {
    if k == 0 { assert FlagName(0) == "http"; }
    else if k == 1 { assert FlagName(1) == "tru"; }
    else if k == 2 { assert FlagName(2) == "webrtc"; }
    else if k == 3 { assert FlagName(3) == "teonet"; }
    else { assert FlagName(4) == "websocket"; }
  }

  lemma {:induction false} LowerBuilt(pi: ProcessIn, k: nat)
    requires k <= FlagCount
    ensures ToLower(BuiltFrom(pi, k)) == Terminated(NamesFrom(pi, k))
    decreases FlagCount - k
  {
    if k < FlagCount {
      var rest := BuiltFrom(pi, k + 1);
      if pi & Flag(k) != 0 {
        assert BuiltFrom(pi, k) == (SourceName(k) + ", ") + rest;
        assert NamesFrom(pi, k) == [FlagName(k)] + NamesFrom(pi, k + 1);
        assert ToLower(BuiltFrom(pi, k)) == (FlagName(k) + ", ") + Terminated(NamesFrom(pi, k + 1)) by {
          ToLowerAppend(SourceName(k) + ", ", rest);
          SourceNameLowers(k);
          LowerBuilt(pi, k + 1);
        }
        assert Terminated(NamesFrom(pi, k)) == (FlagName(k) + ", ") + Terminated(NamesFrom(pi, k + 1)) by {
          assert ([FlagName(k)] + NamesFrom(pi, k + 1))[1..] == NamesFrom(pi, k + 1);
        }
      } else {
        assert BuiltFrom(pi, k) == rest;
        assert NamesFrom(pi, k) == NamesFrom(pi, k + 1);
        LowerBuilt(pi, k + 1);
      }
    }
  }

  lemma {:induction false} LowerTrimRight(s: Bytes)
    ensures ToLower(TrimRight(s, CommaSpace())) == TrimRight(ToLower(s), CommaSpace())
    decreases |s|
  {
    if s != [] {
      var t := s[..|s| - 1];
      var last := s[|s| - 1];
      LowerLast(s);
      if last in CommaSpace() {
        TrimRightDropsLast(s, CommaSpace());
        TrimRightDropsLast(ToLower(s), CommaSpace());
        LowerTrimRight(t);
      } else {
        TrimRightKeepsLast(s, CommaSpace());
        TrimRightKeepsLast(ToLower(s), CommaSpace());
      }
    }
  }

  /** Lower-casing the last byte; ',' and ' ' are their own lower case. */
  lemma LowerLast(s: Bytes)
    requires s != []
    ensures ToLower(s)[..|s| - 1] == ToLower(s[..|s| - 1])
    ensures ToLower(s)[|s| - 1] in CommaSpace() <==> s[|s| - 1] in CommaSpace()
  {
  }

  lemma {:induction false} TerminatedIsJoin(xs: seq<Bytes>)
    requires xs != []
    ensures Terminated(xs) == Join(xs, ", ") + ", "
    decreases |xs|
  {
    if |xs| > 1 {
      TerminatedIsJoin(xs[1..]);
    } else {
      assert Terminated(xs[1..]) == [];
    }
  }

  /** A name that survives the trailing trim: non-empty, last byte neither ',' nor ' '. */
  predicate EndsInName(x: Bytes) {
    x != [] && x[|x| - 1] !in CommaSpace()
  }

  lemma {:induction false} NamesShape(pi: ProcessIn, k: nat)
    requires k <= FlagCount
    ensures forall i :: 0 <= i < |NamesFrom(pi, k)| ==> EndsInName(NamesFrom(pi, k)[i])
    decreases FlagCount - k
  {
    if k < FlagCount {
      var rest := NamesFrom(pi, k + 1);
      NamesShape(pi, k + 1);
      if pi & Flag(k) != 0 {
        FlagNameEnds(k);
        var xs := [FlagName(k)] + rest;
        assert NamesFrom(pi, k) == xs;
        forall i | 0 <= i < |xs| ensures EndsInName(xs[i]) {
          if i > 0 {
            assert xs[i] == rest[i - 1];
          }
        }
      } else {
        assert NamesFrom(pi, k) == rest;
      }
    }
  }

  lemma NamesEndInLetter(pi: ProcessIn)
    requires Names(pi) != []
    ensures EndsInName(Names(pi)[|Names(pi)| - 1])
  {
    NamesShape(pi, 0);
  }

  lemma {:induction false} JoinEndsLikeLast(xs: seq<Bytes>, sep: Bytes)
    requires xs != [] && xs[|xs| - 1] != []
    ensures Join(xs, sep) != []
    ensures Join(xs, sep)[|Join(xs, sep)| - 1] == xs[|xs| - 1][|xs[|xs| - 1]| - 1]
    decreases |xs|
  {
    if |xs| > 1 {
      JoinEndsLikeLast(xs[1..], sep);
    }
  }

  lemma TrimRightSuffix(x: Bytes, y: Bytes, cut: set<Char>)
    requires x != [] && x[|x| - 1] !in cut
    requires forall i :: 0 <= i < |y| ==> y[i] in cut
    ensures TrimRight(x + y, cut) == x
  {
    assert (x + y)[|x| - 1] == x[|x| - 1];
  }

  lemma {:induction false} NamesListed(pi: ProcessIn, k: nat)
    requires k <= FlagCount
    ensures forall j :: k <= j < FlagCount ==> (FlagName(j) in NamesFrom(pi, k) <==> pi & Flag(j) != 0)
    ensures forall j :: 0 <= j < k ==> FlagName(j) !in NamesFrom(pi, k)
    decreases FlagCount - k
  {
    if k < FlagCount {
      NamesListed(pi, k + 1);
      assert forall j :: 0 <= j < FlagCount && j != k ==> FlagName(j) != FlagName(k);
    }
  }

  lemma {:induction false} SameBitsSameBuilt(a: ProcessIn, b: ProcessIn, k: nat)
    requires k <= FlagCount
    requires forall j :: 0 <= j < FlagCount ==> (a & Flag(j) == 0 <==> b & Flag(j) == 0)
    ensures BuiltFrom(a, k) == BuiltFrom(b, k)
    decreases FlagCount - k
  {
    if k < FlagCount {
      assert BuiltFrom(a, k + 1) == BuiltFrom(b, k + 1) by {
        SameBitsSameBuilt(a, b, k + 1);
      }
      assert (a & Flag(k) != 0) == (b & Flag(k) != 0);
    }
  }
}
