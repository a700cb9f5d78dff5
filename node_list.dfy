/**
 * The node list of `RedisManager.__init__`: the comma-separated setting is split, every piece is
 * stripped of whitespace, empty pieces are dropped, and the client dictionary then keeps one entry
 * per distinct node string, in order of first occurrence.
 */
module NodeList {
  import opened Sequences
  import opened PyText

  /** A node name as the parser leaves it: non-empty, no surrounding whitespace, no comma. */
  predicate IsNodeName(n: string)
  {
    n != [] && n[0] !in UnicodeSpace && n[|n| - 1] !in UnicodeSpace && ',' !in n
  }

  /** `[p.strip() for p in ps if p.strip()]`. */
  function CleanPieces(ps: seq<string>): (r: seq<string>)
    requires forall p <- ps :: ',' !in p
    ensures |r| <= |ps|
    ensures forall n <- r :: IsNodeName(n)
  {
    if ps == [] then []
    else
      var n := Strip(ps[0], UnicodeSpace);
      if n == [] then CleanPieces(ps[1..])
      else
        assert IsNodeName(n) by {
          StripSpec(ps[0], UnicodeSpace);
          if ',' in n { StripKeepsCharacters(ps[0], UnicodeSpace, ','); }
        }
        [n] + CleanPieces(ps[1..])
  }

  /** The node names parsed from the REDIS_NODES setting, left to right. */
  function ParseNodes(setting: string): (r: seq<string>)
    ensures forall n <- r :: IsNodeName(n)
  {
    CleanPieces(Split(setting, ','))
  }

  lemma {:induction false} CleanPiecesAppend(xs: seq<string>, ys: seq<string>)
    requires forall p <- xs + ys :: ',' !in p
    ensures CleanPieces(xs + ys) == CleanPieces(xs) + CleanPieces(ys)
  {
    if xs == [] {
      assert xs + ys == ys;
    } else {
      assert (xs + ys)[0] == xs[0] && (xs + ys)[1..] == xs[1..] + ys;
      CleanPiecesAppend(xs[1..], ys);
    }
  }

  /** Parsing keeps the left-to-right order of the setting: a comma splits the result in two. */
  lemma ParseNodesAppend(a: string, b: string)
    ensures ParseNodes(a + [','] + b) == ParseNodes(a) + ParseNodes(b)
  {
    SplitAppend(a, b, ',');
    CleanPiecesAppend(Split(a, ','), Split(b, ','));
  }

  /** A name is parsed exactly when some comma-separated piece strips to it and it is not empty. */
  lemma {:induction false} CleanPiecesMembership(ps: seq<string>, n: string)
    requires forall p <- ps :: ',' !in p
    ensures n in CleanPieces(ps) <==> n != [] && exists p <- ps :: Strip(p, UnicodeSpace) == n
  {
    if ps != [] {
      CleanPiecesMembership(ps[1..], n);
      assert forall p <- ps :: p == ps[0] || p in ps[1..];
    }
  }

  lemma ParseNodesMembership(setting: string, n: string)
    ensures n in ParseNodes(setting) <==>
              n != [] && exists p <- Split(setting, ',') :: Strip(p, UnicodeSpace) == n
  {
    CleanPiecesMembership(Split(setting, ','), n);
  }

  /**
   * The keys of a dictionary filled by assigning the elements of `s` in turn: a repeated
   * assignment overwrites the value but keeps the key where it first went in.
   */
  function Dedup(s: seq<string>): (r: seq<string>)
    ensures forall x :: x in r <==> x in s
    ensures Distinct(r)
    ensures |r| <= |s|
  {
    if s == [] then []
    else
      var d := Dedup(s[..|s| - 1]);
      var x := s[|s| - 1];
      assert forall y :: y in s <==> y in s[..|s| - 1] || y == x;
      if x in d then d else d + [x]
  }

  /** Assigning one more element: a new key goes in last, a repeated one changes nothing. */
  lemma DedupSnoc(s: seq<string>, x: string)
    ensures Dedup(s + [x]) == if x in Dedup(s) then Dedup(s) else Dedup(s) + [x]
  {
    assert (s + [x])[..|s|] == s;
  }

  /** The keys keep the order in which they first occur in `s`. */
  lemma {:induction false} DedupFirstOccurrence(s: seq<string>, i: nat, j: nat)
    requires i < j < |Dedup(s)|
    ensures IndexOf(s, Dedup(s)[i]) < IndexOf(s, Dedup(s)[j])
  {
    var p := s[..|s| - 1];
    var d := Dedup(p);
    var x := s[|s| - 1];
    assert s == p + [x];
    assert Dedup(s)[i] in p;
    IndexOfPrefix(p, [x], Dedup(s)[i]);
    if j < |d| {
      assert Dedup(s)[j] == d[j] && Dedup(s)[i] == d[i];
      DedupFirstOccurrence(p, i, j);
      IndexOfPrefix(p, [x], d[j]);
    } else {
      assert x !in p && Dedup(s)[j] == x;
      IndexOfFirst(s, x, |s| - 1);
    }
  }
}
