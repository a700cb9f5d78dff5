/** The two Python string operations the node-list parser uses: `str.split(sep)` and `str.strip()`. */
module PyText {
  import opened Sequences

  /** The characters for which Python's `str.isspace()` holds; `str.strip()` with no argument removes them. */
  const UnicodeSpace: set<char> :=
    { '\t', '\n', '\U{B}', '\U{C}', '\r', '\U{1C}', '\U{1D}', '\U{1E}', '\U{1F}', ' ',
      '\U{85}', '\U{A0}', '\U{1680}',
      '\U{2000}', '\U{2001}', '\U{2002}', '\U{2003}', '\U{2004}', '\U{2005}',
      '\U{2006}', '\U{2007}', '\U{2008}', '\U{2009}', '\U{200A}',
      '\U{2028}', '\U{2029}', '\U{202F}', '\U{205F}', '\U{3000}' }

  /** Every character of `s` is in `ws`. */
  predicate AllIn(s: string, ws: set<char>)
  {
    forall i :: 0 <= i < |s| ==> s[i] in ws
  }

  /** `s` with its leading characters from `ws` removed. */
  function StripLeft(s: string, ws: set<char>): (r: string)
    ensures |r| <= |s|
  {
    if s != [] && s[0] in ws then StripLeft(s[1..], ws) else s
  }

  /** `s` with its trailing characters from `ws` removed. */
  function StripRight(s: string, ws: set<char>): (r: string)
    ensures |r| <= |s|
  {
    if s != [] && s[|s| - 1] in ws then StripRight(s[..|s| - 1], ws) else s
  }

  /** Python's `s.strip()` when `ws` is `UnicodeSpace`; `StripSpec` says what it leaves. */
  function Strip(s: string, ws: set<char>): string
  {
    StripRight(StripLeft(s, ws), ws)
  }

  /** StripLeft cuts off the longest prefix made of `ws` characters. */
  lemma {:induction false} StripLeftSpec(s: string, ws: set<char>)
    ensures var r := StripLeft(s, ws);
              |r| <= |s| && r == s[|s| - |r|..] && AllIn(s[..|s| - |r|], ws) && (r == [] || r[0] !in ws)
  {
    if s != [] && s[0] in ws {
      StripLeftSpec(s[1..], ws);
      var r := StripLeft(s, ws);
      assert s[..|s| - |r|] == [s[0]] + s[1..][..|s| - 1 - |r|];
    }
  }

  /** StripRight cuts off the longest suffix made of `ws` characters. */
  lemma {:induction false} StripRightSpec(s: string, ws: set<char>)
    ensures var r := StripRight(s, ws);
              |r| <= |s| && r == s[..|r|] && AllIn(s[|r|..], ws) && (r == [] || r[|r| - 1] !in ws)
  {
    if s != [] && s[|s| - 1] in ws {
      var p := s[..|s| - 1];
      StripRightSpec(p, ws);
      var r := StripRight(s, ws);
      assert s[|r|..] == p[|r|..] + [s[|s| - 1]];
    }
  }

  /**
   * What `Strip` leaves: the infix `s[k..k + |r|]` of `s` that neither starts nor ends with a
   * `ws` character, everything cut off before and after it being `ws` characters; the result is
   * empty exactly when `s` is all `ws`.
   */
  lemma StripSpec(s: string, ws: set<char>)
    ensures var r, k := Strip(s, ws), |s| - |StripLeft(s, ws)|;
              && k + |r| <= |s| && r == s[k..k + |r|]
              && AllIn(s[..k], ws) && AllIn(s[k + |r|..], ws)
              && (r == [] || (r[0] !in ws && r[|r| - 1] !in ws))
              && (r == [] <==> AllIn(s, ws))
  {
    var l := StripLeft(s, ws);
    StripLeftSpec(s, ws);
    StripRightSpec(l, ws);
    var r := StripRight(l, ws);
    var k := |s| - |l|;
    assert r == s[k..k + |r|];
    assert s[k + |r|..] == l[|r|..];
    if r == [] {
      forall i | 0 <= i < |s| ensures s[i] in ws {
        assert l == [] && s[i] == s[..k][i];
      }
    } else {
      assert s[k] == r[0];
    }
  }

  /** A string that neither starts nor ends with a `ws` character is left as it is by `Strip`. */
  lemma StripUnchanged(s: string, ws: set<char>)
    requires s == [] || (s[0] !in ws && s[|s| - 1] !in ws)
    ensures Strip(s, ws) == s
  {
  }

  /** Stripping never introduces a character: the result is a piece of the input. */
  lemma StripKeepsCharacters(s: string, ws: set<char>, c: char)
    requires c in Strip(s, ws)
    ensures c in s
  {
    StripSpec(s, ws);
    var r := Strip(s, ws);
    var k := |s| - |StripLeft(s, ws)|;
    var i :| 0 <= i < |r| && r[i] == c;
    assert s[k + i] == c;
  }

  /** Python's `s.split(sep)`: the pieces of `s` between occurrences of `sep`, at least one. */
  function Split(s: string, sep: char): (r: seq<string>)
    ensures |r| >= 1
    ensures forall p <- r :: sep !in p
    decreases |s|
  {
    if sep !in s then [s]
    else
      var i := IndexOf(s, sep);
      [s[..i]] + Split(s[i + 1..], sep)
  }

  /** Joining the pieces with the separator gives the original string back. */
  lemma {:induction false} JoinSplit(s: string, sep: char)
    ensures Join(Split(s, sep), sep) == s
    decreases |s|
  {
    if sep in s {
      var i := IndexOf(s, sep);
      JoinSplit(s[i + 1..], sep);
      assert s == s[..i] + [sep] + s[i + 1..];
    }
  }

  /** Python's `sep.join(ps)`, the inverse of `Split`. */
  function Join(ps: seq<string>, sep: char): string
    requires |ps| >= 1
  {
    if |ps| == 1 then ps[0] else ps[0] + [sep] + Join(ps[1..], sep)
  }

  /** Splitting a joined list of separator-free pieces gives the pieces back. */
  lemma {:induction false} SplitJoin(ps: seq<string>, sep: char)
    requires |ps| >= 1
    requires forall p <- ps :: sep !in p
    ensures Split(Join(ps, sep), sep) == ps
  {
    if |ps| > 1 {
      var s := Join(ps, sep);
      var i := |ps[0]|;
      assert s[i] == sep;
      assert s[..i] == ps[0];
      IndexOfFirst(s, sep, i);
      assert s[i + 1..] == Join(ps[1..], sep);
      SplitJoin(ps[1..], sep);
    }
  }

  /** Joining two lists puts one separator between their joins. */
  lemma {:induction false} JoinAppend(xs: seq<string>, ys: seq<string>, sep: char)
    requires |xs| >= 1 && |ys| >= 1
    ensures Join(xs + ys, sep) == Join(xs, sep) + [sep] + Join(ys, sep)
  {
    if |xs| > 1 {
      assert (xs + ys)[1..] == xs[1..] + ys;
      JoinAppend(xs[1..], ys, sep);
    }
  }

  /** Splitting `a + sep + b` splits `a` and `b` separately and keeps their order. */
  lemma SplitAppend(a: string, b: string, sep: char)
    ensures Split(a + [sep] + b, sep) == Split(a, sep) + Split(b, sep)
  {
    var xs, ys := Split(a, sep), Split(b, sep);
    JoinSplit(a, sep);
    JoinSplit(b, sep);
    JoinAppend(xs, ys, sep);
    SplitJoin(xs + ys, sep);
  }
}
