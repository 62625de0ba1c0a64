/**
 * Python's notion of whitespace (`str.isspace`, the `\s` class of `re` on
 * `str` patterns) and the three string operations built on it that the
 * minifier uses: `strip()`, `split()` and `' '.join(...)`.
 */
module Whitespace {

  /** The characters `str.isspace` accepts. */
  const SpaceChars: set<char> := {
    '\t', '\n', '\U{B}', '\U{C}', '\r', '\U{1C}', '\U{1D}', '\U{1E}', '\U{1F}', ' ', '\U{85}',
    '\U{A0}', '\U{1680}', '\U{2000}', '\U{2001}', '\U{2002}', '\U{2003}', '\U{2004}',
    '\U{2005}', '\U{2006}', '\U{2007}', '\U{2008}', '\U{2009}', '\U{200A}', '\U{2028}',
    '\U{2029}', '\U{202F}', '\U{205F}', '\U{3000}'
  }

  predicate IsSpace(c: char) {
    c in SpaceChars
  }

  predicate AllSpace(s: string) {
    forall i :: 0 <= i < |s| ==> IsSpace(s[i])
  }

  predicate NoSpace(s: string) {
    forall i :: 0 <= i < |s| ==> !IsSpace(s[i])
  }

  /** The end of the run of whitespace that starts at `i`. */
  function SpaceRunEnd(s: string, i: nat): (k: nat)
    requires i <= |s|
    ensures i <= k <= |s| && AllSpace(s[i..k])
    ensures k == |s| || !IsSpace(s[k])
    decreases |s| - i
  {
    if i < |s| && IsSpace(s[i]) then
      var k := SpaceRunEnd(s, i + 1);
      assert s[i..k] == [s[i]] + s[i + 1..k];
      k
    else i
  }

  /** The start of the run of whitespace that ends just before `j`. */
  function SpaceRunStart(s: string, j: nat): (k: nat)
    requires j <= |s|
    ensures k <= j && AllSpace(s[k..j])
    ensures k == 0 || !IsSpace(s[k - 1])
  {
    if j > 0 && IsSpace(s[j - 1]) then
      var k := SpaceRunStart(s, j - 1);
      assert s[k..j] == s[k..j - 1] + [s[j - 1]];
      k
    else j
  }

  /** `s.lstrip()`. */
  function LStrip(s: string): (r: string)
    ensures r == [] || !IsSpace(r[0])
  {
    s[SpaceRunEnd(s, 0)..]
  }

  /** `s.rstrip()`. */
  function RStrip(s: string): (r: string)
    ensures r == [] || !IsSpace(r[|r| - 1])
  {
    s[..SpaceRunStart(s, |s|)]
  }

  /** `s.strip()`. */
  function Strip(s: string): (r: string)
  {
    RStrip(LStrip(s))
  }

  /** `strip()` removes whitespace from both ends and nothing else: it keeps `s[i..j]`. */
  lemma StripBounds(s: string) returns (i: nat, j: nat)
    ensures i <= j <= |s| && Strip(s) == s[i..j]
    ensures AllSpace(s[..i]) && AllSpace(s[j..])
    ensures Strip(s) == [] || (!IsSpace(Strip(s)[0]) && !IsSpace(Strip(s)[|Strip(s)| - 1]))
  {
    i := SpaceRunEnd(s, 0);
    var l := s[i..];
    var k := SpaceRunStart(l, |l|);
    j := i + k;
    assert LStrip(s) == l && Strip(s) == l[..k];
    assert l[k..|l|] == l[k..];
    SuffixSlices(s, i, k);
    assert s[..i] == s[0..i];
    StripEnds(s);
  }

  lemma SuffixSlices(s: string, i: nat, n: nat)
    requires i + n <= |s|
    ensures s[i..][..n] == s[i..i + n] && s[i..][n..] == s[i + n..]
  {
  }

  lemma StripEnds(s: string)
    ensures Strip(s) == [] || (!IsSpace(Strip(s)[0]) && !IsSpace(Strip(s)[|Strip(s)| - 1]))
  {
    var l := LStrip(s);
    var r := RStrip(l);
    assert r != [] ==> r[0] == l[0];
  }

  /** A string without whitespace at either end is left as it is. */
  lemma StripTrimmed(s: string)
    requires s == [] || (!IsSpace(s[0]) && !IsSpace(s[|s| - 1]))
    ensures Strip(s) == s
  {
  }

  /** A whitespace run that ends at a non-whitespace character, or at the end, is the run `SpaceRunEnd` finds. */
  lemma SpaceRunEndUnique(s: string, i: nat, k: nat)
    requires i <= k <= |s| && AllSpace(s[i..k])
    requires k == |s| || !IsSpace(s[k])
    ensures SpaceRunEnd(s, i) == k
  {
    var e := SpaceRunEnd(s, i);
    forall m | i <= m < k
      ensures IsSpace(s[m])
    {
      assert s[i..k][m - i] == s[m];
    }
    forall m | i <= m < e
      ensures IsSpace(s[m])
    {
      assert s[i..e][m - i] == s[m];
    }
  }

  /** Likewise for the run `SpaceRunStart` finds. */
  lemma SpaceRunStartUnique(s: string, j: nat, k: nat)
    requires k <= j <= |s| && AllSpace(s[k..j])
    requires k == 0 || !IsSpace(s[k - 1])
    ensures SpaceRunStart(s, j) == k
  {
    var b := SpaceRunStart(s, j);
    forall m | k <= m < j
      ensures IsSpace(s[m])
    {
      assert s[k..j][m - k] == s[m];
    }
    forall m | b <= m < j
      ensures IsSpace(s[m])
    {
      assert s[b..j][m - b] == s[m];
    }
  }

  /** Trailing whitespace is removed only from the last part of a concatenation that has a visible first character. */
  lemma RStripAppend(a: string, b: string)
    requires b != [] && !IsSpace(b[0])
    ensures RStrip(a + b) == a + RStrip(b)
  {
    var k := SpaceRunStart(b, |b|);
    var s := a + b;
    assert s[|a| + k..|s|] == b[k..|b|];
    assert s[|a| + k - 1] == b[k - 1];
    SpaceRunStartUnique(s, |s|, |a| + k);
    assert s[..|a| + k] == a + b[..k];
  }

  /** A word followed by whitespace only loses that whitespace. */
  lemma RStripWordSpace(w: string, sp: string)
    requires w != [] && !IsSpace(w[|w| - 1]) && AllSpace(sp)
    ensures RStrip(w + sp) == w
  {
    var s := w + sp;
    assert s[|w|..|s|] == sp;
    assert s[|w| - 1] == w[|w| - 1];
    SpaceRunStartUnique(s, |s|, |w|);
    assert s[..|w|] == w;
  }

  /** `split()` skips a leading run of whitespace. */
  lemma {:induction false} SplitSpaces(s: string, k: nat)
    requires k <= |s| && AllSpace(s[..k])
    ensures Split(s) == Split(s[k..])
    decreases k
  {
    if k > 0 {
      assert s[..k][0] == s[0];
      assert s[1..][..k - 1] == s[1..k];
      assert forall i :: 0 <= i < k - 1 ==> s[1..k][i] == s[..k][i + 1];
      SplitSpaces(s[1..], k - 1);
      assert s[1..][k - 1..] == s[k..];
    }
  }

  /** The longest prefix without whitespace. */
  function Word(s: string): (w: string)
    ensures |w| <= |s| && w == s[..|w|] && NoSpace(w)
    ensures |w| == |s| || IsSpace(s[|w|])
  {
    if s == [] || IsSpace(s[0]) then [] else [s[0]] + Word(s[1..])
  }

  /** `s.split()`: the maximal runs of non-whitespace, in order. */
  function Split(s: string): (ws: seq<string>)
    ensures forall i :: 0 <= i < |ws| ==> |ws[i]| > 0 && NoSpace(ws[i])
    decreases |s|
  {
    if s == [] then []
    else if IsSpace(s[0]) then Split(s[1..])
    else
      var w := Word(s);
      [w] + Split(s[|w|..])
  }

  /** `' '.join(ws)`. */
  function JoinWords(ws: seq<string>): (s: string)
  {
    if ws == [] then ""
    else if |ws| == 1 then ws[0]
    else ws[0] + " " + JoinWords(ws[1..])
  }

  predicate AreWords(ws: seq<string>) {
    forall i :: 0 <= i < |ws| ==> |ws[i]| > 0 && NoSpace(ws[i])
  }

  lemma WordOfJoin(w: string, rest: string)
    requires NoSpace(w)
    requires rest == [] || IsSpace(rest[0])
    ensures Word(w + rest) == w
  {
    if w != [] {
      assert (w + rest)[1..] == w[1..] + rest;
      WordOfJoin(w[1..], rest);
    } else {
      assert w + rest == rest;
    }
  }

  /** Leading whitespace never changes what `split()` returns. */
  lemma SplitLeadingSpace(c: char, s: string)
    requires IsSpace(c)
    ensures Split([c] + s) == Split(s)
  {
    assert ([c] + s)[1..] == s;
  }

  /** Joining words with single spaces and splitting again gives the words back. */
  lemma {:induction false} SplitJoinWords(ws: seq<string>)
    requires AreWords(ws)
    ensures Split(JoinWords(ws)) == ws
  {
    if ws == [] {
    } else if |ws| == 1 {
      var w := ws[0];
      WordOfJoin(w, []);
      assert w + [] == w;
      assert w[|w|..] == [];
    } else {
      var w := ws[0];
      var rest := JoinWords(ws[1..]);
      var s := w + " " + rest;
      assert s == w + (" " + rest);
      WordOfJoin(w, " " + rest);
      assert s[|w|..] == [' '] + rest;
      SplitLeadingSpace(' ', rest);
      assert AreWords(ws[1..]) by {
        forall i | 0 <= i < |ws[1..]|
          ensures |ws[1..][i]| > 0 && NoSpace(ws[1..][i])
        {
          assert ws[1..][i] == ws[i + 1];
        }
      }
      SplitJoinWords(ws[1..]);
    }
  }
}
