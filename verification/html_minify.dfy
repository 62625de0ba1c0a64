/**
 * `minify_html`: drops HTML comments that are not conditional comments,
 * removes whitespace between a tag's `>` and the next `<`, turns every run of
 * whitespace into one space and strips the ends.
 *
 * Each `re.sub` is modelled as the regex engine applies it: scanning left to
 * right, replacing a match and continuing after it, copying the character
 * otherwise.
 */
module HtmlMinify {
  import opened Optional
  import opened Whitespace

  /** The characters of `s` that are not whitespace, in order. */
  function Visible(s: string): (v: string)
    ensures |v| <= |s| && NoSpace(v)
  {
    if s == [] then [] else (if IsSpace(s[0]) then [] else [s[0]]) + Visible(s[1..])
  }

  lemma {:induction false} VisibleAppend(a: string, b: string)
    ensures Visible(a + b) == Visible(a) + Visible(b)
  {
    if a != [] {
      assert (a + b)[1..] == a[1..] + b;
      VisibleAppend(a[1..], b);
    } else {
      assert a + b == b;
    }
  }

  lemma {:induction false} VisibleAllSpace(s: string)
    requires AllSpace(s)
    ensures Visible(s) == []
  {
    if s != [] {
      VisibleAllSpace(s[1..]);
    }
  }

  // ---------------------------------------------------------------------
  // <!--(?!\[).*?-->

  /** A `-->` starts at `j`. */
  predicate ClosesAt(s: string, j: nat) {
    j + 3 <= |s| && s[j..j + 3] == "-->"
  }

  /** The first `-->` at or after `i`. */
  function FindClose(s: string, i: nat): (r: Option<nat>)
    ensures r.Some? ==> i <= r.value && ClosesAt(s, r.value)
    ensures r.Some? ==> forall j :: i <= j < r.value ==> !ClosesAt(s, j)
    ensures r.None? ==> forall j :: i <= j ==> !ClosesAt(s, j)
    decreases |s| - i
  {
    if i + 3 > |s| then None
    else if ClosesAt(s, i) then Some(i)
    else FindClose(s, i + 1)
  }

  /** `s` begins with `<!--` not followed by `[`: a comment that is not a conditional comment. */
  predicate CommentOpens(s: string) {
    |s| >= 4 && s[..4] == "<!--" && !(|s| > 4 && s[4] == '[')
  }

  /** `re.sub(r'<!--(?!\[).*?-->', '', s, flags=re.DOTALL)`. */
  function StripComments(s: string): (r: string)
    ensures |r| <= |s|
    decreases |s|
  {
    if s == [] then []
    else if CommentOpens(s) && FindClose(s, 4).Some? then StripComments(s[FindClose(s, 4).value + 3..])
    else [s[0]] + StripComments(s[1..])
  }

  /** `-->` does not occur in `c` nor where `c` meets a closing `-->`, before that `-->` itself. */
  predicate CommentBody(c: string) {
    (c == [] || c[0] != '[') && forall j :: 0 <= j < |c| ==> !ClosesAt(c + "-->", j)
  }

  /** A comment is dropped as a whole and scanning resumes right after it. */
  lemma StripOneComment(c: string, rest: string)
    requires CommentBody(c)
    ensures StripComments("<!--" + c + "-->" + rest) == StripComments(rest)
  {
    var s := "<!--" + c + "-->" + rest;
    assert s[..4] == "<!--";
    assert |s| > 4 ==> s[4] == (c + "-->")[0];
    assert CommentOpens(s);
    var tail := c + "-->";
    assert s == "<!--" + tail + rest;
    forall j | 4 <= j < 4 + |c|
      ensures !ClosesAt(s, j)
    {
      assert !ClosesAt(tail, j - 4);
      assert s[j..j + 3] == tail[j - 4..j - 1];
    }
    assert s[4 + |c|..4 + |c| + 3] == "-->";
    assert ClosesAt(s, 4 + |c|);
    assert FindClose(s, 4) == Some(4 + |c|);
    assert s[4 + |c| + 3..] == rest;
  }

  /** Text with no `<` at all has no comment to drop. */
  lemma {:induction false} StripCommentsNoTag(s: string)
    requires forall i :: 0 <= i < |s| ==> s[i] != '<'
    ensures StripComments(s) == s
  {
    if s != [] {
      assert |s| >= 4 ==> s[..4][0] == s[0];
      assert forall i :: 0 <= i < |s[1..]| ==> s[1..][i] == s[i + 1];
      StripCommentsNoTag(s[1..]);
    }
  }

  /** `c` does not occur in `s`. */
  predicate Lacks(s: string, c: char) {
    forall i :: 0 <= i < |s| ==> s[i] != c
  }

  lemma LacksTail(s: string, c: char)
    requires s != [] && Lacks(s, c)
    ensures Lacks(s[1..], c)
  {
    forall i | 0 <= i < |s[1..]|
      ensures s[1..][i] != c
    {
      assert s[1..][i] == s[i + 1];
    }
  }

  /** A character other than `<` opens no comment, so it is copied. */
  lemma StripCommentsChar(c: char, x: string)
    requires c != '<'
    ensures StripComments([c] + x) == [c] + StripComments(x)
  {
    var s := [c] + x;
    assert |s| >= 4 ==> s[..4][0] == c;
    assert s[1..] == x;
  }

  /** Text before the first `<` is copied, and the scan goes on after it unaffected. */
  lemma {:induction false} StripCommentsPrefix(a: string, b: string)
    requires Lacks(a, '<')
    ensures StripComments(a + b) == a + StripComments(b)
  {
    if a == [] {
      assert a + b == b;
    } else {
      var c, tail := a[0], a[1..];
      LacksTail(a, '<');
      assert a == [c] + tail;
      calc {
        StripComments(a + b);
        { assert a + b == [c] + (tail + b); }
        StripComments([c] + (tail + b));
        { StripCommentsChar(c, tail + b); }
        [c] + StripComments(tail + b);
        { StripCommentsPrefix(tail, b); }
        [c] + (tail + StripComments(b));
        a + StripComments(b);
      }
    }
  }

  /** A comment in the middle of the text is dropped whole; the text before it is kept. */
  lemma StripCommentsMidComment(a: string, c: string, rest: string)
    requires Lacks(a, '<') && CommentBody(c)
    ensures StripComments(a + "<!--" + c + "-->" + rest) == a + StripComments(rest)
  {
    assert a + "<!--" + c + "-->" + rest == a + ("<!--" + c + "-->" + rest);
    StripCommentsPrefix(a, "<!--" + c + "-->" + rest);
    StripOneComment(c, rest);
  }

  /** A conditional comment `<!--[` is not matched: its opening is copied and the scan goes on inside it. */
  lemma StripCommentsConditional(x: string)
    ensures StripComments("<!--[" + x) == "<!--[" + StripComments(x)
  {
    var s := "<!--[" + x;
    assert !CommentOpens(s) by {
      assert s[4] == '[';
    }
    assert s[1..] == "!--[" + x;
    assert StripComments(s) == ['<'] + StripComments("!--[" + x);
    StripCommentsPrefix("!--[", x);
  }

  /** Without any `-->` nothing can close a comment, so the text is unchanged. */
  lemma {:induction false} StripCommentsUnclosed(s: string)
    requires forall j :: 0 <= j < |s| ==> !ClosesAt(s, j)
    ensures StripComments(s) == s
  {
    if s != [] {
      assert FindClose(s, 4).None?;
      forall j | 0 <= j < |s[1..]|
        ensures !ClosesAt(s[1..], j)
      {
        assert !ClosesAt(s, j + 1);
        if j + 3 <= |s[1..]| {
          assert s[1..][j..j + 3] == s[j + 1..j + 4];
        }
      }
      StripCommentsUnclosed(s[1..]);
      assert s == [s[0]] + s[1..];
    }
  }

  // ---------------------------------------------------------------------
  // >\s+<

  /** `re.sub(r'>\s+<', '><', s)`. */
  function CollapseTags(s: string): (r: string)
    ensures |r| <= |s|
    ensures r == [] <==> s == []
    ensures r != [] ==> r[0] == s[0]
    decreases |s|
  {
    if s == [] then []
    else if s[0] == '>' && TagGap(s) then "><" + CollapseTags(s[SpaceRunEnd(s, 1) + 1..])
    else [s[0]] + CollapseTags(s[1..])
  }

  /** `s` starts with `>`, some whitespace and `<`. */
  predicate TagGap(s: string)
    requires |s| > 0
  {
    var k := SpaceRunEnd(s, 1);
    k > 1 && k < |s| && s[k] == '<'
  }

  /** Collapsing gaps between tags deletes whitespace only. */
  lemma {:induction false} CollapseTagsVisible(s: string)
    ensures Visible(CollapseTags(s)) == Visible(s)
    decreases |s|
  {
    if s != [] {
      if s[0] == '>' && TagGap(s) {
        var k := SpaceRunEnd(s, 1);
        CollapseTagsVisible(s[k + 1..]);
        assert s == [s[0]] + s[1..k] + [s[k]] + s[k + 1..];
        VisibleAppend([s[0]] + s[1..k] + [s[k]], s[k + 1..]);
        VisibleAppend([s[0]] + s[1..k], [s[k]]);
        VisibleAppend([s[0]], s[1..k]);
        VisibleAllSpace(s[1..k]);
        VisibleAppend("><", CollapseTags(s[k + 1..]));
        VisibleAppend(['>'], ['<']);
      } else {
        CollapseTagsVisible(s[1..]);
      }
    }
  }

  /** No `>` is followed by whitespace and then `<`: there is nothing left for `>\s+<` to match. */
  predicate GapFree(s: string) {
    forall i :: 0 <= i < |s| && s[i] == '>' ==> !TagGap(s[i..])
  }

  /** Text with no gap between tags is left exactly as it is. */
  lemma {:induction false} CollapseTagsGapFreeId(s: string)
    requires GapFree(s)
    ensures CollapseTags(s) == s
    decreases |s|
  {
    if s != [] {
      assert s[0..] == s;
      GapFreeSuffix(s, 1);
      CollapseTagsGapFreeId(s[1..]);
      assert s == [s[0]] + s[1..];
    }
  }

  /** Text before the first `>` is copied, and the scan goes on after it unaffected. */
  lemma {:induction false} CollapseTagsPrefix(a: string, b: string)
    requires Lacks(a, '>')
    ensures CollapseTags(a + b) == a + CollapseTags(b)
  {
    if a == [] {
      assert a + b == b;
    } else {
      var s := a + b;
      assert s[0] == a[0];
      assert s[1..] == a[1..] + b;
      LacksTail(a, '>');
      CollapseTagsPrefix(a[1..], b);
      assert a == [a[0]] + a[1..];
    }
  }

  /** A second pass finds nothing more to collapse. */
  lemma CollapseTagsIdempotent(s: string)
    ensures CollapseTags(CollapseTags(s)) == CollapseTags(s)
  {
    CollapseTagsGapFree(s);
    CollapseTagsGapFreeId(CollapseTags(s));
  }

  /** A whitespace character is never part of a match, so it is copied. */
  lemma CollapseTagsSpace(c: char, x: string)
    requires IsSpace(c)
    ensures CollapseTags([c] + x) == [c] + CollapseTags(x)
  {
    assert c != '>';
    assert ([c] + x)[1..] == x;
  }

  /** Whitespace in front of the text is copied as it is. */
  lemma {:induction false} CollapseTagsSpaces(sp: string, x: string)
    requires AllSpace(sp)
    ensures CollapseTags(sp + x) == sp + CollapseTags(x)
  {
    if sp == [] {
      assert sp + x == x;
    } else {
      var tail := sp[1..];
      assert AllSpace(tail) by {
        forall i | 0 <= i < |tail|
          ensures IsSpace(tail[i])
        {
          assert tail[i] == sp[i + 1];
        }
      }
      var c := sp[0];
      assert sp == [c] + tail;
      calc {
        CollapseTags(sp + x);
        { assert sp + x == [c] + (tail + x); }
        CollapseTags([c] + (tail + x));
        { CollapseTagsSpace(c, tail + x); }
        [c] + CollapseTags(tail + x);
        { CollapseTagsSpaces(tail, x); }
        [c] + (tail + CollapseTags(x));
        sp + CollapseTags(x);
      }
    }
  }

  /** A `>` that starts no gap keeps its whitespace and the character after it, so it starts no gap afterwards either. */
  lemma UnmatchedCloseKept(s: string)
    requires s != [] && s[0] == '>' && !TagGap(s)
    ensures !TagGap([s[0]] + CollapseTags(s[1..]))
  {
    var k := SpaceRunEnd(s, 1);
    var sp := s[1..k];
    assert s[1..] == sp + s[k..];
    CollapseTagsSpaces(sp, s[k..]);
    var c := CollapseTags(s[k..]);
    var r := [s[0]] + CollapseTags(s[1..]);
    assert r == [s[0]] + sp + c;
    assert r[1..k] == sp;
    assert k < |r| ==> r[k] == c[0] == s[k];
    SpaceRunEndUnique(r, 1, k);
  }

  /** After `re.sub(r'>\s+<', '><', s)` no gap between tags is left. */
  lemma {:induction false} CollapseTagsGapFree(s: string)
    ensures GapFree(CollapseTags(s))
    decreases |s|
  {
    if s != [] {
      var r := CollapseTags(s);
      if s[0] == '>' && TagGap(s) {
        var rest := CollapseTags(s[SpaceRunEnd(s, 1) + 1..]);
        CollapseTagsGapFree(s[SpaceRunEnd(s, 1) + 1..]);
        assert r == "><" + rest;
        assert SpaceRunEnd(r, 1) == 1;
        forall i | 2 <= i < |r|
          ensures r[i..] == rest[i - 2..] && r[i] == rest[i - 2]
        {
        }
      } else {
        var rest := CollapseTags(s[1..]);
        CollapseTagsGapFree(s[1..]);
        assert r == [s[0]] + rest;
        if s[0] == '>' {
          UnmatchedCloseKept(s);
        }
        forall i | 1 <= i < |r|
          ensures r[i..] == rest[i - 1..] && r[i] == rest[i - 1]
        {
        }
      }
      assert r[0..] == r;
    }
  }

  // ---------------------------------------------------------------------
  // \s+

  /** No two whitespace characters are adjacent. */
  predicate NoDoubleSpace(s: string) {
    forall i :: 0 <= i < |s| - 1 ==> !(IsSpace(s[i]) && IsSpace(s[i + 1]))
  }

  /** The only whitespace character left is the plain space. */
  predicate OnlyPlainSpaces(s: string) {
    forall i :: 0 <= i < |s| ==> IsSpace(s[i]) ==> s[i] == ' '
  }

  /** `re.sub(r'\s+', ' ', s)`. */
  function CollapseRuns(s: string): (r: string)
    ensures r == [] <==> s == []
    ensures r != [] ==> (IsSpace(r[0]) <==> IsSpace(s[0]))
    ensures r != [] && !IsSpace(s[0]) ==> r[0] == s[0]
    ensures NoDoubleSpace(r) && OnlyPlainSpaces(r)
    decreases |s|
  {
    if s == [] then []
    else if IsSpace(s[0]) then
      var rest := s[SpaceRunEnd(s, 0)..];
      [' '] + CollapseRuns(rest)
    else [s[0]] + CollapseRuns(s[1..])
  }

  /** Collapsing runs keeps every visible character. */
  lemma {:induction false} CollapseRunsVisible(s: string)
    ensures Visible(CollapseRuns(s)) == Visible(s)
    decreases |s|
  {
    if s != [] {
      if IsSpace(s[0]) {
        var k := SpaceRunEnd(s, 0);
        CollapseRunsVisible(s[k..]);
        assert s == s[..k] + s[k..];
        VisibleAppend(s[..k], s[k..]);
        VisibleAllSpace(s[..k]);
        VisibleAppend([' '], CollapseRuns(s[k..]));
      } else {
        CollapseRunsVisible(s[1..]);
      }
    }
  }

  /** A word at the front is copied as it is, and collapsing goes on after it. */
  lemma {:induction false} CollapseRunsWord(s: string)
    requires s != [] && !IsSpace(s[0])
    ensures CollapseRuns(s) == Word(s) + CollapseRuns(s[|Word(s)|..])
    decreases |s|
  {
    var t := s[1..];
    assert CollapseRuns(s) == [s[0]] + CollapseRuns(t);
    assert Word(s) == [s[0]] + Word(t);
    if t == [] || IsSpace(t[0]) {
      assert Word(t) == [];
      assert s[|Word(s)|..] == t;
    } else {
      CollapseRunsWord(t);
      var x := CollapseRuns(t[|Word(t)|..]);
      assert t[|Word(t)|..] == s[|Word(s)|..];
      assert [s[0]] + (Word(t) + x) == ([s[0]] + Word(t)) + x;
    }
  }

  /** A leading run of whitespace becomes one space, and `split()` skips it. */
  lemma SpaceRunStep(t: string)
    requires t != [] && IsSpace(t[0])
    ensures var u := t[SpaceRunEnd(t, 0)..];
      && CollapseRuns(t) == [' '] + CollapseRuns(u)
      && Split(t) == Split(u)
      && (u == [] || !IsSpace(u[0]))
  {
    var k := SpaceRunEnd(t, 0);
    assert t[..k] == t[0..k];
    SplitSpaces(t, k);
  }

  lemma JoinCons(w: string, ws: seq<string>)
    requires ws != []
    ensures JoinWords([w] + ws) == w + " " + JoinWords(ws)
  {
    assert ([w] + ws)[1..] == ws;
  }

  /** A word, one space, then the collapsed rest: the trailing space goes from the rest only. */
  lemma WordThenWords(w: string, u: string)
    requires u != [] && !IsSpace(u[0])
    requires RStrip(CollapseRuns(u)) == JoinWords(Split(u))
    ensures RStrip((w + " ") + CollapseRuns(u)) == JoinWords([w] + Split(u))
  {
    assert Split(u) == [Word(u)] + Split(u[|Word(u)|..]);
    RStripAppend(w + " ", CollapseRuns(u));
    JoinCons(w, Split(u));
  }

  /**
   * On text that does not start with whitespace, collapsing the runs and
   * dropping the trailing space gives the words joined by single spaces.
   */
  lemma {:induction false} CollapseRunsWords(s: string)
    requires s == [] || !IsSpace(s[0])
    ensures RStrip(CollapseRuns(s)) == JoinWords(Split(s))
    decreases |s|
  {
    if s != [] {
      var w := Word(s);
      var t := s[|w|..];
      CollapseRunsWord(s);
      assert Split(s) == [w] + Split(t);
      if t == [] {
        assert CollapseRuns(s) == w + [];
        RStripWordSpace(w, []);
      } else {
        var u := t[SpaceRunEnd(t, 0)..];
        SpaceRunStep(t);
        CollapseRunsWords(u);
        if u == [] {
          assert CollapseRuns(s) == w + " ";
          RStripWordSpace(w, " ");
        } else {
          assert CollapseRuns(s) == (w + " ") + CollapseRuns(u);
          WordThenWords(w, u);
        }
      }
    }
  }

  /**
   * `re.sub(r'\s+', ' ', s).strip()` is `' '.join(s.split())`: every run of
   * whitespace between two words becomes exactly one space, and the runs at
   * the ends go.
   */
  lemma CollapseRunsJoinsWords(s: string)
    ensures Strip(CollapseRuns(s)) == JoinWords(Split(s))
  {
    var c := CollapseRuns(s);
    if s != [] && IsSpace(s[0]) {
      var u := s[SpaceRunEnd(s, 0)..];
      SpaceRunStep(s);
      SpaceRunEndUnique(c, 0, 1);
      assert LStrip(c) == CollapseRuns(u);
      CollapseRunsWords(u);
    } else {
      assert LStrip(c) == c;
      CollapseRunsWords(s);
    }
  }

  /** No `>` is directly followed by one whitespace character and then `<`. */
  predicate NoSpacedTags(s: string) {
    forall i :: 0 <= i < |s| - 2 ==> !(s[i] == '>' && IsSpace(s[i + 1]) && s[i + 2] == '<')
  }

  lemma GapFreeSuffix(s: string, k: nat)
    requires GapFree(s) && k <= |s|
    ensures GapFree(s[k..])
  {
    forall i | 0 <= i < |s[k..]| && s[k..][i] == '>'
      ensures !TagGap(s[k..][i..])
    {
      assert s[k..][i..] == s[k + i..] && s[k + i] == '>';
    }
  }

  /**
   * A `>` followed in the collapsed text by a space and then `<` would have
   * started a gap before collapsing.
   */
  lemma FrontNotSpacedTag(s: string)
    requires GapFree(s) && s != [] && s[0] == '>'
    requires var r := CollapseRuns(s[1..]); |r| >= 2 && IsSpace(r[0])
    ensures CollapseRuns(s[1..])[1] != '<'
  {
    var t := s[1..];
    var k := SpaceRunEnd(t, 0);
    var u := t[k..];
    assert CollapseRuns(t) == [' '] + CollapseRuns(u);
    assert CollapseRuns(u)[0] == u[0] == s[1 + k];
    assert s[1..1 + k] == t[0..k];
    SpaceRunEndUnique(s, 1, 1 + k);
    assert s[0..] == s;
  }

  /** Collapsing runs of whitespace cannot create a gap between tags. */
  lemma {:induction false} CollapseRunsNoSpacedTags(s: string)
    requires GapFree(s)
    ensures NoSpacedTags(CollapseRuns(s))
    decreases |s|
  {
    if s != [] {
      var r := CollapseRuns(s);
      if IsSpace(s[0]) {
        var k := SpaceRunEnd(s, 0);
        var rest := CollapseRuns(s[k..]);
        GapFreeSuffix(s, k);
        CollapseRunsNoSpacedTags(s[k..]);
        assert r == [' '] + rest;
        forall i | 1 <= i < |r| ensures r[i] == rest[i - 1] {}
      } else {
        var rest := CollapseRuns(s[1..]);
        GapFreeSuffix(s, 1);
        CollapseRunsNoSpacedTags(s[1..]);
        assert r == [s[0]] + rest;
        forall i | 1 <= i < |r| ensures r[i] == rest[i - 1] {}
        if s[0] == '>' && |rest| >= 2 && IsSpace(rest[0]) {
          FrontNotSpacedTag(s);
        }
      }
    }
  }

  lemma SliceNoSpacedTags(s: string, i: nat, j: nat)
    requires i <= j <= |s| && NoSpacedTags(s)
    ensures NoSpacedTags(s[i..j])
  {
    assert forall k :: 0 <= k < j - i ==> s[i..j][k] == s[i + k];
  }

  // ---------------------------------------------------------------------

  /** `minify_html`. */
  function MinifyHtml(html: string): (r: string)
  {
    Strip(CollapseRuns(CollapseTags(StripComments(html))))
  }

  lemma SliceKeepsSpacing(s: string, i: nat, j: nat)
    requires i <= j <= |s| && NoDoubleSpace(s) && OnlyPlainSpaces(s)
    ensures NoDoubleSpace(s[i..j]) && OnlyPlainSpaces(s[i..j])
  {
    assert forall k :: 0 <= k < j - i ==> s[i..j][k] == s[i + k];
  }

  /** The minified text has no whitespace at its ends and only single plain spaces inside. */
  lemma MinifyHtmlSpacing(html: string)
    ensures var r := MinifyHtml(html);
      && (r == [] || (!IsSpace(r[0]) && !IsSpace(r[|r| - 1])))
      && NoDoubleSpace(r) && OnlyPlainSpaces(r)
  {
    var c := CollapseRuns(CollapseTags(StripComments(html)));
    var i, j := StripBounds(c);
    SliceKeepsSpacing(c, i, j);
  }

  /** `strip()` removes whitespace only. */
  lemma StripVisible(c: string)
    ensures Visible(Strip(c)) == Visible(c)
  {
    var i, j := StripBounds(c);
    assert c == c[..i] + c[i..j] + c[j..];
    VisibleAppend(c[..i] + c[i..j], c[j..]);
    VisibleAppend(c[..i], c[i..j]);
    VisibleAllSpace(c[..i]);
    VisibleAllSpace(c[j..]);
  }

  /** Apart from the dropped comments, minifying removes whitespace and nothing else. */
  lemma MinifyHtmlVisible(html: string)
    ensures Visible(MinifyHtml(html)) == Visible(StripComments(html))
  {
    var t := CollapseTags(StripComments(html));
    CollapseTagsVisible(StripComments(html));
    CollapseRunsVisible(t);
    StripVisible(CollapseRuns(t));
  }

  /** The minified text has no whitespace left between a `>` and the next `<`. */
  lemma MinifyHtmlNoSpacedTags(html: string)
    ensures NoSpacedTags(MinifyHtml(html))
  {
    var g := CollapseTags(StripComments(html));
    CollapseTagsGapFree(StripComments(html));
    CollapseRunsNoSpacedTags(g);
    var i, j := StripBounds(CollapseRuns(g));
    SliceNoSpacedTags(CollapseRuns(g), i, j);
  }

  /** Minifying keeps exactly the words of the uncommented, tag-collapsed text, separated by single spaces. */
  lemma MinifyHtmlWords(html: string)
    ensures MinifyHtml(html) == JoinWords(Split(CollapseTags(StripComments(html))))
  {
    CollapseRunsJoinsWords(CollapseTags(StripComments(html)));
  }

  /** Text with no `<` holds no comment and no gap between tags: minifying it only normalises its whitespace. */
  lemma MinifyHtmlText(html: string)
    requires Lacks(html, '<')
    ensures MinifyHtml(html) == JoinWords(Split(html))
  {
    StripCommentsNoTag(html);
    assert GapFree(html) by {
      forall i | 0 <= i < |html| && html[i] == '>'
        ensures !TagGap(html[i..])
      {
        var k := SpaceRunEnd(html[i..], 1);
        if k < |html[i..]| {
          assert html[i..][k] == html[i + k];
        }
      }
    }
    CollapseTagsGapFreeId(html);
    MinifyHtmlWords(html);
  }
}
