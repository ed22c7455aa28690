/** An independent definition of `clean_text`: split the star-free text into
    its words (maximal runs of non-whitespace, as Python's `str.split()` with
    no argument does) and join them with single spaces. The main lemma says
    the regular-expression pipeline of main.py:25-28 computes exactly this. */
module CleanTextReference {
  import opened TextNormalizer

  /** The longest prefix of `s` without whitespace. */
  function TakeWord(s: seq<char>): (w: seq<char>)
    ensures |w| <= |s|
    ensures s != [] && !IsSpace(s[0]) ==> w != []
  {
    if s == [] || IsSpace(s[0]) then [] else [s[0]] + TakeWord(s[1..])
  }

  /** TakeWord stops at the first whitespace character. */
  lemma {:induction false} TakeWordSplit(s: seq<char>)
    ensures var w := TakeWord(s);
      && w == s[..|w|]
      && (forall i :: 0 <= i < |w| ==> !IsSpace(w[i]))
      && (|w| == |s| || IsSpace(s[|w|]))
  {
    if s != [] && !IsSpace(s[0]) {
      TakeWordSplit(s[1..]);
      var w := TakeWord(s);
      assert w[1..] == TakeWord(s[1..]);
      assert |w| == |s| || s[|w|] == s[1..][|w| - 1];
    }
  }

  /** The words of `s`, in order; `str.split()` with no argument. */
  function Words(s: seq<char>): seq<seq<char>>
    decreases |s|
  {
    var t := SkipSpaces(s);
    if t == [] then []
    else
      var w := TakeWord(t);
      [w] + Words(t[|w|..])
  }

  /** `" ".join(ws)`. */
  function Join(ws: seq<seq<char>>): seq<char> {
    if |ws| == 0 then []
    else if |ws| == 1 then ws[0]
    else ws[0] + [' '] + Join(ws[1..])
  }

  /** The reference definition: `" ".join(s.replace("*", "").split())`. */
  function JoinedWords(s: seq<char>): seq<char> {
    Join(Words(DeleteStars(s)))
  }

  lemma {:induction false} CollapseWordPrefix(w: seq<char>, r: seq<char>)
    requires forall i :: 0 <= i < |w| ==> !IsSpace(w[i])
    ensures Collapse(w + r) == w + Collapse(r)
  {
    if w != [] {
      assert (w + r)[0] == w[0];
      assert (w + r)[1..] == w[1..] + r;
      CollapseWordPrefix(w[1..], r);
    } else {
      assert w + r == r;
    }
  }

  lemma {:induction false} StripRightKeepsPrefix(a: seq<char>, b: seq<char>)
    requires !AllSpace(b)
    ensures StripRight(a + b) == a + StripRight(b)
    decreases |b|
  {
    var ab := a + b;
    assert ab[|ab| - 1] == b[|b| - 1];
    if IsSpace(b[|b| - 1]) {
      var b' := b[..|b| - 1];
      assert ab[..|ab| - 1] == a + b';
      assert !AllSpace(b') by {
        var k :| 0 <= k < |b| && !IsSpace(b[k]);
        assert k < |b| - 1 && b'[k] == b[k];
      }
      StripRightKeepsPrefix(a, b');
    }
  }

  /** A whitespace run collapses to one ' ' when something follows it. */
  lemma {:induction false} CollapseLeadingSpace(t: seq<char>)
    requires t != [] && IsSpace(t[0])
    ensures SkipSpaces(t) == SkipSpaces(t[1..])
    ensures Collapse(t) == [' '] + Collapse(SkipSpaces(t))
  {
  }

  /** A collapsed string that does not begin with whitespace has nothing for
      `lstrip()` to remove. */
  lemma {:induction false} SkipCollapsed(u: seq<char>)
    requires u == [] || !IsSpace(u[0])
    ensures SkipSpaces(Collapse(u)) == Collapse(u)
  {
  }

  /** The first word of a string that starts with a non-space character:
      Words and Collapse both take it off unchanged. */
  lemma {:induction false} FirstWord(t: seq<char>) returns (w: seq<char>, r: seq<char>)
    requires t != [] && !IsSpace(t[0])
    ensures w != [] && t == w + r && !IsSpace(w[|w| - 1])
    ensures r == [] || IsSpace(r[0])
    ensures Words(t) == [w] + Words(SkipSpaces(r))
    ensures Collapse(t) == w + Collapse(r)
  {
    w := TakeWord(t);
    TakeWordSplit(t);
    r := t[|w|..];
    assert t == w + r;
    CollapseWordPrefix(w, r);
    var u := SkipSpaces(r);
    assert SkipSpaces(u) == u;
  }

  /** A word followed only by whitespace collapses and strips to itself. */
  lemma {:induction false} LastWord(w: seq<char>, r: seq<char>)
    requires w != [] && !IsSpace(w[|w| - 1])
    requires SkipSpaces(r) == []
    ensures StripRight(w + Collapse(r)) == w
  {
    if r != [] {
      CollapseLeadingSpace(r);
      assert Collapse(r) == [' '];
      assert (w + [' '])[..|w|] == w;
    } else {
      assert w + Collapse(r) == w;
    }
  }

  /** A word followed by more words: the separating run becomes one ' '. */
  lemma {:induction false} MiddleWord(w: seq<char>, r: seq<char>, u: seq<char>)
    requires w != [] && (r == [] || IsSpace(r[0]))
    requires u == SkipSpaces(r) && u != []
    ensures StripRight(w + Collapse(r)) == w + [' '] + StripRight(Collapse(u))
    ensures Join([w] + Words(u)) == w + [' '] + Join(Words(u))
  {
    CollapseLeadingSpace(r);
    var cu := Collapse(u);
    assert !AllSpace(cu) by { assert cu[0] == u[0]; }
    assert w + Collapse(r) == (w + [' ']) + cu;
    StripRightKeepsPrefix(w + [' '], cu);
    assert Words(u) != [] by { assert SkipSpaces(u) == u; }
    assert ([w] + Words(u))[1..] == Words(u);
  }

  lemma {:induction false} StripRightCollapse(t: seq<char>)
    requires t == [] || !IsSpace(t[0])
    ensures StripRight(Collapse(t)) == Join(Words(t))
    decreases |t|
  {
    if t != [] {
      var w, r := FirstWord(t);
      var u := SkipSpaces(r);
      if u == [] {
        LastWord(w, r);
      } else {
        MiddleWord(w, r, u);
        StripRightCollapse(u);
      }
    }
  }

  lemma {:induction false} StripCollapse(t: seq<char>)
    ensures Strip(Collapse(t)) == Join(Words(t))
  {
    var u := SkipSpaces(t);
    assert Words(t) == Words(u) by { assert SkipSpaces(u) == u; }
    if t != [] && IsSpace(t[0]) {
      CollapseLeadingSpace(t);
      SkipCollapsed(u);
      assert SkipSpaces(Collapse(t)) == SkipSpaces(Collapse(u));
    } else {
      SkipCollapsed(t);
    }
    StripRightCollapse(u);
  }

  /** `clean_text(s)` equals `" ".join(s.replace("*", "").split())` for
      every string `s` (main.py:25-28). */
  lemma {:induction false} CleanTextIsJoinedWords(s: seq<char>)
    ensures CleanText(s) == JoinedWords(s)
  {
    StripCollapse(DeleteStars(s));
  }
}
