/** The text normaliser `clean_text` of main.py: every `*` is deleted, every
    maximal run of whitespace becomes one space, and whitespace at both ends
    is trimmed. Here it is the composition Strip(Collapse(DeleteStars(s))),
    one function per regular-expression pass, with lemmas for what the result
    is: free of stars, canonically spaced, a fixpoint, and holding the same
    visible characters in the same order. */
module TextNormalizer {

  /** Python's whitespace on `str`: the code points for which `str.isspace()`
      holds. The `\s` class of a `str` regular expression and `str.strip()`
      both use exactly this set. */
  predicate IsSpace(c: char) {
    var n := c as int;
    (9 <= n <= 13) || (28 <= n <= 32) || n == 0x85 || n == 0xA0 || n == 0x1680
    || (0x2000 <= n <= 0x200A) || n == 0x2028 || n == 0x2029 || n == 0x202F
    || n == 0x205F || n == 0x3000
  }

  /** Every position of `s` is whitespace. */
  predicate AllSpace(s: seq<char>) {
    forall i :: 0 <= i < |s| ==> IsSpace(s[i])
  }

  /** Every position of `s` is a star or whitespace: nothing would be shown. */
  predicate AllBlank(s: seq<char>) {
    forall i :: 0 <= i < |s| ==> s[i] == '*' || IsSpace(s[i])
  }

  /** No whitespace at either end of `s`. */
  predicate NoEdgeSpace(s: seq<char>) {
    s == [] || (!IsSpace(s[0]) && !IsSpace(s[|s| - 1]))
  }

  /** The only whitespace character in `s` is ' ', and no two whitespace
      characters are adjacent. */
  predicate SingleSpaced(s: seq<char>) {
    && (forall i :: 0 <= i < |s| && IsSpace(s[i]) ==> s[i] == ' ')
    && (forall i :: 0 <= i < |s| - 1 ==> !(IsSpace(s[i]) && IsSpace(s[i + 1])))
  }

  /** The shape every result of CleanText has. */
  predicate Clean(s: seq<char>) {
    '*' !in s && NoEdgeSpace(s) && SingleSpaced(s)
  }

  /** `re.sub(r"\*", "", txt)`: every star deleted, the rest kept in order. */
  function DeleteStars(s: seq<char>): (r: seq<char>)
    ensures '*' !in r
    ensures |r| <= |s|
  {
    if s == [] then []
    else (if s[0] == '*' then [] else [s[0]]) + DeleteStars(s[1..])
  }

  /** `s` with every whitespace character deleted. */
  function DeleteSpaces(s: seq<char>): (r: seq<char>)
    ensures forall i :: 0 <= i < |r| ==> !IsSpace(r[i])
  {
    if s == [] then []
    else (if IsSpace(s[0]) then [] else [s[0]]) + DeleteSpaces(s[1..])
  }

  /** What a reader sees of `s`: its characters other than stars and
      whitespace, in their order. */
  function Visible(s: seq<char>): seq<char> {
    DeleteSpaces(DeleteStars(s))
  }

  /** `s` after its leading run of whitespace (Python's `lstrip()`). */
  function SkipSpaces(s: seq<char>): (r: seq<char>)
    ensures |r| <= |s|
    ensures r == [] || !IsSpace(r[0])
  {
    if s != [] && IsSpace(s[0]) then SkipSpaces(s[1..]) else s
  }

  /** `s` before its trailing run of whitespace (Python's `rstrip()`). */
  function StripRight(s: seq<char>): (r: seq<char>)
    ensures |r| <= |s|
    ensures r == [] || !IsSpace(r[|r| - 1])
  {
    if s != [] && IsSpace(s[|s| - 1]) then StripRight(s[..|s| - 1]) else s
  }

  /** Python's `str.strip()` with no argument: never longer than its input
      and never ending in whitespace (StripSlice gives its whole shape). */
  function Strip(s: seq<char>): (r: seq<char>)
    ensures |r| <= |s|
    ensures r != [] ==> !IsSpace(r[|r| - 1])
  {
    StripRight(SkipSpaces(s))
  }

  /** `re.sub(r"\s+", " ", txt)`: every maximal run of whitespace replaced by
      one ' ', everything else kept in order. */
  function Collapse(s: seq<char>): (r: seq<char>)
    ensures |r| <= |s|
    ensures (r == []) == (s == [])
    ensures s != [] ==> r[0] == (if IsSpace(s[0]) then ' ' else s[0])
    decreases |s|
  {
    if s == [] then []
    else if IsSpace(s[0]) then [' '] + Collapse(SkipSpaces(s[1..]))
    else [s[0]] + Collapse(s[1..])
  }

  /** `clean_text` (main.py:25-28): never longer than its input. */
  function CleanText(s: seq<char>): (r: seq<char>)
    ensures |r| <= |s|
  {
    Strip(Collapse(DeleteStars(s)))
  }

  // ---------------------------------------------------------------------
  // lstrip and rstrip

  /** `lstrip()` removes a prefix made of whitespace only. */
  lemma {:induction false} SkipSpacesSplit(s: seq<char>) returns (k: nat)
    ensures k <= |s| && SkipSpaces(s) == s[k..] && AllSpace(s[..k])
  {
    if s != [] && IsSpace(s[0]) {
      var k' := SkipSpacesSplit(s[1..]);
      k := k' + 1;
      assert s[1..][k'..] == s[k..];
      forall i | 0 <= i < k ensures IsSpace(s[..k][i]) {
        if i > 0 { assert s[..k][i] == s[1..][..k'][i - 1]; }
      }
    } else {
      k := 0;
    }
  }

  /** `rstrip()` removes a suffix made of whitespace only. */
  lemma {:induction false} StripRightSplit(s: seq<char>) returns (k: nat)
    ensures k <= |s| && StripRight(s) == s[..k] && AllSpace(s[k..])
  {
    if s != [] && IsSpace(s[|s| - 1]) {
      var p := s[..|s| - 1];
      k := StripRightSplit(p);
      assert p[..k] == s[..k];
      forall i | 0 <= i < |s| - k ensures IsSpace(s[k..][i]) {
        if i < |s| - 1 - k { assert s[k..][i] == p[k..][i]; }
      }
    } else {
      k := |s|;
    }
  }

  // ---------------------------------------------------------------------
  // Collapse

  /** Collapsing leaves ' ' as the only whitespace character and never two
      whitespace characters side by side. */
  lemma {:induction false} CollapseSingleSpaced(s: seq<char>)
    ensures SingleSpaced(Collapse(s))
    decreases |s|
  {
    if s != [] {
      var t := if IsSpace(s[0]) then SkipSpaces(s[1..]) else s[1..];
      CollapseSingleSpaced(t);
      var r := Collapse(s);
      var rt := Collapse(t);
      assert r == [r[0]] + rt;
      assert t != [] && IsSpace(s[0]) ==> !IsSpace(rt[0]);
      forall k | 0 <= k < |r| - 1
        ensures !(IsSpace(r[k]) && IsSpace(r[k + 1]))
      {
        if k > 0 { assert r[k] == rt[k - 1] && r[k + 1] == rt[k]; }
      }
      forall k | 0 <= k < |r| && IsSpace(r[k])
        ensures r[k] == ' '
      {
        if k > 0 { assert r[k] == rt[k - 1]; }
      }
    }
  }

  /** Collapsing introduces no character other than ' '. */
  lemma {:induction false} CollapseChars(s: seq<char>, c: char)
    requires c != ' ' && c !in s
    ensures c !in Collapse(s)
    decreases |s|
  {
    if s != [] {
      var t := if IsSpace(s[0]) then SkipSpaces(s[1..]) else s[1..];
      assert c !in t by {
        var m := 0;
        if IsSpace(s[0]) { m := SkipSpacesSplit(s[1..]); }
        forall k | 0 <= k < |t| ensures t[k] != c {
          assert t[k] == s[1..][m + k];
        }
      }
      CollapseChars(t, c);
      assert Collapse(s) == [Collapse(s)[0]] + Collapse(t);
    }
  }

  // ---------------------------------------------------------------------
  // Strip

  /** Strip cuts a slice out of its input and removes only whitespace. */
  lemma {:induction false} StripSlice(s: seq<char>) returns (i: nat, j: nat)
    ensures i <= j <= |s| && Strip(s) == s[i..j]
    ensures AllSpace(s[..i]) && AllSpace(s[j..])
    ensures NoEdgeSpace(Strip(s))
  {
    var t := SkipSpaces(s);
    i := SkipSpacesSplit(s);
    var m := StripRightSplit(t);
    j := i + m;
    assert s[j..] == t[m..];
  }

  /** Stripping leaves nothing exactly when the input is all whitespace. */
  lemma {:induction false} StripEmpty(s: seq<char>)
    ensures Strip(s) == [] <==> AllSpace(s)
  {
    var i, j := StripSlice(s);
    if Strip(s) == [] {
      assert s == s[..i] + s[j..];
    } else {
      assert s[i] == Strip(s)[0];
    }
  }

  /** A string without edge whitespace is what Strip leaves unchanged. */
  lemma {:induction false} StripFixpoint(s: seq<char>)
    ensures Strip(s) == s <==> NoEdgeSpace(s)
  {
    var i, j := StripSlice(s);
    if NoEdgeSpace(s) && s != [] {
      assert SkipSpaces(s) == s;
      assert StripRight(s) == s;
    }
  }

  /** `str.strip()` is idempotent. */
  lemma {:induction false} StripIdempotent(s: seq<char>)
    ensures Strip(Strip(s)) == Strip(s)
  {
    var _, _ := StripSlice(s);
    StripFixpoint(Strip(s));
  }

  /** A slice of a single-spaced string is single-spaced. */
  lemma {:induction false} SliceSingleSpaced(s: seq<char>, i: nat, j: nat)
    requires i <= j <= |s| && SingleSpaced(s)
    ensures SingleSpaced(s[i..j])
  {
    var t := s[i..j];
    forall k | 0 <= k < |t| - 1
      ensures !(IsSpace(t[k]) && IsSpace(t[k + 1]))
    {
      assert t[k] == s[i + k] && t[k + 1] == s[i + k + 1];
    }
  }

  // ---------------------------------------------------------------------
  // The shape of the result

  /** `clean_text` never returns a `*` (main.py:26). */
  lemma {:induction false} NoStarInCleanText(s: seq<char>)
    ensures '*' !in CleanText(s)
  {
    var d := DeleteStars(s);
    var c := Collapse(d);
    CollapseChars(d, '*');
    var i, j := StripSlice(c);
    forall k | 0 <= k < |CleanText(s)|
      ensures CleanText(s)[k] != '*'
    {
      assert CleanText(s)[k] == c[i + k];
    }
  }

  /** The result of `clean_text` has no whitespace at its ends, no two
      adjacent whitespace characters, and ' ' as its only whitespace
      character, and no star (main.py:26-27). */
  lemma {:induction false} CleanTextIsClean(s: seq<char>)
    ensures Clean(CleanText(s))
  {
    var c := Collapse(DeleteStars(s));
    var i, j := StripSlice(c);
    CollapseSingleSpaced(DeleteStars(s));
    SliceSingleSpaced(c, i, j);
    NoStarInCleanText(s);
  }

  // ---------------------------------------------------------------------
  // Idempotence

  /** DeleteStars works character by character: it distributes over
      concatenation, so the characters it keeps stay in their order. */
  lemma {:induction false} DeleteStarsConcat(a: seq<char>, b: seq<char>)
    ensures DeleteStars(a + b) == DeleteStars(a) + DeleteStars(b)
  {
    if a != [] {
      assert (a + b)[0] == a[0];
      assert (a + b)[1..] == a[1..] + b;
      DeleteStarsConcat(a[1..], b);
    } else {
      assert a + b == b;
    }
  }

  /** DeleteStars removes every star and nothing else: each other character
      occurs in the result as often as in the input. */
  lemma {:induction false} DeleteStarsCounts(s: seq<char>)
    ensures forall c :: multiset(DeleteStars(s))[c] == if c == '*' then 0 else multiset(s)[c]
  {
    if s != [] {
      DeleteStarsCounts(s[1..]);
      var p := if s[0] == '*' then [] else [s[0]];
      assert DeleteStars(s) == p + DeleteStars(s[1..]);
      assert s == [s[0]] + s[1..];
      assert multiset(s) == multiset([s[0]]) + multiset(s[1..]);
      assert '*' !in DeleteStars(s);
    }
  }

  lemma {:induction false} DeleteStarsFixpoint(s: seq<char>)
    requires '*' !in s
    ensures DeleteStars(s) == s
  {
    if s != [] {
      assert s[0] in s;
      DeleteStarsFixpoint(s[1..]);
    }
  }

  lemma {:induction false} CollapseFixpoint(s: seq<char>)
    requires SingleSpaced(s)
    ensures Collapse(s) == s
  {
    if s != [] {
      SliceSingleSpaced(s, 1, |s|);
      assert s[1..] == s[1..|s|];
      CollapseFixpoint(s[1..]);
      if IsSpace(s[0]) {
        assert s[1..] == [] || !IsSpace(s[1..][0]);
        assert SkipSpaces(s[1..]) == s[1..];
      }
    }
  }

  /** A clean string is left as it is by `clean_text`. */
  lemma {:induction false} CleanFixpoint(s: seq<char>)
    requires Clean(s)
    ensures CleanText(s) == s
  {
    DeleteStarsFixpoint(s);
    CollapseFixpoint(s);
    StripFixpoint(s);
  }

  /** `clean_text(clean_text(s)) == clean_text(s)`. */
  lemma {:induction false} CleanTextIdempotent(s: seq<char>)
    ensures CleanText(CleanText(s)) == CleanText(s)
  {
    CleanTextIsClean(s);
    CleanFixpoint(CleanText(s));
  }

  // ---------------------------------------------------------------------
  // What stays visible

  lemma {:induction false} DeleteSpacesConcat(a: seq<char>, b: seq<char>)
    ensures DeleteSpaces(a + b) == DeleteSpaces(a) + DeleteSpaces(b)
  {
    if a != [] {
      assert (a + b)[1..] == a[1..] + b;
      DeleteSpacesConcat(a[1..], b);
    } else {
      assert a + b == b;
    }
  }

  lemma {:induction false} DeleteSpacesAllSpace(s: seq<char>)
    requires AllSpace(s)
    ensures DeleteSpaces(s) == []
  {
    if s != [] {
      DeleteSpacesAllSpace(s[1..]);
    }
  }

  lemma {:induction false} DeleteSpacesSkip(s: seq<char>)
    ensures DeleteSpaces(SkipSpaces(s)) == DeleteSpaces(s)
  {
    var t := SkipSpaces(s);
    var k := SkipSpacesSplit(s);
    assert s == s[..k] + t;
    DeleteSpacesConcat(s[..k], t);
    DeleteSpacesAllSpace(s[..k]);
  }

  lemma {:induction false} DeleteSpacesStrip(s: seq<char>)
    ensures DeleteSpaces(Strip(s)) == DeleteSpaces(s)
  {
    var i, j := StripSlice(s);
    assert s == s[..i] + s[i..j] + s[j..];
    DeleteSpacesConcat(s[..i] + s[i..j], s[j..]);
    DeleteSpacesConcat(s[..i], s[i..j]);
    DeleteSpacesAllSpace(s[..i]);
    DeleteSpacesAllSpace(s[j..]);
  }

  lemma {:induction false} DeleteSpacesCollapse(s: seq<char>)
    ensures DeleteSpaces(Collapse(s)) == DeleteSpaces(s)
    decreases |s|
  {
    if s != [] {
      var c := Collapse(s);
      if IsSpace(s[0]) {
        var t := SkipSpaces(s[1..]);
        assert c[1..] == Collapse(t);
        DeleteSpacesCollapse(t);
        DeleteSpacesSkip(s[1..]);
      } else {
        assert c[1..] == Collapse(s[1..]);
        DeleteSpacesCollapse(s[1..]);
      }
    }
  }

  /** `clean_text` keeps every character that is neither a star nor
      whitespace, in its original order: deleting the spaces from the result
      gives the input with its stars and whitespace deleted (main.py:26-27). */
  lemma {:induction false} VisibleKept(s: seq<char>)
    ensures DeleteSpaces(CleanText(s)) == Visible(s)
  {
    var d := DeleteStars(s);
    DeleteSpacesStrip(Collapse(d));
    DeleteSpacesCollapse(d);
  }

  lemma {:induction false} VisibleEmpty(s: seq<char>)
    ensures Visible(s) == [] <==> AllBlank(s)
  {
    if s != [] {
      VisibleEmpty(s[1..]);
      var p := if s[0] == '*' then [] else [s[0]];
      assert DeleteStars(s) == p + DeleteStars(s[1..]);
      DeleteSpacesConcat(p, DeleteStars(s[1..]));
      if AllBlank(s) {
        forall k | 0 <= k < |s| - 1 ensures s[1..][k] == '*' || IsSpace(s[1..][k]) {
          assert s[1..][k] == s[k + 1];
        }
      }
    }
  }

  /** `clean_text` returns "" exactly when its input consists of stars and
      whitespace only, the empty input included (main.py:25-28). */
  lemma {:induction false} CleanTextEmpty(s: seq<char>)
    ensures CleanText(s) == [] <==> AllBlank(s)
  {
    VisibleKept(s);
    VisibleEmpty(s);
    CleanTextIsClean(s);
    var r := CleanText(s);
    if r != [] {
      assert DeleteSpaces(r) == (if IsSpace(r[0]) then [] else [r[0]]) + DeleteSpaces(r[1..]);
    }
  }
}
