/** Names of the files main.py writes: a directory, the decimal rendering of
    an integer timestamp (`int(datetime.utcnow().timestamp())`, which equals
    Unix time only on a host whose local zone is UTC, since `timestamp()`
    reads the naive `utcnow()` value as local time), and an extension. The timestamp is an opaque input here; a parser for such names
    is the partner that shows distinct timestamps give distinct names. */
module Artifacts {
  import opened Wrappers

  predicate IsDigit(c: char) {
    '0' <= c <= '9'
  }

  predicate AllDigits(s: string) {
    forall i :: 0 <= i < |s| ==> IsDigit(s[i])
  }

  function DigitChar(d: nat): (c: char)
    requires d < 10
    ensures IsDigit(c) && c as int - '0' as int == d
  {
    ('0' as int + d) as char
  }

  /** The decimal digits of `n`, most significant first, without leading
      zeros. */
  function NatDigits(n: nat): (s: string)
    ensures s != [] && AllDigits(s)
    ensures |s| > 1 ==> s[0] != '0'
    decreases n
  {
    if n < 10 then [DigitChar(n)] else NatDigits(n / 10) + [DigitChar(n % 10)]
  }

  /** A non-empty string of digits without a leading zero (a lone "0" is
      allowed): the form `str(n)` gives a natural number. */
  predicate Canonical(s: string) {
    s != [] && AllDigits(s) && (|s| > 1 ==> s[0] != '0')
  }

  /** Python's `str(n)` for an `int`, which is what an f-string inserts: a
      '-' exactly for a negative number, then the canonical digits, and never
      "-0". */
  function Decimal(n: int): (s: string)
    ensures n >= 0 ==> Canonical(s)
    ensures n < 0 ==> |s| >= 2 && s[0] == '-' && Canonical(s[1..]) && s[1] != '0'
  {
    if n < 0 then
      var d := NatDigits(-n);
      assert ("-" + d)[1..] == d;
      "-" + d
    else NatDigits(n)
  }

  /** The number a string of digits denotes. */
  function DigitsValue(s: string): nat
    requires AllDigits(s)
  {
    if s == [] then 0
    else DigitsValue(s[..|s| - 1]) * 10 + (s[|s| - 1] as int - '0' as int)
  }

  /** Reads back what Decimal writes: canonical digits, optionally after a
      '-' that is not followed by '0'. Every other string is refused. */
  function ParseDecimal(s: string): Option<int> {
    if |s| >= 2 && s[0] == '-' && Canonical(s[1..]) && s[1] != '0' then Some(0 - DigitsValue(s[1..]) as int)
    else if Canonical(s) then Some(DigitsValue(s) as int)
    else None
  }

  lemma {:induction false} NatDigitsValue(n: nat)
    ensures DigitsValue(NatDigits(n)) == n
    decreases n
  {
    if n >= 10 {
      var s := NatDigits(n);
      assert s[..|s| - 1] == NatDigits(n / 10);
      NatDigitsValue(n / 10);
    }
  }

  /** Canonical digits are the rendering of the number they denote, and
      that number is positive when the first digit is not '0'. */
  lemma {:induction false} CanonicalValue(s: string)
    requires Canonical(s)
    ensures NatDigits(DigitsValue(s)) == s
    ensures s[0] != '0' ==> DigitsValue(s) > 0
    decreases |s|
  {
    var p := s[..|s| - 1];
    var d := s[|s| - 1] as int - '0' as int;
    assert DigitsValue(s) == DigitsValue(p) * 10 + d;
    if |s| == 1 {
      assert p == [];
      assert DigitChar(d) == s[0];
    } else {
      assert p[0] == s[0];
      assert AllDigits(p) by {
        forall i | 0 <= i < |p| ensures IsDigit(p[i]) { assert p[i] == s[i]; }
      }
      CanonicalValue(p);
      var v := DigitsValue(p);
      var n := v * 10 + d;
      assert n / 10 == v && n % 10 == d;
      assert DigitChar(d) == s[|s| - 1];
      assert s == p + [s[|s| - 1]];
    }
  }

  /** Parsing the decimal rendering of any integer gives that integer back. */
  lemma DecimalRoundTrip(n: int)
    ensures ParseDecimal(Decimal(n)) == Some(n)
  {
    var d := Decimal(n);
    if n < 0 {
      assert d[1..] == NatDigits(-n);
      assert |d| >= 2 && d[0] == '-';
      NatDigitsValue(-n);
    } else {
      assert IsDigit(d[0]);
      NatDigitsValue(n);
    }
  }

  /** ParseDecimal accepts exactly the renderings of integers: a string
      reads as `n` if and only if it is `str(n)`. */
  lemma ParseDecimalExact(s: string, n: int)
    ensures ParseDecimal(s) == Some(n) <==> s == Decimal(n)
  {
    DecimalRoundTrip(n);
    if ParseDecimal(s) == Some(n) {
      if |s| >= 2 && s[0] == '-' && Canonical(s[1..]) && s[1] != '0' {
        CanonicalValue(s[1..]);
        assert s == "-" + s[1..];
      } else {
        CanonicalValue(s);
      }
    }
  }

  /** `f"{dir}{ts}{ext}"`. */
  function ArtifactPath(dir: string, ts: int, ext: string): string {
    dir + Decimal(ts) + ext
  }

  /** The timestamp in a name of the form `dir + digits + ext`, if it has
      that form. */
  function ParseArtifactPath(dir: string, ext: string, path: string): Option<int> {
    if |path| >= |dir| + |ext| && path[..|dir|] == dir && path[|path| - |ext|..] == ext
    then ParseDecimal(path[|dir|..|path| - |ext|])
    else None
  }

  /** The timestamp can be read back from every artifact name. */
  lemma ArtifactPathRoundTrip(dir: string, ts: int, ext: string)
    ensures ParseArtifactPath(dir, ext, ArtifactPath(dir, ts, ext)) == Some(ts)
  {
    var p := ArtifactPath(dir, ts, ext);
    assert p[..|dir|] == dir;
    assert p[|p| - |ext|..] == ext;
    assert p[|dir|..|p| - |ext|] == Decimal(ts);
    DecimalRoundTrip(ts);
  }

  /** A name reads back as `ts` exactly when it is the name for `ts`: the
      parser names one file per timestamp. */
  lemma ArtifactPathParseExact(dir: string, ext: string, path: string, ts: int)
    ensures ParseArtifactPath(dir, ext, path) == Some(ts) <==> path == ArtifactPath(dir, ts, ext)
  {
    ArtifactPathRoundTrip(dir, ts, ext);
    if ParseArtifactPath(dir, ext, path) == Some(ts) {
      var mid := path[|dir|..|path| - |ext|];
      ParseDecimalExact(mid, ts);
      assert path == path[..|dir|] + mid + path[|path| - |ext|..];
    }
  }

  /** Two artifacts of one kind get the same name exactly when they get the
      same timestamp: names collide only within one second. */
  lemma ArtifactPathInjective(dir: string, ext: string, a: int, b: int)
    ensures ArtifactPath(dir, a, ext) == ArtifactPath(dir, b, ext) <==> a == b
  {
    ArtifactPathRoundTrip(dir, a, ext);
    ArtifactPathRoundTrip(dir, b, ext);
  }

  const AudioDir := "static/audio/"
  const ImageDir := "static/images/"

  /** The file `text_to_speech` writes (main.py:32): the audio name that
      reads back as `ts`. */
  function AudioPath(ts: int): (path: string)
    ensures ParseArtifactPath(AudioDir, ".mp3", path) == Some(ts)
  {
    ArtifactPathRoundTrip(AudioDir, ts, ".mp3");
    ArtifactPath(AudioDir, ts, ".mp3")
  }

  /** The file `/generate_image` writes (main.py:261): the image name that
      reads back as `ts`. */
  function ImagePath(ts: int): (path: string)
    ensures ParseArtifactPath(ImageDir, ".png", path) == Some(ts)
  {
    ArtifactPathRoundTrip(ImageDir, ts, ".png");
    ArtifactPath(ImageDir, ts, ".png")
  }

  /** An audio file and an image file never share a name, whatever their
      timestamps. */
  lemma AudioAndImagePathsDiffer(a: int, b: int)
    ensures AudioPath(a) != ImagePath(b)
  {
    assert AudioPath(a)[7] == 'a';
    assert ImagePath(b)[7] == 'i';
  }
}
