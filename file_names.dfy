/**
 * The file-stem helper of both segmentation programs: `getFileNameWithoutExtension`
 * and the output file name built from it. Positions are `size_t` values, so the
 * "not found" result `npos` and the wrap-around `npos + 1 == 0` are written out.
 */
module FileNames {

  /** `std::string::npos`: the largest 64-bit `size_t`. */
  const NPOS: nat := 0xFFFF_FFFF_FFFF_FFFF
  const SIZE_MOD: nat := 0x1_0000_0000_0000_0000

  /** `a + b` and `a - b` on 64-bit `size_t` operands, which wrap modulo 2^64. */
  function SizeAdd(a: nat, b: nat): (r: nat)
    requires a < SIZE_MOD && b < SIZE_MOD
    ensures r < SIZE_MOD && (r == a + b || r == a + b - SIZE_MOD)
  {
    if a + b < SIZE_MOD then a + b else a + b - SIZE_MOD
  }

  function SizeSub(a: nat, b: nat): (r: nat)
    requires a < SIZE_MOD && b < SIZE_MOD
    ensures r < SIZE_MOD && (r == a - b || r == a - b + SIZE_MOD)
  {
    if b <= a then a - b else a - b + SIZE_MOD
  }

  const SEPARATORS: set<char> := {'/', '\\'}
  const DOTS: set<char> := {'.'}

  predicate IsSeparator(c: char) { c in SEPARATORS }

  /** `s.find_last_of(chars)`: the last position holding one of `chars`, or `npos`. */
  function FindLastOf(s: string, chars: set<char>): (r: nat)
    requires |s| < NPOS
    ensures r == NPOS <==> forall i :: 0 <= i < |s| ==> s[i] !in chars
    ensures r != NPOS ==> r < |s| && s[r] in chars
    ensures r != NPOS ==> forall i :: r < i < |s| ==> s[i] !in chars
  {
    if |s| == 0 then NPOS
    else if s[|s| - 1] in chars then |s| - 1
    else FindLastOf(s[..|s| - 1], chars)
  }

  /** `s.substr(pos, count)`: at most `count` characters from `pos` on. */
  function Substr(s: string, pos: nat, count: nat): (r: string)
    requires pos <= |s|
    ensures |r| <= count && pos + |r| <= |s| && r == s[pos..pos + |r|]
    ensures |r| == count || pos + |r| == |s|
  {
    if count < |s| - pos then s[pos..pos + count] else s[pos..]
  }

  /** `getFileNameWithoutExtension`, exactly as both copies of it compute it. */
  function FileNameWithoutExtension(filePath: string): string
    requires |filePath| < NPOS
  {
    StemBetween(filePath, FindLastOf(filePath, SEPARATORS), FindLastOf(filePath, DOTS))
  }

  /** The rest of `getFileNameWithoutExtension`, once `lastSlash` and `lastDot` are found. */
  function StemBetween(filePath: string, lastSlash: nat, lastDot: nat): string
    requires |filePath| < NPOS
    requires lastSlash == NPOS || lastSlash < |filePath|
    requires lastDot == NPOS || lastDot < |filePath|
  {
    if lastDot == NPOS || (lastSlash != NPOS && lastDot < lastSlash) then
      Substr(filePath, SizeAdd(lastSlash, 1), NPOS)
    else
      Substr(filePath, SizeAdd(lastSlash, 1), SizeSub(SizeSub(lastDot, lastSlash), 1))
  }

  /** The output file of both programs: `images/saida/<stem>_out.ppm`. */
  function OutputPath(filePath: string): (r: string)
    requires |filePath| < NPOS
    ensures r == "images/saida/" + FileNameWithoutExtension(filePath) + "_out.ppm"
    ensures |r| == 21 + |FileNameWithoutExtension(filePath)|
  {
    var outputDir := "images/saida/";
    outputDir + FileNameWithoutExtension(filePath) + "_out.ppm"
  }

  /** Where the stem starts: just after the last separator, or at 0 when there is none. */
  function StemStart(s: string): (k: nat)
    ensures k <= |s|
    ensures forall i :: k <= i < |s| ==> !IsSeparator(s[i])
    ensures k > 0 ==> IsSeparator(s[k - 1])
  {
    if |s| == 0 then 0
    else if IsSeparator(s[|s| - 1]) then |s|
    else StemStart(s[..|s| - 1])
  }

  /** The stem starts one past the last separator, and at 0 when there is none. */
  lemma {:induction false} StartIsSlashPlusOne(s: string)
    requires |s| < NPOS
    ensures FindLastOf(s, SEPARATORS) == NPOS ==> StemStart(s) == 0
    ensures FindLastOf(s, SEPARATORS) != NPOS ==> StemStart(s) == FindLastOf(s, SEPARATORS) + 1
  {
    if |s| > 0 && !IsSeparator(s[|s| - 1]) {
      StartIsSlashPlusOne(s[..|s| - 1]);
    }
  }

  /** Through the wrap-around of `npos + 1`, the code's start position is always `StemStart`. */
  lemma StartPosition(s: string)
    requires |s| < NPOS
    ensures SizeAdd(FindLastOf(s, SEPARATORS), 1) == StemStart(s)
  {
    StartIsSlashPlusOne(s);
  }

  /** `npos + 1` wraps to 0, and subtracting `npos` adds one. */
  lemma SizeWrap(d: nat)
    requires d < NPOS
    ensures SizeAdd(NPOS, 1) == 0
    ensures SizeSub(SizeSub(d, NPOS), 1) == d
  {
  }

  /** When the last dot lies after the last separator, the stem is the text strictly between them. */
  lemma StemWithExtension(s: string, i: nat)
    requires |s| < NPOS
    requires StemStart(s) <= i < |s| && s[i] == '.'
    ensures StemStart(s) <= FindLastOf(s, DOTS) < |s|
    ensures FileNameWithoutExtension(s) == s[StemStart(s)..FindLastOf(s, DOTS)]
  {
    var lastSlash := FindLastOf(s, SEPARATORS);
    var lastDot := FindLastOf(s, DOTS);
    var k := StemStart(s);
    StartIsSlashPlusOne(s);
    assert lastDot != NPOS && i <= lastDot;
    BetweenIs(s, lastSlash, lastDot, k);
  }

  /** `StemBetween` with the last dot at or after the stem start `k` is the text from `k` to that dot. */
  lemma BetweenIs(s: string, lastSlash: nat, lastDot: nat, k: nat)
    requires |s| < NPOS && (lastSlash == NPOS || lastSlash < |s|) && k <= lastDot < |s|
    requires (lastSlash == NPOS && k == 0) || (lastSlash < NPOS && k == lastSlash + 1)
    ensures StemBetween(s, lastSlash, lastDot) == s[k..lastDot]
  {
    CountFor(lastSlash, lastDot, k);
    var count := lastDot - k;
    assert StemBetween(s, lastSlash, lastDot) == Substr(s, k, count);
  }

  /**
   * The `size_t` arithmetic of `getFileNameWithoutExtension` when the last dot
   * lies at or after the stem start `k`: the start is `lastSlash + 1` and the
   * count `lastDot - lastSlash - 1`, both through the wrap-around when
   * `lastSlash` is `npos`.
   */
  lemma CountFor(lastSlash: nat, lastDot: nat, k: nat)
    requires lastSlash <= NPOS && lastDot < NPOS && k <= lastDot
    requires (lastSlash == NPOS && k == 0) || (lastSlash < NPOS && k == lastSlash + 1)
    ensures SizeAdd(lastSlash, 1) == k && SizeSub(SizeSub(lastDot, lastSlash), 1) == lastDot - k
    ensures !(lastSlash != NPOS && lastDot < lastSlash)
  {
  }

  /** With no dot after the last separator, the stem is everything after that separator. */
  lemma StemWithoutExtension(s: string)
    requires |s| < NPOS
    requires forall i :: StemStart(s) <= i < |s| ==> s[i] != '.'
    ensures FileNameWithoutExtension(s) == s[StemStart(s)..]
  {
    var lastSlash := FindLastOf(s, SEPARATORS);
    DotBeforeSlash(s);
    StartPosition(s);
    calc {
      FileNameWithoutExtension(s);
      Substr(s, SizeAdd(lastSlash, 1), NPOS);
      Substr(s, StemStart(s), NPOS);
    }
  }

  /** With no dot after the last separator, any dot lies before that separator. */
  lemma DotBeforeSlash(s: string)
    requires |s| < NPOS
    requires forall i :: StemStart(s) <= i < |s| ==> s[i] != '.'
    ensures FindLastOf(s, DOTS) == NPOS ||
            (FindLastOf(s, SEPARATORS) != NPOS && FindLastOf(s, DOTS) < FindLastOf(s, SEPARATORS))
  {
    var lastDot := FindLastOf(s, DOTS);
    var lastSlash := FindLastOf(s, SEPARATORS);
    var k := StemStart(s);
    StartIsSlashPlusOne(s);
    if lastDot != NPOS {
      assert s[lastDot] in DOTS;
      assert lastDot < k;
      assert lastSlash != NPOS && k == lastSlash + 1;
      assert s[lastSlash] in SEPARATORS;
      assert lastDot != lastSlash;
    }
  }

  /** The stem never contains a path separator. */
  lemma StemHasNoSeparator(s: string)
    requires |s| < NPOS
    ensures forall i :: 0 <= i < |FileNameWithoutExtension(s)| ==>
      !IsSeparator(FileNameWithoutExtension(s)[i])
  {
    var e := StemSlice(s);
    NoSepSlice(s, StemStart(s), e, FileNameWithoutExtension(s));
  }

  /** A slice of a text with no separator from `k` on has no separator. */
  lemma NoSepSlice(s: string, k: nat, e: nat, r: string)
    requires k <= e <= |s| && r == s[k..e] && forall i :: k <= i < |s| ==> !IsSeparator(s[i])
    ensures forall i :: 0 <= i < |r| ==> !IsSeparator(r[i])
  {
    forall i | 0 <= i < |r| ensures !IsSeparator(r[i]) {
      assert r[i] == s[k + i];
    }
  }

  /** The stem is the text from `StemStart` to the last dot after it, or to the end when there is none. */
  lemma StemSlice(s: string) returns (e: nat)
    requires |s| < NPOS
    ensures StemStart(s) <= e <= |s| && FileNameWithoutExtension(s) == s[StemStart(s)..e]
  {
    var k := StemStart(s);
    var d := FindLastOf(s, DOTS);
    if d != NPOS && k <= d {
      StemWithExtension(s, d);
      e := d;
    } else {
      forall i | k <= i < |s| ensures s[i] != '.' {
        assert s[i] !in DOTS;
      }
      StemWithoutExtension(s);
      e := |s|;
    }
  }

  /** A path with no separator and no dot is returned whole. */
  lemma PlainNameUnchanged(s: string)
    requires |s| < NPOS
    requires forall i :: 0 <= i < |s| ==> !IsSeparator(s[i]) && s[i] != '.'
    ensures FileNameWithoutExtension(s) == s
  {
    assert StemStart(s) == 0;
    StemWithoutExtension(s);
  }

  /** A position holding one of `chars` with none after it is what `find_last_of` returns. */
  lemma LastOfIs(s: string, chars: set<char>, r: nat)
    requires |s| < NPOS && r < |s| && s[r] in chars && forall i :: r < i < |s| ==> s[i] !in chars
    ensures FindLastOf(s, chars) == r
  {
  }

  /** A position with a separator just before it and none from it on is where the stem starts. */
  lemma StemStartIs(s: string, k: nat)
    requires k <= |s| && (forall i :: k <= i < |s| ==> !IsSeparator(s[i])) && (k > 0 ==> IsSeparator(s[k - 1]))
    ensures StemStart(s) == k
  {
  }

  /** The usage example of the first program: `images/teste.ppm` has the stem `teste`. */
  lemma ExampleWithDirectory()
    ensures FileNameWithoutExtension("images/teste.ppm") == "teste"
    ensures OutputPath("images/teste.ppm") == "images/saida/teste_out.ppm"
  {
    var s := "images/teste.ppm";
    assert s[6] == '/';
    StemStartIs(s, 7);
    assert s[12] == '.';
    LastOfIs(s, DOTS, 12);
    StemWithExtension(s, 12);
    assert s[7..12] == "teste";
  }

  /** With no separator, `npos + 1` wraps to 0 and `teste.ppm` gives `teste`. */
  lemma ExampleWithoutDirectory()
    ensures FileNameWithoutExtension("teste.ppm") == "teste"
    ensures OutputPath("teste.ppm") == "images/saida/teste_out.ppm"
  {
    var s := "teste.ppm";
    StemStartIs(s, 0);
    assert s[5] == '.';
    LastOfIs(s, DOTS, 5);
    StemWithExtension(s, 5);
    assert s[0..5] == "teste";
  }
}
