/**
 * Version gating by regular expression. The two accepted-version expressions are
 *
 *   DSE:        (6\.8\.\d+)|(7\.\d+\.\d+)
 *   Cassandra:  (3\.11\.\d+)|(4\.\d+\.\d+)|(5\.\d+\.\d+)
 *
 * and they are used with an unanchored match: a version is accepted when SOME
 * substring of it lies in the language of one alternative. `\d` is an ASCII digit.
 * Only the two alternative shapes these expressions use are modelled, not a general
 * regular-expression engine.
 */
module VersionPatterns {

  predicate IsDigit(c: char) { '0' <= c <= '9' }

  predicate AllDigits(s: string) { forall k | 0 <= k < |s| :: IsDigit(s[k]) }

  /** One alternative of an accepted-version expression. */
  datatype Pattern =
    | LiteralThenDigits(literal: string)   // e.g. 6\.8\.\d+  is  LiteralThenDigits("6.8.")
    | DottedTriple(major: char)            // e.g. 7\.\d+\.\d+ is  DottedTriple('7')

  const DsePatterns: seq<Pattern> := [LiteralThenDigits("6.8."), DottedTriple('7')]
  const OssPatterns: seq<Pattern> := [LiteralThenDigits("3.11."), DottedTriple('4'), DottedTriple('5')]

  /** `w` as a whole is in the language of `p`. */
  ghost predicate InLanguage(p: Pattern, w: string)
  {
    match p
    case LiteralThenDigits(literal) =>
      |literal| < |w| && w[..|literal|] == literal && AllDigits(w[|literal|..])
    case DottedTriple(major) =>
      && |w| >= 2 && w[0] == major && w[1] == '.'
      && exists j :: 2 < j < |w| - 1 && AllDigits(w[2..j]) && w[j] == '.' && AllDigits(w[j + 1..])
  }

  /** Unanchored regular-expression match: some substring of `v` matches some alternative. */
  ghost predicate MatchesSomewhere(alternatives: seq<Pattern>, v: string)
  {
    exists p, i, k :: p in alternatives && 0 <= i <= k <= |v| && InLanguage(p, v[i..k])
  }

  /** End of the longest run of digits in `v` that starts at `from`. */
  function DigitRunEnd(v: string, from: nat): (e: nat)
    requires from <= |v|
    ensures from <= e <= |v|
    ensures AllDigits(v[from..e])
    ensures e == |v| || !IsDigit(v[e])
    decreases |v| - from
  {
    if from == |v| || !IsDigit(v[from]) then from else DigitRunEnd(v, from + 1)
  }

  /** A run of digits from `from` that is followed by a non-digit ends exactly there. */
  lemma DigitRunEndUnique(v: string, from: nat, e: nat)
    requires from <= e < |v| && AllDigits(v[from..e]) && !IsDigit(v[e])
    ensures DigitRunEnd(v, from) == e
  {
  }

  /** Some match of `p` starts at position `i` of `v` (the scan done by the matcher). */
  function MatchStartsAt(p: Pattern, v: string, i: nat): bool
    requires i <= |v|
  {
    match p
    case LiteralThenDigits(literal) =>
      i + |literal| < |v| && v[i..i + |literal|] == literal && IsDigit(v[i + |literal|])
    case DottedTriple(major) =>
      && i + 2 < |v| && v[i] == major && v[i + 1] == '.'
      && var e := DigitRunEnd(v, i + 2);
         i + 2 < e && e + 1 < |v| && v[e] == '.' && IsDigit(v[e + 1])
  }

  /** The scan finds a start exactly when a substring starting there is in the language. */
  lemma MatchStartsAtIff(p: Pattern, v: string, i: nat)
    requires i <= |v|
    ensures MatchStartsAt(p, v, i) <==> exists k :: i <= k <= |v| && InLanguage(p, v[i..k])
  {
    if MatchStartsAt(p, v, i) {
      MatchStartsAtSound(p, v, i);
    }
    if k :| i <= k <= |v| && InLanguage(p, v[i..k]) {
      MatchStartsAtComplete(p, v, i, k);
    }
  }

  lemma MatchStartsAtSound(p: Pattern, v: string, i: nat)
    requires i <= |v| && MatchStartsAt(p, v, i)
    ensures exists k :: i <= k <= |v| && InLanguage(p, v[i..k])
  {
    match p
    case LiteralThenDigits(literal) =>
      var k := i + |literal| + 1;
      var w := v[i..k];
      assert w[..|literal|] == v[i..i + |literal|];
      assert w[|literal|..] == [v[i + |literal|]];
      assert InLanguage(p, w);
    case DottedTriple(major) =>
      var e := DigitRunEnd(v, i + 2);
      var k := e + 2;
      var w := v[i..k];
      var j := e - i;
      assert |w| == k - i && 2 < j < |w| - 1;
      assert w[2..j] == v[i + 2..e];
      assert w[j] == '.';
      assert w[j + 1..] == [v[e + 1]];
      assert InLanguage(p, w);
  }

  lemma MatchStartsAtComplete(p: Pattern, v: string, i: nat, k: nat)
    requires i <= k <= |v| && InLanguage(p, v[i..k])
    ensures MatchStartsAt(p, v, i)
  {
    var w := v[i..k];
    match p
    case LiteralThenDigits(literal) =>
      assert v[i..i + |literal|] == w[..|literal|];
      assert v[i + |literal|] == w[|literal|..][0];
    case DottedTriple(major) =>
      var j :| 2 < j < |w| - 1 && AllDigits(w[2..j]) && w[j] == '.' && AllDigits(w[j + 1..]);
      DottedTripleWitness(major, v, i, k, j);
  }

  /** A dotted triple in `v[i..k]` whose second dot is at offset `j` gives a match starting at `i`. */
  lemma DottedTripleWitness(major: char, v: string, i: nat, k: nat, j: nat)
    requires i <= k <= |v|
    requires var w := v[i..k];
      && 2 < j < |w| - 1 && w[0] == major && w[1] == '.'
      && AllDigits(w[2..j]) && w[j] == '.' && AllDigits(w[j + 1..])
    ensures MatchStartsAt(DottedTriple(major), v, i)
  {
    var w := v[i..k];
    assert |w| == k - i && i + j + 1 < k;
    var digits := v[i + 2..i + j];
    forall t | 0 <= t < |digits|
      ensures IsDigit(digits[t])
    {
      assert digits[t] == w[2..j][t];
    }
    assert v[i + j + 1] == w[j + 1..][0];
    DottedTripleStartsAt(major, v, i, j);
  }

  lemma DottedTripleStartsAt(major: char, v: string, i: nat, j: nat)
    requires 2 < j && i + j + 1 < |v|
    requires v[i] == major && v[i + 1] == '.'
    requires AllDigits(v[i + 2..i + j]) && v[i + j] == '.' && IsDigit(v[i + j + 1])
    ensures MatchStartsAt(DottedTriple(major), v, i)
  {
    DigitRunEndUnique(v, i + 2, i + j);
  }

  /** Some alternative has a match starting at `i`. */
  function AnyStartsAt(alternatives: seq<Pattern>, v: string, i: nat): (b: bool)
    requires i <= |v|
    ensures b <==> exists p, k :: p in alternatives && i <= k <= |v| && InLanguage(p, v[i..k])
  {
    if |alternatives| == 0 then false
    else
      var rest := AnyStartsAt(alternatives[1..], v, i);
      AnyStartsAtStep(alternatives, v, i, rest);
      MatchStartsAt(alternatives[0], v, i) || rest
  }

  lemma AnyStartsAtStep(alternatives: seq<Pattern>, v: string, i: nat, rest: bool)
    requires |alternatives| > 0 && i <= |v|
    requires rest <==> exists p, k :: p in alternatives[1..] && i <= k <= |v| && InLanguage(p, v[i..k])
    ensures (MatchStartsAt(alternatives[0], v, i) || rest) <==>
      exists p, k :: p in alternatives && i <= k <= |v| && InLanguage(p, v[i..k])
  {
    var first := alternatives[0];
    MatchStartsAtIff(first, v, i);
    if MatchStartsAt(first, v, i) {
      var k :| i <= k <= |v| && InLanguage(first, v[i..k]);
      assert first in alternatives;
    } else if rest {
      var p, k :| p in alternatives[1..] && i <= k <= |v| && InLanguage(p, v[i..k]);
      assert p in alternatives;
    }
    if p, k :| p in alternatives && i <= k <= |v| && InLanguage(p, v[i..k]) {
      if p != first {
        assert p in alternatives[1..];
      }
    }
  }

  /** Leftmost-first search for a match starting at `i` or later. */
  function SearchFrom(alternatives: seq<Pattern>, v: string, i: nat): (b: bool)
    requires i <= |v|
    ensures b <==> exists p, j, k :: p in alternatives && i <= j <= k <= |v| && InLanguage(p, v[j..k])
    decreases |v| - i
  {
    AnyStartsAt(alternatives, v, i) || (i < |v| && SearchFrom(alternatives, v, i + 1))
  }

  /** `regexp.MatchString` for an expression made of the given alternatives. */
  function MatchString(alternatives: seq<Pattern>, v: string): (b: bool)
    ensures b <==> MatchesSomewhere(alternatives, v)
  {
    SearchFrom(alternatives, v, 0)
  }

  function IsDseVersionSupported(version: string): (b: bool)
    ensures b <==> MatchesSomewhere(DsePatterns, version)
  {
    MatchString(DsePatterns, version)
  }

  function IsOssVersionSupported(version: string): (b: bool)
    ensures b <==> MatchesSomewhere(OssPatterns, version)
  {
    MatchString(OssPatterns, version)
  }

  /** The match is unanchored: text around an accepted version does not stop it being accepted. */
  lemma AcceptanceIsUnanchored(alternatives: seq<Pattern>, before: string, v: string, after: string)
    requires MatchesSomewhere(alternatives, v)
    ensures MatchesSomewhere(alternatives, before + v + after)
  {
    var p, i, k :| p in alternatives && 0 <= i <= k <= |v| && InLanguage(p, v[i..k]);
    var u := before + v + after;
    assert u[|before| + i..|before| + k] == v[i..k];
  }


  /** Every character an alternative spells out literally occurs in any version it accepts. */
  lemma LiteralCharsOccur(p: Pattern, v: string, i: nat, k: nat)
    requires i <= k <= |v| && InLanguage(p, v[i..k])
    ensures p.LiteralThenDigits? ==> forall c :: c in p.literal ==> c in v
    ensures p.DottedTriple? ==> p.major in v
  {
    var w := v[i..k];
    match p
    case LiteralThenDigits(literal) =>
      forall c | c in literal ensures c in v {
        var t :| 0 <= t < |literal| && literal[t] == c;
        assert w[..|literal|][t] == v[i + t];
      }
    case DottedTriple(major) =>
      assert v[i] == w[0];
  }

  /** The versions DSE and Cassandra releases carry are accepted. */
  lemma SupportedVersionExamples()
    ensures IsDseVersionSupported("6.8.5")
    ensures IsDseVersionSupported("7.0.1")
    ensures IsOssVersionSupported("4.1.0")
    ensures IsOssVersionSupported("3.11.14")
  {
    SupportedDseExamples();
    SupportedOssExamples();
  }

  lemma SupportedDseExamples()
    ensures IsDseVersionSupported("6.8.5") && IsDseVersionSupported("7.0.1")
  {
    LiteralExample("6.8.5", "6.8.");
    DottedTripleExample("7.0.1", '7');
    assert DsePatterns[0] == LiteralThenDigits("6.8.") && DsePatterns[1] == DottedTriple('7');
  }

  lemma SupportedOssExamples()
    ensures IsOssVersionSupported("4.1.0") && IsOssVersionSupported("3.11.14")
  {
    DottedTripleExample("4.1.0", '4');
    LiteralExample("3.11.14", "3.11.");
    assert OssPatterns[0] == LiteralThenDigits("3.11.") && OssPatterns[1] == DottedTriple('4');
  }

  lemma LiteralExample(v: string, literal: string)
    requires |literal| < |v| && v[..|literal|] == literal && AllDigits(v[|literal|..])
    ensures InLanguage(LiteralThenDigits(literal), v[0..|v|])
  {
    assert v[0..|v|] == v;
  }

  lemma DottedTripleExample(v: string, major: char)
    requires |v| == 5 && v[0] == major && v[1] == '.' && IsDigit(v[2]) && v[3] == '.' && IsDigit(v[4])
    ensures InLanguage(DottedTriple(major), v[0..|v|])
  {
    var w := v[0..|v|];
    assert AllDigits(w[2..3]) && AllDigits(w[4..]);
  }

  /** A DSE 6.9 release is refused: no substring spells "6.8." or starts with '7'. */
  lemma UnsupportedDseExample()
    ensures !IsDseVersionSupported("6.9.0")
  {
    var v := "6.9.0";
    assert '8' !in v && '7' !in v;
    if p, i, k :| p in DsePatterns && 0 <= i <= k <= |v| && InLanguage(p, v[i..k]) {
      LiteralCharsOccur(p, v, i, k);
    }
  }

  /** A Cassandra 2.2 release is refused. */
  lemma UnsupportedOssExample()
    ensures !IsOssVersionSupported("2.2.19")
  {
    var v := "2.2.19";
    assert '3' !in v && '4' !in v && '5' !in v;
    if p, i, k :| p in OssPatterns && 0 <= i <= k <= |v| && InLanguage(p, v[i..k]) {
      LiteralCharsOccur(p, v, i, k);
    }
  }

  /** Because the match is unanchored, a longer string that merely contains a version passes. */
  lemma SubstringVersionsAccepted()
    ensures IsDseVersionSupported("16.8.5")
    ensures IsOssVersionSupported("v14.1.0-beta")
  {
    var d, o := "16.8.5", "v14.1.0-beta";
    assert d[1..6][..4] == "6.8.";
    assert InLanguage(DsePatterns[0], d[1..6]);
    DottedTripleExample(o[2..7], '4');
    assert o[2..7][0..5] == o[2..7];
  }
}
