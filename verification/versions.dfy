/**
 * A dotted-numeric model of PHP's `version_compare($a, $b, '<')`.
 *
 * A version string is cut into segments at `.`; each segment gets a rank:
 * a run of decimal digits with value n ranks n + 1, any other segment ranks
 * -1, and a segment past the end of the shorter version ranks 0. Versions
 * compare lexicographically on ranks, so numbers compare numerically
 * (`2.0.9` < `2.0.16`), an extra numeric segment makes a version newer
 * (`1.0` < `1.0.0`) and an extra word segment makes it older, as PHP does
 * when it compares a missing part against its `#` placeholder. An empty
 * version is below every non-empty one, as PHP decides before splitting.
 */
module Versions {
  import Text

  predicate IsDigit(c: char) {
    '0' <= c <= '9'
  }

  predicate AllDigits(s: string) {
    forall i :: 0 <= i < |s| ==> IsDigit(s[i])
  }

  /** The value of a run of decimal digits, read most significant first. */
  function DigitsValue(s: string): (n: nat)
    requires AllDigits(s)
    decreases |s|
  {
    if |s| == 0 then 0
    else DigitsValue(s[..|s| - 1]) * 10 + (s[|s| - 1] as int - '0' as int)
  }

  /** The rank of one segment; never 0, which is kept for "no segment here". */
  function Rank(segment: string): (k: int)
    ensures k != 0
    ensures k > 0 <==> |segment| > 0 && AllDigits(segment)
  {
    if |segment| > 0 && AllDigits(segment) then DigitsValue(segment) + 1 else -1
  }

  function Ranks(segments: seq<string>): (ks: seq<int>)
    ensures |ks| == |segments|
    ensures forall i :: 0 <= i < |ks| ==> ks[i] == Rank(segments[i])
    decreases |segments|
  {
    if |segments| == 0 then [] else [Rank(segments[0])] + Ranks(segments[1..])
  }

  /** The comparison key of a version string. */
  function Key(v: string): seq<int> {
    Ranks(Text.SplitOn(v, '.'))
  }

  /** The rank at the front of a key, 0 once the key is exhausted. */
  function Head(a: seq<int>): int {
    if |a| == 0 then 0 else a[0]
  }

  function Tail(a: seq<int>): seq<int> {
    if |a| == 0 then [] else a[1..]
  }

  /** Lexicographic order on keys padded with 0 on the right. */
  predicate KeyLess(a: seq<int>, b: seq<int>)
    decreases |a| + |b|
  {
    if |a| == 0 && |b| == 0 then false
    else if Head(a) != Head(b) then Head(a) < Head(b)
    else KeyLess(Tail(a), Tail(b))
  }

  /**
   * `version_compare(a, b, '<')`. PHP settles an empty operand before looking at
   * segments: the empty version is below every non-empty one.
   */
  predicate VersionLess(a: string, b: string) {
    if a == "" || b == "" then a == "" && b != ""
    else KeyLess(Key(a), Key(b))
  }

  lemma {:induction false} KeyLessIrreflexive(a: seq<int>)
    ensures !KeyLess(a, a)
    decreases |a|
  {
    if |a| > 0 {
      KeyLessIrreflexive(Tail(a));
    }
  }

  lemma {:induction false} KeyLessTransitive(a: seq<int>, b: seq<int>, c: seq<int>)
    requires KeyLess(a, b) && KeyLess(b, c)
    ensures KeyLess(a, c)
    decreases |a| + |b| + |c|
  {
    if Head(a) == Head(b) == Head(c) {
      KeyLessTransitive(Tail(a), Tail(b), Tail(c));
    }
  }

  /** No version is newer than itself: the reason an unchanged remote version never offers an update. */
  lemma VersionLessIrreflexive(v: string)
    ensures !VersionLess(v, v)
  {
    KeyLessIrreflexive(Key(v));
  }

  /** The empty version is below every non-empty version, and nothing is below it. */
  lemma VersionLessEmpty(v: string)
    ensures VersionLess("", v) <==> v != ""
    ensures !VersionLess(v, "")
  {
  }

  lemma VersionLessTransitive(a: string, b: string, c: string)
    requires VersionLess(a, b) && VersionLess(b, c)
    ensures VersionLess(a, c)
  {
    if a != "" {
      KeyLessTransitive(Key(a), Key(b), Key(c));
    }
  }

  lemma VersionLessAsymmetric(a: string, b: string)
    requires VersionLess(a, b)
    ensures !VersionLess(b, a)
  {
    if VersionLess(b, a) {
      VersionLessTransitive(a, b, a);
      VersionLessIrreflexive(a);
    }
  }

  /** The key of a three-segment version. */
  lemma KeyOfThree(x: string, y: string, z: string)
    requires '.' !in x && '.' !in y && '.' !in z
    ensures Key(x + "." + y + "." + z) == [Rank(x), Rank(y), Rank(z)]
  {
    assert x + "." + y + "." + z == x + ['.'] + (y + ['.'] + z);
    Text.SplitOnFirst(x, y + ['.'] + z, '.');
    Text.SplitOnFirst(y, z, '.');
    Text.SplitOnAbsent(z, '.');
  }

  lemma RankDigit(d: char)
    requires IsDigit(d)
    ensures Rank([d]) == d as int - '0' as int + 1
  {
    var s := [d];
    assert AllDigits(s);
    assert s[..0] == "" && s[0] == d;
    assert DigitsValue(s) == DigitsValue("") * 10 + (d as int - '0' as int);
  }

  lemma RankSixteen()
    ensures Rank("16") == 17
  {
    assert "16"[..1] == "1";
    assert "1"[..0] == "";
  }

  /** Segments compare as numbers, not as text: 2.0.9 is older than 2.0.16. */
  lemma VersionLessNumericSegments()
    ensures VersionLess("2.0.9", "2.0.16") && !VersionLess("2.0.16", "2.0.9")
  {
    assert "2.0.9" == "2" + "." + "0" + "." + "9";
    assert "2.0.16" == "2" + "." + "0" + "." + "16";
    KeyOfThree("2", "0", "9");
    KeyOfThree("2", "0", "16");
    RankDigit('2');
    RankDigit('0');
    RankDigit('9');
    RankSixteen();
    assert Key("2.0.9") == [3, 1, 10];
    assert Key("2.0.16") == [3, 1, 17];
  }

  lemma VersionLessMajor()
    ensures VersionLess("1.0.4", "2.0.0")
  {
    assert "1.0.4" == "1" + "." + "0" + "." + "4";
    assert "2.0.0" == "2" + "." + "0" + "." + "0";
    KeyOfThree("1", "0", "4");
    KeyOfThree("2", "0", "0");
    RankDigit('1');
    RankDigit('2');
    RankDigit('0');
    RankDigit('4');
    assert Key("1.0.4") == [2, 1, 5];
    assert Key("2.0.0") == [3, 1, 1];
  }

  /** An extra numeric segment makes a version newer. */
  lemma VersionLessLongerNumeric()
    ensures VersionLess("1.0", "1.0.0")
  {
  }
}
