/**
 * The handful of PHP and WordPress string primitives the plugin relies on:
 * `ltrim` with a single character, `rtrim`/`trailingslashit`, `str_replace`
 * with an empty replacement, and joining pieces back with a separator.
 */
module Text {

  /** PHP `ltrim($s, c)` for one character: every leading `c` is dropped. */
  function TrimLeft(s: string, c: char): (r: string)
    ensures |r| <= |s| && r == s[|s| - |r|..]
    ensures |r| > 0 ==> r[0] != c
    ensures forall i :: 0 <= i < |s| - |r| ==> s[i] == c
    decreases |s|
  {
    if |s| > 0 && s[0] == c then TrimLeft(s[1..], c) else s
  }

  /** The characters WordPress's `untrailingslashit` strips: `/` and `\`. */
  predicate IsSlash(c: char) {
    c == '/' || c == '\\'
  }

  /** WordPress `untrailingslashit`: PHP `rtrim($s, '/\\')`. */
  function TrimSlashesRight(s: string): (r: string)
    ensures |r| <= |s| && r == s[..|r|]
    ensures |r| > 0 ==> !IsSlash(r[|r| - 1])
    ensures forall i :: |r| <= i < |s| ==> IsSlash(s[i])
    decreases |s|
  {
    if |s| > 0 && IsSlash(s[|s| - 1]) then TrimSlashesRight(s[..|s| - 1]) else s
  }

  /** WordPress `trailingslashit`: strip trailing slashes, then append exactly one `/`. */
  function TrailingSlashIt(s: string): (r: string)
    ensures 0 < |r| <= |s| + 1 && r[|r| - 1] == '/'
    ensures r[..|r| - 1] == s[..|r| - 1]
    ensures |r| > 1 ==> !IsSlash(r[|r| - 2])
    ensures forall i :: |r| - 1 <= i < |s| ==> IsSlash(s[i])
  {
    TrimSlashesRight(s) + "/"
  }

  /** A string that already ends in exactly one slash after its last non-slash is left alone. */
  lemma TrailingSlashItIdempotent(s: string)
    ensures TrailingSlashIt(TrailingSlashIt(s)) == TrailingSlashIt(s)
  {
  }

  /** PHP `str_replace(c, '', $s)` for a one-character needle. */
  function RemoveChar(s: string, c: char): (r: string)
    ensures c !in r
    ensures multiset(r) == multiset(s)[c := 0]
    decreases |s|
  {
    if |s| == 0 then ""
    else
      assert s == [s[0]] + s[1..];
      (if s[0] == c then "" else [s[0]]) + RemoveChar(s[1..], c)
  }

  /** Removing a character distributes over concatenation, so the order of the other characters is kept. */
  lemma {:induction false} RemoveCharAppend(a: string, b: string, c: char)
    ensures RemoveChar(a + b, c) == RemoveChar(a, c) + RemoveChar(b, c)
    decreases |a|
  {
    if |a| > 0 {
      assert (a + b)[1..] == a[1..] + b;
      RemoveCharAppend(a[1..], b, c);
    } else {
      assert a + b == b;
    }
  }

  /** A string without `c` is left untouched. */
  lemma {:induction false} RemoveCharAbsent(s: string, c: char)
    requires c !in s
    ensures RemoveChar(s, c) == s
    decreases |s|
  {
    if |s| > 0 {
      assert c !in s[1..];
      RemoveCharAbsent(s[1..], c);
    }
  }

  /**
   * PHP `str_replace(cc, '', $s)` for a doubled character `cc`: the scan runs left
   * to right and removes non-overlapping pairs, so `ccc` leaves one `c`.
   */
  function RemoveDoubled(s: string, c: char): (r: string)
    ensures |r| <= |s|
    ensures c !in s ==> r == s
    decreases |s|
  {
    if |s| >= 2 && s[0] == c && s[1] == c then RemoveDoubled(s[2..], c)
    else if |s| == 0 then ""
    else
      assert s == [s[0]] + s[1..];
      [s[0]] + RemoveDoubled(s[1..], c)
  }

  /** Once every single `c` is removed afterwards, removing the pairs first changes nothing. */
  lemma {:induction false} RemoveDoubledThenChar(s: string, c: char)
    ensures RemoveChar(RemoveDoubled(s, c), c) == RemoveChar(s, c)
    decreases |s|
  {
    if |s| >= 2 && s[0] == c && s[1] == c {
      RemoveDoubledThenChar(s[2..], c);
      assert s[1..][1..] == s[2..];
    } else if |s| > 0 {
      var rest := RemoveDoubled(s[1..], c);
      RemoveDoubledThenChar(s[1..], c);
      assert ([s[0]] + rest)[1..] == rest;
    }
  }

  /** Concatenation of `parts` with `sep` between neighbours (PHP `implode`). */
  function Join(parts: seq<string>, sep: string): string
    decreases |parts|
  {
    if |parts| == 0 then ""
    else if |parts| == 1 then parts[0]
    else parts[0] + sep + Join(parts[1..], sep)
  }

  /** Concatenation of all `parts` with nothing between them (PHP's `.=` in a loop). */
  function Concat(parts: seq<string>): string
    decreases |parts|
  {
    if |parts| == 0 then "" else parts[0] + Concat(parts[1..])
  }

  /** Prepending to the first part prepends to the joined string. */
  lemma JoinPrependFirst(a: string, x: string, ys: seq<string>, sep: string)
    ensures Join([a + x] + ys, sep) == a + Join([x] + ys, sep)
  {
  }

  /** Splits `s` at every `c`, dropping the separators (PHP `explode`). */
  function SplitOn(s: string, c: char): (r: seq<string>)
    ensures |r| >= 1
    ensures forall i :: 0 <= i < |r| ==> c !in r[i]
    decreases |s|
  {
    if |s| == 0 then [""]
    else
      var rest := SplitOn(s[1..], c);
      if s[0] == c then [""] + rest
      else [[s[0]] + rest[0]] + rest[1..]
  }

  /** Splitting on `c` and joining with `c` gives back the original string. */
  lemma {:induction false} SplitOnJoin(s: string, c: char)
    ensures Join(SplitOn(s, c), [c]) == s
    decreases |s|
  {
    if |s| > 0 {
      var rest := SplitOn(s[1..], c);
      SplitOnJoin(s[1..], c);
      assert s == [s[0]] + s[1..];
      if s[0] == c {
        assert ([""] + rest)[1..] == rest;
      } else {
        assert rest == [rest[0]] + rest[1..];
        JoinPrependFirst([s[0]], rest[0], rest[1..], [c]);
      }
    }
  }

  /** A string without the separator is a single piece. */
  lemma {:induction false} SplitOnAbsent(s: string, c: char)
    requires c !in s
    ensures SplitOn(s, c) == [s]
    decreases |s|
  {
    if |s| > 0 {
      assert c !in s[1..];
      SplitOnAbsent(s[1..], c);
      assert s == [s[0]] + s[1..];
    }
  }

  /** The first separator ends the first piece; the rest is split on its own. */
  lemma {:induction false} SplitOnFirst(a: string, b: string, c: char)
    requires c !in a
    ensures SplitOn(a + [c] + b, c) == [a] + SplitOn(b, c)
    decreases |a|
  {
    var s := a + [c] + b;
    if |a| == 0 {
      assert s[1..] == b;
    } else {
      assert s[1..] == a[1..] + [c] + b;
      assert c !in a[1..];
      SplitOnFirst(a[1..], b, c);
      assert a == [a[0]] + a[1..];
    }
  }
}
