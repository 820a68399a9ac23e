/**
 * `get_changelog`: the release body is cut into sections before every line
 * that starts with `#`, each section goes through the markdown rewrites, loses
 * its `**`, `*` and backtick markers, and the sections are concatenated inside
 * a `<div class="changelog">`. The heading, list and link rewrites are
 * regular-expression replacements the model takes as the parameter `rewrite`.
 */
module Changelog {
  import opened Wrappers
  import Text
  import opened Remote

  const Open := "<div class=\"changelog\">"
  const Close := "</div>"

  /** A newline at `k` immediately followed by `#`: where `preg_split('/\n(?=#)/')` cuts. */
  predicate BoundaryAt(s: string, k: int) {
    0 <= k && k + 1 < |s| && s[k] == '\n' && s[k + 1] == '#'
  }

  predicate HasBoundary(s: string) {
    exists k :: 0 <= k < |s| && BoundaryAt(s, k)
  }

  /** The pieces of `preg_split('/\n(?=#)/', s)`: the newline at each cut is dropped, the `#` stays. */
  function SplitSections(s: string): (r: seq<string>)
    ensures |r| >= 1
    ensures r[0] <= s
    decreases |s|
  {
    if |s| == 0 then [""]
    else
      var rest := SplitSections(s[1..]);
      if BoundaryAt(s, 0) then [""] + rest
      else [[s[0]] + rest[0]] + rest[1..]
  }

  /** Joining the sections with the newlines the split removed gives back the body. */
  lemma {:induction false} SplitSectionsJoin(s: string)
    ensures Text.Join(SplitSections(s), "\n") == s
    decreases |s|
  {
    if |s| > 0 {
      var rest := SplitSections(s[1..]);
      SplitSectionsJoin(s[1..]);
      assert s == [s[0]] + s[1..];
      if BoundaryAt(s, 0) {
        assert ([""] + rest)[1..] == rest;
      } else {
        assert rest == [rest[0]] + rest[1..];
        Text.JoinPrependFirst([s[0]], rest[0], rest[1..], "\n");
      }
    }
  }

  /** The first section of a body that does not start with a newline starts with the body's first character. */
  lemma FirstSectionStart(t: string)
    requires |t| > 0 && t[0] != '\n'
    ensures |SplitSections(t)[0]| > 0 && SplitSections(t)[0][0] == t[0]
  {
  }

  /** No section contains a cut point, and every section after the first starts with `#`. */
  lemma {:induction false} SplitSectionsShape(s: string)
    ensures forall i :: 0 <= i < |SplitSections(s)| ==> !HasBoundary(SplitSections(s)[i])
    ensures forall i :: 0 < i < |SplitSections(s)| ==>
              |SplitSections(s)[i]| > 0 && SplitSections(s)[i][0] == '#'
    decreases |s|
  {
    if |s| > 0 {
      var rest := SplitSections(s[1..]);
      SplitSectionsShape(s[1..]);
      if BoundaryAt(s, 0) {
        FirstSectionStart(s[1..]);
        assert !HasBoundary("");
      } else {
        if |rest[0]| > 0 {
          assert rest[0][0] == s[1];
        }
        BoundaryCons(s[0], rest[0]);
      }
    }
  }

  /** A cut point in `[c] + t` is either at its very start or a cut point of `t`. */
  lemma BoundaryCons(c: char, t: string)
    ensures HasBoundary([c] + t) <==> BoundaryAt([c] + t, 0) || HasBoundary(t)
  {
    var s := [c] + t;
    if HasBoundary(s) && !BoundaryAt(s, 0) {
      var k :| 0 <= k < |s| && BoundaryAt(s, k);
      assert s[k] == t[k - 1] && s[k + 1] == t[k];
      assert BoundaryAt(t, k - 1);
    }
    if HasBoundary(t) {
      var k :| 0 <= k < |t| && BoundaryAt(t, k);
      assert s[k + 1] == t[k] && s[k + 2] == t[k + 1];
      assert BoundaryAt(s, k + 1);
    }
  }

  /** A body without a cut point is one section. */
  lemma {:induction false} SplitSectionsSingle(s: string)
    requires !HasBoundary(s)
    ensures SplitSections(s) == [s]
    decreases |s|
  {
    if |s| > 0 {
      assert s == [s[0]] + s[1..];
      BoundaryCons(s[0], s[1..]);
      SplitSectionsSingle(s[1..]);
    }
  }

  /** `str_replace('**', '')`, then `str_replace('*', '')`, then `str_replace('`', '')`. */
  function StripMarkers(section: string): (r: string)
    ensures '*' !in r && '`' !in r
  {
    var noPairs := Text.RemoveDoubled(section, '*');
    var noStars := Text.RemoveChar(noPairs, '*');
    var r := Text.RemoveChar(noStars, '`');
    assert multiset(noStars)['*'] == 0;
    assert multiset(r)['*'] == 0;
    r
  }

  /** The `**` pass is subsumed by the `*` pass, and a section without markers passes through. */
  lemma StripMarkersMeaning(section: string)
    ensures StripMarkers(section) == Text.RemoveChar(Text.RemoveChar(section, '*'), '`')
    ensures '*' !in section && '`' !in section ==> StripMarkers(section) == section
  {
    Text.RemoveDoubledThenChar(section, '*');
    if '*' !in section && '`' !in section {
      Text.RemoveCharAbsent(section, '*');
      Text.RemoveCharAbsent(section, '`');
    }
  }

  /** Each section after the markdown rewrites, in order. */
  function Rewritten(sections: seq<string>, rewrite: string -> string): (r: seq<string>)
    ensures |r| == |sections|
    ensures forall i :: 0 <= i < |r| ==> r[i] == rewrite(sections[i])
  {
    seq(|sections|, i requires 0 <= i < |sections| => rewrite(sections[i]))
  }

  /**
   * Every section rewritten, stripped and appended in order: the rewritten
   * sections' text, in order, with only the `*` and backtick characters removed.
   */
  function FormatSections(sections: seq<string>, rewrite: string -> string): (r: string)
    ensures r == Text.RemoveChar(Text.RemoveChar(Text.Concat(Rewritten(sections, rewrite)), '*'), '`')
    ensures '*' !in r && '`' !in r
    decreases |sections|
  {
    if |sections| == 0 then ""
    else
      var head := rewrite(sections[0]);
      var tail := Rewritten(sections[1..], rewrite);
      assert Rewritten(sections, rewrite) == [head] + tail;
      assert Text.Concat([head] + tail) == head + Text.Concat(tail) by {
        assert ([head] + tail)[1..] == tail;
      }
      StripMarkersMeaning(head);
      Text.RemoveCharAppend(head, Text.Concat(tail), '*');
      Text.RemoveCharAppend(Text.RemoveChar(head, '*'), Text.RemoveChar(Text.Concat(tail), '*'), '`');
      StripMarkers(head) + FormatSections(sections[1..], rewrite)
  }

  /**
   * `get_changelog` on one fetch of the latest release: empty without a release
   * or without a body; otherwise the rewritten sections of the body, in order and
   * with their `*` and backtick characters removed, wrapped in the changelog `div`.
   */
  function GetChangelog(fetch: Option<Release>, rewrite: string -> string): (r: string)
    ensures fetch.None? || fetch.value.body.None? ==> r == ""
    ensures fetch.Some? && fetch.value.body.Some? ==>
              && |r| >= |Open| + |Close|
              && r[..|Open|] == Open
              && r[|r| - |Close|..] == Close
              && '*' !in r && '`' !in r
              && r == Open + StrippedBody(fetch.value.body.value, rewrite) + Close
  {
    if fetch.None? || fetch.value.body.None? then ""
    else
      var inner := FormatSections(SplitSections(fetch.value.body.value), rewrite);
      WrapFacts(inner);
      Open + inner + Close
  }

  /** The body's rewritten sections, in order, with every `*` and backtick removed. */
  function StrippedBody(body: string, rewrite: string -> string): string {
    Text.RemoveChar(Text.RemoveChar(Text.Concat(Rewritten(SplitSections(body), rewrite)), '*'), '`')
  }

  lemma WrapFacts(inner: string)
    requires '*' !in inner && '`' !in inner
    ensures var r := Open + inner + Close;
            && |r| >= |Open| + |Close| && r[..|Open|] == Open && r[|r| - |Close|..] == Close
            && '*' !in r && '`' !in r
  {
    var r := Open + inner + Close;
    assert '*' !in Open && '`' !in Open && '*' !in Close && '`' !in Close;
    assert r[..|Open|] == Open && r[|r| - |Close|..] == Close;
  }

  /** When the rewrites leave it alone, a one-section body without markers is wrapped verbatim. */
  lemma PlainChangelog(tag: Option<string>, body: string, rewrite: string -> string)
    requires !HasBoundary(body) && '*' !in body && '`' !in body
    requires rewrite(body) == body
    ensures GetChangelog(Some(Release(tag, Some(body))), rewrite) == Open + body + Close
  {
    SplitSectionsSingle(body);
    StripMarkersMeaning(body);
    FormatOneSection(body, rewrite);
  }

  lemma FormatOneSection(section: string, rewrite: string -> string)
    ensures FormatSections([section], rewrite) == StripMarkers(rewrite(section))
  {
  }
}
