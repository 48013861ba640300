/** What several components share. */
module Common {

  datatype Option<+T> = None | Some(value: T)

  function Min(a: int, b: int): int { if a < b then a else b }

  function Max(a: int, b: int): int { if a < b then b else a }

  predicate Distinct<T(==)>(s: seq<T>) {
    forall i, j :: 0 <= i < j < |s| ==> s[i] != s[j]
  }

  /** The lower case of ASCII. */
  function LowerChar(c: char): char {
    if 'A' <= c <= 'Z' then c - 'A' + 'a' else c
  }

  function Lower(s: string): (r: string)
    ensures |r| == |s| && forall i :: 0 <= i < |s| ==> r[i] == LowerChar(s[i])
  {
    seq(|s|, i requires 0 <= i < |s| => LowerChar(s[i]))
  }

  /** What strings.TrimSpace cuts, of ASCII. */
  const SPACES: string := " \t\n\r" + ['\U{b}', '\U{c}']

  /** `a` stands in the list before `b` does for the first time, if ever. */
  ghost predicate MentionedBefore<T>(s: seq<T>, a: T, b: T) {
    exists k :: 0 <= k < |s| && s[k] == a && b !in s[..k + 1]
  }

  /** The list `r` is in the order in which its elements are first mentioned in `s`. */
  ghost predicate ByFirstMention<T>(r: seq<T>, s: seq<T>) {
    forall i, j :: 0 <= i < j < |r| ==> MentionedBefore(s, r[i], r[j])
  }

  /** One element more, at the end of the list and, if it is new, of the order. */
  lemma MentionOneMore<T>(r: seq<T>, s: seq<T>, x: T)
    requires ByFirstMention(r, s) && forall y :: y in r ==> y in s
    ensures ByFirstMention(r, s + [x])
    ensures x !in s ==> ByFirstMention(r + [x], s + [x])
  {
    forall a, b | MentionedBefore(s, a, b) ensures MentionedBefore(s + [x], a, b) {
      var k :| 0 <= k < |s| && s[k] == a && b !in s[..k + 1];
      assert (s + [x])[..k + 1] == s[..k + 1];
    }
    forall y | y in r && x !in s ensures MentionedBefore(s + [x], y, x) {
      var k :| 0 <= k < |s| && s[k] == y;
      assert (s + [x])[..k + 1] == s[..k + 1];
    }
  }
}
