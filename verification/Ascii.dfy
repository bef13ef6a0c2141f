/** Lower case for ASCII letters. */
module Ascii {

  function Lower(s: string): string {
    seq(|s|, i requires 0 <= i < |s| =>
      if 'A' <= s[i] <= 'Z' then (s[i] as int + 32) as char else s[i])
  }

  /** The second letter is the first one or its lower case. */
  predicate Lowers(c: char, d: char) {
    if 'A' <= c <= 'Z' then d as int == c as int + 32 else d == c
  }

  lemma LowerIsLetterwise(s: string, t: string)
    ensures Lower(s) == t <==> |s| == |t| && forall i :: 0 <= i < |s| ==> Lowers(s[i], t[i])
  {
    if |s| == |t| && forall i :: 0 <= i < |s| ==> Lowers(s[i], t[i]) {
      assert forall i :: 0 <= i < |s| ==> Lower(s)[i] == t[i];
    }
  }
}
