/** Splitting a string at a separator. */
module Text {
  /** The part before the first `c`; all of `s` when there is none. */
  function Before(s: string, c: char): (r: string)
    ensures c !in r && r <= s
  {
    if s == "" || s[0] == c then "" else [s[0]] + Before(s[1..], c)
  }

  /** The part after the first `c`; all of `s` when there is none. */
  function After(s: string, c: char): string {
    BeforeLength(s, c);
    if c in s then s[|Before(s, c)| + 1..] else s
  }

  lemma {:induction false} BeforeLength(s: string, c: char)
    ensures c !in s <==> |Before(s, c)| == |s|
    ensures c in s ==> s[|Before(s, c)|] == c
  {
    if s != "" && s[0] != c {
      var rest := s[1..];
      BeforeLength(rest, c);
      assert s == [s[0]] + rest;
    }
  }

  lemma BeforeMeaning(s: string, c: char)
    ensures c !in s <==> Before(s, c) == s
    ensures c in s ==> |Before(s, c)| < |s| && s[|Before(s, c)|] == c
    ensures c in s ==> s == Before(s, c) + [c] + After(s, c)
  {
    BeforeLength(s, c);
  }

  /** Cutting at the separator undoes gluing with it. */
  lemma {:induction false} SplitGlued(a: string, c: char, b: string)
    requires c !in a
    ensures Before(a + [c] + b, c) == a && After(a + [c] + b, c) == b
  {
    var s := a + [c] + b;
    if a != "" {
      SplitGlued(a[1..], c, b);
      assert s[1..] == a[1..] + [c] + b;
    }
    assert s[|a|] == c;
  }
}
