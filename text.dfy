// Searching text for a separator, shared by strings.Split on "/" and by the line scanner.

module Text {

  /** Index of the first occurrence of c in s, or |s| when there is none. */
  function FirstIndex(s: string, c: char): (k: nat)
    ensures k <= |s| && c !in s[..k]
    ensures k < |s| ==> s[k] == c
  {
    if s == [] || s[0] == c then 0
    else
      var k := 1 + FirstIndex(s[1..], c);
      assert s[..k] == [s[0]] + s[1..][..k - 1];
      k
  }

  /** The first c is the one right after a stretch without c. */
  lemma {:induction false} FirstIndexAfter(a: string, c: char, rest: string)
    requires c !in a
    ensures FirstIndex(a + [c] + rest, c) == |a|
    decreases |a|
  {
    if a != [] {
      assert c !in a[1..] by { forall x | x in a[1..] ensures x in a { } }
      FirstIndexAfter(a[1..], c, rest);
      assert (a + [c] + rest)[1..] == a[1..] + [c] + rest;
    }
  }

  /** Text without c has no first c. */
  lemma {:induction false} FirstIndexNone(a: string, c: char)
    requires c !in a
    ensures FirstIndex(a, c) == |a|
    decreases |a|
  {
    if a != [] {
      assert c !in a[1..] by { forall x | x in a[1..] ensures x in a { } }
      FirstIndexNone(a[1..], c);
    }
  }

  /** Two texts without c joined together have no c either. */
  lemma NotInAppend(x: string, y: string, c: char)
    requires c !in x && c !in y
    ensures c !in x + y
  {
    forall i | 0 <= i < |x + y| ensures (x + y)[i] != c {
      if i < |x| {
        assert (x + y)[i] == x[i];
      } else {
        assert (x + y)[i] == y[i - |x|];
      }
    }
  }

  /** Text appended after an occurrence of c does not move the first c. */
  lemma FirstIndexExtend(s: string, c: char, t: string)
    requires FirstIndex(s, c) < |s|
    ensures FirstIndex(s + t, c) == FirstIndex(s, c)
  {
    var k := FirstIndex(s, c);
    assert s + t == s[..k] + [c] + (s[k + 1..] + t);
    FirstIndexAfter(s[..k], c, s[k + 1..] + t);
  }
}
