/**
 * Python's str.strip() and str.lower(), as the attribute comparison and the
 * attribute payload parser use them.
 */
module Text {

  /** Characters for which Python's str.isspace() holds. */
  predicate IsSpace(c: char)
  {
    c == ' ' || ('\t' <= c <= '\r') || ('\U{1C}' <= c <= '\U{1F}')
    || c == '\U{85}' || c == '\U{A0}' || c == '\U{1680}'
    || ('\U{2000}' <= c <= '\U{200A}') || c == '\U{2028}' || c == '\U{2029}'
    || c == '\U{202F}' || c == '\U{205F}' || c == '\U{3000}'
  }

  /** str.lstrip(): drops the leading white space, and only that. */
  function TrimLeft(s: string): (r: string)
    ensures |r| <= |s| && r == s[|s| - |r|..]
    ensures forall i | 0 <= i < |s| - |r| :: IsSpace(s[i])
    ensures r == [] || !IsSpace(r[0])
  {
    if s == [] || !IsSpace(s[0]) then s else TrimLeft(s[1..])
  }

  /** str.rstrip(): drops the trailing white space, and only that. */
  function TrimRight(s: string): (r: string)
    ensures |r| <= |s| && r == s[..|r|]
    ensures forall i | |r| <= i < |s| :: IsSpace(s[i])
    ensures r == [] || !IsSpace(r[|r| - 1])
  {
    if s == [] || !IsSpace(s[|s| - 1]) then s else TrimRight(s[..|s| - 1])
  }

  /**
   * str.strip(): no longer than s, and neither starts nor ends with white
   * space (TrimLeft and TrimRight say what is dropped).
   */
  function Strip(s: string): (r: string)
    ensures |r| <= |s|
    ensures r == [] || (!IsSpace(r[0]) && !IsSpace(r[|r| - 1]))
  {
    TrimRight(TrimLeft(s))
  }

  /** Every character is white space (the empty string included). */
  predicate AllSpace(s: string)
  {
    forall i | 0 <= i < |s| :: IsSpace(s[i])
  }

  /** Strip leaves nothing exactly when the string is all white space. */
  lemma StripEmptyIffAllSpace(s: string)
    ensures Strip(s) == [] <==> forall i | 0 <= i < |s| :: IsSpace(s[i])
  {
    var l := TrimLeft(s);
    if Strip(s) == [] {
      assert l == [];
    }
  }

  /** lstrip drops leading white space up to text that does not start with it. */
  lemma {:induction false} TrimLeftPadding(pre: string, x: string)
    requires forall i | 0 <= i < |pre| :: IsSpace(pre[i])
    requires x == [] || !IsSpace(x[0])
    ensures TrimLeft(pre + x) == x
    decreases |pre|
  {
    if pre != [] {
      assert (pre + x)[1..] == pre[1..] + x;
      TrimLeftPadding(pre[1..], x);
    }
  }

  /** rstrip drops trailing white space back to text that does not end with it. */
  lemma {:induction false} TrimRightPadding(x: string, post: string)
    requires forall i | 0 <= i < |post| :: IsSpace(post[i])
    requires x == [] || !IsSpace(x[|x| - 1])
    ensures TrimRight(x + post) == x
    decreases |post|
  {
    if post != [] {
      var n := |post| - 1;
      assert (x + post)[..|x + post| - 1] == x + post[..n];
      TrimRightPadding(x, post[..n]);
    }
  }

  /** Strip removes white-space padding around text that is not itself padded. */
  lemma StripPadding(pre: string, body: string, post: string)
    requires AllSpace(pre) && AllSpace(post)
    requires body != [] && !IsSpace(body[0]) && !IsSpace(body[|body| - 1])
    ensures Strip(pre + body + post) == body
  {
    assert pre + body + post == pre + (body + post);
    TrimLeftPadding(pre, body + post);
    TrimRightPadding(body, post);
  }

  /** str.lower() on one character (ASCII letters only). */
  function LowerChar(c: char): (r: char)
    ensures !('A' <= r <= 'Z')
    ensures 'A' <= c <= 'Z' ==> r as int - 'a' as int == c as int - 'A' as int
    ensures !('A' <= c <= 'Z') ==> r == c
    ensures IsSpace(r) <==> IsSpace(c)
  {
    if 'A' <= c <= 'Z' then (c as int - 'A' as int + 'a' as int) as char else c
  }

  /** str.lower(): each character lowered in place. */
  function Lower(s: string): (r: string)
    ensures |r| == |s|
    ensures forall i | 0 <= i < |s| :: r[i] == LowerChar(s[i])
  {
    seq(|s|, i requires 0 <= i < |s| => LowerChar(s[i]))
  }

  /** `s.strip().lower()`; the attribute comparison applies it to `str(v)`, which is `Display(v)`. */
  function Normalise(s: string): (r: string)
    ensures |r| <= |s|
    ensures r == [] || (!IsSpace(r[0]) && !IsSpace(r[|r| - 1]))
    ensures forall i | 0 <= i < |r| :: !('A' <= r[i] <= 'Z')
  {
    var t := Strip(s);
    LowerKeepsEnds(t);
    LowerNoUpper(t);
    Lower(t)
  }

  /** Lowering leaves no upper-case ASCII letter. */
  lemma LowerNoUpper(t: string)
    ensures forall i | 0 <= i < |Lower(t)| :: !('A' <= Lower(t)[i] <= 'Z')
  {
    forall i | 0 <= i < |t|
      ensures !('A' <= Lower(t)[i] <= 'Z')
    {
      assert Lower(t)[i] == LowerChar(t[i]);
    }
  }

  /** Lowering keeps white space at either end exactly where it was. */
  lemma LowerKeepsEnds(t: string)
    ensures t != [] ==> (IsSpace(Lower(t)[0]) <==> IsSpace(t[0]))
    ensures t != [] ==> (IsSpace(Lower(t)[|t| - 1]) <==> IsSpace(t[|t| - 1]))
  {
    if t != [] {
      assert Lower(t)[0] == LowerChar(t[0]);
      assert Lower(t)[|t| - 1] == LowerChar(t[|t| - 1]);
    }
  }

  /**
   * Normalised comparison ignores white-space padding and the case of ASCII
   * letters: a padded variant of q that differs from it only in case
   * normalises as q does.
   */
  lemma NormaliseIgnoresPaddingAndCase(q: string, a: string, pre: string, post: string)
    requires AllSpace(pre) && AllSpace(post)
    requires q != [] && !IsSpace(q[0]) && !IsSpace(q[|q| - 1])
    requires a != [] && !IsSpace(a[0]) && !IsSpace(a[|a| - 1])
    requires |a| == |q| && forall i | 0 <= i < |q| :: LowerChar(a[i]) == LowerChar(q[i])
    ensures Normalise(pre + a + post) == Normalise(q)
  {
    assert Strip(q) == q by {
      StripPadding([], q, []);
      assert [] + q + [] == q;
    }
    assert Strip(pre + a + post) == a by {
      StripPadding(pre, a, post);
    }
    LowerAgrees(a, q);
  }

  /** Strings whose characters lower alike, position by position, lower to the same string. */
  lemma LowerAgrees(a: string, q: string)
    requires |a| == |q| && forall i | 0 <= i < |q| :: LowerChar(a[i]) == LowerChar(q[i])
    ensures Lower(a) == Lower(q)
  {
    forall i | 0 <= i < |q|
      ensures Lower(a)[i] == Lower(q)[i]
    {
    }
  }
}
