/** Reading back space-separated text: where its first and its last space
    are, and the fact that no decimal numeral contains a space. */
module Words {
  import opened Decimal

  predicate NoSpace(s: string) {
    forall k :: 0 <= k < |s| ==> s[k] != ' '
  }

  /** The index of the first space of `s`, or `|s|` when it has none. */
  function FirstSpace(s: string): (i: nat)
    ensures i <= |s|
    ensures i < |s| ==> s[i] == ' '
    ensures forall k :: 0 <= k < i ==> s[k] != ' '
  {
    if |s| == 0 || s[0] == ' ' then 0 else 1 + FirstSpace(s[1..])
  }

  /** The index of the last space of `s`, or -1 when it has none. */
  function LastSpace(s: string): (j: int)
    ensures -1 <= j < |s|
    ensures j >= 0 ==> s[j] == ' '
    ensures forall k :: j < k < |s| ==> s[k] != ' '
  {
    if |s| == 0 then -1
    else if s[|s| - 1] == ' ' then |s| - 1
    else LastSpace(s[..|s| - 1])
  }

  /** A space after a word without spaces is the first space. */
  lemma FirstSpaceAfter(a: string, b: string)
    requires NoSpace(a)
    ensures FirstSpace(a + " " + b) == |a|
  {
    var s := a + " " + b;
    assert s[|a|] == ' ';
    assert forall k :: 0 <= k < |a| ==> s[k] == a[k];
  }

  /** A space before a word without spaces is the last space. */
  lemma LastSpaceBefore(a: string, b: string)
    requires NoSpace(b)
    ensures LastSpace(a + " " + b) == |a|
  {
    var s := a + " " + b;
    var j := LastSpace(s);
    assert s[|a|] == ' ';
  }

  /** Three words joined by single spaces, the outer two without spaces,
      split back at the first and the last space. */
  lemma ThreeWords(a: string, m: string, b: string)
    requires NoSpace(a) && NoSpace(b)
    ensures var t := a + " " + m + " " + b;
      var i, j := FirstSpace(t), LastSpace(t);
      i < j && t[..i] == a && t[i + 1..j] == m && t[j + 1..] == b
  {
    var left, right := a + " " + m, m + " " + b;
    assert left + " " + b == a + " " + right;
    FirstSpaceAfter(a, right);
    LastSpaceBefore(left, b);
    assert (a + " " + right)[..|a|] == a;
    assert (left + " " + b)[|left| + 1..] == b;
    var t := a + " " + right;
    assert t[|a| + 1..] == right && right[..|m|] == m;
    assert t[|a| + 1..|left|] == t[|a| + 1..][..|m|];
  }

  /** Numerals, signed or not, are single words. */
  lemma NumeralNoSpace(i: int)
    ensures NoSpace(IntToString(i))
  {
    var s := IntToString(i);
    if i < 0 {
      assert forall k :: 1 <= k < |s| ==> s[k] == NatToString(-i)[k - 1];
    }
  }
}
