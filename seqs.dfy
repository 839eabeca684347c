/** Positions of first occurrences of tag names, and the order in which an insertion-ordered Python
    dict lists its keys. */
module Seqs {

  /** Position of the first occurrence of x in s, or |s| when x does not occur. */
  function IndexOf(s: seq<string>, x: string): (k: nat)
    ensures k <= |s|
    ensures x in s <==> k < |s|
    ensures k < |s| ==> s[k] == x
    ensures forall j :: 0 <= j < k ==> s[j] != x
  {
    if |s| == 0 then 0 else if s[0] == x then 0 else 1 + IndexOf(s[1..], x)
  }

  /** Appending an element does not move any first occurrence already present. */
  lemma IndexOfAppend(s: seq<string>, y: string, x: string)
    ensures IndexOf(s + [y], x) == if x in s then IndexOf(s, x) else if x == y then |s| else |s| + 1
  {
    var k := IndexOf(s + [y], x);
    if x in s {
      var k' := IndexOf(s, x);
      assert (s + [y])[k'] == x;
      assert k <= k';
    } else if x == y {
      assert (s + [y])[|s|] == x;
    }
  }

  /** keys lists each element of s once, ordered by where it first occurs in s: the key
      order of a Python dict filled by assigning the elements of s one by one. */
  ghost predicate FirstSeenOrder(keys: seq<string>, s: seq<string>) {
    && (forall x :: x in keys <==> x in s)
    && OrderedBy(keys, s)
  }

  /** A first-seen order lists no element twice. */
  lemma FirstSeenOrderDistinct(keys: seq<string>, s: seq<string>, i: nat, j: nat)
    requires FirstSeenOrder(keys, s)
    requires i < |keys| && j < |keys| && i != j
    ensures keys[i] != keys[j]
  {
    if i < j {
      assert IndexOf(s, keys[i]) < IndexOf(s, keys[j]);
    } else {
      assert IndexOf(s, keys[j]) < IndexOf(s, keys[i]);
    }
  }

  /** Assigning one more element to the dict appends it as a new key when it is new and
      leaves the key order unchanged otherwise. */
  lemma FirstSeenOrderExtend(keys: seq<string>, s: seq<string>, x: string)
    requires FirstSeenOrder(keys, s)
    ensures FirstSeenOrder(if x in s then keys else keys + [x], s + [x])
  {
    var keys' := if x in s then keys else keys + [x];
    forall y ensures y in keys' <==> y in s + [x] {
    }
    forall i, j | 0 <= i < j < |keys'|
      ensures IndexOf(s + [x], keys'[i]) < IndexOf(s + [x], keys'[j])
    {
      IndexOfAppend(s, x, keys'[i]);
      IndexOfAppend(s, x, keys'[j]);
      if j < |keys| {
        assert keys'[i] == keys[i] && keys'[j] == keys[j];
      } else {
        assert keys'[i] == keys[i] && keys[i] in s;
        assert keys'[j] == x;
      }
    }
  }

  lemma HeadIsMember(b: seq<string>)
    ensures |b| > 0 ==> b[0] in b
  {
  }

  /** a is listed in strictly increasing order of first occurrence in s. */
  ghost predicate OrderedBy(a: seq<string>, s: seq<string>) {
    forall i, j :: 0 <= i < j < |a| ==> IndexOf(s, a[i]) < IndexOf(s, a[j])
  }

  lemma OrderedByTail(a: seq<string>, s: seq<string>)
    requires |a| > 0 && OrderedBy(a, s)
    ensures OrderedBy(a[1..], s)
  {
    forall i, j | 0 <= i < j < |a| - 1 ensures IndexOf(s, a[1..][i]) < IndexOf(s, a[1..][j]) {
      assert a[1..][i] == a[i + 1] && a[1..][j] == a[j + 1];
    }
  }

  /** Removing the common head of two ordered sequences with the same elements leaves
      tails with the same elements. */
  lemma SameElementsTail(a: seq<string>, b: seq<string>, s: seq<string>)
    requires |a| > 0 && |b| > 0 && a[0] == b[0]
    requires OrderedBy(a, s) && OrderedBy(b, s)
    requires forall x :: x in a <==> x in b
    ensures forall x :: x in a[1..] <==> x in b[1..]
  {
    forall x ensures x in a[1..] ==> x in b[1..] {
      if x in a[1..] {
        var p :| 1 <= p < |a| && a[p] == x;
        assert IndexOf(s, a[0]) < IndexOf(s, a[p]);
        var q := IndexOf(b, x);
        assert q != 0;
        assert b[q] in b[1..];
      }
    }
    forall x ensures x in b[1..] ==> x in a[1..] {
      if x in b[1..] {
        var q :| 1 <= q < |b| && b[q] == x;
        assert IndexOf(s, b[0]) < IndexOf(s, b[q]);
        var p := IndexOf(a, x);
        assert p != 0;
        assert a[p] in a[1..];
      }
    }
  }

  /** Two sequences ordered strictly by first occurrence in s, with the same elements, are equal. */
  lemma {:induction false} OrderedBySameElementsEqual(a: seq<string>, b: seq<string>, s: seq<string>)
    requires forall x :: x in a <==> x in b
    requires OrderedBy(a, s) && OrderedBy(b, s)
    ensures a == b
  {
    if |a| == 0 {
      HeadIsMember(b);
    } else {
      assert a[0] in b;
      var k := IndexOf(b, a[0]);
      assert b[0] in a;
      var m := IndexOf(a, b[0]);
      assert k == 0;
      SameElementsTail(a, b, s);
      OrderedByTail(a, s);
      OrderedByTail(b, s);
      OrderedBySameElementsEqual(a[1..], b[1..], s);
      assert a == [a[0]] + a[1..] && b == [b[0]] + b[1..];
    }
  }

  /** The key order of a dict filled from s is determined by s. */
  lemma FirstSeenOrderUnique(a: seq<string>, b: seq<string>, s: seq<string>)
    requires FirstSeenOrder(a, s) && FirstSeenOrder(b, s)
    ensures a == b
  {
    OrderedBySameElementsEqual(a, b, s);
  }
}
