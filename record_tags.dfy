/** Choosing the record tag: find_frequent_child counts the tags of the root's direct
    children in a dict and returns max(counts, key=counts.get), or None when the dict is empty. */
module RecordTags {
  import opened Wrappers
  import opened Seqs
  import opened Elements

  /** Sum of counts[k] over the keys k. */
  function SumOver(keys: seq<string>, counts: map<string, nat>): nat
    requires forall k :: k in keys ==> k in counts
  {
    if |keys| == 0 then 0 else SumOver(keys[..|keys| - 1], counts) + counts[keys[|keys| - 1]]
  }

  /** Changing the count of a key that is not listed does not change the sum. */
  lemma {:induction false} SumOverUnlisted(keys: seq<string>, counts: map<string, nat>, k: string, v: nat)
    requires forall x :: x in keys ==> x in counts
    requires k !in keys
    ensures SumOver(keys, counts[k := v]) == SumOver(keys, counts)
  {
    if |keys| > 0 {
      SumOverUnlisted(keys[..|keys| - 1], counts, k, v);
    }
  }

  /** Adding one to the count of a key listed exactly once adds one to the sum. */
  lemma {:induction false} SumOverIncrement(keys: seq<string>, counts: map<string, nat>, k: string)
    requires forall x :: x in keys ==> x in counts
    requires k in keys
    requires forall i, j :: 0 <= i < j < |keys| ==> keys[i] != keys[j]
    ensures SumOver(keys, counts[k := counts[k] + 1]) == SumOver(keys, counts) + 1
  {
    var n := |keys|;
    var init := keys[..n - 1];
    if keys[n - 1] == k {
      assert k !in init by {
        forall i | 0 <= i < n - 1 ensures init[i] != k {
          assert keys[i] != keys[n - 1];
        }
      }
      SumOverUnlisted(init, counts, k, counts[k] + 1);
    } else {
      assert k in init by {
        var p := IndexOf(keys, k);
        assert p < n - 1 && init[p] == k;
      }
      SumOverIncrement(init, counts, k);
    }
  }

  /** counts[t] is the number of occurrences of t in ts, for exactly the tags of ts. */
  ghost predicate Counted(counts: map<string, nat>, ts: seq<string>) {
    && (forall t :: t in counts <==> t in ts)
    && (forall t :: t in counts ==> counts[t] == multiset(ts)[t])
  }

  /** counts and order are what the counting loop holds after reading the tags ts:
      the counts of ts, the dict's keys in insertion order, and a total of |ts|. */
  ghost predicate Tally(counts: map<string, nat>, order: seq<string>, ts: seq<string>) {
    && Counted(counts, ts)
    && FirstSeenOrder(order, ts)
    && (forall t :: t in order ==> t in counts)
    && SumOver(order, counts) == |ts|
  }

  /** Reading one more tag adds one to its count, starting from zero for a new tag. */
  lemma CountedExtend(counts: map<string, nat>, ts: seq<string>, tag: string)
    requires Counted(counts, ts)
    ensures Counted(counts[tag := if tag in counts then counts[tag] + 1 else 1], ts + [tag])
  {
    assert multiset(ts + [tag]) == multiset(ts) + multiset{tag};
  }

  /** One iteration for a tag already in the dict: its count goes up by one. */
  lemma TallySeenTag(counts: map<string, nat>, order: seq<string>, ts: seq<string>, tag: string)
    requires Tally(counts, order, ts)
    requires tag in counts
    ensures Tally(counts[tag := counts[tag] + 1], order, ts + [tag])
  {
    CountedExtend(counts, ts, tag);
    FirstSeenOrderExtend(order, ts, tag);
    forall p, q | 0 <= p < q < |order| ensures order[p] != order[q] {
      FirstSeenOrderDistinct(order, ts, p, q);
    }
    SumOverIncrement(order, counts, tag);
  }

  /** One iteration for a new tag: it enters the dict with count one, as the last key. */
  lemma TallyNewTag(counts: map<string, nat>, order: seq<string>, ts: seq<string>, tag: string)
    requires Tally(counts, order, ts)
    requires tag !in counts
    ensures Tally(counts[tag := 1], order + [tag], ts + [tag])
  {
    var counts', order' := counts[tag := 1], order + [tag];
    assert Counted(counts', ts + [tag]) by {
      CountedExtend(counts, ts, tag);
    }
    assert FirstSeenOrder(order', ts + [tag]) by {
      FirstSeenOrderExtend(order, ts, tag);
    }
    assert SumOver(order', counts') == |ts| + 1 by {
      SumOverUnlisted(order, counts, tag, 1);
      assert order'[..|order|] == order;
    }
  }

  /** The counting loop of find_frequent_child: afterwards counts[t] is the number of
      direct children of the root tagged t (for exactly the tags that occur), order lists
      the dict's keys in insertion order, and the counts add up to the number of children. */
  method CountChildTags(root: Element) returns (counts: map<string, nat>, order: seq<string>)
    ensures Tally(counts, order, Tags(root.children))
  {
    ghost var ts := Tags(root.children);
    counts, order := map[], [];
    for i := 0 to |root.children|
      invariant Tally(counts, order, ts[..i])
    {
      var tag := root.children[i].tag;
      assert tag == ts[i] by {
        TagsAt(root.children);
      }
      ghost var counts0, order0 := counts, order;
      if tag in counts {
        counts := counts[tag := counts[tag] + 1];
      } else {
        counts := counts[tag := 1];
        order := order + [tag];
      }
      TallyStep(counts0, order0, counts, order, ts, i);
    }
    assert ts[..|root.children|] == ts;
  }

  /** The counts and the key order after reading ts are determined by ts. */
  lemma TallyUnique(c1: map<string, nat>, o1: seq<string>, c2: map<string, nat>, o2: seq<string>, ts: seq<string>)
    requires Tally(c1, o1, ts) && Tally(c2, o2, ts)
    ensures c1 == c2 && o1 == o2
  {
    FirstSeenOrderUnique(o1, o2, ts);
    assert c1.Keys == c2.Keys;
  }

  /** One iteration of the counting loop, over the tag ts[i]: counts' and order' are the
      dict and its key order after `counts[tag] += 1` or `counts[tag] = 1`. */
  lemma TallyStep(counts: map<string, nat>, order: seq<string>, counts': map<string, nat>, order': seq<string>,
                  ts: seq<string>, i: nat)
    requires i < |ts| && Tally(counts, order, ts[..i])
    requires counts' == counts[ts[i] := if ts[i] in counts then counts[ts[i]] + 1 else 1]
    requires order' == if ts[i] in counts then order else order + [ts[i]]
    ensures Tally(counts', order', ts[..i + 1])
  {
    assert ts[..i + 1] == ts[..i] + [ts[i]];
    if ts[i] in counts {
      TallySeenTag(counts, order, ts[..i], ts[i]);
    } else {
      TallyNewTag(counts, order, ts[..i], ts[i]);
    }
  }

  /** Python's max(keys, key=counts.get) over a non-empty dict: a key of largest count,
      the first such key in iteration order (a later key replaces the best only when its
      count is strictly larger). */
  method FirstMaximal(keys: seq<string>, counts: map<string, nat>) returns (best: string)
    requires |keys| > 0
    requires forall k :: k in keys ==> k in counts
    ensures best in keys
    ensures forall k :: k in keys ==> counts[k] <= counts[best]
    ensures forall j :: 0 <= j < IndexOf(keys, best) ==> counts[keys[j]] < counts[best]
  {
    best := keys[0];
    ghost var b := 0;
    for i := 1 to |keys|
      invariant b < i && best == keys[b]
      invariant forall j :: 0 <= j < i ==> counts[keys[j]] <= counts[best]
      invariant forall j :: 0 <= j < b ==> counts[keys[j]] < counts[best]
    {
      if counts[keys[i]] > counts[best] {
        best, b := keys[i], i;
      }
    }
  }

  /** t is the tag find_frequent_child returns for direct-child tags ts: a tag that occurs
      in ts, with a count no other tag exceeds, and among the tags of that count the one
      whose first occurrence is earliest. */
  ghost predicate IsRecordTag(ts: seq<string>, t: string) {
    && t in ts
    && (forall u :: u in ts ==> multiset(ts)[u] <= multiset(ts)[t])
    && (forall u :: u in ts && multiset(ts)[u] == multiset(ts)[t] ==> IndexOf(ts, t) <= IndexOf(ts, u))
  }

  /** find_frequent_child: None exactly when the root has no children, otherwise the record tag. */
  method FindFrequentChild(root: Element) returns (r: Option<string>)
    ensures r.None? <==> |root.children| == 0
    ensures r.Some? ==> IsRecordTag(Tags(root.children), r.value)
  {
    var counts, order := CountChildTags(root);
    ghost var ts := Tags(root.children);
    if |order| == 0 {
      HeadIsMember(ts);
      r := None;
    } else {
      var best := FirstMaximal(order, counts);
      var q := IndexOf(order, best);
      forall u | u in ts && multiset(ts)[u] == multiset(ts)[best]
        ensures IndexOf(ts, best) <= IndexOf(ts, u)
      {
        var p := IndexOf(order, u);
        if p != q {
          assert q < p;
        }
      }
      r := Some(best);
    }
  }

  /** The record tag is determined by the children's tags: no other tag satisfies IsRecordTag. */
  lemma RecordTagUnique(ts: seq<string>, t1: string, t2: string)
    requires IsRecordTag(ts, t1) && IsRecordTag(ts, t2)
    ensures t1 == t2
  {
    assert IndexOf(ts, t1) == IndexOf(ts, t2);
  }

  /** A strict majority: children [A, A, B] select A. */
  lemma MajoritySelected()
    ensures forall t :: IsRecordTag(["A", "A", "B"], t) <==> t == "A"
  {
    var ts := ["A", "A", "B"];
    assert multiset(ts)["A"] == 2 && multiset(ts)["B"] == 1;
    assert IsRecordTag(ts, "A");
    forall t | IsRecordTag(ts, t) ensures t == "A" {
      RecordTagUnique(ts, t, "A");
    }
  }

  /** A tie goes to the tag seen first, not to the first to reach the maximum:
      children [A, B, B, A] select A although B reaches two first. */
  lemma TieGoesToFirstSeen()
    ensures forall t :: IsRecordTag(["A", "B", "B", "A"], t) <==> t == "A"
  {
    var ts := ["A", "B", "B", "A"];
    assert multiset(ts)["A"] == 2 && multiset(ts)["B"] == 2;
    assert IndexOf(ts, "A") == 0;
    assert IsRecordTag(ts, "A");
    forall t | IsRecordTag(ts, t) ensures t == "A" {
      RecordTagUnique(ts, t, "A");
    }
  }
}
