/** parse_xml after the tag choice: every descendant of the root with the record tag is
    flattened into a dict from its children's tags to their stripped text. */
module Records {
  import opened Wrappers
  import opened Text
  import opened Seqs
  import opened Elements
  import opened RecordTags

  /** One row: the dict's keys in insertion order and its key-to-value mapping. */
  datatype Record = Record(columns: seq<string>, cells: map<string, string>)

  /** The value a child contributes: child.text.strip() if child.text else ''. */
  function CellText(child: Element): (v: string)
    ensures child.text.Some? ==> v == Strip(child.text.value)
    ensures v == "" <==> (child.text.None? || forall i :: 0 <= i < |child.text.value| ==> IsSpace(child.text.value[i]))
  {
    if child.text.None? || child.text.value == "" then "" else Strip(child.text.value)
  }

  /** Child i is the last of the children with its tag. */
  ghost predicate LastOfTag(children: seq<Element>, i: int)
    requires 0 <= i < |children|
  {
    forall j :: i < j < |children| ==> children[j].tag != children[i].tag
  }

  /** r is the dict built by `for child in elem: record_data[child.tag] = ...`: one key per
      distinct child tag, in order of first occurrence, each holding the text of the last
      child with that tag. Grandchildren play no part. */
  ghost predicate Flattens(children: seq<Element>, r: Record) {
    && FirstSeenOrder(r.columns, Tags(children))
    && (forall k :: k in r.cells <==> k in Tags(children))
    && HoldsLastValues(children, r.cells)
  }

  /** The dict gives each tag the value of the last child carrying it. */
  ghost predicate HoldsLastValues(children: seq<Element>, cells: map<string, string>) {
    forall i :: 0 <= i < |children| && LastOfTag(children, i) ==>
      children[i].tag in cells && cells[children[i].tag] == CellText(children[i])
  }

  /** After one more assignment the new child is the last of its tag and holds its tag's
      value; an earlier child that is still last has a different tag, so keeps its value. */
  lemma HoldsLastValuesExtend(cs: seq<Element>, c: Element, cells: map<string, string>)
    requires HoldsLastValues(cs, cells)
    ensures HoldsLastValues(cs + [c], cells[c.tag := CellText(c)])
  {
    var cs', cells' := cs + [c], cells[c.tag := CellText(c)];
    forall i | 0 <= i < |cs'| && LastOfTag(cs', i)
      ensures cs'[i].tag in cells' && cells'[cs'[i].tag] == CellText(cs'[i])
    {
      if i < |cs| {
        assert cs'[i] == cs[i] && cs'[|cs|] == c;
        assert cs[i].tag != c.tag;
        forall j | i < j < |cs| ensures cs[j].tag != cs[i].tag {
          assert cs'[j] == cs[j];
        }
        assert LastOfTag(cs, i);
      }
    }
  }

  /** One iteration of the inner loop: assigning child c's value to its tag, which the
      dict appends as a new key only when the tag is new. */
  lemma FlattensExtend(cs: seq<Element>, c: Element, r: Record)
    requires Flattens(cs, r)
    ensures Flattens(cs + [c], Record(if c.tag in r.cells then r.columns else r.columns + [c.tag],
                                      r.cells[c.tag := CellText(c)]))
  {
    assert Tags(cs + [c]) == Tags(cs) + [c.tag];
    FirstSeenOrderExtend(r.columns, Tags(cs), c.tag);
    HoldsLastValuesExtend(cs, c, r.cells);
  }

  /** FlattensExtend for the child at position i, as the loop in Flatten reads it. */
  lemma FlattensStep(cs: seq<Element>, i: nat, r: Record)
    requires i < |cs| && Flattens(cs[..i], r)
    ensures Flattens(cs[..i + 1], Record(if cs[i].tag in r.cells then r.columns else r.columns + [cs[i].tag],
                                         r.cells[cs[i].tag := CellText(cs[i])]))
  {
    assert cs[..i + 1] == cs[..i] + [cs[i]];
    FlattensExtend(cs[..i], cs[i], r);
  }

  /** The inner loop of parse_xml: the dict for one matched element's children. A later
      child with a tag already present overwrites the value and keeps the key's position. */
  method Flatten(children: seq<Element>) returns (record: Record)
    ensures Flattens(children, record)
  {
    var columns: seq<string> := [];
    var cells: map<string, string> := map[];
    for i := 0 to |children|
      invariant Flattens(children[..i], Record(columns, cells))
    {
      var child := children[i];
      FlattensStep(children, i, Record(columns, cells));
      if child.tag !in cells {
        columns := columns + [child.tag];
      }
      cells := cells[child.tag := CellText(child)];
    }
    assert children[..|children|] == children;
    record := Record(columns, cells);
  }

  /** The last child with tag k, for a tag k that occurs. */
  lemma {:induction false} LastChildWithTag(children: seq<Element>, k: string) returns (i: nat)
    requires k in Tags(children)
    ensures i < |children| && children[i].tag == k && LastOfTag(children, i)
  {
    var n := |children|;
    if children[n - 1].tag == k {
      i := n - 1;
    } else {
      var p := IndexOf(Tags(children), k);
      assert Tags(children[..n - 1])[p] == k;
      i := LastChildWithTag(children[..n - 1], k);
    }
  }

  /** The children of an element determine its record. */
  lemma FlattensUnique(children: seq<Element>, r1: Record, r2: Record)
    requires Flattens(children, r1) && Flattens(children, r2)
    ensures r1 == r2
  {
    FirstSeenOrderUnique(r1.columns, r2.columns, Tags(children));
    forall k | k in r1.cells ensures r1.cells[k] == r2.cells[k] {
      var i := LastChildWithTag(children, k);
    }
    assert r1.cells == r2.cells;
  }

  /** Grandchildren contribute nothing: children with the same tags and texts give the same
      record whatever their own children are. */
  lemma GrandchildrenIgnored(children: seq<Element>, others: seq<Element>, r: Record)
    requires |others| == |children|
    requires forall i :: 0 <= i < |children| ==> others[i].tag == children[i].tag && others[i].text == children[i].text
    requires Flattens(children, r)
    ensures Flattens(others, r)
  {
    TagsAt(children);
    TagsAt(others);
    assert Tags(others) == Tags(children);
  }

  /** Each record is the flattening of the matched element at the same position. */
  ghost predicate FlattensAll(matches: seq<Element>, records: seq<Record>) {
    |records| == |matches| && forall i :: 0 <= i < |matches| ==> Flattens(matches[i].children, records[i])
  }

  /** The records parse_xml returns for root: none when the root has no children; otherwise
      one per descendant tagged with the record tag, in document pre-order. */
  ghost predicate Infers(root: Element, records: seq<Record>) {
    if |root.children| == 0 then records == []
    else exists t :: IsRecordTag(Tags(root.children), t) && FlattensAll(FindAll(root, t), records)
  }

  /** The outer loop of parse_xml: one record per matched element, appended in order. */
  method FlattenAll(matches: seq<Element>) returns (records: seq<Record>)
    ensures FlattensAll(matches, records)
  {
    records := [];
    for i := 0 to |matches|
      invariant |records| == i
      invariant forall j :: 0 <= j < i ==> Flattens(matches[j].children, records[j])
    {
      var record := Flatten(matches[i].children);
      records := records + [record];
    }
  }

  /** parse_xml on an already parsed document. */
  method ParseXml(root: Element) returns (records: seq<Record>)
    ensures Infers(root, records)
  {
    var recordTag := FindFrequentChild(root);
    // The path is built with an f-string, so a missing tag searches for elements named "None".
    var path := if recordTag.Some? then recordTag.value else "None";
    records := FlattenAll(FindAll(root, path));
    if recordTag.Some? {
      assert IsRecordTag(Tags(root.children), path);
    }
  }

  /** parse_xml is a function of the document: the records are determined by the root. */
  lemma InfersUnique(root: Element, r1: seq<Record>, r2: seq<Record>)
    requires Infers(root, r1) && Infers(root, r2)
    ensures r1 == r2
  {
    if |root.children| > 0 {
      var t1 :| IsRecordTag(Tags(root.children), t1) && FlattensAll(FindAll(root, t1), r1);
      var t2 :| IsRecordTag(Tags(root.children), t2) && FlattensAll(FindAll(root, t2), r2);
      RecordTagUnique(Tags(root.children), t1, t2);
      forall i | 0 <= i < |r1| ensures r1[i] == r2[i] {
        FlattensUnique(FindAll(root, t1)[i].children, r1[i], r2[i]);
      }
    }
  }

  /** A root with children yields at least one record for every direct child with the record
      tag, so at least one. */
  lemma RecordsCoverChildren(root: Element, records: seq<Record>)
    requires Infers(root, records) && |root.children| > 0
    ensures exists t :: IsRecordTag(Tags(root.children), t) && |records| >= multiset(Tags(root.children))[t] >= 1
  {
    var t :| IsRecordTag(Tags(root.children), t) && FlattensAll(FindAll(root, t), records);
    FindAllCoversChildren(root, t);
  }

  /** Two children with the same tag k: the record has the one column k, holding the
      later child's value ("second" after "first"). */
  lemma LastWriteWins(first: Element, second: Element, r: Record)
    requires first.tag == second.tag
    requires Flattens([first, second], r)
    ensures r.columns == [first.tag] && r.cells == map[first.tag := CellText(second)]
  {
    var k, cs := first.tag, [first, second];
    assert cs[..1] == [first] && [first][..0] == [];
    assert Tags(cs) == [k, k];
    assert r.cells[k] == CellText(second) by {
      assert LastOfTag(cs, 1);
    }
    assert r.columns == [k] by {
      assert FirstSeenOrder([k], Tags(cs));
      FirstSeenOrderUnique(r.columns, [k], Tags(cs));
    }
    assert r.cells.Keys == {k};
  }

  /** The search over a forest headed by e: e itself when tagged t, then its subtree, then
      the rest. */
  lemma IterAllCons(e: Element, rest: seq<Element>, t: string)
    ensures IterAll([e] + rest, t) == (if e.tag == t then [e] else []) + IterAll(e.children, t) + IterAll(rest, t)
  {
    assert ([e] + rest)[1..] == rest;
  }

  /** Childless elements that all carry tag t are found as they are. */
  lemma {:induction false} LeavesAreAllFound(cs: seq<Element>, t: string)
    requires forall c :: c in cs ==> c.tag == t && c.children == []
    ensures IterAll(cs, t) == cs
  {
    if |cs| > 0 {
      assert cs[0] in cs;
      LeavesAreAllFound(cs[1..], t);
    }
  }

  /** Selection looks at direct children only, extraction at all descendants: for children
      [item, item, group[item, item, item]] the record tag is item's, and all five items
      become records, the three nested ones included. */
  lemma NestedMatchesAreRecords(root: Element, item: Element, group: Element, records: seq<Record>)
    requires item.children == [] && group.tag != item.tag && group.children == [item, item, item]
    requires root.children == [item, item, group]
    requires Infers(root, records)
    ensures IsRecordTag(Tags(root.children), item.tag)
    ensures FlattensAll([item, item, item, item, item], records)
  {
    var ts := Tags(root.children);
    var t :| IsRecordTag(ts, t) && FlattensAll(FindAll(root, t), records);
    NestedRecordTag(root, item, group);
    RecordTagUnique(ts, t, item.tag);
    NestedFindAll(root, item, group);
  }

  lemma NestedRecordTag(root: Element, item: Element, group: Element)
    requires group.tag != item.tag && root.children == [item, item, group]
    ensures IsRecordTag(Tags(root.children), item.tag)
  {
    var ts := Tags(root.children);
    TagsAt(root.children);
    assert ts == [item.tag, item.tag, group.tag];
    assert multiset(ts)[item.tag] == 2 && multiset(ts)[group.tag] == 1;
  }

  lemma NestedFindAll(root: Element, item: Element, group: Element)
    requires item.children == [] && group.tag != item.tag && group.children == [item, item, item]
    requires root.children == [item, item, group]
    ensures FindAll(root, item.tag) == [item, item, item, item, item]
  {
    var t := item.tag;
    LeavesAreAllFound(group.children, t);
    IterAllCons(group, [], t);
    IterAllCons(item, [group], t);
    IterAllCons(item, [item, group], t);
    assert root.children == [item] + [item, group];
  }
}
