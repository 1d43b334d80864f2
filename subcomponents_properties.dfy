/**
 * What `createSubcomponent` and `removeSubcomponent` do to the registry, proved
 * about the step-by-step effects defined in SubcomponentsSpec.
 */
module SubcomponentsProperties {
  import opened SubcomponentsSpec

  // ---------------------------------------------------------------------------
  // indexOf followed by splice(_, 1)
  // ---------------------------------------------------------------------------

  /** Removing a node that is present drops its first occurrence and keeps the rest in order. */
  lemma RemoveOnePresent<N>(s: seq<N>, x: N)
    requires x in s
    ensures RemoveOne(s, x) == s[..IndexOf(s, x)] + s[IndexOf(s, x) + 1..]
  {
    assert SpliceOne(s, IndexOf(s, x)) == s[..IndexOf(s, x)] + s[IndexOf(s, x) + 1..];
  }

  /** Removing a node that is present takes away exactly one copy of it. */
  lemma RemoveOneCount<N>(s: seq<N>, x: N)
    requires x in s
    ensures multiset(RemoveOne(s, x)) == multiset(s) - multiset{x}
  {
    RemoveOnePresent(s, x);
    var i := IndexOf(s, x);
    var left, right := s[..i], s[i + 1..];
    assert s == left + [x] + right;
    assert multiset(s) == multiset(left) + multiset{x} + multiset(right);
  }

  /**
   * Removing a node that is absent drops the LAST element: indexOf gives -1 and
   * splice(-1, 1) counts from the end.
   */
  lemma RemoveOneAbsent<N>(s: seq<N>, x: N)
    requires x !in s
    ensures s != [] ==> RemoveOne(s, x) == s[..|s| - 1]
    ensures s == [] ==> RemoveOne(s, x) == []
  {
    assert IndexOf(s, x) == -1;
  }

  /** A node other than the removed one keeps its place in the list. */
  lemma RemoveOneKeepsOthers<N>(s: seq<N>, x: N, y: N)
    requires x in s && y in s && y != x
    ensures y in RemoveOne(s, x)
  {
    RemoveOneCount(s, x);
    assert multiset(s)[y] > 0;
    assert multiset(RemoveOne(s, x))[y] == multiset(s)[y];
  }

  // ---------------------------------------------------------------------------
  // The loop of createSubcomponent
  // ---------------------------------------------------------------------------

  /** After the loop every visited node carries the chosen index and its colour; the others are untouched. */
  lemma {:induction false} MoveAllTags<N, L>(t: Table<N, L>, i: nat, ns: seq<N>)
    requires i < |t.records|
    ensures forall n :: TagOf(MoveAll(t, i, ns), n) == if n in ns then Some(i) else TagOf(t, n)
    ensures forall n :: ClassOf(MoveAll(t, i, ns), n) == if n in ns then Some(ColorOf(i)) else ClassOf(t, n)
    decreases |ns|
  {
    if |ns| > 0 {
      var pre := ns[..|ns| - 1];
      MoveAllTags(t, i, pre);
      assert ns == pre + [ns[|ns| - 1]];
    }
  }

  /** The loop never splices the record it fills, so that record ends as its old nodes followed by `ns`. */
  lemma {:induction false} MoveAllFillsSlot<N, L>(t: Table<N, L>, i: nat, ns: seq<N>)
    requires i < |t.records|
    ensures MoveAll(t, i, ns).records[i] == t.records[i].(nodes := t.records[i].nodes + ns)
    decreases |ns|
  {
    if |ns| > 0 {
      var pre := ns[..|ns| - 1];
      MoveAllFillsSlot(t, i, pre);
      assert ns == pre + [ns[|ns| - 1]];
    }
  }

  /**
   * A record other than the filled one changes only if some visited node was
   * tagged with its index beforehand; record 0 never changes, because a tag of
   * 0 is falsy and the loop does not splice it.
   */
  lemma {:induction false} MoveAllFrame<N, L>(t: Table<N, L>, i: nat, ns: seq<N>, j: nat)
    requires i < |t.records| && j < |t.records| && j != i
    requires j == 0 || forall n :: n in ns ==> TagOf(t, n) != Some(j)
    ensures MoveAll(t, i, ns).records[j] == t.records[j]
    decreases |ns|
  {
    if |ns| > 0 {
      var pre := ns[..|ns| - 1];
      var x := ns[|ns| - 1];
      MoveAllFrame(t, i, pre, j);
      MoveAllTags(t, i, pre);
      var p := MoveAll(t, i, pre);
      if SplicesOld(p, i, x) {
        assert TagOf(p, x) == TagOf(t, x);
        assert x in ns;
      }
    }
  }

  /** Taking one more listed element away from what remains after removing the elements of `s`. */
  lemma MultisetTakeOne<N>(m: multiset<N>, s: set<N>, x: N)
    requires x !in s && m[x] > 0
    ensures x in m - multiset(s)
    ensures (m - multiset(s)) - multiset{x} == m - multiset(s + {x})
  {
    assert multiset(s + {x}) == multiset(s) + multiset{x};
  }

  /** The given nodes whose tag named record `k` beforehand, each counted once. */
  ghost function TaggedWith<N, L>(t: Table<N, L>, ns: seq<N>, k: nat): set<N>
  {
    set n | n in ns && TagOf(t, n) == Some(k)
  }

  /** Visiting one more node adds it to the tagged nodes when it is new and was tagged `k`. */
  lemma TaggedWithSnoc<N, L>(t: Table<N, L>, pre: seq<N>, x: N, k: nat)
    ensures TaggedWith(t, pre + [x], k) ==
      if x !in pre && TagOf(t, x) == Some(k) then TaggedWith(t, pre, k) + {x} else TaggedWith(t, pre, k)
  {
    assert forall n :: n in pre + [x] <==> n in pre || n == x;
  }

  /**
   * A record other than record 0 and the filled one loses exactly one copy of
   * each visited node that was tagged with its index, provided it listed them.
   */
  lemma {:induction false} MoveAllTakesTagged<N, L>(t: Table<N, L>, i: nat, ns: seq<N>, k: nat)
    requires i < |t.records| && 0 < k < |t.records| && k != i
    requires forall n :: n in ns && TagOf(t, n) == Some(k) ==> n in t.records[k].nodes
    ensures multiset(MoveAll(t, i, ns).records[k].nodes) ==
            multiset(t.records[k].nodes) - multiset(TaggedWith(t, ns, k))
    decreases |ns|
  {
    if |ns| == 0 {
      assert TaggedWith(t, ns, k) == {};
    } else {
      var pre := ns[..|ns| - 1];
      var x := ns[|ns| - 1];
      assert ns == pre + [x];
      TaggedWithSnoc(t, pre, x, k);
      MoveAllTakesTagged(t, i, pre, k);
      var p := MoveAll(t, i, pre);
      assert MoveAll(t, i, ns) == MoveStep(p, i, x);
      var before := p.records[k].nodes;
      var after := MoveStep(p, i, x).records[k].nodes;
      if x !in pre && TagOf(t, x) == Some(k) {
        assert after == RemoveOne(before, x) by { MoveAllTags(t, i, pre); }
        MultisetTakeOne(multiset(t.records[k].nodes), TaggedWith(t, pre, k), x);
        RemoveOneCount(before, x);
      } else {
        assert after == before by { MoveAllTags(t, i, pre); }
      }
    }
  }

  // ---------------------------------------------------------------------------
  // createSubcomponent
  // ---------------------------------------------------------------------------

  /**
   * An empty node collection changes nothing; otherwise the registry grows by
   * one record exactly when no existing record is reusable, and never shrinks.
   */
  lemma CreateGrowth<N, L>(t: Table<N, L>, nodes: seq<N>, layout: L)
    ensures |nodes| == 0 ==> Create(t, nodes, layout) == t
    ensures |nodes| > 0 && ChosenSlot(t, nodes) < |t.records| ==>
      |Create(t, nodes, layout).records| == |t.records|
    ensures |nodes| > 0 && ChosenSlot(t, nodes) == |t.records| ==>
      |Create(t, nodes, layout).records| == |t.records| + 1 &&
      forall j :: 0 <= j < |t.records| ==> !Reusable(t.records[j], nodes)
  {
  }

  /**
   * The chosen record ends as exactly the given nodes, in order, with the given
   * layout; every given node is tagged with the chosen index and coloured with
   * its palette entry, and every other node keeps its tag and class.
   */
  lemma CreatePlacesNodes<N, L>(t: Table<N, L>, nodes: seq<N>, layout: L)
    requires |nodes| > 0
    ensures ChosenSlot(t, nodes) < |Create(t, nodes, layout).records|
    ensures Create(t, nodes, layout).records[ChosenSlot(t, nodes)] == Subcomponent(nodes, layout)
    ensures forall n :: n in nodes ==>
      TagOf(Create(t, nodes, layout), n) == Some(ChosenSlot(t, nodes)) &&
      ClassOf(Create(t, nodes, layout), n) == Some(ColorOf(ChosenSlot(t, nodes)))
    ensures forall n :: n !in nodes ==>
      TagOf(Create(t, nodes, layout), n) == TagOf(t, n) &&
      ClassOf(Create(t, nodes, layout), n) == ClassOf(t, n)
  {
    var i := ChosenSlot(t, nodes);
    var s := Reset(t, nodes, layout);
    assert Create(t, nodes, layout) == MoveAll(s, i, nodes);
    MoveAllFillsSlot(s, i, nodes);
    MoveAllTags(s, i, nodes);
    assert s.records[i] == Subcomponent([], layout);
    assert s.tags == t.tags && s.classes == t.classes;
  }

  /**
   * A record that is not the chosen one is unchanged unless one of the given
   * nodes was tagged with its index.
   */
  lemma CreateFrame<N, L>(t: Table<N, L>, nodes: seq<N>, layout: L, j: nat)
    requires |nodes| > 0 && j < |t.records| && j != ChosenSlot(t, nodes)
    requires forall n :: n in nodes ==> TagOf(t, n) != Some(j)
    ensures Create(t, nodes, layout).records[j] == t.records[j]
  {
    MoveAllFrame(Reset(t, nodes, layout), ChosenSlot(t, nodes), nodes, j);
  }

  /**
   * From a consistent registry, a record other than record 0 and the chosen
   * one loses exactly the given nodes that were tagged with its index, one
   * copy each: the splice never drops an unrelated last node.
   */
  lemma CreateTakesTagged<N, L>(t: Table<N, L>, nodes: seq<N>, layout: L, k: nat)
    requires Consistent(t) && 0 < k < |t.records| && k != ChosenSlot(t, nodes)
    ensures multiset(Create(t, nodes, layout).records[k].nodes) ==
            multiset(t.records[k].nodes) - multiset(TaggedWith(t, nodes, k))
  {
    if |nodes| == 0 {
      assert TaggedWith(t, nodes, k) == {};
    } else {
      var s := Reset(t, nodes, layout);
      assert s.records[k] == t.records[k] && s.tags == t.tags;
      assert TaggedWith(s, nodes, k) == TaggedWith(t, nodes, k);
      MoveAllTakesTagged(s, ChosenSlot(t, nodes), nodes, k);
    }
  }

  /**
   * The palette is read in order for the first 14 records and then repeats;
   * records 9 and 10 share a colour, since the palette lists one class twice.
   */
  lemma PaletteRepeats(index: nat)
    ensures ColorOf(index + |Colors|) == ColorOf(index)
    ensures ColorOf(9) == ColorOf(10)
  {
    assert Colors[9] == Colors[10];
    assert (index + 14) % 14 == index % 14;
  }

  /**
   * Record 0 is never spliced: unless it is the chosen record, it keeps all its
   * nodes, even those that move to the new record.
   */
  lemma CreateKeepsRecordZero<N, L>(t: Table<N, L>, nodes: seq<N>, layout: L)
    requires 0 < |t.records| && ChosenSlot(t, nodes) != 0
    ensures Create(t, nodes, layout).records[0] == t.records[0]
  {
    if |nodes| > 0 {
      MoveAllFrame(Reset(t, nodes, layout), ChosenSlot(t, nodes), nodes, 0);
    }
  }

  /**
   * The falsy tag 0 at work: node 1 moves from record 0 to a new record 1 but
   * stays listed in record 0.
   */
  lemma StaleEntryInRecordZero(t: Table<int, int>)
    requires t == Table([Subcomponent([1, 2], 10)], map[1 := Some(0), 2 := Some(0)], map[])
    ensures Create(t, [1], 20).records == [Subcomponent([1, 2], 10), Subcomponent([1], 20)]
    ensures TagOf(Create(t, [1], 20), 1) == Some(1)
  {
    assert !Reusable(t.records[0], [1]) by { assert 2 in t.records[0].nodes; }
    assert ChosenSlot(t, [1]) == 1;
    var s := Reset(t, [1], 20);
    assert s.records == [Subcomponent([1, 2], 10), Subcomponent([], 20)];
    assert [1][..0] == [];
    assert MoveAll(s, 1, [1]) == MoveStep(s, 1, 1);
    assert !SplicesOld(s, 1, 1);
    assert s.records[1].nodes + [1] == [1];
    assert MoveStep(s, 1, 1).records == [Subcomponent([1, 2], 10), Subcomponent([1], 20)];
    assert Create(t, [1], 20) == MoveAll(s, 1, [1]);
  }

  /**
   * The same move out of record 1 instead splices node 1 out of its old record;
   * here the empty record 0 is the first reusable one and is filled.
   */
  lemma MoveOutOfRecordOne(t: Table<int, int>)
    requires t == Table([Subcomponent([], 10), Subcomponent([1, 2], 11)],
                        map[1 := Some(1), 2 := Some(1)], map[])
    ensures Create(t, [1], 20).records == [Subcomponent([1], 20), Subcomponent([2], 11)]
    ensures TagOf(Create(t, [1], 20), 1) == Some(0)
  {
    assert ChosenSlot(t, [1]) == 0;
    var s := Reset(t, [1], 20);
    assert s.records == [Subcomponent([], 20), Subcomponent([1, 2], 11)];
    assert [1][..0] == [];
    assert Create(t, [1], 20) == MoveStep(s, 0, 1);
    assert SplicesOld(s, 0, 1);
    assert IndexOf([1, 2], 1) == 0;
    assert RemoveOne([1, 2], 1) == [2];
    assert s.records[0].nodes + [1] == [1];
  }

  // ---------------------------------------------------------------------------
  // removeSubcomponent
  // ---------------------------------------------------------------------------

  /**
   * A run that completes leaves every given node with tag null, gives the empty
   * class to those that had a tag (the others are skipped), and leaves every
   * other node alone.
   */
  lemma {:induction false} RemoveAllTags<N, L>(t: Table<N, L>, ns: seq<N>)
    ensures !RemoveAll(t, ns).thrown ==>
      forall n :: TagOf(RemoveAll(t, ns).table, n) == if n in ns then None else TagOf(t, n)
    ensures !RemoveAll(t, ns).thrown ==>
      forall n :: ClassOf(RemoveAll(t, ns).table, n) ==
        if n in ns && TagOf(t, n).Some? then Some("") else ClassOf(t, n)
    decreases |ns|
  {
    if |ns| > 0 {
      var pre := ns[..|ns| - 1];
      RemoveAllTags(t, pre);
      assert ns == pre + [ns[|ns| - 1]];
    }
  }

  /** The loop throws exactly when some given node is tagged with an index past the end. */
  lemma {:induction false} RemoveThrowsIff<N, L>(t: Table<N, L>, ns: seq<N>)
    ensures RemoveAll(t, ns).thrown <==> exists n :: n in ns && TagOutOfRange(t, n)
    decreases |ns|
  {
    if |ns| > 0 {
      var pre := ns[..|ns| - 1];
      var x := ns[|ns| - 1];
      RemoveThrowsIff(t, pre);
      RemoveAllTags(t, pre);
      assert ns == pre + [x];
      var p := RemoveAll(t, pre);
      if !p.thrown && RemoveAll(t, ns).thrown {
        assert TagOutOfRange(t, x);
      }
      if RemoveAll(t, ns).thrown {
        if p.thrown {
          var n :| n in pre && TagOutOfRange(t, n);
          assert n in ns;
        }
      } else {
        forall n | n in ns
          ensures !TagOutOfRange(t, n)
        {
          if n != x { assert n in pre; }
        }
      }
    }
  }

  /** Once the loop has thrown, the nodes after the failing one are not visited. */
  lemma {:induction false} RemoveAllStopsAtThrow<N, L>(t: Table<N, L>, ns: seq<N>, k: nat)
    requires k <= |ns| && RemoveAll(t, ns[..k]).thrown
    ensures RemoveAll(t, ns) == RemoveAll(t, ns[..k])
    decreases |ns| - k
  {
    if k < |ns| {
      assert ns[..k + 1][..k] == ns[..k];
      RemoveAllStopsAtThrow(t, ns, k + 1);
    } else {
      assert ns[..k] == ns;
    }
  }

  /** With every tag in range the loop never throws. */
  lemma RemoveNeverThrowsInRange<N, L>(t: Table<N, L>, ns: seq<N>)
    requires TagsInRange(t)
    ensures !RemoveAll(t, ns).thrown
  {
    RemoveThrowsIff(t, ns);
  }

  /**
   * Only the record named by a node's tag is touched: a record that no given
   * node was tagged with keeps all its nodes, even given nodes it still lists.
   */
  lemma {:induction false} RemoveOnlyTouchesTaggedRecords<N, L>(t: Table<N, L>, ns: seq<N>, j: nat)
    requires j < |t.records|
    requires forall n :: n in ns ==> TagOf(t, n) != Some(j)
    ensures RemoveAll(t, ns).table.records[j] == t.records[j]
    decreases |ns|
  {
    if |ns| > 0 {
      var pre := ns[..|ns| - 1];
      var x := ns[|ns| - 1];
      RemoveOnlyTouchesTaggedRecords(t, pre, j);
      RemoveAllTags(t, pre);
      assert x in ns;
    }
  }

  /** The tagged record loses one occurrence of the node, whatever its index, 0 included. */
  lemma RemoveStepDropsNode<N, L>(t: Table<N, L>, node: N, k: nat)
    requires TagOf(t, node) == Some(k) && k < |t.records| && node in t.records[k].nodes
    ensures !RemoveStep(t, node).thrown
    ensures multiset(RemoveStep(t, node).table.records[k].nodes) ==
            multiset(t.records[k].nodes) - multiset{node}
    ensures RemoveStep(t, node).table.records[k].layout == t.records[k].layout
  {
    RemoveOneCount(t.records[k].nodes, node);
  }

  /**
   * In a run that completes, a record loses exactly one copy of each given node
   * that was tagged with its index, record 0 included, provided it listed them.
   */
  lemma {:induction false} RemoveAllTakesTagged<N, L>(t: Table<N, L>, ns: seq<N>, k: nat)
    requires k < |t.records| && !RemoveAll(t, ns).thrown
    requires forall n :: n in ns && TagOf(t, n) == Some(k) ==> n in t.records[k].nodes
    ensures multiset(RemoveAll(t, ns).table.records[k].nodes) ==
            multiset(t.records[k].nodes) - multiset(TaggedWith(t, ns, k))
    decreases |ns|
  {
    if |ns| == 0 {
      assert TaggedWith(t, ns, k) == {};
    } else {
      var pre := ns[..|ns| - 1];
      var x := ns[|ns| - 1];
      assert ns == pre + [x];
      TaggedWithSnoc(t, pre, x, k);
      var p := RemoveAll(t, pre);
      assert !p.thrown && RemoveAll(t, ns) == RemoveStep(p.table, x);
      RemoveAllTakesTagged(t, pre, k);
      var before := p.table.records[k].nodes;
      var after := RemoveStep(p.table, x).table.records[k].nodes;
      if x !in pre && TagOf(t, x) == Some(k) {
        assert after == RemoveOne(before, x) by { RemoveAllTags(t, pre); }
        MultisetTakeOne(multiset(t.records[k].nodes), TaggedWith(t, pre, k), x);
        RemoveOneCount(before, x);
      } else {
        assert after == before by { RemoveAllTags(t, pre); }
      }
    }
  }

  /**
   * From a consistent registry, every record loses exactly the given nodes
   * that were tagged with its index, one copy each: the splice never drops an
   * unrelated last node.
   */
  lemma RemoveFromConsistentTakesTagged<N, L>(t: Table<N, L>, ns: seq<N>, k: nat)
    requires Consistent(t) && k < |t.records|
    ensures multiset(RemoveAll(t, ns).table.records[k].nodes) ==
            multiset(t.records[k].nodes) - multiset(TaggedWith(t, ns, k))
  {
    RemovePreservesConsistent(t, ns);
    RemoveAllTakesTagged(t, ns, k);
  }

  /**
   * Not "every subcomponent": node 1, tagged 1 but also still listed in
   * record 0, is removed from record 1 only.
   */
  lemma RemoveLeavesOtherRecords(t: Table<int, int>)
    requires t == Table([Subcomponent([1], 10), Subcomponent([1], 11)], map[1 := Some(1)], map[])
    ensures !RemoveAll(t, [1]).thrown
    ensures RemoveAll(t, [1]).table.records == [Subcomponent([1], 10), Subcomponent([], 11)]
    ensures TagOf(RemoveAll(t, [1]).table, 1) == None
  {
    assert [1][..0] == [];
    assert IndexOf([1], 1) == 0;
    assert RemoveOne([1], 1) == [];
    assert RemoveAll(t, [1]) == RemoveStep(t, 1);
  }

  // ---------------------------------------------------------------------------
  // The registry invariant
  // ---------------------------------------------------------------------------

  /** `Consistent`, except that nodes still to be visited may be tagged `i` without being listed there. */
  ghost predicate ConsistentExcept<N, L>(t: Table<N, L>, i: nat, pending: seq<N>)
  {
    forall n :: n in t.tags && t.tags[n].Some? ==>
      t.tags[n].value < |t.records| &&
      (n in t.records[t.tags[n].value].nodes || (t.tags[n].value == i && n in pending))
  }

  /** One step of the loop moves `x` from the pending nodes into the relaxed invariant's proper part. */
  lemma MoveStepConsistent<N, L>(t: Table<N, L>, i: nat, x: N, rest: seq<N>)
    requires i < |t.records|
    requires ConsistentExcept(t, i, [x] + rest)
    ensures ConsistentExcept(MoveStep(t, i, x), i, rest)
  {
    var r := MoveStep(t, i, x);
    forall m | m in r.tags && r.tags[m].Some?
      ensures r.tags[m].value < |r.records|
      ensures m in r.records[r.tags[m].value].nodes || (r.tags[m].value == i && m in rest)
    {
      if m != x {
        var k := r.tags[m].value;
        assert m in t.tags && t.tags[m] == r.tags[m];
        if m in t.records[k].nodes && SplicesOld(t, i, x) && TagOf(t, x).value == k {
          assert x in t.records[k].nodes;
          RemoveOneKeepsOthers(t.records[k].nodes, x, m);
        }
      }
    }
  }

  /** The whole loop over `ns` keeps the relaxed invariant, leaving only `rest` pending. */
  lemma {:induction false} MoveAllConsistent<N, L>(t: Table<N, L>, i: nat, ns: seq<N>, rest: seq<N>)
    requires i < |t.records|
    requires ConsistentExcept(t, i, ns + rest)
    ensures ConsistentExcept(MoveAll(t, i, ns), i, rest)
    decreases |ns|
  {
    if |ns| > 0 {
      var pre := ns[..|ns| - 1];
      var x := ns[|ns| - 1];
      assert ns + rest == pre + ([x] + rest);
      MoveAllConsistent(t, i, pre, [x] + rest);
      MoveStepConsistent(MoveAll(t, i, pre), i, x, rest);
    }
  }

  /** `createSubcomponent` keeps the registry consistent. */
  lemma CreatePreservesConsistent<N, L>(t: Table<N, L>, nodes: seq<N>, layout: L)
    requires Consistent(t)
    ensures Consistent(Create(t, nodes, layout))
  {
    if |nodes| > 0 {
      var i := ChosenSlot(t, nodes);
      var s := Reset(t, nodes, layout);
      forall m | m in s.tags && s.tags[m].Some?
        ensures s.tags[m].value < |s.records|
        ensures m in s.records[s.tags[m].value].nodes || (s.tags[m].value == i && m in nodes)
      {
        var k := s.tags[m].value;
        assert m in t.records[k].nodes;
        if k == i {
          assert Reusable(t.records[i], nodes);
        }
      }
      assert nodes + [] == nodes;
      MoveAllConsistent(s, i, nodes, []);
    }
  }

  /** `removeSubcomponent` keeps the registry consistent and, on it, never throws. */
  lemma {:induction false} RemovePreservesConsistent<N, L>(t: Table<N, L>, ns: seq<N>)
    requires Consistent(t)
    ensures !RemoveAll(t, ns).thrown
    ensures Consistent(RemoveAll(t, ns).table)
    decreases |ns|
  {
    if |ns| > 0 {
      var pre := ns[..|ns| - 1];
      var x := ns[|ns| - 1];
      RemovePreservesConsistent(t, pre);
      var p := RemoveAll(t, pre).table;
      var r := RemoveStep(p, x).table;
      forall m | m in r.tags && r.tags[m].Some?
        ensures r.tags[m].value < |r.records| && m in r.records[r.tags[m].value].nodes
      {
        var k := r.tags[m].value;
        if TagOf(p, x).Some? && TagOf(p, x).value == k {
          RemoveOneKeepsOthers(p.records[k].nodes, x, m);
        }
      }
    }
  }
}
