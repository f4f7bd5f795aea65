/** Properties that relate several calls of the fps strategies: the names the
    removes carry, the records the merges carry, the order of removes and adds,
    independence from `have`, and the dispatch and result shaping. */
module FpsProperties {
  import opened Wrappers
  import opened FpsXml
  import opened FpsConfig

  /** The `name` of every record, in order. */
  function RecordNames(recs: seq<FpRecord>): (names: seq<string>)
    ensures |names| == |recs|
  {
    if |recs| == 0 then [] else [recs[0].name] + RecordNames(recs[1..])
  }

  /** The `name` leaf of every fragment, in order ("" where a fragment has none). */
  function FragmentNames(frags: seq<Fp>): (names: seq<string>)
    ensures |names| == |frags|
  {
    if |frags| == 0 then [] else [Find(frags[0].leaves, NameTag).GetOr("")] + FragmentNames(frags[1..])
  }

  /** Every merge fragment read back as a record, in order. */
  function Records(frags: seq<Fp>): (recs: seq<FpRecord>)
    ensures |recs| == |frags|
  {
    if |frags| == 0 then [] else [ToRecord(frags[0])] + Records(frags[1..])
  }

  /** No fragment without an `operation` attribute precedes a remove fragment. */
  predicate RemovesFirst(frags: seq<Fp>) {
    forall i, j :: 0 <= i < j < |frags| && frags[i].operation.None? ==> frags[j].operation.None?
  }

  /** The names the remove fragments of `frags` delete. */
  function RemovedNames(frags: seq<Fp>): set<string> {
    set i | 0 <= i < |frags| && frags[i].operation == Some(RemoveOperation) :: Find(frags[i].leaves, NameTag).GetOr("")
  }

  function NameSet(recs: seq<FpRecord>): set<string> {
    set i | 0 <= i < |recs| :: recs[i].name
  }

  // ---------------------------------------------------------------------------
  // Names and records carried by the fragments

  /** A run of remove fragments names exactly the records it was built from, in order. */
  lemma {:induction false} RemovesNames(frags: seq<Fp>, recs: seq<FpRecord>)
    requires RemovesOf(frags, recs)
    ensures FragmentNames(frags) == RecordNames(recs)
  {
    if |recs| > 0 {
      assert IsRemoveOf(frags[0], recs[0].name);
      assert RemovesOf(frags[1..], recs[1..]) by {
        forall i | 0 <= i < |recs[1..]|
          ensures IsRemoveOf(frags[1..][i], recs[1..][i].name)
        {
          assert IsRemoveOf(frags[i + 1], recs[i + 1].name);
        }
      }
      RemovesNames(frags[1..], recs[1..]);
    }
  }

  /** A run of merge fragments reads back as exactly the records it was built from. */
  lemma {:induction false} AddsRecords(frags: seq<Fp>, recs: seq<FpRecord>)
    requires AddsOf(frags, recs)
    ensures Records(frags) == recs
  {
    if |recs| > 0 {
      AddRoundTrip(frags[0], recs[0]);
      assert AddsOf(frags[1..], recs[1..]) by {
        forall i | 0 <= i < |recs[1..]|
          ensures IsAddOf(frags[1..][i], recs[1..][i])
        {
          assert IsAddOf(frags[i + 1], recs[i + 1]);
        }
      }
      AddsRecords(frags[1..], recs[1..]);
    }
  }

  /** A merge fragment determines its record: reading it back gives the record. */
  lemma AddRoundTrip(f: Fp, r: FpRecord)
    requires IsAddOf(f, r)
    ensures ToRecord(f) == r
  {
  }

  /** With `want` empty, deleted removes the entries of `have`, by name, in `have`'s order. */
  lemma {:induction false} DeletedEverythingNames(have: seq<FpRecord>)
    ensures |StateDeleted([], have)| == |have|
    ensures FragmentNames(StateDeleted([], have)) == RecordNames(have)
  {
    RemovesNames(StateDeleted([], have), have);
  }

  /** With `want` non-empty, deleted removes the entries named in `want`, in
      `want`'s order and with repeats kept, whatever `have` holds. */
  lemma {:induction false} DeletedWantNames(want: seq<FpRecord>, have: seq<FpRecord>, other: seq<FpRecord>)
    requires |want| > 0
    ensures |StateDeleted(want, have)| == |want|
    ensures FragmentNames(StateDeleted(want, have)) == RecordNames(want)
    ensures StateDeleted(want, have) == StateDeleted(want, other)
  {
    RemovesNames(StateDeleted(want, have), want);
  }

  /** Merged carries `want` record for record, whatever `have` holds. */
  lemma MergedCarriesWant(want: seq<FpRecord>, have: seq<FpRecord>, other: seq<FpRecord>)
    ensures Records(StateMerged(want, have)) == want
    ensures FragmentNames(StateMerged(want, have)) == RecordNames(want)
    ensures StateMerged(want, have) == StateMerged(want, other)
  {
    AddsRecords(StateMerged(want, have), want);
    AddsNames(StateMerged(want, have), want);
  }

  lemma {:induction false} AddsNames(frags: seq<Fp>, recs: seq<FpRecord>)
    requires AddsOf(frags, recs)
    ensures FragmentNames(frags) == RecordNames(recs)
  {
    if |recs| > 0 {
      assert IsAddOf(frags[0], recs[0]);
      assert AddsOf(frags[1..], recs[1..]) by {
        forall i | 0 <= i < |recs[1..]|
          ensures IsAddOf(frags[1..][i], recs[1..][i])
        {
          assert IsAddOf(frags[i + 1], recs[i + 1]);
        }
      }
      AddsNames(frags[1..], recs[1..]);
    }
  }

  // ---------------------------------------------------------------------------
  // Replaced and overridden

  /** A block of removes followed by a block of adds keeps every remove first. */
  lemma RemovesThenAddsFirst(frags: seq<Fp>, k: nat, removes: seq<FpRecord>, adds: seq<FpRecord>)
    requires k <= |frags|
    requires RemovesOf(frags[..k], removes)
    requires AddsOf(frags[k..], adds)
    ensures RemovesFirst(frags)
  {
    BlockOperations(frags, k, removes, adds);
  }

  /** In a block of removes followed by a block of adds, the operation tells
      which block a position is in. */
  lemma BlockOperations(frags: seq<Fp>, k: nat, removes: seq<FpRecord>, adds: seq<FpRecord>)
    requires k <= |frags|
    requires RemovesOf(frags[..k], removes)
    requires AddsOf(frags[k..], adds)
    ensures forall i :: 0 <= i < k ==> frags[i].operation == Some(RemoveOperation)
    ensures forall i :: k <= i < |frags| ==> frags[i].operation.None?
  {
    forall i | 0 <= i < k
      ensures frags[i].operation == Some(RemoveOperation)
    {
      assert IsRemoveOf(frags[..k][i], removes[i].name);
    }
    forall i | k <= i < |frags|
      ensures frags[i].operation.None?
    {
      assert IsAddOf(frags[k..][i - k], adds[i - k]);
    }
  }

  /** Replaced: its removes name the delete targets in order, all precede the
      adds, and the adds carry `want` record for record. */
  lemma ReplacedShape(want: seq<FpRecord>, have: seq<FpRecord>)
    ensures var frags := StateReplaced(want, have);
      var k := |DeleteTargets(want, have)|;
      && RemovesFirst(frags)
      && FragmentNames(frags[..k]) == RecordNames(DeleteTargets(want, have))
      && Records(frags[k..]) == want
  {
    var frags := StateReplaced(want, have);
    var k := |DeleteTargets(want, have)|;
    RemovesThenAddsFirst(frags, k, DeleteTargets(want, have), want);
    RemovesNames(frags[..k], DeleteTargets(want, have));
    AddsRecords(frags[k..], want);
  }

  /** Overridden: the removes are exactly `have`'s entries, in order and as a
      set, whatever `want` is; they all precede the adds, which carry `want`. */
  lemma OverriddenShape(want: seq<FpRecord>, have: seq<FpRecord>)
    ensures var frags := StateOverridden(want, have);
      && RemovesFirst(frags)
      && FragmentNames(frags[..|have|]) == RecordNames(have)
      && RemovedNames(frags) == NameSet(have)
      && Records(frags[|have|..]) == want
  {
    var frags := StateOverridden(want, have);
    RemovesThenAddsFirst(frags, |have|, have, want);
    RemovesNames(frags[..|have|], have);
    AddsRecords(frags[|have|..], want);
    RemovedNamesOfBlocks(frags, have, want);
  }

  lemma RemovedNamesOfBlocks(frags: seq<Fp>, removes: seq<FpRecord>, adds: seq<FpRecord>)
    requires |removes| <= |frags|
    requires RemovesOf(frags[..|removes|], removes)
    requires AddsOf(frags[|removes|..], adds)
    ensures RemovedNames(frags) == NameSet(removes)
  {
    var k := |removes|;
    BlockOperations(frags, k, removes, adds);
    forall n | n in RemovedNames(frags)
      ensures n in NameSet(removes)
    {
      var i :| 0 <= i < |frags| && frags[i].operation == Some(RemoveOperation)
        && Find(frags[i].leaves, NameTag).GetOr("") == n;
      assert IsRemoveOf(frags[..k][i], removes[i].name);
    }
    forall n | n in NameSet(removes)
      ensures n in RemovedNames(frags)
    {
      var i :| 0 <= i < k && removes[i].name == n;
      assert IsRemoveOf(frags[..k][i], removes[i].name);
      assert frags[i] == frags[..k][i];
    }
  }

  // ---------------------------------------------------------------------------
  // Dispatch and result

  /** Each state name selects its own strategy and parses back to it, so no two
      names share a strategy. */
  lemma StateOfRoundTrip(st: State)
    ensures StateOf(StateName(st)) == Some(st)
  {
  }

  /** When the facts after the edit equal those before and the diff helper
      reports identical lists as not different, the module reports no change
      and omits `after`. */
  lemma UnchangedFactsReportNoChange(
    xml: seq<FpsRoot>, facts: seq<FpRecord>,
    isDiff: (seq<FpRecord>, seq<FpRecord>) -> bool)
    requires !isDiff(facts, facts)
    ensures !ShapeResult(xml, facts, facts, isDiff).changed
    ensures ShapeResult(xml, facts, facts, isDiff).after == None
  {
  }

  // ---------------------------------------------------------------------------
  // Worked scenarios

  /** Merging a record with both optional fields set yields one fragment with
      all three leaves, in the order name, logical-port, fd-name. */
  lemma MergedFullRecordScenario()
    ensures StateMerged([FpRecord("fp1", "1/1", "fd1")], []) ==
      [Fp(None, [Leaf(NameTag, "fp1"), Leaf(LogicalPortTag, "1/1"), Leaf(FdNameTag, "fd1")])]
  {
    var r := FpRecord("fp1", "1/1", "fd1");
    assert AddFragment(r).leaves == [Leaf(NameTag, "fp1"), Leaf(LogicalPortTag, "1/1"), Leaf(FdNameTag, "fd1")];
    assert StateMerged([r], []) == [AddFragment(r)];
  }

  /** An empty logical-port is omitted from the merge fragment entirely. */
  lemma MergedEmptyFieldScenario()
    ensures StateMerged([FpRecord("fp2", "", "fd2")], []) ==
      [Fp(None, [Leaf(NameTag, "fp2"), Leaf(FdNameTag, "fd2")])]
  {
    var r := FpRecord("fp2", "", "fd2");
    assert AddFragment(r).leaves == [Leaf(NameTag, "fp2"), Leaf(FdNameTag, "fd2")];
    assert StateMerged([r], []) == [AddFragment(r)];
  }

  /** Deleting with no targets removes the one configured entry by name. */
  lemma DeletedAllScenario()
    ensures StateDeleted([], [FpRecord("fp1", "1/1", "fd1")]) ==
      [Fp(Some(RemoveOperation), [Leaf(NameTag, "fp1")])]
  {
  }
}
