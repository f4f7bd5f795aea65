/** The flexible-port ("fps") config class: the four reconciliation strategies,
    the state dispatch that appends their fragments under one `<fps>` root, and
    the shaping of the module result. */
module FpsConfig {
  import opened Wrappers
  import opened FpsXml

  /** One flexible-port entry of `want` or `have`. The empty string stands for an
      absent optional field, so every record has both optional keys. */
  datatype FpRecord = FpRecord(name: string, logicalPort: string, fdName: string)

  /** The four values of the module's `state` parameter. */
  datatype State = Merged | Replaced | Overridden | Deleted

  function StateName(st: State): string {
    match st
    case Merged => "merged"
    case Replaced => "replaced"
    case Overridden => "overridden"
    case Deleted => "deleted"
  }

  /** Parses the `state` parameter; any string that is not one of the four names
      selects no strategy. */
  function StateOf(s: string): (r: Option<State>)
    ensures r.Some? ==> StateName(r.value) == s
    ensures r.None? ==> forall st :: StateName(st) != s
  {
    if s == "overridden" then Some(Overridden)
    else if s == "deleted" then Some(Deleted)
    else if s == "merged" then Some(Merged)
    else if s == "replaced" then Some(Replaced)
    else None
  }

  // ---------------------------------------------------------------------------
  // Single fragments

  /** An `<fp>` element that deletes the entry called `name`: the `remove`
      operation and a single `name` leaf, nothing else. */
  predicate IsRemoveOf(f: Fp, name: string) {
    f.operation == Some(RemoveOperation) && f.leaves == [Leaf(NameTag, name)]
  }

  /** An `<fp>` element that merges record `r`: no operation attribute, the
      name leaf, and each optional leaf exactly when `r`'s field is non-empty,
      carrying that field's text. No other leaf appears, and no tag appears twice. */
  predicate IsAddOf(f: Fp, r: FpRecord) {
    && f.operation.None?
    && Find(f.leaves, NameTag) == Some(r.name)
    && Find(f.leaves, LogicalPortTag) == (if r.logicalPort == "" then None else Some(r.logicalPort))
    && Find(f.leaves, FdNameTag) == (if r.fdName == "" then None else Some(r.fdName))
    && (forall i :: 0 <= i < |f.leaves| ==> f.leaves[i].tag in {NameTag, LogicalPortTag, FdNameTag})
    && (forall i, j :: 0 <= i < j < |f.leaves| ==> f.leaves[i].tag != f.leaves[j].tag)
  }

  /** Reads a merge fragment back as a record: an absent optional leaf reads as "". */
  function ToRecord(f: Fp): FpRecord {
    FpRecord(Find(f.leaves, NameTag).GetOr(""),
             Find(f.leaves, LogicalPortTag).GetOr(""),
             Find(f.leaves, FdNameTag).GetOr(""))
  }

  /** The fragment `_state_deleted` builds for one record. */
  function RemoveFragment(r: FpRecord): (f: Fp)
    ensures IsRemoveOf(f, r.name)
    ensures Find(f.leaves, LogicalPortTag).None? && Find(f.leaves, FdNameTag).None?
  {
    Fp(Some(RemoveOperation), [Leaf(NameTag, r.name)])
  }

  /** Lookups in a leaf list `name`, then optional logical-port, then optional fd-name. */
  lemma AddLeavesLookup(name: string, lp: seq<Leaf>, fd: seq<Leaf>)
    requires lp == [] || (|lp| == 1 && lp[0].tag == LogicalPortTag)
    requires fd == [] || (|fd| == 1 && fd[0].tag == FdNameTag)
    ensures var leaves := [Leaf(NameTag, name)] + (lp + fd);
      && Find(leaves, NameTag) == Some(name)
      && Find(leaves, LogicalPortTag) == (if lp == [] then None else Some(lp[0].text))
      && Find(leaves, FdNameTag) == (if fd == [] then None else Some(fd[0].text))
  {
    var tail := lp + fd;
    FindCons(Leaf(NameTag, name), tail, LogicalPortTag);
    FindCons(Leaf(NameTag, name), tail, FdNameTag);
    if lp != [] {
      assert tail == [lp[0]] + fd;
      FindCons(lp[0], fd, FdNameTag);
    }
    if fd != [] {
      assert fd == [fd[0]] + [];
      FindCons(fd[0], [], FdNameTag);
    }
  }

  /** The fragment `_state_merged` builds for one record. */
  function AddFragment(r: FpRecord): (f: Fp)
    ensures IsAddOf(f, r)
    ensures ToRecord(f) == r
    ensures f.leaves[0] == Leaf(NameTag, r.name)
  {
    var lp := if r.logicalPort != "" then [Leaf(LogicalPortTag, r.logicalPort)] else [];
    var fd := if r.fdName != "" then [Leaf(FdNameTag, r.fdName)] else [];
    var leaves := [Leaf(NameTag, r.name)] + (lp + fd);
    AddLeavesLookup(r.name, lp, fd);
    Fp(None, leaves)
  }

  // ---------------------------------------------------------------------------
  // The four strategies

  /** One remove fragment per record, in the records' order. */
  function RemoveAll(recs: seq<FpRecord>): (frags: seq<Fp>)
    ensures |frags| == |recs|
    ensures forall i :: 0 <= i < |recs| ==> frags[i] == RemoveFragment(recs[i])
  {
    if |recs| == 0 then [] else [RemoveFragment(recs[0])] + RemoveAll(recs[1..])
  }

  /** One merge fragment per record, in the records' order. */
  function AddAll(recs: seq<FpRecord>): (frags: seq<Fp>)
    ensures |frags| == |recs|
    ensures forall i :: 0 <= i < |recs| ==> frags[i] == AddFragment(recs[i])
  {
    if |recs| == 0 then [] else [AddFragment(recs[0])] + AddAll(recs[1..])
  }

  /** `frags` removes the entries named by `recs`, one fragment each, in order. */
  predicate RemovesOf(frags: seq<Fp>, recs: seq<FpRecord>) {
    |frags| == |recs| && forall i :: 0 <= i < |recs| ==> IsRemoveOf(frags[i], recs[i].name)
  }

  /** `frags` merges the records `recs`, one fragment each, in order. */
  predicate AddsOf(frags: seq<Fp>, recs: seq<FpRecord>) {
    |frags| == |recs| && forall i :: 0 <= i < |recs| ==> IsAddOf(frags[i], recs[i])
  }

  /** The records `_state_deleted` walks: `want`, or all of `have` when `want` is empty. */
  function DeleteTargets(want: seq<FpRecord>, have: seq<FpRecord>): seq<FpRecord> {
    if |want| == 0 then have else want
  }

  /** `_state_deleted`: remove the entries named in `want`, or every entry of
      `have` when `want` is empty. */
  function StateDeleted(want: seq<FpRecord>, have: seq<FpRecord>): (frags: seq<Fp>)
    ensures |want| == 0 ==> RemovesOf(frags, have)
    ensures |want| > 0 ==> RemovesOf(frags, want)
  {
    RemoveAll(DeleteTargets(want, have))
  }

  /** `_state_merged`: one merge fragment per `want` record; `have` is not consulted. */
  function StateMerged(want: seq<FpRecord>, have: seq<FpRecord>): (frags: seq<Fp>)
    ensures AddsOf(frags, want)
  {
    AddAll(want)
  }

  /** `_state_replaced`: the deleted fragments followed by the merged ones. */
  function StateReplaced(want: seq<FpRecord>, have: seq<FpRecord>): (frags: seq<Fp>)
    ensures |want| > 0 ==> |frags| == 2 * |want|
    ensures |want| == 0 ==> |frags| == |have|
    ensures var k := |DeleteTargets(want, have)|;
      && k <= |frags|
      && RemovesOf(frags[..k], DeleteTargets(want, have))
      && AddsOf(frags[k..], want)
  {
    var removes := StateDeleted(want, have);
    var adds := StateMerged(want, have);
    assert (removes + adds)[..|removes|] == removes;
    assert (removes + adds)[|removes|..] == adds;
    removes + adds
  }

  /** `_state_overridden`: remove every entry of `have`, whatever `want` is,
      then merge every `want` record. */
  function StateOverridden(want: seq<FpRecord>, have: seq<FpRecord>): (frags: seq<Fp>)
    ensures |frags| == |have| + |want|
    ensures RemovesOf(frags[..|have|], have)
    ensures AddsOf(frags[|have|..], want)
  {
    var removes := StateDeleted(have, have);
    var adds := StateMerged(want, have);
    assert (removes + adds)[..|removes|] == removes;
    assert (removes + adds)[|removes|..] == adds;
    removes + adds
  }

  /** The strategy a parsed state selects. */
  function Strategy(st: State, want: seq<FpRecord>, have: seq<FpRecord>): seq<Fp> {
    match st
    case Overridden => StateOverridden(want, have)
    case Deleted => StateDeleted(want, have)
    case Merged => StateMerged(want, have)
    case Replaced => StateReplaced(want, have)
  }

  // ---------------------------------------------------------------------------
  // Dispatch and module result

  /** The `root.append(xml)` loop: the fragments become the last children of
      `root`, in the order given, after the children it already had. */
  method AppendChildren(root: FpsRoot, xmls: seq<Fp>) returns (r: FpsRoot)
    ensures |r.children| == |root.children| + |xmls|
    ensures r.children[..|root.children|] == root.children
    ensures forall i :: 0 <= i < |xmls| ==> r.children[|root.children| + i] == xmls[i]
  {
    r := root;
    for i := 0 to |xmls|
      invariant |r.children| == |root.children| + i
      invariant r.children[..|root.children|] == root.children
      invariant forall j :: 0 <= j < i ==> r.children[|root.children| + j] == xmls[j]
    {
      r := FpsRoot(r.children + [xmls[i]]);
    }
  }

  /** `set_state`: run the strategy `state` names and append its fragments, in
      order, under a fresh `<fps>` root. A `state` outside the four names leaves
      the fragment list unbound in the source, so callers must not pass one. */
  method SetState(want: seq<FpRecord>, have: seq<FpRecord>, state: string) returns (root: FpsRoot)
    requires StateOf(state).Some?
    ensures state == "overridden" ==> root.children == StateOverridden(want, have)
    ensures state == "deleted" ==> root.children == StateDeleted(want, have)
    ensures state == "merged" ==> root.children == StateMerged(want, have)
    ensures state == "replaced" ==> root.children == StateReplaced(want, have)
    ensures root.children == Strategy(StateOf(state).value, want, have)
  {
    var configXmls: seq<Fp>;
    if state == "overridden" {
      configXmls := StateOverridden(want, have);
    } else if state == "deleted" {
      configXmls := StateDeleted(want, have);
    } else if state == "merged" {
      configXmls := StateMerged(want, have);
    } else {
      configXmls := StateReplaced(want, have);
    }
    root := AppendChildren(FpsRoot([]), configXmls);
  }

  /** What `execute_module` returns: the change verdict, the documents sent,
      the facts before, and the facts after only when something changed. */
  datatype ModuleResult = ModuleResult(
    changed: bool,
    xml: seq<FpsRoot>,
    before: seq<FpRecord>,
    after: Option<seq<FpRecord>>)

  /** The result shaping at the end of `execute_module`; `isDiff` stands for the
      `config_is_diff` helper, which is not part of this model. */
  function ShapeResult(
    xml: seq<FpsRoot>, before: seq<FpRecord>, after: seq<FpRecord>,
    isDiff: (seq<FpRecord>, seq<FpRecord>) -> bool): (r: ModuleResult)
    ensures r.before == before && r.xml == xml
    ensures r.changed == isDiff(before, after)
    ensures r.after.Some? <==> r.changed
    ensures r.after.Some? ==> r.after.value == after
  {
    var changed := isDiff(before, after);
    ModuleResult(changed, xml, before, if changed then Some(after) else None)
  }

  /** `execute_module` with the device abstracted: `have` is the facts fetched
      before the edit, `after` the facts fetched after it. Returns the result
      and the `<fps>` documents handed to `edit_config`, in order. */
  method ExecuteModule(
    want: seq<FpRecord>, have: seq<FpRecord>, state: string, after: seq<FpRecord>,
    isDiff: (seq<FpRecord>, seq<FpRecord>) -> bool)
    returns (result: ModuleResult, edits: seq<FpsRoot>)
    requires StateOf(state).Some?
    ensures |edits| == 1 && edits == result.xml
    ensures edits[0].children == Strategy(StateOf(state).value, want, have)
    ensures result.before == have
    ensures result.changed == isDiff(have, after)
    ensures result.after == if result.changed then Some(after) else None
  {
    var root := SetState(want, have, state);
    // `to_list` of the one serialised document: the send loop runs once
    var configXmls := [root];
    edits := configXmls;
    result := ShapeResult(configXmls, have, after, isDiff);
  }
}
