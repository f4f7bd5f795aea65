/** What the fragments do to the device's running datastore once `edit_config`
    applies them with default operation `merge`. A fragment whose (namespace-
    free) `operation` attribute is `remove` deletes the entry with its name and
    is silently ignored when there is none; any other fragment merges, creating
    the entry or overwriting only the leaves it carries. These per-entry rules
    follow the `merge` and `remove` operations of section 7.2 of RFC 6241; that
    the sibling `<fp>` entries of one document take effect one at a time in
    document order, and that the unqualified attribute is honoured, are
    assumptions of this model about the device, not RFC 6241 behaviour.
    This is the device's behaviour, not the module's; it serves as an
    independent account of what each reconciliation strategy achieves. */
module NetconfEffect {
  import opened Wrappers
  import opened FpsXml
  import opened FpsConfig
  import opened FpsProperties

  /** The configured leaves of one flexible port; "" is an unset leaf. */
  datatype Entry = Entry(logicalPort: string, fdName: string)

  /** The fps list of the running datastore, keyed by name. */
  type Datastore = map<string, Entry>

  function EntryOf(r: FpRecord): Entry {
    Entry(r.logicalPort, r.fdName)
  }

  /** The datastore holding exactly the records `recs`. */
  function AsDatastore(recs: seq<FpRecord>): (ds: Datastore)
    ensures ds.Keys == NameSet(recs)
  {
    if |recs| == 0 then map[]
    else
      var ds := AsDatastore(recs[1..])[recs[0].name := EntryOf(recs[0])];
      NameSetCons(recs);
      ds
  }

  predicate UniqueNames(recs: seq<FpRecord>) {
    forall i, j :: 0 <= i < j < |recs| ==> recs[i].name != recs[j].name
  }

  lemma NameSetCons(recs: seq<FpRecord>)
    requires |recs| > 0
    ensures NameSet(recs) == {recs[0].name} + NameSet(recs[1..])
  {
    forall n | n in NameSet(recs)
      ensures n in {recs[0].name} + NameSet(recs[1..])
    {
      var i :| 0 <= i < |recs| && recs[i].name == n;
      if i > 0 { assert recs[1..][i - 1] == recs[i]; }
    }
    forall n | n in NameSet(recs[1..])
      ensures n in NameSet(recs)
    {
      var i :| 0 <= i < |recs[1..]| && recs[1..][i].name == n;
      assert recs[i + 1] == recs[1..][i];
    }
  }

  /** Applies one `<fp>` element to the datastore. An element without a name
      leaf identifies no entry and changes nothing. */
  function ApplyOne(ds: Datastore, f: Fp): Datastore {
    match Find(f.leaves, NameTag)
    case None => ds
    case Some(name) =>
      if f.operation == Some(RemoveOperation) then ds - {name}
      else
        var prior := if name in ds then ds[name] else Entry("", "");
        ds[name := Entry(Find(f.leaves, LogicalPortTag).GetOr(prior.logicalPort),
                         Find(f.leaves, FdNameTag).GetOr(prior.fdName))]
  }

  /** Applies the children of an `<fps>` document in document order. */
  function ApplyAll(ds: Datastore, frags: seq<Fp>): Datastore
    decreases |frags|
  {
    if |frags| == 0 then ds else ApplyAll(ApplyOne(ds, frags[0]), frags[1..])
  }

  lemma {:induction false} ApplyAllConcat(ds: Datastore, a: seq<Fp>, b: seq<Fp>)
    ensures ApplyAll(ds, a + b) == ApplyAll(ApplyAll(ds, a), b)
    decreases |a|
  {
    if |a| > 0 {
      assert (a + b)[1..] == a[1..] + b;
      ApplyAllConcat(ApplyOne(ds, a[0]), a[1..], b);
    } else {
      assert a + b == b;
    }
  }

  /** A run of remove fragments deletes exactly the named entries. */
  lemma {:induction false} RemovesEffect(ds: Datastore, frags: seq<Fp>, recs: seq<FpRecord>)
    requires RemovesOf(frags, recs)
    ensures ApplyAll(ds, frags) == ds - NameSet(recs)
    decreases |recs|
  {
    if |recs| > 0 {
      assert IsRemoveOf(frags[0], recs[0].name);
      assert ApplyOne(ds, frags[0]) == ds - {recs[0].name};
      assert RemovesOf(frags[1..], recs[1..]) by {
        forall i | 0 <= i < |recs[1..]|
          ensures IsRemoveOf(frags[1..][i], recs[1..][i].name)
        {
          assert IsRemoveOf(frags[i + 1], recs[i + 1].name);
        }
      }
      RemovesEffect(ds - {recs[0].name}, frags[1..], recs[1..]);
      NameSetCons(recs);
    }
  }

  /** A merge fragment for a record whose name is not configured yet creates
      exactly that record's entry. */
  lemma AddOneEffect(ds: Datastore, f: Fp, r: FpRecord)
    requires IsAddOf(f, r)
    requires r.name !in ds
    ensures ApplyOne(ds, f) == ds[r.name := EntryOf(r)]
  {
  }

  lemma AddsOfTail(frags: seq<Fp>, recs: seq<FpRecord>)
    requires AddsOf(frags, recs) && |recs| > 0
    ensures AddsOf(frags[1..], recs[1..])
  {
    forall i | 0 <= i < |recs[1..]|
      ensures IsAddOf(frags[1..][i], recs[1..][i])
    {
      assert IsAddOf(frags[i + 1], recs[i + 1]);
    }
  }

  lemma UniqueNamesTail(recs: seq<FpRecord>)
    requires UniqueNames(recs) && |recs| > 0
    ensures UniqueNames(recs[1..])
    ensures recs[0].name !in NameSet(recs[1..])
  {
    forall i | 0 <= i < |recs[1..]|
      ensures recs[1..][i].name != recs[0].name
    {
      assert recs[1..][i] == recs[i + 1];
    }
  }

  lemma UpdateThenUnion(ds: Datastore, m: Datastore, n: string, e: Entry)
    requires n !in m
    ensures ds[n := e] + m == ds + m[n := e]
  {
  }

  /** A run of merge fragments for records with distinct names none of which
      is configured yet creates exactly those entries and touches nothing else. */
  lemma {:induction false} AddsEffect(ds: Datastore, frags: seq<Fp>, recs: seq<FpRecord>)
    requires AddsOf(frags, recs)
    requires UniqueNames(recs)
    requires ds.Keys !! NameSet(recs)
    ensures ApplyAll(ds, frags) == ds + AsDatastore(recs)
    decreases |recs|
  {
    if |recs| > 0 {
      var r := recs[0];
      NameSetCons(recs);
      UniqueNamesTail(recs);
      AddsOfTail(frags, recs);
      AddOneEffect(ds, frags[0], r);
      var ds' := ds[r.name := EntryOf(r)];
      AddsEffect(ds', frags[1..], recs[1..]);
      UpdateThenUnion(ds, AsDatastore(recs[1..]), r.name, EntryOf(r));
    }
  }

  /** Deleted leaves every entry except those it targets, which are gone. */
  lemma DeletedEffect(ds: Datastore, want: seq<FpRecord>, have: seq<FpRecord>)
    ensures ApplyAll(ds, StateDeleted(want, have)) == ds - NameSet(DeleteTargets(want, have))
  {
    RemovesEffect(ds, StateDeleted(want, have), DeleteTargets(want, have));
  }

  /** A block of removes followed by a block of merges for fresh, distinct
      names: the removed entries go, then the merged ones are created. */
  lemma BlocksEffect(ds: Datastore, frags: seq<Fp>, k: nat, removes: seq<FpRecord>, adds: seq<FpRecord>)
    requires k <= |frags|
    requires RemovesOf(frags[..k], removes)
    requires AddsOf(frags[k..], adds)
    requires UniqueNames(adds)
    requires (ds - NameSet(removes)).Keys !! NameSet(adds)
    ensures ApplyAll(ds, frags) == (ds - NameSet(removes)) + AsDatastore(adds)
  {
    assert frags == frags[..k] + frags[k..];
    ApplyAllConcat(ds, frags[..k], frags[k..]);
    RemovesEffect(ds, frags[..k], removes);
    AddsEffect(ds - NameSet(removes), frags[k..], adds);
  }

  /** Replaced (with distinct names in `want`): the entries named in `want`
      end up exactly as `want` gives them, every other entry is untouched;
      with `want` empty it deletes every entry of `have`. */
  lemma ReplacedEffect(ds: Datastore, want: seq<FpRecord>, have: seq<FpRecord>)
    requires UniqueNames(want)
    ensures |want| > 0 ==>
      ApplyAll(ds, StateReplaced(want, have)) == (ds - NameSet(want)) + AsDatastore(want)
    ensures |want| == 0 ==>
      ApplyAll(ds, StateReplaced(want, have)) == ds - NameSet(have)
  {
    var targets := DeleteTargets(want, have);
    BlocksEffect(ds, StateReplaced(want, have), |targets|, targets, want);
    if |want| == 0 {
      assert AsDatastore(want) == map[];
    }
  }

  /** Removes covering every configured entry, then merges for distinct names:
      the datastore ends up holding exactly the merged records. */
  lemma CoveredBlocksEffect(ds: Datastore, frags: seq<Fp>, k: nat, removes: seq<FpRecord>, adds: seq<FpRecord>)
    requires k <= |frags|
    requires RemovesOf(frags[..k], removes)
    requires AddsOf(frags[k..], adds)
    requires UniqueNames(adds)
    requires ds.Keys <= NameSet(removes)
    ensures ApplyAll(ds, frags) == AsDatastore(adds)
  {
    var emptied := ds - NameSet(removes);
    assert emptied == map[] by {
      assert emptied.Keys == {};
    }
    BlocksEffect(ds, frags, k, removes, adds);
    assert emptied + AsDatastore(adds) == AsDatastore(adds);
  }

  /** Overridden (with distinct names in `want`, and `have` listing every
      configured entry): the datastore ends up holding exactly `want`. */
  lemma OverriddenEffect(ds: Datastore, want: seq<FpRecord>, have: seq<FpRecord>)
    requires UniqueNames(want)
    requires ds.Keys <= NameSet(have)
    ensures ApplyAll(ds, StateOverridden(want, have)) == AsDatastore(want)
  {
    CoveredBlocksEffect(ds, StateOverridden(want, have), |have|, have, want);
  }

  /** The entry called `n` before an edit; an absent entry reads as unset leaves. */
  function Prior(ds: Datastore, n: string): Entry {
    if n in ds then ds[n] else Entry("", "")
  }

  /** The entry a merge of `r` leaves behind: each leaf `r` sets replaces the
      prior value, each leaf `r` leaves empty keeps it. */
  function MergeEntry(prior: Entry, r: FpRecord): Entry {
    Entry(if r.logicalPort == "" then prior.logicalPort else r.logicalPort,
          if r.fdName == "" then prior.fdName else r.fdName)
  }

  lemma AddOneMerge(ds: Datastore, f: Fp, r: FpRecord)
    requires IsAddOf(f, r)
    ensures ApplyOne(ds, f) == ds[r.name := MergeEntry(Prior(ds, r.name), r)]
  {
  }

  /** A run of merge fragments for distinct names: those entries now exist,
      each merged from its prior value, and every other entry is untouched. */
  lemma {:induction false} MergesEffect(ds: Datastore, frags: seq<Fp>, recs: seq<FpRecord>)
    requires AddsOf(frags, recs)
    requires UniqueNames(recs)
    ensures ApplyAll(ds, frags).Keys == ds.Keys + NameSet(recs)
    ensures forall n :: n in ds && n !in NameSet(recs) ==> ApplyAll(ds, frags)[n] == ds[n]
    ensures forall i :: 0 <= i < |recs| ==>
      ApplyAll(ds, frags)[recs[i].name] == MergeEntry(Prior(ds, recs[i].name), recs[i])
    decreases |recs|
  {
    if |recs| > 0 {
      var r := recs[0];
      NameSetCons(recs);
      UniqueNamesTail(recs);
      AddsOfTail(frags, recs);
      AddOneMerge(ds, frags[0], r);
      var ds' := ds[r.name := MergeEntry(Prior(ds, r.name), r)];
      MergesEffect(ds', frags[1..], recs[1..]);
      var result := ApplyAll(ds, frags);
      assert result == ApplyAll(ds', frags[1..]);
      forall i | 0 <= i < |recs|
        ensures result[recs[i].name] == MergeEntry(Prior(ds, recs[i].name), recs[i])
      {
        if i > 0 {
          assert recs[1..][i - 1] == recs[i];
          assert recs[i].name != r.name;
          assert Prior(ds', recs[i].name) == Prior(ds, recs[i].name);
        }
      }
    }
  }

  /** Merged (with distinct names in `want`): every `want` entry exists
      afterwards with the leaves `want` sets, a leaf left empty in `want`
      keeps the value the device had, and entries not named in `want` are
      untouched. */
  lemma MergedEffect(ds: Datastore, want: seq<FpRecord>, have: seq<FpRecord>)
    requires UniqueNames(want)
    ensures var after := ApplyAll(ds, StateMerged(want, have));
      && after.Keys == ds.Keys + NameSet(want)
      && (forall n :: n in ds && n !in NameSet(want) ==> after[n] == ds[n])
      && (forall i :: 0 <= i < |want| ==> after[want[i].name] == MergeEntry(Prior(ds, want[i].name), want[i]))
  {
    MergesEffect(ds, StateMerged(want, have), want);
  }

  /** With distinct names, the datastore built from `recs` holds each record's
      leaves under its name. */
  lemma {:induction false} AsDatastoreAt(recs: seq<FpRecord>, i: nat)
    requires UniqueNames(recs)
    requires i < |recs|
    ensures recs[i].name in AsDatastore(recs)
    ensures AsDatastore(recs)[recs[i].name] == EntryOf(recs[i])
    decreases |recs|
  {
    if i > 0 {
      UniqueNamesTail(recs);
      assert recs[1..][i - 1] == recs[i];
      AsDatastoreAt(recs[1..], i - 1);
    }
  }

  /** Merged is idempotent on the device: when the datastore already holds
      exactly `want` (with distinct names), applying merged changes nothing. */
  lemma MergedIdempotent(want: seq<FpRecord>, have: seq<FpRecord>)
    requires UniqueNames(want)
    ensures ApplyAll(AsDatastore(want), StateMerged(want, have)) == AsDatastore(want)
  {
    MergesIdempotent(AsDatastore(want), StateMerged(want, have), want);
  }

  lemma MergesIdempotent(ds: Datastore, frags: seq<Fp>, recs: seq<FpRecord>)
    requires AddsOf(frags, recs)
    requires UniqueNames(recs)
    requires ds == AsDatastore(recs)
    ensures ApplyAll(ds, frags) == ds
  {
    var after := ApplyAll(ds, frags);
    MergesEffect(ds, frags, recs);
    assert after.Keys == ds.Keys;
    forall n | n in after
      ensures after[n] == ds[n]
    {
      var i :| 0 <= i < |recs| && recs[i].name == n;
      AsDatastoreAt(recs, i);
      assert Prior(ds, n) == EntryOf(recs[i]);
    }
  }

  /** The module reports no change for merged on a device that already holds
      exactly `want`. Here `facts` stands for reading the datastore back as a
      fact list, and `isDiff` for a diff helper that calls identical lists not
      different. */
  lemma MergedReportsNoChange(
    want: seq<FpRecord>, xml: seq<FpsRoot>,
    facts: Datastore -> seq<FpRecord>,
    isDiff: (seq<FpRecord>, seq<FpRecord>) -> bool)
    requires UniqueNames(want)
    requires forall x :: !isDiff(x, x)
    ensures var before := facts(AsDatastore(want));
      var after := facts(ApplyAll(AsDatastore(want), StateMerged(want, before)));
      && !ShapeResult(xml, before, after, isDiff).changed
      && ShapeResult(xml, before, after, isDiff).after.None?
  {
    MergedIdempotent(want, facts(AsDatastore(want)));
  }
}
