# Flexible-port (fps) reconciliation, modelled in Dafny

This project models the `saos10_fps` config class of the Ciena SAOS 10 Ansible
collection. Given the desired flexible-port list `want`, the list the device
reports `have` and the module's `state` parameter, the class builds an `<fps>`
document of `<fp>` edit fragments, sends it with `edit_config`, and reports
what changed.

- `wrappers.dfy`: module `Wrappers`, an `Option` datatype.
- `fps_xml.dfy`: module `FpsXml`, the shape of the XML the class builds. It has
  an `<fps>` root (`FpsRoot`) whose children are `<fp>` elements (`Fp`). Each
  `Fp` has an optional `operation` attribute and leaf children (`Leaf`:
  `<tag>text</tag>`) in document order. `Find` looks up a leaf by tag.
- `fps_config.dfy`: module `FpsConfig`, the class itself. It defines the record
  type `FpRecord`, where an empty string stands for an absent optional field.
  It models the fragments for one record and the four strategies
  `_state_deleted`, `_state_merged`, `_state_replaced` and `_state_overridden`.
  It also models the dispatch and append loop of `set_state` and the result
  shaping of `execute_module`.
- `fps_properties.dfy`: module `FpsProperties`. These are lemmas that relate
  several calls:
  - the names the remove fragments carry, in order;
  - the records the merge fragments carry back;
  - removes coming before adds;
  - the set of removed names;
  - independence from `have`;
  - the dispatch round trip;
  - the "no change" report;
  - three worked scenarios.
- `netconf_effect.dfy`: module `NetconfEffect`. It is an independent account of
  what each strategy does to the device's running datastore. It assumes the
  device applies the per-entry `merge` and `remove` rules of section 7.2 of
  RFC 6241, one `<fp>` entry at a time in document order. The entry-order
  assumption is the model's own; see "## Left out". It proves the following
  for a datastore keyed by name:
  - deleted drops exactly its targets;
  - replaced rewrites exactly the entries named in `want`;
  - overridden leaves exactly `want`;
  - merged sets the leaves `want` carries and keeps every other leaf and entry;
  - merged changes nothing when the device already holds exactly `want`.

Points about the code's behaviour that the model keeps:
- The class does not diff `want` against `have`. Merged ignores `have`, and
  replaced and overridden remove entries and then re-add them.
- An unknown `state` is not rejected up front. The `<fps>` root is built first,
  and the call fails only when the unbound `config_xmls` is read. The model
  states this as a precondition of `SetState`.
- `changed` is whatever `config_is_diff` reports for the facts before and after
  the edit. The model takes that helper as a parameter.

## Model

| member | source | states |
|---|---|---|
| FpsConfig.StateOf | plugins/module_utils/network/saos10/config/fps/fps.py:120-128 | The four state strings select a strategy, and that strategy's name gives the string back. Any other string selects none. |
| FpsConfig.RemoveFragment | plugins/module_utils/network/saos10/config/fps/fps.py:172-174 | A delete fragment has `operation="remove"` and one `name` leaf holding the record's name. It has no logical-port or fd-name leaf. |
| FpsConfig.AddFragment | plugins/module_utils/network/saos10/config/fps/fps.py:187-194 | A merge fragment has no operation attribute and starts with the name leaf. The logical-port and fd-name leaves are present exactly when the field is non-empty, and then hold its text. Reading the fragment back gives the record. |
| FpsConfig.RemoveAll | plugins/module_utils/network/saos10/config/fps/fps.py:171-175 | There is one remove fragment per record, in the records' order. |
| FpsConfig.AddAll | plugins/module_utils/network/saos10/config/fps/fps.py:186-194 | There is one merge fragment per record, in the records' order. |
| FpsConfig.StateDeleted | plugins/module_utils/network/saos10/config/fps/fps.py:168-176 | If `want` is empty, there is one remove fragment per `have` record, by name, in order. Otherwise there is one per `want` record, in order. |
| FpsConfig.StateMerged | plugins/module_utils/network/saos10/config/fps/fps.py:185-195 | There are exactly len(want) merge fragments. Fragment i merges `want[i]`, with the field-presence rule of AddFragment. |
| FpsConfig.StateReplaced | plugins/module_utils/network/saos10/config/fps/fps.py:144-147 | The delete targets' removes come first, then the merges of `want`. The length is 2·len(want) when `want` is non-empty and len(have) when it is empty. |
| FpsConfig.StateOverridden | plugins/module_utils/network/saos10/config/fps/fps.py:156-159 | The length is len(have)+len(want). The first len(have) fragments remove `have`'s entries in order, whatever `want` is. The rest merge `want`. |
| FpsConfig.AppendChildren | plugins/module_utils/network/saos10/config/fps/fps.py:130-131 | The appended fragments become the root's last children, in the given order, after the children it already had. |
| FpsConfig.SetState | plugins/module_utils/network/saos10/config/fps/fps.py:119-131 | Each of the four state strings runs exactly its own strategy. The root's children are that strategy's fragments in the same order. Any other state is outside the precondition. |
| FpsConfig.ShapeResult | plugins/module_utils/network/saos10/config/fps/fps.py:89-93 | `before` is always reported, and `changed` is the diff verdict on (before, after). `after` is present exactly when `changed` holds, and then it is the re-fetched facts. |
| FpsConfig.ExecuteModule | plugins/module_utils/network/saos10/config/fps/fps.py:71-95 | One `<fps>` document, the dispatched strategy's, is sent to `edit_config`, and the same list is reported as `xml`. `before` is `have`, and `changed` and `after` follow the diff verdict. |
| FpsProperties.RemovesNames | plugins/module_utils/network/saos10/config/fps/fps.py:171-175 | A run of remove fragments names exactly its records, in order, with repeats kept. |
| FpsProperties.AddsRecords | plugins/module_utils/network/saos10/config/fps/fps.py:186-194 | A run of merge fragments reads back as exactly the records it was built from. |
| FpsProperties.AddsNames | plugins/module_utils/network/saos10/config/fps/fps.py:186-189 | A run of merge fragments names exactly its records, in order. |
| FpsProperties.AddRoundTrip | plugins/module_utils/network/saos10/config/fps/fps.py:189-193 | A fragment with the merge shape for a record reads back as that record. Dropping empty fields loses nothing. |
| FpsProperties.DeletedEverythingNames | plugins/module_utils/network/saos10/config/fps/fps.py:169-176 | With `want` empty, deleted has len(have) fragments whose names are `have`'s names in `have`'s order. |
| FpsProperties.DeletedWantNames | plugins/module_utils/network/saos10/config/fps/fps.py:169-175 | With `want` non-empty, deleted has len(want) fragments named after `want` in order, without deduplication. The result is the same for every `have`. |
| FpsProperties.MergedCarriesWant | plugins/module_utils/network/saos10/config/fps/fps.py:185-195 | Merged reads back as `want` exactly, names `want`'s entries in order, and is the same for every `have`. |
| FpsProperties.RemovesThenAddsFirst | plugins/module_utils/network/saos10/config/fps/fps.py:144-147 | In a block of removes followed by a block of merges, no merge precedes a remove. |
| FpsProperties.ReplacedShape | plugins/module_utils/network/saos10/config/fps/fps.py:144-147 | In replaced, all removes precede all merges. The removes name the delete targets in order, and the merges read back as `want`. |
| FpsProperties.OverriddenShape | plugins/module_utils/network/saos10/config/fps/fps.py:156-159 | In overridden, all removes precede all merges. The removes name `have` in order, and their set of names is exactly `have`'s whatever `want` is. The merges read back as `want`. |
| FpsProperties.StateOfRoundTrip | plugins/module_utils/network/saos10/config/fps/fps.py:121-128 | Every strategy's state string parses back to that strategy, so no two strings share one. |
| FpsProperties.UnchangedFactsReportNoChange | plugins/module_utils/network/saos10/config/fps/fps.py:89-93 | Suppose the facts after equal the facts before and the diff helper calls identical lists not different. Then the result reports no change and omits `after`. |
| FpsProperties.MergedFullRecordScenario | plugins/module_utils/network/saos10/config/fps/fps.py:186-194 | Merging fp1 with logical-port 1/1 and fd-name fd1 gives one fragment with leaves name, logical-port, fd-name in that order. |
| FpsProperties.MergedEmptyFieldScenario | plugins/module_utils/network/saos10/config/fps/fps.py:190-193 | Merging fp2 with an empty logical-port gives a fragment with no logical-port leaf. |
| FpsProperties.DeletedAllScenario | plugins/module_utils/network/saos10/config/fps/fps.py:169-175 | Deleting with no targets while fp1 is configured gives one remove fragment for fp1. |
| NetconfEffect.RemovesEffect | plugins/module_utils/network/saos10/config/fps/fps.py:171-175 | Applying a run of remove fragments deletes exactly the named entries from the datastore. |
| NetconfEffect.AddsEffect | plugins/module_utils/network/saos10/config/fps/fps.py:186-194 | Consider merge fragments for distinct names that are not yet configured. Applying them creates exactly those entries with the records' leaves and touches nothing else. |
| NetconfEffect.MergesEffect | plugins/module_utils/network/saos10/config/fps/fps.py:186-194 | Consider merge fragments for distinct names. Each named entry exists afterwards, merged from its prior value, and every other entry is unchanged. |
| NetconfEffect.DeletedEffect | plugins/module_utils/network/saos10/config/fps/fps.py:168-176 | After deleted, the datastore has lost exactly the target names: `want`'s, or all of `have`'s when `want` is empty. |
| NetconfEffect.MergedEffect | plugins/module_utils/network/saos10/config/fps/fps.py:185-195 | After merged, every `want` entry exists. A leaf `want` sets is overwritten, and a leaf `want` leaves empty keeps the device's value. Entries outside `want` are untouched. |
| NetconfEffect.ReplacedEffect | plugins/module_utils/network/saos10/config/fps/fps.py:144-147 | After replaced with `want` non-empty, the entries named in `want` are exactly `want`'s and all others are untouched. With `want` empty, every `have` entry is gone. |
| NetconfEffect.OverriddenEffect | plugins/module_utils/network/saos10/config/fps/fps.py:156-159 | When `have` lists every configured entry, the datastore after overridden holds exactly `want`. |
| NetconfEffect.MergedIdempotent | plugins/module_utils/network/saos10/config/fps/fps.py:185-195 | Merging `want` into a datastore that already holds exactly `want` (distinct names) leaves it unchanged. |
| NetconfEffect.MergedReportsNoChange | plugins/module_utils/network/saos10/config/fps/fps.py:87-93 | Suppose merged runs on a device that already holds exactly `want` (distinct names), and the diff helper calls identical lists not different. Then whatever function reads facts from the datastore, the facts before and after are equal, so the result reports `changed` false and omits `after`. |

## Left out

- Fact retrieval: `get_fps_facts` (fps.py:51-63) and the second fetch after the edit are device I/O. `have` and `after` are parameters of `ExecuteModule`. The rule that missing facts become `[]` belongs to that I/O.
- The transport call `edit_config` (fps.py:84) and the `<config>` text wrapping (fps.py:76) are device I/O and string plumbing. `ExecuteModule` returns the documents it would send instead.
- XML serialisation and the namespace-stripping round trip (fps.py:132-135) are library text plumbing. Fragments are tree values, and the model assumes the round trip changes no element, attribute or text.
- `config_is_diff` lives in a utils module that is not part of this model. It is the parameter `isDiff`, a black-box predicate.
- `ConfigBase` and `to_list` are Ansible helpers. Applying `to_list` to the one serialised document is modelled as the one-element list it yields.
- The KeyError raised when a record lacks a `logical-port` or `fd-name` key (fps.py:190, 192) cannot occur with `FpRecord`, where the empty string stands for an absent field. Python's falsy `None` is folded into the empty string in the same way.
- An omitted `config` parameter (Python `None`) is modelled as the empty list. In the source, `None` behaves like `[]` only for deleted. Merged, replaced and overridden all call `_state_merged(None, have)`, whose loop (fps.py:186) raises a TypeError before `edit_config` (fps.py:84) runs, so nothing is sent.
- The model's answer differs there:
  - For overridden it removes every `have` entry, which wipes the device's fps list, while the source sends no edit.
  - For replaced it removes every `have` entry, while the source sends nothing.
  - For merged it sends an empty `<fps>` document.
- Argument validation is not part of this model.
- FpsConfig.SetState: an unknown `state` (Python's UnboundLocalError on `config_xmls`) is excluded by a precondition rather than modelled as an error value, because the source has no handling for it.
- NetconfEffect.ReplacedEffect: requires the names in `want` to be distinct, because the source does not enforce distinct names and repeated merges of one name combine leaves.
- NetconfEffect.OverriddenEffect: requires distinct names in `want`, and requires `have` to list every configured entry, as fresh facts do.
- NetconfEffect.MergedEffect: requires distinct names in `want`, for the same reason as ReplacedEffect.
- NetconfEffect.AddsEffect: requires distinct names that are not yet configured. MergesEffect covers configured names.
- The NETCONF effect lemmas describe assumed device behaviour, not code of the module. The per-entry `merge` and `remove` rules follow section 7.2 of RFC 6241. Schema validation and partial application on error are not modelled.
- NetconfEffect.ApplyAll: applies the sibling `<fp>` entries of one document one at a time, in document order. RFC 6241 does not define the outcome when one `<config>` both removes and merges the same key, as replaced and overridden do (fps.py:145-146, 157-158). This order is an assumption of this model about the device, and ReplacedEffect and OverriddenEffect rest on it.
- NetconfEffect.ApplyOne: honours a plain, namespace-free `operation` attribute. RFC 6241 places that attribute in the NETCONF base namespace, while the source writes it unqualified (fps.py:174) and strips namespaces (fps.py:132). That the device honours it is an assumption of this model, not RFC 6241 behaviour.
- NetconfEffect.MergedIdempotent: requires distinct names in `want`, for the same reason as ReplacedEffect.
- NetconfEffect.MergedReportsNoChange: requires distinct names in `want`, as MergedIdempotent does. It also requires a diff helper that calls identical lists not different, because the diff helper is not part of this model.
