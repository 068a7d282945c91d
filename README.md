# Prig indirection-stub-setting plugin for ILSpy: model of its core

The plugin adds a context-menu command, "Get Prig Indirection Stub Setting",
to the ILSpy decompiler. This project models the two pieces of the plugin that
contain real logic:

- **Selection gating.** The command is visible and enabled only when the
  selection is non-null, every selected node is a member node holding a
  method, property or event definition, and all selected members come from
  one assembly. A fresh `ReplaceableNodesFinder` is run over the nodes. It
  collects assembly full names in a set and stops at the first node it rejects.
  The model gives a declarative meaning to this (`IsReplaceableSelection`)
  and proves that the imperative finder loop computes exactly that.
- **Member-to-identifier conversion.** A property yields one
  `ReflectionMethodId` record per existing accessor, getter first. Each record
  is (module path of the accessor's declaring type, metadata token of the
  property's declaring type, metadata token of the accessor). `GetMethodIds`
  concatenates the records of the selected members in selection order.

Files:
- `common.dfy`: module `Common`. `Option` stands for nullable references. `ReflectionMethodId` is the identifier record.
- `property_conversion.dfy`: module `PropertyConversion`. It holds the Cecil-like definitions, the reference function `PropertyMethodIds` and the class `PropertyDefinitionConversion`.
- `context_menu_entry.dfy`: module `ContextMenuEntry`. It holds tree nodes, the class `ReplaceableNodesFinder`, the gating loop, `IsEnabled`/`IsVisible` and `GetMethodIds` with its lemmas.

Abstractions:
- A tree node is `NonMember` or `MemberNode(kind, assemblyFullName)`.
- A null selection is `None`.
- Metadata tokens are opaque integers. Paths and assembly names are opaque strings.
- `HashSet<string>` and its `Count` become a `set<string>` field and its cardinality.

## Model

| member | source | states |
|---|---|---|
| `ContextMenuEntry.ReplaceableNodesFinder.constructor` | ILSpy.GetPrigIndirectionStubSetting.Plugin/GetPrigIndirectionStubSettingContextMenuEntry.cs:104-106 | a new finder starts with an empty set of assembly full names |
| `ContextMenuEntry.ReplaceableNodesFinder.IsSatisfied` | ILSpy.GetPrigIndirectionStubSetting.Plugin/GetPrigIndirectionStubSettingContextMenuEntry.cs:108-121 | a non-member node is rejected and adds nothing to the set; a member node's assembly name is added first; the set only grows; the node is accepted iff it is a member node, the set then has at most one name, and the member is a method, property or event definition |
| `ContextMenuEntry.AreReplaceableNodesSelected` | ILSpy.GetPrigIndirectionStubSetting.Plugin/GetPrigIndirectionStubSettingContextMenuEntry.cs:96-102 | running one finder over the nodes and stopping at the first rejection accepts exactly the non-null selections whose nodes are all replaceable member nodes from one assembly; a null selection is rejected; an empty one is accepted |
| `ContextMenuEntry.IsEnabled` | ILSpy.GetPrigIndirectionStubSetting.Plugin/GetPrigIndirectionStubSettingContextMenuEntry.cs:86-89 | enabled iff the context is offered (`IsOffered`), the same predicate `IsVisible` is tied to, so the two always agree |
| `ContextMenuEntry.IsVisible` | ILSpy.GetPrigIndirectionStubSetting.Plugin/GetPrigIndirectionStubSettingContextMenuEntry.cs:91-94 | visible iff the context is offered (`IsOffered`), the same predicate `IsEnabled` is tied to, so the two always agree |
| `ContextMenuEntry.AcceptStep` | ILSpy.GetPrigIndirectionStubSetting.Plugin/GetPrigIndirectionStubSettingContextMenuEntry.cs:110-120 | after an accepted prefix, the finder's verdict on the next node is exactly whether the extended selection is acceptable, and its set becomes the extended selection's assembly names |
| `ContextMenuEntry.PrefixOfReplaceable` | ILSpy.GetPrigIndirectionStubSetting.Plugin/GetPrigIndirectionStubSettingContextMenuEntry.cs:101 | a rejection on some prefix rejects the whole selection, which justifies stopping at the first rejected node |
| `ContextMenuEntry.OneAssemblyIffAtMostOneName` | ILSpy.GetPrigIndirectionStubSetting.Plugin/GetPrigIndirectionStubSettingContextMenuEntry.cs:114-116 | for member nodes, "all from one assembly" holds iff the set of their assembly full names has at most one element |
| `ContextMenuEntry.NonMemberRejected` | ILSpy.GetPrigIndirectionStubSetting.Plugin/GetPrigIndirectionStubSettingContextMenuEntry.cs:110-112 | any node that is not a member node makes the whole selection rejected |
| `ContextMenuEntry.MixedAssembliesRejected` | ILSpy.GetPrigIndirectionStubSetting.Plugin/GetPrigIndirectionStubSettingContextMenuEntry.cs:114-116 | a selection whose member nodes carry two or more distinct assembly full names is rejected |
| `ContextMenuEntry.SingleAssemblyAcceptedIffReplaceableKinds` | ILSpy.GetPrigIndirectionStubSetting.Plugin/GetPrigIndirectionStubSettingContextMenuEntry.cs:118-120 | a selection of member nodes from one assembly is accepted iff every member is a method, property or event definition |
| `ContextMenuEntry.GetMethodIds` | ILSpy.GetPrigIndirectionStubSetting.Plugin/GetPrigIndirectionStubSettingContextMenuEntry.cs:124-129 | each member's conversion output, concatenated in selection order: the first member's records are a prefix of the result; the full characterisation is in GetMethodIdsAppend, GetMethodIdsSlice, GetMethodIdsSources and GetMethodIdsEmpty |
| `ContextMenuEntry.GetMethodIdsEmpty` | ILSpy.GetPrigIndirectionStubSetting.Plugin/GetPrigIndirectionStubSettingContextMenuEntry.cs:124-129 | no record is yielded iff every selected member's conversion yields none |
| `ContextMenuEntry.GetMethodIdsAppend` | ILSpy.GetPrigIndirectionStubSetting.Plugin/GetPrigIndirectionStubSettingContextMenuEntry.cs:124-129 | the records of a concatenated selection are the records of the first part followed by those of the second |
| `ContextMenuEntry.GetMethodIdsSlice` | ILSpy.GetPrigIndirectionStubSetting.Plugin/GetPrigIndirectionStubSettingContextMenuEntry.cs:124-129 | the i-th member's conversion output appears unchanged and contiguous, right after the records of the members before it |
| `ContextMenuEntry.GetMethodIdsSources` | ILSpy.GetPrigIndirectionStubSetting.Plugin/GetPrigIndirectionStubSettingContextMenuEntry.cs:126-128 | every yielded record belongs to the conversion output of some selected member |
| `ContextMenuEntry.PropertySelectionRecords` | ILSpy.GetPrigIndirectionStubSetting.Plugin/GetPrigIndirectionStubSettingContextMenuEntry.cs:124-129 | for a selection of properties, the number of records is the total number of existing accessors, and every record's type token is the declaring-type token of a selected property |
| `PropertyConversion.PropertyMethodIds` | ILSpy.GetPrigIndirectionStubSetting.Plugin/PropertyDefinitionConversion.cs:51-65 | one record per non-null accessor (0, 1 or 2); the getter's record is first and the setter's last; every record's type token is the property's declaring-type token; each record's location is its accessor's declaring-type module path and its method token is that accessor's token |
| `PropertyConversion.AccessorRecordListUnique` | ILSpy.GetPrigIndirectionStubSetting.Plugin/PropertyDefinitionConversion.cs:49-67 | the description above (count, getter first, setter last) determines the list completely: any list meeting it is the conversion's |
| `PropertyConversion.PropertyDefinitionConversion.constructor` | ILSpy.GetPrigIndirectionStubSetting.Plugin/PropertyDefinitionConversion.cs:40-45 | the conversion stores the given property definition |
| `PropertyConversion.PropertyDefinitionConversion.Perform` | ILSpy.GetPrigIndirectionStubSetting.Plugin/PropertyDefinitionConversion.cs:47-68 | building the list with two guarded appends yields exactly `PropertyMethodIds` of the stored property, one record per accessor; it modifies nothing, so the stored property is unchanged |

## Left out

- `Execute` is not modelled. It sets the wait cursor, looks up the Prig package folder, shows a message box, writes to the clipboard and casts the nodes to member nodes. These are UI and host-environment side effects.
- `GetIndirectionStubSetting` is not modelled. It writes a temporary file with `XmlSerializer` and runs a PowerShell script, an external process whose output this repository does not define. No round-trip claim about the serialized records is made for the same reason.
- `ReflectionMethodIdConversionFactory` and the method and event conversions are not part of this model. `GetMethodIds` takes the conversion of one member as a parameter (`perform`). Only the property conversion is given concretely.
- `ContextMenuEntry.GetMethodIds` is lazy (`yield return`) in the source. The model computes the whole sequence at once, so evaluation order and laziness are not captured.
- `PropertyConversion.PropertyDefinitionConversion.Perform`: the model returns a sequence value, so "a freshly built list" has no object identity to speak of. Aliasing of the returned list is not modelled.
- Mono.Cecil and ILSpy tree-node types are abstracted to the fields the code reads. `MetadataToken.ToInt32()` is an opaque integer.
- Null references are not modelled, though the source would throw on each of them: a null `context` (GetPrigIndirectionStubSettingContextMenuEntry.cs:98); a member node whose `Member`, `Module` or `Assembly` is null (line 114); a null property definition, which the `PropertyDefinitionConversion` constructor accepts (PropertyDefinitionConversion.cs:44) and `Perform` dereferences (lines 51 and 59). The model's datatypes make all of these present.
