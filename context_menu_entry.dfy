/**
 * The context-menu command "Get Prig Indirection Stub Setting": when it is
 * offered for a selection of tree nodes, and how the selected members are
 * flattened into identifier records.
 */
module ContextMenuEntry {
  import opened Common
  import PropertyConversion

  /** The kind of member a member tree node holds. */
  datatype MemberKind =
    | MethodDefinition
    | PropertyDefinition
    | EventDefinition
    | OtherMember  // a field, a type, or any other member reference

  /** A selected tree node: either not a member node, or a member of some assembly. */
  datatype TreeNode =
    | NonMember
    | MemberNode(kind: MemberKind, assemblyFullName: string)

  /** The part of the text view context the command looks at; `None` is a null selection. */
  datatype TextViewContext = TextViewContext(selectedTreeNodes: Option<seq<TreeNode>>)

  /** The member kinds for which a stub setting can be produced. */
  predicate IsReplaceableKind(kind: MemberKind)
  {
    kind.MethodDefinition? || kind.PropertyDefinition? || kind.EventDefinition?
  }

  /** The assembly full names a node contributes: none for a non-member node. */
  function NamesOf(node: TreeNode): set<string>
  {
    if node.MemberNode? then {node.assemblyFullName} else {}
  }

  /** The assembly full names of all member nodes in `nodes`. */
  function AssemblyNames(nodes: seq<TreeNode>): set<string>
  {
    set i | 0 <= i < |nodes| && nodes[i].MemberNode? :: nodes[i].assemblyFullName
  }

  /**
   * A selection the command accepts: every node is a member node of a
   * replaceable kind, and all of them come from one assembly.
   */
  predicate IsReplaceableSelection(nodes: seq<TreeNode>)
  {
    (forall i :: 0 <= i < |nodes| ==> nodes[i].MemberNode? && IsReplaceableKind(nodes[i].kind)) &&
    (forall i, j :: 0 <= i < |nodes| && 0 <= j < |nodes| ==>
      nodes[i].assemblyFullName == nodes[j].assemblyFullName)
  }

  /** Whether the command is offered for `context`. */
  predicate IsOffered(context: TextViewContext)
  {
    context.selectedTreeNodes.Some? && IsReplaceableSelection(context.selectedTreeNodes.value)
  }

  /** Appending a node adds exactly that node's names. */
  lemma AssemblyNamesSnoc(nodes: seq<TreeNode>, node: TreeNode)
    ensures AssemblyNames(nodes + [node]) == AssemblyNames(nodes) + NamesOf(node)
  {
    var s := nodes + [node];
    forall n | n in AssemblyNames(s)
      ensures n in AssemblyNames(nodes) + NamesOf(node)
    {
      var i :| 0 <= i < |s| && s[i].MemberNode? && s[i].assemblyFullName == n;
      if i < |nodes| {
        assert nodes[i] == s[i];
      }
    }
    forall n | n in AssemblyNames(nodes)
      ensures n in AssemblyNames(s)
    {
      var i :| 0 <= i < |nodes| && nodes[i].MemberNode? && nodes[i].assemblyFullName == n;
      assert s[i] == nodes[i];
    }
    if node.MemberNode? {
      assert s[|nodes|] == node;
    }
  }

  /**
   * For a selection of member nodes, "all from one assembly" is the same as
   * "at most one assembly full name", which is what the finder counts.
   */
  lemma OneAssemblyIffAtMostOneName(nodes: seq<TreeNode>)
    requires forall i :: 0 <= i < |nodes| ==> nodes[i].MemberNode?
    ensures (forall i, j :: 0 <= i < |nodes| && 0 <= j < |nodes| ==>
               nodes[i].assemblyFullName == nodes[j].assemblyFullName)
            <==> |AssemblyNames(nodes)| <= 1
  {
    if forall i, j :: 0 <= i < |nodes| && 0 <= j < |nodes| ==>
         nodes[i].assemblyFullName == nodes[j].assemblyFullName
    {
      if |nodes| == 0 {
        assert AssemblyNames(nodes) == {};
      } else {
        assert AssemblyNames(nodes) == {nodes[0].assemblyFullName};
      }
    } else {
      var i, j :| 0 <= i < |nodes| && 0 <= j < |nodes| &&
                  nodes[i].assemblyFullName != nodes[j].assemblyFullName;
      var a, b := nodes[i].assemblyFullName, nodes[j].assemblyFullName;
      assert {a, b} <= AssemblyNames(nodes);
      assert |{a, b}| == 2;
      SubsetCardinality({a, b}, AssemblyNames(nodes));
    }
  }

  lemma {:induction false} SubsetCardinality(a: set<string>, b: set<string>)
    requires a <= b
    ensures |a| <= |b|
  {
    if a != {} {
      var x :| x in a;
      SubsetCardinality(a - {x}, b - {x});
    }
  }

  /**
   * Per-check state of the gating predicate: the assembly full names of the
   * member nodes seen so far.
   */
  class ReplaceableNodesFinder {
    var assemblyFullNames: set<string>

    constructor()
      ensures assemblyFullNames == {}
    {
      assemblyFullNames := {};
    }

    /**
     * Rejects a non-member node without recording anything; otherwise records
     * the node's assembly full name, then rejects if more than one name has
     * been seen or if the member is not a method, property or event.
     */
    method IsSatisfied(node: TreeNode) returns (satisfied: bool)
      modifies this
      ensures assemblyFullNames == old(assemblyFullNames) + NamesOf(node)
      ensures satisfied <==>
        node.MemberNode? && |assemblyFullNames| <= 1 && IsReplaceableKind(node.kind)
      // consequences of the two clauses above, spelled out: the set only
      // grows, and it holds at most one name after every accepted node
      ensures old(assemblyFullNames) <= assemblyFullNames
      ensures satisfied ==> |assemblyFullNames| <= 1
    {
      if node.NonMember? {
        return false;
      }

      assemblyFullNames := assemblyFullNames + {node.assemblyFullName};
      if 1 < |assemblyFullNames| {
        return false;
      }

      return IsReplaceableKind(node.kind);
    }
  }

  /**
   * Runs one fresh finder over the selection, stopping at the first node it
   * rejects; a null selection is never accepted.
   */
  method AreReplaceableNodesSelected(context: TextViewContext) returns (selected: bool)
    ensures selected <==> IsOffered(context)
    ensures context.selectedTreeNodes.None? ==> !selected
    ensures context.selectedTreeNodes == Some([]) ==> selected
  {
    if context.selectedTreeNodes.None? {
      return false;
    }

    var nodes := context.selectedTreeNodes.value;
    var finder := new ReplaceableNodesFinder();
    var i := 0;
    selected := true;
    while i < |nodes| && selected
      invariant 0 <= i <= |nodes|
      invariant selected ==> finder.assemblyFullNames == AssemblyNames(nodes[..i])
      invariant selected ==> IsReplaceableSelection(nodes[..i])
      invariant !selected ==> !IsReplaceableSelection(nodes)
    {
      FinderStep(nodes, i);
      selected := finder.IsSatisfied(nodes[i]);
      i := i + 1;
    }
    if selected {
      assert nodes[..i] == nodes;
    }
  }

  /**
   * One step of the finder on an accepted prefix: the node is accepted exactly
   * when the extended selection is, and the names seen are the extended
   * selection's names.
   */
  lemma AcceptStep(before: seq<TreeNode>, node: TreeNode)
    requires IsReplaceableSelection(before)
    ensures AssemblyNames(before + [node]) == AssemblyNames(before) + NamesOf(node)
    ensures IsReplaceableSelection(before + [node]) <==>
      node.MemberNode? && |AssemblyNames(before) + NamesOf(node)| <= 1 && IsReplaceableKind(node.kind)
  {
    var after := before + [node];
    AssemblyNamesSnoc(before, node);
    assert after[|before|] == node;
    if node.MemberNode? {
      assert forall i :: 0 <= i < |before| ==> after[i] == before[i];
      OneAssemblyIffAtMostOneName(after);
    }
  }

  /** `AcceptStep` at position `i` of a selection, as the finder loop uses it. */
  lemma FinderStep(nodes: seq<TreeNode>, i: nat)
    requires i < |nodes| && IsReplaceableSelection(nodes[..i])
    ensures AssemblyNames(nodes[..i + 1]) == AssemblyNames(nodes[..i]) + NamesOf(nodes[i])
    ensures var names := AssemblyNames(nodes[..i]) + NamesOf(nodes[i]);
            var accepted := nodes[i].MemberNode? && |names| <= 1 && IsReplaceableKind(nodes[i].kind);
            (accepted ==> IsReplaceableSelection(nodes[..i + 1])) &&
            (!accepted ==> !IsReplaceableSelection(nodes))
  {
    assert nodes[..i + 1] == nodes[..i] + [nodes[i]];
    AcceptStep(nodes[..i], nodes[i]);
    PrefixOfReplaceable(nodes, i + 1);
  }

  /** Every prefix of an accepted selection is accepted. */
  lemma PrefixOfReplaceable(nodes: seq<TreeNode>, n: nat)
    requires n <= |nodes|
    ensures IsReplaceableSelection(nodes) ==> IsReplaceableSelection(nodes[..n])
  {
  }

  /** Whether the command's menu entry is enabled. */
  method IsEnabled(context: TextViewContext) returns (enabled: bool)
    ensures enabled <==> IsOffered(context)
  {
    enabled := AreReplaceableNodesSelected(context);
  }

  /** Whether the command's menu entry is visible: always the same as enabled. */
  method IsVisible(context: TextViewContext) returns (visible: bool)
    ensures visible <==> IsOffered(context)
  {
    visible := AreReplaceableNodesSelected(context);
  }

  /** A selection holding a node that is not a member node is never accepted. */
  lemma NonMemberRejected(nodes: seq<TreeNode>, i: nat)
    requires i < |nodes| && nodes[i].NonMember?
    ensures !IsReplaceableSelection(nodes)
  {
  }

  /** A selection whose members come from two or more assemblies is never accepted. */
  lemma MixedAssembliesRejected(nodes: seq<TreeNode>)
    requires |AssemblyNames(nodes)| >= 2
    ensures !IsReplaceableSelection(nodes)
  {
    if IsReplaceableSelection(nodes) {
      OneAssemblyIffAtMostOneName(nodes);
    }
  }

  /**
   * A selection of member nodes from a single assembly is accepted exactly
   * when every member is a method, property or event definition.
   */
  lemma SingleAssemblyAcceptedIffReplaceableKinds(nodes: seq<TreeNode>, name: string)
    requires forall i :: 0 <= i < |nodes| ==>
      nodes[i].MemberNode? && nodes[i].assemblyFullName == name
    ensures IsReplaceableSelection(nodes) <==>
      forall i :: 0 <= i < |nodes| ==> IsReplaceableKind(nodes[i].kind)
  {
  }

  /**
   * The identifier records of the selected members: each member's conversion
   * output, concatenated in selection order. `perform` stands for creating the
   * member's conversion and running it.
   */
  function GetMethodIds<M>(members: seq<M>, perform: M -> seq<ReflectionMethodId>): (ids: seq<ReflectionMethodId>)
    ensures members != [] ==> perform(members[0]) <= ids
  {
    if members == [] then [] else perform(members[0]) + GetMethodIds(members[1..], perform)
  }

  /** No records at all exactly when every selected member converts to none. */
  lemma {:induction false} GetMethodIdsEmpty<M>(members: seq<M>, perform: M -> seq<ReflectionMethodId>)
    ensures GetMethodIds(members, perform) == [] <==>
      forall i :: 0 <= i < |members| ==> perform(members[i]) == []
  {
    if members != [] {
      GetMethodIdsEmpty(members[1..], perform);
      assert forall i :: 1 <= i < |members| ==> members[i] == members[1..][i - 1];
    }
  }

  /** Flattening distributes over concatenation of selections. */
  lemma {:induction false} GetMethodIdsAppend<M>(a: seq<M>, b: seq<M>, perform: M -> seq<ReflectionMethodId>)
    ensures GetMethodIds(a + b, perform) == GetMethodIds(a, perform) + GetMethodIds(b, perform)
  {
    if a == [] {
      assert a + b == b;
    } else {
      assert (a + b)[1..] == a[1..] + b;
      GetMethodIdsAppend(a[1..], b, perform);
    }
  }

  /**
   * The records of the `i`-th member sit, unchanged and contiguous, right after
   * the records of all members before it.
   */
  lemma GetMethodIdsSlice<M>(members: seq<M>, perform: M -> seq<ReflectionMethodId>, i: nat)
    requires i < |members|
    ensures var ids := GetMethodIds(members, perform);
            var start := |GetMethodIds(members[..i], perform)|;
            start + |perform(members[i])| <= |ids| &&
            ids[start..start + |perform(members[i])|] == perform(members[i])
  {
    var before, here, after := members[..i], [members[i]], members[i + 1..];
    assert members == before + (here + after);
    GetMethodIdsAppend(before, here + after, perform);
    GetMethodIdsAppend(here, after, perform);
    assert GetMethodIds(here, perform) == perform(members[i]) by {
      assert here[1..] == [];
    }
  }

  /** Every record comes from the conversion of some selected member. */
  lemma {:induction false} GetMethodIdsSources<M>(members: seq<M>, perform: M -> seq<ReflectionMethodId>, k: nat)
    requires k < |GetMethodIds(members, perform)|
    ensures exists i :: 0 <= i < |members| && GetMethodIds(members, perform)[k] in perform(members[i])
  {
    var first := perform(members[0]);
    if k < |first| {
      assert GetMethodIds(members, perform)[k] == first[k];
    } else {
      GetMethodIdsSources(members[1..], perform, k - |first|);
      var i :| 0 <= i < |members[1..]| &&
               GetMethodIds(members[1..], perform)[k - |first|] in perform(members[1..][i]);
      assert members[1..][i] == members[i + 1];
    }
  }

  /** The total number of accessors of a selection of properties. */
  function TotalAccessorCount(props: seq<PropertyConversion.PropertyDefinition>): nat
  {
    if props == [] then 0
    else PropertyConversion.AccessorCount(props[0]) + TotalAccessorCount(props[1..])
  }

  /**
   * For a selection of properties, one record per existing accessor, and every
   * record carries the declaring-type token of one of the selected properties.
   */
  lemma {:induction false} PropertySelectionRecords(props: seq<PropertyConversion.PropertyDefinition>)
    ensures var ids := GetMethodIds(props, PropertyConversion.PropertyMethodIds);
            |ids| == TotalAccessorCount(props) &&
            forall k :: 0 <= k < |ids| ==>
              exists i :: 0 <= i < |props| && ids[k].typeToken == props[i].declaringType.token
  {
    var ids := GetMethodIds(props, PropertyConversion.PropertyMethodIds);
    if props != [] {
      PropertySelectionRecords(props[1..]);
    }
    forall k | 0 <= k < |ids|
      ensures exists i :: 0 <= i < |props| && ids[k].typeToken == props[i].declaringType.token
    {
      GetMethodIdsSources(props, PropertyConversion.PropertyMethodIds, k);
      var i :| 0 <= i < |props| && ids[k] in PropertyConversion.PropertyMethodIds(props[i]);
      var own := PropertyConversion.PropertyMethodIds(props[i]);
      var j :| 0 <= j < |own| && own[j] == ids[k];
    }
  }
}
