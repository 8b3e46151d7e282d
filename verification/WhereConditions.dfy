/** whereClause as the builders run it: over linked condition nodes, marking each comparison it
    prints. */
module WhereConditions {
  import opened Sql
  import opened Filters
  import Placeholders

  class WhereConditionNode {
    var field: Field
    var operator: string
    var opSource: string
    var opArgs: seq<string>
    var opModifier: string
    var not: bool
    var values: seq<string>
    var inserted: bool
    var children: seq<WhereConditionNode>

    ghost var tree: Node          // the tree this node is the root of
    ghost var Repr: set<object>

    ghost predicate Valid()
      reads this, Repr
      ensures Valid() ==> this in Repr
      decreases tree
    {
      && this in Repr
      && tree == Node(field, operator, opSource, opArgs, opModifier, not, values, inserted, tree.children)
      && |tree.children| == |children|
      && (forall i :: 0 <= i < |children| ==>
            && children[i] in Repr && children[i].Repr <= Repr && this !in children[i].Repr
            && children[i].tree == tree.children[i]
            && children[i].Valid())
      && (forall i, j :: 0 <= i < j < |children| ==> children[i].Repr !! children[j].Repr)
    }

    constructor ()
      ensures Valid() && fresh(Repr) && Repr == {this} && tree == ROOT && children == []
    {
      field, operator, opSource, opArgs, opModifier := NO_FIELD, "", "", [], "";
      not, values, inserted, children := false, [], false, [];
      tree := ROOT;
      Repr := {this};
    }

    /** Brings the ghost tree of a childless node up to date. */
    ghost method Sync()
      requires this in Repr && children == []
      modifies this`tree
      ensures Valid() && tree == Node(field, operator, opSource, opArgs, opModifier, not, values, inserted, [])
    {
      tree := Node(field, operator, opSource, opArgs, opModifier, not, values, inserted, []);
    }

    /** Hangs a finished node under this one. */
    method AddChild(c: WhereConditionNode)
      requires Valid() && c.Valid() && Repr !! c.Repr
      modifies this`children, this`tree, this`Repr
      ensures Valid() && Repr == old(Repr) + c.Repr
      ensures tree == old(tree).(children := old(tree).children + [c.tree])
    {
      children := children + [c];
      tree := tree.(children := tree.children + [c.tree]);
      Repr := Repr + c.Repr;
    }

    /** Appends to the node's values. */
    method AddValues(vs: seq<string>)
      requires Valid()
      modifies this`values, this`tree
      ensures Valid() && Repr == old(Repr) && tree == old(tree).(values := old(tree).values + vs)
    {
      values := values + vs;
      tree := tree.(values := values);
    }
  }

  /** appendValue: extends the condition's arguments, the value list and the marker. */
  method AppendTo(value: string, args: seq<Arg>, valueList: seq<Value>, nmarker: int, forceParam: bool)
    returns (args': seq<Arg>, valueList': seq<Value>, nmarker': int)
    ensures var (a, l) := AppendValue(value, nmarker, forceParam);
      args' == args + [a] && (args == [] ==> args' == [a]) && valueList' == valueList + l && nmarker' == Advance(nmarker, l)
  {
    args', valueList', nmarker' := args, valueList, nmarker;
    if !forceParam && value == "not_null" {
      args' := args' + [Keyword("NOT NULL")];
    } else if !forceParam && (value == "null" || value == "true" || value == "false" || value == "unknown") {
      args' := args' + [Keyword(value)];
    } else if nmarker >= 0 {
      nmarker' := nmarker + 1;
      args' := args' + [Marker(nmarker')];
      valueList' := valueList' + [Str(value)];
    } else {
      args' := args' + [Literal(value)];
    }
  }

  /** The loop of the any/all modifiers: one comparison per value. */
  method ModifiedClause(node: WhereConditionNode, lhs: Operand, table: string, info: Schema, nmarker: int)
    returns (list: seq<Tok>, valueList: seq<Value>)
    requires node.Valid() && node.opModifier != "" && lhs == OperandOf(node.tree, table, info)
    ensures (list, valueList) == ModifiedUpTo(node.tree, |node.values|, table, info, nmarker)
  {
    hide AppendValue, OperandOf;
    ghost var n := node.tree;
    var m, args := nmarker, [];
    list, valueList := [], [];
    for i := 0 to |node.values|
      invariant (list, valueList) == ModifiedUpTo(n, i, table, info, nmarker)
      invariant m == Advance(nmarker, valueList)
    {
      if i != 0 {
        list := list + [if node.opModifier == "any" then OrT else AndT];
      }
      args, valueList, m := AppendTo(node.values[i], [], valueList, m, node.field.jsonPath != "");
      list := list + [Cond(Compare(lhs, node.operator, "", [], args))];
    }
  }

  /** The loop of IN: one argument per value. */
  method ListArgs(node: WhereConditionNode, nmarker: int) returns (args: seq<Arg>, valueList: seq<Value>)
    requires node.Valid()
    ensures (args, valueList) == ArgsUpTo(node.tree, |node.values|, nmarker, node.field.jsonPath != "")
  {
    hide AppendValue;
    ghost var n := node.tree;
    var m := nmarker;
    args, valueList := [], [];
    for i := 0 to |node.values|
      invariant (args, valueList) == ArgsUpTo(n, i, nmarker, n.field.jsonPath != "")
      invariant m == Advance(nmarker, valueList)
    {
      args, valueList, m := AppendTo(node.values[i], args, valueList, m, node.field.jsonPath != "");
    }
  }

  /** The comparison branch: what one leaf prints. */
  method LeafClause(node: WhereConditionNode, table: string, info: Schema, nmarker: int)
    returns (where: seq<Tok>, valueList: seq<Value>)
    requires node.Valid() && !IsGroup(node.tree) && HasOperands(node.tree)
    ensures where == LeafWhere(node.tree, table, info, nmarker).0
    ensures valueList == LeafWhere(node.tree, table, info, nmarker).1
  {
    ghost var n := node.tree;
    where, valueList := if node.not then [NotT] else [], [];
    var m := nmarker;
    var args;
    var isList := node.opModifier == "" && node.operator == "IN";
    var force := node.field.jsonPath != "";
    var lhs := OperandOf(Node(node.field, node.operator, node.opSource, node.opArgs, node.opModifier,
                              node.not, node.values, node.inserted, []), table, info);
    assert lhs == OperandOf(n, table, info);
    if node.opModifier != "" {
      var list;
      list, valueList := ModifiedClause(node, lhs, table, info, nmarker);
      where := where + [LPar] + list + [RPar];
    } else if isList && |node.values| == 0 {
      where := where + [Cond(Compare(lhs, "= ANY('{}')", "", [], []))];
    } else if isList {
      args, valueList := ListArgs(node, nmarker);
      where := where + [Cond(Compare(lhs, "IN", "", [], args))];
    } else if node.operator == "@@" {
      args, valueList, m := AppendTo(node.values[0], [], valueList, m, false);
      where := where + [Cond(Compare(lhs, "@@", TsFunction(node.opSource), node.opArgs, args))];
    } else {
      args, valueList, m := AppendTo(node.values[0], [], valueList, m, force);
      where := where + [Cond(Compare(lhs, node.operator, "", [], args))];
    }
  }

  /** The condition of the tree under `node`, and the tree with the printed comparisons marked. */
  method WhereClause(table: string, info: Schema, node: WhereConditionNode, nmarker: int)
    returns (where: seq<Tok>, valueList: seq<Value>)
    requires node.Valid() && AllHaveOperands(node.tree) && nmarker >= -1
    modifies node.Repr
    ensures node.Valid() && node.Repr == old(node.Repr)
    ensures (where, valueList) == Where(old(node.tree), table, info, nmarker)
    ensures node.tree == Marked(old(node.tree))
    decreases node.tree, 1
  {
    where, valueList := [], [];
    if node.operator == "" || node.field.name == "" {
      var not, operator := node.not, node.operator;
      if not {
        where := where + [NotT];
      }
      if not || operator == "OR" {
        where := where + [LPar];
      }
      ghost var pre := where;
      var body;
      body, valueList := Children(table, info, node, nmarker);
      where := where + body;
      if not || operator == "OR" {
        where := where + [RPar];
      }
      assert pre == (if not then [NotT] else []) + (if not || operator == "OR" then [LPar] else []);
      assert where == pre + body + (if not || operator == "OR" then [RPar] else []);
    } else if !node.inserted {
      where, valueList := LeafClause(node, table, info, nmarker);
      node.inserted := true;
      node.tree := node.tree.(inserted := true);
    }
  }

  /** The loop over a group's children. */
  method Children(table: string, info: Schema, node: WhereConditionNode, nmarker: int)
    returns (where: seq<Tok>, valueList: seq<Value>)
    requires node.Valid() && IsGroup(node.tree) && AllHaveOperands(node.tree) && nmarker >= -1
    modifies node.Repr
    ensures node.Valid() && node.Repr == old(node.Repr)
    ensures (where, valueList) == WhereUpTo(old(node.tree), |old(node.tree).children|, table, info, nmarker)
    ensures node.tree == Marked(old(node.tree))
    decreases node.tree, 0
  {
    ghost var n := node.tree;
    where, valueList := [], [];
    var m := nmarker;
    for k := 0 to |node.children|
      invariant Halfway(node, n, k) && node.Repr == old(node.Repr)
      invariant (where, valueList) == WhereUpTo(n, k, table, info, nmarker)
      invariant m == Advance(nmarker, valueList)
    {
      where, valueList, m := PrintChild(table, info, node, k, where, valueList, m, n, nmarker);
    }
  }

  /** The first k children of the tree n have been printed and marked. */
  ghost predicate Halfway(node: WhereConditionNode, n: Node, k: nat)
    reads node, node.Repr
  {
    && node.Valid()
    && |node.children| == |n.children| && k <= |n.children|
    && node.tree == n.(children := MarkedUpTo(n, k))
    && forall i :: k <= i < |n.children| ==> node.tree.children[i] == n.children[i]
  }

  /** One turn of that loop; children of an embedded resource are printed with that resource. */
  method PrintChild(table: string, info: Schema, node: WhereConditionNode, k: nat,
                    where: seq<Tok>, valueList: seq<Value>, m: int, ghost n: Node, ghost m0: int)
    returns (where': seq<Tok>, valueList': seq<Value>, m': int)
    requires Halfway(node, n, k) && k < |n.children| && IsGroup(n) && AllHaveOperands(n) && m0 >= -1
    requires (where, valueList) == WhereUpTo(n, k, table, info, m0) && m == Advance(m0, valueList)
    modifies node`tree, node.children[k].Repr
    ensures Halfway(node, n, k + 1) && node.Repr == old(node.Repr)
    ensures (where', valueList') == WhereUpTo(n, k + 1, table, info, m0) && m' == Advance(m0, valueList')
    decreases node.tree.children[k], 3
  {
    where', valueList', m' := where, valueList, m;
    assert node.children[k].Valid() && node.children[k].tree == n.children[k];
    assert n.children[k] in n.children;
    assert OnTable(n.children[k]) <==> node.children[k].field.relPath == [];
    assert MarkedUpTo(n, k + 1) == if OnTable(n.children[k]) then MarkedUpTo(n, k)[k := Marked(n.children[k])] else MarkedUpTo(n, k);
    var op := if node.operator == "OR" then OrT else AndT;
    if |node.children[k].field.relPath| == 0 {
      var w, list := RunChild(table, info, node, k, m);
      Placeholders.WhereNumbered(n.children[k], table, info, m);
      if where != [] {
        where' := where + [op];
      }
      where' := where' + w;
      valueList' := valueList + list;
      m' := m + |list|;
    }
  }

  /** One recursive call, which also brings the parent's tree up to date. */
  method RunChild(table: string, info: Schema, node: WhereConditionNode, k: nat, m: int)
    returns (where: seq<Tok>, valueList: seq<Value>)
    requires node.Valid() && k < |node.children| && AllHaveOperands(node.tree.children[k]) && m >= -1
    modifies node`tree, node.children[k].Repr
    ensures node.Valid() && node.Repr == old(node.Repr) && node.children == old(node.children)
    ensures (where, valueList) == Where(old(node.tree.children[k]), table, info, m)
    ensures node.tree == old(node.tree).(children := old(node.tree.children)[k := Marked(old(node.tree.children[k]))])
    decreases node.tree.children[k], 2
  {
    var child := node.children[k];
    where, valueList := WhereClause(table, info, child, m);
    node.tree := node.tree.(children := node.tree.children[k := child.tree]);
  }
}
