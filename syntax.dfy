/**
 * The abstract syntax and type information the analyzer consumes: a Go
 * package as a list of files, each file a tree of nodes, with the answers of
 * the type checker (`TypesInfo.Defs`, `Selections`, `TypeOf`, `ObjectOf`)
 * attached to the nodes that ask for them.
 */
module Syntax {
  import opened Wrappers

  /** A token.Pos; 0 is token.NoPos. */
  type Pos = nat
  const NoPos: Pos := 0

  /** The identity of an AST node (a pointer in Go). */
  type NodeId = nat

  /** A *types.TypeName: an opaque identity plus the declared name. */
  datatype TypeName = TypeName(id: nat, name: string)

  /** A types.Type, with `Struct` and `Other` identified by opaque ids. */
  datatype Type =
    | Named(named: NamedType)
    | Pointer(elem: Type)
    | Struct(id: nat)
    | Other(id: nat)

  /** A *types.Named: its type name and its underlying type. */
  datatype NamedType = NamedType(obj: TypeName, underlying: Type)

  /** What types.Info.Defs gives for a declared name. */
  datatype Object = NoObject | TypeNameObject(typeName: TypeName) | OtherObject

  /** A name of a struct field (an *ast.Ident in the field's name list). */
  datatype FieldName = FieldName(name: string, pos: Pos)

  /**
   * An *ast.Field of a struct type: its names, its doc comment group (above
   * it) and its line comment group (after it); each group is absent (nil) or
   * the list of its comment texts, `//` included.
   */
  datatype Field = Field(names: seq<FieldName>, doc: Option<seq<string>>, comment: Option<seq<string>>)

  /** The type expression of a type spec: a struct type literal or anything else. */
  datatype TypeExpr = StructType(fields: seq<Field>) | OtherTypeExpr

  /**
   * An *ast.FuncDecl: its name, doc comment group, position, and the resolved
   * types (TypeOf, absent when unresolved) of its receiver fields and result
   * fields; `recv` and `results` are absent when the declaration has none.
   */
  datatype FuncDecl = FuncDecl(
    name: string,
    doc: Option<seq<string>>,
    pos: Pos,
    recv: Option<seq<Option<Type>>>,
    results: Option<seq<Option<Type>>>)

  /** The kind of a selection (types.Selection.Kind). */
  datatype SelectionKind = FieldVal | MethodVal | MethodExpr

  /** A types.Selection: its kind and its receiver type. */
  datatype Selection = Selection(kind: SelectionKind, recv: Option<Type>)

  /** The token of an assignment statement: `:=`, `=`, or an operator such as `+=`. */
  datatype AssignToken = Define | Assign | OpAssign

  /**
   * What a node is. An assignment's first `lhsCount` children are its
   * left-hand sides. An identifier carries the position of the object it
   * resolves to (ObjectOf), absent when it resolves to none; a selector
   * carries its selection (absent when it is not a selection).
   */
  datatype NodeKind =
    | TypeSpecNode(def: Object, typeExpr: TypeExpr)
    | FuncDeclNode(decl: FuncDecl)
    | AssignNode(tok: AssignToken, lhsCount: nat)
    | IdentNode(name: string, pos: Pos, objPos: Option<Pos>)
    | SelectorNode(sel: string, pos: Pos, selection: Option<Selection>)
    | OtherNode

  /** An AST node with its identity, kind and children in source order. */
  datatype Node = Node(id: NodeId, kind: NodeKind, children: seq<Node>)

  /** A package being analysed: its import path and its files. */
  datatype Package = Package(path: string, files: seq<Node>)

  /** The left-hand sides of an assignment node. */
  function Lhs(n: Node): (r: seq<Node>)
    requires n.kind.AssignNode?
    ensures |r| == if n.kind.lhsCount <= |n.children| then n.kind.lhsCount else |n.children|
    ensures forall i | 0 <= i < |r| :: r[i] == n.children[i]
  {
    if n.kind.lhsCount <= |n.children| then n.children[..n.kind.lhsCount] else n.children
  }

  /** The nodes of a tree in the order ast.Inspect visits them: a node, then its children's trees. */
  function Preorder(n: Node): (r: seq<Node>)
    ensures |r| >= 1 && r[0] == n
    decreases n, 1
  {
    [n] + PreorderSeq(n.children)
  }

  /** The preorders of a list of trees, one after the other. */
  function PreorderSeq(ns: seq<Node>): seq<Node>
    decreases ns, 0
  {
    if ns == [] then [] else Preorder(ns[0]) + PreorderSeq(ns[1..])
  }

  /** Preorder distributes over splitting a list of trees. */
  lemma {:induction false} PreorderSeqAppend(a: seq<Node>, b: seq<Node>)
    ensures PreorderSeq(a + b) == PreorderSeq(a) + PreorderSeq(b)
    decreases |a|
  {
    if a != [] {
      assert (a + b)[1..] == a[1..] + b;
      PreorderSeqAppend(a[1..], b);
    } else {
      assert a + b == b;
    }
  }

  /** Preorder of one more tree at the end of a list. */
  lemma PreorderSeqSnoc(a: seq<Node>, n: Node)
    ensures PreorderSeq(a + [n]) == PreorderSeq(a) + Preorder(n)
  {
    PreorderSeqAppend(a, [n]);
    assert [n][1..] == [];
  }
}
