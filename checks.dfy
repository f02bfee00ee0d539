/**
 * The third pass of the analyzer and its entry point: every assignment that is
 * not a short variable declaration has each left-hand side checked as a field
 * write (`checkAssignment`) and as a parameter write (`checkParamAssignment`),
 * and `run` chains the three passes over a package.
 */
module Checks {
  import opened Wrappers
  import opened Syntax
  import opened Tables
  import opened Markers
  import opened AstPath
  import opened Classify

  /**
   * A reported diagnostic: where the write is, what it writes, and where the
   * marker was recorded (a field name's position, or the position of the
   * function declaration that lists the parameter).
   */
  datatype Diagnostic =
    | ConstFieldWrite(pos: Pos, typeName: string, field: string, markedAt: Pos)
    | ConstParamWrite(pos: Pos, param: string, markedAt: Pos)

  /** The named type behind a selection's receiver: a named type, or one pointer to one. */
  function ReceiverNamed(recv: Type): (r: Option<NamedType>)
    ensures r.Some? <==> recv.Named? || (recv.Pointer? && recv.elem.Named?)
    ensures r.Some? ==> recv == Named(r.value) || recv == Pointer(Named(r.value))
  {
    match recv
    case Named(nt) => Some(nt)
    case Pointer(Named(nt)) => Some(nt)
    case _ => None
  }

  /**
   * `lhs` selects field `lhs.kind.sel` of a value whose type is `nt` or a
   * pointer to `nt`.
   */
  predicate SelectsField(lhs: Node, nt: NamedType) {
    && lhs.kind.SelectorNode?
    && lhs.kind.selection.Some?
    && lhs.kind.selection.value.kind == FieldVal
    && lhs.kind.selection.value.recv.Some?
    && ReceiverNamed(lhs.kind.selection.value.recv.value) == Some(nt)
  }

  /** What checkAssignment reports for one left-hand side, if anything. */
  function FieldReport(files: seq<Node>, constFields: FieldTable, lhs: Node): Option<Diagnostic> {
    if !lhs.kind.SelectorNode? || lhs.kind.selection.None? then None
    else
      var selection := lhs.kind.selection.value;
      if selection.kind != FieldVal || selection.recv.None? then None
      else match ReceiverNamed(selection.recv.value)
        case None => None
        case Some(nt) =>
          var cf := FieldKey(nt.obj, lhs.kind.sel);
          if cf in constFields && !InConstructor(EnclosingFuncDecl(files, lhs.id), nt)
          then Some(ConstFieldWrite(lhs.kind.pos, nt.obj.name, lhs.kind.sel, constFields[cf]))
          else None
  }

  /**
   * A field write is reported exactly when the left-hand side selects a field
   * of a named struct (through at most one pointer), that field of that type
   * is in the table, and the write is not in a constructor of the type; the
   * report names the type and field and the recorded marker position.
   */
  lemma FieldReportSpec(files: seq<Node>, constFields: FieldTable, lhs: Node)
    ensures FieldReport(files, constFields, lhs).Some? <==>
              exists nt :: SelectsField(lhs, nt) && FieldKey(nt.obj, lhs.kind.sel) in constFields
                           && !InConstructor(EnclosingFuncDecl(files, lhs.id), nt)
    ensures forall nt | SelectsField(lhs, nt) && FieldReport(files, constFields, lhs).Some? ::
              FieldReport(files, constFields, lhs).value
              == ConstFieldWrite(lhs.kind.pos, nt.obj.name, lhs.kind.sel, constFields[FieldKey(nt.obj, lhs.kind.sel)])
  {
    if FieldReport(files, constFields, lhs).Some? {
      var nt := ReceiverNamed(lhs.kind.selection.value.recv.value).value;
      assert SelectsField(lhs, nt);
    }
  }

  /** checkAssignment (and its wrapper checkFieldAssignment). */
  method CheckFieldAssignment(files: seq<Node>, expr: Node, constFields: FieldTable) returns (d: Option<Diagnostic>)
    ensures d == FieldReport(files, constFields, expr)
  {
    if !expr.kind.SelectorNode? || expr.kind.selection.None? {
      return None;
    }
    var selection := expr.kind.selection.value;
    if selection.kind != FieldVal || selection.recv.None? {
      return None;
    }
    var recvType := selection.recv.value;
    var namedType: NamedType;
    match recvType {
      case Named(t) =>
        namedType := t;
      case Pointer(elem) =>
        if elem.Named? {
          namedType := elem.named;
        } else {
          return None;
        }
      case _ =>
        return None;
    }
    var cf := FieldKey(namedType.obj, expr.kind.sel);
    if cf in constFields {
      var inConstructor := IsInConstructor(files, expr.id, namedType);
      if !inConstructor {
        return Some(ConstFieldWrite(expr.kind.pos, namedType.obj.name, expr.kind.sel, constFields[cf]));
      }
    }
    return None;
  }

  /**
   * `lhs` is an identifier that resolves to an object with a position, and
   * the analyzer takes `fd` as its enclosing function declaration.
   */
  predicate NamesVariableIn(files: seq<Node>, lhs: Node, fd: FuncDecl) {
    && lhs.kind.IdentNode?
    && lhs.kind.objPos.Some?
    && lhs.kind.objPos.value != NoPos
    && EnclosingFuncDecl(files, lhs.id) == Some(fd)
  }

  /** What checkParamAssignment reports for one left-hand side, if anything. */
  function ParamReport(files: seq<Node>, constParams: ParamTable, pkgPath: string, lhs: Node): Option<Diagnostic> {
    if !lhs.kind.IdentNode? then None
    else match EnclosingFuncDecl(files, lhs.id)
      case None => None
      case Some(fd) =>
        if lhs.kind.objPos.None? || lhs.kind.objPos.value == NoPos then None
        else
          var cp := ParamKey(fd.name, lhs.kind.name, pkgPath);
          if cp in constParams then Some(ConstParamWrite(lhs.kind.pos, lhs.kind.name, constParams[cp])) else None
  }

  /**
   * A parameter write is reported exactly when the left-hand side is an
   * identifier with a resolved object inside a function declaration whose
   * (name, identifier, package) key is in the table; the identifier is not
   * required to be that function's parameter.
   */
  lemma ParamReportSpec(files: seq<Node>, constParams: ParamTable, pkgPath: string, lhs: Node)
    ensures ParamReport(files, constParams, pkgPath, lhs).Some? <==>
              exists fd :: NamesVariableIn(files, lhs, fd) && ParamKey(fd.name, lhs.kind.name, pkgPath) in constParams
    ensures forall fd | NamesVariableIn(files, lhs, fd) && ParamReport(files, constParams, pkgPath, lhs).Some? ::
              ParamReport(files, constParams, pkgPath, lhs).value
              == ConstParamWrite(lhs.kind.pos, lhs.kind.name, constParams[ParamKey(fd.name, lhs.kind.name, pkgPath)])
  {
    if ParamReport(files, constParams, pkgPath, lhs).Some? {
      var fd := EnclosingFuncDecl(files, lhs.id).value;
      assert NamesVariableIn(files, lhs, fd);
    }
  }

  /** checkParamAssignment. */
  method CheckParamAssignment(files: seq<Node>, expr: Node, constParams: ParamTable, packagePath: string)
    returns (d: Option<Diagnostic>)
    ensures d == ParamReport(files, constParams, packagePath, expr)
  {
    if !expr.kind.IdentNode? {
      return None;
    }
    var funcDecl := FindEnclosingFuncDecl(files, expr.id);
    if funcDecl.None? {
      return None;
    }
    if expr.kind.objPos.None? || expr.kind.objPos.value == NoPos {
      return None;
    }
    var cp := ParamKey(funcDecl.value.name, expr.kind.name, packagePath);
    if cp in constParams {
      return Some(ConstParamWrite(expr.kind.pos, expr.kind.name, constParams[cp]));
    }
    return None;
  }

  /** The diagnostic an optional report contributes. */
  function Reported(d: Option<Diagnostic>): seq<Diagnostic> {
    if d.Some? then [d.value] else []
  }

  /** What one left-hand side contributes: its field report, then its parameter report. */
  function LhsDiagnostics(files: seq<Node>, constFields: FieldTable, constParams: ParamTable, pkgPath: string, lhs: Node)
    : seq<Diagnostic>
  {
    Reported(FieldReport(files, constFields, lhs)) + Reported(ParamReport(files, constParams, pkgPath, lhs))
  }

  /**
   * A left-hand side draws at most one diagnostic: a selector can only be a
   * field write and an identifier only a parameter write.
   */
  lemma LhsAtMostOne(files: seq<Node>, constFields: FieldTable, constParams: ParamTable, pkgPath: string, lhs: Node)
    ensures |LhsDiagnostics(files, constFields, constParams, pkgPath, lhs)| <= 1
    ensures forall d | d in LhsDiagnostics(files, constFields, constParams, pkgPath, lhs) ::
              (d.ConstFieldWrite? ==> lhs.kind.SelectorNode? && d.pos == lhs.kind.pos && d.field == lhs.kind.sel)
              && (d.ConstParamWrite? ==> lhs.kind.IdentNode? && d.pos == lhs.kind.pos && d.param == lhs.kind.name)
  {
  }

  /** What one node contributes to the third pass: only `=` and operator assignments are checked. */
  function AssignDiagnostics(files: seq<Node>, constFields: FieldTable, constParams: ParamTable, pkgPath: string, n: Node)
    : seq<Diagnostic>
  {
    if !n.kind.AssignNode? || n.kind.tok == Define then []
    else LhsListDiagnostics(files, constFields, constParams, pkgPath, Lhs(n))
  }

  /** What a list of left-hand sides contributes, in order. */
  function LhsListDiagnostics(files: seq<Node>, constFields: FieldTable, constParams: ParamTable, pkgPath: string, lhsList: seq<Node>)
    : seq<Diagnostic>
  {
    Concat(lhsList, lhs => LhsDiagnostics(files, constFields, constParams, pkgPath, lhs))
  }

  /** What the third pass contributes for a list of nodes, in order. */
  function Scan(files: seq<Node>, nodes: seq<Node>, constFields: FieldTable, constParams: ParamTable, pkgPath: string)
    : seq<Diagnostic>
  {
    Concat(nodes, n => AssignDiagnostics(files, constFields, constParams, pkgPath, n))
  }

  /** The diagnostics of a package, in the order the analyzer reports them. */
  function Analysis(pkg: Package): seq<Diagnostic> {
    var nodes := PreorderSeq(pkg.files);
    Scan(pkg.files, nodes, FieldIndex(nodes), ParamIndex(nodes, pkg.path), pkg.path)
  }

  /** One more left-hand side adds its field report, then its parameter report, after the earlier ones. */
  lemma LhsListStep(files: seq<Node>, constFields: FieldTable, constParams: ParamTable, pkgPath: string, lhsList: seq<Node>, k: nat)
    requires k < |lhsList|
    ensures LhsListDiagnostics(files, constFields, constParams, pkgPath, lhsList[..k + 1])
            == LhsListDiagnostics(files, constFields, constParams, pkgPath, lhsList[..k])
                 + Reported(FieldReport(files, constFields, lhsList[k]))
                 + Reported(ParamReport(files, constParams, pkgPath, lhsList[k]))
  {
    assert lhsList[..k + 1][..k] == lhsList[..k];
  }

  /** One more node adds its diagnostics after the earlier ones. */
  lemma ScanStep(files: seq<Node>, nodes: seq<Node>, constFields: FieldTable, constParams: ParamTable, pkgPath: string, i: nat)
    requires i < |nodes|
    ensures Scan(files, nodes[..i + 1], constFields, constParams, pkgPath)
            == Scan(files, nodes[..i], constFields, constParams, pkgPath)
                 + AssignDiagnostics(files, constFields, constParams, pkgPath, nodes[i])
  {
    assert nodes[..i + 1][..i] == nodes[..i];
  }

  /** The loop over one assignment's left-hand sides (lines 175-178). */
  method CheckAssign(files: seq<Node>, assignStmt: Node, constFields: FieldTable, constParams: ParamTable, packagePath: string)
    returns (diags: seq<Diagnostic>)
    requires assignStmt.kind.AssignNode?
    ensures diags == LhsListDiagnostics(files, constFields, constParams, packagePath, Lhs(assignStmt))
  {
    var lhsList := Lhs(assignStmt);
    diags := [];
    for k := 0 to |lhsList|
      invariant diags == LhsListDiagnostics(files, constFields, constParams, packagePath, lhsList[..k])
    {
      var lhs := lhsList[k];
      LhsListStep(files, constFields, constParams, packagePath, lhsList, k);
      var fieldReport := CheckFieldAssignment(files, lhs, constFields);
      var paramReport := CheckParamAssignment(files, lhs, constParams, packagePath);
      diags := diags + Reported(fieldReport) + Reported(paramReport);
    }
    assert lhsList[..|lhsList|] == lhsList;
  }

  /** One node of the third pass (lines 163-179). */
  method CheckNode(files: seq<Node>, n: Node, constFields: FieldTable, constParams: ParamTable, packagePath: string)
    returns (diags: seq<Diagnostic>)
    ensures diags == AssignDiagnostics(files, constFields, constParams, packagePath, n)
  {
    if !n.kind.AssignNode? {
      return [];
    }
    // short variable declarations (`:=`) are skipped
    if n.kind.tok == Define {
      return [];
    }
    diags := CheckAssign(files, n, constFields, constParams, packagePath);
  }

  /** The third pass: every node in traversal order. */
  method ScanAssignments(files: seq<Node>, nodes: seq<Node>, constFields: FieldTable, constParams: ParamTable, packagePath: string)
    returns (diags: seq<Diagnostic>)
    ensures diags == Scan(files, nodes, constFields, constParams, packagePath)
  {
    diags := [];
    for i := 0 to |nodes|
      invariant diags == Scan(files, nodes[..i], constFields, constParams, packagePath)
    {
      ScanStep(files, nodes, constFields, constParams, packagePath, i);
      var ds := CheckNode(files, nodes[i], constFields, constParams, packagePath);
      diags := diags + ds;
    }
    assert nodes[..|nodes|] == nodes;
  }

  /**
   * run: build the field table, then the parameter table, then check every
   * assignment of the package in traversal order.
   */
  method Run(pkg: Package) returns (diags: seq<Diagnostic>)
    ensures diags == Analysis(pkg)
  {
    var nodes := PreorderSeq(pkg.files);
    var constFields := BuildFieldIndex(nodes);
    var constParams := BuildParamIndex(nodes, pkg.path);
    diags := ScanAssignments(pkg.files, nodes, constFields, constParams, pkg.path);
  }

  // ------------------------------------------------------------ properties of the analysis

  /** `lhs` is a left-hand side of `a`, a `=` or operator assignment among the package's nodes. */
  predicate AssignedIn(nodes: seq<Node>, a: Node, lhs: Node) {
    && a in nodes
    && a.kind.AssignNode?
    && a.kind.tok != Define
    && lhs in Lhs(a)
  }

  /**
   * Every diagnostic of the scan is drawn by some left-hand side of a
   * non-declaring assignment among the nodes; `:=` statements contribute
   * nothing.
   */
  lemma ScanSound(files: seq<Node>, nodes: seq<Node>, fields: FieldTable, params: ParamTable, pkgPath: string, d: Diagnostic)
    returns (a: Node, lhs: Node)
    requires d in Scan(files, nodes, fields, params, pkgPath)
    ensures AssignedIn(nodes, a, lhs) && d in LhsDiagnostics(files, fields, params, pkgPath, lhs)
  {
    var g := l => LhsDiagnostics(files, fields, params, pkgPath, l);
    var f := n => AssignDiagnostics(files, fields, params, pkgPath, n);
    assert Scan(files, nodes, fields, params, pkgPath) == Concat(nodes, f);
    ConcatSpec(nodes, f, d);
    var i :| 0 <= i < |nodes| && d in f(nodes[i]);
    a := nodes[i];
    assert a.kind.AssignNode? && a.kind.tok != Define;
    assert f(a) == LhsListDiagnostics(files, fields, params, pkgPath, Lhs(a)) == Concat(Lhs(a), g);
    ConcatSpec(Lhs(a), g, d);
    var j :| 0 <= j < |Lhs(a)| && d in g(Lhs(a)[j]);
    lhs := Lhs(a)[j];
  }

  /** Whatever a left-hand side of a non-declaring assignment among the nodes draws is in the scan. */
  lemma ScanComplete(files: seq<Node>, nodes: seq<Node>, fields: FieldTable, params: ParamTable, pkgPath: string,
                     a: Node, lhs: Node, d: Diagnostic)
    requires AssignedIn(nodes, a, lhs) && d in LhsDiagnostics(files, fields, params, pkgPath, lhs)
    ensures d in Scan(files, nodes, fields, params, pkgPath)
  {
    var g := l => LhsDiagnostics(files, fields, params, pkgPath, l);
    var f := n => AssignDiagnostics(files, fields, params, pkgPath, n);
    assert Scan(files, nodes, fields, params, pkgPath) == Concat(nodes, f);
    var j :| 0 <= j < |Lhs(a)| && Lhs(a)[j] == lhs;
    assert d in g(Lhs(a)[j]);
    assert f(a) == LhsListDiagnostics(files, fields, params, pkgPath, Lhs(a)) == Concat(Lhs(a), g);
    ConcatSpec(Lhs(a), g, d);
    var i :| 0 <= i < |nodes| && nodes[i] == a;
    assert d in f(nodes[i]);
    ConcatSpec(nodes, f, d);
  }

  /** The package's analysis is the scan of its nodes with the tables built from them. */
  lemma AnalysisIsScan(pkg: Package)
    ensures var nodes := PreorderSeq(pkg.files);
            Analysis(pkg) == Scan(pkg.files, nodes, FieldIndex(nodes), ParamIndex(nodes, pkg.path), pkg.path)
  {
  }

  /** The field report of a left-hand side, with the named type it was found for. */
  lemma FieldReportWitness(files: seq<Node>, fields: FieldTable, lhs: Node, d: Diagnostic) returns (nt: NamedType)
    requires FieldReport(files, fields, lhs) == Some(d)
    ensures SelectsField(lhs, nt) && FieldKey(nt.obj, lhs.kind.sel) in fields
    ensures !InConstructor(EnclosingFuncDecl(files, lhs.id), nt)
    ensures d == ConstFieldWrite(lhs.kind.pos, nt.obj.name, lhs.kind.sel, fields[FieldKey(nt.obj, lhs.kind.sel)])
  {
    nt := ReceiverNamed(lhs.kind.selection.value.recv.value).value;
  }

  /** The parameter report of a left-hand side, with the declaration it was found in. */
  lemma ParamReportWitness(files: seq<Node>, params: ParamTable, pkgPath: string, lhs: Node, d: Diagnostic) returns (fd: FuncDecl)
    requires ParamReport(files, params, pkgPath, lhs) == Some(d)
    ensures NamesVariableIn(files, lhs, fd) && ParamKey(fd.name, lhs.kind.name, pkgPath) in params
    ensures d == ConstParamWrite(lhs.kind.pos, lhs.kind.name, params[ParamKey(fd.name, lhs.kind.name, pkgPath)])
  {
    fd := EnclosingFuncDecl(files, lhs.id).value;
  }

  /**
   * A write to a field that some struct type spec of the package marks with
   * `+const`, through a value of that named type or a pointer to it, outside
   * what the analyzer takes for a constructor, is reported, with the marker
   * position recorded for that field.
   */
  lemma FieldWriteReported(pkg: Package, a: Node, lhs: Node, nt: NamedType, i: nat, p: Pos)
    requires AssignedIn(PreorderSeq(pkg.files), a, lhs)
    requires SelectsField(lhs, nt)
    requires i < |PreorderSeq(pkg.files)| && MarksField(PreorderSeq(pkg.files)[i], FieldKey(nt.obj, lhs.kind.sel), p)
    requires !InConstructor(EnclosingFuncDecl(pkg.files, lhs.id), nt)
    ensures var nodes := PreorderSeq(pkg.files);
            var k := FieldKey(nt.obj, lhs.kind.sel);
            && k in FieldIndex(nodes)
            && ConstFieldWrite(lhs.kind.pos, nt.obj.name, lhs.kind.sel, FieldIndex(nodes)[k]) in Analysis(pkg)
  {
    var nodes := PreorderSeq(pkg.files);
    var k := FieldKey(nt.obj, lhs.kind.sel);
    FieldIndexSpec(nodes, k);
    FieldReportSpec(pkg.files, FieldIndex(nodes), lhs);
    var d := ConstFieldWrite(lhs.kind.pos, nt.obj.name, lhs.kind.sel, FieldIndex(nodes)[k]);
    assert d in LhsDiagnostics(pkg.files, FieldIndex(nodes), ParamIndex(nodes, pkg.path), pkg.path, lhs);
    ScanComplete(pkg.files, nodes, FieldIndex(nodes), ParamIndex(nodes, pkg.path), pkg.path, a, lhs, d);
    AnalysisIsScan(pkg);
  }

  /**
   * Every field diagnostic comes from a left-hand side of a non-declaring
   * assignment that writes the reported field through a value of a named
   * type (or a pointer to it) with the reported name, outside what the
   * analyzer takes for a constructor of that type, where a struct type spec
   * of the package marks that field of that very type at the reported
   * position.
   */
  lemma FieldDiagnosticJustified(pkg: Package, d: Diagnostic)
    requires d in Analysis(pkg) && d.ConstFieldWrite?
    ensures var nodes := PreorderSeq(pkg.files);
            exists a, lhs, nt ::
              && AssignedIn(nodes, a, lhs)
              && SelectsField(lhs, nt)
              && d == ConstFieldWrite(lhs.kind.pos, nt.obj.name, lhs.kind.sel, d.markedAt)
              && !InConstructor(EnclosingFuncDecl(pkg.files, lhs.id), nt)
              && exists i | 0 <= i < |nodes| :: MarksField(nodes[i], FieldKey(nt.obj, lhs.kind.sel), d.markedAt)
  {
    var nodes := PreorderSeq(pkg.files);
    var fields := FieldIndex(nodes);
    var params := ParamIndex(nodes, pkg.path);
    AnalysisIsScan(pkg);
    var a, lhs := ScanSound(pkg.files, nodes, fields, params, pkg.path, d);
    assert FieldReport(pkg.files, fields, lhs) == Some(d);
    var nt := FieldReportWitness(pkg.files, fields, lhs, d);
    FieldIndexSpec(nodes, FieldKey(nt.obj, lhs.kind.sel));
  }

  /**
   * A write to an identifier that resolves to an object, inside a function
   * declaration `fd`, is reported when some declaration of the package with
   * `fd`'s name lists that identifier's name (`fd` itself, or a method of the
   * same name on another type), with the position recorded for that
   * (function, name, package) key. The identifier need not be a parameter: a
   * local variable of the same name is reported as well.
   */
  lemma ParamWriteReported(pkg: Package, a: Node, lhs: Node, fd: FuncDecl, i: nat, p: Pos)
    requires AssignedIn(PreorderSeq(pkg.files), a, lhs)
    requires NamesVariableIn(pkg.files, lhs, fd)
    requires i < |PreorderSeq(pkg.files)|
    requires ListsParam(PreorderSeq(pkg.files)[i], pkg.path, ParamKey(fd.name, lhs.kind.name, pkg.path), p)
    ensures var nodes := PreorderSeq(pkg.files);
            var k := ParamKey(fd.name, lhs.kind.name, pkg.path);
            && k in ParamIndex(nodes, pkg.path)
            && ConstParamWrite(lhs.kind.pos, lhs.kind.name, ParamIndex(nodes, pkg.path)[k]) in Analysis(pkg)
  {
    var nodes := PreorderSeq(pkg.files);
    var k := ParamKey(fd.name, lhs.kind.name, pkg.path);
    ParamIndexSpec(nodes, pkg.path, k);
    ParamReportSpec(pkg.files, ParamIndex(nodes, pkg.path), pkg.path, lhs);
    var d := ConstParamWrite(lhs.kind.pos, lhs.kind.name, ParamIndex(nodes, pkg.path)[k]);
    assert d in LhsDiagnostics(pkg.files, FieldIndex(nodes), ParamIndex(nodes, pkg.path), pkg.path, lhs);
    ScanComplete(pkg.files, nodes, FieldIndex(nodes), ParamIndex(nodes, pkg.path), pkg.path, a, lhs, d);
    AnalysisIsScan(pkg);
  }

  /**
   * Every parameter diagnostic comes from a left-hand side of a non-declaring
   * assignment that is an identifier with the reported name and a resolved
   * object, found inside a function declaration `fd`; some function
   * declaration of the package with `fd`'s name lists that name in its doc
   * comment and is declared at the reported position. That declaration need
   * not be `fd` itself: the key holds only the function's simple name.
   */
  lemma ParamDiagnosticJustified(pkg: Package, d: Diagnostic)
    requires d in Analysis(pkg) && d.ConstParamWrite?
    ensures var nodes := PreorderSeq(pkg.files);
            exists a, lhs, fd ::
              && AssignedIn(nodes, a, lhs)
              && NamesVariableIn(pkg.files, lhs, fd)
              && d == ConstParamWrite(lhs.kind.pos, lhs.kind.name, d.markedAt)
              && exists i | 0 <= i < |nodes| :: ListsParam(nodes[i], pkg.path, ParamKey(fd.name, lhs.kind.name, pkg.path), d.markedAt)
  {
    var nodes := PreorderSeq(pkg.files);
    var fields := FieldIndex(nodes);
    var params := ParamIndex(nodes, pkg.path);
    AnalysisIsScan(pkg);
    var a, lhs := ScanSound(pkg.files, nodes, fields, params, pkg.path, d);
    assert ParamReport(pkg.files, params, pkg.path, lhs) == Some(d);
    var fd := ParamReportWitness(pkg.files, params, pkg.path, lhs, d);
    ParamIndexSpec(nodes, pkg.path, ParamKey(fd.name, lhs.kind.name, pkg.path));
  }
}
