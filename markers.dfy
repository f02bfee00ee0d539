/**
 * The declaration index of `run` (analyzer/analyzer.go): the table of struct
 * fields marked `+const` and the table of function parameters listed in a
 * `// +const:[...]` doc comment.
 */
module Markers {
  import opened Wrappers
  import opened GoStrings
  import opened Syntax
  import opened Tables

  /** The text whose presence in a field comment marks the field. */
  const FieldMarker := "+const"
  /** The text that opens a parameter list in a function's doc comment. */
  const ParamMarker := "// +const:["

  /** A constField: the struct's type name and the field's name. */
  datatype FieldKey = FieldKey(owner: TypeName, field: string)
  /** A constParam: function name, parameter name and package path. */
  datatype ParamKey = ParamKey(funcName: string, paramName: string, packagePath: string)

  type FieldTable = map<FieldKey, Pos>
  type ParamTable = map<ParamKey, Pos>

  // ---------------------------------------------------------------- fields

  /** A comment group that is present and has a comment containing the marker. */
  predicate GroupMarked(g: Option<seq<string>>) {
    g.Some? && exists i | 0 <= i < |g.value| :: Contains(g.value[i], FieldMarker)
  }

  /** A field is marked by its doc comment or by its line comment. */
  predicate FieldMarked(f: Field) {
    GroupMarked(f.doc) || GroupMarked(f.comment)
  }

  /**
   * The marker scan of one field: the doc comments first, then, only when
   * they hold no marker, the line comments; each scan stops at the first hit.
   */
  method HasConstMarker(f: Field) returns (marked: bool)
    ensures marked <==> FieldMarked(f)
  {
    marked := false;
    if f.doc.Some? {
      var lines := f.doc.value;
      for i := 0 to |lines|
        invariant !marked
        invariant forall j | 0 <= j < i :: !Contains(lines[j], FieldMarker)
      {
        if Contains(lines[i], FieldMarker) {
          marked := true;
          break;
        }
      }
    }
    if !marked && f.comment.Some? {
      var lines := f.comment.value;
      for i := 0 to |lines|
        invariant !marked
        invariant forall j | 0 <= j < i :: !Contains(lines[j], FieldMarker)
      {
        if Contains(lines[i], FieldMarker) {
          marked := true;
          break;
        }
      }
    }
  }

  /** The entries of one marked field: one per name, at that name's position. */
  function NameEntries(tn: TypeName, names: seq<FieldName>): seq<(FieldKey, Pos)> {
    seq(|names|, k requires 0 <= k < |names| => (FieldKey(tn, names[k].name), names[k].pos))
  }

  /** The entries of one field: its names when it is marked, none otherwise. */
  function FieldEntriesOf(tn: TypeName, f: Field): seq<(FieldKey, Pos)> {
    if FieldMarked(f) then NameEntries(tn, f.names) else []
  }

  /** The entries of a struct's fields, in order. */
  function StructEntries(tn: TypeName, fields: seq<Field>): seq<(FieldKey, Pos)> {
    if fields == [] then []
    else StructEntries(tn, fields[..|fields| - 1]) + FieldEntriesOf(tn, fields[|fields| - 1])
  }

  /** The entries of one node: only a struct type spec whose name defines a type name has any. */
  function NodeFieldEntries(n: Node): seq<(FieldKey, Pos)> {
    match n.kind
    case TypeSpecNode(TypeNameObject(tn), StructType(fields)) => StructEntries(tn, fields)
    case _ => []
  }

  /** The entries written into constFields, in traversal order. */
  function FieldEntries(nodes: seq<Node>): seq<(FieldKey, Pos)> {
    Concat(nodes, NodeFieldEntries)
  }

  /** The constFields table built from the package's nodes. */
  function FieldIndex(nodes: seq<Node>): FieldTable {
    ToMap(FieldEntries(nodes))
  }

  /**
   * Node `n` is a struct type spec defining `k.owner` with a marked field one
   * of whose names is `k.field`, declared at `p`.
   */
  predicate MarksField(n: Node, k: FieldKey, p: Pos) {
    && n.kind.TypeSpecNode?
    && n.kind.def == TypeNameObject(k.owner)
    && n.kind.typeExpr.StructType?
    && exists f | f in n.kind.typeExpr.fields :: FieldMarked(f) && FieldName(k.field, p) in f.names
  }

  lemma NameEntriesSpec(tn: TypeName, names: seq<FieldName>, k: FieldKey, p: Pos)
    ensures (k, p) in NameEntries(tn, names) <==> k.owner == tn && FieldName(k.field, p) in names
  {
    var es := NameEntries(tn, names);
    if FieldName(k.field, p) in names && k.owner == tn {
      var j :| 0 <= j < |names| && names[j] == FieldName(k.field, p);
      assert es[j] == (k, p);
    }
  }

  lemma {:induction false} StructEntriesSpec(tn: TypeName, fields: seq<Field>, k: FieldKey, p: Pos)
    ensures (k, p) in StructEntries(tn, fields) <==>
            k.owner == tn && exists f | f in fields :: FieldMarked(f) && FieldName(k.field, p) in f.names
  {
    if fields != [] {
      var front := fields[..|fields| - 1];
      var f := fields[|fields| - 1];
      StructEntriesSpec(tn, front, k, p);
      NameEntriesSpec(tn, f.names, k, p);
      assert StructEntries(tn, fields) == StructEntries(tn, front) + FieldEntriesOf(tn, f);
      assert fields == front + [f];
      assert forall g | g in fields :: g in front || g == f;
    }
  }

  lemma NodeFieldEntriesSpec(n: Node, k: FieldKey, p: Pos)
    ensures (k, p) in NodeFieldEntries(n) <==> MarksField(n, k, p)
  {
    if n.kind.TypeSpecNode? && n.kind.def.TypeNameObject? && n.kind.typeExpr.StructType? {
      StructEntriesSpec(n.kind.def.typeName, n.kind.typeExpr.fields, k, p);
    }
  }

  /**
   * A key is in constFields exactly when some struct type spec marks that
   * field, and its position is that of one of the marking names; when a key
   * is marked more than once, the last write in traversal order wins.
   */
  lemma FieldIndexSpec(nodes: seq<Node>, k: FieldKey)
    ensures k in FieldIndex(nodes) <==> exists i, p: Pos | 0 <= i < |nodes| :: MarksField(nodes[i], k, p)
    ensures k in FieldIndex(nodes) ==> exists i | 0 <= i < |nodes| :: MarksField(nodes[i], k, FieldIndex(nodes)[k])
  {
    var es := FieldEntries(nodes);
    if k in FieldIndex(nodes) {
      var p := FieldIndex(nodes)[k];
      ToMapValueWritten(es, k);
      ConcatSpec(nodes, NodeFieldEntries, (k, p));
      var i :| 0 <= i < |nodes| && (k, p) in NodeFieldEntries(nodes[i]);
      NodeFieldEntriesSpec(nodes[i], k, p);
    }
    if exists i, p: Pos | 0 <= i < |nodes| :: MarksField(nodes[i], k, p) {
      var i, p: Pos :| 0 <= i < |nodes| && MarksField(nodes[i], k, p);
      NodeFieldEntriesSpec(nodes[i], k, p);
      ConcatSpec(nodes, NodeFieldEntries, (k, p));
      ToMapHasWritten(es, (k, p));
    }
  }

  /** The writes for the names of one marked field (lines 98-103). */
  method RecordNames(constFields: FieldTable, ghost done: seq<(FieldKey, Pos)>, tn: TypeName, names: seq<FieldName>)
    returns (m: FieldTable)
    requires constFields == ToMap(done)
    ensures m == ToMap(done + NameEntries(tn, names))
  {
    m := constFields;
    assert done + NameEntries(tn, names[..0]) == done;
    for k := 0 to |names|
      invariant m == ToMap(done + NameEntries(tn, names[..k]))
    {
      var name := names[k];
      ghost var written := done + NameEntries(tn, names[..k]);
      assert done + NameEntries(tn, names[..k + 1]) == written + [(FieldKey(tn, name.name), name.pos)];
      ToMapSnoc(written, FieldKey(tn, name.name), name.pos);
      m := m[FieldKey(tn, name.name) := name.pos];
    }
    assert names[..|names|] == names;
  }

  /** The handling of one field (lines 72-104): a field without comments is skipped. */
  method RecordField(constFields: FieldTable, ghost done: seq<(FieldKey, Pos)>, tn: TypeName, field: Field)
    returns (m: FieldTable)
    requires constFields == ToMap(done)
    ensures m == ToMap(done + FieldEntriesOf(tn, field))
  {
    m := constFields;
    if field.doc.None? && field.comment.None? {
      assert done + [] == done;
      return;
    }
    var marked := HasConstMarker(field);
    if marked {
      m := RecordNames(m, done, tn, field.names);
    } else {
      assert done + [] == done;
    }
  }

  /** One more field scanned adds that field's entries after the earlier ones. */
  lemma StructEntriesStep(tn: TypeName, fields: seq<Field>, j: nat)
    requires j < |fields|
    ensures forall done: seq<(FieldKey, Pos)> ::
              done + StructEntries(tn, fields[..j + 1]) == (done + StructEntries(tn, fields[..j])) + FieldEntriesOf(tn, fields[j])
  {
    assert fields[..j + 1][..j] == fields[..j];
    assert StructEntries(tn, fields[..j + 1]) == StructEntries(tn, fields[..j]) + FieldEntriesOf(tn, fields[j]);
  }

  /** The scan of one struct type's fields (lines 71-105). */
  method RecordStruct(constFields: FieldTable, ghost done: seq<(FieldKey, Pos)>, tn: TypeName, fields: seq<Field>)
    returns (m: FieldTable)
    requires constFields == ToMap(done)
    ensures m == ToMap(done + StructEntries(tn, fields))
  {
    m := constFields;
    assert done + StructEntries(tn, fields[..0]) == done;
    for j := 0 to |fields|
      invariant m == ToMap(done + StructEntries(tn, fields[..j]))
    {
      ghost var written := done + StructEntries(tn, fields[..j]);
      StructEntriesStep(tn, fields, j);
      m := RecordField(m, written, tn, fields[j]);
    }
    assert fields[..|fields|] == fields;
  }

  /**
   * The first pass of `run`: every struct type spec whose name defines a type
   * name, in traversal order.
   */
  method BuildFieldIndex(nodes: seq<Node>) returns (constFields: FieldTable)
    ensures constFields == FieldIndex(nodes)
  {
    constFields := map[];
    for i := 0 to |nodes|
      invariant constFields == ToMap(FieldEntries(nodes[..i]))
    {
      var n := nodes[i];
      assert nodes[..i + 1][..i] == nodes[..i];
      ghost var done := FieldEntries(nodes[..i]);
      assert FieldEntries(nodes[..i + 1]) == done + NodeFieldEntries(n);
      if n.kind.TypeSpecNode? && n.kind.typeExpr.StructType? && n.kind.def.TypeNameObject? {
        constFields := RecordStruct(constFields, done, n.kind.def.typeName, n.kind.typeExpr.fields);
      } else {
        assert done + [] == done;
      }
    }
    assert nodes[..|nodes|] == nodes;
  }

  // ------------------------------------------------------------ parameters

  /**
   * The parameter list one doc comment carries: the text after the first
   * `// +const:[` up to the first `]` after it; nothing when the comment has
   * no marker or no `]` after its first marker.
   */
  function ParamListIn(text: string): Option<string> {
    var ci := Index(text, ParamMarker);
    if ci == -1 then None
    else
      var start := ci + |ParamMarker|;
      var e := Index(text[start..], "]");
      if e == -1 then None else Some(text[start..start + e])
  }

  /** A comment yields a list exactly when it has a marker followed, somewhere later, by `]`. */
  lemma ParamListInSome(text: string)
    ensures ParamListIn(text).Some? <==>
            exists i, j | 0 <= i && i + |ParamMarker| <= j < |text| :: MatchAt(text, ParamMarker, i) && text[j] == ']'
  {
    var ci := Index(text, ParamMarker);
    if ci != -1 {
      var start := ci + |ParamMarker|;
      var rest := text[start..];
      var e := Index(rest, "]");
      // a `]` after any marker is a `]` after the first marker
      forall i, j | 0 <= i && i + |ParamMarker| <= j < |text| && MatchAt(text, ParamMarker, i) && text[j] == ']'
        ensures e != -1
      {
        assert ci <= i;
        MatchChar(rest, ']', j - start);
        assert rest[j - start] == text[j];
        assert Contains(rest, "]");
      }
      if e != -1 {
        MatchChar(rest, ']', e);
        assert text[start + e] == ']';
        assert MatchAt(text, ParamMarker, ci);
      }
    }
  }

  /**
   * A list yielded by a comment contains no `]`; it stands right after the
   * comment's first marker and is closed by `]`.
   */
  lemma ParamListInShape(text: string)
    requires ParamListIn(text).Some?
    ensures ']' !in ParamListIn(text).value
    ensures exists i :: MatchAt(text, ParamMarker + ParamListIn(text).value + "]", i)
                        && forall i' | 0 <= i' < i :: !MatchAt(text, ParamMarker, i')
  {
    var ci := Index(text, ParamMarker);
    var start := ci + |ParamMarker|;
    var rest := text[start..];
    var e := Index(rest, "]");
    var list := text[start..start + e];
    assert list == ParamListIn(text).value;
    MatchChar(rest, ']', e);
    assert text[start + e] == ']';
    forall m | 0 <= m < e ensures list[m] != ']' {
      MatchChar(rest, ']', m);
      assert list[m] == rest[m];
    }
    assert MatchAt(text, list, start);
    MatchConcat(text, ParamMarker, list, ci);
    MatchChar(text, ']', start + e);
    MatchConcat(text, ParamMarker + list, "]", ci);
  }

  /**
   * The list the function's doc comment yields: that of the first comment
   * that has one, or the empty string.
   */
  function FirstParamList(doc: seq<string>): string {
    if doc == [] then ""
    else match ParamListIn(doc[0])
      case Some(list) => list
      case None => FirstParamList(doc[1..])
  }

  /**
   * When the comments before `k` yield no list, the doc comment's list is the
   * one of comment `k`, or the empty string when there are no more comments.
   * Later comments are never consulted, even when comment `k`'s list is
   * empty.
   */
  lemma {:induction false} FirstParamListAt(doc: seq<string>, k: nat)
    requires k <= |doc|
    requires forall j | 0 <= j < k :: ParamListIn(doc[j]).None?
    ensures k < |doc| && ParamListIn(doc[k]).Some? ==> FirstParamList(doc) == ParamListIn(doc[k]).value
    ensures k == |doc| ==> FirstParamList(doc) == ""
  {
    if k > 0 {
      assert forall j | 0 <= j < k - 1 :: doc[1..][j] == doc[j + 1];
      FirstParamListAt(doc[1..], k - 1);
    }
  }

  /**
   * One comment of the doc-comment scan (lines 124-131): the text between its
   * first marker and the first `]` after it, when both are there.
   */
  method ParamListOf(text: string) returns (closed: bool, list: string)
    ensures closed <==> ParamListIn(text).Some?
    ensures closed ==> list == ParamListIn(text).value
  {
    closed, list := false, "";
    var constIndex := Index(text, ParamMarker);
    if constIndex != -1 {
      var startIdx := constIndex + |ParamMarker|;
      var endIdx := Index(text[startIdx..], "]");
      if endIdx != -1 {
        closed, list := true, text[startIdx..startIdx + endIdx];
      }
    }
  }

  /** The doc-comment scan of lines 121-133: the first comment with a closed list wins. */
  method FindParamList(doc: seq<string>) returns (constParamList: string)
    ensures constParamList == FirstParamList(doc)
  {
    for i := 0 to |doc|
      invariant forall j | 0 <= j < i :: ParamListIn(doc[j]).None?
    {
      var closed, list := ParamListOf(doc[i]);
      if closed {
        FirstParamListAt(doc, i);
        return list;
      }
    }
    FirstParamListAt(doc, |doc|);
    return "";
  }

  /** The trimmed comma-separated pieces of a parameter list. */
  function ParamNames(list: string): seq<string> {
    var pieces := Split(list, ',');
    seq(|pieces|, i requires 0 <= i < |pieces| => TrimSpace(pieces[i]))
  }

  /**
   * A list written as pieces separated by commas yields exactly those pieces,
   * trimmed; each recorded name is free of commas and of surrounding space.
   * Nothing checks the names against the function's signature.
   */
  lemma ParamNamesOfPieces(pieces: seq<string>)
    requires |pieces| >= 1
    requires forall i | 0 <= i < |pieces| :: ',' !in pieces[i]
    ensures |ParamNames(Join(pieces, ','))| == |pieces|
    ensures forall i | 0 <= i < |pieces| :: ParamNames(Join(pieces, ','))[i] == TrimSpace(pieces[i])
  {
    SplitJoin(pieces, ',');
  }

  /** Every recorded name is free of commas and has no surrounding white space. */
  lemma ParamNamesShape(list: string, i: nat)
    requires i < |ParamNames(list)|
    ensures ',' !in ParamNames(list)[i]
    ensures ParamNames(list)[i] == [] || (!IsSpace(ParamNames(list)[i][0]) && !IsSpace(ParamNames(list)[i][|ParamNames(list)[i]| - 1]))
  {
    var piece := Split(list, ',')[i];
    SplitSpec(list, ',');
    var t := TrimSpace(piece);
    var a := TrimSpaceIsInfix(piece);
    forall m | 0 <= m < |t| ensures t[m] != ',' {
      assert t[m] == piece[a + m];
    }
  }

  /** The rewrite of every piece by its trimmed form, in place (lines 141-143). */
  method TrimInPlace(paramNames: array<string>)
    modifies paramNames
    ensures forall i | 0 <= i < paramNames.Length :: paramNames[i] == TrimSpace(old(paramNames[i]))
  {
    for i := 0 to paramNames.Length
      invariant forall j | 0 <= j < i :: paramNames[j] == TrimSpace(old(paramNames[j]))
      invariant forall j | i <= j < paramNames.Length :: paramNames[j] == old(paramNames[j])
    {
      paramNames[i] := TrimSpace(paramNames[i]);
    }
  }

  /** The list split at commas into a fresh array, each piece then trimmed in place (lines 139-143). */
  method SplitParamList(constParamList: string) returns (paramNames: array<string>)
    ensures fresh(paramNames)
    ensures paramNames[..] == ParamNames(constParamList)
  {
    var pieces := Split(constParamList, ',');
    ghost var names := ParamNames(constParamList);
    assert |names| == |pieces| && forall k | 0 <= k < |pieces| :: names[k] == TrimSpace(pieces[k]);
    paramNames := new string[|pieces|](k requires 0 <= k < |pieces| => pieces[k]);
    assert forall k | 0 <= k < paramNames.Length :: paramNames[k] == pieces[k];
    TrimInPlace(paramNames);
    assert forall k | 0 <= k < paramNames.Length :: paramNames[k] == names[k];
  }

  /** The entries for the listed names of one function, all at the function's position. */
  function ListedEntries(funcName: string, names: seq<string>, pkgPath: string, pos: Pos): seq<(ParamKey, Pos)> {
    seq(|names|, k requires 0 <= k < |names| => (ParamKey(funcName, names[k], pkgPath), pos))
  }

  /** The entries one node contributes: a function declaration with a non-empty list. */
  function NodeParamEntries(n: Node, pkgPath: string): seq<(ParamKey, Pos)> {
    if !n.kind.FuncDeclNode? || n.kind.decl.doc.None? then []
    else
      var fd := n.kind.decl;
      var list := FirstParamList(fd.doc.value);
      if list == "" then [] else ListedEntries(fd.name, ParamNames(list), pkgPath, fd.pos)
  }

  /** The entries written into constParams, in traversal order. */
  function ParamEntries(nodes: seq<Node>, pkgPath: string): seq<(ParamKey, Pos)> {
    Concat(nodes, n => NodeParamEntries(n, pkgPath))
  }

  /** The constParams table built from the package's nodes. */
  function ParamIndex(nodes: seq<Node>, pkgPath: string): ParamTable {
    ToMap(ParamEntries(nodes, pkgPath))
  }

  /**
   * Node `n` is a function declaration named `k.funcName`, whose doc comment
   * yields a non-empty list in which `k.paramName` is a trimmed piece, in
   * package `k.packagePath`, declared at `p`.
   */
  predicate ListsParam(n: Node, pkgPath: string, k: ParamKey, p: Pos) {
    && n.kind.FuncDeclNode?
    && n.kind.decl.doc.Some?
    && FirstParamList(n.kind.decl.doc.value) != ""
    && k.funcName == n.kind.decl.name
    && k.packagePath == pkgPath
    && k.paramName in ParamNames(FirstParamList(n.kind.decl.doc.value))
    && p == n.kind.decl.pos
  }

  lemma NodeParamEntriesSpec(n: Node, pkgPath: string, k: ParamKey, p: Pos)
    ensures (k, p) in NodeParamEntries(n, pkgPath) <==> ListsParam(n, pkgPath, k, p)
  {
    if ListsParam(n, pkgPath, k, p) {
      var names := ParamNames(FirstParamList(n.kind.decl.doc.value));
      var j :| 0 <= j < |names| && names[j] == k.paramName;
      assert NodeParamEntries(n, pkgPath)[j] == (k, p);
    }
  }

  /**
   * A key is in constParams exactly when some function declaration lists it,
   * keyed by the function's name, the trimmed piece and the package path; its
   * position is that of such a declaration.
   */
  lemma ParamIndexSpec(nodes: seq<Node>, pkgPath: string, k: ParamKey)
    ensures k in ParamIndex(nodes, pkgPath) <==> exists i, p: Pos | 0 <= i < |nodes| :: ListsParam(nodes[i], pkgPath, k, p)
    ensures k in ParamIndex(nodes, pkgPath) ==> exists i | 0 <= i < |nodes| :: ListsParam(nodes[i], pkgPath, k, ParamIndex(nodes, pkgPath)[k])
  {
    var es := ParamEntries(nodes, pkgPath);
    if k in ParamIndex(nodes, pkgPath) {
      var p := ParamIndex(nodes, pkgPath)[k];
      ToMapValueWritten(es, k);
      ConcatSpec(nodes, n => NodeParamEntries(n, pkgPath), (k, p));
      var i :| 0 <= i < |nodes| && (k, p) in NodeParamEntries(nodes[i], pkgPath);
      NodeParamEntriesSpec(nodes[i], pkgPath, k, p);
    }
    if exists i, p: Pos | 0 <= i < |nodes| :: ListsParam(nodes[i], pkgPath, k, p) {
      var i, p: Pos :| 0 <= i < |nodes| && ListsParam(nodes[i], pkgPath, k, p);
      NodeParamEntriesSpec(nodes[i], pkgPath, k, p);
      ConcatSpec(nodes, n => NodeParamEntries(n, pkgPath), (k, p));
      ToMapHasWritten(es, (k, p));
    }
  }

  /**
   * When node `i` lists `k` at `p` and no later node lists `k` at all, the
   * table holds `p` for `k`: of several declarations that share a name and
   * list the same parameter, the last one in traversal order wins.
   */
  lemma {:induction false} ParamIndexLastWins(nodes: seq<Node>, pkgPath: string, k: ParamKey, i: nat, p: Pos)
    requires i < |nodes| && ListsParam(nodes[i], pkgPath, k, p)
    requires forall j, q: Pos | i < j < |nodes| :: !ListsParam(nodes[j], pkgPath, k, q)
    ensures k in ParamIndex(nodes, pkgPath) && ParamIndex(nodes, pkgPath)[k] == p
  {
    var front := nodes[..|nodes| - 1];
    var last := nodes[|nodes| - 1];
    var b := NodeParamEntries(last, pkgPath);
    assert ParamEntries(nodes, pkgPath) == ParamEntries(front, pkgPath) + b;
    if i == |nodes| - 1 {
      NodeParamEntriesSpec(last, pkgPath, k, p);
      forall j | 0 <= j < |b| && b[j].0 == k ensures b[j].1 == p {
        NodeParamEntriesSpec(last, pkgPath, k, b[j].1);
      }
      ToMapAppendConst(ParamEntries(front, pkgPath), b, k, p);
    } else {
      forall j | 0 <= j < |b| ensures b[j].0 != k {
        NodeParamEntriesSpec(last, pkgPath, k, b[j].1);
      }
      ToMapAppendMiss(ParamEntries(front, pkgPath), b, k);
      assert front[i] == nodes[i];
      forall j, q: Pos | i < j < |front| ensures !ListsParam(front[j], pkgPath, k, q) {
        assert front[j] == nodes[j];
      }
      ParamIndexLastWins(front, pkgPath, k, i, p);
    }
  }

  /** The writes for the names of one function (lines 150-156). */
  method RecordParams(constParams: ParamTable, ghost done: seq<(ParamKey, Pos)>,
                      funcName: string, paramNames: array<string>, packagePath: string, pos: Pos)
    returns (m: ParamTable)
    requires constParams == ToMap(done)
    ensures m == ToMap(done + ListedEntries(funcName, paramNames[..], packagePath, pos))
  {
    m := constParams;
    assert done + ListedEntries(funcName, paramNames[..0], packagePath, pos) == done;
    for k := 0 to paramNames.Length
      invariant m == ToMap(done + ListedEntries(funcName, paramNames[..k], packagePath, pos))
    {
      var paramName := paramNames[k];
      ghost var written := done + ListedEntries(funcName, paramNames[..k], packagePath, pos);
      assert done + ListedEntries(funcName, paramNames[..k + 1], packagePath, pos)
          == written + [(ParamKey(funcName, paramName, packagePath), pos)];
      ToMapSnoc(written, ParamKey(funcName, paramName, packagePath), pos);
      m := m[ParamKey(funcName, paramName, packagePath) := pos];
    }
    assert paramNames[..paramNames.Length] == paramNames[..];
  }

  /**
   * The handling of one node in the second pass (lines 115-156): a function
   * declaration with a doc comment and a non-empty list has the list split at
   * commas, each piece trimmed in place, and each name recorded.
   */
  method RecordFunc(constParams: ParamTable, ghost done: seq<(ParamKey, Pos)>, n: Node, packagePath: string)
    returns (m: ParamTable)
    requires constParams == ToMap(done)
    ensures m == ToMap(done + NodeParamEntries(n, packagePath))
  {
    m := constParams;
    if !n.kind.FuncDeclNode? || n.kind.decl.doc.None? {
      assert done + [] == done;
      return;
    }
    var funcDecl := n.kind.decl;
    var constParamList := FindParamList(funcDecl.doc.value);
    if constParamList == "" {
      assert done + [] == done;
      return;
    }
    var paramNames := SplitParamList(constParamList);
    assert NodeParamEntries(n, packagePath) == ListedEntries(funcDecl.name, paramNames[..], packagePath, funcDecl.pos);
    m := RecordParams(m, done, funcDecl.name, paramNames, packagePath, funcDecl.pos);
  }

  /** The second pass of `run`: every node, in traversal order. */
  method BuildParamIndex(nodes: seq<Node>, packagePath: string) returns (constParams: ParamTable)
    ensures constParams == ParamIndex(nodes, packagePath)
  {
    constParams := map[];
    for i := 0 to |nodes|
      invariant constParams == ToMap(ParamEntries(nodes[..i], packagePath))
    {
      assert nodes[..i + 1][..i] == nodes[..i];
      assert ParamEntries(nodes[..i + 1], packagePath) == ParamEntries(nodes[..i], packagePath) + NodeParamEntries(nodes[i], packagePath);
      constParams := RecordFunc(constParams, ParamEntries(nodes[..i], packagePath), nodes[i], packagePath);
    }
    assert nodes[..|nodes|] == nodes;
  }
}
