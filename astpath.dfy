/**
 * astPath (analyzer/analyzer.go): the nodes visited before a target node in
 * a preorder walk of the package's files, and the search backwards through
 * them for the enclosing function declaration.
 */
module AstPath {
  import opened Wrappers
  import opened Syntax

  /** Some node of `s` has identity `t`. */
  predicate Occurs(t: NodeId, s: seq<Node>) {
    exists i | 0 <= i < |s| :: s[i].id == t
  }

  lemma OccursAppend(t: NodeId, a: seq<Node>, b: seq<Node>)
    ensures Occurs(t, a + b) <==> Occurs(t, a) || Occurs(t, b)
  {
    if Occurs(t, a) {
      var i :| 0 <= i < |a| && a[i].id == t;
      assert (a + b)[i] == a[i];
    }
    if Occurs(t, b) {
      var i :| 0 <= i < |b| && b[i].id == t;
      assert (a + b)[|a| + i] == b[i];
    }
    if Occurs(t, a + b) {
      var i :| 0 <= i < |a + b| && (a + b)[i].id == t;
      if i < |a| { assert a[i] == (a + b)[i]; } else { assert b[i - |a|] == (a + b)[i]; }
    }
  }

  /**
   * The nodes of `s` before the first one whose identity is `t`; all of `s`
   * when there is none (BeforeIsPrefixToTarget).
   */
  function Before(t: NodeId, s: seq<Node>): seq<Node> {
    if s == [] then []
    else if s[0].id == t then []
    else [s[0]] + Before(t, s[1..])
  }

  /**
   * Before gives a prefix of `s` without the target; it is shorter than `s`
   * exactly when the target occurs, and then the target comes right after it.
   */
  lemma {:induction false} BeforeIsPrefixToTarget(t: NodeId, s: seq<Node>)
    ensures |Before(t, s)| <= |s| && Before(t, s) == s[..|Before(t, s)|]
    ensures !Occurs(t, Before(t, s))
    ensures |Before(t, s)| < |s| <==> Occurs(t, s)
    ensures |Before(t, s)| < |s| ==> s[|Before(t, s)|].id == t
  {
    if s != [] && s[0].id != t {
      var rest := Before(t, s[1..]);
      BeforeIsPrefixToTarget(t, s[1..]);
      OccursAppend(t, [s[0]], rest);
      OccursAppend(t, [s[0]], s[1..]);
      assert s == [s[0]] + s[1..];
    }
  }

  /** When the target does not occur, Before keeps the whole sequence. */
  lemma BeforeWithoutTarget(t: NodeId, s: seq<Node>)
    requires !Occurs(t, s)
    ensures Before(t, s) == s
  {
    BeforeIsPrefixToTarget(t, s);
  }

  /** Searching a concatenation: the first part is searched first. */
  lemma {:induction false} BeforeAppend(t: NodeId, a: seq<Node>, b: seq<Node>)
    ensures Before(t, a + b) == if Occurs(t, a) then Before(t, a) else a + Before(t, b)
    decreases |a|
  {
    if a == [] {
      assert a + b == b;
    } else if a[0].id == t {
      assert (a + b)[0] == a[0];
    } else {
      assert (a + b)[0] == a[0] && (a + b)[1..] == a[1..] + b;
      BeforeAppend(t, a[1..], b);
      OccursAppend(t, [a[0]], a[1..]);
      assert a == [a[0]] + a[1..];
    }
  }

  /** The first node with identity `t` is at `k`: Before is the prefix up to `k`. */
  lemma {:induction false} BeforeAt(t: NodeId, s: seq<Node>, k: nat)
    requires k < |s| && s[k].id == t
    requires forall j | 0 <= j < k :: s[j].id != t
    ensures Before(t, s) == s[..k]
  {
    if k > 0 {
      BeforeAt(t, s[1..], k - 1);
      assert s[..k] == [s[0]] + s[1..][..k - 1];
    }
  }

  /** Searching `done + c + rest` when `done` holds no target. */
  lemma SearchThree(t: NodeId, done: seq<Node>, c: seq<Node>, rest: seq<Node>)
    requires !Occurs(t, done)
    ensures Occurs(t, c) ==> Occurs(t, done + (c + rest)) && Before(t, done + (c + rest)) == done + Before(t, c)
    ensures !Occurs(t, c) ==> !Occurs(t, done + c) && Before(t, c) == c
  {
    if !Occurs(t, c) {
      BeforeWithoutTarget(t, c);
    }
    BeforeAppend(t, done, c + rest);
    BeforeAppend(t, c, rest);
    OccursAppend(t, done, c + rest);
    OccursAppend(t, c, rest);
    OccursAppend(t, done, c);
  }

  /** The preorder of `n` split at its `i`th child. */
  lemma PreorderAtChild(n: Node, i: nat)
    requires i < |n.children|
    ensures Preorder(n) == ([n] + PreorderSeq(n.children[..i])) + (Preorder(n.children[i]) + PreorderSeq(n.children[i + 1..]))
    ensures [n] + PreorderSeq(n.children[..i + 1]) == ([n] + PreorderSeq(n.children[..i])) + Preorder(n.children[i])
  {
    var cs := n.children;
    var a, b, c := PreorderSeq(cs[..i]), Preorder(cs[i]), PreorderSeq(cs[i + 1..]);
    assert cs[..i + 1] == cs[..i] + [cs[i]];
    PreorderSeqSnoc(cs[..i], cs[i]);
    assert PreorderSeq(cs[..i + 1]) == a + b;
    assert cs == cs[..i + 1] + cs[i + 1..];
    PreorderSeqAppend(cs[..i + 1], cs[i + 1..]);
    assert Preorder(n) == [n] + ((a + b) + c);
    Regroup([n], a, b, c);
  }

  /** Regrouping a concatenation of four sequences. */
  lemma Regroup<T>(w: seq<T>, a: seq<T>, b: seq<T>, c: seq<T>)
    ensures w + ((a + b) + c) == (w + a) + (b + c)
    ensures w + (a + b) == (w + a) + b
  {
  }

  /**
   * One step of the walk over a node's children: `done` has been walked
   * without meeting the target, `c` is the next child's tree and `rest` the
   * trees after it. Either the target was met in `c` and the path is
   * everything before it, or the path has grown by the whole of `c`.
   */
  lemma WalkStep(t: NodeId, done: seq<Node>, c: seq<Node>, rest: seq<Node>,
                 path: seq<Node>, path': seq<Node>, found: bool)
    requires !Occurs(t, done)
    requires found == Occurs(t, c)
    requires path' == path + done + Before(t, c)
    ensures !found ==> path' == path + (done + c) && !Occurs(t, done + c)
    ensures found ==> Occurs(t, done + (c + rest)) && path' == path + Before(t, done + (c + rest))
  {
    SearchThree(t, done, c, rest);
    assert path' == path + (done + Before(t, c));
  }

  /**
   * The walk of one tree by ast.Inspect with astPath's callback: every node
   * visited before the target is appended to `path`; the target is not, and
   * nothing is visited after it.
   */
  method Inspect(n: Node, target: NodeId, path: seq<Node>) returns (path': seq<Node>, found: bool)
    ensures found == Occurs(target, Preorder(n))
    ensures path' == path + Before(target, Preorder(n))
    decreases n
  {
    if n.id == target {
      assert Preorder(n)[0] == n;
      return path, true;
    }
    path' := path + [n];
    found := false;
    var cs := n.children;
    var i := 0;
    assert [n] + PreorderSeq(cs[..0]) == [n];
    while i < |cs| && !found
      invariant 0 <= i <= |cs|
      invariant !found ==> path' == path + ([n] + PreorderSeq(cs[..i]))
      invariant !found ==> !Occurs(target, [n] + PreorderSeq(cs[..i]))
      invariant found ==> Occurs(target, Preorder(n)) && path' == path + Before(target, Preorder(n))
    {
      path', found := Inspect(cs[i], target, path');
      PreorderAtChild(n, i);
      WalkStep(target, [n] + PreorderSeq(cs[..i]), Preorder(cs[i]), PreorderSeq(cs[i + 1..]), path, path', found);
      i := i + 1;
    }
    if !found {
      assert cs[..i] == cs;
      BeforeWithoutTarget(target, Preorder(n));
    }
  }

  /**
   * What astPath returns, as a value: the nodes before the target in the
   * first file that contains it, or nothing when no file does.
   */
  function PathTo(files: seq<Node>, t: NodeId): Option<seq<Node>> {
    if files == [] then None
    else if Occurs(t, Preorder(files[0])) then Some(Before(t, Preorder(files[0])))
    else PathTo(files[1..], t)
  }

  /**
   * PathTo finds the first file that contains the target and gives the
   * nodes before the target in it; it gives nothing when no file does.
   */
  lemma {:induction false} PathToFirstFile(files: seq<Node>, t: NodeId, k: nat)
    requires k <= |files|
    requires forall j | 0 <= j < k :: !Occurs(t, Preorder(files[j]))
    ensures k < |files| && Occurs(t, Preorder(files[k])) ==> PathTo(files, t) == Some(Before(t, Preorder(files[k])))
    ensures k == |files| ==> PathTo(files, t) == None
  {
    if k > 0 {
      assert forall j | 0 <= j < k - 1 :: files[1..][j] == files[j + 1];
      PathToFirstFile(files[1..], t, k - 1);
    }
  }

  /** PathTo skips a file without the target and stops at one with it. */
  lemma PathToFrom(files: seq<Node>, i: nat, t: NodeId)
    requires i < |files|
    ensures !Occurs(t, Preorder(files[i])) ==> PathTo(files[i..], t) == PathTo(files[i + 1..], t)
    ensures Occurs(t, Preorder(files[i])) ==> PathTo(files[i..], t) == Some(Before(t, Preorder(files[i])))
  {
    assert files[i..][1..] == files[i + 1..];
  }

  /**
   * astPath: walks the files in order, resetting the path after each file
   * that does not contain the target and stopping at the first that does.
   */
  method AstPathOf(files: seq<Node>, target: NodeId) returns (path: seq<Node>, found: bool)
    ensures found == PathTo(files, target).Some?
    ensures path == PathTo(files, target).GetOr([])
  {
    path := [];
    found := false;
    var i := 0;
    while i < |files| && !found
      invariant 0 <= i <= |files|
      invariant !found ==> path == [] && PathTo(files, target) == PathTo(files[i..], target)
      invariant found ==> PathTo(files, target) == Some(path)
    {
      PathToFrom(files, i, target);
      assert path == [];
      path, found := Inspect(files[i], target, path);
      assert path == Before(target, Preorder(files[i]));
      if !found {
        path := [];
      }
      i := i + 1;
    }
  }

  predicate IsFuncDecl(n: Node) {
    n.kind.FuncDeclNode?
  }

  /** The last function declaration in a path, if any (LastFuncDeclSpec). */
  function LastFuncDecl(path: seq<Node>): Option<FuncDecl> {
    if path == [] then None
    else if IsFuncDecl(path[|path| - 1]) then Some(path[|path| - 1].kind.decl)
    else LastFuncDecl(path[..|path| - 1])
  }

  /** A function declaration with none after it is the last one. */
  lemma {:induction false} LastFuncDeclAt(path: seq<Node>, i: nat)
    requires i < |path| && IsFuncDecl(path[i])
    requires forall j | i < j < |path| :: !IsFuncDecl(path[j])
    ensures LastFuncDecl(path) == Some(path[i].kind.decl)
  {
    if i < |path| - 1 {
      var front := path[..|path| - 1];
      assert front[i] == path[i];
      forall j | i < j < |front| ensures !IsFuncDecl(front[j]) {
        assert front[j] == path[j];
      }
      LastFuncDeclAt(front, i);
    }
  }

  /** A path without function declarations has no last one. */
  lemma {:induction false} LastFuncDeclNone(path: seq<Node>)
    requires forall j | 0 <= j < |path| :: !IsFuncDecl(path[j])
    ensures LastFuncDecl(path) == None
  {
    if path != [] {
      var front := path[..|path| - 1];
      forall j | 0 <= j < |front| ensures !IsFuncDecl(front[j]) {
        assert front[j] == path[j];
      }
      LastFuncDeclNone(front);
    }
  }

  /**
   * There is no last function declaration exactly when the path holds none;
   * otherwise it is the declaration of a node of the path with none after it.
   */
  lemma {:induction false} LastFuncDeclSpec(path: seq<Node>)
    ensures LastFuncDecl(path).None? <==> forall i | 0 <= i < |path| :: !IsFuncDecl(path[i])
    ensures LastFuncDecl(path).Some? ==>
              exists i | 0 <= i < |path| ::
                && path[i].kind == FuncDeclNode(LastFuncDecl(path).value)
                && forall j | i < j < |path| :: !IsFuncDecl(path[j])
  {
    if path != [] {
      var last := |path| - 1;
      var front := path[..last];
      if IsFuncDecl(path[last]) {
        assert path[last].kind == FuncDeclNode(LastFuncDecl(path).value);
      } else {
        LastFuncDeclSpec(front);
        assert forall j | 0 <= j < |front| :: front[j] == path[j];
        if LastFuncDecl(front).Some? {
          var i :| 0 <= i < |front| && front[i].kind == FuncDeclNode(LastFuncDecl(front).value)
                   && forall j | i < j < |front| :: !IsFuncDecl(front[j]);
          assert path[i].kind == FuncDeclNode(LastFuncDecl(path).value);
          assert forall j | i < j < |path| :: !IsFuncDecl(path[j]);
        }
      }
    }
  }

  /**
   * The loop of checkParamAssignment and isInConstructor that searches the
   * path backwards for a function declaration.
   */
  method FindLastFuncDecl(path: seq<Node>) returns (fd: Option<FuncDecl>)
    ensures fd == LastFuncDecl(path)
  {
    var i := |path| - 1;
    while i >= 0
      invariant -1 <= i < |path|
      invariant forall j | i < j < |path| :: !IsFuncDecl(path[j])
    {
      if IsFuncDecl(path[i]) {
        LastFuncDeclAt(path, i);
        return Some(path[i].kind.decl);
      }
      i := i - 1;
    }
    LastFuncDeclNone(path);
    return None;
  }

  /** The function declaration the analyzer takes as enclosing the target node. */
  function EnclosingFuncDecl(files: seq<Node>, t: NodeId): Option<FuncDecl> {
    match PathTo(files, t)
    case None => None
    case Some(path) => LastFuncDecl(path)
  }

  /** astPath followed by the backward search for a function declaration. */
  method FindEnclosingFuncDecl(files: seq<Node>, target: NodeId) returns (fd: Option<FuncDecl>)
    ensures fd == EnclosingFuncDecl(files, target)
  {
    var path, found := AstPathOf(files, target);
    if !found {
      return None;
    }
    fd := FindLastFuncDecl(path);
  }

  /** `f` is `n` or a node of one of its children's trees. */
  predicate InSubtree(f: Node, n: Node)
    decreases n
  {
    f == n || exists i | 0 <= i < |n.children| :: InSubtree(f, n.children[i])
  }

  /** No two nodes of `s` share an identity. */
  predicate UniqueIds(s: seq<Node>) {
    forall i, j | 0 <= i < j < |s| :: s[i].id != s[j].id
  }

  /** A subtree's preorder is a contiguous segment of the whole tree's preorder. */
  lemma {:induction false} SubtreeSegment(f: Node, n: Node) returns (a: nat)
    requires InSubtree(f, n)
    ensures a + |Preorder(f)| <= |Preorder(n)|
    ensures Preorder(n)[a..a + |Preorder(f)|] == Preorder(f)
    decreases n
  {
    if f == n {
      a := 0;
    } else {
      var i :| 0 <= i < |n.children| && InSubtree(f, n.children[i]);
      var b := SubtreeSegment(f, n.children[i]);
      a := ChildSegment(n, i, b, Preorder(f));
    }
  }

  /** A segment of a child's preorder is a segment of the parent's preorder. */
  lemma ChildSegment(n: Node, i: nat, b: nat, part: seq<Node>) returns (a: nat)
    requires i < |n.children|
    requires b + |part| <= |Preorder(n.children[i])| && Preorder(n.children[i])[b..b + |part|] == part
    ensures a + |part| <= |Preorder(n)| && Preorder(n)[a..a + |part|] == part
  {
    PreorderAtChild(n, i);
    var pre := [n] + PreorderSeq(n.children[..i]);
    a := |pre| + b;
    SegmentShift(Preorder(n), pre, Preorder(n.children[i]), PreorderSeq(n.children[i + 1..]), b, part);
  }

  /** A segment of the middle part of a concatenation is a segment of the whole, shifted. */
  lemma SegmentShift<T>(whole: seq<T>, pre: seq<T>, mid: seq<T>, rest: seq<T>, b: nat, part: seq<T>)
    requires whole == pre + (mid + rest)
    requires b + |part| <= |mid| && mid[b..b + |part|] == part
    ensures |pre| + b + |part| <= |whole| && whole[|pre| + b..|pre| + b + |part|] == part
  {
    assert whole[|pre| + b..|pre| + b + |part|] == mid[b..b + |part|];
  }

  /**
   * In a walk `ps` with unique identities, if a segment `fs` of it starts
   * with a function declaration, holds the target (not at its start) and no
   * other function declaration, the last declaration before the target is
   * that first one.
   */
  lemma LastFuncDeclOfSegment(ps: seq<Node>, fs: seq<Node>, a: nat, t: NodeId)
    requires UniqueIds(ps)
    requires a + |fs| <= |ps| && ps[a..a + |fs|] == fs
    requires |fs| >= 1 && IsFuncDecl(fs[0]) && fs[0].id != t && Occurs(t, fs)
    requires forall k | 1 <= k < |fs| :: !IsFuncDecl(fs[k])
    ensures LastFuncDecl(Before(t, ps)) == Some(fs[0].kind.decl)
  {
    var kf :| 0 <= kf < |fs| && fs[kf].id == t;
    assert ps[a + kf] == fs[kf];
    forall j | 0 <= j < a + kf ensures ps[j].id != t {
      assert ps[j].id != ps[a + kf].id;
    }
    BeforeAt(t, ps, a + kf);
    var r := ps[..a + kf];
    assert r[a] == fs[0];
    forall j | a < j < |r| ensures !IsFuncDecl(r[j]) {
      assert r[j] == fs[j - a];
    }
    LastFuncDeclAt(r, a);
  }

  /**
   * Function declarations do not nest; so when the target lies inside a
   * function declaration `f` that has no other declaration below it, and node
   * identities are unique, the last function declaration visited before the
   * target is `f`.
   */
  lemma EnclosingIsContainingFuncDecl(root: Node, f: Node, t: NodeId)
    requires UniqueIds(Preorder(root))
    requires InSubtree(f, root) && IsFuncDecl(f)
    requires f.id != t && Occurs(t, Preorder(f))
    requires forall k | 1 <= k < |Preorder(f)| :: !IsFuncDecl(Preorder(f)[k])
    ensures LastFuncDecl(Before(t, Preorder(root))) == Some(f.kind.decl)
  {
    var a := SubtreeSegment(f, root);
    LastFuncDeclOfSegment(Preorder(root), Preorder(f), a, t);
  }

  /**
   * The same over a package's files: when `files[k]` is the first file that
   * contains the target and the target lies in `f` as above, the analyzer's
   * enclosing function declaration is `f`.
   */
  lemma EnclosingFuncDeclInFiles(files: seq<Node>, k: nat, f: Node, t: NodeId)
    requires k < |files|
    requires forall j | 0 <= j < k :: !Occurs(t, Preorder(files[j]))
    requires UniqueIds(Preorder(files[k]))
    requires InSubtree(f, files[k]) && IsFuncDecl(f)
    requires f.id != t && Occurs(t, Preorder(f))
    requires forall m | 1 <= m < |Preorder(f)| :: !IsFuncDecl(Preorder(f)[m])
    ensures EnclosingFuncDecl(files, t) == Some(f.kind.decl)
  {
    var a := SubtreeSegment(f, files[k]);
    var kf :| 0 <= kf < |Preorder(f)| && Preorder(f)[kf].id == t;
    assert Preorder(files[k])[a + kf] == Preorder(f)[kf];
    PathToFirstFile(files, t, k);
    EnclosingIsContainingFuncDecl(files[k], f, t);
  }
}
