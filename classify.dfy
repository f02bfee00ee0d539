/**
 * Deciding whether an assignment to a marked field sits in a constructor:
 * `isConstructorName`, `returnsOwnType` and `isInConstructor` of
 * analyzer/analyzer.go. Types are compared the way the Go code compares
 * `types.Type` values (by identity), which here is equality of the type terms.
 */
module Classify {
  import opened Wrappers
  import opened GoStrings
  import opened Syntax
  import opened AstPath

  /** The name prefixes that make a function a constructor by name. */
  const ConstructorPrefixes: seq<string> := ["New", "Create", "Init", "Make"]

  /** The name starts with one of the constructor prefixes (case-sensitive). */
  predicate ConstructorName(name: string) {
    exists p | p in ConstructorPrefixes :: HasPrefix(name, p)
  }

  /** isConstructorName: the loop over the prefixes, returning at the first match. */
  method IsConstructorName(name: string) returns (r: bool)
    ensures r <==> ConstructorName(name)
  {
    var constructorPrefixes := ConstructorPrefixes;
    for i := 0 to |constructorPrefixes|
      invariant forall j | 0 <= j < i :: !HasPrefix(name, constructorPrefixes[j])
    {
      if HasPrefix(name, constructorPrefixes[i]) {
        return true;
      }
    }
    return false;
  }

  /**
   * The prefix test is a plain string-prefix test: a name that merely begins
   * with the letters counts, lower case does not, and the bare prefix counts.
   */
  lemma ConstructorNameExamples()
    ensures ConstructorName("NewConfig")
    ensures ConstructorName("Newton")
    ensures ConstructorName("Init")
    ensures !ConstructorName("newConfig")
    ensures !ConstructorName("SetName")
    ensures !ConstructorName("")
  {
    assert HasPrefix("NewConfig", "New");
    assert HasPrefix("Newton", "New");
    assert HasPrefix("Init", "Init");
    FirstLetterDecides("newConfig");
    FirstLetterDecides("SetName");
  }

  /** Every prefix starts with one of `N`, `C`, `I`, `M`. */
  lemma FirstLetterDecides(name: string)
    requires |name| > 0 && name[0] !in "NCIM"
    ensures !ConstructorName(name)
  {
    forall p | p in ConstructorPrefixes ensures !HasPrefix(name, p) {
      assert p[0] in "NCIM";
      if |p| <= |name| {
        assert name[0..|p|][0] == name[0] != p[0];
      }
    }
  }

  /** One pointer removed, if the type is a pointer (the `*types.Pointer` case). */
  function Deref(t: Type): Type {
    if t.Pointer? then t.elem else t
  }

  /**
   * Some resolved result type of `fd` is `named` or a pointer to it;
   * unresolved results are skipped.
   */
  predicate ReturnsOwn(fd: FuncDecl, named: NamedType) {
    && fd.results.Some?
    && exists i | 0 <= i < |fd.results.value| ::
         fd.results.value[i].Some? && Deref(fd.results.value[i].value) == Named(named)
  }

  /**
   * A result type counts exactly when it is `named` or one pointer to it; a
   * pointer to a pointer, or another named type with the same name, does not.
   */
  lemma ReturnsOwnShape(fd: FuncDecl, named: NamedType)
    ensures ReturnsOwn(fd, named) <==>
              && fd.results.Some?
              && exists i | 0 <= i < |fd.results.value| ::
                   fd.results.value[i] == Some(Named(named)) || fd.results.value[i] == Some(Pointer(Named(named)))
  {
    if ReturnsOwn(fd, named) {
      var i :| 0 <= i < |fd.results.value| && fd.results.value[i].Some? && Deref(fd.results.value[i].value) == Named(named);
      assert fd.results.value[i] == Some(Named(named)) || fd.results.value[i] == Some(Pointer(Named(named)));
    }
  }

  /** returnsOwnType: the loop over the result fields, returning at the first match. */
  method ReturnsOwnType(funcDecl: FuncDecl, namedType: NamedType) returns (r: bool)
    ensures r <==> ReturnsOwn(funcDecl, namedType)
  {
    if funcDecl.results.None? {
      return false;
    }
    var list := funcDecl.results.value;
    for i := 0 to |list|
      invariant forall j | 0 <= j < i :: list[j].None? || Deref(list[j].value) != Named(namedType)
    {
      var result := list[i];
      if result.None? {
        continue;
      }
      var resultType := result.value;
      if resultType.Pointer? {
        resultType := resultType.elem;
      }
      if resultType == Named(namedType) {
        return true;
      }
    }
    return false;
  }

  /**
   * Whether the analyzer treats a write to a field of `named` inside
   * `enclosing` as a constructor's write: with no enclosing declaration it is
   * not; a single receiver whose type did not resolve makes it not; a receiver
   * that is (a pointer to) `named`'s UNDERLYING type lets the name decide as
   * well as the results; otherwise only the results decide.
   */
  predicate InConstructor(enclosing: Option<FuncDecl>, named: NamedType) {
    match enclosing
    case None => false
    case Some(fd) =>
      if fd.recv.Some? && |fd.recv.value| == 1 then
        match fd.recv.value[0]
        case None => false
        case Some(t) =>
          if Deref(t) == named.underlying then ConstructorName(fd.name) || ReturnsOwn(fd, named)
          else ReturnsOwn(fd, named)
      else ReturnsOwn(fd, named)
  }

  /** A plain function (no receiver) is a constructor exactly when it returns the type or a pointer to it. */
  lemma FreeFunctionConstructor(fd: FuncDecl, named: NamedType)
    requires fd.recv.None?
    ensures InConstructor(Some(fd), named) <==> ReturnsOwn(fd, named)
  {
  }

  /**
   * There is no constructor without an enclosing declaration, nor in a method
   * whose single receiver's type did not resolve. Returning the type (or a
   * pointer to it) makes any other enclosing declaration a constructor; being a
   * constructor needs either that, or a receiver of (a pointer to) the
   * underlying type together with a constructor name.
   */
  lemma InConstructorSpec(enclosing: Option<FuncDecl>, named: NamedType)
    ensures enclosing.None? ==> !InConstructor(enclosing, named)
    ensures enclosing.Some? && enclosing.value.recv == Some([None]) ==> !InConstructor(enclosing, named)
    ensures enclosing.Some? && ReturnsOwn(enclosing.value, named) &&
            !(enclosing.value.recv.Some? && enclosing.value.recv.value == [None])
            ==> InConstructor(enclosing, named)
    ensures InConstructor(enclosing, named) ==>
              && enclosing.Some?
              && (|| ReturnsOwn(enclosing.value, named)
                  || (&& enclosing.value.recv.Some?
                      && |enclosing.value.recv.value| == 1
                      && enclosing.value.recv.value[0].Some?
                      && Deref(enclosing.value.recv.value[0].value) == named.underlying
                      && ConstructorName(enclosing.value.name)))
  {
    if enclosing.Some? {
      var fd := enclosing.value;
      if fd.recv.Some? && |fd.recv.value| == 1 && fd.recv.value[0].None? {
        assert fd.recv.value == [None];
      }
    }
  }

  /**
   * Go method receivers resolve to a named type or a pointer to one, while a
   * struct's underlying type is a struct type, so the receiver comparison
   * never succeeds for a struct: a method is then a constructor exactly when
   * it returns the type, and its name plays no part.
   */
  lemma NamedReceiverIgnoresName(fd: FuncDecl, named: NamedType, recvNamed: NamedType)
    requires named.underlying.Struct?
    requires fd.recv == Some([Some(Named(recvNamed))]) || fd.recv == Some([Some(Pointer(Named(recvNamed)))])
    ensures InConstructor(Some(fd), named) <==> ReturnsOwn(fd, named)
  {
  }

  /**
   * A method `NewDefaults` with receiver `*Config` and no results is not a
   * constructor of `Config`, although its name is a constructor name; a plain
   * function `NewConfig` returning `*Config` is one, one returning `**Config`
   * is not; a method of another type that writes into a `Person` it holds is
   * not a constructor of `Person`.
   */
  lemma ConstructorExamples()
    ensures var config := NamedType(TypeName(1, "Config"), Struct(1));
            && !InConstructor(Some(FuncDecl("NewDefaults", None, 10, Some([Some(Pointer(Named(config)))]), None)), config)
            && InConstructor(Some(FuncDecl("NewConfig", None, 20, None, Some([Some(Pointer(Named(config)))]))), config)
            && !InConstructor(Some(FuncDecl("NewConfig", None, 20, None, Some([Some(Pointer(Pointer(Named(config))))]))), config)
    ensures var person := NamedType(TypeName(2, "Person"), Struct(2));
            var other := NamedType(TypeName(3, "OtherObject"), Struct(3));
            !InConstructor(Some(FuncDecl("SetPersonDetails", None, 30, Some([Some(Pointer(Named(other)))]), None)), person)
  {
    var config := NamedType(TypeName(1, "Config"), Struct(1));
    var f := FuncDecl("NewConfig", None, 20, None, Some([Some(Pointer(Named(config)))]));
    assert Deref(f.results.value[0].value) == Named(config);
    var g := FuncDecl("NewConfig", None, 20, None, Some([Some(Pointer(Pointer(Named(config))))]));
    assert Deref(g.results.value[0].value) != Named(config);
  }

  /**
   * isInConstructor: find the enclosing function declaration of the target
   * node, then classify it.
   */
  method IsInConstructor(files: seq<Node>, target: NodeId, namedType: NamedType) returns (r: bool)
    ensures r <==> InConstructor(EnclosingFuncDecl(files, target), namedType)
  {
    var enclosing := FindEnclosingFuncDecl(files, target);
    if enclosing.None? {
      return false;
    }
    var funcDecl := enclosing.value;
    if funcDecl.recv.Some? && |funcDecl.recv.value| == 1 {
      if funcDecl.recv.value[0].None? {
        return false;
      }
      var recvType := funcDecl.recv.value[0].value;
      if recvType.Pointer? {
        recvType := recvType.elem;
      }
      if recvType == namedType.underlying {
        r := IsConstructorName(funcDecl.name);
        if !r {
          r := ReturnsOwnType(funcDecl, namedType);
        }
        return;
      }
    }
    r := ReturnsOwnType(funcDecl, namedType);
  }
}
