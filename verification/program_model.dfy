/**
 The abstract program the checker reads, in place of the clang AST: function
 declarations with their parameters and bodies, classes with their methods,
 and member-call expressions inside bodies.
 */
module ProgramModel {

  datatype Option<+T> = None | Some(value: T)

  /** The identity of a class declaration (a `CXXRecordDecl` pointer). Two
      class ids are the same class exactly when they are equal. */
  type ClassId = nat

  /** The access specifier of a member declaration. */
  datatype Access = Public | Protected | Private | NoAccess

  /** A method declaration: qualified name, whether it is an instance (non-static)
      method, its access, whether it is `const`, and its return type as printed. */
  datatype MethodDecl = MethodDecl(
    name: string,
    isInstance: bool,
    access: Access,
    isConst: bool,
    returnType: string)

  datatype ClassDecl = ClassDecl(id: ClassId, methods: seq<MethodDecl>)

  /** A node of a function body. `MemberCall` is a member-call expression: the
      class of its receiver, the qualified name of the invoked method, and its
      sub-expressions (the object expression and the arguments). Every other
      statement or expression is `Other`, with its children. */
  datatype Expr =
    | MemberCall(receiver: ClassId, callee: string, operands: seq<Expr>)
    | Other(children: seq<Expr>)

  /** A function declaration. Each parameter type is given by the class it points
      or refers to, or `None` when it is not a pointer or reference to a class.
      A declaration without a body has an empty `body`. */
  datatype FunctionDecl = FunctionDecl(
    name: string,
    params: seq<Option<ClassId>>,
    body: seq<Expr>)

  /** One translation unit: every function declaration in visiting order, and
      the class declarations. Each class is declared once, so no two entries of
      `classes` share an id; `DistinctClassIds` states this. */
  datatype Program = Program(functions: seq<FunctionDecl>, classes: seq<ClassDecl>)

  /** No two class declarations of the program carry the same id, as no two
      `CXXRecordDecl`s share an address. */
  ghost predicate DistinctClassIds(p: Program)
  {
    forall i, j :: 0 <= i < j < |p.classes| ==> p.classes[i].id != p.classes[j].id
  }
}
