/** The part of Checkstyle's `DetailAST` the check reads: a token type, the
    token text and the ordered children of a node. */
module Ast {
  import opened Wrappers

  /** The `TokenTypes` the check looks at; every other type is `Other`. */
  datatype TokenType =
    | MethodCall      // METHOD_CALL
    | LiteralNew      // LITERAL_NEW
    | Ident           // IDENT
    | Dot             // DOT
    | Elist           // ELIST, the argument list
    | Expr            // EXPR, one argument expression
    | Comma           // COMMA between arguments
    | LParen          // LPAREN
    | RParen          // RPAREN
    | ArrayDeclarator // ARRAY_DECLARATOR, `[4]` in `new int[4]`
    | LiteralInt      // LITERAL_INT, the keyword `int`
    | Lambda          // LAMBDA
    | Other           // any other token type

  datatype DetailAst = DetailAst(tokenType: TokenType, text: string, children: seq<DetailAst>)

  /** The number of entries of `nodes` whose type is `t`. */
  function CountOfType(nodes: seq<DetailAst>, t: TokenType): (n: nat)
    ensures n <= |nodes|
    ensures n == 0 <==> forall i | 0 <= i < |nodes| :: nodes[i].tokenType != t
    ensures n == |nodes| <==> forall i | 0 <= i < |nodes| :: nodes[i].tokenType == t
  {
    if nodes == [] then 0
    else CountOfType(nodes[..|nodes| - 1], t) + (if nodes[|nodes| - 1].tokenType == t then 1 else 0)
  }

  /** The positions in `nodes` that hold a node of type `t`. */
  function PositionsOfType(nodes: seq<DetailAst>, t: TokenType): set<nat> {
    set i: nat | i < |nodes| && nodes[i].tokenType == t
  }

  /** Extending a list by one node adds its position when it has type `t`. */
  lemma PositionsOfTypeSnoc(nodes: seq<DetailAst>, t: TokenType)
    requires nodes != []
    ensures var last := |nodes| - 1;
      PositionsOfType(nodes, t) ==
        PositionsOfType(nodes[..last], t) + (if nodes[last].tokenType == t then {last} else {})
  {
    var last := |nodes| - 1;
    var rhs := PositionsOfType(nodes[..last], t) + (if nodes[last].tokenType == t then {last} else {});
    forall i: nat ensures i in PositionsOfType(nodes, t) <==> i in rhs {
      if i < last {
        assert nodes[..last][i] == nodes[i];
      }
    }
  }

  /** `CountOfType` counts exactly the positions holding a node of type `t`. */
  lemma {:induction false} CountOfTypeCountsPositions(nodes: seq<DetailAst>, t: TokenType)
    ensures CountOfType(nodes, t) == |PositionsOfType(nodes, t)|
  {
    if nodes == [] {
      assert PositionsOfType(nodes, t) == {};
    } else {
      var last := |nodes| - 1;
      CountOfTypeCountsPositions(nodes[..last], t);
      PositionsOfTypeSnoc(nodes, t);
      assert last !in PositionsOfType(nodes[..last], t);
    }
  }

  /** Counting is additive over concatenation, so each argument list is
      counted piece by piece. */
  lemma {:induction false} CountOfTypeAppend(xs: seq<DetailAst>, ys: seq<DetailAst>, t: TokenType)
    ensures CountOfType(xs + ys, t) == CountOfType(xs, t) + CountOfType(ys, t)
    decreases |ys|
  {
    if ys == [] {
      assert xs + ys == xs;
    } else {
      var last := |ys| - 1;
      assert (xs + ys)[..|xs + ys| - 1] == xs + ys[..last];
      assert (xs + ys)[|xs + ys| - 1] == ys[last];
      CountOfTypeAppend(xs, ys[..last], t);
    }
  }

  /** `getChildCount(type)`: how many direct children have type `t`. */
  function ChildCount(node: DetailAst, t: TokenType): nat {
    CountOfType(node.children, t)
  }

  /** `findFirstToken(type)`: the earliest direct child of type `t`, or null. */
  function FindFirstToken(node: DetailAst, t: TokenType): (r: Option<DetailAst>)
    ensures r.Some? <==> exists i | 0 <= i < |node.children| :: node.children[i].tokenType == t
    ensures r.Some? ==> exists i | 0 <= i < |node.children| ::
      node.children[i] == r.value && r.value.tokenType == t
      && forall j | 0 <= j < i :: node.children[j].tokenType != t
  {
    FirstOfType(node.children, t)
  }

  function FirstOfType(nodes: seq<DetailAst>, t: TokenType): (r: Option<DetailAst>)
    ensures r.Some? <==> exists i | 0 <= i < |nodes| :: nodes[i].tokenType == t
    ensures r.Some? ==> exists i | 0 <= i < |nodes| ::
      nodes[i] == r.value && r.value.tokenType == t
      && forall j | 0 <= j < i :: nodes[j].tokenType != t
  {
    if nodes == [] then None
    else if nodes[0].tokenType == t then Some(nodes[0])
    else
      var r := FirstOfType(nodes[1..], t);
      assert forall i | 1 <= i < |nodes| :: nodes[i] == nodes[1..][i - 1];
      r
  }
}
