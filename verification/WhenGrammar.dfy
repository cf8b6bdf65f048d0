/** apps/web/src/keybindings.ts: the token grammar of `when` expressions, the recursive-descent
    parser as a function of the token list, and the proof that they agree. */
module WhenGrammar {

  datatype WhenNode =
    | Identifier(name: string)
    | Not(node: WhenNode)
    | And(left: WhenNode, right: WhenNode)
    | Or(left: WhenNode, right: WhenNode)

  datatype ParseError = ExpectedIdentifier | MissingParenthesis | UnexpectedToken | InvalidText

  datatype Result<T> = Ok(value: T) | Err(error: ParseError)

  type Tokens = seq<string>

  /** What `parsePrimary` accepts as an identifier: any other non-empty token. */
  predicate IsName(t: string) {
    t != "" && t != "!" && t != "(" && t != ")" && t != "&&" && t != "||"
  }

  predicate At(ts: Tokens, i: int, t: string) {
    0 <= i < |ts| && ts[i] == t
  }

  // --------------------------------------------------------------------------------- grammar

  /** `!` binds tightest, then left-associative `&&`, then left-associative `||`:
      tokens i..j derive `n`. */
  ghost predicate DerivesPrimary(ts: Tokens, i: nat, j: nat, n: WhenNode)
    decreases j - i, 0
  {
    && i < j <= |ts|
    && (|| (j == i + 1 && IsName(ts[i]) && n == Identifier(ts[i]))
        || (At(ts, i, "!") && n.Not? && DerivesPrimary(ts, i + 1, j, n.node))
        || (At(ts, i, "(") && i + 1 < j && At(ts, j - 1, ")") && DerivesOr(ts, i + 1, j - 1, n)))
  }

  ghost predicate DerivesAnd(ts: Tokens, i: nat, j: nat, n: WhenNode)
    decreases j - i, 1
  {
    || DerivesPrimary(ts, i, j, n)
    || (n.And? && exists k: nat :: SplitsAnd(ts, i, k, j, n))
  }

  ghost predicate SplitsAnd(ts: Tokens, i: nat, k: nat, j: nat, n: WhenNode)
    requires n.And?
    decreases j - i, 0
  {
    i < k < j && At(ts, k, "&&") && DerivesAnd(ts, i, k, n.left) && DerivesPrimary(ts, k + 1, j, n.right)
  }

  ghost predicate DerivesOr(ts: Tokens, i: nat, j: nat, n: WhenNode)
    decreases j - i, 3
  {
    || DerivesAnd(ts, i, j, n)
    || (n.Or? && exists k: nat :: SplitsOr(ts, i, k, j, n))
  }

  ghost predicate SplitsOr(ts: Tokens, i: nat, k: nat, j: nat, n: WhenNode)
    requires n.Or?
    decreases j - i, 2
  {
    i < k < j && At(ts, k, "||") && DerivesOr(ts, i, k, n.left) && DerivesAnd(ts, k + 1, j, n.right)
  }

  // ---------------------------------------------------------------------------------- parser

  /** A parsed node and the cursor behind it. */
  datatype Step = Step(node: WhenNode, next: nat)

  function ParsePrimary(ts: Tokens, cursor: nat): (r: Result<Step>)
    ensures r.Ok? ==> cursor < r.value.next <= |ts|
    decreases |ts| - cursor, 0
  {
    if cursor >= |ts| then Err(ExpectedIdentifier)
    else if ts[cursor] == "!" then
      match ParsePrimary(ts, cursor + 1)
      case Ok(s) => Ok(Step(Not(s.node), s.next))
      case Err(e) => Err(e)
    else if ts[cursor] == "(" then
      match ParseOr(ts, cursor + 1)
      case Ok(s) => if At(ts, s.next, ")") then Ok(Step(s.node, s.next + 1)) else Err(MissingParenthesis)
      case Err(e) => Err(e)
    else if !IsName(ts[cursor]) then Err(ExpectedIdentifier)
    else Ok(Step(Identifier(ts[cursor]), cursor + 1))
  }

  function ParseAnd(ts: Tokens, cursor: nat): (r: Result<Step>)
    ensures r.Ok? ==> cursor < r.value.next <= |ts|
    decreases |ts| - cursor, 2
  {
    match ParsePrimary(ts, cursor)
    case Ok(s) => AndLoop(ts, s)
    case Err(e) => Err(e)
  }

  function AndLoop(ts: Tokens, s: Step): (r: Result<Step>)
    ensures r.Ok? && s.next <= |ts| ==> s.next <= r.value.next <= |ts|
    decreases |ts| - s.next, 1
  {
    if !At(ts, s.next, "&&") then Ok(s)
    else
      match ParsePrimary(ts, s.next + 1)
      case Ok(t) => AndLoop(ts, Step(And(s.node, t.node), t.next))
      case Err(e) => Err(e)
  }

  function ParseOr(ts: Tokens, cursor: nat): (r: Result<Step>)
    ensures r.Ok? ==> cursor < r.value.next <= |ts|
    decreases |ts| - cursor, 4
  {
    match ParseAnd(ts, cursor)
    case Ok(s) => OrLoop(ts, s)
    case Err(e) => Err(e)
  }

  function OrLoop(ts: Tokens, s: Step): (r: Result<Step>)
    ensures r.Ok? && s.next <= |ts| ==> s.next <= r.value.next <= |ts|
    decreases |ts| - s.next, 3
  {
    if !At(ts, s.next, "||") then Ok(s)
    else
      match ParseAnd(ts, s.next + 1)
      case Ok(t) => OrLoop(ts, Step(Or(s.node, t.node), t.next))
      case Err(e) => Err(e)
  }

  function ParseTokens(ts: Tokens): Result<WhenNode> {
    match ParseOr(ts, 0)
    case Ok(s) => if s.next == |ts| then Ok(s.node) else Err(UnexpectedToken)
    case Err(e) => Err(e)
  }

  // ------------------------------------------------------------------- what is parsed derives

  lemma {:induction false} PrimarySound(ts: Tokens, c: nat)
    ensures var r := ParsePrimary(ts, c); r.Ok? ==> DerivesPrimary(ts, c, r.value.next, r.value.node)
    decreases |ts| - c, 0
  {
    if At(ts, c, "!") {
      PrimarySound(ts, c + 1);
    } else if At(ts, c, "(") {
      OrSound(ts, c + 1);
    }
  }

  lemma {:induction false} AndSound(ts: Tokens, c: nat)
    ensures var r := ParseAnd(ts, c); r.Ok? ==> DerivesAnd(ts, c, r.value.next, r.value.node)
    decreases |ts| - c, 2
  {
    PrimarySound(ts, c);
    var r := ParsePrimary(ts, c);
    if r.Ok? {
      AndLoopSound(ts, c, r.value);
    }
  }

  lemma {:induction false} AndLoopSound(ts: Tokens, i: nat, s: Step)
    requires i < s.next <= |ts| && DerivesAnd(ts, i, s.next, s.node)
    ensures var r := AndLoop(ts, s); r.Ok? ==> DerivesAnd(ts, i, r.value.next, r.value.node)
    decreases |ts| - s.next, 1
  {
    if At(ts, s.next, "&&") {
      PrimarySound(ts, s.next + 1);
      var r := ParsePrimary(ts, s.next + 1);
      if r.Ok? {
        var t := Step(And(s.node, r.value.node), r.value.next);
        assert SplitsAnd(ts, i, s.next, t.next, t.node);
        AndLoopSound(ts, i, t);
      }
    }
  }

  lemma {:induction false} OrSound(ts: Tokens, c: nat)
    ensures var r := ParseOr(ts, c); r.Ok? ==> DerivesOr(ts, c, r.value.next, r.value.node)
    decreases |ts| - c, 4
  {
    AndSound(ts, c);
    var r := ParseAnd(ts, c);
    if r.Ok? {
      OrLoopSound(ts, c, r.value);
    }
  }

  lemma {:induction false} OrLoopSound(ts: Tokens, i: nat, s: Step)
    requires i < s.next <= |ts| && DerivesOr(ts, i, s.next, s.node)
    ensures var r := OrLoop(ts, s); r.Ok? ==> DerivesOr(ts, i, r.value.next, r.value.node)
    decreases |ts| - s.next, 3
  {
    if At(ts, s.next, "||") {
      AndSound(ts, s.next + 1);
      var r := ParseAnd(ts, s.next + 1);
      if r.Ok? {
        var t := Step(Or(s.node, r.value.node), r.value.next);
        assert SplitsOr(ts, i, s.next, t.next, t.node);
        OrLoopSound(ts, i, t);
      }
    }
  }

  // ------------------------------------------------------------------- what derives is parsed

  lemma {:induction false} PrimaryComplete(ts: Tokens, i: nat, j: nat, n: WhenNode)
    requires DerivesPrimary(ts, i, j, n)
    ensures ParsePrimary(ts, i) == Ok(Step(n, j))
    decreases j - i, 0
  {
    if At(ts, i, "!") {
      PrimaryComplete(ts, i + 1, j, n.node);
    } else if At(ts, i, "(") {
      OrComplete(ts, i + 1, j - 1, n);
    }
  }

  lemma {:induction false} AndComplete(ts: Tokens, i: nat, j: nat, n: WhenNode)
    requires DerivesAnd(ts, i, j, n)
    ensures ParseAnd(ts, i) == AndLoop(ts, Step(n, j))
    decreases j - i, 1
  {
    if DerivesPrimary(ts, i, j, n) {
      PrimaryComplete(ts, i, j, n);
    } else {
      var k: nat :| SplitsAnd(ts, i, k, j, n);
      AndComplete(ts, i, k, n.left);
      PrimaryComplete(ts, k + 1, j, n.right);
    }
  }

  lemma {:induction false} OrComplete(ts: Tokens, i: nat, j: nat, n: WhenNode)
    requires DerivesOr(ts, i, j, n) && !At(ts, j, "&&")
    ensures ParseOr(ts, i) == OrLoop(ts, Step(n, j))
    decreases j - i, 2
  {
    if DerivesAnd(ts, i, j, n) {
      AndComplete(ts, i, j, n);
    } else {
      var k: nat :| SplitsOr(ts, i, k, j, n);
      OrComplete(ts, i, k, n.left);
      AndComplete(ts, k + 1, j, n.right);
    }
  }

  /** The parser accepts exactly the grammar, consumes every token and returns the derived tree. */
  lemma ParserIsTheGrammar(ts: Tokens, n: WhenNode)
    ensures ParseTokens(ts) == Ok(n) <==> DerivesOr(ts, 0, |ts|, n)
  {
    OrSound(ts, 0);
    if DerivesOr(ts, 0, |ts|, n) {
      OrComplete(ts, 0, |ts|, n);
    }
  }

  /** So no token list has two trees. */
  lemma GrammarIsUnambiguous(ts: Tokens, n: WhenNode, m: WhenNode)
    requires DerivesOr(ts, 0, |ts|, n) && DerivesOr(ts, 0, |ts|, m)
    ensures n == m
  {
    ParserIsTheGrammar(ts, n);
    ParserIsTheGrammar(ts, m);
  }

  // -------------------------------------------------------------------------------- printing

  /** Tokens of `n` where an operand of precedence `level` is expected: 0 for `||`, 1 for `&&`,
      2 for a primary. Parentheses appear only around an operator that binds too loosely. */
  function Print(n: WhenNode, level: nat): Tokens {
    match n
    case Identifier(name) => [name]
    case Not(m) => ["!"] + Print(m, 2)
    case And(l, r) =>
      if level > 1 then ["("] + Print(l, 1) + ["&&"] + Print(r, 2) + [")"] else Print(l, 1) + ["&&"] + Print(r, 2)
    case Or(l, r) =>
      if level > 0 then ["("] + Print(l, 0) + ["||"] + Print(r, 1) + [")"] else Print(l, 0) + ["||"] + Print(r, 1)
  }

  predicate NamesOnly(n: WhenNode) {
    match n
    case Identifier(name) => IsName(name)
    case Not(m) => NamesOnly(m)
    case And(l, r) => NamesOnly(l) && NamesOnly(r)
    case Or(l, r) => NamesOnly(l) && NamesOnly(r)
  }

  ghost predicate Derives(ts: Tokens, i: nat, j: nat, n: WhenNode, level: nat) {
    if level == 0 then DerivesOr(ts, i, j, n)
    else if level == 1 then DerivesAnd(ts, i, j, n)
    else DerivesPrimary(ts, i, j, n)
  }

  /** The printed tokens, wherever they stand in a token list, derive the tree. */
  lemma {:induction false} PrintDerives(pre: Tokens, n: WhenNode, level: nat, post: Tokens)
    requires NamesOnly(n) && level <= 2
    ensures Derives(pre + Print(n, level) + post, |pre|, |pre| + |Print(n, level)|, n, level)
    decreases n, 2 * level + 1
  {
    var p := Print(n, level);
    var ts := pre + p + post;
    var i, j := |pre|, |pre| + |p|;
    if n.Identifier? {
      assert ts[i] == n.name;
      assert DerivesPrimary(ts, i, j, n);
      assert DerivesAnd(ts, i, j, n);
    } else if n.Not? {
      PrintNot(pre, n, post);
      assert DerivesAnd(ts, i, j, n);
    } else if n.And? && level <= 1 {
      PrintAnd(pre, n, post);
    } else if n.Or? && level == 0 {
      PrintOr(pre, n, post);
    } else {
      var inner := if n.And? then 1 else 0;
      PrintInParentheses(pre, n, inner, post);
      assert p == ["("] + Print(n, inner) + [")"];
      assert DerivesAnd(ts, i, j, n);
    }
  }

  lemma {:induction false} PrintNot(pre: Tokens, n: WhenNode, post: Tokens)
    requires NamesOnly(n) && n.Not?
    ensures DerivesPrimary(pre + Print(n, 2) + post, |pre|, |pre| + |Print(n, 2)|, n)
    decreases n, 0
  {
    var ts := pre + Print(n, 2) + post;
    PrintDerives(pre + ["!"], n.node, 2, post);
    assert pre + ["!"] + Print(n.node, 2) + post == ts;
    assert At(ts, |pre|, "!");
  }

  lemma {:induction false} PrintAnd(pre: Tokens, n: WhenNode, post: Tokens)
    requires NamesOnly(n) && n.And?
    ensures DerivesAnd(pre + Print(n, 1) + post, |pre|, |pre| + |Print(n, 1)|, n)
    decreases n, 0
  {
    var pl, pr := Print(n.left, 1), Print(n.right, 2);
    var ts := pre + (pl + ["&&"] + pr) + post;
    PrintDerives(pre, n.left, 1, ["&&"] + pr + post);
    assert pre + pl + (["&&"] + pr + post) == ts;
    PrintDerives(pre + pl + ["&&"], n.right, 2, post);
    assert pre + pl + ["&&"] + pr + post == ts;
    assert SplitsAnd(ts, |pre|, |pre| + |pl|, |pre| + |pl| + 1 + |pr|, n);
  }

  lemma {:induction false} PrintOr(pre: Tokens, n: WhenNode, post: Tokens)
    requires NamesOnly(n) && n.Or?
    ensures DerivesOr(pre + Print(n, 0) + post, |pre|, |pre| + |Print(n, 0)|, n)
    decreases n, 0
  {
    var pl, pr := Print(n.left, 0), Print(n.right, 1);
    var ts := pre + (pl + ["||"] + pr) + post;
    PrintDerives(pre, n.left, 0, ["||"] + pr + post);
    assert pre + pl + (["||"] + pr + post) == ts;
    PrintDerives(pre + pl + ["||"], n.right, 1, post);
    assert pre + pl + ["||"] + pr + post == ts;
    assert SplitsOr(ts, |pre|, |pre| + |pl|, |pre| + |pl| + 1 + |pr|, n);
  }

  lemma {:induction false} PrintInParentheses(pre: Tokens, n: WhenNode, inner: nat, post: Tokens)
    requires NamesOnly(n) && ((n.And? && inner == 1) || (n.Or? && inner == 0))
    ensures var p := ["("] + Print(n, inner) + [")"];
            DerivesPrimary(pre + p + post, |pre|, |pre| + |p|, n)
    decreases n, 2 * inner + 2
  {
    var p := ["("] + Print(n, inner) + [")"];
    var ts := pre + p + post;
    PrintDerives(pre + ["("], n, inner, [")"] + post);
    assert pre + ["("] + Print(n, inner) + ([")"] + post) == ts;
    assert DerivesOr(ts, |pre| + 1, |pre| + |p| - 1, n);
    assert At(ts, |pre|, "(") && At(ts, |pre| + |p| - 1, ")");
  }

  /** No other token list of the grammar for `n` is shorter: the parentheses are minimal. */
  lemma {:induction false} PrintIsShortest(ts: Tokens, i: nat, j: nat, n: WhenNode, level: nat)
    requires level <= 2 && Derives(ts, i, j, n, level)
    ensures j - i >= |Print(n, level)|
    decreases j - i, 2 - level
  {
    if level == 2 {
      if At(ts, i, "!") {
        PrintIsShortest(ts, i + 1, j, n.node, 2);
      } else if At(ts, i, "(") {
        PrintIsShortest(ts, i + 1, j - 1, n, 0);
        ParenthesesCost(n);
      }
    } else if level == 1 {
      if DerivesPrimary(ts, i, j, n) {
        PrintIsShortest(ts, i, j, n, 2);
        ParenthesesCost(n);
      } else {
        assert DerivesAnd(ts, i, j, n);
        var k: nat :| SplitsAnd(ts, i, k, j, n);
        PrintIsShortest(ts, i, k, n.left, 1);
        PrintIsShortest(ts, k + 1, j, n.right, 2);
      }
    } else {
      if DerivesAnd(ts, i, j, n) {
        PrintIsShortest(ts, i, j, n, 1);
        ParenthesesCost(n);
      } else {
        assert DerivesOr(ts, i, j, n);
        var k: nat :| SplitsOr(ts, i, k, j, n);
        PrintIsShortest(ts, i, k, n.left, 0);
        PrintIsShortest(ts, k + 1, j, n.right, 1);
      }
    }
  }

  lemma ParenthesesCost(n: WhenNode)
    ensures |Print(n, 0)| <= |Print(n, 1)| <= |Print(n, 2)| <= |Print(n, 0)| + 2
  {
  }

  /** Round trip at the level of tokens. */
  lemma ParsePrinted(n: WhenNode)
    requires NamesOnly(n)
    ensures ParseTokens(Print(n, 0)) == Ok(n)
  {
    PrintDerives([], n, 0, []);
    assert [] + Print(n, 0) + [] == Print(n, 0);
    ParserIsTheGrammar(Print(n, 0), n);
  }
}
