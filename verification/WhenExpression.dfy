/** apps/web/src/keybindings.ts: from text to tree, and evaluation. */
module WhenExpression {
  import opened Sequences
  import opened WhenGrammar

  // ------------------------------------------------------------------------------ characters

  /** The white space of JavaScript's `\s`. */
  predicate IsSpace(c: char) {
    || '\t' <= c <= '\r' || c == ' ' || c == '\U{00A0}' || c == '\U{1680}' || '\U{2000}' <= c <= '\U{200A}'
    || c == '\U{2028}' || c == '\U{2029}' || c == '\U{202F}' || c == '\U{205F}' || c == '\U{3000}' || c == '\U{FEFF}'
  }

  /** A letter, in either case, or an underscore. */
  predicate StartsWord(c: char) {
    'a' <= c <= 'z' || 'A' <= c <= 'Z' || c == '_'
  }

  /** A word character, a dot or a hyphen. */
  predicate ContinuesWord(c: char) {
    StartsWord(c) || '0' <= c <= '9' || c == '.' || c == '-'
  }

  predicate Blank(s: string) {
    forall i :: 0 <= i < |s| ==> IsSpace(s[i])
  }

  predicate IsWord(t: string) {
    t != "" && StartsWord(t[0]) && forall i :: 0 <= i < |t| ==> ContinuesWord(t[i])
  }

  predicate IsPunctuation(t: string) {
    t == "&&" || t == "||" || t == "!" || t == "(" || t == ")"
  }

  predicate IsToken(t: string) {
    IsWord(t) || IsPunctuation(t)
  }

  // -------------------------------------------------------------------------------- tokenizer

  /** How many characters from the front satisfy `p`. */
  function Run(s: string, p: char -> bool): (n: nat)
    ensures n <= |s|
  {
    if s == "" || !p(s[0]) then 0 else 1 + Run(s[1..], p)
  }

  /** Length of the token the alternatives of the expression match at the front; 0 for none. */
  function TokenLength(s: string): (n: nat)
    ensures n <= |s|
  {
    if "&&" <= s || "||" <= s then 2
    else if s != "" && (s[0] == '!' || s[0] == '(' || s[0] == ')') then 1
    else if s != "" && StartsWord(s[0]) then Run(s, ContinuesWord)
    else 0
  }

  /** One match of the sticky expression: the token, and the text behind its trailing space. */
  function Match(s: string): Result<(string, string)> {
    var t := s[Run(s, IsSpace)..];
    var n := TokenLength(t);
    if n == 0 then Err(InvalidText) else Ok((t[..n], t[n..][Run(t[n..], IsSpace)..]))
  }

  lemma MatchShortens(s: string)
    ensures Match(s).Ok? ==> |Match(s).value.1| < |s|
  {
  }

  function TokensOf(s: string): Result<Tokens>
    decreases |s|
  {
    if s == "" then Ok([])
    else
      match Match(s)
      case Err(e) => Err(e)
      case Ok((token, rest)) =>
        MatchShortens(s);
        match TokensOf(rest)
        case Err(e) => Err(e)
        case Ok(ts) => Ok([token] + ts)
  }

  /** The loop over `TOKEN_RE.lastIndex`. */
  method Tokenize(expression: string) returns (r: Result<Tokens>)
    ensures r == TokensOf(expression)
  {
    var tokens: Tokens := [];
    var lastIndex := 0;
    assert expression[0..] == expression;
    PrependNothing(TokensOf(expression));
    while lastIndex < |expression|
      invariant lastIndex <= |expression|
      invariant TokensOf(expression) == Prepend(tokens, TokensOf(expression[lastIndex..]))
    {
      var rest := expression[lastIndex..];
      MatchShortens(rest);
      var m := Match(rest);
      if m.Err? {
        return Err(m.error);
      }
      ghost var before := tokens;
      tokens := tokens + [m.value.0];
      lastIndex := |expression| - |m.value.1|;
      MatchIsSuffix(rest);
      assert expression[lastIndex..] == m.value.1;
      PrependOne(before, m.value.0, TokensOf(m.value.1));
    }
    assert expression[lastIndex..] == "" && tokens + [] == tokens;
    return Ok(tokens);
  }

  function Prepend(a: Tokens, r: Result<Tokens>): Result<Tokens> {
    match r
    case Ok(b) => Ok(a + b)
    case Err(e) => Err(e)
  }

  lemma PrependNothing(r: Result<Tokens>)
    ensures Prepend([], r) == r
  {
    if r.Ok? {
      assert [] + r.value == r.value;
    }
  }

  lemma PrependOne(a: Tokens, t: string, r: Result<Tokens>)
    ensures Prepend(a, Prepend([t], r)) == Prepend(a + [t], r)
  {
    if r.Ok? {
      assert a + ([t] + r.value) == (a + [t]) + r.value;
    }
  }

  lemma MatchIsSuffix(s: string)
    requires Match(s).Ok?
    ensures var rest := Match(s).value.1; |rest| <= |s| && s[|s| - |rest|..] == rest
  {
  }

  // ----------------------------------------------------------------- text written out of tokens

  /** The tokens with `gaps[i]` in front of token i and the last gap at the end. */
  function Render(ts: Tokens, gaps: seq<string>): string
    requires |gaps| == |ts| + 1
  {
    if ts == [] then gaps[0] else gaps[0] + ts[0] + Render(ts[1..], gaps[1..])
  }

  /** Any white space may stand anywhere; only two neighbouring words need some. */
  ghost predicate Spaced(ts: Tokens, gaps: seq<string>) {
    && |gaps| == |ts| + 1
    && (forall i :: 0 <= i < |gaps| ==> Blank(gaps[i]))
    && (forall i :: 0 <= i < |ts| ==> IsToken(ts[i]))
    && (forall i :: 0 <= i < |ts| - 1 && IsWord(ts[i]) && IsWord(ts[i + 1]) ==> gaps[i + 1] != "")
  }

  lemma {:induction false} RunOver(a: string, b: string, p: char -> bool)
    requires forall i :: 0 <= i < |a| ==> p(a[i])
    requires b == "" || !p(b[0])
    ensures Run(a + b, p) == |a|
  {
    if a == "" {
      assert a + b == b;
    } else {
      assert (a + b)[1..] == a[1..] + b;
      RunOver(a[1..], b, p);
    }
  }

  lemma {:induction false} RunIsMaximal(s: string, p: char -> bool)
    ensures var n := Run(s, p); (forall i :: 0 <= i < n ==> p(s[i])) && (n < |s| ==> !p(s[n]))
  {
    if s != "" && p(s[0]) {
      RunIsMaximal(s[1..], p);
      var n := Run(s[1..], p);
      forall i | 0 <= i < n + 1 ensures p(s[i]) {
        assert i == 0 || s[i] == s[1..][i - 1];
      }
      assert n + 1 < |s| ==> s[n + 1] == s[1..][n];
    }
  }

  lemma TokenIsNotSpace(t: string)
    requires IsToken(t)
    ensures t != "" && !IsSpace(t[0])
    ensures !IsWord(t) ==> !ContinuesWord(t[0])
  {
  }

  /** What follows a word in spaced text cannot continue the word. */
  lemma WordEnds(ts: Tokens, gaps: seq<string>)
    requires ts != [] && Spaced(ts, gaps) && IsWord(ts[0])
    ensures var r := Render(ts[1..], gaps[1..]); r == "" || !ContinuesWord(r[0])
  {
    var r := Render(ts[1..], gaps[1..]);
    assert IsSpace('a') == false;
    if gaps[1] != "" {
      assert r[0] == gaps[1][0];
      SpaceEndsWord(gaps[1][0]);
    } else if |ts| > 1 {
      TokenIsNotSpace(ts[1]);
      assert r == "" + ts[1] + Render(ts[2..], gaps[2..]);
      assert r[0] == ts[1][0];
      assert IsToken(ts[1]) && !IsWord(ts[1]);
    }
  }

  lemma SpaceEndsWord(c: char)
    requires IsSpace(c)
    ensures !ContinuesWord(c)
  {
  }

  lemma TokenAtFront(t: string, r: string)
    requires IsToken(t) && (IsWord(t) ==> r == "" || !ContinuesWord(r[0]))
    ensures TokenLength(t + r) == |t|
  {
    var s := t + r;
    assert s[0] == t[0];
    if IsPunctuation(t) {
      if |t| == 2 {
        assert s[..2] == t;
      }
    } else {
      RunOver(t, r, ContinuesWord);
      assert !("&&" <= s) && !("||" <= s) by { assert s[0] == t[0]; }
    }
  }

  lemma SpacedTail(ts: Tokens, gaps: seq<string>)
    requires ts != [] && Spaced(ts, gaps)
    ensures Spaced(ts[1..], gaps[1..])
    ensures |ts| > 1 ==> Spaced(ts[1..], [""] + gaps[2..])
    ensures |ts| > 1 ==> Render(ts[1..], gaps[1..]) == gaps[1] + Render(ts[1..], [""] + gaps[2..])
  {
    if |ts| > 1 {
      var g := [""] + gaps[2..];
      assert g[1..] == gaps[2..] && gaps[1..][1..] == gaps[2..];
      forall i | 0 <= i < |ts[1..]| - 1 && IsWord(ts[1..][i]) && IsWord(ts[1..][i + 1])
        ensures g[i + 1] != "" && gaps[1..][i + 1] != ""
      {
        assert ts[1..][i] == ts[i + 1] && ts[1..][i + 1] == ts[i + 2];
      }
      assert "" + ts[1] + Render(ts[2..], gaps[2..]) == ts[1] + Render(ts[2..], gaps[2..]);
      assert gaps[1] + ts[1] + Render(ts[2..], gaps[2..]) == gaps[1] + (ts[1] + Render(ts[2..], gaps[2..]));
    }
  }

  /** The text behind the first token and the white space that follows it. */
  function RenderRest(ts: Tokens, gaps: seq<string>): string
    requires ts != [] && |gaps| == |ts| + 1
  {
    if |ts| == 1 then "" else Render(ts[1..], [""] + gaps[2..])
  }

  lemma GapThenRest(ts: Tokens, gaps: seq<string>)
    requires ts != [] && Spaced(ts, gaps)
    ensures var rest := RenderRest(ts, gaps);
            Render(ts[1..], gaps[1..]) == gaps[1] + rest && (rest == "" || !IsSpace(rest[0]))
  {
    SpacedTail(ts, gaps);
    if |ts| == 1 {
      assert gaps[1] + "" == gaps[1];
    } else {
      var g := [""] + gaps[2..];
      TokenIsNotSpace(ts[1]);
      assert Render(ts[1..], g) == ("" + ts[1]) + Render(ts[1..][1..], g[1..]);
      assert Render(ts[1..], g)[0] == ts[1][0];
    }
  }

  lemma MatchOf(lead: string, token: string, trail: string, rest: string)
    requires Blank(lead) && IsToken(token) && Blank(trail) && (rest == "" || !IsSpace(rest[0]))
    requires var r := trail + rest; IsWord(token) ==> r == "" || !ContinuesWord(r[0])
    ensures Match(lead + (token + (trail + rest))) == Ok((token, rest))
  {
    var r := trail + rest;
    var t := token + r;
    TokenIsNotSpace(token);
    RunOver(lead, t, IsSpace);
    assert (lead + t)[|lead|..] == t;
    TokenAtFront(token, r);
    assert t[..|token|] == token && t[|token|..] == r;
    RunOver(trail, rest, IsSpace);
    assert r[|trail|..] == rest;
  }

  lemma MatchRendered(ts: Tokens, gaps: seq<string>)
    requires ts != [] && Spaced(ts, gaps)
    ensures Render(ts, gaps) != "" && Match(Render(ts, gaps)) == Ok((ts[0], RenderRest(ts, gaps)))
  {
    assert ts[0] != "" && |Render(ts, gaps)| >= |ts[0]|;
    Regroup(gaps[0], ts[0], Render(ts[1..], gaps[1..]));
    if IsWord(ts[0]) {
      WordEnds(ts, gaps);
    }
    GapThenRest(ts, gaps);
    MatchOf(gaps[0], ts[0], gaps[1], RenderRest(ts, gaps));
  }

  lemma Cut(s: string, n: nat)
    requires n <= |s|
    ensures s == s[..n] + s[n..]
  {
  }

  /** Tokenizing undoes writing the tokens out with any admissible white space. */
  lemma {:induction false} TokensOfRendered(ts: Tokens, gaps: seq<string>)
    requires Spaced(ts, gaps) && (ts == [] ==> gaps[0] == "")
    ensures TokensOf(Render(ts, gaps)) == Ok(ts)
  {
    if |ts| == 1 {
      assert RenderRest(ts, gaps) == "" && ts[1..] == [];
      TokensOfOneMore(ts, gaps);
    } else if ts != [] {
      SpacedTail(ts, gaps);
      TokensOfRendered(ts[1..], [""] + gaps[2..]);
      TokensOfOneMore(ts, gaps);
    }
  }

  lemma TokensOfOneMore(ts: Tokens, gaps: seq<string>)
    requires ts != [] && Spaced(ts, gaps) && TokensOf(RenderRest(ts, gaps)) == Ok(ts[1..])
    ensures TokensOf(Render(ts, gaps)) == Ok(ts)
  {
    MatchRendered(ts, gaps);
    PutBack(Render(ts, gaps), RenderRest(ts, gaps), ts);
  }

  lemma PutBack(s: string, rest: string, ts: Tokens)
    requires s != "" && ts != [] && Match(s) == Ok((ts[0], rest)) && TokensOf(rest) == Ok(ts[1..])
    ensures TokensOf(s) == Ok(ts)
  {
    var token, more := ts[0], ts[1..];
    assert ts == [token] + more;
    TokensOfMatch(s, token, rest, more);
  }

  lemma TokensOfMatch(s: string, token: string, rest: string, more: Tokens)
    requires s != "" && Match(s) == Ok((token, rest)) && TokensOf(rest) == Ok(more)
    ensures TokensOf(s) == Ok([token] + more)
  {
  }

  lemma TokenLengthSound(t: string)
    requires TokenLength(t) > 0
    ensures var n := TokenLength(t);
            IsToken(t[..n]) && (IsWord(t[..n]) && n < |t| ==> !ContinuesWord(t[n]))
  {
    if "&&" <= t {
      assert t[..2] == "&&";
    } else if "||" <= t {
      assert t[..2] == "||";
    } else if t[0] == '!' || t[0] == '(' || t[0] == ')' {
      assert t[..1] == [t[0]];
    } else {
      RunIsMaximal(t, ContinuesWord);
    }
  }

  /** A match cuts the text into white space, token, white space and rest. */
  lemma MatchParts(s: string) returns (lead: string, token: string, trail: string, rest: string)
    requires Match(s).Ok?
    ensures s == lead + (token + (trail + rest)) && Match(s).value == (token, rest)
    ensures Blank(lead) && IsToken(token) && Blank(trail)
    ensures var r := trail + rest; IsWord(token) ==> r == "" || !ContinuesWord(r[0])
  {
    var t;
    lead, t := SpaceAtFront(s);
    var u;
    token, u := TokenCut(t);
    trail, rest := SpaceAtFront(u);
  }

  lemma TokenCut(t: string) returns (token: string, u: string)
    requires TokenLength(t) > 0
    ensures t == token + u && IsToken(token) && token == t[..TokenLength(t)] && u == t[TokenLength(t)..]
    ensures IsWord(token) ==> u == "" || !ContinuesWord(u[0])
  {
    var n := TokenLength(t);
    TokenLengthSound(t);
    Cut(t, n);
    token, u := t[..n], t[n..];
  }

  lemma SpaceAtFront(u: string) returns (trail: string, rest: string)
    ensures Blank(trail) && u == trail + rest && rest == u[Run(u, IsSpace)..]
  {
    var k := Run(u, IsSpace);
    RunIsMaximal(u, IsSpace);
    Cut(u, k);
    trail, rest := u[..k], u[k..];
  }

  lemma SpacedBefore(token: string, lead: string, trail: string, ts: Tokens, gaps: seq<string>)
    requires Spaced(ts, gaps) && IsToken(token) && Blank(lead) && Blank(trail)
    requires ts != [] && IsWord(token) && IsWord(ts[0]) ==> trail + gaps[0] != ""
    ensures Spaced([token] + ts, [lead, trail + gaps[0]] + gaps[1..])
    ensures Render([token] + ts, [lead, trail + gaps[0]] + gaps[1..]) == lead + (token + (trail + Render(ts, gaps)))
  {
    var us, g := [token] + ts, [lead, trail + gaps[0]] + gaps[1..];
    forall i | 0 <= i < |us| - 1 && IsWord(us[i]) && IsWord(us[i + 1]) ensures g[i + 1] != "" {
      if i > 0 {
        assert us[i] == ts[i - 1] && us[i + 1] == ts[i] && g[i + 1] == gaps[i];
      }
    }
    forall i | 0 <= i < |g| ensures Blank(g[i]) {
      if i >= 2 {
        assert g[i] == gaps[i - 1];
      }
    }
    assert us[1..] == ts && g[1..] == [trail + gaps[0]] + gaps[1..];
    GapMoves(ts, trail, gaps);
    assert lead + token + Render(ts, g[1..]) == lead + (token + (trail + Render(ts, gaps)));
  }

  lemma BeginsWithToken(ts: Tokens, gaps: seq<string>)
    requires ts != [] && |gaps| == |ts| + 1 && gaps[0] == "" && ts[0] != ""
    ensures Render(ts, gaps) != "" && Render(ts, gaps)[0] == ts[0][0]
  {
    assert Render(ts, gaps) == "" + ts[0] + Render(ts[1..], gaps[1..]);
  }

  /** Every accepted text is its tokens written out with admissible white space. */
  lemma {:induction false} TokensComeFromRendering(s: string) returns (gaps: seq<string>)
    requires TokensOf(s).Ok?
    ensures Spaced(TokensOf(s).value, gaps) && s == Render(TokensOf(s).value, gaps)
    decreases |s|
  {
    if s == "" {
      return [""];
    }
    MatchShortens(s);
    var lead, token, trail, rest := MatchParts(s);
    var inner := TokensComeFromRendering(rest);
    var ts := TokensOf(rest).value;
    if ts != [] && IsWord(ts[0]) && inner[0] == "" {
      BeginsWithToken(ts, inner);
      assert trail == "" ==> trail + rest == rest;
    }
    SpacedBefore(token, lead, trail, ts, inner);
    gaps := [lead, trail + inner[0]] + inner[1..];
  }

  lemma GapMoves(ts: Tokens, a: string, gaps: seq<string>)
    requires |gaps| == |ts| + 1
    ensures Render(ts, [a + gaps[0]] + gaps[1..]) == a + Render(ts, gaps)
  {
    var g := [a + gaps[0]] + gaps[1..];
    assert g[1..] == gaps[1..];
    if ts != [] {
      assert (a + gaps[0]) + ts[0] + Render(ts[1..], gaps[1..]) == a + (gaps[0] + ts[0] + Render(ts[1..], gaps[1..]));
    }
  }

  // ------------------------------------------------------------------------- the whole function

  function ParseWhen(expression: string): Result<WhenNode> {
    match TokensOf(expression)
    case Ok(ts) => ParseTokens(ts)
    case Err(e) => Err(e)
  }

  ghost predicate Denotes(expression: string, n: WhenNode, ts: Tokens, gaps: seq<string>) {
    Spaced(ts, gaps) && expression == Render(ts, gaps) && DerivesOr(ts, 0, |ts|, n)
  }

  /** A text parses to `n` exactly when it is some derivation of `n`, written with any white space. */
  lemma ParseWhenIsTheGrammar(expression: string, n: WhenNode)
    ensures ParseWhen(expression) == Ok(n) <==> exists ts, gaps :: Denotes(expression, n, ts, gaps)
  {
    if ParseWhen(expression) == Ok(n) {
      var gaps := TokensComeFromRendering(expression);
      var ts := TokensOf(expression).value;
      ParserIsTheGrammar(ts, n);
      assert Denotes(expression, n, ts, gaps);
    }
    if exists ts, gaps :: Denotes(expression, n, ts, gaps) {
      var ts, gaps :| Denotes(expression, n, ts, gaps);
      TokensOfRendered(ts, gaps);
      ParserIsTheGrammar(ts, n);
    }
  }

  predicate LegalNames(n: WhenNode) {
    match n
    case Identifier(name) => IsWord(name)
    case Not(m) => LegalNames(m)
    case And(l, r) => LegalNames(l) && LegalNames(r)
    case Or(l, r) => LegalNames(l) && LegalNames(r)
  }

  lemma LegalNamesAreNames(n: WhenNode)
    requires LegalNames(n)
    ensures NamesOnly(n)
  {
  }

  /** Round trip: a tree printed with minimal parentheses and any white space parses back. */
  lemma ParseRendered(n: WhenNode, gaps: seq<string>)
    requires LegalNames(n) && Spaced(Print(n, 0), gaps)
    ensures ParseWhen(Render(Print(n, 0), gaps)) == Ok(n)
  {
    LegalNamesAreNames(n);
    ParsePrinted(n);
    assert Print(n, 0) != [];
    TokensOfRendered(Print(n, 0), gaps);
  }

  // ----------------------------------------------------------------------- the parser as written

  class Parser {
    const tokens: Tokens
    var cursor: nat

    constructor (ts: Tokens)
      ensures tokens == ts && cursor == 0
    {
      tokens := ts;
      cursor := 0;
    }

    /** A node parsed by a method call: the same node as the function's, the cursor at its end. */
    ghost predicate Agrees(r: Result<WhenNode>, spec: Result<Step>)
      reads this
    {
      match spec
      case Ok(s) => r == Ok(s.node) && cursor == s.next
      case Err(e) => r == Err(e)
    }

    method ParsePrimaryNode() returns (r: Result<WhenNode>)
      modifies this`cursor
      ensures Agrees(r, ParsePrimary(tokens, old(cursor)))
      decreases |tokens| - cursor, 0
    {
      if cursor >= |tokens| {
        return Err(ExpectedIdentifier);
      }
      var token := tokens[cursor];
      cursor := cursor + 1;
      if token == "!" {
        var inner := ParsePrimaryNode();
        match inner {
          case Ok(n) => return Ok(Not(n));
          case Err(e) => return Err(e);
        }
      }
      if token == "(" {
        var inner := ParseOrNode();
        match inner {
          case Err(e) => return Err(e);
          case Ok(n) =>
            if !At(tokens, cursor, ")") {
              return Err(MissingParenthesis);
            }
            cursor := cursor + 1;
            return Ok(n);
        }
      }
      if !IsName(token) {
        return Err(ExpectedIdentifier);
      }
      return Ok(Identifier(token));
    }

    method ParseAndNode() returns (r: Result<WhenNode>)
      modifies this`cursor
      ensures Agrees(r, ParseAnd(tokens, old(cursor)))
      decreases |tokens| - cursor, 1
    {
      ghost var start := cursor;
      r := ParsePrimaryNode();
      if r.Err? {
        return;
      }
      while At(tokens, cursor, "&&")
        invariant r.Ok? && start < cursor <= |tokens|
        invariant ParseAnd(tokens, start) == AndLoop(tokens, Step(r.value, cursor))
        decreases |tokens| - cursor
      {
        cursor := cursor + 1;
        var right := ParsePrimaryNode();
        if right.Err? {
          return right;
        }
        r := Ok(And(r.value, right.value));
      }
    }

    method ParseOrNode() returns (r: Result<WhenNode>)
      modifies this`cursor
      ensures Agrees(r, ParseOr(tokens, old(cursor)))
      decreases |tokens| - cursor, 2
    {
      ghost var start := cursor;
      r := ParseAndNode();
      if r.Err? {
        return;
      }
      while At(tokens, cursor, "||")
        invariant r.Ok? && start < cursor <= |tokens|
        invariant ParseOr(tokens, start) == OrLoop(tokens, Step(r.value, cursor))
        decreases |tokens| - cursor
      {
        cursor := cursor + 1;
        var right := ParseAndNode();
        if right.Err? {
          return right;
        }
        r := Ok(Or(r.value, right.value));
      }
    }
  }

  method ParseWhenExpression(expression: string) returns (r: Result<WhenNode>)
    ensures r == ParseWhen(expression)
    ensures forall n :: r == Ok(n) <==> exists ts, gaps :: Denotes(expression, n, ts, gaps)
  {
    forall n ensures ParseWhen(expression) == Ok(n) <==> exists ts, gaps :: Denotes(expression, n, ts, gaps) {
      ParseWhenIsTheGrammar(expression, n);
    }
    var tokens := Tokenize(expression);
    if tokens.Err? {
      return Err(tokens.error);
    }
    var parser := new Parser(tokens.value);
    r := parser.ParseOrNode();
    if r.Ok? && parser.cursor != |tokens.value| {
      return Err(UnexpectedToken);
    }
  }

  // ------------------------------------------------------------------------------- evaluation

  type Context = map<string, bool>

  function Evaluate(n: WhenNode, context: Context): bool {
    match n
    case Identifier(name) => name in context && context[name]
    case Not(m) => !Evaluate(m, context)
    case And(l, r) => Evaluate(l, context) && Evaluate(r, context)
    case Or(l, r) => Evaluate(l, context) || Evaluate(r, context)
  }

  /** A missing condition and an empty text both hold. A text that does
      not parse throws. */
  function IsActive(when: string, context: Context): Result<bool> {
    if when == "" then Ok(true)
    else
      match ParseWhen(when)
      case Ok(n) => Ok(Evaluate(n, context))
      case Err(e) => Err(e)
  }

  /** A rule written from a tree is active exactly when the tree evaluates to true. */
  lemma ActiveFollowsTree(n: WhenNode, gaps: seq<string>, context: Context)
    requires LegalNames(n) && Spaced(Print(n, 0), gaps)
    ensures IsActive(Render(Print(n, 0), gaps), context) == Ok(Evaluate(n, context))
  {
    ParseRendered(n, gaps);
    assert TokensOf("") == Ok([]);
  }

  /** This text is a tree written with minimal parentheses and some admissible white space. */
  ghost predicate Writes(text: string, n: WhenNode, gaps: seq<string>) {
    LegalNames(n) && Spaced(Print(n, 0), gaps) && text == Render(Print(n, 0), gaps)
  }

  lemma WrittenIsActive(text: string, n: WhenNode, gaps: seq<string>, context: Context)
    requires Writes(text, n, gaps)
    ensures IsActive(text, context) == Ok(Evaluate(n, context))
  {
    ActiveFollowsTree(n, gaps, context);
  }

  /** A name is active exactly when the context holds it with the value true. */
  lemma NameIsActive(text: string, name: string, gaps: seq<string>, context: Context)
    requires Writes(text, Identifier(name), gaps)
    ensures IsActive(text, context) == Ok(name in context && context[name])
  {
    WrittenIsActive(text, Identifier(name), gaps, context);
  }

  lemma NotIsActive(text: string, inner: string, n: WhenNode, gaps: seq<string>, innerGaps: seq<string>,
          context: Context)
    requires Writes(text, Not(n), gaps) && Writes(inner, n, innerGaps)
    ensures IsActive(text, context) == Ok(true) <==> IsActive(inner, context) == Ok(false)
  {
    WrittenIsActive(text, Not(n), gaps, context);
    WrittenIsActive(inner, n, innerGaps, context);
  }

  /** A conjunction is active exactly when both of its sides, written by themselves, are; a disjunction when one
      of them is. */
  lemma SidesAreActive(both: string, either: string, left: string, right: string, l: WhenNode, r: WhenNode,
          bothGaps: seq<string>, eitherGaps: seq<string>, leftGaps: seq<string>, rightGaps: seq<string>,
          context: Context)
    requires Writes(both, And(l, r), bothGaps) && Writes(either, Or(l, r), eitherGaps)
    requires Writes(left, l, leftGaps) && Writes(right, r, rightGaps)
    ensures IsActive(both, context) == Ok(true) <==>
              IsActive(left, context) == Ok(true) && IsActive(right, context) == Ok(true)
    ensures IsActive(either, context) == Ok(true) <==>
              IsActive(left, context) == Ok(true) || IsActive(right, context) == Ok(true)
    ensures IsActive(both, context).Ok? && IsActive(either, context).Ok?
  {
    WrittenIsActive(both, And(l, r), bothGaps, context);
    WrittenIsActive(either, Or(l, r), eitherGaps, context);
    WrittenIsActive(left, l, leftGaps, context);
    WrittenIsActive(right, r, rightGaps, context);
  }

  /** A text is active or inactive exactly when it is empty or derives a tree, and throws otherwise. */
  lemma ActiveIffDerived(text: string, context: Context)
    ensures IsActive("", context) == Ok(true)
    ensures text != "" ==> (IsActive(text, context).Ok? <==> exists n, ts, gaps :: Denotes(text, n, ts, gaps))
  {
    if text != "" && ParseWhen(text).Ok? {
      ParseWhenIsTheGrammar(text, ParseWhen(text).value);
    }
    forall n, ts, gaps | Denotes(text, n, ts, gaps) ensures ParseWhen(text) == Ok(n) {
      ParseWhenIsTheGrammar(text, n);
    }
  }
}
