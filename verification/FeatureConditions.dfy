/**
  * The feature conditions of the amalgamation script (singleheader/amalgamate.py): parse_condition
  * with its explicit stack, and the expression classes it builds.
  */
module FeatureConditions {

  // ----- Expressions -----

  // What the variables and the stack of the parser hold: an expression, an operator, or None.
  datatype Value =
    | Nothing
    | Operator(isAnd: bool)
    | Token(name: string)
    | And(a: Value, b: Value)
    | Or(a: Value, b: Value)

  predicate IsExpression(v: Value)
  {
    match v
    case Token(_) => true
    case And(a, b) => IsExpression(a) && IsExpression(b)
    case Or(a, b) => IsExpression(a) && IsExpression(b)
    case _ => false
  }

  function Join(isAnd: bool, a: Value, b: Value): Value
  {
    if isAnd then And(a, b) else Or(a, b)
  }

  function Features(e: Value): set<string>
    requires IsExpression(e)
  {
    if e.Token? then {e.name} else Features(e.a) + Features(e.b)
  }

  function Evaluate(e: Value, enabled: set<string>): bool
    requires IsExpression(e)
  {
    match e
    case Token(name) => name in enabled
    case And(a, b) => Evaluate(a, enabled) && Evaluate(b, enabled)
    case Or(a, b) => Evaluate(a, enabled) || Evaluate(b, enabled)
  }

  // ----- Words -----

  // A feature name holds no character that separates.
  predicate IsWord(name: string)
  {
    name != "" && forall i :: 0 <= i < |name| ==> name[i] !in " ()&|"
  }

  predicate AreWords(known: set<string>) { forall name :: name in known ==> IsWord(name) }

  function Flush(word: string): seq<string> { if word == "" then [] else [word] }

  // re.split with the blanks and empty pieces dropped; word holds what precedes s since the last
  // separator.
  function Lex(s: string, word: string): seq<string>
  {
    if s == "" then Flush(word)
    else if s[0] == ' ' then Flush(word) + Lex(s[1..], "")
    else if s[0] == '(' || s[0] == ')' then Flush(word) + [s[..1]] + Lex(s[1..], "")
    else if "&&" <= s || "||" <= s then Flush(word) + [s[..2]] + Lex(s[2..], "")
    else Lex(s[1..], word + s[..1])
  }

  lemma {:induction false} LexWord(name: string, rest: string, word: string)
    requires name == "" || IsWord(name)
    ensures Lex(name + rest, word) == Lex(rest, word + name)
  {
    if name == "" {
      assert name + rest == rest && word + name == word;
    } else {
      var s := name + rest;
      assert s[0] == name[0] && s[1..] == name[1..] + rest && word + s[..1] + name[1..] == word + name;
      LexWord(name[1..], rest, word + s[..1]);
    }
  }

  // ----- The parser -----

  datatype Error = UnknownFeature(name: string) | EmptyExpressionStack | PopFromEmptyList | NotAnOperator

  datatype Result<T> = Ok(value: T) | Err(error: Error)

  type Stack = seq<Value>

  // What each token does to the stack and the expression.
  function Step(token: string, stack: Stack, expr: Value, known: set<string>): Result<(Stack, Value)>
  {
    if token == "&&" || token == "||" then Ok((stack + [Operator(token == "&&")], expr))
    else if token == "(" then Ok((stack + [expr], Nothing))
    else if token == ")" then
      if |stack| < 2 then Err(PopFromEmptyList)
      else if !stack[|stack| - 2].Operator? then Err(NotAnOperator)
      else Ok((stack[..|stack| - 2], Join(stack[|stack| - 2].isAnd, stack[|stack| - 1], expr)))
    else if token !in known then Err(UnknownFeature(token))
    else if expr.Nothing? then Ok((stack, Token(token)))
    else if stack == [] then Err(EmptyExpressionStack)
    else if !stack[|stack| - 1].Operator? then Err(NotAnOperator)
    else Ok((stack[..|stack| - 1], Join(stack[|stack| - 1].isAnd, expr, Token(token))))
  }

  function Run(tokens: seq<string>, stack: Stack, expr: Value, known: set<string>): Result<Value>
  {
    if tokens == [] then Ok(expr)
    else
      match Step(tokens[0], stack, expr, known)
      case Err(error) => Err(error)
      case Ok((stack', expr')) => Run(tokens[1..], stack', expr', known)
  }

  method ParseCondition(s: string, known: set<string>) returns (r: Result<Value>)
    ensures r == Run(Lex(s, ""), [], Nothing, known)
  {
    var tokens := Lex(s, "");
    var stack: Stack, expr := [], Nothing;
    for i := 0 to |tokens|
      invariant Run(tokens, [], Nothing, known) == Run(tokens[i..], stack, expr, known)
    {
      var token := tokens[i];
      assert tokens[i..][0] == token && tokens[i..][1..] == tokens[i + 1..];
      if token == "&&" || token == "||" {
        stack := stack + [Operator(token == "&&")];
      } else if token == "(" {
        stack := stack + [expr];
        expr := Nothing;
      } else if token == ")" {
        if |stack| < 2 {
          return Err(PopFromEmptyList);
        }
        var prev, op := stack[|stack| - 1], stack[|stack| - 2];
        stack := stack[..|stack| - 2];
        if !op.Operator? {
          return Err(NotAnOperator);
        }
        expr := if op.isAnd then And(prev, expr) else Or(prev, expr);
      } else if token !in known {
        return Err(UnknownFeature(token));
      } else if expr.Nothing? {
        expr := Token(token);
      } else {
        if stack == [] {
          return Err(EmptyExpressionStack);
        }
        var op := stack[|stack| - 1];
        stack := stack[..|stack| - 1];
        if !op.Operator? {
          return Err(NotAnOperator);
        }
        expr := if op.isAnd then And(expr, Token(token)) else Or(expr, Token(token));
      }
    }
    r := Ok(expr);
  }

  // ----- The conditions it understands -----

  // A condition is a name followed by operators with their right operands.
  datatype Condition = Start(name: string) | More(left: Condition, isAnd: bool, right: Operand)
  datatype Operand = Name(name: string) | Group(inner: Condition)

  function Names(c: Condition): set<string>
  {
    match c
    case Start(name) => {name}
    case More(left, _, right) => Names(left) + OperandNames(right)
  }

  function OperandNames(o: Operand): set<string>
  {
    match o
    case Name(name) => {name}
    case Group(inner) => Names(inner)
  }

  function OperatorText(isAnd: bool): string { if isAnd then "&&" else "||" }

  function Tokens(c: Condition): seq<string>
  {
    match c
    case Start(name) => [name]
    case More(left, isAnd, right) => Tokens(left) + [OperatorText(isAnd)] + OperandTokens(right)
  }

  function OperandTokens(o: Operand): seq<string>
  {
    match o
    case Name(name) => [name]
    case Group(inner) => ["("] + Tokens(inner) + [")"]
  }

  // The text of a condition.
  function Text(c: Condition): string
  {
    match c
    case Start(name) => name
    case More(left, isAnd, right) => Text(left) + " " + OperatorText(isAnd) + " " + OperandText(right)
  }

  function OperandText(o: Operand): string
  {
    match o
    case Name(name) => name
    case Group(inner) => "(" + Text(inner) + ")"
  }

  // The expression it stands for: operators of equal rank, applied from left to right.
  function Tree(c: Condition): (e: Value)
    ensures IsExpression(e)
  {
    match c
    case Start(name) => Token(name)
    case More(left, isAnd, right) => Join(isAnd, Tree(left), OperandTree(right))
  }

  function OperandTree(o: Operand): (e: Value)
    ensures IsExpression(e)
  {
    match o
    case Name(name) => Token(name)
    case Group(inner) => Tree(inner)
  }

  // A separator or the end follows.
  predicate Separated(rest: string)
  {
    rest == "" || rest[0] == ' ' || rest[0] == ')'
  }

  lemma {:induction false} LexText(c: Condition, rest: string)
    requires AreWords(Names(c)) && Separated(rest)
    ensures Lex(Text(c) + rest, "") == Tokens(c) + Lex(rest, "")
  {
    hide Lex, IsWord;
    match c
    case Start(name) =>
      LexName(name, rest);
    case More(left, isAnd, right) =>
      var tail := OperandText(right) + rest;
      assert Names(c) == Names(left) + OperandNames(right);
      assert Text(c) + rest == Text(left) + (" " + OperatorText(isAnd) + " " + tail);
      LexText(left, " " + OperatorText(isAnd) + " " + tail);
      LexOperator(isAnd, tail);
      match right {
        case Name(name) =>
          LexName(name, rest);
        case Group(inner) =>
          assert OperandNames(right) == Names(inner);
          LexText(inner, ")" + rest);
          LexGroup(Text(inner), Tokens(inner), rest);
      }
  }

  lemma LexOperator(isAnd: bool, tail: string)
    ensures Lex(" " + OperatorText(isAnd) + " " + tail, "") == [OperatorText(isAnd)] + Lex(tail, "")
  {
    var op, s := OperatorText(isAnd), OperatorText(isAnd) + (" " + tail);
    assert (" " + op + " " + tail)[1..] == s;
    assert s[0] == op[0] && s[..2] == op && s[2..] == " " + tail && (" " + tail)[1..] == tail;
    assert Lex(s, "") == [op] + Lex(" " + tail, "");
  }

  lemma LexGroup(text: string, tokens: seq<string>, rest: string)
    requires Lex(text + (")" + rest), "") == tokens + Lex(")" + rest, "")
    ensures Lex("(" + text + ")" + rest, "") == ["("] + tokens + [")"] + Lex(rest, "")
  {
    assert (")" + rest)[1..] == rest && Lex(")" + rest, "") == [")"] + Lex(rest, "");
    var s := "(" + text + ")" + rest;
    assert s[1..] == text + (")" + rest) && s[..1] == "(";
  }

  lemma LexName(name: string, rest: string)
    requires IsWord(name) && Separated(rest)
    ensures Lex(name + rest, "") == [name] + Lex(rest, "")
  {
    LexWord(name, rest, "");
    assert "" + name == name;
  }

  lemma WordIsNoOperator(name: string)
    requires IsWord(name)
    ensures name !in {"&&", "||", "(", ")"}
  {
    assert name[0] !in " ()&|";
    assert " ()&|"[1] == '(' && " ()&|"[2] == ')' && " ()&|"[3] == '&' && " ()&|"[4] == '|';
  }

  // From any stack the parser rebuilds the expression and leaves the stack alone.
  lemma {:induction false} Rebuilds(c: Condition, rest: seq<string>, stack: Stack, known: set<string>)
    requires Names(c) <= known && AreWords(known)
    ensures Run(Tokens(c) + rest, stack, Nothing, known) == Run(rest, stack, Tree(c), known)
  {
    match c
    case Start(name) =>
      WordIsNoOperator(name);
      assert ([name] + rest)[1..] == rest;
    case More(left, isAnd, right) =>
      var tail := OperandTokens(right) + rest;
      assert Tokens(c) + rest == Tokens(left) + ([OperatorText(isAnd)] + tail);
      Rebuilds(left, [OperatorText(isAnd)] + tail, stack, known);
      assert ([OperatorText(isAnd)] + tail)[1..] == tail;
      RebuildsOperand(right, rest, stack, isAnd, Tree(left), known);
  }

  lemma {:induction false} RebuildsOperand(o: Operand, rest: seq<string>, stack: Stack, isAnd: bool, left: Value,
                                           known: set<string>)
    requires OperandNames(o) <= known && AreWords(known) && !left.Nothing?
    ensures Run(OperandTokens(o) + rest, stack + [Operator(isAnd)], left, known)
         == Run(rest, stack, Join(isAnd, left, OperandTree(o)), known)
  {
    match o
    case Name(name) =>
      WordIsNoOperator(name);
      assert ([name] + rest)[1..] == rest;
    case Group(inner) =>
      var pushed := stack + [Operator(isAnd)] + [left];
      var tail := Tokens(inner) + ([")"] + rest);
      assert OperandTokens(o) + rest == ["("] + tail && (["("] + tail)[1..] == tail;
      Rebuilds(inner, [")"] + rest, pushed, known);
      assert ([")"] + rest)[1..] == rest && pushed[..|pushed| - 2] == stack;
  }

  // A group is understood only behind an operator: never at the start of a condition or of a group.
  lemma GroupNeedsOperator(inner: Condition, rest: seq<string>, stack: Stack, expr: Value, known: set<string>)
    requires Names(inner) <= known && AreWords(known)
    ensures var r := Run(OperandTokens(Group(inner)) + rest, stack, expr, known);
            if stack != [] && stack[|stack| - 1].Operator?
            then r == Run(rest, stack[..|stack| - 1], Join(stack[|stack| - 1].isAnd, expr, Tree(inner)), known)
            else r.Err?
  {
    var pushed := stack + [expr];
    var tail := Tokens(inner) + ([")"] + rest);
    assert OperandTokens(Group(inner)) + rest == ["("] + tail && (["("] + tail)[1..] == tail;
    Rebuilds(inner, [")"] + rest, pushed, known);
    assert ([")"] + rest)[1..] == rest;
    assert stack != [] ==> pushed[..|pushed| - 2] == stack[..|stack| - 1];
  }

  // ----- What it refuses -----

  predicate IsSymbol(token: string) { token in {"&&", "||", "(", ")"} }

  // Every name of a condition that is accepted is known, and a name that is refused is not.
  lemma {:induction false} NamesAreKnown(tokens: seq<string>, stack: Stack, expr: Value, known: set<string>)
    ensures Run(tokens, stack, expr, known).Ok? ==>
              forall i :: 0 <= i < |tokens| ==> IsSymbol(tokens[i]) || tokens[i] in known
    ensures forall name :: Run(tokens, stack, expr, known) == Err(UnknownFeature(name)) ==>
                             name in tokens && name !in known && !IsSymbol(name)
  {
    if tokens != [] {
      var step := Step(tokens[0], stack, expr, known);
      if step.Ok? {
        NamesAreKnown(tokens[1..], step.value.0, step.value.1, known);
        assert forall i :: 1 <= i < |tokens| ==> tokens[i] == tokens[1..][i - 1];
      }
    }
  }

  // The first unknown name behind what is understood is reported.
  lemma UnknownIsReported(c: Condition, isAnd: bool, name: string, rest: seq<string>, known: set<string>)
    requires Names(c) <= known && AreWords(known) && name !in known && !IsSymbol(name)
    ensures Run([name] + rest, [], Nothing, known) == Err(UnknownFeature(name))
    ensures Run(Tokens(c) + ([OperatorText(isAnd), name] + rest), [], Nothing, known) == Err(UnknownFeature(name))
  {
    var tail := [OperatorText(isAnd), name] + rest;
    Rebuilds(c, tail, [], known);
    assert tail[0] == OperatorText(isAnd) && tail[1..] == [name] + rest;
  }

  // Two operands need an operator between them.
  lemma OperatorIsMissing(c: Condition, name: string, rest: seq<string>, known: set<string>)
    requires Names(c) <= known && AreWords(known) && name in known
    ensures Run(Tokens(c) + ([name] + rest), [], Nothing, known) == Err(EmptyExpressionStack)
  {
    Rebuilds(c, [name] + rest, [], known);
    WordIsNoOperator(name);
  }

  // ----- The printer with parentheses around compound right operands -----

  function ConditionOf(e: Value): (c: Condition)
    requires IsExpression(e)
    decreases e, 0
  {
    match e
    case Token(name) => Start(name)
    case And(a, b) => More(ConditionOf(a), true, OperandOf(b))
    case Or(a, b) => More(ConditionOf(a), false, OperandOf(b))
  }

  function OperandOf(e: Value): Operand
    requires IsExpression(e)
    decreases e, 1
  {
    if e.Token? then Name(e.name) else Group(ConditionOf(e))
  }

  lemma {:induction false} TreeOfCondition(e: Value)
    requires IsExpression(e)
    ensures Tree(ConditionOf(e)) == e && Names(ConditionOf(e)) == Features(e)
  {
    if !e.Token? {
      TreeOfCondition(e.a);
      TreeOfCondition(e.b);
    }
  }

  // Printing and parsing an expression gives the expression.
  lemma PrintThenParse(e: Value, known: set<string>)
    requires IsExpression(e) && AreWords(known) && Features(e) <= known
    ensures Run(Lex(Text(ConditionOf(e)), ""), [], Nothing, known) == Ok(e)
  {
    TreeOfCondition(e);
    ConditionMeansItsTree(ConditionOf(e), known);
  }

  lemma ConditionMeansItsTree(c: Condition, known: set<string>)
    requires AreWords(known) && Names(c) <= known
    ensures Run(Lex(Text(c), ""), [], Nothing, known) == Ok(Tree(c))
  {
    LexText(c, "");
    assert Text(c) + "" == Text(c);
    Rebuilds(c, [], [], known);
  }

  // ----- __str__, which also puts parentheses around left operands and the whole -----

  function Str(e: Value): string
    requires IsExpression(e)
  {
    if e.Token? then e.name
    else "(" + Str(e.a) + " " + OperatorText(e.And?) + " " + Str(e.b) + ")"
  }

  function StrTokens(e: Value): seq<string>
    requires IsExpression(e)
  {
    if e.Token? then [e.name]
    else ["("] + (StrTokens(e.a) + ([OperatorText(e.And?)] + StrTokens(e.b))) + [")"]
  }

  lemma {:induction false} LexStr(e: Value, rest: string)
    requires IsExpression(e) && AreWords(Features(e)) && Separated(rest)
    ensures Lex(Str(e) + rest, "") == StrTokens(e) + Lex(rest, "")
  {
    hide Lex, IsWord;
    if e.Token? {
      LexName(e.name, rest);
    } else {
      var op := OperatorText(e.And?);
      LexStr(e.a, " " + op + " " + (Str(e.b) + (")" + rest)));
      LexStr(e.b, ")" + rest);
      LexCompound(Str(e.a), StrTokens(e.a), e.And?, Str(e.b), StrTokens(e.b), rest);
    }
  }

  lemma LexCompound(a: string, aTokens: seq<string>, isAnd: bool, b: string, bTokens: seq<string>, rest: string)
    requires var tail := " " + OperatorText(isAnd) + " " + (b + (")" + rest));
             Lex(a + tail, "") == aTokens + Lex(tail, "")
    requires Lex(b + (")" + rest), "") == bTokens + Lex(")" + rest, "")
    ensures Lex("(" + a + " " + OperatorText(isAnd) + " " + b + ")" + rest, "")
         == ["("] + (aTokens + ([OperatorText(isAnd)] + bTokens)) + [")"] + Lex(rest, "")
  {
    hide Lex;
    var op := OperatorText(isAnd);
    var text := a + " " + op + " " + b;
    LexOperator(isAnd, b + (")" + rest));
    Regroup(aTokens, [op], bTokens, Lex(")" + rest, ""));
    assert text + (")" + rest) == a + (" " + op + " " + (b + (")" + rest)));
    LexGroup(text, aTokens + ([op] + bTokens), rest);
    assert "(" + a + " " + op + " " + b + ")" + rest == "(" + text + ")" + rest;
  }

  lemma Regroup(a: seq<string>, b: seq<string>, c: seq<string>, d: seq<string>)
    ensures a + (b + (c + d)) == (a + (b + c)) + d
    ensures a + (b + (c + d)) == a + ((b + c) + d)
  {
  }

  // The printed form of a compound expression is refused wherever no operator precedes it.
  lemma {:induction false} StrFails(e: Value, rest: seq<string>, stack: Stack, known: set<string>)
    requires IsExpression(e) && !e.Token? && AreWords(known) && Features(e) <= known
    requires stack == [] || !stack[|stack| - 1].Operator?
    ensures Run(StrTokens(e) + rest, stack, Nothing, known).Err?
    decreases e, 0
  {
    StrInner(e, rest, stack, Nothing, known);
    assert ([")"] + rest)[1..] == rest;
  }

  // Behind the opening parenthesis.
  lemma {:induction false} StrInner(e: Value, rest: seq<string>, stack: Stack, left: Value, known: set<string>)
    requires IsExpression(e) && !e.Token? && AreWords(known) && Features(e) <= known && !left.Operator?
    ensures var r := Run(StrTokens(e) + rest, stack, left, known);
            r.Err? || r == Run([")"] + rest, stack + [left], e, known)
    decreases e, -1
  {
    var pushed := stack + [left];
    var tail := StrTokens(e.b) + ([")"] + rest);
    var middle := [OperatorText(e.And?)] + tail;
    StrStarts(e, rest, stack, left, known);
    if e.a.Token? {
      StrBehindName(e.a.name, e.And?, tail, pushed, known);
      var s := pushed + [Operator(e.And?)];
      if e.b.Token? {
        WordIsNoOperator(e.b.name);
        assert ([e.b.name] + ([")"] + rest))[1..] == [")"] + rest;
      } else {
        StrInner(e.b, [")"] + rest, s, e.a, known);
        assert ([")"] + ([")"] + rest))[1..] == [")"] + rest;
        assert (s + [e.a])[..|s| - 1] == pushed;
      }
    } else {
      StrFails(e.a, middle, pushed, known);
    }
  }

  lemma StrStarts(e: Value, rest: seq<string>, stack: Stack, left: Value, known: set<string>)
    requires IsExpression(e) && !e.Token?
    ensures Run(StrTokens(e) + rest, stack, left, known)
         == Run(StrTokens(e.a) + ([OperatorText(e.And?)] + (StrTokens(e.b) + ([")"] + rest))), stack + [left], Nothing,
           known)
  {
    var tail := StrTokens(e.a) + ([OperatorText(e.And?)] + (StrTokens(e.b) + ([")"] + rest)));
    assert StrTokens(e) + rest == ["("] + tail && (["("] + tail)[1..] == tail;
  }

  lemma StrBehindName(name: string, isAnd: bool, tail: seq<string>, stack: Stack, known: set<string>)
    requires name in known && AreWords(known)
    ensures Run([name] + ([OperatorText(isAnd)] + tail), stack, Nothing, known)
         == Run(tail, stack + [Operator(isAnd)], Token(name), known)
  {
    WordIsNoOperator(name);
    var middle := [OperatorText(isAnd)] + tail;
    assert ([name] + middle)[1..] == middle && middle[1..] == tail;
  }

  // So what __str__ prints can be read back exactly when it is a single name.
  lemma StrIsReadBack(e: Value, known: set<string>)
    requires IsExpression(e) && AreWords(known) && Features(e) <= known
    ensures var r := Run(Lex(Str(e), ""), [], Nothing, known);
            if e.Token? then r == Ok(e) else r.Err?
  {
    LexStr(e, "");
    assert Str(e) + "" == Str(e) && StrTokens(e) + [] == StrTokens(e);
    if e.Token? {
      WordIsNoOperator(e.name);
      assert Run(StrTokens(e)[1..], [], e, known) == Ok(e);
    } else {
      StrFails(e, [], [], known);
    }
  }

  // ----- Left to right, and the precedence of the C preprocessor -----

  function LeftToRight(c: Condition, enabled: set<string>): bool
  {
    match c
    case Start(name) => name in enabled
    case More(left, isAnd, right) =>
      if isAnd then LeftToRight(left, enabled) && OperandLeftToRight(right, enabled)
      else LeftToRight(left, enabled) || OperandLeftToRight(right, enabled)
  }

  function OperandLeftToRight(o: Operand, enabled: set<string>): bool
  {
    match o
    case Name(name) => name in enabled
    case Group(inner) => LeftToRight(inner, enabled)
  }

  lemma {:induction false} EvaluateIsLeftToRight(c: Condition, enabled: set<string>)
    ensures Evaluate(Tree(c), enabled) == LeftToRight(c, enabled)
  {
    if c.More? {
      EvaluateIsLeftToRight(c.left, enabled);
      if c.right.Group? {
        EvaluateIsLeftToRight(c.right.inner, enabled);
      }
    }
  }

  // C binds && closer than ||: the alternatives that are complete, and the one that is still open.
  function Alternatives(c: Condition, enabled: set<string>): (bool, bool)
    decreases c, 0
  {
    match c
    case Start(name) => (false, name in enabled)
    case More(left, isAnd, right) =>
      var (closed, open) := Alternatives(left, enabled);
      if isAnd then (closed, open && OperandC(right, enabled)) else (closed || open, OperandC(right, enabled))
  }

  function OperandC(o: Operand, enabled: set<string>): bool
    decreases o, 0
  {
    match o
    case Name(name) => name in enabled
    case Group(inner) => ValueInC(inner, enabled)
  }

  function ValueInC(c: Condition, enabled: set<string>): bool
    decreases c, 1
  {
    Alternatives(c, enabled).0 || Alternatives(c, enabled).1
  }

  predicate HasOr(c: Condition) { c.More? && (!c.isAnd || HasOr(c.left)) }

  // An && that follows an || at the same level.
  predicate Mixed(c: Condition)
  {
    c.More? && (Mixed(c.left) || (c.isAnd && HasOr(c.left)) || (c.right.Group? && Mixed(c.right.inner)))
  }

  lemma OperandValues(o: Operand, enabled: set<string>)
    ensures OperandNames(o) == if o.Group? then Names(o.inner) else {o.name}
    ensures OperandLeftToRight(o, enabled) == if o.Group? then LeftToRight(o.inner, enabled) else o.name in enabled
    ensures OperandC(o, enabled)
         == if o.Group? then Alternatives(o.inner, enabled).0 || Alternatives(o.inner, enabled).1 else o.name in enabled
  {
  }

  // The script never takes a feature condition for true that the compiler takes for false, and
  // without mixed operators they agree.
  lemma {:induction false} LeftToRightImpliesC(c: Condition, enabled: set<string>)
    ensures LeftToRight(c, enabled) ==> ValueInC(c, enabled)
    ensures !Mixed(c) ==> LeftToRight(c, enabled) == ValueInC(c, enabled)
    ensures !HasOr(c) ==> !Alternatives(c, enabled).0
  {
    if c.More? {
      LeftToRightImpliesC(c.left, enabled);
      OperandValues(c.right, enabled);
      if c.right.Group? {
        LeftToRightImpliesC(c.right.inner, enabled);
      }
    }
  }

  predicate DistinctNames(c: Condition)
  {
    c.More? ==>
      && DistinctNames(c.left) && Names(c.left) !! OperandNames(c.right)
      && (c.right.Group? ==> DistinctNames(c.right.inner))
  }

  lemma {:induction false} OnlyItsNames(c: Condition, e1: set<string>, e2: set<string>)
    requires forall name :: name in Names(c) ==> (name in e1 <==> name in e2)
    ensures LeftToRight(c, e1) == LeftToRight(c, e2) && Alternatives(c, e1) == Alternatives(c, e2)
  {
    if c.More? {
      OnlyItsNames(c.left, e1, e2);
      OperandValues(c.right, e1);
      OperandValues(c.right, e2);
      if c.right.Group? {
        OnlyItsNames(c.right.inner, e1, e2);
      }
    }
  }

  lemma {:induction false} AllOrNone(c: Condition, enabled: set<string>)
    ensures Names(c) <= enabled ==> LeftToRight(c, enabled) && Alternatives(c, enabled) == (HasOr(c), true)
    ensures Names(c) !! enabled ==> !LeftToRight(c, enabled) && Alternatives(c, enabled) == (false, false)
  {
    if c.More? {
      AllOrNone(c.left, enabled);
      OperandValues(c.right, enabled);
      if c.right.Group? {
        AllOrNone(c.right.inner, enabled);
      }
    }
  }

  // With mixed operators there is a choice of features that tells the two readings apart.
  lemma {:induction false} MixedDiffers(c: Condition) returns (enabled: set<string>)
    requires DistinctNames(c) && Mixed(c)
    ensures enabled <= Names(c) && ValueInC(c, enabled) && !LeftToRight(c, enabled)
  {
    var others := OperandNames(c.right);
    if Mixed(c.left) {
      var e := MixedDiffers(c.left);
      enabled := if c.isAnd then e + others else e;
      OnlyItsNames(c.left, e, enabled);
      OperandAllOrNone(c.right, enabled);
    } else if c.isAnd && HasOr(c.left) {
      enabled := Names(c.left);
      AllOrNone(c.left, enabled);
      OperandAllOrNone(c.right, enabled);
    } else {
      var e := MixedDiffers(c.right.inner);
      enabled := if c.isAnd then e + Names(c.left) else e;
      OperandValues(c.right, enabled);
      OnlyItsNames(c.right.inner, e, enabled);
      AllOrNone(c.left, enabled);
    }
  }

  lemma OperandAllOrNone(o: Operand, enabled: set<string>)
    ensures OperandNames(o) <= enabled ==> OperandC(o, enabled) && OperandLeftToRight(o, enabled)
    ensures OperandNames(o) !! enabled ==> !OperandC(o, enabled) && !OperandLeftToRight(o, enabled)
  {
    OperandValues(o, enabled);
    if o.Group? {
      AllOrNone(o.inner, enabled);
    }
  }

  // For conditions that mention each feature once, that is exactly when the readings agree.
  lemma AgreesWithCExactlyUnmixed(c: Condition)
    requires DistinctNames(c)
    ensures (forall enabled: set<string> :: Evaluate(Tree(c), enabled) == ValueInC(c, enabled)) <==> !Mixed(c)
  {
    if Mixed(c) {
      var enabled := MixedDiffers(c);
      EvaluateIsLeftToRight(c, enabled);
      assert Evaluate(Tree(c), enabled) != ValueInC(c, enabled);
    } else {
      forall enabled: set<string> ensures Evaluate(Tree(c), enabled) == ValueInC(c, enabled) {
        EvaluateIsLeftToRight(c, enabled);
        LeftToRightImpliesC(c, enabled);
      }
    }
  }
}
