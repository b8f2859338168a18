/**
The evaluator for verifier strings (src/LibBoolEE.cpp, src/LibBoolEE.h): a formula over names is split at its
top-level operators by counting parentheses, and the parts are resolved in turn.
*/
module BoolEE {
  import opened Wrappers
  import opened Chars

  datatype ErrorType = EmptySubExpression | ParenthesisParity | InvalidQualifierName | VariableNotFound

  datatype Result<T> = Ok(value: T) | Err(error: ErrorType)

  type Vals = map<string, bool>

  predicate BelongsToName(ch: char) {
    'a' <= ch <= 'z' || 'A' <= ch <= 'Z' || '0' <= ch <= '9' || ch == '_' || ch == '#' || ch == '.'
  }

  function RemoveWhitespaces(s: string): (r: string)
    ensures |r| <= |s| && forall k :: 0 <= k < |r| ==> !IsSpace(r[k])
  {
    if s == "" then "" else
      RemoveWhitespaces(s[..|s| - 1]) + if IsSpace(s[|s| - 1]) then "" else [s[|s| - 1]]
  }

  // ---------------------------------------------------------------- splitting

  /** While splitting: the current part if one has begun, the parenthesis count, and the parts so far. */
  datatype State = State(cur: Option<string>, parity: int, parts: seq<string>) | Bad

  function Append(cur: Option<string>, c: char): Option<string> {
    if cur.None? then None else Some(cur.value + [c])
  }

  function Step(op: char, st: State, c: char): State {
    if st.Bad? then Bad
    else if c == ')' then st.(cur := Append(st.cur, c), parity := st.parity - 1)
    else if c == '(' then st.(cur := if st.cur.None? then Some([c]) else Append(st.cur, c), parity := st.parity + 1)
    else if st.parity != 0 then st.(cur := Append(st.cur, c))
    else if st.cur.None? then (if BelongsToName(c) || c == '!' then st.(cur := Some([c])) else st)
    else if BelongsToName(c) || c == '!' then st.(cur := Append(st.cur, c))
    else if c == op then st.(cur := Some(""), parts := st.parts + [st.cur.value])
    else if c == '&' || c == '|' then st.(cur := Append(st.cur, c))
    else Bad
  }

  function Fold(op: char, st: State, s: string): State {
    if s == "" then st else Step(op, Fold(op, st, s[..|s| - 1]), s[|s| - 1])
  }

  const Begin := State(None, 0, [])

  /** The parts of a formula at a top-level operator. */
  function SingleParse(formula: string, op: char): Result<seq<string>> {
    var st := Fold(op, Begin, formula);
    if st.Bad? then Err(EmptySubExpression)
    else if st.parity != 0 then Err(ParenthesisParity)
    else Ok(st.parts + if st.cur.None? then [] else [st.cur.value])
  }

  // ---------------------------------------------------------------- parts are shorter

  /** Characters used by the parts, each followed by an operator, and the current part. */
  function Used(st: State): nat
    requires st.State?
  {
    Total(st.parts) + |st.parts| + if st.cur.None? then 0 else |st.cur.value|
  }

  function Total(parts: seq<string>): nat {
    if parts == [] then 0 else Total(parts[..|parts| - 1]) + |parts[|parts| - 1]|
  }

  lemma {:induction false} TotalSnoc(parts: seq<string>, p: string)
    ensures Total(parts + [p]) == Total(parts) + |p|
  {
    assert (parts + [p])[..|parts|] == parts;
  }

  lemma {:induction false} TotalBound(parts: seq<string>, k: nat)
    requires k < |parts|
    ensures |parts[k]| <= Total(parts)
  {
    if k < |parts| - 1 { TotalBound(parts[..|parts| - 1], k); }
  }

  lemma {:induction false} FoldUses(op: char, st: State, s: string)
    ensures Fold(op, st, s).State? ==> st.State? && Used(Fold(op, st, s)) <= Used(st) + |s|
  {
    if s != "" {
      var n := |s| - 1;
      FoldUses(op, st, s[..n]);
      var before := Fold(op, st, s[..n]);
      if before.State? && before.cur.Some? { TotalSnoc(before.parts, before.cur.value); }
    }
  }

  /** Two or more parts are each shorter than the formula. */
  lemma PartsShorter(formula: string, op: char)
    ensures var r := SingleParse(formula, op);
      r.Ok? && |r.value| >= 2 ==> forall k :: 0 <= k < |r.value| ==> |r.value[k]| < |formula|
  {
    FoldUses(op, Begin, formula);
    hide Fold;
    var st := Fold(op, Begin, formula);
    var r := SingleParse(formula, op);
    if r.Ok? && |r.value| >= 2 {
      forall k | 0 <= k < |r.value| ensures |r.value[k]| < |formula| {
        if k < |st.parts| { TotalBound(st.parts, k); }
      }
    }
  }

  // ---------------------------------------------------------------- resolving

  function Both(op: char, x: Result<bool>, y: Result<bool>): Result<bool> {
    if x.Err? then x else if y.Err? then y
    else Ok(if op == '|' then x.value || y.value else x.value && y.value)
  }

  /** All results under an operator, or the first error. */
  function Combine(op: char, rs: seq<Result<bool>>): Result<bool> {
    if rs == [] then Ok(op == '&') else Both(op, Combine(op, rs[..|rs| - 1]), rs[|rs| - 1])
  }

  function Resolve(source: string, vals: Vals): Result<bool>
    decreases |source|, 3, 0
  {
    ResolveRec(RemoveWhitespaces(source), vals)
  }

  function ResolveAll(parts: seq<string>, vals: Vals, bound: nat): (r: seq<Result<bool>>)
    requires forall k :: 0 <= k < |parts| ==> |parts[k]| < bound
    ensures |r| == |parts|
    decreases bound, 1, |parts|
  {
    if parts == [] then [] else
      ResolveAll(parts[..|parts| - 1], vals, bound) + [Resolve(parts[|parts| - 1], vals)]
  }

  function ResolveRec(source: string, vals: Vals): Result<bool>
    decreases |source|, 2, 0
  {
    if source == "" then Err(EmptySubExpression) else
      var ors := SingleParse(source, '|');
      if ors.Err? then Err(ors.error) else
        var op := if |ors.value| == 1 then '&' else '|';
        var subs := if op == '&' then SingleParse(source, '&') else ors;
        if subs.Err? then Err(subs.error)
        else if |subs.value| == 0 then Err(InvalidQualifierName)
        else if |subs.value| == 1 then ResolveSingle(source, vals)
        else
          PartsShorter(source, op);
          Combine(op, ResolveAll(subs.value, vals, |source|))
  }

  /** A formula without a top-level operator; it has no unmatched parenthesis. */
  function ResolveSingle(source: string, vals: Vals): Result<bool>
    requires source != ""
    decreases |source|, 1, 0
  {
    if source[0] == '!' then
      var r := Resolve(source[1..], vals);
      if r.Err? then r else Ok(!r.value)
    else if source[0] == '(' then
      if |source| == 1 then Err(EmptySubExpression) else Resolve(source[1..|source| - 1], vals)
    else if source == "1" then Ok(true)
    else if source == "0" then Ok(false)
    else if source !in vals then Err(VariableNotFound)
    else Ok(vals[source])
  }

  // ---------------------------------------------------------------- how it fails

  /** Nothing but white space is an empty expression. */
  lemma EmptyFails(source: string, vals: Vals)
    requires RemoveWhitespaces(source) == ""
    ensures Resolve(source, vals) == Err(EmptySubExpression)
  {
  }

  /** Text in which no formula could begin has no valid name. */
  lemma NoNameFails(source: string, vals: Vals)
    requires source != ""
    requires forall k :: 0 <= k < |source| ==>
      !BelongsToName(source[k]) && source[k] != '!' && source[k] != '(' && source[k] != ')'
    ensures ResolveRec(source, vals) == Err(InvalidQualifierName)
  {
    NothingBegins('|', source);
    NothingBegins('&', source);
  }

  lemma {:induction false} NothingBegins(op: char, s: string)
    requires forall k :: 0 <= k < |s| ==> !BelongsToName(s[k]) && s[k] != '!' && s[k] != '(' && s[k] != ')'
    ensures Fold(op, Begin, s) == Begin
  {
    if s != "" { NothingBegins(op, s[..|s| - 1]); }
  }

  function Balance(s: string): int {
    if s == "" then 0 else
      Balance(s[..|s| - 1]) + if s[|s| - 1] == '(' then 1 else if s[|s| - 1] == ')' then -1 else 0
  }

  lemma {:induction false} ParityIs(op: char, s: string)
    ensures var st := Fold(op, Begin, s); st.State? ==> st.parity == Balance(s)
  {
    if s != "" { ParityIs(op, s[..|s| - 1]); }
  }

  /** With more parentheses of one kind it fails by their parity, unless an unknown operator is met first. */
  lemma UnbalancedFails(source: string, vals: Vals)
    requires source != "" && Balance(source) != 0
    ensures ResolveRec(source, vals) ==
      Err(if Fold('|', Begin, source).Bad? then EmptySubExpression else ParenthesisParity)
  {
    hide Fold, Balance;
    ParityIs('|', source);
  }

  /** Parts are resolved in order, and the first that fails decides. */
  lemma {:induction false} FirstErrorWins(op: char, rs: seq<Result<bool>>, k: nat)
    requires k < |rs| && rs[k].Err? && forall j :: 0 <= j < k ==> rs[j].Ok?
    ensures Combine(op, rs) == rs[k]
  {
    if k < |rs| - 1 {
      FirstErrorWins(op, rs[..|rs| - 1], k);
    } else {
      NoErrorYet(op, rs[..k]);
    }
  }

  lemma {:induction false} NoErrorYet(op: char, rs: seq<Result<bool>>)
    requires forall j :: 0 <= j < |rs| ==> rs[j].Ok?
    ensures Combine(op, rs).Ok?
  {
    if rs != [] { NoErrorYet(op, rs[..|rs| - 1]); }
  }

  // ---------------------------------------------------------------- formulas

  /**
  Formulas as they are written. The documented (f|g) and (f&g) are Paren(Or(f, g)) and Paren(And(f, g)); other
  parentheses and operators outside parentheses are not documented. Nor is Stray: it is text in front of a formula
  that the evaluator passes over.
  */
  datatype Formula =
    | Lit(value: bool)
    | Var(name: string)
    | Not(f: Formula)
    | Paren(f: Formula)
    | And(l: Formula, r: Formula)
    | Or(l: Formula, r: Formula)
    | Stray(skipped: string, f: Formula)

  predicate ValidName(name: string) {
    name != "" && name != "0" && name != "1" && forall k :: 0 <= k < |name| ==> BelongsToName(name[k])
  }

  /** Characters at which a part begins. */
  predicate Starter(c: char) { BelongsToName(c) || c == '!' || c == '(' }

  /** Characters passed over before a part begins. */
  predicate Skippable(c: char) { !Starter(c) && c != ')' && !IsSpace(c) }

  predicate AllSkippable(s: string) { forall k :: 0 <= k < |s| ==> Skippable(s[k]) }

  /** A formula that needs no parentheses around it. */
  predicate Atom(f: Formula)
    decreases f, 0
  {
    match f
    case Lit(_) => true
    case Var(name) => ValidName(name)
    case Not(g) => Atom(g)
    case Paren(g) => Written(g)
    case _ => false
  }

  /** Atoms joined by "and", which binds tighter than "or". */
  predicate Conjunction(f: Formula)
    decreases f, 1
  {
    if f.And? then Conjunction(f.l) && Atom(f.r) else Atom(f)
  }

  predicate Ampersands(s: string) { s != "" && forall k :: 0 <= k < |s| ==> s[k] == '&' }

  /** What may follow an "or": a conjunction, and the evaluator passes over any "and" in front of one that splits. */
  predicate Disjunct(f: Formula)
    decreases f, 2
  {
    if f.Stray? then Ampersands(f.skipped) && f.f.And? && Conjunction(f.f) else Conjunction(f)
  }

  predicate Disjunction(f: Formula)
    decreases f, 3
  {
    if f.Or? then Disjunction(f.l) && Disjunct(f.r) else Conjunction(f)
  }

  /** All that the evaluator accepts. */
  predicate Written(f: Formula)
    decreases f, 4
  {
    if f.Stray? then f.skipped != "" && AllSkippable(f.skipped) && (f.f.And? || f.f.Or?) && Disjunction(f.f)
    else Disjunction(f)
  }

  /** Without stray text. */
  predicate Plain(f: Formula) {
    match f
    case Lit(_) => true
    case Var(_) => true
    case Not(g) => Plain(g)
    case Paren(g) => Plain(g)
    case And(l, r) => Plain(l) && Plain(r)
    case Or(l, r) => Plain(l) && Plain(r)
    case Stray(_, _) => false
  }

  /** The formulas of the documentation: constants, names, negations, and two formulas in parentheses. */
  predicate Documented(f: Formula) {
    match f
    case Lit(_) => true
    case Var(name) => ValidName(name)
    case Not(g) => Documented(g)
    case Paren(And(l, r)) => Documented(l) && Documented(r)
    case Paren(Or(l, r)) => Documented(l) && Documented(r)
    case _ => false
  }

  function Print(f: Formula): string {
    match f
    case Lit(value) => if value then "1" else "0"
    case Var(name) => name
    case Not(g) => "!" + Print(g)
    case Paren(g) => "(" + Print(g) + ")"
    case And(l, r) => Print(l) + "&" + Print(r)
    case Or(l, r) => Print(l) + "|" + Print(r)
    case Stray(skipped, g) => skipped + Print(g)
  }

  function Names(f: Formula): set<string> {
    match f
    case Lit(_) => {}
    case Var(name) => {name}
    case Not(g) => Names(g)
    case Paren(g) => Names(g)
    case And(l, r) => Names(l) + Names(r)
    case Or(l, r) => Names(l) + Names(r)
    case Stray(_, g) => Names(g)
  }

  predicate Holds(f: Formula, vals: Vals)
    requires Names(f) <= vals.Keys
  {
    match f
    case Lit(value) => value
    case Var(name) => vals[name]
    case Not(g) => !Holds(g, vals)
    case Paren(g) => Holds(g, vals)
    case And(l, r) => Holds(l, vals) && Holds(r, vals)
    case Or(l, r) => Holds(l, vals) || Holds(r, vals)
    case Stray(_, g) => Holds(g, vals)
  }

  /** The propositional value, or the failure for a name without a value. */
  function Meaning(f: Formula, vals: Vals): Result<bool> {
    if Names(f) <= vals.Keys then Ok(Holds(f, vals)) else Err(VariableNotFound)
  }

  // ---------------------------------------------------------------- splitting printed formulas

  lemma {:induction false} FoldAppend(op: char, st: State, s: string, t: string)
    ensures Fold(op, st, s + t) == Fold(op, Fold(op, st, s), t)
  {
    if t == "" {
      assert s + t == s;
    } else {
      var n := |t| - 1;
      FoldAppend(op, st, s, t[..n]);
      assert (s + t)[..|s| + n] == s + t[..n];
    }
  }

  lemma FoldChar(op: char, st: State, c: char)
    ensures Fold(op, st, [c]) == Step(op, st, c)
  {
    assert [c][..0] == "";
  }

  predicate Flat(s: string) { forall k :: 0 <= k < |s| ==> s[k] != '(' && s[k] != ')' }

  /** Inside parentheses everything is kept. */
  lemma {:induction false} FoldFlatInside(op: char, x: string, p: int, parts: seq<string>, name: string)
    requires p > 0 && Flat(name)
    ensures Fold(op, State(Some(x), p, parts), name) == State(Some(x + name), p, parts)
  {
    if name == "" {
      assert x + name == x;
    } else {
      var n := |name| - 1;
      FoldFlatInside(op, x, p, parts, name[..n]);
      assert x + name[..n] + [name[n]] == x + name;
    }
  }

  lemma {:induction false} FoldNameTop(op: char, x: string, parts: seq<string>, name: string)
    requires forall k :: 0 <= k < |name| ==> BelongsToName(name[k])
    ensures Fold(op, State(Some(x), 0, parts), name) == State(Some(x + name), 0, parts)
  {
    if name == "" {
      assert x + name == x;
    } else {
      var n := |name| - 1;
      FoldNameTop(op, x, parts, name[..n]);
      assert x + name[..n] + [name[n]] == x + name;
    }
  }

  /** Keeps a string as it is, inside parentheses. */
  ghost predicate KeptInside(op: char, s: string) {
    forall x, p, parts :: p > 0 ==> Fold(op, State(Some(x), p, parts), s) == State(Some(x + s), p, parts)
  }

  lemma KeptInsideAppend(op: char, s: string, t: string)
    requires KeptInside(op, s) && KeptInside(op, t)
    ensures KeptInside(op, s + t)
  {
    hide Fold;
    forall x: string, p, parts: seq<string> | p > 0
      ensures Fold(op, State(Some(x), p, parts), s + t) == State(Some(x + (s + t)), p, parts)
    {
      FoldAppend(op, State(Some(x), p, parts), s, t);
      assert x + s + t == x + (s + t);
    }
  }

  lemma KeptInsideChar(op: char, c: char)
    requires c != '(' && c != ')'
    ensures KeptInside(op, [c])
  {
    forall x: string, p, parts: seq<string> | p > 0
      ensures Fold(op, State(Some(x), p, parts), [c]) == State(Some(x + [c]), p, parts)
    {
      FoldChar(op, State(Some(x), p, parts), c);
    }
  }

  lemma KeptInsideParen(op: char, s: string)
    requires KeptInside(op, s)
    ensures KeptInside(op, "(" + s + ")")
  {
    hide Fold;
    forall x: string, p, parts: seq<string> | p > 0
      ensures Fold(op, State(Some(x), p, parts), "(" + s + ")") == State(Some(x + ("(" + s + ")")), p, parts)
    {
      FoldParen(op, State(Some(x), p, parts), s);
      assert x + "(" + s + ")" == x + ("(" + s + ")");
    }
  }

  /** A parenthesised string is kept whole, inside or at the top. */
  lemma FoldParen(op: char, st: State, s: string)
    requires KeptInside(op, s) && st.State? && st.parity >= 0
    ensures var x := if st.cur.None? then "" else st.cur.value;
      Fold(op, st, "(" + s + ")") == st.(cur := Some(x + "(" + s + ")"))
  {
    hide Fold;
    FoldAppend(op, st, "(" + s, ")");
    FoldAppend(op, st, "(", s);
    FoldChar(op, st, '(');
    var x := if st.cur.None? then "" else st.cur.value;
    var inside := State(Some(x + "(" + s), st.parity + 1, st.parts);
    assert "" + "(" == "(";
    assert Step(op, st, '(').cur == Some(x + "(");
    FoldChar(op, inside, ')');
  }

  /** The parts of a formula are formulas. */
  lemma {:induction false} WrittenParts(f: Formula)
    requires Written(f)
    ensures f.Var? ==> ValidName(f.name)
    ensures (f.Not? || f.Paren? || f.Stray?) ==> Written(f.f)
    ensures (f.And? || f.Or?) ==> Written(f.l) && Written(f.r)
  {
    Levels(f);
    assert !f.Or? && !f.Stray? ==> Conjunction(f);
    assert !f.Or? && !f.Stray? && !f.And? ==> Atom(f);
    if f.Not? || f.Stray? { Levels(f.f); } else if f.And? || f.Or? { Levels(f.l); Levels(f.r); }
  }

  lemma {:induction false} Levels(f: Formula)
    ensures Atom(f) ==> Conjunction(f)
    ensures Conjunction(f) ==> Disjunct(f) && Disjunction(f) && !f.Or? && !f.Stray?
    ensures Disjunct(f) ==> Written(f) && !f.Or?
    ensures Disjunction(f) ==> Written(f) && !f.Stray?
  {
    assert f.Or? || f.Stray? ==> Conjunction(f) == Atom(f);
    assert f.Or? || f.And? || f.Stray? ==> !Atom(f);
    if f.Stray? && Disjunct(f) { assert Skippable('&'); }
  }

  lemma {:induction false} PrintInside(op: char, f: Formula)
    requires Written(f)
    ensures KeptInside(op, Print(f))
  {
    hide Fold, KeptInside;
    WrittenParts(f);
    match f
    case Lit(value) =>
      KeptInsideChar(op, '1');
      KeptInsideChar(op, '0');
    case Var(name) =>
      FlatInside(op, name);
    case Not(g) =>
      KeptInsideChar(op, '!');
      PrintInside(op, g);
      KeptInsideAppend(op, "!", Print(g));
    case Paren(g) =>
      PrintInside(op, g);
      KeptInsideParen(op, Print(g));
    case And(l, r) =>
      PrintInside(op, l);
      PrintInside(op, r);
      KeptInsideChar(op, '&');
      KeptInsideAppend(op, Print(l), "&");
      KeptInsideAppend(op, Print(l) + "&", Print(r));
    case Or(l, r) =>
      PrintInside(op, l);
      PrintInside(op, r);
      KeptInsideChar(op, '|');
      KeptInsideAppend(op, Print(l), "|");
      KeptInsideAppend(op, Print(l) + "|", Print(r));
    case Stray(skipped, g) =>
      FlatInside(op, skipped);
      PrintInside(op, g);
      KeptInsideAppend(op, skipped, Print(g));
  }

  lemma FlatInside(op: char, name: string)
    requires Flat(name)
    ensures KeptInside(op, name)
  {
    hide Fold;
    forall x: string, p, parts: seq<string> | p > 0
      ensures Fold(op, State(Some(x), p, parts), name) == State(Some(x + name), p, parts)
    {
      FoldFlatInside(op, x, p, parts, name);
    }
  }

  function CurOf(st: State): string
    requires st.State?
  {
    if st.cur.None? then "" else st.cur.value
  }

  ghost predicate KeptAt(op: char, s: string, st: State) {
    st.State? && st.parity == 0 ==> Fold(op, st, s) == st.(cur := Some(CurOf(st) + s))
  }

  /** At the top, the string continues the current part, or begins one. */
  ghost predicate KeptTop(op: char, s: string) {
    forall st: State :: KeptAt(op, s, st)
  }

  /** At the top, the string continues the current part. */
  ghost predicate Continues(op: char, s: string) {
    forall st: State :: st.State? && st.cur.Some? ==> KeptAt(op, s, st)
  }

  lemma {:induction false} KeptAtAppend(op: char, s: string, t: string, st: State)
    requires st.State? && st.parity == 0 && KeptAt(op, s, st) && KeptAt(op, t, st.(cur := Some(CurOf(st) + s)))
    ensures KeptAt(op, s + t, st)
  {
    hide Fold;
    FoldAppend(op, st, s, t);
    assert CurOf(st) + s + t == CurOf(st) + (s + t);
  }

  lemma {:induction false} KeptTopAppend(op: char, s: string, t: string)
    requires KeptTop(op, s) && Continues(op, t)
    ensures KeptTop(op, s + t)
  {
    forall st: State ensures KeptAt(op, s + t, st) {
      if st.State? && st.parity == 0 {
        hide KeptAt;
        KeptAtAppend(op, s, t, st);
      }
    }
  }

  lemma {:induction false} NameAt(op: char, name: string, st: State)
    requires (op == '|' || op == '&') && name != "" && forall k :: 0 <= k < |name| ==> BelongsToName(name[k])
    requires st.State? && st.parity == 0
    ensures KeptAt(op, name, st)
  {
    hide Fold;
    if st.cur.Some? {
      FoldNameTop(op, st.cur.value, st.parts, name);
    } else {
      assert name == [name[0]] + name[1..];
      FoldAppend(op, st, [name[0]], name[1..]);
      FoldChar(op, st, name[0]);
      FoldNameTop(op, [name[0]], st.parts, name[1..]);
      assert "" + name == name;
    }
  }

  lemma NameTop(op: char, name: string)
    requires op == '|' || op == '&'
    requires name != "" && forall k :: 0 <= k < |name| ==> BelongsToName(name[k])
    ensures KeptTop(op, name)
  {
    forall st: State | st.State? && st.parity == 0 ensures KeptAt(op, name, st) { NameAt(op, name, st); }
  }

  lemma BangTop(op: char)
    requires op == '|' || op == '&'
    ensures KeptTop(op, "!")
  {
    forall st: State | st.State? && st.parity == 0 ensures KeptAt(op, "!", st) {
      FoldChar(op, st, '!');
      assert "" + "!" == "!";
    }
  }

  lemma ParenTop(op: char, s: string)
    requires KeptInside(op, s)
    ensures KeptTop(op, "(" + s + ")")
  {
    hide Fold;
    forall st: State | st.State? && st.parity == 0 ensures KeptAt(op, "(" + s + ")", st) {
      FoldParen(op, st, s);
      assert CurOf(st) + "(" + s + ")" == CurOf(st) + ("(" + s + ")");
    }
  }

  lemma {:induction false} AtomTop(op: char, f: Formula)
    requires Atom(f) && (op == '|' || op == '&')
    ensures KeptTop(op, Print(f)) && Print(f) != ""
  {
    hide Fold, KeptTop;
    match f
    case Lit(value) =>
      NameTop(op, Print(f));
    case Var(name) =>
      NameTop(op, name);
    case Not(g) =>
      AtomTop(op, g);
      BangTop(op);
      TopContinues(op, Print(g));
      KeptTopAppend(op, "!", Print(g));
    case Paren(g) =>
      PrintInside(op, g);
      ParenTop(op, Print(g));
  }

  lemma TopContinues(op: char, s: string)
    requires KeptTop(op, s)
    ensures Continues(op, s)
  {
    hide Fold;
  }

  lemma AmpersandContinues()
    ensures Continues('|', "&")
  {
    forall st: State | st.State? && st.parity == 0 && st.cur.Some? ensures KeptAt('|', "&", st) {
      FoldChar('|', st, '&');
    }
  }

  /** Splitting at "or" leaves conjunctions whole. */
  lemma {:induction false} ConjunctionTop(f: Formula)
    requires Conjunction(f)
    ensures KeptTop('|', Print(f)) && Print(f) != ""
  {
    hide Fold, KeptTop, Continues;
    if f.And? {
      ConjunctionTop(f.l);
      AtomTop('|', f.r);
      AmpersandContinues();
      TopContinues('|', Print(f.r));
      KeptTopAppend('|', Print(f.l), "&");
      KeptTopAppend('|', Print(f.l) + "&", Print(f.r));
    } else {
      AtomTop('|', f);
    }
  }

  lemma {:induction false} ContinuesAppend(op: char, s: string, t: string)
    requires Continues(op, s) && Continues(op, t)
    ensures Continues(op, s + t)
  {
    forall st: State | st.State? && st.cur.Some? ensures KeptAt(op, s + t, st) {
      if st.parity == 0 {
        hide KeptAt;
        KeptAtAppend(op, s, t, st);
      }
    }
  }

  lemma {:induction false} AmpersandsContinue(s: string)
    requires forall k :: 0 <= k < |s| ==> s[k] == '&'
    ensures Continues('|', s)
  {
    hide Continues;
    if s == "" {
      NothingContinues('|');
    } else {
      var n := |s| - 1;
      AmpersandsContinue(s[..n]);
      AmpersandContinues();
      ContinuesAppend('|', s[..n], "&");
      assert s == s[..n] + "&";
    }
  }

  lemma NothingContinues(op: char)
    ensures Continues(op, "")
  {
    forall st: State | st.State? && st.cur.Some? ensures KeptAt(op, "", st) {
      assert CurOf(st) + "" == CurOf(st);
    }
  }

  lemma {:induction false} DisjunctContinues(f: Formula)
    requires Disjunct(f)
    ensures Continues('|', Print(f)) && Print(f) != ""
  {
    hide Fold, KeptTop, Continues;
    if f.Stray? {
      ConjunctionTop(f.f);
      TopContinues('|', Print(f.f));
      AmpersandsContinue(f.skipped);
      ContinuesAppend('|', f.skipped, Print(f.f));
    } else {
      ConjunctionTop(f);
      TopContinues('|', Print(f));
    }
  }

  // ---------------------------------------------------------------- the parts of a printed formula

  /** What splitting at an operator should give. */
  function Parts(f: Formula, op: char): (r: seq<string>)
    ensures |r| >= 1
  {
    if (op == '|' && f.Or?) || (op == '&' && f.And?) then Parts(f.l, op) + [Print(f.r)] else [Print(f)]
  }

  function Joined(parts: seq<string>): State
    requires parts != []
  {
    State(Some(parts[|parts| - 1]), 0, parts[..|parts| - 1])
  }

  lemma ContinuesFrom(op: char, x: string, parts: seq<string>, t: string)
    requires Continues(op, t)
    ensures Fold(op, State(Some(x), 0, parts), t) == State(Some(x + t), 0, parts)
  {
    hide Fold;
    assert KeptAt(op, t, State(Some(x), 0, parts));
  }

  lemma {:induction false} JoinNext(op: char, s: string, t: string, parts: seq<string>)
    requires (op == '|' || op == '&') && parts != [] && Fold(op, Begin, s) == Joined(parts) && Continues(op, t)
    ensures Fold(op, Begin, s + [op] + t) == Joined(parts + [t])
  {
    hide Fold, Continues;
    FoldAppend(op, Begin, s + [op], t);
    FoldAppend(op, Begin, s, [op]);
    FoldChar(op, Joined(parts), op);
    ContinuesFrom(op, "", parts, t);
    assert parts[..|parts| - 1] + [parts[|parts| - 1]] == parts;
    assert (parts + [t])[..|parts|] == parts;
    assert "" + t == t;
  }

  lemma JoinFirst(op: char, s: string)
    requires KeptTop(op, s)
    ensures Fold(op, Begin, s) == Joined([s])
  {
    hide Fold;
    assert KeptAt(op, s, Begin);
    assert "" + s == s;
  }

  lemma {:induction false} SplitOr(f: Formula)
    requires Disjunction(f)
    ensures Fold('|', Begin, Print(f)) == Joined(Parts(f, '|'))
  {
    hide Fold, KeptTop, Continues;
    if f.Or? {
      SplitOr(f.l);
      DisjunctContinues(f.r);
      JoinNext('|', Print(f.l), Print(f.r), Parts(f.l, '|'));
    } else {
      ConjunctionTop(f);
      JoinFirst('|', Print(f));
    }
  }

  lemma {:induction false} SplitAnd(f: Formula)
    requires Conjunction(f)
    ensures Fold('&', Begin, Print(f)) == Joined(Parts(f, '&'))
  {
    hide Fold, KeptTop, Continues;
    if f.And? {
      SplitAnd(f.l);
      AtomTop('&', f.r);
      TopContinues('&', Print(f.r));
      JoinNext('&', Print(f.l), Print(f.r), Parts(f.l, '&'));
    } else {
      AtomTop('&', f);
      JoinFirst('&', Print(f));
    }
  }

  /** Stray text leaves no trace. */
  lemma {:induction false} FoldSkips(op: char, k: string)
    requires AllSkippable(k)
    ensures Fold(op, Begin, k) == Begin
  {
    if k != "" { FoldSkips(op, k[..|k| - 1]); }
  }

  lemma {:induction false} SplitStray(op: char, k: string, f: Formula)
    requires AllSkippable(k) && ((op == '|' && Disjunction(f)) || (op == '&' && Conjunction(f)))
    ensures Fold(op, Begin, k + Print(f)) == Joined(Parts(f, op))
  {
    hide Fold;
    if op == '|' { SplitOr(f); } else { SplitAnd(f); }
    FoldSkips(op, k);
    FoldAppend(op, Begin, k, Print(f));
  }

  lemma Parsed(s: string, op: char, parts: seq<string>)
    requires parts != [] && Fold(op, Begin, s) == Joined(parts)
    ensures SingleParse(s, op) == Ok(parts)
  {
    hide Fold;
    assert parts[..|parts| - 1] + [parts[|parts| - 1]] == parts;
  }

  // ---------------------------------------------------------------- white space

  lemma {:induction false} RemoveNothing(s: string)
    requires forall k :: 0 <= k < |s| ==> !IsSpace(s[k])
    ensures RemoveWhitespaces(s) == s
  {
    if s != "" { RemoveNothing(s[..|s| - 1]); }
  }

  lemma {:induction false} PrintHasNoSpace(f: Formula)
    requires Written(f)
    ensures forall k :: 0 <= k < |Print(f)| ==> !IsSpace(Print(f)[k])
  {
    WrittenParts(f);
    match f
    case Lit(_) =>
    case Var(_) =>
    case Not(g) => PrintHasNoSpace(g);
    case Paren(g) => PrintHasNoSpace(g);
    case And(l, r) =>
      PrintHasNoSpace(l);
      PrintHasNoSpace(r);
    case Or(l, r) =>
      PrintHasNoSpace(l);
      PrintHasNoSpace(r);
    case Stray(_, g) => PrintHasNoSpace(g);
  }

  lemma ResolvePrinted(f: Formula, vals: Vals)
    requires Written(f)
    ensures Resolve(Print(f), vals) == ResolveRec(Print(f), vals)
  {
    PrintHasNoSpace(f);
    RemoveNothing(Print(f));
  }

  // ---------------------------------------------------------------- the evaluator is right

  lemma {:induction false} CombineNext(op: char, parts: seq<string>, last: string, vals: Vals, bound: nat)
    requires (forall k :: 0 <= k < |parts| ==> |parts[k]| < bound) && |last| < bound
    ensures Combine(op, ResolveAll(parts + [last], vals, bound)) ==
      Both(op, Combine(op, ResolveAll(parts, vals, bound)), Resolve(last, vals))
  {
    hide Resolve;
    assert (parts + [last])[..|parts|] == parts;
    var rs := ResolveAll(parts, vals, bound);
    assert (rs + [Resolve(last, vals)])[..|rs|] == rs;
  }

  lemma CombineOne(op: char, part: string, vals: Vals, bound: nat)
    requires |part| < bound && (op == '|' || op == '&')
    ensures Combine(op, ResolveAll([part], vals, bound)) == Resolve(part, vals)
  {
    hide Resolve;
    CombineNext(op, [], part, vals, bound);
    assert [] + [part] == [part];
  }

  predicate Splits(f: Formula, op: char) { (op == '|' && f.Or?) || (op == '&' && f.And?) }

  /** The results of a formula's parts combine to its meaning. */
  lemma {:induction false} PartsCombine(f: Formula, op: char, vals: Vals, bound: nat)
    requires (op == '|' && Disjunction(f)) || (op == '&' && Conjunction(f))
    requires forall k :: 0 <= k < |Parts(f, op)| ==> |Parts(f, op)[k]| < bound
    ensures Combine(op, ResolveAll(Parts(f, op), vals, bound)) == Meaning(f, vals)
    decreases f, if Splits(f, op) then 0 else 2
  {
    hide Resolve, ResolveRec, ResolveAll, Combine;
    Levels(f);
    if Splits(f, op) {
      WrittenParts(f);
      Levels(f.r);
      var parts := Parts(f.l, op);
      assert Parts(f, op) == parts + [Print(f.r)];
      forall k | 0 <= k < |parts| ensures |parts[k]| < bound { assert parts[k] == Parts(f, op)[k]; }
      assert Print(f.r) == Parts(f, op)[|parts|];
      PartsCombine(f.l, op, vals, bound);
      ResolvesTo(f.r, vals);
      ResolvePrinted(f.r, vals);
      CombineNext(op, parts, Print(f.r), vals, bound);
    } else {
      assert Print(f) == Parts(f, op)[0];
      ResolvesTo(f, vals);
      ResolvePrinted(f, vals);
      CombineOne(op, Print(f), vals, bound);
    }
  }

  /** Every formula, however nested, resolves to its propositional value, or fails if a name has none. */
  lemma {:induction false} ResolvesTo(f: Formula, vals: Vals)
    requires Written(f)
    ensures ResolveRec(Print(f), vals) == Meaning(f, vals)
    decreases f, 1
  {
    hide Fold, Resolve, Combine, ResolveAll, ResolveSingle, Meaning, SingleParse;
    var k, g := if f.Stray? then f.skipped else "", if f.Stray? then f.f else f;
    var s := Print(f);
    assert s == k + Print(g);
    MeaningStray(f, vals);
    Levels(g);
    SplitStray('|', k, g);
    Parsed(s, '|', Parts(g, '|'));
    NonEmpty(g);
    PartsShorter(s, '|');
    PartsShorter(s, '&');
    if g.Or? {
      PartsCombine(g, '|', vals, |s|);
    } else {
      SplitStray('&', k, g);
      Parsed(s, '&', Parts(g, '&'));
      if g.And? { PartsCombine(g, '&', vals, |s|); } else { AtomResolves(g, vals); }
    }
  }

  lemma MeaningStray(f: Formula, vals: Vals)
    ensures f.Stray? ==> Meaning(f, vals) == Meaning(f.f, vals)
  {
  }

  lemma {:induction false} NonEmpty(f: Formula)
    requires Disjunction(f)
    ensures Print(f) != ""
  {
    Levels(f);
    if !f.Or? { ConjunctionTop(f); }
  }

  lemma {:induction false} MeaningOfAtom(f: Formula, vals: Vals)
    ensures f.Lit? ==> Meaning(f, vals) == Ok(f.value)
    ensures f.Var? ==> Meaning(f, vals) == if f.name in vals then Ok(vals[f.name]) else Err(VariableNotFound)
    ensures f.Paren? ==> Meaning(f, vals) == Meaning(f.f, vals)
    ensures f.Not? && Meaning(f.f, vals).Err? ==> Meaning(f, vals) == Meaning(f.f, vals)
    ensures f.Not? && Meaning(f.f, vals).Ok? ==> Meaning(f, vals) == Ok(!Meaning(f.f, vals).value)
  {
  }

  lemma {:induction false} AtomResolves(f: Formula, vals: Vals)
    requires Atom(f) && Print(f) != ""
    ensures ResolveSingle(Print(f), vals) == Meaning(f, vals)
    decreases f, 0
  {
    hide Resolve, ResolveRec, Meaning, Documented, Plain;
    MeaningOfAtom(f, vals);
    match f
    case Lit(_) =>
    case Var(name) =>
      assert BelongsToName(name[0]);
    case Not(g) =>
      Levels(g);
      ResolvesTo(g, vals);
      ResolvePrinted(g, vals);
      assert Print(f)[1..] == Print(g);
    case Paren(g) =>
      ResolvesTo(g, vals);
      ResolvePrinted(g, vals);
      assert Print(f)[1..|Print(f)| - 1] == Print(g);
  }

  /** With any white space inserted. */
  lemma {:induction false} ResolveIsMeaning(f: Formula, source: string, vals: Vals)
    requires Written(f) && RemoveWhitespaces(source) == Print(f)
    ensures Resolve(source, vals) == Meaning(f, vals)
  {
    ResolvesTo(f, vals);
  }
}
