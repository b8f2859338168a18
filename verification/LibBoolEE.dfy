/** The loops and the recursion of src/LibBoolEE.cpp, proved to compute the functions of BoolEE. */
module LibBoolEE {
  import opened Wrappers
  import opened Chars
  import opened BoolEE

  method RemoveWhitespace(source: string) returns (result: string)
    ensures result == RemoveWhitespaces(source)
  {
    result := "";
    for i := 0 to |source|
      invariant result == RemoveWhitespaces(source[..i])
    {
      assert source[..i + 1][..i] == source[..i];
      if !IsSpace(source[i]) { result := result + [source[i]]; }
    }
    assert source[..|source|] == source;
  }

  /** The state of the splitting loop, from its start position, count and parts. */
  ghost function Seen(formula: string, i: nat, start_pos: int, parity_count: int, subexpressions: seq<string>): State
    requires -1 <= start_pos <= i <= |formula|
  {
    State(if start_pos == -1 then None else Some(formula[start_pos..i]), parity_count, subexpressions)
  }

  method Split(formula: string, op: char) returns (r: Result<seq<string>>)
    requires op == '|' || op == '&'
    ensures r == SingleParse(formula, op)
  {
    hide Fold;
    var start_pos := -1;
    var parity_count := 0;
    var subexpressions: seq<string> := [];
    FoldNone(op);
    for i := 0 to |formula|
      invariant -1 <= start_pos <= i
      invariant Fold(op, Begin, formula[..i]) == Seen(formula, i, start_pos, parity_count, subexpressions)
    {
      var c := formula[i];
      ghost var st := Seen(formula, i, start_pos, parity_count, subexpressions);
      FoldNext(op, formula, i);
      assert start_pos != -1 ==> formula[start_pos..i + 1] == formula[start_pos..i] + [c];
      assert formula[i..i + 1] == [c] && formula[i + 1..i + 1] == "";
      if c == ')' {
        parity_count := parity_count - 1;
      } else if c == '(' {
        parity_count := parity_count + 1;
        if start_pos == -1 { start_pos := i; }
      } else if parity_count == 0 {
        if start_pos == -1 {
          if BelongsToName(c) || c == '!' { start_pos := i; }
        } else if !(BelongsToName(c) || c == '!') {
          if op == c {
            subexpressions := subexpressions + [formula[start_pos..i]];
            start_pos := i + 1;
          } else if c != '&' && c != '|' {
            FoldBad(op, formula, i + 1);
            return Err(EmptySubExpression);
          }
        }
      }
      assert Step(op, st, c) == Seen(formula, i + 1, start_pos, parity_count, subexpressions);
    }
    assert formula[..|formula|] == formula;
    assert start_pos != -1 ==> formula[start_pos..] == formula[start_pos..|formula|];
    assert subexpressions + [] == subexpressions;
    if start_pos != -1 { subexpressions := subexpressions + [formula[start_pos..]]; }
    if parity_count != 0 { return Err(ParenthesisParity); }
    r := Ok(subexpressions);
  }

  lemma FoldNone(op: char)
    ensures Fold(op, Begin, "") == Begin
  {
  }

  lemma {:induction false} FoldNext(op: char, s: string, i: nat)
    requires i < |s|
    ensures Fold(op, Begin, s[..i + 1]) == Step(op, Fold(op, Begin, s[..i]), s[i])
    ensures s[..0] == ""
  {
    assert s[..i + 1][..i] == s[..i];
  }

  lemma {:induction false} FoldBad(op: char, s: string, n: nat)
    requires n <= |s| && Fold(op, Begin, s[..n]).Bad?
    ensures Fold(op, Begin, s).Bad?
    decreases |s| - n
  {
    if n == |s| {
      assert s[..n] == s;
    } else {
      FoldNext(op, s, n);
      FoldBad(op, s, n + 1);
    }
  }

  /** True, false or the reason for the exception. Every input string has one of them. */
  method Evaluate(source: string, vals: Vals) returns (r: Result<bool>)
    ensures r == Resolve(source, vals)
    decreases |source|, 1
  {
    var stripped := RemoveWhitespace(source);
    r := EvaluateRec(stripped, vals);
  }

  method EvaluateRec(source: string, vals: Vals) returns (r: Result<bool>)
    ensures r == ResolveRec(source, vals)
    decreases |source|, 0
  {
    hide Resolve, SingleParse, Combine, ResolveAll;
    if source == "" { return Err(EmptySubExpression); }
    var op := '|';
    var subs := Split(source, op);
    if subs.Err? { return Err(subs.error); }
    if |subs.value| == 1 {
      op := '&';
      subs := Split(source, op);
      if subs.Err? { return Err(subs.error); }
    }
    if |subs.value| == 0 { return Err(InvalidQualifierName); }
    if |subs.value| == 1 {
      if source[0] == '!' {
        r := Evaluate(source[1..], vals);
        if r.Err? { return; }
        return Ok(!r.value);
      } else if source[0] == '(' {
        if |source| == 1 { return Err(EmptySubExpression); }
        r := Evaluate(source[1..|source| - 1], vals);
        return;
      } else if source == "1" {
        return Ok(true);
      } else if source == "0" {
        return Ok(false);
      } else if source !in vals {
        return Err(VariableNotFound);
      } else {
        return Ok(vals[source]);
      }
    }
    PartsShorter(source, op);
    var parts := subs.value;
    CombineNone(op, vals, |source|);
    var result := op == '&';
    for i := 0 to |parts|
      invariant Combine(op, ResolveAll(parts[..i], vals, |source|)) == Ok(result)
    {
      assert parts[..i + 1] == parts[..i] + [parts[i]];
      CombineNext(op, parts[..i], parts[i], vals, |source|);
      var sub := Evaluate(parts[i], vals);
      if sub.Err? {
        CombineFails(op, parts, i + 1, vals, |source|);
        return sub;
      }
      if op == '|' { result := result || sub.value; } else { result := result && sub.value; }
    }
    assert parts[..|parts|] == parts;
    r := Ok(result);
  }

  lemma CombineNone(op: char, vals: Vals, bound: nat)
    ensures Combine(op, ResolveAll([], vals, bound)) == Ok(op == '&')
  {
  }

  lemma {:induction false} CombineFails(op: char, parts: seq<string>, n: nat, vals: Vals, bound: nat)
    requires n <= |parts| && forall k :: 0 <= k < |parts| ==> |parts[k]| < bound
    requires Combine(op, ResolveAll(parts[..n], vals, bound)).Err?
    ensures Combine(op, ResolveAll(parts, vals, bound)) == Combine(op, ResolveAll(parts[..n], vals, bound))
    decreases |parts| - n
  {
    hide Resolve, Combine, ResolveAll;
    if n == |parts| {
      assert parts[..n] == parts;
    } else {
      assert parts[..n + 1] == parts[..n] + [parts[n]];
      CombineNext(op, parts[..n], parts[n], vals, bound);
      CombineFails(op, parts, n + 1, vals, bound);
    }
  }
}
