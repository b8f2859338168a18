/**
What the evaluator of src/LibBoolEE.cpp accepts: every string that resolves is a written formula, so the value of
any string is that of a formula, and the strings beyond the documented ones are known exactly.
*/
module Readings {
  import opened Wrappers
  import opened Chars
  import opened BoolEE

  // ---------------------------------------------------------------- counting parentheses

  function Balance(s: string): int {
    if s == "" then 0 else
      var c := s[|s| - 1];
      Balance(s[..|s| - 1]) + if c == '(' then 1 else if c == ')' then -1 else 0
  }

  lemma {:induction false} BalanceAppend(s: string, t: string)
    ensures Balance(s + t) == Balance(s) + Balance(t)
  {
    if t == "" {
      assert s + t == s;
    } else {
      var n := |t| - 1;
      BalanceAppend(s, t[..n]);
      assert (s + t)[..|s| + n] == s + t[..n];
    }
  }

  lemma {:induction false} FlatBalance(s: string)
    requires Flat(s)
    ensures Balance(s) == 0
  {
    if s != "" { FlatBalance(s[..|s| - 1]); }
  }

  /** Splitting counts parentheses, never takes back a part, and goes on with a part once one has begun. */
  lemma {:induction false} FoldKeeps(op: char, st: State, s: string)
    ensures Fold(op, st, s).State? ==>
      st.State? && Fold(op, st, s).parity == st.parity + Balance(s) && |st.parts| <= |Fold(op, st, s).parts|
    ensures Fold(op, st, s).State? && st.cur.Some? ==> Fold(op, st, s).cur.Some?
    ensures Fold(op, st, s).State? && Fold(op, st, s).cur.None? ==> Fold(op, st, s).parts == st.parts
  {
    if s != "" { FoldKeeps(op, st, s[..|s| - 1]); }
  }

  lemma ParsedBalance(s: string, op: char)
    requires SingleParse(s, op).Ok?
    ensures Balance(s) == 0 && Fold(op, Begin, s).State? && Fold(op, Begin, s).parity == 0
  {
    hide Fold;
    FoldKeeps(op, Begin, s);
  }

  lemma ResolvedBalance(s: string, vals: Vals)
    requires ResolveRec(s, vals).Ok?
    ensures s != "" && Balance(s) == 0
  {
    hide SingleParse, ResolveSingle, Combine, ResolveAll;
    ParsedBalance(s, '|');
  }

  // ---------------------------------------------------------------- pieces

  /** A piece of text that splitting leaves whole, wherever it stands after the beginning of a part. */
  ghost predicate Clean(op: char, t: string) {
    Fold(op, State(Some(""), 0, []), t) == State(Some(t), 0, [])
  }

  /** Whether text is split does not depend on what came before it. */
  lemma {:induction false} Unsplit(op: char, x: string, y: string, q: int, ps: seq<string>, qs: seq<string>, t: string)
    requires Fold(op, State(Some(x), q, ps), t).State? && Fold(op, State(Some(x), q, ps), t).parts == ps
    ensures Fold(op, State(Some(x), q, ps), t) == State(Some(x + t), q + Balance(t), ps)
    ensures Fold(op, State(Some(y), q, qs), t) == State(Some(y + t), q + Balance(t), qs)
  {
    if t == "" {
      assert x + t == x && y + t == y;
    } else {
      var n := |t| - 1;
      FoldKeeps(op, State(Some(x), q, ps), t[..n]);
      Unsplit(op, x, y, q, ps, qs, t[..n]);
      assert x + t == x + t[..n] + [t[n]] && y + t == y + t[..n] + [t[n]];
    }
  }

  /** Text after other text that is split nowhere. */
  lemma {:induction false} CleanRest(op: char, x: string, s: string, t: string)
    requires Fold(op, State(Some(x), 0, []), s + t).State? && Fold(op, State(Some(x), 0, []), s + t).parts == []
    requires Balance(s) == 0 && Balance(t) == 0
    ensures Fold(op, State(Some(x), 0, []), s) == State(Some(x + s), 0, []) && Clean(op, t)
  {
    hide Fold;
    var st := State(Some(x), 0, []);
    FoldAppend(op, st, s, t);
    FoldKeeps(op, Fold(op, st, s), t);
    Unsplit(op, x, x, 0, [], [], s);
    Unsplit(op, x + s, "", 0, [], [], t);
    assert "" + t == t;
  }

  /** A part that begins with its first character. */
  lemma {:induction false} SameStart(op: char, t: string)
    requires t != "" && Starter(t[0])
    ensures Fold(op, State(Some(""), 0, []), t) == Fold(op, Begin, t)
  {
    hide Fold;
    assert t == [t[0]] + t[1..];
    FoldAppend(op, Begin, [t[0]], t[1..]);
    FoldAppend(op, State(Some(""), 0, []), [t[0]], t[1..]);
    FoldChar(op, Begin, t[0]);
    FoldChar(op, State(Some(""), 0, []), t[0]);
    assert "" + [t[0]] == [t[0]];
  }

  function Join(op: char, parts: seq<string>): string
    requires parts != []
  {
    if |parts| == 1 then parts[0] else Join(op, parts[..|parts| - 1]) + [op] + parts[|parts| - 1]
  }

  lemma JoinSnoc(op: char, parts: seq<string>, x: string)
    ensures parts != [] ==> Join(op, parts + [x]) == Join(op, parts) + [op] + x
    ensures parts == [] ==> Join(op, parts + [x]) == x
  {
    assert parts != [] ==> (parts + [x])[..|parts|] == parts;
  }

  lemma JoinLonger(op: char, parts: seq<string>, x: string, c: char)
    ensures Join(op, parts + [x + [c]]) == Join(op, parts + [x]) + [c]
  {
    hide Join;
    JoinSnoc(op, parts, x);
    JoinSnoc(op, parts, x + [c]);
    if parts != [] { assert Join(op, parts) + [op] + (x + [c]) == Join(op, parts) + [op] + x + [c]; }
  }

  // ---------------------------------------------------------------- before the first part

  /** Text in front of the first part has no opening parenthesis; if it has no closing one either, it is stray. */
  lemma {:induction false} Front(op: char, p: string)
    requires Fold(op, Begin, p).State? && Fold(op, Begin, p).cur.None?
    ensures Fold(op, Begin, p) == State(None, Balance(p), []) && Balance(p) <= 0
    ensures Balance(p) == 0 && (forall k :: 0 <= k < |p| ==> !IsSpace(p[k])) ==> AllSkippable(p)
    ensures p != "" ==> !Starter(p[0])
  {
    if p != "" {
      var n := |p| - 1;
      FoldKeeps(op, Begin, p[..n]);
      Front(op, p[..n]);
    }
  }

  /** The text of a run of parts, all but the last of them closed, if nothing but stray text stands in front. */
  ghost predicate Pieces(op: char, parts: seq<string>, x: string, parity: int) {
    && (forall i :: 0 <= i < |parts| ==> Clean(op, parts[i]))
    && Fold(op, State(Some(""), 0, []), x) == State(Some(x), parity, [])
  }

  /** What stands in front, and the text behind it. */
  ghost predicate Unfolds(op: char, s: string, p: string, st: State) {
    && st.State? && st.cur.Some? && Fold(op, Begin, p).State? && Fold(op, Begin, p).cur.None?
    && s == p + Join(op, st.parts + [st.cur.value])
    && (st.parts + [st.cur.value])[0] != "" && Starter((st.parts + [st.cur.value])[0][0])
    && (st.parts != [] ==> Balance(p) + Balance(st.parts[0]) == 0)
    && (Balance(p) == 0 ==> Pieces(op, st.parts, st.cur.value, st.parity))
  }

  lemma Begun(op: char, s: string, c: char)
    requires Fold(op, Begin, s).State? && Fold(op, Begin, s).cur.None? && Step(op, Fold(op, Begin, s), c).State?
    requires Step(op, Fold(op, Begin, s), c).cur.Some?
    ensures Unfolds(op, s + [c], s, Step(op, Fold(op, Begin, s), c))
  {
    hide Fold;
    Front(op, s);
    var st := Step(op, Fold(op, Begin, s), c);
    assert st == State(Some([c]), st.parity, []);
    assert [] + [[c]] == [[c]] && Join(op, [[c]]) == [c];
    FoldChar(op, State(Some(""), 0, []), c);
    assert "" + [c] == [c];
  }

  lemma {:induction false} Longer(op: char, s: string, p: string, st: State, c: char)
    requires Unfolds(op, s, p, st) && Step(op, st, c).State? && Step(op, st, c).parts == st.parts
    ensures Unfolds(op, s + [c], p, Step(op, st, c))
  {
    hide Fold, Join, Clean;
    var x := st.cur.value;
    assert Step(op, st, c).cur == Some(x + [c]);
    JoinLonger(op, st.parts, x, c);
    assert p + (Join(op, st.parts + [x]) + [c]) == p + Join(op, st.parts + [x]) + [c];
    assert st.parts == [] ==> (st.parts + [x])[0] == x && (st.parts + [x + [c]])[0] == x + [c];
    assert st.parts != [] ==> (st.parts + [x])[0] == st.parts[0] == (st.parts + [x + [c]])[0];
    if Balance(p) == 0 {
      FoldAppend(op, State(Some(""), 0, []), x, [c]);
      FoldChar(op, State(Some(x), st.parity, []), c);
    }
  }

  lemma PiecesNext(op: char, parts: seq<string>, x: string)
    requires Pieces(op, parts, x, 0)
    ensures Pieces(op, parts + [x], "", 0)
  {
    assert Clean(op, x);
    assert Fold(op, State(Some(""), 0, []), "") == State(Some(""), 0, []);
    hide Fold, Clean;
    forall i | 0 <= i < |parts + [x]| ensures Clean(op, (parts + [x])[i]) {
      assert i < |parts| ==> (parts + [x])[i] == parts[i];
    }
  }

  lemma {:induction false} Divided(op: char, s: string, p: string, st: State)
    requires Unfolds(op, s, p, st) && st.parity == 0 && Balance(s) == 0
    ensures Unfolds(op, s + [op], p, State(Some(""), 0, st.parts + [st.cur.value]))
  {
    hide Fold, Join, Pieces, Balance;
    var x := st.cur.value;
    var parts := st.parts + [x];
    JoinSnoc(op, parts, "");
    assert p + (Join(op, parts) + [op] + "") == p + Join(op, parts) + [op];
    assert (parts + [""])[0] == parts[0];
    if st.parts == [] {
      JoinSnoc(op, [], x);
      assert [] + [x] == [x] == parts;
      BalanceAppend(p, x);
    } else {
      assert parts[0] == st.parts[0];
    }
    if Balance(p) == 0 { PiecesNext(op, st.parts, x); }
  }

  lemma {:induction false} Unfolded(op: char, s: string) returns (p: string)
    requires Fold(op, Begin, s).State? && Fold(op, Begin, s).cur.Some?
    ensures Unfolds(op, s, p, Fold(op, Begin, s))
  {
    hide Unfolds;
    var n := |s| - 1;
    var st, c := Fold(op, Begin, s[..n]), s[n];
    assert s == s[..n] + [c];
    if st.cur.None? {
      p := s[..n];
      Begun(op, s[..n], c);
    } else {
      p := Unfolded(op, s[..n]);
      if Step(op, st, c).parts == st.parts {
        Longer(op, s[..n], p, st, c);
      } else {
        FoldKeeps(op, Begin, s[..n]);
        Divided(op, s[..n], p, st);
      }
    }
  }

  // ---------------------------------------------------------------- which formula a piece is

  lemma {:induction false} FirstCharacter(f: Formula)
    requires Disjunction(f)
    ensures Print(f) != "" && Starter(Print(f)[0])
  {
    Levels(f);
    if f.Or? || f.And? {
      Levels(f.l);
      FirstCharacter(f.l);
    } else if f.Var? {
      assert BelongsToName(f.name[0]);
    }
  }

  lemma {:induction false} WholeConjunction(f: Formula)
    requires Disjunction(f) && Clean('|', Print(f))
    ensures Conjunction(f)
  {
    hide Fold;
    FirstCharacter(f);
    SameStart('|', Print(f));
    SplitOr(f);
  }

  lemma {:induction false} WholeAtom(f: Formula)
    requires Conjunction(f) && Clean('&', Print(f))
    ensures Atom(f)
  {
    hide Fold;
    Levels(f);
    FirstCharacter(f);
    SameStart('&', Print(f));
    SplitAnd(f);
  }

  predicate Kept(op: char, c: char) { (c == '&' || c == '|') && c != op }

  /** Stray text inside a piece consists of the other operator. */
  lemma {:induction false} KeptStray(op: char, k: string)
    requires AllSkippable(k) && Clean(op, k)
    ensures forall j :: 0 <= j < |k| ==> Kept(op, k[j])
  {
    if k != "" {
      var n := |k| - 1;
      assert k == k[..n] + [k[n]];
      FlatBalance(k[..n]);
      FlatBalance([k[n]]);
      CleanRest(op, "", k[..n], [k[n]]);
      assert "" + k[..n] == k[..n];
      KeptStray(op, k[..n]);
    }
  }

  lemma {:induction false} CleanStray(op: char, k: string, t: string)
    requires AllSkippable(k) && Clean(op, k + t)
    ensures Clean(op, t) && forall j :: 0 <= j < |k| ==> Kept(op, k[j])
  {
    hide Fold;
    FlatBalance(k);
    FoldKeeps(op, State(Some(""), 0, []), k + t);
    BalanceAppend(k, t);
    CleanRest(op, "", k, t);
    assert "" + k == k;
    KeptStray(op, k);
  }

  /** A piece between two "or". */
  lemma {:induction false} PieceOfOr(f: Formula)
    requires Written(f) && Clean('|', Print(f))
    ensures Disjunct(f) && (Starter(Print(f)[0]) ==> Conjunction(f))
  {
    hide Clean;
    if f.Stray? {
      CleanStray('|', f.skipped, Print(f.f));
      WholeConjunction(f.f);
      Levels(f.f);
      assert Print(f)[0] == f.skipped[0];
    } else {
      WholeConjunction(f);
      Levels(f);
    }
  }

  /** A piece between two "and", or behind a negation. */
  lemma {:induction false} PieceOfAnd(f: Formula)
    requires Written(f) && Clean('|', Print(f)) && Clean('&', Print(f))
    ensures Atom(f)
  {
    hide Clean;
    PieceOfOr(f);
    if f.Stray? { CleanStray('&', f.skipped, Print(f.f)); } else { WholeAtom(f); }
  }

  lemma {:induction false} JoinBalance(op: char, parts: seq<string>)
    requires parts != [] && op != '(' && op != ')' && forall i :: 0 <= i < |parts| ==> Balance(parts[i]) == 0
    ensures Balance(Join(op, parts)) == 0
  {
    if |parts| > 1 {
      var n := |parts| - 1;
      JoinBalance(op, parts[..n]);
      FlatBalance([op]);
      BalanceAppend(Join(op, parts[..n]), [op]);
      BalanceAppend(Join(op, parts[..n]) + [op], parts[n]);
    }
  }

  /** Text split at "and" and not at "or" has pieces that no "or" splits. */
  lemma {:induction false} CleanJoin(parts: seq<string>)
    requires parts != [] && forall i :: 0 <= i < |parts| ==> Balance(parts[i]) == 0
    requires Clean('|', Join('&', parts))
    ensures forall i :: 0 <= i < |parts| ==> Clean('|', parts[i])
  {
    hide Fold, Balance;
    if |parts| > 1 {
      var n := |parts| - 1;
      var front := Join('&', parts[..n]);
      JoinBalance('&', parts[..n]);
      FlatBalance("&");
      BalanceAppend(front, "&");
      CleanRest('|', "", front + "&", parts[n]);
      CleanRest('|', "", front, "&");
      assert "" + front == front;
      CleanJoin(parts[..n]);
      forall i | 0 <= i < |parts| ensures Clean('|', parts[i]) { assert i < n ==> parts[i] == parts[..n][i]; }
    }
  }

  // ---------------------------------------------------------------- putting formulas together

  /** Formulas joined by an operator. */
  function Joining(op: char, fs: seq<Formula>): Formula
    requires fs != []
  {
    if |fs| == 1 then fs[0] else
      var l, r := Joining(op, fs[..|fs| - 1]), fs[|fs| - 1];
      if op == '|' then Or(l, r) else And(l, r)
  }

  /** The formulas are read from the texts, and their names have values. */
  ghost predicate Read(parts: seq<string>, fs: seq<Formula>, vals: Vals) {
    && |fs| == |parts|
    && forall i :: 0 <= i < |parts| ==> Written(fs[i]) && Print(fs[i]) == parts[i] && Names(fs[i]) <= vals.Keys
  }

  lemma {:induction false} JoiningRead(op: char, parts: seq<string>, fs: seq<Formula>, vals: Vals)
    requires (op == '|' || op == '&') && parts != [] && Read(parts, fs, vals)
    ensures Print(Joining(op, fs)) == Join(op, parts) && Names(Joining(op, fs)) <= vals.Keys
  {
    if |parts| > 1 {
      var n := |parts| - 1;
      JoiningRead(op, parts[..n], fs[..n], vals);
    }
  }

  lemma {:induction false} JoiningOr(fs: seq<Formula>)
    requires fs != [] && Conjunction(fs[0]) && forall i :: 0 <= i < |fs| ==> Disjunct(fs[i])
    ensures Disjunction(Joining('|', fs))
  {
    Levels(fs[0]);
    if |fs| > 1 { JoiningOr(fs[..|fs| - 1]); }
  }

  lemma {:induction false} JoiningAnd(fs: seq<Formula>)
    requires fs != [] && forall i :: 0 <= i < |fs| ==> Atom(fs[i])
    ensures Conjunction(Joining('&', fs))
  {
    Levels(fs[0]);
    if |fs| > 1 { JoiningAnd(fs[..|fs| - 1]); }
  }

  predicate NoSpace(s: string) { forall k :: 0 <= k < |s| ==> !IsSpace(s[k]) }

  lemma NoSpaceParts(s: string, t: string)
    requires NoSpace(s + t)
    ensures NoSpace(s) && NoSpace(t)
  {
    forall k | 0 <= k < |s| ensures !IsSpace(s[k]) { assert (s + t)[k] == s[k]; }
    forall k | 0 <= k < |t| ensures !IsSpace(t[k]) { assert (s + t)[|s| + k] == t[k]; }
  }

  lemma {:induction false} NoSpaceJoin(op: char, parts: seq<string>)
    requires parts != [] && NoSpace(Join(op, parts))
    ensures forall i :: 0 <= i < |parts| ==> NoSpace(parts[i])
  {
    hide NoSpace;
    if |parts| > 1 {
      var n := |parts| - 1;
      NoSpaceParts(Join(op, parts[..n]) + [op], parts[n]);
      NoSpaceParts(Join(op, parts[..n]), [op]);
      NoSpaceJoin(op, parts[..n]);
      forall i | 0 <= i < |parts| ensures NoSpace(parts[i]) { assert i < n ==> parts[i] == parts[..n][i]; }
    }
  }

  // ---------------------------------------------------------------- every string that resolves is written

  ghost predicate NamesValid(vals: Vals) { forall name :: name in vals ==> ValidName(name) }

  ghost predicate Reads(f: Formula, s: string, vals: Vals) {
    Written(f) && Print(f) == s && Names(f) <= vals.Keys
  }

  lemma {:induction false} CombineOk(op: char, parts: seq<string>, vals: Vals, bound: nat)
    requires parts != [] && (forall k :: 0 <= k < |parts| ==> |parts[k]| < bound)
    requires Combine(op, ResolveAll(parts, vals, bound)).Ok?
    ensures Combine(op, ResolveAll(parts[..|parts| - 1], vals, bound)).Ok? && Resolve(parts[|parts| - 1], vals).Ok?
  {
    hide Resolve, Combine, ResolveAll;
    var n := |parts| - 1;
    assert parts == parts[..n] + [parts[n]];
    CombineNext(op, parts[..n], parts[n], vals, bound);
  }

  lemma {:induction false} ReadParts(op: char, parts: seq<string>, vals: Vals, bound: nat) returns (fs: seq<Formula>)
    requires NamesValid(vals) && forall k :: 0 <= k < |parts| ==> |parts[k]| < bound && NoSpace(parts[k])
    requires Combine(op, ResolveAll(parts, vals, bound)).Ok?
    ensures Read(parts, fs, vals) && forall i :: 0 <= i < |parts| ==> Balance(parts[i]) == 0
    decreases bound, 0, |parts|
  {
    hide Resolve, ResolveRec, Combine, ResolveAll, NamesValid, NoSpace, Written, Print, Names, Balance;
    if parts == [] {
      fs := [];
    } else {
      var n := |parts| - 1;
      CombineOk(op, parts, vals, bound);
      var rest := ReadParts(op, parts[..n], vals, bound);
      ResolveStripped(parts[n], vals);
      ResolvedBalance(parts[n], vals);
      var f := Readable(parts[n], vals);
      fs := rest + [f];
      forall i | 0 <= i < |parts|
        ensures Balance(parts[i]) == 0 && Written(fs[i]) && Print(fs[i]) == parts[i] && Names(fs[i]) <= vals.Keys
      {
        assert i < n ==> parts[i] == parts[..n][i] && fs[i] == rest[i];
      }
    }
  }

  lemma ResolveStripped(s: string, vals: Vals)
    requires NoSpace(s)
    ensures Resolve(s, vals) == ResolveRec(s, vals)
  {
    RemoveNothing(s);
  }

  /** With stray text in front, if there is any. */
  function WithStray(p: string, f: Formula): Formula { if p == "" then f else Stray(p, f) }

  lemma WithStrayReads(p: string, f: Formula, vals: Vals)
    requires AllSkippable(p) && (f.And? || f.Or?) && Disjunction(f) && Names(f) <= vals.Keys
    ensures Reads(WithStray(p, f), p + Print(f), vals)
  {
    Levels(f);
    assert p == "" ==> p + Print(f) == Print(f);
  }

  /** The front and the clean parts of text that splits into two or more, the first of which resolves. */
  lemma {:induction false} SplitFront(op: char, s: string, parts: seq<string>) returns (p: string)
    requires SingleParse(s, op) == Ok(parts) && |parts| >= 2 && NoSpace(s)
    ensures s == p + Join(op, parts) && (Balance(parts[0]) == 0 ==> AllSkippable(p))
    ensures parts[0] != "" && Starter(parts[0][0])
    ensures Balance(parts[0]) == 0 ==> forall i :: 0 <= i < |parts| ==> Clean(op, parts[i])
    ensures forall i :: 0 <= i < |parts| ==> NoSpace(parts[i])
  {
    hide Fold, Join, Clean, NoSpace;
    var st := Fold(op, Begin, s);
    FoldKeeps(op, Begin, s);
    p := Unfolded(op, s);
    assert parts == st.parts + [st.cur.value];
    NoSpaceParts(p, Join(op, parts));
    NoSpaceJoin(op, parts);
    FrontSkips(op, p);
    if Balance(parts[0]) == 0 {
      assert Clean(op, st.cur.value) by { assert Pieces(op, st.parts, st.cur.value, 0); CleanIs(op, st.cur.value); }
      forall i | 0 <= i < |parts| ensures Clean(op, parts[i]) { assert i < |st.parts| ==> parts[i] == st.parts[i]; }
    }
  }

  lemma CleanIs(op: char, t: string)
    requires Fold(op, State(Some(""), 0, []), t) == State(Some(t), 0, [])
    ensures Clean(op, t)
  {
  }

  lemma FrontSkips(op: char, p: string)
    requires Fold(op, Begin, p).State? && Fold(op, Begin, p).cur.None? && NoSpace(p)
    ensures Balance(p) == 0 ==> AllSkippable(p)
  {
    Front(op, p);
  }

  lemma {:induction false} ReadOr(s: string, parts: seq<string>, vals: Vals) returns (f: Formula)
    requires SingleParse(s, '|') == Ok(parts) && |parts| >= 2 && NoSpace(s) && NamesValid(vals)
    requires (forall k :: 0 <= k < |parts| ==> |parts[k]| < |s|) && Combine('|', ResolveAll(parts, vals, |s|)).Ok?
    ensures Reads(f, s, vals)
    decreases |s|, 1, 0
  {
    hide SingleParse, Combine, ResolveAll, NamesValid, NoSpace, Clean, Balance, Join;
    var p := SplitFront('|', s, parts);
    var fs := ReadParts('|', parts, vals, |s|);
    forall i | 0 <= i < |fs| ensures Disjunct(fs[i]) { PieceOfOr(fs[i]); }
    PieceOfOr(fs[0]);
    JoiningOr(fs);
    JoiningRead('|', parts, fs, vals);
    f := WithStray(p, Joining('|', fs));
    WithStrayReads(p, Joining('|', fs), vals);
  }

  /** Text that no "or" splits, behind stray text. */
  lemma {:induction false} BehindStray(p: string, t: string)
    requires AllSkippable(p) && t != "" && Starter(t[0]) && Unsplittable('|', p + t)
    ensures Clean('|', t)
  {
    hide Fold;
    FoldSkips('|', p);
    FoldKeeps('|', Begin, p + t);
    FoldAppend('|', Begin, p, t);
    SameStart('|', t);
    Unsplit('|', "", "", 0, [], [], t);
    assert "" + t == t;
    FoldKeeps('|', Begin, t);
  }

  ghost predicate Unsplittable(op: char, s: string) {
    SingleParse(s, op).Ok? && |SingleParse(s, op).value| == 1
  }

  lemma {:induction false} ReadAnd(s: string, parts: seq<string>, vals: Vals) returns (f: Formula)
    requires SingleParse(s, '&') == Ok(parts) && |parts| >= 2 && NoSpace(s) && NamesValid(vals) && Unsplittable('|', s)
    requires (forall k :: 0 <= k < |parts| ==> |parts[k]| < |s|) && Combine('&', ResolveAll(parts, vals, |s|)).Ok?
    ensures Reads(f, s, vals)
    decreases |s|, 1, 0
  {
    hide SingleParse, Combine, ResolveAll, NamesValid, NoSpace, Clean, Balance, Unsplittable;
    var p := SplitFront('&', s, parts);
    var fs := ReadParts('&', parts, vals, |s|);
    JoinStarts('&', parts);
    BehindStray(p, Join('&', parts));
    CleanJoin(parts);
    forall i | 0 <= i < |fs| ensures Atom(fs[i]) { PieceOfAnd(fs[i]); }
    JoiningAnd(fs);
    JoiningRead('&', parts, fs, vals);
    f := WithStray(p, Joining('&', fs));
    Levels(Joining('&', fs));
    WithStrayReads(p, Joining('&', fs), vals);
  }

  lemma {:induction false} JoinStarts(op: char, parts: seq<string>)
    requires parts != [] && parts[0] != ""
    ensures Join(op, parts) != "" && Join(op, parts)[0] == parts[0][0]
  {
    if |parts| > 1 { JoinStarts(op, parts[..|parts| - 1]); }
  }

  /** Text behind a negation that nothing splits. */
  lemma {:induction false} BehindNot(op: char, s: string)
    requires s != "" && s[0] == '!' && Unsplittable(op, s)
    ensures Clean(op, s[1..])
  {
    hide Fold;
    assert s == "!" + s[1..];
    FlatBalance("!");
    FoldKeeps(op, Begin, s);
    SameStart(op, s);
    BalanceAppend("!", s[1..]);
    CleanRest(op, "", "!", s[1..]);
  }

  lemma {:induction false} ReadSingle(s: string, vals: Vals) returns (f: Formula)
    requires s != "" && Unsplittable('|', s) && Unsplittable('&', s) && NoSpace(s) && NamesValid(vals)
    requires ResolveSingle(s, vals).Ok?
    ensures Reads(f, s, vals)
    decreases |s|, 1, 0
  {
    hide Resolve, ResolveRec, SingleParse, Unsplittable, Clean, Balance;
    if s[0] == '!' {
      ResolveStripped(s[1..], vals);
      var g := Readable(s[1..], vals);
      BehindNot('|', s);
      BehindNot('&', s);
      PieceOfAnd(g);
      f := Not(g);
      assert s == "!" + s[1..];
    } else if s[0] == '(' {
      var n := |s| - 1;
      var w := s[1..n];
      ResolveStripped(w, vals);
      var g := Readable(w, vals);
      LastCloses(s, w, vals);
      f := Paren(g);
      assert s == "(" + w + ")";
    } else if s == "1" {
      f := Lit(true);
    } else if s == "0" {
      f := Lit(false);
    } else {
      f := Var(s);
    }
    assert Atom(f);
    Levels(f);
  }

  lemma LastCloses(s: string, w: string, vals: Vals)
    requires |s| > 1 && s[0] == '(' && w == s[1..|s| - 1] && Unsplittable('|', s) && ResolveRec(w, vals).Ok?
    ensures s[|s| - 1] == ')'
  {
    hide ResolveRec, SingleParse;
    var c := s[|s| - 1];
    ParsedBalance(s, '|');
    ResolvedBalance(w, vals);
    assert s == "(" + w + [c];
    BalanceAppend("(" + w, [c]);
    BalanceAppend("(", w);
    OneBalance('(');
    OneBalance(c);
  }

  lemma OneBalance(c: char)
    ensures Balance([c]) == if c == '(' then 1 else if c == ')' then -1 else 0
  {
    assert [c][..0] == "";
  }

  /** A string without white space that resolves is a written formula whose names have values. */
  lemma {:induction false} Readable(s: string, vals: Vals) returns (f: Formula)
    requires NoSpace(s) && NamesValid(vals) && ResolveRec(s, vals).Ok?
    ensures Reads(f, s, vals)
    decreases |s|, 2, 0
  {
    hide SingleParse, Combine, ResolveAll, ResolveSingle, Reads, NoSpace, NamesValid;
    var ors := SingleParse(s, '|');
    PartsShorter(s, '|');
    PartsShorter(s, '&');
    if |ors.value| != 1 {
      f := ReadOr(s, ors.value, vals);
    } else {
      var ands := SingleParse(s, '&');
      if |ands.value| == 1 { f := ReadSingle(s, vals); } else { f := ReadAnd(s, ands.value, vals); }
    }
  }

  lemma {:induction false} ResolvedIsRead(source: string, s: string, vals: Vals) returns (f: Formula)
    requires NamesValid(vals) && s == RemoveWhitespaces(source) && Resolve(source, vals).Ok?
    ensures Reads(f, s, vals)
  {
    f := Readable(s, vals);
  }

  lemma {:induction false} ReadResolves(source: string, f: Formula, vals: Vals)
    requires Reads(f, RemoveWhitespaces(source), vals)
    ensures Resolve(source, vals) == Ok(Holds(f, vals))
  {
    ResolveIsMeaning(f, source, vals);
  }

  /** A string resolves if and only if it is a written formula whose names have values; then to that formula's value. */
  lemma {:induction false} ResolvesExactly(source: string, vals: Vals)
    requires NamesValid(vals)
    ensures Resolve(source, vals).Ok? <==> exists f :: Reads(f, RemoveWhitespaces(source), vals)
    ensures forall f :: Reads(f, RemoveWhitespaces(source), vals) ==> Resolve(source, vals) == Ok(Holds(f, vals))
  {
    hide Resolve, RemoveWhitespaces, ResolveRec, NamesValid, Written, Print, Names, Holds;
    var s := RemoveWhitespaces(source);
    forall f | Reads(f, s, vals) ensures Resolve(source, vals) == Ok(Holds(f, vals)) { ReadResolves(source, f, vals); }
    if Resolve(source, vals).Ok? {
      var f := ResolvedIsRead(source, s, vals);
      assert Reads(f, s, vals);
    } else {
      assert !exists f :: Reads(f, s, vals);
    }
  }

  // ---------------------------------------------------------------- the documented formulas

  /** A passed-over character does not stand where a formula begins. */
  predicate TidyAt(s: string, k: nat)
    requires k < |s|
  {
    Skippable(s[k]) ==> k > 0 && s[k - 1] != '(' && s[k - 1] != '|'
  }

  predicate Tidy(s: string) { forall k :: 0 <= k < |s| ==> TidyAt(s, k) }

  lemma TidyAppend(s: string, t: string)
    requires Tidy(s) && Tidy(t)
    ensures Tidy(s + t)
  {
    forall k | 0 <= k < |s + t| ensures TidyAt(s + t, k) {
      assert if k < |s| then TidyAt(s, k) else TidyAt(t, k - |s|);
    }
  }

  lemma TidyOperator(s: string, c: char)
    requires Tidy(s) && s != "" && s[|s| - 1] != '(' && s[|s| - 1] != '|'
    ensures Tidy(s + [c])
  {
    forall k | 0 <= k < |s + [c]| ensures TidyAt(s + [c], k) { assert k < |s| ==> TidyAt(s, k); }
  }

  lemma TidyParts(s: string, t: string)
    requires Tidy(s + t)
    ensures Tidy(s)
    ensures (t != "" && Skippable(t[0]) ==> s == "" || s[|s| - 1] == '(' || s[|s| - 1] == '|') ==> Tidy(t)
  {
    forall k | 0 <= k < |s| ensures TidyAt(s, k) { assert TidyAt(s + t, k); }
    if t != "" && Skippable(t[0]) ==> s == "" || s[|s| - 1] == '(' || s[|s| - 1] == '|' {
      forall k | 0 <= k < |t| ensures TidyAt(t, k) { assert TidyAt(s + t, |s| + k); }
    }
  }

  lemma {:induction false} PlainTidy(f: Formula)
    requires Written(f) && Plain(f)
    ensures Tidy(Print(f)) && Print(f) != "" && Print(f)[|Print(f)| - 1] != '(' && Print(f)[|Print(f)| - 1] != '|'
  {
    hide Tidy, Skippable;
    WrittenParts(f);
    match f
    case Lit(_) => FlatTidy(Print(f));
    case Var(name) => FlatTidy(name);
    case Not(g) =>
      PlainTidy(g);
      FlatTidy("!");
      TidyAppend("!", Print(g));
    case Paren(g) =>
      PlainTidy(g);
      FlatTidy("(");
      FlatTidy(")");
      TidyAppend("(", Print(g));
      TidyAppend("(" + Print(g), ")");
    case And(l, r) =>
      PlainTidy(l);
      PlainTidy(r);
      TidyOperator(Print(l), '&');
      TidyAppend(Print(l) + "&", Print(r));
    case Or(l, r) =>
      PlainTidy(l);
      PlainTidy(r);
      TidyOperator(Print(l), '|');
      TidyAppend(Print(l) + "|", Print(r));
  }

  lemma FlatTidy(s: string)
    requires forall k :: 0 <= k < |s| ==> Starter(s[k]) || s[k] == ')'
    ensures Tidy(s)
  {
  }

  lemma {:induction false} TidyPlain(f: Formula)
    requires Written(f) && Tidy(Print(f))
    ensures Plain(f)
  {
    hide Tidy;
    WrittenParts(f);
    Levels(f);
    match f
    case Lit(_) =>
    case Var(_) =>
    case Not(g) =>
      Levels(g);
      FirstCharacter(g);
      TidyParts("!", Print(g));
      TidyPlain(g);
    case Paren(g) =>
      TidyParts("(" + Print(g), ")");
      TidyParts("(", Print(g));
      TidyPlain(g);
    case And(l, r) =>
      Levels(r);
      FirstCharacter(r);
      TidyParts(Print(l) + "&", Print(r));
      TidyParts(Print(l), "&");
      TidyPlain(l);
      TidyPlain(r);
    case Or(l, r) =>
      TidyParts(Print(l) + "|", Print(r));
      TidyParts(Print(l), "|");
      TidyPlain(l);
      TidyPlain(r);
    case Stray(skipped, g) =>
      StrayUntidy(skipped, Print(g));
  }

  lemma StrayUntidy(k: string, t: string)
    requires k != "" && AllSkippable(k)
    ensures !Tidy(k + t)
  {
    assert !TidyAt(k + t, 0);
  }

  /** The formulas without stray text are exactly the strings that resolve and have no character passed over. */
  lemma {:induction false} PlainExactly(source: string, vals: Vals)
    requires NamesValid(vals)
    ensures Resolve(source, vals).Ok? && Tidy(RemoveWhitespaces(source)) <==>
      exists f :: Plain(f) && Reads(f, RemoveWhitespaces(source), vals)
  {
    hide RemoveWhitespaces, Resolve, ResolveRec, NamesValid, Written, Plain, Print, Names, Holds, Tidy;
    var s := RemoveWhitespaces(source);
    ResolvesExactly(source, vals);
    if Resolve(source, vals).Ok? && Tidy(s) {
      var f :| Reads(f, s, vals);
      TidyPlain(f);
      assert Plain(f) && Reads(f, s, vals);
    }
    if f :| Plain(f) && Reads(f, s, vals) { PlainTidy(f); }
  }

  // ---------------------------------------------------------------- operators and parentheses

  /** One character, with the number of operators seen so far in each open pair of parentheses and outside them. */
  function CountStep(counts: Option<seq<nat>>, c: char): Option<seq<nat>> {
    if counts.None? || counts.value == [] then None else
      var n := |counts.value| - 1;
      if c == '(' then Some(counts.value + [0])
      else if c == ')' then (if n > 0 && counts.value[n] == 1 then Some(counts.value[..n]) else None)
      else if c == '&' || c == '|' then Some(counts.value[n := counts.value[n] + 1])
      else counts
  }

  function CountAlong(counts: Option<seq<nat>>, s: string): Option<seq<nat>> {
    if s == "" then counts else CountStep(CountAlong(counts, s[..|s| - 1]), s[|s| - 1])
  }

  /** No operator outside parentheses, and exactly one directly inside each pair. */
  predicate Bracketed(s: string) { CountAlong(Some([0]), s) == Some([0]) }

  lemma {:induction false} CountAppend(counts: Option<seq<nat>>, s: string, t: string)
    ensures CountAlong(counts, s + t) == CountAlong(CountAlong(counts, s), t)
  {
    if t == "" {
      assert s + t == s;
    } else {
      var n := |t| - 1;
      CountAppend(counts, s, t[..n]);
      assert (s + t)[..|s| + n] == s + t[..n];
    }
  }

  lemma CountChar(counts: Option<seq<nat>>, c: char)
    ensures CountAlong(counts, [c]) == CountStep(counts, c)
  {
    assert [c][..0] == "";
  }

  lemma {:induction false} CountNothing(counts: Option<seq<nat>>, s: string)
    requires counts.None? || counts.value != []
    requires forall k :: 0 <= k < |s| ==> BelongsToName(s[k])
    ensures CountAlong(counts, s) == counts
  {
    if s != "" { CountNothing(counts, s[..|s| - 1]); }
  }

  lemma {:induction false} CountFailed(s: string)
    ensures CountAlong(None, s) == None
  {
    if s != "" { CountFailed(s[..|s| - 1]); }
  }

  /** Operators outside parentheses. */
  function Operators(f: Formula): nat {
    match f
    case Not(g) => Operators(g)
    case And(l, r) => Operators(l) + 1 + Operators(r)
    case Or(l, r) => Operators(l) + 1 + Operators(r)
    case _ => 0
  }

  /** Exactly one operator directly inside each pair of parentheses. */
  predicate PairsOk(f: Formula) {
    match f
    case Not(g) => PairsOk(g)
    case Paren(g) => PairsOk(g) && Operators(g) == 1
    case And(l, r) => PairsOk(l) && PairsOk(r)
    case Or(l, r) => PairsOk(l) && PairsOk(r)
    case _ => true
  }

  /** What counting along the text of a formula gives. */
  function Counted(counts: seq<nat>, f: Formula): Option<seq<nat>>
    requires counts != []
  {
    var n := |counts| - 1;
    if PairsOk(f) then Some(counts[n := counts[n] + Operators(f)]) else None
  }

  /** The counts behind the left formula and the operator. */
  function Behind(counts: seq<nat>, l: Formula): (r: seq<nat>)
    requires counts != []
    ensures r != []
  {
    var n := |counts| - 1;
    counts[n := counts[n] + Operators(l) + 1]
  }

  lemma CountedTwo(counts: seq<nat>, l: Formula, r: Formula, c: char, f: Formula)
    requires counts != [] && (c == '&' || c == '|') && (f == And(l, r) || f == Or(l, r))
    requires Print(f) == Print(l) + [c] + Print(r)
    requires CountAlong(Some(counts), Print(l)) == Counted(counts, l)
    requires CountAlong(Some(Behind(counts, l)), Print(r)) == Counted(Behind(counts, l), r)
    ensures CountAlong(Some(counts), Print(f)) == Counted(counts, f)
  {
    hide CountAlong, Print;
    CountAppend(Some(counts), Print(l) + [c], Print(r));
    CountAppend(Some(counts), Print(l), [c]);
    CountChar(Counted(counts, l), c);
    if PairsOk(l) {
      CountedOperator(counts, l, c);
      CountedRight(counts, l, r, f);
    } else {
      CountFailed(Print(r));
    }
  }

  lemma CountedOperator(counts: seq<nat>, l: Formula, c: char)
    requires counts != [] && PairsOk(l) && (c == '&' || c == '|')
    ensures CountStep(Counted(counts, l), c) == Some(Behind(counts, l))
  {
    hide PairsOk, Operators;
    var n := |counts| - 1;
    var st: seq<nat> := counts[n := counts[n] + Operators(l)];
    assert st[n := st[n] + 1] == Behind(counts, l);
  }

  lemma CountedRight(counts: seq<nat>, l: Formula, r: Formula, f: Formula)
    requires counts != [] && PairsOk(l) && (f == And(l, r) || f == Or(l, r))
    ensures Counted(Behind(counts, l), r) == Counted(counts, f)
  {
    var n := |counts| - 1;
    var st := Behind(counts, l);
    assert Operators(f) == Operators(l) + 1 + Operators(r) && PairsOk(f) == PairsOk(r);
    hide PairsOk, Operators;
    assert st[n := st[n] + Operators(r)] == counts[n := counts[n] + (Operators(l) + 1 + Operators(r))];
  }

  lemma CountedParen(counts: seq<nat>, g: Formula)
    requires counts != [] && CountAlong(Some(counts + [0]), Print(g)) == Counted(counts + [0], g)
    ensures CountAlong(Some(counts), Print(Paren(g))) == Counted(counts, Paren(g))
  {
    hide CountAlong, Print;
    var s := Print(g);
    PrintParen(g);
    CountAppend(Some(counts), "(" + s, ")");
    CountAppend(Some(counts), "(", s);
    CountChar(Some(counts), '(');
    CountChar(Counted(counts + [0], g), ')');
    var n := |counts|;
    assert (counts + [0])[n := 0 + Operators(g)][..n] == counts;
    assert counts[n - 1 := counts[n - 1] + 0] == counts;
  }

  lemma PrintParen(g: Formula)
    ensures Print(Paren(g)) == "(" + Print(g) + ")"
  {
  }

  lemma {:induction false} CountFormula(counts: seq<nat>, f: Formula)
    requires counts != [] && Written(f) && Plain(f)
    ensures CountAlong(Some(counts), Print(f)) == Counted(counts, f)
    decreases f
  {
    hide CountAlong;
    WrittenParts(f);
    hide Written;
    assert counts[|counts| - 1 := counts[|counts| - 1] + 0] == counts;
    match f
    case Lit(_) => CountNothing(Some(counts), Print(f));
    case Var(name) => CountNothing(Some(counts), name);
    case Not(g) =>
      CountAppend(Some(counts), "!", Print(g));
      CountChar(Some(counts), '!');
      CountFormula(counts, g);
    case Paren(g) =>
      CountFormula(counts + [0], g);
      CountedParen(counts, g);
    case And(l, r) =>
      CountFormula(counts, l);
      CountFormula(Behind(counts, l), r);
      CountedTwo(counts, l, r, '&', f);
    case Or(l, r) =>
      CountFormula(counts, l);
      CountFormula(Behind(counts, l), r);
      CountedTwo(counts, l, r, '|', f);
  }

  lemma {:induction false} AtomOperators(f: Formula)
    requires Atom(f)
    ensures Operators(f) == 0
  {
    if f.Not? { AtomOperators(f.f); }
  }

  /** A formula whose pairs each hold one operator, and that has none outside, is a documented one. */
  lemma {:induction false} PairsDocumented(f: Formula)
    requires Written(f) && Plain(f) && PairsOk(f) && Operators(f) == 0
    ensures Documented(f)
  {
    WrittenParts(f);
    Levels(f);
    match f
    case Lit(_) =>
    case Var(_) =>
    case Not(g) => PairsDocumented(g);
    case Paren(g) =>
      WrittenParts(g);
      Levels(g);
      if g.And? || g.Or? {
        PairsDocumented(g.l);
        PairsDocumented(g.r);
      } else {
        AtomOperators(g);
      }
  }

  lemma {:induction false} DocumentedPairs(f: Formula)
    requires Documented(f)
    ensures Atom(f) && Plain(f) && PairsOk(f) && Operators(f) == 0
  {
    match f
    case Lit(_) =>
    case Var(_) =>
    case Not(g) => DocumentedPairs(g);
    case Paren(g) =>
      DocumentedPairs(g.l);
      DocumentedPairs(g.r);
      Levels(g.l);
      Levels(g.r);
      Levels(g);
  }

  lemma DocumentedText(f: Formula)
    requires Written(f) && Plain(f)
    ensures Documented(f) <==> Bracketed(Print(f))
  {
    hide CountAlong, Written, Documented, Plain;
    CountFormula([0], f);
    if Documented(f) { DocumentedPairs(f); }
    if PairsOk(f) && Operators(f) == 0 { PairsDocumented(f); }
    hide PairsOk, Operators;
    assert [0][0 := 0 + Operators(f)] == [Operators(f)];
  }

  /**
  The documented formulas are exactly the strings that resolve, have no character passed over, no operator outside
  parentheses and exactly one directly inside each pair.
  */
  lemma {:induction false} DocumentedExactly(source: string, vals: Vals)
    requires NamesValid(vals)
    ensures var s := RemoveWhitespaces(source);
      Resolve(source, vals).Ok? && Tidy(s) && Bracketed(s) <==> exists f :: Documented(f) && Reads(f, s, vals)
  {
    hide RemoveWhitespaces, Resolve, NamesValid, Written, Plain, Print, Names, Tidy, Bracketed, Documented;
    var s := RemoveWhitespaces(source);
    PlainExactly(source, vals);
    if Resolve(source, vals).Ok? && Tidy(s) && Bracketed(s) {
      var f :| Plain(f) && Reads(f, s, vals);
      DocumentedText(f);
      assert Documented(f) && Reads(f, s, vals);
    }
    if f :| Documented(f) && Reads(f, s, vals) {
      DocumentedPairs(f);
      DocumentedText(f);
      assert Plain(f) && Reads(f, s, vals);
    }
  }

  /** Stray text in front of a formula is passed over if the formula splits; otherwise the whole has no value. */
  lemma {:induction false} StrayText(k: string, f: Formula, vals: Vals)
    requires k != "" && AllSkippable(k) && Disjunction(f) && NamesValid(vals)
    ensures ResolveRec(k + Print(f), vals) == if f.Or? || f.And? then Meaning(f, vals) else Err(VariableNotFound)
  {
    hide Fold, Resolve, Combine, ResolveAll, SingleParse, Meaning, ResolveSingle;
    var s := k + Print(f);
    if f.Or? || f.And? {
      ResolvesTo(Stray(k, f), vals);
      MeaningStray(Stray(k, f), vals);
    } else {
      SplitStray('|', k, f);
      SplitStray('&', k, f);
      Parsed(s, '|', [Print(f)]);
      Parsed(s, '&', [Print(f)]);
      StrayName(s, vals);
    }
  }

  lemma StrayName(s: string, vals: Vals)
    requires s != "" && Skippable(s[0]) && NamesValid(vals)
    ensures ResolveSingle(s, vals) == Err(VariableNotFound)
  {
    hide Resolve;
    assert !BelongsToName(s[0]);
    assert s !in vals;
  }

  /** The text of a formula that is no documented one. */
  lemma UndocumentedCase(f: Formula, s: string)
    requires Written(f) && Print(f) == s && !(Tidy(s) && Bracketed(s))
    ensures Resolve(s, map[]) == Meaning(f, map[])
    ensures forall g :: Documented(g) ==> Print(g) != s
  {
    hide Resolve, Meaning, Tidy, Bracketed, Written, Documented, Plain;
    ResolvesTo(f, map[]);
    ResolvePrinted(f, map[]);
    forall g | Documented(g) ensures Print(g) != s {
      DocumentedPairs(g);
      Levels(g);
      PlainTidy(g);
      DocumentedText(g);
    }
  }

  lemma LiteralAnd(x: bool, y: bool)
    ensures var f := And(Lit(x), Lit(y));
      Conjunction(f) && Disjunction(f) && Meaning(f, map[]) == Ok(x && y)
  {
    var f := And(Lit(x), Lit(y));
    assert Names(Lit(x)) == {} && Names(Lit(y)) == {};
    assert Names(f) == {};
    assert Holds(f, map[]) == (Holds(Lit(x), map[]) && Holds(Lit(y), map[]));
  }

  /** Strings that are no documented formula and resolve all the same: with stray text, */
  lemma StrayResolves()
    ensures Resolve("&1&1", map[]) == Ok(true) && forall f :: Documented(f) ==> Print(f) != "&1&1"
    ensures Resolve("(%1&0)", map[]) == Ok(false) && forall f :: Documented(f) ==> Print(f) != "(%1&0)"
    ensures Resolve("1|&1&0", map[]) == Ok(true) && forall f :: Documented(f) ==> Print(f) != "1|&1&0"
  {
    hide Resolve, Documented, Bracketed;
    LiteralAnd(true, true);
    LiteralAnd(true, false);
    var f, g := And(Lit(true), Lit(true)), And(Lit(true), Lit(false));
    assert Print(f) == "1&1" && Print(g) == "1&0";
    var t := Stray("&", f);
    assert Print(t) == "&1&1" && Written(t) && !TidyAt("&1&1", 0);
    MeaningStray(t, map[]);
    UndocumentedCase(t, "&1&1");
    var p := Paren(Stray("%", g));
    assert Print(p) == "(%1&0)" && Written(Stray("%", g)) && Atom(p) && !TidyAt("(%1&0)", 1);
    Levels(p);
    UndocumentedCase(p, "(%1&0)");
    var o := Or(Lit(true), Stray("&", g));
    assert Print(o) == "1|&1&0" && Disjunct(Stray("&", g)) && !TidyAt("1|&1&0", 2);
    UndocumentedCase(o, "1|&1&0");
  }

  /** without parentheses around an operator, or with parentheses around none. */
  lemma LooseResolves()
    ensures Resolve("1&1", map[]) == Ok(true) && forall f :: Documented(f) ==> Print(f) != "1&1"
    ensures Resolve("(1)", map[]) == Ok(true) && forall f :: Documented(f) ==> Print(f) != "(1)"
  {
    hide Resolve, Documented, Tidy, CountAlong;
    LiteralAnd(true, true);
    var f := And(Lit(true), Lit(true));
    assert Print(f) == "1&1" && Written(f);
    DocumentedText(f);
    OperatorsOf(f);
    UndocumentedCase(f, "1&1");
    var p := Paren(Lit(true));
    assert Print(p) == "(1)" && Atom(p);
    Levels(p);
    DocumentedText(p);
    OperatorsOf(p);
    UndocumentedCase(p, "(1)");
    assert Meaning(p, map[]) == Ok(true) by { assert Names(Lit(true)) == {}; assert Names(p) == {}; }
  }

  lemma OperatorsOf(f: Formula)
    ensures f.And? || (f.Paren? && f.f.Lit?) ==> !Documented(f)
  {
  }
}
