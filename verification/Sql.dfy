/** Rows, column-name resolution and the WHERE/ON expressions of the SELECT executor. */
module Sql {
  import opened Base

  // ---------------------------------------------------------------- values

  /** An `f64` with its two zeros, its infinities and NaN told apart. */
  datatype Float = NaN | Infinite(neg: bool) | Zero(neg: bool) | Finite(r: real)

  datatype Scalar = Int(n: int) | Flt(f: Float) | Text(s: string) | Date(d: int) | Bool(b: bool) | Null

  /** The executor's `=`: the derived equality of values, so NULL = NULL holds, NaN differs
      from itself and the two zeros are equal. */
  predicate Equal(a: Scalar, b: Scalar) {
    if a.Flt? && b.Flt? then
      (a.f.Zero? && b.f.Zero?) || (a.f == b.f && !a.f.NaN?)
    else a == b
  }

  predicate Truthy(v: Scalar) {
    !(v.Null? || v == Bool(false))
  }

  // ---------------------------------------------------------------- rows and names

  datatype Cell = Cell(name: string, value: Scalar)

  type Row = seq<Cell>

  function Names(row: Row): (names: seq<string>)
    ensures |names| == |row| && forall i :: 0 <= i < |row| ==> names[i] == row[i].name
  {
    seq(|row|, i requires 0 <= i < |row| => row[i].name)
  }

  lemma NamesConcat(a: Row, b: Row)
    ensures Names(a + b) == Names(a) + Names(b)
  {
  }

  function LowerChar(c: char): char {
    if 'A' <= c <= 'Z' then (c as int + 32) as char else c
  }

  function Lower(s: string): (r: string)
    ensures |r| == |s| && forall i {:trigger r[i]} :: 0 <= i < |s| ==> r[i] == LowerChar(s[i])
  {
    seq(|s|, i requires 0 <= i < |s| => LowerChar(s[i]))
  }

  predicate EndsWith(s: string, suffix: string) {
    |suffix| <= |s| && s[|s| - |suffix|..] == suffix
  }

  /** How `row_get` may match a column when no name is exactly equal; an exact match is one. */
  predicate Loose(name: string, column: string) {
    column == name || EndsWith(column, "." + name) || Lower(column) == Lower(name)
  }

  /** The part of a qualified name after its last dot. */
  function Bare(s: string): (r: string)
    ensures EndsWith(s, r)
    ensures r != s ==> EndsWith(s, "." + r)
  {
    if s == "" then ""
    else
      var rest := Bare(s[1..]);
      if rest != s[1..] then rest
      else if s[0] == '.' then s[1..]
      else s
  }

  /** Whether a mined (lower-case) name denotes a column of a join side. */
  predicate ColMatches(name: string, column: string) {
    name == column || (Bare(column) != column && Bare(column) == name)
  }

  /** The first name that `p` accepts. */
  function FirstWhere(names: seq<string>, p: string -> bool): (r: Option<nat>)
    ensures r.Some? ==> r.value < |names| && p(names[r.value])
    ensures r.Some? ==> forall i {:trigger names[i]} :: 0 <= i < r.value ==> !p(names[i])
    ensures r.None? ==> forall i {:trigger names[i]} :: 0 <= i < |names| ==> !p(names[i])
  {
    if names == [] then None
    else if p(names[0]) then Some(0)
    else
      assert forall i :: 0 < i < |names| ==> names[i] == names[1..][i - 1];
      match FirstWhere(names[1..], p)
      case Some(i) => Some(i + 1)
      case None => None
  }

  /** The first column with exactly this name. */
  function FirstExact(names: seq<string>, name: string): (r: Option<nat>)
    ensures r.Some? ==> r.value < |names| && names[r.value] == name
    ensures r.Some? ==> forall i :: 0 <= i < r.value ==> names[i] != name
    ensures r.None? ==> forall i :: 0 <= i < |names| ==> names[i] != name
  {
    FirstWhere(names, column => column == name)
  }

  /** The first column this name matches loosely. */
  function FirstLoose(names: seq<string>, name: string): (r: Option<nat>)
    ensures r.Some? ==> r.value < |names| && Loose(name, names[r.value])
    ensures r.Some? ==> forall i {:trigger Loose(name, names[i])} :: 0 <= i < r.value ==> !Loose(name, names[i])
    ensures r.None? ==> forall i {:trigger Loose(name, names[i])} :: 0 <= i < |names| ==> !Loose(name, names[i])
  {
    FirstWhere(names, column => Loose(name, column))
  }

  /** The first column a mined name denotes. */
  function FirstMatching(names: seq<string>, name: string): (r: Option<nat>)
    ensures r.Some? ==> r.value < |names| && ColMatches(name, names[r.value])
    ensures r.Some? ==>
              forall i {:trigger ColMatches(name, names[i])} :: 0 <= i < r.value ==> !ColMatches(name, names[i])
    ensures r.None? ==>
              forall i {:trigger ColMatches(name, names[i])} :: 0 <= i < |names| ==> !ColMatches(name, names[i])
  {
    FirstWhere(names, column => ColMatches(name, column))
  }

  function Lookup(names: seq<string>, name: string): (r: Option<nat>)
    ensures r.Some? ==> r.value < |names| && Loose(name, names[r.value])
    ensures r.None? ==> forall i {:trigger Loose(name, names[i])} :: 0 <= i < |names| ==> !Loose(name, names[i])
  {
    if FirstExact(names, name).Some? then FirstExact(names, name) else FirstLoose(names, name)
  }

  /** `row_get`: an exact name first, otherwise the first loose match. */
  function RowGet(row: Row, name: string): Option<Scalar> {
    match Lookup(Names(row), name)
    case Some(i) => Some(row[i].value)
    case None => None
  }

  ghost predicate AtMostOne(names: seq<string>, name: string) {
    forall i, j {:trigger Loose(name, names[i]), Loose(name, names[j])} ::
      0 <= i < j < |names| ==> !(Loose(name, names[i]) && Loose(name, names[j]))
  }

  lemma LookupOnly(names: seq<string>, name: string, i: nat)
    requires i < |names| && Loose(name, names[i]) && AtMostOne(names, name)
    ensures Lookup(names, name) == Some(i)
  {
  }

  // ---------------------------------------------------------------- expressions

  /** WHERE and ON conditions. `Apply` covers every operator and function whose result is
      determined by the results of its operands; `Other` covers the rest (subqueries, casts),
      which may inspect the whole row. */
  datatype Expr =
    | Literal(v: Scalar)
    | Ident(name: string)
    | Compound(parts: seq<string>)
    | And(left: Expr, right: Expr)
    | Or(left: Expr, right: Expr)
    | Eq(left: Expr, right: Expr)
    | Nested(inner: Expr)
    | Apply(op: string, args: seq<Expr>)
    | Other(tag: string)

  /** `None` is an evaluation error. */
  type Outcome = Option<Scalar>

  /** Everything an evaluation takes as given: operators, opaque expressions, the row of an
      enclosing query, and the order in which a set of mined pairs is listed. */
  datatype World = World(
    operate: (string, seq<Outcome>) -> Outcome,
    inspect: (string, Row, Row) -> Outcome,
    outer: Row,
    listing: set<(string, string)> -> seq<(string, string)>)

  function Join(parts: seq<string>): string {
    if parts == [] then ""
    else if |parts| == 1 then parts[0]
    else parts[0] + "." + Join(parts[1..])
  }

  /** The name under which a column reference is first looked up. */
  function RefName(e: Expr): string
    requires e.Ident? || e.Compound?
  {
    if e.Ident? then e.name else Join(e.parts)
  }

  function OrElse(a: Outcome, b: Outcome): Outcome {
    if a.Some? then a else b
  }

  function EqOutcome(l: Outcome, r: Outcome): Outcome {
    if l.Some? && r.Some? then Some(Bool(Equal(l.value, r.value))) else None
  }

  function Eval(e: Expr, row: Row, w: World): Outcome
    decreases e, 1
  {
    match e
    case Literal(v) => Some(v)
    case Ident(name) => OrElse(RowGet(row, name), RowGet(w.outer, name))
    case Compound(parts) =>
      var last := if parts == [] then "" else parts[|parts| - 1];
      OrElse(OrElse(RowGet(row, Join(parts)), RowGet(row, last)),
             OrElse(RowGet(w.outer, Join(parts)), RowGet(w.outer, last)))
    case And(left, right) =>
      (match Eval(left, row, w)
       case None => None
       case Some(l) =>
         if !Truthy(l) then Some(Bool(false))
         else match Eval(right, row, w)
              case None => None
              case Some(r) => Some(Bool(Truthy(r))))
    case Or(left, right) =>
      (match Eval(left, row, w)
       case None => None
       case Some(l) =>
         if Truthy(l) then Some(Bool(true))
         else match Eval(right, row, w)
              case None => None
              case Some(r) => Some(Bool(Truthy(r))))
    case Eq(left, right) => EqOutcome(Eval(left, row, w), Eval(right, row, w))
    case Nested(inner) => Eval(inner, row, w)
    case Apply(op, args) => w.operate(op, EvalAll(args, row, w))
    case Other(tag) => w.inspect(tag, row, w.outer)
  }

  function EvalAll(args: seq<Expr>, row: Row, w: World): seq<Outcome>
    decreases args, 0
  {
    if args == [] then [] else [Eval(args[0], row, w)] + EvalAll(args[1..], row, w)
  }

  /** A filter keeps a row when its condition evaluates, without error, to something truthy. */
  predicate Passes(e: Expr, row: Row, w: World) {
    Eval(e, row, w).Some? && Truthy(Eval(e, row, w).value)
  }

  /** The column references of an expression. */
  ghost function Refs(e: Expr): set<Expr>
    decreases e, 1
  {
    match e
    case Literal(_) => {}
    case Ident(_) => {e}
    case Compound(_) => {e}
    case And(left, right) => Refs(left) + Refs(right)
    case Or(left, right) => Refs(left) + Refs(right)
    case Eq(left, right) => Refs(left) + Refs(right)
    case Nested(inner) => Refs(inner)
    case Apply(_, args) => RefsAll(args)
    case Other(_) => {}
  }

  ghost function RefsAll(args: seq<Expr>): set<Expr>
    decreases args, 0
  {
    if args == [] then {} else Refs(args[0]) + RefsAll(args[1..])
  }

  lemma {:induction false} RefsAreColumns(e: Expr, r: Expr)
    requires r in Refs(e)
    ensures r.Ident? || r.Compound?
    decreases e, 1
  {
    match e
    case And(left, right) => if r in Refs(left) { RefsAreColumns(left, r); } else { RefsAreColumns(right, r); }
    case Or(left, right) => if r in Refs(left) { RefsAreColumns(left, r); } else { RefsAreColumns(right, r); }
    case Eq(left, right) => if r in Refs(left) { RefsAreColumns(left, r); } else { RefsAreColumns(right, r); }
    case Nested(inner) => RefsAreColumns(inner, r);
    case Apply(_, args) => RefsAllAreColumns(args, r);
    case _ =>
  }

  lemma {:induction false} RefsAllAreColumns(args: seq<Expr>, r: Expr)
    requires r in RefsAll(args)
    ensures r.Ident? || r.Compound?
    decreases args, 0
  {
    if r in Refs(args[0]) {
      RefsAreColumns(args[0], r);
    } else {
      RefsAllAreColumns(args[1..], r);
    }
  }

  // ---------------------------------------------------------------- push-down test

  /** `expr_refs_only_row`: every column reference is found in the row. */
  predicate RefsOnly(e: Expr, names: seq<string>)
    decreases e, 1
  {
    match e
    case Literal(_) => true
    case Ident(name) => Lookup(names, name).Some?
    case Compound(parts) => Lookup(names, Join(parts)).Some?
    case And(left, right) => RefsOnly(left, names) && RefsOnly(right, names)
    case Or(left, right) => RefsOnly(left, names) && RefsOnly(right, names)
    case Eq(left, right) => RefsOnly(left, names) && RefsOnly(right, names)
    case Nested(inner) => RefsOnly(inner, names)
    case Apply(_, args) => RefsOnlyAll(args, names)
    case Other(_) => false
  }

  predicate RefsOnlyAll(args: seq<Expr>, names: seq<string>)
    decreases args, 0
  {
    args == [] || (RefsOnly(args[0], names) && RefsOnlyAll(args[1..], names))
  }

  ghost predicate Unambiguous(e: Expr, names: seq<string>) {
    forall r :: r in Refs(e) && (r.Ident? || r.Compound?) ==> AtMostOne(names, RefName(r))
  }

  /** A name found in the middle part of a row, and unambiguous in the whole row, means the
      same cell in both. */
  lemma RowGetInside(a: Row, t: Row, b: Row, name: string)
    requires Lookup(Names(t), name).Some? && AtMostOne(Names(a + t + b), name)
    ensures RowGet(a + t + b, name) == RowGet(t, name)
  {
    var i := Lookup(Names(t), name).value;
    var full := a + t + b;
    var at: nat := |a| + i;
    assert full[at] == t[i];
    assert Names(full)[at] == Names(t)[i];
    LookupOnly(Names(full), name, at);
  }

  /** An expression that only refers to one table evaluates alike on that table's row and on
      any joined row containing it. */
  lemma {:induction false} EvalInside(e: Expr, a: Row, t: Row, b: Row, w: World)
    requires RefsOnly(e, Names(t)) && Unambiguous(e, Names(a + t + b))
    ensures Eval(e, a + t + b, w) == Eval(e, t, w)
    decreases e, 1
  {
    match e
    case Ident(name) =>
      assert e in Refs(e);
      RowGetInside(a, t, b, name);
    case Compound(parts) =>
      assert e in Refs(e);
      RowGetInside(a, t, b, Join(parts));
    case And(left, right) => EvalInside(left, a, t, b, w); EvalInside(right, a, t, b, w);
    case Or(left, right) => EvalInside(left, a, t, b, w); EvalInside(right, a, t, b, w);
    case Eq(left, right) => EvalInside(left, a, t, b, w); EvalInside(right, a, t, b, w);
    case Nested(inner) => EvalInside(inner, a, t, b, w);
    case Apply(_, args) => EvalAllInside(args, a, t, b, w);
    case _ =>
  }

  lemma {:induction false} EvalAllInside(args: seq<Expr>, a: Row, t: Row, b: Row, w: World)
    requires RefsOnlyAll(args, Names(t))
    requires forall r :: r in RefsAll(args) && (r.Ident? || r.Compound?) ==> AtMostOne(Names(a + t + b), RefName(r))
    ensures EvalAll(args, a + t + b, w) == EvalAll(args, t, w)
    decreases args, 0
  {
    if args != [] {
      EvalInside(args[0], a, t, b, w);
      EvalAllInside(args[1..], a, t, b, w);
    }
  }

  // ---------------------------------------------------------------- conjuncts

  function Conjuncts(e: Expr): seq<Expr> {
    if e.And? then Conjuncts(e.left) + Conjuncts(e.right) else [e]
  }

  /** A row that passes a condition passes each of its conjuncts, whose references are its own. */
  lemma {:induction false} ConjunctsHold(e: Expr, c: Expr)
    requires c in Conjuncts(e)
    ensures Refs(c) <= Refs(e)
    ensures forall row, w :: Passes(e, row, w) ==> Passes(c, row, w)
  {
    if e.And? {
      if c in Conjuncts(e.left) {
        ConjunctsHold(e.left, c);
      } else {
        ConjunctsHold(e.right, c);
      }
    }
  }

  // ---------------------------------------------------------------- mined equalities

  function LowerAll(parts: seq<string>): seq<string> {
    if parts == [] then [] else [Lower(parts[0])] + LowerAll(parts[1..])
  }

  function ColRef(e: Expr): Option<string> {
    match e
    case Ident(name) => Some(Lower(name))
    case Compound(parts) => Some(Join(LowerAll(parts)))
    case _ => None
  }

  predicate StringAtMost(a: string, b: string) {
    a == "" || (b != "" && (a[0] < b[0] || (a[0] == b[0] && StringAtMost(a[1..], b[1..]))))
  }

  function Canonical(p: (string, string)): (string, string) {
    if StringAtMost(p.0, p.1) then p else (p.1, p.0)
  }

  /** `extract_equi_pairs`, as the set of the pairs it lists. */
  function EquiPairs(e: Expr): set<(string, string)> {
    match e
    case Eq(left, right) =>
      if ColRef(left).Some? && ColRef(right).Some? then {(ColRef(left).value, ColRef(right).value)} else {}
    case And(left, right) => EquiPairs(left) + EquiPairs(right)
    case Or(left, right) =>
      (set p | p in EquiPairs(left) :: Canonical(p)) * (set p | p in EquiPairs(right) :: Canonical(p))
    case Nested(inner) => EquiPairs(inner)
    case _ => {}
  }

  /** Two column references of `e` that a mined pair stands for, with equal values in the row. */
  ghost predicate Equated(e: Expr, row: Row, w: World, p: (string, string), l: Expr, r: Expr) {
    && l in Refs(e) && r in Refs(e)
    && ColRef(l) == Some(p.0) && ColRef(r) == Some(p.1)
    && Eval(l, row, w).Some? && Eval(r, row, w).Some?
    && Equal(Eval(l, row, w).value, Eval(r, row, w).value)
  }

  lemma EquatedSwap(e: Expr, row: Row, w: World, p: (string, string), l: Expr, r: Expr)
    requires Equated(e, row, w, p, l, r)
    ensures Equated(e, row, w, (p.1, p.0), r, l)
  {
  }

  /** Every mined pair is implied by the condition: a row that passes equates the two columns. */
  lemma {:induction false} PairsImplied(e: Expr, p: (string, string), row: Row, w: World) returns (l: Expr, r: Expr)
    requires p in EquiPairs(e) && Passes(e, row, w)
    ensures Equated(e, row, w, p, l, r)
  {
    match e
    case Eq(left, right) =>
      l, r := left, right;
    case And(left, right) =>
      if p in EquiPairs(left) {
        l, r := PairsImplied(left, p, row, w);
      } else {
        l, r := PairsImplied(right, p, row, w);
      }
    case Or(left, right) =>
      var side := if Passes(left, row, w) then left else right;
      var q :| q in EquiPairs(side) && Canonical(q) == p;
      l, r := PairsImplied(side, q, row, w);
      if q != p {
        l, r := r, l;
      }
    case Nested(inner) =>
      l, r := PairsImplied(inner, p, row, w);
  }
}
