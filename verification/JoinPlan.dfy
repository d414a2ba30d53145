/** The FROM/WHERE pipeline: predicate push-down, hash joins on equalities mined from the
    conditions and a final WHERE, against the plain meaning of filtering the Cartesian
    product. */
module JoinPlan {
  import opened Base
  import opened Sql

  // ---------------------------------------------------------------- filters and joins

  /** The rows that `keep` accepts, in order. */
  function Pick(rows: seq<Row>, keep: Row -> bool): seq<Row> {
    if rows == [] then []
    else if keep(rows[0]) then [rows[0]] + Pick(rows[1..], keep)
    else Pick(rows[1..], keep)
  }

  function Passing(e: Expr, w: World): Row -> bool {
    row => Passes(e, row, w)
  }

  function Filter(e: Expr, rows: seq<Row>, w: World): seq<Row> {
    Pick(rows, Passing(e, w))
  }

  lemma PickOne(row: Row, keep: Row -> bool)
    ensures Pick([row], keep) == if keep(row) then [row] else []
  {
    assert [row][1..] == [];
  }

  function FilterIf(e: Option<Expr>, rows: seq<Row>, w: World): seq<Row> {
    if e.Some? then Filter(e.value, rows, w) else rows
  }

  /** The rows of `right` that `l` joins with, appended to it. */
  function JoinRow(l: Row, right: seq<Row>, keep: (Row, Row) -> bool): seq<Row> {
    if right == [] then []
    else if keep(l, right[0]) then [l + right[0]] + JoinRow(l, right[1..], keep)
    else JoinRow(l, right[1..], keep)
  }

  function JoinBy(left: seq<Row>, right: seq<Row>, keep: (Row, Row) -> bool): seq<Row> {
    if left == [] then [] else JoinRow(left[0], right, keep) + JoinBy(left[1..], right, keep)
  }

  function Cross(left: seq<Row>, right: seq<Row>): seq<Row> {
    JoinBy(left, right, (l, r) => true)
  }

  /** What `scalar_hash_key` distinguishes: the kind of the value and its rendering, which
      for floats is the sign and ten decimals. */
  datatype HashKey =
    | IntKey(n: int) | FloatKey(neg: bool, tenths: int) | InfiniteKey(neg: bool) | NaNKey
    | TextKey(s: string) | DateKey(d: int) | BoolKey(b: bool) | NullKey

  function HashKeyOf(v: Scalar): HashKey {
    match v
    case Int(n) => IntKey(n)
    case Flt(NaN) => NaNKey
    case Flt(Infinite(neg)) => InfiniteKey(neg)
    case Flt(Zero(neg)) => FloatKey(neg, 0)
    case Flt(Finite(r)) => FloatKey(r < 0.0, ((if r < 0.0 then -r else r) * 10000000000.0 + 0.5).Floor)
    case Text(s) => TextKey(s)
    case Date(d) => DateKey(d)
    case Bool(b) => BoolKey(b)
    case Null => NullKey
  }

  predicate HashMatch(l: Row, r: Row, lkey: string, rkey: string) {
    && RowGet(l, lkey).Some? && RowGet(r, rkey).Some?
    && !RowGet(r, rkey).value.Null?
    && HashKeyOf(RowGet(l, lkey).value) == HashKeyOf(RowGet(r, rkey).value)
  }

  function HashJoin(left: seq<Row>, right: seq<Row>, lkey: string, rkey: string): seq<Row> {
    JoinBy(left, right, (l, r) => HashMatch(l, r, lkey, rkey))
  }

  /** Two NULLs, or the two zeros. */
  predicate Unmet(a: Scalar, b: Scalar) {
    (a.Null? && b.Null?) || (a.Flt? && b.Flt? && a.f.Zero? && b.f.Zero? && a.f != b.f)
  }

  /** Equal values meet in the hash index unless both are NULL or they are the two zeros. */
  lemma EqualValuesMeetIff(a: Scalar, b: Scalar)
    requires Equal(a, b)
    ensures HashKeyOf(a) == HashKeyOf(b) && !b.Null? <==> !Unmet(a, b)
  {
  }

  // ---------------------------------------------------------------- the executor

  const CROSS_JOIN_BUDGET := 50_000
  const INTERMEDIATE_ROWS_BUDGET := 200_000

  /** One relation of a FROM clause: introduced by a comma, or by an INNER JOIN with its
      optional ON condition. The clause is the list of its relations from left to right. */
  datatype Source =
    | Comma(header: seq<string>, rows: seq<Row>)
    | Inner(header: seq<string>, rows: seq<Row>, on: Option<Expr>)

  function PushDown(rows: seq<Row>, conjuncts: seq<Expr>, w: World): seq<Row>
    decreases conjuncts
  {
    if conjuncts == [] || rows == [] then rows
    else
      PushDown(if RefsOnly(conjuncts[0], Names(rows[0])) then Filter(conjuncts[0], rows, w) else rows,
               conjuncts[1..], w)
  }

  function PushDownIf(rows: seq<Row>, where_: Option<Expr>, w: World): seq<Row> {
    if where_.Some? then PushDown(rows, Conjuncts(where_.value), w) else rows
  }

  function ColumnsOf(rows: seq<Row>): seq<string> {
    if rows == [] then [] else Names(rows[0])
  }

  /** The first mined pair with one side among the left columns and the other among the right. */
  function FindJoinKey(left: seq<string>, right: seq<string>, pairs: seq<(string, string)>): Option<(string, string)> {
    if pairs == [] then None
    else
      var (a, b) := pairs[0];
      if FirstMatching(left, a).Some? && FirstMatching(right, b).Some? then
        Some((left[FirstMatching(left, a).value], right[FirstMatching(right, b).value]))
      else if FirstMatching(left, b).Some? && FirstMatching(right, a).Some? then
        Some((left[FirstMatching(left, b).value], right[FirstMatching(right, a).value]))
      else FindJoinKey(left, right, pairs[1..])
  }

  function Within(rows: seq<Row>, budget: nat): Option<seq<Row>> {
    if |rows| > budget then None else Some(rows)
  }

  function PairsOf(e: Option<Expr>, w: World): seq<(string, string)> {
    if e.Some? then w.listing(EquiPairs(e.value)) else []
  }

  /** Joins the rows so far with the next relation; `None` when a row budget is exceeded. */
  function Extend(left: seq<Row>, right: seq<Row>, pairs: seq<(string, string)>): Option<seq<Row>> {
    match FindJoinKey(ColumnsOf(left), ColumnsOf(right), pairs)
    case Some(key) => Within(HashJoin(left, right, key.0, key.1), INTERMEDIATE_ROWS_BUDGET)
    case None =>
      if |left| * |right| > CROSS_JOIN_BUDGET then None else Within(Cross(left, right), INTERMEDIATE_ROWS_BUDGET)
  }

  /** One round of `resolve_from`: the first relation is taken as it is, later ones are joined. */
  function JoinSource(left: seq<Row>, first: bool, src: Source, where_: Option<Expr>, w: World): Option<seq<Row>> {
    var next := PushDownIf(src.rows, where_, w);
    if first then Some(next)
    else if src.Comma? then Extend(left, next, PairsOf(where_, w))
    else
      match Extend(left, next, PairsOf(src.on, w))
      case None => None
      case Some(rows) => Some(FilterIf(src.on, rows, w))
  }

  /** `resolve_from`, from its i-th round on. */
  function ResolveRest(left: seq<Row>, sources: seq<Source>, i: nat, where_: Option<Expr>, w: World): Option<seq<Row>>
    requires i <= |sources|
    decreases |sources| - i
  {
    if i == |sources| then Some(left)
    else
      match JoinSource(left, i == 0, sources[i], where_, w)
      case None => None
      case Some(next) => ResolveRest(next, sources, i + 1, where_, w)
  }

  function Resolve(sources: seq<Source>, where_: Option<Expr>, w: World): Option<seq<Row>> {
    ResolveRest([[]], sources, 0, where_, w)
  }

  /** The rows a SELECT works on: FROM, then the whole WHERE. */
  function SelectRows(sources: seq<Source>, where_: Option<Expr>, w: World): Option<seq<Row>> {
    match Resolve(sources, where_, w)
    case None => None
    case Some(rows) => Some(FilterIf(where_, rows, w))
  }

  // ---------------------------------------------------------------- the meaning

  /** The joined rows with no regard to WHERE: a Cartesian product, cut by each ON as it is met. */
  function Product(sources: seq<Source>, w: World): seq<Row> {
    if sources == [] then [[]]
    else
      var n := |sources| - 1;
      WithSource(Product(sources[..n], w), sources[n], w)
  }

  function WithSource(left: seq<Row>, src: Source, w: World): seq<Row> {
    var rows := Cross(left, src.rows);
    if src.Inner? then FilterIf(src.on, rows, w) else rows
  }

  function Meaning(sources: seq<Source>, where_: Option<Expr>, w: World): seq<Row> {
    FilterIf(where_, Product(sources, w), w)
  }

  // ---------------------------------------------------------------- thinning

  /** `xs` is what remains of `ys`, in order, after dropping some rows that need not be kept. */
  ghost predicate Thins(xs: seq<Row>, ys: seq<Row>, must: Row -> bool)
    decreases ys
  {
    if ys == [] then xs == []
    else
      || (xs != [] && xs[0] == ys[0] && Thins(xs[1..], ys[1..], must))
      || (!must(ys[0]) && Thins(xs, ys[1..], must))
  }

  lemma {:induction false} ThinsRefl(xs: seq<Row>, must: Row -> bool)
    ensures Thins(xs, xs, must)
  {
    if xs != [] {
      ThinsRefl(xs[1..], must);
    }
  }

  lemma {:induction false} ThinsMember(xs: seq<Row>, ys: seq<Row>, must: Row -> bool, x: Row)
    requires Thins(xs, ys, must) && x in xs
    ensures x in ys
  {
    if ys != [] {
      if xs != [] && xs[0] == ys[0] && Thins(xs[1..], ys[1..], must) {
        if x != xs[0] {
          ThinsMember(xs[1..], ys[1..], must, x);
        }
      } else {
        ThinsMember(xs, ys[1..], must, x);
      }
    }
  }

  lemma {:induction false} ThinsWeaken(xs: seq<Row>, ys: seq<Row>, must: Row -> bool, must': Row -> bool)
    requires Thins(xs, ys, must) && forall y :: y in ys && must'(y) ==> must(y)
    ensures Thins(xs, ys, must')
    decreases ys
  {
    if ys != [] {
      if xs != [] && xs[0] == ys[0] && Thins(xs[1..], ys[1..], must) {
        ThinsWeaken(xs[1..], ys[1..], must, must');
      } else {
        ThinsWeaken(xs, ys[1..], must, must');
      }
    }
  }

  lemma {:induction false} ThinsAppend(a: seq<Row>, b: seq<Row>, c: seq<Row>, d: seq<Row>, must: Row -> bool)
    requires Thins(a, b, must) && Thins(c, d, must)
    ensures Thins(a + c, b + d, must)
    decreases b
  {
    if b == [] {
      assert a + c == c && b + d == d;
    } else {
      assert (b + d)[1..] == b[1..] + d;
      if a != [] && a[0] == b[0] && Thins(a[1..], b[1..], must) {
        ThinsAppend(a[1..], b[1..], c, d, must);
        assert (a + c)[1..] == a[1..] + c;
      } else {
        ThinsAppend(a, b[1..], c, d, must);
      }
    }
  }

  lemma {:induction false} ThinsTrans(xs: seq<Row>, ys: seq<Row>, zs: seq<Row>, must: Row -> bool)
    requires Thins(xs, ys, must) && Thins(ys, zs, must)
    ensures Thins(xs, zs, must)
    decreases zs
  {
    if zs != [] {
      if ys != [] && ys[0] == zs[0] && Thins(ys[1..], zs[1..], must) {
        if xs != [] && xs[0] == ys[0] && Thins(xs[1..], ys[1..], must) {
          ThinsTrans(xs[1..], ys[1..], zs[1..], must);
        } else {
          ThinsTrans(xs, ys[1..], zs[1..], must);
        }
      } else {
        ThinsTrans(xs, ys, zs[1..], must);
      }
    }
  }

  lemma {:induction false} FilterThins(e: Expr, rows: seq<Row>, w: World, must: Row -> bool)
    requires forall r :: r in rows && must(r) ==> Passes(e, r, w)
    ensures Thins(Filter(e, rows, w), rows, must)
  {
    if rows != [] {
      FilterThins(e, rows[1..], w, must);
    }
  }

  lemma {:induction false} FilterKeepsThins(e: Expr, xs: seq<Row>, ys: seq<Row>, w: World, must: Row -> bool)
    requires Thins(xs, ys, must)
    ensures Thins(Filter(e, xs, w), Filter(e, ys, w), must)
    decreases ys
  {
    if ys != [] {
      if xs != [] && xs[0] == ys[0] && Thins(xs[1..], ys[1..], must) {
        FilterKeepsThins(e, xs[1..], ys[1..], w, must);
      } else {
        FilterKeepsThins(e, xs, ys[1..], w, must);
      }
    }
  }

  /** If only rows that fail `met` or the condition were dropped, and every row left is `met`,
      the condition selects what it selects from all rows, without those that fail `met`. */
  lemma {:induction false} ThinsThenFilter(
      e: Option<Expr>, xs: seq<Row>, ys: seq<Row>, w: World, must: Row -> bool, met: Row -> bool)
    requires Thins(xs, ys, must) && forall x :: x in xs ==> met(x)
    requires forall y :: y in ys && (e.Some? ==> Passes(e.value, y, w)) && met(y) ==> must(y)
    ensures FilterIf(e, xs, w) == Pick(FilterIf(e, ys, w), met)
    decreases ys
  {
    if ys != [] {
      var rest := ys[1..];
      if xs != [] && xs[0] == ys[0] && Thins(xs[1..], rest, must) {
        ThinsThenFilter(e, xs[1..], rest, w, must, met);
        FilterIfCons(e, xs, w);
      } else {
        ThinsThenFilter(e, xs, rest, w, must, met);
      }
      FilterIfCons(e, ys, w);
      PickCons(ys[0], FilterIf(e, rest, w), met);
    }
  }

  lemma FilterIfCons(e: Option<Expr>, rows: seq<Row>, w: World)
    requires rows != []
    ensures FilterIf(e, rows, w) ==
              (if e.Some? && !Passes(e.value, rows[0], w) then [] else [rows[0]]) + FilterIf(e, rows[1..], w)
  {
  }

  lemma PickCons(row: Row, rows: seq<Row>, keep: Row -> bool)
    ensures Pick([row] + rows, keep) == (if keep(row) then [row] else []) + Pick(rows, keep)
    ensures Pick([] + rows, keep) == Pick(rows, keep)
  {
    assert ([row] + rows)[1..] == rows;
    assert [] + rows == rows;
  }

  // ---------------------------------------------------------------- thinning joins

  lemma {:induction false} JoinMember(left: seq<Row>, right: seq<Row>, keep: (Row, Row) -> bool, x: Row)
    returns (l: Row, r: Row)
    requires x in JoinBy(left, right, keep)
    ensures l in left && r in right && x == l + r && keep(l, r)
  {
    if x in JoinRow(left[0], right, keep) {
      l := left[0];
      r := JoinRowMember(l, right, keep, x);
    } else {
      l, r := JoinMember(left[1..], right, keep, x);
    }
  }

  lemma {:induction false} JoinRowMember(l: Row, right: seq<Row>, keep: (Row, Row) -> bool, x: Row) returns (r: Row)
    requires x in JoinRow(l, right, keep)
    ensures r in right && x == l + r && keep(l, r)
  {
    if keep(l, right[0]) && x == l + right[0] {
      r := right[0];
    } else {
      r := JoinRowMember(l, right[1..], keep, x);
    }
  }

  lemma {:induction false} JoinRowThins(
      l: Row, right: seq<Row>, right': seq<Row>, keep: (Row, Row) -> bool, mustR: Row -> bool, must: Row -> bool)
    requires Thins(right, right', mustR)
    requires forall r :: r in right' && must(l + r) ==> mustR(r) && keep(l, r)
    ensures Thins(JoinRow(l, right, keep), JoinRow(l, right', (l, r) => true), must)
    decreases right'
  {
    if right' != [] {
      if right != [] && right[0] == right'[0] && Thins(right[1..], right'[1..], mustR) {
        JoinRowThins(l, right[1..], right'[1..], keep, mustR, must);
      } else {
        JoinRowThins(l, right, right'[1..], keep, mustR, must);
      }
    }
  }

  lemma {:induction false} JoinRowDropped(l: Row, right: seq<Row>, must: Row -> bool)
    requires forall r :: r in right ==> !must(l + r)
    ensures Thins([], JoinRow(l, right, (l, r) => true), must)
  {
    if right != [] {
      JoinRowDropped(l, right[1..], must);
    }
  }

  /** A join of thinned inputs thins the product, as long as it keeps every pair that matters. */
  lemma {:induction false} JoinThins(
      left: seq<Row>, left': seq<Row>, right: seq<Row>, right': seq<Row>, keep: (Row, Row) -> bool,
      mustL: Row -> bool, mustR: Row -> bool, must: Row -> bool)
    requires Thins(left, left', mustL) && Thins(right, right', mustR)
    requires forall l, r :: l in left' && r in right' && must(l + r) ==> mustL(l) && mustR(r)
    requires forall l, r :: l in left && r in right' && must(l + r) ==> keep(l, r)
    ensures Thins(JoinBy(left, right, keep), Cross(left', right'), must)
    decreases left'
  {
    if left' != [] {
      var all := (l, r) => true;
      if left != [] && left[0] == left'[0] && Thins(left[1..], left'[1..], mustL) {
        JoinThins(left[1..], left'[1..], right, right', keep, mustL, mustR, must);
        JoinRowThins(left[0], right, right', keep, mustR, must);
        ThinsAppend(JoinRow(left[0], right, keep), JoinRow(left'[0], right', all),
                    JoinBy(left[1..], right, keep), JoinBy(left'[1..], right', all), must);
      } else {
        JoinThins(left, left'[1..], right, right', keep, mustL, mustR, must);
        JoinRowDropped(left'[0], right', must);
        ThinsAppend([], JoinRow(left'[0], right', all),
                    JoinBy(left, right, keep), JoinBy(left'[1..], right', all), must);
        assert [] + JoinBy(left, right, keep) == JoinBy(left, right, keep);
      }
    }
  }

  // ---------------------------------------------------------------- conditions on the query

  ghost predicate WellFormed(sources: seq<Source>) {
    && (sources != [] ==> sources[0].Comma?)
    && forall i :: 0 <= i < |sources| ==> forall r :: r in sources[i].rows ==> Names(r) == sources[i].header
  }

  function Header(sources: seq<Source>): seq<string> {
    if sources == [] then [] else Header(sources[..|sources| - 1]) + sources[|sources| - 1].header
  }

  /** Column names are unambiguous: each reference may denote at most one column of the
      header, and lower-casing it (which mining does) does not make it denote another. */
  ghost predicate Clear(e: Expr, header: seq<string>) {
    forall r :: r in Refs(e) && (r.Ident? || r.Compound?) ==>
      && AtMostOne(header, RefName(r))
      && forall c :: c in header && ColMatches(ColRef(r).value, c) ==> Loose(RefName(r), c)
  }

  ghost predicate Suitable(sources: seq<Source>, where_: Option<Expr>, w: World) {
    && WellFormed(sources)
    && (forall pairs, p :: p in w.listing(pairs) ==> p in pairs)
    && (where_.Some? ==> Clear(where_.value, Header(sources)))
    && (forall i :: 0 <= i < |sources| && sources[i].Inner? && sources[i].on.Some? ==>
          Clear(sources[i].on.value, Header(sources[..i + 1])))
  }

  // ---------------------------------------------------------------- rows that matter

  /** `s` consists of one row of each of the remaining relations. */
  ghost predicate IsTail(s: Row, sources: seq<Source>)
    decreases |sources|
  {
    if sources == [] then s == []
    else exists t, u :: t in sources[0].rows && IsTail(u, sources[1..]) && s == t + u
  }

  /** Some completion of the partial row passes the WHERE. */
  ghost predicate Viable(row: Row, rest: seq<Source>, where_: Option<Expr>, w: World) {
    where_.Some? ==> exists s :: IsTail(s, rest) && Passes(where_.value, row + s, w)
  }

  lemma NamesAfter(h: seq<string>, t: Row, u: Row)
    ensures h + Names(t + u) == (h + Names(t)) + Names(u)
  {
    NamesConcat(t, u);
  }

  lemma HeaderNext(all: seq<Source>, n: nat)
    requires n < |all|
    ensures Header(all[..n + 1]) == Header(all[..n]) + all[n].header
  {
    assert all[..n + 1][..n] == all[..n] && all[..n + 1][n] == all[n];
  }

  lemma {:induction false} TailNames(s: Row, all: seq<Source>, n: nat)
    requires WellFormed(all) && n <= |all| && IsTail(s, all[n..])
    ensures Header(all[..n]) + Names(s) == Header(all)
    decreases |all| - n
  {
    if n == |all| {
      assert all[..n] == all;
    } else {
      assert all[n..][1..] == all[n + 1..] && all[n..][0] == all[n];
      var t, u :| t in all[n].rows && IsTail(u, all[n + 1..]) && s == t + u;
      TailNames(u, all, n + 1);
      HeaderNext(all, n);
      NamesAfter(Header(all[..n]), t, u);
    }
  }

  lemma {:induction false} ProductRows(sources: seq<Source>, w: World, row: Row)
    requires WellFormed(sources) && row in Product(sources, w)
    ensures Names(row) == Header(sources)
  {
    if sources != [] {
      var n := |sources| - 1;
      var l, r := ProductMember(sources, w, row);
      assert WellFormed(sources[..n]);
      ProductRows(sources[..n], w, l);
      NamesConcat(l, r);
    }
  }

  /** A row of the product joins a row of the product so far with one of the last relation, and
      passes that relation's ON. */
  lemma ProductMember(sources: seq<Source>, w: World, row: Row) returns (l: Row, r: Row)
    requires sources != [] && row in Product(sources, w)
    ensures var n := |sources| - 1;
            && l in Product(sources[..n], w) && r in sources[n].rows && row == l + r
            && (sources[n].Inner? && sources[n].on.Some? ==> Passes(sources[n].on.value, row, w))
  {
    var n := |sources| - 1;
    var rows := Cross(Product(sources[..n], w), sources[n].rows);
    if sources[n].Inner? && sources[n].on.Some? {
      FilterMember(sources[n].on.value, rows, w, row);
    }
    l, r := JoinMember(Product(sources[..n], w), sources[n].rows, (l, r) => true, row);
  }

  lemma {:induction false} FilterMember(e: Expr, rows: seq<Row>, w: World, row: Row)
    requires row in Filter(e, rows, w)
    ensures row in rows && Passes(e, row, w)
  {
    if !(Passes(e, rows[0], w) && row == rows[0]) {
      FilterMember(e, rows[1..], w, row);
    }
  }

  // ---------------------------------------------------------------- push-down is sound

  lemma {:induction false} PushDownThins(
      rows: seq<Row>, header: seq<string>, conjuncts: seq<Expr>, w: World, must: Row -> bool)
    requires forall r :: r in rows ==> Names(r) == header
    requires forall c, r :: c in conjuncts && RefsOnly(c, header) && r in rows && must(r) ==> Passes(c, r, w)
    ensures Thins(PushDown(rows, conjuncts, w), rows, must)
    decreases conjuncts
  {
    if conjuncts == [] || rows == [] {
      ThinsRefl(rows, must);
    } else if RefsOnly(conjuncts[0], header) {
      assert rows[0] in rows && conjuncts[0] in conjuncts;
      var kept := Filter(conjuncts[0], rows, w);
      FilterThins(conjuncts[0], rows, w, must);
      forall r | r in kept
        ensures r in rows
      {
        FilterMember(conjuncts[0], rows, w, r);
      }
      PushDownThins(kept, header, conjuncts[1..], w, must);
      ThinsTrans(PushDown(kept, conjuncts[1..], w), kept, rows, must);
    } else {
      assert rows[0] in rows;
      PushDownThins(rows, header, conjuncts[1..], w, must);
    }
  }

  /** A row of the n-th table that some complete row passing the WHERE contains. */
  ghost predicate Useful(t: Row, all: seq<Source>, n: nat, where_: Option<Expr>, w: World)
    requires n < |all|
  {
    where_.Some? ==>
      exists l, s :: Names(l) == Header(all[..n]) && IsTail(s, all[n + 1..]) && Passes(where_.value, l + t + s, w)
  }

  lemma PushDownKeepsUseful(all: seq<Source>, n: nat, where_: Option<Expr>, w: World)
    requires Suitable(all, where_, w) && n < |all|
    ensures Thins(PushDownIf(all[n].rows, where_, w), all[n].rows, t => Useful(t, all, n, where_, w))
  {
    var must := t => Useful(t, all, n, where_, w);
    if where_.None? {
      ThinsRefl(all[n].rows, must);
    } else {
      forall c, t | c in Conjuncts(where_.value) && RefsOnly(c, all[n].header) && t in all[n].rows && must(t)
        ensures Passes(c, t, w)
      {
        UsefulPasses(all, n, where_.value, c, t, w);
      }
      PushDownThins(all[n].rows, all[n].header, Conjuncts(where_.value), w, must);
    }
  }

  /** A useful row passes every conjunct that reads only its own columns. */
  lemma UsefulPasses(all: seq<Source>, n: nat, e: Expr, c: Expr, t: Row, w: World)
    requires Suitable(all, Some(e), w) && n < |all| && t in all[n].rows && Useful(t, all, n, Some(e), w)
    requires c in Conjuncts(e) && RefsOnly(c, all[n].header)
    ensures Passes(c, t, w)
  {
    var l, s :| Names(l) == Header(all[..n]) && IsTail(s, all[n + 1..]) && Passes(e, l + t + s, w);
    FullNames(all, n, l, t, s);
    assert Names(t) == all[n].header;
    ConjunctPasses(e, c, l, t, s, w);
  }

  lemma ConjunctPasses(e: Expr, c: Expr, l: Row, t: Row, s: Row, w: World)
    requires c in Conjuncts(e) && RefsOnly(c, Names(t)) && Clear(e, Names(l + t + s)) && Passes(e, l + t + s, w)
    ensures Passes(c, t, w)
  {
    ConjunctsHold(e, c);
    EvalInside(c, l, t, s, w);
  }

  lemma FullNames(all: seq<Source>, n: nat, l: Row, t: Row, s: Row)
    requires WellFormed(all) && n < |all|
    requires Names(l) == Header(all[..n]) && t in all[n].rows && IsTail(s, all[n + 1..])
    ensures Names(l + t) == Header(all[..n + 1])
    ensures Names(l + t + s) == Header(all)
  {
    NamesConcat(l, t);
    NamesConcat(l + t, s);
    HeaderNext(all, n);
    TailNames(s, all, n + 1);
  }

  // ---------------------------------------------------------------- hash joins are complete

  /** What `FindJoinKey` returns: the first columns of the two sides that a listed pair names. */
  ghost predicate KeyFor(p: (string, string), left: seq<string>, right: seq<string>, key: (string, string)) {
    && FirstMatching(left, p.0).Some? && FirstMatching(right, p.1).Some?
    && key == (left[FirstMatching(left, p.0).value], right[FirstMatching(right, p.1).value])
  }

  lemma {:induction false} FoundKey(left: seq<string>, right: seq<string>, pairs: seq<(string, string)>)
    returns (p: (string, string), swapped: bool)
    requires FindJoinKey(left, right, pairs).Some?
    ensures p in pairs
    ensures KeyFor(if swapped then (p.1, p.0) else p, left, right, FindJoinKey(left, right, pairs).value)
  {
    var q := pairs[0];
    if FirstMatching(left, q.0).Some? && FirstMatching(right, q.1).Some? {
      p, swapped := q, false;
    } else if FirstMatching(left, q.1).Some? && FirstMatching(right, q.0).Some? {
      p, swapped := q, true;
    } else {
      p, swapped := FoundKey(left, right, pairs[1..]);
    }
  }

  /** A reference whose mined name matches a column at position `i` evaluates to that cell. */
  lemma RefIsCell(e: Expr, ref: Expr, row: Row, i: nat, cell: Cell, w: World)
    requires ref in Refs(e) && ColRef(ref).Some? && Clear(e, Names(row))
    requires i < |row| && row[i] == cell && ColMatches(ColRef(ref).value, cell.name)
    ensures Eval(ref, row, w) == Some(cell.value)
  {
    assert Names(row)[i] == row[i].name;
    assert row[i].name in Names(row);
    LookupOnly(Names(row), RefName(ref), i);
  }

  lemma FirstMatchingIsExact(row: Row, name: string, i: nat)
    requires FirstMatching(Names(row), name) == Some(i)
    ensures RowGet(row, row[i].name) == Some(row[i].value)
  {
    var names := Names(row);
    forall k | 0 <= k < i
      ensures names[k] != names[i]
    {
      assert !ColMatches(name, names[k]);
    }
    FirstExactAt(names, i);
  }

  lemma FirstExactAt(names: seq<string>, i: nat)
    requires i < |names| && forall k :: 0 <= k < i ==> names[k] != names[i]
    ensures FirstExact(names, names[i]) == Some(i)
  {
    var r := FirstExact(names, names[i]);
    assert r.Some?;
    assert r.value <= i;
  }

  ghost predicate IsPart(t: Row, full: Row, from: nat) {
    from + |t| <= |full| && forall i :: 0 <= i < |t| ==> full[from + i] == t[i]
  }

  /** Column `i` matches the name, and looking up its own name finds it. */
  predicate Keyed(t: Row, name: string, i: nat) {
    i < |t| && ColMatches(name, t[i].name) && RowGet(t, t[i].name) == Some(t[i].value)
  }

  lemma FirstMatchIsKeyed(t: Row, name: string, i: nat)
    requires FirstMatching(Names(t), name) == Some(i)
    ensures Keyed(t, name, i)
  {
    assert Names(t)[i] == t[i].name;
    FirstMatchingIsExact(t, name, i);
  }

  /** The key column of one join side holds what the mined reference evaluates to on the
      complete row. */
  lemma KeyIsCell(e: Expr, ref: Expr, t: Row, full: Row, from: nat, i: nat, w: World)
    requires ref in Refs(e) && ColRef(ref).Some? && i < |t| && ColMatches(ColRef(ref).value, t[i].name)
    requires IsPart(t, full, from) && Clear(e, Names(full))
    ensures Eval(ref, full, w) == Some(t[i].value)
  {
    PartAt(t, full, from, i);
    RefIsCell(e, ref, full, from + i, t[i], w);
  }

  lemma PartAt(t: Row, full: Row, from: nat, i: nat)
    requires IsPart(t, full, from) && i < |t|
    ensures from + i < |full| && full[from + i] == t[i]
  {
  }

  /** Both sides hold the key, and the values under it are two NULLs or the two zeros. */
  predicate UnmetUnder(l: Row, r: Row, lkey: string, rkey: string) {
    RowGet(l, lkey).Some? && RowGet(r, rkey).Some? && Unmet(RowGet(l, lkey).value, RowGet(r, rkey).value)
  }

  lemma CellsMeetIff(l: Row, r: Row, i: nat, j: nat)
    requires i < |l| && RowGet(l, l[i].name) == Some(l[i].value)
    requires j < |r| && RowGet(r, r[j].name) == Some(r[j].value)
    requires Equal(l[i].value, r[j].value)
    ensures HashMatch(l, r, l[i].name, r[j].name) <==> !UnmetUnder(l, r, l[i].name, r[j].name)
  {
    EqualValuesMeetIff(l[i].value, r[j].value);
  }

  lemma EquatedRowsMeetIff(
      e: Expr, l: Row, r: Row, full: Row, p: (string, string), i: nat, j: nat, a: Expr, b: Expr, w: World)
    requires Keyed(l, p.0, i) && Keyed(r, p.1, j)
    requires Equated(e, full, w, p, a, b)
    requires IsPart(l, full, 0) && IsPart(r, full, |l|)
    requires Clear(e, Names(full))
    ensures HashMatch(l, r, l[i].name, r[j].name) <==> !UnmetUnder(l, r, l[i].name, r[j].name)
  {
    KeyIsCell(e, a, l, full, 0, i, w);
    KeyIsCell(e, b, r, full, |l|, j, w);
    CellsMeetIff(l, r, i, j);
  }

  lemma Parts(l: Row, r: Row, s: Row)
    ensures IsPart(l, l + r + s, 0) && IsPart(r, l + r + s, |l|)
  {
  }

  /** If the joined row passes the condition the key was mined from, the hash join finds it,
      except when its two key values are NULLs or the two zeros. */
  lemma MinedKeyMeetsIff(e: Expr, l: Row, r: Row, s: Row, pairs: seq<(string, string)>, w: World)
    requires FindJoinKey(Names(l), Names(r), pairs).Some?
    requires forall p :: p in pairs ==> p in EquiPairs(e)
    requires Passes(e, l + r + s, w) && Clear(e, Names(l + r + s))
    ensures var key := FindJoinKey(Names(l), Names(r), pairs).value;
            HashMatch(l, r, key.0, key.1) <==> !UnmetUnder(l, r, key.0, key.1)
  {
    var p, swapped := FoundKey(Names(l), Names(r), pairs);
    var full := l + r + s;
    Parts(l, r, s);
    var a, b := PairsImplied(e, p, full, w);
    if swapped {
      EquatedSwap(e, full, w, p, a, b);
      p, a, b := (p.1, p.0), b, a;
    }
    var i, j := FirstMatching(Names(l), p.0).value, FirstMatching(Names(r), p.1).value;
    FirstMatchIsKeyed(l, p.0, i);
    FirstMatchIsKeyed(r, p.1, j);
    EquatedRowsMeetIff(e, l, r, full, p, i, j, a, b, w);
  }

  // ---------------------------------------------------------------- the keys of a query

  /** The condition whose equalities the n-th relation is joined on. */
  function Condition(src: Source, where_: Option<Expr>): Option<Expr> {
    if src.Comma? then where_ else src.on
  }

  /** The key the n-th relation is joined on, if any; only headers and conditions decide it. */
  function KeyAt(all: seq<Source>, n: nat, where_: Option<Expr>, w: World): Option<(string, string)>
    requires n < |all|
  {
    FindJoinKey(Header(all[..n]), all[n].header, PairsOf(Condition(all[n], where_), w))
  }

  function Slice(row: Row, i: nat, j: nat): Row {
    if i <= j <= |row| then row[i..j] else []
  }

  function Width(all: seq<Source>, n: nat): nat
    requires n <= |all|
  {
    |Header(all[..n])|
  }

  /** The part of a joined row that comes from the first n relations. */
  function LeftPart(row: Row, all: seq<Source>, n: nat): Row
    requires n < |all|
  {
    Slice(row, 0, Width(all, n))
  }

  /** The part of a joined row that comes from the n-th relation. */
  function RightPart(row: Row, all: seq<Source>, n: nat): Row
    requires n < |all|
  {
    Slice(row, Width(all, n), Width(all, n + 1))
  }

  predicate KeyMeets(key: Option<(string, string)>, l: Row, r: Row) {
    key.Some? ==> HashMatch(l, r, key.value.0, key.value.1)
  }

  predicate MeetsAt(row: Row, all: seq<Source>, k: nat, where_: Option<Expr>, w: World)
    requires k < |all|
  {
    KeyMeets(KeyAt(all, k, where_, w), LeftPart(row, all, k), RightPart(row, all, k))
  }

  /** The parts of the row from the first n relations meet under every key those are joined on. */
  ghost predicate Meets(row: Row, all: seq<Source>, n: nat, where_: Option<Expr>, w: World)
    requires n <= |all|
  {
    forall k :: 0 < k < n ==> MeetsAt(row, all, k, where_, w)
  }

  predicate LostAt(row: Row, all: seq<Source>, k: nat, where_: Option<Expr>, w: World)
    requires k < |all|
  {
    var key := KeyAt(all, k, where_, w);
    key.Some? && UnmetUnder(LeftPart(row, all, k), RightPart(row, all, k), key.value.0, key.value.1)
  }

  /** Under some key that the query joins on, the row has two NULLs or the two zeros. */
  ghost predicate Lost(row: Row, all: seq<Source>, where_: Option<Expr>, w: World) {
    exists k :: 0 < k < |all| && LostAt(row, all, k, where_, w)
  }

  lemma {:induction false} WidthGrows(all: seq<Source>, i: nat, j: nat)
    requires i <= j <= |all|
    ensures Width(all, i) <= Width(all, j)
    decreases j
  {
    if i < j {
      WidthGrows(all, i, j - 1);
      HeaderNext(all, j - 1);
    }
  }

  lemma NamesWidth(row: Row, header: seq<string>)
    requires Names(row) == header
    ensures |row| == |header|
  {
  }

  lemma PartsOfLonger(all: seq<Source>, n: nat, k: nat, l: Row, r: Row)
    requires 0 < k < n < |all| && Names(l) == Header(all[..n])
    ensures LeftPart(l + r, all, k) == LeftPart(l, all, k) && RightPart(l + r, all, k) == RightPart(l, all, k)
  {
    NamesWidth(l, Header(all[..n]));
    WidthGrows(all, k, k + 1);
    WidthGrows(all, k + 1, n);
  }

  lemma PartsOfJoined(all: seq<Source>, n: nat, l: Row, r: Row, s: Row)
    requires 0 < n < |all| && Names(l) == Header(all[..n]) && Names(r) == all[n].header
    ensures LeftPart(l + r + s, all, n) == l && RightPart(l + r + s, all, n) == r
  {
    NamesWidth(l, Header(all[..n]));
    NamesWidth(r, all[n].header);
    HeaderNext(all, n);
  }

  lemma MeetsLonger(all: seq<Source>, n: nat, l: Row, r: Row, where_: Option<Expr>, w: World)
    requires 0 < n < |all| && Names(l) == Header(all[..n])
    ensures Meets(l + r, all, n, where_, w) <==> Meets(l, all, n, where_, w)
  {
    forall k | 0 < k < n
      ensures MeetsAt(l + r, all, k, where_, w) <==> MeetsAt(l, all, k, where_, w)
    {
      PartsOfLonger(all, n, k, l, r);
    }
  }

  lemma MeetsOneMore(row: Row, all: seq<Source>, n: nat, where_: Option<Expr>, w: World)
    requires 0 < n < |all|
    ensures Meets(row, all, n + 1, where_, w) <==>
              Meets(row, all, n, where_, w) && MeetsAt(row, all, n, where_, w)
  {
  }

  lemma MeetsAtJoined(all: seq<Source>, n: nat, l: Row, r: Row, where_: Option<Expr>, w: World)
    requires 0 < n < |all| && Names(l) == Header(all[..n]) && Names(r) == all[n].header
    ensures MeetsAt(l + r, all, n, where_, w) <==> KeyMeets(KeyAt(all, n, where_, w), l, r)
  {
    assert l + r + [] == l + r;
    PartsOfJoined(all, n, l, r, []);
  }

  lemma MeetsNext(all: seq<Source>, n: nat, l: Row, r: Row, where_: Option<Expr>, w: World)
    requires 0 < n < |all| && Names(l) == Header(all[..n]) && Names(r) == all[n].header
    ensures Meets(l + r, all, n + 1, where_, w) <==>
              Meets(l, all, n, where_, w) && KeyMeets(KeyAt(all, n, where_, w), l, r)
  {
    MeetsLonger(all, n, l, r, where_, w);
    MeetsAtJoined(all, n, l, r, where_, w);
    MeetsOneMore(l + r, all, n, where_, w);
  }

  // ---------------------------------------------------------------- the pipeline

  ghost predicate AllNamed(rows: seq<Row>, header: seq<string>) {
    forall r :: r in rows ==> Names(r) == header
  }

  /** Joining thinned inputs by `Extend` thins the product, when every row to be kept meets
      under the key; and it yields only rows that meet. */
  lemma ExtendThins(
      left: seq<Row>, left': seq<Row>, right: seq<Row>, right': seq<Row>,
      hl: seq<string>, hr: seq<string>, pairs: seq<(string, string)>,
      mustL: Row -> bool, mustR: Row -> bool, must: Row -> bool)
    requires Thins(left, left', mustL) && Thins(right, right', mustR)
    requires AllNamed(left', hl) && AllNamed(right', hr)
    requires forall l, r :: l in left' && r in right' && must(l + r) ==>
               mustL(l) && mustR(r) && KeyMeets(FindJoinKey(hl, hr, pairs), l, r)
    requires Extend(left, right, pairs).Some?
    ensures Thins(Extend(left, right, pairs).value, Cross(left', right'), must)
    ensures forall x :: x in Extend(left, right, pairs).value ==>
              exists l, r :: l in left && r in right' && x == l + r && KeyMeets(FindJoinKey(hl, hr, pairs), l, r)
  {
    var key := FindJoinKey(ColumnsOf(left), ColumnsOf(right), pairs);
    var keep := (l, r) => KeyMeets(key, l, r);
    ExtendIsJoin(left, right, pairs);
    if left != [] && right != [] {
      ThinsMember(left, left', mustL, left[0]);
      ThinsMember(right, right', mustR, right[0]);
    }
    forall l, r | l in left && r in right' && must(l + r)
      ensures keep(l, r)
    {
      ThinsMember(left, left', mustL, l);
      if right == [] {
        EmptySide(right, right', mustR, r);
      }
    }
    JoinThins(left, left', right, right', keep, mustL, mustR, must);
    forall x | x in Extend(left, right, pairs).value
      ensures exists l, r :: l in left && r in right' && x == l + r && KeyMeets(FindJoinKey(hl, hr, pairs), l, r)
    {
      var l, r := JoinMember(left, right, keep, x);
      ThinsMember(right, right', mustR, r);
    }
  }

  lemma ExtendIsJoin(left: seq<Row>, right: seq<Row>, pairs: seq<(string, string)>)
    requires Extend(left, right, pairs).Some?
    ensures var key := FindJoinKey(ColumnsOf(left), ColumnsOf(right), pairs);
            Extend(left, right, pairs).value == JoinBy(left, right, (l, r) => KeyMeets(key, l, r))
  {
    var key := FindJoinKey(ColumnsOf(left), ColumnsOf(right), pairs);
    var keep := (l, r) => KeyMeets(key, l, r);
    if key.None? {
      SameJoin(left, right, (l, r) => true, keep);
    } else {
      SameJoin(left, right, (l, r) => HashMatch(l, r, key.value.0, key.value.1), keep);
    }
  }

  lemma {:induction false} SameJoin(
      left: seq<Row>, right: seq<Row>, keep: (Row, Row) -> bool, keep': (Row, Row) -> bool)
    requires forall l, r :: keep(l, r) == keep'(l, r)
    ensures JoinBy(left, right, keep) == JoinBy(left, right, keep')
  {
    if left != [] {
      SameJoinRow(left[0], right, keep, keep');
      SameJoin(left[1..], right, keep, keep');
    }
  }

  lemma {:induction false} SameJoinRow(
      l: Row, right: seq<Row>, keep: (Row, Row) -> bool, keep': (Row, Row) -> bool)
    requires forall l, r :: keep(l, r) == keep'(l, r)
    ensures JoinRow(l, right, keep) == JoinRow(l, right, keep')
  {
    if right != [] {
      SameJoinRow(l, right[1..], keep, keep');
    }
  }

  lemma {:induction false} EmptySide(xs: seq<Row>, ys: seq<Row>, must: Row -> bool, y: Row)
    requires Thins(xs, ys, must) && xs == [] && y in ys
    ensures !must(y)
  {
    if y != ys[0] {
      EmptySide(xs, ys[1..], must, y);
    }
  }

  lemma CrossUnit(rows: seq<Row>)
    ensures Cross([[]], rows) == rows
  {
    var all := (l: Row, r: Row) => true;
    var unit: seq<Row> := [[]];
    assert unit[1..] == [];
    assert JoinBy(unit, rows, all) == JoinRow([], rows, all) + JoinBy([], rows, all);
    JoinRowUnit(rows, all);
  }

  lemma {:induction false} JoinRowUnit(rows: seq<Row>, keep: (Row, Row) -> bool)
    requires forall l, r :: keep(l, r)
    ensures JoinRow([], rows, keep) == rows
  {
    if rows != [] {
      JoinRowUnit(rows[1..], keep);
      assert [] + rows[0] == rows[0];
    }
  }

  lemma TailCons(t: Row, u: Row, sources: seq<Source>)
    requires sources != [] && t in sources[0].rows && IsTail(u, sources[1..])
    ensures IsTail(t + u, sources)
  {
  }

  lemma RowAssoc(l: Row, r: Row, s: Row)
    ensures l + (r + s) == l + r + s
  {
  }

  lemma ViableLeft(all: seq<Source>, n: nat, e: Expr, w: World, l: Row, r: Row, s: Row)
    requires n < |all| && r in all[n].rows && IsTail(s, all[n + 1..]) && Passes(e, l + r + s, w)
    ensures Viable(l, all[n..], Some(e), w)
  {
    assert all[n..][1..] == all[n + 1..] && all[n..][0] == all[n];
    TailCons(r, s, all[n..]);
    RowAssoc(l, r, s);
  }

  /** If a joined row is viable, so are its two parts. */
  lemma ViableParts(all: seq<Source>, n: nat, where_: Option<Expr>, w: World, l: Row, r: Row)
    requires WellFormed(all) && n < |all| && Names(l) == Header(all[..n]) && r in all[n].rows
    requires Viable(l + r, all[n + 1..], where_, w)
    ensures Viable(l, all[n..], where_, w) && Useful(r, all, n, where_, w)
    ensures where_.Some? ==> exists s :: Passes(where_.value, l + r + s, w) && Names(l + r + s) == Header(all)
  {
    if where_.Some? {
      var s :| IsTail(s, all[n + 1..]) && Passes(where_.value, l + r + s, w);
      ViableLeft(all, n, where_.value, w, l, r, s);
      FullNames(all, n, l, r, s);
    }
  }

  /** A partial row that the pipeline has to keep. */
  ghost predicate Needed(row: Row, all: seq<Source>, n: nat, where_: Option<Expr>, w: World)
    requires n <= |all|
  {
    Viable(row, all[n..], where_, w) && Meets(row, all, n, where_, w)
  }

  ghost predicate AllMeet(rows: seq<Row>, all: seq<Source>, n: nat, where_: Option<Expr>, w: World)
    requires n <= |all|
  {
    forall r :: r in rows ==> Meets(r, all, n, where_, w)
  }

  /** `left` is the product of the first n relations without some rows that are not needed, and
      all of its rows meet. */
  ghost predicate Trimmed(left: seq<Row>, all: seq<Source>, n: nat, where_: Option<Expr>, w: World)
    requires n <= |all|
  {
    && Thins(left, Product(all[..n], w), r => Needed(r, all, n, where_, w))
    && AllMeet(left, all, n, where_, w)
  }

  lemma ProductNamed(all: seq<Source>, n: nat, w: World)
    requires WellFormed(all) && n <= |all|
    ensures AllNamed(Product(all[..n], w), Header(all[..n]))
  {
    assert WellFormed(all[..n]);
    forall l | l in Product(all[..n], w)
      ensures Names(l) == Header(all[..n])
    {
      ProductRows(all[..n], w, l);
    }
  }

  /** What a needed joined row says about its parts. */
  lemma NeededParts(all: seq<Source>, n: nat, where_: Option<Expr>, w: World, l: Row, r: Row)
    requires WellFormed(all) && 0 < n < |all| && Names(l) == Header(all[..n]) && r in all[n].rows
    requires Needed(l + r, all, n + 1, where_, w)
    ensures Needed(l, all, n, where_, w) && Useful(r, all, n, where_, w)
    ensures KeyMeets(KeyAt(all, n, where_, w), l, r)
  {
    ViableParts(all, n, where_, w, l, r);
    MeetsNext(all, n, l, r, where_, w);
  }

  /** The relation joined on its key, before any ON is applied, is the trimmed product. */
  lemma ExtensionThins(all: seq<Source>, n: nat, left: seq<Row>, where_: Option<Expr>, w: World)
    requires Suitable(all, where_, w) && 0 < n < |all| && Trimmed(left, all, n, where_, w)
    requires Extend(left, PushDownIf(all[n].rows, where_, w), PairsOf(Condition(all[n], where_), w)).Some?
    ensures var joined := Extend(left, PushDownIf(all[n].rows, where_, w), PairsOf(Condition(all[n], where_), w)).value;
            && Thins(joined, Cross(Product(all[..n], w), all[n].rows), r => Needed(r, all, n + 1, where_, w))
            && AllMeet(joined, all, n + 1, where_, w)
  {
    var product, pairs := Product(all[..n], w), PairsOf(Condition(all[n], where_), w);
    var next := PushDownIf(all[n].rows, where_, w);
    PushDownKeepsUseful(all, n, where_, w);
    ProductNamed(all, n, w);
    forall l, r | l in product && r in all[n].rows && Needed(l + r, all, n + 1, where_, w)
      ensures Needed(l, all, n, where_, w) && Useful(r, all, n, where_, w) && KeyMeets(KeyAt(all, n, where_, w), l, r)
    {
      NeededParts(all, n, where_, w, l, r);
    }
    ExtendThins(left, product, next, all[n].rows, Header(all[..n]), all[n].header, pairs,
                r => Needed(r, all, n, where_, w), t => Useful(t, all, n, where_, w),
                r => Needed(r, all, n + 1, where_, w));
    forall x | x in Extend(left, next, pairs).value
      ensures Meets(x, all, n + 1, where_, w)
    {
      var l, r :| l in left && r in all[n].rows && x == l + r && KeyMeets(KeyAt(all, n, where_, w), l, r);
      ThinsMember(left, product, r => Needed(r, all, n, where_, w), l);
      MeetsNext(all, n, l, r, where_, w);
    }
  }

  lemma FilterIfKeepsThins(e: Option<Expr>, xs: seq<Row>, ys: seq<Row>, w: World, must: Row -> bool)
    requires Thins(xs, ys, must)
    ensures Thins(FilterIf(e, xs, w), FilterIf(e, ys, w), must)
    ensures forall x :: x in FilterIf(e, xs, w) ==> x in xs
  {
    if e.Some? {
      FilterKeepsThins(e.value, xs, ys, w, must);
      forall x | x in Filter(e.value, xs, w)
        ensures x in xs
      {
        FilterMember(e.value, xs, w, x);
      }
    }
  }

  lemma FirstThins(all: seq<Source>, where_: Option<Expr>, w: World)
    requires Suitable(all, where_, w) && 0 < |all|
    ensures Thins(PushDownIf(all[0].rows, where_, w), all[0].rows, r => Needed(r, all, 1, where_, w))
  {
    PushDownKeepsUseful(all, 0, where_, w);
    forall t | t in all[0].rows && Needed(t, all, 1, where_, w)
      ensures Useful(t, all, 0, where_, w)
    {
      assert [] + t == t;
      ViableParts(all, 0, where_, w, [], t);
    }
    ThinsWeaken(PushDownIf(all[0].rows, where_, w), all[0].rows, t => Useful(t, all, 0, where_, w),
                r => Needed(r, all, 1, where_, w));
  }

  /** One round of the FROM clause keeps the intermediate result a trimmed product. */
  lemma SourceTrims(all: seq<Source>, n: nat, left: seq<Row>, where_: Option<Expr>, w: World)
    requires Suitable(all, where_, w) && n < |all| && (n == 0 ==> left == [[]]) && Trimmed(left, all, n, where_, w)
    requires JoinSource(left, n == 0, all[n], where_, w).Some?
    ensures Trimmed(JoinSource(left, n == 0, all[n], where_, w).value, all, n + 1, where_, w)
  {
    ProductNext(all, w, n);
    if n == 0 {
      FirstThins(all, where_, w);
      CrossUnit(all[0].rows);
    } else {
      ExtensionThins(all, n, left, where_, w);
      if all[n].Inner? {
        var joined := Extend(left, PushDownIf(all[n].rows, where_, w), PairsOf(all[n].on, w)).value;
        FilterIfKeepsThins(all[n].on, joined, Cross(Product(all[..n], w), all[n].rows), w,
                           r => Needed(r, all, n + 1, where_, w));
      }
    }
  }

  lemma ProductNext(all: seq<Source>, w: World, n: nat)
    requires n < |all|
    ensures Product(all[..n + 1], w) == WithSource(Product(all[..n], w), all[n], w)
  {
    assert all[..n + 1][..n] == all[..n];
  }

  lemma {:induction false} ResolveTrims(all: seq<Source>, n: nat, left: seq<Row>, where_: Option<Expr>, w: World)
    requires Suitable(all, where_, w) && n <= |all| && (n == 0 ==> left == [[]]) && Trimmed(left, all, n, where_, w)
    requires ResolveRest(left, all, n, where_, w).Some?
    ensures Trimmed(ResolveRest(left, all, n, where_, w).value, all, |all|, where_, w)
    decreases |all| - n
  {
    if n < |all| {
      SourceTrims(all, n, left, where_, w);
      ResolveTrims(all, n + 1, JoinSource(left, n == 0, all[n], where_, w).value, where_, w);
    }
  }

  /** Push-down, hash joins and the final WHERE select, in order, the rows of the filtered
      product whose parts meet. */
  lemma PipelineKeepsMeeting(all: seq<Source>, where_: Option<Expr>, w: World)
    requires Suitable(all, where_, w) && SelectRows(all, where_, w).Some?
    ensures SelectRows(all, where_, w).value ==
              Pick(Meaning(all, where_, w), r => Meets(r, all, |all|, where_, w))
  {
    var n := |all|;
    assert all[..0] == [] && all[..n] == all && all[n..] == [];
    ThinsRefl([[]], r => Needed(r, all, 0, where_, w));
    ResolveTrims(all, 0, [[]], where_, w);
    var met, must := r => Meets(r, all, n, where_, w), r => Needed(r, all, n, where_, w);
    forall y | (where_.Some? ==> Passes(where_.value, y, w)) && met(y)
      ensures must(y)
    {
      assert y + [] == y && IsTail([], []);
    }
    ThinsThenFilter(where_, Resolve(all, where_, w).value, Product(all, w), w, must, met);
  }

  // ---------------------------------------------------------------- which rows meet

  /** `l` and `r` are the row's parts from before and from the k-th relation, whose ON they pass. */
  ghost predicate Splits(all: seq<Source>, k: nat, w: World, row: Row, l: Row, r: Row, s: Row)
    requires k < |all|
  {
    && Names(l) == Header(all[..k]) && r in all[k].rows && row == l + r + s
    && (all[k].Inner? && all[k].on.Some? ==> Passes(all[k].on.value, l + r, w))
  }

  lemma {:induction false} RowSplits(all: seq<Source>, n: nat, k: nat, w: World, row: Row)
    returns (l: Row, r: Row, s: Row)
    requires WellFormed(all) && 0 < k < n <= |all| && row in Product(all[..n], w)
    ensures Splits(all, k, w, row, l, r, s)
    decreases n
  {
    var pre, last := ProductMember(all[..n], w, row);
    assert all[..n][..n - 1] == all[..n - 1] && all[..n][n - 1] == all[n - 1];
    if k == n - 1 {
      ProductNamed(all, k, w);
      l, r, s := pre, last, [];
      assert row == pre + last + [];
    } else {
      l, r, s := RowSplits(all, n - 1, k, w, pre);
      SplitLonger(all, k, w, pre, l, r, s, last);
      s := s + last;
    }
  }

  lemma SplitLonger(all: seq<Source>, k: nat, w: World, row: Row, l: Row, r: Row, s: Row, last: Row)
    requires k < |all| && Splits(all, k, w, row, l, r, s)
    ensures Splits(all, k, w, row + last, l, r, s + last)
  {
    assert row + last == l + r + (s + last);
  }

  lemma MeaningMember(all: seq<Source>, where_: Option<Expr>, w: World, row: Row)
    requires row in Meaning(all, where_, w)
    ensures row in Product(all, w) && (where_.Some? ==> Passes(where_.value, row, w))
  {
    if where_.Some? {
      FilterMember(where_.value, Product(all, w), w, row);
    }
  }

  lemma MeetsAtIff(all: seq<Source>, k: nat, where_: Option<Expr>, w: World, row: Row)
    requires Suitable(all, where_, w) && 0 < k < |all| && row in Meaning(all, where_, w)
    ensures MeetsAt(row, all, k, where_, w) <==> !LostAt(row, all, k, where_, w)
  {
    MeaningMember(all, where_, w, row);
    assert all[..|all|] == all;
    ProductNamed(all, |all|, w);
    var l, r, s := RowSplits(all, |all|, k, w, row);
    PartsOfJoined(all, k, l, r, s);
    if KeyAt(all, k, where_, w).Some? {
      KeyPartsMeetIff(all, k, where_, w, l, r, s);
    }
  }

  lemma KeyPartsMeetIff(all: seq<Source>, k: nat, where_: Option<Expr>, w: World, l: Row, r: Row, s: Row)
    requires Suitable(all, where_, w) && 0 < k < |all| && KeyAt(all, k, where_, w).Some?
    requires Names(l) == Header(all[..k]) && r in all[k].rows && Names(l + r + s) == Header(all)
    requires where_.Some? ==> Passes(where_.value, l + r + s, w)
    requires all[k].Inner? && all[k].on.Some? ==> Passes(all[k].on.value, l + r, w)
    ensures var key := KeyAt(all, k, where_, w).value;
            HashMatch(l, r, key.0, key.1) <==> !UnmetUnder(l, r, key.0, key.1)
  {
    var e := Condition(all[k], where_);
    var pairs := PairsOf(e, w);
    assert e.Some?;
    if all[k].Comma? {
      MinedKeyMeetsIff(e.value, l, r, s, pairs, w);
    } else {
      assert l + r + [] == l + r;
      NamesConcat(l, r);
      HeaderNext(all, k);
      MinedKeyMeetsIff(e.value, l, r, [], pairs, w);
    }
  }

  lemma MeetsIff(all: seq<Source>, where_: Option<Expr>, w: World, row: Row)
    requires Suitable(all, where_, w) && row in Meaning(all, where_, w)
    ensures Meets(row, all, |all|, where_, w) <==> !Lost(row, all, where_, w)
  {
    forall k | 0 < k < |all|
      ensures MeetsAt(row, all, k, where_, w) <==> !LostAt(row, all, k, where_, w)
    {
      MeetsAtIff(all, k, where_, w, row);
    }
  }

  lemma {:induction false} PickSame(rows: seq<Row>, keep: Row -> bool, keep': Row -> bool)
    requires forall r :: r in rows ==> keep(r) == keep'(r)
    ensures Pick(rows, keep) == Pick(rows, keep')
  {
    if rows != [] {
      PickSame(rows[1..], keep, keep');
    }
  }

  /** Whenever no row budget is exceeded, push-down, hash joins and the final WHERE give the
      filtered Cartesian product, in its order, without exactly the rows that have two NULLs or
      the two zeros under a key the query joins on. */
  lemma PipelineMeansProductWithoutLost(all: seq<Source>, where_: Option<Expr>, w: World)
    requires Suitable(all, where_, w) && SelectRows(all, where_, w).Some?
    ensures SelectRows(all, where_, w).value == Pick(Meaning(all, where_, w), r => !Lost(r, all, where_, w))
  {
    PipelineKeepsMeeting(all, where_, w);
    forall r | r in Meaning(all, where_, w)
      ensures Meets(r, all, |all|, where_, w) == !Lost(r, all, where_, w)
    {
      MeetsIff(all, where_, w, r);
    }
    PickSame(Meaning(all, where_, w), r => Meets(r, all, |all|, where_, w), r => !Lost(r, all, where_, w));
  }

  lemma {:induction false} PickAllIff(rows: seq<Row>, keep: Row -> bool)
    ensures |Pick(rows, keep)| <= |rows|
    ensures Pick(rows, keep) == rows <==> forall r :: r in rows ==> keep(r)
  {
    if rows != [] {
      PickAllIff(rows[1..], keep);
      if keep(rows[0]) {
        assert rows == [rows[0]] + rows[1..];
        assert Pick(rows, keep)[1..] == Pick(rows[1..], keep);
      } else {
        assert |Pick(rows, keep)| < |rows|;
      }
    }
  }

  /** So the pipeline means the filtered Cartesian product exactly when no row of it is lost. */
  lemma PipelineMeansFilteredProductIff(all: seq<Source>, where_: Option<Expr>, w: World)
    requires Suitable(all, where_, w) && SelectRows(all, where_, w).Some?
    ensures SelectRows(all, where_, w).value == Meaning(all, where_, w) <==>
              forall r :: r in Meaning(all, where_, w) ==> !Lost(r, all, where_, w)
  {
    PipelineMeansProductWithoutLost(all, where_, w);
    PickAllIff(Meaning(all, where_, w), r => !Lost(r, all, where_, w));
  }
}
