/** When the executor's joins lose rows of the filtered product, said of the stored tables. */
module JoinLoss {
  import opened Base
  import opened Sql
  import opened JoinPlan

  // ---------------------------------------------------------------- tables whose keys meet

  /** The pair of references names the two columns, in either order. */
  predicate PairNames(p: (string, string), a: string, b: string) {
    (ColMatches(p.0, a) && ColMatches(p.1, b)) || (ColMatches(p.1, a) && ColMatches(p.0, b))
  }

  /** No mined pair finds two NULLs, or the two zeros, in an earlier relation and the k-th. */
  ghost predicate KeysMeet(all: seq<Source>, k: nat, where_: Option<Expr>)
    requires k < |all|
  {
    var e := Condition(all[k], where_);
    e.Some? ==>
      forall p, i, t, u, c, d ::
        && p in EquiPairs(e.value) && 0 <= i < k && t in all[i].rows && u in all[k].rows
        && c in t && d in u && PairNames(p, c.name, d.name)
        ==> !Unmet(c.value, d.value)
  }

  /** Every cell of a joined row is a cell of a stored row. */
  lemma {:induction false} CellOrigin(all: seq<Source>, n: nat, w: World, row: Row, c: Cell) returns (i: nat, t: Row)
    requires n <= |all| && row in Product(all[..n], w) && c in row
    ensures i < n && t in all[i].rows && c in t
  {
    if n > 0 {
      var l, r := ProductMember(all[..n], w, row);
      assert all[..n][..n - 1] == all[..n - 1] && all[..n][n - 1] == all[n - 1];
      if c in l {
        i, t := CellOrigin(all, n - 1, w, l, c);
      } else {
        i, t := n - 1, r;
      }
    }
  }

  /** The left part of a joined row is itself a row of the product so far. */
  lemma {:induction false} LeftPartJoined(all: seq<Source>, n: nat, k: nat, w: World, row: Row)
    requires WellFormed(all) && 0 < k < n <= |all| && row in Product(all[..n], w)
    ensures LeftPart(row, all, k) in Product(all[..k], w) && RightPart(row, all, k) in all[k].rows
    decreases n
  {
    var l, r := ProductMember(all[..n], w, row);
    assert all[..n][..n - 1] == all[..n - 1] && all[..n][n - 1] == all[n - 1];
    ProductNamed(all, n - 1, w);
    if k == n - 1 {
      assert l + r + [] == l + r;
      PartsOfJoined(all, k, l, r, []);
    } else {
      PartsOfLonger(all, n - 1, k, l, r);
      LeftPartJoined(all, n - 1, k, w, l);
    }
  }

  /** The cells under the key a query joins on are cells that one of its mined pairs names. */
  lemma KeyCells(l: Row, r: Row, pairs: seq<(string, string)>) returns (p: (string, string), c: Cell, d: Cell)
    requires FindJoinKey(Names(l), Names(r), pairs).Some?
    ensures p in pairs && c in l && d in r && PairNames(p, c.name, d.name)
    ensures var key := FindJoinKey(Names(l), Names(r), pairs).value;
            RowGet(l, key.0) == Some(c.value) && RowGet(r, key.1) == Some(d.value)
  {
    var swapped: bool;
    p, swapped := FoundKey(Names(l), Names(r), pairs);
    var q := if swapped then (p.1, p.0) else p;
    var i, j := FirstMatching(Names(l), q.0).value, FirstMatching(Names(r), q.1).value;
    FirstMatchIsKeyed(l, q.0, i);
    FirstMatchIsKeyed(r, q.1, j);
    c, d := l[i], r[j];
  }

  lemma MeetingKeysLoseNothingAt(all: seq<Source>, k: nat, where_: Option<Expr>, w: World, row: Row)
    requires Suitable(all, where_, w) && 0 < k < |all| && KeysMeet(all, k, where_) && row in Product(all, w)
    ensures !LostAt(row, all, k, where_, w)
  {
    var l, r, e := LeftPart(row, all, k), RightPart(row, all, k), Condition(all[k], where_);
    assert all[..|all|] == all;
    LeftPartJoined(all, |all|, k, w, row);
    ProductNamed(all, k, w);
    if KeyAt(all, k, where_, w).Some? {
      assert e.Some?;
      var p, c, d := KeyCells(l, r, PairsOf(e, w));
      var i, t := CellOrigin(all, k, w, l, c);
      assert p in EquiPairs(e.value) && t in all[i].rows && r in all[k].rows && c in t && d in r;
    }
  }

  /** If no relation holds, under a pair its condition equates, two NULLs or the two zeros against
      an earlier relation, the executor returns the filtered Cartesian product. NULL on one side
      only, and NULL in any other column, does no harm. */
  lemma MeetingKeysSuffice(all: seq<Source>, where_: Option<Expr>, w: World)
    requires Suitable(all, where_, w) && SelectRows(all, where_, w).Some?
    requires forall k :: 0 < k < |all| ==> KeysMeet(all, k, where_)
    ensures SelectRows(all, where_, w).value == Meaning(all, where_, w)
  {
    forall row | row in Meaning(all, where_, w)
      ensures !Lost(row, all, where_, w)
    {
      MeaningMember(all, where_, w, row);
      forall k | 0 < k < |all|
        ensures !LostAt(row, all, k, where_, w)
      {
        MeetingKeysLoseNothingAt(all, k, where_, w, row);
      }
    }
    PipelineMeansFilteredProductIff(all, where_, w);
  }

  // ---------------------------------------------------------------- two tables

  /** A comma join, or an INNER JOIN with or without ON. */
  ghost predicate TwoTables(all: seq<Source>) {
    |all| == 2 && all[0].Comma?
  }

  predicate PassesIf(e: Option<Expr>, row: Row, w: World) {
    e.Some? ==> Passes(e.value, row, w)
  }

  function OnOf(src: Source): Option<Expr> {
    if src.Inner? then src.on else None
  }

  lemma {:induction false} JoinHas(left: seq<Row>, right: seq<Row>, keep: (Row, Row) -> bool, l: Row, r: Row)
    requires l in left && r in right && keep(l, r)
    ensures l + r in JoinBy(left, right, keep)
  {
    if l == left[0] {
      JoinRowHas(l, right, keep, r);
    } else {
      JoinHas(left[1..], right, keep, l, r);
    }
  }

  lemma {:induction false} JoinRowHas(l: Row, right: seq<Row>, keep: (Row, Row) -> bool, r: Row)
    requires r in right && keep(l, r)
    ensures l + r in JoinRow(l, right, keep)
  {
    if r != right[0] {
      JoinRowHas(l, right[1..], keep, r);
    }
  }

  lemma {:induction false} FilterHas(e: Expr, rows: seq<Row>, w: World, row: Row)
    requires row in rows && Passes(e, row, w)
    ensures row in Filter(e, rows, w)
  {
    if row != rows[0] {
      FilterHas(e, rows[1..], w, row);
    }
  }

  lemma FilterIfHasIff(e: Option<Expr>, rows: seq<Row>, w: World, row: Row)
    ensures row in FilterIf(e, rows, w) <==> row in rows && PassesIf(e, row, w)
  {
    if e.Some? {
      if row in Filter(e.value, rows, w) {
        FilterMember(e.value, rows, w, row);
      } else if row in rows && Passes(e.value, row, w) {
        FilterHas(e.value, rows, w, row);
      }
    }
  }

  lemma TwoTableProduct(all: seq<Source>, w: World)
    requires TwoTables(all)
    ensures Product(all, w) == FilterIf(OnOf(all[1]), Cross(all[0].rows, all[1].rows), w)
  {
    assert all[..1][..0] == [] && all[..1][0] == all[0];
    CrossUnit(all[0].rows);
    assert Product(all[..1], w) == all[0].rows;
  }

  /** A pair of stored rows passes ON and WHERE with two NULLs, or the two zeros, as its key. */
  ghost predicate UnmetPair(all: seq<Source>, where_: Option<Expr>, w: World, l: Row, r: Row)
    requires TwoTables(all)
  {
    var key := KeyAt(all, 1, where_, w);
    && l in all[0].rows && r in all[1].rows && PassesIf(OnOf(all[1]), l + r, w) && PassesIf(where_, l + r, w)
    && key.Some? && UnmetUnder(l, r, key.value.0, key.value.1)
  }

  lemma TwoTableHeaders(all: seq<Source>)
    requires TwoTables(all)
    ensures Header(all[..1]) == all[0].header && Header(all) == all[0].header + all[1].header
  {
    assert all[..1][..0] == [] && all[..1][0] == all[0];
    assert Header(all[..1]) == [] + all[0].header;
  }

  lemma TwoTableParts(all: seq<Source>, l: Row, r: Row)
    requires TwoTables(all) && WellFormed(all) && l in all[0].rows && r in all[1].rows
    ensures LeftPart(l + r, all, 1) == l && RightPart(l + r, all, 1) == r
  {
    TwoTableHeaders(all);
    assert l + r + [] == l + r;
    PartsOfJoined(all, 1, l, r, []);
  }

  lemma LostIsUnmet(all: seq<Source>, where_: Option<Expr>, w: World, row: Row) returns (l: Row, r: Row)
    requires TwoTables(all) && Suitable(all, where_, w)
    requires row in Meaning(all, where_, w) && Lost(row, all, where_, w)
    ensures UnmetPair(all, where_, w, l, r)
  {
    TwoTableProduct(all, w);
    FilterIfHasIff(where_, Product(all, w), w, row);
    FilterIfHasIff(OnOf(all[1]), Cross(all[0].rows, all[1].rows), w, row);
    l, r := JoinMember(all[0].rows, all[1].rows, (l: Row, r: Row) => true, row);
    TwoTableParts(all, l, r);
    assert LostAt(row, all, 1, where_, w);
  }

  lemma UnmetIsLost(all: seq<Source>, where_: Option<Expr>, w: World, l: Row, r: Row)
    requires TwoTables(all) && Suitable(all, where_, w) && UnmetPair(all, where_, w, l, r)
    ensures l + r in Meaning(all, where_, w) && Lost(l + r, all, where_, w)
  {
    TwoTableProduct(all, w);
    JoinHas(all[0].rows, all[1].rows, (l: Row, r: Row) => true, l, r);
    FilterIfHasIff(OnOf(all[1]), Cross(all[0].rows, all[1].rows), w, l + r);
    FilterIfHasIff(where_, Product(all, w), w, l + r);
    TwoTableParts(all, l, r);
    assert LostAt(l + r, all, 1, where_, w);
  }

  /** Two tables, joined by a comma or by INNER JOIN, and any ON and WHERE: the executor returns
      the filtered product exactly when no pair of stored rows that passes them has two NULLs or
      the two zeros under the key, mined from WHERE or from ON. */
  lemma TwoTablesIff(all: seq<Source>, where_: Option<Expr>, w: World)
    requires TwoTables(all) && Suitable(all, where_, w) && SelectRows(all, where_, w).Some?
    ensures SelectRows(all, where_, w).value == Meaning(all, where_, w) <==>
              !exists l, r :: UnmetPair(all, where_, w, l, r)
  {
    if row :| row in Meaning(all, where_, w) && Lost(row, all, where_, w) {
      var l, r := LostIsUnmet(all, where_, w, row);
    }
    if l, r :| UnmetPair(all, where_, w, l, r) {
      UnmetIsLost(all, where_, w, l, r);
    }
    PipelineMeansFilteredProductIff(all, where_, w);
  }

  lemma RefsOnCells(e: Expr, x: Expr, y: Expr, l: Row, r: Row, full: Row, i: nat, j: nat, w: World)
    requires x in Refs(e) && y in Refs(e) && ColRef(x).Some? && ColRef(y).Some? && Clear(e, Names(full))
    requires IsPart(l, full, 0) && IsPart(r, full, |l|)
    requires i < |l| && ColMatches(ColRef(x).value, l[i].name) && j < |r| && ColMatches(ColRef(y).value, r[j].name)
    ensures Eval(x, full, w) == Some(l[i].value) && Eval(y, full, w) == Some(r[j].value)
  {
    KeyIsCell(e, x, l, full, 0, i, w);
    KeyIsCell(e, y, r, full, |l|, j, w);
  }

  lemma PartsOfTwo(l: Row, r: Row)
    ensures IsPart(l, l + r, 0) && IsPart(r, l + r, |l|)
  {
  }

  lemma RefsOfEq(x: Expr, y: Expr)
    requires ColRef(x).Some? && ColRef(y).Some?
    ensures x in Refs(Eq(x, y)) && y in Refs(Eq(x, y))
  {
  }

  lemma EqEvaluates(x: Expr, y: Expr, row: Row, w: World)
    ensures Eval(Eq(x, y), row, w) == EqOutcome(Eval(x, row, w), Eval(y, row, w))
  {
  }

  lemma EqualOutcomes(a: Scalar, b: Scalar)
    requires Equal(a, b)
    ensures EqOutcome(Some(a), Some(b)) == EqOutcome(Some(b), Some(a)) == Some(Bool(true))
  {
  }

  lemma TruePasses(e: Expr, row: Row, w: World)
    requires Eval(e, row, w) == Some(Bool(true))
    ensures Passes(e, row, w)
  {
  }

  lemma CellsOfPair(x: Expr, y: Expr, l: Row, r: Row, full: Row, i: nat, j: nat, w: World)
    requires ColRef(x).Some? && ColRef(y).Some? && Clear(Eq(x, y), Names(full)) && i < |l| && j < |r|
    requires IsPart(l, full, 0) && IsPart(r, full, |l|)
    requires PairNames((ColRef(x).value, ColRef(y).value), l[i].name, r[j].name)
    ensures || (Eval(x, full, w) == Some(l[i].value) && Eval(y, full, w) == Some(r[j].value))
            || (Eval(x, full, w) == Some(r[j].value) && Eval(y, full, w) == Some(l[i].value))
  {
    RefsOfEq(x, y);
    if ColMatches(ColRef(x).value, l[i].name) && ColMatches(ColRef(y).value, r[j].name) {
      RefsOnCells(Eq(x, y), x, y, l, r, full, i, j, w);
    } else {
      RefsOnCells(Eq(x, y), y, x, l, r, full, i, j, w);
    }
  }

  lemma UnmetPasses(x: Expr, y: Expr, l: Row, r: Row, full: Row, pairs: seq<(string, string)>, w: World)
    requires FindJoinKey(Names(l), Names(r), pairs).Some? && Clear(Eq(x, y), Names(full))
    requires IsPart(l, full, 0) && IsPart(r, full, |l|)
    requires forall p :: p in pairs ==> p in EquiPairs(Eq(x, y))
    requires var key := FindJoinKey(Names(l), Names(r), pairs).value; UnmetUnder(l, r, key.0, key.1)
    ensures Passes(Eq(x, y), full, w)
  {
    var p, c, d := KeyCells(l, r, pairs);
    assert p == (ColRef(x).value, ColRef(y).value);
    var i :| 0 <= i < |l| && l[i] == c;
    var j :| 0 <= j < |r| && r[j] == d;
    CellsOfPair(x, y, l, r, full, i, j, w);
    EqEvaluates(x, y, full, w);
    EqualOutcomes(l[i].value, r[j].value);
    TruePasses(Eq(x, y), full, w);
  }

  lemma ConditionIsClear(all: seq<Source>, where_: Option<Expr>, e: Expr, w: World)
    requires TwoTables(all) && Suitable(all, where_, w) && Condition(all[1], where_) == Some(e)
    ensures Clear(e, all[0].header + all[1].header)
  {
    TwoTableHeaders(all);
    assert all[..2] == all;
  }

  lemma UnmetRowsPass(all: seq<Source>, where_: Option<Expr>, x: Expr, y: Expr, w: World, l: Row, r: Row)
    requires TwoTables(all) && Suitable(all, where_, w) && l in all[0].rows && r in all[1].rows
    requires Condition(all[1], where_) == Some(Eq(x, y)) && KeyAt(all, 1, where_, w).Some?
    requires var key := KeyAt(all, 1, where_, w).value; UnmetUnder(l, r, key.0, key.1)
    ensures Passes(Eq(x, y), l + r, w)
  {
    TwoTableHeaders(all);
    ConditionIsClear(all, where_, Eq(x, y), w);
    NamesConcat(l, r);
    PartsOfTwo(l, r);
    UnmetPasses(x, y, l, r, l + r, PairsOf(Some(Eq(x, y)), w), w);
  }

  /** Two tables joined on one equality, in WHERE or in ON, and no further condition: the executor
      returns the filtered product exactly when no stored key value is NULL in both tables, or one
      zero here and the other zero there. */
  lemma EquiJoinIff(all: seq<Source>, where_: Option<Expr>, x: Expr, y: Expr, w: World)
    requires TwoTables(all) && Suitable(all, where_, w) && SelectRows(all, where_, w).Some?
    requires Condition(all[1], where_) == Some(Eq(x, y)) && (all[1].Inner? ==> where_.None?)
    requires KeyAt(all, 1, where_, w).Some?
    ensures var key := KeyAt(all, 1, where_, w).value;
            SelectRows(all, where_, w).value == Meaning(all, where_, w) <==>
              !exists l, r :: l in all[0].rows && r in all[1].rows && UnmetUnder(l, r, key.0, key.1)
  {
    var key := KeyAt(all, 1, where_, w).value;
    TwoTablesIff(all, where_, w);
    forall l, r | l in all[0].rows && r in all[1].rows && UnmetUnder(l, r, key.0, key.1)
      ensures UnmetPair(all, where_, w, l, r)
    {
      UnmetRowsPass(all, where_, x, y, w, l, r);
    }
  }

  // ---------------------------------------------------------------- a smallest instance

  /** A reference written in lower case satisfies the second half of `Clear` for every header. */
  lemma LowerCaseIsClear(name: string, column: string)
    requires Lower(name) == name && ColMatches(ColRef(Ident(name)).value, column)
    ensures Loose(name, column)
  {
  }

  /** The smallest join: tables `a` and `b` with one column and one row each, on a.x = b.y. */
  function TwoRows(v: Scalar, u: Scalar): seq<Source> {
    [Comma(["a.x"], [[Cell("a.x", v)]]), Comma(["b.y"], [[Cell("b.y", u)]])]
  }

  const ON_KEYS := Eq(Ident("a.x"), Ident("b.y"))

  lemma CellFound(name: string, v: Scalar)
    ensures RowGet([Cell(name, v)], name) == Some(v)
  {
    assert Names([Cell(name, v)])[0] == name;
    assert FirstExact(Names([Cell(name, v)]), name) == Some(0);
  }

  /** Keys that are equal but do not meet in the hash index (two NULLs, or the two zeros)
      lose the row that filtering the product keeps. */
  lemma UnmetKeysLoseRow(v: Scalar, u: Scalar, w: World)
    requires Equal(v, u) && (HashKeyOf(v) != HashKeyOf(u) || u.Null?)
    requires w.listing({("a.x", "b.y")}) == [("a.x", "b.y")]
    ensures Meaning(TwoRows(v, u), Some(ON_KEYS), w) == [[Cell("a.x", v), Cell("b.y", u)]]
    ensures SelectRows(TwoRows(v, u), Some(ON_KEYS), w) == Some([])
  {
    var s, l, r := TwoRows(v, u), [Cell("a.x", v)], [Cell("b.y", u)];
    ProductOfTwo(s, l, r, w);
    JoinedRowPasses(v, u, w);
    FilterOne(ON_KEYS, l + r, w);
    assert l + r == [Cell("a.x", v), Cell("b.y", u)];
    ResolvedToNothing(s, l, r, v, u, w);
  }

  lemma FilterOne(e: Expr, row: Row, w: World)
    requires Passes(e, row, w)
    ensures Filter(e, [row], w) == [row]
  {
    PickOne(row, Passing(e, w));
  }

  lemma ProductOfTwo(s: seq<Source>, l: Row, r: Row, w: World)
    requires |s| == 2 && s[0].Comma? && s[1].Comma? && s[0].rows == [l] && s[1].rows == [r]
    ensures Product(s, w) == [l + r]
  {
    assert s[..1][..0] == [] && s[..1][0] == s[0];
    CrossUnit([l]);
    assert Product(s[..1], w) == [l];
    OneByOne(l, r, (l, r) => true);
  }

  lemma OneByOne(l: Row, r: Row, keep: (Row, Row) -> bool)
    ensures JoinBy([l], [r], keep) == if keep(l, r) then [l + r] else []
  {
    assert [l][1..] == [] && [r][1..] == [];
    assert JoinRow(l, [r], keep) == if keep(l, r) then [l + r] else [];
  }

  lemma JoinedRowPasses(v: Scalar, u: Scalar, w: World)
    requires Equal(v, u)
    ensures Passes(ON_KEYS, [Cell("a.x", v)] + [Cell("b.y", u)], w)
  {
    var row := [Cell("a.x", v)] + [Cell("b.y", u)];
    assert Names(row) == ["a.x", "b.y"];
    FirstExactAt(["a.x", "b.y"], 0);
    FirstExactAt(["a.x", "b.y"], 1);
    assert Eval(Ident("a.x"), row, w) == Some(v) && Eval(Ident("b.y"), row, w) == Some(u);
  }

  lemma NotPushed(row: Row, w: World)
    requires Names(row) == ["a.x"] || Names(row) == ["b.y"]
    ensures PushDownIf([row], Some(ON_KEYS), w) == [row]
  {
    assert Lower("a.x")[0] == 'a' && Lower("b.y")[0] == 'b';
    assert Lookup(["b.y"], "a.x").None? && Lookup(["a.x"], "b.y").None?;
    assert !RefsOnly(ON_KEYS, Names(row));
    assert Conjuncts(ON_KEYS) == [ON_KEYS];
    assert [ON_KEYS][1..] == [];
    assert PushDown([row], [ON_KEYS], w) == PushDown([row], [], w);
  }

  lemma MinedKey()
    ensures EquiPairs(ON_KEYS) == {("a.x", "b.y")}
    ensures FindJoinKey(["a.x"], ["b.y"], [("a.x", "b.y")]) == Some(("a.x", "b.y"))
  {
    assert Lower("a.x") == "a.x" && Lower("b.y") == "b.y";
    assert FirstMatching(["a.x"], "a.x") == Some(0) && FirstMatching(["b.y"], "b.y") == Some(0);
  }

  lemma NoMatch(l: Row, r: Row, v: Scalar, u: Scalar)
    requires l == [Cell("a.x", v)] && r == [Cell("b.y", u)] && (HashKeyOf(v) != HashKeyOf(u) || u.Null?)
    ensures HashJoin([l], [r], "a.x", "b.y") == []
  {
    CellFound("a.x", v);
    CellFound("b.y", u);
    OneByOne(l, r, (l, r) => HashMatch(l, r, "a.x", "b.y"));
  }

  lemma ResolvedToNothing(s: seq<Source>, l: Row, r: Row, v: Scalar, u: Scalar, w: World)
    requires s == TwoRows(v, u) && l == [Cell("a.x", v)] && r == [Cell("b.y", u)]
    requires HashKeyOf(v) != HashKeyOf(u) || u.Null?
    requires w.listing({("a.x", "b.y")}) == [("a.x", "b.y")]
    ensures Resolve(s, Some(ON_KEYS), w) == Some([])
  {
    assert Names(l) == ["a.x"] && Names(r) == ["b.y"];
    NotPushed(l, w);
    NotPushed(r, w);
    assert JoinSource([[]], true, s[0], Some(ON_KEYS), w) == Some([l]);
    MinedKey();
    NoMatch(l, r, v, u);
    assert JoinSource([l], false, s[1], Some(ON_KEYS), w) == Some([]);
    assert ResolveRest([l], s, 1, Some(ON_KEYS), w) == Some([]);
  }
}
