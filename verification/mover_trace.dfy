/**
 * Arbitrary interleavings of the column widget's events, and the invariant
 * they keep: every food of the initial list sits in exactly one column,
 * exactly once, each type column holds only its own type, and every pending
 * timer returns a known food to the column of its type.
 */
module MoverTrace {
  import opened Wrappers
  import opened ColumnMover

  /**
   * What can happen next: a click on a Main entry, a click on an entry of a
   * type column, or one of the pending timers firing.
   */
  datatype Event =
    | MoveToColumn(item: Food)
    | ImmediateReturn(item: Food, column: string)
    | TimerFires(p: Pending)

  /**
   * An event can only happen when the screen offers it: a button exists only
   * for an entry of the list it is rendered from, and a timer fires only
   * while it is pending.
   */
  predicate Enabled(h: Home, e: Event): (r: bool)
    ensures r && e.MoveToColumn? ==> HasName(h.board.main, e.item.name)
    ensures r && e.ImmediateReturn? ==> e.column == "Fruit" || e.column == "Vegetable"
    ensures r && e.TimerFires? ==> |h.timers| > 0
  {
    match e
    case MoveToColumn(item) => item in h.board.main
    case ImmediateReturn(item, column) =>
      (column == "Fruit" && item in h.board.fruit) || (column == "Vegetable" && item in h.board.vegetable)
    case TimerFires(p) => p in h.timers
  }

  /**
   * One event's transition. A click on Main takes the name out of Main and
   * schedules at most one timer; a return click or a firing timer leaves the
   * food's name in Main; a firing timer is used up.
   */
  function Apply(h: Home, e: Event): (r: Home)
    requires Enabled(h, e)
    ensures e.MoveToColumn? ==> !HasName(r.board.main, e.item.name) && |r.timers| <= |h.timers| + 1
    ensures e.ImmediateReturn? ==> HasName(r.board.main, e.item.name) && r.timers == h.timers
    ensures e.TimerFires? ==> HasName(r.board.main, e.p.item.name) && |r.timers| + 1 == |h.timers|
  {
    match e
    case MoveToColumn(item) =>
      WithoutNameMembers(h.board.main, item.name);
      HandleMoveToColumn(h, item)
    case ImmediateReturn(item, column) => HandleImmediateReturn(h, item, column)
    case TimerFires(p) => FireTimer(h, p)
  }

  /**
   * Runs the events in order; `None` when some event is not offered at its
   * turn. A run that goes through started with an offered event and leaves
   * at most one new timer per event.
   */
  function Run(h: Home, es: seq<Event>): (r: Option<Home>)
    ensures r.Some? && |es| > 0 ==> Enabled(h, es[0])
    ensures r.Some? ==> |r.value.timers| <= |h.timers| + |es|
    decreases |es|
  {
    if |es| == 0 then Some(h)
    else if Enabled(h, es[0]) then Run(Apply(h, es[0]), es[1..])
    else None
  }

  /** All entries of the three lists, counted with multiplicity. */
  function Contents(b: Board): multiset<Food>
  {
    multiset(b.main) + multiset(b.fruit) + multiset(b.vegetable)
  }

  /** Every entry of `s` is a Fruit (`kind == "Fruit"`) or every one a Vegetable. */
  predicate AllOfKind(s: seq<Food>, kind: string)
  {
    forall x :: x in s ==> x.kind == kind
  }

  /** No two entries of `s` share a name. */
  predicate NamesDistinct(s: seq<Food>)
  {
    forall i, j :: 0 <= i < j < |s| ==> s[i].name != s[j].name
  }

  /** A set of foods the widget can work with: names identify foods, and every food is a Fruit or a Vegetable. */
  predicate GoodUniverse(universe: seq<Food>)
  {
    && NamesDistinct(universe)
    && forall x :: x in universe ==> x.kind == "Fruit" || x.kind == "Vegetable"
  }

  /**
   * The widget's invariant over the foods `universe` it started with: the
   * three lists together hold exactly those foods, each type column only its
   * own type, and every pending timer returns a known food to its type's column.
   */
  predicate Inv(h: Home, universe: seq<Food>)
  {
    && Contents(h.board) == multiset(universe)
    && AllOfKind(h.board.fruit, "Fruit")
    && AllOfKind(h.board.vegetable, "Vegetable")
    && (forall p :: p in h.timers ==> p.item in universe && p.column == p.item.kind)
  }

  // ---------------------------------------------------------------------
  // The initial list

  /** The initial list has eleven foods, all Fruit or Vegetable, with pairwise different names. */
  lemma InitialDataFacts()
    ensures |InitialData| == 11
    ensures GoodUniverse(InitialData)
  {
    InitialNamesDistinct();
    InitialKinds();
  }

  /** The initial names already differ in their length or in their first letter. */
  lemma InitialNamesDistinct()
    ensures NamesDistinct(InitialData)
  {
    var s := InitialData;
    forall i, j | 0 <= i < j < |s|
      ensures s[i].name != s[j].name
    {
      assert |s[i].name| != |s[j].name| || s[i].name[0] != s[j].name[0];
    }
  }

  lemma InitialKinds()
    ensures forall x :: x in InitialData ==> x.kind == "Fruit" || x.kind == "Vegetable"
  {
  }

  /** In a list with distinct names, an entry occurs once and is the only entry with its name. */
  lemma {:induction false} DistinctNamesCount(s: seq<Food>, x: Food, y: Food)
    requires NamesDistinct(s)
    requires x in s
    ensures multiset(s)[x] == 1
    ensures y.name == x.name && y != x ==> multiset(s)[y] == 0
  {
    assert s == [s[0]] + s[1..];
    assert NamesDistinct(s[1..]) by {
      forall i, j | 0 <= i < j < |s[1..]|
        ensures s[1..][i].name != s[1..][j].name
      {
        assert s[1..][i] == s[i + 1] && s[1..][j] == s[j + 1];
      }
    }
    forall k | 0 <= k < |s[1..]|
      ensures s[1..][k].name != s[0].name
    {
      assert s[1..][k] == s[k + 1];
    }
    if x == s[0] {
      assert x !in s[1..];
      if y.name == x.name && y != x {
        assert y !in s[1..];
      }
    } else {
      DistinctNamesCount(s[1..], x, y);
      if y.name == x.name && y != x {
        assert y != s[0];
      }
    }
  }

  /** Under the invariant, an entry of a column is a known Fruit or Vegetable, found in exactly one column, once. */
  lemma InvFacts(h: Home, u: seq<Food>, x: Food)
    requires GoodUniverse(u)
    requires Inv(h, u)
    requires x in h.board.main || x in h.board.fruit || x in h.board.vegetable
    ensures x in u
    ensures x.kind == "Fruit" || x.kind == "Vegetable"
    ensures multiset(h.board.main)[x] + multiset(h.board.fruit)[x] + multiset(h.board.vegetable)[x] == 1
  {
    assert Contents(h.board)[x] > 0;
    DistinctNamesCount(u, x, x);
  }

  /** A known food that is not in a list of known foods has no namesake there either. */
  lemma NoNamesake(s: seq<Food>, u: seq<Food>, item: Food)
    requires GoodUniverse(u)
    requires forall x :: x in s ==> x in u
    requires item in u && item !in s
    ensures !HasName(s, item.name)
  {
    forall k | 0 <= k < |s|
      ensures s[k].name != item.name
    {
      assert s[k] in s;
      DistinctNamesCount(u, item, s[k]);
    }
  }

  /** Under the invariant, every entry of a list of the board is a known food. */
  lemma ColumnsKnown(h: Home, u: seq<Food>)
    requires GoodUniverse(u)
    requires Inv(h, u)
    ensures forall x :: x in h.board.main ==> x in u
    ensures forall x :: x in h.board.fruit ==> x in u
    ensures forall x :: x in h.board.vegetable ==> x in u
  {
    forall x | x in h.board.main || x in h.board.fruit || x in h.board.vegetable
      ensures x in u
    {
      InvFacts(h, u, x);
    }
  }

  // ---------------------------------------------------------------------
  // Each event keeps the invariant

  /** Among known foods, filtering by a known food's name takes out exactly that food. */
  lemma FilterTakesOutOnly(s: seq<Food>, u: seq<Food>, item: Food)
    requires GoodUniverse(u)
    requires item in u
    requires forall x :: x in s ==> x in u
    ensures multiset(WithoutName(s, item.name)) == multiset(s)[item := 0]
  {
    forall y
      ensures multiset(WithoutName(s, item.name))[y] == multiset(s)[item := 0][y]
    {
      WithoutNameCount(s, item.name, y);
      if y.name == item.name && y != item {
        DistinctNamesCount(u, item, y);
        assert y !in u;
        assert y !in s;
      }
    }
  }

  /** Taking out the single copy of a food and adding it back elsewhere leaves the contents as they were. */
  lemma Relocate(m: multiset<Food>, item: Food)
    requires m[item] == 1
    ensures m[item := 0] + multiset{item} == m
  {
  }

  /**
   * Filtering a known food out of one list of a partition of the known foods
   * and appending it to another, where it was absent, keeps the contents.
   */
  lemma TransferKeepsContents(src: seq<Food>, dst: seq<Food>, rest: seq<Food>, u: seq<Food>, item: Food)
    requires GoodUniverse(u)
    requires item in u
    requires multiset(src) + multiset(dst) + multiset(rest) == multiset(u)
    requires item !in dst && item !in rest
    ensures multiset(WithoutName(src, item.name)) + multiset(dst + [item]) + multiset(rest) == multiset(u)
  {
    DistinctNamesCount(u, item, item);
    var m := multiset(src);
    assert m[item] == 1;
    forall x | x in src
      ensures x in u
    {
      assert x in multiset(u);
    }
    FilterTakesOutOnly(src, u, item);
    Relocate(m, item);
  }

  /** Moving a food out of Main keeps the three lists a partition of the known foods. */
  lemma MoveKeepsContents(h: Home, u: seq<Food>, item: Food)
    requires GoodUniverse(u)
    requires Inv(h, u)
    requires item in h.board.main
    ensures Contents(HandleMoveToColumn(h, item).board) == multiset(u)
  {
    var b := h.board;
    InvFacts(h, u, item);
    assert multiset(b.main)[item] == 1;
    assert item !in b.fruit && item !in b.vegetable;
    if item.kind == "Fruit" {
      TransferKeepsContents(b.main, b.fruit, b.vegetable, u, item);
    } else {
      TransferKeepsContents(b.main, b.vegetable, b.fruit, u, item);
    }
  }

  /** Moving a food out of Main keeps the invariant. */
  lemma MoveKeepsInv(h: Home, u: seq<Food>, item: Food)
    requires GoodUniverse(u)
    requires Inv(h, u)
    requires item in h.board.main
    ensures Inv(HandleMoveToColumn(h, item), u)
  {
    InvFacts(h, u, item);
    MoveKeepsContents(h, u, item);
  }

  /** Returning a food that sits in Main changes nothing (its namesakes cannot be elsewhere). */
  lemma ReturnWhileHomeKeepsInv(h: Home, u: seq<Food>, item: Food, column: string)
    requires GoodUniverse(u)
    requires Inv(h, u)
    requires item in h.board.main
    requires column == item.kind
    ensures HandleImmediateReturn(h, item, column) == h
  {
    var b := h.board;
    ColumnsKnown(h, u);
    assert HasName(b.main, item.name) by {
      var i :| 0 <= i < |b.main| && b.main[i] == item;
    }
    InvFacts(h, u, item);
    if column == "Fruit" {
      NoNamesake(b.fruit, u, item);
    } else {
      NoNamesake(b.vegetable, u, item);
    }
    ReturnWhenBack(b, item, column);
  }

  /**
   * Returning a known food that is not in Main takes it out of the column of
   * its type, where it was, and appends it to the end of Main.
   */
  lemma ReturnFromColumnMovesItem(h: Home, u: seq<Food>, item: Food, column: string)
    requires GoodUniverse(u)
    requires Inv(h, u)
    requires item in u && item !in h.board.main
    requires column == item.kind
    ensures column == "Fruit" ==> item in h.board.fruit
    ensures column == "Vegetable" ==> item in h.board.vegetable
    ensures MoveToMainList(h.board, item, column).main == h.board.main + [item]
    ensures item !in MoveToMainList(h.board, item, column).fruit
    ensures item !in MoveToMainList(h.board, item, column).vegetable
  {
    var b := h.board;
    ColumnsKnown(h, u);
    NoNamesake(b.main, u, item);
    DistinctNamesCount(u, item, item);
    assert Contents(b)[item] == 1;
    WithoutNameMembers(b.fruit, item.name);
    WithoutNameMembers(b.vegetable, item.name);
  }

  /** The same return keeps the three lists a partition of the known foods. */
  lemma ReturnFromColumnKeepsContents(h: Home, u: seq<Food>, item: Food, column: string)
    requires GoodUniverse(u)
    requires Inv(h, u)
    requires item in u && item !in h.board.main
    requires column == item.kind
    ensures Contents(MoveToMainList(h.board, item, column)) == multiset(u)
  {
    var b := h.board;
    var r := MoveToMainList(b, item, column);
    ColumnsKnown(h, u);
    NoNamesake(b.main, u, item);
    assert r.main == b.main + [item];
    DistinctNamesCount(u, item, item);
    if column == "Fruit" {
      assert item !in b.vegetable;
      TransferKeepsContents(b.fruit, b.main, b.vegetable, u, item);
    } else {
      assert item !in b.fruit;
      TransferKeepsContents(b.vegetable, b.main, b.fruit, u, item);
    }
  }

  /** The same return keeps every type column of one type, and the timers are untouched. */
  lemma ReturnFromColumnKeepsInv(h: Home, u: seq<Food>, item: Food, column: string)
    requires GoodUniverse(u)
    requires Inv(h, u)
    requires item in u && item !in h.board.main
    requires column == item.kind
    ensures Inv(HandleImmediateReturn(h, item, column), u)
  {
    ReturnFromColumnKeepsContents(h, u, item, column);
    WithoutNameMembers(h.board.fruit, item.name);
    WithoutNameMembers(h.board.vegetable, item.name);
  }

  /** Returning a known food from the column of its type keeps the invariant, wherever the food currently is. */
  lemma ReturnKeepsInv(h: Home, u: seq<Food>, item: Food, column: string)
    requires GoodUniverse(u)
    requires Inv(h, u)
    requires item in u
    requires column == item.kind
    ensures Inv(HandleImmediateReturn(h, item, column), u)
  {
    if item in h.board.main {
      ReturnWhileHomeKeepsInv(h, u, item, column);
    } else {
      ReturnFromColumnKeepsInv(h, u, item, column);
    }
  }

  /** A timer firing keeps the invariant, however stale it is. */
  lemma FireKeepsInv(h: Home, u: seq<Food>, p: Pending)
    requires GoodUniverse(u)
    requires Inv(h, u)
    requires p in h.timers
    ensures Inv(FireTimer(h, p), u)
  {
    ReturnKeepsInv(h, u, p.item, p.column);
  }

  lemma StepKeepsInv(h: Home, u: seq<Food>, e: Event)
    requires GoodUniverse(u)
    requires Inv(h, u)
    requires Enabled(h, e)
    ensures Inv(Apply(h, e), u)
  {
    match e
    case MoveToColumn(item) => MoveKeepsInv(h, u, item);
    case ImmediateReturn(item, column) =>
      InvFacts(h, u, item);
      ReturnKeepsInv(h, u, item, column);
    case TimerFires(p) => FireKeepsInv(h, u, p);
  }

  /** Any run from a state satisfying the invariant ends in one. */
  lemma {:induction false} RunKeepsInv(h: Home, u: seq<Food>, es: seq<Event>)
    requires GoodUniverse(u)
    requires Inv(h, u)
    ensures Run(h, es).Some? ==> Inv(Run(h, es).value, u)
    decreases |es|
  {
    if |es| > 0 && Enabled(h, es[0]) {
      StepKeepsInv(h, u, es[0]);
      RunKeepsInv(Apply(h, es[0]), u, es[1..]);
    }
  }

  /** Two positions holding the same value make it occur at least twice. */
  lemma CountTwice(s: seq<Food>, i: int, j: int)
    requires 0 <= i < j < |s|
    ensures s[i] == s[j] ==> multiset(s)[s[i]] >= 2
  {
    assert s == s[..j] + s[j..];
    assert s[i] in s[..j];
    assert s[j..] == [s[j]] + s[j + 1..];
  }

  /** Under the invariant no name shows twice across the three lists. */
  lemma InvNamesDistinct(h: Home, u: seq<Food>)
    requires GoodUniverse(u)
    requires Inv(h, u)
    ensures NamesDistinct(h.board.main + h.board.fruit + h.board.vegetable)
  {
    var b := h.board;
    var all := b.main + b.fruit + b.vegetable;
    assert multiset(all) == Contents(b);
    forall i, j | 0 <= i < j < |all|
      ensures all[i].name != all[j].name
    {
      assert all[i] in multiset(all) && all[j] in multiset(all);
      DistinctNamesCount(u, all[i], all[j]);
      CountTwice(all, i, j);
    }
  }

  // ---------------------------------------------------------------------
  // What the invariant means on screen

  /**
   * After any interleaving of clicks and timer firings from the first render,
   * every initial food is in exactly one column, once; nothing else is in
   * any column; no name shows twice; there are eleven entries in all; and
   * each type column holds only its own type.
   */
  lemma ExactlyOnceAfterAnyRun(es: seq<Event>)
    ensures Run(Initial(), es).Some? ==>
      var b := Run(Initial(), es).value.board;
      && (forall x :: x in InitialData ==>
            multiset(b.main)[x] + multiset(b.fruit)[x] + multiset(b.vegetable)[x] == 1)
      && (forall x :: x in b.main || x in b.fruit || x in b.vegetable ==> x in InitialData)
      && NamesDistinct(b.main + b.fruit + b.vegetable)
      && |b.main| + |b.fruit| + |b.vegetable| == 11
      && AllOfKind(b.fruit, "Fruit")
      && AllOfKind(b.vegetable, "Vegetable")
  {
    var u := InitialData;
    InitialDataFacts();
    assert Inv(Initial(), u);
    RunKeepsInv(Initial(), u, es);
    if Run(Initial(), es).Some? {
      var h := Run(Initial(), es).value;
      var b := h.board;
      forall x | x in u
        ensures multiset(b.main)[x] + multiset(b.fruit)[x] + multiset(b.vegetable)[x] == 1
      {
        DistinctNamesCount(u, x, x);
        assert Contents(b)[x] == 1;
      }
      ColumnsKnown(h, u);
      InvNamesDistinct(h, u);
      assert |multiset(b.main + b.fruit + b.vegetable)| == |multiset(u)|;
    }
  }

  /** A timer firing for a food that is already back in Main changes none of the three lists. */
  lemma StaleFireIsNoOp(h: Home, u: seq<Food>, p: Pending)
    requires GoodUniverse(u)
    requires Inv(h, u)
    requires p in h.timers
    requires p.item in h.board.main
    ensures FireTimer(h, p).board == h.board
  {
    ReturnWhileHomeKeepsInv(h, u, p.item, p.column);
  }

  /** Filtering Apple out of the initial list leaves the other ten foods in order. */
  lemma InitialWithoutApple()
    ensures WithoutName(InitialData, "Apple") == InitialData[1..]
  {
    var apple := Food("Fruit", "Apple");
    var rest := InitialData[1..];
    InitialDataFacts();
    assert InitialData[0] == apple;
    NoNamesake(rest, InitialData, apple);
    WithoutNameAbsent(rest, "Apple");
  }

  /** Clicking Apple on first render moves it to the Fruit column and schedules its return. */
  lemma AppleClick()
    ensures Enabled(Initial(), MoveToColumn(Food("Fruit", "Apple")))
    ensures HandleMoveToColumn(Initial(), Food("Fruit", "Apple")).board
         == Board(InitialData[1..], [Food("Fruit", "Apple")], [])
    ensures HandleMoveToColumn(Initial(), Food("Fruit", "Apple")).timers
         == multiset{Pending(Food("Fruit", "Apple"), "Fruit")}
  {
    InitialWithoutApple();
  }

  /** Clicking the only entry of a type column whose name is not in Main appends it to Main and empties the column. */
  lemma ReturnLoneEntry(main: seq<Food>, x: Food, t: multiset<Pending>)
    requires x.kind == "Fruit"
    requires !HasName(main, x.name)
    ensures Run(Home(Board(main, [x], []), t), [ImmediateReturn(x, "Fruit")])
         == Some(Home(Board(main + [x], [], []), t))
  {
    var h := Home(Board(main, [x], []), t);
    var e := ImmediateReturn(x, "Fruit");
    assert WithoutName([x], x.name) == [];
    assert Enabled(h, e);
    assert [e][1..] == [];
  }

  /** Clicking Apple in the Fruit column then brings it straight back to the end of Main; its timer is still pending. */
  lemma AppleReturn()
    ensures
      var apple := Food("Fruit", "Apple");
      var h1 := Home(Board(InitialData[1..], [apple], []), multiset{Pending(apple, "Fruit")});
      Run(h1, [ImmediateReturn(apple, "Fruit")])
        == Some(Home(Board(InitialData[1..] + [apple], [], []), multiset{Pending(apple, "Fruit")}))
  {
    var apple := Food("Fruit", "Apple");
    InitialWithoutApple();
    WithoutNameMembers(InitialData, "Apple");
    ReturnLoneEntry(InitialData[1..], apple, multiset{Pending(apple, "Fruit")});
  }

  /** When Apple's original timer fires after the manual return, nothing changes but the timer is gone. */
  lemma AppleStaleFire()
    ensures
      var apple := Food("Fruit", "Apple");
      var h2 := Home(Board(InitialData[1..] + [apple], [], []), multiset{Pending(apple, "Fruit")});
      Run(h2, [TimerFires(Pending(apple, "Fruit"))]) == Some(Home(h2.board, multiset{}))
  {
    var apple := Food("Fruit", "Apple");
    var h2 := Home(Board(InitialData[1..] + [apple], [], []), multiset{Pending(apple, "Fruit")});
    assert HasName(h2.board.main, "Apple") by {
      assert h2.board.main[|h2.board.main| - 1] == apple;
    }
  }
}
