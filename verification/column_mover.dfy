/**
 * The column widget of the home page: three lists of foods (Main, Fruit,
 * Vegetable). Clicking a food in Main moves it to the column of its type and
 * schedules its return; clicking a food in a type column returns it at once.
 * The scheduled return is fire-and-forget: it is never cancelled, and the
 * return transition is written so that a late, stale firing does no harm.
 *
 * React's functional state updaters are modelled as plain sequential
 * transitions on an immutable `Board`; a scheduled `setTimeout` is a
 * `Pending` value kept in a multiset until it fires.
 */
module ColumnMover {

  /** A food item: its type tag (`type` in the source) and its name, which identifies it on screen. */
  datatype Food = Food(kind: string, name: string)

  /** The three lists of the widget. */
  datatype Board = Board(main: seq<Food>, fruit: seq<Food>, vegetable: seq<Food>)

  /** A scheduled call `moveToMainList(item, column)` that has not fired yet. */
  datatype Pending = Pending(item: Food, column: string)

  /** The widget's whole state: the lists and the timers still to fire. */
  datatype Home = Home(board: Board, timers: multiset<Pending>)

  /** The foods Main starts with. */
  const InitialData: seq<Food> := [
    Food("Fruit", "Apple"),
    Food("Vegetable", "Broccoli"),
    Food("Vegetable", "Mushroom"),
    Food("Fruit", "Banana"),
    Food("Vegetable", "Tomato"),
    Food("Fruit", "Orange"),
    Food("Fruit", "Mango"),
    Food("Fruit", "Pineapple"),
    Food("Vegetable", "Cucumber"),
    Food("Fruit", "Watermelon"),
    Food("Vegetable", "Carrot")
  ]

  /** The state on first render: everything in Main, the type columns empty, no timers. */
  function Initial(): Home
  {
    Home(Board(InitialData, [], []), multiset{})
  }

  /** `prev.some(food => food.name === name)`. */
  predicate HasName(s: seq<Food>, name: string)
  {
    exists i :: 0 <= i < |s| && s[i].name == name
  }

  /** `prev.filter(food => food.name !== name)`: drops every entry with that name and keeps the others in order. */
  function WithoutName(s: seq<Food>, name: string): (r: seq<Food>)
    ensures |r| <= |s|
    ensures HasName(s, name) ==> |r| < |s|
  {
    if |s| == 0 then []
    else (if s[0].name != name then [s[0]] else []) + WithoutName(s[1..], name)
  }

  /**
   * `moveToMainList(item, column)`: drop the item's name from the named type
   * column (any other column string drops nothing), then append the item to
   * Main unless an entry with its name is already there.
   */
  function MoveToMainList(b: Board, item: Food, column: string): (r: Board)
    ensures HasName(r.main, item.name)
    ensures HasName(b.main, item.name) ==> r.main == b.main
    ensures !HasName(b.main, item.name) ==> r.main == b.main + [item]
    ensures column == "Fruit" ==>
      r.fruit == WithoutName(b.fruit, item.name) && !HasName(r.fruit, item.name) && r.vegetable == b.vegetable
    ensures column == "Vegetable" ==>
      r.vegetable == WithoutName(b.vegetable, item.name) && !HasName(r.vegetable, item.name) && r.fruit == b.fruit
    ensures column != "Fruit" && column != "Vegetable" ==> r.fruit == b.fruit && r.vegetable == b.vegetable
  {
    WithoutNameMembers(b.fruit, item.name);
    WithoutNameMembers(b.vegetable, item.name);
    var fruit := if column == "Fruit" then WithoutName(b.fruit, item.name) else b.fruit;
    var vegetable := if column == "Vegetable" then WithoutName(b.vegetable, item.name) else b.vegetable;
    var main := if HasName(b.main, item.name) then b.main else b.main + [item];
    assert main[..|b.main|] == b.main;
    assert HasName(main, item.name) by {
      if !HasName(b.main, item.name) {
        assert main[|b.main|] == item;
      }
    }
    Board(main, fruit, vegetable)
  }

  /**
   * `handleMoveToColumn(item)`: drop the item's name from Main; a Fruit or a
   * Vegetable is appended to its column and gets one return scheduled for
   * that column; an item of any other type is dropped and nothing is
   * scheduled.
   */
  function HandleMoveToColumn(h: Home, item: Food): (r: Home)
    ensures r.board.main == WithoutName(h.board.main, item.name)
    ensures item.kind == "Fruit" ==>
      r.board.fruit == h.board.fruit + [item] && r.board.vegetable == h.board.vegetable
      && r.timers == h.timers + multiset{Pending(item, "Fruit")}
    ensures item.kind == "Vegetable" ==>
      r.board.vegetable == h.board.vegetable + [item] && r.board.fruit == h.board.fruit
      && r.timers == h.timers + multiset{Pending(item, "Vegetable")}
    ensures item.kind != "Fruit" && item.kind != "Vegetable" ==>
      r.board.fruit == h.board.fruit && r.board.vegetable == h.board.vegetable && r.timers == h.timers
  {
    var b := h.board;
    var main := WithoutName(b.main, item.name);
    if item.kind == "Fruit" then
      Home(Board(main, b.fruit + [item], b.vegetable), h.timers + multiset{Pending(item, "Fruit")})
    else if item.kind == "Vegetable" then
      Home(Board(main, b.fruit, b.vegetable + [item]), h.timers + multiset{Pending(item, "Vegetable")})
    else
      Home(Board(main, b.fruit, b.vegetable), h.timers)
  }

  /** `handleImmediateReturn(item, column)`: the return transition, run now; pending timers stay pending. */
  function HandleImmediateReturn(h: Home, item: Food, column: string): (r: Home)
    ensures r.board == MoveToMainList(h.board, item, column)
    ensures r.timers == h.timers
    ensures HasName(r.board.main, item.name)
  {
    Home(MoveToMainList(h.board, item, column), h.timers)
  }

  /** A scheduled return fires: it leaves the timer set and runs the return transition. */
  function FireTimer(h: Home, p: Pending): (r: Home)
    requires p in h.timers
    ensures r.board == MoveToMainList(h.board, p.item, p.column)
    ensures r.timers == h.timers - multiset{p}
    ensures |r.timers| + 1 == |h.timers|
    ensures HasName(r.board.main, p.item.name)
  {
    Home(MoveToMainList(h.board, p.item, p.column), h.timers - multiset{p})
  }

  // ---------------------------------------------------------------------
  // Facts about filtering by name

  /** Filtering keeps exactly the entries whose name differs, so the name is gone afterwards. */
  lemma {:induction false} WithoutNameMembers(s: seq<Food>, name: string)
    ensures forall x :: x in WithoutName(s, name) <==> x in s && x.name != name
    ensures !HasName(WithoutName(s, name), name)
  {
    if |s| > 0 {
      WithoutNameMembers(s[1..], name);
      var head: seq<Food> := if s[0].name != name then [s[0]] else [];
      var rest := WithoutName(s[1..], name);
      assert WithoutName(s, name) == head + rest;
      assert s == [s[0]] + s[1..];
      forall i | 0 <= i < |head + rest|
        ensures (head + rest)[i].name != name
      {
        if i >= |head| {
          assert (head + rest)[i] == rest[i - |head|];
        }
      }
    }
  }

  /** Filtering keeps exactly the multiplicity of every entry whose name differs and zeroes the rest. */
  lemma {:induction false} WithoutNameCount(s: seq<Food>, name: string, y: Food)
    ensures multiset(WithoutName(s, name))[y] == if y.name == name then 0 else multiset(s)[y]
  {
    if |s| > 0 {
      var head: seq<Food> := if s[0].name != name then [s[0]] else [];
      var rest := WithoutName(s[1..], name);
      assert WithoutName(s, name) == head + rest;
      assert multiset(head + rest) == multiset(head) + multiset(rest);
      assert s == [s[0]] + s[1..];
      assert multiset(s) == multiset{s[0]} + multiset(s[1..]);
      WithoutNameCount(s[1..], name, y);
    }
  }

  /** Filtering a list that has no entry with the name changes nothing. */
  lemma {:induction false} WithoutNameAbsent(s: seq<Food>, name: string)
    requires !HasName(s, name)
    ensures WithoutName(s, name) == s
  {
    if |s| > 0 {
      assert s[0].name != name;
      assert !HasName(s[1..], name) by {
        forall i | 0 <= i < |s[1..]|
          ensures s[1..][i].name != name
        {
          assert s[1..][i] == s[i + 1];
        }
      }
      WithoutNameAbsent(s[1..], name);
      assert s == [s[0]] + s[1..];
    }
  }

  /** Filtering distributes over concatenation, so the survivors keep their relative order. */
  lemma {:induction false} WithoutNameAppend(a: seq<Food>, b: seq<Food>, name: string)
    ensures WithoutName(a + b, name) == WithoutName(a, name) + WithoutName(b, name)
  {
    if |a| > 0 {
      var head: seq<Food> := if a[0].name != name then [a[0]] else [];
      assert (a + b)[0] == a[0];
      assert (a + b)[1..] == a[1..] + b;
      assert WithoutName(a + b, name) == head + WithoutName(a[1..] + b, name);
      WithoutNameAppend(a[1..], b, name);
      assert WithoutName(a, name) == head + WithoutName(a[1..], name);
      assert WithoutName(a, name) + WithoutName(b, name)
          == head + (WithoutName(a[1..], name) + WithoutName(b, name));
    } else {
      assert a + b == b;
      assert WithoutName(a, name) == [];
    }
  }

  /** Filtering twice by the same name is filtering once. */
  lemma WithoutNameIdempotent(s: seq<Food>, name: string)
    ensures WithoutName(WithoutName(s, name), name) == WithoutName(s, name)
  {
    WithoutNameMembers(s, name);
    WithoutNameAbsent(WithoutName(s, name), name);
  }

  // ---------------------------------------------------------------------
  // Facts about the return transition

  /** Applying a return twice is applying it once. */
  lemma ReturnIdempotent(b: Board, item: Food, column: string)
    ensures MoveToMainList(MoveToMainList(b, item, column), item, column) == MoveToMainList(b, item, column)
  {
    WithoutNameIdempotent(b.fruit, item.name);
    WithoutNameIdempotent(b.vegetable, item.name);
  }

  /** A return for an item already in Main and absent from the named column changes no list. */
  lemma ReturnWhenBack(b: Board, item: Food, column: string)
    requires HasName(b.main, item.name)
    requires column == "Fruit" ==> !HasName(b.fruit, item.name)
    requires column == "Vegetable" ==> !HasName(b.vegetable, item.name)
    ensures MoveToMainList(b, item, column) == b
  {
    if column == "Fruit" {
      WithoutNameAbsent(b.fruit, item.name);
    } else if column == "Vegetable" {
      WithoutNameAbsent(b.vegetable, item.name);
    }
  }

  /** Clicking an item in a type column and that column's timer firing run the very same board transition. */
  lemma ManualReturnIsTimerReturn(h: Home, p: Pending)
    requires p in h.timers
    ensures FireTimer(h, p).board == HandleImmediateReturn(h, p.item, p.column).board
  {
  }
}
