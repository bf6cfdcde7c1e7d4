/**
 * `transformData` of src/lib/api/user.ts: the users are folded, in input
 * order, into a map from department to `DeptSummary`. The per-user update
 * (`UpdateDept`) and the per-user map step (`Step`) are defined once here and
 * shared with the copy of the function in the users page.
 */
module Aggregate {
  import opened Wrappers
  import opened UserModel
  import opened AgeRange
  import opened Summary

  /** The entry a department gets the first time one of its users is seen. */
  function NewSummary(): (s: DeptSummary)
    ensures s.male == 0 && s.female == 0 && s.ageRange == ""
    ensures |s.hair| == 0 && |s.addressUser| == 0
  {
    DeptSummary(0, 0, "", map[], map[])
  }

  /**
   * One user's effect on its department's summary: bump the counter of an
   * exact `"male"`/`"female"` gender, bump the histogram bucket of a non-empty
   * hair colour, file a non-empty postal code under a non-empty full name
   * (overwriting), and widen the age range.
   */
  function UpdateDept(d: DeptSummary, u: User): (r: DeptSummary)
    ensures r.ageRange != ""
    ensures r.male + r.female == d.male + d.female + (if u.gender == "male" || u.gender == "female" then 1 else 0)
    ensures d.hair.Keys <= r.hair.Keys && d.addressUser.Keys <= r.addressUser.Keys
  {
    DeptSummary(
      if u.gender == "male" then d.male + 1 else d.male,
      if u.gender == "female" then d.female + 1 else d.female,
      AgeStep(d.ageRange, u.age),
      TallyHair(d.hair, u.hair.color),
      FileAddress(d.addressUser, FullName(u), u.address.postalCode))
  }

  /** Hair colour summary: a non-empty colour gets its bucket bumped (from 0 when new); an empty one changes nothing. */
  function TallyHair(hair: map<string, nat>, color: string): (r: map<string, nat>)
    ensures r.Keys == hair.Keys + (if color != "" then {color} else {})
    ensures forall c :: c in hair && c != color ==> r[c] == hair[c]
  {
    if color != "" then hair[color := (if color in hair then hair[color] else 0) + 1] else hair
  }

  /** Address user mapping: a non-empty postal code under a non-empty name overwrites that name's entry. */
  function FileAddress(book: map<string, string>, name: string, code: string): (r: map<string, string>)
    ensures r.Keys == book.Keys + (if code != "" && name != "" then {name} else {})
    ensures forall n :: n in book && n != name ==> r[n] == book[n]
  {
    if code != "" && name != "" then book[name := code] else book
  }

  /**
   * The body of the `forEach` callback: create the user's department entry
   * if it is missing, then update it. No other entry changes.
   */
  function Step(g: TransformedData, u: User): (r: TransformedData)
    ensures r.Keys == g.Keys + {Dept(u)}
    ensures forall d :: d in g && d != Dept(u) ==> r[d] == g[d]
    ensures Dept(u) !in g ==> r[Dept(u)] == UpdateDept(NewSummary(), u)
  {
    var entry := if Dept(u) in g then g[Dept(u)] else NewSummary();
    g[Dept(u) := UpdateDept(entry, u)]
  }

  /**
   * `transformData(users)`: the users folded through `Step`, first to last,
   * from the empty map. What the result means is stated by the lemmas
   * `TransformDataKeys`, `TransformDataEntry` and `TransformDataMatchesSummary`.
   */
  function TransformData(users: seq<User>): TransformedData
  {
    if |users| == 0 then map[] else Step(TransformData(users[..|users| - 1]), users[|users| - 1])
  }

  /** `fetchAndTransform`, with the fetch result as a parameter: `None` is the `null` of a failed fetch. */
  function FetchAndTransform(data: Option<ApiResponse>): (r: Option<TransformedData>)
    ensures r.None? <==> data.None?
    ensures r.Some? ==> r.value.Keys == Departments(data.value.users)
    ensures r.Some? ==> forall d :: d in r.value ==> r.value[d] == Summarize(DeptUsers(data.value.users, d))
  {
    match data
    case None => None
    case Some(resp) =>
      TransformDataMatchesSummary(resp.users);
      Some(TransformData(resp.users))
  }

  // ---------------------------------------------------------------------
  // Correctness of the fold

  /** One more user updates the histogram of the department's summary the way `UpdateDept` does. */
  lemma HairSnoc(us: seq<User>, u: User)
    ensures HairOf(us + [u]) == TallyHair(HairOf(us), u.hair.color)
  {
    var vs := us + [u];
    HairColorsSnoc(us, u);
    var s := HairOf(us);
    var t := HairOf(vs);
    var e := TallyHair(s, u.hair.color);
    assert t.Keys == e.Keys;
    forall c | c in t
      ensures t[c] == e[c]
    {
      CountHairSnoc(us, u, c);
      if c == u.hair.color && c !in s {
        assert CountHair(us, c) == 0;
      }
    }
  }

  /** One more user updates the address map of the department's summary the way `UpdateDept` does. */
  lemma AddressSnoc(us: seq<User>, u: User)
    ensures AddressesOf(us + [u]) == FileAddress(AddressesOf(us), FullName(u), u.address.postalCode)
  {
    var vs := us + [u];
    AddressNamesSnoc(us, u);
    var s := AddressesOf(us);
    var t := AddressesOf(vs);
    var e := FileAddress(s, FullName(u), u.address.postalCode);
    assert t.Keys == e.Keys;
    forall n | n in t
      ensures t[n] == e[n]
    {
      LastPostalSnoc(us, u, n);
    }
  }

  /** One more user updates the age range of the department's summary the way `UpdateDept` does. */
  lemma AgeSnoc(us: seq<User>, u: User)
    ensures AgeRangeOf(us + [u]) == AgeStep(AgeRangeOf(us), u.age)
  {
    var vs := us + [u];
    assert vs[..|us|] == us;
    if |us| == 0 {
      AgeStepFromEmpty(u.age);
    } else {
      AgeStepTracksMinMax(MinAge(us), MaxAge(us), u.age);
    }
  }

  /** One more user bumps the counter of its exact gender and no other. */
  lemma GenderSnoc(us: seq<User>, u: User, g: string)
    ensures CountGender(us + [u], g) == CountGender(us, g) + (if u.gender == g then 1 else 0)
  {
    var vs := us + [u];
    assert vs[..|us|] == us;
  }

  /** Field by field, summarising one more user agrees with one `UpdateDept`. */
  lemma SummarizeSnocCounts(us: seq<User>, u: User)
    ensures Summarize(us + [u]).male == UpdateDept(Summarize(us), u).male
    ensures Summarize(us + [u]).female == UpdateDept(Summarize(us), u).female
  {
    GenderSnoc(us, u, "male");
    GenderSnoc(us, u, "female");
  }

  /** The age range of one more user agrees with the update's. */
  lemma SummarizeSnocAge(us: seq<User>, u: User)
    ensures Summarize(us + [u]).ageRange == UpdateDept(Summarize(us), u).ageRange
  {
    AgeSnoc(us, u);
  }

  /** The histogram of one more user agrees with the update's. */
  lemma SummarizeSnocHair(us: seq<User>, u: User)
    ensures Summarize(us + [u]).hair == UpdateDept(Summarize(us), u).hair
  {
    HairSnoc(us, u);
  }

  /** The address map of one more user agrees with the update's. */
  lemma SummarizeSnocAddress(us: seq<User>, u: User)
    ensures Summarize(us + [u]).addressUser == UpdateDept(Summarize(us), u).addressUser
  {
    AddressSnoc(us, u);
  }

  /** Summarising one more user is one `UpdateDept` on the summary so far. */
  lemma SummarizeSnoc(us: seq<User>, u: User)
    ensures Summarize(us + [u]) == UpdateDept(Summarize(us), u)
  {
    SummarizeSnocCounts(us, u);
    SummarizeSnocAge(us, u);
    SummarizeSnocHair(us, u);
    SummarizeSnocAddress(us, u);
  }

  /** The fold's keys are exactly the departments of the users folded. */
  lemma {:induction false} TransformDataKeys(users: seq<User>)
    ensures TransformData(users).Keys == Departments(users)
  {
    if |users| > 0 {
      var prev := users[..|users| - 1];
      var u := users[|users| - 1];
      assert users == prev + [u];
      TransformDataKeys(prev);
      DepartmentsSnoc(prev, u);
    }
  }

  /** The fold's entry for department `d` is the summary of `d`'s users. */
  lemma {:induction false} TransformDataEntry(users: seq<User>, d: string)
    requires d in TransformData(users)
    ensures TransformData(users)[d] == Summarize(DeptUsers(users, d))
  {
    var prev := users[..|users| - 1];
    var u := users[|users| - 1];
    var g := TransformData(prev);
    assert TransformData(users) == Step(g, u);
    if d != Dept(u) {
      TransformDataEntry(prev, d);
    } else {
      SummarizeSnoc(DeptUsers(prev, d), u);
      if d in g {
        TransformDataEntry(prev, d);
      } else {
        TransformDataKeys(prev);
        DeptUsersOfAbsent(prev, d);
      }
    }
  }

  /**
   * The whole fold: the output keys are exactly the input departments (so the
   * empty input gives the empty map), and each department's entry is the
   * summary of that department's users.
   */
  lemma TransformDataMatchesSummary(users: seq<User>)
    ensures TransformData(users).Keys == Departments(users)
    ensures |users| == 0 ==> TransformData(users) == map[]
    ensures forall d :: d in TransformData(users) ==> TransformData(users)[d] == Summarize(DeptUsers(users, d))
  {
    TransformDataKeys(users);
    forall d | d in TransformData(users)
      ensures TransformData(users)[d] == Summarize(DeptUsers(users, d))
    {
      TransformDataEntry(users, d);
    }
  }

  // ---------------------------------------------------------------------
  // The individual guarantees of the aggregator

  /** `male`/`female` count the department's users whose gender is exactly that string, and together never exceed them. */
  lemma GenderCounts(users: seq<User>, d: string)
    requires d in Departments(users)
    ensures d in TransformData(users)
    ensures TransformData(users)[d].male == CountGender(DeptUsers(users, d), "male")
    ensures TransformData(users)[d].female == CountGender(DeptUsers(users, d), "female")
    ensures TransformData(users)[d].male + TransformData(users)[d].female <= |DeptUsers(users, d)|
  {
    TransformDataMatchesSummary(users);
    GenderCountsBounded(DeptUsers(users, d));
  }

  /** A colour is a histogram key exactly when it is non-empty and some user of the department has it; its value is that number of users. */
  lemma HairHistogram(users: seq<User>, d: string, c: string)
    requires d in Departments(users)
    ensures d in TransformData(users)
    ensures c in TransformData(users)[d].hair
        <==> c != "" && exists u :: u in users && Dept(u) == d && u.hair.color == c
    ensures c in TransformData(users)[d].hair ==>
      TransformData(users)[d].hair[c] == CountHair(DeptUsers(users, d), c)
  {
    TransformDataKeys(users);
    TransformDataEntry(users, d);
    var du := DeptUsers(users, d);
    assert TransformData(users)[d].hair == HairOf(du);
    assert c in HairOf(du) <==> c in HairColors(du);
    if c != "" && exists u :: u in users && Dept(u) == d && u.hair.color == c {
      var u :| u in users && Dept(u) == d && u.hair.color == c;
      assert u in du;
    }
  }

  /**
   * The postal code filed under a full name is that of the last user of the
   * department, in input order, with that full name and a non-empty postal
   * code; names nobody files under have no entry.
   */
  lemma AddressLastWriter(users: seq<User>, d: string, n: string)
    requires d in Departments(users)
    ensures d in TransformData(users)
    ensures n in TransformData(users)[d].addressUser <==> n in AddressNames(DeptUsers(users, d))
    ensures n in TransformData(users)[d].addressUser ==>
      var du := DeptUsers(users, d);
      exists i :: 0 <= i < |du| && FilesUnder(du[i], n)
                  && TransformData(users)[d].addressUser[n] == du[i].address.postalCode
                  && forall j :: i < j < |du| ==> !FilesUnder(du[j], n)
  {
    TransformDataKeys(users);
    TransformDataEntry(users, d);
    var du := DeptUsers(users, d);
    assert TransformData(users)[d].addressUser == AddressesOf(du);
    LastPostalIsLast(du, n);
  }

  /** Every present department's age range is non-empty and reads `"min-max"` of its users' ages. */
  lemma AgeRangeIsMinMax(users: seq<User>, d: string)
    requires d in Departments(users)
    ensures d in TransformData(users)
    ensures |DeptUsers(users, d)| > 0
    ensures TransformData(users)[d].ageRange != ""
    ensures TransformData(users)[d].ageRange == EncodeRange(MinAge(DeptUsers(users, d)), MaxAge(DeptUsers(users, d)))
  {
    TransformDataMatchesSummary(users);
    var u :| u in users && Dept(u) == d;
    assert u in DeptUsers(users, d);
    RangeRoundTrip(MinAge(DeptUsers(users, d)), MaxAge(DeptUsers(users, d)));
  }

  /** Over all departments at once: the gender counts stay within the department and every age range is non-empty. */
  lemma TransformDataBounds(users: seq<User>)
    ensures forall d :: d in TransformData(users) ==>
      TransformData(users)[d].male + TransformData(users)[d].female <= |DeptUsers(users, d)|
    ensures forall d :: d in TransformData(users) ==> TransformData(users)[d].ageRange != ""
  {
    TransformDataKeys(users);
    forall d | d in TransformData(users)
      ensures TransformData(users)[d].male + TransformData(users)[d].female <= |DeptUsers(users, d)|
      ensures TransformData(users)[d].ageRange != ""
    {
      GenderCounts(users, d);
      AgeRangeIsMinMax(users, d);
    }
  }

  // ---------------------------------------------------------------------
  // Across departments

  /** The users a summary counts under `male` or `female`. */
  function Counted(s: DeptSummary): nat
  {
    s.male + s.female
  }

  /** `Counted` summed over every department of the map. */
  ghost function TotalCounted(g: TransformedData): nat
    decreases |g.Keys|
  {
    if g == map[] then 0
    else
      var d :| d in g;
      Counted(g[d]) + TotalCounted(g - {d})
  }

  /** The total does not depend on which department is taken out first. */
  lemma {:induction false} TotalCountedRemove(g: TransformedData, d: string)
    requires d in g
    ensures TotalCounted(g) == Counted(g[d]) + TotalCounted(g - {d})
    decreases |g.Keys|
  {
    var e :| e in g && TotalCounted(g) == Counted(g[e]) + TotalCounted(g - {e});
    if e != d {
      TotalCountedRemove(g - {e}, d);
      TotalCountedRemove(g - {d}, e);
      assert (g - {e}) - {d} == (g - {d}) - {e};
    }
  }

  /** One step adds one to the total exactly when the user's gender is `"male"` or `"female"`. */
  lemma TotalCountedStep(g: TransformedData, u: User)
    ensures TotalCounted(Step(g, u)) == TotalCounted(g) + (if u.gender == "male" || u.gender == "female" then 1 else 0)
  {
    var r := Step(g, u);
    assert r - {Dept(u)} == g - {Dept(u)};
    TotalCountedRemove(r, Dept(u));
    if Dept(u) in g {
      TotalCountedRemove(g, Dept(u));
    } else {
      assert g - {Dept(u)} == g;
    }
  }

  /**
   * Summed over all departments, `male + female` counts exactly the users
   * whose gender is one of those two strings, so it never exceeds the number
   * of records.
   */
  lemma {:induction false} TotalGenderCount(users: seq<User>)
    ensures TotalCounted(TransformData(users)) == CountGender(users, "male") + CountGender(users, "female")
    ensures TotalCounted(TransformData(users)) <= |users|
  {
    if |users| > 0 {
      TotalGenderCount(users[..|users| - 1]);
      TotalCountedStep(TransformData(users[..|users| - 1]), users[|users| - 1]);
    }
    GenderCountsBounded(users);
  }

  // ---------------------------------------------------------------------
  // A worked example

  /** Two users of one department: one of each gender, the same hair colour, different names and postal codes. */
  const ExampleA := User(1, "A", "B", "male", 30, Hair("black"), Address("100"), Company("Eng"))
  const ExampleC := User(2, "C", "D", "female", 25, Hair("black"), Address("200"), Company("Eng"))

  /** The first user creates the department entry from the new summary. */
  lemma ExampleAfterFirst()
    ensures TransformData([ExampleA])
         == map["Eng" := DeptSummary(1, 0, AgeStep("", 30), map["black" := 1], map["AB" := "100"])]
  {
    assert [ExampleA][..0] == [];
    assert FullName(ExampleA) == "AB";
    var e := UpdateDept(NewSummary(), ExampleA);
    assert e.hair == map["black" := 1];
    assert e.addressUser == map["AB" := "100"];
    assert e == DeptSummary(1, 0, AgeStep("", 30), map["black" := 1], map["AB" := "100"]);
    assert TransformData([ExampleA]) == Step(map[], ExampleA);
  }

  /** The second user's update, whatever age range the first one left. */
  lemma ExampleUpdateSecond(range: string)
    ensures UpdateDept(DeptSummary(1, 0, range, map["black" := 1], map["AB" := "100"]), ExampleC)
         == DeptSummary(1, 1, AgeStep(range, 25), map["black" := 2], map["AB" := "100", "CD" := "200"])
  {
    assert FullName(ExampleC) == "CD";
    assert TallyHair(map["black" := 1], "black") == map["black" := 2];
    assert FileAddress(map["AB" := "100"], "CD", "200") == map["AB" := "100", "CD" := "200"];
  }

  /** The second user updates the existing entry in place. */
  lemma ExampleAfterSecond(range: string)
    ensures Step(map["Eng" := DeptSummary(1, 0, range, map["black" := 1], map["AB" := "100"])], ExampleC)
         == map["Eng" := DeptSummary(1, 1, AgeStep(range, 25), map["black" := 2], map["AB" := "100", "CD" := "200"])]
  {
    assert Dept(ExampleC) == "Eng";
    ExampleUpdateSecond(range);
  }

  /** The two users give one department with one man, one woman, ages 25 to 30, two black-haired users and both addresses. */
  lemma EngineeringExample()
    ensures TransformData([ExampleA, ExampleC])
         == map["Eng" := DeptSummary(1, 1, "25-30", map["black" := 2], map["AB" := "100", "CD" := "200"])]
  {
    assert [ExampleA, ExampleC][..1] == [ExampleA];
    ExampleAfterFirst();
    ExampleAfterSecond(AgeStep("", 30));
    AgeStepFromEmpty(30);
    AgeStepTracksMinMax(30, 30, 25);
    SmallNumbers();
  }

  /** The printed forms of the example ages. */
  lemma SmallNumbers()
    ensures EncodeRange(25, 30) == "25-30"
  {
    assert Digit(0) == '0' && Digit(2) == '2' && Digit(3) == '3' && Digit(5) == '5';
    assert NatToString(2) == "2";
    assert NatToString(3) == "3";
    assert NatToString(25) == "25";
    assert NatToString(30) == "30";
  }
}
