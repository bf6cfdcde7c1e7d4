/**
 * Reference definitions of what a department summary should hold, stated
 * directly over the department's users rather than as a fold: counts of
 * exact gender values, a histogram of non-empty hair colours, the postal code
 * of the last user filed under each full name, and the range of ages.
 * The aggregator is proved to produce exactly `Summarize` of each
 * department's users.
 */
module Summary {
  import opened UserModel
  import opened AgeRange

  /** The users of department `d`, in input order. */
  function DeptUsers(users: seq<User>, d: string): (r: seq<User>)
    ensures forall u :: u in r <==> u in users && Dept(u) == d
    ensures |r| <= |users|
  {
    if |users| == 0 then []
    else
      var prev := DeptUsers(users[..|users| - 1], d);
      var u := users[|users| - 1];
      assert forall v :: v in users <==> v in users[..|users| - 1] || v == u by {
        assert users == users[..|users| - 1] + [u];
      }
      if Dept(u) == d then prev + [u] else prev
  }

  /** Every department some user belongs to. */
  function Departments(users: seq<User>): set<string>
  {
    set u | u in users :: Dept(u)
  }

  /** How many of `us` have gender exactly `g`. */
  function CountGender(us: seq<User>, g: string): (r: nat)
    ensures r <= |us|
  {
    if |us| == 0 then 0
    else CountGender(us[..|us| - 1], g) + (if us[|us| - 1].gender == g then 1 else 0)
  }

  /** The non-empty hair colours that occur among `us`. */
  function HairColors(us: seq<User>): set<string>
  {
    set u | u in us && u.hair.color != "" :: u.hair.color
  }

  /** How many of `us` have hair colour `c`; positive exactly for the colours that occur. */
  function CountHair(us: seq<User>, c: string): (r: nat)
    ensures r <= |us|
    ensures c != "" ==> (r > 0 <==> c in HairColors(us))
  {
    if |us| == 0 then 0
    else
      var prev := us[..|us| - 1];
      var u := us[|us| - 1];
      assert us == prev + [u];
      assert HairColors(us) == HairColors(prev) + (if u.hair.color != "" then {u.hair.color} else {});
      CountHair(prev, c) + (if u.hair.color == c then 1 else 0)
  }

  /** User `u` files its postal code under the name `n`: both are non-empty and `n` is its full name. */
  predicate FilesUnder(u: User, n: string)
  {
    u.address.postalCode != "" && FullName(u) != "" && FullName(u) == n
  }

  /** The full names some user of `us` files a postal code under. */
  function AddressNames(us: seq<User>): set<string>
  {
    set u | u in us && u.address.postalCode != "" && FullName(u) != "" :: FullName(u)
  }

  /**
   * The postal code filed under `n` by the last user of `us` that files under
   * `n`, or the empty string when nobody does.
   */
  function LastPostal(us: seq<User>, n: string): string
  {
    if |us| == 0 then ""
    else if FilesUnder(us[|us| - 1], n) then us[|us| - 1].address.postalCode
    else LastPostal(us[..|us| - 1], n)
  }

  /** The youngest age among `us`. */
  function MinAge(us: seq<User>): (r: nat)
    requires |us| > 0
    ensures forall i :: 0 <= i < |us| ==> r <= us[i].age
    ensures exists i :: 0 <= i < |us| && us[i].age == r
  {
    if |us| == 1 then us[0].age
    else
      var m := MinAge(us[..|us| - 1]);
      var a := us[|us| - 1].age;
      if m <= a then m else a
  }

  /** The oldest age among `us`. */
  function MaxAge(us: seq<User>): (r: nat)
    requires |us| > 0
    ensures forall i :: 0 <= i < |us| ==> us[i].age <= r
    ensures exists i :: 0 <= i < |us| && us[i].age == r
  {
    if |us| == 1 then us[0].age
    else
      var m := MaxAge(us[..|us| - 1]);
      var a := us[|us| - 1].age;
      if m >= a then m else a
  }

  /** The age range of `us`: empty with no users, otherwise `"min-max"` of their ages. */
  function AgeRangeOf(us: seq<User>): string
  {
    if |us| == 0 then "" else EncodeRange(MinAge(us), MaxAge(us))
  }

  /** The histogram of `us`: each non-empty colour that occurs, with the number of users having it. */
  function HairOf(us: seq<User>): map<string, nat>
  {
    map c | c in HairColors(us) :: CountHair(us, c)
  }

  /** The address book of `us`: each full name filed under, with the last postal code filed under it. */
  function AddressesOf(us: seq<User>): map<string, string>
  {
    map n | n in AddressNames(us) :: LastPostal(us, n)
  }

  /** The summary the users `us` of one department should produce. */
  function Summarize(us: seq<User>): DeptSummary
  {
    DeptSummary(CountGender(us, "male"), CountGender(us, "female"), AgeRangeOf(us), HairOf(us), AddressesOf(us))
  }

  // ---------------------------------------------------------------------
  // How each reference definition grows by one user

  lemma HairColorsSnoc(us: seq<User>, u: User)
    ensures HairColors(us + [u]) == HairColors(us) + (if u.hair.color != "" then {u.hair.color} else {})
  {
    var vs := us + [u];
    forall v | v in vs
      ensures v in us || v == u
    {
    }
  }

  lemma AddressNamesSnoc(us: seq<User>, u: User)
    ensures AddressNames(us + [u])
         == AddressNames(us) + (if u.address.postalCode != "" && FullName(u) != "" then {FullName(u)} else {})
  {
    var vs := us + [u];
    forall v | v in vs
      ensures v in us || v == u
    {
    }
  }

  lemma CountHairSnoc(us: seq<User>, u: User, c: string)
    ensures CountHair(us + [u], c) == CountHair(us, c) + (if u.hair.color == c then 1 else 0)
  {
    assert (us + [u])[..|us|] == us;
  }

  lemma LastPostalSnoc(us: seq<User>, u: User, n: string)
    ensures LastPostal(us + [u], n) == if FilesUnder(u, n) then u.address.postalCode else LastPostal(us, n)
  {
    assert (us + [u])[..|us|] == us;
  }

  /**
   * `LastPostal` is what its name says: it is non-empty exactly for the names
   * filed under, and then it is the code of a user filing under `n` after whom
   * nobody else files under `n`.
   */
  lemma {:induction false} LastPostalIsLast(us: seq<User>, n: string)
    ensures LastPostal(us, n) != "" <==> n in AddressNames(us)
    ensures LastPostal(us, n) != "" ==>
      exists i :: 0 <= i < |us| && FilesUnder(us[i], n) && us[i].address.postalCode == LastPostal(us, n)
                  && forall j :: i < j < |us| ==> !FilesUnder(us[j], n)
  {
    if |us| > 0 {
      var prev := us[..|us| - 1];
      var u := us[|us| - 1];
      assert us == prev + [u];
      AddressNamesSnoc(prev, u);
      if !FilesUnder(u, n) {
        LastPostalIsLast(prev, n);
        if LastPostal(us, n) != "" {
          var i :| 0 <= i < |prev| && FilesUnder(prev[i], n) && prev[i].address.postalCode == LastPostal(prev, n)
                   && forall j :: i < j < |prev| ==> !FilesUnder(prev[j], n);
          assert us[i] == prev[i];
        }
      } else {
        assert FilesUnder(us[|us| - 1], n);
      }
    }
  }

  lemma DepartmentsSnoc(users: seq<User>, u: User)
    ensures Departments(users + [u]) == Departments(users) + {Dept(u)}
  {
    var vs := users + [u];
    forall v | v in vs
      ensures v in users || v == u
    {
    }
  }

  /** A department nobody belongs to has no users. */
  lemma {:induction false} DeptUsersOfAbsent(users: seq<User>, d: string)
    requires d !in Departments(users)
    ensures DeptUsers(users, d) == []
  {
    if |users| > 0 {
      var prev := users[..|users| - 1];
      assert users == prev + [users[|users| - 1]];
      DepartmentsSnoc(prev, users[|users| - 1]);
      DeptUsersOfAbsent(prev, d);
    }
  }

  /** Users with an unrecognised gender count as neither, so the two counters never exceed the users. */
  lemma {:induction false} GenderCountsBounded(us: seq<User>)
    ensures CountGender(us, "male") + CountGender(us, "female") <= |us|
  {
    if |us| > 0 {
      GenderCountsBounded(us[..|us| - 1]);
    }
  }
}
