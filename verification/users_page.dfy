/**
 * The users page keeps its own textual copy of `transformData` and of
 * `fetchAndTransform`. The copy is modelled here as what it literally is, a
 * `forEach` loop over the users that applies the per-user step to one
 * mutable map, and is proved to compute exactly the fold of the library
 * module, so every guarantee proved there holds for the page too.
 */
module UsersPage {
  import opened Wrappers
  import opened UserModel
  import opened Summary
  import opened Aggregate

  /** The page's `transformData`: one pass over the users, updating `grouped` in place. */
  method TransformUsers(users: seq<User>) returns (grouped: TransformedData)
    ensures grouped == TransformData(users)
    ensures grouped.Keys == Departments(users)
    ensures |users| == 0 ==> grouped == map[]
    ensures forall d :: d in grouped ==> grouped[d] == Summarize(DeptUsers(users, d))
    ensures forall d :: d in grouped ==> grouped[d].male + grouped[d].female <= |DeptUsers(users, d)|
    ensures forall d :: d in grouped ==> grouped[d].ageRange != ""
  {
    grouped := GroupUsers(users);
    TransformDataMatchesSummary(users);
    TransformDataBounds(users);
  }

  /** The `forEach` itself: after each user, the map equals the fold over the users seen so far. */
  method GroupUsers(users: seq<User>) returns (grouped: TransformedData)
    ensures grouped == TransformData(users)
  {
    grouped := map[];
    var i := 0;
    while i < |users|
      invariant 0 <= i <= |users|
      invariant grouped == TransformData(users[..i])
    {
      assert users[..i + 1][..i] == users[..i];
      grouped := Step(grouped, users[i]);
      i := i + 1;
    }
    assert users[..|users|] == users;
  }

  /** The page's `fetchAndTransform`: `null` exactly when the fetch gave `null`, else the aggregate of the users. */
  method FetchAndTransform(data: Option<ApiResponse>) returns (r: Option<TransformedData>)
    ensures r.None? <==> data.None?
    ensures data.Some? ==> r == Some(TransformData(data.value.users))
    ensures data.Some? ==> r.value.Keys == Departments(data.value.users)
  {
    if data.None? {
      return None;
    }
    var grouped := TransformUsers(data.value.users);
    return Some(grouped);
  }
}
