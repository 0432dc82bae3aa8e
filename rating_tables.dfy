/**
 * Rating tables: the (user_id, item_id, rating) frames the recommender receives, and the
 * row selections it makes on them (counting a user's rows, keeping a user's rows, and the
 * evaluation filter that keeps users with more than one rating).
 */
module RatingTables {

  datatype Rating = Rating(user: string, item: string, rating: real)

  /** `(rows.user_id == user).sum()`: how many rows belong to the user. */
  function CountUser(user: string, rows: seq<Rating>): nat {
    if rows == [] then 0
    else (if rows[0].user == user then 1 else 0) + CountUser(user, rows[1..])
  }

  /** `rows[rows.user_id.isin(users)]`: the rows whose user is in the set, in their order. */
  function UsersIn(rows: seq<Rating>, users: set<string>): seq<Rating> {
    if rows == [] then []
    else (if rows[0].user in users then [rows[0]] else []) + UsersIn(rows[1..], users)
  }

  /** `rows[rows["user_id"] == user]`: the rows of one user. */
  function RowsOf(user: string, rows: seq<Rating>): seq<Rating> {
    UsersIn(rows, {user})
  }

  /** The item column, in row order (a pandas Series). */
  function Items(rows: seq<Rating>): seq<string> {
    seq(|rows|, k requires 0 <= k < |rows| => rows[k].item)
  }

  /** `set(rows["item_id"])` */
  function ItemSet(rows: seq<Rating>): set<string> {
    set r | r in rows :: r.item
  }

  /** a is b with some rows dropped and the rest kept in order. */
  predicate IsSubsequence(a: seq<Rating>, b: seq<Rating>) {
    if a == [] then true
    else if b == [] then false
    else (a[0] == b[0] && IsSubsequence(a[1..], b[1..])) || IsSubsequence(a, b[1..])
  }

  /** The filter keeps exactly the rows whose user is in the set. */
  lemma {:induction false} UsersInMembers(rows: seq<Rating>, users: set<string>)
    ensures forall x :: x in UsersIn(rows, users) <==> x in rows && x.user in users
  {
    if rows != [] {
      UsersInMembers(rows[1..], users);
      assert rows == [rows[0]] + rows[1..];
    }
  }

  /** The filter keeps the original order: it is a subsequence of its input. */
  lemma {:induction false} UsersInIsSubsequence(rows: seq<Rating>, users: set<string>)
    ensures IsSubsequence(UsersIn(rows, users), rows)
  {
    if rows != [] {
      UsersInIsSubsequence(rows[1..], users);
      var rest := UsersIn(rows[1..], users);
      if rows[0].user in users {
        assert UsersIn(rows, users) == [rows[0]] + rest;
        assert ([rows[0]] + rest)[1..] == rest;
      } else {
        assert UsersIn(rows, users) == rest;
      }
    }
  }

  /** Filtering a concatenation filters each part: no row moves past another. */
  lemma {:induction false} UsersInConcat(a: seq<Rating>, b: seq<Rating>, users: set<string>)
    ensures UsersIn(a + b, users) == UsersIn(a, users) + UsersIn(b, users)
  {
    if a != [] {
      assert (a + b)[1..] == a[1..] + b;
      UsersInConcat(a[1..], b, users);
    } else {
      assert a + b == b;
    }
  }

  /** Rows none of whose users are in the set all go. */
  lemma {:induction false} UsersInNone(rows: seq<Rating>, users: set<string>)
    requires forall k :: 0 <= k < |rows| ==> rows[k].user !in users
    ensures UsersIn(rows, users) == []
  {
    if rows != [] {
      UsersInNone(rows[1..], users);
    }
  }

  /** A user's row count survives the filter when the user is kept and drops to 0 otherwise. */
  lemma {:induction false} UsersInCount(user: string, rows: seq<Rating>, users: set<string>)
    ensures CountUser(user, UsersIn(rows, users)) == if user in users then CountUser(user, rows) else 0
  {
    if rows != [] {
      UsersInCount(user, rows[1..], users);
      var head := if rows[0].user in users then [rows[0]] else [];
      var rest := UsersIn(rows[1..], users);
      CountUserConcat(user, head, rest);
    }
  }

  lemma {:induction false} CountUserConcat(user: string, a: seq<Rating>, b: seq<Rating>)
    ensures CountUser(user, a + b) == CountUser(user, a) + CountUser(user, b)
  {
    if a != [] {
      assert (a + b)[1..] == a[1..] + b;
      CountUserConcat(user, a[1..], b);
    } else {
      assert a + b == b;
    }
  }

  /** The user's rows are exactly as many as the count says, and all of them are the user's. */
  lemma {:induction false} RowsOfCount(user: string, rows: seq<Rating>)
    ensures |RowsOf(user, rows)| == CountUser(user, rows)
    ensures forall k :: 0 <= k < |RowsOf(user, rows)| ==> RowsOf(user, rows)[k].user == user
  {
    if rows != [] {
      RowsOfCount(user, rows[1..]);
    }
  }

  /** The items a user rated, read off the user's rows, are the items of the user's rows in the table. */
  lemma UserItems(user: string, rows: seq<Rating>)
    ensures forall id :: id in ItemSet(RowsOf(user, rows)) <==>
      exists k :: 0 <= k < |rows| && rows[k].user == user && rows[k].item == id
    ensures ItemSet(RowsOf(user, rows)) == set x | x in Items(RowsOf(user, rows))
  {
    UsersInMembers(rows, {user});
    var mine := RowsOf(user, rows);
    forall id | id in ItemSet(mine)
      ensures exists k :: 0 <= k < |rows| && rows[k].user == user && rows[k].item == id
    {
      var r :| r in mine && r.item == id;
      var k :| 0 <= k < |rows| && rows[k] == r;
    }
    forall id | exists k :: 0 <= k < |rows| && rows[k].user == user && rows[k].item == id
      ensures id in ItemSet(mine)
    {
      var k :| 0 <= k < |rows| && rows[k].user == user && rows[k].item == id;
      assert rows[k] in mine;
    }
    forall id | id in ItemSet(mine) ensures id in Items(mine) {
      var r :| r in mine && r.item == id;
      var k :| 0 <= k < |mine| && mine[k] == r;
      assert Items(mine)[k] == id;
    }
  }

  lemma {:induction false} CountPositive(user: string, rows: seq<Rating>)
    requires CountUser(user, rows) > 0
    ensures exists k :: 0 <= k < |rows| && rows[k].user == user
  {
    if rows[0].user != user {
      CountPositive(user, rows[1..]);
      var k :| 0 <= k < |rows[1..]| && rows[1..][k].user == user;
      assert rows[k + 1].user == user;
    }
  }
}

/**
 * The first step of the offline evaluation: only users with more than one rating take part,
 * since a single rating cannot be split between training and test.
 */
module Evaluation {
  import opened RatingTables

  /** `counts.index[counts.gt(1)]`: the users with more than one row. */
  function RepeatUsers(rows: seq<Rating>): set<string> {
    set k | 0 <= k < |rows| && CountUser(rows[k].user, rows) > 1 :: rows[k].user
  }

  /** `rows[rows.user_id.isin(RepeatUsers(rows))]` */
  function EvaluationData(rows: seq<Rating>): seq<Rating> {
    UsersIn(rows, RepeatUsers(rows))
  }

  lemma RepeatUsersIff(user: string, rows: seq<Rating>)
    ensures user in RepeatUsers(rows) <==> CountUser(user, rows) > 1
  {
    if CountUser(user, rows) > 1 {
      CountPositive(user, rows);
    }
  }

  /**
   * The evaluation data keeps exactly the rows whose user rated more than once, in their
   * original order, and each kept user keeps all of their rows.
   */
  lemma EvaluationDataKeeps(rows: seq<Rating>)
    ensures forall x :: x in EvaluationData(rows) <==> x in rows && CountUser(x.user, rows) > 1
    ensures IsSubsequence(EvaluationData(rows), rows)
    ensures forall u ::
      CountUser(u, EvaluationData(rows)) == (if CountUser(u, rows) > 1 then CountUser(u, rows) else 0)
  {
    UsersInMembers(rows, RepeatUsers(rows));
    UsersInIsSubsequence(rows, RepeatUsers(rows));
    forall x | x in rows ensures x.user in RepeatUsers(rows) <==> CountUser(x.user, rows) > 1 {
      RepeatUsersIff(x.user, rows);
    }
    forall u ensures CountUser(u, EvaluationData(rows)) ==
      if CountUser(u, rows) > 1 then CountUser(u, rows) else 0
    {
      RepeatUsersIff(u, rows);
      UsersInCount(u, rows, RepeatUsers(rows));
    }
  }

  /** Every user left in the evaluation data has at least two ratings there. */
  lemma EvaluationUsersRepeat(rows: seq<Rating>)
    ensures forall k :: 0 <= k < |EvaluationData(rows)| ==>
      CountUser(EvaluationData(rows)[k].user, EvaluationData(rows)) >= 2
  {
    EvaluationDataKeeps(rows);
    forall k | 0 <= k < |EvaluationData(rows)|
      ensures CountUser(EvaluationData(rows)[k].user, EvaluationData(rows)) >= 2
    {
      var x := EvaluationData(rows)[k];
      assert x in EvaluationData(rows);
    }
  }
}
