/** The sender list app.py offers in its sidebar: the distinct senders of
    the chat without `group_notification`, sorted, after "Overall". */
module App {
  import opened Text
  import opened Orders
  import opened Counting
  import opened Series
  import opened Preprocessor
  import opened Helper

  /** `list.remove(x)`: the list without the first occurrence of `x`
      (Python raises `ValueError` when there is none). */
  function RemoveFirst<T(==)>(xs: seq<T>, x: T): (r: seq<T>)
    requires x in xs
    ensures |r| == |xs| - 1
    ensures r == xs[..FirstIndex(xs, x)] + xs[FirstIndex(xs, x) + 1..]
  {
    if xs[0] == x then xs[1..]
    else
      var rest, k := RemoveFirst(xs[1..], x), FirstIndex(xs[1..], x);
      assert FirstIndex(xs, x) == k + 1;
      assert xs[..k + 1] == [xs[0]] + xs[1..][..k];
      assert xs[k + 2..] == xs[1..][k + 1..];
      [xs[0]] + rest
  }

  /** Where each element of the shortened list was. */
  lemma RemoveAt<T>(xs: seq<T>, x: T, i: nat)
    requires x in xs && i < |RemoveFirst(xs, x)|
    ensures var k := FirstIndex(xs, x);
      RemoveFirst(xs, x)[i] == if i < k then xs[i] else xs[i + 1]
  {
  }

  /** Removing an element from a list without duplicates leaves the others,
      still without duplicates. */
  lemma RemoveDistinct<T(!new)>(xs: seq<T>, x: T)
    requires x in xs && Distinct(xs)
    ensures Distinct(RemoveFirst(xs, x))
    ensures forall y :: y in RemoveFirst(xs, x) <==> y in xs && y != x
  {
    var r, k := RemoveFirst(xs, x), FirstIndex(xs, x);
    forall i, j | 0 <= i < j < |r| ensures r[i] != r[j] {
      RemoveAt(xs, x, i);
      RemoveAt(xs, x, j);
    }
    forall y | y in r ensures y in xs && y != x {
      var i :| 0 <= i < |r| && r[i] == y;
      RemoveAt(xs, x, i);
    }
    forall y | y in xs && y != x ensures y in r {
      var i :| 0 <= i < |xs| && xs[i] == y;
      assert i != k;
      if i < k {
        RemoveAt(xs, x, i);
      } else {
        RemoveAt(xs, x, i - 1);
      }
    }
  }

  /** Lines 25-29 of app.py: `unique()`, `remove('group_notification')` when
      present, `sort()`, `insert(0, "Overall")`. The list starts with
      "Overall"; after it come the chat's senders other than
      `group_notification`, each once, in ascending order, and each of them
      selects at least one row. */
  method SidebarUsers(rows: seq<Row>) returns (userList: seq<string>)
    ensures |userList| >= 1 && userList[0] == Overall
    ensures GroupNotification !in userList[1..]
    ensures StrictlyAscending(StringLess, userList[1..])
    ensures forall u :: u in userList[1..] <==> u in Users(rows) && u != GroupNotification
    ensures forall u :: u in userList[1..] && u != Overall ==> |Selected(u, rows)| > 0
  {
    userList := Unique(Users(rows));
    if GroupNotification in userList {
      RemoveDistinct(userList, GroupNotification);
      userList := RemoveFirst(userList, GroupNotification);
    }
    ghost var senders := userList;
    assert Distinct(senders) && forall u :: u in senders <==> u in Users(rows) && u != GroupNotification;
    userList := Sort(StringLess, userList);
    assert StrictlyAscending(StringLess, userList) && forall u :: u in userList <==> u in senders by {
      StringLessOrder();
      SortDistinct(StringLess, senders);
    }
    userList := [Overall] + userList;
    assert userList[1..] == Sort(StringLess, senders);
    forall u | u in userList[1..] && u != Overall ensures |Selected(u, rows)| > 0 {
      SelectedCount(u, rows);
      assert u in Users(rows);
    }
  }
}
