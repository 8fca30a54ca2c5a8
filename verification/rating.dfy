/**
 * The leaderboard query `get_rating` (logic.py): winners joined with users,
 * grouped per user, ordered by the group's count, first ten rows.
 *
 * The SQL returns `(user_name, count_prize)`; an `Entry` also keeps the
 * user id so the contracts can say which registered user a row stands for.
 * The order among rows with equal counts is whatever SQLite's grouping
 * produces and is left unspecified.
 */
module Rating {
  import opened Store

  datatype Entry = Entry(user: UserId, name: string, wins: nat)

  /** `LIMIT 10`. */
  const RatingLimit: nat := 10

  /** Registered users with at least one winners row: the groups that survive the inner join. */
  function WinningUsers(s: Store): set<UserId> {
    set u | u in s.users && CountUser(s.winners, u) > 0
  }

  /** The group row of a registered user: name and number of winners rows. */
  function EntryOf(s: Store, u: UserId): Entry
    requires u in s.users
  {
    Entry(u, s.users[u], CountUser(s.winners, u))
  }

  predicate InOrder(a: Entry, b: Entry, descending: bool) {
    if descending then a.wins >= b.wins else a.wins <= b.wins
  }

  predicate Sorted(xs: seq<Entry>, descending: bool) {
    forall i, j :: 0 <= i < j < |xs| ==> InOrder(xs[i], xs[j], descending)
  }

  predicate UniqueUsers(xs: seq<Entry>) {
    forall i, j :: 0 <= i < j < |xs| ==> xs[i].user != xs[j].user
  }

  /** A row of the query for every winning registered user, and nothing else. */
  predicate IsGrouping(s: Store, xs: seq<Entry>) {
    && UniqueUsers(xs)
    && (forall e :: e in xs ==> e.user in WinningUsers(s) && e == EntryOf(s, e.user))
    && (forall u :: u in WinningUsers(s) ==> EntryOf(s, u) in xs)
  }

  /** The users of the winners rows, each once, in order of first appearance. */
  function DistinctUsers(w: seq<Winner>): (r: seq<UserId>)
    ensures forall u :: u in r <==> CountUser(w, u) > 0
    ensures forall i, j :: 0 <= i < j < |r| ==> r[i] != r[j]
  {
    if w == [] then []
    else
      var rest := DistinctUsers(w[..|w| - 1]);
      var u := w[|w| - 1].user;
      if u in rest then rest else rest + [u]
  }

  /** The group rows of the registered users among `us`. */
  function EntriesFor(s: Store, us: seq<UserId>): (r: seq<Entry>)
    requires forall i, j :: 0 <= i < j < |us| ==> us[i] != us[j]
    ensures UniqueUsers(r)
    ensures forall e :: e in r ==> e.user in us && e.user in s.users && e == EntryOf(s, e.user)
    ensures forall u :: u in us && u in s.users ==> EntryOf(s, u) in r
  {
    if us == [] then []
    else
      var rest := EntriesFor(s, us[1..]);
      assert forall e :: e in rest ==> e.user != us[0];
      if us[0] in s.users then [EntryOf(s, us[0])] + rest else rest
  }

  /** `GROUP BY winners.user_id` over the inner join with `users`. */
  function Groups(s: Store): (r: seq<Entry>)
    ensures IsGrouping(s, r)
  {
    EntriesFor(s, DistinctUsers(s.winners))
  }

  /** `x` belongs before every element of `ys`. */
  predicate Precedes(x: Entry, ys: seq<Entry>, descending: bool) {
    forall y :: y in ys ==> InOrder(x, y, descending)
  }

  lemma SortedCons(x: Entry, ys: seq<Entry>, descending: bool)
    requires Sorted(ys, descending) && Precedes(x, ys, descending)
    ensures Sorted([x] + ys, descending)
  {
    var r := [x] + ys;
    forall i, j | 0 <= i < j < |r| ensures InOrder(r[i], r[j], descending) {
      assert r[j] == ys[j - 1];
      if i > 0 {
        assert r[i] == ys[i - 1];
      }
    }
  }

  /** In a sorted sequence the first element belongs before all the others. */
  lemma HeadPrecedes(e: Entry, xs: seq<Entry>, descending: bool)
    requires Sorted(xs, descending)
    requires xs == [] || InOrder(e, xs[0], descending)
    ensures Precedes(e, xs, descending)
  {
    forall y | y in xs ensures InOrder(e, y, descending) {
      var k :| 0 <= k < |xs| && xs[k] == y;
      assert k == 0 || InOrder(xs[0], xs[k], descending);
    }
  }

  lemma PrecedesTail(x: Entry, xs: seq<Entry>, descending: bool)
    requires Sorted([x] + xs, descending)
    ensures Precedes(x, xs, descending)
  {
    forall y | y in xs ensures InOrder(x, y, descending) {
      var k :| 0 <= k < |xs| && xs[k] == y;
      var r := [x] + xs;
      assert r[0] == x && r[k + 1] == y;
      assert InOrder(r[0], r[k + 1], descending);
    }
  }

  function Insert(e: Entry, xs: seq<Entry>, descending: bool): (r: seq<Entry>)
    requires Sorted(xs, descending)
    ensures Sorted(r, descending)
    ensures multiset(r) == multiset(xs) + multiset{e}
    ensures forall y :: y in r <==> y == e || y in xs
  {
    if xs == [] || InOrder(e, xs[0], descending) then
      HeadPrecedes(e, xs, descending);
      SortedCons(e, xs, descending);
      [e] + xs
    else
      var tail := xs[1..];
      assert xs == [xs[0]] + tail;
      PrecedesTail(xs[0], tail, descending);
      var rest := Insert(e, tail, descending);
      assert Precedes(xs[0], rest, descending);
      SortedCons(xs[0], rest, descending);
      [xs[0]] + rest
  }

  lemma UniqueCons(x: Entry, ys: seq<Entry>)
    requires UniqueUsers(ys) && forall y :: y in ys ==> y.user != x.user
    ensures UniqueUsers([x] + ys)
  {
    var r := [x] + ys;
    forall i, j | 0 <= i < j < |r| ensures r[i].user != r[j].user {
      assert r[j] == ys[j - 1];
      if i > 0 {
        assert r[i] == ys[i - 1];
      }
    }
  }

  /** Inserting a user not yet present keeps one row per user. */
  lemma {:induction false} InsertKeepsUniqueUsers(e: Entry, xs: seq<Entry>, descending: bool)
    requires Sorted(xs, descending) && UniqueUsers(xs)
    requires forall x :: x in xs ==> x.user != e.user
    ensures UniqueUsers(Insert(e, xs, descending))
  {
    if xs == [] || InOrder(e, xs[0], descending) {
      UniqueCons(e, xs);
    } else {
      var tail := xs[1..];
      assert xs == [xs[0]] + tail;
      InsertKeepsUniqueUsers(e, tail, descending);
      var rest := Insert(e, tail, descending);
      forall y | y in rest ensures y.user != xs[0].user {
        if y != e {
          var k :| 0 <= k < |tail| && tail[k] == y;
          assert xs[k + 1] == y;
        }
      }
      UniqueCons(xs[0], rest);
    }
  }

  /** `ORDER BY count_prize`, ascending or (when `descending`) descending. */
  function SortEntries(xs: seq<Entry>, descending: bool): (r: seq<Entry>)
    ensures Sorted(r, descending)
    ensures multiset(r) == multiset(xs)
    ensures forall y :: y in r <==> y in xs
  {
    if xs == [] then []
    else
      assert xs == [xs[0]] + xs[1..];
      Insert(xs[0], SortEntries(xs[1..], descending), descending)
  }

  /** Sorting keeps one row per user. */
  lemma {:induction false} SortKeepsUniqueUsers(xs: seq<Entry>, descending: bool)
    requires UniqueUsers(xs)
    ensures UniqueUsers(SortEntries(xs, descending))
  {
    if xs != [] {
      var tail := xs[1..];
      assert xs == [xs[0]] + tail;
      SortKeepsUniqueUsers(tail, descending);
      var rest := SortEntries(tail, descending);
      forall y | y in rest ensures y.user != xs[0].user {
        var k :| 0 <= k < |tail| && tail[k] == y;
        assert xs[k + 1] == y;
      }
      InsertKeepsUniqueUsers(xs[0], rest, descending);
    }
  }

  /** In a sorted sequence every element of a prefix comes before every element outside it. */
  lemma PrefixPrecedesRest(all: seq<Entry>, k: nat, descending: bool)
    requires Sorted(all, descending) && k <= |all|
    ensures forall x, e :: x in all && x !in all[..k] && e in all[..k] ==> InOrder(e, x, descending)
  {
    forall x, e | x in all && x !in all[..k] && e in all[..k] ensures InOrder(e, x, descending) {
      var j :| 0 <= j < |all| && all[j] == x;
      var i :| 0 <= i < k && all[..k][i] == e;
      assert j >= k;
      assert all[i] == e;
    }
  }

  /** The query for either sort direction: every group, sorted, first ten rows. */
  function Ranking(s: Store, descending: bool): (r: seq<Entry>)
    ensures |r| <= RatingLimit
    ensures Sorted(r, descending)
    ensures UniqueUsers(r)
    ensures forall e :: e in r ==> e.user in WinningUsers(s) && e == EntryOf(s, e.user)
    ensures |r| == RatingLimit || forall u :: u in WinningUsers(s) ==> EntryOf(s, u) in r
    ensures forall u, e :: u in WinningUsers(s) && EntryOf(s, u) !in r && e in r ==>
              InOrder(e, EntryOf(s, u), descending)
  {
    var groups := Groups(s);
    var all := SortEntries(groups, descending);
    SortKeepsUniqueUsers(groups, descending);
    var k := if |all| <= RatingLimit then |all| else RatingLimit;
    PrefixPrecedesRest(all, k, descending);
    assert all[..|all|] == all;
    all[..k]
  }

  /** `get_rating` as written: ascending counts, so the ten rows with the FEWEST wins. */
  function GetRating(s: Store): (r: seq<Entry>)
    ensures |r| <= RatingLimit
    ensures forall i, j :: 0 <= i < j < |r| ==> r[i].wins <= r[j].wins
    ensures UniqueUsers(r)
    ensures forall e :: e in r ==> e.user in WinningUsers(s) && e.name == s.users[e.user] &&
                                   e.wins == CountUser(s.winners, e.user) > 0
    ensures |r| == RatingLimit || forall u :: u in WinningUsers(s) ==> EntryOf(s, u) in r
    ensures forall u, e :: u in WinningUsers(s) && EntryOf(s, u) !in r && e in r ==>
              e.wins <= CountUser(s.winners, u)
  {
    Ranking(s, false)
  }

  /** The leaderboard with `ORDER BY count_prize DESC`: the ten rows with the MOST wins. */
  function GetTopRating(s: Store): (r: seq<Entry>)
    ensures |r| <= RatingLimit
    ensures forall i, j :: 0 <= i < j < |r| ==> r[i].wins >= r[j].wins
    ensures UniqueUsers(r)
    ensures forall e :: e in r ==> e.user in WinningUsers(s) && e.name == s.users[e.user] &&
                                   e.wins == CountUser(s.winners, e.user) > 0
    ensures |r| == RatingLimit || forall u :: u in WinningUsers(s) ==> EntryOf(s, u) in r
    ensures forall u, e :: u in WinningUsers(s) && EntryOf(s, u) !in r && e in r ==>
              e.wins >= CountUser(s.winners, u)
  {
    Ranking(s, true)
  }

  function UsersOf(xs: seq<Entry>): set<UserId> {
    set e | e in xs :: e.user
  }

  lemma {:induction false} UsersOfBound(xs: seq<Entry>)
    ensures |UsersOf(xs)| <= |xs|
  {
    if xs != [] {
      UsersOfBound(xs[1..]);
      assert UsersOf(xs) == UsersOf(xs[1..]) + {xs[0].user} by {
        assert xs == [xs[0]] + xs[1..];
      }
    }
  }

  /**
   * The defect of `get_rating` as written: once more than ten users have
   * won and not all of them have the same count, some user left off the
   * list has strictly more wins than a user on it.
   */
  lemma AscendingRatingOmitsLeader(s: Store, a: UserId, b: UserId)
    requires a in WinningUsers(s) && b in WinningUsers(s)
    requires CountUser(s.winners, a) > CountUser(s.winners, b)
    requires |WinningUsers(s)| > RatingLimit
    ensures exists u, e :: u in WinningUsers(s) && EntryOf(s, u) !in GetRating(s) && e in GetRating(s) &&
                           CountUser(s.winners, u) > e.wins
  {
    var r := GetRating(s);
    var w := WinningUsers(s);
    var listed := UsersOf(r);
    UsersOfBound(r);
    assert !(w <= listed) by {
      if w <= listed {
        SubsetCard(w, listed);
      }
    }
    var missing :| missing in w && missing !in listed;
    assert EntryOf(s, missing) !in r;
    assert |r| == RatingLimit;
    var ca, cb := CountUser(s.winners, a), CountUser(s.winners, b);
    if EntryOf(s, a) !in r {
      if EntryOf(s, b) in r {
        assert ca > EntryOf(s, b).wins;
      } else {
        assert r[0] in r;
        assert r[0].wins <= cb;
      }
    } else {
      assert EntryOf(s, a).wins <= CountUser(s.winners, missing);
      if EntryOf(s, b) !in r {
        assert false;
      }
      assert CountUser(s.winners, missing) > EntryOf(s, b).wins;
    }
  }

  lemma SubsetCard<T>(a: set<T>, b: set<T>)
    requires a <= b
    ensures |a| <= |b|
  {
    assert b == a + (b - a);
  }

  /** With descending order the user with the most wins is always on the list, with that count. */
  lemma TopRatingListsLeader(s: Store, a: UserId)
    requires a in WinningUsers(s)
    requires forall u :: u in WinningUsers(s) ==> CountUser(s.winners, u) <= CountUser(s.winners, a)
    ensures exists e :: e in GetTopRating(s) && e.wins == CountUser(s.winners, a)
  {
    var r := GetTopRating(s);
    if EntryOf(s, a) !in r {
      assert |r| == RatingLimit;
      assert r[0] in r;
    }
  }
}
