/**
 * The prize-claim bookkeeping of `DatabaseManager` (logic.py): the three
 * SQLite tables `users`, `prizes` and `winners` as an immutable value, and
 * every statement the class issues as a pure transition or query on it.
 *
 * Prize ids are rowids: `prize_id INTEGER PRIMARY KEY` aliases the rowid,
 * SQLite gives a new row the largest rowid plus one (1 in an empty table),
 * and no row is ever deleted. So the prize with id `k` is the `k`-th prize
 * inserted, and the table is a sequence with `prizes[k - 1]` holding id `k`.
 */
module Store {
  import opened Wrappers

  type UserId = int
  type PrizeId = int

  /** A `prizes` row without its id: the image file name and the one-way `used` flag. */
  datatype Prize = Prize(image: string, used: bool)

  /** A `winners` row. The `win_time` column is a wall-clock stamp and is dropped. */
  datatype Winner = Winner(user: UserId, prize: PrizeId)

  datatype Store = Store(users: map<UserId, string>, prizes: seq<Prize>, winners: seq<Winner>)

  /** A freshly created database: `create_tables` on a new file. */
  const Empty: Store := Store(map[], [], [])

  /** `add_user` on an id that is already a primary key raises IntegrityError. */
  datatype StoreError = DuplicateUser(id: UserId)

  /** A row of `SELECT * FROM prizes`: id and image (the `used` column is 0 for every row it returns). */
  datatype PrizeRow = PrizeRow(id: PrizeId, image: string)

  /** The result of `add_winner`: the new store and the value it returns (0 or 1). */
  datatype Insertion = Insertion(store: Store, added: nat)

  // ----- Table lookups -----

  predicate HasPrize(s: Store, p: PrizeId) {
    1 <= p <= |s.prizes|
  }

  function PrizeAt(s: Store, p: PrizeId): Prize
    requires HasPrize(s, p)
  {
    s.prizes[p - 1]
  }

  /** Prize `p` exists and its `used` flag is still 0. */
  predicate IsUnused(s: Store, p: PrizeId) {
    HasPrize(s, p) && !PrizeAt(s, p).used
  }

  /** The ids of the prizes whose `used` flag is still 0. */
  function UnusedSet(s: Store): (r: set<PrizeId>)
    ensures forall p :: p in r <==> IsUnused(s, p)
  {
    set p | 1 <= p <= |s.prizes| && IsUnused(s, p)
  }

  /** No `(user_id, prize_id)` pair occurs in two `winners` rows. */
  predicate UniquePairs(w: seq<Winner>) {
    forall i, j :: 0 <= i < j < |w| ==> w[i] != w[j]
  }

  /** Number of `winners` rows naming prize `p`. */
  function CountPrize(w: seq<Winner>, p: PrizeId): (n: nat)
    ensures n <= |w|
    ensures n == 0 <==> forall i :: 0 <= i < |w| ==> w[i].prize != p
  {
    if w == [] then 0
    else CountPrize(w[..|w| - 1], p) + (if w[|w| - 1].prize == p then 1 else 0)
  }

  /** Number of `winners` rows naming user `u`. */
  function CountUser(w: seq<Winner>, u: UserId): (n: nat)
    ensures n <= |w|
    ensures n == 0 <==> forall i :: 0 <= i < |w| ==> w[i].user != u
  {
    if w == [] then 0
    else CountUser(w[..|w| - 1], u) + (if w[|w| - 1].user == u then 1 else 0)
  }

  /** The distinct users holding a `winners` row for prize `p`. */
  function ClaimantsOf(w: seq<Winner>, p: PrizeId): set<UserId> {
    set i | 0 <= i < |w| && w[i].prize == p :: w[i].user
  }

  // ----- DatabaseManager -----

  /** `add_user`: insert a users row; a second row for the same id violates the primary key. */
  function AddUser(s: Store, id: UserId, name: string): (r: Result<Store, StoreError>)
    ensures r.Err? <==> id in s.users
    ensures r.Err? ==> r.error == DuplicateUser(id)
    ensures r.Ok? ==> r.value.users.Keys == s.users.Keys + {id} && r.value.users[id] == name
    ensures r.Ok? ==> forall v :: v in s.users ==> r.value.users[v] == s.users[v]
    ensures r.Ok? ==> r.value.prizes == s.prizes && r.value.winners == s.winners
  {
    if id in s.users then Err(DuplicateUser(id))
    else Ok(s.(users := s.users[id := name]))
  }

  /** `add_prize`: one new prize per image, each with `used` at its default 0, at the next rowids. */
  function AddPrizes(s: Store, images: seq<string>): (r: Store)
    ensures |r.prizes| == |s.prizes| + |images|
    ensures forall p :: HasPrize(s, p) ==> HasPrize(r, p) && PrizeAt(r, p) == PrizeAt(s, p)
    ensures forall i :: 0 <= i < |images| ==> PrizeAt(r, |s.prizes| + 1 + i) == Prize(images[i], false)
    ensures forall p :: IsUnused(r, p) <==> IsUnused(s, p) || |s.prizes| < p <= |r.prizes|
    ensures r.users == s.users && r.winners == s.winners
  {
    var newRows := seq(|images|, i requires 0 <= i < |images| => Prize(images[i], false));
    s.(prizes := s.prizes + newRows)
  }

  /** `add_winner`: insert the pair unless a row for it already exists; returns the number of rows inserted. */
  function AddWinner(s: Store, u: UserId, p: PrizeId): (r: Insertion)
    ensures Winner(u, p) in s.winners ==> r.added == 0 && r.store == s
    ensures Winner(u, p) !in s.winners ==>
              && r.added == 1
              && r.store.winners == s.winners + [Winner(u, p)]
              && r.store.users == s.users && r.store.prizes == s.prizes
    ensures Winner(u, p) in r.store.winners
    ensures UniquePairs(s.winners) ==> UniquePairs(r.store.winners)
    ensures CountPrize(r.store.winners, p) == CountPrize(s.winners, p) + r.added
    ensures forall q :: q != p ==> CountPrize(r.store.winners, q) == CountPrize(s.winners, q)
  {
    if Winner(u, p) in s.winners then Insertion(s, 0)
    else
      var w := s.winners + [Winner(u, p)];
      assert w[..|w| - 1] == s.winners;
      Insertion(s.(winners := w), 1)
  }

  /** `mark_prize_used`: set `used = 1` on the row with that id; an unknown id updates nothing. */
  function MarkPrizeUsed(s: Store, p: PrizeId): (r: Store)
    ensures |r.prizes| == |s.prizes|
    ensures HasPrize(s, p) ==> PrizeAt(r, p) == PrizeAt(s, p).(used := true)
    ensures forall q :: HasPrize(s, q) && q != p ==> PrizeAt(r, q) == PrizeAt(s, q)
    ensures UnusedSet(r) == UnusedSet(s) - {p}
    ensures r.users == s.users && r.winners == s.winners
  {
    if HasPrize(s, p) then s.(prizes := s.prizes[p - 1 := s.prizes[p - 1].(used := true)])
    else s
  }

  /** `get_users`: the registered ids, in the ascending rowid order of a table scan. */
  function GetUsers(s: Store): (r: seq<UserId>)
    ensures |r| == |s.users|
    ensures forall u :: u in r <==> u in s.users
    ensures forall i, j :: 0 <= i < j < |r| ==> r[i] < r[j]
  {
    Ascending(s.users.Keys)
  }

  /** `get_prize_img`: the image of the prize; `fetchall()[0]` on an unknown id raises IndexError. */
  function GetPrizeImg(s: Store, p: PrizeId): (r: Option<string>)
    ensures r.Some? <==> HasPrize(s, p)
    ensures r.Some? ==> r.value == PrizeAt(s, p).image
  {
    if HasPrize(s, p) then Some(s.prizes[p - 1].image) else None
  }

  /**
   * `get_random_prize`: `ORDER BY random()` then the first row. The random
   * order is the oracle `pick`, which selects one of the unused prizes.
   */
  function GetRandomPrize(s: Store, pick: nat): (r: Option<PrizeRow>)
    ensures r.None? <==> UnusedSet(s) == {}
    ensures r.Some? ==> IsUnused(s, r.value.id) && r.value.image == PrizeAt(s, r.value.id).image
  {
    var ids := UnusedIds(s);
    if ids == [] then None
    else
      var p := ids[pick % |ids|];
      assert p in ids;
      Some(PrizeRow(p, s.prizes[p - 1].image))
  }

  /** `get_winners_count`: `COUNT(*)` of the winners rows for the prize. */
  function GetWinnersCount(s: Store, p: PrizeId): (n: nat)
    ensures n <= |s.winners|
    ensures n == 0 <==> forall u :: Winner(u, p) !in s.winners
  {
    CountPrize(s.winners, p)
  }

  /**
   * `get_winners_img`: images of the user's winners rows joined with
   * `prizes`, in winners order. The inner join drops a row whose prize id
   * has no prize.
   */
  function GetWinnersImg(s: Store, u: UserId): (r: seq<string>)
    ensures |r| <= CountUser(s.winners, u)
    ensures forall img :: img in r <==>
              exists p :: Winner(u, p) in s.winners && HasPrize(s, p) && PrizeAt(s, p).image == img
  {
    WonImages(s.prizes, s.winners, u)
  }

  // ----- Helpers -----

  /** Prize ids whose flag is 0, ascending. */
  function UnusedIds(s: Store): (r: seq<PrizeId>)
    ensures forall p :: p in r <==> IsUnused(s, p)
    ensures forall i, j :: 0 <= i < j < |r| ==> r[i] < r[j]
    decreases |s.prizes|
  {
    if s.prizes == [] then []
    else
      var n := |s.prizes|;
      var s' := s.(prizes := s.prizes[..n - 1]);
      var rest := UnusedIds(s');
      forall p | p != n ensures IsUnused(s', p) <==> IsUnused(s, p) {
        if 1 <= p < n {
          assert s'.prizes[p - 1] == s.prizes[p - 1];
        }
      }
      forall i | 0 <= i < |rest| ensures rest[i] < n {
        assert rest[i] in rest;
      }
      if s.prizes[n - 1].used then rest else rest + [n]
  }

  predicate IsLeast(m: int, ids: set<int>) {
    m in ids && forall x :: x in ids ==> m <= x
  }

  lemma {:induction false} LeastExists(ids: set<int>)
    requires ids != {}
    ensures exists m :: IsLeast(m, ids)
    decreases |ids|
  {
    assert exists y :: y in ids by {
      if forall y :: y !in ids {
        assert false;
      }
    }
    var y :| y in ids;
    if ids != {y} {
      var rest := ids - {y};
      LeastExists(rest);
      var m :| IsLeast(m, rest);
      var least := if y < m then y else m;
      forall x | x in ids ensures least <= x {
        if x != y {
          assert x in rest;
        }
      }
      assert IsLeast(least, ids);
    } else {
      assert IsLeast(y, ids);
    }
  }

  /** The least element of a non-empty finite set of integers. */
  function Least(ids: set<int>): (m: int)
    requires ids != {}
    ensures IsLeast(m, ids)
  {
    LeastExists(ids);
    var m :| IsLeast(m, ids);
    m
  }

  lemma LeastRemoved(m: int, ids: set<int>)
    requires IsLeast(m, ids)
    ensures |ids - {m}| == |ids| - 1
    ensures forall x :: x in ids - {m} ==> m < x
    ensures forall x :: x in ids <==> x == m || x in ids - {m}
  {
  }

  lemma IncreasingCons(m: int, rest: seq<int>)
    requires forall x :: x in rest ==> m < x
    requires forall i, j :: 0 <= i < j < |rest| ==> rest[i] < rest[j]
    ensures forall i, j :: 0 <= i < j < |[m] + rest| ==> ([m] + rest)[i] < ([m] + rest)[j]
  {
    var r := [m] + rest;
    forall i, j | 0 <= i < j < |r| ensures r[i] < r[j] {
      assert r[j] == rest[j - 1];
      if i == 0 {
        assert rest[j - 1] in rest;
      } else {
        assert r[i] == rest[i - 1];
      }
    }
  }

  /** The elements of a finite set of integers in strictly increasing order. */
  function Ascending(ids: set<int>): (r: seq<int>)
    ensures |r| == |ids|
    ensures forall x :: x in r <==> x in ids
    ensures forall i, j :: 0 <= i < j < |r| ==> r[i] < r[j]
    decreases |ids|
  {
    if ids == {} then []
    else
      var m := Least(ids);
      LeastRemoved(m, ids);
      var rest := Ascending(ids - {m});
      IncreasingCons(m, rest);
      [m] + rest
  }

  function WonImages(ps: seq<Prize>, w: seq<Winner>, u: UserId): (r: seq<string>)
    ensures |r| <= CountUser(w, u)
    ensures forall img :: img in r <==>
              exists p :: Winner(u, p) in w && 1 <= p <= |ps| && ps[p - 1].image == img
  {
    if w == [] then []
    else
      var last := w[|w| - 1];
      var rest := WonImages(ps, w[..|w| - 1], u);
      assert forall x :: x in w <==> x in w[..|w| - 1] || x == last;
      if last.user == u && 1 <= last.prize <= |ps| then rest + [ps[last.prize - 1].image] else rest
  }

  // ----- Lemmas -----

  /** Appending a row adds its user to the claimants of its prize and changes no other prize's claimants. */
  lemma ClaimantsSnoc(w: seq<Winner>, x: Winner, p: PrizeId)
    ensures ClaimantsOf(w + [x], p) == ClaimantsOf(w, p) + (if x.prize == p then {x.user} else {})
  {
    var w2 := w + [x];
    forall u | u in ClaimantsOf(w2, p) ensures u in ClaimantsOf(w, p) + (if x.prize == p then {x.user} else {}) {
      var i :| 0 <= i < |w2| && w2[i].prize == p && w2[i].user == u;
      if i < |w| {
        assert w[i] == w2[i];
      }
    }
    forall u | u in ClaimantsOf(w, p) ensures u in ClaimantsOf(w2, p) {
      var i :| 0 <= i < |w| && w[i].prize == p && w[i].user == u;
      assert w2[i] == w[i];
    }
    if x.prize == p {
      assert w2[|w|] == x;
    }
  }

  /** Under unique pairs, the count of a prize's rows is the number of distinct users who won it. */
  lemma {:induction false} CountIsClaimants(w: seq<Winner>, p: PrizeId)
    requires UniquePairs(w)
    ensures CountPrize(w, p) == |ClaimantsOf(w, p)|
  {
    if w != [] {
      var w' := w[..|w| - 1];
      var last := w[|w| - 1];
      assert w == w' + [last];
      assert UniquePairs(w') by {
        forall i, j | 0 <= i < j < |w'| ensures w'[i] != w'[j] {
          assert w'[i] == w[i] && w'[j] == w[j];
        }
      }
      CountIsClaimants(w', p);
      ClaimantsSnoc(w', last, p);
      if last.prize == p {
        forall i | 0 <= i < |w'| && w'[i].prize == p ensures w'[i].user != last.user {
          assert w[i] == w'[i] && w[i] != w[|w| - 1];
        }
        assert last.user !in ClaimantsOf(w', p);
      }
    }
  }

  /** Every unused prize is the answer of `get_random_prize` for some random order. */
  lemma EveryUnusedPrizeCanBeDrawn(s: Store, p: PrizeId)
    requires IsUnused(s, p)
    ensures exists pick: nat :: GetRandomPrize(s, pick) == Some(PrizeRow(p, PrizeAt(s, p).image))
  {
    var ids := UnusedIds(s);
    var i :| 0 <= i < |ids| && ids[i] == p;
    assert i % |ids| == i;
    assert GetRandomPrize(s, i) == Some(PrizeRow(p, PrizeAt(s, p).image));
  }

  /** Marking twice is marking once. */
  lemma MarkPrizeUsedIdempotent(s: Store, p: PrizeId)
    ensures MarkPrizeUsed(MarkPrizeUsed(s, p), p) == MarkPrizeUsed(s, p)
  {
  }

  /** A new winners row for a known prize adds that prize's image to the user's won images. */
  lemma {:induction false} AddWinnerExtendsWonImages(s: Store, u: UserId, p: PrizeId)
    requires Winner(u, p) !in s.winners && HasPrize(s, p)
    ensures GetWinnersImg(AddWinner(s, u, p).store, u) == GetWinnersImg(s, u) + [PrizeAt(s, p).image]
  {
    var w := s.winners + [Winner(u, p)];
    assert w[..|w| - 1] == s.winners;
  }

  /** Registering twice: the second call fails and leaves the store as the first left it. */
  lemma AddUserTwice(s: Store, id: UserId, name: string, name': string)
    requires id !in s.users
    ensures AddUser(s, id, name).Ok?
    ensures AddUser(AddUser(s, id, name).value, id, name').Err?
  {
  }

  /** A user's won images are empty exactly when none of the user's winners rows names an existing prize. */
  lemma NoImagesWithoutKnownPrize(s: Store, u: UserId)
    ensures GetWinnersImg(s, u) == [] <==> forall p :: Winner(u, p) in s.winners ==> !HasPrize(s, p)
  {
    var r := GetWinnersImg(s, u);
    if r != [] {
      assert r[0] in r;
    } else {
      forall p | Winner(u, p) in s.winners && HasPrize(s, p) ensures PrizeAt(s, p).image in r {
      }
    }
  }
}
