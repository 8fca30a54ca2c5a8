/**
 * The decision logic of the Telegram handlers in bot.py, run sequentially
 * against the store: the claim button (`callback_query`), the scheduled
 * release (`send_message`), registration (`handle_start`) and the
 * "my wins" command (`handle_get_my_score`). Messages the bot would send
 * are returned as values instead of being sent.
 */
module Bot {
  import opened Wrappers
  import opened Store
  import Collage

  /** Only the first three users get the picture: `get_winners_count(prize_id) < 3`. */
  const Capacity: nat := 3

  datatype ClaimOutcome =
    | Won(image: string)   // the prize photo with the congratulation caption
    | WonUnknownPrize      // the row was inserted, then `get_prize_img` raised IndexError
    | AlreadyReceived      // "you already got the picture"
    | TooLate              // "you did not make it this time"

  predicate Accepted(o: ClaimOutcome) {
    o.Won? || o.WonUnknownPrize?
  }

  datatype Claim = Claim(store: Store, outcome: ClaimOutcome)

  /** No prize has more than `Capacity` winners rows. */
  ghost predicate WithinCapacity(s: Store) {
    forall p :: CountPrize(s.winners, p) <= Capacity
  }

  /** `callback_query`: user `u` presses the button of prize `p`. */
  function CallbackQuery(s: Store, u: UserId, p: PrizeId): (r: Claim)
    ensures CountPrize(s.winners, p) >= Capacity ==> r == Claim(s, TooLate)
    ensures CountPrize(s.winners, p) < Capacity && Winner(u, p) in s.winners ==>
              r == Claim(s, AlreadyReceived)
    ensures CountPrize(s.winners, p) < Capacity && Winner(u, p) !in s.winners ==>
              && r.store.winners == s.winners + [Winner(u, p)]
              && r.store.users == s.users && r.store.prizes == s.prizes
              && r.outcome == (if HasPrize(s, p) then Won(PrizeAt(s, p).image) else WonUnknownPrize)
    ensures Accepted(r.outcome) <==> CountPrize(r.store.winners, p) == CountPrize(s.winners, p) + 1
  {
    if GetWinnersCount(s, p) < Capacity then
      var ins := AddWinner(s, u, p);
      if ins.added == 1 then
        match GetPrizeImg(ins.store, p)
        case Some(img) => Claim(ins.store, Won(img))
        case None => Claim(ins.store, WonUnknownPrize)
      else Claim(ins.store, AlreadyReceived)
    else Claim(s, TooLate)
  }

  /** A button press keeps every prize within capacity and every pair unique. */
  lemma ClaimKeepsInvariants(s: Store, u: UserId, p: PrizeId)
    ensures WithinCapacity(s) ==> WithinCapacity(CallbackQuery(s, u, p).store)
    ensures UniquePairs(s.winners) ==> UniquePairs(CallbackQuery(s, u, p).store.winners)
  {
    var c := CallbackQuery(s, u, p);
    if CountPrize(s.winners, p) < Capacity {
      var ins := AddWinner(s, u, p);
      assert c.store == ins.store;
      if WithinCapacity(s) {
        forall q ensures CountPrize(c.store.winners, q) <= Capacity {
          if q != p {
            assert CountPrize(s.winners, q) <= Capacity;
          }
        }
      }
    }
  }

  datatype Run = Run(store: Store, outcomes: seq<ClaimOutcome>)

  /** Button presses handled one after another, each `Winner(u, p)` being user `u` pressing for prize `p`. */
  function ClaimAll(s: Store, presses: seq<Winner>): (r: Run)
    ensures |r.outcomes| == |presses|
    ensures r.store.users == s.users && r.store.prizes == s.prizes
    decreases |presses|
  {
    if presses == [] then Run(s, [])
    else
      var c := CallbackQuery(s, presses[0].user, presses[0].prize);
      var rest := ClaimAll(c.store, presses[1..]);
      Run(rest.store, [c.outcome] + rest.outcomes)
  }

  /** Handled one at a time, button presses never push a prize past capacity nor duplicate a pair. */
  lemma {:induction false} SequentialClaimsKeepInvariants(s: Store, presses: seq<Winner>)
    ensures WithinCapacity(s) ==> WithinCapacity(ClaimAll(s, presses).store)
    ensures UniquePairs(s.winners) ==> UniquePairs(ClaimAll(s, presses).store.winners)
    decreases |presses|
  {
    if presses != [] {
      var c := CallbackQuery(s, presses[0].user, presses[0].prize);
      ClaimKeepsInvariants(s, presses[0].user, presses[0].prize);
      SequentialClaimsKeepInvariants(c.store, presses[1..]);
    }
  }

  /** Starting from a freshly created database, any sequence of presses keeps both invariants. */
  lemma ClaimsFromEmptyKeepInvariants(presses: seq<Winner>)
    ensures WithinCapacity(ClaimAll(Empty, presses).store)
    ensures UniquePairs(ClaimAll(Empty, presses).store.winners)
  {
    SequentialClaimsKeepInvariants(Empty, presses);
  }

  /** Presses for prize `p` by distinct users, none of whom already won it. */
  predicate FreshPresses(s: Store, p: PrizeId, presses: seq<Winner>) {
    && (forall i :: 0 <= i < |presses| ==> presses[i].prize == p && presses[i] !in s.winners)
    && (forall i, j :: 0 <= i < j < |presses| ==> presses[i].user != presses[j].user)
  }

  /** A first press by a user who has not won the prize yet. */
  lemma FreshPress(s: Store, u: UserId, p: PrizeId)
    requires Winner(u, p) !in s.winners
    ensures var c := CallbackQuery(s, u, p);
            && (Accepted(c.outcome) <==> CountPrize(s.winners, p) < Capacity)
            && (c.outcome == TooLate <==> CountPrize(s.winners, p) >= Capacity)
            && CountPrize(c.store.winners, p) ==
                 (if CountPrize(s.winners, p) < Capacity then CountPrize(s.winners, p) + 1
                  else CountPrize(s.winners, p))
            && (c.store.winners == s.winners || c.store.winners == s.winners + [Winner(u, p)])
  {
  }

  /** After the first of several fresh presses, the remaining ones are still fresh. */
  lemma FreshTail(s: Store, s': Store, p: PrizeId, presses: seq<Winner>)
    requires |presses| > 0 && FreshPresses(s, p, presses)
    requires s'.winners == s.winners || s'.winners == s.winners + [presses[0]]
    ensures FreshPresses(s', p, presses[1..])
  {
    var tail := presses[1..];
    forall i | 0 <= i < |tail| ensures tail[i].prize == p && tail[i] !in s'.winners {
      assert tail[i] == presses[i + 1];
      assert tail[i].user != presses[0].user;
    }
    forall i, j | 0 <= i < j < |tail| ensures tail[i].user != tail[j].user {
      assert tail[i] == presses[i + 1] && tail[j] == presses[j + 1];
    }
  }

  /** The first `free` outcomes are wins and every later one is "too late". */
  predicate ServedInOrder(outcomes: seq<ClaimOutcome>, free: int) {
    forall i :: 0 <= i < |outcomes| ==>
      (Accepted(outcomes[i]) <==> i < free) && (outcomes[i] == TooLate <==> i >= free)
  }

  lemma ServedInOrderCons(first: ClaimOutcome, rest: seq<ClaimOutcome>, free: int)
    requires Accepted(first) <==> free > 0
    requires first == TooLate <==> free <= 0
    requires ServedInOrder(rest, if free > 0 then free - 1 else 0)
    ensures ServedInOrder([first] + rest, free)
  {
    var outcomes := [first] + rest;
    forall i | 0 < i < |outcomes|
      ensures (Accepted(outcomes[i]) <==> i < free) && (outcomes[i] == TooLate <==> i >= free)
    {
      assert outcomes[i] == rest[i - 1];
    }
  }

  /** Distinct users racing for one prize that already has `c <= 3` winners: the first `3 - c` win, the rest are too late. */
  lemma {:induction false} FirstComeFirstServed(s: Store, p: PrizeId, presses: seq<Winner>)
    requires CountPrize(s.winners, p) <= Capacity
    requires FreshPresses(s, p, presses)
    ensures ServedInOrder(ClaimAll(s, presses).outcomes, Capacity - CountPrize(s.winners, p))
    ensures CountPrize(ClaimAll(s, presses).store.winners, p) ==
              if CountPrize(s.winners, p) + |presses| <= Capacity then CountPrize(s.winners, p) + |presses|
              else Capacity
    decreases |presses|
  {
    if presses != [] {
      var n := CountPrize(s.winners, p);
      var c := CallbackQuery(s, presses[0].user, p);
      FreshStep(s, p, presses);
      var tail := presses[1..];
      FirstComeFirstServed(c.store, p, tail);
      var rest := ClaimAll(c.store, tail);
      ServedInOrderCons(c.outcome, rest.outcomes, Capacity - n);
    }
  }

  /** The first of several fresh presses, and how the rest of the run follows from it. */
  lemma FreshStep(s: Store, p: PrizeId, presses: seq<Winner>)
    requires |presses| > 0 && FreshPresses(s, p, presses)
    ensures var n := CountPrize(s.winners, p);
            var c := CallbackQuery(s, presses[0].user, p);
            && (Accepted(c.outcome) <==> n < Capacity)
            && (c.outcome == TooLate <==> n >= Capacity)
            && CountPrize(c.store.winners, p) == (if n < Capacity then n + 1 else n)
            && FreshPresses(c.store, p, presses[1..])
            && ClaimAll(s, presses) ==
                 Run(ClaimAll(c.store, presses[1..]).store, [c.outcome] + ClaimAll(c.store, presses[1..]).outcomes)
  {
    var u := presses[0].user;
    assert presses[0] == Winner(u, p);
    var c := CallbackQuery(s, u, p);
    FreshPress(s, u, p);
    FreshTail(s, c.store, p, presses);
  }

  /** The example of five users pressing the button of a prize nobody has won yet. */
  lemma FiveClaimantsOnFreshPrize(s: Store, p: PrizeId, presses: seq<Winner>)
    requires |presses| == 5 && CountPrize(s.winners, p) == 0
    requires forall i :: 0 <= i < 5 ==> presses[i].prize == p
    requires forall i, j :: 0 <= i < j < 5 ==> presses[i].user != presses[j].user
    ensures Accepted(ClaimAll(s, presses).outcomes[0])
    ensures Accepted(ClaimAll(s, presses).outcomes[1])
    ensures Accepted(ClaimAll(s, presses).outcomes[2])
    ensures ClaimAll(s, presses).outcomes[3] == TooLate
    ensures ClaimAll(s, presses).outcomes[4] == TooLate
    ensures CountPrize(ClaimAll(s, presses).store.winners, p) == 3
  {
    assert FreshPresses(s, p, presses);
    FirstComeFirstServed(s, p, presses);
    var r := ClaimAll(s, presses);
    assert |r.outcomes| == 5 && ServedInOrder(r.outcomes, 3);
  }

  /** Pressing the same button twice while two places remain: a win, then "already received", one new row. */
  lemma SecondPressIsAlreadyReceived(s: Store, u: UserId, p: PrizeId)
    requires CountPrize(s.winners, p) + 1 < Capacity && Winner(u, p) !in s.winners
    ensures Accepted(CallbackQuery(s, u, p).outcome)
    ensures CallbackQuery(CallbackQuery(s, u, p).store, u, p) ==
            Claim(CallbackQuery(s, u, p).store, AlreadyReceived)
    ensures CountPrize(CallbackQuery(s, u, p).store.winners, p) == CountPrize(s.winners, p) + 1
  {
    var first := CallbackQuery(s, u, p);
    assert Winner(u, p) in first.store.winners by {
      assert first.store.winners[|s.winners|] == Winner(u, p);
    }
  }

  /**
   * The user who takes the last place and presses again is told "too late":
   * the count is checked before the pair.
   */
  lemma LastWinnerPressingAgainIsTooLate(s: Store, u: UserId, p: PrizeId)
    requires CountPrize(s.winners, p) + 1 == Capacity && Winner(u, p) !in s.winners
    ensures Accepted(CallbackQuery(s, u, p).outcome)
    ensures CallbackQuery(CallbackQuery(s, u, p).store, u, p) ==
            Claim(CallbackQuery(s, u, p).store, TooLate)
  {
  }

  // ----- Release tick -----

  /** The obscured photo with the "Get!" button carrying the prize id. */
  datatype Invitation = Invitation(user: UserId, prize: PrizeId)

  datatype Tick = Tick(store: Store, released: Option<PrizeId>, invitations: seq<Invitation>)

  /** One invitation per listed user, in the same order, all for prize `p`. */
  function InviteAll(users: seq<UserId>, p: PrizeId): (r: seq<Invitation>)
    ensures |r| == |users|
    ensures forall i :: 0 <= i < |r| ==> r[i].user == users[i] && r[i].prize == p
  {
    seq(|users|, i requires 0 <= i < |users| => Invitation(users[i], p))
  }

  /** `send_message`: draw an unused prize, mark it used, invite every registered user to claim it. */
  function SendMessage(s: Store, pick: nat): (r: Tick)
    ensures |r.store.prizes| == |s.prizes|
    ensures r.released.None? <==> UnusedSet(s) == {}
    ensures r.released.None? ==> r.store == s && r.invitations == []
    ensures r.released.Some? ==>
              && IsUnused(s, r.released.value)
              && PrizeAt(r.store, r.released.value) == PrizeAt(s, r.released.value).(used := true)
              && UnusedSet(r.store) == UnusedSet(s) - {r.released.value}
    ensures forall q :: HasPrize(s, q) && r.released != Some(q) ==> PrizeAt(r.store, q) == PrizeAt(s, q)
    ensures r.store.users == s.users && r.store.winners == s.winners
    ensures r.released.Some? ==>
              && |r.invitations| == |s.users|
              && (forall i :: 0 <= i < |r.invitations| ==> r.invitations[i].prize == r.released.value)
              && (forall u :: u in s.users <==> exists i :: 0 <= i < |r.invitations| && r.invitations[i].user == u)
              && (forall i, j :: 0 <= i < j < |r.invitations| ==> r.invitations[i].user != r.invitations[j].user)
  {
    match GetRandomPrize(s, pick)
    case None => Tick(s, None, [])
    case Some(row) =>
      var s' := MarkPrizeUsed(s, row.id);
      Tick(s', Some(row.id), InviteAll(GetUsers(s'), row.id))
  }

  datatype Schedule = Schedule(store: Store, released: seq<PrizeId>)

  /** Successive ticks, the `k`-th drawing with `picks[k]`; `released` lists the prizes sent, in order. */
  function RunTicks(s: Store, picks: seq<nat>): (r: Schedule)
    ensures forall p :: IsUnused(r.store, p) <==> IsUnused(s, p) && p !in r.released
    ensures forall p :: p in r.released ==> IsUnused(s, p)
    ensures |r.store.prizes| == |s.prizes|
    ensures r.store.users == s.users && r.store.winners == s.winners
    decreases |picks|
  {
    if picks == [] then Schedule(s, [])
    else
      var t := SendMessage(s, picks[0]);
      var rest := RunTicks(t.store, picks[1..]);
      match t.released
      case None => rest
      case Some(p) => Schedule(rest.store, [p] + rest.released)
  }

  /** No prize is released twice. */
  lemma {:induction false} TicksReleaseDistinct(s: Store, picks: seq<nat>)
    ensures Distinct(RunTicks(s, picks).released)
    decreases |picks|
  {
    if picks != [] {
      var t := SendMessage(s, picks[0]);
      TicksReleaseDistinct(t.store, picks[1..]);
      if t.released.Some? {
        var p := t.released.value;
        var rest := RunTicks(t.store, picks[1..]).released;
        assert RunTicks(s, picks).released == [p] + rest;
        assert p !in UnusedSet(t.store);
        assert p !in rest;
        DistinctCons(p, rest);
      }
    }
  }

  /** Each tick releases a prize as long as unused prizes remain. */
  lemma {:induction false} TicksReleaseWhileAvailable(s: Store, picks: seq<nat>)
    ensures |RunTicks(s, picks).released| == if |picks| <= |UnusedSet(s)| then |picks| else |UnusedSet(s)|
    decreases |picks|
  {
    if picks != [] {
      var t := SendMessage(s, picks[0]);
      var rest := RunTicks(t.store, picks[1..]);
      TicksReleaseWhileAvailable(t.store, picks[1..]);
      if t.released.Some? {
        var p := t.released.value;
        assert RunTicks(s, picks).released == [p] + rest.released;
        CardRemove(UnusedSet(s), p);
        assert |UnusedSet(t.store)| == |UnusedSet(s)| - 1;
      } else {
        assert RunTicks(s, picks).released == rest.released;
        assert t.store == s && |UnusedSet(s)| == 0;
      }
    }
  }

  lemma CardRemove(xs: set<PrizeId>, x: PrizeId)
    requires x in xs
    ensures |xs - {x}| == |xs| - 1
  {
  }

  /** A subset as large as its superset is the whole of it. */
  lemma SubsetOfEqualSize(a: set<PrizeId>, b: set<PrizeId>)
    requires a <= b && |a| >= |b|
    ensures a == b
  {
    assert b == a + (b - a);
    assert |b| == |a| + |b - a|;
  }

  predicate Distinct(xs: seq<PrizeId>) {
    forall i, j :: 0 <= i < j < |xs| ==> xs[i] != xs[j]
  }

  lemma DistinctCons(x: PrizeId, xs: seq<PrizeId>)
    requires Distinct(xs) && x !in xs
    ensures Distinct([x] + xs)
  {
    var r := [x] + xs;
    forall i, j | 0 <= i < j < |r| ensures r[i] != r[j] {
      assert r[j] == xs[j - 1];
      if i > 0 {
        assert r[i] == xs[i - 1];
      }
    }
  }

  lemma {:induction false} DistinctCard(xs: seq<PrizeId>)
    requires Distinct(xs)
    ensures |set x | x in xs| == |xs|
  {
    if xs != [] {
      var tail := xs[1..];
      DistinctCard(tail);
      assert (set x | x in xs) == (set x | x in tail) + {xs[0]};
      assert xs[0] !in tail;
    }
  }

  /**
   * Ticking at least as often as there are unused prizes releases each of
   * them exactly once, after which every tick is idle.
   */
  lemma EveryPrizeReleasedOnce(s: Store, picks: seq<nat>, next: nat)
    requires |picks| >= |UnusedSet(s)|
    ensures forall p :: p in RunTicks(s, picks).released <==> IsUnused(s, p)
    ensures UnusedSet(RunTicks(s, picks).store) == {}
    ensures SendMessage(RunTicks(s, picks).store, next).released == None
  {
    var r := RunTicks(s, picks);
    TicksReleaseDistinct(s, picks);
    TicksReleaseWhileAvailable(s, picks);
    assert |r.released| == |UnusedSet(s)|;
    DistinctCard(r.released);
    var sent := set x | x in r.released;
    assert sent <= UnusedSet(s);
    SubsetOfEqualSize(sent, UnusedSet(s));
    forall p ensures p in r.released <==> IsUnused(s, p) {
      assert p in r.released <==> p in sent;
    }
    forall p ensures !IsUnused(r.store, p) {
      if IsUnused(s, p) {
        assert p in sent;
      }
    }
  }

  // ----- Registration and "my wins" -----

  datatype StartReply = AlreadyRegistered | Welcome

  datatype Start = Start(store: Store, reply: StartReply)

  /** `handle_start`: register the chat id unless `get_users` already lists it. */
  function HandleStart(s: Store, u: UserId, name: string): (r: Start)
    ensures u in s.users ==> r == Start(s, AlreadyRegistered)
    ensures u !in s.users ==>
              && r.reply == Welcome
              && r.store.users.Keys == s.users.Keys + {u} && r.store.users[u] == name
              && (forall v :: v in s.users ==> r.store.users[v] == s.users[v])
              && r.store.prizes == s.prizes && r.store.winners == s.winners
  {
    if u in GetUsers(s) then Start(s, AlreadyRegistered)
    else
      match AddUser(s, u, name)
      case Ok(s') => Start(s', Welcome)
      case Err(_) => Start(s, AlreadyRegistered)
  }

  /** `/start` twice: the second reply is "already registered" and changes nothing. */
  lemma StartIsIdempotent(s: Store, u: UserId, name: string, name': string)
    ensures var first := HandleStart(s, u, name);
            HandleStart(first.store, u, name') == Start(first.store, AlreadyRegistered)
    ensures u in HandleStart(s, u, name).store.users
  {
  }

  datatype ScoreReply = NoWinsYet | CollagePhoto(collage: Collage.Collage) | CollageFailed

  /**
   * `handle_get_my_score`: the "no pictures yet" notice, or the collage of
   * the user's pictures at the default size. `failing` are the indices
   * whose image file cannot be opened.
   */
  function HandleGetMyScore(s: Store, u: UserId, failing: set<nat>): (r: ScoreReply)
    ensures r.NoWinsYet? <==> forall p :: Winner(u, p) in s.winners ==> !HasPrize(s, p)
    ensures !r.CollageFailed?
    ensures r.CollagePhoto? ==>
              && r.collage.layout.perRow == Collage.DefaultPerRow
              && Collage.IsGrid(r.collage.layout, |GetWinnersImg(s, u)|, Collage.DefaultWidth, Collage.DefaultHeight)
    ensures r.CollagePhoto? ==>
              && (forall t :: t in r.collage.tiles ==>
                    && t.index < |GetWinnersImg(s, u)| && t.index !in failing
                    && t == Collage.Cell(r.collage.layout, t.index))
              && (forall i: nat :: i < |GetWinnersImg(s, u)| && i !in failing ==>
                    exists t :: t in r.collage.tiles && t.index == i)
    ensures r.CollagePhoto? ==>
              && |r.collage.tiles| <= CountUser(s.winners, u)
              && forall t :: t in r.collage.tiles ==>
                   && t.x + r.collage.layout.thumbW <= Collage.DefaultWidth
                   && t.y + r.collage.layout.thumbH <= Collage.DefaultHeight
    ensures r.CollagePhoto? ==>
              && (forall a, b :: 0 <= a < b < |r.collage.tiles| ==> r.collage.tiles[a].index < r.collage.tiles[b].index)
              && (forall a, b :: 0 <= a < b < |r.collage.tiles| ==>
                    Collage.Disjoint(r.collage.tiles[a], r.collage.tiles[b], r.collage.layout))
  {
    var images := GetWinnersImg(s, u);
    NoImagesWithoutKnownPrize(s, u);
    if images == [] then
      NoWinsYet
    else
      match Collage.CreateCollage(images, failing, Collage.DefaultWidth, Collage.DefaultHeight, Collage.DefaultPerRow)
      case Ok(c) =>
        assert |c.tiles| <= |images| by {
          TilesAtMostImages(c.tiles, |images|);
        }
        CollagePhoto(c)
      case Err(_) => CollageFailed
  }

  lemma {:induction false} TilesAtMostImages(tiles: seq<Collage.Tile>, n: nat)
    requires forall t :: t in tiles ==> t.index < n
    requires forall a, b :: 0 <= a < b < |tiles| ==> tiles[a].index < tiles[b].index
    ensures |tiles| <= n
  {
    if tiles != [] {
      var last := tiles[|tiles| - 1];
      assert last in tiles;
      var init := tiles[..|tiles| - 1];
      forall t | t in init ensures t.index < last.index {
        var k :| 0 <= k < |init| && init[k] == t;
        assert tiles[k] == t;
      }
      TilesAtMostImages(init, last.index);
    }
  }
}
