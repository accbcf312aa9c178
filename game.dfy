/**
 * The second version's game rules outside the snake's own body: the game
 * state, the key handler, the record keeping when a game ends, the bomb
 * cap, the player's collision effects and the shop (one-off purchases and
 * upgrades bought with coins).
 */
module Game {
  import opened Wrappers
  import opened Directions
  import opened Geometry
  import opened SnakeBody

  datatype GameState = Running | Paused | Stopped

  datatype UpgradeId = BombSquad | CoinShrink | Phase | DoubleCoin | SlowGrow | DoubleScore

  datatype PurchaseId = Defuse | Cut | Suicide

  /** Upgrade prices as the game sets them up. */
  function UpgradePrice(id: UpgradeId): nat
  {
    match id
    case BombSquad => 125
    case CoinShrink => 100
    case Phase => 100
    case DoubleCoin => 30
    case SlowGrow => 25
    case DoubleScore => 15
  }

  /** Purchase prices as the game sets them up. */
  function PurchasePrice(id: PurchaseId): nat
  {
    match id
    case Defuse => 20
    case Cut => 10
    case Suicide => 5
  }

  /** Coins a new game starts with. */
  const StartCoins: int := 250
  /** `MAX_BOMBS`. */
  const MaxBombs: nat := 10
  /** A snake must be longer than this for "Cut in Half" to be offered. */
  const CutMinLength: nat := 10

  /** `keycodeDirectionMap`: WASD and the arrow keys; every other key code is unmapped. */
  function KeyDirection(keyCode: int): (r: Option<Direction>)
    ensures r.Some? <==> keyCode in {37, 38, 39, 40, 65, 68, 83, 87}
    ensures r == Some(Left) <==> keyCode == 37 || keyCode == 65
    ensures r == Some(Up) <==> keyCode == 38 || keyCode == 87
    ensures r == Some(Right) <==> keyCode == 39 || keyCode == 68
    ensures r == Some(Down) <==> keyCode == 40 || keyCode == 83
  {
    if keyCode == 65 || keyCode == 37 then Some(Left)
    else if keyCode == 87 || keyCode == 38 then Some(Up)
    else if keyCode == 68 || keyCode == 39 then Some(Right)
    else if keyCode == 83 || keyCode == 40 then Some(Down)
    else None
  }

  /**
   * The direction a key press leaves the snake heading in: the key's
   * direction unless the key is unmapped or points straight back.
   */
  function Steer(current: Direction, key: Option<Direction>): (r: Direction)
    ensures !IsOpposite(current, r)
    ensures r == current || Some(r) == key
    ensures key.Some? && !IsOpposite(current, key.value) ==> r == key.value
  {
    match key
    case None => current
    case Some(d) => if IsOpposite(current, d) then current else d
  }

  /**
   * What a shop button's `buy` does with the game's coins: it goes through
   * when the button is enabled and the coins cover the price, and then the
   * price is paid. The first result is the coins afterwards, the second
   * whether it went through.
   */
  function Charge(disabled: bool, coins: int, price: nat): (r: (int, bool))
    ensures r.1 <==> !disabled && coins >= price
    ensures r.0 == if r.1 then coins - price else coins
  {
    if !disabled && coins >= price then (coins - price, true) else (coins, false)
  }

  /** Buying never drives coins below zero, and never raises them. */
  lemma ChargeKeepsCoinsInRange(disabled: bool, coins: int, price: nat)
    requires coins >= 0
    ensures 0 <= Charge(disabled, coins, price).0 <= coins
  {
  }

  /** Buys of enabled items one after another: the coins left and the total paid for the buys that went through. */
  function ChargeAll(coins: int, prices: seq<nat>): (r: (int, nat))
    decreases |prices|
  {
    if prices == [] then (coins, 0)
    else
      var c := Charge(false, coins, prices[0]);
      var rest := ChargeAll(c.0, prices[1..]);
      (rest.0, rest.1 + (if c.1 then prices[0] else 0))
  }

  lemma {:induction false} ChargeAllPaysWhatWasSpent(coins: int, prices: seq<nat>)
    requires coins >= 0
    ensures ChargeAll(coins, prices).0 == coins - ChargeAll(coins, prices).1
    ensures ChargeAll(coins, prices).0 >= 0
    decreases |prices|
  {
    if prices != [] {
      var c := Charge(false, coins, prices[0]);
      ChargeAllPaysWhatWasSpent(c.0, prices[1..]);
    }
  }

  /** A saved record (`highscore`, `longestLifeTicks`) after a game that reached `current`. */
  function Record(best: int, current: int): (r: int)
    ensures r >= best && r >= current
    ensures r == best || r == current
  {
    if current > best then current else best
  }

  /** The record after a series of games. */
  function RecordAll(best: int, games: seq<int>): int
    decreases |games|
  {
    if games == [] then best else RecordAll(Record(best, games[0]), games[1..])
  }

  /** The record after a series of games is the largest of the old record and every game. */
  lemma {:induction false} RecordAllIsMaximum(best: int, games: seq<int>)
    ensures RecordAll(best, games) >= best
    ensures forall i :: 0 <= i < |games| ==> RecordAll(best, games) >= games[i]
    ensures RecordAll(best, games) == best || exists i :: 0 <= i < |games| && RecordAll(best, games) == games[i]
    decreases |games|
  {
    if games != [] {
      var b := Record(best, games[0]);
      RecordAllIsMaximum(b, games[1..]);
      var r := RecordAll(best, games);
      assert r == RecordAll(b, games[1..]);
      forall i | 0 <= i < |games|
        ensures r >= games[i]
      {
        if i > 0 {
          assert games[i] == games[1..][i - 1];
        }
      }
      if r != b {
        var j :| 0 <= j < |games[1..]| && r == games[1..][j];
        assert r == games[j + 1];
      } else if b != best {
        assert r == games[0];
      }
    }
  }

  /**
   * The live bombs after one more is placed: the newest is added last, and
   * once there are more than `MaxBombs` the oldest one goes.
   */
  function CapBombs(bombs: seq<nat>, bomb: nat): (r: seq<nat>)
    ensures |r| > 0 && r[|r| - 1] == bomb
  {
    var added := bombs + [bomb];
    if |added| > MaxBombs then added[1..] else added
  }

  /** With at most `MaxBombs` live before, the newest of the old bombs and the new one live, in order. */
  lemma CapBombsKeepsNewest(bombs: seq<nat>, bomb: nat)
    requires |bombs| <= MaxBombs
    ensures var r := CapBombs(bombs, bomb);
      && |r| == Min(|bombs| + 1, MaxBombs)
      && r == (bombs + [bomb])[|bombs| + 1 - |r|..]
  {
  }

  /** The live bombs after placing several, one after another. */
  function SpawnAll(bombs: seq<nat>, news: seq<nat>): seq<nat>
    decreases |news|
  {
    if news == [] then bombs else SpawnAll(CapBombs(bombs, news[0]), news[1..])
  }

  /** However many bombs are placed, at most `MaxBombs` live: exactly as many as were placed, up to that cap. */
  lemma {:induction false} SpawnAllLength(bombs: seq<nat>, news: seq<nat>)
    requires |bombs| <= MaxBombs
    ensures |SpawnAll(bombs, news)| == Min(|bombs| + |news|, MaxBombs)
    decreases |news|
  {
    if news != [] {
      CapBombsKeepsNewest(bombs, news[0]);
      SpawnAllLength(CapBombs(bombs, news[0]), news[1..]);
    }
  }

  /** However many bombs are placed, only the newest `MaxBombs` of them live, in the order they came. */
  lemma SpawnAllKeepsNewest(bombs: seq<nat>, news: seq<nat>)
    requires |bombs| <= MaxBombs
    ensures var all := bombs + news;
      var r := SpawnAll(bombs, news);
      |r| == Min(|all|, MaxBombs) && r == all[|all| - |r|..]
  {
    SpawnAllLength(bombs, news);
    SpawnAllIsSuffix(bombs, news);
  }

  /** The bombs live after placing several are a suffix of all the bombs placed. */
  lemma {:induction false} SpawnAllIsSuffix(bombs: seq<nat>, news: seq<nat>)
    requires |bombs| <= MaxBombs
    ensures var all := bombs + news;
      var r := SpawnAll(bombs, news);
      |r| <= |all| && r == all[|all| - |r|..]
    decreases |news|
  {
    if news == [] {
      assert bombs + news == bombs;
    } else {
      var next := CapBombs(bombs, news[0]);
      var rest := news[1..];
      CapBombsKeepsNewest(bombs, news[0]);
      SpawnAllIsSuffix(next, rest);
      var added := bombs + [news[0]];
      FirstMovesLeft(bombs, news);
      KeptSuffixGrows(added, rest, next, SpawnAll(next, rest), |added| - |next|);
    }
  }

  /** A suffix of a suffix `next` of `added`, followed by `rest`, is a suffix of `added + rest`. */
  lemma KeptSuffixGrows(added: seq<nat>, rest: seq<nat>, next: seq<nat>, r: seq<nat>, k: nat)
    requires k <= |added| && next == added[k..]
    requires |r| <= |next + rest| && r == (next + rest)[|next + rest| - |r|..]
    ensures |r| <= |added + rest| && r == (added + rest)[|added + rest| - |r|..]
  {
    var all := added + rest;
    SuffixOfConcat(added, rest, k);
    SuffixOfSuffix(all, k, |next + rest| - |r|);
  }

  lemma FirstMovesLeft(s: seq<nat>, t: seq<nat>)
    requires t != []
    ensures s + t == (s + [t[0]]) + t[1..]
  {
    assert t == [t[0]] + t[1..];
  }

  lemma SuffixOfConcat(s: seq<nat>, t: seq<nat>, k: nat)
    requires k <= |s|
    ensures (s + t)[k..] == s[k..] + t
  {
  }

  lemma SuffixOfSuffix(s: seq<nat>, i: nat, j: nat)
    requires i <= |s| && j <= |s| - i
    ensures s[i..][j..] == s[i + j..]
  {
  }

  /**
   * The live bombs once `bomb` has died and been swept: every other bomb,
   * in the same order.
   */
  function WithoutBomb(bombs: seq<nat>, bomb: nat): (r: seq<nat>)
    ensures forall b :: b in r <==> b in bombs && b != bomb
    ensures |r| <= |bombs| && (bomb in bombs ==> |r| < |bombs|)
    ensures bomb !in bombs ==> r == bombs
  {
    if bombs == [] then []
    else if bombs[0] == bomb then WithoutBomb(bombs[1..], bomb)
    else [bombs[0]] + WithoutBomb(bombs[1..], bomb)
  }

  /** Sweeping a concatenation sweeps each part in place, so the other bombs keep their order. */
  lemma {:induction false} WithoutBombDistributes(a: seq<nat>, b: seq<nat>, bomb: nat)
    ensures WithoutBomb(a + b, bomb) == WithoutBomb(a, bomb) + WithoutBomb(b, bomb)
  {
    if a == [] {
      assert a + b == b;
    } else {
      assert (a + b)[0] == a[0] && (a + b)[1..] == a[1..] + b;
      WithoutBombDistributes(a[1..], b, bomb);
    }
  }

  /** A bomb that is live once is cut out of its slot, and the bombs before and after it stay as they were. */
  lemma WithoutBombCutsOut(bombs: seq<nat>, i: nat)
    requires i < |bombs| && bombs[i] !in bombs[..i] && bombs[i] !in bombs[i + 1..]
    ensures WithoutBomb(bombs, bombs[i]) == bombs[..i] + bombs[i + 1..]
  {
    assert bombs == bombs[..i] + [bombs[i]] + bombs[i + 1..];
    WithoutBombBetween(bombs[..i], bombs[i], bombs[i + 1..]);
  }

  /** Sweeping a bomb that sits once between two runs of other bombs joins the two runs. */
  lemma WithoutBombBetween(before: seq<nat>, bomb: nat, after: seq<nat>)
    requires bomb !in before && bomb !in after
    ensures WithoutBomb(before + [bomb] + after, bomb) == before + after
  {
    WithoutBombDistributes(before + [bomb], after, bomb);
    WithoutBombDistributes(before, [bomb], bomb);
    WithoutBombAlone(bomb);
  }

  lemma WithoutBombAlone(bomb: nat)
    ensures WithoutBomb([bomb], bomb) == []
  {
    assert [bomb][1..] == [];
  }

  /** A one-off shop item (`Purchase`): Defuse all bombs, Cut in Half, Suicide. */
  class Purchase {
    const id: PurchaseId
    const price: nat
    var disabled: bool
    var purchased: bool

    constructor (id: PurchaseId)
      ensures this.id == id && price == PurchasePrice(id)
      ensures disabled && !purchased
    {
      this.id := id;
      price := PurchasePrice(id);
      disabled := true;
      purchased := false;
    }

    /** `buy`, up to the purchase's effect, which the game applies when this reports it went through. */
    method Buy(game: SnakeGame) returns (fired: bool)
      modifies this`purchased, game`coins
      ensures (game.coins, fired) == Charge(old(disabled), old(game.coins), price)
      ensures purchased == (old(purchased) || fired)
    {
      fired := false;
      if !disabled {
        if game.coins >= price {
          game.coins := game.coins - price;
          purchased := true;
          fired := true;
        }
      }
    }

    /**
     * `update`: the button is disabled while the coins do not cover the
     * price; for "Cut in Half" that is replaced by "while the snake has at
     * most `CutMinLength` parts" (buying still checks the coins).
     */
    method Update(game: SnakeGame)
      requires id == Cut ==> game.snake != null
      modifies this`disabled
      ensures disabled == if id == Cut then |game.snake.parts| <= CutMinLength else game.coins < price
    {
      disabled := game.coins < price;
      if id == Cut {
        var length := |game.snake.parts|;
        disabled := length <= CutMinLength;
      }
    }
  }

  /** An upgrade (`Upgrade`): bought at most once per game, reset when the game ends. */
  class Upgrade {
    const id: UpgradeId
    const price: nat
    var disabled: bool
    var purchased: bool

    constructor (id: UpgradeId)
      ensures this.id == id && price == UpgradePrice(id)
      ensures disabled && !purchased
    {
      this.id := id;
      price := UpgradePrice(id);
      disabled := true;
      purchased := false;
    }

    /**
     * `buy`: an upgrade not yet bought is charged like a purchase and is
     * then bought and disabled whether or not the charge went through; a
     * bought upgrade ignores the click. This is the code as written: an
     * upgrade the coins do not cover is granted for free (see
     * `FreeUpgradeAsWritten`); the game uses `BuyCharged` instead.
     */
    method Buy(game: SnakeGame) returns (fired: bool)
      modifies this`purchased, this`disabled, game`coins
      ensures old(purchased) ==>
        !fired && purchased && disabled == old(disabled) && game.coins == old(game.coins)
      ensures !old(purchased) ==>
        (game.coins, fired) == Charge(old(disabled), old(game.coins), price) && purchased && disabled
    {
      fired := false;
      if !purchased {
        if !disabled {
          if game.coins >= price {
            game.coins := game.coins - price;
            purchased := true;
            fired := true;
          }
        }
        disabled := true;
        purchased := true;
      }
    }

    /**
     * `buy` as evidently intended: an upgrade not yet bought is charged like
     * a purchase, and only when the charge went through is it bought and
     * disabled; otherwise nothing changes.
     */
    method BuyCharged(game: SnakeGame) returns (fired: bool)
      modifies this`purchased, this`disabled, game`coins
      ensures old(purchased) ==>
        !fired && purchased && disabled == old(disabled) && game.coins == old(game.coins)
      ensures !old(purchased) ==>
        && (game.coins, fired) == Charge(old(disabled), old(game.coins), price)
        && purchased == fired && disabled == (old(disabled) || fired)
    {
      fired := false;
      if !purchased && !disabled && game.coins >= price {
        game.coins := game.coins - price;
        disabled := true;
        purchased := true;
        fired := true;
      }
    }

    /** `update`: disabled while the coins do not cover the price (even once bought). */
    method Update(game: SnakeGame)
      modifies this`disabled
      ensures disabled == (game.coins < price)
    {
      disabled := game.coins < price;
    }
  }

  /** The six upgrades `initialize` puts in the shop, keyed by id, none bought yet. */
  method NewUpgrades() returns (m: map<UpgradeId, Upgrade>)
    ensures fresh(m.Values)
    ensures forall id: UpgradeId :: id in m && m[id].id == id && m[id].price == UpgradePrice(id)
    ensures forall u :: u in m.Values ==> u.disabled && !u.purchased
  {
    var bombSquad := new Upgrade(BombSquad);
    var coinShrink := new Upgrade(CoinShrink);
    var phase := new Upgrade(Phase);
    var doubleCoin := new Upgrade(DoubleCoin);
    var slowGrow := new Upgrade(SlowGrow);
    var doubleScore := new Upgrade(DoubleScore);
    m := map[BombSquad := bombSquad, CoinShrink := coinShrink, Phase := phase,
             DoubleCoin := doubleCoin, SlowGrow := slowGrow, DoubleScore := doubleScore];
    forall id: UpgradeId
      ensures id in m && m[id].id == id && m[id].price == UpgradePrice(id)
    {
      match id
      case BombSquad =>
      case CoinShrink =>
      case Phase =>
      case DoubleCoin =>
      case SlowGrow =>
      case DoubleScore =>
    }
  }

  /** The three purchases `initialize` puts in the shop, keyed by id, none bought yet. */
  method NewPurchases() returns (m: map<PurchaseId, Purchase>)
    ensures fresh(m.Values)
    ensures forall id: PurchaseId :: id in m && m[id].id == id && m[id].price == PurchasePrice(id)
    ensures forall p :: p in m.Values ==> p.disabled && !p.purchased
  {
    var defuse := new Purchase(Defuse);
    var cut := new Purchase(Cut);
    var suicide := new Purchase(Suicide);
    m := map[Defuse := defuse, Cut := cut, Suicide := suicide];
    forall id: PurchaseId
      ensures id in m && m[id].id == id && m[id].price == PurchasePrice(id)
    {
      match id
      case Defuse =>
      case Cut =>
      case Suicide =>
    }
  }

  /** `SnakeGame`: one game session and the records kept across games. */
  class SnakeGame {
    var state: GameState
    var ticks: int
    var score: int
    var coins: int
    /** `savedValues.highscore` and `savedValues.longestLifeTicks`. */
    var highscore: int
    var longestLifeTicks: int
    /** `prevKeyodeTicks`: the tick of the last key press handled while running, if any. */
    var prevKeyTicks: Option<int>
    /** `currentSnake`: absent until the first game starts. */
    var snake: Snake?
    /** The live bombs, oldest first. */
    var bombs: seq<nat>
    var upgrades: map<UpgradeId, Upgrade>
    var purchases: map<PurchaseId, Purchase>

    ghost predicate Valid()
      reads this, upgrades.Values, purchases.Values
    {
      && (forall id: UpgradeId :: id in upgrades && upgrades[id].id == id)
      && (forall id: PurchaseId :: id in purchases && purchases[id].id == id)
      && (state != Stopped ==> snake != null)
      && (snake == null ==>
            (forall u :: u in upgrades.Values ==> u.disabled) &&
            (forall p :: p in purchases.Values ==> p.disabled))
      && |bombs| <= MaxBombs
    }

    /**
     * `initialize`, without the pictures, entities and page: the records
     * come from the saved values, which are read from storage outside the model.
     */
    constructor (savedHighscore: int, savedLongestLifeTicks: int)
      ensures Valid() && fresh(upgrades.Values) && fresh(purchases.Values)
      ensures state == Stopped && ticks == 0 && score == 0 && coins == 0 && bombs == []
      ensures highscore == savedHighscore && longestLifeTicks == savedLongestLifeTicks
      ensures snake == null && prevKeyTicks == None
      ensures forall id: UpgradeId :: upgrades[id].price == UpgradePrice(id) && !upgrades[id].purchased
      ensures forall id: PurchaseId :: purchases[id].price == PurchasePrice(id) && !purchases[id].purchased
    {
      state := Stopped;
      ticks, score, coins := 0, 0, 0;
      highscore, longestLifeTicks := savedHighscore, savedLongestLifeTicks;
      prevKeyTicks := None;
      snake := null;
      bombs := [];
      var shopUpgrades := NewUpgrades();
      var shopPurchases := NewPurchases();
      upgrades, purchases := shopUpgrades, shopPurchases;
    }

    /** `hasUpgrade`. */
    predicate HasUpgrade(id: UpgradeId)
      requires id in upgrades
      reads this, upgrades.Values
    {
      upgrades[id].purchased
    }

    /**
     * `onKeyDown`: while running, the first key of a tick may turn the
     * snake, never straight back; every key while running marks the tick,
     * mapped or not. Outside a game nothing happens.
     */
    method OnKeyDown(keyCode: int)
      requires Valid()
      modifies this`prevKeyTicks, {snake}`direction
      ensures old(state) != Running ==> prevKeyTicks == old(prevKeyTicks) && (snake != null ==> snake.direction == old(snake.direction))
      ensures old(state) == Running ==> prevKeyTicks == Some(ticks)
      ensures old(state) == Running ==>
        snake.direction ==
          if old(prevKeyTicks) != Some(ticks) then Steer(old(snake.direction), KeyDirection(keyCode))
          else old(snake.direction)
      ensures snake != null ==> !IsOpposite(old(snake.direction), snake.direction)
    {
      if state == Running {
        if prevKeyTicks != Some(ticks) {
          var newDirection := KeyDirection(keyCode);
          if newDirection.Some? {
            if !IsOpposite(snake.direction, newDirection.value) {
              snake.direction := newDirection.value;
            }
          }
        }
        prevKeyTicks := Some(ticks);
      }
    }

    /**
     * `startNewGame`: a fresh snake, which its first `update` moves one cell
     * ahead (the image choice and the border check of that `update` are
     * outside the model), no score, no ticks and the start coins.
     */
    method StartNewGame()
      requires Valid()
      modifies this`state, this`snake, this`score, this`ticks, this`coins
      ensures Valid() && fresh(snake)
      ensures state == Running && score == 0 && ticks == 0 && coins == StartCoins
      ensures |snake.parts| == StartLength && !snake.dead && snake.direction == Right
      ensures forall j :: 0 <= j < StartLength ==> snake.parts[j] == Point(StartLength + 3 - j, 2)
      ensures snake.growthLeft == 0 && snake.growthOnFeed == StartGrowthOnFeed && !snake.canDefuseBombs
      ensures snake.applesEaten == 0
    {
      state := Running;
      snake := new Snake();
      ghost var start := snake.Value();
      snake.Move(snake.direction, 1);
      assert snake.Value() == Step(start, Right);
      score := 0;
      ticks := 0;
      coins := StartCoins;
    }

    /**
     * `stopGame`: the entities die (the player's snake included; its own
     * `kill` calls back into here, which changes nothing more), bombs are
     * cleared, the records keep their maxima and every upgrade is reset.
     */
    method StopGame()
      requires Valid()
      modifies this`state, this`bombs, this`highscore, this`longestLifeTicks, {snake}`dead, upgrades.Values`purchased
      ensures Valid()
      ensures state == Stopped && bombs == []
      ensures highscore == Record(old(highscore), score)
      ensures longestLifeTicks == Record(old(longestLifeTicks), ticks)
      ensures snake != null ==> snake.dead
      ensures forall u :: u in upgrades.Values ==> !u.purchased && u.disabled == old(u.disabled)
    {
      state := Stopped;
      if snake != null && !snake.dead {
        snake.dead := true;
      }
      bombs := [];
      if score > highscore {
        highscore := score;
      }
      var longest := longestLifeTicks;
      if ticks > longest {
        longestLifeTicks := ticks;
      }
      forall u | u in upgrades.Values {
        u.purchased := false;
      }
    }

    /** A bomb appears (the tick it is due is drawn at random, outside the model). */
    method SpawnBomb(bomb: nat)
      requires Valid() && bomb !in bombs
      modifies this`bombs
      ensures Valid()
      ensures bombs == CapBombs(old(bombs), bomb)
    {
      bombs := bombs + [bomb];
      if |bombs| > MaxBombs {
        bombs := bombs[1..];
      }
    }

    /**
     * `PlayerSnake.onCollide`: with the phase upgrade other snakes (itself
     * included) are passed through; a bomb it can defuse dies and leaves
     * the live bombs (`bomb` names it when `other` is a bomb); then the
     * snake's own rules apply, and the snake dying ends the game; food
     * scores 1 (2 with double score); a coin shrinks the snake by its tail
     * with coin shrink, and is worth 1 coin (2 with double coin).
     */
    method OnPlayerCollide(other: EntityKind, bomb: nat) returns (otherKilled: bool)
      requires Valid() && snake != null
      modifies this`state, this`bombs, this`highscore, this`longestLifeTicks, this`score, this`coins
      modifies snake`dead, snake`growthLeft, snake`applesEaten, snake`parts, upgrades.Values`purchased
      ensures Valid()
      ensures otherKilled <==>
        || (other == BombEntity && old(snake.canDefuseBombs))
        || other == FoodEntity || other == CoinEntity
      ensures
        var killed := (other == SnakeEntity && !old(HasUpgrade(Phase))) || (other == BombEntity && !old(snake.canDefuseBombs));
        && (killed ==>
              && state == Stopped && snake.dead && bombs == []
              && highscore == Record(old(highscore), old(score))
              && longestLifeTicks == Record(old(longestLifeTicks), ticks)
              && forall u :: u in upgrades.Values ==> !u.purchased)
        && (!killed ==>
              && state == old(state) && snake.dead == old(snake.dead)
              && bombs == (if other == BombEntity then WithoutBomb(old(bombs), bomb) else old(bombs))
              && highscore == old(highscore) && longestLifeTicks == old(longestLifeTicks)
              && forall u :: u in upgrades.Values ==> u.purchased == old(u.purchased))
      ensures forall u :: u in upgrades.Values ==> u.disabled == old(u.disabled)
      ensures score == old(score) + if other != FoodEntity then 0 else if old(HasUpgrade(DoubleScore)) then 2 else 1
      ensures coins == old(coins) + if other != CoinEntity then 0 else if old(HasUpgrade(DoubleCoin)) then 2 else 1
      ensures other == FoodEntity ==>
        snake.growthLeft == old(snake.growthLeft) + snake.growthOnFeed && snake.applesEaten == old(snake.applesEaten) + 1
      ensures other != FoodEntity ==>
        snake.growthLeft == old(snake.growthLeft) && snake.applesEaten == old(snake.applesEaten)
      ensures snake.parts ==
        if other == CoinEntity && old(HasUpgrade(CoinShrink)) && |old(snake.parts)| > 0
        then old(snake.parts)[..|old(snake.parts)| - 1]
        else old(snake.parts)
    {
      otherKilled := false;
      if other == SnakeEntity && HasUpgrade(Phase) {
        return;
      } else if other == BombEntity {
        if snake.canDefuseBombs {
          otherKilled := true;
          bombs := WithoutBomb(bombs, bomb);
        }
      }
      var selfKilled, killedByRules := snake.OnCollide(other);
      otherKilled := otherKilled || killedByRules;
      if selfKilled {
        StopGame();
      }
      CollectReward(other);
    }

    /**
     * The rest of `PlayerSnake.onCollide`, after the snake's own rules: food
     * scores 1 (2 with double score); a coin shrinks the snake by its tail
     * with coin shrink and is worth 1 coin (2 with double coin).
     */
    method CollectReward(other: EntityKind)
      requires snake != null && forall id: UpgradeId :: id in upgrades
      modifies this`score, this`coins, snake`parts
      ensures score == old(score) + if other != FoodEntity then 0 else if HasUpgrade(DoubleScore) then 2 else 1
      ensures coins == old(coins) + if other != CoinEntity then 0 else if HasUpgrade(DoubleCoin) then 2 else 1
      ensures snake.parts ==
        if other == CoinEntity && HasUpgrade(CoinShrink) && |old(snake.parts)| > 0
        then old(snake.parts)[..|old(snake.parts)| - 1]
        else old(snake.parts)
    {
      if other == FoodEntity {
        if HasUpgrade(DoubleScore) {
          score := score + 2;
        } else {
          score := score + 1;
        }
      } else if other == CoinEntity {
        if HasUpgrade(CoinShrink) {
          var _ := snake.PopButt();
        }
        if HasUpgrade(DoubleCoin) {
          coins := coins + 2;
        } else {
          coins := coins + 1;
        }
      }
    }

    /**
     * A click on a purchase: `buy`, and when it goes through the purchase's
     * effect. Defusing kills every bomb (dead bombs leave the live set);
     * cutting halves the snake; suicide ends the game.
     */
    method BuyPurchase(id: PurchaseId)
      requires Valid()
      modifies {purchases[id]}`purchased, this`coins, this`state, this`bombs, this`highscore, this`longestLifeTicks
      modifies {snake}`dead, {snake}`parts, upgrades.Values`purchased
      ensures Valid()
      ensures
        var c := Charge(old(purchases[id].disabled), old(coins), purchases[id].price);
        && coins == c.0
        && purchases[id].purchased == (old(purchases[id].purchased) || c.1)
        && (c.1 ==> snake != null)
        && (c.1 && id == Defuse ==> bombs == [])
        && (c.1 && id == Cut ==>
              snake.parts == if |old(snake.parts)| > 2 then old(snake.parts)[..|old(snake.parts)| / 2] else old(snake.parts))
        && (c.1 && id == Suicide ==>
              && state == Stopped && snake.dead && bombs == []
              && highscore == Record(old(highscore), score)
              && longestLifeTicks == Record(old(longestLifeTicks), ticks))
        && (c.1 && id == Suicide ==> forall u :: u in upgrades.Values ==> !u.purchased)
        && (!c.1 || id != Suicide ==>
              && state == old(state) && highscore == old(highscore) && longestLifeTicks == old(longestLifeTicks)
              && (snake != null ==> snake.dead == old(snake.dead))
              && forall u :: u in upgrades.Values ==> u.purchased == old(u.purchased))
        && ((!c.1 || id != Cut) && snake != null ==> snake.parts == old(snake.parts))
        && (!c.1 || id == Cut ==> bombs == old(bombs))
      ensures forall u :: u in upgrades.Values ==> u.disabled == old(u.disabled)
    {
      var purchase := purchases[id];
      var fired := purchase.Buy(this);
      if fired {
        match id
        case Defuse =>
          bombs := [];
        case Cut =>
          snake.CutInHalf();
        case Suicide =>
          StopGame();
      }
    }

    /**
     * A click on an upgrade: `buy` as evidently intended (`BuyCharged`), and
     * when it goes through the upgrade's effect; an upgrade the coins do not
     * cover stays unbought. Bomb squad lets the snake defuse bombs; slow growth halves
     * what food adds; the other upgrades act through `HasUpgrade`.
     */
    method BuyUpgrade(id: UpgradeId)
      requires Valid()
      modifies {upgrades[id]}`purchased, {upgrades[id]}`disabled, this`coins
      modifies {snake}`canDefuseBombs, {snake}`growthOnFeed
      ensures Valid()
      ensures old(HasUpgrade(id)) ==>
        HasUpgrade(id) && coins == old(coins) && upgrades[id].disabled == old(upgrades[id].disabled)
      ensures
        var c := Charge(old(upgrades[id].disabled), old(coins), upgrades[id].price);
        && (!old(HasUpgrade(id)) ==>
              coins == c.0 && HasUpgrade(id) == c.1 && upgrades[id].disabled == (old(upgrades[id].disabled) || c.1))
        && (!old(HasUpgrade(id)) && c.1 ==> snake != null)
        && (!old(HasUpgrade(id)) && c.1 && id == BombSquad ==> snake.canDefuseBombs)
        && (!old(HasUpgrade(id)) && c.1 && id == SlowGrow ==> snake.growthOnFeed == old(snake.growthOnFeed) / 2)
        && (old(HasUpgrade(id)) || !c.1 || id != BombSquad ==>
              snake != null ==> snake.canDefuseBombs == old(snake.canDefuseBombs))
        && (old(HasUpgrade(id)) || !c.1 || id != SlowGrow ==>
              snake != null ==> snake.growthOnFeed == old(snake.growthOnFeed))
    {
      var upgrade := upgrades[id];
      var fired := upgrade.BuyCharged(this);
      if fired {
        ApplyUpgrade(id);
      }
    }

    /** The effect of an upgrade that was just bought (`onPurchase`). */
    method ApplyUpgrade(id: UpgradeId)
      requires snake != null
      modifies snake`canDefuseBombs, snake`growthOnFeed
      ensures snake.canDefuseBombs == (id == BombSquad || old(snake.canDefuseBombs))
      ensures snake.growthOnFeed == if id == SlowGrow then old(snake.growthOnFeed) / 2 else old(snake.growthOnFeed)
    {
      if id == BombSquad {
        snake.canDefuseBombs := true;
      } else if id == SlowGrow {
        snake.growthOnFeed := snake.growthOnFeed / 2;
      }
    }

    /**
     * The shop half of the game's per-tick `update`: outside a stopped game
     * every upgrade and then every purchase refreshes its disabled flag.
     */
    method UpdateShop()
      requires Valid()
      modifies upgrades.Values`disabled, purchases.Values`disabled
      ensures Valid()
      ensures state == Stopped ==>
        && (forall u :: u in upgrades.Values ==> u.disabled == old(u.disabled))
        && (forall p :: p in purchases.Values ==> p.disabled == old(p.disabled))
      ensures state != Stopped ==>
        && (forall id: UpgradeId :: upgrades[id].disabled == (coins < upgrades[id].price))
        && (forall id: PurchaseId ::
              purchases[id].disabled == if id == Cut then |snake.parts| <= CutMinLength else coins < purchases[id].price)
    {
      if state != Stopped {
        UpdateUpgrades();
        UpdatePurchases();
      }
    }

    /** Every upgrade's `update`, in the order the game set them up. */
    method UpdateUpgrades()
      requires Valid() && state != Stopped
      modifies upgrades.Values`disabled
      ensures Valid()
      ensures forall id: UpgradeId :: upgrades[id].disabled == (coins < upgrades[id].price)
    {
      var ups := [BombSquad, CoinShrink, Phase, DoubleCoin, SlowGrow, DoubleScore];
      var i := 0;
      while i < |ups|
        invariant 0 <= i <= |ups|
        invariant forall j :: 0 <= j < i ==> upgrades[ups[j]].disabled == (coins < upgrades[ups[j]].price)
      {
        assert forall j :: 0 <= j < i ==> ups[j] != ups[i];
        upgrades[ups[i]].Update(this);
        i := i + 1;
      }
      forall id: UpgradeId
        ensures upgrades[id].disabled == (coins < upgrades[id].price)
      {
        match id
        case BombSquad => assert ups[0] == id;
        case CoinShrink => assert ups[1] == id;
        case Phase => assert ups[2] == id;
        case DoubleCoin => assert ups[3] == id;
        case SlowGrow => assert ups[4] == id;
        case DoubleScore => assert ups[5] == id;
      }
    }

    /** Every purchase's `update`, in the order the game set them up. */
    method UpdatePurchases()
      requires Valid() && state != Stopped
      modifies purchases.Values`disabled
      ensures Valid()
      ensures forall id: PurchaseId ::
        purchases[id].disabled == if id == Cut then |snake.parts| <= CutMinLength else coins < purchases[id].price
    {
      var ps := [Defuse, Cut, Suicide];
      var i := 0;
      while i < |ps|
        invariant 0 <= i <= |ps|
        invariant forall j :: 0 <= j < i ==>
          purchases[ps[j]].disabled == if ps[j] == Cut then |snake.parts| <= CutMinLength else coins < purchases[ps[j]].price
      {
        assert forall j :: 0 <= j < i ==> ps[j] != ps[i];
        purchases[ps[i]].Update(this);
        i := i + 1;
      }
      forall id: PurchaseId
        ensures purchases[id].disabled == if id == Cut then |snake.parts| <= CutMinLength else coins < purchases[id].price
      {
        match id
        case Defuse => assert ps[0] == id;
        case Cut => assert ps[1] == id;
        case Suicide => assert ps[2] == id;
      }
    }
  }

  /**
   * As written, clicking "Double Score" in a fresh game with no coins, where
   * the upgrade is disabled, grants it without charging anything.
   */
  method FreeUpgradeAsWritten() returns (bought: bool, charged: bool, coinsLeft: int)
    ensures bought && !charged && coinsLeft == 0
  {
    var game := new SnakeGame(0, 0);
    var upgrade := game.upgrades[DoubleScore];
    charged := upgrade.Buy(game);
    bought := game.HasUpgrade(DoubleScore);
    coinsLeft := game.coins;
  }

  /** The same click with the intended `buy` leaves the upgrade unbought. */
  method FreeUpgradeRefused() returns (bought: bool, charged: bool, coinsLeft: int)
    ensures !bought && !charged && coinsLeft == 0
  {
    var game := new SnakeGame(0, 0);
    var upgrade := game.upgrades[DoubleScore];
    charged := upgrade.BuyCharged(game);
    bought := game.HasUpgrade(DoubleScore);
    coinsLeft := game.coins;
  }
}
