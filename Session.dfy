/** The game session: the board, the step counter and the clock, updated in
    place by taps and restarts. */
module Session {
  import opened Wrappers
  import opened InversionCount
  import opened Board
  import opened Solvability

  /** The outcomes of the shuffle that the session will draw, in order: each
      is an arrangement of 0 .. n·n-1, and at least one passes the test (the
      retry loop stops only then). */
  ghost predicate IsShuffleSource(n: nat, draws: seq<seq<int>>)
  {
    && n > 0
    && (forall k :: 0 <= k < |draws| ==> IsBoard(n, draws[k]))
    && (exists k :: 0 <= k < |draws| && IsBoard(n, draws[k]) && Solvable(n, draws[k]))
  }

  /** The position of the first draw that passes the solvability test. */
  ghost function FirstSolvable(n: nat, draws: seq<seq<int>>): (k: nat)
    requires IsShuffleSource(n, draws)
    ensures k < |draws| && Solvable(n, draws[k])
    ensures forall j :: 0 <= j < k ==> !Solvable(n, draws[j])
    decreases |draws|
  {
    if Solvable(n, draws[0]) then 0
    else
      assert IsShuffleSource(n, draws[1..]) by {
        var k :| 0 <= k < |draws| && IsBoard(n, draws[k]) && Solvable(n, draws[k]);
        assert 1 <= k && draws[1..][k - 1] == draws[k];
      }
      1 + FirstSolvable(n, draws[1..])
  }

  class NumberHuarong {
    const size: nat
    var tiles: seq<int>
    var step: nat
    var timeStart: Option<int>
    var running: bool

    /** The session invariant: the tiles form a solvable board, and the clock
        runs exactly when at least one move has been made, with a start time
        recorded exactly while it runs. */
    ghost predicate Valid()
      reads this
    {
      && size >= 2
      && IsBoard(size, tiles)
      && Solvable(size, tiles)
      && (running <==> step > 0)
      && (running <==> timeStart.Some?)
    }

    /** The reset state left by `init_game` and `restart`. */
    ghost predicate IsReset(draws: seq<seq<int>>)
      reads this
      requires IsShuffleSource(size, draws)
    {
      tiles == draws[FirstSolvable(size, draws)] && step == 0 && timeStart == None && !running
    }

    /** The app starts with the given board size and a first shuffled board. */
    constructor (n: nat, draws: seq<seq<int>>)
      requires n >= 2 && IsShuffleSource(n, draws)
      ensures size == n && Valid() && IsReset(draws)
    {
      size := n;
      tiles := [];
      step := 0;
      timeStart := None;
      running := false;
      new;
      InitGame(draws);
    }

    /** A new shuffled board, step 0 and a stopped, unset clock. */
    method InitGame(draws: seq<seq<int>>)
      requires size >= 2 && IsShuffleSource(size, draws)
      modifies this
      ensures Valid() && IsReset(draws)
    {
      GenerateSolvablePuzzle(draws);
      step := 0;
      timeStart := None;
      running := false;
    }

    /** The same reset, whatever state the session was in. */
    method Restart(draws: seq<seq<int>>)
      requires size >= 2 && IsShuffleSource(size, draws)
      modifies this
      ensures Valid() && IsReset(draws)
    {
      InitGame(draws);
    }

    /** Shuffle until the solvability test passes; the tiles end as the first
        draw that passes it. */
    method GenerateSolvablePuzzle(draws: seq<seq<int>>)
      requires size >= 1 && IsShuffleSource(size, draws)
      modifies this`tiles
      ensures tiles == draws[FirstSolvable(size, draws)]
      ensures IsBoard(size, tiles) && Solvable(size, tiles)
    {
      ghost var first := FirstSolvable(size, draws);
      var attempt := 0;
      while true
        invariant attempt <= first
        decreases first - attempt
      {
        // the shuffled candidate is the next draw
        tiles := draws[attempt];
        var ok := IsSolvable();
        if ok {
          break;
        }
        attempt := attempt + 1;
      }
    }

    /** `is_solvable` on the current tiles: the blank's row, the board without
        its blank, the inversion count and the parity rule. */
    method IsSolvable() returns (ok: bool)
      requires size >= 1 && 0 in tiles
      ensures ok == Solvable(size, tiles)
    {
      var board := tiles;
      var blankRow := IndexOf(board, 0) / size + 1;
      board := NonBlank(board);
      var inv := CountInversions(board);
      if size % 2 == 0 {
        ok := (inv + blankRow) % 2 == 0;
      } else {
        ok := inv % 2 == 0;
      }
    }

    /** A tap on the tile showing `num` at clock reading `now`. An illegal tap
        changes nothing; a legal one swaps the tile with the blank, counts a
        step and starts the clock if it was not running; a move that wins
        stops the clock and restarts the game from `draws`. */
    method TapTile(num: int, now: int, draws: seq<seq<int>>)
      requires Valid() && num in tiles
      requires IsShuffleSource(size, draws)
      modifies this
      ensures Valid()
      ensures !IsLegalMove(size, old(tiles), num) ==>
        tiles == old(tiles) && step == old(step) && running == old(running) && timeStart == old(timeStart)
      ensures IsLegalMove(size, old(tiles), num) && !CheckWin(size, Move(size, old(tiles), num)) ==>
        && tiles == Move(size, old(tiles), num)
        && step == old(step) + 1
        && running
        && timeStart == (if old(running) then old(timeStart) else Some(now))
      ensures IsLegalMove(size, old(tiles), num) && CheckWin(size, Move(size, old(tiles), num)) ==>
        IsReset(draws)
    {
      var idx := IndexOf(tiles, num);
      var emptyIdx := IndexOf(tiles, 0);
      if Adjacent(size, idx, emptyIdx) {
        MovePreservesSolvable(size, tiles, num);
        tiles := tiles[emptyIdx := tiles[idx]][idx := tiles[emptyIdx]];
        step := step + 1;
        if !running {
          timeStart := Some(now);
          running := true;
        }
        if CheckWin(size, tiles) {
          running := false;
          Restart(draws);
        }
      }
    }
  }
}
