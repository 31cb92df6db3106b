/** The decision logic of one client session, lifted out of its socket,
    database and timer plumbing: each command the client sends, and each
    tick of the session clock, is one atomic step from the session state to
    a new state and the replies sent back. The stored leaderboard is part
    of the state; a stored game record is an input of LOADFROM. */
module Session {
  import opened Results
  import opened Grid
  import opened Board
  import opened Codec
  import opened Ranking

  /** Replies to the client: BOARD with the encoded board, TIME with the
      remaining seconds, the GETNAME prompt, SCORES with the entries. */
  datatype Reply = BoardReply(record: string) | TimeReply(time: int) | GetName | ScoresReply(text: string)

  /** A command as the client sent it, its arguments already parsed. NEW
      carries the board the default constructor laid out; LOADFROM carries
      the record stored in the chosen slot. */
  datatype Command =
    | Update(button: string, y: int, x: int)
    | NewGame(laid: Board)
    | LoadFrom(saved: string)
    | Score
    | Name(name: string, score: int)

  /** The session's board, whether its clock has been started, and the
      stored leaderboard (the rows of rank 1 to 5, in rank order). */
  datatype State = State(board: Board, clockStarted: bool, top: seq<ScoreRecord>)

  /** The exceptions that end a session: a click on a cell outside the
      grid, or one of the leaderboard errors. */
  datatype Fault = OffBoard | RankFault(error: RankError)

  /** The state after a step, the replies in the order they are sent, and
      the exception, if any, that ends the session. */
  datatype Outcome = Outcome(state: State, replies: seq<Reply>, fault: Option<Fault>)

  /** What every reachable session state satisfies. */
  ghost predicate Inv(s: State) {
    WellFormed(s.board) && ValidStates(s.board) && IsInt(s.board.time) && |s.top| <= TOP
  }

  /** A board as the default constructor lays it out: 16x16, 40 mines,
      every cell hidden, 1000 seconds, neither won nor lost. */
  ghost predicate IsDefaultBoard(b: Board) {
    && WellFormed(b) && |b.mines| == DEFAULT_ROWS && |b.mines[0]| == DEFAULT_COLS
    && GridCount(b.mines, IsMine) == DEFAULT_MINES
    && (forall i, j :: OnBoard(b, i, j) ==> b.revealed[i][j] == HIDDEN)
    && b.time == DEFAULT_TIME && !b.won && !b.lost
  }

  // ---------------------------------------------------------------- UPDATE

  /** A click the board can take: one that only touches the grid when it
      names a cell of the grid. */
  predicate Clickable(b: Board, button: string, y: int, x: int) {
    button == "0" || button == "1" ==> OnBoard(b, y, x)
  }

  /** The grid action of an UPDATE click: button "0" reveals, button "1"
      flags, any other button does nothing. */
  function Click(b: Board, button: string, y: int, x: int): (r: Board)
    requires WellFormed(b) && Clickable(b, button, y, x)
    ensures WellFormed(r) && r.mines == b.mines && r.time == b.time && r.won == b.won
    ensures button == "1" ==> r.lost == b.lost
    ensures button == "0" ==> r == Reveal(b, y, x)
    ensures button == "1" ==> r == SetFlag(b, y, x)
    ensures button != "0" && button != "1" ==> r == b
    ensures ValidStates(b) ==> ValidStates(r)
  {
    if button == "0" then
      RevealKeepsStates(b, y, x);
      Reveal(b, y, x)
    else if button == "1" then SetFlag(b, y, x)
    else b
  }

  /** The win bookkeeping after a click that left the board `c`: a board
      not yet won that passes the win test becomes won, and the high-score
      test decides whether GETNAME goes out ahead of the BOARD reply; with
      an empty leaderboard that test throws and the session ends. */
  function Settle(s: State, c: Board): (r: Outcome)
    requires WellFormed(c)
    ensures r.state.board == c.(won := r.state.board.won)
    ensures r.state.board.won <==> c.won || WinCondition(c)
    ensures r.state.top == s.top && r.state.clockStarted == s.clockStarted
    ensures r.fault.Some? <==> !c.won && r.state.board.won && |s.top| == 0
    ensures r.fault.Some? ==> r.replies == []
    ensures r.fault.None? ==>
              r.replies == (if !c.won && r.state.board.won && exists k :: 0 <= k < |s.top| && c.time > s.top[k].score
                            then [GetName] else []) + [BoardReply(Encode(r.state.board))]
  {
    if !c.won && CheckWinCon(c) then
      var b := c.(won := true);
      match CheckHighScore(b.time, s.top)
      case Failure(e) => Outcome(s.(board := b), [], Some(RankFault(e)))
      case Success(high) =>
        Outcome(s.(board := b), (if high then [GetName] else []) + [BoardReply(Encode(b))], None)
    else Outcome(s.(board := c), [BoardReply(Encode(c))], None)
  }

  /** UPDATE: the click, then the win bookkeeping. A reveal or flag outside
      the grid throws before anything changes. Otherwise won is set exactly
      when it was clear and the board after the click passes the win test,
      and is never cleared. */
  function HandleUpdate(s: State, button: string, y: int, x: int): (r: Outcome)
    requires WellFormed(s.board)
    ensures !Clickable(s.board, button, y, x) <==> r.fault == Some(OffBoard)
    ensures !Clickable(s.board, button, y, x) ==> r.state == s
    ensures Clickable(s.board, button, y, x) ==>
              var c := Click(s.board, button, y, x);
              && r.state.board == c.(won := r.state.board.won)
              && (r.state.board.won <==> s.board.won || WinCondition(c))
              && (r.fault.Some? <==> !s.board.won && r.state.board.won && |s.top| == 0)
    ensures s.board.won ==> r.state.board.won
    ensures r.state.top == s.top && r.state.clockStarted == s.clockStarted
    ensures r.fault.Some? ==> r.replies == []
    ensures r.fault.None? ==>
              r.replies == (if !s.board.won && r.state.board.won && exists k :: 0 <= k < |s.top| && s.board.time > s.top[k].score
                            then [GetName] else []) + [BoardReply(Encode(r.state.board))]
  {
    if Clickable(s.board, button, y, x) then Settle(s, Click(s.board, button, y, x))
    else Outcome(s, [], Some(OffBoard))
  }

  /** A lost board one row high: a revealed mine beside a hidden safe cell. */
  function LostPair(): (b: Board)
    ensures WellFormed(b) && OnBoard(b, 0, 1) && b.lost && !b.won && b.time == 10
  {
    Board([[true, false]], [[REVEALED, HIDDEN]], 10, false, true)
  }

  /** Revealing the safe cell of the lost pair opens every safe cell. */
  lemma LostPairClick()
    ensures WinCondition(Click(LostPair(), "0", 0, 1)) && Click(LostPair(), "0", 0, 1).lost
  {
    var b := LostPair();
    assert b.revealed[0][1] == HIDDEN && !b.mines[0][1];
    var c := Click(b, "0", 0, 1);
    assert c == Reveal(b, 0, 1) && c.mines == b.mines;
    assert c.revealed[0][1] == REVEALED;
    forall i, j | OnBoard(c, i, j) && !c.mines[i][j] ensures Opened(c, i, j) {
      assert i == 0 && 0 <= j < 2;
      assert j != 0 by {
        assert c.mines[0][0];
      }
    }
  }

  /** UPDATE does not look at the lost flag: revealing the last safe cell of
      a lost board still wins it, leaving it both won and lost. */
  lemma LostBoardCanBeWon()
    ensures var r := HandleUpdate(State(LostPair(), true, [ScoreRecord("a", 5)]), "0", 0, 1);
            r.fault.None? && r.state.board.won && r.state.board.lost && GetName in r.replies
  {
    var s := State(LostPair(), true, [ScoreRecord("a", 5)]);
    LostPairClick();
    assert s.top[0].score < s.board.time;
  }

  // ---------------------------------------------------------------- clock

  /** One tick of the session clock. Before the first NEW there is no
      clock; a clock at 0 or below, or a game that is over, changes nothing
      and sends nothing. Otherwise one second goes off; at 0 the game is
      lost and the whole board is sent, else the remaining time is. */
  function Tick(s: State): (r: Outcome)
    requires WellFormed(s.board)
    ensures WellFormed(r.state.board)
    ensures r.fault == None && r.state.top == s.top && r.state.clockStarted == s.clockStarted
    ensures !s.clockStarted || s.board.time <= 0 || s.board.lost || s.board.won ==> r.state == s && r.replies == []
    ensures s.clockStarted && s.board.time > 0 && !s.board.lost && !s.board.won ==>
              var b := r.state.board;
              && b.time == s.board.time - 1 && b.mines == s.board.mines && b.won == s.board.won
              && (b.time <= 0 ==>
                    b.lost && AllMinesRevealed(b) && NonMinesUnchanged(s.board, b) && r.replies == [BoardReply(Encode(b))])
              && (b.time > 0 ==> b == s.board.(time := b.time) && r.replies == [TimeReply(b.time)])
    ensures ValidStates(s.board) ==> ValidStates(r.state.board)
  {
    if !s.clockStarted || s.board.time <= 0 || s.board.lost || s.board.won then Outcome(s, [], None)
    else
      var b := DecrementTime(s.board);
      if b.time <= 0 then
        var l := SetGameLost(b);
        Outcome(s.(board := l), [BoardReply(Encode(l))], None)
      else Outcome(s.(board := b), [TimeReply(b.time)], None)
  }

  /** `n` ticks in a row, with all their replies. */
  function Ticks(s: State, n: nat): (r: Outcome)
    requires WellFormed(s.board)
    ensures WellFormed(r.state.board)
    decreases n
  {
    if n == 0 then Outcome(s, [], None)
    else
      var o := Tick(s);
      var rest := Ticks(o.state, n - 1);
      Outcome(rest.state, o.replies + rest.replies, None)
  }

  /** `replies` counts down: TIME replies t-1, ..., 1, then `last`. */
  ghost predicate CountsDown(replies: seq<Reply>, t: int, last: Reply) {
    t >= 1 && |replies| == t && replies[t - 1] == last
    && forall k :: 0 <= k < t - 1 ==> replies[k] == TimeReply(t - 1 - k)
  }

  /** A running game with `t` seconds left is lost after exactly `t` ticks:
      the clock counts down through TIME replies t-1, ..., 1 and ends with
      the BOARD reply of the lost game. */
  lemma {:induction false} ClockRunsOut(s: State)
    requires WellFormed(s.board) && s.clockStarted && s.board.time > 0 && !s.board.lost && !s.board.won
    ensures var r := Ticks(s, s.board.time);
            && r.state.board.lost && r.state.board.time == 0 && AllMinesRevealed(r.state.board)
            && CountsDown(r.replies, s.board.time, BoardReply(Encode(r.state.board)))
    decreases s.board.time
  {
    var t := s.board.time;
    var o := Tick(s);
    if t > 1 {
      var rest := Ticks(o.state, t - 1);
      var all := Ticks(s, t);
      assert all.state == rest.state && all.replies == [TimeReply(t - 1)] + rest.replies;
      assert o.state.clockStarted && o.state.board.time == t - 1 && !o.state.board.lost && !o.state.board.won;
      ClockRunsOut(o.state);
      CountdownCons(rest.replies, t, BoardReply(Encode(rest.state.board)));
    } else {
      assert Ticks(o.state, 0).replies == [];
    }
  }

  /** A TIME reply for `t - 1` ahead of a countdown from `t - 1` is a
      countdown from `t`. */
  lemma CountdownCons(rest: seq<Reply>, t: int, last: Reply)
    requires t > 1 && CountsDown(rest, t - 1, last)
    ensures CountsDown([TimeReply(t - 1)] + rest, t, last)
  {
    var all := [TimeReply(t - 1)] + rest;
    forall k | 0 <= k < t - 1 ensures all[k] == TimeReply(t - 1 - k) {
      if k > 0 {
        assert all[k] == rest[k - 1];
      }
    }
  }

  /** Without a clock, or once the game is over, further ticks change nothing. */
  lemma {:induction false} TicksAfterGameOver(s: State, n: nat)
    requires WellFormed(s.board) && (!s.clockStarted || s.board.lost || s.board.won || s.board.time <= 0)
    ensures Ticks(s, n).state == s && Ticks(s, n).replies == []
  {
    if n > 0 {
      TicksAfterGameOver(s, n - 1);
    }
  }

  // ---------------------------------------------------------------- NEW and LOADFROM

  /** NEW: the new board replaces the old one, the clock starts if it has
      not yet, and the new board is sent. */
  function HandleNew(s: State, laid: Board): (r: Outcome)
    requires IsDefaultBoard(laid)
    ensures r.state.board == laid && r.state.clockStarted && r.state.top == s.top && r.fault == None
    ensures r.replies == [BoardReply(Encode(laid))]
    ensures Decode(r.replies[0].record) == Success(r.state.board)
  {
    DecodeEncode(laid);
    Outcome(State(laid, true, s.top), [BoardReply(Encode(laid))], None)
  }

  /** The board the default constructor yields from a sequence of random
      draws is a default board. */
  lemma NewBoardIsDefault(draws: seq<Draw>)
    requires forall k :: 0 <= k < |draws| ==> IsValid(draws[k].y, draws[k].x, DEFAULT_ROWS, DEFAULT_COLS)
    requires |FreshCells(Filled(false), draws)| >= DEFAULT_MINES
    ensures NewBoard(draws).Some? && IsDefaultBoard(NewBoard(draws).value)
  {
    var b := NewBoard(draws).value;
    assert WellFormed(b);
  }

  /** LOADFROM: a stored record that decodes replaces the board; one that
      does not leaves the board as it was. The board is sent either way. */
  function HandleLoadFrom(s: State, saved: string): (r: Outcome)
    ensures Decode(saved).Success? ==> r.state.board == Decode(saved).value
    ensures Decode(saved).Failure? ==> r.state.board == s.board
    ensures r.state.top == s.top && r.state.clockStarted == s.clockStarted && r.fault == None
    ensures r.replies == [BoardReply(Encode(r.state.board))]
  {
    var b := match Decode(saved) case Success(loaded) => loaded case Failure(_) => s.board;
    Outcome(s.(board := b), [BoardReply(Encode(b))], None)
  }

  /** Loading the record of the current board gives the same board back. */
  lemma LoadOwnRecord(s: State)
    requires Inv(s) && |s.board.mines[0]| >= 1
    ensures HandleLoadFrom(s, Encode(s.board)).state == s
  {
    DecodeEncode(s.board);
  }

  // ---------------------------------------------------------------- SCORE and NAME

  /** The (name, score text) rows the SCORE query yields. */
  function ScoreRows(top: seq<ScoreRecord>): (rows: seq<(string, string)>)
    ensures |rows| == |top|
    ensures forall k :: 0 <= k < |top| ==> rows[k] == (top[k].name, IntToText(top[k].score))
  {
    seq(|top|, k requires 0 <= k < |top| => (top[k].name, IntToText(top[k].score)))
  }

  /** SCORE: the stored rows sent as fixed-width entries. */
  function HandleScore(s: State): (r: Outcome)
    ensures r.state == s && r.fault == None
    ensures |r.replies| == 1 && r.replies[0].ScoresReply?
    ensures |r.replies[0].text| >= (ENTRY_WIDTH + 1) * |s.top|
    ensures r.replies[0].text == ScoresText(ScoreRows(s.top))
  {
    Outcome(s, [ScoresReply(ScoresText(ScoreRows(s.top)))], None)
  }

  /** The leaderboard the NAME writer leaves behind: the sorted records,
      one per stored rank. */
  lemma NameTable(top: seq<ScoreRecord>, entry: ScoreRecord)
    requires |top| <= TOP
    ensures var t := SortBy(top + [entry], Compare)[..|top|];
            && SortedDesc(t)
            && multiset(t) <= multiset(top + [entry])
            && (forall d, k :: d in multiset(top + [entry]) - multiset(t) && k in t ==> d.score <= k.score)
            && (|top| == TOP ==> t == UpdateRanking(top, entry).value)
  {
    var sorted := SortBy(top + [entry], Compare);
    var t := sorted[..|top|];
    assert multiset(t) <= multiset(top + [entry]) by {
      PrefixSub(sorted, |top|);
    }
    assert SortedDesc(t) && forall d, k :: d in multiset(top + [entry]) - multiset(t) && k in t ==> d.score <= k.score by {
      SortBySorted(top + [entry]);
      KeptBeatDropped(sorted, |top|);
    }
    assert |top| == TOP ==> t == UpdateRanking(top, entry).value by {
      if |top| == TOP {
        assert Rank(top, entry, Compare) == Success(t);
      }
    }
  }

  lemma PrefixSub(s: seq<ScoreRecord>, n: nat)
    requires n <= |s|
    ensures multiset(s[..n]) <= multiset(s)
  {
    assert s == s[..n] + s[n..];
  }

  /** NAME: the stored rows and the new record, sorted descending by score,
      are written back rank by rank. Only ranks that exist are updated, and
      with fewer than four stored rows the writer runs out of records after
      the existing ranks and the session ends. */
  function HandleName(s: State, name: string, score: int): (r: Outcome)
    requires |s.top| <= TOP
    ensures r.state.board == s.board && r.state.clockStarted == s.clockStarted && r.replies == []
    ensures r.fault.Some? <==> |s.top| + 1 < TOP
    ensures |r.state.top| == |s.top| && SortedDesc(r.state.top)
    ensures multiset(r.state.top) <= multiset(s.top + [ScoreRecord(name, score)])
    ensures forall d, k :: d in multiset(s.top + [ScoreRecord(name, score)]) - multiset(r.state.top) && k in r.state.top ==>
              d.score <= k.score
    ensures |s.top| == TOP ==> r.state.top == UpdateRanking(s.top, ScoreRecord(name, score)).value
  {
    var entry := ScoreRecord(name, score);
    NameTable(s.top, entry);
    var written := SortBy(s.top + [entry], Compare)[..|s.top|];
    Outcome(s.(top := written), [], if |s.top| + 1 < TOP then Some(RankFault(TooFewScores)) else None)
  }

  // ---------------------------------------------------------------- dispatch

  /** What a command brings with it: NEW brings a board as the default
      constructor lays it out. */
  ghost predicate Admissible(cmd: Command) {
    cmd.NewGame? ==> IsDefaultBoard(cmd.laid)
  }

  /** One command of the session. */
  function Step(s: State, cmd: Command): (r: Outcome)
    requires Inv(s) && Admissible(cmd)
  {
    match cmd
    case Update(button, y, x) => HandleUpdate(s, button, y, x)
    case NewGame(laid) => HandleNew(s, laid)
    case LoadFrom(saved) => HandleLoadFrom(s, saved)
    case Score => HandleScore(s)
    case Name(name, score) => HandleName(s, name, score)
  }

  /** Every command and every tick keeps the session invariant. */
  lemma StepKeepsInv(s: State, cmd: Command)
    requires Inv(s) && Admissible(cmd)
    ensures Inv(Step(s, cmd).state) && Inv(Tick(s).state)
  {
    match cmd
    case Update(button, y, x) => UpdateKeepsInv(s, button, y, x);
    case NewGame(laid) => DefaultBoardValid(laid);
    case LoadFrom(saved) =>
    case Score =>
    case Name(name, score) =>
  }

  /** An UPDATE keeps the session invariant. */
  lemma UpdateKeepsInv(s: State, button: string, y: int, x: int)
    requires Inv(s)
    ensures Inv(HandleUpdate(s, button, y, x).state)
  {
    if Clickable(s.board, button, y, x) {
      var c := Click(s.board, button, y, x);
      var u := HandleUpdate(s, button, y, x).state.board;
      assert ValidStates(c);
      assert ValidStates(u) by {
        assert u == c.(won := u.won);
      }
    }
  }

  /** A default board holds only valid states. */
  lemma DefaultBoardValid(laid: Board)
    requires IsDefaultBoard(laid)
    ensures ValidStates(laid)
  {
    forall i, j | 0 <= i < |laid.revealed| && 0 <= j < |laid.revealed[i]|
      ensures REVEALED <= laid.revealed[i][j] <= QUESTIONED
    {
      assert OnBoard(laid, i, j);
    }
  }
}
