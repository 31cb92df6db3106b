/** The board's one-line text record: the encoder (the board's string form)
    and the decoder (the constructor that rebuilds a board from that form).
    The decoder works through Java's String.split and Integer.parseInt, so
    both are modelled here as far as the record needs them. */
module Codec {
  import opened Results
  import opened Grid
  import opened Board

  /** Range of a 32-bit Java int. */
  const MIN_INT: int := -0x8000_0000
  const MAX_INT: int := 0x7fff_ffff

  /** The two ways rebuilding a board can throw: a time field that is not
      a decimal int, or a field, row or character that is not there. */
  datatype DecodeError = BadNumber | MissingPart

  // ---------------------------------------------------------------- splitting

  /** The pieces of `pieces` joined with the delimiter between them. */
  function Join(pieces: seq<string>, d: char): string
    requires |pieces| >= 1
  {
    if |pieces| == 1 then pieces[0] else pieces[0] + [d] + Join(pieces[1..], d)
  }

  /** `s` cut at every occurrence of `d`, keeping empty pieces. */
  function SplitAll(s: string, d: char): (r: seq<string>)
    ensures |r| >= 1 && Join(r, d) == s
    ensures forall k :: 0 <= k < |r| ==> d !in r[k]
  {
    if |s| == 0 then [""]
    else
      var rest := SplitAll(s[1..], d);
      if s[0] == d then
        [""] + rest
      else
        var r := [[s[0]] + rest[0]] + rest[1..];
        assert d !in [s[0]] + rest[0] by {
          assert forall k :: 0 <= k < |[s[0]] + rest[0]| && k > 0 ==> ([s[0]] + rest[0])[k] == rest[0][k - 1];
        }
        assert Join(r, d) == [s[0]] + Join(rest, d) by {
          if |rest| > 1 {
            assert r[1..] == rest[1..];
          }
        }
        r
  }

  /** `ps` without its trailing empty pieces. */
  function StripTrailingEmpty(ps: seq<string>): (r: seq<string>)
    ensures |r| <= |ps| && r == ps[..|r|]
    ensures forall k :: |r| <= k < |ps| ==> ps[k] == ""
    ensures |r| > 0 ==> r[|r| - 1] != ""
  {
    if |ps| == 0 then []
    else if ps[|ps| - 1] == "" then StripTrailingEmpty(ps[..|ps| - 1])
    else ps
  }

  /** Java's `s.split(d)` for a one-character delimiter: without any
      delimiter the whole string is the only piece; otherwise the pieces
      between delimiters, with trailing empty pieces removed. */
  function JavaSplit(s: string, d: char): (r: seq<string>)
    ensures forall k :: 0 <= k < |r| ==> d !in r[k]
  {
    if d !in s then [s] else StripTrailingEmpty(SplitAll(s, d))
  }

  lemma {:induction false} SplitCons(a: string, d: char, rest: string)
    requires d !in a
    ensures SplitAll(a + [d] + rest, d) == [a] + SplitAll(rest, d)
  {
    var s := a + [d] + rest;
    if |a| == 0 {
      assert s[1..] == rest;
    } else {
      assert s[1..] == a[1..] + [d] + rest;
      SplitCons(a[1..], d, rest);
      assert [a[0]] + a[1..] == a;
    }
  }

  /** Each piece followed by the delimiter: how the grids are written. */
  function Terminated(pieces: seq<string>, d: char): string {
    if |pieces| == 0 then "" else pieces[0] + [d] + Terminated(pieces[1..], d)
  }

  lemma {:induction false} SplitTerminated(pieces: seq<string>, d: char)
    requires forall k :: 0 <= k < |pieces| ==> d !in pieces[k]
    ensures SplitAll(Terminated(pieces, d), d) == pieces + [""]
  {
    if |pieces| > 0 {
      SplitTerminated(pieces[1..], d);
      SplitCons(pieces[0], d, Terminated(pieces[1..], d));
      assert pieces == [pieces[0]] + pieces[1..];
    }
  }

  /** Splitting a terminated list of non-empty, delimiter-free pieces gives the pieces back. */
  lemma JavaSplitTerminated(pieces: seq<string>, d: char)
    requires |pieces| >= 1
    requires forall k :: 0 <= k < |pieces| ==> d !in pieces[k] && pieces[k] != ""
    ensures JavaSplit(Terminated(pieces, d), d) == pieces
  {
    var s := Terminated(pieces, d);
    assert s == pieces[0] + [d] + Terminated(pieces[1..], d);
    assert s[|pieces[0]|] == d;
    SplitTerminated(pieces, d);
    var r := StripTrailingEmpty(pieces + [""]);
    assert (pieces + [""])[|pieces| - 1] != "";
  }

  // ---------------------------------------------------------------- integers

  predicate IsDigit(c: char) { '0' <= c <= '9' }

  function DigitChar(v: int): (c: char)
    requires 0 <= v <= 9
    ensures IsDigit(c)
  {
    ('0' as int + v) as char
  }

  function DigitValue(c: char): int requires IsDigit(c) { c as int - '0' as int }

  predicate AllDigits(s: string) { forall k :: 0 <= k < |s| ==> IsDigit(s[k]) }

  /** Decimal digits of a natural number, most significant first. */
  function NatToText(n: nat): (r: string)
    ensures |r| >= 1 && AllDigits(r)
  {
    if n < 10 then [DigitChar(n)] else NatToText(n / 10) + [DigitChar(n % 10)]
  }

  /** Java's String.valueOf(int): an optional minus sign and the digits. */
  function IntToText(n: int): (r: string)
    ensures ',' !in r && ' ' !in r
  {
    if n < 0 then "-" + NatToText(-n) else NatToText(n)
  }

  /** Value of a string of decimal digits. */
  function DigitsValue(s: string): nat
    requires AllDigits(s)
  {
    if |s| == 0 then 0 else DigitsValue(s[..|s| - 1]) * 10 + DigitValue(s[|s| - 1])
  }

  /** Java's Integer.parseInt(s): an optional sign and at least one digit,
      with a value inside the int range; None where it throws. */
  function ParseInt(s: string): (r: Option<int>)
    ensures r.Some? ==> MIN_INT <= r.value <= MAX_INT
    ensures r.Some? ==> |s| >= 1 && (IsDigit(s[0]) || s[0] == '-' || s[0] == '+')
  {
    if |s| == 0 then None
    else if s[0] == '-' || s[0] == '+' then
      if |s| == 1 || !AllDigits(s[1..]) then None
      else
        var v: int := if s[0] == '-' then -(DigitsValue(s[1..]) as int) else DigitsValue(s[1..]);
        if MIN_INT <= v <= MAX_INT then Some(v) else None
    else if AllDigits(s) && DigitsValue(s) <= MAX_INT then Some(DigitsValue(s))
    else None
  }

  lemma {:induction false} NatToTextValue(n: nat)
    ensures DigitsValue(NatToText(n)) == n
  {
    if n >= 10 {
      var s := NatToText(n);
      assert s[..|s| - 1] == NatToText(n / 10);
      NatToTextValue(n / 10);
    }
  }

  /** Parsing reads back every int the encoder writes. */
  lemma ParseIntToText(n: int)
    requires MIN_INT <= n <= MAX_INT
    ensures ParseInt(IntToText(n)) == Some(n)
  {
    if n < 0 {
      NatToTextValue(-n);
      ParseNegative(NatToText(-n));
    } else {
      NatToTextValue(n);
      ParseUnsigned(NatToText(n));
    }
  }

  lemma ParseNegative(t: string)
    requires |t| >= 1 && AllDigits(t) && DigitsValue(t) <= -MIN_INT
    ensures ParseInt("-" + t) == Some(-(DigitsValue(t) as int))
  {
    assert ("-" + t)[0] == '-';
    assert ("-" + t)[1..] == t;
  }

  lemma ParseUnsigned(t: string)
    requires |t| >= 1 && AllDigits(t) && DigitsValue(t) <= MAX_INT
    ensures ParseInt(t) == Some(DigitsValue(t) as int)
  {
    assert IsDigit(t[0]);
  }

  // ---------------------------------------------------------------- encoder

  function FlagText(v: bool): string { if v then "t" else "f" }

  function MineChar(m: bool): char { if m then '1' else '0' }

  /** The character of a display state; states outside the four write nothing. */
  function StateText(s: int): string {
    if s == REVEALED then "_"
    else if s == HIDDEN then "O"
    else if s == FLAGGED then "F"
    else if s == QUESTIONED then "X"
    else ""
  }

  /** One mine row: '1' for a mine, '0' otherwise. */
  function MineRowText(row: seq<bool>): (r: string)
    ensures |r| == |row| && forall j :: 0 <= j < |r| ==> r[j] == MineChar(row[j])
    ensures ' ' !in r && ',' !in r
  {
    if |row| == 0 then "" else [MineChar(row[0])] + MineRowText(row[1..])
  }

  /** One state row, one character per cell in a valid state. */
  function StateRowText(row: seq<int>): (r: string)
    ensures (forall j :: 0 <= j < |row| ==> REVEALED <= row[j] <= QUESTIONED) ==>
              |r| == |row| && forall j :: 0 <= j < |r| ==> r[j] == StateText(row[j])[0]
    ensures ' ' !in r && ',' !in r
  {
    if |row| == 0 then "" else StateText(row[0]) + StateRowText(row[1..])
  }

  function MineRowTexts(m: seq<seq<bool>>): (rows: seq<string>)
    ensures |rows| == |m| && forall i :: 0 <= i < |m| ==> rows[i] == MineRowText(m[i])
  {
    seq(|m|, i requires 0 <= i < |m| => MineRowText(m[i]))
  }

  function StateRowTexts(v: seq<seq<int>>): (rows: seq<string>)
    ensures |rows| == |v| && forall i :: 0 <= i < |v| ==> rows[i] == StateRowText(v[i])
  {
    seq(|v|, i requires 0 <= i < |v| => StateRowText(v[i]))
  }

  function MinesText(m: seq<seq<bool>>): string {
    Terminated(MineRowTexts(m), ' ')
  }

  function StatesText(v: seq<seq<int>>): string {
    Terminated(StateRowTexts(v), ' ')
  }

  /** The board's text record: time, won and lost flags, the mine rows and
      the state rows, separated by commas; every row is followed by a space. */
  function Encode(b: Board): string {
    Join(Fields(b), ',')
  }

  /** The five fields of the record, in order. */
  function Fields(b: Board): seq<string> {
    [IntToText(b.time), FlagText(b.won), FlagText(b.lost), MinesText(b.mines), StatesText(b.revealed)]
  }

  // ---------------------------------------------------------------- decoder

  /** The state a record character stands for; any unknown character is HIDDEN. */
  function DecodeState(c: char): (v: int)
    ensures c == '_' ==> v == REVEALED
    ensures c == 'F' ==> v == FLAGGED
    ensures c == 'X' ==> v == QUESTIONED
    ensures c != '_' && c != 'F' && c != 'X' ==> v == HIDDEN
  {
    if c == '_' then REVEALED else if c == 'F' then FLAGGED else if c == 'X' then QUESTIONED else HIDDEN
  }

  /** Every cell the decoding loops visit exists in the row texts. */
  predicate RowsFit(mineRows: seq<string>, stateRows: seq<string>, cols: nat) {
    cols == 0 || forall i :: 0 <= i < |mineRows| ==>
      |mineRows[i]| >= cols && i < |stateRows| && |stateRows[i]| >= cols
  }

  /** The mines of a record: a cell holds a mine exactly when its
      character is '1'; any other character is no mine. */
  function DecodeMines(mineRows: seq<string>, stateRows: seq<string>, cols: nat): (m: seq<seq<bool>>)
    requires RowsFit(mineRows, stateRows, cols)
    ensures IsRect(m, |mineRows|, cols)
    ensures forall i, j :: 0 <= i < |m| && 0 <= j < cols ==> DecodedMine(m, mineRows, i, j)
  {
    var m := seq(|mineRows|, i requires 0 <= i < |mineRows| =>
      seq(cols, j requires 0 <= j < cols => mineRows[i][j] == '1'));
    forall i, j | 0 <= i < |m| && 0 <= j < cols ensures DecodedMine(m, mineRows, i, j) {
      assert |mineRows[i]| >= cols;
    }
    m
  }

  /** Cell (i, j) of `m` holds a mine exactly when character j of mine row
      i is '1'. */
  ghost predicate DecodedMine(m: seq<seq<bool>>, mineRows: seq<string>, i: int, j: int) {
    && 0 <= i < |m| && 0 <= j < |m[i]| && i < |mineRows| && j < |mineRows[i]|
    && (m[i][j] <==> mineRows[i][j] == '1')
  }

  /** The states of row i: the first `cols` characters of its state row. */
  function DecodeStateRow(mineRows: seq<string>, stateRows: seq<string>, cols: nat, i: nat): (r: seq<int>)
    requires RowsFit(mineRows, stateRows, cols) && i < |mineRows|
    ensures |r| == cols
    ensures forall j :: 0 <= j < cols ==> i < |stateRows| && j < |stateRows[i]| && r[j] == DecodeState(stateRows[i][j])
  {
    assert |mineRows[i]| >= cols;
    seq(cols, j requires 0 <= j < cols => DecodeState(stateRows[i][j]))
  }

  function DecodeStates(mineRows: seq<string>, stateRows: seq<string>, cols: nat): (v: seq<seq<int>>)
    requires RowsFit(mineRows, stateRows, cols)
    ensures IsRect(v, |mineRows|, cols)
    ensures forall i, j :: 0 <= i < |v| && 0 <= j < cols ==> REVEALED <= v[i][j] <= QUESTIONED
    ensures forall i, j :: 0 <= i < |v| && 0 <= j < cols ==> DecodedCell(v, stateRows, i, j)
  {
    var v := seq(|mineRows|, i requires 0 <= i < |mineRows| => DecodeStateRow(mineRows, stateRows, cols, i));
    assert forall i :: 0 <= i < |v| ==> v[i] == DecodeStateRow(mineRows, stateRows, cols, i);
    StateRowsCells(mineRows, stateRows, cols, v);
    v
  }

  /** Cell (i, j) of `v` holds the state that character j of state row i
      stands for. */
  ghost predicate DecodedCell(v: seq<seq<int>>, stateRows: seq<string>, i: int, j: int) {
    && 0 <= i < |v| && 0 <= j < |v[i]| && i < |stateRows| && j < |stateRows[i]|
    && v[i][j] == DecodeState(stateRows[i][j])
  }

  /** Rows built one by one from the state rows hold, cell by cell, the
      decoded state characters. */
  lemma StateRowsCells(mineRows: seq<string>, stateRows: seq<string>, cols: nat, v: seq<seq<int>>)
    requires RowsFit(mineRows, stateRows, cols) && |v| == |mineRows|
    requires forall i :: 0 <= i < |v| ==> v[i] == DecodeStateRow(mineRows, stateRows, cols, i)
    ensures forall i, j :: 0 <= i < |v| && 0 <= j < cols ==> DecodedCell(v, stateRows, i, j)
  {
    forall i, j | 0 <= i < |v| && 0 <= j < cols ensures DecodedCell(v, stateRows, i, j) {
      assert v[i] == DecodeStateRow(mineRows, stateRows, cols, i);
    }
  }

  /** `b` is what the record cut into `fields` describes: the time parsed
      from the first field, won and lost set by "t", one row per mine row
      as wide as the first mine row, and every cell decoded from its mine
      and state characters. */
  ghost predicate DecodedRecord(b: Board, fields: seq<string>) {
    && |fields| >= 5
    && ParseInt(fields[0]) == Some(b.time)
    && b.won == (fields[1] == "t") && b.lost == (fields[2] == "t")
    && var mineRows := JavaSplit(fields[3], ' ');
       var stateRows := JavaSplit(fields[4], ' ');
       && |mineRows| >= 1 && |b.mines| == |mineRows| && |b.mines[0]| == |mineRows[0]|
       && (forall i, j :: 0 <= i < |b.mines| && 0 <= j < |b.mines[i]| ==> DecodedMine(b.mines, mineRows, i, j))
       && (forall i, j :: 0 <= i < |b.revealed| && 0 <= j < |b.revealed[i]| ==> DecodedCell(b.revealed, stateRows, i, j))
  }

  /** Rebuilds a board from its text record. The mine grid takes its shape
      from the mine rows (their count, and the length of the first one);
      a mine character other than '1' is no mine, a state character other
      than '_', 'F' and 'X' is HIDDEN, and surplus fields, rows and
      characters are ignored. */
  function Decode(s: string): (r: Result<Board, DecodeError>)
    ensures r.Success? ==> WellFormed(r.value) && ValidStates(r.value)
    ensures r.Success? ==> MIN_INT <= r.value.time <= MAX_INT
    ensures r.Success? ==> DecodedRecord(r.value, JavaSplit(s, ','))
  {
    var fields := JavaSplit(s, ',');
    if |fields| == 0 then Failure(MissingPart)
    else match ParseInt(fields[0])
      case None => Failure(BadNumber)
      case Some(t) =>
        if |fields| < 5 then Failure(MissingPart)
        else
          var mineRows := JavaSplit(fields[3], ' ');
          var stateRows := JavaSplit(fields[4], ' ');
          if |mineRows| == 0 then Failure(MissingPart)
          else
            var cols := |mineRows[0]|;
            if !RowsFit(mineRows, stateRows, cols) then Failure(MissingPart)
            else Success(Board(DecodeMines(mineRows, stateRows, cols), DecodeStates(mineRows, stateRows, cols),
                               t, fields[1] == "t", fields[2] == "t"))
  }

  // ---------------------------------------------------------------- round trip

  lemma {:induction false} SplitNone(s: string, d: char)
    requires d !in s
    ensures SplitAll(s, d) == [s]
  {
    if |s| > 0 {
      assert d !in s[1..];
      SplitNone(s[1..], d);
    }
  }

  lemma {:induction false} TerminatedAvoids(pieces: seq<string>, d: char, c: char)
    requires c != d && forall k :: 0 <= k < |pieces| ==> c !in pieces[k]
    ensures c !in Terminated(pieces, d)
  {
    if |pieces| > 0 {
      TerminatedAvoids(pieces[1..], d, c);
    }
  }

  /** Delimiter-free pieces joined by the delimiter split back into the pieces. */
  lemma {:induction false} SplitJoin(pieces: seq<string>, d: char)
    requires |pieces| >= 1 && forall k :: 0 <= k < |pieces| ==> d !in pieces[k]
    ensures SplitAll(Join(pieces, d), d) == pieces
  {
    if |pieces| == 1 {
      SplitNone(pieces[0], d);
    } else {
      SplitJoin(pieces[1..], d);
      SplitCons(pieces[0], d, Join(pieces[1..], d));
      assert pieces == [pieces[0]] + pieces[1..];
    }
  }

  /** Java's split reads back two or more delimiter-free pieces joined by
      the delimiter, when the last piece is not empty. */
  lemma JavaSplitJoin(pieces: seq<string>, d: char)
    requires |pieces| >= 2 && pieces[|pieces| - 1] != ""
    requires forall k :: 0 <= k < |pieces| ==> d !in pieces[k]
    ensures JavaSplit(Join(pieces, d), d) == pieces
  {
    var s := Join(pieces, d);
    assert d in s by {
      assert s == pieces[0] + [d] + Join(pieces[1..], d);
      assert s[|pieces[0]|] == d;
    }
    SplitJoin(pieces, d);
  }

  /** A record cut at its commas yields exactly its five fields. */
  lemma EncodeFields(b: Board)
    requires WellFormed(b)
    ensures JavaSplit(Encode(b), ',') == Fields(b)
  {
    var vs := StateRowTexts(b.revealed);
    TerminatedAvoids(MineRowTexts(b.mines), ' ', ',');
    TerminatedAvoids(vs, ' ', ',');
    assert StatesText(b.revealed) == vs[0] + [' '] + Terminated(vs[1..], ' ');
    JavaSplitJoin(Fields(b), ',');
  }

  /** The state rows of a board with valid states have one character per cell. */
  lemma StateRowTextsShape(v: seq<seq<int>>, cols: nat)
    requires IsRect(v, |v|, cols)
    requires forall i, j :: 0 <= i < |v| && 0 <= j < |v[i]| ==> REVEALED <= v[i][j] <= QUESTIONED
    ensures forall i :: 0 <= i < |v| ==> |StateRowTexts(v)[i]| == cols && ' ' !in StateRowTexts(v)[i]
  {
    forall i | 0 <= i < |v| ensures |StateRowTexts(v)[i]| == cols {
      assert forall j :: 0 <= j < |v[i]| ==> REVEALED <= v[i][j] <= QUESTIONED;
    }
  }

  lemma DecodeMineRows(m: seq<seq<bool>>, stateRows: seq<string>, cols: nat)
    requires IsRect(m, |m|, cols) && RowsFit(MineRowTexts(m), stateRows, cols)
    ensures DecodeMines(MineRowTexts(m), stateRows, cols) == m
  {
    var d := DecodeMines(MineRowTexts(m), stateRows, cols);
    forall i | 0 <= i < |m| ensures d[i] == m[i] {
      assert forall j :: 0 <= j < cols ==> d[i][j] == (MineRowText(m[i])[j] == '1');
    }
  }

  lemma DecodeStateRows(mineRows: seq<string>, v: seq<seq<int>>, cols: nat)
    requires IsRect(v, |v|, cols) && |mineRows| == |v| && RowsFit(mineRows, StateRowTexts(v), cols)
    requires forall i, j :: 0 <= i < |v| && 0 <= j < |v[i]| ==> REVEALED <= v[i][j] <= QUESTIONED
    ensures DecodeStates(mineRows, StateRowTexts(v), cols) == v
  {
    var d := DecodeStates(mineRows, StateRowTexts(v), cols);
    forall i | 0 <= i < |v| ensures d[i] == v[i] {
      var text := StateRowTexts(v)[i];
      assert text == StateRowText(v[i]);
      assert |text| == cols && forall j :: 0 <= j < cols ==> text[j] == StateText(v[i][j])[0] by {
        assert forall j :: 0 <= j < |v[i]| ==> REVEALED <= v[i][j] <= QUESTIONED;
      }
      forall j | 0 <= j < cols ensures d[i][j] == v[i][j] {
        assert d[i][j] == DecodeState(text[j]);
        DecodeStateText(v[i][j]);
      }
    }
  }

  lemma DecodeStateText(s: int)
    requires REVEALED <= s <= QUESTIONED
    ensures DecodeState(StateText(s)[0]) == s
  {
  }

  /** How the decoder treats a record whose fields and rows are all present. */
  lemma DecodeOfFields(s: string, t: int, mineRows: seq<string>, stateRows: seq<string>)
    requires |JavaSplit(s, ',')| >= 5
    requires ParseInt(JavaSplit(s, ',')[0]) == Some(t)
    requires JavaSplit(JavaSplit(s, ',')[3], ' ') == mineRows && JavaSplit(JavaSplit(s, ',')[4], ' ') == stateRows
    requires |mineRows| >= 1 && RowsFit(mineRows, stateRows, |mineRows[0]|)
    ensures Decode(s) == Success(Board(DecodeMines(mineRows, stateRows, |mineRows[0]|),
                                       DecodeStates(mineRows, stateRows, |mineRows[0]|),
                                       t, JavaSplit(s, ',')[1] == "t", JavaSplit(s, ',')[2] == "t"))
  {
  }

  /** The mine field of a rectangular grid splits back into its row texts. */
  lemma MineFieldSplits(m: seq<seq<bool>>, cols: nat)
    requires |m| >= 1 && cols >= 1 && IsRect(m, |m|, cols)
    ensures JavaSplit(MinesText(m), ' ') == MineRowTexts(m)
    ensures |MineRowTexts(m)[0]| == cols
    ensures forall i :: 0 <= i < |m| ==> |MineRowTexts(m)[i]| == cols
  {
    var rows := MineRowTexts(m);
    assert forall k :: 0 <= k < |rows| ==> ' ' !in rows[k] && |rows[k]| == cols;
    JavaSplitTerminated(rows, ' ');
  }

  /** The state field of a rectangular grid of valid states splits back into its row texts. */
  lemma StateFieldSplits(v: seq<seq<int>>, cols: nat)
    requires |v| >= 1 && cols >= 1 && IsRect(v, |v|, cols)
    requires forall i, j :: 0 <= i < |v| && 0 <= j < |v[i]| ==> REVEALED <= v[i][j] <= QUESTIONED
    ensures JavaSplit(StatesText(v), ' ') == StateRowTexts(v)
    ensures forall i :: 0 <= i < |v| ==> |StateRowTexts(v)[i]| == cols
  {
    var rows := StateRowTexts(v);
    StateRowTextsShape(v, cols);
    assert forall k :: 0 <= k < |rows| ==> ' ' !in rows[k] && |rows[k]| == cols;
    JavaSplitTerminated(rows, ' ');
  }

  /** A text whose fields carry the board's time and row texts decodes to the board. */
  lemma DecodeFields(s: string, b: Board, timeText: string, minesText: string, statesText: string)
    requires WellFormed(b) && ValidStates(b) && |b.mines[0]| >= 1
    requires JavaSplit(s, ',') == [timeText, FlagText(b.won), FlagText(b.lost), minesText, statesText]
    requires ParseInt(timeText) == Some(b.time)
    requires JavaSplit(minesText, ' ') == MineRowTexts(b.mines)
    requires JavaSplit(statesText, ' ') == StateRowTexts(b.revealed)
    requires forall i :: 0 <= i < |b.revealed| ==> |StateRowTexts(b.revealed)[i]| == |b.mines[0]|
    ensures Decode(s) == Success(b)
  {
    var cols := |b.mines[0]|;
    var mrows := MineRowTexts(b.mines);
    var srows := StateRowTexts(b.revealed);
    assert RowsFit(mrows, srows, cols) by {
      forall i | 0 <= i < |mrows| ensures |mrows[i]| >= cols && i < |srows| && |srows[i]| >= cols {
      }
    }
    DecodeOfFields(s, b.time, mrows, srows);
    DecodeMineRows(b.mines, srows, cols);
    DecodeStateRows(mrows, b.revealed, cols);
  }

  /** Decoding a record the encoder wrote rebuilds the board: time, both
      flags and both grids, for every board with at least one column, valid
      cell states and a time inside the int range. */
  lemma DecodeEncode(b: Board)
    requires WellFormed(b) && ValidStates(b) && |b.mines[0]| >= 1
    requires MIN_INT <= b.time <= MAX_INT
    ensures Decode(Encode(b)) == Success(b)
  {
    var cols := |b.mines[0]|;
    EncodeFields(b);
    ParseIntToText(b.time);
    MineFieldSplits(b.mines, cols);
    StateFieldSplits(b.revealed, cols);
    DecodeFields(Encode(b), b, IntToText(b.time), MinesText(b.mines), StatesText(b.revealed));
  }

  /** A list of empty pieces strips down to nothing. */
  lemma StripAllEmpty(ps: seq<string>)
    requires forall k :: 0 <= k < |ps| ==> ps[k] == ""
    ensures StripTrailingEmpty(ps) == []
  {
  }

  /** A record of a board whose rows have no cells does not read back: its
      mine field is spaces only, which split into no rows at all. */
  lemma ZeroColumnRecordFails(b: Board)
    requires WellFormed(b) && |b.mines[0]| == 0
    requires MIN_INT <= b.time <= MAX_INT
    ensures Decode(Encode(b)) == Failure(MissingPart)
  {
    var rows := MineRowTexts(b.mines);
    assert forall k :: 0 <= k < |rows| ==> rows[k] == "";
    var text := MinesText(b.mines);
    assert ' ' in text by {
      assert text == rows[0] + [' '] + Terminated(rows[1..], ' ');
      assert text[0] == ' ';
    }
    SplitTerminated(rows, ' ');
    StripAllEmpty(rows + [""]);
    assert JavaSplit(text, ' ') == [];
    EncodeFields(b);
    ParseIntToText(b.time);
  }

  lemma MinesTextExample()
    ensures MinesText([[true, false], [false, true]]) == "10 01 "
  {
    var m := [[true, false], [false, true]];
    assert MineRowText(m[0]) == "10" && MineRowText(m[1]) == "01";
    assert MineRowTexts(m) == ["10", "01"];
    assert Terminated(["01"], ' ') == "01 ";
  }

  lemma StatesTextExample()
    ensures StatesText([[REVEALED, REVEALED], [HIDDEN, HIDDEN]]) == "__ OO "
  {
    var v := [[REVEALED, REVEALED], [HIDDEN, HIDDEN]];
    assert StateRowText(v[0]) == "__" && StateRowText(v[1]) == "OO";
    assert StateRowTexts(v) == ["__", "OO"];
    assert Terminated(["OO"], ' ') == "OO ";
  }

  /** A 2x2 board at 5 seconds, mines on the diagonal, top row revealed:
      the record's five fields, which the encoder joins with commas. */
  lemma EncodeExample()
    ensures var b := Board([[true, false], [false, true]], [[REVEALED, REVEALED], [HIDDEN, HIDDEN]], 5, false, false);
            Fields(b) == ["5", "f", "f", "10 01 ", "__ OO "]
  {
    assert IntToText(5) == "5";
    MinesTextExample();
    StatesTextExample();
  }
}
