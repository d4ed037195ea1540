/** The keyboard handler of the kernel, on its 256-byte buffer and its ten history rows. */
module LineEditor {
  import opened Basics
  import opened CStrings
  import opened Terminal
  import opened EditorSpec

  /** A buffer of 256 characters with a string in it. */
  ghost predicate RowHolds(row: seq<Char>, t: seq<Char>) {
    |row| == BUFFER_SIZE && |t| < BUFFER_SIZE && row[..|t|] == t && row[|t|] == NUL && NUL !in t
  }

  ghost predicate RowsHold(rows: seq<seq<Char>>, h: seq<seq<Char>>) {
    && |h| <= |rows| == HISTORY_SIZE
    && (forall i :: 0 <= i < HISTORY_SIZE ==> |rows[i]| == BUFFER_SIZE)
    && (forall i {:trigger RowHolds(rows[i], h[i])} :: 0 <= i < |h| ==> RowHolds(rows[i], h[i]))
  }

  lemma RowText(row: seq<Char>, t: seq<Char>)
    requires RowHolds(row, t)
    ensures Terminated(row) && Text(row) == t
  {
    TextIs(row, |t|);
  }

  /** Copying a string into a row, as `kstrcpy` leaves it. */
  method CopyRow(dest: seq<Char>, src: seq<Char>, ghost t: seq<Char>) returns (row: seq<Char>)
    requires |dest| == BUFFER_SIZE && RowHolds(src, t)
    ensures RowHolds(row, t)
  {
    RowText(src, t);
    row := Kstrcpy(dest, src);
  }

  class LineEditor {
    const inputBuffer: array<Char>
    const history: array<seq<Char>>  // ten rows of 256 characters
    var bufferIndex: int
    var historyCount: int
    var historyIndex: int
    var shiftPressed: bool
    var extendedKey: bool
    var printed: seq<Char>  // every character handed to the console
    ghost var state: Editor

    ghost predicate LineHolds(line: seq<Char>)
      reads this, inputBuffer
    {
      RowHolds(inputBuffer[..], line) && bufferIndex == |line|
    }

    ghost predicate HistoryHolds(h: seq<seq<Char>>)
      reads this, history
    {
      historyCount == |h| && RowsHold(history[..], h)
    }

    /** The buffer holds the line and its terminator, the rows hold the history. */
    ghost predicate Valid()
      reads this, inputBuffer, history
    {
      && Good(state)
      && LineHolds(state.line)
      && HistoryHolds(state.history)
      && historyIndex == state.index
      && shiftPressed == state.shift && extendedKey == state.extended
    }

    constructor ()
      ensures Valid() && state == FRESH && printed == []
      ensures fresh(inputBuffer) && fresh(history)
    {
      inputBuffer := new Char[BUFFER_SIZE](_ => NUL);
      history := new seq<Char>[HISTORY_SIZE](_ => seq(BUFFER_SIZE, _ => NUL));
      bufferIndex, historyCount, historyIndex := 0, 0, NO_RECALL;
      shiftPressed, extendedKey := false, false;
      printed := [];
      state := FRESH;
    }

    method ClearInputBuffer(ghost line: seq<Char>)
      requires LineHolds(line)
      modifies `bufferIndex, `printed, inputBuffer
      ensures LineHolds([])
      ensures printed == old(printed) + Backspaces(|line|)
    {
      while bufferIndex > 0
        invariant 0 <= bufferIndex <= |line|
        invariant inputBuffer[..] == old(inputBuffer[..])
        invariant printed == old(printed) + Backspaces(|line| - bufferIndex)
      {
        bufferIndex := bufferIndex - 1;
        printed := printed + [BACKSPACE];
      }
      inputBuffer[0] := NUL;
    }

    /** Replaces the line by history row `historyIndex`. The guard of the copy loop never cuts the
        row short. */
    method ShowRow(ghost line: seq<Char>, ghost h: seq<seq<Char>>)
      requires LineHolds(line) && HistoryHolds(h) && 0 <= historyIndex < historyCount
      modifies `bufferIndex, `printed, inputBuffer
      ensures LineHolds(h[historyIndex])
      ensures printed == old(printed) + (Backspaces(|line|) + h[historyIndex])
    {
      ghost var t := h[historyIndex];
      assert RowHolds(history[..][historyIndex], t);
      ClearInputBuffer(line);
      var i := 0;
      while history[historyIndex][i] != NUL && bufferIndex < BUFFER_SIZE - 1
        invariant 0 <= i <= |t| && bufferIndex == i
        invariant inputBuffer[..i] == t[..i]
        invariant printed == old(printed) + (Backspaces(|line|) + t[..i])
        decreases |t| - i
      {
        assert history[historyIndex][i] == t[i];
        inputBuffer[bufferIndex] := history[historyIndex][i];
        bufferIndex := bufferIndex + 1;
        printed := printed + [history[historyIndex][i]];
        i := i + 1;
      }
      assert i == |t| && t[..i] == t;
      inputBuffer[bufferIndex] := NUL;
    }

    /** Moves the recall index; past the newest row there is nothing to recall. */
    method MoveIndex(direction: int) returns (pastNewest: bool)
      requires historyCount > 0 && -1 <= historyIndex < historyCount
      modifies `historyIndex
      ensures pastNewest <==> direction >= 0 && old(historyIndex) != -1 && old(historyIndex) + 1 == historyCount
      ensures historyIndex ==
              if pastNewest then -1
              else if direction >= 0 then (if old(historyIndex) == -1 then -1 else old(historyIndex) + 1)
              else if old(historyIndex) == -1 then historyCount - 1
              else if old(historyIndex) > 0 then old(historyIndex) - 1 else 0
    {
      pastNewest := false;
      if direction < 0 {
        if historyIndex == -1 {
          historyIndex := historyCount - 1;
        } else if historyIndex > 0 {
          historyIndex := historyIndex - 1;
        }
      } else if historyIndex != -1 {
        historyIndex := historyIndex + 1;
        if historyIndex >= historyCount {
          historyIndex := -1;
          pastNewest := true;
        }
      }
    }

    /** Notes the abstract state that the fields have reached. */
    ghost method SetState(next: Editor)
      requires Good(next) && LineHolds(next.line) && HistoryHolds(next.history)
      requires historyIndex == next.index && shiftPressed == next.shift && extendedKey == next.extended
      modifies `state
      ensures Valid() && state == next
    {
      state := next;
    }

    method RecallHistory(direction: int)
      requires Valid() && direction in {-1, 1}
      modifies `bufferIndex, `printed, `historyIndex, `state, inputBuffer
      ensures Valid()
      ensures var effect := if direction < 0 then RecallUp(old(state)) else RecallDown(old(state));
              state == effect.editor && printed == old(printed) + effect.printed
    {
      RecallStaysGood(state);
      ghost var effect := if direction < 0 then RecallUp(state) else RecallDown(state);
      if historyCount == 0 {
        assert effect == Effect(state, [], None);
        return;
      }
      var pastNewest := MoveIndex(direction);
      if pastNewest {
        ClearInputBuffer(state.line);
      } else if historyIndex >= 0 && historyIndex < historyCount {
        assert effect == ShowEntry(state, historyIndex);
        ShowRow(state.line, state.history);
      }
      SetState(effect.editor);
    }

    method SaveHistory(ghost line: seq<Char>, ghost h: seq<seq<Char>>)
      requires LineHolds(line) && HistoryHolds(h)
      modifies `historyCount, `historyIndex, history
      ensures HistoryHolds(if line == [] then h else LastTen(h + [line]))
      ensures historyIndex == if line == [] then old(historyIndex) else NO_RECALL
    {
      if bufferIndex == 0 {
        return;
      }
      if historyCount < HISTORY_SIZE {
        var row := CopyRow(history[historyCount], inputBuffer[..], line);
        ghost var before := history[..];
        history[historyCount] := row;
        historyCount := historyCount + 1;
        assert forall k {:trigger RowHolds(history[..][k], (h + [line])[k])} :: 0 <= k < |h| ==>
            RowHolds(before[k], h[k]) && RowHolds(history[..][k], (h + [line])[k]);
      } else {
        ShiftRows(h);
        var row := CopyRow(history[HISTORY_SIZE - 1], inputBuffer[..], line);
        history[HISTORY_SIZE - 1] := row;
      }
      historyIndex := -1;
    }

    /** Moves every row but the first up by one. */
    method ShiftRows(ghost h: seq<seq<Char>>)
      requires RowsHold(history[..], h) && |h| == HISTORY_SIZE
      modifies history
      ensures forall k :: 0 <= k < HISTORY_SIZE ==> |history[k]| == BUFFER_SIZE
      ensures forall k :: 0 <= k < HISTORY_SIZE - 1 ==> RowHolds(history[k], h[k + 1])
    {
      ghost var before := history[..];
      for i := 0 to HISTORY_SIZE - 1
        invariant forall k :: 0 <= k < HISTORY_SIZE ==> |history[k]| == BUFFER_SIZE
        invariant forall k :: 0 <= k < i ==> RowHolds(history[k], h[k + 1])
        invariant forall k :: i <= k < HISTORY_SIZE ==> history[k] == before[k]
      {
        assert RowHolds(before[i + 1], h[i + 1]);
        var row := CopyRow(history[i], history[i + 1], h[i + 1]);
        history[i] := row;
      }
    }

    /** Returns the line to execute, if there is one. */
    method HandleEnter() returns (command: Option<seq<Char>>)
      requires Valid()
      modifies this, inputBuffer, history
      ensures Valid()
      ensures var effect := Enter(old(state));
              state == effect.editor && printed == old(printed) + effect.printed && command == effect.submitted
    {
      TypeStaysGood(state, NEWLINE);
      printed := printed + [NEWLINE];
      inputBuffer[bufferIndex] := NUL;
      SaveHistory(state.line, state.history);
      if bufferIndex > 0 {
        command := Some(inputBuffer[..bufferIndex]);
      } else {
        command := None;
      }
      bufferIndex := 0;
      inputBuffer[0] := NUL;
      SetState(Enter(state).editor);
    }

    /** The key behind an 0xE0. */
    method HandleExtended(scancode: Scancode)
      requires Valid() && extendedKey && scancode != 0xE0
      modifies this, inputBuffer
      ensures Valid()
      ensures var effect := Step(old(state), scancode);
              state == effect.editor && printed == old(printed) + effect.printed && effect.submitted == None
    {
      if scancode == 0x48 {
        RecallHistory(-1);
      } else if scancode == 0x50 {
        RecallHistory(1);
      }
      extendedKey := false;
      state := state.(extended := false);
    }

    /** One keyboard interrupt. */
    method KeyboardHandler(scancode: Scancode) returns (command: Option<seq<Char>>)
      requires Valid()
      modifies this, inputBuffer, history
      ensures Valid()
      ensures var effect := Step(old(state), scancode);
              state == effect.editor && printed == old(printed) + effect.printed && command == effect.submitted
    {
      StepStaysGood(state, scancode);
      command := None;
      if scancode == 0xE0 {
        extendedKey := true;
        state := state.(extended := true);
        return;
      }
      if extendedKey {
        HandleExtended(scancode);
        return;
      }
      if scancode == 0x2A || scancode == 0x36 {
        shiftPressed := true;
        state := state.(shift := true);
        return;
      }
      if scancode == 0xAA || scancode == 0xB6 {
        shiftPressed := false;
        state := state.(shift := false);
        return;
      }
      if scancode < KEY_COUNT {
        command := TypeChar(KeyChar(scancode, shiftPressed));
      }
    }

    /** The character branches of the handler. */
    method TypeChar(c: Char) returns (command: Option<seq<Char>>)
      requires Valid()
      modifies this, inputBuffer, history
      ensures Valid()
      ensures var effect := Type(old(state), c);
              state == effect.editor && printed == old(printed) + effect.printed && command == effect.submitted
    {
      command := None;
      if c == NEWLINE {
        command := HandleEnter();
      } else if c == BACKSPACE {
        if bufferIndex > 0 {
          RubOut();
        }
      } else if c != NUL && bufferIndex < BUFFER_SIZE - 1 {
        Insert(c);
      }
    }

    method RubOut()
      requires Valid() && bufferIndex > 0
      modifies `bufferIndex, `printed, `historyIndex, `state, inputBuffer
      ensures Valid()
      ensures var effect := Type(old(state), BACKSPACE);
              state == effect.editor && printed == old(printed) + effect.printed && effect.submitted == None
    {
      TypeStaysGood(state, BACKSPACE);
      ghost var next := Type(state, BACKSPACE).editor;
      bufferIndex := bufferIndex - 1;
      inputBuffer[bufferIndex] := NUL;
      printed := printed + [BACKSPACE];
      historyIndex := -1;
      SetState(next);
    }

    method Insert(c: Char)
      requires Valid() && c != NUL && c != NEWLINE && c != BACKSPACE && bufferIndex < BUFFER_SIZE - 1
      modifies `bufferIndex, `printed, `historyIndex, `state, inputBuffer
      ensures Valid()
      ensures var effect := Type(old(state), c);
              state == effect.editor && printed == old(printed) + effect.printed && effect.submitted == None
    {
      TypeStaysGood(state, c);
      ghost var next := Type(state, c).editor;
      inputBuffer[bufferIndex] := c;
      bufferIndex := bufferIndex + 1;
      inputBuffer[bufferIndex] := NUL;
      printed := printed + [c];
      historyIndex := -1;
      SetState(next);
    }
  }
}
