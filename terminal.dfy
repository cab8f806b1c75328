/**
 * The Enter handler of a terminal prompt: a command that reads "clear" once
 * trimmed and lower-cased empties the pane locally; anything else is sent
 * to the server unchanged.
 */
module Terminal {
  import opened JsText

  /** What pressing Enter on a command does. */
  datatype EnterAction = ClearLocally | Send(command: string)

  /** command.trim().toLowerCase() === "clear" */
  predicate IsClearCommand(command: string)
  {
    Lower(Trim(command)) == "clear"
  }

  /** The Enter handler: the clear command never reaches the server; any other command is sent as typed. */
  function OnEnter(command: string): (a: EnterAction)
    ensures a == ClearLocally <==> IsClearCommand(command)
    ensures a.Send? ==> a.command == command
  {
    if IsClearCommand(command) then ClearLocally else Send(command)
  }

  /** A word that lower-cases to "clear" starts and ends with a letter. */
  lemma ClearWordEnds(c: string)
    requires Lower(c) == "clear"
    ensures c != [] && !IsJsWhitespace(c[0]) && !IsJsWhitespace(c[|c| - 1])
  {
    assert LowerChar(c[0]) == 'c' && LowerChar(c[|c| - 1]) == 'r';
  }

  /** command is whitespace, then a word w with Lower(w) == "clear" at [i, j), then whitespace. */
  predicate PaddedClear(command: string, i: int, j: int)
  {
    && 0 <= i <= j <= |command|
    && AllWhitespace(command[..i]) && AllWhitespace(command[j..])
    && Lower(command[i..j]) == "clear"
  }

  /** A clear command is the word trim leaves, with the whitespace trim removed around it. */
  lemma ClearCommandIsPadded(command: string)
    requires IsClearCommand(command)
    ensures PaddedClear(command, LeadingWhitespace(command), LeadingWhitespace(command) + |Trim(command)|)
  {
    TrimInfix(command);
  }

  /** Whitespace, a word that lower-cases to "clear", and whitespace make a clear command. */
  lemma PaddedIsClearCommand(command: string, i: int, j: int)
    requires PaddedClear(command, i, j)
    ensures IsClearCommand(command)
  {
    ClearWordEnds(command[i..j]);
    assert command == command[..i] + command[i..j] + command[j..];
    TrimPadded(command[..i], command[i..j], command[j..]);
  }

  /**
   * The clear commands are exactly the strings made of whitespace, a word
   * that lower-cases to "clear", and whitespace: padding and case do not
   * matter, and nothing else is accepted.
   */
  lemma ClearCommandShape(command: string)
    ensures IsClearCommand(command) <==> exists i, j :: PaddedClear(command, i, j)
  {
    if IsClearCommand(command) {
      ClearCommandIsPadded(command);
    }
    if exists i, j :: PaddedClear(command, i, j) {
      var i, j :| PaddedClear(command, i, j);
      PaddedIsClearCommand(command, i, j);
    }
  }

  /** Padding and upper case still clear locally. */
  lemma PaddedUpperClears()
    ensures OnEnter("  CLEAR\t") == ClearLocally
  {
    ClearWordEnds("CLEAR");
    TrimPadded("  ", "CLEAR", "\t");
    assert "  " + "CLEAR" + "\t" == "  CLEAR\t";
  }

  /** A command that only starts with clear is sent to the server. */
  lemma ClearWithArgumentIsSent()
    ensures OnEnter("clear all") == Send("clear all")
  {
    TrimPadded([], "clear all", []);
    assert [] + "clear all" + [] == "clear all";
  }
}
