/** The log viewer (frontend/src/components/Logs.tsx): severity colouring, line
    numbers, the copied text and the polled update. Scrolling and rendering are left
    out. */
module Logs {
  import opened Common
  import Strings
  import Polling
  import Backend

  datatype Severity = Error | Warning | Success | Plain

  /** The class chosen for a line: the first marker of ERROR, WARNING, SUCCESS that the
      line contains. */
  function Classify(line: string): (c: Severity)
    ensures c == Error <==> Strings.Contains(line, "ERROR")
    ensures c == Warning <==> !Strings.Contains(line, "ERROR") && Strings.Contains(line, "WARNING")
    ensures c == Success <==>
              !Strings.Contains(line, "ERROR") && !Strings.Contains(line, "WARNING") && Strings.Contains(line, "SUCCESS")
    ensures c == Plain <==>
              !Strings.Contains(line, "ERROR") && !Strings.Contains(line, "WARNING") && !Strings.Contains(line, "SUCCESS")
  {
    if Strings.Contains(line, "ERROR") then Error
    else if Strings.Contains(line, "WARNING") then Warning
    else if Strings.Contains(line, "SUCCESS") then Success
    else Plain
  }

  /** A line that mentions ERROR anywhere is red, whatever else it mentions. */
  lemma ErrorDominates(before: string, after: string)
    ensures Classify(before + "ERROR" + after) == Error
  {
    Strings.ContainsInfix(before, "ERROR", after);
  }

  /** WARNING without ERROR is amber, whatever else the line mentions. */
  lemma WarningWithoutError(before: string, after: string)
    requires !Strings.Contains(before + "WARNING" + after, "ERROR")
    ensures Classify(before + "WARNING" + after) == Warning
  {
    Strings.ContainsInfix(before, "WARNING", after);
  }

  /** One rendered row: its number, its text and its class. */
  datatype Row = Row(number: nat, text: string, severity: Severity)

  /** `logs.map((log, index) => ...)`: rows numbered from 1 in order. */
  function Render(logs: seq<string>): (rows: seq<Row>)
    ensures |rows| == |logs|
    ensures forall i :: 0 <= i < |rows| ==> rows[i].number == i + 1 && rows[i].text == logs[i]
    ensures forall i :: 0 <= i < |rows| ==> rows[i].severity == Classify(logs[i])
  {
    seq(|logs|, i requires 0 <= i < |logs| => Row(i + 1, logs[i], Classify(logs[i])))
  }

  /** Numbers run 1, 2, ... without gaps: the last row's number is the row count. */
  lemma RenderNumbering(logs: seq<string>)
    requires |logs| > 0
    ensures Render(logs)[|logs| - 1].number == |logs|
    ensures forall i, j :: 0 <= i < j < |logs| ==> Render(logs)[i].number < Render(logs)[j].number
  {
  }

  /** `handleCopyLogs`: the lines joined by newlines. */
  function CopyText(logs: seq<string>): string {
    Strings.Join(logs, "\n")
  }

  /** Splitting the copied text at newlines gives the lines back when there is at
      least one and none holds a newline. */
  lemma CopyRoundTrip(logs: seq<string>)
    requires |logs| >= 1
    requires forall i :: 0 <= i < |logs| ==> '\n' !in logs[i]
    ensures Strings.Split(CopyText(logs), '\n') == logs
  {
    Strings.SplitJoin(logs, '\n');
  }

  /** An empty view copies as empty text, which splits into one empty line. */
  lemma CopyEmpty()
    ensures Strings.Split(CopyText([]), '\n') == [""]
  {
  }

  /** A line as `readlines` gives it: a newline can only be its last character. */
  predicate ReadLine(l: string) {
    forall k :: 0 <= k < |l| - 1 ==> l[k] != '\n'
  }

  /** Stripping such a line leaves no newline at all. */
  lemma StrippedReadLine(l: string)
    requires ReadLine(l)
    ensures '\n' !in Strings.Strip(Strings.Python, l)
  {
    var r := Strings.Strip(Strings.Python, l);
    Strings.StripFrames(Strings.Python, l);
    var j :| Strings.FramedBySpace(Strings.Python, l, r, j);
  }

  /** The lines `get_logs` serves always survive the copy: splitting the copied text
      gives them back. */
  lemma ServedLogsCopy(file: Option<seq<string>>)
    requires file.Some? ==> forall i :: 0 <= i < |file.value| ==> ReadLine(file.value[i])
    ensures var served := Backend.GetLogs(file);
            |served| >= 1 ==> Strings.Split(CopyText(served), '\n') == served
  {
    var served := Backend.GetLogs(file);
    if |served| >= 1 {
      forall i | 0 <= i < |served|
        ensures '\n' !in served[i]
      {
        if file.Some? {
          StrippedReadLine(file.value[|file.value| - |served| + i]);
        } else {
          assert served[i] == Backend.NoLogFile;
        }
      }
      CopyRoundTrip(served);
    }
  }

  /** `fetchLogs`: a successful fetch replaces the lines wholesale; a failed one
      leaves them. */
  function FetchLogs(logs: seq<string>, fetched: Option<seq<string>>): (r: seq<string>)
    ensures fetched.Some? ==> r == fetched.value
    ensures fetched.None? ==> r == logs
  {
    Polling.Apply(logs, fetched)
  }
}
