/** `src/util/process.rs`: finding the process that listens on a port, and
    killing a process, through the operating system's own commands. The
    commands' output is a parameter; the model decides what is run and what
    is read back. */
module Process {
  import opened Ints
  import opened Wrappers
  import opened Text
  import Seqs

  /** The target operating system, fixed at compile time by `cfg!`. */
  datatype Os = Windows | Linux | OtherOs

  /** A program and its arguments, as handed to `std::process::Command`. */
  datatype Command = Command(program: string, args: seq<string>)

  /** Where `get_id` and `kill` split a line into words. */
  predicate IsBreak(c: char) {
    IsWhitespace(c) || IsControl(c)
  }

  predicate IsSpace(c: char) {
    c == ' '
  }

  /** The number a command line ends with, read back from its last
      space-separated word. */
  function TrailingNumber(line: string): Option<u32> {
    ParseU32(LastPiece(line, IsSpace))
  }

  /** No digit is whitespace, a control character or a space. */
  lemma DecimalIsWord(n: nat)
    ensures NoSeparator(Decimal(n), IsBreak) && NoSeparator(Decimal(n), IsSpace)
  {
    forall i | 0 <= i < |Decimal(n)|
      ensures DigitValue(Decimal(n)[i]).Some?
    {
      FromBaseToBase(n, 10);
      FromBaseDigits(Decimal(n), 10, i);
    }
  }

  /** A command line `prefix` + " " + the decimal text of `n` ends with `n`. */
  lemma EndsWithNumber(prefix: string, n: u32)
    ensures TrailingNumber(prefix + " " + Decimal(n)) == Some(n)
  {
    DecimalIsWord(n);
    LastPieceAfter(prefix, ' ', Decimal(n), IsSpace);
    ParseDecimal(n);
  }

  /** The shell lines `get_id` and `kill` run, up to the number they end with. */
  const NETSTAT_FINDSTR: string := "netstat -ano | findstr"
  const TASKKILL: string := "taskkill /F /PID"
  const KILL_9: string := "kill -9"

  /** The Windows command whose output `get_id` reads: `netstat -ano`
      filtered by `findstr` for the port number. */
  function NetstatCommand(port: u32): (c: Command)
    ensures c == Command("cmd", ["/C", NETSTAT_FINDSTR + " " + Decimal(port)])
    ensures TrailingNumber(c.args[1]) == Some(port)
  {
    EndsWithNumber(NETSTAT_FINDSTR, port);
    Command("cmd", ["/C", NETSTAT_FINDSTR + " " + Decimal(port)])
  }

  /** The text `findstr` searches for, the last word of the netstat command,
      is the text `Mentions` looks for: the two select the same lines. */
  lemma NetstatSelectsMentions(port: u32, line: string)
    ensures var c := NetstatCommand(port);
      Mentions(port)(line) <==> Contains(line, LastPiece(c.args[1], IsSpace))
  {
    DecimalIsWord(port);
    LastPieceAfter(NETSTAT_FINDSTR, ' ', Decimal(port), IsSpace);
    assert NETSTAT_FINDSTR + " " + Decimal(port) == NETSTAT_FINDSTR + [' '] + Decimal(port);
  }

  /** `findstr` keeps the lines in which the port's decimal text occurs,
      anywhere. */
  function Mentions(port: u32): string -> bool {
    (line: string) => Contains(line, Decimal(port))
  }

  /** The words of a line, as `get_id` splits it. */
  function Words(line: string): seq<string> {
    NonEmpty(SplitBy(Trim(line), IsBreak))
  }

  /** What `get_id` does with the first line it reads: nothing but
      whitespace means no process; otherwise the fifth word is the process
      id, and a missing fifth word or one that is not a `u32` panics. */
  function ParseFirstLine(content: string): (r: Exit<Option<u32>>)
    ensures r == Returns(None) <==> Trim(content) == ""
    ensures r.Returns? && r.value.Some? ==> 5 <= |Words(content)| && ParseU32(Words(content)[4]) == Some(r.value.value)
    ensures r.Panics? <==> Trim(content) != "" && (|Words(content)| < 5 || ParseU32(Words(content)[4]).None?)
  {
    if Trim(content) == "" then Returns(None)
    else
      var parts := Words(content);
      if |parts| < 5 then Panics("index out of bounds")
      else match ParseU32(parts[4])
        case None => Panics("cannot convert the pid to u32")
        case Some(pid) => Returns(Some(pid))
  }

  /** `get_id`. `netstat` is the output of `netstat -ano`, one string per
      line, or `None` when the command cannot be started. On Windows the
      first line that mentions the port is read (with its line break); on
      every other system the function is unimplemented and panics. */
  function GetId(os: Os, netstat: Option<seq<string>>, port: u32): (r: Exit<Option<u32>>)
    ensures os != Windows || netstat.None? ==> r.Panics?
    ensures os == Windows && netstat.Some? ==>
      (r == Returns(None) <==> forall i | 0 <= i < |netstat.value| :: !Mentions(port)(netstat.value[i]))
    ensures os == Windows && netstat.Some? ==>
      forall k: nat | Seqs.IsFirst(netstat.value, Mentions(port), k) :: r == ParseFirstLine(netstat.value[k] + "\r\n")
  {
    if os != Windows then Panics("not implemented")
    else match netstat
      case None => Panics("Failed to execute netstat -ano | findstr xxx")
      case Some(lines) =>
        match Seqs.FirstIndex(lines, Mentions(port))
        case None => ParseFirstLine("")
        case Some(k) =>
          MentionIsNotBlank(lines[k], port);
          ParseFirstLine(lines[k] + "\r\n")
  }

  /** A line that mentions the port does not trim to nothing. */
  lemma MentionIsNotBlank(line: string, port: u32)
    requires Mentions(port)(line)
    ensures Trim(line + "\r\n") != ""
  {
    var d := Decimal(port);
    var i :| 0 <= i <= |line| - |d| && IsAt(line, d, i);
    DecimalIsWord(port);
    assert (line + "\r\n")[i] == d[0];
    TrimKeepsNonBlank(line + "\r\n", i);
  }

  /** A netstat line: an indentation, then words separated by single
      spaces. */
  function NetstatLine(indent: string, words: seq<string>): string {
    indent + Join(words, " ")
  }

  predicate IsIndent(indent: string) {
    forall j | 0 <= j < |indent| :: IsWhitespace(indent[j])
  }

  predicate AreWords(words: seq<string>) {
    forall k | 0 <= k < |words| :: words[k] != "" && NoSeparator(words[k], IsBreak)
  }

  /** `get_id` splits a netstat line back into its words. */
  lemma {:induction false} WordsOfLine(indent: string, words: seq<string>)
    requires 0 < |words| && IsIndent(indent) && AreWords(words)
    ensures Words(NetstatLine(indent, words) + "\r\n") == words
  {
    var text := Join(words, " ");
    var last := words[|words| - 1];
    JoinStartsWithFirst(words, " ");
    JoinEndsWithLast(words, " ");
    assert text[0] == words[0][0];
    assert text[|text| - 1] == last[|last| - 1];
    TrimLine(indent, text, "\r\n");
    assert NetstatLine(indent, words) + "\r\n" == indent + text + "\r\n";
    SplitByJoin(words, ' ', IsBreak);
    NonEmptyKeeps(words);
  }

  /** When the first line that mentions the port has the process id as its
      fifth word, `get_id` returns that id. */
  lemma GetIdReadsFifthWord(lines: seq<string>, port: u32, k: nat, indent: string, words: seq<string>, pid: u32)
    requires Seqs.IsFirst(lines, Mentions(port), k)
    requires lines[k] == NetstatLine(indent, words) && IsIndent(indent) && AreWords(words)
    requires 5 <= |words| && words[4] == Decimal(pid)
    ensures GetId(Windows, Some(lines), port) == Returns(Some(pid))
  {
    Seqs.FirstIsUnique(lines, Mentions(port), k, Seqs.FirstIndex(lines, Mentions(port)).value);
    WordsOfLine(indent, words);
    ParseDecimal(pid);
  }

  /** A listening TCP socket on port 8080, owned by process `pid`. */
  function TcpWords(pid: u32): seq<string> {
    ["TCP", "0.0.0.0:8080", "0.0.0.0:0", "LISTENING", Decimal(pid)]
  }

  /** A UDP socket on port 8080, owned by process `pid`: there is no state
      column. */
  function UdpWords(pid: u32): seq<string> {
    ["UDP", "0.0.0.0:8080", "*:*", Decimal(pid)]
  }

  /** Visible ASCII characters never break a line into words. */
  lemma VisibleWords(words: seq<string>)
    requires forall k, i | 0 <= k < |words| && 0 <= i < |words[k]| :: '!' <= words[k][i] <= '~'
    requires forall k | 0 <= k < |words| :: words[k] != ""
    ensures AreWords(words)
  {
  }

  lemma SocketWords(pid: u32)
    ensures AreWords(TcpWords(pid)) && AreWords(UdpWords(pid))
  {
    DecimalIsWord(pid);
    VisibleWords(TcpWords(pid)[..4]);
    VisibleWords(UdpWords(pid)[..3]);
    assert TcpWords(pid) == TcpWords(pid)[..4] + [Decimal(pid)];
    assert UdpWords(pid) == UdpWords(pid)[..3] + [Decimal(pid)];
  }

  /** A line made of `first` and then words starting with `second`, both
      separated by single spaces, holds `second` right after `first`. */
  lemma SecondWordAt(indent: string, words: seq<string>)
    requires 2 <= |words|
    ensures var line, at := NetstatLine(indent, words), |indent| + |words[0]| + 1;
      at + |words[1]| <= |line| && line[at..at + |words[1]|] == words[1]
  {
    JoinCons(words[0], words[1..], " ");
    assert [words[0]] + words[1..] == words;
    JoinStartsWithFirst(words[1..], " ");
    var rest := Join(words[1..], " ");
    assert NetstatLine(indent, words) == (indent + words[0] + " ") + rest;
  }

  /** The only line mentioning a port is the first one that does, and
      `get_id` parses it. */
  lemma OnlyLine(line: string, port: u32, i: nat)
    requires IsAt(line, Decimal(port), i)
    ensures GetId(Windows, Some([line]), port) == ParseFirstLine(line + "\r\n")
    ensures Trim(line + "\r\n") != ""
  {
    assert Mentions(port)(line);
    assert Seqs.IsFirst([line], Mentions(port), 0);
    Seqs.FirstIsUnique([line], Mentions(port), 0, Seqs.FirstIndex([line], Mentions(port)).value);
    MentionIsNotBlank(line, port);
  }

  /** `findstr` matches the port's text anywhere in the line, so a query for
      port 80 reads the line of the process listening on 8080. */
  lemma GetIdMatchesLongerPort(indent: string, pid: u32)
    requires IsIndent(indent)
    ensures GetId(Windows, Some([NetstatLine(indent, TcpWords(pid))]), 80) == Returns(Some(pid))
  {
    var words := TcpWords(pid);
    var line := NetstatLine(indent, words);
    var at := |indent| + 4;
    SecondWordAt(indent, words);
    assert line[at..at + 12] == "0.0.0.0:8080";
    assert line[at + 10..at + 12] == "80" == Decimal(80);
    OnlyLine(line, 80, at + 10);
    SocketWords(pid);
    WordsOfLine(indent, words);
    ParseDecimal(pid);
  }

  /** A UDP line of `netstat -ano` has four columns (no state), so when it
      is the first to mention the port `get_id` panics instead of
      returning its process id. */
  lemma GetIdPanicsOnUdpLine(indent: string, pid: u32)
    requires IsIndent(indent)
    ensures GetId(Windows, Some([NetstatLine(indent, UdpWords(pid))]), 8080).Panics?
  {
    var words := UdpWords(pid);
    var line := NetstatLine(indent, words);
    var at := |indent| + 4;
    SecondWordAt(indent, words);
    assert line[at..at + 12] == "0.0.0.0:8080";
    assert line[at + 8..at + 12] == "8080" == Decimal(8080);
    OnlyLine(line, 8080, at + 8);
    SocketWords(pid);
    WordsOfLine(indent, words);
  }

  /** `kill`: `taskkill /F /PID` through `cmd` on Windows, `kill -9`
      through `sh` on Linux, unimplemented elsewhere. `spawns` says whether
      the shell can be started; when it cannot, `expect` panics. */
  function Kill(os: Os, pid: u32, spawns: bool): (r: Exit<Command>)
    ensures r.Returns? <==> os != OtherOs && spawns
    ensures r.Returns? ==> |r.value.args| == 2 && TrailingNumber(r.value.args[1]) == Some(pid)
    ensures r.Returns? ==> (r.value.program == "cmd" <==> os == Windows)
    ensures r.Returns? && os == Windows ==> r.value == Command("cmd", ["/C", TASKKILL + " " + Decimal(pid)])
    ensures r.Returns? && os == Linux ==> r.value == Command("sh", ["-c", KILL_9 + " " + Decimal(pid)])
  {
    match os
    case Windows =>
      EndsWithNumber(TASKKILL, pid);
      if spawns then Returns(Command("cmd", ["/C", TASKKILL + " " + Decimal(pid)]))
      else Panics("failed to run " + TASKKILL + " " + Decimal(pid))
    case Linux =>
      EndsWithNumber(KILL_9, pid);
      if spawns then Returns(Command("sh", ["-c", KILL_9 + " " + Decimal(pid)]))
      else Panics("failed to run " + KILL_9 + " " + Decimal(pid))
    case OtherOs => Panics("not implemented")
  }
}
