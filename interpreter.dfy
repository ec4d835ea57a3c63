/**
 One interpreter: a child process in interactive mode whose output the drain
 runs through the sentinel matcher.

 The process itself, the drain thread and the timed wait in `communicate` are
 not modelled; what is modelled is the matcher's state as the drain leaves it
 (the held run, the output queue, the `running` flag) and the text that
 `communicate` writes to the child's stdin.
 */
module InterpreterProcess {
  import opened Matcher

  /**
   An echo command with one `{magic}` field and no other braces, as `str.format`
   sees it: the text before the field and the text after it.
   */
  datatype EchoTemplate = EchoTemplate(before: string, after: string)

  /** `'print("{magic}")'`, the echo command of the Python interpreter. */
  const PythonEcho: EchoTemplate := EchoTemplate("print(\"", "\")")

  /** `echocmd.format(magic=MAGIC)` for an echo command with a single `{magic}` field. */
  function EchoCommand(echo: EchoTemplate, magic: string): (line: string)
    ensures |line| == |echo.before| + |magic| + |echo.after|
    ensures line[|echo.before|..|echo.before| + |magic|] == magic
  {
    echo.before + magic + echo.after
  }

  /**
   What `communicate` writes to the child's stdin for `input`: the input line,
   then the echo command line.
   */
  function StdinText(input: string, echo: EchoTemplate, magic: string): (text: string)
    ensures |text| == |input| + |echo.before| + |magic| + |echo.after| + 2
    // the input comes first, unchanged, and is closed by a newline
    ensures text[..|input|] == input && text[|input|] == '\n'
    // the marker follows, inside the echo command, on a line of its own
    ensures var at := |input| + 1 + |echo.before|;
            text[at..at + |magic|] == magic && text[|text| - 1] == '\n'
    // between the two newlines stands the whole echo command, so the marker's line is that command
    ensures text[|input| + 1..|text| - 1] == EchoCommand(echo, magic)
  {
    var text := input + "\n" + EchoCommand(echo, magic) + "\n";
    var lead := input + "\n" + echo.before;
    assert text == lead + magic + (echo.after + "\n");
    assert text[..|input|] == input;
    assert text[|lead|..|lead| + |magic|] == magic;
    assert text == input + "\n" + EchoCommand(echo, magic) + "\n";
    assert text[|input| + 1..|text| - 1] == EchoCommand(echo, magic);
    text
  }

  /**
   With a marker of the right shape, the Python echo command is one line whose
   only double quotes are the two that delimit the marker and which holds no
   backslash: the marker needs no escaping, so the child prints it as it is.
   */
  lemma PythonEchoIsPlainLiteral(magic: string)
    requires IsMagic(magic)
    ensures var line := EchoCommand(PythonEcho, magic);
            && line[7..7 + |magic|] == magic
            && (forall i :: 0 <= i < |line| ==> line[i] != '\n')
            && (forall i :: 0 <= i < |line| && line[i] == '"' ==> i == 6 || i == |line| - 2)
            && (forall i :: 0 <= i < |line| ==> line[i] != '\\')
  {
    var line := EchoCommand(PythonEcho, magic);
    assert line == "print(\"" + magic + "\")";
    forall i | 0 <= i < |line|
      ensures line[i] != '\n' && line[i] != '\\' && (line[i] == '"' ==> i == 6 || i == |line| - 2)
    {
      if 7 <= i < 7 + |magic| {
        var j := i - 7;
        assert line[i] == magic[j];
        if j < 3 {
          assert magic[j] == magic[..3][j];
        } else {
          assert IsAsciiLetter(magic[j]);
        }
      }
    }
  }

  /**
   An interpreter and the state its output drain keeps. `start` is the
   drain's held run (empty for `None`), `queue` the chunks handed to
   `communicate`, `running` the flag the drain clears on each marker.
   */
  class Interpreter {
    const exec: string
    const echo: EchoTemplate
    const magic: string

    var start: string
    var queue: seq<string>
    var running: bool

    /** Between characters the held run is a proper prefix of the marker and every queued entry is a chunk. */
    ghost predicate Valid()
      reads this
    {
      && IsMagic(magic)
      && IsHeldRun(magic, start)
      && forall i :: 0 <= i < |queue| ==> IsChunk(magic, queue[i])
    }

    /** The drain's state as the matcher's specification sees it. */
    function State(): MatchState
      reads this
    {
      MatchState(start, queue, running)
    }

    /** A new interpreter: nothing held, nothing queued, not running. */
    constructor (exec: string, echo: EchoTemplate, magic: string)
      requires IsMagic(magic)
      ensures Valid()
      ensures this.exec == exec && this.echo == echo && this.magic == magic
      ensures State() == MatchState([], [], false)
    {
      this.exec := exec;
      this.echo := echo;
      this.magic := magic;
      start := [];
      queue := [];
      running := false;
    }

    /**
     What `communicate` writes to this interpreter's stdin for `input`: the
     input line, then this interpreter's echo command carrying its own marker.
     */
    function StdinFor(input: string): (text: string)
      reads this
      ensures |text| == |input| + |echo.before| + |magic| + |echo.after| + 2
      ensures text[..|input|] == input && text[|input|] == '\n'
      ensures text[|input| + 1..|text| - 1] == EchoCommand(echo, magic)
      ensures var at := |input| + 1 + |echo.before|;
              text[at..at + |magic|] == magic && text[|text| - 1] == '\n'
    {
      StdinText(input, echo, magic)
    }

    /** The loop body of the drain for one character read from the child. */
    method Feed(c: char)
      requires Valid()
      modifies this
      ensures Valid()
      ensures State() == Step(magic, old(State()), c)
    {
      StepSpec(magic, State(), c);
      start := start + [c];
      if start <= magic {
        if start == magic {
          running := false;
          start := [];
        }
      } else {
        queue := queue + [start];
        start := [];
      }
    }

    /** End of the child's stream: the held run is dropped, not queued, and matching restarts. */
    method EndOfStream()
      requires Valid()
      modifies this
      ensures Valid()
      ensures start == [] && queue == old(queue) && running == old(running)
    {
      start := [];
    }

    /**
     The drain over the whole of a finite stream: matching starts from nothing,
     each character goes through the loop body, and at the end the held run is
     dropped.
     */
    method QueueOutput(stream: string)
      requires Valid()
      modifies this
      ensures Valid()
      ensures State() == Run(magic, MatchState([], old(queue), old(running)), stream).(start := [])
    {
      start := [];
      ghost var begin := State();
      var i := 0;
      while i < |stream|
        invariant 0 <= i <= |stream|
        invariant Valid()
        invariant State() == Run(magic, begin, stream[..i])
      {
        assert stream[..i + 1][..i] == stream[..i];
        Feed(stream[i]);
        i := i + 1;
      }
      assert stream[..i] == stream;
      EndOfStream();
    }
  }
}
