/** The error reported for a failed git command line: a fixed header naming the
    command, followed by the stderr, stdout and exception sections that have content. */
module CommandLine {
  import opened Wrappers
  import opened Text
  import opened Exceptions

  /** What running a command produced (`ExecResult`). */
  datatype ExecResult = ExecResult(
    exitCode: int,
    stdout: Option<string>,
    stderr: Option<string>,
    exception: Option<Exception>)

  function Header(cmdName: string): string {
    "'" + cmdName + "' command failed."
  }

  /** A labelled section, present only when the output has content. */
  function OutputSection(title: string, output: Option<string>): string {
    if IsEmpty(output) then "" else "\n" + title + ": " + Trim(output.value)
  }

  function ExceptionSection(exception: Option<Exception>): string {
    if exception.None? then "" else "\nexception: " + MessageText(exception.value)
  }

  function FailureMessage(cmdName: string, res: ExecResult): string {
    Header(cmdName) + OutputSection("stderr", res.stderr) + OutputSection("stdout", res.stdout)
      + ExceptionSection(res.exception)
  }

  /** `getCommandLineError`: no error exactly for a zero exit code without an exception;
      otherwise a VcsException whose message starts with the header. */
  function CommandLineError(cmdName: string, res: ExecResult): (r: Option<Exception>)
    ensures r.None? <==> res.exitCode == 0 && res.exception.None?
    ensures r.Some? ==> IsVcs(r.value) && r.value.message.Some?
                        && StartsWith(r.value.message.value, Header(cmdName))
  {
    if res.exitCode != 0 || res.exception.Some? then
      var m := FailureMessage(cmdName, res);
      ConcatEnds(Header(cmdName), OutputSection("stderr", res.stderr) + OutputSection("stdout", res.stdout)
                                  + ExceptionSection(res.exception));
      Some(VcsError(m))
    else None
  }

  /** Non-empty stderr comes right after the header, trimmed. */
  lemma StderrSectionFirst(cmdName: string, res: ExecResult)
    requires !IsEmpty(res.stderr)
    ensures StartsWith(FailureMessage(cmdName, res), Header(cmdName) + "\nstderr: " + Trim(res.stderr.value))
  {
    var h := Header(cmdName);
    var x := OutputSection("stderr", res.stderr);
    ConcatEnds(h + x, OutputSection("stdout", res.stdout) + ExceptionSection(res.exception));
    assert h + x == h + "\nstderr: " + Trim(res.stderr.value);
  }

  /** Without stderr, non-empty stdout comes right after the header, trimmed. */
  lemma StdoutSectionAfterHeader(cmdName: string, res: ExecResult)
    requires IsEmpty(res.stderr) && !IsEmpty(res.stdout)
    ensures StartsWith(FailureMessage(cmdName, res), Header(cmdName) + "\nstdout: " + Trim(res.stdout.value))
  {
    var h := Header(cmdName);
    var y := OutputSection("stdout", res.stdout);
    assert h + OutputSection("stderr", res.stderr) == h;
    ConcatEnds(h + y, ExceptionSection(res.exception));
    assert h + y == h + "\nstdout: " + Trim(res.stdout.value);
  }

  /** An exception always closes the message with its message text. */
  lemma ExceptionSectionLast(cmdName: string, res: ExecResult)
    requires res.exception.Some?
    ensures EndsWith(FailureMessage(cmdName, res), "\nexception: " + MessageText(res.exception.value))
  {
    var h := Header(cmdName);
    ConcatEnds(h + OutputSection("stderr", res.stderr) + OutputSection("stdout", res.stdout),
               ExceptionSection(res.exception));
  }

  /** Without an exception, non-empty stdout closes the message. */
  lemma StdoutSectionLast(cmdName: string, res: ExecResult)
    requires res.exception.None? && !IsEmpty(res.stdout)
    ensures EndsWith(FailureMessage(cmdName, res), "\nstdout: " + Trim(res.stdout.value))
  {
    var front := Header(cmdName) + OutputSection("stderr", res.stderr);
    var y := OutputSection("stdout", res.stdout);
    assert ExceptionSection(res.exception) == [];
    assert front + y + ExceptionSection(res.exception) == front + y;
    ConcatEnds(front, y);
  }

  /** A failure with no output and no exception reports the header alone. */
  lemma BareFailure(cmdName: string, res: ExecResult)
    requires res.exitCode != 0 && IsEmpty(res.stderr) && IsEmpty(res.stdout) && res.exception.None?
    ensures CommandLineError(cmdName, res) == Some(VcsError(Header(cmdName)))
  {
    assert OutputSection("stderr", res.stderr) == [];
    assert OutputSection("stdout", res.stdout) == [];
    assert ExceptionSection(res.exception) == [];
    assert FailureMessage(cmdName, res) == Header(cmdName);
  }
}
