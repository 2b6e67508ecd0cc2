/** What the program sees of the processes it starts: `subprocess.run(...,
    check=True, stdout=PIPE, stderr=PIPE, text=True)`, the message-reporting
    `run_command` wrapper and the `sudo systemctl <verb> <name>` command line.
    Starting a process is I/O, so its outcome is an input value here. */
module Process {

  datatype Option<T> = None | Some(value: T)

  datatype Result<T, E> = Success(value: T) | Failure(error: E)

  /** What the operating system did with a command line: the process ran and
      exited with a code and captured output, or it could not be started at
      all (missing program, permission denied). */
  datatype Outcome =
    | Exited(returncode: int, stdout: string, stderr: string)
    | NotStarted(reason: string)

  /** The exceptions `subprocess.run(..., check=True)` raises. */
  datatype Error =
    | CalledProcessError(returncode: int, cmd: seq<string>, output: string, stderr: string)
    | OSError(reason: string)

  /** The `CompletedProcess` value returned when the command exits with code 0. */
  datatype Completed = Completed(args: seq<string>, stdout: string, stderr: string)

  /** `subprocess.run(command, check=True, ...)`: returns only for exit code 0;
      any other exit code raises CalledProcessError carrying the code and both
      captured streams; a command that cannot be started raises OSError. */
  function Run(command: seq<string>, outcome: Outcome): (r: Result<Completed, Error>)
    ensures r.Success? <==> outcome.Exited? && outcome.returncode == 0
    ensures r.Success? ==> r.value == Completed(command, outcome.stdout, outcome.stderr)
    ensures outcome.Exited? && outcome.returncode != 0 ==>
      r == Failure(CalledProcessError(outcome.returncode, command, outcome.stdout, outcome.stderr))
    ensures outcome.NotStarted? ==> r == Failure(OSError(outcome.reason))
  {
    match outcome
    case NotStarted(reason) => Failure(OSError(reason))
    case Exited(code, out, err) =>
      if code == 0 then Success(Completed(command, out, err))
      else Failure(CalledProcessError(code, command, out, err))
  }

  /** What `run_command` hands back: its boolean result and the text it shows
      in the message box. */
  datatype Report = Report(ok: bool, message: string)

  /** `run_command(command)`: runs the command with check=True, shows its
      standard output and returns True when it exits with 0; catches
      CalledProcessError, shows the captured standard error and returns False.
      OSError is not caught and propagates to the caller. */
  function RunCommand(command: seq<string>, outcome: Outcome): (r: Result<Report, Error>)
    ensures r.Success? <==> outcome.Exited?
    ensures r.Success? ==> (r.value.ok <==> outcome.returncode == 0)
    ensures r.Success? && r.value.ok ==> r.value.message == outcome.stdout
    ensures r.Success? && !r.value.ok ==> r.value.message == outcome.stderr
    ensures r.Failure? ==> r.error == OSError(outcome.reason)
  {
    match Run(command, outcome)
    case Success(completed) => Success(Report(true, completed.stdout))
    case Failure(CalledProcessError(_, _, _, err)) => Success(Report(false, err))
    case Failure(e) => Failure(e)
  }

  /** The command line that lists every service unit. */
  const ListUnits: seq<string> := ["systemctl", "list-units", "--type=service", "--all", "--no-pager"]

  /** The verb `toggle_service` picks: the enabling verb when the button is
      checked, the disabling one otherwise. */
  function Action(checked: bool, actionEnable: string, actionDisable: string): (verb: string)
    ensures checked ==> verb == actionEnable
    ensures !checked ==> verb == actionDisable
  {
    if checked then actionEnable else actionDisable
  }

  /** `['sudo', 'systemctl', action, service_name]`. */
  function ControlCommand(verb: string, serviceName: string): (command: seq<string>)
    ensures |command| == 4
    ensures command[0] == "sudo" && command[1] == "systemctl"
    ensures command[2] == verb && command[3] == serviceName
  {
    ["sudo", "systemctl", verb, serviceName]
  }

  /** run_command succeeds exactly when the checked run returns, and it raises
      exactly what the checked run raises other than CalledProcessError. */
  lemma RunCommandMatchesRun(command: seq<string>, outcome: Outcome)
    ensures RunCommand(command, outcome).Success? && RunCommand(command, outcome).value.ok
      <==> Run(command, outcome).Success?
    ensures RunCommand(command, outcome).Failure?
      <==> Run(command, outcome).Failure? && Run(command, outcome).error.OSError?
  {
  }
}
