/** A finished subprocess call: the command line and whether it exited with 0.
    The exit code itself is supplied by the caller, since nothing is run. */
module Subprocess {

  datatype Run = Run(command: seq<string>, succeeded: bool)

  /** `subprocess.run(command).returncode == 0`, the exit code given. */
  function Exec(command: seq<string>, exitCode: int): (r: Run)
    ensures r.command == command
    ensures r.succeeded <==> exitCode == 0
  {
    Run(command, exitCode == 0)
  }
}
