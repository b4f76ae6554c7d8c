/** The constants the tiny shell is built around (tsh.c, lines 17-26). */
module Limits {

  /** Size of a command line buffer, the terminating NUL included. */
  const MaxLine: nat := 1024
  /** Size of the argument vector, the terminating NULL entry included. */
  const MaxArgs: nat := 128
  /** Number of slots in the job list. */
  const MaxJobs: nat := 16

  /** Job states, as the integer codes the job list stores. */
  const Undef: int := 0
  const Foreground: int := 1
  const Background: int := 2
  const Stopped: int := 3
}
