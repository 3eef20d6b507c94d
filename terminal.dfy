/**
 * How the prompt loops see the terminal.  Each loop consumes a sequence of
 * inputs (characters, lines or keys) one read at a time; running out of input
 * stands for the read failing.  The confirmation, input and password prompts
 * pass that I/O error to their caller; the file picker unwraps its key read,
 * so there a failed read panics instead.
 */
module Terminal {

  /** The end of a prompt loop: a value after `next` inputs were read, or the
      failed read that ends the interaction with an error. */
  datatype Outcome<T> = Done(value: T, next: nat) | Exhausted
}
