/** The slice of `std::process::Command` that the core drives. */
module Process {
  import opened Wrappers
  import opened Bytes

  /**
   * What running a command gives back: its captured standard output, or the
   * reason it could not be spawned. Whether a spawn succeeds is decided by
   * the operating system and enters the model as an input.
   */
  type SpawnResult = Result<seq<byte>, string>

  /** A command builder: the program to run and the arguments appended so far. */
  class Command {
    const program: string
    var args: seq<string>

    /** `Command::new(program)`: no arguments yet. */
    constructor (program: string)
      ensures this.program == program && args == []
    {
      this.program := program;
      args := [];
    }

    /** `arg(a)`: appends one argument, exactly as given. */
    method Arg(a: string)
      modifies this
      ensures args == old(args) + [a]
    {
      args := args + [a];
    }

    /** `args(xs)`: appends every element of `xs`, each as its own argument, in order. */
    method Args(xs: seq<string>)
      modifies this
      ensures args == old(args) + xs
    {
      for i := 0 to |xs|
        invariant args == old(args) + xs[..i]
      {
        Arg(xs[i]);
        assert xs[..i + 1] == xs[..i] + [xs[i]];
      }
      assert xs[..|xs|] == xs;
    }
  }
}
