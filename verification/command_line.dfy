/** The small command-line token parser used by the analysis driver: it keeps
    the arguments after the program name and answers "is this option present"
    and "what follows this option". */
module CommandLine {

  /** Index of the first token equal to option, or |tokens| when there is none
      (the end iterator of a linear find). */
  function Find(tokens: seq<string>, option: string): (k: nat)
    ensures k <= |tokens|
    ensures k < |tokens| ==> tokens[k] == option
    ensures forall i :: 0 <= i < k ==> tokens[i] != option
    decreases |tokens|
  {
    if tokens == [] then 0
    else if tokens[0] == option then 0
    else 1 + Find(tokens[1..], option)
  }

  class CommandLineArgumentParser {
    var tokens: seq<string>

    /** Keeps argv[1..argc-1] in order; argc is |argv|. */
    constructor (argv: seq<string>)
      ensures tokens == if |argv| == 0 then [] else argv[1..]
    {
      tokens := [];
      new;
      var i := 1;
      while i < |argv|
        invariant |argv| == 0 ==> tokens == []
        invariant |argv| > 0 ==> 1 <= i <= |argv| && tokens == argv[1..i]
      {
        tokens := tokens + [argv[i]];
        i := i + 1;
      }
    }

    /** The token right after the first occurrence of option, or the empty
        string when option is absent or is the last token. */
    function GetCmdOption(option: string): (r: string)
      reads this
      ensures option !in tokens ==> r == ""
      ensures forall k :: 0 <= k < |tokens| && tokens[k] == option && option !in tokens[..k] ==>
                r == if k + 1 < |tokens| then tokens[k + 1] else ""
    {
      var k := Find(tokens, option);
      if k < |tokens| && k + 1 < |tokens| then tokens[k + 1] else ""
    }

    /** Whether option is one of the stored tokens. */
    predicate CmdOptionExists(option: string): (b: bool)
      reads this
      ensures b <==> option in tokens
    {
      Find(tokens, option) != |tokens|
    }
  }
}
