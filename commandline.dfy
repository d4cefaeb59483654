/** The command line (Program.cs lines 51-79): `-s X` names a source bundle,
    `-d X` the destination folder (the last one counts), and any other argument,
    an option with nothing after it included, is itself a source. */
module CommandLine {
  import opened Wire

  /** One unit of the command line, as the splitting loop consumes it. */
  datatype Token =
    | SourceOption(source: string)        // "-s" and the argument after it
    | DestinationOption(folder: string)   // "-d" and the argument after it
    | Plain(arg: string)                  // any other single argument

  /** What the program goes on to do. */
  datatype Command =
    | ShowUsage                                                   // no arguments (line 51)
    | MissingSource                                               // no source named (line 75)
    | Rename(sources: seq<string>, destination: Option<string>)

  /** How the loop of lines 58-73 groups the arguments: an option takes the next
      argument when there is one. */
  function Tokenize(args: seq<string>): (r: seq<Token>)
    ensures |r| <= |args| <= 2 * |r|
    decreases |args|
  {
    if |args| == 0 then []
    else if args[0] == "-s" && |args| > 1 then [SourceOption(args[1])] + Tokenize(args[2..])
    else if args[0] == "-d" && |args| > 1 then [DestinationOption(args[1])] + Tokenize(args[2..])
    else [Plain(args[0])] + Tokenize(args[1..])
  }

  /** The arguments a token was made of. */
  function Words(t: Token): seq<string> {
    match t
    case SourceOption(source) => ["-s", source]
    case DestinationOption(folder) => ["-d", folder]
    case Plain(arg) => [arg]
  }

  function Flatten(ts: seq<Token>): seq<string>
    decreases |ts|
  {
    if |ts| == 0 then [] else Words(ts[0]) + Flatten(ts[1..])
  }

  /** The sources, in command-line order. */
  function Sources(ts: seq<Token>): (r: seq<string>)
    ensures |r| <= |ts|
    decreases |ts|
  {
    if |ts| == 0 then []
    else
      match ts[0]
      case SourceOption(source) => [source] + Sources(ts[1..])
      case DestinationOption(_) => Sources(ts[1..])
      case Plain(arg) => [arg] + Sources(ts[1..])
  }

  /** The folder of the last `-d` option, if any. */
  function LastDestination(ts: seq<Token>): (r: Option<string>)
    ensures r.Some? ==> DestinationOption(r.value) in ts
    decreases |ts|
  {
    if |ts| == 0 then None
    else
      match LastDestination(ts[1..])
      case Some(folder) => Some(folder)
      case None => if ts[0].DestinationOption? then Some(ts[0].folder) else None
  }

  /** What the program does with its arguments. */
  function Interpret(args: seq<string>): (r: Command)
    ensures r == ShowUsage <==> |args| == 0
    ensures r.Rename? ==> 0 < |r.sources| <= |args|
  {
    if |args| == 0 then ShowUsage
    else
      var ts := Tokenize(args);
      if |Sources(ts)| == 0 then MissingSource
      else Rename(Sources(ts), LastDestination(ts))
  }

  // ---------------------------------------------------------------------------
  // Properties

  /** Every argument is consumed exactly once, in order. */
  lemma {:induction false} TokensCoverArguments(args: seq<string>)
    ensures Flatten(Tokenize(args)) == args
    decreases |args|
  {
    if |args| == 0 {
    } else if args[0] == "-s" && |args| > 1 {
      TokensCoverArguments(args[2..]);
      assert args == ["-s", args[1]] + args[2..];
    } else if args[0] == "-d" && |args| > 1 {
      TokensCoverArguments(args[2..]);
      assert args == ["-d", args[1]] + args[2..];
    } else {
      TokensCoverArguments(args[1..]);
      assert args == [args[0]] + args[1..];
    }
  }

  /** An option is read as a plain source only when nothing follows it. */
  lemma {:induction false} BareOptionIsLast(args: seq<string>, k: nat)
    requires k < |Tokenize(args)|
    requires Tokenize(args)[k] == Plain("-s") || Tokenize(args)[k] == Plain("-d")
    ensures k == |Tokenize(args)| - 1
    decreases |args|
  {
    var ts := Tokenize(args);
    var rest := args[Consumed(args)..];
    assert ts == [ts[0]] + Tokenize(rest);
    if k > 0 {
      assert ts[k] == Tokenize(rest)[k - 1];
      BareOptionIsLast(rest, k - 1);
    } else {
      assert |args| == 1;
    }
  }

  /** How many arguments the first token takes. */
  function Consumed(args: seq<string>): (n: nat)
    requires |args| > 0
    ensures 1 <= n <= |args|
  {
    if (args[0] == "-s" || args[0] == "-d") && |args| > 1 then 2 else 1
  }

  /** Without options, every argument is a source, in order, and there is no
      destination. */
  lemma {:induction false} PlainArguments(args: seq<string>)
    requires forall k :: 0 <= k < |args| ==> args[k] != "-s" && args[k] != "-d"
    ensures Sources(Tokenize(args)) == args
    ensures LastDestination(Tokenize(args)) == None
    decreases |args|
  {
    if |args| > 0 {
      PlainArguments(args[1..]);
      assert args == [args[0]] + args[1..];
    }
  }

  /** The last `-d` option decides the destination, whatever came before it. */
  lemma LastOptionWins(before: seq<Token>, folder: string, after: seq<Token>)
    requires forall k :: 0 <= k < |after| ==> !after[k].DestinationOption?
    ensures LastDestination(before + [DestinationOption(folder)] + after) == Some(folder)
  {
    var tail := [DestinationOption(folder)] + after;
    NoDestination(after);
    FirstDestination(folder, after);
    LastDestinationAppend(before, tail);
    assert before + [DestinationOption(folder)] + after == before + tail;
  }

  lemma FirstDestination(folder: string, after: seq<Token>)
    requires LastDestination(after) == None
    ensures LastDestination([DestinationOption(folder)] + after) == Some(folder)
  {
    assert ([DestinationOption(folder)] + after)[1..] == after;
  }

  lemma {:induction false} NoDestination(ts: seq<Token>)
    requires forall k :: 0 <= k < |ts| ==> !ts[k].DestinationOption?
    ensures LastDestination(ts) == None
    decreases |ts|
  {
    if |ts| > 0 {
      NoDestination(ts[1..]);
    }
  }

  /** A destination in later tokens overrides any earlier one. */
  lemma {:induction false} LastDestinationAppend(a: seq<Token>, b: seq<Token>)
    requires LastDestination(b).Some?
    ensures LastDestination(a + b) == LastDestination(b)
    decreases |a|
  {
    if |a| == 0 {
      assert a + b == b;
    } else {
      assert (a + b)[1..] == a[1..] + b;
      LastDestinationAppend(a[1..], b);
    }
  }

  // ---------------------------------------------------------------------------
  // The loop

  /** The `for (i = 0, nexti = 1; ...)` loop of lines 58-73: `-s` and `-d` with a
      following argument consume it by advancing `nexti`. */
  method SplitArguments(args: seq<string>) returns (sources: seq<string>, destination: Option<string>)
    ensures sources == Sources(Tokenize(args))
    ensures destination == LastDestination(Tokenize(args))
  {
    sources := [];
    destination := None;
    var i, next := 0, 1;
    while i < |args|
      invariant next == i + 1
      invariant SplitSoFar(args, i, sources, destination)
      decreases |args| - i
    {
      var arg := args[i];
      if arg == "-s" && |args| > next {
        SourceStep(args, i, sources, destination);
        sources := sources + [args[next]];
        next := next + 1;
      } else if arg == "-d" && |args| > next {
        DestinationStep(args, i, sources, destination);
        destination := Some(args[next]);
        next := next + 1;
      } else {
        PlainStep(args, i, sources, destination);
        sources := sources + [args[i]];
      }
      i, next := next, next + 1;
    }
    assert args[i..] == [];
  }

  /** The loop's invariant: the sources and destination found before argument
      `i`, completed by those from `i` on, are those of the whole line. */
  predicate SplitSoFar(args: seq<string>, i: nat, sources: seq<string>, destination: Option<string>) {
    i <= |args| &&
    sources + Sources(Tokenize(args[i..])) == Sources(Tokenize(args)) &&
    LastDestination(Tokenize(args)) == Override(LastDestination(Tokenize(args[i..])), destination)
  }

  lemma SourceStep(args: seq<string>, i: nat, sources: seq<string>, destination: Option<string>)
    requires i + 1 < |args| && args[i] == "-s" && SplitSoFar(args, i, sources, destination)
    ensures SplitSoFar(args, i + 2, sources + [args[i + 1]], destination)
  {
    TokenizeAt(args, i);
  }

  lemma DestinationStep(args: seq<string>, i: nat, sources: seq<string>, destination: Option<string>)
    requires i + 1 < |args| && args[i] == "-d" && SplitSoFar(args, i, sources, destination)
    ensures SplitSoFar(args, i + 2, sources, Some(args[i + 1]))
  {
    TokenizeAt(args, i);
  }

  lemma PlainStep(args: seq<string>, i: nat, sources: seq<string>, destination: Option<string>)
    requires i < |args| && SplitSoFar(args, i, sources, destination)
    requires !((args[i] == "-s" || args[i] == "-d") && i + 1 < |args|)
    ensures SplitSoFar(args, i + 1, sources + [args[i]], destination)
  {
    TokenizeAt(args, i);
  }

  /** A later destination, when there is one, over an earlier one. */
  function Override(later: Option<string>, earlier: Option<string>): Option<string> {
    if later.Some? then later else earlier
  }

  /** The tokens from argument `i` on, by the argument at `i`. */
  lemma TokenizeAt(args: seq<string>, i: nat)
    requires i < |args|
    ensures var ts := Tokenize(args[i..]);
      if args[i] == "-s" && i + 1 < |args| then
        |ts| > 0 && ts[0] == SourceOption(args[i + 1]) && ts[1..] == Tokenize(args[i + 2..])
      else if args[i] == "-d" && i + 1 < |args| then
        |ts| > 0 && ts[0] == DestinationOption(args[i + 1]) && ts[1..] == Tokenize(args[i + 2..])
      else
        |ts| > 0 && ts[0] == Plain(args[i]) && ts[1..] == Tokenize(args[i + 1..])
  {
    var rest := args[i..];
    assert rest[1..] == args[i + 1..];
    if i + 1 < |args| {
      assert rest[2..] == args[i + 2..];
    }
  }

  /** The start of `Main`: usage without arguments, an error without sources. */
  method ParseCommandLine(args: seq<string>) returns (c: Command)
    ensures c == Interpret(args)
    ensures c.Rename? ==> |c.sources| > 0
  {
    if |args| == 0 {
      return ShowUsage;
    }
    var sources, destination := SplitArguments(args);
    if |sources| == 0 {
      return MissingSource;
    }
    c := Rename(sources, destination);
  }
}
