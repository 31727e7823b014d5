/** From source tokens to the final globals: the compiler and the machine together. */
module Scripts {
  import opened Syntax
  import opened Runtime
  import opened Machine
  import opened Codegen
  import opened Evaluation
  import opened Simulation
  import opened CompilerCorrectness
  import opened Compiling
  import opened Boundaries
  import Chains
  import Parsing
  import Printing

  /** What a run of a compiled script does is what its tokens mean: the same globals, or the same
      run-time error with the same globals, or no end. `h` answers for doubles and native calls. */
  lemma CompiledTokensRun(h: Host, tokens: seq<Token>, slot0: Value, g: Globals, fuel: nat) returns (n: nat)
    requires Chains.ScriptInRange(tokens) && Compiling.CompileSpec(tokens).Function?
    ensures Parsing.ParseScript(tokens).Parsed?
    ensures Agrees(Steps(h, Load(Compiling.CompileSpec(tokens).chunk), At(0, [slot0], g), n), n,
                   EvalBlock(h, Parsing.ParseScript(tokens).value, g, 1, fuel), fuel)
  {
    hide Parsing.ParseScript, ScriptFits, ScriptChunk, Printing.WellFormed, EvalBlock, Agrees, Steps;
    Printing.ParsedScriptFits(tokens);
    n := CompiledScriptRuns(h, Parsing.ParseScript(tokens).value, slot0, g, fuel);
  }

  /** Conversely, however a run stops, the tokens mean that; and on the way the instruction pointer
      was always on an instruction boundary. */
  lemma StoppedTokensRun(h: Host, tokens: seq<Token>, slot0: Value, g: Globals, n: nat)
    requires Chains.ScriptInRange(tokens) && Compiling.CompileSpec(tokens).Function?
    ensures Parsing.ParseScript(tokens).Parsed?
    ensures var p := Load(Compiling.CompileSpec(tokens).chunk);
            var o := EvalBlock(h, Parsing.ParseScript(tokens).value, g, 1, n + 1);
            match Steps(h, p, At(0, [slot0], g), n)
            case Running(st) => Sweeps(p, 0, st.ip)
            case Halted(v, g') => v == Nil && o == Normal(g')
            case Failed(e, g') => o == Raised(e, g')
            case Stuck => false
  {
    hide Parsing.ParseScript, ScriptFits, ScriptChunk, Printing.WellFormed, EvalBlock, Sweeps, Steps, Execute;
    Printing.ParsedScriptFits(tokens);
    var b := Parsing.ParseScript(tokens).value;
    if Steps(h, Load(Compiling.CompileSpec(tokens).chunk), At(0, [slot0], g), n).Running? {
      ScriptStaysOnBoundaries(h, b, slot0, g, n);
    } else {
      StoppedRunIsEvaluation(h, b, slot0, g, n);
    }
  }

  /** The minimally parenthesised print of a tree compiles to the tree's own code. */
  lemma PrintedScriptCompiles(b: Block)
    requires Printing.WellFormed(b, false) && ChainsFit(b)
    ensures Chains.ScriptInRange(Printing.PrintBlock(b))
    ensures Compiling.CompileSpec(Printing.PrintBlock(b)) ==
            if ScriptFits(b) then Compiled.Function(ScriptChunk(b)) else CompileError
  {
    hide Parsing.ParseScript, ScriptFits, ScriptChunk, Chains.ScriptInRange, ChainsFit, Printing.PrintBlock;
    Printing.ScriptRoundTrip(b);
    Chains.ScriptInRangeIff(Printing.PrintBlock(b));
  }

  datatype Interpreted = NotCompiled | Ran(outcome: Config)

  /** Compiling and running in one go, as vm_interpret does. */
  method Interpret(h: Host, tokens: seq<Token>, slot0: Value, g: Globals, limit: nat) returns (r: Interpreted)
    requires Chains.ScriptInRange(tokens)
    ensures match Compiling.CompileSpec(tokens)
            case CompileError => r == NotCompiled
            case Function(chunk) => r == Ran(Steps(h, Load(chunk), At(0, [slot0], g), limit))
  {
    hide Parsing.ParseScript, ScriptFits, ScriptChunk, Steps;
    var c := Compiling.Compile(tokens);
    if c.CompileError? { return NotCompiled; }
    var vm := new VM(slot0, g);
    var finished := vm.Run(h, c.chunk, limit);
    r := Ran(if finished then vm.outcome else Running(State(vm.ip, vm.stack, vm.globals)));
  }
}
