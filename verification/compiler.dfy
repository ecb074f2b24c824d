/**
  `compileString`: the template text goes through the ten passes in a fixed
  order, each pass working on the output of the one before.
 */
module Compiler {
  import opened Text
  import opened Locate
  import opened Passes

  datatype Pass = Comments | Arrays | Echos | Codes | Openings | Closings | Else | Includes | Partials | Loop

  /** The order in which the passes run. */
  const Compilers: seq<Pass> := [Comments, Arrays, Echos, Codes, Openings, Closings, Else, Includes, Partials, Loop]

  function Run(theme: Theme, pass: Pass, t: string): string {
    match pass
    case Comments => CompileComments(t)
    case Arrays => CompileArrays(t)
    case Echos => CompileEchos(t)
    case Codes => CompileCodes(t)
    case Openings => CompileOpenings(t)
    case Closings => CompileClosings(t)
    case Else => CompileElse(t)
    case Includes => CompileIncludes(theme, t)
    case Partials => CompilePartials(theme, t)
    case Loop => CompileLoop(t)
  }

  /** The passes `passes[i..]`, in order, each over the result of the previous. */
  function RunFrom(theme: Theme, passes: seq<Pass>, i: nat, t: string): string
    requires i <= |passes|
    decreases |passes| - i
  {
    if i == |passes| then t else RunFrom(theme, passes, i + 1, Run(theme, passes[i], t))
  }

  function CompileString(theme: Theme, t: string): string {
    RunFrom(theme, Compilers, 0, t)
  }

  lemma CompilersInOrder()
    ensures |Compilers| == 10
    ensures Compilers[0] == Comments && Compilers[1] == Arrays && Compilers[2] == Echos
    ensures Compilers[3] == Codes && Compilers[4] == Openings && Compilers[5] == Closings
    ensures Compilers[6] == Else && Compilers[7] == Includes && Compilers[8] == Partials
    ensures Compilers[9] == Loop
  {
  }

  /** One step of the fold: pass `i` runs on the text the earlier ones produced. */
  lemma RunStep(theme: Theme, passes: seq<Pass>, i: nat, t: string)
    requires i < |passes|
    ensures RunFrom(theme, passes, i, t) == RunFrom(theme, passes, i + 1, Run(theme, passes[i], t))
  {
  }

  /** The pipeline is the composition of the ten passes, comments first and
      the loop last. */
  lemma PipelineOrder(theme: Theme, t: string)
    ensures CompileString(theme, t)
            == CompileLoop(CompilePartials(theme, CompileIncludes(theme, CompileElse(CompileClosings(
                 CompileOpenings(CompileCodes(CompileEchos(CompileArrays(CompileComments(t))))))))))
  {
    var u := FrontPasses(theme, t);
    BackPasses(theme, u);
  }

  /** The first five passes, from the template to the block openers. */
  lemma FrontPasses(theme: Theme, t: string) returns (u: string)
    ensures u == CompileOpenings(CompileCodes(CompileEchos(CompileArrays(CompileComments(t)))))
    ensures CompileString(theme, t) == RunFrom(theme, Compilers, 5, u)
  {
    var t1 := CompileComments(t);
    var t2 := CompileArrays(t1);
    var t3 := CompileEchos(t2);
    var t4 := CompileCodes(t3);
    u := CompileOpenings(t4);
    var ps := Compilers;
    CompilersInOrder();
    RunStep(theme, ps, 0, t);
    RunStep(theme, ps, 1, t1);
    RunStep(theme, ps, 2, t2);
    RunStep(theme, ps, 3, t3);
    RunStep(theme, ps, 4, t4);
  }

  /** The last five passes, from the block closers to the loop. */
  lemma BackPasses(theme: Theme, u: string)
    ensures RunFrom(theme, Compilers, 5, u)
            == CompileLoop(CompilePartials(theme, CompileIncludes(theme, CompileElse(CompileClosings(u)))))
  {
    var t6 := CompileClosings(u);
    var t7 := CompileElse(t6);
    var t8 := CompileIncludes(theme, t7);
    var t9 := CompilePartials(theme, t8);
    var t10 := CompileLoop(t9);
    var ps := Compilers;
    CompilersInOrder();
    RunStep(theme, ps, 5, u);
    RunStep(theme, ps, 6, t6);
    RunStep(theme, ps, 7, t7);
    RunStep(theme, ps, 8, t8);
    RunStep(theme, ps, 9, t9);
    assert RunFrom(theme, ps, 10, t10) == t10;
  }

  /** A template without any directive marker (`{{`, a double backtick, `@`
      or `get_`) is compiled to itself. */
  lemma PlainTextUnchanged(theme: Theme, t: string)
    requires !OccursFrom(t, 0, "{{") && !OccursFrom(t, 0, "``")
    requires !OccursFrom(t, 0, "@") && !OccursFrom(t, 0, "get_")
    ensures CompileString(theme, t) == t
  {
    PipelineOrder(theme, t);
    PartialsWithoutCalls(theme, t);
  }
}
