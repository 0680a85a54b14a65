/**
 The records the pipeline passes between its stages: one entry of the
 static-analysis snapshot (`c_src/functions.json`), one parsed model
 reply, and the verdict on one translation.
 */
module Records {
  import opened Outcomes

  /** A function of the C program: its name, the C file that defines it,
      its 1-indexed span, and the callees the analyser found, absent for
      functions that are in the AST but not in the LLVM IR. */
  datatype FuncRecord = FuncRecord(
    name: string,
    filename: string,
    startLine: int,
    startCol: int,
    endLine: int,
    endCol: int,
    calledFunctions: Option<seq<string>>)

  /** The three sections of a model reply: the Rust function, its
      `extern "C"` wrapper, and the imports they need (empty when the
      reply has none). */
  datatype Translation = Translation(imports: string, func: string, wrapper: string)

  /** The dictionary `validate` returns: success, a category ("Compile
      Error", "Test Failure", or "" on success) and the message that goes
      with it. */
  datatype Verdict = Verdict(success: bool, category: string, message: string)
}
