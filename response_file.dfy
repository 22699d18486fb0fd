/** The text of the response file that `create-rsp` writes so that a bundle
    invocation can be replayed: one flag per line, each line terminated by
    the newline string. */
module ResponseFile {
  import opened Text

  /** `bool.ToString()`. */
  function BoolText(b: bool): string
  {
    if b then "True" else "False"
  }

  /** The six lines of the response file, in order: the `bundle` command
      with `--output`, then `--language`, `--note`, `--remove`, `--sort` and
      `--author`, each flag followed by its value. */
  function RspLines(output: string, language: string, note: bool, remove: bool, sort: bool,
                    author: string): seq<string>
  {
    ["bundle " + "--output " + output,
     "--language " + language,
     "--note " + BoolText(note),
     "--remove " + BoolText(remove),
     "--sort " + BoolText(sort),
     "--author " + author]
  }

  /** Each line followed by the newline string. */
  function Terminated(lines: seq<string>, nl: string): string
  {
    if lines == [] then "" else lines[0] + nl + Terminated(lines[1..], nl)
  }

  /** The response-file text: every one of the six lines followed by the
      newline string. */
  function RspContent(output: string, language: string, note: bool, remove: bool, sort: bool,
                      author: string, nl: Newline): string
  {
    Terminated(RspLines(output, language, note, remove, sort, author), nl)
  }

  /** Terminating every line is joining the lines and one last empty piece. */
  lemma {:induction false} TerminatedIsJoin(lines: seq<string>, nl: string)
    ensures Terminated(lines, nl) == Join(lines + [""], nl)
  {
    if lines != [] {
      TerminatedIsJoin(lines[1..], nl);
      assert lines + [""] == [lines[0]] + (lines[1..] + [""]);
      JoinCons(lines[0], lines[1..] + [""], nl);
    }
  }

  /** Read back line by line, the response file gives the six lines and
      nothing after the last newline, provided no line itself holds the
      newline string. */
  lemma RspSplitsIntoLines(output: string, language: string, note: bool, remove: bool, sort: bool,
                           author: string, nl: Newline)
    requires Borderless(nl)
    requires forall line :: line in RspLines(output, language, note, remove, sort, author) ==> Free(line, nl)
    ensures Split(RspContent(output, language, note, remove, sort, author, nl), nl)
         == RspLines(output, language, note, remove, sort, author) + [""]
  {
    var ls := RspLines(output, language, note, remove, sort, author) + [""];
    TerminatedIsJoin(RspLines(output, language, note, remove, sort, author), nl);
    assert Free("", nl);
    SplitJoin(ls, nl);
  }
}
