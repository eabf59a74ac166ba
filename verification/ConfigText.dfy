/** The text `ToString` writes for a configuration. */
module ConfigText {
  import opened ConfigGrammar

  function Tabs(depth: nat): string {
    if depth == 0 then "" else Tabs(depth - 1) + "\t"
  }

  function Join(ws: seq<string>): string {
    if ws == [] then ""
    else if |ws| == 1 then ws[0]
    else Join(Front(ws)) + " " + Last(ws)
  }

  /** `NginxConfigStatement::ToString`. */
  function StmtText(s: Stmt, depth: nat): string
    decreases s, 1
  {
    Tabs(depth) + Join(s.words)
    + (if s.Block? then " {\n" + Text(s.block, depth + 1) + Tabs(depth) + "}"
       else if s.words != [] then ";" else "")
    + "\n"
  }

  /** `NginxConfig::ToString`. */
  function Text(c: Config, depth: nat): string
    decreases c, 0
  {
    if c == [] then "" else Text(Front(c), depth) + StmtText(Last(c), depth)
  }
}
