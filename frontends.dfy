/**
 * The two front ends of langchain_groq_app side by side: the web endpoint scans
 * the balances table for identifiers that occur in the question, the console
 * loop does not.
 */
module FrontEnds {
  import opened Common
  import opened Tables
  import opened Classifier
  import Server
  import Cli

  /** A question without an extractable identifier that names a table identifier
      gets a balance answer from the endpoint, but neither balance action from
      the console loop. */
  lemma ScanOnlyInServer(text: string, t: Frame, chainLoaded: bool, c: nat, j: nat)
    requires BalanceQueryId(text).None?
    requires c < |t.columns| && j < |t.rows| && Server.CellInText(t, text, c, j)
    ensures Server.QueryReply(text, Some(t), chainLoaded).BalanceReply?
    ensures var a := Cli.Dispatch(text, Some(t), chainLoaded); a.AskChain? || a.AskLlm?
  {
    Server.ScanSecond(text, t, chainLoaded, c, j);
    Cli.KbThenLlm(text, Some(t), chainLoaded);
  }
}
