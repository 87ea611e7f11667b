/**
 * The transfer form of a processed document, whose pid is an `int`; its text form is
 * that of a processed document with the pid written in decimal.
 */
module ProcessedDocumentDTOs {
  import opened Bytes
  import opened Wrappers
  import opened JavaText
  import opened ProcessedDocuments

  /** The decimal pid of a line reads back as the pid. */
  lemma DecimalPidParses(pid: int, tokens: seq<string>)
    requires IsInt32(pid) && tokens != []
    requires forall k :: 0 <= k < |tokens| ==> tokens[k] != "" && ',' !in tokens[k] && TAB !in tokens[k]
    ensures var line := Rendered(IntToString(pid), tokens)[..|Rendered(IntToString(pid), tokens)| - 1];
            |Split(line, TAB)| == 2 && ParseInt(Split(line, TAB)[0]) == Some(pid)
  {
    IntToStringChars(pid);
    RenderedParses(IntToString(pid), tokens);
    ParseIntToString(pid);
  }

  class ProcessedDocumentDTO {
    var pid: int
    var tokens: seq<string>

    constructor (pid: int, tokens: seq<string>)
      ensures this.pid == pid && this.tokens == tokens
    {
      this.pid := pid;
      this.tokens := tokens;
    }

    /** `toString`: the line of the decimal pid and the tokens. */
    method ToString() returns (s: string)
      ensures s == Rendered(IntToString(pid), tokens)
    {
      s := Render(IntToString(pid), tokens);
    }
  }
}
