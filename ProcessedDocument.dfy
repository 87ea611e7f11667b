/**
 * A document after preprocessing: its pid and its tokens, in order. Its text form
 * is one line: the pid, a tab, the tokens separated by commas, and a newline.
 */
module ProcessedDocuments {
  import opened JavaText

  /** The line for a document: the pid, a tab, the tokens joined by single commas with
      no trailing comma, and a newline. */
  function Rendered(pid: string, tokens: seq<string>): string
  {
    pid + [TAB] + Join(",", tokens) + "\n"
  }

  /** The line starts with the pid and a tab and ends with a newline; without tokens it
      is exactly the pid, a tab and a newline. */
  lemma RenderedShape(pid: string, tokens: seq<string>)
    ensures |Rendered(pid, tokens)| >= |pid| + 2
    ensures Rendered(pid, tokens)[..|pid| + 1] == pid + [TAB]
    ensures Rendered(pid, tokens)[|Rendered(pid, tokens)| - 1] == '\n'
    ensures tokens == [] ==> Rendered(pid, tokens) == pid + "\t\n"
  {
  }

  /** Non-empty tokens read back from the line: splitting the line without its newline
      at the tab gives the pid and the joined tokens, and splitting those at the commas
      gives the tokens in order. */
  lemma RenderedParses(pid: string, tokens: seq<string>)
    requires TAB !in pid && tokens != []
    requires forall k :: 0 <= k < |tokens| ==> tokens[k] != "" && ',' !in tokens[k] && TAB !in tokens[k]
    ensures var line := Rendered(pid, tokens)[..|Rendered(pid, tokens)| - 1];
            Split(line, TAB) == [pid, Join(",", tokens)] &&
            Split(Join(",", tokens), ',') == tokens
  {
    var body := Join(",", tokens);
    assert body != "" by {
      assert tokens[0] != "";
    }
    JoinHasNo(TAB, ",", tokens);
    assert Join([TAB], [pid, body]) == pid + [TAB] + body;
    assert Rendered(pid, tokens)[..|Rendered(pid, tokens)| - 1] == pid + [TAB] + body;
    SplitOfJoin(TAB, [pid, body]);
    SplitOfJoin(',', tokens);
  }

  /** The `StringBuilder` loop of both `toString` methods: `head` and a tab, every
      token but the last followed by a comma, the last token and a newline. */
  method Render(head: string, tokens: seq<string>) returns (s: string)
    ensures s == Rendered(head, tokens)
  {
    s := head + [TAB];
    if |tokens| == 0 {
      s := s + "\n";
      return;
    }
    for i := 0 to |tokens| - 1
      invariant s == head + [TAB] + Partial(",", tokens, i)
    {
      AppendPartial(head + [TAB], s, ",", tokens, i, tokens[i], ",");
      s := s + tokens[i] + ",";
    }
    AppendPartial(head + [TAB], s, ",", tokens, |tokens| - 1, tokens[|tokens| - 1], "");
    s := s + tokens[|tokens| - 1];
    PartialJoined(",", tokens);
    s := s + "\n";
  }

  class ProcessedDocument {
    var pid: string
    var tokens: seq<string>

    /** `ProcessedDocument(pid, tokens)`: the tokens are kept in the given order. */
    constructor (pid: string, tokens: seq<string>)
      ensures this.pid == pid && this.tokens == tokens
    {
      this.pid := pid;
      this.tokens := tokens;
    }

    /** `toString`: the document's line. */
    method ToString() returns (s: string)
      ensures s == Rendered(pid, tokens)
    {
      s := Render(pid, tokens);
    }
  }
}
