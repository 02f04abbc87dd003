/**
 * `construct_prompt`: the prompt sent to the language model, built from the question and
 * the retrieved contexts. Each context becomes a numbered block labelled with its source and
 * page; an empty context list becomes a fixed notice.
 */
module Prompt {
  import opened Wrappers
  import opened PyText
  import opened EmbedStore
  import Ingest

  /**
   * One element of `contexts`: a dict whose `"text"` key may be missing (then the loop raises
   * `KeyError`) and whose `"metadata"` key may be missing (then `{}` stands in for it).
   */
  datatype Context = Context(text: Option<string>, metadata: Option<Metadata>)

  /** `KeyError: 'text'`, raised at the context of this 0-based index. */
  datatype PromptError = MissingText(index: nat)

  /** The notice, split in two literals only so that its first character is within the verifier's reach. */
  const NO_CONTEXT := "No context was provided." + " Please inform the user."

  const NOT_AVAILABLE := "N/A"

  const PREAMBLE := "You are an expert Q&A engine. Your task is to answer the user's question based *only* on the text from the context blocks provided below. The user has provided these documents.\n\nDo not use any outside knowledge.\nIf the context does not contain the answer, state clearly that the answer is not in the provided documents.\n\n**Contexts:**\n"

  const QUESTION_HEADING := "\n\n**Question:**\n"

  const ANSWER_FOOTER := "\n\n**Answer:**\n(Cite the source and page number, like [Source: filename.pdf, Page: 12], for *all* information you use.)\n"

  /** A metadata value as an f-string prints it: `str(v)`. */
  function Render(v: MetaValue): string {
    match v
    case Str(s) => s
    case Int(n) => IntToDecimal(n)
    case Bool(b) => if b then "True" else "False"
  }

  /** `c.get('metadata', {}).get(key, 'N/A')`, printed. */
  function Field(metadata: Option<Metadata>, key: string): (r: string)
    ensures metadata.None? || key !in metadata.value ==> r == NOT_AVAILABLE
    ensures metadata.Some? && key in metadata.value ==> r == Render(metadata.value[key])
  {
    if metadata.Some? && key in metadata.value then Render(metadata.value[key]) else NOT_AVAILABLE
  }

  /** What every context block begins with. */
  const START_MARKER := "--- START CONTEXT "

  function Header(n: nat, source: string, page: string): string {
    START_MARKER + NatToDecimal(n) + " (Source: " + source + ", Page: " + page + ") ---\n"
  }

  function Footer(n: nat): string {
    "\n--- END CONTEXT " + NatToDecimal(n) + " ---\n\n"
  }

  /** The block of the `n`-th context (1-based), which has a text. */
  function Block(n: nat, c: Context): string
    requires c.text.Some?
  {
    Header(n, Field(c.metadata, "source"), Field(c.metadata, "page")) + c.text.value + Footer(n)
  }

  /** The blocks of `contexts`, in order; defined on prefixes, like the loop that appends them. */
  function Blocks(contexts: seq<Context>): Result<string, PromptError> {
    if contexts == [] then Success("")
    else
      var n := |contexts|;
      match Blocks(contexts[..n - 1])
      case Failure(e) => Failure(e)
      case Success(s) =>
        if contexts[n - 1].text.None? then Failure(MissingText(n - 1))
        else Success(s + Block(n, contexts[n - 1]))
  }

  /** `context_text` once the loop is over. */
  function ContextSection(contexts: seq<Context>): Result<string, PromptError> {
    if contexts == [] then Success(NO_CONTEXT) else Blocks(contexts)
  }

  /** The value `construct_prompt` returns, or the error it raises. */
  function PromptFor(question: string, contexts: seq<Context>): Result<string, PromptError> {
    match ContextSection(contexts)
    case Failure(e) => Failure(e)
    case Success(section) => Success(PREAMBLE + section + QUESTION_HEADING + question + ANSWER_FOOTER)
  }

  /** Once the blocks of a prefix exist, a context without text fails the whole list at its index. */
  lemma {:induction false} BlocksFailAt(contexts: seq<Context>, i: nat, j: nat)
    requires i < j <= |contexts|
    requires Blocks(contexts[..i]).Success? && contexts[i].text.None?
    ensures Blocks(contexts[..j]) == Failure(MissingText(i))
    decreases j
  {
    assert contexts[..j][..j - 1] == contexts[..j - 1];
    if j - 1 > i {
      BlocksFailAt(contexts, i, j - 1);
    } else {
      assert contexts[..j - 1] == contexts[..i];
    }
  }

  method ConstructPrompt(question: string, contexts: seq<Context>) returns (r: Result<string, PromptError>)
    ensures r == PromptFor(question, contexts)
  {
    var contextText := "";
    if |contexts| == 0 {
      contextText := NO_CONTEXT;
    }
    var i := 0;
    while i < |contexts|
      invariant 0 <= i <= |contexts|
      invariant contexts == [] ==> contextText == NO_CONTEXT
      invariant contexts != [] ==> Blocks(contexts[..i]) == Success(contextText)
    {
      var c := contexts[i];
      ghost var old_text := contextText;
      var source := Field(c.metadata, "source");
      var page := Field(c.metadata, "page");
      contextText := contextText + Header(i + 1, source, page);
      if c.text.None? {
        BlocksFailAt(contexts, i, |contexts|);
        assert contexts[..|contexts|] == contexts;
        return Failure(MissingText(i));
      }
      contextText := contextText + c.text.value;
      contextText := contextText + Footer(i + 1);
      assert contexts[..i + 1][..i] == contexts[..i];
      Associative(old_text, Header(i + 1, source, page), c.text.value, Footer(i + 1));
      i := i + 1;
    }
    assert contexts[..|contexts|] == contexts;
    assert ContextSection(contexts) == Success(contextText);
    r := Success(PREAMBLE + contextText + QUESTION_HEADING + question + ANSWER_FOOTER);
  }

  lemma Associative(s: string, a: string, b: string, c: string)
    ensures s + a + b + c == s + (a + b + c)
    ensures s + a + b + c == s + a + (b + c)
  {
  }

  /** Context `k` has no text and every context before it has one. */
  predicate FirstMissing(contexts: seq<Context>, k: int) {
    && 0 <= k < |contexts|
    && contexts[k].text.None?
    && forall j :: 0 <= j < k ==> contexts[j].text.Some?
  }

  /** The blocks fail exactly when some context lacks a text, and they report the first such context. */
  lemma {:induction false} BlocksFailIffMissingText(contexts: seq<Context>)
    ensures Blocks(contexts).Failure? <==> exists k :: 0 <= k < |contexts| && contexts[k].text.None?
    ensures Blocks(contexts).Failure? ==> FirstMissing(contexts, Blocks(contexts).error.index)
  {
    if contexts != [] {
      var n := |contexts|;
      var front := contexts[..n - 1];
      BlocksFailIffMissingText(front);
      assert forall k :: 0 <= k < n - 1 ==> front[k] == contexts[k];
      if Blocks(front).Success? && contexts[n - 1].text.Some? {
        assert forall k :: 0 <= k < n ==> contexts[k].text.Some?;
      }
    }
  }

  /**
   * Block layout: on success, the text is the blocks of the contexts before `k`, then the
   * block of context `k` numbered `k + 1` with that context's text verbatim, then the rest.
   */
  lemma {:induction false} BlocksAt(contexts: seq<Context>, k: nat) returns (before: string, after: string)
    requires Blocks(contexts).Success? && k < |contexts|
    ensures contexts[k].text.Some?
    ensures Blocks(contexts[..k]) == Success(before)
    ensures Blocks(contexts).value == before + Block(k + 1, contexts[k]) + after
  {
    var n := |contexts|;
    var front := contexts[..n - 1];
    var last := Block(n, contexts[n - 1]);
    assert Blocks(contexts).value == Blocks(front).value + last;
    if k == n - 1 {
      before, after := Blocks(front).value, "";
      assert before + last + after == before + last;
    } else {
      var after';
      before, after' := BlocksAt(front, k);
      assert front[..k] == contexts[..k] && front[k] == contexts[k];
      after := after' + last;
      Associative(before, Block(k + 1, contexts[k]), after', last);
    }
  }

  /** Every block begins with its START marker, so the blocks never spell the notice. */
  lemma BlocksStartWithMarker(contexts: seq<Context>)
    requires Blocks(contexts).Success? && contexts != []
    ensures |Blocks(contexts).value| > 0 && Blocks(contexts).value[0] == '-'
    ensures |Blocks(contexts).value| >= |START_MARKER| && Blocks(contexts).value[..|START_MARKER|] == START_MARKER
  {
    var before, after := BlocksAt(contexts, 0);
    assert contexts[..0] == [];
    var v := Blocks(contexts).value;
    var block := Block(1, contexts[0]);
    assert before == "";
    StartsWith(block, after);
    StartsWith(Header(1, Field(contexts[0].metadata, "source"), Field(contexts[0].metadata, "page")), contexts[0].text.value + Footer(1));
  }

  /** The first `|START_MARKER|` characters of `s + rest` come from `s` alone when `s` is that long. */
  lemma StartsWith(s: string, rest: string)
    requires |s| >= |START_MARKER|
    ensures (s + rest)[..|START_MARKER|] == s[..|START_MARKER|]
  {
  }

  lemma NotTheNotice(s: string)
    requires |s| > 0 && s[0] == '-'
    ensures s != NO_CONTEXT
  {
  }

  /** `p` is `a + b + c + q + d`: a generic view of the prompt's five parts. */
  lemma Framed(p: string, a: string, b: string, c: string, q: string, d: string)
    requires p == a + b + c + q + d
    ensures |p| == |a| + |b| + |c| + |q| + |d|
    ensures p[..|a|] == a && p[|p| - |d|..] == d
    ensures p[|p| - |d| - |q|..|p| - |d|] == q
    ensures p[|p| - |d| - |q| - |c|..|p| - |d| - |q|] == c
  {
    assert p[..|a|] == a;
    assert p[|p| - |d|..] == d;
    assert p[|p| - |d| - |q|..|p| - |d|] == q;
    assert p[|p| - |d| - |q| - |c|..|p| - |d| - |q|] == c;
  }

  /**
   * The notice stands in the context section exactly when there are no contexts, and then the
   * section can not fail.
   */
  lemma NoticeIffNoContexts(contexts: seq<Context>)
    ensures contexts == [] ==> ContextSection(contexts) == Success(NO_CONTEXT)
    ensures ContextSection(contexts).Success? ==> (ContextSection(contexts).value == NO_CONTEXT <==> contexts == [])
  {
    if contexts != [] && Blocks(contexts).Success? {
      BlocksStartWithMarker(contexts);
      NotTheNotice(Blocks(contexts).value);
    }
  }

  /**
   * A returned prompt starts with the instructions, ends with the answer footer, and holds the
   * question verbatim right after the question heading and right before the footer.
   */
  lemma QuestionVerbatim(question: string, contexts: seq<Context>)
    requires PromptFor(question, contexts).Success?
    ensures var p := PromptFor(question, contexts).value;
      && |p| >= |PREAMBLE| + |QUESTION_HEADING| + |question| + |ANSWER_FOOTER|
      && p[..|PREAMBLE|] == PREAMBLE
      && p[|p| - |ANSWER_FOOTER|..] == ANSWER_FOOTER
      && p[|p| - |ANSWER_FOOTER| - |question|..|p| - |ANSWER_FOOTER|] == question
      && p[|p| - |ANSWER_FOOTER| - |question| - |QUESTION_HEADING|..|p| - |ANSWER_FOOTER| - |question|] == QUESTION_HEADING
  {
    var p := PromptFor(question, contexts).value;
    var section := ContextSection(contexts).value;
    Framed(p, PREAMBLE, section, QUESTION_HEADING, question, ANSWER_FOOTER);
  }

  /** Two questions with the same contexts give the same prompt only if they are the same question. */
  lemma PromptDeterminesQuestion(q1: string, q2: string, contexts: seq<Context>)
    requires PromptFor(q1, contexts).Success?
    requires PromptFor(q1, contexts) == PromptFor(q2, contexts)
    ensures q1 == q2
  {
    var section := ContextSection(contexts).value;
    var p := PromptFor(q1, contexts).value;
    Framed(p, PREAMBLE, section, QUESTION_HEADING, q1, ANSWER_FOOTER);
    Framed(p, PREAMBLE, section, QUESTION_HEADING, q2, ANSWER_FOOTER);
  }

  /** A context whose text an ingested chunk supplied is labelled with the file's name and the chunk's page number. */
  lemma IngestedChunkLabel(text: string, source: string, fileHash: string, page: int, index: nat, n: nat)
    ensures Block(n, Context(Some(text), Some(Ingest.ChunkMetadata(source, fileHash, page, index))))
      == "--- START CONTEXT " + NatToDecimal(n) + " (Source: " + source + ", Page: " + IntToDecimal(page) + ") ---\n"
         + text + "\n--- END CONTEXT " + NatToDecimal(n) + " ---\n\n"
  {
    var md := Ingest.ChunkMetadata(source, fileHash, page, index);
    assert "source" in md && md["source"] == Str(source);
    assert "page" in md && md["page"] == Int(page);
  }
}
