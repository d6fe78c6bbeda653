/**
 * `helper.py`: classifying every row of a frame with one chat-model request per non-blank
 * text. The request is a fixed instruction template with two placeholders, `[KEYWORDS]` and
 * `[DOCUMENTS]`, filled by two successive `str.replace` calls.
 *
 * The chat model is an oracle `service: string -> Option<string>` from the filled prompt to
 * its reply; `None` is a call that raised.
 */
module Helper {
  import opened Wrappers
  import opened Frame
  import opened Text

  // ================================================================ the template

  /** A template with a `[KEYWORDS]` and a `[DOCUMENTS]` placeholder, given by the fixed text
      around them. */
  datatype Template = Template(head: string, middle: string, tail: string) {

    function Text(): string {
      head + KeywordsSlot + middle + DocumentsSlot + tail
    }

    /** The two placeholders are the only bracketed words: the fixed text has no '['. */
    predicate Unbracketed() {
      '[' !in head && '[' !in middle && '[' !in tail
    }
  }

  const KeywordsSlot: string := "[KEYWORDS]"
  const DocumentsSlot: string := "[DOCUMENTS]"

  // The text of `classification_prompt`, one source line per literal.

  /** The template up to the `[KEYWORDS]` placeholder: the instruction, the fixed category
      list and the lead-in to the keywords. */
  const PromptHead: string :=
    "\n"
      + "You are an AI model specialized in analyzing and assigning user queries\n"
      + "according to a predefined categorization scheme.\n"
      + "\n"
      + "Your task is to examine the given inputs and assign them a suitable category\n"
      + "from the following list:\n"
      + "\n"
      + "# Categories\n"
      + "## Defining\n"
      + "- Identification (D.I): Identifying problems or defining an issue to be solved.\n"
      + "- Goal Setting and Requirement Clarification (D.G): Setting learning goals or clarifying course requirements.\n"
      + "\n"
      + "## Seeking\n"
      + "- Search (S.S): Obtaining information from the chatbot.\n"
      + "- Select (S.SL): Extracting key points or requesting summaries.\n"
      + "- Evaluation of Information Quality (S.EQ): Checking the credibility, reliability, or sources of information.\n"
      + "\n"
      + "## Engaging\n"
      + "- Review (E.RV): Revisiting materials or verifying correctness.\n"
      + "- Organise (E.O): Structuring content, categorizing information.\n"
      + "- Reformatting and Reworking (E.RF): Transforming content into a different format\n"
      + "  (e.g., translation, diagrams, alternative explanations).\n"
      + "- Rehearse (E.RH): Practicing learned concepts, generating quiz questions.\n"
      + "\n"
      + "## Reflecting\n"
      + "- Task Evaluation (R.ET): Assessing quality of work or readiness to move forward.\n"
      + "- Self Evaluation (R.ES): Checking for learning gaps or self-reflection.\n"
      + "\n"
      + "## Other\n"
      + "- If an entry cannot be clearly assigned to any of these categories, assign it to the OTHER category.\n"
      + "\n"
      + "You are given a single topic consisting of multiple user queries.\n"
      + "\n"
      + "Topic keywords:\n"

  /** The template between the two placeholders. */
  const PromptMiddle: string :=
    "\n"
      + "\n"
      + "Representative user queries:\n"

  /** The template after the `[DOCUMENTS]` placeholder. */
  const PromptTail: string :=
    "\n"
      + "\n"
      + "Task:\n"
      + "1. Analyze the user queries and their shared intent.\n"
      + "2. Assign the most appropriate category to this topic from:\n"
      + "   D.I, D.G, S.S, S.SL, S.EQ, E.RV, E.O, E.RF, E.RH, R.ET, R.ES, OTHER.\n"
      + "\n"
      + "Important:\n"
      + "- Output ONLY the category code (exactly one of:\n"
      + "  D.I, D.G, S.S, S.SL, S.EQ, E.RV, E.O, E.RF, E.RH, R.ET, R.ES, OTHER).\n"
      + "- Do not include any explanation or additional text.\n"

  /** `classification_prompt`. */
  const ClassificationPrompt: Template := Template(PromptHead, PromptMiddle, PromptTail)

  // ================================================================ filling the template

  /** The two `replace` calls of `classify_documents`, the second one run over the output of
      the first. */
  function FillPrompt(template: Template, keywords: string, documents: string): string {
    ReplaceAll(ReplaceAll(template.Text(), KeywordsSlot, keywords), DocumentsSlot, documents)
  }

  /** Replacing in `a + pat + b`, when the pattern's first character is not in `a`, replaces the
      occurrence after `a` and goes on in `b`. */
  lemma ReplaceAfter(a: string, pat: string, b: string, rep: string)
    requires pat != [] && pat[0] !in a
    ensures ReplaceAll(a + pat + b, pat, rep) == a + rep + ReplaceAll(b, pat, rep)
  {
    assert a + pat + b == a + (pat + b);
    ReplaceAllSkip(a, pat + b, pat, rep);
    ReplaceAllFront(pat, b, rep);
  }

  /** The first replacement of `FillPrompt`, for any two placeholders starting with the same
      character: when that character occurs nowhere else and the first placeholder does not
      start at the second, only the first placeholder is replaced. */
  lemma FirstSlotFilled(head: string, middle: string, tail: string, p: string, q: string, rep: string)
    requires p != [] && q != [] && p[0] == q[0]
    requires p[0] !in head && p[0] !in middle
    requires ReplaceAll(q + tail, p, rep) == q + tail
    ensures ReplaceAll(head + p + middle + q + tail, p, rep) == head + rep + middle + q + tail
  {
    var rest := middle + (q + tail);
    assert head + p + middle + q + tail == head + p + rest;
    ReplaceAfter(head, p, rest, rep);
    ReplaceAllSkip(middle, q + tail, p, rep);
    assert head + rep + rest == head + rep + middle + q + tail;
  }

  /** `[KEYWORDS]` does not occur in `[DOCUMENTS]` followed by text without '['. */
  lemma KeywordsSlotNotAtDocuments(tail: string, keywords: string)
    requires '[' !in tail
    ensures ReplaceAll(DocumentsSlot + tail, KeywordsSlot, keywords) == DocumentsSlot + tail
  {
    var s := DocumentsSlot + tail;
    assert s[..|KeywordsSlot|] != KeywordsSlot by {
      assert |s| >= |KeywordsSlot|;
      assert s[..|KeywordsSlot|][1] == s[1] == 'D' != KeywordsSlot[1];
    }
    assert s[1..] == DocumentsSlot[1..] + tail;
    ReplaceAllAbsent(s[1..], KeywordsSlot, keywords);
    assert s == [s[0]] + s[1..];
  }

  /** The keyword slot of a template without other '[' is filled with any text. */
  lemma KeywordsFilled(template: Template, keywords: string)
    requires template.Unbracketed()
    ensures ReplaceAll(template.Text(), KeywordsSlot, keywords) ==
              template.head + keywords + template.middle + DocumentsSlot + template.tail
  {
    KeywordsSlotNotAtDocuments(template.tail, keywords);
    FirstSlotFilled(template.head, template.middle, template.tail, KeywordsSlot, DocumentsSlot, keywords);
  }

  /** A keyword block without '[' goes into the keyword slot and the document block into the
      document slot, each verbatim, with the fixed text around them unchanged. */
  lemma FillPromptSlots(template: Template, keywords: string, documents: string)
    requires template.Unbracketed() && '[' !in keywords
    ensures FillPrompt(template, keywords, documents) ==
              template.head + keywords + template.middle + documents + template.tail
  {
    var Template(head, middle, tail) := template;
    KeywordsFilled(template, keywords);
    var front := head + keywords + middle;
    assert '[' !in front;
    assert head + keywords + middle + DocumentsSlot + tail == front + DocumentsSlot + tail;
    ReplaceAfter(front, DocumentsSlot, tail, documents);
    ReplaceAllAbsent(tail, DocumentsSlot, documents);
  }

  /** The second replacement also rewrites a `[DOCUMENTS]` that the first one brought in
      with the keywords: a keyword block reading `[DOCUMENTS]` shows the document twice and
      the keyword never. */
  lemma FillPromptRescansKeywords(template: Template, documents: string)
    requires template.Unbracketed()
    ensures FillPrompt(template, DocumentsSlot, documents) ==
              template.head + documents + template.middle + documents + template.tail
  {
    KeywordsFilled(template, DocumentsSlot);
    BothReplaced(template.head, template.middle, template.tail, DocumentsSlot, documents);
  }

  /** A pattern occurring twice, whose first character occurs nowhere else, is replaced at
      both places. */
  lemma BothReplaced(head: string, middle: string, tail: string, pat: string, rep: string)
    requires pat != [] && pat[0] !in head && pat[0] !in middle && pat[0] !in tail
    ensures ReplaceAll(head + pat + middle + pat + tail, pat, rep) == head + rep + middle + rep + tail
  {
    var rest := middle + pat + tail;
    assert head + pat + middle + pat + tail == head + pat + rest;
    ReplaceAfter(head, pat, rest, rep);
    ReplaceAfter(middle, pat, tail, rep);
    ReplaceAllAbsent(tail, pat, rep);
    assert head + rep + (middle + rep + tail) == head + rep + middle + rep + tail;
  }

  // ================================================================ the keyword block

  /** The characters `token.strip(" ,.;:!?")` removes. */
  predicate IsPunct(c: char) {
    c == ' ' || c == ',' || c == '.' || c == ';' || c == ':' || c == '!' || c == '?'
  }

  /** `[token.strip(" ,.;:!?") for token in doc.split() if token.strip()]`; every word of
      `split()` is non-blank (see `SplitWords`), so the filter keeps them all. */
  function Keywords(doc: string): (ks: seq<string>)
    ensures |ks| == |Split(doc)|
  {
    var words := Split(doc);
    seq(|words|, i requires 0 <= i < |words| => Trim(words[i], IsPunct))
  }

  /** `tokens[:5]`. */
  function FirstFive(ks: seq<string>): seq<string> {
    if |ks| <= 5 then ks else ks[..5]
  }

  /** `", ".join(tokens[:5]) or "General Query"`. */
  function KeywordBlock(doc: string): string {
    var joined := Join(", ", FirstFive(Keywords(doc)));
    if joined == "" then "General Query" else joined
  }

  /** Each keyword is its word with the surrounding punctuation gone: it holds no whitespace
      and neither starts nor ends with one of " ,.;:!?". */
  lemma KeywordsShape(doc: string, i: nat)
    requires i < |Split(doc)|
    ensures var k := Keywords(doc)[i];
      && NoSpace(k)
      && (k == [] || (!IsPunct(k[0]) && !IsPunct(k[|k| - 1])))
  {
    var w := Split(doc)[i];
    SplitWords(doc);
    assert w in Split(doc);
    var a, b := TrimShape(w, IsPunct);
    assert forall j :: 0 <= j < b - a ==> w[a..b][j] == w[a + j];
  }

  /** For a non-blank document the block falls back to "General Query" exactly when the
      document is a single word made only of " ,.;:!?" characters; otherwise it is the
      trimmed first words, at most five, joined by ", ", and not empty. */
  lemma KeywordBlockFallback(doc: string)
    requires Strip(doc) != ""
    ensures var words := Split(doc);
      var lone := |words| == 1 && forall j :: 0 <= j < |words[0]| ==> IsPunct(words[0][j]);
      && (lone ==> KeywordBlock(doc) == "General Query")
      && (!lone ==> KeywordBlock(doc) == Join(", ", FirstFive(Keywords(doc))) != "")
      && |FirstFive(Keywords(doc))| == if |words| < 5 then |words| else 5
  {
    var words := Split(doc);
    SplitEmptyIffBlank(doc);
    var first := FirstFive(Keywords(doc));
    JoinEmptyIff(", ", first);
    if |words| == 1 {
      TrimEmptyIffAllDropped(words[0], IsPunct);
      assert first == [Trim(words[0], IsPunct)];
    } else {
      assert |first| >= 2;
    }
  }

  /** The keyword block never holds a line break: every keyword is one word of the text. */
  lemma KeywordBlockOneLine(doc: string)
    ensures '\n' !in KeywordBlock(doc)
  {
    var first := FirstFive(Keywords(doc));
    forall i | 0 <= i < |first| ensures '\n' !in first[i] {
      KeywordsShape(doc, i);
      assert IsSpace('\n');
    }
    JoinAvoids(", ", first, '\n');
  }

  /** A character in neither the separator nor any part is not in the join. */
  lemma {:induction false} JoinAvoids(sep: string, parts: seq<string>, c: char)
    requires c !in sep && forall i :: 0 <= i < |parts| ==> c !in parts[i]
    ensures c !in Join(sep, parts)
  {
    if |parts| > 1 {
      JoinAvoids(sep, parts[1..], c);
    }
  }

  // ================================================================ one row

  /** `str(prompt)` after `fillna("")`: a missing cell is the empty text. */
  function CellText(c: Cell): string {
    match c
    case Missing => ""
    case Str(s) => s
    case Num(i) => IntText(i)
  }

  /** The prompt sent for a non-blank document: its keyword block, and the document itself as
      a "- " item. */
  function PromptFor(template: Template, doc: string): string {
    FillPrompt(template, KeywordBlock(doc), "- " + doc)
  }

  /** The prompt, if any, that a cell sends: none for a missing or blank text. */
  function RequestOf(template: Template, c: Cell): Option<string> {
    var doc := Strip(CellText(c));
    if doc == "" then None else Some(PromptFor(template, doc))
  }

  /** The prompt a row of the program sends, with `classification_prompt`. */
  function ProgramRequest(c: Cell): Option<string> {
    RequestOf(ClassificationPrompt, c)
  }

  /** The category a row gets when `request` gives the prompt it sends: "OTHER" when it sends
      none, "ERROR" when the call fails, otherwise the reply without surrounding whitespace
      and not checked against the codes. */
  function CategoryOf(c: Cell, request: Cell -> Option<string>, service: string -> Option<string>): string {
    match request(c)
    case None => "OTHER"
    case Some(prompt) =>
      match service(prompt)
      case None => "ERROR"
      case Some(reply) => Strip(reply)
  }

  /** The prompts sent for the cells, in row order. */
  function Sent(cells: seq<Cell>, request: Cell -> Option<string>): seq<string> {
    if cells == [] then []
    else
      var n := |cells| - 1;
      Sent(cells[..n], request) + match request(cells[n]) case None => [] case Some(p) => [p]
  }

  /** Each row sends at most one prompt and only rows with a request reach the service: the
      prompts sent are exactly the requests of the rows, so rows without one send nothing. */
  lemma SentSpec(cells: seq<Cell>, request: Cell -> Option<string>)
    ensures |Sent(cells, request)| <= |cells|
    ensures forall p :: p in Sent(cells, request) <==> exists i :: 0 <= i < |cells| && request(cells[i]) == Some(p)
    ensures (forall i :: 0 <= i < |cells| ==> request(cells[i]).None?) ==> Sent(cells, request) == []
  {
    SentLength(cells, request);
    SentMembers(cells, request);
    var sent := Sent(cells, request);
    if sent != [] {
      assert sent[0] in sent;
    }
  }

  lemma {:induction false} SentLength(cells: seq<Cell>, request: Cell -> Option<string>)
    ensures |Sent(cells, request)| <= |cells|
  {
    if cells != [] {
      SentLength(cells[..|cells| - 1], request);
    }
  }

  lemma {:induction false} SentMembers(cells: seq<Cell>, request: Cell -> Option<string>)
    ensures forall p :: p in Sent(cells, request) <==> exists i :: 0 <= i < |cells| && request(cells[i]) == Some(p)
  {
    if cells != [] {
      var n := |cells| - 1;
      var init := cells[..n];
      SentMembers(init, request);
      var last: seq<string> := match request(cells[n]) case None => [] case Some(p) => [p];
      assert Sent(cells, request) == Sent(init, request) + last;
      forall p | p in Sent(cells, request)
        ensures exists i :: 0 <= i < |cells| && request(cells[i]) == Some(p)
      {
        if p in Sent(init, request) {
          var i :| 0 <= i < n && request(init[i]) == Some(p);
          assert cells[i] == init[i];
        } else {
          assert request(cells[n]) == Some(p);
        }
      }
      forall p | exists i :: 0 <= i < |cells| && request(cells[i]) == Some(p)
        ensures p in Sent(cells, request)
      {
        var i :| 0 <= i < |cells| && request(cells[i]) == Some(p);
        if i < n {
          assert init[i] == cells[i];
        } else {
          assert last == [p];
        }
      }
    }
  }



  /** A blank or missing text sends no prompt; a non-blank one sends the template filled
      with its keyword block and its text, which, when the text has no '[', show verbatim in
      their slots. */
  lemma RequestOfSpec(template: Template, c: Cell)
    requires template.Unbracketed()
    ensures var doc := Strip(CellText(c));
      && (doc == "" <==> RequestOf(template, c).None?)
      && (doc != "" && '[' !in doc ==>
            RequestOf(template, c).value ==
              template.head + KeywordBlock(doc) + template.middle + "- " + doc + template.tail)
  {
    var doc := Strip(CellText(c));
    if doc != "" && '[' !in doc {
      PromptForSlots(template, doc);
    }
  }

  /** The prompt for a document without '[' shows its keyword block and the document as a
      "- " item, each in its slot. */
  lemma PromptForSlots(template: Template, doc: string)
    requires template.Unbracketed() && '[' !in doc
    ensures PromptFor(template, doc) ==
              template.head + KeywordBlock(doc) + template.middle + "- " + doc + template.tail
  {
    var block := KeywordBlock(doc);
    KeywordBlockBracketFree(doc);
    FillPromptSlots(template, block, "- " + doc);
    assert template.head + block + template.middle + ("- " + doc) + template.tail
        == template.head + block + template.middle + "- " + doc + template.tail;
  }

  /** A row whose text is blank or missing is labelled "OTHER" without a call; any other row
      sends its prompt and is labelled with the trimmed reply, or "ERROR" when the call
      fails. */
  lemma RowSpec(template: Template, c: Cell, service: string -> Option<string>)
    requires template.Unbracketed()
    ensures var request := (x: Cell) => RequestOf(template, x);
      var doc := Strip(CellText(c));
      && (doc == "" ==> CategoryOf(c, request, service) == "OTHER")
      && (doc != "" ==>
            var prompt := RequestOf(template, c).value;
            && (service(prompt).None? ==> CategoryOf(c, request, service) == "ERROR")
            && (service(prompt).Some? ==> CategoryOf(c, request, service) == Strip(service(prompt).value)))
  {
    RequestOfSpec(template, c);
  }

  /** A document without '[' gives a keyword block without '['. */
  lemma KeywordBlockBracketFree(doc: string)
    ensures '[' !in doc ==> '[' !in KeywordBlock(doc)
  {
    if '[' !in doc {
      var first := FirstFive(Keywords(doc));
      forall i | 0 <= i < |first| ensures '[' !in first[i] {
        WordFromText(doc, i);
      }
      JoinAvoids(", ", first, '[');
    }
  }

  /** Every keyword is made of characters of the document. */
  lemma WordFromText(doc: string, i: nat)
    requires i < |Split(doc)|
    ensures forall c :: c in Keywords(doc)[i] ==> c in doc
  {
    SplitChars(doc);
    var w := Split(doc)[i];
    assert w in Split(doc);
    var a, b := TrimShape(w, IsPunct);
    forall c | c in w[a..b] ensures c in doc {
      var j :| 0 <= j < b - a && w[a..b][j] == c;
      assert w[a + j] == c;
    }
  }

  /** The words of `split()` are made of characters of the text. */
  lemma {:induction false} SplitChars(s: string)
    ensures forall w, c :: w in Split(s) && c in w ==> c in s
    decreases |s|
  {
    var t := TrimStart(s, IsSpace);
    TrimStartSpec(s, IsSpace);
    if t != [] {
      var n := WordEnd(t);
      SplitChars(t[n..]);
      forall w, c | w in Split(s) && c in w ensures c in s {
        if w == t[..n] {
          var j :| 0 <= j < n && t[..n][j] == c;
          assert s[|s| - |t| + j] == c;
        } else {
          assert w in Split(t[n..]);
          var j :| 0 <= j < |t[n..]| && t[n..][j] == c;
          assert s[|s| - |t| + n + j] == c;
        }
      }
    }
  }

  // ================================================================ the frame

  /** `result_df[name] = values` on a copy: an existing column (the first of that name) is
      overwritten, otherwise the column is added last. */
  function AssignColumn(t: Table, name: string, values: seq<string>): Table
    requires Rectangular(t) && |values| == |t.rows|
  {
    var j := IndexOf(t.columns, name);
    if name in t.columns then
      Table(t.columns, seq(|t.rows|, i requires 0 <= i < |t.rows| => t.rows[i][j := Str(values[i])]))
    else
      Table(t.columns + [name], seq(|t.rows|, i requires 0 <= i < |t.rows| => t.rows[i] + [Str(values[i])]))
  }

  /** On a rectangular frame the assignment keeps the frame rectangular, adds the column
      only when it is new, leaves every other column's cells alone, and the column then
      reads back as the values. */
  lemma AssignColumnSpec(t: Table, name: string, values: seq<string>)
    requires Rectangular(t) && |values| == |t.rows|
    ensures var r := AssignColumn(t, name, values);
      && Rectangular(r) && |r.rows| == |t.rows|
      && r.columns == (if name in t.columns then t.columns else t.columns + [name])
      && (forall i, k :: 0 <= i < |t.rows| && 0 <= k < |t.columns| && t.columns[k] != name ==>
            r.rows[i][k] == t.rows[i][k])
      && Column(r, name) == seq(|values|, i requires 0 <= i < |values| => Str(values[i]))
  {
    AssignedColumnReads(t, name, values);
  }

  /** The assigned column is found where the assignment put it. */
  lemma AssignedColumnReads(t: Table, name: string, values: seq<string>)
    requires Rectangular(t) && |values| == |t.rows|
    ensures Column(AssignColumn(t, name, values), name) == seq(|values|, i requires 0 <= i < |values| => Str(values[i]))
  {
    var r := AssignColumn(t, name, values);
    if name !in t.columns {
      assert IndexOf(r.columns, name) == |t.columns| by {
        assert r.columns[|t.columns|] == name;
        assert r.columns[..|t.columns|] == t.columns;
      }
    }
  }

  /** The category of every row, in row order. */
  function Categories(docs: seq<Cell>, request: Cell -> Option<string>,
                      service: string -> Option<string>): (cs: seq<string>)
    ensures |cs| == |docs|
  {
    seq(|docs|, k requires 0 <= k < |docs| => CategoryOf(docs[k], request, service))
  }

  /** One row of `classify_documents`: a blank text is labelled "OTHER" without a call;
      otherwise the prompt is sent once and the row gets the trimmed reply, or "ERROR" when
      the call fails. `sent` is the prompt sent, if any. */
  method ClassifyRow(doc: Cell, request: Cell -> Option<string>, service: string -> Option<string>)
    returns (category: string, sent: Option<string>)
    ensures category == CategoryOf(doc, request, service)
    ensures sent == request(doc)
  {
    sent := request(doc);
    if sent.None? {
      category := "OTHER";
    } else {
      var reply := service(sent.value);
      if reply.None? {
        category := "ERROR";
      } else {
        category := Strip(reply.value);
      }
    }
  }

  /** The row loop of `classify_documents`, for any way `request` of turning a row's text into
      the prompt it sends: every row gets exactly one category, in row order, and `prompts`
      lists the prompts sent, in order. */
  method ClassifyRows(docs: seq<Cell>, request: Cell -> Option<string>, service: string -> Option<string>)
    returns (categories: seq<string>, prompts: seq<string>)
    ensures categories == Categories(docs, request, service)
    ensures prompts == Sent(docs, request)
  {
    categories := [];
    prompts := [];
    var i := 0;
    while i < |docs|
      invariant 0 <= i <= |docs|
      invariant categories == Categories(docs[..i], request, service)
      invariant prompts == Sent(docs[..i], request)
    {
      assert docs[..i + 1][..i] == docs[..i];
      var category, sent := ClassifyRow(docs[i], request, service);
      categories := categories + [category];
      if sent.Some? {
        prompts := prompts + [sent.value];
      }
      i := i + 1;
    }
    assert docs[..i] == docs;
  }

  /** `classify_documents` for any `request`: a missing text column raises `ValueError` before
      any row is read; otherwise the rows are classified on a copy of the frame that gets a
      `Category` column. */
  method ClassifyDocumentsWith(df: Table, textColumn: string, request: Cell -> Option<string>,
                               service: string -> Option<string>)
    returns (result: Result<Table, string>, prompts: seq<string>)
    requires Rectangular(df)
    ensures textColumn !in df.columns ==>
              result == Err("Column '" + textColumn + "' not found in dataframe") && prompts == []
    ensures textColumn in df.columns ==>
              var docs := Column(df, textColumn);
              && prompts == Sent(docs, request)
              && result.Ok?
              && result.value == AssignColumn(df, "Category", Categories(docs, request, service))
  {
    if textColumn !in df.columns {
      return Err("Column '" + textColumn + "' not found in dataframe"), [];
    }
    var docs := Column(df, textColumn);
    var categories;
    categories, prompts := ClassifyRows(docs, request, service);
    result := Ok(AssignColumn(df, "Category", categories));
  }

  /** `classify_documents` without the Excel export: each row's prompt is
      `classification_prompt` filled by `ProgramRequest`. */
  method ClassifyDocuments(df: Table, textColumn: string, service: string -> Option<string>)
    returns (result: Result<Table, string>, prompts: seq<string>)
    requires Rectangular(df)
    ensures textColumn !in df.columns ==>
              result == Err("Column '" + textColumn + "' not found in dataframe") && prompts == []
    ensures textColumn in df.columns ==>
              var docs := Column(df, textColumn);
              && prompts == Sent(docs, ProgramRequest)
              && result.Ok?
              && result.value == AssignColumn(df, "Category", Categories(docs, ProgramRequest, service))
  {
    result, prompts := ClassifyDocumentsWith(df, textColumn, ProgramRequest, service);
  }
}
