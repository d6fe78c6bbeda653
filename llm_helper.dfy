/**
 * The category taxonomy and the prompt it is rendered into: the fixed table of
 * twelve category codes in five ordered groups, the alias table that accepts a
 * code without its dot, the parser of the interactive category menu, the
 * once-only cache of the chosen categories, the renderer of the "# Categories"
 * block, and the guards around one classification request.
 *
 * The language-model service and the language identifier are oracles
 * `string -> Option<string>`: `None` is a failed call, `Some(t)` the text it returned.
 * The answer typed at the menu is a parameter `Option<string>`: `None` is end of
 * input or an interrupt.
 */
module LlmHelper {
  import opened Wrappers
  import opened Text

  // ================================================================ the taxonomy

  datatype CategoryInfo = CategoryInfo(title: string, description: string)

  /** Title and description of every category code. */
  const CategoryMetadata: map<string, CategoryInfo> := map[
    "D.I" := CategoryInfo("Identification",
      "The user mainly DESCRIBES a problem, task, or situation and wants to DEFINE "
      + "what the issue is. They do NOT primarily ask the chatbot to explain content, "
      + "solve exercises, or provide new information."),
    "D.G" := CategoryInfo("Goal Setting and Requirement Clarification",
      "The user sets learning goals or clarifies what is expected in a course, exam, "
      + "or task."),
    "S.S" := CategoryInfo("Search",
      "The user wants NEW INFORMATION, explanations, or definitions from the chatbot "
      + "(e.g. \"Erkläre mir...\", \"Was ist...\", \"Gibt es Studien zu...\"). "
      + "The focus is on obtaining knowledge, not on rewriting or solving given exercises."),
    "S.SL" := CategoryInfo("Select",
      "The user asks for summaries, key points, or extractions "
      + "(e.g. \"Fasse zusammen\", \"Nenne mir die wichtigsten Punkte\")."),
    "S.EQ" := CategoryInfo("Evaluation of Information Quality",
      "The user asks about credibility, reliability, or quality of information or sources."),
    "E.RV" := CategoryInfo("Review",
      "The user wants existing work or answers to be checked, corrected, or improved "
      + "(e.g. \"Überprüfe meine Lösung\", \"Prüfe meinen Text\")."),
    "E.O" := CategoryInfo("Organise",
      "The user wants help STRUCTURING or CATEGORIZING content "
      + "(e.g. Gliederungen, Mindmaps, Sortieren in Kategorien), not explanations."),
    "E.RF" := CategoryInfo("Reformatting and Reworking",
      "The user wants to TRANSFORM given content (e.g. Übersetzen, Umformulieren, "
      + "in Stichworte/Diagramme umwandeln) OR asks the chatbot to solve exercises "
      + "STEP BY STEP based on provided material."),
    "E.RH" := CategoryInfo("Rehearse",
      "The user wants to PRACTISE, e.g. Quizfragen, Übungsaufgaben, Wiederholungsfragen "
      + "zu gelerntem Stoff."),
    "R.ET" := CategoryInfo("Task Evaluation",
      "The user explicitly assesses or critiques the quality, correctness, or completeness "
      + "of a solution, assignment, or work product (e.g. \"Ist diese Lösung richtig?\", "
      + "\"Habe ich die Aufgabe korrekt bearbeitet?\", \"Ist diese Antwort ausreichend?\"). "
      + "The user is asking for JUDGMENT or FEEDBACK on their own or another's work quality, "
      + "NOT asking how to improve or fix it."),
    "R.ES" := CategoryInfo("Self Evaluation",
      "The user reflects on their OWN UNDERSTANDING, LEARNING GAPS, or READINESS. They "
      + "question what they understand or don't understand (e.g. \"Ich verstehe das nicht\", "
      + "\"Was bedeutet das genau?\", \"Wo liegt mein Verständnislücke?\"). This is "
      + "META-COGNITIVE reflection, not a request to explain the concept itself."),
    "OTHER" := CategoryInfo("Other",
      "Only if the query clearly does NOT fit any of the above categories "
      + "(e.g. off-topic, meta-questions about the chatbot itself, greetings without substance).")
  ]

  type Group = (string, seq<string>)

  /** The groups in display order, each with its codes in display order. */
  const CategoryGroups: seq<Group> := [
    ("Defining", ["D.I", "D.G"]),
    ("Seeking", ["S.S", "S.SL", "S.EQ"]),
    ("Engaging", ["E.RV", "E.O", "E.RF", "E.RH"]),
    ("Reflecting", ["R.ET", "R.ES"]),
    ("Other", ["OTHER"])
  ]

  /** The code lists of `groups`, concatenated in group order. */
  function Flatten(groups: seq<Group>): seq<string> {
    if groups == [] then [] else groups[0].1 + Flatten(groups[1..])
  }

  /** Every code, in group order: the numbering of the menu. */
  const CategoryOrder: seq<string> :=
    ["D.I", "D.G", "S.S", "S.SL", "S.EQ", "E.RV", "E.O", "E.RF", "E.RH", "R.ET", "R.ES", "OTHER"]

  predicate Distinct(s: seq<string>) {
    forall i, j :: 0 <= i < j < |s| ==> s[i] != s[j]
  }

  /** The order is the flattening of the groups, and its twelve codes are pairwise distinct. */
  lemma CategoryOrderIsFlattened()
    ensures CategoryOrder == Flatten(CategoryGroups)
    ensures |CategoryOrder| == 12 && Distinct(CategoryOrder)
  {
  }

  /** Every code has a title and a description. */
  lemma EveryCodeDescribed()
    ensures forall c :: c in CategoryOrder ==> c in CategoryMetadata
  {
  }

  // ================================================================ aliases

  /** The two spellings under which a code is found: upper case, and upper case without dots. */
  function AliasesOf(code: string): set<string> {
    var canonical := Upper(code);
    {canonical, ReplaceAll(canonical, ".", "")}
  }

  /** The alias table after the module-level loop has visited `codes`: each code writes its
      upper-case form and its dot-free upper-case form, later codes overwriting earlier ones. */
  function AliasTable(codes: seq<string>): map<string, string> {
    if codes == [] then map[]
    else
      var code := codes[|codes| - 1];
      var canonical := Upper(code);
      AliasTable(codes[..|codes| - 1])[canonical := code][ReplaceAll(canonical, ".", "") := code]
  }

  /** `CATEGORY_CODE_ALIASES`, as it stands once the module is loaded. */
  const Aliases: map<string, string> := AliasTable(CategoryOrder)

  /** The module-level loop that fills the alias table. */
  method BuildAliases() returns (aliases: map<string, string>)
    ensures aliases == Aliases
  {
    aliases := map[];
    var i := 0;
    while i < |CategoryOrder|
      invariant 0 <= i <= |CategoryOrder|
      invariant aliases == AliasTable(CategoryOrder[..i])
    {
      var code := CategoryOrder[i];
      var canonical := Upper(code);
      aliases := aliases[canonical := code];
      var stripped := ReplaceAll(canonical, ".", "");
      aliases := aliases[stripped := code];
      assert CategoryOrder[..i + 1][..i] == CategoryOrder[..i];
      i := i + 1;
    }
    assert CategoryOrder[..i] == CategoryOrder;
  }

  /** When no alias is shared between two positions, the table sends every alias of a code
      back to that code, and holds nothing else. */
  lemma {:induction false} AliasTableMapsBack(codes: seq<string>)
    requires forall i, j :: 0 <= i < j < |codes| ==> AliasesOf(codes[i]) !! AliasesOf(codes[j])
    ensures forall i, a :: 0 <= i < |codes| && a in AliasesOf(codes[i]) ==>
              a in AliasTable(codes) && AliasTable(codes)[a] == codes[i]
    ensures forall a :: a in AliasTable(codes) ==>
              exists i :: 0 <= i < |codes| && a in AliasesOf(codes[i]) && AliasTable(codes)[a] == codes[i]
  {
    if codes != [] {
      var n := |codes| - 1;
      var prefix := codes[..n];
      var code := codes[n];
      assert forall i :: 0 <= i < n ==> prefix[i] == codes[i];
      AliasTableMapsBack(prefix);
      var before := AliasTable(prefix);
      var t := AliasTable(codes);
      assert t == before[Upper(code) := code][ReplaceAll(Upper(code), ".", "") := code];
      forall i, a | 0 <= i < |codes| && a in AliasesOf(codes[i])
        ensures a in t && t[a] == codes[i]
      {
        if i < n {
          assert a !in AliasesOf(code);
          assert a in AliasesOf(prefix[i]);
          assert a in before && before[a] == codes[i];
        }
      }
      forall a | a in t
        ensures exists i :: 0 <= i < |codes| && a in AliasesOf(codes[i]) && t[a] == codes[i]
      {
        if a in AliasesOf(code) {
          assert a in AliasesOf(codes[n]) && t[a] == codes[n];
        } else {
          assert a in before;
          var i :| 0 <= i < n && a in AliasesOf(prefix[i]) && before[a] == prefix[i];
          assert a in AliasesOf(codes[i]) && t[a] == codes[i];
        }
      }
    }
  }

  lemma UpperUnchanged(s: string)
    requires forall i :: 0 <= i < |s| ==> !('a' <= s[i] <= 'z')
    ensures Upper(s) == s
  {
  }

  /** The aliases of a dotted upper-case code "A.B": itself and "AB". */
  lemma DottedAliases(a: string, b: string)
    requires forall i :: 0 <= i < |a| ==> 'A' <= a[i] <= 'Z'
    requires forall i :: 0 <= i < |b| ==> 'A' <= b[i] <= 'Z'
    ensures AliasesOf(a + "." + b) == {a + "." + b, a + b}
  {
    UpperUnchanged(a + "." + b);
    DeleteSoleChar(a, '.', b);
  }

  // One lemma per code keeps each literal computation small.
  lemma AliasesOfDI()
    ensures AliasesOf(CategoryOrder[0]) == {CategoryOrder[0], DotlessCodes[0]}
  {
    assert CategoryOrder[0] == "D" + "." + "I" && DotlessCodes[0] == "D" + "I";
    DottedAliases("D", "I");
  }
  lemma AliasesOfDG()
    ensures AliasesOf(CategoryOrder[1]) == {CategoryOrder[1], DotlessCodes[1]}
  {
    assert CategoryOrder[1] == "D" + "." + "G" && DotlessCodes[1] == "D" + "G";
    DottedAliases("D", "G");
  }
  lemma AliasesOfSS()
    ensures AliasesOf(CategoryOrder[2]) == {CategoryOrder[2], DotlessCodes[2]}
  {
    assert CategoryOrder[2] == "S" + "." + "S" && DotlessCodes[2] == "S" + "S";
    DottedAliases("S", "S");
  }
  lemma AliasesOfSSL()
    ensures AliasesOf(CategoryOrder[3]) == {CategoryOrder[3], DotlessCodes[3]}
  {
    assert CategoryOrder[3] == "S" + "." + "SL" && DotlessCodes[3] == "S" + "SL";
    DottedAliases("S", "SL");
  }
  lemma AliasesOfSEQ()
    ensures AliasesOf(CategoryOrder[4]) == {CategoryOrder[4], DotlessCodes[4]}
  {
    assert CategoryOrder[4] == "S" + "." + "EQ" && DotlessCodes[4] == "S" + "EQ";
    DottedAliases("S", "EQ");
  }
  lemma AliasesOfERV()
    ensures AliasesOf(CategoryOrder[5]) == {CategoryOrder[5], DotlessCodes[5]}
  {
    assert CategoryOrder[5] == "E" + "." + "RV" && DotlessCodes[5] == "E" + "RV";
    DottedAliases("E", "RV");
  }
  lemma AliasesOfEO()
    ensures AliasesOf(CategoryOrder[6]) == {CategoryOrder[6], DotlessCodes[6]}
  {
    assert CategoryOrder[6] == "E" + "." + "O" && DotlessCodes[6] == "E" + "O";
    DottedAliases("E", "O");
  }
  lemma AliasesOfERF()
    ensures AliasesOf(CategoryOrder[7]) == {CategoryOrder[7], DotlessCodes[7]}
  {
    assert CategoryOrder[7] == "E" + "." + "RF" && DotlessCodes[7] == "E" + "RF";
    DottedAliases("E", "RF");
  }
  lemma AliasesOfERH()
    ensures AliasesOf(CategoryOrder[8]) == {CategoryOrder[8], DotlessCodes[8]}
  {
    assert CategoryOrder[8] == "E" + "." + "RH" && DotlessCodes[8] == "E" + "RH";
    DottedAliases("E", "RH");
  }
  lemma AliasesOfRET()
    ensures AliasesOf(CategoryOrder[9]) == {CategoryOrder[9], DotlessCodes[9]}
  {
    assert CategoryOrder[9] == "R" + "." + "ET" && DotlessCodes[9] == "R" + "ET";
    DottedAliases("R", "ET");
  }
  lemma AliasesOfRES()
    ensures AliasesOf(CategoryOrder[10]) == {CategoryOrder[10], DotlessCodes[10]}
  {
    assert CategoryOrder[10] == "R" + "." + "ES" && DotlessCodes[10] == "R" + "ES";
    DottedAliases("R", "ES");
  }
  lemma AliasesOfOTHER()
    ensures AliasesOf(CategoryOrder[11]) == {CategoryOrder[11], DotlessCodes[11]}
  {
    UpperUnchanged("OTHER");
    ReplaceAllAbsent("OTHER", ".", "");
  }

  /** The codes with their dots removed, position by position. */
  const DotlessCodes: seq<string> :=
    ["DI", "DG", "SS", "SSL", "SEQ", "ERV", "EO", "ERF", "ERH", "RET", "RES", "OTHER"]

  /** A code is found under itself and under its dot-free spelling. */
  lemma CodeAliases(i: nat)
    requires i < |CategoryOrder|
    ensures AliasesOf(CategoryOrder[i]) == {CategoryOrder[i], DotlessCodes[i]}
  {
    if i == 0 { AliasesOfDI(); }
    else if i == 1 { AliasesOfDG(); }
    else if i == 2 { AliasesOfSS(); }
    else if i == 3 { AliasesOfSSL(); }
    else if i == 4 { AliasesOfSEQ(); }
    else if i == 5 { AliasesOfERV(); }
    else if i == 6 { AliasesOfEO(); }
    else if i == 7 { AliasesOfERF(); }
    else if i == 8 { AliasesOfERH(); }
    else if i == 9 { AliasesOfRET(); }
    else if i == 10 { AliasesOfRES(); }
    else { AliasesOfOTHER(); }
  }

  /** No spelling is shared by two codes. */
  lemma AliasesDisjoint()
    ensures forall i, j :: 0 <= i < j < |CategoryOrder| ==>
              AliasesOf(CategoryOrder[i]) !! AliasesOf(CategoryOrder[j])
  {
    assert forall i, j :: 0 <= i < 12 && 0 <= j < 12 && i != j ==>
      CategoryOrder[i] != CategoryOrder[j] && DotlessCodes[i] != DotlessCodes[j]
      && CategoryOrder[i] != DotlessCodes[j];
    forall i, j | 0 <= i < j < |CategoryOrder|
      ensures AliasesOf(CategoryOrder[i]) !! AliasesOf(CategoryOrder[j])
    {
      CodeAliases(i);
      CodeAliases(j);
    }
  }

  /** Every code is found under its upper-case spelling and under its dot-free upper-case
      spelling, and every spelling in the table is one of these for the code it names. */
  lemma AliasesResolve()
    ensures forall c :: c in CategoryOrder ==>
              && Upper(c) in Aliases && Aliases[Upper(c)] == c
              && ReplaceAll(Upper(c), ".", "") in Aliases && Aliases[ReplaceAll(Upper(c), ".", "")] == c
    ensures forall a :: a in Aliases ==> Aliases[a] in CategoryOrder && a in AliasesOf(Aliases[a])
  {
    AliasesDisjoint();
    AliasTableMapsBack(CategoryOrder);
  }

  // ================================================================ the menu

  /** `_short_description`: the first sentence of a description, up to and including its
      first '.', or all of it when it has none. */
  function ShortDescription(text: string): (r: string)
    ensures text == "" ==> r == ""
    ensures '.' !in text ==> r == text
    ensures '.' in text ==> r <= text && r != [] && r[|r| - 1] == '.' && '.' !in r[..|r| - 1]
  {
    if text == "" then ""
    else
      var k := Find(text, '.');
      if k == -1 then text else text[..k + 1]
  }

  /** What one token of the answer selects: a number k picks the k-th code of the menu,
      anything else is looked up, case-insensitively and ignoring spaces, in the alias table.
      Digits and upper-casing are ASCII only. */
  function ResolveToken(token: string): Option<string> {
    if IsDigits(token) then
      var k := DigitsValue(token);
      if 1 <= k <= |CategoryOrder| then Some(CategoryOrder[k - 1]) else None
    else
      var key := ReplaceAll(Upper(token), " ", "");
      if key in Aliases then Some(Aliases[key]) else None
  }

  /** A token names a code of the menu or nothing. */
  lemma ResolveTokenSpec(token: string)
    ensures ResolveToken(token).Some? ==> ResolveToken(token).value in CategoryOrder
  {
    if !IsDigits(token) && ReplaceAll(Upper(token), " ", "") in Aliases {
      AliasesResolve();
    }
  }

  /** The tokens of an answer: commas count as spaces. */
  function Tokens(answer: string): seq<string> {
    Split(ReplaceAll(answer, ",", " "))
  }

  /** The codes the tokens name under `resolve`, in token order, repeats included. */
  function Resolved(tokens: seq<string>, resolve: string -> Option<string>): seq<string> {
    if tokens == [] then []
    else
      var named := match resolve(tokens[|tokens| - 1])
        case Some(code) => [code]
        case None => [];
      Resolved(tokens[..|tokens| - 1], resolve) + named
  }

  /** `codes` with repeats dropped, each code kept where it first occurs. */
  function FirstOccurrences(codes: seq<string>): seq<string> {
    if codes == [] then []
    else
      var earlier := FirstOccurrences(codes[..|codes| - 1]);
      var c := codes[|codes| - 1];
      if c in earlier then earlier else earlier + [c]
  }

  /** The codes an answer's tokens select, each once, in the order of its first valid token. */
  function Chosen(tokens: seq<string>): seq<string> {
    FirstOccurrences(Resolved(tokens, ResolveToken))
  }

  predicate IsAll(selection: string) {
    Lower(selection) == "all" || Lower(selection) == "*"
  }

  /** The categories `prompt_user_for_category_selection` returns for an answer
      (`None`: end of input or an interrupt). */
  function SelectionOf(answer: Option<string>): seq<string> {
    match answer
    case None => CategoryOrder
    case Some(line) =>
      var selection := Strip(line);
      if selection == "" || IsAll(selection) then CategoryOrder
      else
        var chosen := Chosen(Tokens(selection));
        if chosen == [] then CategoryOrder else chosen
  }

  /** A selection the rest of the program can rely on: non-empty, no code twice, every
      code a code of the taxonomy. */
  predicate ValidSelection(codes: seq<string>) {
    && codes != []
    && Distinct(codes)
    && forall c :: c in codes ==> c in CategoryOrder
  }

  /** A code is among the resolved ones exactly when some token resolves to it. */
  lemma {:induction false} ResolvedSpec(tokens: seq<string>, resolve: string -> Option<string>)
    ensures forall c :: c in Resolved(tokens, resolve) <==>
              exists k :: 0 <= k < |tokens| && resolve(tokens[k]) == Some(c)
  {
    if tokens != [] {
      var n := |tokens| - 1;
      var prefix := tokens[..n];
      ResolvedSpec(prefix, resolve);
      forall c ensures c in Resolved(tokens, resolve) <==> exists k :: 0 <= k < |tokens| && resolve(tokens[k]) == Some(c) {
        if c in Resolved(prefix, resolve) {
          var k :| 0 <= k < n && resolve(prefix[k]) == Some(c);
          assert resolve(tokens[k]) == Some(c);
        }
        if exists k :: 0 <= k < |tokens| && resolve(tokens[k]) == Some(c) {
          var k :| 0 <= k < |tokens| && resolve(tokens[k]) == Some(c);
          if k < n {
            assert resolve(prefix[k]) == Some(c);
          }
        }
      }
    }
  }

  /** One more token adds the code it names, if any. */
  lemma ResolvedStep(tokens: seq<string>, i: nat, resolve: string -> Option<string>)
    requires i < |tokens|
    ensures Resolved(tokens[..i + 1], resolve) ==
      Resolved(tokens[..i], resolve) + (if resolve(tokens[i]).Some? then [resolve(tokens[i]).value] else [])
  {
    assert tokens[..i + 1][..i] == tokens[..i];
  }

  /** One more token adds the code it names unless that code was chosen already: the step of
      the loop over the tokens. */
  lemma ChosenStep(tokens: seq<string>, i: nat, resolve: string -> Option<string>)
    requires i < |tokens|
    ensures var before := FirstOccurrences(Resolved(tokens[..i], resolve));
      FirstOccurrences(Resolved(tokens[..i + 1], resolve)) ==
        match resolve(tokens[i])
        case None => before
        case Some(c) => if c in before then before else before + [c]
  {
    ResolvedStep(tokens, i, resolve);
    var before := Resolved(tokens[..i], resolve);
    match resolve(tokens[i])
    case None =>
      assert before + [] == before;
    case Some(c) =>
      FirstOccurrencesStep(before, c);
  }

  /** One more code is kept exactly when it has not been kept before. */
  lemma FirstOccurrencesStep(codes: seq<string>, c: string)
    ensures FirstOccurrences(codes + [c]) ==
      if c in FirstOccurrences(codes) then FirstOccurrences(codes) else FirstOccurrences(codes) + [c]
  {
    assert (codes + [c])[..|codes|] == codes;
  }

  /** What the `seen` set achieves: no code twice, no code lost or added, and the codes in the
      order of their first occurrences (every occurrence of a later code comes after an
      occurrence of each earlier one). */
  lemma {:induction false} FirstOccurrencesSpec(codes: seq<string>)
    ensures var r := FirstOccurrences(codes);
      && Distinct(r)
      && (forall c :: c in r <==> c in codes)
      && (forall i, j, q :: 0 <= i < j < |r| && 0 <= q < |codes| && codes[q] == r[j] ==>
            exists p :: 0 <= p < q && codes[p] == r[i])
  {
    if codes != [] {
      var n := |codes| - 1;
      var prefix := codes[..n];
      FirstOccurrencesSpec(prefix);
      var earlier := FirstOccurrences(prefix);
      var r := FirstOccurrences(codes);
      assert codes == prefix + [codes[n]];
      forall i, j, q | 0 <= i < j < |r| && 0 <= q < |codes| && codes[q] == r[j]
        ensures exists p :: 0 <= p < q && codes[p] == r[i]
      {
        if j < |earlier| {
          if q == n {
            assert r[j] in prefix;
            var q1 :| 0 <= q1 < n && prefix[q1] == r[j];
            var p :| 0 <= p < q1 && prefix[p] == earlier[i];
            assert codes[p] == r[i];
          } else {
            assert prefix[q] == earlier[j];
            var p :| 0 <= p < q && prefix[p] == earlier[i];
            assert codes[p] == r[i];
          }
        } else {
          assert r[j] !in prefix;
          assert r[i] in earlier;
          var p :| 0 <= p < n && prefix[p] == r[i];
          assert codes[p] == r[i];
        }
      }
    }
  }

  /** The chosen codes: no code twice, only codes of the taxonomy, and exactly the codes
      some token resolves to. */
  lemma ChosenSpec(tokens: seq<string>)
    ensures Distinct(Chosen(tokens))
    ensures forall c :: c in Chosen(tokens) ==> c in CategoryOrder
    ensures forall c :: c in Chosen(tokens) <==>
              exists k :: 0 <= k < |tokens| && ResolveToken(tokens[k]) == Some(c)
  {
    FirstOccurrencesSpec(Resolved(tokens, ResolveToken));
    ResolvedSpec(tokens, ResolveToken);
    forall c | c in Chosen(tokens) ensures c in CategoryOrder {
      var k :| 0 <= k < |tokens| && ResolveToken(tokens[k]) == Some(c);
      ResolveTokenSpec(tokens[k]);
    }
  }

  /** Whatever the answer, the selection is valid. */
  lemma SelectionIsValid(answer: Option<string>)
    ensures ValidSelection(SelectionOf(answer))
  {
    CategoryOrderIsFlattened();
    if answer.Some? {
      var selection := Strip(answer.value);
      ChosenSpec(Tokens(selection));
    }
  }

  /** The full menu is returned for end of input, an empty answer, "all" or "*" in any case,
      and an answer in which no token is valid. */
  lemma SelectionDefaultsToAll(answer: Option<string>)
    ensures answer.None? ==> SelectionOf(answer) == CategoryOrder
    ensures answer.Some? && (Strip(answer.value) == "" || IsAll(Strip(answer.value))) ==>
              SelectionOf(answer) == CategoryOrder
    ensures answer.Some? && (forall t :: t in Tokens(Strip(answer.value)) ==> ResolveToken(t).None?) ==>
              SelectionOf(answer) == CategoryOrder
  {
    if answer.Some? {
      var tokens := Tokens(Strip(answer.value));
      ChosenSpec(tokens);
      if Chosen(tokens) != [] {
        var c := Chosen(tokens)[0];
        var k :| 0 <= k < |tokens| && ResolveToken(tokens[k]) == Some(c);
        assert tokens[k] in tokens && ResolveToken(tokens[k]).Some?;
      }
    }
  }

  /** Otherwise the selection is exactly the valid tokens' codes, in order of first mention. */
  lemma SelectionFollowsTokens(line: string)
    requires Strip(line) != "" && !IsAll(Strip(line))
    requires exists t :: t in Tokens(Strip(line)) && ResolveToken(t).Some?
    ensures SelectionOf(Some(line)) == Chosen(Tokens(Strip(line)))
  {
    var tokens := Tokens(Strip(line));
    ChosenSpec(tokens);
    var t :| t in tokens && ResolveToken(t).Some?;
    var k :| 0 <= k < |tokens| && tokens[k] == t;
    assert ResolveToken(t).value in Chosen(tokens);
  }

  /** The loop of `prompt_user_for_category_selection` over the tokens: it keeps the chosen
      codes and the set of codes already seen, and adds a token's code only when it is new. */
  method ChooseCodes(tokens: seq<string>, resolve: string -> Option<string>) returns (chosen: seq<string>)
    ensures chosen == FirstOccurrences(Resolved(tokens, resolve))
  {
    chosen := [];
    var seen: set<string> := {};
    var i := 0;
    assert tokens[..0] == [];
    while i < |tokens|
      invariant 0 <= i <= |tokens|
      invariant chosen == FirstOccurrences(Resolved(tokens[..i], resolve))
      invariant forall c :: c in seen <==> c in chosen
    {
      var code := resolve(tokens[i]);
      ChosenStep(tokens, i, resolve);
      if code.Some? && code.value !in seen {
        chosen := chosen + [code.value];
        seen := seen + {code.value};
      }
      i := i + 1;
    }
    assert tokens[..i] == tokens;
  }

  /** `prompt_user_for_category_selection` once the menu is printed: end of input, a blank
      answer and "all" select every code; otherwise the tokens' codes, or every code when no
      token is valid. */
  method ParseSelection(answer: Option<string>) returns (codes: seq<string>)
    ensures codes == SelectionOf(answer)
    ensures ValidSelection(codes)
  {
    SelectionIsValid(answer);
    if answer.None? {
      return CategoryOrder;
    }
    var selection := Strip(answer.value);
    if selection == "" || IsAll(selection) {
      return CategoryOrder;
    }
    var chosen := ChooseCodes(Tokens(selection), ResolveToken);
    if chosen == [] {
      return CategoryOrder;
    }
    return chosen;
  }

  // ================================================================ the cache

  /** The process-wide selection (`_selected_category_codes`): empty until the menu is first
      answered, then fixed for the rest of the run. */
  class SelectionCache {
    var selected: Option<seq<string>>

    ghost predicate Valid()
      reads this
    {
      selected.Some? ==> ValidSelection(selected.value)
    }

    constructor ()
      ensures Valid() && selected == None
    {
      selected := None;
    }

    /** `get_active_category_codes`: asks (consuming `answer`) only while nothing is cached,
        and from then on returns the cached codes whatever the answer would have been. */
    method GetActive(answer: Option<string>) returns (codes: seq<string>)
      requires Valid()
      modifies this
      ensures Valid() && selected == Some(codes) && ValidSelection(codes)
      ensures old(selected).Some? ==> codes == old(selected).value
      ensures old(selected).None? ==> codes == SelectionOf(answer)
    {
      if selected.None? {
        var chosen := ParseSelection(answer);
        selected := Some(chosen);
      }
      codes := selected.value;
    }

    /** `get_selected_category_codes`: the cached codes as a new list. Sequences are values,
        so what the caller does with the result cannot reach the cache. */
    method GetSelected(answer: Option<string>) returns (codes: seq<string>)
      requires Valid()
      modifies this
      ensures Valid() && selected == Some(codes) && ValidSelection(codes)
      ensures old(selected).Some? ==> codes == old(selected).value
      ensures old(selected).None? ==> codes == SelectionOf(answer)
    {
      codes := GetActive(answer);
    }
  }

  /** Over one run, the first answer decides: a later call returns the same codes whatever
      answer it would have been given. */
  method SelectionIsStable(first: Option<string>, later: Option<string>) returns (a: seq<string>, b: seq<string>)
    ensures a == b == SelectionOf(first)
    ensures ValidSelection(a)
  {
    var cache := new SelectionCache();
    a := cache.GetActive(first);
    b := cache.GetSelected(later);
  }

  // ================================================================ the category block

  /** Title and description per code; the block is rendered from `CategoryMetadata`, and the
      lemmas below hold for any table. */
  type Metadata = map<string, CategoryInfo>

  function Heading(name: string): string {
    "## " + name
  }

  /** One line of the block: "- Title (CODE): description". */
  function EntryLine(code: string, info: CategoryInfo): string {
    "- " + info.title + " (" + code + "): " + info.description
  }

  /** `[code for code in codes if code in selected]`. */
  function Picked(codes: seq<string>, selected: seq<string>): seq<string> {
    if codes == [] then []
    else (if codes[0] in selected then [codes[0]] else []) + Picked(codes[1..], selected)
  }

  /** The entry lines of `codes`, skipping a code without metadata. */
  function EntryLines(codes: seq<string>, metadata: Metadata): seq<string> {
    if codes == [] then []
    else
      (if codes[0] in metadata then [EntryLine(codes[0], metadata[codes[0]])] else [])
      + EntryLines(codes[1..], metadata)
  }

  /** The lines one group contributes: nothing when none of its codes is selected, else its
      heading, its entries and a blank line. */
  function GroupBlock(group: Group, selected: seq<string>, metadata: Metadata): seq<string> {
    var picked := Picked(group.1, selected);
    if picked == [] then [] else [Heading(group.0)] + EntryLines(picked, metadata) + [""]
  }

  function GroupBlocks(groups: seq<Group>, selected: seq<string>, metadata: Metadata): seq<string> {
    if groups == [] then []
    else GroupBlock(groups[0], selected, metadata) + GroupBlocks(groups[1..], selected, metadata)
  }

  /** The lines `build_category_section` collects before joining them. */
  function SectionLines(selected: seq<string>, metadata: Metadata): seq<string> {
    ["# Categories"] + GroupBlocks(CategoryGroups, selected, metadata)
  }

  lemma {:induction false} GroupBlocksSnoc(groups: seq<Group>, g: Group, selected: seq<string>, metadata: Metadata)
    ensures GroupBlocks(groups + [g], selected, metadata) ==
              GroupBlocks(groups, selected, metadata) + GroupBlock(g, selected, metadata)
  {
    if groups == [] {
      assert [] + [g] == [g];
    } else {
      assert (groups + [g])[1..] == groups[1..] + [g];
      GroupBlocksSnoc(groups[1..], g, selected, metadata);
    }
  }

  lemma {:induction false} EntryLinesSnoc(codes: seq<string>, c: string, metadata: Metadata)
    ensures EntryLines(codes + [c], metadata) ==
      EntryLines(codes, metadata) + (if c in metadata then [EntryLine(c, metadata[c])] else [])
  {
    if codes == [] {
      assert [] + [c] == [c];
    } else {
      assert (codes + [c])[1..] == codes[1..] + [c];
      EntryLinesSnoc(codes[1..], c, metadata);
    }
  }

  /** One pass of the loop over a group's selected codes. */
  lemma EntryStep(start: seq<string>, codes: seq<string>, k: nat, metadata: Metadata)
    requires k < |codes|
    ensures start + EntryLines(codes[..k + 1], metadata) ==
              (start + EntryLines(codes[..k], metadata)) +
              (if codes[k] in metadata then [EntryLine(codes[k], metadata[codes[k]])] else [])
  {
    assert codes[..k + 1] == codes[..k] + [codes[k]];
    EntryLinesSnoc(codes[..k], codes[k], metadata);
  }

  lemma GroupBlocksPrefix(groups: seq<Group>, g: nat, selected: seq<string>, metadata: Metadata)
    requires g < |groups|
    ensures GroupBlocks(groups[..g + 1], selected, metadata) ==
              GroupBlocks(groups[..g], selected, metadata) + GroupBlock(groups[g], selected, metadata)
  {
    assert groups[..g + 1] == groups[..g] + [groups[g]];
    GroupBlocksSnoc(groups[..g], groups[g], selected, metadata);
  }

  lemma CollectStep(start: seq<string>, groups: seq<Group>, g: nat, selected: seq<string>, metadata: Metadata)
    requires g < |groups|
    ensures start + GroupBlocks(groups[..g + 1], selected, metadata) ==
              (start + GroupBlocks(groups[..g], selected, metadata)) + GroupBlock(groups[g], selected, metadata)
  {
    GroupBlocksPrefix(groups, g, selected, metadata);
  }

  /** One pass of the loop over the groups: a group none of whose codes is selected adds
      nothing; otherwise its heading, one line per selected code that has metadata, and a
      blank line. */
  method AppendGroup(lines: seq<string>, group: Group, selected: seq<string>, metadata: Metadata)
    returns (result: seq<string>)
    ensures result == lines + GroupBlock(group, selected, metadata)
  {
    result := lines;
    var groupSelected := Picked(group.1, selected);
    if groupSelected != [] {
      result := result + [Heading(group.0)];
      var k := 0;
      while k < |groupSelected|
        invariant 0 <= k <= |groupSelected|
        invariant result == lines + [Heading(group.0)] + EntryLines(groupSelected[..k], metadata)
      {
        var code := groupSelected[k];
        EntryStep(lines + [Heading(group.0)], groupSelected, k, metadata);
        if code in metadata {
          var info := metadata[code];
          result := result + [EntryLine(code, info)];
        }
        k := k + 1;
      }
      assert groupSelected[..k] == groupSelected;
      result := result + [""];
    }
  }

  /** `build_category_section`: the block of the selected categories, grouped, with trailing
      whitespace removed. The program passes `CategoryGroups` and `CategoryMetadata`, for
      which the result is `StripEnd(Join("\n", SectionLines(selected, CategoryMetadata)))`. */
  method BuildCategorySection(selected: seq<string>, groups: seq<Group>, metadata: Metadata)
    returns (section: string)
    ensures section == StripEnd(Join("\n", ["# Categories"] + GroupBlocks(groups, selected, metadata)))
  {
    var lines := CollectLines(["# Categories"], selected, groups, metadata);
    section := StripEnd(Join("\n", lines));
  }

  /** The loop of `build_category_section` over the groups: each group's block is appended
      to the lines collected so far, which start as `start`. */
  method CollectLines(start: seq<string>, selected: seq<string>, groups: seq<Group>, metadata: Metadata)
    returns (lines: seq<string>)
    ensures lines == start + GroupBlocks(groups, selected, metadata)
  {
    lines := start;
    var g := 0;
    while g < |groups|
      invariant 0 <= g <= |groups|
      invariant lines == start + GroupBlocks(groups[..g], selected, metadata)
    {
      CollectStep(start, groups, g, selected, metadata);
      lines := AppendGroup(lines, groups[g], selected, metadata);
      g := g + 1;
    }
    assert groups[..g] == groups;
  }

  // ---------------------------------------------------------------- properties of the block

  predicate IsEntry(line: string) {
    |line| >= 2 && line[0] == '-' && line[1] == ' '
  }

  /** The entry lines among `lines`, in order. */
  function Entries(lines: seq<string>): seq<string> {
    if lines == [] then []
    else (if IsEntry(lines[0]) then [lines[0]] else []) + Entries(lines[1..])
  }

  lemma {:induction false} EntriesAppend(a: seq<string>, b: seq<string>)
    ensures Entries(a + b) == Entries(a) + Entries(b)
  {
    if a == [] {
      assert a + b == b;
    } else {
      assert (a + b)[1..] == a[1..] + b;
      EntriesAppend(a[1..], b);
    }
  }

  lemma {:induction false} EntryLinesAreEntries(codes: seq<string>, metadata: Metadata)
    ensures Entries(EntryLines(codes, metadata)) == EntryLines(codes, metadata)
  {
    if codes != [] {
      var head := if codes[0] in metadata then [EntryLine(codes[0], metadata[codes[0]])] else [];
      EntriesAppend(head, EntryLines(codes[1..], metadata));
      EntryLinesAreEntries(codes[1..], metadata);
      if codes[0] in metadata {
        var line := EntryLine(codes[0], metadata[codes[0]]);
        assert line[0] == '-' && line[1] == ' ';
        assert Entries(head) == head;
      }
    }
  }

  lemma {:induction false} PickedAppend(a: seq<string>, b: seq<string>, selected: seq<string>)
    ensures Picked(a + b, selected) == Picked(a, selected) + Picked(b, selected)
  {
    if a == [] {
      assert a + b == b;
    } else {
      assert (a + b)[1..] == a[1..] + b;
      PickedAppend(a[1..], b, selected);
    }
  }

  lemma {:induction false} EntryLinesAppend(a: seq<string>, b: seq<string>, metadata: Metadata)
    ensures EntryLines(a + b, metadata) == EntryLines(a, metadata) + EntryLines(b, metadata)
  {
    if a == [] {
      assert a + b == b;
    } else {
      assert (a + b)[1..] == a[1..] + b;
      EntryLinesAppend(a[1..], b, metadata);
    }
  }

  lemma {:induction false} GroupBlocksEntries(groups: seq<Group>, selected: seq<string>, metadata: Metadata)
    ensures Entries(GroupBlocks(groups, selected, metadata)) ==
              EntryLines(Picked(Flatten(groups), selected), metadata)
  {
    if groups != [] {
      var g := groups[0];
      var picked := Picked(g.1, selected);
      var rest := Picked(Flatten(groups[1..]), selected);
      GroupBlocksEntries(groups[1..], selected, metadata);
      EntriesAppend(GroupBlock(g, selected, metadata), GroupBlocks(groups[1..], selected, metadata));
      PickedAppend(g.1, Flatten(groups[1..]), selected);
      EntryLinesAppend(picked, rest, metadata);
      GroupBlockEntries(g, selected, metadata);
    }
  }

  /** The entries of one group's block are the entry lines of its selected codes. */
  lemma GroupBlockEntries(g: Group, selected: seq<string>, metadata: Metadata)
    ensures Entries(GroupBlock(g, selected, metadata)) == EntryLines(Picked(g.1, selected), metadata)
  {
    var picked := Picked(g.1, selected);
    if picked != [] {
      EntriesAppend([Heading(g.0)] + EntryLines(picked, metadata), [""]);
      EntriesAppend([Heading(g.0)], EntryLines(picked, metadata));
      assert Entries([""]) == [];
      EntryLinesAreEntries(picked, metadata);
      assert Heading(g.0)[0] == '#';
      assert Entries([Heading(g.0)]) == [];
    }
  }

  /** `Picked` keeps exactly the selected codes. */
  lemma {:induction false} PickedMembers(codes: seq<string>, selected: seq<string>)
    ensures forall c :: c in Picked(codes, selected) <==> c in codes && c in selected
  {
    if codes != [] {
      PickedMembers(codes[1..], selected);
      assert codes == [codes[0]] + codes[1..];
    }
  }

  /** The entries of a list of codes that all have metadata: one line per code, in order. */
  lemma {:induction false} EntryLinesOfKnown(codes: seq<string>, metadata: Metadata)
    requires forall c :: c in codes ==> c in metadata
    ensures |EntryLines(codes, metadata)| == |codes|
    ensures forall i :: 0 <= i < |codes| ==>
              EntryLines(codes, metadata)[i] == EntryLine(codes[i], metadata[codes[i]])
  {
    if codes != [] {
      EntryLinesOfKnown(codes[1..], metadata);
    }
  }

  /** A selection of distinct codes holds no code twice. */
  lemma {:induction false} PickedDistinct(codes: seq<string>, selected: seq<string>)
    requires Distinct(codes)
    ensures Distinct(Picked(codes, selected))
  {
    if codes != [] {
      var tail := codes[1..];
      PickedDistinct(tail, selected);
      PickedMembers(tail, selected);
      assert codes[0] !in tail;
    }
  }

  /** `a` is `b` with some elements left out, the rest in their order. */
  predicate IsSubsequence(a: seq<string>, b: seq<string>) {
    if a == [] then true
    else if b == [] then false
    else if a[0] == b[0] then IsSubsequence(a[1..], b[1..])
    else IsSubsequence(a, b[1..])
  }

  /** `Picked` keeps the order of `codes`. */
  lemma {:induction false} PickedInOrder(codes: seq<string>, selected: seq<string>)
    ensures IsSubsequence(Picked(codes, selected), codes)
  {
    if codes != [] {
      PickedInOrder(codes[1..], selected);
      var rest := Picked(codes[1..], selected);
      if codes[0] in selected {
        var r := Picked(codes, selected);
        assert r == [codes[0]] + rest && r[1..] == rest;
      } else {
        assert Picked(codes, selected) == rest;
        SubsequenceDrop(rest, codes);
      }
    }
  }

  lemma {:induction false} SubsequenceDrop(a: seq<string>, b: seq<string>)
    requires b != [] && IsSubsequence(a, b[1..])
    ensures IsSubsequence(a, b)
  {
    if a != [] && a[0] == b[0] {
      SubsequenceTail(a, b[1..]);
    }
  }

  lemma {:induction false} SubsequenceTail(a: seq<string>, b: seq<string>)
    requires a != [] && IsSubsequence(a, b)
    ensures IsSubsequence(a[1..], b)
  {
    if b != [] && a[0] != b[0] {
      SubsequenceTail(a, b[1..]);
      SubsequenceDrop(a[1..], b);
    } else if b != [] {
      SubsequenceDrop(a[1..], b);
    }
  }

  /** The entries of the group blocks: the selected codes of the flattened groups, once each
      and in group order, one entry line per code. */
  lemma BlockEntries(groups: seq<Group>, order: seq<string>, selected: seq<string>, metadata: Metadata)
    requires order == Flatten(groups) && Distinct(order)
    requires forall c :: c in order ==> c in metadata
    ensures var picked := Picked(order, selected);
      var entries := Entries(GroupBlocks(groups, selected, metadata));
      && Distinct(picked)
      && IsSubsequence(picked, order)
      && (forall c :: c in picked <==> c in order && c in selected)
      && |entries| == |picked|
      && forall i :: 0 <= i < |picked| ==>
           picked[i] in metadata && entries[i] == EntryLine(picked[i], metadata[picked[i]])
  {
    GroupBlocksEntries(groups, selected, metadata);
    PickedDistinct(order, selected);
    PickedMembers(order, selected);
    PickedInOrder(order, selected);
    EntryLinesOfKnown(Picked(order, selected), metadata);
  }

  /** A title line above the blocks adds no entry. */
  lemma TitleAddsNoEntry(blocks: seq<string>)
    ensures Entries(["# Categories"] + blocks) == Entries(blocks)
  {
    EntriesAppend(["# Categories"], blocks);
    assert Entries(["# Categories"]) == [] by {
      assert "# Categories"[0] == '#';
    }
  }

  /** The block lists every selected code exactly once, in the order of the menu rather than
      the order of the selection: its entry lines are those of the selected codes of
      `CATEGORY_ORDER`, one each, and nothing else. */
  lemma SectionEntries(selected: seq<string>, metadata: Metadata)
    requires forall c :: c in CategoryOrder ==> c in metadata
    ensures var picked := Picked(CategoryOrder, selected);
      && Distinct(picked)
      && IsSubsequence(picked, CategoryOrder)
      && (forall c :: c in picked <==> c in CategoryOrder && c in selected)
      && |Entries(SectionLines(selected, metadata))| == |picked|
      && forall i :: 0 <= i < |picked| ==>
           picked[i] in metadata &&
           Entries(SectionLines(selected, metadata))[i] == EntryLine(picked[i], metadata[picked[i]])
  {
    CategoryOrderIsFlattened();
    BlockEntries(CategoryGroups, CategoryOrder, selected, metadata);
    TitleAddsNoEntry(GroupBlocks(CategoryGroups, selected, metadata));
  }

  /** Every line kept by `Entries` is an entry line. */
  lemma {:induction false} EntriesOnlyEntries(lines: seq<string>, line: string)
    requires line in Entries(lines)
    ensures IsEntry(line)
  {
    if lines != [] {
      if !(IsEntry(lines[0]) && line == lines[0]) {
        EntriesOnlyEntries(lines[1..], line);
      }
    }
  }

  /** A heading line is in the lines of `groups` exactly when a group of that name has a
      selected code. */
  lemma {:induction false} HeadingsOfGroups(groups: seq<Group>, selected: seq<string>, metadata: Metadata, name: string)
    ensures Heading(name) in GroupBlocks(groups, selected, metadata) <==>
      exists k :: 0 <= k < |groups| && groups[k].0 == name && Picked(groups[k].1, selected) != []
  {
    if groups != [] {
      var g := groups[0];
      HeadingsOfGroups(groups[1..], selected, metadata, name);
      var picked := Picked(g.1, selected);
      var block := GroupBlock(g, selected, metadata);
      if Heading(name) in block {
        assert picked != [];
        var line := Heading(name);
        assert line[0] == '#';
        assert line !in EntryLines(picked, metadata) by {
          if line in EntryLines(picked, metadata) {
            EntryLinesAreEntries(picked, metadata);
            EntriesOnlyEntries(EntryLines(picked, metadata), line);
          }
        }
        assert line == Heading(g.0);
        assert name == g.0 by {
          assert name == line[3..] && g.0 == Heading(g.0)[3..];
        }
      }
      if Heading(name) !in block && g.0 == name {
        assert picked == [];
      }
      if exists k :: 0 <= k < |groups[1..]| && groups[1..][k].0 == name && Picked(groups[1..][k].1, selected) != [] {
        var k :| 0 <= k < |groups[1..]| && groups[1..][k].0 == name && Picked(groups[1..][k].1, selected) != [];
        assert groups[k + 1].0 == name;
      }
      if exists k :: 0 <= k < |groups| && groups[k].0 == name && Picked(groups[k].1, selected) != [] {
        var k :| 0 <= k < |groups| && groups[k].0 == name && Picked(groups[k].1, selected) != [];
        if k > 0 {
          assert groups[1..][k - 1] == groups[k];
        }
      }
    }
  }

  /** No two groups share a name. */
  predicate DistinctNames(groups: seq<Group>) {
    forall i, j :: 0 <= i < j < |groups| ==> groups[i].0 != groups[j].0
  }

  lemma GroupNamesDistinct()
    ensures DistinctNames(CategoryGroups)
  {
  }

  /** Under a title line, a heading of a group with its own name is emitted exactly when that
      group has a selected code. */
  lemma TitledHeadings(groups: seq<Group>, selected: seq<string>, metadata: Metadata, k: nat)
    requires k < |groups| && DistinctNames(groups)
    ensures Heading(groups[k].0) in ["# Categories"] + GroupBlocks(groups, selected, metadata) <==>
              Picked(groups[k].1, selected) != []
  {
    var name := groups[k].0;
    HeadingsOfGroups(groups, selected, metadata, name);
    assert Heading(name) != "# Categories" by {
      assert Heading(name)[1] == '#';
    }
  }

  /** A "## group" heading is emitted exactly when that group has a selected code. */
  lemma SectionHeadings(selected: seq<string>, metadata: Metadata, k: nat)
    requires k < |CategoryGroups|
    ensures Heading(CategoryGroups[k].0) in SectionLines(selected, metadata) <==>
              Picked(CategoryGroups[k].1, selected) != []
  {
    GroupNamesDistinct();
    TitledHeadings(CategoryGroups, selected, metadata, k);
  }

  /** A prefix ending in a non-whitespace character survives `rstrip()`. */
  lemma {:induction false} PrefixSurvivesStripEnd(p: string, s: string)
    requires p != [] && p <= s && !IsSpace(p[|p| - 1])
    ensures p <= StripEnd(s)
  {
    var r := StripEnd(s);
    TrimEndSpec(s, IsSpace);
    assert s[|p| - 1] == p[|p| - 1];
    assert |p| <= |r|;
    assert p == s[..|p|] == r[..|p|];
  }

  /** The block always begins with the "# Categories" title. */
  lemma SectionStartsWithTitle(selected: seq<string>, metadata: Metadata)
    ensures "# Categories" <= StripEnd(Join("\n", SectionLines(selected, metadata)))
  {
    var lines := SectionLines(selected, metadata);
    JoinStartsWith("\n", lines);
    assert !IsSpace("# Categories"[11]);
    PrefixSurvivesStripEnd("# Categories", Join("\n", lines));
  }

  // ================================================================ one classification

  /** The instruction template, cut at its two placeholders `{category_section}` and
      `{documents}`; `str.format` inserts the two values without re-reading them. The text is
      written one line per literal. */
  const PromptHead: string :=
    "\n"
      + "You are an AI model specialized in analyzing and assigning user queries\n"
      + "according to a predefined categorization scheme.\n"
      + "\n"
      + "Your task is to examine the given inputs and assign them a suitable category\n"
      + "from the following list:\n"
      + "\n"

  const PromptMiddle: string :=
    "\n"
      + "\n"
      + "You are given a single topic consisting of multiple user queries.\n"
      + "\n"
      + "Representative user queries:\n"

  const PromptTail: string :=
    "\n"
      + "\n"
      + "Decision rules:\n"
      + "1. If the user explicitly asks for an EXPLANATION, DEFINITION, or INFORMATION\n"
      + "   (e.g. \"Erkläre\", \"Was ist\", \"Gibt es Studien\"), prefer S.S over D.I.\n"
      + "2. If the user asks to SOLVE EXERCISES or work through tasks based on slides,\n"
      + "   examples, or given text, prefer E.RF.\n"
      + "3. If the user wants EXISTING text or solutions to be CHECKED or CORRECTED,\n"
      + "   prefer E.RV.\n"
      + "4. Use D.I only if the main action is to DESCRIBE or DEFINE a problem or task,\n"
      + "   without primarily asking for explanations, solutions, or practice.\n"
      + "5. Use E.O only if the main request is to STRUCTURE or ORGANIZE content\n"
      + "   (outline, categories, ordering), not to explain or solve.\n"
      + "6. CRITICAL - Distinguish R.ES from S.S:\n"
      + "   - R.ES: \"Ich verstehe X nicht\" or \"Was verstehe ich hier falsch?\" (self-reflection about understanding)\n"
      + "   - S.S: \"Erkläre mir X\" or \"Was ist X?\" (requesting new information/explanation)\n"
      + "   - R.ES is meta-cognitive (about the user's own understanding gaps),\n"
      + "     S.S is informational (requesting knowledge from the chatbot).\n"
      + "7. CRITICAL - Distinguish R.ET from E.RV:\n"
      + "   - R.ET: \"Ist meine Lösung richtig?\" or \"Ist das ausreichend?\" (asking for judgment/assessment)\n"
      + "   - E.RV: \"Überprüfe meine Lösung und korrigiere Fehler\" (asking for checking AND improvement)\n"
      + "   - R.ET is evaluation/assessment, E.RV is review/correction.\n"
      + "8. Use OTHER sparingly - most queries fit into one of the main categories.\n"
      + "   Only use OTHER if the query is off-topic or meta (e.g., asking about the chatbot system itself).\n"
      + "\n"
      + "Task:\n"
      + "1. Analyze the user queries and their shared intent.\n"
      + "2. Assign the most appropriate category to this topic from:\n"
      + "   D.I, D.G, S.S, S.SL, S.EQ, E.RV, E.O, E.RF, E.RH, R.ET, R.ES, OTHER.\n"
      + "\n"
      + "Important:\n"
      + "- Output ONLY the category code (exactly one of:\n"
      + "  D.I, D.G, S.S, S.SL, S.EQ, E.RV, E.O, E.RF, E.RH, R.ET, R.ES, OTHER).\n"
      + "- Do not include any explanation or additional text.\n"

  /** What one classification fills into the template: the category block for
      `{category_section}` and the document as a "- " item for `{documents}`. */
  datatype Request = Request(categorySection: string, documents: string)

  /** A template cut at its two slots. */
  datatype Template = Template(head: string, middle: string, tail: string)

  const ClassificationTemplate := Template(PromptHead, PromptMiddle, PromptTail)

  /** `template.format(category_section=..., documents=...)`: the message text for `r`; the
      chat model is sent `Render(ClassificationTemplate, r)`. */
  function Render(template: Template, r: Request): string {
    template.head + r.categorySection + template.middle + r.documents + template.tail
  }

  /** A filled template shows each value at its slot, between the unchanged pieces of the
      template, so two requests whose blocks have the same length render alike only when they
      are equal. */
  lemma RenderSlots(template: Template, r: Request, r': Request)
    ensures var t := Render(template, r);
      var h, m := |template.head|, |template.middle|;
      && |t| == h + |r.categorySection| + m + |r.documents| + |template.tail|
      && t[..h] == template.head
      && t[h..h + |r.categorySection|] == r.categorySection
      && t[h + |r.categorySection|..h + |r.categorySection| + m] == template.middle
      && t[h + |r.categorySection| + m..|t| - |template.tail|] == r.documents
      && t[|t| - |template.tail|..] == template.tail
    ensures (Render(template, r) == Render(template, r') && |r.categorySection| == |r'.categorySection|)
              ==> r == r'
  {
    var t := Render(template, r);
    var t' := Render(template, r');
    var h, m := |template.head|, |template.middle|;
    var c, c' := |r.categorySection|, |r'.categorySection|;
    assert t == (((template.head + r.categorySection) + template.middle) + r.documents) + template.tail;
    assert t' == (((template.head + r'.categorySection) + template.middle) + r'.documents) + template.tail;
    assert |t'| == h + c' + m + |r'.documents| + |template.tail|;
    assert t'[h..h + c'] == r'.categorySection;
    assert t'[h + c' + m..|t'| - |template.tail|] == r'.documents;
  }

  /** What a classification returns for the chat model's answer: "ERROR" when the call
      failed, otherwise the reply with surrounding whitespace removed. */
  function Outcome(reply: Option<string>): string {
    match reply
    case None => "ERROR"
    case Some(text) => Strip(text)
  }

  /** `(doc or "").strip()`: the document's text, empty for a missing document. */
  function DocumentText(doc: Option<string>): string {
    Strip(doc.GetOr(""))
  }

  /** The request for a non-blank document: the active categories (asking once, see
      `GetActive`) rendered as the category block, and the document as a "- " item. */
  method RequestFor(cache: SelectionCache, text: string, answer: Option<string>,
                    groups: seq<Group>, metadata: Metadata)
    returns (r: Request)
    requires cache.Valid()
    modifies cache
    ensures cache.Valid() && cache.selected.Some?
    ensures old(cache.selected).Some? ==> cache.selected == old(cache.selected)
    ensures old(cache.selected).None? ==> cache.selected == Some(SelectionOf(answer))
    ensures r.categorySection ==
              StripEnd(Join("\n", ["# Categories"] + GroupBlocks(groups, cache.selected.value, metadata)))
    ensures r.documents == "- " + text
  {
    var categories := cache.GetActive(answer);
    var section := BuildCategorySection(categories, groups, metadata);
    r := Request(section, "- " + text);
  }

  /** `classify_prompt`, over any taxonomy (the program's is `CategoryGroups` with
      `CategoryMetadata`). An empty or blank document is "OTHER" at once: no menu, no request.
      Otherwise the active categories are fetched (asking once, see `GetActive`), one request
      is sent (`request`), a failed call gives "ERROR", and a reply is returned stripped but
      unchecked against the codes. `service(r)` is the chat model's answer to
      `Render(ClassificationTemplate, r)`. */
  method ClassifyWith(cache: SelectionCache, doc: Option<string>, answer: Option<string>,
                      service: Request -> Option<string>, groups: seq<Group>, metadata: Metadata)
    returns (category: string, request: Option<Request>)
    requires cache.Valid()
    modifies cache
    ensures cache.Valid()
    ensures DocumentText(doc) == "" ==>
              category == "OTHER" && request == None && cache.selected == old(cache.selected)
    ensures DocumentText(doc) != "" ==>
              && cache.selected.Some?
              && (old(cache.selected).Some? ==> cache.selected == old(cache.selected))
              && (old(cache.selected).None? ==> cache.selected == Some(SelectionOf(answer)))
              && request.Some?
              && request.value.categorySection ==
                   StripEnd(Join("\n", ["# Categories"] + GroupBlocks(groups, cache.selected.value, metadata)))
              && request.value.documents == "- " + DocumentText(doc)
              && category == Outcome(service(request.value))
  {
    var text := DocumentText(doc);
    if text == "" {
      category, request := "OTHER", None;
    } else {
      var r := RequestFor(cache, text, answer, groups, metadata);
      request := Some(r);
      category := Outcome(service(r));
    }
  }

  /** `classify_prompt` with the program's taxonomy. */
  method ClassifyPrompt(cache: SelectionCache, doc: Option<string>, answer: Option<string>,
                        service: Request -> Option<string>)
    returns (category: string, request: Option<Request>)
    requires cache.Valid()
    modifies cache
    ensures cache.Valid()
    ensures DocumentText(doc) == "" ==>
              category == "OTHER" && request == None && cache.selected == old(cache.selected)
    ensures DocumentText(doc) != "" ==>
              && cache.selected.Some?
              && (old(cache.selected).Some? ==> cache.selected == old(cache.selected))
              && (old(cache.selected).None? ==> cache.selected == Some(SelectionOf(answer)))
              && request == Some(Request(StripEnd(Join("\n", SectionLines(cache.selected.value, CategoryMetadata))),
                                         "- " + DocumentText(doc)))
              && category == Outcome(service(request.value))
  {
    category, request := ClassifyWith(cache, doc, answer, service, CategoryGroups, CategoryMetadata);
  }

  /** `detect_language`: "unknown" for a missing or blank text without asking the
      identifier, "error" when the identifier fails, otherwise its label without the
      "__label__" prefix. The identifier is given the text with newlines turned into spaces. */
  function DetectLanguage(text: Option<string>, identify: string -> Option<string>): (lang: string)
    ensures text.None? || Strip(text.value) == "" ==> lang == "unknown"
    ensures text.Some? && Strip(text.value) != "" && identify(ReplaceAll(text.value, "\n", " ")).None? ==>
              lang == "error"
  {
    if text.None? || Strip(text.value) == "" then "unknown"
    else
      match identify(ReplaceAll(text.value, "\n", " "))
      case None => "error"
      case Some(prediction) => ReplaceAll(prediction, "__label__", "")
  }
}
