/** The relevance filter of the chat endpoint (`filter_relevant_products`):
    it picks at most ten catalog rows to give the language model as context,
    by the category a question is about or, failing that, by the words of the
    question, and falls back to the whole catalog rather than to nothing. */
module Filter {
  import opened Wrappers
  import opened Text
  import opened Catalog

  /** Words that make a question about plants. */
  const PlantKeywords: seq<string> := [
    "planta", "plantas", "suculenta", "suculentas", "monstera", "poto", "palma",
    "helecho", "cactus", "calathea", "ficus", "interior", "exterior", "jardín",
    "verde", "hoja", "hojas", "maceta", "cuidado", "riego", "luz", "sombra",
    "resistente", "purifica", "aire", "tropical", "decorativa"
  ]

  /** Words that make a question about aromatherapy. */
  const AromaKeywords: seq<string> := [
    "aromaterapia", "aceite", "aceites", "esencial", "esenciales", "vela", "velas",
    "difusor", "spray", "roll-on", "lavanda", "eucalipto", "limón", "naranja",
    "relajante", "energético", "estrés", "ansiedad", "sueño", "concentración",
    "aromático", "fragancia", "olor", "huele"
  ]

  const PlantKind: string := "planta"
  const AromaKind: string := "aromaterapia"
  /** `['planta', 'aromaterapia']`, the categories a question about both keeps. */
  const BothKinds: set<string> := {PlantKind, AromaKind}

  /** The most rows handed to the language model. */
  const MaxProducts: nat := 10

  /** `any(keyword in text for keyword in keywords)`, tried in list order. */
  predicate MentionsAny(text: string, keywords: seq<string>)
  {
    keywords != [] && (Contains(text, keywords[0]) || MentionsAny(text, keywords[1..]))
  }

  /** The text mentions one of the keywords exactly when one of them occurs in it. */
  lemma {:induction false} MentionsAnyIff(text: string, keywords: seq<string>)
    ensures MentionsAny(text, keywords) <==> exists k :: 0 <= k < |keywords| && Contains(text, keywords[k])
  {
    if keywords != [] {
      MentionsAnyIff(text, keywords[1..]);
      assert forall k :: 1 <= k < |keywords| ==> keywords[k] == keywords[1..][k - 1];
    }
  }

  predicate IsAboutPlants(questionLower: string)
  {
    MentionsAny(questionLower, PlantKeywords)
  }

  predicate IsAboutAroma(questionLower: string)
  {
    MentionsAny(questionLower, AromaKeywords)
  }

  /** The lower-cased `nombre atributo_1 descripcion` a question's words are
      looked for in. */
  function CombinedText(r: Row): string
  {
    Lower(r.nombre + " " + r.atributo1 + " " + r.descripcion)
  }

  /** What decides whether a row is kept: its category is one of `kinds`, or
      its combined text contains one of `words`. */
  datatype Criterion = ByKinds(kinds: set<string>) | ByWords(words: seq<string>)

  predicate Selects(c: Criterion, r: Row)
  {
    match c
    case ByKinds(kinds) => r.tipo in kinds
    case ByWords(words) => MentionsAny(CombinedText(r), words)
  }

  /** The rows the criterion keeps, in catalog order. */
  function Select(rows: seq<Row>, c: Criterion): seq<Row>
  {
    if rows == [] then []
    else (if Selects(c, rows[0]) then [rows[0]] else []) + Select(rows[1..], c)
  }

  /** The branch taken on the flags of the lower-cased question. */
  function BranchCriterion(questionLower: string): Criterion
  {
    var plants := IsAboutPlants(questionLower);
    var aroma := IsAboutAroma(questionLower);
    if !plants && !aroma then ByWords(Words(questionLower))
    else if plants && aroma then ByKinds(BothKinds)
    else if plants then ByKinds({PlantKind})
    else ByKinds({AromaKind})
  }

  /** The rows before truncation: those of the branch, or the whole catalog
      when the branch kept none. */
  function Candidates(rows: seq<Row>, question: string): seq<Row>
  {
    var kept := Select(rows, BranchCriterion(Lower(question)));
    if kept == [] then rows else kept
  }

  /** `s[:n]`. */
  function Take<T>(s: seq<T>, n: nat): seq<T>
  {
    if |s| <= n then s else s[..n]
  }

  /** What `filter_relevant_products(df, question)` returns. */
  function RelevantProducts(catalog: Option<seq<Row>>, question: string): (r: seq<Row>)
    ensures |r| <= MaxProducts
    ensures catalog.None? ==> r == []
    ensures catalog.Some? && catalog.value != [] ==> r != []
  {
    match catalog
    case None => []
    case Some(rows) => Take(Candidates(rows, question), MaxProducts)
  }

  /** `filter_relevant_products`: the flags, the word scan over the catalog
      when neither flag holds, the category selects otherwise, the fallback
      to the whole catalog and the truncation to ten rows. */
  method FilterRelevantProducts(catalog: Option<seq<Row>>, question: string)
    returns (products: seq<Row>)
    ensures products == RelevantProducts(catalog, question)
  {
    if catalog.None? {
      return [];
    }
    var rows := catalog.value;
    var questionLower := Lower(question);
    var isAboutPlants := MentionsAny(questionLower, PlantKeywords);
    var isAboutAroma := MentionsAny(questionLower, AromaKeywords);
    var relevant: seq<Row>;
    if !isAboutPlants && !isAboutAroma {
      relevant := MatchByWords(rows, Words(questionLower));
    } else if isAboutPlants && isAboutAroma {
      relevant := Select(rows, ByKinds(BothKinds));
    } else if isAboutPlants {
      relevant := Select(rows, ByKinds({PlantKind}));
    } else {
      relevant := Select(rows, ByKinds({AromaKind}));
    }
    assert relevant == Select(rows, BranchCriterion(questionLower));
    if relevant == [] {
      relevant := rows;
    }
    products := if |relevant| <= MaxProducts then relevant else relevant[..MaxProducts];
  }

  /** The scan over the catalog when the question names no category: the rows
      whose name, attribute and description mention one of the question's
      words, in catalog order. */
  method MatchByWords(rows: seq<Row>, words: seq<string>) returns (relevant: seq<Row>)
    ensures relevant == Select(rows, ByWords(words))
  {
    relevant := [];
    for i := 0 to |rows|
      invariant relevant == Select(rows[..i], ByWords(words))
    {
      var combinedText := CombinedText(rows[i]);
      if MentionsAny(combinedText, words) {
        relevant := relevant + [rows[i]];
      }
      assert rows[..i + 1] == rows[..i] + [rows[i]];
      SelectAppend(rows[..i], [rows[i]], ByWords(words));
    }
    assert rows[..|rows|] == rows;
  }

  // ---------------------------------------------------------------------------
  // Order: a subsequence keeps the order of the rows it is taken from
  // ---------------------------------------------------------------------------

  /** `a` is `b` with some elements deleted: same order, nothing repeated
      or added. */
  predicate IsSubsequence<T(==)>(a: seq<T>, b: seq<T>)
    decreases |b|
  {
    if a == [] then true
    else if b == [] then false
    else if a[0] == b[0] then IsSubsequence(a[1..], b[1..])
    else IsSubsequence(a, b[1..])
  }

  lemma {:induction false} SubsequenceRefl<T>(s: seq<T>)
    ensures IsSubsequence(s, s)
  {
    if s != [] {
      SubsequenceRefl(s[1..]);
    }
  }

  /** A prefix of a subsequence is a subsequence. */
  lemma {:induction false} SubsequencePrefix<T>(a: seq<T>, b: seq<T>, n: nat)
    requires IsSubsequence(a, b)
    requires n <= |a|
    ensures IsSubsequence(a[..n], b)
    decreases |b|
  {
    if n > 0 {
      if a[0] == b[0] {
        SubsequencePrefix(a[1..], b[1..], n - 1);
        assert a[..n][1..] == a[1..][..n - 1];
      } else {
        SubsequencePrefix(a, b[1..], n);
      }
    }
  }

  // ---------------------------------------------------------------------------
  // The selection
  // ---------------------------------------------------------------------------

  lemma {:induction false} SelectAppend(a: seq<Row>, b: seq<Row>, c: Criterion)
    ensures Select(a + b, c) == Select(a, c) + Select(b, c)
  {
    if a == [] {
      assert a + b == b;
    } else {
      assert (a + b)[1..] == a[1..] + b;
      SelectAppend(a[1..], b, c);
    }
  }

  /** A row is selected exactly when it is in the catalog and meets the criterion. */
  lemma {:induction false} SelectMembership(rows: seq<Row>, c: Criterion, x: Row)
    ensures x in Select(rows, c) <==> x in rows && Selects(c, x)
  {
    if rows != [] {
      SelectMembership(rows[1..], c, x);
      assert rows == [rows[0]] + rows[1..];
    }
  }

  /** The selection keeps the catalog's order. */
  lemma {:induction false} SelectIsSubsequence(rows: seq<Row>, c: Criterion)
    ensures IsSubsequence(Select(rows, c), rows)
  {
    if rows != [] {
      SelectIsSubsequence(rows[1..], c);
      var rest := Select(rows[1..], c);
      if Selects(c, rows[0]) {
        assert Select(rows, c) == [rows[0]] + rest;
        assert Select(rows, c)[1..] == rest;
      } else {
        assert Select(rows, c) == rest;
        if rest != [] {
          SelectMembership(rows[1..], c, rest[0]);
          assert rest[0] != rows[0];
        }
      }
    }
  }

  /** The selection is empty exactly when no row meets the criterion. */
  lemma {:induction false} SelectEmptyIff(rows: seq<Row>, c: Criterion)
    ensures Select(rows, c) == [] <==> forall i :: 0 <= i < |rows| ==> !Selects(c, rows[i])
  {
    if rows != [] {
      SelectEmptyIff(rows[1..], c);
      assert forall i :: 1 <= i < |rows| ==> rows[i] == rows[1..][i - 1];
    }
  }

  /** When every row meets the criterion, nothing is dropped. */
  lemma {:induction false} SelectEverything(rows: seq<Row>, c: Criterion)
    requires forall i :: 0 <= i < |rows| ==> Selects(c, rows[i])
    ensures Select(rows, c) == rows
  {
    if rows != [] {
      SelectEverything(rows[1..], c);
    }
  }

  // ---------------------------------------------------------------------------
  // What the filter promises
  // ---------------------------------------------------------------------------

  /** At most ten rows; nothing without a catalog; never nothing from a
      non-empty catalog; and always a prefix of the candidates. */
  lemma RelevantBounds(catalog: Option<seq<Row>>, question: string)
    ensures |RelevantProducts(catalog, question)| <= MaxProducts
    ensures catalog.None? ==> RelevantProducts(catalog, question) == []
    ensures catalog.Some? ==>
      var r := RelevantProducts(catalog, question);
      var c := Candidates(catalog.value, question);
      && r <= c
      && |r| == (if |c| <= MaxProducts then |c| else MaxProducts)
    ensures catalog.Some? && catalog.value != [] ==> RelevantProducts(catalog, question) != []
  {
  }

  /** The rows returned appear in the catalog in the same order, none twice
      unless the catalog has it twice. */
  lemma RelevantKeepsCatalogOrder(rows: seq<Row>, question: string)
    ensures IsSubsequence(RelevantProducts(Some(rows), question), rows)
  {
    var c := Candidates(rows, question);
    if c == rows {
      SubsequenceRefl(rows);
    } else {
      SelectIsSubsequence(rows, BranchCriterion(Lower(question)));
    }
    var r := RelevantProducts(Some(rows), question);
    assert r == c[..|r|];
    SubsequencePrefix(c, rows, |r|);
  }

  /** When the branch keeps no row, the answer is the first ten catalog rows. */
  lemma RelevantFallback(rows: seq<Row>, question: string)
    requires forall i :: 0 <= i < |rows| ==> !Selects(BranchCriterion(Lower(question)), rows[i])
    ensures RelevantProducts(Some(rows), question) == Take(rows, MaxProducts)
  {
    SelectEmptyIff(rows, BranchCriterion(Lower(question)));
  }

  /** A question about plants only, over a catalog with a plant: the first ten
      plants in catalog order, and only plants. */
  lemma RelevantPlantsOnly(rows: seq<Row>, question: string)
    requires IsAboutPlants(Lower(question)) && !IsAboutAroma(Lower(question))
    requires exists i :: 0 <= i < |rows| && rows[i].tipo == PlantKind
    ensures RelevantProducts(Some(rows), question) == Take(Select(rows, ByKinds({PlantKind})), MaxProducts)
    ensures forall x :: x in RelevantProducts(Some(rows), question) ==> x in rows && x.tipo == PlantKind
  {
    RelevantOfOneKind(rows, question, PlantKind);
  }

  /** A question about aromatherapy only, over a catalog with an aromatherapy
      product: the first ten of them in catalog order, and only those. */
  lemma RelevantAromaOnly(rows: seq<Row>, question: string)
    requires !IsAboutPlants(Lower(question)) && IsAboutAroma(Lower(question))
    requires exists i :: 0 <= i < |rows| && rows[i].tipo == AromaKind
    ensures RelevantProducts(Some(rows), question) == Take(Select(rows, ByKinds({AromaKind})), MaxProducts)
    ensures forall x :: x in RelevantProducts(Some(rows), question) ==> x in rows && x.tipo == AromaKind
  {
    RelevantOfOneKind(rows, question, AromaKind);
  }

  /** A branch that selects one category present in the catalog gives the
      first ten rows of that category, and only rows of it. */
  lemma RelevantOfOneKind(rows: seq<Row>, question: string, kind: string)
    requires BranchCriterion(Lower(question)) == ByKinds({kind})
    requires exists i :: 0 <= i < |rows| && rows[i].tipo == kind
    ensures RelevantProducts(Some(rows), question) == Take(Select(rows, ByKinds({kind})), MaxProducts)
    ensures forall x :: x in RelevantProducts(Some(rows), question) ==> x in rows && x.tipo == kind
  {
    CandidatesOfOneKind(rows, question, kind);
    RelevantOfCandidates(rows, question, Select(rows, ByKinds({kind})));
    FirstOfOneKind(rows, kind);
  }

  /** The answer is the first ten candidates. */
  lemma RelevantOfCandidates(rows: seq<Row>, question: string, kept: seq<Row>)
    requires Candidates(rows, question) == kept
    ensures RelevantProducts(Some(rows), question) == Take(kept, MaxProducts)
  {
  }

  /** The first ten rows of one category are rows of the catalog of that category. */
  lemma FirstOfOneKind(rows: seq<Row>, kind: string)
    requires exists i :: 0 <= i < |rows| && rows[i].tipo == kind
    ensures forall x :: x in Take(Select(rows, ByKinds({kind})), MaxProducts) ==> x in rows && x.tipo == kind
  {
    SelectOneKind(rows, kind);
    TakeWithin(Select(rows, ByKinds({kind})), MaxProducts);
  }

  /** A branch selecting one category present in the catalog keeps some rows,
      so there is no fallback. */
  lemma CandidatesOfOneKind(rows: seq<Row>, question: string, kind: string)
    requires BranchCriterion(Lower(question)) == ByKinds({kind})
    requires exists i :: 0 <= i < |rows| && rows[i].tipo == kind
    ensures Candidates(rows, question) == Select(rows, ByKinds({kind}))
  {
    SelectOneKind(rows, kind);
  }

  /** What a truncation keeps was there before it. */
  lemma TakeWithin<T>(s: seq<T>, n: nat)
    ensures forall x :: x in Take(s, n) ==> x in s
  {
    forall x | x in Take(s, n)
      ensures x in s
    {
      var i :| 0 <= i < |Take(s, n)| && Take(s, n)[i] == x;
      assert s[i] == x;
    }
  }

  /** Selecting one category from a catalog that has it keeps some rows, and
      only rows of that category. */
  lemma SelectOneKind(rows: seq<Row>, kind: string)
    requires exists i :: 0 <= i < |rows| && rows[i].tipo == kind
    ensures Select(rows, ByKinds({kind})) != []
    ensures forall x :: x in Select(rows, ByKinds({kind})) ==> x in rows && x.tipo == kind
  {
    var c := ByKinds({kind});
    var i :| 0 <= i < |rows| && rows[i].tipo == kind;
    SelectEmptyIff(rows, c);
    assert Selects(c, rows[i]);
    forall x | x in Select(rows, c)
      ensures x in rows && x.tipo == kind
    {
      SelectMembership(rows, c, x);
    }
  }

  /** A question about both: before truncation, exactly the catalog rows whose
      category is "planta" or "aromaterapia", in order; with only those two
      categories in the catalog, the first ten rows of it. */
  lemma RelevantBoth(rows: seq<Row>, question: string)
    requires IsAboutPlants(Lower(question)) && IsAboutAroma(Lower(question))
    ensures var kept := Select(rows, ByKinds(BothKinds));
            Candidates(rows, question) == if kept == [] then rows else kept
    ensures forall x :: x in Select(rows, ByKinds(BothKinds)) <==>
                        x in rows && x.tipo in BothKinds
    ensures (forall i :: 0 <= i < |rows| ==> rows[i].tipo in BothKinds) ==>
            RelevantProducts(Some(rows), question) == Take(rows, MaxProducts)
  {
    RelevantOfKinds(rows, question, BothKinds);
  }

  /** A branch that selects by a set of categories keeps exactly the rows of
      those categories, and the first ten catalog rows when the catalog has
      no other category. */
  lemma RelevantOfKinds(rows: seq<Row>, question: string, kinds: set<string>)
    requires BranchCriterion(Lower(question)) == ByKinds(kinds)
    ensures var kept := Select(rows, ByKinds(kinds));
            Candidates(rows, question) == if kept == [] then rows else kept
    ensures forall x :: x in Select(rows, ByKinds(kinds)) <==> x in rows && x.tipo in kinds
    ensures (forall i :: 0 <= i < |rows| ==> rows[i].tipo in kinds) ==>
            RelevantProducts(Some(rows), question) == Take(rows, MaxProducts)
  {
    SelectKinds(rows, kinds);
  }

  /** Selecting by a set of categories keeps exactly the rows of those
      categories, and a catalog of only those categories whole. */
  lemma SelectKinds(rows: seq<Row>, kinds: set<string>)
    ensures forall x :: x in Select(rows, ByKinds(kinds)) <==> x in rows && x.tipo in kinds
    ensures (forall i :: 0 <= i < |rows| ==> rows[i].tipo in kinds) ==>
            Select(rows, ByKinds(kinds)) == rows
  {
    var c := ByKinds(kinds);
    forall x
      ensures x in Select(rows, c) <==> x in rows && x.tipo in kinds
    {
      SelectMembership(rows, c, x);
    }
    if forall i :: 0 <= i < |rows| ==> rows[i].tipo in kinds {
      SelectEverything(rows, c);
    }
  }

  /** A question about neither: a row is kept exactly when one of the words of
      the lower-cased question occurs in its lower-cased
      `nombre atributo_1 descripcion`. */
  lemma RelevantNeither(rows: seq<Row>, question: string)
    requires !IsAboutPlants(Lower(question)) && !IsAboutAroma(Lower(question))
    ensures var kept := Select(rows, ByWords(Words(Lower(question))));
            Candidates(rows, question) == if kept == [] then rows else kept
    ensures forall x :: x in Select(rows, ByWords(Words(Lower(question)))) <==>
                        x in rows &&
                        exists k :: 0 <= k < |Words(Lower(question))| &&
                                    Contains(CombinedText(x), Words(Lower(question))[k])
  {
    SelectByWords(rows, Words(Lower(question)));
  }

  lemma SelectByWords(rows: seq<Row>, words: seq<string>)
    ensures forall x :: x in Select(rows, ByWords(words)) <==>
                        x in rows && exists k :: 0 <= k < |words| && Contains(CombinedText(x), words[k])
  {
    var c := ByWords(words);
    forall x
      ensures x in Select(rows, c) <==>
              x in rows && exists k :: 0 <= k < |words| && Contains(CombinedText(x), words[k])
    {
      SelectMembership(rows, c, x);
      MentionsAnyIff(CombinedText(x), words);
    }
  }

  /** No keyword starts with whitespace. */
  lemma KeywordsStartWithLetters()
    ensures forall k :: 0 <= k < |PlantKeywords| ==> PlantKeywords[k] != [] && !IsSpace(PlantKeywords[k][0])
    ensures forall k :: 0 <= k < |AromaKeywords| ==> AromaKeywords[k] != [] && !IsSpace(AromaKeywords[k][0])
  {
  }

  /** An empty or all-whitespace question matches no keyword and no row, so
      the answer is the first ten catalog rows. */
  lemma RelevantBlankQuestion(rows: seq<Row>, question: string)
    requires AllSpace(question)
    ensures RelevantProducts(Some(rows), question) == Take(rows, MaxProducts)
  {
    var q := Lower(question);
    LowerKeepsSpaces(question);
    assert AllSpace(q);
    KeywordsStartWithLetters();
    forall k | 0 <= k < |PlantKeywords|
      ensures !Contains(q, PlantKeywords[k])
    {
      SpacesContainNoWord(q, PlantKeywords[k]);
    }
    forall k | 0 <= k < |AromaKeywords|
      ensures !Contains(q, AromaKeywords[k])
    {
      SpacesContainNoWord(q, AromaKeywords[k]);
    }
    MentionsAnyIff(q, PlantKeywords);
    MentionsAnyIff(q, AromaKeywords);
    WordsEmptyIff(q);
    assert BranchCriterion(q) == ByWords([]);
    SelectEmptyIff(rows, ByWords([]));
  }

  /** A question naming plants ("¿tienen plantas de interior?") over a catalog
      holding one plant returns that plant. */
  lemma RelevantSinglePlant(plant: Row)
    requires plant.tipo == PlantKind
    ensures RelevantProducts(Some([plant]), "¿tienen plantas de interior?") == [plant]
  {
    var question := "¿tienen plantas de interior?";
    var q := Lower(question);
    assert question[8..14] == "planta";
    assert forall j :: 8 <= j < 14 ==> q[j] == LowerChar(question[j]) == question[j];
    assert q[8..14] == "planta";
    assert OccursAt(q, PlantKeywords[0], 8);
    assert IsAboutPlants(q);
    var c := BranchCriterion(q);
    assert c.ByKinds? && PlantKind in c.kinds;
    assert Select([plant], c) == [plant];
  }
}
