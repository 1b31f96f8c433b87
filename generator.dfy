/**
 * The generator (Engine/generator.py): derives a word from a (root, pattern) pair over the
 * root tree and the pattern table, reporting the first missing piece, and stores every word
 * it derives under its root when asked to.
 */
module Generator {
  import opened Wrappers
  import opened Text
  import opened Normalization
  import opened HashTable
  import opened RootTree
  import LinkedList

  const RootNotFound := "ROOT_NOT_FOUND"
  const PatternNotFound := "PATTERN_NOT_FOUND"
  const DerivationFailed := "DERIVATION_FAILED"

  /** `GenerationResult`: the five keys of the dictionary the generator returns. */
  datatype GenerationResult = GenerationResult(
    ok: bool, root: string, pattern: Option<string>, word: Option<string>, error: Option<string>)

  /** A failed generation: no word, and the error code. */
  function Failure(rawRoot: string, pattern: Option<string>, error: string): GenerationResult
  {
    GenerationResult(false, rawRoot, pattern, None, Some(error))
  }

  /** `search(raw_root) is not None`: a valid dashed root whose compact form is stored. */
  predicate Found(derived: map<string, seq<string>>, rawRoot: string)
  {
    ValidDashedRoot(rawRoot) && ToCompactRoot(rawRoot) in derived
  }

  /**
   * What `generate_one` returns over a tree holding `derived` and a table holding `rules`:
   * ROOT_NOT_FOUND before the table is consulted, then what the table gives.
   */
  function Generated(derived: map<string, seq<string>>, rules: map<string, string>,
                     rawRoot: string, rawPattern: string): GenerationResult
  {
    if !Found(derived, rawRoot) then Failure(rawRoot, Some(rawPattern), RootNotFound)
    else FromTable(rules, rawRoot, rawPattern)
  }

  /** The table's part: PATTERN_NOT_FOUND before DERIVATION_FAILED, or the derived word. */
  function FromTable(rules: map<string, string>, rawRoot: string, rawPattern: string): GenerationResult
  {
    if !Has(rules, Str(rawPattern)) then Failure(rawRoot, Some(rawPattern), PatternNotFound)
    else
      match DerivedWord(rules, rawRoot, Str(rawPattern))
      case None => Failure(rawRoot, Some(rawPattern), DerivationFailed)
      case Some(w) => GenerationResult(true, rawRoot, Some(rawPattern), Some(w), None)
  }

  /** The tree's store after `generate_one` with `store=True`: a derived word joins its root's list. */
  function Stored(derived: map<string, seq<string>>, rules: map<string, string>,
                  rawRoot: string, rawPattern: string): map<string, seq<string>>
  {
    match Generated(derived, rules, rawRoot, rawPattern).word
    case None => derived
    case Some(w) =>
      var c := ToCompactRoot(rawRoot);
      derived[c := LinkedList.AddWord(WordsOf(derived, c), w)]
  }

  /** What `generate_family` returns: one result per pattern, or a lone ROOT_NOT_FOUND. */
  function Family(derived: map<string, seq<string>>, rules: map<string, string>,
                  rawRoot: string, ps: seq<string>): seq<GenerationResult>
  {
    if !Found(derived, rawRoot) then [Failure(rawRoot, None, RootNotFound)]
    else Results(derived, rules, rawRoot, ps)
  }

  /** The result of each of `ps`, in order. */
  function Results(derived: map<string, seq<string>>, rules: map<string, string>,
                   rawRoot: string, ps: seq<string>): (rs: seq<GenerationResult>)
    ensures |rs| == |ps|
    decreases |ps|
  {
    if ps == [] then []
    else Results(derived, rules, rawRoot, ps[..|ps| - 1]) + [Generated(derived, rules, rawRoot, ps[|ps| - 1])]
  }

  /** The store after `generate_one` with `store=True` for each of `ps` in turn. */
  function StoreAll(derived: map<string, seq<string>>, rules: map<string, string>,
                    rawRoot: string, ps: seq<string>): map<string, seq<string>>
    decreases |ps|
  {
    if ps == [] then derived
    else Stored(StoreAll(derived, rules, rawRoot, ps[..|ps| - 1]), rules, rawRoot, ps[|ps| - 1])
  }

  /** The words the patterns `ps` derive from the root, in order, failures skipped. */
  function OkWords(derived: map<string, seq<string>>, rules: map<string, string>,
                   rawRoot: string, ps: seq<string>): seq<string>
    decreases |ps|
  {
    if ps == [] then []
    else
      var g := Generated(derived, rules, rawRoot, ps[|ps| - 1]);
      OkWords(derived, rules, rawRoot, ps[..|ps| - 1]) + if g.word.Some? then [g.word.value] else []
  }

  // ----- What one generation returns -----

  /**
   * The decision `generate_one` makes: ROOT_NOT_FOUND exactly when the tree lacks the root,
   * PATTERN_NOT_FOUND exactly when the root is there but the table lacks the pattern,
   * DERIVATION_FAILED exactly when both are there but the root fails the derivation's own
   * dashed-root check, and success otherwise; a word is present exactly on success.
   */
  lemma GeneratedOutcome(derived: map<string, seq<string>>, rules: map<string, string>,
                         rawRoot: string, rawPattern: string)
    ensures var g := Generated(derived, rules, rawRoot, rawPattern);
      && g.root == rawRoot && g.pattern == Some(rawPattern)
      && (g.ok <==> g.word.Some?) && (g.ok <==> g.error.None?)
      && (g.error == Some(RootNotFound) <==> !Found(derived, rawRoot))
      && (g.error == Some(PatternNotFound) <==> Found(derived, rawRoot) && !Has(rules, Str(rawPattern)))
      && (g.error == Some(DerivationFailed) <==>
            Found(derived, rawRoot) && Has(rules, Str(rawPattern)) && !ValidateDashedRoot(Str(rawRoot)))
      && (g.ok <==> Found(derived, rawRoot) && Has(rules, Str(rawPattern)) && ValidateDashedRoot(Str(rawRoot)))
  {
    if Found(derived, rawRoot) && Has(rules, Str(rawPattern)) {
      assert RuleOf(rules, Str(rawPattern)).Some?;
    }
  }

  /**
   * A generated word is the pattern's stored rule, same length, with its fa, ain and lam
   * replaced by the first, second and third letter of the normalised root.
   */
  lemma GeneratedWord(derived: map<string, seq<string>>, rules: map<string, string>,
                      rawRoot: string, rawPattern: string)
    requires Generated(derived, rules, rawRoot, rawPattern).ok
    ensures Has(rules, Str(rawPattern))
    ensures var w := Generated(derived, rules, rawRoot, rawPattern).word;
      var rule := rules[ValidPattern(Str(rawPattern)).value];
      var n := NormalizeCommon(rawRoot);
      && w.Some? && |n| == 5 && |w.value| == |rule|
      && forall i | 0 <= i < |rule| :: w.value[i] == Slot(rule[i], n[0], n[2], n[4])
  {
    GeneratedOutcome(derived, rules, rawRoot, rawPattern);
  }

  // ----- What storing does -----

  /** Generation looks only at which roots are stored, never at their words. */
  lemma GeneratedOnKeys(d1: map<string, seq<string>>, d2: map<string, seq<string>>,
                        rules: map<string, string>, rawRoot: string, rawPattern: string)
    requires d1.Keys == d2.Keys
    ensures Generated(d1, rules, rawRoot, rawPattern) == Generated(d2, rules, rawRoot, rawPattern)
  {
    assert Found(d1, rawRoot) == Found(d2, rawRoot);
  }

  /**
   * Storing a word adds no root and changes no other root's list, so no later generation, of
   * any root and pattern, returns anything different.
   */
  lemma StoredKeepsRoots(derived: map<string, seq<string>>, rules: map<string, string>,
                         rawRoot: string, rawPattern: string)
    ensures Stored(derived, rules, rawRoot, rawPattern).Keys == derived.Keys
    ensures forall k | k in derived && k != ToCompactRoot(rawRoot) ::
      Stored(derived, rules, rawRoot, rawPattern)[k] == derived[k]
    ensures forall r, p :: Generated(Stored(derived, rules, rawRoot, rawPattern), rules, r, p) == Generated(derived, rules, r, p)
  {
    var s := Stored(derived, rules, rawRoot, rawPattern);
    GeneratedOutcome(derived, rules, rawRoot, rawPattern);
    assert s.Keys == derived.Keys;
    forall r, p ensures Generated(s, rules, r, p) == Generated(derived, rules, r, p) {
      GeneratedOnKeys(s, derived, rules, r, p);
    }
  }

  /** Generating the same word twice with `store=True` stores it once. */
  lemma StoredIdempotent(derived: map<string, seq<string>>, rules: map<string, string>,
                         rawRoot: string, rawPattern: string)
    ensures var once := Stored(derived, rules, rawRoot, rawPattern);
      Stored(once, rules, rawRoot, rawPattern) == once
  {
    var once := Stored(derived, rules, rawRoot, rawPattern);
    StoredKeepsRoots(derived, rules, rawRoot, rawPattern);
    GeneratedOnKeys(once, derived, rules, rawRoot, rawPattern);
  }

  /** With no such root, no generation stores anything. */
  lemma {:induction false} StoreAllMissing(derived: map<string, seq<string>>, rules: map<string, string>,
                                           rawRoot: string, ps: seq<string>)
    requires !Found(derived, rawRoot)
    ensures StoreAll(derived, rules, rawRoot, ps) == derived
    decreases |ps|
  {
    if ps != [] {
      StoreAllMissing(derived, rules, rawRoot, ps[..|ps| - 1]);
    }
  }

  /** A run of generations with `store=True` adds no root and changes no other root's list. */
  lemma {:induction false} StoreAllKeepsRoots(derived: map<string, seq<string>>, rules: map<string, string>,
                                              rawRoot: string, ps: seq<string>)
    ensures StoreAll(derived, rules, rawRoot, ps).Keys == derived.Keys
    ensures forall k | k in derived && k != ToCompactRoot(rawRoot) :: StoreAll(derived, rules, rawRoot, ps)[k] == derived[k]
    decreases |ps|
  {
    if ps != [] {
      StoreAllKeepsRoots(derived, rules, rawRoot, ps[..|ps| - 1]);
      StoredKeepsRoots(StoreAll(derived, rules, rawRoot, ps[..|ps| - 1]), rules, rawRoot, ps[|ps| - 1]);
    }
  }

  /**
   * A run of generations with `store=True` leaves the root's list as if each successfully
   * derived word had been added to it in turn.
   */
  lemma {:induction false} StoreAllWords(derived: map<string, seq<string>>, rules: map<string, string>,
                                         rawRoot: string, ps: seq<string>)
    requires Found(derived, rawRoot)
    ensures var c := ToCompactRoot(rawRoot);
      c in StoreAll(derived, rules, rawRoot, ps) &&
      StoreAll(derived, rules, rawRoot, ps)[c] == LinkedList.AddAll(derived[c], OkWords(derived, rules, rawRoot, ps))
    decreases |ps|
  {
    var c := ToCompactRoot(rawRoot);
    StoreAllKeepsRoots(derived, rules, rawRoot, ps);
    if ps != [] {
      var init, last := ps[..|ps| - 1], ps[|ps| - 1];
      var s := StoreAll(derived, rules, rawRoot, init);
      StoreAllWords(derived, rules, rawRoot, init);
      StoreAllKeepsRoots(derived, rules, rawRoot, init);
      GeneratedOnKeys(s, derived, rules, rawRoot, last);
      var g := Generated(derived, rules, rawRoot, last);
      assert StoreAll(derived, rules, rawRoot, ps) == Stored(s, rules, rawRoot, last);
      if g.word.Some? {
        assert OkWords(derived, rules, rawRoot, ps) == OkWords(derived, rules, rawRoot, init) + [g.word.value];
        LinkedList.AddAllSnoc(derived[c], OkWords(derived, rules, rawRoot, init), g.word.value);
      } else {
        assert Stored(s, rules, rawRoot, last) == s;
        assert OkWords(derived, rules, rawRoot, ps) == OkWords(derived, rules, rawRoot, init) + [];
        assert OkWords(derived, rules, rawRoot, init) + [] == OkWords(derived, rules, rawRoot, init);
      }
    }
  }

  /** A word is among `OkWords` exactly when one of the patterns derives it. */
  lemma {:induction false} OkWordsMembers(derived: map<string, seq<string>>, rules: map<string, string>,
                                          rawRoot: string, ps: seq<string>)
    ensures forall x :: x in OkWords(derived, rules, rawRoot, ps) <==>
      exists p | p in ps :: Generated(derived, rules, rawRoot, p).word == Some(x)
    decreases |ps|
  {
    if ps != [] {
      var init := ps[..|ps| - 1];
      OkWordsMembers(derived, rules, rawRoot, init);
      assert forall p :: p in ps <==> p in init || p == ps[|ps| - 1] by {
        assert ps == init + [ps[|ps| - 1]];
      }
    }
  }

  /**
   * After a run of generations with `store=True`, the root's list holds, once each, exactly its
   * old words and every word one of the patterns derived.
   */
  lemma StoreAllHolds(derived: map<string, seq<string>>, rules: map<string, string>,
                      rawRoot: string, ps: seq<string>)
    requires Found(derived, rawRoot) && NoDup(derived[ToCompactRoot(rawRoot)])
    ensures ToCompactRoot(rawRoot) in StoreAll(derived, rules, rawRoot, ps)
    ensures var ws := StoreAll(derived, rules, rawRoot, ps)[ToCompactRoot(rawRoot)];
      && NoDup(ws)
      && forall x :: x in ws <==>
           x in derived[ToCompactRoot(rawRoot)] || exists p | p in ps :: Generated(derived, rules, rawRoot, p).word == Some(x)
  {
    var c := ToCompactRoot(rawRoot);
    StoreAllWords(derived, rules, rawRoot, ps);
    LinkedList.AddAllCounts(derived[c], OkWords(derived, rules, rawRoot, ps));
    OkWordsMembers(derived, rules, rawRoot, ps);
  }

  // ----- The family -----

  /** The family of a stored root holds, at each position, the result of the pattern there. */
  lemma {:induction false} ResultsAt(derived: map<string, seq<string>>, rules: map<string, string>,
                                     rawRoot: string, ps: seq<string>)
    ensures forall j | 0 <= j < |ps| :: Results(derived, rules, rawRoot, ps)[j] == Generated(derived, rules, rawRoot, ps[j])
    decreases |ps|
  {
    if ps != [] {
      var init := ps[..|ps| - 1];
      var r := Results(derived, rules, rawRoot, init);
      ResultsAt(derived, rules, rawRoot, init);
      assert Results(derived, rules, rawRoot, ps) == r + [Generated(derived, rules, rawRoot, ps[|ps| - 1])];
      forall j | 0 <= j < |init| ensures r[j] == Generated(derived, rules, rawRoot, ps[j]) {
        assert init[j] == ps[j];
      }
    }
  }

  /** One more pattern in a run: its result goes last, and its word is stored last. */
  lemma RunStep(derived: map<string, seq<string>>, rules: map<string, string>,
                rawRoot: string, ps: seq<string>, i: nat)
    requires i < |ps|
    ensures Results(derived, rules, rawRoot, ps[..i + 1]) ==
      Results(derived, rules, rawRoot, ps[..i]) + [Generated(derived, rules, rawRoot, ps[i])]
    ensures StoreAll(derived, rules, rawRoot, ps[..i + 1]) ==
      Stored(StoreAll(derived, rules, rawRoot, ps[..i]), rules, rawRoot, ps[i])
  {
    assert ps[..i + 1][..i] == ps[..i];
  }

  /**
   * Over a table whose keys are in normal form and a stored root, every pattern of the table
   * is found, and the family is all or nothing: every pattern derives a word when the root
   * passes the derivation's dashed-root check, and every one reports DERIVATION_FAILED when not.
   */
  lemma FamilyOverTable(derived: map<string, seq<string>>, rules: map<string, string>,
                        rawRoot: string, ps: seq<string>)
    requires WellFormedRules(rules) && Found(derived, rawRoot)
    requires forall p | p in ps :: p in rules
    ensures var f := Family(derived, rules, rawRoot, ps);
      && |f| == |ps|
      && forall i | 0 <= i < |ps| ::
           && f[i].pattern == Some(ps[i])
           && (f[i].ok <==> ValidateDashedRoot(Str(rawRoot)))
           && (!f[i].ok ==> f[i].error == Some(DerivationFailed))
  {
    forall i | 0 <= i < |ps|
      ensures Has(rules, Str(ps[i]))
    {
      assert WellFormedEntry(ps[i], rules[ps[i]]);
    }
    forall i | 0 <= i < |ps|
      ensures var g := Generated(derived, rules, rawRoot, ps[i]);
        g.pattern == Some(ps[i]) && (g.ok <==> ValidateDashedRoot(Str(rawRoot)))
        && (!g.ok ==> g.error == Some(DerivationFailed))
    {
      GeneratedOutcome(derived, rules, rawRoot, ps[i]);
    }
    ResultsAt(derived, rules, rawRoot, ps);
  }

  /** The tree and the table share no object. */
  ghost predicate Apart(roots: RootBST, patterns: PatternHashTable)
    reads roots, patterns
  {
    roots !in patterns.Repr && roots.Repr !! patterns.Repr && patterns.buckets !in roots.Repr
  }

  /**
   * `MorphologicalGenerator`: the root tree and the pattern table it derives over. The two
   * stores are separate objects, and the generator never changes the table.
   */
  class MorphologicalGenerator {
    const roots: RootBST
    const patterns: PatternHashTable

    ghost predicate Valid()
      reads roots, roots.Repr, patterns, patterns.buckets, patterns.Repr
    {
      roots.Valid() && patterns.Valid() && Apart(roots, patterns)
    }

    /** `__init__`. */
    constructor (rootTree: RootBST, patternTable: PatternHashTable)
      requires rootTree.Valid() && patternTable.Valid()
      requires Apart(rootTree, patternTable)
      ensures Valid() && roots == rootTree && patterns == patternTable
    {
      roots := rootTree;
      patterns := patternTable;
    }

    /**
     * `generate_one`: the result the stores determine; with `store` set a derived word is
     * added to its root's list, without it the tree is unchanged.
     */
    method GenerateOne(rawRoot: string, rawPattern: string, store: bool) returns (r: GenerationResult)
      requires Valid()
      modifies roots, roots.Repr
      ensures Valid() && fresh(roots.Repr - old(roots.Repr)) && unchanged(patterns)
      ensures r == Generated(old(roots.derived), patterns.rules, rawRoot, rawPattern)
      ensures roots.derived ==
        if store then Stored(old(roots.derived), patterns.rules, rawRoot, rawPattern) else old(roots.derived)
    {
      r := Check(rawRoot, rawPattern);
      if store && r.word.Some? {
        Store(rawRoot, rawPattern, r.word.value);
      }
    }

    /** The three checks of `generate_one`, in its order, and the derivation. */
    method Check(rawRoot: string, rawPattern: string) returns (r: GenerationResult)
      requires roots.Valid() && patterns.Valid()
      ensures r == Generated(roots.derived, patterns.rules, rawRoot, rawPattern)
    {
      var node := roots.Search(rawRoot);
      if node.None? {
        return Failure(rawRoot, Some(rawPattern), RootNotFound);
      }
      r := CheckTable(rawRoot, rawPattern);
    }

    /** The two checks `generate_one` makes on the table once the root is found. */
    method CheckTable(rawRoot: string, rawPattern: string) returns (r: GenerationResult)
      requires patterns.Valid()
      ensures r == FromTable(patterns.rules, rawRoot, rawPattern)
    {
      var has := patterns.Contains(Str(rawPattern));
      if !has {
        return Failure(rawRoot, Some(rawPattern), PatternNotFound);
      }
      var derived := patterns.Derive(rawRoot, Str(rawPattern));
      if derived.None? {
        return Failure(rawRoot, Some(rawPattern), DerivationFailed);
      }
      return GenerationResult(true, rawRoot, Some(rawPattern), Some(derived.value), None);
    }

    /** The `store` step: `add_derived_word` of the word just derived, which leaves the table as it was. */
    method Store(rawRoot: string, ghost rawPattern: string, word: string)
      requires Valid() && Generated(roots.derived, patterns.rules, rawRoot, rawPattern).word == Some(word)
      modifies roots, roots.Repr
      ensures Valid() && fresh(roots.Repr - old(roots.Repr)) && unchanged(patterns)
      ensures roots.derived == Stored(old(roots.derived), patterns.rules, rawRoot, rawPattern)
    {
      var _ := roots.AddDerivedWord(rawRoot, word);
    }

    /**
     * `generate_family`: one result per stored pattern, in the table's iteration order, each
     * generated with `store=True`; a lone ROOT_NOT_FOUND, and no change, for a missing root.
     */
    method GenerateFamily(rawRoot: string) returns (results: seq<GenerationResult>)
      requires Valid()
      modifies roots, roots.Repr
      ensures Valid() && fresh(roots.Repr - old(roots.Repr))
      ensures var ps := PatternsOf(Flatten(patterns.contents));
        && results == Family(old(roots.derived), patterns.rules, rawRoot, ps)
        && roots.derived == StoreAll(old(roots.derived), patterns.rules, rawRoot, ps)
    {
      var node := roots.Search(rawRoot);
      if node.None? {
        StoreAllMissing(roots.derived, patterns.rules, rawRoot, PatternsOf(Flatten(patterns.contents)));
        return [Failure(rawRoot, None, RootNotFound)];
      }
      var ps := IterPatterns(patterns);
      results := GenerateEach(rawRoot, ps);
    }

    /** The loop of `generate_family`: `generate_one` with `store=True` for each pattern in turn. */
    method GenerateEach(rawRoot: string, ps: seq<string>) returns (results: seq<GenerationResult>)
      requires Valid()
      modifies roots, roots.Repr
      ensures Valid() && fresh(roots.Repr - old(roots.Repr))
      ensures results == Results(old(roots.derived), patterns.rules, rawRoot, ps)
      ensures roots.derived == StoreAll(old(roots.derived), patterns.rules, rawRoot, ps)
    {
      ghost var d0 := roots.derived;
      results := [];
      for i := 0 to |ps|
        invariant Valid() && fresh(roots.Repr - old(roots.Repr))
        invariant roots.derived == StoreAll(d0, patterns.rules, rawRoot, ps[..i])
        invariant results == Results(d0, patterns.rules, rawRoot, ps[..i])
      {
        StoreAllKeepsRoots(d0, patterns.rules, rawRoot, ps[..i]);
        GeneratedOnKeys(roots.derived, d0, patterns.rules, rawRoot, ps[i]);
        RunStep(d0, patterns.rules, rawRoot, ps, i);
        var g := GenerateOne(rawRoot, ps[i], true);
        results := results + [g];
      }
      assert ps[..|ps|] == ps;
    }
  }

  /**
   * `generate_family` over the generator's own stores, for a stored root: one result per
   * pattern of the table, in its iteration order, all derived or all DERIVATION_FAILED.
   */
  lemma FamilyOverStores(generator: MorphologicalGenerator, rawRoot: string)
    requires generator.Valid() && Found(generator.roots.derived, rawRoot)
    ensures var ps := PatternsOf(Flatten(generator.patterns.contents));
      var f := Family(generator.roots.derived, generator.patterns.rules, rawRoot, ps);
      && |f| == |ps| == |generator.patterns.rules|
      && forall i | 0 <= i < |ps| ::
           && f[i].pattern == Some(ps[i])
           && (f[i].ok <==> ValidateDashedRoot(Str(rawRoot)))
           && (!f[i].ok ==> f[i].error == Some(DerivationFailed))
  {
    var table := generator.patterns;
    FlattenIsKeys(table.contents, table.rules);
    FamilyOverTable(generator.roots.derived, table.rules, rawRoot, PatternsOf(Flatten(table.contents)));
  }

  /** `_iter_patterns`: the table's patterns, bucket by bucket, each chain newest first, each once. */
  method IterPatterns(table: PatternHashTable) returns (ps: seq<string>)
    requires table.Valid()
    ensures ps == PatternsOf(Flatten(table.contents))
    ensures NoDup(ps) && forall p :: p in ps <==> p in table.rules
  {
    ps := table.IterPatterns();
  }
}
