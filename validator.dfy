/**
 * The validator (Engine/validator.py): decides whether a word belongs to a root by asking the
 * generator for the root's word under each stored pattern, in the table's order, until one
 * normalises to the same text as the word.
 */
module Validator {
  import opened Wrappers
  import opened Text
  import opened Normalization
  import opened HashTable
  import opened RootTree
  import opened Generator

  const Yes := "OUI"
  const No := "NON"

  /** The dictionary `validate` returns: the verdict and the pattern that matched. */
  datatype Verdict = Verdict(result: string, pattern: Option<string>)

  /** A probe matches when it succeeded and its word normalises to the target. */
  predicate Matches(g: GenerationResult, target: string)
  {
    g.ok && g.word.Some? && NormalizeCommon(g.word.value) == target
  }

  /** The position of the first matching result, if any. */
  function FirstMatch(rs: seq<GenerationResult>, target: string): (r: Option<nat>)
    ensures r.Some? ==> r.value < |rs|
  {
    if rs == [] then None
    else if Matches(rs[0], target) then Some(0)
    else
      match FirstMatch(rs[1..], target)
      case None => None
      case Some(i) => Some(i + 1)
  }

  /** How many patterns `validate` probes: up to and including the first match, or all of them. */
  function Probes(rs: seq<GenerationResult>, target: string): nat
  {
    match FirstMatch(rs, target)
    case None => |rs|
    case Some(i) => i + 1
  }

  /** The verdict of a scan of `ps` whose probes gave `rs`: OUI and the first matching pattern, or NON. */
  function Answer(rs: seq<GenerationResult>, ps: seq<string>, target: string): Verdict
    requires |rs| == |ps|
  {
    match FirstMatch(rs, target)
    case None => Verdict(No, None)
    case Some(i) => Verdict(Yes, Some(ps[i]))
  }

  /** What `validate` returns: NON for a missing root, otherwise the verdict of the scan. */
  function Validation(derived: map<string, seq<string>>, rules: map<string, string>,
                      rawRoot: string, rawWord: string, ps: seq<string>): Verdict
  {
    if !Found(derived, rawRoot) then Verdict(No, None)
    else Answer(Results(derived, rules, rawRoot, ps), ps, NormalizeCommon(rawWord))
  }

  /** The tree's store after `validate`: every probe was a `generate_one` with `store=True`. */
  function Probed(derived: map<string, seq<string>>, rules: map<string, string>,
                  rawRoot: string, rawWord: string, ps: seq<string>): map<string, seq<string>>
  {
    if !Found(derived, rawRoot) then derived
    else
      var n := Probes(Results(derived, rules, rawRoot, ps), NormalizeCommon(rawWord));
      StoreAll(derived, rules, rawRoot, ps[..n])
  }

  // ----- The first-match search -----

  /**
   * `FirstMatch` finds the first matching position: the result there matches and none before
   * it does; and it finds nothing exactly when no result matches.
   */
  lemma {:induction false} FirstMatchSpec(rs: seq<GenerationResult>, target: string)
    ensures var r := FirstMatch(rs, target);
      r.Some? ==> Matches(rs[r.value], target) && forall j | 0 <= j < r.value :: !Matches(rs[j], target)
    ensures FirstMatch(rs, target).None? <==> forall j | 0 <= j < |rs| :: !Matches(rs[j], target)
  {
    if rs != [] && !Matches(rs[0], target) {
      var rest := rs[1..];
      FirstMatchSpec(rest, target);
      assert forall j | 0 <= j < |rest| :: rest[j] == rs[j + 1];
      if FirstMatch(rs, target).None? {
        forall j | 0 <= j < |rs| ensures !Matches(rs[j], target) {
          if j > 0 {
            assert rs[j] == rest[j - 1];
          }
        }
      }
    }
  }

  /** The first matching position is the one where a result matches after none did. */
  lemma FirstMatchAt(rs: seq<GenerationResult>, target: string, i: nat)
    requires i < |rs| && Matches(rs[i], target)
    requires forall j | 0 <= j < i :: !Matches(rs[j], target)
    ensures FirstMatch(rs, target) == Some(i)
  {
    FirstMatchSpec(rs, target);
  }

  // ----- What validation returns -----

  /**
   * OUI names a pattern of `ps` whose probe, over a stored root, derived a word normalising to
   * the normalised input, and no earlier pattern's probe did.
   */
  lemma ValidationSound(derived: map<string, seq<string>>, rules: map<string, string>,
                        rawRoot: string, rawWord: string, ps: seq<string>)
    ensures var v := Validation(derived, rules, rawRoot, rawWord, ps);
      v.result == Yes ==>
        && Found(derived, rawRoot) && v.pattern.Some?
        && exists i | 0 <= i < |ps| ::
             && ps[i] == v.pattern.value
             && Matches(Generated(derived, rules, rawRoot, ps[i]), NormalizeCommon(rawWord))
             && forall j | 0 <= j < i :: !Matches(Generated(derived, rules, rawRoot, ps[j]), NormalizeCommon(rawWord))
  {
    var rs := Results(derived, rules, rawRoot, ps);
    FirstMatchSpec(rs, NormalizeCommon(rawWord));
    ResultsAt(derived, rules, rawRoot, ps);
  }

  /** NON, with no pattern, exactly when the root is missing or no pattern's probe matches. */
  lemma ValidationComplete(derived: map<string, seq<string>>, rules: map<string, string>,
                           rawRoot: string, rawWord: string, ps: seq<string>)
    ensures var v := Validation(derived, rules, rawRoot, rawWord, ps);
      && (v.result == Yes || v.result == No)
      && (v.result == No <==> v.pattern.None?)
      && (v.result == No <==>
            !Found(derived, rawRoot) ||
            forall p | p in ps :: !Matches(Generated(derived, rules, rawRoot, p), NormalizeCommon(rawWord)))
  {
    var rs := Results(derived, rules, rawRoot, ps);
    FirstMatchSpec(rs, NormalizeCommon(rawWord));
    ResultsAt(derived, rules, rawRoot, ps);
    if Found(derived, rawRoot) && FirstMatch(rs, NormalizeCommon(rawWord)).None? {
      forall p | p in ps ensures !Matches(Generated(derived, rules, rawRoot, p), NormalizeCommon(rawWord)) {
        var j :| 0 <= j < |ps| && ps[j] == p;
      }
    }
  }

  /** Validation says OUI exactly when some result of the root's family derives the word. */
  lemma ValidationAgreesWithFamily(derived: map<string, seq<string>>, rules: map<string, string>,
                                   rawRoot: string, rawWord: string, ps: seq<string>)
    ensures Validation(derived, rules, rawRoot, rawWord, ps).result == Yes <==>
      exists g | g in Family(derived, rules, rawRoot, ps) :: Matches(g, NormalizeCommon(rawWord))
  {
    var target := NormalizeCommon(rawWord);
    var f := Family(derived, rules, rawRoot, ps);
    if Found(derived, rawRoot) {
      FirstMatchSpec(f, target);
      if FirstMatch(f, target).Some? {
        assert f[FirstMatch(f, target).value] in f;
      } else {
        forall g | g in f ensures !Matches(g, target) {
          var i :| 0 <= i < |f| && f[i] == g;
        }
      }
    } else {
      assert f == [Failure(rawRoot, None, RootNotFound)];
    }
  }

  /**
   * Every word the generator derives for a stored root from a pattern of a table in normal
   * form validates, whatever its diacritics, against a scan of that table's patterns.
   */
  lemma ValidationOfGenerated(derived: map<string, seq<string>>, rules: map<string, string>,
                              rawRoot: string, rawPattern: string, rawWord: string, ps: seq<string>)
    requires WellFormedRules(rules) && forall p :: p in ps <==> p in rules
    requires Generated(derived, rules, rawRoot, rawPattern).ok
    requires NormalizeCommon(rawWord) == NormalizeCommon(Generated(derived, rules, rawRoot, rawPattern).word.value)
    ensures Validation(derived, rules, rawRoot, rawWord, ps).result == Yes
  {
    var g := Generated(derived, rules, rawRoot, rawPattern);
    GeneratedOutcome(derived, rules, rawRoot, rawPattern);
    var n := ValidPattern(Str(rawPattern)).value;
    assert WellFormedEntry(n, rules[n]);
    ValidPatternStable(Str(rawPattern));
    assert Generated(derived, rules, rawRoot, n).word == g.word;
    assert n in ps;
    ValidationComplete(derived, rules, rawRoot, rawWord, ps);
  }

  /** A diacritic or blank in the word, shadda included, never changes the verdict or what is stored. */
  lemma ValidationIgnores(derived: map<string, seq<string>>, rules: map<string, string>,
                          rawRoot: string, x: string, d: char, y: string, ps: seq<string>)
    requires d in Diacritics || d in Blanks
    ensures Validation(derived, rules, rawRoot, x + [d] + y, ps) == Validation(derived, rules, rawRoot, x + y, ps)
    ensures Probed(derived, rules, rawRoot, x + [d] + y, ps) == Probed(derived, rules, rawRoot, x + y, ps)
  {
    NormalizeCommonIgnores(x, d, y);
  }

  /** The word kattaab (with shadda) and the input kitaab-style kataab compare equal once normalised. */
  lemma ShaddaIgnoredExample()
    ensures NormalizeCommon("\U{0643}\U{062A}\U{0651}\U{0627}\U{0628}") == "\U{0643}\U{062A}\U{0627}\U{0628}"
    ensures NormalizeCommon("\U{0643}\U{062A}\U{0627}\U{0628}") == "\U{0643}\U{062A}\U{0627}\U{0628}"
  {
    var plain := "\U{0643}\U{062A}\U{0627}\U{0628}";
    NormalizeCommonIgnores(plain[..2], Shadda, plain[2..]);
    assert plain[..2] + [Shadda] + plain[2..] == "\U{0643}\U{062A}\U{0651}\U{0627}\U{0628}";
    assert plain[..2] + plain[2..] == plain;
    KataabIsNormal();
  }

  /** The plain spelling كتاب is already in normal form. */
  lemma KataabIsNormal()
    ensures NormalizeCommon("\U{0643}\U{062A}\U{0627}\U{0628}") == "\U{0643}\U{062A}\U{0627}\U{0628}"
  {
    NormalFormsFix("\U{0643}\U{062A}\U{0627}\U{0628}");
  }

  /**
   * After validation of a stored root, the root's list holds, once each, exactly its old
   * words and the word of every successful probe up to and including the match; no root is
   * added and no other root's list changes.
   */
  lemma ValidationStores(derived: map<string, seq<string>>, rules: map<string, string>,
                         rawRoot: string, rawWord: string, ps: seq<string>)
    requires Found(derived, rawRoot) && NoDup(derived[ToCompactRoot(rawRoot)])
    ensures var s := Probed(derived, rules, rawRoot, rawWord, ps);
      var n := Probes(Results(derived, rules, rawRoot, ps), NormalizeCommon(rawWord));
      var c := ToCompactRoot(rawRoot);
      && n <= |ps| && s.Keys == derived.Keys
      && (forall k | k in derived && k != c :: s[k] == derived[k])
      && NoDup(s[c])
      && forall x :: x in s[c] <==>
           x in derived[c] || exists p | p in ps[..n] :: Generated(derived, rules, rawRoot, p).word == Some(x)
  {
    var n := Probes(Results(derived, rules, rawRoot, ps), NormalizeCommon(rawWord));
    StoreAllKeepsRoots(derived, rules, rawRoot, ps[..n]);
    StoreAllHolds(derived, rules, rawRoot, ps[..n]);
  }

  /** One more result after no match: it is the first match exactly when it matches. */
  lemma FirstMatchSnoc(rs: seq<GenerationResult>, g: GenerationResult, target: string)
    requires FirstMatch(rs, target).None?
    ensures FirstMatch(rs + [g], target) == if Matches(g, target) then Some(|rs|) else None
  {
    var rs' := rs + [g];
    FirstMatchSpec(rs, target);
    FirstMatchSpec(rs', target);
    assert forall j | 0 <= j < |rs| :: rs'[j] == rs[j];
    if Matches(g, target) {
      FirstMatchAt(rs', target, |rs|);
    }
  }

  /**
   * One step of the scan over a store that holds the earlier probes' words: the probe at `i`
   * sees what it would have seen first, is the first match exactly when it matches, and
   * stores its word last.
   */
  lemma ScanStep(d0: map<string, seq<string>>, rules: map<string, string>, rawRoot: string,
                 target: string, ps: seq<string>, i: nat, now: map<string, seq<string>>)
    requires i < |ps| && now == StoreAll(d0, rules, rawRoot, ps[..i])
    requires FirstMatch(Results(d0, rules, rawRoot, ps[..i]), target).None?
    ensures FirstMatch(Results(d0, rules, rawRoot, ps[..i + 1]), target) ==
      if Matches(Generated(now, rules, rawRoot, ps[i]), target) then Some(i) else None
    ensures StoreAll(d0, rules, rawRoot, ps[..i + 1]) == Stored(now, rules, rawRoot, ps[i])
  {
    StoreAllKeepsRoots(d0, rules, rawRoot, ps[..i]);
    GeneratedOnKeys(now, d0, rules, rawRoot, ps[i]);
    RunStep(d0, rules, rawRoot, ps, i);
    FirstMatchSnoc(Results(d0, rules, rawRoot, ps[..i]), Generated(d0, rules, rawRoot, ps[i]), target);
  }

  /** A first match among the results of a prefix of the patterns is the first match of all of them. */
  lemma Matched(derived: map<string, seq<string>>, rules: map<string, string>,
                rawRoot: string, target: string, ps: seq<string>, k: nat)
    requires k <= |ps| && FirstMatch(Results(derived, rules, rawRoot, ps[..k]), target).Some?
    ensures FirstMatch(Results(derived, rules, rawRoot, ps), target) == FirstMatch(Results(derived, rules, rawRoot, ps[..k]), target)
  {
    var pre := Results(derived, rules, rawRoot, ps[..k]);
    var rs := Results(derived, rules, rawRoot, ps);
    ResultsAt(derived, rules, rawRoot, ps[..k]);
    ResultsAt(derived, rules, rawRoot, ps);
    assert forall j | 0 <= j < k :: pre[j] == rs[j];
    FirstMatchSpec(pre, target);
    FirstMatchAt(rs, target, FirstMatch(pre, target).value);
  }

  /**
   * `MorphologicalValidator`: the generator it probes with, and the tree and table it reads,
   * which are the generator's own.
   */
  class MorphologicalValidator {
    const generator: MorphologicalGenerator
    const roots: RootBST
    const patterns: PatternHashTable

    ghost predicate Valid()
      reads generator.roots, generator.roots.Repr, generator.patterns, generator.patterns.buckets, generator.patterns.Repr
    {
      generator.Valid() && roots == generator.roots && patterns == generator.patterns
    }

    /** `__init__`. */
    constructor (generator: MorphologicalGenerator, rootTree: RootBST, patternTable: PatternHashTable)
      requires generator.Valid() && generator.roots == rootTree && generator.patterns == patternTable
      ensures Valid() && this.generator == generator
    {
      this.generator := generator;
      roots := rootTree;
      patterns := patternTable;
    }

    /**
     * `validate`: the verdict the stores determine; every probe up to the match, or every
     * probe when none matches, stores its word under the root.
     */
    method Validate(rawRoot: string, rawWord: string) returns (v: Verdict)
      requires Valid()
      modifies roots, roots.Repr
      ensures Valid()
      ensures var ps := PatternsOf(Flatten(patterns.contents));
        && v == Validation(old(roots.derived), patterns.rules, rawRoot, rawWord, ps)
        && roots.derived == Probed(old(roots.derived), patterns.rules, rawRoot, rawWord, ps)
    {
      var node := roots.Search(rawRoot);
      if node.None? {
        return Verdict(No, None);
      }
      v := ScanTable(generator, rawRoot, rawWord);
    }
  }

  /**
   * Over the validator's own stores: a word the generator derives, whatever its diacritics,
   * is confirmed by `validate` in the current state.
   */
  lemma ValidatesGenerated(validator: MorphologicalValidator, rawRoot: string, rawPattern: string, rawWord: string)
    requires validator.Valid()
    requires Generated(validator.roots.derived, validator.patterns.rules, rawRoot, rawPattern).ok
    requires NormalizeCommon(rawWord) ==
      NormalizeCommon(Generated(validator.roots.derived, validator.patterns.rules, rawRoot, rawPattern).word.value)
    ensures Validation(validator.roots.derived, validator.patterns.rules, rawRoot, rawWord,
                       PatternsOf(Flatten(validator.patterns.contents))).result == Yes
  {
    var table := validator.patterns;
    FlattenIsKeys(table.contents, table.rules);
    ValidationOfGenerated(validator.roots.derived, table.rules, rawRoot, rawPattern, rawWord,
                          PatternsOf(Flatten(table.contents)));
  }

  /** `validate` past the root lookup: normalise the word and scan the table's patterns. */
  method ScanTable(generator: MorphologicalGenerator, rawRoot: string, rawWord: string) returns (v: Verdict)
    requires generator.Valid() && Found(generator.roots.derived, rawRoot)
    modifies generator.roots, generator.roots.Repr
    ensures generator.Valid()
    ensures var ps := PatternsOf(Flatten(generator.patterns.contents));
      && v == Validation(old(generator.roots.derived), generator.patterns.rules, rawRoot, rawWord, ps)
      && generator.roots.derived == Probed(old(generator.roots.derived), generator.patterns.rules, rawRoot, rawWord, ps)
  {
    var normalizedWord := NormalizeCommon(rawWord);
    var ps := IterPatterns(generator.patterns);
    v := Scan(generator, rawRoot, normalizedWord, ps);
  }

  /** One probe of the scan: `generate_one` with `store=True`, then the comparison with the target. */
  method Probe(generator: MorphologicalGenerator, rawRoot: string, pattern: string, target: string) returns (hit: bool)
    requires generator.Valid()
    modifies generator.roots, generator.roots.Repr
    ensures generator.Valid() && fresh(generator.roots.Repr - old(generator.roots.Repr)) && unchanged(generator.patterns)
    ensures hit == Matches(Generated(old(generator.roots.derived), generator.patterns.rules, rawRoot, pattern), target)
    ensures generator.roots.derived == Stored(old(generator.roots.derived), generator.patterns.rules, rawRoot, pattern)
  {
    var gen := generator.GenerateOne(rawRoot, pattern, true);
    hit := gen.ok && gen.word.Some? && NormalizeCommon(gen.word.value) == target;
  }

  /** The probe at `i` of a scan that has stored the earlier probes' words and found no match. */
  method ProbeNext(generator: MorphologicalGenerator, rawRoot: string, target: string, ps: seq<string>, i: nat,
                   ghost d0: map<string, seq<string>>) returns (hit: bool)
    requires generator.Valid() && i < |ps|
    requires generator.roots.derived == StoreAll(d0, generator.patterns.rules, rawRoot, ps[..i])
    requires FirstMatch(Results(d0, generator.patterns.rules, rawRoot, ps[..i]), target).None?
    modifies generator.roots, generator.roots.Repr
    ensures generator.Valid() && fresh(generator.roots.Repr - old(generator.roots.Repr)) && unchanged(generator.patterns)
    ensures generator.roots.derived == StoreAll(d0, generator.patterns.rules, rawRoot, ps[..i + 1])
    ensures FirstMatch(Results(d0, generator.patterns.rules, rawRoot, ps[..i + 1]), target) == if hit then Some(i) else None
  {
    ScanStep(d0, generator.patterns.rules, rawRoot, target, ps, i, generator.roots.derived);
    hit := Probe(generator, rawRoot, ps[i], target);
  }

  /** The loop of `validate`: probe each pattern in turn and stop at the first match. */
  method Scan(generator: MorphologicalGenerator, rawRoot: string, target: string, ps: seq<string>) returns (v: Verdict)
    requires generator.Valid()
    modifies generator.roots, generator.roots.Repr
    ensures generator.Valid() && unchanged(generator.patterns)
    ensures var rs := Results(old(generator.roots.derived), generator.patterns.rules, rawRoot, ps);
      && v == Answer(rs, ps, target)
      && generator.roots.derived == StoreAll(old(generator.roots.derived), generator.patterns.rules, rawRoot, ps[..Probes(rs, target)])
  {
    ghost var d0 := generator.roots.derived;
    ghost var rules := generator.patterns.rules;
    for i := 0 to |ps|
      invariant generator.Valid() && fresh(generator.roots.Repr - old(generator.roots.Repr))
      invariant unchanged(generator.patterns)
      invariant generator.roots.derived == StoreAll(d0, rules, rawRoot, ps[..i])
      invariant FirstMatch(Results(d0, rules, rawRoot, ps[..i]), target).None?
    {
      var hit := ProbeNext(generator, rawRoot, target, ps, i, d0);
      if hit {
        Matched(d0, rules, rawRoot, target, ps, i + 1);
        assert Probes(Results(d0, rules, rawRoot, ps), target) == i + 1;
        return Verdict(Yes, Some(ps[i]));
      }
    }
    assert ps[..|ps|] == ps;
    assert Probes(Results(d0, rules, rawRoot, ps), target) == |ps|;
    return Verdict(No, None);
  }
}
