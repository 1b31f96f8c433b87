/**
 * The pattern store (Data_Structures/hash_table.py): a table of 37 buckets, each a singly
 * linked chain of (pattern, rule) nodes, indexed by a polynomial rolling hash of the
 * normalised pattern; plus the substitution that writes a root's letters into a rule.
 */
module HashTable {
  import opened Wrappers
  import opened Text
  import opened Normalization

  /** `self._capacity`: the fixed number of buckets. */
  const Capacity: nat := 37
  /** The multiplier of the rolling hash. */
  const Base: nat := 131

  /** The three placeholder letters fa, ain and lam. */
  const Fa: char := '\U{0641}'
  const Ain: char := '\U{0639}'
  const Lam: char := '\U{0644}'

  /** One stored association: the lookup key and the skeleton substituted during derivation. */
  datatype Entry = Entry(pattern: string, rule: string)

  function PatternsOf(es: seq<Entry>): seq<string>
  {
    seq(|es|, i requires 0 <= i < |es| => es[i].pattern)
  }

  /** No two entries share a pattern. */
  predicate UniquePatterns(es: seq<Entry>)
  {
    forall i, j | 0 <= i < j < |es| :: es[i].pattern != es[j].pattern
  }

  // ----- The hash -----

  /** `_hash` as a left fold: `v := (v * 131 + ord(ch)) % 37` over the key, starting from 0. */
  function HashOf(key: string): (h: nat)
    ensures h < Capacity
    decreases |key|
  {
    if key == [] then 0
    else (HashOf(key[..|key| - 1]) * Base + key[|key| - 1] as int) % Capacity
  }

  /** The weighted sum `ord(k[0]) * 131^(n-1) + ... + ord(k[n-1]) * 131^0`, with no reduction. */
  function WeightedSum(key: string): nat
  {
    if key == [] then 0 else key[0] as int * Power(Base, |key| - 1) + WeightedSum(key[1..])
  }

  function Power(b: nat, e: nat): nat
  {
    if e == 0 then 1 else b * Power(b, e - 1)
  }

  // ----- Pattern validation -----

  /** What `_normalize_and_validate` demands of a normalised pattern. */
  predicate IsPatternText(s: string)
  {
    && |s| >= 4
    && (forall i | 0 <= i < |s| :: s[i] == Shadda || IsArabicLetter(s[i]))
    && Fa in s && Ain in s && Lam in s
  }

  /** The normalised pattern `_normalize_and_validate` returns, or `None` when it rejects. */
  function ValidPattern(p: Arg): Option<string>
  {
    if p.Other? then None
    else
      var n := NormalizePattern(p.s);
      if n != [] && IsPatternText(n) then Some(n) else None
  }

  /** `rule or normalized`: a missing or empty rule defaults to the normalised pattern. */
  function RuleText(rule: Option<string>, normalized: string): string
  {
    if rule.None? || rule.value == [] then normalized else rule.value
  }

  // ----- Derivation -----

  /** The character the substitution emits for one rule character. */
  function Slot(ch: char, f: char, a: char, l: char): char
  {
    if ch == Fa then f else if ch == Ain then a else if ch == Lam then l else ch
  }

  /** The rule with every fa, ain, lam replaced by the first, second, third root letter. */
  function Fill(rule: string, f: char, a: char, l: char): (r: string)
    ensures |r| == |rule|
    ensures forall i | 0 <= i < |rule| :: r[i] == Slot(rule[i], f, a, l)
  {
    if rule == [] then [] else [Slot(rule[0], f, a, l)] + Fill(rule[1..], f, a, l)
  }

  /**
   * What `derive_from_normalized_pattern` returns: nothing for a root that fails
   * `validate_dashed_root`, otherwise the rule, same length, with its three placeholders
   * replaced by the root letters and every other character (shadda included) copied.
   */
  function Derivation(rawRoot: string, rule: string): (r: Option<string>)
    ensures r.Some? <==> ValidateDashedRoot(Str(rawRoot))
    ensures r.Some? ==>
      var n := NormalizeCommon(rawRoot);
      |n| == 5 && r.value == Fill(rule, n[0], n[2], n[4])
  {
    if !ValidateDashedRoot(Str(rawRoot)) then None
    else
      ValidRootHasLetters(rawRoot);
      match ExtractRootLetters(rawRoot)
      case None => None
      case Some((f, a, l)) => Some(Fill(rule, f, a, l))
  }

  method DeriveFromNormalizedPattern(rawRoot: string, normalizedPattern: string) returns (r: Option<string>)
    ensures r == Derivation(rawRoot, normalizedPattern)
  {
    if !ValidateDashedRoot(Str(rawRoot)) {
      return None;
    }
    var letters := ExtractRootLetters(rawRoot);
    if letters.None? {
      return None;
    }
    var (f, a, l) := letters.value;
    var word := Substitute(normalizedPattern, f, a, l);
    return Some(word);
  }

  /** The substitution loop of `derive_from_normalized_pattern`. */
  method Substitute(normalizedPattern: string, f: char, a: char, l: char) returns (word: string)
    ensures word == Fill(normalizedPattern, f, a, l)
  {
    var result: string := [];
    for i := 0 to |normalizedPattern|
      invariant |result| == i
      invariant forall j | 0 <= j < i :: result[j] == Slot(normalizedPattern[j], f, a, l)
    {
      var ch := normalizedPattern[i];
      if ch == Fa {
        result := result + [f];
      } else if ch == Ain {
        result := result + [a];
      } else if ch == Lam {
        result := result + [l];
      } else {
        result := result + [ch];
      }
    }
    return result;
  }

  // ----- Worked examples -----

  /** Substitution into the skeletons faa'il and fa''aal: the placeholders take the root letters. */
  lemma FillExamples(k: char, t: char, b: char)
    ensures Fill([Fa, Alef, Ain, Lam], k, t, b) == [k, Alef, t, b]
    ensures Fill([Fa, Ain, Shadda, Alef, Lam], k, t, b) == [k, t, Shadda, Alef, b]
  {
  }

  /** The root k-t-b is already in normal form. */
  lemma KtbIsNormal()
    ensures NormalizeCommon("\U{0643}-\U{062A}-\U{0628}") == "\U{0643}-\U{062A}-\U{0628}"
  {
    NormalFormsFix("\U{0643}-\U{062A}-\U{0628}");
  }

  /** The root k-t-b passes `validate_dashed_root`. */
  lemma KtbIsValid()
    ensures ValidateDashedRoot(Str("\U{0643}-\U{062A}-\U{0628}"))
  {
    var root := "\U{0643}-\U{062A}-\U{0628}";
    KtbIsNormal();
    assert DashedForm(root);
    ValidateDashedRootShape(root);
  }

  /** k-t-b with faa'il gives kaatib, and with fa''aal (shadda kept) gives kattaab. */
  lemma DerivationExamples()
    ensures Derivation("\U{0643}-\U{062A}-\U{0628}", "\U{0641}\U{0627}\U{0639}\U{0644}")
      == Some("\U{0643}\U{0627}\U{062A}\U{0628}")
    ensures Derivation("\U{0643}-\U{062A}-\U{0628}", "\U{0641}\U{0639}\U{0651}\U{0627}\U{0644}")
      == Some("\U{0643}\U{062A}\U{0651}\U{0627}\U{0628}")
  {
    KtbIsNormal();
    KtbIsValid();
    FillExamples('\U{0643}', '\U{062A}', '\U{0628}');
  }

  /** The bare skeleton fa'ala has only three letters and is refused as a pattern. */
  lemma BareSkeletonRejected()
    ensures ValidPattern(Str("\U{0641}\U{0639}\U{0644}")) == None
  {
  }

  // ----- Bucket chains -----

  /** `PatternRuleNode`: one link of a chain; its pattern is never reassigned. */
  class PatternRuleNode {
    const pattern: string
    var rule: string
    var next: PatternRuleNode?

    constructor (pattern: string, rule: string)
      ensures this.pattern == pattern && this.rule == rule && next == null
    {
      this.pattern := pattern;
      this.rule := rule;
      next := null;
    }
  }

  /** The entries with pattern `p` given rule `r`; every other entry as it was. */
  function WithRule(es: seq<Entry>, p: string, r: string): (res: seq<Entry>)
    ensures |res| == |es|
    ensures forall i | 0 <= i < |es| :: res[i] == if es[i].pattern == p then Entry(p, r) else es[i]
  {
    seq(|es|, i requires 0 <= i < |es| => if es[i].pattern == p then Entry(p, r) else es[i])
  }

  /** The entries without the one(s) for pattern `p`, in their original order. */
  function WithoutPattern(es: seq<Entry>, p: string): seq<Entry>
  {
    if es == [] then []
    else (if es[0].pattern == p then [] else [es[0]]) + WithoutPattern(es[1..], p)
  }

  lemma {:induction false} WithoutAbsentPattern(es: seq<Entry>, p: string)
    requires forall j | 0 <= j < |es| :: es[j].pattern != p
    ensures WithoutPattern(es, p) == es
  {
    if es != [] {
      assert forall j | 0 <= j < |es| - 1 :: es[1..][j] == es[j + 1];
      WithoutAbsentPattern(es[1..], p);
      assert [es[0]] + es[1..] == es;
    }
  }

  /** Removing the pattern found at index k of a chain with unique patterns unlinks exactly that entry. */
  lemma {:induction false} WithoutPatternAt(es: seq<Entry>, k: nat)
    requires k < |es| && UniquePatterns(es)
    ensures WithoutPattern(es, es[k].pattern) == es[..k] + es[k + 1..]
  {
    var p := es[k].pattern;
    var tail := es[1..];
    if k == 0 {
      WithoutAbsentPattern(tail, p);
      assert es[..0] + es[1..] == tail;
    } else {
      assert es[0].pattern != p;
      assert UniquePatterns(tail) by {
        assert forall j | 0 <= j < |tail| :: tail[j] == es[j + 1];
      }
      WithoutPatternAt(tail, k - 1);
      assert tail[k - 1] == es[k];
      assert tail[..k - 1] + tail[k..] == es[1..k] + es[k + 1..];
      assert [es[0]] + es[1..k] == es[..k];
    }
  }

  lemma UniqueWithout(es: seq<Entry>, k: nat)
    requires k < |es| && UniquePatterns(es)
    ensures UniquePatterns(es[..k] + es[k + 1..])
  {
    var r := es[..k] + es[k + 1..];
    assert forall i | 0 <= i < |r| :: r[i] == if i < k then es[i] else es[i + 1];
  }

  /** The sequence with element i left out, index by index. */
  lemma Skip<T>(s: seq<T>, i: nat)
    requires i < |s|
    ensures var r := s[..i] + s[i + 1..];
      |r| == |s| - 1 && forall j | 0 <= j < |r| :: r[j] == if j < i then s[j] else s[j + 1]
  {
  }

  lemma UniquePrepend(e: Entry, es: seq<Entry>)
    requires UniquePatterns(es) && forall k | 0 <= k < |es| :: es[k].pattern != e.pattern
    ensures UniquePatterns([e] + es)
  {
    assert forall k | 1 <= k < |es| + 1 :: ([e] + es)[k] == es[k - 1];
  }

  lemma NoDupWithout<T>(s: seq<T>, k: nat)
    requires k < |s| && NoDup(s)
    ensures NoDup(s[..k] + s[k + 1..])
  {
    var r := s[..k] + s[k + 1..];
    assert forall i | 0 <= i < |r| :: r[i] == if i < k then s[i] else s[i + 1];
  }

  /** `PatternRuleChain`: the linked chain of one bucket, most recently inserted first. */
  class PatternRuleChain {
    var head: PatternRuleNode?
    /** The nodes reachable from `head`, in link order. */
    ghost var spine: seq<PatternRuleNode>
    /** The (pattern, rule) pairs those nodes hold, in the same order. */
    ghost var entries: seq<Entry>
    ghost var Repr: set<object>

    ghost predicate Valid()
      reads this, Repr
      ensures Valid() ==> this in Repr
    {
      && this in Repr
      && |spine| == |entries|
      && (forall i | 0 <= i < |spine| :: spine[i] in Repr)
      && head == (if spine == [] then null else spine[0])
      && (forall i {:trigger spine[i].next} | 0 <= i < |spine| - 1 :: spine[i].next == spine[i + 1])
      && (spine != [] ==> spine[|spine| - 1].next == null)
      && (forall i {:trigger entries[i]} | 0 <= i < |spine| :: spine[i].pattern == entries[i].pattern && spine[i].rule == entries[i].rule)
      && NoDup(spine)
      && UniquePatterns(entries)
    }

    constructor ()
      ensures Valid() && fresh(Repr) && entries == []
    {
      head := null;
      spine := [];
      entries := [];
      Repr := {this};
    }

    /** `insert`: refuse a pattern already in the chain, otherwise prepend a new node. */
    method Insert(pattern: string, rule: string) returns (inserted: bool)
      requires Valid()
      modifies this
      ensures Valid() && fresh(Repr - old(Repr))
      ensures inserted <==> pattern !in PatternsOf(old(entries))
      ensures entries == if inserted then [Entry(pattern, rule)] + old(entries) else old(entries)
    {
      var current := head;
      ghost var i := 0;
      while current != null
        invariant 0 <= i <= |spine|
        invariant i < |spine| ==> current == spine[i]
        invariant i == |spine| ==> current == null
        invariant forall j | 0 <= j < i :: entries[j].pattern != pattern
        decreases |spine| - i
      {
        if current.pattern == pattern {
          assert PatternsOf(entries)[i] == pattern;
          return false;
        }
        current := current.next;
        i := i + 1;
      }
      assert pattern !in PatternsOf(entries);
      Prepend(pattern, rule);
      return true;
    }

    /** The linking step of `insert`: a new node holding (pattern, rule) becomes the head. */
    method Prepend(pattern: string, rule: string)
      requires Valid() && forall k | 0 <= k < |entries| :: entries[k].pattern != pattern
      modifies this
      ensures Valid() && fresh(Repr - old(Repr))
      ensures entries == [Entry(pattern, rule)] + old(entries)
    {
      ghost var s0, e0 := spine, entries;
      var node := new PatternRuleNode(pattern, rule);
      assert node !in s0;
      node.next := head;
      head := node;
      spine := [node] + s0;
      entries := [Entry(pattern, rule)] + e0;
      Repr := Repr + {node};
      assert forall j | 1 <= j < |spine| :: spine[j] == s0[j - 1] && entries[j] == e0[j - 1];
      forall j | 0 <= j < |spine|
        ensures spine[j].pattern == entries[j].pattern && spine[j].rule == entries[j].rule
      {
        if j > 0 {
          assert spine[j].rule == old(s0[j - 1].rule);
        }
      }
      forall j | 0 <= j < |spine| - 1
        ensures spine[j].next == spine[j + 1]
      {
        if j > 0 {
          assert spine[j] != node;
        }
      }
      assert spine[|spine| - 1].next == null;
      UniquePrepend(Entry(pattern, rule), e0);
      NoDupPrepend(node, s0);
    }

    /** `find_node`: the node holding `pattern`, or null. */
    method FindNode(pattern: string) returns (node: PatternRuleNode?, ghost index: nat)
      requires Valid()
      ensures node == null <==> pattern !in PatternsOf(entries)
      ensures node != null ==> index < |spine| && node == spine[index] && entries[index].pattern == pattern
    {
      var current := head;
      ghost var i := 0;
      while current != null
        invariant 0 <= i <= |spine|
        invariant i < |spine| ==> current == spine[i]
        invariant i == |spine| ==> current == null
        invariant forall j | 0 <= j < i :: entries[j].pattern != pattern
        decreases |spine| - i
      {
        if current.pattern == pattern {
          assert PatternsOf(entries)[i] == pattern;
          return current, i;
        }
        current := current.next;
        i := i + 1;
      }
      return null, 0;
    }

    /** `find`: whether the chain holds `pattern`. */
    method Find(pattern: string) returns (found: bool)
      requires Valid()
      ensures found <==> pattern in PatternsOf(entries)
    {
      var node, _ := FindNode(pattern);
      return node != null;
    }

    /** `update`: give the node holding `pattern` a new rule; nothing else changes. */
    method Update(pattern: string, rule: string) returns (updated: bool)
      requires Valid()
      modifies Repr
      ensures Valid() && Repr == old(Repr)
      ensures updated <==> pattern in PatternsOf(old(entries))
      ensures entries == if updated then WithRule(old(entries), pattern, rule) else old(entries)
    {
      var node, k := FindNode(pattern);
      if node == null {
        assert forall i | 0 <= i < |entries| :: entries[i].pattern != pattern by {
          forall i | 0 <= i < |entries| ensures entries[i].pattern != pattern {
            assert PatternsOf(entries)[i] == entries[i].pattern;
          }
        }
        assert WithRule(entries, pattern, rule) == entries;
        return false;
      }
      node.rule := rule;
      entries := entries[k := Entry(pattern, rule)];
      return true;
    }

    /** `remove`: unlink the node holding `pattern`, keeping the others in order. */
    method Remove(pattern: string) returns (removed: bool)
      requires Valid()
      modifies Repr
      ensures Valid() && Repr == old(Repr)
      ensures removed <==> pattern in PatternsOf(old(entries))
      ensures entries == if removed then WithoutPattern(old(entries), pattern) else old(entries)
    {
      var prev: PatternRuleNode? := null;
      var current := head;
      ghost var i := 0;
      while current != null && current.pattern != pattern
        invariant 0 <= i <= |spine|
        invariant i < |spine| ==> current == spine[i]
        invariant i == |spine| ==> current == null
        invariant i == 0 ==> prev == null
        invariant 0 < i ==> prev == spine[i - 1]
        invariant forall j | 0 <= j < i :: entries[j].pattern != pattern
        decreases |spine| - i
      {
        prev := current;
        current := current.next;
        i := i + 1;
      }
      if current == null {
        WithoutAbsentPattern(entries, pattern);
        assert pattern !in PatternsOf(entries);
        return false;
      }
      assert PatternsOf(entries)[i] == pattern;
      WithoutPatternAt(entries, i);
      Unlink(prev, current, i);
      return true;
    }

    /** The relinking step of `remove`: splice out the node at position i, whose predecessor is `prev`. */
    method Unlink(prev: PatternRuleNode?, current: PatternRuleNode, ghost i: nat)
      requires Valid() && i < |spine| && current == spine[i]
      requires i == 0 ==> prev == null
      requires 0 < i ==> prev == spine[i - 1]
      modifies Repr
      ensures Valid() && Repr == old(Repr)
      ensures spine == old(spine[..i] + spine[i + 1..])
      ensures entries == old(entries[..i] + entries[i + 1..])
    {
      UniqueWithout(entries, i);
      NoDupWithout(spine, i);
      ghost var s0, e0 := spine, entries;
      if prev == null {
        head := current.next;
      } else {
        prev.next := current.next;
      }
      spine := s0[..i] + s0[i + 1..];
      entries := e0[..i] + e0[i + 1..];
      Skip(s0, i);
      Skip(e0, i);
      forall j | 0 <= j < |spine|
        ensures spine[j] in Repr && spine[j].pattern == entries[j].pattern && spine[j].rule == entries[j].rule
      {
      }
      forall j | 0 <= j < |spine| - 1
        ensures spine[j].next == spine[j + 1]
      {
        if j != i - 1 {
          assert spine[j] != prev;
        }
      }
      if spine != [] {
        assert i == |spine| || spine[|spine| - 1] != prev;
      }
    }
  }

  // ----- The table as a map from normalised pattern to normalised rule -----

  /** A pattern and a rule that `_normalize_and_validate` both returns unchanged. */
  predicate WellFormedEntry(pattern: string, rule: string)
  {
    ValidPattern(Str(pattern)) == Some(pattern) && ValidPattern(Str(rule)) == Some(rule)
  }

  /** Every key and every rule of the store is in normal form. */
  predicate WellFormedRules(rules: map<string, string>)
  {
    forall p {:trigger WellFormedEntry(p, rules[p])} | p in rules :: WellFormedEntry(p, rules[p])
  }

  /** `contains`: the pattern is valid and its normalised form is a key. */
  predicate Has(rules: map<string, string>, pattern: Arg)
  {
    ValidPattern(pattern).Some? && ValidPattern(pattern).value in rules
  }

  /** `get_rule`: the rule stored under the pattern's normalised form. */
  function RuleOf(rules: map<string, string>, pattern: Arg): Option<string>
  {
    if Has(rules, pattern) then Some(rules[ValidPattern(pattern).value]) else None
  }

  /** `insert`: the new store, or the error raised, checked in the source's order. */
  function Inserted(rules: map<string, string>, pattern: Arg, rule: Option<string>): Outcome<map<string, string>>
  {
    match ValidPattern(pattern)
    case None => Raised("Invalid pattern format.")
    case Some(n) =>
      match ValidPattern(Str(RuleText(rule, n)))
      case None => Raised("Invalid rule format.")
      case Some(nr) => if n in rules then Raised("Pattern already exists.") else Returned(rules[n := nr])
  }

  /** `update`: both texts are validated before either error is raised, the pattern's first. */
  function Updated(rules: map<string, string>, pattern: Arg, newRule: string): Outcome<map<string, string>>
  {
    var n := ValidPattern(pattern);
    var nr := ValidPattern(Str(newRule));
    if n.None? then Raised("Invalid pattern format.")
    else if nr.None? then Raised("Invalid rule format.")
    else if n.value !in rules then Raised("Pattern not found.")
    else Returned(rules[n.value := nr.value])
  }

  /** `remove`. */
  function Removed(rules: map<string, string>, pattern: Arg): Outcome<map<string, string>>
  {
    match ValidPattern(pattern)
    case None => Raised("Invalid pattern format.")
    case Some(n) => if n in rules then Returned(rules - {n}) else Raised("Pattern not found.")
  }

  /** `derive`: the stored rule of the pattern filled with the root's letters. */
  function DerivedWord(rules: map<string, string>, rawRoot: string, pattern: Arg): Option<string>
  {
    match RuleOf(rules, pattern)
    case None => None
    case Some(rule) => Derivation(rawRoot, rule)
  }

  /** The store after a call that may raise: the new one if it returned, the old one if it raised. */
  function Commit(o: Outcome<map<string, string>>, rules: map<string, string>): map<string, string>
  {
    if o.Returned? then o.value else rules
  }

  /** What a call that returns `True` or raises gives back. */
  function Status(o: Outcome<map<string, string>>): Outcome<bool>
  {
    if o.Returned? then Returned(true) else Raised(o.message)
  }

  /**
   * `load_patterns_from_file` over the lines of the file: each line is stripped, blank lines
   * are skipped, and every other line is inserted with the default rule, a raised error
   * leaving the store as it was.
   */
  function Loaded(rules: map<string, string>, lines: seq<string>): map<string, string>
    decreases |lines|
  {
    if lines == [] then rules else Loaded(LoadLine(rules, lines[0]), lines[1..])
  }

  /** One line of the load: skipped when blank, otherwise inserted with the default rule. */
  function LoadLine(rules: map<string, string>, line: string): map<string, string>
  {
    var raw := Strip(line);
    if raw == [] then rules else Commit(Inserted(rules, Str(raw), None), rules)
  }

  // ----- The buckets after each operation -----

  /**
   * The chains after `insert`: the new entry heads the chain of its pattern's bucket; every
   * chain is as it was when the call raised.
   */
  function InsertedBuckets(cs: seq<seq<Entry>>, rules: map<string, string>, pattern: Arg,
                           rule: Option<string>): (r: seq<seq<Entry>>)
    requires |cs| == Capacity
    ensures |r| == Capacity
  {
    match ValidPattern(pattern)
    case None => cs
    case Some(n) =>
      match ValidPattern(Str(RuleText(rule, n)))
      case None => cs
      case Some(nr) => if n in rules then cs else cs[HashOf(n) := [Entry(n, nr)] + cs[HashOf(n)]]
  }

  /** The chains after `update`: the pattern's node takes the new rule in place; unchanged when it raised. */
  function UpdatedBuckets(cs: seq<seq<Entry>>, rules: map<string, string>, pattern: Arg,
                          newRule: string): (r: seq<seq<Entry>>)
    requires |cs| == Capacity
    ensures |r| == Capacity
  {
    var n := ValidPattern(pattern);
    var nr := ValidPattern(Str(newRule));
    if n.None? || nr.None? || n.value !in rules then cs
    else cs[HashOf(n.value) := WithRule(cs[HashOf(n.value)], n.value, nr.value)]
  }

  /** The chains after `remove`: the pattern's node unlinked from its chain; unchanged when it raised. */
  function RemovedBuckets(cs: seq<seq<Entry>>, rules: map<string, string>, pattern: Arg): (r: seq<seq<Entry>>)
    requires |cs| == Capacity
    ensures |r| == Capacity
  {
    match ValidPattern(pattern)
    case None => cs
    case Some(n) => if n in rules then cs[HashOf(n) := WithoutPattern(cs[HashOf(n)], n)] else cs
  }

  /** The chains after loading the lines, alongside `Loaded` for the store. */
  function LoadedBuckets(cs: seq<seq<Entry>>, rules: map<string, string>, lines: seq<string>): (r: seq<seq<Entry>>)
    requires |cs| == Capacity
    ensures |r| == Capacity
    decreases |lines|
  {
    if lines == [] then cs
    else
      var raw := Strip(lines[0]);
      var cs' := if raw == [] then cs else InsertedBuckets(cs, rules, Str(raw), None);
      LoadedBuckets(cs', LoadLine(rules, lines[0]), lines[1..])
  }

  // ----- Lemmas about the map-level operations -----

  /** A normalised pattern passes validation again, unchanged. */
  lemma ValidPatternStable(p: Arg)
    requires ValidPattern(p).Some?
    ensures ValidPattern(Str(ValidPattern(p).value)) == ValidPattern(p)
  {
    NormalizePatternIdempotent(p.s);
  }

  /** With no rule given, a valid pattern is stored as its own rule: "Invalid rule format." never arises. */
  lemma DefaultRule(rules: map<string, string>, p: Arg)
    requires ValidPattern(p).Some?
    ensures var n := ValidPattern(p).value;
      Inserted(rules, p, None) == if n in rules then Raised("Pattern already exists.") else Returned(rules[n := n])
  {
    ValidPatternStable(p);
  }

  /** What a successful insert stored: the normalised pattern, new, with its normalised rule. */
  lemma InsertedShape(rules: map<string, string>, p: Arg, rule: Option<string>)
    requires Inserted(rules, p, rule).Returned?
    ensures ValidPattern(p).Some? && ValidPattern(p).value !in rules
    ensures ValidPattern(Str(RuleText(rule, ValidPattern(p).value))).Some?
    ensures Inserted(rules, p, rule).value ==
      rules[ValidPattern(p).value := ValidPattern(Str(RuleText(rule, ValidPattern(p).value))).value]
  {
  }

  lemma WellFormedAdd(rules: map<string, string>, n: string, v: string)
    requires WellFormedRules(rules) && WellFormedEntry(n, v)
    ensures WellFormedRules(rules[n := v])
  {
  }

  /** Once the pattern and its rule have been normalised and validated, `insert` adds them unless the pattern is a key. */
  lemma InsertedValid(cs: seq<seq<Entry>>, rules: map<string, string>, p: Arg, rule: Option<string>, n: string, nr: string)
    requires |cs| == Capacity
    requires ValidPattern(p) == Some(n) && ValidPattern(Str(RuleText(rule, n))) == Some(nr)
    ensures Inserted(rules, p, rule) ==
      if n in rules then Raised("Pattern already exists.") else Returned(rules[n := nr])
    ensures InsertedBuckets(cs, rules, p, rule) ==
      if n in rules then cs else cs[HashOf(n) := [Entry(n, nr)] + cs[HashOf(n)]]
  {
  }

  /** Storing a validated pattern with a validated rule keeps every key and rule of the store in normal form. */
  lemma AddNormalized(rules: map<string, string>, p: Arg, q: Arg)
    requires WellFormedRules(rules) && ValidPattern(p).Some? && ValidPattern(q).Some?
    ensures WellFormedRules(rules[ValidPattern(p).value := ValidPattern(q).value])
  {
    ValidPatternStable(p);
    ValidPatternStable(q);
    WellFormedAdd(rules, ValidPattern(p).value, ValidPattern(q).value);
  }

  /** Inserting keeps every key and rule of the store in normal form. */
  lemma InsertKeepsWellFormed(rules: map<string, string>, p: Arg, rule: Option<string>)
    requires WellFormedRules(rules)
    ensures WellFormedRules(Commit(Inserted(rules, p, rule), rules))
  {
    if Inserted(rules, p, rule).Returned? {
      InsertedShape(rules, p, rule);
      var n := ValidPattern(p).value;
      ValidPatternStable(p);
      ValidPatternStable(Str(RuleText(rule, n)));
      WellFormedAdd(rules, n, ValidPattern(Str(RuleText(rule, n))).value);
    }
  }

  /** Updating keeps every key and rule of the store in normal form. */
  lemma UpdateKeepsWellFormed(rules: map<string, string>, p: Arg, newRule: string)
    requires WellFormedRules(rules)
    ensures WellFormedRules(Commit(Updated(rules, p, newRule), rules))
  {
    if Updated(rules, p, newRule).Returned? {
      var n, nr := ValidPattern(p).value, ValidPattern(Str(newRule)).value;
      assert Updated(rules, p, newRule).value == rules[n := nr];
      ValidPatternStable(p);
      ValidPatternStable(Str(newRule));
      WellFormedAdd(rules, n, nr);
    }
  }

  /** Removing keeps every key and rule of the store in normal form. */
  lemma RemoveKeepsWellFormed(rules: map<string, string>, p: Arg)
    requires WellFormedRules(rules)
    ensures WellFormedRules(Commit(Removed(rules, p), rules))
  {
    if Removed(rules, p).Returned? {
      var n := ValidPattern(p).value;
      assert Removed(rules, p).value == rules - {n};
    }
  }

  /** An insert, whether it succeeds or raises, keeps every existing key with its rule. */
  lemma InsertExtends(rules: map<string, string>, p: Arg, rule: Option<string>)
    ensures var m := Commit(Inserted(rules, p, rule), rules);
      rules.Keys <= m.Keys && forall q | q in rules :: m[q] == rules[q]
  {
    if Inserted(rules, p, rule).Returned? {
      InsertedShape(rules, p, rule);
    }
  }

  /** A successful insert adds one key, makes the pattern present with its rule, and a second insert fails. */
  lemma InsertThenLookup(rules: map<string, string>, p: Arg, rule: Option<string>)
    requires Inserted(rules, p, rule).Returned?
    ensures var m := Inserted(rules, p, rule).value;
      && |m| == |rules| + 1
      && RuleOf(m, p) == ValidPattern(Str(RuleText(rule, ValidPattern(p).value)))
      && Inserted(m, p, rule) == Raised("Pattern already exists.")
      && forall q | q in rules :: q in m && m[q] == rules[q]
  {
  }

  /** Removing what was just inserted gives back the original store. */
  lemma InsertThenRemove(rules: map<string, string>, p: Arg, rule: Option<string>)
    requires Inserted(rules, p, rule).Returned?
    ensures Removed(Inserted(rules, p, rule).value, p) == Returned(rules)
  {
    var n := ValidPattern(p).value;
    var nr := ValidPattern(Str(RuleText(rule, n))).value;
    AddThenDrop(rules, n, nr);
  }

  lemma AddThenDrop(rules: map<string, string>, n: string, v: string)
    requires n !in rules
    ensures rules[n := v] - {n} == rules
  {
    assert (rules[n := v] - {n}).Keys == rules.Keys;
  }

  /** A successful update keeps the key set, sets the pattern's rule, and leaves every other rule alone. */
  lemma UpdateKeepsKeys(rules: map<string, string>, p: Arg, newRule: string)
    requires Updated(rules, p, newRule).Returned?
    ensures var m := Updated(rules, p, newRule).value;
      && m.Keys == rules.Keys
      && RuleOf(m, p) == ValidPattern(Str(newRule))
      && forall q | q in rules && q != ValidPattern(p).value :: m[q] == rules[q]
  {
  }

  /** A successful remove drops exactly the pattern's key; a second remove reports it missing. */
  lemma RemoveKeyCard(rules: map<string, string>, n: string)
    requires n in rules
    ensures |rules - {n}| == |rules| - 1
  {
    assert (rules - {n}).Keys == rules.Keys - {n};
  }

  lemma RemoveDropsOne(rules: map<string, string>, p: Arg)
    requires Removed(rules, p).Returned?
    ensures var m := Removed(rules, p).value;
      && !Has(m, p) && |m| == |rules| - 1
      && m.Keys == rules.Keys - {ValidPattern(p).value}
      && (forall q | q in m :: m[q] == rules[q])
      && Removed(m, p) == Raised("Pattern not found.")
  {
    var n := ValidPattern(p).value;
    var m := Removed(rules, p).value;
    assert m.Keys == rules.Keys - {n};
  }

  /** Loading keeps every key and rule of the store in normal form. */
  lemma {:induction false} LoadedKeepsWellFormed(rules: map<string, string>, lines: seq<string>)
    requires WellFormedRules(rules)
    ensures WellFormedRules(Loaded(rules, lines))
    decreases |lines|
  {
    if lines != [] {
      var raw := Strip(lines[0]);
      if raw != [] {
        InsertKeepsWellFormed(rules, Str(raw), None);
      }
      LoadedKeepsWellFormed(LoadLine(rules, lines[0]), lines[1..]);
    }
  }

  /** Loading never changes a pattern already in the store: the first occurrence of a pattern wins. */
  lemma {:induction false} LoadedKeepsExisting(rules: map<string, string>, lines: seq<string>)
    ensures var m := Loaded(rules, lines);
      rules.Keys <= m.Keys && forall q | q in rules :: m[q] == rules[q]
    decreases |lines|
  {
    if lines != [] {
      InsertExtends(rules, Str(Strip(lines[0])), None);
      LoadedKeepsExisting(LoadLine(rules, lines[0]), lines[1..]);
    }
  }

  /** After loading, the normalised form of every line that is a valid pattern is in the store. */
  lemma {:induction false} LoadedHasEveryValidLine(rules: map<string, string>, lines: seq<string>, i: nat)
    requires i < |lines| && ValidPattern(Str(Strip(lines[i]))).Some?
    ensures Has(Loaded(rules, lines), Str(Strip(lines[i])))
    decreases |lines|
  {
    var next := LoadLine(rules, lines[0]);
    if i == 0 {
      LoadLineAdds(rules, lines[0]);
      LoadedKeepsExisting(next, lines[1..]);
    } else {
      assert lines[1..][i - 1] == lines[i];
      LoadedHasEveryValidLine(next, lines[1..], i - 1);
    }
  }

  /** A line whose stripped text is a valid pattern leaves that pattern's normal form in the store. */
  lemma LoadLineAdds(rules: map<string, string>, line: string)
    requires ValidPattern(Str(Strip(line))).Some?
    ensures ValidPattern(Str(Strip(line))).value in LoadLine(rules, line)
  {
    var raw := Strip(line);
    assert raw != [];
    DefaultRule(rules, Str(raw));
  }

  // ----- Lemmas about the hash -----

  lemma {:induction false} WeightedSnoc(s: string, c: char)
    ensures WeightedSum(s + [c]) == WeightedSum(s) * Base + c as int
  {
    if s == [] {
      assert [c][1..] == [];
    } else {
      assert (s + [c])[1..] == s[1..] + [c];
      WeightedSnoc(s[1..], c);
      var x, pw, w := s[0] as int, Power(Base, |s| - 1), WeightedSum(s[1..]);
      assert Power(Base, |s|) == Base * pw;
      assert x * (Base * pw) + w * Base == (x * pw + w) * Base;
    }
  }

  lemma ModStep(a: nat, c: nat)
    ensures ((a % Capacity) * Base + c) % Capacity == (a * Base + c) % Capacity
  {
    var q, r := a / 37, a % 37;
    assert a * Base + c == (r * Base + c) + (q * Base) * 37;
    ShiftByMultiple(r * Base + c, q * Base);
  }

  lemma ShiftByMultiple(x: int, k: int)
    ensures (x + k * 37) % 37 == x % 37
  {
  }

  /** `_hash` computes the weighted sum of the code points, first character weighted highest, modulo 37. */
  lemma {:induction false} HashIsWeightedSum(key: string)
    ensures HashOf(key) == WeightedSum(key) % Capacity
    decreases |key|
  {
    if key != [] {
      var s, c := key[..|key| - 1], key[|key| - 1];
      HashIsWeightedSum(s);
      ModStep(WeightedSum(s), c as int);
      assert s + [c] == key;
      WeightedSnoc(s, c);
    }
  }

  // ----- The buckets and the map they represent -----

  /** The entries of all buckets, bucket 0 first, each in chain order. */
  function Flatten(cs: seq<seq<Entry>>): seq<Entry>
  {
    if cs == [] then [] else Flatten(cs[..|cs| - 1]) + cs[|cs| - 1]
  }

  /** Entry e sits in bucket h, where its pattern hashes, and holds the map's rule for it. */
  predicate Agrees(h: int, e: Entry, rules: map<string, string>)
  {
    HashOf(e.pattern) == h && e.pattern in rules && rules[e.pattern] == e.rule
  }

  /** Bucket h holds, once each, exactly the map's associations whose key hashes to h. */
  ghost predicate BucketRepresents(h: int, b: seq<Entry>, rules: map<string, string>)
  {
    && (forall k | 0 <= k < |b| :: Agrees(h, b[k], rules))
    && UniquePatterns(b)
    && (forall p | p in rules && HashOf(p) == h :: Entry(p, rules[p]) in b)
  }

  /** The buckets represent `rules`: each holds its slice of the map. */
  ghost predicate Consistent(cs: seq<seq<Entry>>, rules: map<string, string>)
  {
    |cs| == Capacity && RepresentsBelow(cs, rules, Capacity)
  }

  /** The chains represent the store `rules`, whose keys and rules are in normal form and whose size is `size`. */
  ghost predicate Summarizes(cs: seq<seq<Entry>>, rules: map<string, string>, size: nat)
  {
    Consistent(cs, rules) && WellFormedRules(rules) && size == |rules|
  }

  /** Buckets 0 to k - 1 each represent their slice of `rules`. */
  ghost predicate RepresentsBelow(cs: seq<seq<Entry>>, rules: map<string, string>, k: nat)
    requires k <= |cs|
  {
    k == 0 || (RepresentsBelow(cs, rules, k - 1) && BucketRepresents(k - 1, cs[k - 1], rules))
  }

  lemma {:induction false} RepresentsBelowAt(cs: seq<seq<Entry>>, rules: map<string, string>, k: nat, h: nat)
    requires k <= |cs| && RepresentsBelow(cs, rules, k) && h < k
    ensures BucketRepresents(h, cs[h], rules)
  {
    if h < k - 1 {
      RepresentsBelowAt(cs, rules, k - 1, h);
    }
  }

  lemma {:induction false} RepresentsBelowAll(cs: seq<seq<Entry>>, rules: map<string, string>, k: nat)
    requires k <= |cs| && forall h | 0 <= h < k :: BucketRepresents(h, cs[h], rules)
    ensures RepresentsBelow(cs, rules, k)
  {
    if k > 0 {
      RepresentsBelowAll(cs, rules, k - 1);
    }
  }

  /** Each bucket of a consistent table represents its slice. */
  lemma ConsistentBucket(cs: seq<seq<Entry>>, rules: map<string, string>, h: int)
    requires Consistent(cs, rules) && 0 <= h < Capacity
    ensures BucketRepresents(h, cs[h], rules)
  {
    RepresentsBelowAt(cs, rules, Capacity, h);
  }

  /** A table of 37 buckets each representing its slice is consistent. */
  lemma ConsistentFromBuckets(cs: seq<seq<Entry>>, rules: map<string, string>)
    requires |cs| == Capacity && forall h | 0 <= h < Capacity :: BucketRepresents(h, cs[h], rules)
    ensures Consistent(cs, rules)
  {
    RepresentsBelowAll(cs, rules, Capacity);
  }

  /** Empty buckets represent the empty map. */
  lemma EmptyConsistent()
    ensures Consistent(seq(Capacity, _ => []), map[])
  {
    var cs: seq<seq<Entry>> := seq(Capacity, _ => []);
    forall h | 0 <= h < Capacity ensures BucketRepresents(h, cs[h], map[]) {
    }
    ConsistentFromBuckets(cs, map[]);
  }

  lemma PatternsOfAppend(a: seq<Entry>, b: seq<Entry>)
    ensures PatternsOf(a + b) == PatternsOf(a) + PatternsOf(b)
  {
  }

  /** A pattern is in its bucket exactly when it is a key of the map. */
  lemma BucketHasKey(h: int, b: seq<Entry>, rules: map<string, string>, n: string)
    requires BucketRepresents(h, b, rules) && HashOf(n) == h
    ensures n in PatternsOf(b) <==> n in rules
  {
    if n in rules {
      var k :| 0 <= k < |b| && b[k] == Entry(n, rules[n]);
      assert PatternsOf(b)[k] == n;
    }
    if n in PatternsOf(b) {
      var k :| 0 <= k < |b| && PatternsOf(b)[k] == n;
      assert Agrees(h, b[k], rules);
    }
  }

  /** The buckets before index i hold, without repetition, exactly the keys that hash below i. */
  lemma {:induction false} FlattenPrefix(cs: seq<seq<Entry>>, rules: map<string, string>, i: nat)
    requires Consistent(cs, rules) && i <= |cs|
    ensures UniquePatterns(Flatten(cs[..i]))
    ensures forall p :: p in PatternsOf(Flatten(cs[..i])) <==> p in rules && HashOf(p) < i
  {
    if i > 0 {
      FlattenPrefix(cs, rules, i - 1);
      var f, b := Flatten(cs[..i - 1]), cs[i - 1];
      ConsistentBucket(cs, rules, i - 1);
      assert cs[..i][..i - 1] == cs[..i - 1];
      assert Flatten(cs[..i]) == f + b;
      PatternsOfAppend(f, b);
      forall p ensures p in PatternsOf(b) <==> p in rules && HashOf(p) == i - 1 {
        if p in PatternsOf(b) {
          var k :| 0 <= k < |b| && PatternsOf(b)[k] == p;
          assert Agrees(i - 1, b[k], rules);
        }
        if p in rules && HashOf(p) == i - 1 {
          BucketHasKey(i - 1, b, rules, p);
        }
      }
      var fb := f + b;
      forall x, y | 0 <= x < y < |fb| ensures fb[x].pattern != fb[y].pattern {
        if x < |f| <= y {
          assert PatternsOf(f)[x] == fb[x].pattern;
          assert fb[y] == b[y - |f|];
          assert Agrees(i - 1, b[y - |f|], rules);
        } else if |f| <= x {
          assert fb[x] == b[x - |f|] && fb[y] == b[y - |f|];
        }
      }
    }
  }

  lemma {:induction false} NoDupCard<T>(s: seq<T>)
    requires NoDup(s)
    ensures |set x | x in s| == |s|
  {
    if s != [] {
      var init := s[..|s| - 1];
      NoDupCard(init);
      assert (set x | x in s) == (set x | x in init) + {s[|s| - 1]};
    }
  }

  /** Walking the buckets in order lists every key of the map exactly once. */
  lemma FlattenIsKeys(cs: seq<seq<Entry>>, rules: map<string, string>)
    requires Consistent(cs, rules)
    ensures NoDup(PatternsOf(Flatten(cs)))
    ensures forall p :: p in PatternsOf(Flatten(cs)) <==> p in rules
    ensures |Flatten(cs)| == |rules|
  {
    FlattenPrefix(cs, rules, |cs|);
    assert cs[..|cs|] == cs;
    var ps := PatternsOf(Flatten(cs));
    NoDupCard(ps);
    assert (set x | x in ps) == rules.Keys;
  }

  /** A bucket other than h still represents its slice when the map changed only at keys hashing to h. */
  lemma OtherBucket(i: int, b: seq<Entry>, rules: map<string, string>, h: int, rules': map<string, string>)
    requires BucketRepresents(i, b, rules) && i != h
    requires forall p | p in rules' && HashOf(p) != h :: p in rules && rules'[p] == rules[p]
    requires forall p | p in rules && HashOf(p) != h :: p in rules' && rules'[p] == rules[p]
    ensures BucketRepresents(i, b, rules')
  {
    forall k | 0 <= k < |b| ensures Agrees(i, b[k], rules') {
      assert Agrees(i, b[k], rules);
    }
  }

  /** Replacing bucket h by one that represents the new map's slice keeps the representation. */
  lemma BucketReplaced(cs: seq<seq<Entry>>, rules: map<string, string>, h: nat, b: seq<Entry>, rules': map<string, string>)
    requires Consistent(cs, rules) && h < |cs| && BucketRepresents(h, b, rules')
    requires forall p | p in rules' && HashOf(p) != h :: p in rules && rules'[p] == rules[p]
    requires forall p | p in rules && HashOf(p) != h :: p in rules' && rules'[p] == rules[p]
    ensures Consistent(cs[h := b], rules')
  {
    var cs' := cs[h := b];
    forall i | 0 <= i < Capacity ensures BucketRepresents(i, cs'[i], rules') {
      if i != h {
        ConsistentBucket(cs, rules, i);
        OtherBucket(i, cs[i], rules, h, rules');
      }
    }
    ConsistentFromBuckets(cs', rules');
  }

  /** A new key prepended to its bucket: the bucket represents the map with that key added. */
  lemma PrependRepresents(h: int, b: seq<Entry>, rules: map<string, string>, n: string, nr: string)
    requires BucketRepresents(h, b, rules) && HashOf(n) == h && n !in rules
    ensures BucketRepresents(h, [Entry(n, nr)] + b, rules[n := nr])
  {
    var b', rules' := [Entry(n, nr)] + b, rules[n := nr];
    forall k | 0 <= k < |b| ensures b'[k + 1] == b[k] && b[k].pattern != n && Agrees(h, b[k], rules') {
      assert Agrees(h, b[k], rules);
    }
    forall k | 0 <= k < |b'| ensures Agrees(h, b'[k], rules') {
      if k > 0 {
        assert b'[k] == b[k - 1];
      }
    }
    forall p | p in rules' && HashOf(p) == h ensures Entry(p, rules'[p]) in b' {
      if p != n {
        var k :| 0 <= k < |b| && b[k] == Entry(p, rules[p]);
        assert b'[k + 1] == Entry(p, rules'[p]);
      }
    }
    UniquePrepend(Entry(n, nr), b);
  }

  /** The key's entry given a new rule: the bucket represents the map with that key's rule changed. */
  lemma WithRuleRepresents(h: int, b: seq<Entry>, rules: map<string, string>, n: string, nr: string)
    requires BucketRepresents(h, b, rules) && HashOf(n) == h && n in rules
    ensures BucketRepresents(h, WithRule(b, n, nr), rules[n := nr])
  {
    WithRuleAgrees(h, b, rules, n, nr);
    WithRuleCovers(h, b, rules, n, nr);
    WithRuleUnique(b, n, nr);
  }

  lemma WithRuleUnique(b: seq<Entry>, n: string, nr: string)
    requires UniquePatterns(b)
    ensures UniquePatterns(WithRule(b, n, nr))
  {
    var b' := WithRule(b, n, nr);
    assert forall i | 0 <= i < |b| :: b'[i].pattern == b[i].pattern;
  }

  lemma WithRuleAgrees(h: int, b: seq<Entry>, rules: map<string, string>, n: string, nr: string)
    requires forall k | 0 <= k < |b| :: Agrees(h, b[k], rules)
    requires HashOf(n) == h && n in rules
    ensures forall k | 0 <= k < |b| :: Agrees(h, WithRule(b, n, nr)[k], rules[n := nr])
  {
  }

  lemma WithRuleCovers(h: int, b: seq<Entry>, rules: map<string, string>, n: string, nr: string)
    requires forall p | p in rules && HashOf(p) == h :: Entry(p, rules[p]) in b
    requires n in rules
    ensures forall p | p in rules[n := nr] && HashOf(p) == h :: Entry(p, rules[n := nr][p]) in WithRule(b, n, nr)
  {
    var b', rules' := WithRule(b, n, nr), rules[n := nr];
    forall p | p in rules' && HashOf(p) == h ensures Entry(p, rules'[p]) in b' {
      var k :| 0 <= k < |b| && b[k] == Entry(p, rules[p]);
      assert b'[k] == Entry(p, rules'[p]);
    }
  }

  /** The key's entry unlinked: the bucket represents the map with that key removed. */
  lemma WithoutRepresents(h: int, b: seq<Entry>, rules: map<string, string>, n: string)
    requires BucketRepresents(h, b, rules) && HashOf(n) == h && n in rules
    ensures BucketRepresents(h, WithoutPattern(b, n), rules - {n})
  {
    var k :| 0 <= k < |b| && b[k] == Entry(n, rules[n]);
    WithoutPatternAt(b, k);
    UniqueWithout(b, k);
    WithoutAgrees(h, b, rules, k);
    WithoutCovers(h, b, rules, k);
  }

  lemma WithoutAgrees(h: int, b: seq<Entry>, rules: map<string, string>, k: nat)
    requires k < |b| && UniquePatterns(b) && forall j | 0 <= j < |b| :: Agrees(h, b[j], rules)
    ensures var b' := b[..k] + b[k + 1..];
      forall j | 0 <= j < |b'| :: Agrees(h, b'[j], rules - {b[k].pattern})
  {
    var b' := b[..k] + b[k + 1..];
    Skip(b, k);
    forall j | 0 <= j < |b'| ensures Agrees(h, b'[j], rules - {b[k].pattern}) {
      assert Agrees(h, b[if j < k then j else j + 1], rules);
    }
  }

  lemma WithoutCovers(h: int, b: seq<Entry>, rules: map<string, string>, k: nat)
    requires k < |b| && forall p | p in rules && HashOf(p) == h :: Entry(p, rules[p]) in b
    ensures var b', rules' := b[..k] + b[k + 1..], rules - {b[k].pattern};
      forall p | p in rules' && HashOf(p) == h :: Entry(p, rules'[p]) in b'
  {
    var b', rules' := b[..k] + b[k + 1..], rules - {b[k].pattern};
    Skip(b, k);
    forall p | p in rules' && HashOf(p) == h ensures Entry(p, rules'[p]) in b' {
      var j :| 0 <= j < |b| && b[j] == Entry(p, rules[p]);
      assert b'[if j < k then j else j - 1] == Entry(p, rules'[p]);
    }
  }

  /** Prepending a new association to its bucket represents the map with that key added. */
  lemma InsertKeeps(cs: seq<seq<Entry>>, rules: map<string, string>, n: string, nr: string)
    requires Consistent(cs, rules) && n !in rules
    ensures Consistent(cs[HashOf(n) := [Entry(n, nr)] + cs[HashOf(n)]], rules[n := nr])
  {
    var h := HashOf(n);
    ConsistentBucket(cs, rules, h);
    PrependRepresents(h, cs[h], rules, n, nr);
    BucketReplaced(cs, rules, h, [Entry(n, nr)] + cs[h], rules[n := nr]);
  }

  /** Giving the key's entry a new rule in its bucket represents the map with that key's rule changed. */
  lemma UpdateKeeps(cs: seq<seq<Entry>>, rules: map<string, string>, n: string, nr: string)
    requires Consistent(cs, rules) && n in rules
    ensures Consistent(cs[HashOf(n) := WithRule(cs[HashOf(n)], n, nr)], rules[n := nr])
  {
    var h := HashOf(n);
    ConsistentBucket(cs, rules, h);
    WithRuleRepresents(h, cs[h], rules, n, nr);
    BucketReplaced(cs, rules, h, WithRule(cs[h], n, nr), rules[n := nr]);
  }

  /** Unlinking the key's entry from its bucket represents the map with that key removed. */
  lemma RemoveKeeps(cs: seq<seq<Entry>>, rules: map<string, string>, n: string)
    requires Consistent(cs, rules) && n in rules
    ensures Consistent(cs[HashOf(n) := WithoutPattern(cs[HashOf(n)], n)], rules - {n})
  {
    var h := HashOf(n);
    ConsistentBucket(cs, rules, h);
    WithoutRepresents(h, cs[h], rules, n);
    BucketReplaced(cs, rules, h, WithoutPattern(cs[h], n), rules - {n});
  }

  /** A chain none of whose objects changed is still valid and holds the same entries. */
  twostate lemma ChainFramed(c: PatternRuleChain)
    requires old(c.Valid()) && unchanged(old(c.Repr))
    ensures c.Valid() && c.Repr == old(c.Repr) && c.entries == old(c.entries)
  {
  }

  /** The bucket array of a new table: 37 fresh, empty chains with pairwise disjoint footprints. */
  method EmptyBuckets() returns (bs: array<PatternRuleChain>, ghost r: set<object>)
    ensures fresh(r) && bs in r && bs.Length == Capacity
    ensures forall j | 0 <= j < Capacity ::
      && bs[j] in r && bs[j].Repr <= r && bs !in bs[j].Repr
      && bs[j].Valid() && bs[j].entries == []
    ensures forall j, k | 0 <= j < k < Capacity :: bs[j].Repr !! bs[k].Repr
  {
    var placeholder := new PatternRuleChain();
    bs := new PatternRuleChain[Capacity](_ => placeholder);
    r := {bs};
    for i := 0 to Capacity
      invariant fresh(r) && bs in r
      invariant forall j | 0 <= j < i ::
        && bs[j] in r && bs[j].Repr <= r && bs !in bs[j].Repr
        && bs[j].Valid() && bs[j].entries == []
      invariant forall j, k | 0 <= j < k < i :: bs[j].Repr !! bs[k].Repr
    {
      var c := new PatternRuleChain();
      bs[i] := c;
      r := r + c.Repr;
    }
  }

  /** `PatternHashTable`: 37 chains, a size counter, and the map of patterns to rules they stand for. */
  class PatternHashTable {
    const buckets: array<PatternRuleChain>
    var size: nat
    /** The entries of each bucket, in chain order. */
    ghost var contents: seq<seq<Entry>>
    /** The association the table stands for: normalised pattern to normalised rule. */
    ghost var rules: map<string, string>
    ghost var Repr: set<object>

    ghost predicate Valid()
      reads this, buckets, Repr
      ensures Valid() ==> this in Repr
    {
      && Shape()
      && |contents| == Capacity
      && (forall i | 0 <= i < Capacity :: buckets[i].entries == contents[i])
      && Summarizes(contents, rules, size)
    }

    /** The objects: the bucket array and 37 valid chains with pairwise disjoint footprints, all inside `Repr`. */
    ghost predicate Shape()
      reads this`Repr, buckets, Repr - {this}
    {
      && this in Repr && buckets in Repr
      && buckets.Length == Capacity
      && (forall i | 0 <= i < Capacity :: Owns(i))
      && (forall i | 0 <= i < Capacity :: buckets[i] in Repr)
      && (forall i, j | 0 <= i < j < Capacity :: buckets[i].Repr !! buckets[j].Repr)
    }

    /** Bucket i is a valid chain inside the table's footprint, holding `contents[i]`. */
    ghost predicate Owns(i: int)
      reads this`Repr, buckets, Repr - {this}
    {
      && 0 <= i < buckets.Length
      && buckets[i] in Repr && buckets[i].Repr <= Repr
      && this !in buckets[i].Repr && buckets !in buckets[i].Repr
      && buckets[i].Valid()
    }

    /** `__init__`: 37 empty chains and a size of zero. */
    constructor ()
      ensures Valid() && fresh(Repr) && rules == map[]
    {
      var bs, r := EmptyBuckets();
      buckets := bs;
      size := 0;
      contents := seq(Capacity, _ => []);
      rules := map[];
      new;
      Repr := r + {this};
      assert forall i | 0 <= i < Capacity :: Owns(i);
      EmptyConsistent();
    }

    /** `_hash`: the rolling hash, one character at a time. */
    method Hash(key: string) returns (h: nat)
      ensures h == HashOf(key)
    {
      var value := 0;
      for i := 0 to |key|
        invariant value == HashOf(key[..i])
      {
        assert key[..i + 1][..i] == key[..i];
        value := (value * Base + key[i] as int) % Capacity;
      }
      assert key[..|key|] == key;
      return value;
    }

    /** `_normalize_and_validate`: the normalised pattern, or `None` at the first check it fails. */
    method NormalizeAndValidate(pattern: Arg) returns (r: Option<string>)
      ensures r == ValidPattern(pattern)
    {
      if pattern.Other? {
        return None;
      }
      var normalized := NormalizePattern(pattern.s);
      if normalized == [] || |normalized| < 4 {
        return None;
      }
      for i := 0 to |normalized|
        invariant forall j | 0 <= j < i :: normalized[j] == Shadda || IsArabicLetter(normalized[j])
      {
        var ch := normalized[i];
        if ch == Shadda {
          continue;
        }
        if !IsArabicLetter(ch) {
          return None;
        }
      }
      if Fa !in normalized || Ain !in normalized || Lam !in normalized {
        return None;
      }
      return Some(normalized);
    }

    /** Records bucket `idx`'s new chain entries, the association they now stand for, and its size. */
    method Record(idx: nat, ghost rules': map<string, string>, size': nat)
      requires idx < Capacity && Shape() && |contents| == Capacity
      requires forall i | 0 <= i < Capacity && i != idx :: buckets[i].entries == contents[i]
      requires Consistent(contents[idx := buckets[idx].entries], rules') && size' == |rules'|
      requires WellFormedRules(rules')
      modifies this
      ensures Valid() && Repr == old(Repr) && rules == rules'
      ensures contents == old(contents)[idx := buckets[idx].entries]
    {
      contents := contents[idx := buckets[idx].entries];
      rules := rules';
      size := size';
    }

    /** `insert`. */
    method Insert(pattern: Arg, rule: Option<string>) returns (r: Outcome<bool>)
      requires Valid()
      modifies Repr
      ensures Valid() && fresh(Repr - old(Repr))
      ensures r == Status(Inserted(old(rules), pattern, rule))
      ensures rules == Commit(Inserted(old(rules), pattern, rule), old(rules))
      ensures contents == InsertedBuckets(old(contents), old(rules), pattern, rule)
    {
      var normalized := NormalizeAndValidate(pattern);
      if normalized.None? {
        return Raised("Invalid pattern format.");
      }
      r := InsertValidPattern(pattern, rule, normalized.value);
    }

    /** `insert` once the pattern has passed validation: the rule is validated, then the pattern stored. */
    method InsertValidPattern(pattern: Arg, rule: Option<string>, n: string) returns (r: Outcome<bool>)
      requires Valid() && ValidPattern(pattern) == Some(n)
      modifies Repr
      ensures Valid() && fresh(Repr - old(Repr))
      ensures r == Status(Inserted(old(rules), pattern, rule))
      ensures rules == Commit(Inserted(old(rules), pattern, rule), old(rules))
      ensures contents == InsertedBuckets(old(contents), old(rules), pattern, rule)
    {
      var normalizedRule := NormalizeAndValidate(Str(RuleText(rule, n)));
      if normalizedRule.None? {
        return Raised("Invalid rule format.");
      }
      AddNormalized(rules, pattern, Str(RuleText(rule, n)));
      InsertedValid(contents, rules, pattern, rule, n, normalizedRule.value);
      var idx := Hash(n);
      var inserted := InsertNormalized(n, normalizedRule.value, idx);
      if !inserted {
        return Raised("Pattern already exists.");
      }
      return Returned(true);
    }

    /** The bucket step of `insert`, for a pattern and rule already normalised and validated. */
    method InsertNormalized(n: string, nr: string, idx: nat) returns (inserted: bool)
      requires Valid() && idx == HashOf(n) && WellFormedRules(rules[n := nr])
      modifies Repr
      ensures Valid() && fresh(Repr - old(Repr))
      ensures inserted <==> n !in old(rules)
      ensures rules == if inserted then old(rules)[n := nr] else old(rules)
      ensures contents == if inserted then old(contents)[idx := [Entry(n, nr)] + old(contents)[idx]] else old(contents)
    {
      assert Owns(idx);
      ConsistentBucket(contents, rules, idx);
      BucketHasKey(idx, contents[idx], rules, n);
      var chain := buckets[idx];
      inserted := chain.Insert(n, nr);
      Repr := Repr + chain.Repr;
      Reshaped(idx);
      if inserted {
        InsertKeeps(contents, rules, n, nr);
        Record(idx, rules[n := nr], size + 1);
      }
    }

    /** `contains`. */
    method Contains(pattern: Arg) returns (found: bool)
      requires Valid()
      ensures found == Has(rules, pattern)
    {
      var normalized := NormalizeAndValidate(pattern);
      if normalized.None? {
        return false;
      }
      var rule := FindRule(normalized.value);
      return rule.Some?;
    }

    /** `update`. */
    method Update(pattern: Arg, newRule: string) returns (r: Outcome<bool>)
      requires Valid()
      modifies Repr
      ensures Valid() && Repr == old(Repr)
      ensures r == Status(Updated(old(rules), pattern, newRule))
      ensures rules == Commit(Updated(old(rules), pattern, newRule), old(rules))
      ensures contents == UpdatedBuckets(old(contents), old(rules), pattern, newRule)
    {
      var normalized := NormalizeAndValidate(pattern);
      var normalizedRule := NormalizeAndValidate(Str(newRule));
      if normalized.None? {
        return Raised("Invalid pattern format.");
      }
      if normalizedRule.None? {
        return Raised("Invalid rule format.");
      }
      AddNormalized(rules, pattern, Str(newRule));
      var idx := Hash(normalized.value);
      var updated := UpdateNormalized(normalized.value, normalizedRule.value, idx);
      if !updated {
        return Raised("Pattern not found.");
      }
      return Returned(true);
    }

    /** The bucket step of `update`, for a pattern and rule already normalised and validated. */
    method UpdateNormalized(n: string, nr: string, idx: nat) returns (updated: bool)
      requires Valid() && idx == HashOf(n) && WellFormedRules(rules[n := nr])
      modifies Repr
      ensures Valid() && Repr == old(Repr)
      ensures updated <==> n in old(rules)
      ensures rules == if updated then old(rules)[n := nr] else old(rules)
      ensures contents == if updated then old(contents)[idx := WithRule(old(contents)[idx], n, nr)] else old(contents)
    {
      assert Owns(idx);
      ConsistentBucket(contents, rules, idx);
      BucketHasKey(idx, contents[idx], rules, n);
      var chain := buckets[idx];
      updated := chain.Update(n, nr);
      Reshaped(idx);
      if updated {
        UpdateKeeps(contents, rules, n, nr);
        Record(idx, rules[n := nr], size);
      }
    }


    /** `remove`. */
    method Remove(pattern: Arg) returns (r: Outcome<bool>)
      requires Valid()
      modifies Repr
      ensures Valid() && Repr == old(Repr)
      ensures r == Status(Removed(old(rules), pattern))
      ensures rules == Commit(Removed(old(rules), pattern), old(rules))
      ensures contents == RemovedBuckets(old(contents), old(rules), pattern)
    {
      var normalized := NormalizeAndValidate(pattern);
      if normalized.None? {
        return Raised("Invalid pattern format.");
      }
      var idx := Hash(normalized.value);
      var removed := RemoveNormalized(normalized.value, idx);
      if !removed {
        return Raised("Pattern not found.");
      }
      return Returned(true);
    }

    /** The bucket step of `remove`, for a pattern already normalised. */
    method RemoveNormalized(n: string, idx: nat) returns (removed: bool)
      requires Valid() && idx == HashOf(n)
      modifies Repr
      ensures Valid() && Repr == old(Repr)
      ensures removed <==> n in old(rules)
      ensures rules == if removed then old(rules) - {n} else old(rules)
      ensures contents == if removed then old(contents)[idx := WithoutPattern(old(contents)[idx], n)] else old(contents)
    {
      assert Owns(idx);
      ConsistentBucket(contents, rules, idx);
      BucketHasKey(idx, contents[idx], rules, n);
      var chain := buckets[idx];
      removed := chain.Remove(n);
      Reshaped(idx);
      if removed {
        RemoveKeeps(contents, rules, n);
        RemoveKeyCard(rules, n);
        Record(idx, rules - {n}, size - 1);
      }
    }

    /** The object layout survives a step that changed only bucket idx's objects and may have
      * added fresh ones to its footprint; every other bucket keeps its entries. */
    twostate lemma Reshaped(idx: nat)
      requires idx < Capacity && old(Shape())
      requires forall o | o in old(Repr) && o !in old(buckets[idx].Repr) && o != this :: unchanged(o)
      requires fresh(buckets[idx].Repr - old(buckets[idx].Repr))
      requires old(Repr) <= Repr && buckets[idx].Repr <= Repr && buckets[idx].Valid()
      ensures Shape()
      ensures forall i | 0 <= i < Capacity && i != idx :: buckets[i].entries == old(buckets[i].entries)
    {
      assert old(Owns(idx)) && old(allocated(this)) && old(allocated(buckets));
      assert unchanged(buckets);
      forall i | 0 <= i < Capacity ensures Owns(i) && (i != idx ==> buckets[i].entries == old(buckets[i].entries)) {
        assert old(Owns(i));
        if i == idx {
          assert this !in buckets[idx].Repr - old(buckets[idx].Repr);
          assert buckets !in buckets[idx].Repr - old(buckets[idx].Repr);
        }
        if i != idx {
          assert old(buckets[i].Repr !! buckets[idx].Repr);
          ChainFramed(buckets[i]);
        }
      }
      forall i, j | 0 <= i < j < Capacity ensures buckets[i].Repr !! buckets[j].Repr {
        assert old(Owns(i) && Owns(j) && buckets[i].Repr !! buckets[j].Repr);
        if i == idx || j == idx {
          var k := if i == idx then j else i;
          assert buckets[k].Repr == old(buckets[k].Repr);
          assert forall o | o in buckets[k].Repr :: old(allocated(o));
        }
      }
    }

    /** `get_rule`. */
    method GetRule(pattern: Arg) returns (rule: Option<string>)
      requires Valid()
      ensures rule == RuleOf(rules, pattern)
    {
      var normalized := NormalizeAndValidate(pattern);
      if normalized.None? {
        return None;
      }
      rule := FindRule(normalized.value);
    }

    /** The bucket step of `contains` and `get_rule`: the rule of a normalised pattern, if stored. */
    method FindRule(n: string) returns (rule: Option<string>)
      requires Valid()
      ensures rule.Some? <==> n in rules
      ensures rule.Some? ==> rule.value == rules[n]
    {
      var idx := Hash(n);
      assert Owns(idx);
      ConsistentBucket(contents, rules, idx);
      BucketHasKey(idx, contents[idx], rules, n);
      var node, k := buckets[idx].FindNode(n);
      if node == null {
        return None;
      }
      assert Agrees(idx, contents[idx][k], rules);
      return Some(node.rule);
    }

    /** `iter_patterns`: every stored pattern, bucket by bucket, each chain from its head. */
    method IterPatterns() returns (patterns: seq<string>)
      requires Valid()
      ensures patterns == PatternsOf(Flatten(contents))
      ensures NoDup(patterns) && |patterns| == |rules|
      ensures forall p :: p in patterns <==> p in rules
    {
      patterns := [];
      for i := 0 to buckets.Length
        invariant patterns == PatternsOf(Flatten(contents[..i]))
      {
        assert Owns(i);
        var chain := buckets[i];
        var current := chain.head;
        ghost var k := 0;
        ghost var start := patterns;
        while current != null
          invariant 0 <= k <= |chain.spine|
          invariant k < |chain.spine| ==> current == chain.spine[k]
          invariant k == |chain.spine| ==> current == null
          invariant patterns == start + PatternsOf(chain.entries[..k])
          decreases |chain.spine| - k
        {
          assert chain.entries[..k + 1] == chain.entries[..k] + [chain.entries[k]];
          PatternsOfAppend(chain.entries[..k], [chain.entries[k]]);
          patterns := patterns + [current.pattern];
          current := current.next;
          k := k + 1;
        }
        assert chain.entries[..k] == contents[i];
        assert contents[..i + 1][..i] == contents[..i];
        PatternsOfAppend(Flatten(contents[..i]), contents[i]);
      }
      assert contents[..Capacity] == contents;
      FlattenIsKeys(contents, rules);
    }

    /** `size`. */
    method Size() returns (n: nat)
      requires Valid()
      ensures n == |rules|
    {
      return size;
    }

    /** `load_patterns_from_file`, given the file's lines; answers how many inserts succeeded. */
    method LoadPatterns(lines: seq<string>) returns (count: nat)
      requires Valid()
      modifies Repr
      ensures Valid() && fresh(Repr - old(Repr))
      ensures rules == Loaded(old(rules), lines)
      ensures contents == LoadedBuckets(old(contents), old(rules), lines)
      ensures count == |rules| - |old(rules)|
    {
      count := 0;
      for i := 0 to |lines|
        invariant Valid() && fresh(Repr - old(Repr))
        invariant Loaded(rules, lines[i..]) == Loaded(old(rules), lines)
        invariant LoadedBuckets(contents, rules, lines[i..]) == LoadedBuckets(old(contents), old(rules), lines)
        invariant count + |old(rules)| == |rules|
      {
        var raw := Strip(lines[i]);
        assert lines[i..][1..] == lines[i + 1..];
        if raw == [] {
          continue;
        }
        ghost var before := rules;
        var r := Insert(Str(raw), None);
        if r.Returned? {
          InsertThenLookup(before, Str(raw), None);
          count := count + 1;
        }
      }
      assert lines[|lines|..] == [];
    }

    /** `derive`: the stored rule of the pattern, filled with the root's letters. */
    method Derive(rawRoot: string, pattern: Arg) returns (word: Option<string>)
      requires Valid()
      ensures word == DerivedWord(rules, rawRoot, pattern)
    {
      var rule := GetRule(pattern);
      if rule.None? {
        return None;
      }
      word := DeriveFromNormalizedPattern(rawRoot, rule.value);
    }
  }
}
